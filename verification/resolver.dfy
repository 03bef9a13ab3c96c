/** The marker scan of `execute_command` (shell.c): one pass over the
    NULL-terminated token array that stops at the first "|" and, before it,
    overwrites each "<" and ">" with NULL while remembering the token after it
    as the input or output file. The argument vector handed to `execvp` is the
    array read up to its first NULL. */
module Resolver {
  import opened Text

  predicate IsRedirect(t: string)
  {
    t == "<" || t == ">"
  }

  predicate IsMarker(t: string)
  {
    t == "|" || IsRedirect(t)
  }

  /** What a statement resolves to: the argument vector of the (left) command,
      the argument vector after the first "|" when there is one, and the input
      and output files. */
  datatype Command = Command(
    argv: seq<string>,
    piped: Option<seq<string>>,
    input: Option<string>,
    output: Option<string>)

  /** Index of the first `x` in `ts`, or `|ts|`. */
  function FirstIndex(ts: seq<string>, x: string): (i: nat)
    ensures i <= |ts|
    ensures i < |ts| ==> ts[i] == x
    ensures forall j :: 0 <= j < i ==> ts[j] != x
  {
    if |ts| == 0 || ts[0] == x then 0 else 1 + FirstIndex(ts[1..], x)
  }

  /** Index of the first "<" or ">" in `ts`, or `|ts|`. */
  function FirstRedirect(ts: seq<string>): (i: nat)
    ensures i <= |ts|
    ensures i < |ts| ==> IsRedirect(ts[i])
    ensures forall j :: 0 <= j < i ==> !IsRedirect(ts[j])
  {
    if |ts| == 0 || IsRedirect(ts[0]) then 0 else 1 + FirstRedirect(ts[1..])
  }

  /** Index of the last `x` in `ts`, if any. */
  function LastIndex(ts: seq<string>, x: string): (r: Option<nat>)
    ensures r.None? ==> forall j :: 0 <= j < |ts| ==> ts[j] != x
    ensures r.Some? ==> r.value < |ts| && ts[r.value] == x
    ensures r.Some? ==> forall j :: r.value < j < |ts| ==> ts[j] != x
    decreases |ts|
  {
    if |ts| == 0 then None
    else if ts[|ts| - 1] == x then Some(|ts| - 1)
    else LastIndex(ts[..|ts| - 1], x)
  }

  /** The token right after position `at`, read through the array: the sentinel
      (no file) when `at` is the last token. */
  function Operand(tokens: seq<string>, at: Option<nat>): Option<string>
  {
    if at.Some? && at.value + 1 < |tokens| then Some(tokens[at.value + 1]) else None
  }

  /** The meaning of the scan, stated on the tokens. */
  function Resolve(tokens: seq<string>): Command
  {
    var p := FirstIndex(tokens, "|");
    var scanned := tokens[..p];
    var k := FirstRedirect(scanned);
    Command(
      tokens[..k],
      if p < |tokens| then Some(tokens[p + 1..]) else None,
      Operand(tokens, LastIndex(scanned, "<")),
      Operand(tokens, LastIndex(scanned, ">")))
  }

  /** The argv handed to `execvp` is the tokens before the first "<", ">" or "|":
      marker tokens never reach it, and the statement is piped exactly when it
      holds a "|". */
  lemma ResolveArgv(tokens: seq<string>)
    ensures var cmd := Resolve(tokens);
            && cmd.argv <= tokens
            && (forall j :: 0 <= j < |cmd.argv| ==> !IsMarker(cmd.argv[j]))
            && (|cmd.argv| < |tokens| ==> IsMarker(tokens[|cmd.argv|]))
            && (cmd.piped.Some? <==> "|" in tokens)
  {
  }

  /** Only the first "|" splits: the right-hand argv is every token after it,
      verbatim, including any later "|", "<" or ">", and the "|" itself is in
      neither argv. */
  lemma ResolvePipe(tokens: seq<string>)
    requires "|" in tokens
    ensures var cmd := Resolve(tokens);
            var p := |tokens| - |cmd.piped.value| - 1;
            && 0 <= p && tokens[p] == "|" && "|" !in tokens[..p]
            && cmd.piped.value == tokens[p + 1..]
            && |cmd.argv| <= p
  {
  }

  /** The input (output) file is the operand of the last "<" (">") before the
      first "|"; a redirection after the pipe is never read, and when that last
      marker is the final token there is no file. */
  lemma ResolveFiles(tokens: seq<string>, i: nat)
    requires i < FirstIndex(tokens, "|") && IsRedirect(tokens[i])
    requires forall j :: i < j < FirstIndex(tokens, "|") ==> tokens[j] != tokens[i]
    ensures var cmd := Resolve(tokens);
            var file := if i + 1 < |tokens| then Some(tokens[i + 1]) else None;
            if tokens[i] == "<" then cmd.input == file else cmd.output == file
  {
    var p := FirstIndex(tokens, "|");
    var at := LastIndex(tokens[..p], tokens[i]);
    assert at == Some(i) by {
      LastBeforePipe(tokens, p, i);
    }
    var file := if i + 1 < |tokens| then Some(tokens[i + 1]) else None;
    assert Operand(tokens, at) == file;
    if tokens[i] == "<" {
      assert Resolve(tokens).input == Operand(tokens, at);
    } else {
      assert Resolve(tokens).output == Operand(tokens, at);
    }
  }

  /** Without a "<" (">") before the first "|" there is no input (output)
      file, whatever follows the pipe. */
  lemma ResolveNoFiles(tokens: seq<string>)
    ensures "<" !in tokens[..FirstIndex(tokens, "|")] ==> Resolve(tokens).input == None
    ensures ">" !in tokens[..FirstIndex(tokens, "|")] ==> Resolve(tokens).output == None
  {
  }

  /** The marker at `i`, not repeated before the first "|" at `p`, is the last of
      its kind in the scanned prefix. */
  lemma LastBeforePipe(tokens: seq<string>, p: nat, i: nat)
    requires i < p <= |tokens|
    requires forall j :: i < j < p ==> tokens[j] != tokens[i]
    ensures LastIndex(tokens[..p], tokens[i]) == Some(i)
  {
    var scanned := tokens[..p];
    forall j | i < j < |scanned|
      ensures scanned[j] != tokens[i]
    {
      assert scanned[j] == tokens[j];
    }
    LastIndexIs(scanned, i, tokens[i]);
  }

  lemma FirstIndexIs(ts: seq<string>, i: nat, x: string)
    requires i <= |ts| && (i < |ts| ==> ts[i] == x)
    requires forall j :: 0 <= j < i ==> ts[j] != x
    ensures FirstIndex(ts, x) == i
  {
    var f := FirstIndex(ts, x);
    assert !(f < i) && !(i < f);
  }

  lemma LastIndexIs(ts: seq<string>, i: nat, x: string)
    requires i < |ts| && ts[i] == x
    requires forall j :: i < j < |ts| ==> ts[j] != x
    ensures LastIndex(ts, x) == Some(i)
  {
    assert LastIndex(ts, x).Some?;
  }

  /** The token array as `tokenize` hands it over: every token, then the NULL sentinel. */
  function Terminated(tokens: seq<string>): (args: seq<Option<string>>)
    ensures |args| == |tokens| + 1
    ensures args[|tokens|] == None
    ensures forall j :: 0 <= j < |tokens| ==> args[j] == Some(tokens[j])
  {
    seq(|tokens| + 1, j requires 0 <= j <= |tokens| => if j < |tokens| then Some(tokens[j]) else None)
  }

  /** The C string array that starts at `from`, read up to its first NULL. */
  function UntilNull(args: seq<Option<string>>, from: nat): seq<string>
    decreases |args| - from
  {
    if from >= |args| || args[from].None? then [] else [args[from].value] + UntilNull(args, from + 1)
  }

  lemma {:induction false} UntilNullReads(args: seq<Option<string>>, tokens: seq<string>, from: nat, end: nat)
    requires from <= end < |args| && end <= |tokens|
    requires args[end].None?
    requires forall j :: from <= j < end ==> args[j] == Some(tokens[j])
    ensures UntilNull(args, from) == tokens[from..end]
    decreases end - from
  {
    if from < end {
      UntilNullReads(args, tokens, from + 1, end);
      assert tokens[from..end] == [tokens[from]] + tokens[from + 1..end];
    }
  }

  lemma LastIndexSnoc(ts: seq<string>, i: nat, x: string)
    requires i < |ts|
    ensures LastIndex(ts[..i + 1], x) == if ts[i] == x then Some(i) else LastIndex(ts[..i], x)
  {
    assert ts[..i + 1][..i] == ts[..i];
  }

  /** The array during the scan, once the tokens before `upto` have been
      visited: each "<" and ">" among them overwritten with NULL, the rest of the
      tokens as `tokenize` left them, then the sentinel. */
  function Marked(tokens: seq<string>, upto: nat): (args: seq<Option<string>>)
    requires upto <= |tokens|
    ensures |args| == |tokens| + 1 && args[|tokens|] == None
    ensures forall j :: 0 <= j < |tokens| ==>
              args[j] == if j < upto && IsRedirect(tokens[j]) then None else Some(tokens[j])
  {
    seq(|tokens| + 1, j requires 0 <= j <= |tokens| =>
      if j < |tokens| && !(j < upto && IsRedirect(tokens[j])) then Some(tokens[j]) else None)
  }

  /** Visiting one more token blanks it exactly when it is a redirection. */
  lemma MarkStep(tokens: seq<string>, i: nat)
    requires i < |tokens|
    ensures Marked(tokens, i + 1) == if IsRedirect(tokens[i]) then Marked(tokens, i)[i := None] else Marked(tokens, i)
  {
    var before, after := Marked(tokens, i), Marked(tokens, i + 1);
    var expected := if IsRedirect(tokens[i]) then before[i := None] else before;
    assert |after| == |expected|;
    forall j | 0 <= j < |after|
      ensures after[j] == expected[j]
    {
    }
  }

  /** The slot after a marker at `i` still holds the next token, or the sentinel:
      reading it gives the marker's operand. */
  lemma MarkedAhead(tokens: seq<string>, i: nat)
    requires i < |tokens|
    ensures Marked(tokens, i)[i] == Some(tokens[i])
    ensures Marked(tokens, i)[i + 1] == Operand(tokens, Some(i))
  {
  }

  /** The array left by the scan: the loop's marks, and a NULL over the first
      "|" when there is one. */
  function Final(tokens: seq<string>): (args: seq<Option<string>>)
  {
    var p := FirstIndex(tokens, "|");
    if p < |tokens| then Marked(tokens, p)[p := None] else Marked(tokens, p)
  }

  /** The array left by the scan, read from its start through its first NULL,
      is the argv of `Resolve`. */
  lemma SplicedArgv(tokens: seq<string>)
    ensures UntilNull(Final(tokens), 0) == Resolve(tokens).argv
  {
    var p := FirstIndex(tokens, "|");
    var args := Final(tokens);
    var k := FirstRedirect(tokens[..p]);
    assert Resolve(tokens).argv == tokens[..k];
    assert |args| == |tokens| + 1;
    assert args[k] == None;
    forall j | 0 <= j < k
      ensures args[j] == Some(tokens[j])
    {
      assert tokens[..p][j] == tokens[j];
    }
    UntilNullReads(args, tokens, 0, k);
  }

  /** Read from just after the "|", the array is the right-hand argv of `Resolve`. */
  lemma SplicedPiped(tokens: seq<string>, p: nat)
    requires p == FirstIndex(tokens, "|") < |tokens|
    ensures Resolve(tokens).piped == Some(UntilNull(Final(tokens), p + 1))
  {
    var marked := Marked(tokens, p);
    var args := marked[p := None];
    assert args == Final(tokens);
    assert Resolve(tokens).piped.value == tokens[p + 1..];
    forall j | p + 1 <= j < |tokens|
      ensures args[j] == Some(tokens[j])
    {
      assert args[j] == marked[j];
    }
    UntilNullReads(args, tokens, p + 1, |tokens|);
    assert UntilNull(args, p + 1) == tokens[p + 1..];
    assert UntilNull(Final(tokens), p + 1) == tokens[p + 1..];
  }

  /** The loop of `execute_command`: it walks the NULL-terminated array up to
      the sentinel or the first "|", overwriting each "<" and ">" with NULL in
      place and keeping the token after it (read through the array, so possibly
      the sentinel) as the input or output file; a later marker of the same
      kind replaces an earlier one's file. */
  method MarkRedirections(tokens: seq<string>)
    returns (args: seq<Option<string>>, stop: nat, inputFile: Option<string>, outputFile: Option<string>)
    ensures stop == FirstIndex(tokens, "|")
    ensures args == Marked(tokens, stop)
    ensures inputFile == Operand(tokens, LastIndex(tokens[..stop], "<"))
    ensures outputFile == Operand(tokens, LastIndex(tokens[..stop], ">"))
  {
    args := Terminated(tokens);
    assert args == Marked(tokens, 0);
    inputFile := None;
    outputFile := None;
    ghost var lastIn: Option<nat> := None;
    ghost var lastOut: Option<nat> := None;
    var i := 0;
    while args[i].Some? && args[i] != Some("|")
      invariant 0 <= i <= |tokens|
      invariant args == Marked(tokens, i)
      invariant forall j :: 0 <= j < i ==> tokens[j] != "|"
      invariant lastIn == LastIndex(tokens[..i], "<") && inputFile == Operand(tokens, lastIn)
      invariant lastOut == LastIndex(tokens[..i], ">") && outputFile == Operand(tokens, lastOut)
      decreases |tokens| - i
    {
      LastIndexSnoc(tokens, i, "<");
      LastIndexSnoc(tokens, i, ">");
      MarkStep(tokens, i);
      MarkedAhead(tokens, i);
      if args[i] == Some("<") {
        args := args[i := None];
        inputFile := args[i + 1];
        lastIn := Some(i);
      } else if args[i] == Some(">") {
        args := args[i := None];
        outputFile := args[i + 1];
        lastOut := Some(i);
      }
      i := i + 1;
    }
    FirstIndexIs(tokens, i, "|");
    stop := i;
  }

  /** The whole scan of `execute_command`: the loop, then a NULL over the "|"
      when it stopped at one. The results agree with `Resolve`: the argv handed
      to `execvp` ends at the first marker, the right-hand argv is every token
      after the first "|", and the files are the operands of the last "<" and
      ">" before it. */
  method ScanMarkers(tokens: seq<string>)
    returns (args: seq<Option<string>>, pipeIndex: int, inputFile: Option<string>, outputFile: Option<string>)
    ensures |args| == |tokens| + 1
    ensures UntilNull(args, 0) == Resolve(tokens).argv
    ensures pipeIndex >= 0 <==> Resolve(tokens).piped.Some?
    ensures pipeIndex >= 0 ==> pipeIndex < |tokens| && UntilNull(args, pipeIndex + 1) == Resolve(tokens).piped.value
    ensures inputFile == Resolve(tokens).input
    ensures outputFile == Resolve(tokens).output
    ensures pipeIndex >= 0 ==> pipeIndex == FirstIndex(tokens, "|")
    ensures args == Final(tokens)
  {
    var stop;
    args, stop, inputFile, outputFile := MarkRedirections(tokens);
    pipeIndex := -1;
    if stop < |tokens| {
      pipeIndex := stop;
      args := args[stop := None];
      SplicedPiped(tokens, stop);
    }
    assert args == Final(tokens);
    SplicedArgv(tokens);
  }
}
