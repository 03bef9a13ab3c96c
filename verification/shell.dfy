/** One pass of the shell's read loop (shell.c `main`) after the line has been
    read: the newline cut, the `prev` history, the split into statements, and for
    each statement either a built-in or an external command to launch. */
module Shell {
  import opened Text
  import Statements
  import Tokenizer
  import Resolver
  import Launcher

  /** The result of the `prev` check: the line that goes on to run, if any, and
      the history (`prev_cmd`) afterwards. */
  datatype Recall = Recall(run: Option<string>, history: string)

  /** "prev" runs the stored line, or nothing when none is stored; any other line
      (the empty line included) runs and becomes the stored line. */
  function RecallPrev(history: string, line: string): (r: Recall)
    ensures r.run.Some? ==> r.history == r.run.value
    ensures r.run.None? <==> line == "prev" && |history| == 0
    ensures r.run.None? ==> r.history == history
    ensures line != "prev" ==> r.run == Some(line)
  {
    if line == "prev" then
      if |history| == 0 then Recall(None, history) else Recall(Some(history), history)
    else Recall(Some(line), line)
  }

  /** The word "prev" is never stored, so the line "prev" runs never recurses. */
  lemma PrevNeverStored(history: string, line: string)
    requires history != "prev"
    ensures RecallPrev(history, line).history != "prev"
    ensures RecallPrev(history, line).run != Some("prev")
  {
  }

  /** "prev" right after a non-empty line runs that line again and leaves the
      history as it was. */
  lemma PrevReplays(history: string, line: string)
    requires line != "prev" && |line| > 0
    ensures var h := RecallPrev(history, line).history;
            RecallPrev(h, "prev") == Recall(Some(line), h)
  {
  }

  /** An empty line clears the history: a "prev" after it runs nothing. */
  lemma EmptyLineClearsHistory(history: string)
    ensures RecallPrev(history, "") == Recall(Some(""), "")
    ensures RecallPrev(RecallPrev(history, "").history, "prev").run == None
  {
  }

  /** What one statement does. */
  datatype Action =
    | Exit
    | ChangeDir(dir: Option<string>)
    | RunScript(file: Option<string>)
    | Help
    | Launch(plan: Launcher.LaunchPlan)

  const Builtins: set<string> := {"exit", "cd", "source", "help"}

  /** `tokens[1]`, or NULL. */
  function Argument(tokens: seq<string>): Option<string>
  {
    if |tokens| > 1 then Some(tokens[1]) else None
  }

  /** The built-in dispatch on `tokens[0]`; an empty token list is skipped. */
  function Dispatch(tokens: seq<string>): (a: Option<Action>)
    ensures a.None? <==> |tokens| == 0
    ensures |tokens| > 0 && tokens[0] == "exit" ==> a == Some(Exit)
    ensures |tokens| > 0 && tokens[0] == "cd" ==> a == Some(ChangeDir(Argument(tokens)))
    ensures |tokens| > 0 && tokens[0] == "source" ==> a == Some(RunScript(Argument(tokens)))
    ensures |tokens| > 0 && tokens[0] == "help" ==> a == Some(Help)
    ensures |tokens| > 0 && tokens[0] !in Builtins ==>
              a == Some(Launch(Launcher.Plan(Resolver.Resolve(tokens))))
  {
    if |tokens| == 0 then None
    else if tokens[0] == "exit" then Some(Exit)
    else if tokens[0] == "cd" then Some(ChangeDir(Argument(tokens)))
    else if tokens[0] == "source" then Some(RunScript(Argument(tokens)))
    else if tokens[0] == "help" then Some(Help)
    else Some(Launch(Launcher.Plan(Resolver.Resolve(tokens))))
  }

  /** Reference: what each statement that has tokens would do, in order, were
      the shell never to stop. */
  function Dispatched(statements: seq<string>): seq<Action>
  {
    Somes(seq(|statements|, i requires 0 <= i < |statements| => Dispatch(Tokenizer.Tokenize(statements[i]))))
  }

  lemma DispatchedCons(statements: seq<string>)
    requires |statements| > 0
    ensures Dispatched(statements) ==
            (match Dispatch(Tokenizer.Tokenize(statements[0])) case None => [] case Some(a) => [a])
            + Dispatched(statements[1..])
  {
    var all := seq(|statements|, i requires 0 <= i < |statements| => Dispatch(Tokenizer.Tokenize(statements[i])));
    var rest := statements[1..];
    assert all[1..] == seq(|rest|, i requires 0 <= i < |rest| => Dispatch(Tokenizer.Tokenize(rest[i])));
  }

  /** `actions` is `all` up to and including its first `Exit`. */
  predicate CutAfterExit(actions: seq<Action>, all: seq<Action>)
  {
    && actions <= all
    && (forall i :: 0 <= i < |actions| - 1 ==> !actions[i].Exit?)
    && (|actions| < |all| ==> |actions| > 0 && actions[|actions| - 1].Exit?)
  }

  lemma CutAfterExitCons(a: Action, actions: seq<Action>, all: seq<Action>)
    requires !a.Exit? && CutAfterExit(actions, all)
    ensures CutAfterExit([a] + actions, [a] + all)
  {
    var r := [a] + actions;
    forall i | 0 <= i < |r| - 1
      ensures !r[i].Exit?
    {
      if i > 0 {
        assert r[i] == actions[i - 1];
      }
    }
  }

  /** One statement more in front: its action, if any, comes first, and an
      `Exit` cuts everything after it. */
  lemma PerformStep(statements: seq<string>, d: Option<Action>, rest: seq<Action>)
    requires |statements| > 0 && d == Dispatch(Tokenizer.Tokenize(statements[0]))
    requires CutAfterExit(rest, Dispatched(statements[1..]))
    ensures CutAfterExit(match d case None => rest case Some(a) => if a.Exit? then [a] else [a] + rest,
                         Dispatched(statements))
  {
    DispatchedCons(statements);
    if d.Some? && !d.value.Exit? {
      CutAfterExitCons(d.value, rest, Dispatched(statements[1..]));
    }
  }

  /** The statements of one line, run left to right; "exit" ends the shell,
      so nothing after it runs. The actions are the dispatched ones up to and
      including the first `Exit`. */
  function Perform(statements: seq<string>): (actions: seq<Action>)
    ensures |actions| <= |statements|
    ensures CutAfterExit(actions, Dispatched(statements))
    decreases |statements|
  {
    if |statements| == 0 then []
    else
      var d := Dispatch(Tokenizer.Tokenize(statements[0]));
      var rest := Perform(statements[1..]);
      PerformStep(statements, d, rest);
      match d
      case None => rest
      case Some(a) => if a.Exit? then [a] else [a] + rest
  }

  /** Without an `exit`, every statement that has tokens runs. */
  lemma PerformWithoutExit(statements: seq<string>)
    requires forall i :: 0 <= i < |Dispatched(statements)| ==> !Dispatched(statements)[i].Exit?
    ensures Perform(statements) == Dispatched(statements)
  {
  }

  datatype LineOutcome = LineOutcome(history: string, actions: seq<Action>)

  /** One line of input, from the raw text `fgets` returned: the line is cut at
      its newline, "prev" replaces it by the stored line, and what runs is split
      into statements that are dispatched in order. */
  function ProcessLine(history: string, raw: string): (r: LineOutcome)
    ensures history != "prev" ==> r.history != "prev"
    ensures '\n' !in r.history || r.history == history
    ensures Statements.CutLine(raw) != "prev" ==>
              r == LineOutcome(Statements.CutLine(raw), Perform(Statements.Split(Statements.CutLine(raw))))
    ensures Statements.CutLine(raw) == "prev" ==>
              r == LineOutcome(history, if |history| == 0 then [] else Perform(Statements.Split(history)))
    ensures |r.actions| <= |Statements.Split(r.history)|
  {
    var line := Statements.CutLine(raw);
    var recall := RecallPrev(history, line);
    LineOutcome(
      recall.history,
      if recall.run.Some? then Perform(Statements.Split(recall.run.value)) else [])
  }

  // ---------------------------------------------------------------------------

  predicate Blank(s: string)
  {
    forall i :: 0 <= i < |s| ==> s[i] == ';' || Tokenizer.IsSpace(s[i])
  }

  lemma {:induction false} BlankStatements(s: string)
    requires Blank(s)
    ensures forall i :: 0 <= i < |Statements.Split(s)| ==>
              forall j :: 0 <= j < |Statements.Split(s)[i]| ==> Tokenizer.IsSpace(Statements.Split(s)[i][j])
    decreases |s|
  {
    if |s| > 0 {
      if s[0] == ';' {
        BlankStatements(s[1..]);
      } else {
        var k := Statements.FieldEnd(s);
        if k < |s| {
          BlankStatements(s[k + 1..]);
          assert Statements.Split(s) == [s[..k]] + Statements.Split(s[k + 1..]);
          forall j | 0 <= j < k
            ensures Tokenizer.IsSpace(s[..k][j])
          {
            assert s[..k][j] in s[..k];
          }
        }
      }
    }
  }

  lemma {:induction false} PerformBlank(statements: seq<string>)
    requires forall i :: 0 <= i < |statements| ==>
               forall j :: 0 <= j < |statements[i]| ==> Tokenizer.IsSpace(statements[i][j])
    ensures Perform(statements) == []
    decreases |statements|
  {
    if |statements| > 0 {
      Tokenizer.BlankHasNoTokens(statements[0]);
      PerformBlank(statements[1..]);
    }
  }

  /** A line made only of separators and whitespace runs nothing: every statement
      of it tokenizes to nothing and is skipped. It still replaces the history. */
  lemma BlankLineRunsNothing(history: string, raw: string)
    requires Blank(Statements.CutLine(raw)) && Statements.CutLine(raw) != "prev"
    ensures ProcessLine(history, raw) == LineOutcome(Statements.CutLine(raw), [])
  {
    var line := Statements.CutLine(raw);
    BlankStatements(line);
    PerformBlank(Statements.Split(line));
  }

  /** Only the exact line "prev" recalls: "prev " is an ordinary line that is
      stored, and its one statement launches an external program named "prev". */
  const PrevBlank: string := "prev "

  lemma PrevBlankIsOneStatement()
    ensures Statements.CutLine(PrevBlank) == PrevBlank
    ensures Statements.Split(PrevBlank) == [PrevBlank]
  {
    assert Statements.FieldEnd(PrevBlank) == |PrevBlank|;
  }

  /** A word followed by one blank is that word alone. */
  lemma AtomThenBlank(w: string)
    requires Tokenizer.IsAtom(w)
    ensures Tokenizer.Tokenize(w + [' ']) == [w]
  {
    Tokenizer.AtomAlone(w);
    Tokenizer.SpaceSeparates(w, ' ', []);
    Tokenizer.BlankHasNoTokens([]);
    assert w + [' '] + [] == w + [' '];
  }

  lemma PrevBlankTokens()
    ensures Tokenizer.Tokenize(PrevBlank) == ["prev"]
  {
    var w := PrevBlank[..4];
    assert w == "prev" && PrevBlank == w + [' '];
    assert Tokenizer.IsAtom(w) by {
      assert forall i :: 0 <= i < |w| ==> Tokenizer.IsWordChar(w[i]);
    }
    AtomThenBlank(w);
  }

  lemma PrevWithTrailingBlankLaunches(history: string)
    ensures ProcessLine(history, PrevBlank)
            == LineOutcome(PrevBlank, [Launch(Launcher.Plan(Resolver.Resolve(["prev"])))])
  {
    PrevBlankIsOneStatement();
    PrevBlankTokens();
    var launch := Launch(Launcher.Plan(Resolver.Resolve(["prev"])));
    assert Dispatch(Tokenizer.Tokenize(PrevBlank)) == Some(launch);
    assert [PrevBlank][1..] == [];
    assert Perform([PrevBlank]) == [launch] + Perform([]);
  }
}
