/** Worked examples of the whole front end, each derived from the general
    lemmas rather than by evaluation. */
module Scenarios {
  import opened Text
  import opened Tokenizer
  import opened Resolver
  import Statements
  import Launcher

  /** Leading unquoted whitespace is dropped. */
  lemma Lead(v: string)
    ensures Tokenize([' '] + v) == Tokenize(v)
  {
    SpaceSeparates([], ' ', v);
    assert [] + [' '] + v == [' '] + v;
  }

  /** An atom, a quoted span and an atom, separated by single spaces, give
      three tokens: the quoted one keeps its inner space and loses its quotes. */
  lemma WordQuotedWord(a: string, q: char, w: string, b: string)
    requires IsAtom(a) && IsAtom(b) && IsQuote(q) && q !in w
    ensures Tokenize(a + [' '] + [q] + w + [q] + [' '] + b) == [a, w, b]
  {
    assert [] + w == w;
    var v := [' '] + b;
    var s := a + [' '] + [q] + w + [q] + [' '] + b;
    assert s == a + [' '] + [] + [q] + w + [q] + v by {
      assert [] + [q] == [q];
    }
    AtomAlone(a);
    QuotedSpan(a, [], q, w, v);
    assert Tokenize(v) == [b] by {
      Lead(b);
      AtomAlone(b);
    }
  }

  /** A quoted span keeps its space and loses its quotes. */
  lemma QuotedArgument()
    ensures Tokenize("echo \"a b\" c") == ["echo", "a b", "c"]
  {
    assert IsAtom("echo") && IsAtom("c");
    WordQuotedWord("echo", '"', "a b", "c");
    assert "echo" + [' '] + ['"'] + "a b" + ['"'] + [' '] + "c" == "echo \"a b\" c";
  }

  /** Word characters directly before a quote merge into the quoted token. */
  lemma WordThenQuote(x: string, q: char, w: string)
    requires forall i :: 0 <= i < |x| ==> IsWordChar(x[i])
    requires IsQuote(q) && q !in w
    ensures Tokenize(x + [q] + w + [q]) == [x + w]
  {
    Lead(x + [q] + w + [q]);
    QuotedSpan([], x, q, w, []);
    assert [] + [' '] + x + [q] + w + [q] + [] == [' '] + (x + [q] + w + [q]);
    BlankHasNoTokens([]);
  }

  /** A word directly before a quote merges into the quoted token. */
  lemma WordMergesIntoQuote()
    ensures Tokenize("ab\"c d\"") == ["abc d"]
  {
    assert forall i :: 0 <= i < |"ab"| ==> IsWordChar("ab"[i]);
    WordThenQuote("ab", '"', "c d");
    assert "ab" + ['"'] + "c d" + ['"'] == "ab\"c d\"";
    assert "ab" + "c d" == "abc d";
  }

  /** An empty quoted span is one empty token. */
  lemma EmptyQuotes()
    ensures Tokenize("''") == [""]
  {
    Lead("''");
    QuotedSpan([], [], '\'', [], []);
    assert [] + [' '] + [] + ['\''] + [] + ['\''] + [] == [' '] + "''";
    BlankHasNoTokens([]);
  }

  /** A quoted "|" yields the same token as an unquoted one, so the resolver
      takes it for a pipe as well. */
  lemma QuotedPipeIsAPipe()
    ensures Tokenize("'|'") == ["|"] == Tokenize("|")
    ensures Resolve(Tokenize("'|'")).piped == Some([])
  {
    Lead("'|'");
    QuotedSpan([], [], '\'', "|", []);
    assert [] + [' '] + [] + ['\''] + "|" + ['\''] + [] == [' '] + "'|'";
    BlankHasNoTokens([]);
    assert [] + "|" == "|";
    assert Tokenize([' '] + "'|'") == [] + ["|"] + [];
    assert IsSpecial('|');
    AtomAlone("|");
    LonePipe();
  }

  const LsText: string := "ls -l > out.txt"
  const CatText: string := "cat < in.txt | wc -l"

  /** A non-empty run of ordinary characters is an atom. */
  lemma WordIsAtom(w: string)
    requires |w| > 0 && forall i :: 0 <= i < |w| ==> IsWordChar(w[i])
    ensures IsAtom(w)
  {
  }

  lemma JoinCons(a: string, rest: seq<string>)
    requires |rest| > 0
    ensures Join([a] + rest) == a + " " + Join(rest)
  {
    assert ([a] + rest)[1..] == rest;
  }

  lemma LsJoin()
    ensures Join(["ls", "-l", ">", "out.txt"]) == LsText
  {
    JoinCons(">", ["out.txt"]);
    JoinCons("-l", [">", "out.txt"]);
    JoinCons("ls", ["-l", ">", "out.txt"]);
  }

  lemma OutputRedirectionTokens()
    ensures Tokenize(LsText) == ["ls", "-l", ">", "out.txt"]
  {
    var ts := ["ls", "-l", ">", "out.txt"];
    WordIsAtom("ls");
    WordIsAtom("-l");
    WordIsAtom("out.txt");
    assert IsAtom(">");
    assert forall i :: 0 <= i < |ts| ==> IsAtom(ts[i]);
    LsJoin();
    TokenizeJoin(ts);
  }

  lemma OutputRedirectionResolves()
    ensures Resolve(["ls", "-l", ">", "out.txt"]) == Command(["ls", "-l"], None, None, Some("out.txt"))
  {
    var ts := ["ls", "-l", ">", "out.txt"];
    assert FirstIndex(ts, "|") == 4;
    assert ts[..4] == ts;
    assert FirstRedirect(ts) == 2;
    assert LastIndex(ts, ">") == Some(2);
    assert LastIndex(ts, "<") == None;
  }

  /** `ls -l > out.txt` is four tokens; it runs `ls -l` alone with its standard
      output on `out.txt` and its standard input inherited. */
  lemma OutputRedirection()
    ensures Tokenize(LsText) == ["ls", "-l", ">", "out.txt"]
    ensures Launcher.Plan(Resolve(Tokenize(LsText)))
            == Launcher.Single(Launcher.Stage(["ls", "-l"], Launcher.Inherited, Launcher.WriteFile("out.txt")))
  {
    OutputRedirectionTokens();
    OutputRedirectionResolves();
  }

  lemma CatJoin()
    ensures Join(["cat", "<", "in.txt", "|", "wc", "-l"]) == CatText
  {
    JoinCons("wc", ["-l"]);
    JoinCons("|", ["wc", "-l"]);
    JoinCons("in.txt", ["|", "wc", "-l"]);
    JoinCons("<", ["in.txt", "|", "wc", "-l"]);
    JoinCons("cat", ["<", "in.txt", "|", "wc", "-l"]);
  }

  lemma InputRedirectionAndPipeTokens()
    ensures Tokenize(CatText) == ["cat", "<", "in.txt", "|", "wc", "-l"]
  {
    var ts := ["cat", "<", "in.txt", "|", "wc", "-l"];
    WordIsAtom("cat");
    WordIsAtom("in.txt");
    WordIsAtom("wc");
    WordIsAtom("-l");
    assert IsAtom("<") && IsAtom("|");
    assert forall i :: 0 <= i < |ts| ==> IsAtom(ts[i]);
    CatJoin();
    TokenizeJoin(ts);
  }

  lemma InputRedirectionAndPipeResolves()
    ensures Resolve(["cat", "<", "in.txt", "|", "wc", "-l"])
            == Command(["cat"], Some(["wc", "-l"]), Some("in.txt"), None)
  {
    var ts := ["cat", "<", "in.txt", "|", "wc", "-l"];
    assert FirstIndex(ts, "|") == 3;
    var scanned := ts[..3];
    assert scanned == ["cat", "<", "in.txt"];
    assert FirstRedirect(scanned) == 1;
    assert LastIndex(scanned, "<") == Some(1);
    assert LastIndex(scanned, ">") == None;
    assert ts[4..] == ["wc", "-l"];
  }

  /** `cat < in.txt | wc -l` is six tokens; `cat` reads `in.txt` and writes the
      pipe, and `wc -l` reads the pipe and writes the shell's standard output. */
  lemma InputRedirectionAndPipe()
    ensures Tokenize(CatText) == ["cat", "<", "in.txt", "|", "wc", "-l"]
    ensures Launcher.Plan(Resolve(Tokenize(CatText)))
            == Launcher.Pipeline(
                 Launcher.Stage(["cat"], Launcher.ReadFile("in.txt"), Launcher.PipeWriteEnd),
                 Launcher.Stage(["wc", "-l"], Launcher.PipeReadEnd, Launcher.Inherited))
  {
    InputRedirectionAndPipeTokens();
    InputRedirectionAndPipeResolves();
  }

  /** A lone pipe resolves to two empty argument vectors. */
  lemma LonePipe()
    ensures Resolve(["|"]) == Command([], Some([]), None, None)
  {
    var ts := ["|"];
    assert FirstIndex(ts, "|") == 0;
    assert ts[..0] == [];
    assert ts[1..] == [];
  }

  /** A redirection after the pipe is not interpreted: it stays in the right argv. */
  lemma RedirectionAfterPipe()
    ensures Resolve(["a", "|", "b", ">", "f"]) == Command(["a"], Some(["b", ">", "f"]), None, None)
  {
    var ts := ["a", "|", "b", ">", "f"];
    assert FirstIndex(ts, "|") == 1;
    assert ts[..1] == ["a"];
    assert FirstRedirect(["a"]) == 1;
    assert LastIndex(["a"], "<") == None;
    assert LastIndex(["a"], ">") == None;
    assert ts[2..] == ["b", ">", "f"];
  }

  /** The last "<" wins. */
  lemma LastInputWins()
    ensures Resolve(["sort", "<", "a", "<", "b"]).input == Some("b")
  {
    var ts := ["sort", "<", "a", "<", "b"];
    assert FirstIndex(ts, "|") == 5;
    assert ts[..5] == ts;
    assert LastIndex(ts, "<") == Some(3);
  }

  /** Arguments after a redirection's file are dropped from the argv. */
  lemma ArgumentsAfterRedirectionDropped()
    ensures Resolve(["echo", ">", "f", "x"]).argv == ["echo"]
  {
    var ts := ["echo", ">", "f", "x"];
    assert FirstIndex(ts, "|") == 4;
    assert ts[..4] == ts;
    assert FirstRedirect(ts) == 1;
  }

  /** A marker as the final token leaves no file, even when an earlier one named one. */
  lemma TrailingMarkerNamesNoFile()
    ensures Resolve(["cat", "<", "a", "<"]).input == None
  {
    var ts := ["cat", "<", "a", "<"];
    assert FirstIndex(ts, "|") == 4;
    assert ts[..4] == ts;
    assert LastIndex(ts, "<") == Some(3);
  }

  /** Two runs free of ';' around one separator are two statements. */
  lemma TwoStatements(a: string, b: string)
    requires |a| > 0 && |b| > 0 && ';' !in a && ';' !in b
    ensures Statements.Split(a + [';'] + b) == [a, b]
  {
    var s := a + [';'] + b;
    Statements.SplitIsNonEmptyFields(s);
    Statements.FieldsAtSeparator(a, b);
    Statements.FieldsOfRun(a);
    Statements.FieldsOfRun(b);
    Statements.NonEmptyAppend([a], [b]);
  }

  /** The splitter ignores quotes: a ';' inside them still splits. */
  lemma QuotedSemicolonSplits()
    ensures Statements.Split("echo 'a;b'") == ["echo 'a", "b'"]
  {
    TwoStatements("echo 'a", "b'");
    assert "echo 'a" + [';'] + "b'" == "echo 'a;b'";
  }
}
