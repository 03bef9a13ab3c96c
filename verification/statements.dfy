/** Line preprocessing in the shell's read loop (shell.c): the line is cut at
    its first newline and then split into statements with `strtok(line, ";")`,
    which ignores quoting and never yields an empty piece. */
module Statements {
  import opened Text

  /** The line after `input[strcspn(input, "\n")] = '\0'`: everything before the
      first newline. A NUL character ends a C string as well, so it cuts too. */
  function CutLine(raw: string): (line: string)
    ensures line <= raw
    ensures '\n' !in line && '\0' !in line
    ensures |line| < |raw| ==> raw[|line|] == '\n' || raw[|line|] == '\0'
  {
    if |raw| == 0 || raw[0] == '\n' || raw[0] == '\0' then []
    else [raw[0]] + CutLine(raw[1..])
  }

  /** Index of the first ';' in `s`, or `|s|` when there is none. */
  function FieldEnd(s: string): (k: nat)
    ensures k <= |s|
    ensures ';' !in s[..k]
    ensures k < |s| ==> s[k] == ';'
  {
    if |s| == 0 || s[0] == ';' then 0
    else
      var k := 1 + FieldEnd(s[1..]);
      assert s[..k] == [s[0]] + s[1..][..k - 1];
      k
  }

  /** The statements the successive `strtok(…, ";")` calls return, in order:
      leading separators are skipped, a piece runs to the next ';' (or the end),
      and that ';' is consumed. */
  function Split(s: string): (statements: seq<string>)
    ensures forall i :: 0 <= i < |statements| ==> |statements[i]| > 0 && ';' !in statements[i]
    decreases |s|
  {
    if |s| == 0 then []
    else if s[0] == ';' then Split(s[1..])
    else
      var k := FieldEnd(s);
      if k == |s| then [s] else [s[..k]] + Split(s[k + 1..])
  }

  // ---------------------------------------------------------------------------
  // Reference: the fields between every two separators

  /** The fields of `s` between separators, empty ones included (one more field
      than there are separators), built by reading `s` from the left. */
  function Fields(s: string): (fields: seq<string>)
    ensures |fields| > 0
    decreases |s|
  {
    if |s| == 0 then [[]]
    else
      var f := Fields(s[..|s| - 1]);
      var c := s[|s| - 1];
      if c == ';' then f + [[]] else f[..|f| - 1] + [f[|f| - 1] + [c]]
  }

  /** The non-empty strings of `ss`, in order. */
  function NonEmpty(ss: seq<string>): (r: seq<string>)
    ensures forall i :: 0 <= i < |r| ==> |r[i]| > 0
  {
    if |ss| == 0 then []
    else (if |ss[0]| > 0 then [ss[0]] else []) + NonEmpty(ss[1..])
  }

  lemma {:induction false} NonEmptyAppend(a: seq<string>, b: seq<string>)
    ensures NonEmpty(a + b) == NonEmpty(a) + NonEmpty(b)
  {
    if |a| == 0 {
      assert a + b == b;
    } else {
      assert (a + b)[0] == a[0];
      assert (a + b)[1..] == a[1..] + b;
      NonEmptyAppend(a[1..], b);
    }
  }

  lemma {:induction false} FieldsOfRun(w: string)
    requires ';' !in w
    ensures Fields(w) == [w]
    decreases |w|
  {
    if |w| > 0 {
      var p := w[..|w| - 1];
      assert p + [w[|w| - 1]] == w;
      FieldsOfRun(p);
    }
  }

  /** Adding one character to the right extends the fields as `Fields` reads it. */
  lemma FieldsSnoc(p: string, c: char)
    ensures var f := Fields(p);
            Fields(p + [c]) == if c == ';' then f + [[]] else f[..|f| - 1] + [f[|f| - 1] + [c]]
  {
    assert (p + [c])[..|p + [c]| - 1] == p;
  }

  /** Appending a character other than ';' to the last field of `fa + fp`
      touches only `fp`. */
  lemma ExtendLast(fa: seq<string>, fp: seq<string>, c: char)
    requires |fp| > 0
    ensures var f := fa + fp;
            f[..|f| - 1] + [f[|f| - 1] + [c]] == fa + (fp[..|fp| - 1] + [fp[|fp| - 1] + [c]])
  {
    var f := fa + fp;
    assert f[..|f| - 1] == fa + fp[..|fp| - 1];
    assert f[|f| - 1] == fp[|fp| - 1];
  }

  /** A separator splits the fields: those of `a` followed by those of `b`. */
  lemma {:induction false} FieldsAtSeparator(a: string, b: string)
    ensures Fields(a + [';'] + b) == Fields(a) + Fields(b)
    decreases |b|
  {
    if |b| == 0 {
      assert a + [';'] + b == a + [';'];
      FieldsSnoc(a, ';');
    } else {
      var p := b[..|b| - 1];
      var c := b[|b| - 1];
      assert a + [';'] + b == (a + [';'] + p) + [c];
      assert b == p + [c];
      FieldsAtSeparator(a, p);
      FieldsSnoc(a + [';'] + p, c);
      FieldsSnoc(p, c);
      if c != ';' {
        ExtendLast(Fields(a), Fields(p), c);
      }
    }
  }

  /** `strtok` yields exactly the non-empty fields: the maximal non-empty runs
      of characters other than ';'. */
  lemma {:induction false} SplitIsNonEmptyFields(s: string)
    ensures Split(s) == NonEmpty(Fields(s))
    decreases |s|
  {
    if |s| == 0 {
    } else if s[0] == ';' {
      assert s == [] + [';'] + s[1..];
      FieldsAtSeparator([], s[1..]);
      NonEmptyAppend(Fields([]), Fields(s[1..]));
      SplitIsNonEmptyFields(s[1..]);
    } else {
      var k := FieldEnd(s);
      if k == |s| {
        assert s[..k] == s;
        FieldsOfRun(s);
      } else {
        assert s == s[..k] + [';'] + s[k + 1..];
        FieldsAtSeparator(s[..k], s[k + 1..]);
        FieldsOfRun(s[..k]);
        NonEmptyAppend([s[..k]], Fields(s[k + 1..]));
        SplitIsNonEmptyFields(s[k + 1..]);
      }
    }
  }

  /** Joining the statements gives the line with every ';' removed: nothing but
      separators is lost, and the order is kept. */
  lemma {:induction false} SplitJoin(s: string)
    ensures Concat(Split(s)) == Without(s, ';')
    decreases |s|
  {
    if |s| == 0 {
    } else if s[0] == ';' {
      SplitJoin(s[1..]);
    } else {
      var k := FieldEnd(s);
      var piece := s[..k];
      if k == |s| {
        assert piece == s;
        WithoutAbsent(s, ';');
        assert Concat([s]) == s + Concat([]);
      } else {
        var rest := s[k + 1..];
        assert s == piece + ([';'] + rest);
        WithoutAfterRun(piece, ';', rest);
        SplitJoin(rest);
        ConcatAppend([piece], Split(rest));
        assert Concat([piece]) == piece + Concat([]);
      }
    }
  }
}
