/** Option values and the few operations on strings and string lists that
    the other modules share. A C string is modelled as `seq<char>` without
    its terminating NUL; a NULL-terminated array of strings as `seq<string>`
    without its sentinel. */
module Text {

  /** A value that may be absent (a C string or array that may be NULL). */
  datatype Option<+T> = None | Some(value: T)

  /** The strings of `ss` glued together in order. */
  function Concat(ss: seq<string>): string
  {
    if |ss| == 0 then [] else ss[0] + Concat(ss[1..])
  }

  lemma {:induction false} ConcatAppend(a: seq<string>, b: seq<string>)
    ensures Concat(a + b) == Concat(a) + Concat(b)
  {
    if |a| == 0 {
      assert a + b == b;
    } else {
      assert (a + b)[1..] == a[1..] + b;
      ConcatAppend(a[1..], b);
    }
  }

  /** `s` with every occurrence of `c` deleted and the other characters kept in order. */
  function Without(s: string, c: char): (r: string)
    ensures |r| <= |s|
  {
    if |s| == 0 then [] else (if s[0] == c then [] else [s[0]]) + Without(s[1..], c)
  }

  lemma {:induction false} WithoutAppend(a: string, b: string, c: char)
    ensures Without(a + b, c) == Without(a, c) + Without(b, c)
  {
    if |a| == 0 {
      assert a + b == b;
    } else {
      assert (a + b)[0] == a[0];
      assert (a + b)[1..] == a[1..] + b;
      WithoutAppend(a[1..], b, c);
    }
  }

  /** `s` is unchanged by deleting a character it does not contain. */
  lemma {:induction false} WithoutAbsent(s: string, c: char)
    requires c !in s
    ensures Without(s, c) == s
  {
    if |s| > 0 {
      assert s == [s[0]] + s[1..];
      WithoutAbsent(s[1..], c);
    }
  }

  /** Deleting `c` from a run free of `c`, then `c`, then the rest, leaves the run
      followed by what deleting `c` leaves of the rest. */
  lemma WithoutAfterRun(run: string, c: char, rest: string)
    requires c !in run
    ensures Without(run + ([c] + rest), c) == run + Without(rest, c)
  {
    var tail := [c] + rest;
    WithoutAppend(run, tail, c);
    WithoutAbsent(run, c);
    assert tail[0] == c && tail[1..] == rest;
    assert Without(tail, c) == Without(rest, c);
  }

  /** The strings of `ss` written out with one space between neighbours. */
  function Join(ss: seq<string>): string
  {
    if |ss| == 0 then []
    else if |ss| == 1 then ss[0]
    else ss[0] + " " + Join(ss[1..])
  }

  /** The present values of `xs`, in order. */
  function Somes<T>(xs: seq<Option<T>>): seq<T>
  {
    if |xs| == 0 then []
    else (if xs[0].Some? then [xs[0].value] else []) + Somes(xs[1..])
  }
}
