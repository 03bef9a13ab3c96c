/** The tokenizer of tokenize.c (a verbatim copy of it lives in shell.c): a
    one-pass state machine over the characters of a statement that strips
    quote characters, keeps quoted text literally, ends words at unquoted
    whitespace and turns each unquoted metacharacter into a token of its own. */
module Tokenizer {
  import opened Text

  /** `isspace` in the C locale. */
  predicate IsSpace(c: char)
  {
    c == ' ' || c == '\t' || c == '\n' || c == '\U{000B}' || c == '\U{000C}' || c == '\r'
  }

  /** SPECIAL_CHARS. The space in it is shadowed: the whitespace branch runs first. */
  const SpecialChars: string := "()< >;|"

  predicate IsSpecial(c: char)
  {
    c in SpecialChars
  }

  predicate IsQuote(c: char)
  {
    c == '"' || c == '\''
  }

  /** A character that an unquoted word keeps as it is. */
  predicate IsWordChar(c: char)
  {
    !IsQuote(c) && !IsSpace(c) && !IsSpecial(c)
  }

  /** `in_quotes` together with `quote_type`. */
  datatype Mode = Unquoted | Quoted(quote: char)

  /** The loop state: tokens emitted so far, the pending word (`token[0..token_index]`)
      and the quoting mode. */
  datatype Scanner = Scanner(tokens: seq<string>, word: string, mode: Mode)

  const Start := Scanner([], [], Unquoted)

  /** Emits the pending word when it is non-empty (the `token_index > 0` flushes). */
  function Flush(tokens: seq<string>, word: string): seq<string>
  {
    if |word| > 0 then tokens + [word] else tokens
  }

  /** One iteration of the scanning loop, its branches in the order the C code tests them. */
  function Step(s: Scanner, c: char): Scanner
  {
    if IsQuote(c) && s.mode == Unquoted then
      Scanner(s.tokens, s.word, Quoted(c))
    else if s.mode.Quoted? && c == s.mode.quote then
      Scanner(s.tokens + [s.word], [], Unquoted)
    else if s.mode.Quoted? then
      Scanner(s.tokens, s.word + [c], s.mode)
    else if IsSpace(c) then
      Scanner(Flush(s.tokens, s.word), [], Unquoted)
    else if IsSpecial(c) then
      Scanner(Flush(s.tokens, s.word) + [[c]], [], Unquoted)
    else
      Scanner(s.tokens, s.word + [c], Unquoted)
  }

  /** The loop run over `input`, left to right. */
  function Scan(s: Scanner, input: string): Scanner
    decreases |input|
  {
    if |input| == 0 then s else Scan(Step(s, input[0]), input[1..])
  }

  /** `tokenize`: the loop, then the final flush of a non-empty pending word
      (inside an unterminated quote as well); the NULL sentinel is the end of the sequence. */
  function Tokenize(input: string): (tokens: seq<string>)
    ensures |tokens| <= |input|
    ensures Concat(tokens) == Kept(input)
  {
    ScanInvariant(input);
    var s := Scan(Start, input);
    if |s.word| > 0 then ConcatAppend(s.tokens, [s.word]); Flush(s.tokens, s.word)
    else Flush(s.tokens, s.word)
  }

  // ---------------------------------------------------------------------------
  // Reference definitions, independent of the scanner's state

  /** Which quote, if any, is open after reading `s`: a quote character opens a
      span when none is open, and only the same character closes it. */
  function QuoteState(s: string): Mode
    decreases |s|
  {
    if |s| == 0 then Unquoted
    else
      var m := QuoteState(s[..|s| - 1]);
      var c := s[|s| - 1];
      match m
      case Unquoted => if IsQuote(c) then Quoted(c) else Unquoted
      case Quoted(q) => if c == q then Unquoted else m
  }

  /** Whether `c`, read in mode `m`, is a quote delimiter or unquoted whitespace. */
  predicate Dropped(m: Mode, c: char)
  {
    match m
    case Unquoted => IsQuote(c) || IsSpace(c)
    case Quoted(q) => c == q
  }

  /** The characters of `s` that survive tokenization: all but the quote delimiters
      and the unquoted whitespace, in their original order. */
  function Kept(s: string): string
    decreases |s|
  {
    if |s| == 0 then []
    else
      var p := s[..|s| - 1];
      Kept(p) + (if Dropped(QuoteState(p), s[|s| - 1]) then [] else [s[|s| - 1]])
  }

  /** A token as produced outside quotes: a lone metacharacter, or a non-empty word
      of ordinary characters. */
  predicate IsAtom(t: string)
  {
    || (|t| == 1 && IsSpecial(t[0]) && !IsSpace(t[0]))
    || (|t| > 0 && forall i :: 0 <= i < |t| ==> IsWordChar(t[i]))
  }

  predicate QuoteFree(s: string)
  {
    forall i :: 0 <= i < |s| ==> !IsQuote(s[i])
  }

  // ---------------------------------------------------------------------------
  // Properties of the loop

  lemma {:induction false} ScanSnoc(s: Scanner, p: string, c: char)
    ensures Scan(s, p + [c]) == Step(Scan(s, p), c)
    decreases |p|
  {
    if |p| == 0 {
      assert p + [c] == [c];
    } else {
      assert (p + [c])[0] == p[0];
      assert (p + [c])[1..] == p[1..] + [c];
      ScanSnoc(Step(s, p[0]), p[1..], c);
    }
  }

  lemma {:induction false} ScanAppend(s: Scanner, u: string, v: string)
    ensures Scan(s, u + v) == Scan(Scan(s, u), v)
    decreases |u|
  {
    if |u| == 0 {
      assert u + v == v;
    } else {
      assert (u + v)[0] == u[0];
      assert (u + v)[1..] == u[1..] + v;
      ScanAppend(Step(s, u[0]), u[1..], v);
    }
  }

  lemma FlushShift(t: seq<string>, x: seq<string>, w: string)
    ensures Flush(t + x, w) == t + Flush(x, w)
  {
    if |w| > 0 {
      assert (t + x) + [w] == t + (x + [w]);
    }
  }

  /** Tokens already emitted never influence the rest of the scan. */
  lemma StepShift(t: seq<string>, x: seq<string>, w: string, m: Mode, c: char)
    ensures var r := Step(Scanner(x, w, m), c);
            Step(Scanner(t + x, w, m), c) == Scanner(t + r.tokens, r.word, r.mode)
  {
    FlushShift(t, x, w);
    assert (t + x) + [w] == t + (x + [w]);
    assert (t + Flush(x, w)) + [[c]] == t + (Flush(x, w) + [[c]]);
  }

  lemma {:induction false} ScanShift(t: seq<string>, x: seq<string>, w: string, m: Mode, v: string)
    ensures var r := Scan(Scanner(x, w, m), v);
            Scan(Scanner(t + x, w, m), v) == Scanner(t + r.tokens, r.word, r.mode)
    decreases |v|
  {
    if |v| > 0 {
      StepShift(t, x, w, m, v[0]);
      var r := Step(Scanner(x, w, m), v[0]);
      ScanShift(t, r.tokens, r.word, r.mode, v[1..]);
    }
  }

  /** From a clean state (no pending word, no open quote) the rest of the input
      tokenizes on its own. */
  lemma Resume(t: seq<string>, v: string)
    ensures var r := Scan(Scanner(t, [], Unquoted), v);
            Flush(r.tokens, r.word) == t + Tokenize(v)
  {
    assert t + [] == t;
    ScanShift(t, [], [], Unquoted, v);
    var r := Scan(Start, v);
    FlushShift(t, r.tokens, r.word);
  }

  /** The three facts of `ScanInvariant` for one state. */
  predicate Accounts(st: Scanner, s: string)
  {
    && st.mode == QuoteState(s)
    && Concat(st.tokens) + st.word == Kept(s)
    && |st.tokens| + |st.word| + (if st.mode.Quoted? then 1 else 0) <= |s|
  }

  /** One loop iteration keeps the accounting of `ScanInvariant`. */
  lemma StepAccounts(st: Scanner, p: string, c: char)
    requires Accounts(st, p)
    ensures Accounts(Step(st, c), p + [c])
  {
    var s := p + [c];
    assert s[..|s| - 1] == p;
    ConcatAppend(st.tokens, [st.word]);
    assert Concat([st.word]) == st.word;
    if st.mode.Unquoted? && !IsQuote(c) && !IsSpace(c) && IsSpecial(c) {
      ConcatAppend(Flush(st.tokens, st.word), [[c]]);
      assert Concat([[c]]) == [c];
    }
  }

  /** The scanner's mode is the reference quote state; the emitted text plus the
      pending word is exactly the kept text; and every token (and a non-empty
      pending word, and an open quote) is paid for by a distinct input character. */
  lemma {:induction false} ScanInvariant(s: string)
    ensures Accounts(Scan(Start, s), s)
    decreases |s|
  {
    if |s| > 0 {
      var p := s[..|s| - 1];
      var c := s[|s| - 1];
      assert s == p + [c];
      ScanInvariant(p);
      ScanSnoc(Start, p, c);
      StepAccounts(Scan(Start, p), p, c);
    }
  }

  // ---------------------------------------------------------------------------
  // Whole-input properties

  /** Whitespace leaves a clean scanner untouched. */
  lemma {:induction false} ScanBlank(s: string)
    requires forall i :: 0 <= i < |s| ==> IsSpace(s[i])
    ensures Scan(Start, s) == Start
    decreases |s|
  {
    if |s| > 0 {
      assert Step(Start, s[0]) == Start;
      ScanBlank(s[1..]);
    }
  }

  /** Empty and whitespace-only input give no tokens. */
  lemma BlankHasNoTokens(s: string)
    requires forall i :: 0 <= i < |s| ==> IsSpace(s[i])
    ensures Tokenize(s) == []
  {
    ScanBlank(s);
  }

  lemma AfterSpace(u: string, c: char)
    requires QuoteState(u) == Unquoted
    requires IsSpace(c)
    ensures Scan(Start, u + [c]) == Scanner(Tokenize(u), [], Unquoted)
  {
    ScanInvariant(u);
    ScanSnoc(Start, u, c);
  }

  /** Unquoted whitespace separates: what comes before and after it tokenize
      independently, and the whitespace itself is never a token (this includes
      the space listed among the special characters). */
  lemma SpaceSeparates(u: string, c: char, v: string)
    requires QuoteState(u) == Unquoted
    requires IsSpace(c)
    ensures Tokenize(u + [c] + v) == Tokenize(u) + Tokenize(v)
  {
    AfterSpace(u, c);
    ScanAppend(Start, u + [c], v);
    Resume(Tokenize(u), v);
  }

  /** An unquoted metacharacter flushes the pending word and becomes a
      one-character token of its own. */
  lemma SpecialStandsAlone(u: string, c: char, v: string)
    requires QuoteState(u) == Unquoted
    requires IsSpecial(c) && !IsSpace(c)
    ensures Tokenize(u + [c] + v) == Tokenize(u) + [[c]] + Tokenize(v)
  {
    ScanInvariant(u);
    ScanSnoc(Start, u, c);
    assert !IsQuote(c);
    var st := Scan(Start, u);
    assert Scan(Start, u + [c]) == Scanner(Tokenize(u) + [[c]], [], Unquoted);
    ScanAppend(Start, u + [c], v);
    Resume(Tokenize(u) + [[c]], v);
  }

  lemma {:induction false} ScanWord(t: seq<string>, y: string, x: string)
    requires forall i :: 0 <= i < |x| ==> IsWordChar(x[i])
    ensures Scan(Scanner(t, y, Unquoted), x) == Scanner(t, y + x, Unquoted)
    decreases |x|
  {
    if |x| == 0 {
      assert y + x == y;
    } else {
      assert y + [x[0]] + x[1..] == y + x;
      ScanWord(t, y + [x[0]], x[1..]);
    }
  }

  lemma {:induction false} ScanQuotedText(t: seq<string>, y: string, q: char, w: string)
    requires IsQuote(q)
    requires q !in w
    ensures Scan(Scanner(t, y, Quoted(q)), w) == Scanner(t, y + w, Quoted(q))
    decreases |w|
  {
    if |w| == 0 {
      assert y + w == y;
    } else {
      assert w[0] != q;
      assert y + [w[0]] + w[1..] == y + w;
      ScanQuotedText(t, y + [w[0]], q, w[1..]);
    }
  }

  /** Scanner state after `u`, a separating space, an unquoted word `x`, an opening
      quote and quoted text `w`. */
  lemma OpenSpan(u: string, x: string, q: char, w: string)
    requires QuoteState(u) == Unquoted
    requires forall i :: 0 <= i < |x| ==> IsWordChar(x[i])
    requires IsQuote(q) && q !in w
    ensures Scan(Start, u + [' '] + x + [q] + w) == Scanner(Tokenize(u), x + w, Quoted(q))
  {
    AfterSpace(u, ' ');
    var t := Tokenize(u);
    ScanAppend(Start, u + [' '], x);
    ScanWord(t, [], x);
    assert [] + x == x;
    ScanSnoc(Start, u + [' '] + x, q);
    ScanAppend(Start, u + [' '] + x + [q], w);
    ScanQuotedText(t, x, q, w);
  }

  /** A closed quoted span yields exactly one token, even an empty one, without the
      quote characters; inside it only the opening quote character is special, so
      the other quote, whitespace and metacharacters are kept verbatim; a word
      directly before the opening quote is not flushed but merges into the token. */
  lemma QuotedSpan(u: string, x: string, q: char, w: string, v: string)
    requires QuoteState(u) == Unquoted
    requires forall i :: 0 <= i < |x| ==> IsWordChar(x[i])
    requires IsQuote(q) && q !in w
    ensures Tokenize(u + [' '] + x + [q] + w + [q] + v) == Tokenize(u) + [x + w] + Tokenize(v)
  {
    OpenSpan(u, x, q, w);
    var a := u + [' '] + x + [q] + w;
    ScanSnoc(Start, a, q);
    assert Scan(Start, a + [q]) == Scanner(Tokenize(u) + [x + w], [], Unquoted);
    ScanAppend(Start, a + [q], v);
    Resume(Tokenize(u) + [x + w], v);
  }

  /** A quote left open at the end of the input: the pending text becomes a final
      token when it is non-empty, and nothing is emitted when it is empty. */
  lemma UnterminatedQuote(u: string, x: string, q: char, w: string)
    requires QuoteState(u) == Unquoted
    requires forall i :: 0 <= i < |x| ==> IsWordChar(x[i])
    requires IsQuote(q) && q !in w
    ensures Tokenize(u + [' '] + x + [q] + w)
            == Tokenize(u) + (if |x + w| > 0 then [x + w] else [])
  {
    OpenSpan(u, x, q, w);
  }

  // ---------------------------------------------------------------------------
  // Quote-free input: every token is an atom, and tokenizing is a left inverse
  // of joining atoms with spaces

  lemma {:induction false} QuoteFreeUnquoted(s: string)
    requires QuoteFree(s)
    ensures QuoteState(s) == Unquoted
    decreases |s|
  {
    if |s| > 0 {
      QuoteFreeUnquoted(s[..|s| - 1]);
    }
  }

  lemma {:induction false} QuoteFreeScan(s: string)
    requires QuoteFree(s)
    ensures Scan(Start, s).mode == Unquoted
    ensures forall i :: 0 <= i < |Scan(Start, s).tokens| ==> IsAtom(Scan(Start, s).tokens[i])
    ensures forall i :: 0 <= i < |Scan(Start, s).word| ==> IsWordChar(Scan(Start, s).word[i])
    decreases |s|
  {
    if |s| > 0 {
      var p := s[..|s| - 1];
      var c := s[|s| - 1];
      assert s == p + [c];
      QuoteFreeScan(p);
      ScanSnoc(Start, p, c);
      var st := Scan(Start, p);
      assert |st.word| > 0 ==> IsAtom(st.word);
    }
  }

  /** Without quotes every token is a lone metacharacter or a non-empty word:
      tokens produced outside quotes are never empty. */
  lemma QuoteFreeTokensAreAtoms(s: string)
    requires QuoteFree(s)
    ensures forall i :: 0 <= i < |Tokenize(s)| ==> IsAtom(Tokenize(s)[i])
  {
    QuoteFreeScan(s);
  }

  lemma AtomAlone(t: string)
    requires IsAtom(t)
    ensures Tokenize(t) == [t]
    ensures QuoteState(t) == Unquoted
  {
    QuoteFreeUnquoted(t);
    if |t| == 1 && IsSpecial(t[0]) && !IsSpace(t[0]) {
      assert t == [t[0]];
      assert !IsQuote(t[0]);
      assert Scan(Start, t) == Scan(Step(Start, t[0]), []);
    } else {
      ScanWord([], [], t);
      assert [] + t == t;
    }
  }

  /** Joining atoms with single spaces and tokenizing gives the atoms back. */
  lemma {:induction false} TokenizeJoin(ts: seq<string>)
    requires forall i :: 0 <= i < |ts| ==> IsAtom(ts[i])
    ensures Tokenize(Join(ts)) == ts
    decreases |ts|
  {
    if |ts| == 0 {
      assert Join(ts) == [];
      BlankHasNoTokens([]);
    } else if |ts| == 1 {
      AtomAlone(ts[0]);
    } else {
      AtomAlone(ts[0]);
      TokenizeJoin(ts[1..]);
      assert Join(ts) == ts[0] + [' '] + Join(ts[1..]);
      SpaceSeparates(ts[0], ' ', Join(ts[1..]));
      assert ts == [ts[0]] + ts[1..];
    }
  }

  /** Re-tokenizing the tokens of a quote-free statement, rejoined with single
      spaces, gives the same tokens. */
  lemma RetokenizeIdempotent(s: string)
    requires QuoteFree(s)
    ensures Tokenize(Join(Tokenize(s))) == Tokenize(s)
  {
    QuoteFreeTokensAreAtoms(s);
    TokenizeJoin(Tokenize(s));
  }
}
