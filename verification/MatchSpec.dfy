/**
 What the matchers of `esp-parse.c` mean on the whole input stream.  Nothing here knows how the
 input was cut into reads.  `Starved` is a match that still waits for input; `Overflows`, which only
 a ring can answer, is a refill too long for it.
 */
module MatchSpec {
  import opened Words

  const TAB: Byte := 9
  const LF: Byte := 10
  const CR: Byte := 13
  const SPACE: Byte := 32
  const QUOTE: Byte := 34
  const PERCENT: Byte := 37
  const ZERO: Byte := 48
  const LOWER_S: Byte := 115
  const LOWER_U: Byte := 117

  datatype Verdict = Matched(end: nat) | NoMatch | Starved | Aborts | Overflows

  datatype Value = Text(s: seq<Byte>) | Number(n: Word)

  predicate IsEol(b: Byte) { b == CR || b == LF }

  predicate IsSpace(b: Byte) { b == SPACE || b == TAB }

  predicate IsDigit(b: Byte) { 48 <= b <= 57 }

  predicate IsAlpha(b: Byte) { 65 <= b <= 90 || 97 <= b <= 122 }

  /** The first position from `p` on that is not a space or tab. */
  function AfterSpaces(t: seq<Byte>, p: nat): (q: nat)
    requires p <= |t|
    ensures p <= q <= |t| && (q < |t| ==> !IsSpace(t[q]))
    ensures forall i :: p <= i < q ==> IsSpace(t[i])
    decreases |t| - p
  {
    if p < |t| && IsSpace(t[p]) then AfterSpaces(t, p + 1) else p
  }

  /** The start of the first line from `p` on that is not blank. */
  function AfterBlankLines(t: seq<Byte>, p: nat): (q: nat)
    requires p <= |t|
    ensures p <= q <= |t|
    decreases |t| - p
  {
    var e := AfterSpaces(t, p);
    if e < |t| && IsEol(t[e]) then AfterBlankLines(t, e + 1) else p
  }

  /** Where matching starts: past blank lines and leading spaces. */
  function Start(t: seq<Byte>, p: nat): (q: nat)
    requires p <= |t|
    ensures p <= q <= |t|
  {
    AfterSpaces(t, AfterBlankLines(t, p))
  }

  /** Blank lines are skipped alike from every line end inside one run of them. */
  lemma {:induction false} EolRun(t: seq<Byte>, a: nat, b: nat)
    requires a <= b <= |t| && forall i :: a <= i < b ==> IsEol(t[i])
    ensures AfterBlankLines(t, a) == AfterBlankLines(t, b)
    decreases b - a
  {
    if a < b {
      assert AfterSpaces(t, a) == a;
      EolRun(t, a + 1, b);
    }
  }

  lemma BlankLineSkipped(t: seq<Byte>, p: nat, q: nat)
    requires p <= |t| && AfterSpaces(t, p) < q <= |t| && forall i :: AfterSpaces(t, p) <= i < q ==> IsEol(t[i])
    ensures AfterBlankLines(t, p) == AfterBlankLines(t, q)
  {
    EolRun(t, AfterSpaces(t, p) + 1, q);
  }

  // ---------------------------------------------------------------- tokens

  function TokenFrom(t: seq<Byte>, c: nat, tok: seq<Byte>, i: nat): Verdict
    requires c + i <= |t| && i <= |tok| && tok != []
    decreases |tok| - i
  {
    if i == |tok| then
      if !IsAlpha(tok[i - 1]) then Matched(c + i)
      else if c + i == |t| then Starved
      else if IsAlpha(t[c + i]) then NoMatch
      else Matched(c + i)
    else if c + i == |t| then Starved
    else if t[c + i] != tok[i] then NoMatch
    else TokenFrom(t, c, tok, i + 1)
  }

  /** The token, once matching has started at `c`. */
  function TokenAt(t: seq<Byte>, c: nat, tok: seq<Byte>): Verdict
    requires c <= |t|
  {
    if c == |t| then Starved else if tok == [] then Aborts else TokenFrom(t, c, tok, 0)
  }

  function Token(t: seq<Byte>, p: nat, tok: seq<Byte>): Verdict
    requires p <= |t|
  {
    TokenAt(t, Start(t, p), tok)
  }

  // ---------------------------------------------------------------- numbers and strings

  function AfterDigits(t: seq<Byte>, p: nat): (q: nat)
    requires p <= |t|
    ensures p <= q <= |t| && (q < |t| ==> !IsDigit(t[q]))
    ensures forall i :: p <= i < q ==> IsDigit(t[i])
    decreases |t| - p
  {
    if p < |t| && IsDigit(t[p]) then AfterDigits(t, p + 1) else p
  }

  /** The number a digit string denotes in C's 32-bit unsigned arithmetic. */
  function Decimal(ds: seq<Byte>): Word
    requires forall d <- ds :: IsDigit(d)
  {
    if ds == [] then 0 else (10 * Decimal(ds[..|ds| - 1]) + (ds[|ds| - 1] - ZERO)) % 0x1_0000_0000
  }

  function Uint(t: seq<Byte>, p: nat): (Verdict, Word)
    requires p <= |t|
  {
    var q := AfterSpaces(t, p);
    var e := AfterDigits(t, q);
    if e == |t| then (Starved, 0) else (if e == q then NoMatch else Matched(e), Decimal(t[q..e]))
  }

  /** The closing quote among the next `n` characters. */
  function ClosingQuote(t: seq<Byte>, k: nat, n: nat): (v: Verdict)
    requires k <= |t|
    ensures v.Matched? ==> k < v.end <= |t| && v.end <= k + n && t[v.end - 1] == QUOTE && QUOTE !in t[k..v.end - 1]
    ensures v != NoMatch && v != Overflows
    decreases n
  {
    if n == 0 then Aborts
    else if k == |t| then Starved
    else if t[k] == QUOTE then Matched(k + 1)
    else
      var v := ClosingQuote(t, k + 1, n - 1);
      assert v.Matched? ==> t[k..v.end - 1] == [t[k]] + t[k + 1..v.end - 1];
      v
  }

  function Literal(t: seq<Byte>, p: nat, n: nat): (Verdict, seq<Byte>)
    requires p <= |t|
  {
    var q := AfterSpaces(t, p);
    if q == |t| then (Starved, [])
    else if t[q] != QUOTE then (NoMatch, [])
    else
      var v := ClosingQuote(t, q + 1, n);
      (v, if v.Matched? then t[q + 1..v.end - 1] else [])
  }

  // ---------------------------------------------------------------- formats

  datatype Outcome = Outcome(verdict: Verdict, written: seq<Value>)

  /** A mismatch: fatal once a literal prefix and a conversion have been seen. */
  function Fail(must: bool): Verdict
  {
    if must then Aborts else NoMatch
  }

  /**
   One directive of a format: its verdict, the values it writes and whether a mismatch in it is
   fatal.  `next` is where the format continues.
   */
  datatype Directive = Directive(verdict: Verdict, values: seq<Value>, next: nat, strict: bool)

  /** A plain character of the format: spaces before it in the input do not matter. */
  function PlainChar(t: seq<Byte>, q: nat, ch: Byte): (v: Verdict)
    requires q <= |t|
    ensures v.Matched? ==> v.end <= |t|
  {
    var r := AfterSpaces(t, q);
    if r == |t| then Starved else if t[r] != ch then NoMatch else Matched(r + 1)
  }

  function Conversion(t: seq<Byte>, q: nat, kind: Byte): (d: (Verdict, seq<Value>))
    requires q <= |t|
    ensures d.0.Matched? ==> d.0.end <= |t|
  {
    if kind == LOWER_S then
      var (v, s) := Literal(t, q, 32);
      (v, if v.Matched? then [Text(s)] else [])
    else if kind == LOWER_U then
      var (v, n) := Uint(t, q);
      (v, if v == Starved then [] else [Number(n)])
    else (Aborts, [])
  }

  function DirectiveAt(t: seq<Byte>, q: nat, fmt: seq<Byte>, j: nat): (d: Directive)
    requires q <= |t| && j < |fmt|
    ensures j < d.next && (d.verdict.Matched? ==> d.next <= |fmt| && d.verdict.end <= |t|)
  {
    if IsEol(fmt[j]) then Directive(Aborts, [], j + 1, false)
    else if q == |t| then Directive(Starved, [], j + 1, false)
    else if IsEol(t[q]) then Directive(NoMatch, [], j + 1, false)
    else if fmt[j] == SPACE then Directive(Matched(q), [], j + 1, false)
    else if fmt[j] != PERCENT then Directive(PlainChar(t, q, fmt[j]), [], j + 1, false)
    else if j + 1 == |fmt| then Directive(Aborts, [], j + 1, j != 0)
    else
      var (v, values) := Conversion(t, q, fmt[j + 1]);
      Directive(v, values, j + 2, j != 0)
  }

  function FormatFrom(t: seq<Byte>, q: nat, fmt: seq<Byte>, j: nat, must: bool, written: seq<Value>): Outcome
    requires q <= |t| && j <= |fmt|
    decreases |fmt| - j
  {
    if j == |fmt| then Outcome(Matched(q), written)
    else
      var d := DirectiveAt(t, q, fmt, j);
      match d.verdict
      case Matched(e) => FormatFrom(t, e, fmt, d.next, must || d.strict, written + d.values)
      case NoMatch => Outcome(Fail(must || d.strict), written + d.values)
      case _ => Outcome(d.verdict, written + d.values)
  }

  /** The format, once matching has started at `c`. */
  function FormatAt(t: seq<Byte>, c: nat, fmt: seq<Byte>): Outcome
    requires c <= |t|
  {
    if c == |t| then Outcome(Starved, []) else FormatFrom(t, c, fmt, 0, false, [])
  }

  function Format(t: seq<Byte>, p: nat, fmt: seq<Byte>): Outcome
    requires p <= |t|
  {
    FormatAt(t, Start(t, p), fmt)
  }

  // ---------------------------------------------------------------- what a token match means

  /** A token matches exactly when it stands at the first non-blank place and is not cut out of a longer word. */
  lemma {:induction false} TokenFromMeans(t: seq<Byte>, c: nat, tok: seq<Byte>, i: nat)
    requires c + i <= |t| && i <= |tok| && tok != [] && t[c..c + i] == tok[..i]
    ensures TokenFrom(t, c, tok, i).Matched? <==>
            && c + |tok| <= |t| && t[c..c + |tok|] == tok
            && (IsAlpha(tok[|tok| - 1]) ==> c + |tok| < |t| && !IsAlpha(t[c + |tok|]))
    ensures TokenFrom(t, c, tok, i).Matched? ==> TokenFrom(t, c, tok, i).end == c + |tok|
    decreases |tok| - i
  {
    if i == |tok| {
      assert tok[..i] == tok;
    } else if c + i < |t| {
      if t[c + i] == tok[i] {
        assert t[c..c + i + 1] == t[c..c + i] + [t[c + i]];
        assert tok[..i + 1] == tok[..i] + [tok[i]];
        TokenFromMeans(t, c, tok, i + 1);
      } else if c + |tok| <= |t| {
        assert t[c..c + |tok|][i] != tok[i];
      }
    }
  }

  lemma {:induction false} TokenMeans(t: seq<Byte>, p: nat, tok: seq<Byte>)
    requires p <= |t| && tok != []
    ensures var c := Start(t, p);
            && (Token(t, p, tok).Matched? <==>
                  && c + |tok| <= |t| && t[c..c + |tok|] == tok
                  && (IsAlpha(tok[|tok| - 1]) ==> c + |tok| < |t| && !IsAlpha(t[c + |tok|])))
            && (Token(t, p, tok).Matched? ==> Token(t, p, tok).end == c + |tok|)
  {
    var c := Start(t, p);
    assert t[c..c] == tok[..0];
    if c < |t| {
      TokenFromMeans(t, c, tok, 0);
    }
  }

  // ---------------------------------------------------------------- more input never changes an answer

  lemma {:induction false} SpacesStable(t: seq<Byte>, more: seq<Byte>, p: nat)
    requires p <= |t| && AfterSpaces(t, p) < |t|
    ensures AfterSpaces(t + more, p) == AfterSpaces(t, p)
    decreases |t| - p
  {
    if IsSpace(t[p]) {
      SpacesStable(t, more, p + 1);
    }
  }

  lemma {:induction false} BlankLinesStable(t: seq<Byte>, more: seq<Byte>, p: nat)
    requires p <= |t| && Start(t, p) < |t|
    ensures AfterBlankLines(t + more, p) == AfterBlankLines(t, p)
    decreases |t| - p
  {
    hide AfterSpaces;
    var e := AfterSpaces(t, p);
    if e < |t| {
      SpacesStable(t, more, p);
      if IsEol(t[e]) {
        BlankLinesStable(t, more, e + 1);
      }
    }
  }

  lemma StartStable(t: seq<Byte>, more: seq<Byte>, p: nat)
    requires p <= |t| && Start(t, p) < |t|
    ensures Start(t + more, p) == Start(t, p)
  {
    BlankLinesStable(t, more, p);
    SpacesStable(t, more, AfterBlankLines(t, p));
  }

  lemma {:induction false} TokenFromStable(t: seq<Byte>, more: seq<Byte>, c: nat, tok: seq<Byte>, i: nat)
    requires c + i <= |t| && i <= |tok| && tok != [] && TokenFrom(t, c, tok, i) != Starved
    ensures TokenFrom(t + more, c, tok, i) == TokenFrom(t, c, tok, i)
    decreases |tok| - i
  {
    if i < |tok| && c + i < |t| && t[c + i] == tok[i] {
      TokenFromStable(t, more, c, tok, i + 1);
    }
  }

  /** A `match_tok` that answered would have answered the same with any more input. */
  lemma {:induction false} TokenStable(t: seq<Byte>, more: seq<Byte>, p: nat, tok: seq<Byte>)
    requires p <= |t| && Token(t, p, tok) != Starved
    ensures Token(t + more, p, tok) == Token(t, p, tok)
  {
    StartStable(t, more, p);
    if tok != [] {
      TokenFromStable(t, more, Start(t, p), tok, 0);
    }
  }

  lemma {:induction false} DigitsStable(t: seq<Byte>, more: seq<Byte>, p: nat)
    requires p <= |t| && AfterDigits(t, p) < |t|
    ensures AfterDigits(t + more, p) == AfterDigits(t, p)
    decreases |t| - p
  {
    if IsDigit(t[p]) {
      DigitsStable(t, more, p + 1);
    }
  }

  lemma SliceStable(t: seq<Byte>, more: seq<Byte>, a: nat, b: nat)
    requires a <= b <= |t|
    ensures (t + more)[a..b] == t[a..b]
  {
  }

  lemma UintStable(t: seq<Byte>, more: seq<Byte>, p: nat)
    requires p <= |t| && Uint(t, p).0 != Starved
    ensures Uint(t + more, p) == Uint(t, p)
  {
    var q := AfterSpaces(t, p);
    var e := AfterDigits(t, q);
    SpacesStable(t, more, p);
    DigitsStable(t, more, q);
    SliceStable(t, more, q, e);
  }

  lemma {:induction false} ClosingQuoteStable(t: seq<Byte>, more: seq<Byte>, k: nat, n: nat)
    requires k <= |t| && ClosingQuote(t, k, n) != Starved
    ensures ClosingQuote(t + more, k, n) == ClosingQuote(t, k, n)
    decreases n
  {
    if n > 0 && k < |t| && t[k] != QUOTE {
      ClosingQuoteStable(t, more, k + 1, n - 1);
    }
  }

  lemma LiteralStable(t: seq<Byte>, more: seq<Byte>, p: nat, n: nat)
    requires p <= |t| && Literal(t, p, n).0 != Starved
    ensures Literal(t + more, p, n) == Literal(t, p, n)
  {
    hide AfterSpaces;
    hide ClosingQuote;
    var u, q := t + more, AfterSpaces(t, p);
    SpacesStable(t, more, p);
    assert u[q] == t[q];
    if t[q] == QUOTE {
      ClosingQuoteStable(t, more, q + 1, n);
      var v := ClosingQuote(t, q + 1, n);
      assert ClosingQuote(u, q + 1, n) == v;
      if v.Matched? {
        SliceStable(t, more, q + 1, v.end - 1);
      }
    }
  }

  lemma DirectiveStable(t: seq<Byte>, more: seq<Byte>, q: nat, fmt: seq<Byte>, j: nat)
    requires q <= |t| && j < |fmt| && DirectiveAt(t, q, fmt, j).verdict != Starved
    ensures DirectiveAt(t + more, q, fmt, j) == DirectiveAt(t, q, fmt, j)
  {
    if !IsEol(fmt[j]) && q < |t| && !IsEol(t[q]) && fmt[j] != SPACE {
      if fmt[j] != PERCENT {
        SpacesStable(t, more, q);
      } else if j + 1 < |fmt| && fmt[j + 1] == LOWER_S {
        LiteralStable(t, more, q, 32);
      } else if j + 1 < |fmt| && fmt[j + 1] == LOWER_U {
        UintStable(t, more, q);
      }
    }
  }

  lemma {:induction false} FormatFromStable(t: seq<Byte>, more: seq<Byte>, q: nat, fmt: seq<Byte>, j: nat,
                                            must: bool, written: seq<Value>)
    requires q <= |t| && j <= |fmt| && FormatFrom(t, q, fmt, j, must, written).verdict != Starved
    ensures FormatFrom(t + more, q, fmt, j, must, written) == FormatFrom(t, q, fmt, j, must, written)
    decreases |fmt| - j
  {
    if j < |fmt| {
      var d := DirectiveAt(t, q, fmt, j);
      DirectiveStable(t, more, q, fmt, j);
      if d.verdict.Matched? {
        FormatFromStable(t, more, d.verdict.end, fmt, d.next, must || d.strict, written + d.values);
      }
    }
  }

  /** A `matchv` that answered, with the values it extracted, is unaffected by any more input. */
  lemma {:induction false} FormatStable(t: seq<Byte>, more: seq<Byte>, p: nat, fmt: seq<Byte>)
    requires p <= |t| && Format(t, p, fmt).verdict != Starved
    ensures Format(t + more, p, fmt) == Format(t, p, fmt)
  {
    StartStable(t, more, p);
    FormatFromStable(t, more, Start(t, p), fmt, 0, false, []);
  }
}
