/** Filling in a format and matching the text with the same format are inverse. */
module MatchRender {
  import opened Words
  import opened MatchSpec
  import Print = PrintkSpec

  /** The text of a format with values filled in: numbers in decimal, strings in quotes, no blanks. */
  function Render(fmt: seq<Byte>, j: nat, vs: seq<Value>): seq<Byte>
    decreases |fmt| - j
  {
    if j >= |fmt| then []
    else if fmt[j] == SPACE then Render(fmt, j + 1, vs)
    else if fmt[j] != PERCENT then [fmt[j]] + Render(fmt, j + 1, vs)
    else if vs == [] then []
    else Field(vs[0]) + Render(fmt, j + 2, vs[1..])
  }

  function Field(v: Value): seq<Byte>
  {
    match v
    case Number(n) => Print.Numeral(10, n)
    case Text(s) => [QUOTE] + s + [QUOTE]
  }

  /** What comes next in the input: the rest of the text, or else `c`. */
  function Ahead(fmt: seq<Byte>, j: nat, vs: seq<Value>, c: Byte): Byte
  {
    (Render(fmt, j, vs) + [c])[0]
  }

  /** The values suit the format, strings fit their buffer, and no number runs into a digit behind it. */
  predicate Fillable(fmt: seq<Byte>, j: nat, vs: seq<Value>, c: Byte)
    requires j <= |fmt|
    decreases |fmt| - j
  {
    if j == |fmt| then vs == []
    else if IsEol(fmt[j]) || fmt[j] == TAB then false
    else if fmt[j] == SPACE then !IsEol(Ahead(fmt, j + 1, vs, c)) && Fillable(fmt, j + 1, vs, c)
    else if fmt[j] != PERCENT then Fillable(fmt, j + 1, vs, c)
    else
      && j + 1 < |fmt| && vs != [] && Fillable(fmt, j + 2, vs[1..], c)
      && Suits(vs[0], fmt[j + 1], Ahead(fmt, j + 2, vs[1..], c))
  }

  lemma {:induction false} QuoteFound(t: seq<Byte>, k: nat, n: nat, s: seq<Byte>)
    requires |s| < n && k + |s| < |t| && t[k..k + |s|] == s && QUOTE !in s && t[k + |s|] == QUOTE
    ensures ClosingQuote(t, k, n) == Matched(k + |s| + 1)
    decreases |s|
  {
    if s != [] {
      assert t[k] == s[0] && s[0] in s;
      assert t[k + 1..k + 1 + |s[1..]|] == s[1..];
      QuoteFound(t, k + 1, n - 1, s[1..]);
    }
  }

  lemma NumberMatches(pre: seq<Byte>, n: Word, rest: seq<Byte>)
    requires rest != [] && !IsDigit(rest[0])
    ensures var ds := Print.Numeral(10, n); Uint(pre + ds + rest, |pre|) == (Matched(|pre| + |ds|), n)
  {
    hide Print.Numeral;
    hide Uint;
    var ds := Print.Numeral(10, n);
    assert Print.Aligned(Print.Plain(10, n, false), 0) == ds;
    assert pre + ds + rest == pre + ds + [rest[0]] + rest[1..];
    Print.MatchUintInverts(pre, n, 0, rest[0], rest[1..]);
  }

  lemma TextMatches(pre: seq<Byte>, s: seq<Byte>, rest: seq<Byte>)
    requires QUOTE !in s && |s| < 32
    ensures Literal(pre + ([QUOTE] + s + [QUOTE]) + rest, |pre|, 32) == (Matched(|pre| + |s| + 2), s)
  {
    hide ClosingQuote;
    var t, q := pre + ([QUOTE] + s + [QUOTE]) + rest, |pre|;
    assert t[q] == QUOTE && AfterSpaces(t, q) == q;
    assert t[q + 1..q + 1 + |s|] == s && t[q + 1 + |s|] == QUOTE;
    QuoteFound(t, q + 1, 32, s);
  }

  predicate Suits(v: Value, kind: Byte, next: Byte)
  {
    match v
    case Number(_) => kind == LOWER_U && !IsDigit(next)
    case Text(s) => kind == LOWER_S && QUOTE !in s && |s| < 32
  }

  /** A conversion standing at its own field takes exactly that field. */
  lemma FieldMatches(pre: seq<Byte>, v: Value, rest: seq<Byte>, kind: Byte)
    requires rest != [] && Suits(v, kind, rest[0])
    ensures Conversion(pre + Field(v) + rest, |pre|, kind) == (Matched(|pre| + |Field(v)|), [v])
  {
    hide Print.Numeral;
    hide Literal;
    hide Uint;
    match v
    case Number(n) => NumberMatches(pre, n, rest);
    case Text(s) => TextMatches(pre, s, rest);
  }

  lemma FieldFirst(v: Value)
    ensures Field(v) != [] && !IsEol(Field(v)[0]) && !IsSpace(Field(v)[0])
  {
    if v.Number? {
      Print.NumeralDenotes(10, v.n);
      assert Print.DigitValue(Field(v)[0]) >= 0;
    }
  }

  lemma {:induction false} RenderedMatches(pre: seq<Byte>, fmt: seq<Byte>, j: nat, vs: seq<Value>, c: Byte, post: seq<Byte>,
                                           must: bool, written: seq<Value>)
    requires j <= |fmt| && Fillable(fmt, j, vs, c)
    ensures var text := Render(fmt, j, vs);
            FormatFrom(pre + text + [c] + post, |pre|, fmt, j, must, written)
            == Outcome(Matched(|pre| + |text|), written + vs)
    decreases |fmt| - j
  {
    hide Conversion;
    hide Field;
    var text := Render(fmt, j, vs);
    var t, q := pre + text + [c] + post, |pre|;
    if j == |fmt| {
      assert written + vs == written;
    } else if fmt[j] == SPACE {
      assert t[q] == Ahead(fmt, j + 1, vs, c);
      RenderedMatches(pre, fmt, j + 1, vs, c, post, must, written);
      assert written + [] == written;
    } else if fmt[j] != PERCENT {
      PlainMatches(t, q, fmt[j]);
      RenderedMatches(pre + [fmt[j]], fmt, j + 1, vs, c, post, must, written);
      assert t == pre + [fmt[j]] + Render(fmt, j + 1, vs) + [c] + post;
      assert written + [] == written;
    } else {
      FieldGoesOn(pre, fmt, j, vs, c, post, must, written);
    }
  }

  lemma PlainMatches(t: seq<Byte>, q: nat, ch: Byte)
    requires q < |t| && t[q] == ch && !IsSpace(ch)
    ensures PlainChar(t, q, ch) == Matched(q + 1)
  {
  }

  lemma {:induction false} FieldGoesOn(pre: seq<Byte>, fmt: seq<Byte>, j: nat, vs: seq<Value>, c: Byte, post: seq<Byte>,
                                       must: bool, written: seq<Value>)
    requires j < |fmt| && fmt[j] == PERCENT && Fillable(fmt, j, vs, c)
    ensures var text := Render(fmt, j, vs);
            FormatFrom(pre + text + [c] + post, |pre|, fmt, j, must, written)
            == Outcome(Matched(|pre| + |text|), written + vs)
    decreases |fmt| - j, 0
  {
    hide Conversion;
    hide Field;
    hide Suits;
    var more := Render(fmt, j + 2, vs[1..]);
    var rest := more + [c] + post;
    var t, q := pre + Render(fmt, j, vs) + [c] + post, |pre|;
    assert t == pre + Field(vs[0]) + rest;
    assert rest[0] == Ahead(fmt, j + 2, vs[1..], c);
    FieldMatches(pre, vs[0], rest, fmt[j + 1]);
    FieldFirst(vs[0]);
    assert t[q] == Field(vs[0])[0];
    assert DirectiveAt(t, q, fmt, j) == Directive(Matched(q + |Field(vs[0])|), [vs[0]], j + 2, j != 0);
    hide DirectiveAt;
    RenderedMatches(pre + Field(vs[0]), fmt, j + 2, vs[1..], c, post, must || j != 0, written + [vs[0]]);
    assert t == pre + Field(vs[0]) + more + [c] + post;
    assert written + [vs[0]] + vs[1..] == written + vs;
  }

  lemma {:induction false} FirstIsPrinted(fmt: seq<Byte>, j: nat, vs: seq<Value>, c: Byte)
    requires j <= |fmt| && Fillable(fmt, j, vs, c) && Render(fmt, j, vs) != []
    ensures !IsSpace(Render(fmt, j, vs)[0]) && !IsEol(Render(fmt, j, vs)[0])
    decreases |fmt| - j
  {
    if fmt[j] == SPACE {
      FirstIsPrinted(fmt, j + 1, vs, c);
    } else if fmt[j] == PERCENT {
      hide Field;
      FieldFirst(vs[0]);
    }
  }

  /** `matchv` on a filled-in format gives back the values and ends behind the text. */
  lemma {:induction false} RenderRoundTrip(pre: seq<Byte>, fmt: seq<Byte>, vs: seq<Value>, c: Byte, post: seq<Byte>)
    requires Fillable(fmt, 0, vs, c) && Render(fmt, 0, vs) != []
    ensures Format(pre + Render(fmt, 0, vs) + [c] + post, |pre|, fmt)
            == Outcome(Matched(|pre| + |Render(fmt, 0, vs)|), vs)
  {
    hide FormatFrom;
    hide Render;
    var t, q := pre + Render(fmt, 0, vs) + [c] + post, |pre|;
    RenderedMatches(pre, fmt, 0, vs, c, post, false, []);
    FirstIsPrinted(fmt, 0, vs, c);
    assert t[q] == Render(fmt, 0, vs)[0];
    assert AfterBlankLines(t, q) == q && Start(t, q) == q;
    assert [] + vs == vs;
  }
}
