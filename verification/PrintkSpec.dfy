/**
 What `va_printk` prints: numerals in three bases, fields, and whole formats.  Text is a sequence
 of bytes without the terminating NUL.
 */
module PrintkSpec {
  import opened Words
  import Match = MatchSpec

  const SPACE: Byte := 32
  const PERCENT: Byte := 37
  const MINUS: Byte := 45

  // ---------------------------------------------------------------- numerals

  predicate IsBase(b: nat) { b == 2 || b == 10 || b == 16 }

  // Division and multiplication by one of three constants.
  function Times(b: nat, x: nat): nat
    requires IsBase(b)
  {
    if b == 2 then 2 * x else if b == 10 then 10 * x else 16 * x
  }

  function Quot(b: nat, u: nat): (q: nat)
    requires IsBase(b)
    ensures (u < b <==> q == 0) && (u > 0 ==> q < u)
  {
    if b == 2 then u / 2 else if b == 10 then u / 10 else u / 16
  }

  function Rem(b: nat, u: nat): (r: nat)
    requires IsBase(b)
    ensures r < b && u == Times(b, Quot(b, u)) + r
  {
    if b == 2 then u % 2 else if b == 10 then u % 10 else u % 16
  }

  /** `u` in base `b`, most significant digit first. */
  function Numeral(b: nat, u: nat): (ds: seq<Byte>)
    requires IsBase(b)
    ensures ds != []
    decreases u
  {
    if u < b then [DigitChar(u)] else Numeral(b, Quot(b, u)) + [DigitChar(Rem(b, u))]
  }

  // ---------------------------------------------------------------- fields

  function Spaces(n: nat): (s: seq<Byte>)
    ensures |s| == n && forall k :: 0 <= k < n ==> s[k] == SPACE
  {
    seq(n, _ => SPACE)
  }

  /** Right-aligned in `width` columns. */
  function Aligned(s: seq<Byte>, width: nat): (r: seq<Byte>)
    ensures |r| == if |s| < width then width else |s|
  {
    if |s| < width then Spaces(width - |s|) + s else s
  }

  /** A word as C reads it as an `int`. */
  function AsInt(w: Word): int
  {
    if w < 0x8000_0000 then w else w - WORD_LIMIT
  }

  /** The unaligned text of one `emit`. */
  function Plain(b: nat, w: Word, signed: bool): (s: seq<Byte>)
    requires IsBase(b) || b == 8
    ensures s != []
  {
    if b == 8 then [w % 256]
    else if b == 10 && signed && AsInt(w) < 0 then [MINUS] + Numeral(10, WORD_LIMIT - w)
    else Numeral(b, w)
  }

  // ---------------------------------------------------------------- formats

  datatype Arg = Num(w: Word) | Str(s: seq<Byte>)

  /** A C string stops at its first NUL. */
  function CString(s: seq<Byte>): (r: seq<Byte>)
    ensures |r| <= |s| && r == s[..|r|] && 0 !in r && (|r| < |s| ==> s[|r|] == 0)
  {
    if s == [] || s[0] == 0 then [] else [s[0]] + CString(s[1..])
  }

  function At(fmt: seq<Byte>, i: nat): Byte
  {
    if i < |fmt| then fmt[i] else 0
  }

  /** The base a specifier prints in; 0 for strings, -1 for one `va_printk` does not know. */
  function BaseOf(spec: Byte): int
  {
    if spec == 'd' as int || spec == 'u' as int then 10
    else if spec == 'p' as int || spec == 'x' as int then 16
    else if spec == 'b' as int then 2
    else if spec == 'c' as int then 8
    else if spec == 's' as int then 0
    else -1
  }

  predicate Suits(spec: Byte, a: Arg)
  {
    if BaseOf(spec) == 0 then a.Str? else a.Num?
  }

  /** What one conversion contributes. */
  function Piece(spec: Byte, width: nat, a: Arg): seq<Byte>
    requires BaseOf(spec) >= 0 && Suits(spec, a)
  {
    if BaseOf(spec) == 0 then CString(a.s)
    else CString(Aligned(Plain(BaseOf(spec), a.w, spec == 'd' as int), width))
  }

  /** The width written at `i`, in C's 32-bit arithmetic. */
  function Width(fmt: seq<Byte>, i: nat): Word
    requires i <= |fmt|
  {
    Match.Decimal(fmt[i..Match.AfterDigits(fmt, i)])
  }

  /** The conversion whose `%` stands at `i`, if `va_printk` accepts it. */
  datatype Conversion = Bad | Conversion(spec: Byte, width: nat, next: nat)

  function ConversionAt(fmt: seq<Byte>, i: nat): (c: Conversion)
    requires i < |fmt|
    ensures c.Conversion? ==> i < c.next <= |fmt| && BaseOf(c.spec) >= 0 && c.width < 32
  {
    var j := Match.AfterDigits(fmt, i + 1);
    if Width(fmt, i + 1) >= 32 || j == |fmt| || BaseOf(fmt[j]) < 0 then Bad
    else Conversion(fmt[j], Width(fmt, i + 1), j + 1)
  }

  /** Whether there is an argument of the right kind for every conversion reached. */
  predicate ArgsFit(fmt: seq<Byte>, i: nat, args: seq<Arg>)
    requires i <= |fmt|
    decreases |fmt| - i
  {
    if i == |fmt| then true
    else if fmt[i] != PERCENT then ArgsFit(fmt, i + 1, args)
    else if At(fmt, i + 1) == PERCENT then ArgsFit(fmt, i + 2, args)
    else
      var c := ConversionAt(fmt, i);
      c.Bad? || (args != [] && Suits(c.spec, args[0]) && ArgsFit(fmt, c.next, args[1..]))
  }

  /** The text a format produces, and whether `va_printk` then gives up on a bad conversion. */
  datatype Output = Output(text: seq<Byte>, panics: bool)

  function Then(s: seq<Byte>, o: Output): Output
  {
    Output(s + o.text, o.panics)
  }

  function Format(fmt: seq<Byte>, i: nat, args: seq<Arg>): Output
    requires i <= |fmt| && ArgsFit(fmt, i, args)
    decreases |fmt| - i
  {
    if i == |fmt| then Output([], false)
    else if fmt[i] != PERCENT then Then([fmt[i]], Format(fmt, i + 1, args))
    else if At(fmt, i + 1) == PERCENT then Then([PERCENT], Format(fmt, i + 2, args))
    else
      var c := ConversionAt(fmt, i);
      if c.Bad? then Output([], true)
      else Then(Piece(c.spec, c.width, args[0]), Format(fmt, c.next, args[1..]))
  }

  // ---------------------------------------------------------------- numerals denote

  function DigitValue(c: Byte): int
  {
    if 48 <= c <= 57 then c - 48 else if 97 <= c <= 102 then c - 87 else -1
  }

  predicate IsNumeral(b: nat, ds: seq<Byte>)
  {
    forall k :: 0 <= k < |ds| ==> 0 <= DigitValue(ds[k]) < b
  }

  /** The number a digit string denotes, read from the left. */
  function Denotes(b: nat, ds: seq<Byte>): (v: nat)
    requires IsBase(b) && IsNumeral(b, ds)
  {
    if ds == [] then 0 else Times(b, Denotes(b, ds[..|ds| - 1])) + DigitValue(ds[|ds| - 1])
  }

  lemma {:induction false} NumeralDenotes(b: nat, u: nat)
    requires IsBase(b)
    ensures var ds := Numeral(b, u); IsNumeral(b, ds) && Denotes(b, ds) == u && (u > 0 ==> DigitValue(ds[0]) != 0)
    decreases u
  {
    hide Quot;
    hide Rem;
    hide Times;
    var ds := Numeral(b, u);
    if u >= b {
      NumeralDenotes(b, Quot(b, u));
      assert ds[..|ds| - 1] == Numeral(b, Quot(b, u));
    } else {
      TimesZero(b);
      assert Denotes(b, ds[..0]) == 0;
    }
  }

  lemma TimesZero(b: nat)
    requires IsBase(b)
    ensures Times(b, 0) == 0
  {
  }

  lemma TimesSplit(b: nat, q: nat, r: nat)
    requires IsBase(b) && r < b
    ensures Quot(b, Times(b, q) + r) == q && Rem(b, Times(b, q) + r) == r
  {
  }

  lemma DigitCharOf(c: Byte)
    requires DigitValue(c) >= 0
    ensures DigitChar(DigitValue(c)) == c
  {
  }

  /** The printed numeral is the only one for its number without a leading zero. */
  lemma {:induction false} NumeralUnique(b: nat, ds: seq<Byte>)
    requires IsBase(b) && ds != [] && IsNumeral(b, ds) && (|ds| > 1 ==> DigitValue(ds[0]) != 0)
    ensures Numeral(b, Denotes(b, ds)) == ds
    decreases |ds|
  {
    hide Quot;
    hide Rem;
    hide Times;
    hide DigitChar;
    var init, d := ds[..|ds| - 1], ds[|ds| - 1];
    DigitCharOf(d);
    TimesSplit(b, Denotes(b, init), DigitValue(d));
    if init == [] {
      TimesZero(b);
    } else {
      NumeralUnique(b, init);
      LeadingDigit(b, init);
    }
    assert ds == init + [d];
  }

  lemma {:induction false} LeadingDigit(b: nat, ds: seq<Byte>)
    requires IsBase(b) && ds != [] && IsNumeral(b, ds) && DigitValue(ds[0]) != 0
    ensures Denotes(b, ds) > 0
    decreases |ds|
  {
    if |ds| > 1 {
      LeadingDigit(b, ds[..|ds| - 1]);
    }
  }

  function Pow2(k: nat): nat { if k == 0 then 1 else 2 * Pow2(k - 1) }

  lemma {:induction false} NumeralLength(b: nat, u: nat, k: nat)
    requires IsBase(b) && u < Pow2(k) && k > 0
    ensures |Numeral(b, u)| <= k
    decreases k
  {
    if u >= b {
      NumeralLength(b, Quot(b, u), k - 1);
    }
  }

  lemma {:induction false} WordNumeralLength(b: nat, u: Word)
    requires IsBase(b)
    ensures |Numeral(b, u)| <= 32
  {
    assert Pow2(8) == 256;
    assert Pow2(16) == 65536 by { assert Pow2(12) == 4096; }
    assert Pow2(24) == 16777216 by { assert Pow2(20) == 1048576; }
    assert Pow2(32) == WORD_LIMIT by { assert Pow2(28) == 268435456; }
    NumeralLength(b, u, 32);
  }

  // ---------------------------------------------------------------- fields read back

  function Strip(t: seq<Byte>): (r: seq<Byte>)
    ensures |r| <= |t|
  {
    if t != [] && t[0] == SPACE then Strip(t[1..]) else t
  }

  predicate IsField(b: nat, t: seq<Byte>)
  {
    var s := Strip(t);
    s != [] && if s[0] == MINUS then |s| > 1 && IsNumeral(b, s[1..]) else IsNumeral(b, s)
  }

  /** The number a right-aligned field shows. */
  function FieldValue(b: nat, t: seq<Byte>): int
    requires IsBase(b) && IsField(b, t)
  {
    var s := Strip(t);
    if s[0] == MINUS then -(Denotes(b, s[1..]) as int) else Denotes(b, s)
  }

  lemma {:induction false} StripAligned(s: seq<Byte>, width: nat)
    requires s != [] && s[0] != SPACE
    ensures Strip(Aligned(s, width)) == s
    decreases width
  {
    var t := Aligned(s, width);
    if |s| < width {
      assert t[0] == SPACE;
      assert t[1..] == Aligned(s, width - 1);
      StripAligned(s, width - 1);
    }
  }

  /** Columns of a field without padding: the digits and perhaps a sign. */
  function Columns(b: nat, w: Word, signed: bool): nat
    requires IsBase(b)
  {
    if b == 10 && signed && AsInt(w) < 0 then 1 + |Numeral(10, -AsInt(w))| else |Numeral(b, w)|
  }

  /** Every field, the most negative number included, shows its argument and has the width asked for or more. */
  lemma {:induction false} EmitDenotes(b: nat, w: Word, width: nat, signed: bool)
    requires IsBase(b)
    ensures var t := Aligned(Plain(b, w, signed), width);
            && |t| == (if Columns(b, w, signed) < width then width else Columns(b, w, signed))
            && IsField(b, t)
            && FieldValue(b, t) == (if b == 10 && signed then AsInt(w) else w)
  {
    hide Numeral;
    hide Aligned;
    hide Strip;
    hide Denotes;
    var s := Plain(b, w, signed);
    NumeralDenotes(b, w);
    NumeralDenotes(10, WORD_LIMIT - w);
    if b == 10 && signed && AsInt(w) < 0 {
      assert s[1..] == Numeral(10, WORD_LIMIT - w);
    } else {
      assert s == Numeral(b, w);
      assert DigitValue(s[0]) >= 0;
    }
    StripAligned(s, width);
  }

  lemma {:induction false} WholeCString(s: seq<Byte>)
    requires 0 !in s
    ensures CString(s) == s
    decreases |s|
  {
    if s != [] {
      assert s[0] in s;
      WholeCString(s[1..]);
    }
  }

  lemma NumeralHasNoNul(b: nat, u: nat)
    requires IsBase(b)
    ensures 0 !in Numeral(b, u)
  {
    hide Numeral;
    NumeralDenotes(b, u);
    var ds := Numeral(b, u);
    assert forall k :: 0 <= k < |ds| ==> DigitValue(ds[k]) >= 0;
  }

  /** A number conversion contributes a field that shows its argument: `%d` signed, the others unsigned. */
  lemma {:induction false} NumberIsShown(spec: Byte, width: nat, w: Word)
    requires BaseOf(spec) > 0 && BaseOf(spec) != 8
    ensures var b := BaseOf(spec); var t := Piece(spec, width, Num(w));
            && t == Aligned(Plain(b, w, spec == 'd' as int), width)
            && IsField(b, t) && FieldValue(b, t) == (if spec == 'd' as int then AsInt(w) else w)
  {
    hide Numeral;
    hide IsField;
    hide FieldValue;
    var b := BaseOf(spec);
    var s := Plain(b, w, spec == 'd' as int);
    NumeralHasNoNul(b, w);
    NumeralHasNoNul(10, WORD_LIMIT - w);
    EmitDenotes(b, w, width, spec == 'd' as int);
    assert 0 !in s;
    assert 0 !in Aligned(s, width);
    WholeCString(Aligned(s, width));
  }

  // ---------------------------------------------------------------- match_uint inverts %u

  lemma DecimalDigits(ds: seq<Byte>)
    requires IsNumeral(10, ds)
    ensures forall d <- ds :: Match.IsDigit(d)
  {
    forall d | d in ds
      ensures Match.IsDigit(d)
    {
      var k :| 0 <= k < |ds| && ds[k] == d;
      assert DigitValue(ds[k]) < 10;
    }
  }

  lemma ModStep(x: nat, d: nat)
    ensures (10 * (x % WORD_LIMIT) + d) % WORD_LIMIT == (10 * x + d) % WORD_LIMIT
  {
    var k := x / WORD_LIMIT;
    assert 10 * x + d == 10 * (x % WORD_LIMIT) + d + 10 * k * WORD_LIMIT;
  }

  lemma {:induction false} DecimalIsDenotes(ds: seq<Byte>)
    requires IsNumeral(10, ds) && forall d <- ds :: Match.IsDigit(d)
    ensures Match.Decimal(ds) == Denotes(10, ds) % WORD_LIMIT
    decreases |ds|
  {
    if ds != [] {
      var init, d := ds[..|ds| - 1], ds[|ds| - 1];
      assert Match.IsDigit(d);
      DecimalIsDenotes(init);
      ModStep(Denotes(10, init), DigitValue(d));
      assert Denotes(10, ds) == 10 * Denotes(10, init) + DigitValue(d);
      hide Denotes;
    }
  }

  lemma RunsEnd(t: seq<Byte>, p: nat, q: nat, e: nat)
    requires p <= q < e < |t|
    requires forall k :: p <= k < q ==> t[k] == SPACE
    requires forall k :: q <= k < e ==> Match.IsDigit(t[k])
    requires !Match.IsDigit(t[e])
    ensures Match.AfterSpaces(t, p) == q && Match.AfterDigits(t, q) == e
  {
    hide Match.AfterSpaces;
    hide Match.AfterDigits;
    var q1 := Match.AfterSpaces(t, p);
    assert Match.IsDigit(t[q]);
    assert q1 == q;
    var e1 := Match.AfterDigits(t, q);
    assert e1 == e;
  }

  lemma FieldLayout(pre: seq<Byte>, ds: seq<Byte>, width: nat, c: Byte, post: seq<Byte>)
    ensures var field := Aligned(ds, width);
            var t, e := pre + field + [c] + post, |pre| + |field|;
            && |pre| <= e - |ds| && e < |t| && t[e] == c
            && (forall k :: |pre| <= k < e - |ds| ==> t[k] == SPACE)
            && (forall k :: e - |ds| <= k < e ==> t[k] == ds[k - (e - |ds|)])
            && t[e - |ds|..e] == ds
  {
  }

  /** Printed unsigned in any width and followed by anything but a digit, a number is read back by `match_uint`. */
  lemma {:induction false} MatchUintInverts(pre: seq<Byte>, u: Word, width: nat, c: Byte, post: seq<Byte>)
    requires !Match.IsDigit(c)
    ensures var field := Aligned(Plain(10, u, false), width);
            Match.Uint(pre + field + [c] + post, |pre|) == (Match.Matched(|pre| + |field|), u)
  {
    hide Numeral;
    hide Aligned;
    hide Match.AfterSpaces;
    hide Match.AfterDigits;
    hide Denotes;
    hide Match.Decimal;
    var ds := Numeral(10, u);
    var field := Aligned(ds, width);
    var t, e := pre + field + [c] + post, |pre| + |field|;
    NumeralDenotes(10, u);
    DecimalDigits(ds);
    FieldLayout(pre, ds, width, c, post);
    RunsEnd(t, |pre|, e - |ds|, e);
    DecimalIsDenotes(ds);
  }

  // ---------------------------------------------------------------- which conversions are accepted

  /** A conversion is accepted exactly when the specifier is known and the width, modulo 2^32, is below 32. */
  lemma {:induction false} AcceptedIff(fmt: seq<Byte>, i: nat)
    requires i < |fmt|
    ensures var j := Match.AfterDigits(fmt, i + 1);
            && IsNumeral(10, fmt[i + 1..j])
            && (ConversionAt(fmt, i).Conversion? <==>
                  j < |fmt| && BaseOf(fmt[j]) >= 0 && Denotes(10, fmt[i + 1..j]) % WORD_LIMIT < 32)
            && (ConversionAt(fmt, i).Conversion? ==> ConversionAt(fmt, i).width == Denotes(10, fmt[i + 1..j]) % WORD_LIMIT)
  {
    hide Match.AfterDigits;
    hide Denotes;
    hide Match.Decimal;
    var j := Match.AfterDigits(fmt, i + 1);
    var ds := fmt[i + 1..j];
    forall k | 0 <= k < |ds|
      ensures Match.IsDigit(ds[k])
    {
      assert ds[k] == fmt[i + 1 + k];
    }
    DecimalIsDenotes(ds);
  }

  /** The format %4294967297d. */
  const WIDE: seq<Byte> := [37, 52, 50, 57, 52, 57, 54, 55, 50, 57, 55, 100]

  lemma {:induction false} WideIsOne()
    ensures ConversionAt(WIDE, 0) == Conversion(100, 1, 12)
  {
    hide Denotes;
    hide Match.AfterDigits;
    assert WIDE[11] == 100;
    assert Match.AfterDigits(WIDE, 1) == 11;
    AcceptedIff(WIDE, 0);
    WideDenotes();
  }

  lemma WideDenotes()
    ensures IsNumeral(10, WIDE[1..11]) && Denotes(10, WIDE[1..11]) == WORD_LIMIT + 1
  {
    hide Denotes;
    var ds := WIDE[1..11];
    assert IsNumeral(10, ds);
    DenotesNothing(ds[..0]);
    DenotesNext(ds, 0);
    DenotesNext(ds, 1);
    DenotesNext(ds, 2);
    DenotesNext(ds, 3);
    DenotesNext(ds, 4);
    DenotesNext(ds, 5);
    DenotesNext(ds, 6);
    DenotesNext(ds, 7);
    DenotesNext(ds, 8);
    DenotesNext(ds, 9);
    assert ds[..10] == ds;
  }

  lemma DenotesNothing(ds: seq<Byte>)
    requires ds == []
    ensures Denotes(10, ds) == 0
  {
  }

  lemma DenotesNext(ds: seq<Byte>, k: nat)
    requires k < |ds| && IsNumeral(10, ds)
    ensures Denotes(10, ds[..k + 1]) == 10 * Denotes(10, ds[..k]) + DigitValue(ds[k])
  {
    assert ds[..k + 1][..k] == ds[..k];
  }
}
