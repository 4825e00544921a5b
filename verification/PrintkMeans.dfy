/**
 What a format prints, piece by piece and in the characters themselves.  Every format is a text
 without `%`, followed by nothing, by `%%`, by `%` with digits and a specifier, or by `%` with digits
 only; for each of these the text is given here in terms of the text of what follows it.
 */
module PrintkMeans {
  import opened Words
  import opened PrintkSpec
  import Match = MatchSpec

  // ---------------------------------------------------------------- the text of the rest

  lemma {:induction false} DigitsShift(pre: seq<Byte>, fmt: seq<Byte>, i: nat)
    requires i <= |fmt|
    ensures Match.AfterDigits(pre + fmt, |pre| + i) == |pre| + Match.AfterDigits(fmt, i)
    decreases |fmt| - i
  {
    if i < |fmt| && Match.IsDigit(fmt[i]) {
      DigitsShift(pre, fmt, i + 1);
    }
  }

  lemma ConversionShift(pre: seq<Byte>, fmt: seq<Byte>, i: nat)
    requires i < |fmt|
    ensures var c := ConversionAt(fmt, i);
            ConversionAt(pre + fmt, |pre| + i) == if c.Bad? then Bad else c.(next := |pre| + c.next)
  {
    hide Match.AfterDigits;
    hide Match.Decimal;
    DigitsShift(pre, fmt, i + 1);
    var j := Match.AfterDigits(fmt, i + 1);
    assert (pre + fmt)[|pre| + (i + 1)..|pre| + j] == fmt[i + 1..j];
  }

  /** What has been printed does not matter to what follows. */
  lemma {:induction false} FormatShift(pre: seq<Byte>, fmt: seq<Byte>, i: nat, args: seq<Arg>)
    requires i <= |fmt|
    ensures ArgsFit(pre + fmt, |pre| + i, args) <==> ArgsFit(fmt, i, args)
    ensures ArgsFit(fmt, i, args) ==> Format(pre + fmt, |pre| + i, args) == Format(fmt, i, args)
    decreases |fmt| - i
  {
    hide ConversionAt;
    if i < |fmt| {
      if fmt[i] != PERCENT {
        FormatShift(pre, fmt, i + 1, args);
      } else if At(fmt, i + 1) == PERCENT {
        FormatShift(pre, fmt, i + 2, args);
      } else {
        ConversionShift(pre, fmt, i);
        var c := ConversionAt(fmt, i);
        if c.Conversion? && args != [] {
          FormatShift(pre, fmt, c.next, args[1..]);
        }
      }
    }
  }

  /** The text of `fmt` is `s` followed by the text of `rest`, for which `more` are the arguments. */
  ghost predicate PrintsThen(fmt: seq<Byte>, args: seq<Arg>, s: seq<Byte>, rest: seq<Byte>, more: seq<Arg>)
    requires ArgsFit(fmt, 0, args) && ArgsFit(rest, 0, more)
  {
    && Format(fmt, 0, args).text == s + Format(rest, 0, more).text
    && Format(fmt, 0, args).panics == Format(rest, 0, more).panics
  }

  // ---------------------------------------------------------------- text

  /** Text without `%` is copied. */
  lemma {:induction false} LiteralText(lit: seq<Byte>, rest: seq<Byte>, args: seq<Arg>)
    requires 37 !in lit
    ensures ArgsFit(lit + rest, 0, args) <==> ArgsFit(rest, 0, args)
    ensures ArgsFit(rest, 0, args) ==> PrintsThen(lit + rest, args, lit, rest, args)
  {
    if lit == [] {
      assert lit + rest == rest;
      assert ArgsFit(rest, 0, args) ==> [] + Format(rest, 0, args).text == Format(rest, 0, args).text;
    } else {
      var fmt, tail := lit + rest, lit[1..] + rest;
      assert fmt == [lit[0]] + tail;
      assert lit[0] in lit;
      LiteralText(lit[1..], rest, args);
      FormatShift([lit[0]], tail, 0, args);
      if ArgsFit(rest, 0, args) {
        var text := Format(rest, 0, args).text;
        assert [lit[0]] + (lit[1..] + text) == lit + text;
      }
    }
  }

  /** A format without `%` prints itself. */
  lemma {:induction false} PlainText(lit: seq<Byte>, args: seq<Arg>)
    requires 37 !in lit
    ensures ArgsFit(lit, 0, args) && Format(lit, 0, args) == Output(lit, false)
  {
    LiteralText(lit, [], args);
    assert lit + [] == lit;
  }

  /** `%%` prints one `%`. */
  lemma {:induction false} PercentText(rest: seq<Byte>, args: seq<Arg>)
    ensures ArgsFit([37, 37] + rest, 0, args) <==> ArgsFit(rest, 0, args)
    ensures ArgsFit(rest, 0, args) ==> PrintsThen([37, 37] + rest, args, [37], rest, args)
  {
    FormatShift([37, 37], rest, 0, args);
  }

  // ---------------------------------------------------------------- conversions

  /** `ds` is the numeral of `m` in base `b`, without a leading zero. */
  ghost predicate NumeralOf(b: nat, ds: seq<Byte>, m: nat)
    requires IsBase(b)
  {
    ds != [] && IsNumeral(b, ds) && Denotes(b, ds) == m && (|ds| > 1 ==> ds[0] != 48)
  }

  /** At least `width` columns; only as many blanks in front as are needed for that. */
  ghost predicate Padded(t: seq<Byte>, blanks: nat, width: nat)
  {
    && blanks <= |t| && width <= |t| && (blanks > 0 ==> |t| == width)
    && forall k :: 0 <= k < blanks ==> t[k] == 32
  }

  ghost predicate ShowsNatural(b: nat, t: seq<Byte>, width: nat, m: nat)
    requires IsBase(b)
  {
    exists k: nat :: Padded(t, k, width) && NumeralOf(b, t[k..], m)
  }

  ghost predicate ShowsInteger(t: seq<Byte>, width: nat, v: int)
  {
    if v >= 0 then ShowsNatural(10, t, width, v)
    else exists k: nat :: Padded(t, k, width) && k < |t| && t[k] == 45 && NumeralOf(10, t[k + 1..], -v)
  }

  /** One character; a NUL ends the text before it. */
  ghost predicate ShowsChar(t: seq<Byte>, width: nat, c: Byte)
  {
    if c == 0 then |t| == (if width == 0 then 0 else width - 1) && forall k :: 0 <= k < |t| ==> t[k] == 32
    else t != [] && t[|t| - 1] == c && Padded(t, |t| - 1, width)
  }

  ghost predicate ShowsString(t: seq<Byte>, s: seq<Byte>)
  {
    t <= s && 0 !in t && (|t| < |s| ==> s[|t|] == 0)
  }

  /** What `%`, a width and the specifier `c` make of an argument. */
  ghost predicate Shows(c: Byte, width: nat, a: Arg, t: seq<Byte>)
  {
    match a
    case Str(s) => c == 's' as int && ShowsString(t, s)
    case Num(w) =>
      || (c == 'd' as int && ShowsInteger(t, width, if w < 2147483648 then w else w - 4294967296))
      || (c == 'u' as int && ShowsNatural(10, t, width, w))
      || ((c == 'p' as int || c == 'x' as int) && ShowsNatural(16, t, width, w))
      || (c == 'b' as int && ShowsNatural(2, t, width, w))
      || (c == 'c' as int && ShowsChar(t, width, w % 256))
  }

  predicate Specifier(c: Byte)
  {
    c == 'd' as int || c == 'u' as int || c == 'p' as int || c == 'x' as int || c == 'b' as int
    || c == 'c' as int || c == 's' as int
  }

  lemma NumeralShown(b: nat, w: nat)
    requires IsBase(b)
    ensures NumeralOf(b, Numeral(b, w), w)
  {
    hide Denotes;
    NumeralDenotes(b, w);
    if w == 0 {
      assert Numeral(b, 0) == [48];
    }
  }

  lemma AlignedPads(s: seq<Byte>, width: nat)
    ensures var t := Aligned(s, width); var k := |t| - |s|; Padded(t, k, width) && t[k..] == s
  {
  }

  lemma NaturalShown(b: nat, w: Word, width: nat)
    requires IsBase(b)
    ensures ShowsNatural(b, Aligned(Plain(b, w, false), width), width, w)
  {
    hide Numeral;
    hide NumeralOf;
    hide Aligned;
    var s := Plain(b, w, false);
    var t := Aligned(s, width);
    NumeralShown(b, w);
    AlignedPads(s, width);
    assert Padded(t, |t| - |s|, width);
  }

  lemma NegativeShown(ds: seq<Byte>, m: nat, width: nat)
    requires m > 0 && NumeralOf(10, ds, m)
    ensures ShowsInteger(Aligned([45] + ds, width), width, -(m as int))
  {
    hide NumeralOf;
    hide Aligned;
    var s := [45] + ds;
    var t := Aligned(s, width);
    AlignedPads(s, width);
    var k := |t| - |s|;
    assert t[k] == t[k..][0] == 45;
    assert t[k + 1..] == t[k..][1..] == ds;
    assert Padded(t, k, width) && k < |t| && t[k] == 45 && NumeralOf(10, t[k + 1..], m);
  }

  lemma IntegerShown(w: Word, width: nat)
    ensures ShowsInteger(Aligned(Plain(10, w, true), width), width, if w < 2147483648 then w else w - 4294967296)
  {
    hide Numeral;
    hide NumeralOf;
    hide Aligned;
    hide ShowsNatural;
    if w < 2147483648 {
      assert Plain(10, w, true) == Plain(10, w, false);
      NaturalShown(10, w, width);
    } else {
      assert Plain(10, w, true) == [45] + Numeral(10, WORD_LIMIT - w);
      NumeralShown(10, WORD_LIMIT - w);
      NegativeShown(Numeral(10, WORD_LIMIT - w), WORD_LIMIT - w, width);
    }
  }

  lemma {:induction false} CutBeforeNul(s: seq<Byte>)
    requires 0 !in s
    ensures CString(s + [0]) == s
  {
    if s != [] {
      assert s[0] in s;
      assert (s + [0])[1..] == s[1..] + [0];
      CutBeforeNul(s[1..]);
    }
  }

  lemma AlignedChar(c: Byte, width: nat)
    ensures var t := Aligned([c], width);
            && t != [] && t[|t| - 1] == c && t == t[..|t| - 1] + [c] && |t| == (if width == 0 then 1 else width)
            && forall k :: 0 <= k < |t| - 1 ==> t[k] == 32
  {
  }

  lemma CharShown(w: Word, width: nat)
    ensures ShowsChar(CString(Aligned(Plain(8, w, false), width)), width, w % 256)
  {
    hide CString;
    hide Aligned;
    var c: Byte := w % 256;
    assert Plain(8, w, false) == [c];
    var t := Aligned([c], width);
    AlignedChar(c, width);
    if c == 0 {
      assert 0 !in t[..|t| - 1];
      CutBeforeNul(t[..|t| - 1]);
    } else {
      assert 0 !in t;
      WholeCString(t);
    }
  }

  lemma PieceShows(c: Byte, width: nat, a: Arg)
    requires Specifier(c) && (c == 's' as int <==> a.Str?)
    ensures BaseOf(c) >= 0 && Suits(c, a) && Shows(c, width, a, Piece(c, width, a))
  {
    hide Aligned;
    hide Plain;
    hide CString;
    hide ShowsInteger;
    hide ShowsNatural;
    hide ShowsChar;
    match a
    case Str(s) =>
    case Num(w) =>
      if c == 'c' as int {
        CharShown(w, width);
      } else {
        NumberIsShown(c, width, w);
        NaturalShown(BaseOf(c), w, width);
        IntegerShown(w, width);
      }
  }

  lemma WidthRun(ds: seq<Byte>, tail: seq<Byte>)
    requires IsNumeral(10, ds) && (tail != [] ==> !Match.IsDigit(tail[0]))
    ensures var fmt := [37] + ds + tail; Match.AfterDigits(fmt, 1) == 1 + |ds| && fmt[1..1 + |ds|] == ds
  {
    hide Match.AfterDigits;
    var fmt := [37] + ds + tail;
    var j := Match.AfterDigits(fmt, 1);
    DecimalDigits(ds);
    assert forall k :: 0 <= k < |ds| ==> fmt[1 + k] == ds[k] && ds[k] in ds;
    assert tail != [] ==> fmt[1 + |ds|] == tail[0];
    assert j >= 1 + |ds|;
  }

  lemma ConversionReads(ds: seq<Byte>, tail: seq<Byte>)
    requires IsNumeral(10, ds) && (tail != [] ==> !Match.IsDigit(tail[0]))
    ensures var fmt, width := [37] + ds + tail, Denotes(10, ds) % 4294967296;
            ConversionAt(fmt, 0) ==
            if tail != [] && Specifier(tail[0]) && width < 32 then Conversion(tail[0], width, |ds| + 2) else Bad
  {
    hide Match.AfterDigits;
    hide Denotes;
    hide Match.Decimal;
    hide IsNumeral;
    DecimalDigits(ds);
    DecimalIsDenotes(ds);
    WidthRun(ds, tail);
    var fmt := [37] + ds + tail;
    assert tail != [] ==> fmt[1 + |ds|] == tail[0];
  }

  /**
   `%`, digits and a known specifier print the next argument: `d` as a signed decimal number, `u` as
   an unsigned one, `p` and `x` in base 16, `b` in base 2, each right-aligned in the width given; `c`
   as one character; `s` as the text up to its NUL.  The rest follows with the remaining arguments.
   */
  lemma {:induction false} ConversionText(ds: seq<Byte>, c: Byte, rest: seq<Byte>, a: Arg, more: seq<Arg>) returns (t: seq<Byte>)
    requires IsNumeral(10, ds) && Specifier(c) && Denotes(10, ds) % 4294967296 < 32
    ensures ArgsFit([37] + ds + [c] + rest, 0, [a] + more) <==> (c == 's' as int <==> a.Str?) && ArgsFit(rest, 0, more)
    ensures ArgsFit([37] + ds + [c] + rest, 0, [a] + more) ==>
              Shows(c, Denotes(10, ds) % 4294967296, a, t) && PrintsThen([37] + ds + [c] + rest, [a] + more, t, rest, more)
  {
    hide ConversionAt;
    hide Denotes;
    hide Shows;
    var width := Denotes(10, ds) % 4294967296;
    var pre := [37] + ds + [c];
    var fmt := pre + rest;
    var args := [a] + more;
    assert fmt == [37] + ds + ([c] + rest);
    ConversionReads(ds, [c] + rest);
    FormatShift(pre, rest, 0, more);
    assert args[1..] == more;
    assert At(fmt, 1) != PERCENT by {
      NotPercent(ds, c, rest);
    }
    t := [];
    if c == 's' as int <==> a.Str? {
      PieceShows(c, width, a);
      t := Piece(c, width, a);
    }
  }

  lemma NotPercent(ds: seq<Byte>, c: Byte, rest: seq<Byte>)
    requires IsNumeral(10, ds) && c != 37
    ensures ([37] + ds + [c] + rest)[1] != 37
  {
    if ds != [] {
      assert DigitValue(ds[0]) >= 0;
    }
  }

  /** With any other specifier, with none, or with a width of 32 and more, nothing is printed and `va_printk` panics there. */
  lemma {:induction false} BadConversionText(ds: seq<Byte>, tail: seq<Byte>, args: seq<Arg>)
    requires IsNumeral(10, ds) && (tail != [] ==> !(48 <= tail[0] <= 57) && (ds == [] ==> tail[0] != 37))
    requires tail == [] || !Specifier(tail[0]) || Denotes(10, ds) % 4294967296 >= 32
    ensures ArgsFit([37] + ds + tail, 0, args) && Format([37] + ds + tail, 0, args) == Output([], true)
  {
    hide ConversionAt;
    hide Denotes;
    var fmt := [37] + ds + tail;
    ConversionReads(ds, tail);
    if ds != [] {
      assert DigitValue(ds[0]) >= 0;
      assert fmt[1] == ds[0];
    } else if tail != [] {
      assert fmt[1] == tail[0];
    }
  }
}
