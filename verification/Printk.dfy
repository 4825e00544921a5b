/** `va_printk` and the number printer under it, writing into caller-supplied arrays. */
module Printk {
  import opened Words
  import opened PrintkSpec
  import Match = MatchSpec

  function Rev(s: seq<Byte>): (r: seq<Byte>)
    ensures |r| == |s|
  {
    if s == [] then [] else Rev(s[1..]) + [s[0]]
  }

  lemma {:induction false} RevAppend(s: seq<Byte>, x: Byte)
    ensures Rev(s + [x]) == [x] + Rev(s)
    decreases |s|
  {
    if s != [] {
      assert (s + [x])[1..] == s[1..] + [x];
      RevAppend(s[1..], x);
      assert [x] + Rev(s[1..]) + [s[0]] == [x] + (Rev(s[1..]) + [s[0]]);
    } else {
      assert Rev([x]) == Rev([]) + [x];
    }
  }

  lemma {:induction false} RevSpaces(s: seq<Byte>, n: nat)
    ensures Rev(s + Spaces(n)) == Spaces(n) + Rev(s)
    decreases n
  {
    if n == 0 {
      assert s + Spaces(0) == s;
    } else {
      RevSpaces(s, n - 1);
      RevAppend(s + Spaces(n - 1), SPACE);
      assert s + Spaces(n) == s + Spaces(n - 1) + [SPACE];
      assert Spaces(n) + Rev(s) == [SPACE] + (Spaces(n - 1) + Rev(s));
    }
  }

  lemma {:induction false} RevAt(s: seq<Byte>, k: nat)
    requires k < |s|
    ensures Rev(s)[k] == s[|s| - 1 - k]
    decreases |s|
  {
    if k < |s| - 1 {
      RevAt(s[1..], k);
    }
  }

  function Min(a: int, b: int): int { if a < b then a else b }

  function Max(a: int, b: int): int { if a < b then b else a }

  /** Leading blanks: the digits are still back to front, so they go at the end. */
  method Pad(buf: array<Byte>, start: nat, width: nat) returns (p: nat)
    requires Max(start, width) < buf.Length
    modifies buf
    ensures p == Max(start, width) && buf[..p] == old(buf[..start]) + Spaces(p - start) && buf[p] == 0
  {
    p := start;
    var len := start;
    while len < width
      invariant start <= p <= Max(start, width) && len == p
      invariant buf[..p] == old(buf[..start]) + Spaces(p - start)
    {
      buf[p] := SPACE;
      p, len := p + 1, len + 1;
    }
    buf[p] := 0;
  }

  /** The first `n - 1` characters of `src[..p]` read backwards, and a NUL. */
  method Reverse(dst: array<Byte>, n: nat, src: array<Byte>, p: nat)
    requires dst != src && 1 <= n <= dst.Length && p <= src.Length
    modifies dst
    ensures var k := Min(p, n - 1); dst[..k + 1] == Rev(src[..p])[..k] + [0]
    ensures forall i :: Min(p, n - 1) < i < dst.Length ==> dst[i] == old(dst[i])
  {
    var start: int := 0;
    var len := p + 1;
    if len > n {
      start := start + (len - n);
    }
    var d, q := 0, p - 1;
    while q >= start
      invariant start - 1 <= q < p && d == p - 1 - q
      invariant forall i :: 0 <= i < d ==> dst[i] == src[p - 1 - i]
      invariant forall i :: d <= i < dst.Length ==> dst[i] == old(dst[i])
    {
      dst[d] := src[q];
      d, q := d + 1, q - 1;
    }
    dst[d] := 0;
    forall i | 0 <= i < d
      ensures dst[i] == Rev(src[..p])[i]
    {
      RevAt(src[..p], i);
    }
    assert dst[..d + 1] == Rev(src[..p])[..d] + [0];
  }

  /** The digit loop: least significant first. */
  method Digits(buf: array<Byte>, b: nat, value: Word) returns (p: nat)
    requires IsBase(b) && buf.Length >= 32
    modifies buf
    ensures p == |Numeral(b, value)| && p <= 32 && p <= buf.Length && Rev(buf[..p]) == Numeral(b, value)
  {
    hide Quot;
    hide Rem;
    hide Rev;
    WordNumeralLength(b, value);
    var u: nat := value;
    var more := true;
    p := 0;
    NoDigits(buf, Numeral(b, value));
    while more
      invariant 0 <= p <= 32
      invariant more ==> Numeral(b, value) == Numeral(b, u) + Rev(buf[..p])
      invariant !more ==> Numeral(b, value) == Rev(buf[..p])
      decreases more, u
    {
      ghost var was := buf[..p];
      ghost var high := if u < b then [] else Numeral(b, Quot(b, u));
      NumeralStep(b, u, high);
      assert |Rev(was)| == p;
      buf[p] := DigitChar(Rem(b, u));
      p := p + 1;
      assert buf[..p] == was + [DigitChar(Rem(b, u))];
      RevAppend(was, DigitChar(Rem(b, u)));
      assert Numeral(b, value) == high + Rev(buf[..p]);
      u := Quot(b, u);
      more := u != 0;
      assert !more ==> high + Rev(buf[..p]) == Rev(buf[..p]);
    }
    assert |Rev(buf[..p])| == p;
  }

  lemma NoDigits(buf: array<Byte>, ds: seq<Byte>)
    ensures ds == ds + Rev(buf[..0])
  {
  }

  lemma NumeralStep(b: nat, u: nat, high: seq<Byte>)
    requires IsBase(b) && high == if u < b then [] else Numeral(b, Quot(b, u))
    ensures Numeral(b, u) == high + [DigitChar(Rem(b, u))]
  {
    if u < b {
      assert Rem(b, u) == u;
    }
  }

  /** The digits of `emit`, back to front, with the sign behind them. */
  method Backwards(buf: array<Byte>, b: nat, val: Word, signed: bool) returns (p: nat)
    requires (IsBase(b) || b == 8) && buf.Length >= 33
    modifies buf
    ensures p == |Plain(b, val, signed)| && p <= 33 && p <= buf.Length && Rev(buf[..p]) == Plain(b, val, signed)
  {
    hide Numeral;
    if b == 8 {
      buf[0] := val % 256;
      assert buf[..1] == [val % 256];
      return 1;
    }
    if b == 10 && signed && AsInt(val) < 0 {
      p := Digits(buf, 10, WORD_LIMIT - val);
      ghost var digits := buf[..p];
      buf[p] := MINUS;
      p := p + 1;
      assert buf[..p] == digits + [MINUS];
      RevAppend(digits, MINUS);
    } else {
      p := Digits(buf, b, val);
    }
  }

  /** A field too wide for its destination is narrowed to fit. */
  function FitWidth(width: nat, n: nat): nat
    requires n >= 1
  {
    if width > n then n - 1 else width
  }

  lemma AlignedIsPadded(back: seq<Byte>, width: nat)
    ensures Aligned(Rev(back), width) == Rev(back + Spaces(Max(|back|, width) - |back|))
  {
    RevSpaces(back, Max(|back|, width) - |back|);
    if |back| >= width {
      assert Spaces(0) + Rev(back) == Rev(back);
    }
  }

  /** `emit`: a right-aligned field, cut to the destination. */
  method Emit(b: nat, dst: array<Byte>, n: nat, val: Word, width: nat, signed: bool)
    requires (IsBase(b) || b == 8) && 1 <= n <= dst.Length && width < 32
    modifies dst
    ensures var text := Aligned(Plain(b, val, signed), FitWidth(width, n));
            var k := Min(|text|, n - 1);
            && dst[..k + 1] == text[..k] + [0]
            && forall i :: k < i < dst.Length ==> dst[i] == old(dst[i])
  {
    hide Plain;
    hide Rev;
    hide Aligned;
    var w := FitWidth(width, n);
    var buf := new Byte[64];
    var p := Backwards(buf, b, val, signed);
    ghost var back := buf[..p];
    AlignedIsPadded(back, w);
    p := Pad(buf, p, w);
    Reverse(dst, n, buf, p);
  }

  // ---------------------------------------------------------------- va_printk

  datatype Result = Panicked | Stored(len: nat)

  /** The copy loop: as much of the C string `s` as fits below `e`. */
  method CopyString(buf: array<Byte>, start: nat, e: nat, s: seq<Byte>) returns (p: nat)
    requires start <= e <= buf.Length
    modifies buf
    ensures p == Min(start + |CString(s)|, e)
    ensures buf[..p] == old(buf[..start]) + CString(s)[..p - start]
    ensures forall i :: p <= i < buf.Length ==> buf[i] == old(buf[i])
  {
    p := start;
    var k := 0;
    while p < e && k < |s| && s[k] != 0
      invariant start <= p <= e && k == p - start && k <= |CString(s)|
      invariant buf[..p] == old(buf[..start]) + CString(s)[..k]
      invariant forall i :: p <= i < buf.Length ==> buf[i] == old(buf[i])
    {
      NotYetOver(s, k);
      buf[p] := s[k];
      p, k := p + 1, k + 1;
    }
    CopyEnds(s, k);
  }

  lemma NotYetOver(s: seq<Byte>, k: nat)
    requires k < |s| && k <= |CString(s)| && s[k] != 0
    ensures k < |CString(s)| && CString(s)[k] == s[k]
  {
    assert CString(s) == s[..|CString(s)|];
  }

  lemma CopyEnds(s: seq<Byte>, k: nat)
    requires k <= |CString(s)|
    ensures (k == |s| || s[k] == 0) ==> k == |CString(s)|
  {
    if k < |CString(s)| {
      assert CString(s)[k] == s[k] && CString(s)[k] in CString(s);
    }
  }

  /** What has been stored is right so far: all of what the format gave up to `i`, or the part that fits. */
  ghost predicate SoFar(done: seq<Byte>, cap: nat, total: Output, rest: Output)
  {
    total == Then(done, rest) || (|done| == cap <= |total.text| && done == total.text[..cap])
  }

  lemma Extend(done: seq<Byte>, cap: nat, total: Output, piece: seq<Byte>, rest: Output, k: nat)
    requires SoFar(done, cap, total, Then(piece, rest)) && |done| < cap && k == Min(|piece|, cap - |done|)
    ensures SoFar(done + piece[..k], cap, total, rest)
  {
    assert total.text == done + (piece + rest.text);
    if k == |piece| {
      assert piece[..k] == piece;
      assert done + (piece + rest.text) == done + piece + rest.text;
    } else {
      assert total.text[..cap] == done + piece[..k];
    }
  }

  /** The string one conversion copies from. */
  method Render(c: Conversion, a: Arg) returns (s: seq<Byte>)
    requires c.Conversion? && c.width < 32 && BaseOf(c.spec) >= 0 && Suits(c.spec, a)
    ensures CString(s) == Piece(c.spec, c.width, a)
  {
    if BaseOf(c.spec) == 0 {
      return a.s;
    }
    hide Plain;
    hide CString;
    var num := new Byte[128];
    Emit(BaseOf(c.spec), num, 128, a.w, c.width, c.spec == 'd' as int);
    ghost var text := Aligned(Plain(BaseOf(c.spec), a.w, c.spec == 'd' as int), c.width);
    PlainFits(BaseOf(c.spec), a.w, c.spec == 'd' as int);
    assert num[..|text| + 1] == text[..|text|] + [0];
    assert text[..|text|] == text;
    s := num[..];
    assert s == text + [0] + s[|text| + 1..];
    StopsAtNul(text, s[|text| + 1..]);
  }

  lemma PlainFits(b: nat, w: Word, signed: bool)
    requires IsBase(b) || b == 8
    ensures |Plain(b, w, signed)| <= 33
  {
    hide Numeral;
    if IsBase(b) {
      WordNumeralLength(b, w);
    }
    if b == 10 && signed && AsInt(w) < 0 {
      WordNumeralLength(10, WORD_LIMIT - w);
    }
  }

  lemma {:induction false} StopsAtNul(s: seq<Byte>, more: seq<Byte>)
    ensures CString(s + [0] + more) == CString(s)
    decreases |s|
  {
    if s != [] {
      assert (s + [0] + more)[1..] == s[1..] + [0] + more;
      StopsAtNul(s[1..], more);
    }
  }

  /** The width digits after a `%`. */
  method ReadWidth(fmt: seq<Byte>, start: nat) returns (width: Word, i: nat)
    requires start <= |fmt|
    ensures i == Match.AfterDigits(fmt, start) && width == Width(fmt, start)
  {
    width, i := 0, start;
    while i < |fmt| && Match.IsDigit(fmt[i])
      invariant start <= i <= |fmt| && Match.AfterDigits(fmt, i) == Match.AfterDigits(fmt, start)
      invariant (forall d <- fmt[start..i] :: Match.IsDigit(d)) && width == Match.Decimal(fmt[start..i])
    {
      ghost var ds := fmt[start..i];
      assert fmt[start..i + 1] == ds + [fmt[i]];
      assert (ds + [fmt[i]])[..|ds|] == ds;
      width := (width * 10 + fmt[i] - 48) % WORD_LIMIT;
      i := i + 1;
    }
  }

  /** The conversion at `i`, or none if the code asserts or panics there. */
  method ReadConversion(fmt: seq<Byte>, i: nat) returns (c: Conversion)
    requires i < |fmt|
    ensures c == ConversionAt(fmt, i)
  {
    hide Width;
    var width, j := ReadWidth(fmt, i + 1);
    if width >= 32 || j == |fmt| { return Bad; }
    return if BaseOf(fmt[j]) < 0 then Bad else Conversion(fmt[j], width, j + 1);
  }

  /**
   The first `n - 1` characters of the whole text and a NUL; nothing is written past `n`.  It panics
   exactly when a bad conversion is reached with room left.
   */
  method VaPrintk(buf: array<Byte>, n: nat, fmt: seq<Byte>, args: seq<Arg>) returns (r: Result)
    requires 1 <= n <= buf.Length && ArgsFit(fmt, 0, args)
    modifies buf
    ensures var o := Format(fmt, 0, args);
            && r == (if o.panics && |o.text| < n - 1 then Panicked else Stored(Min(|o.text|, n - 1) + 1))
            && (r.Stored? ==> buf[..r.len] == o.text[..r.len - 1] + [0])
    ensures forall k :: n <= k < buf.Length ==> buf[k] == old(buf[k])
  {
    hide ConversionAt;
    hide Piece;
    hide SoFar;
    ghost var total := Format(fmt, 0, args);
    var p, e, i, a := 0, n - 1, 0, 0;
    buf[0] := 0;
    ghost var rest := args;
    Start(total, e);
    assert buf[..0] == [];
    while i < |fmt| && p < e
      invariant 0 <= p <= e && i <= |fmt| && a <= |args| && rest == args[a..] && ArgsFit(fmt, i, rest)
      invariant SoFar(buf[..p], e, total, Format(fmt, i, rest))
      invariant forall k :: n <= k < buf.Length ==> buf[k] == old(buf[k])
    {
      if fmt[i] != PERCENT {
        p := PutChar(buf, p, e, fmt[i], total, Format(fmt, i + 1, rest));
        i := i + 1;
      } else if At(fmt, i + 1) == PERCENT {
        p := PutChar(buf, p, e, fmt[i], total, Format(fmt, i + 2, rest));
        i := i + 2;
      } else {
        var c := ReadConversion(fmt, i);
        if c.Bad? {
          Over(buf[..p], e, total, Output([], true));
          return Panicked;
        }
        p := PutPiece(buf, p, e, c, args[a], total, Format(fmt, c.next, rest[1..]));
        i, a, rest := c.next, a + 1, rest[1..];
      }
    }
    Finished(buf[..p], e, total, Format(fmt, i, rest));
    buf[p] := 0;
    return Stored(p + 1);
  }

  lemma Start(total: Output, cap: nat)
    ensures SoFar([], cap, total, total)
  {
    assert [] + total.text == total.text;
  }

  lemma Over(done: seq<Byte>, cap: nat, total: Output, rest: Output)
    requires SoFar(done, cap, total, rest) && |done| < cap
    ensures total == Then(done, rest)
  {
  }

  lemma Finished(done: seq<Byte>, cap: nat, total: Output, rest: Output)
    requires SoFar(done, cap, total, rest) && |done| <= cap
    requires |done| == cap || rest == Output([], false)
    ensures |done| == Min(|total.text|, cap) && done == total.text[..|done|]
    ensures |total.text| < cap ==> !total.panics
  {
  }

  method PutChar(buf: array<Byte>, start: nat, e: nat, ch: Byte, ghost total: Output, ghost rest: Output) returns (p: nat)
    requires start < e < buf.Length && SoFar(buf[..start], e, total, Then([ch], rest))
    modifies buf
    ensures p == start + 1 && SoFar(buf[..p], e, total, rest)
    ensures forall k :: p <= k < buf.Length ==> buf[k] == old(buf[k])
  {
    hide SoFar;
    Extend(buf[..start], e, total, [ch], rest, 1);
    buf[start] := ch;
    p := start + 1;
    assert buf[..p] == old(buf[..start]) + [ch][..1];
  }

  method PutPiece(buf: array<Byte>, start: nat, e: nat, c: Conversion, a: Arg, ghost total: Output, ghost rest: Output) returns (p: nat)
    requires c.Conversion? && c.width < 32 && BaseOf(c.spec) >= 0 && Suits(c.spec, a)
    requires start < e < buf.Length && SoFar(buf[..start], e, total, Then(Piece(c.spec, c.width, a), rest))
    modifies buf
    ensures start <= p <= e && SoFar(buf[..p], e, total, rest)
    ensures forall k :: p <= k < buf.Length ==> buf[k] == old(buf[k])
  {
    hide SoFar;
    hide Piece;
    hide CString;
    var s := Render(c, a);
    ghost var piece := CString(s);
    Extend(buf[..start], e, total, piece, rest, Min(|piece|, e - start));
    p := CopyString(buf, start, e, s);
  }

  /** The stored text is the whole C string in the buffer: no NUL comes before the last. */
  lemma {:induction false} TextHasNoNul(fmt: seq<Byte>, i: nat, args: seq<Arg>)
    requires i <= |fmt| && ArgsFit(fmt, i, args) && 0 !in fmt
    ensures 0 !in Format(fmt, i, args).text
    decreases |fmt| - i
  {
    hide ConversionAt;
    hide CString;
    hide Plain;
    if i < |fmt| {
      if fmt[i] != PERCENT {
        TextHasNoNul(fmt, i + 1, args);
      } else if At(fmt, i + 1) == PERCENT {
        TextHasNoNul(fmt, i + 2, args);
      } else {
        var c := ConversionAt(fmt, i);
        if c.Conversion? {
          TextHasNoNul(fmt, c.next, args[1..]);
        }
      }
    }
  }
}
