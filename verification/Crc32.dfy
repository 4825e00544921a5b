/**
 CRC-32 as `crc.c` computes it, against bit-at-a-time division by the reflected polynomial of
 section 8 of RFC 1952, and what that division guarantees.

 Facts about single 32-bit words are proved by the bit-vector theory; the inductive proofs hide
 the word operations and use only those facts.
 */
module Crc32 {
  import opened CrcTable

  // ---------------------------------------------------------------- bit-at-a-time division

  function BitOf(b: bool): bv32
  {
    if b then 1 else 0
  }

  /** The division register after feeding bits in transmission order. */
  function FeedBits(c: bv32, bits: seq<bool>): bv32
    decreases |bits|
  {
    if bits == [] then c else FeedBits(BitStep(Xor(c, BitOf(bits[0]))), bits[1..])
  }

  /** The bits of a byte, least significant first. */
  function Bits(b: bv8): (bits: seq<bool>)
    ensures |bits| == 8
  {
    [b & 1 != 0, b & 2 != 0, b & 4 != 0, b & 8 != 0, b & 16 != 0, b & 32 != 0, b & 64 != 0, b & 128 != 0]
  }

  function MessageBits(m: seq<bv8>): (bits: seq<bool>)
    ensures |bits| == 8 * |m|
  {
    if m == [] then [] else MessageBits(m[..|m| - 1]) + Bits(m[|m| - 1])
  }

  function Not(x: bv32): bv32
  {
    x ^ 0xFFFFFFFF
  }

  /** The CRC of a message by definition: divide its bits, complementing before and after. */
  function CrcByDivision(m: seq<bv8>, crc: bv32): bv32
  {
    Not(FeedBits(Not(crc), MessageBits(m)))
  }

  // ---------------------------------------------------------------- facts about words

  lemma XorAssoc(x: bv32, y: bv32, z: bv32)
    ensures Xor(Xor(x, y), z) == Xor(x, Xor(y, z))
  {
  }

  lemma XorZero(x: bv32)
    ensures Xor(x, 0) == x
  {
  }

  lemma XorCancels(c: bv32, x: bv32, y: bv32)
    requires Xor(c, x) == Xor(c, y)
    ensures x == y
  {
  }

  lemma NotTwice(x: bv32)
    ensures Not(Not(x)) == x
  {
  }

  function Half(x: bv32): bv32
  {
    x >> 1
  }

  predicate Odd(x: bv32)
  {
    x & 1 == 1
  }

  lemma HalfXor(x: bv32, y: bv32)
    ensures Half(Xor(x, y)) == Xor(Half(x), Half(y))
  {
  }

  lemma OddXor(x: bv32, y: bv32)
    ensures Odd(Xor(x, y)) <==> Odd(x) != Odd(y)
  {
  }

  lemma XorComm(x: bv32, y: bv32)
    ensures Xor(x, y) == Xor(y, x)
  {
  }

  lemma XorTwice(x: bv32, p: bv32)
    ensures Xor(Xor(x, p), p) == x
  {
  }

  lemma BitStepIs(c: bv32)
    ensures BitStep(c) == if Odd(c) then Xor(Half(c), POLY) else Half(c)
  {
  }

  lemma BitStepLinear(x: bv32, y: bv32)
    ensures BitStep(Xor(x, y)) == Xor(BitStep(x), BitStep(y))
  {
    hide BitStep;
    hide Xor;
    hide Half;
    hide Odd;
    var u, v := Half(x), Half(y);
    BitStepIs(x);
    BitStepIs(y);
    BitStepIs(Xor(x, y));
    HalfXor(x, y);
    OddXor(x, y);
    XorAssoc(u, v, POLY);
    XorComm(v, POLY);
    XorAssoc(u, POLY, v);
    XorAssoc(Xor(u, POLY), v, POLY);
    XorTwice(Xor(u, v), POLY);
  }

  /** The polynomial's top bit is set, so a step forgets nothing. */
  lemma BitStepInjective(x: bv32, y: bv32)
    requires BitStep(x) == BitStep(y)
    ensures x == y
  {
  }

  // ---------------------------------------------------------------- up to 32 bits at once

  function Steps(c: bv32, k: nat): bv32
    decreases k
  {
    if k == 0 then c else Steps(BitStep(c), k - 1)
  }

  lemma {:induction false} StepsInjective(x: bv32, y: bv32, k: nat)
    requires Steps(x, k) == Steps(y, k)
    ensures x == y
    decreases k
  {
    hide BitStep;
    if k > 0 {
      StepsInjective(BitStep(x), BitStep(y), k - 1);
      BitStepInjective(x, y);
    }
  }

  function Double(x: bv32): bv32
  {
    x << 1
  }

  /** At most 32 bits as a word, the first bit lowest. */
  function Pack(bits: seq<bool>): bv32
    requires |bits| <= 32
  {
    if bits == [] then 0 else Xor(BitOf(bits[0]), Double(Pack(bits[1..])))
  }

  predicate Small(x: bv32)
  {
    x < 0x80000000
  }

  /** The top `n` bits are clear: `x` can be doubled `n` times without losing a bit. */
  predicate TopZeros(x: bv32, n: nat)
    decreases n
  {
    n == 0 || (Small(x) && TopZeros(Double(x), n - 1))
  }

  lemma SmallXor(x: bv32, y: bv32)
    requires Small(x) && Small(y)
    ensures Small(Xor(x, y))
  {
  }

  lemma DoubleXor(x: bv32, y: bv32)
    ensures Double(Xor(x, y)) == Xor(Double(x), Double(y))
  {
  }

  lemma {:induction false} TopZerosXor(x: bv32, y: bv32, n: nat)
    requires TopZeros(x, n) && TopZeros(y, n)
    ensures TopZeros(Xor(x, y), n)
    decreases n
  {
    hide Small;
    hide Xor;
    hide Double;
    if n > 0 {
      SmallXor(x, y);
      DoubleXor(x, y);
      TopZerosXor(Double(x), Double(y), n - 1);
    }
  }

  lemma {:induction false} TopZerosFewer(x: bv32, m: nat, n: nat)
    requires m <= n && TopZeros(x, n)
    ensures TopZeros(x, m)
    decreases m
  {
    hide Small;
    hide Double;
    if m > 0 {
      TopZerosFewer(Double(x), m - 1, n - 1);
    }
  }

  lemma TopZerosOfOne()
    ensures TopZeros(1, 31)
  {
    assert TopZeros(0x40000000, 1);
    assert TopZeros(0x20000000, 2);
    assert TopZeros(0x10000000, 3);
    assert TopZeros(0x8000000, 4);
    assert TopZeros(0x4000000, 5);
    assert TopZeros(0x2000000, 6);
    assert TopZeros(0x1000000, 7);
    assert TopZeros(0x800000, 8);
    assert TopZeros(0x400000, 9);
    assert TopZeros(0x200000, 10);
    assert TopZeros(0x100000, 11);
    assert TopZeros(0x80000, 12);
    assert TopZeros(0x40000, 13);
    assert TopZeros(0x20000, 14);
    assert TopZeros(0x10000, 15);
    assert TopZeros(0x8000, 16);
    assert TopZeros(0x4000, 17);
    assert TopZeros(0x2000, 18);
    assert TopZeros(0x1000, 19);
    assert TopZeros(0x800, 20);
    assert TopZeros(0x400, 21);
    assert TopZeros(0x200, 22);
    assert TopZeros(0x100, 23);
    assert TopZeros(0x80, 24);
    assert TopZeros(0x40, 25);
    assert TopZeros(0x20, 26);
    assert TopZeros(0x10, 27);
    assert TopZeros(0x8, 28);
    assert TopZeros(0x4, 29);
    assert TopZeros(0x2, 30);
    assert TopZeros(0x1, 31);
  }

  lemma {:induction false} TopZerosOfZero(n: nat)
    ensures TopZeros(0, n)
  {
    if n > 0 {
      assert Double(0) == 0;
      TopZerosOfZero(n - 1);
    }
  }

  lemma TopZerosOfBit(b: bool)
    ensures TopZeros(BitOf(b), 31)
  {
    hide TopZeros;
    TopZerosOfOne();
    TopZerosOfZero(31);
  }

  lemma {:induction false} PackTopZeros(bits: seq<bool>)
    requires |bits| <= 32
    ensures TopZeros(Pack(bits), 32 - |bits|)
  {
    if bits == [] {
      TopZerosOfZero(32);
    } else {
      hide Small;
      hide Xor;
      hide Double;
      hide BitOf;
      var n := 32 - |bits|;
      PackTopZeros(bits[1..]);
      TopZerosOfBit(bits[0]);
      TopZerosFewer(BitOf(bits[0]), n, 31);
      TopZerosXor(BitOf(bits[0]), Double(Pack(bits[1..])), n);
    }
  }

  lemma StepUndoesDouble(p: bv32)
    requires Small(p)
    ensures BitStep(Double(p)) == p
  {
  }

  /** A word mixed in one step later can be mixed in now, doubled. */
  lemma MixEarlier(c: bv32, bits: seq<bool>)
    requires 0 < |bits| <= 32
    ensures BitStep(Xor(c, Pack(bits))) == Xor(BitStep(Xor(c, BitOf(bits[0]))), Pack(bits[1..]))
  {
    hide BitOf;
    hide Xor;
    hide Double;
    hide Small;
    hide BitStep;
    var b, p := BitOf(bits[0]), Pack(bits[1..]);
    PackTopZeros(bits[1..]);
    StepUndoesDouble(p);
    XorAssoc(c, b, Double(p));
    BitStepLinear(Xor(c, b), Double(p));
  }

  /** Feeding up to 32 bits is mixing their word into the register and stepping. */
  lemma {:induction false} FeedIsSteps(c: bv32, bits: seq<bool>)
    requires |bits| <= 32
    ensures FeedBits(c, bits) == Steps(Xor(c, Pack(bits)), |bits|)
    decreases |bits|
  {
    if bits == [] {
      XorZero(c);
    } else {
      hide BitOf;
      hide Xor;
      hide BitStep;
      hide Pack;
      FeedIsSteps(BitStep(Xor(c, BitOf(bits[0]))), bits[1..]);
      MixEarlier(c, bits);
    }
  }

  lemma {:induction false} FeedConcat(c: bv32, xs: seq<bool>, ys: seq<bool>)
    ensures FeedBits(c, xs + ys) == FeedBits(FeedBits(c, xs), ys)
    decreases |xs|
  {
    hide BitOf;
    hide Xor;
    hide BitStep;
    if xs == [] {
      assert xs + ys == ys;
    } else {
      assert (xs + ys)[1..] == xs[1..] + ys;
      FeedConcat(BitStep(Xor(c, BitOf(xs[0]))), xs[1..], ys);
    }
  }

  /** For a fixed message the register before determines, and is determined by, the register after. */
  lemma {:induction false} FeedInjective(x: bv32, y: bv32, bits: seq<bool>)
    requires FeedBits(x, bits) == FeedBits(y, bits)
    ensures x == y
    decreases |bits|
  {
    hide BitOf;
    hide Xor;
    hide BitStep;
    if bits != [] {
      var b := BitOf(bits[0]);
      FeedInjective(BitStep(Xor(x, b)), BitStep(Xor(y, b)), bits[1..]);
      BitStepInjective(Xor(x, b), Xor(y, b));
      XorRight(x, y, b);
    }
  }

  lemma XorRight(x: bv32, y: bv32, b: bv32)
    requires Xor(x, b) == Xor(y, b)
    ensures x == y
  {
  }

  // ---------------------------------------------------------------- the table-driven loop

  function LowByte(x: bv32): bv8
  {
    (x & 0xFF) as bv8
  }

  function Widen(b: bv8): bv32
  {
    b as bv32
  }

  function ShiftByte(x: bv32): bv32
  {
    x >> 8
  }

  /** One turn of the loop in `our_crc32_inc`. */
  function Update(c: bv32, b: bv8): bv32
  {
    Xor(Table(LowByte(Xor(c, Widen(b)))), ShiftByte(c))
  }

  function Fold(c: bv32, m: seq<bv8>): bv32
  {
    if m == [] then c else Update(Fold(c, m[..|m| - 1]), m[|m| - 1])
  }

  lemma ByteStepsLinear(x: bv32, y: bv32)
    ensures ByteSteps(Xor(x, y)) == Xor(ByteSteps(x), ByteSteps(y))
  {
    hide BitStep;
    hide Xor;
    var x1, y1 := BitStep(x), BitStep(y);
    var x2, y2 := BitStep(x1), BitStep(y1);
    var x3, y3 := BitStep(x2), BitStep(y2);
    var x4, y4 := BitStep(x3), BitStep(y3);
    var x5, y5 := BitStep(x4), BitStep(y4);
    var x6, y6 := BitStep(x5), BitStep(y5);
    var x7, y7 := BitStep(x6), BitStep(y6);
    BitStepLinear(x, y);
    BitStepLinear(x1, y1);
    BitStepLinear(x2, y2);
    BitStepLinear(x3, y3);
    BitStepLinear(x4, y4);
    BitStepLinear(x5, y5);
    BitStepLinear(x6, y6);
    BitStepLinear(x7, y7);
  }

  function Upper(x: bv32): bv32
  {
    (x >> 8) << 8
  }

  lemma UpperShiftsDown(x: bv32)
    ensures ByteSteps(Upper(x)) == ShiftByte(x)
  {
  }

  lemma SplitLowByte(x: bv32)
    ensures x == Xor(Widen(LowByte(x)), Upper(x))
  {
  }

  lemma ByteLeavesUpper(c: bv32, b: bv8)
    ensures ShiftByte(Xor(c, Widen(b))) == ShiftByte(c)
  {
  }

  /** One look-up and shift does the eight division steps of a byte. */
  lemma UpdateIsByteSteps(c: bv32, b: bv8)
    ensures Update(c, b) == ByteSteps(Xor(c, Widen(b)))
  {
    hide ByteSteps;
    hide Table;
    hide Xor;
    hide LowByte;
    hide Widen;
    hide ShiftByte;
    hide Upper;
    var x := Xor(c, Widen(b));
    SplitLowByte(x);
    ByteStepsLinear(Widen(LowByte(x)), Upper(x));
    UpperShiftsDown(x);
    TableEntry(LowByte(x));
    ByteLeavesUpper(c, b);
  }

  lemma TableEntry(i: bv8)
    ensures Table(i) == ByteSteps(Widen(i))
  {
    hide Table;
    hide ByteSteps;
    TableDivides(i);
  }

  lemma BitsRebuildByte(b: bv8)
    ensures Xor(BitOf(b & 1 != 0), Double(Xor(BitOf(b & 2 != 0), Double(Xor(BitOf(b & 4 != 0), Double(
            Xor(BitOf(b & 8 != 0), Double(Xor(BitOf(b & 16 != 0), Double(Xor(BitOf(b & 32 != 0), Double(
            Xor(BitOf(b & 64 != 0), Double(Xor(BitOf(b & 128 != 0), Double(0)))))))))))))))) == Widen(b)
  {
  }

  lemma PackCons(bits: seq<bool>)
    requires 0 < |bits| <= 32
    ensures Pack(bits) == Xor(BitOf(bits[0]), Double(Pack(bits[1..])))
  {
  }

  lemma PackByte(b: bv8)
    ensures Pack(Bits(b)) == Widen(b)
  {
    hide Xor;
    hide Double;
    hide BitOf;
    hide Widen;
    hide Pack;
    var bits := Bits(b);
    PackCons(bits);
    PackCons(bits[1..]);
    PackCons(bits[2..]);
    PackCons(bits[3..]);
    PackCons(bits[4..]);
    PackCons(bits[5..]);
    PackCons(bits[6..]);
    PackCons(bits[7..]);
    assert bits[1..][1..] == bits[2..] && bits[2..][1..] == bits[3..] && bits[3..][1..] == bits[4..];
    assert bits[4..][1..] == bits[5..] && bits[5..][1..] == bits[6..] && bits[6..][1..] == bits[7..] && bits[7..][1..] == [];
    PackNothing();
    BitsRebuildByte(b);
  }

  lemma PackNothing()
    ensures Pack([]) == 0
  {
  }

  lemma EightSteps(c: bv32)
    ensures Steps(c, 8) == ByteSteps(c)
  {
    hide BitStep;
    var c4 := BitStep(BitStep(BitStep(BitStep(c))));
    assert Steps(c, 8) == Steps(BitStep(BitStep(c)), 6);
    assert Steps(BitStep(BitStep(c)), 6) == Steps(c4, 4);
    assert Steps(c4, 4) == Steps(BitStep(BitStep(c4)), 2);
  }

  lemma {:induction false} UpdateIsDivision(c: bv32, b: bv8)
    ensures Update(c, b) == FeedBits(c, Bits(b))
  {
    hide Update;
    hide Xor;
    hide Widen;
    hide ByteSteps;
    hide Bits;
    FeedIsSteps(c, Bits(b));
    PackByte(b);
    EightSteps(Xor(c, Widen(b)));
    UpdateIsByteSteps(c, b);
  }

  /** For every message and starting register the table-driven loop is the bit-at-a-time division. */
  lemma {:induction false} FoldIsDivision(c: bv32, m: seq<bv8>)
    ensures Fold(c, m) == FeedBits(c, MessageBits(m))
  {
    hide Update;
    hide Bits;
    hide Xor;
    hide BitStep;
    hide BitOf;
    if m != [] {
      var front, last := m[..|m| - 1], m[|m| - 1];
      FoldIsDivision(c, front);
      UpdateIsDivision(Fold(c, front), last);
      FeedConcat(c, MessageBits(front), Bits(last));
    }
  }

  /** `our_crc32_inc`. */
  method Crc32Inc(buf: array<bv8>, size: nat, crc: bv32) returns (r: bv32)
    requires size <= buf.Length
    ensures r == CrcByDivision(buf[..size], crc)
  {
    hide Update;
    hide Not;
    var c := Not(crc);
    var i := 0;
    while i < size
      invariant i <= size && c == Fold(Not(crc), buf[..i])
    {
      assert buf[..i + 1][..i] == buf[..i];
      c := Update(c, buf[i]);
      i := i + 1;
    }
    FoldIsDivision(Not(crc), buf[..size]);
    r := Not(c);
  }

  /** `our_crc32`. */
  method Crc32(buf: array<bv8>, size: nat) returns (r: bv32)
    requires size <= buf.Length
    ensures r == CrcByDivision(buf[..size], 0)
  {
    r := Crc32Inc(buf, size, 0);
  }

  // ---------------------------------------------------------------- what the division guarantees

  lemma {:induction false} MessageBitsConcat(x: seq<bv8>, y: seq<bv8>)
    ensures MessageBits(x + y) == MessageBits(x) + MessageBits(y)
  {
    hide Bits;
    if y == [] {
      assert x + y == x;
    } else {
      MessageBitsConcat(x, y[..|y| - 1]);
      assert (x + y)[..|x + y| - 1] == x + y[..|y| - 1];
    }
  }

  /** Two calls on the halves of a message are one call on the whole. */
  lemma {:induction false} Incremental(a: seq<bv8>, b: seq<bv8>, crc: bv32)
    ensures CrcByDivision(b, CrcByDivision(a, crc)) == CrcByDivision(a + b, crc)
  {
    hide Not;
    hide FeedBits;
    MessageBitsConcat(a, b);
    FeedConcat(Not(crc), MessageBits(a), MessageBits(b));
    NotTwice(FeedBits(Not(crc), MessageBits(a)));
  }

  lemma PackInjectiveStep(x: bool, y: bool, p: bv32, q: bv32)
    requires Small(p) && Small(q) && Xor(BitOf(x), Double(p)) == Xor(BitOf(y), Double(q))
    ensures x == y && p == q
  {
  }

  lemma {:induction false} PackInjective(xs: seq<bool>, ys: seq<bool>)
    requires |xs| == |ys| <= 32 && Pack(xs) == Pack(ys)
    ensures xs == ys
  {
    hide Small;
    hide Xor;
    hide Double;
    hide BitOf;
    if xs != [] {
      PackTopZeros(xs[1..]);
      PackTopZeros(ys[1..]);
      PackInjectiveStep(xs[0], ys[0], Pack(xs[1..]), Pack(ys[1..]));
      PackInjective(xs[1..], ys[1..]);
      assert xs == [xs[0]] + xs[1..] && ys == [ys[0]] + ys[1..];
    }
  }

  /** From one register, different words of at most 32 bits lead to different registers. */
  lemma {:induction false} WordsTellApart(c: bv32, xs: seq<bool>, ys: seq<bool>)
    requires |xs| == |ys| <= 32 && FeedBits(c, xs) == FeedBits(c, ys)
    ensures xs == ys
  {
    hide Xor;
    hide Pack;
    hide Steps;
    hide FeedBits;
    FeedIsSteps(c, xs);
    FeedIsSteps(c, ys);
    StepsInjective(Xor(c, Pack(xs)), Xor(c, Pack(ys)), |xs|);
    XorCancels(c, Pack(xs), Pack(ys));
    PackInjective(xs, ys);
  }

  /** The two bit strings differ at most inside 32 consecutive places from `i` on. */
  ghost predicate BurstAt(x: seq<bool>, y: seq<bool>, i: nat)
  {
    |x| == |y| && forall k :: 0 <= k < |x| && !(i <= k < i + 32) ==> x[k] == y[k]
  }

  lemma BurstDetectedBits(c: bv32, x: seq<bool>, y: seq<bool>, i: nat)
    requires BurstAt(x, y, i) && FeedBits(c, x) == FeedBits(c, y)
    ensures x == y
  {
    hide FeedBits;
    var n := |x|;
    var a := if i < n then i else n;
    var b := if i + 32 < n then i + 32 else n;
    assert x == x[..a] + (x[a..b] + x[b..]) && y == y[..a] + (y[a..b] + y[b..]);
    assert x[..a] == y[..a] && x[b..] == y[b..];
    FeedConcat(c, x[..a], x[a..b] + x[b..]);
    FeedConcat(c, y[..a], y[a..b] + y[b..]);
    var r := FeedBits(c, x[..a]);
    FeedConcat(r, x[a..b], x[b..]);
    FeedConcat(r, y[a..b], y[b..]);
    FeedInjective(FeedBits(r, x[a..b]), FeedBits(r, y[a..b]), x[b..]);
    WordsTellApart(r, x[a..b], y[a..b]);
  }

  lemma BitsInjective(x: bv8, y: bv8)
    requires Bits(x) == Bits(y)
    ensures x == y
  {
    hide Bits;
    PackByte(x);
    PackByte(y);
    WidenInjective(x, y);
  }

  lemma WidenInjective(x: bv8, y: bv8)
    requires Widen(x) == Widen(y)
    ensures x == y
  {
  }

  lemma {:induction false} MessageBitsInjective(x: seq<bv8>, y: seq<bv8>)
    requires MessageBits(x) == MessageBits(y)
    ensures x == y
  {
    hide Bits;
    if x != [] {
      var n := |x| - 1;
      var u, v := MessageBits(x[..n]), MessageBits(y[..n]);
      assert u == MessageBits(x)[..8 * n] == v;
      assert Bits(x[n]) == MessageBits(x)[8 * n..] == Bits(y[n]);
      MessageBitsInjective(x[..n], y[..n]);
      BitsInjective(x[n], y[n]);
      assert x == x[..n] + [x[n]] && y == y[..n] + [y[n]];
    }
  }

  lemma NotInjective(x: bv32, y: bv32)
    requires Not(x) == Not(y)
    ensures x == y
  {
  }

  /** Any change to a message confined to 32 consecutive bits changes its CRC. */
  lemma {:induction false} BurstChangesCrc(x: seq<bv8>, y: seq<bv8>, crc: bv32, i: nat)
    requires x != y && BurstAt(MessageBits(x), MessageBits(y), i)
    ensures CrcByDivision(x, crc) != CrcByDivision(y, crc)
  {
    hide Not;
    hide FeedBits;
    hide MessageBits;
    if CrcByDivision(x, crc) == CrcByDivision(y, crc) {
      NotInjective(FeedBits(Not(crc), MessageBits(x)), FeedBits(Not(crc), MessageBits(y)));
      BurstDetectedBits(Not(crc), MessageBits(x), MessageBits(y), i);
      MessageBitsInjective(x, y);
    }
  }

  lemma {:induction false} MessageBit(m: seq<bv8>, k: nat)
    requires k < 8 * |m|
    ensures MessageBits(m)[k] == Bits(m[k / 8])[k % 8]
  {
    hide Bits;
    var n := |m| - 1;
    if k < 8 * n {
      MessageBit(m[..n], k);
    } else {
      assert k / 8 == n && k % 8 == k - 8 * n;
    }
  }

  /** Any change confined to four consecutive bytes changes the CRC. */
  lemma {:induction false} FourBytesChangeCrc(x: seq<bv8>, y: seq<bv8>, crc: bv32, j: nat)
    requires |x| == |y| && x != y && forall k :: 0 <= k < |x| && !(j <= k < j + 4) ==> x[k] == y[k]
    ensures CrcByDivision(x, crc) != CrcByDivision(y, crc)
  {
    hide Bits;
    hide MessageBits;
    hide CrcByDivision;
    var u, v := MessageBits(x), MessageBits(y);
    forall k | 0 <= k < |u| && !(8 * j <= k < 8 * j + 32)
      ensures u[k] == v[k]
    {
      MessageBit(x, k);
      MessageBit(y, k);
    }
    BurstChangesCrc(x, y, crc, 8 * j);
  }

  // ---------------------------------------------------------------- the residue

  /** A word as the four bytes of its little-endian layout. */
  function WordBytes(w: bv32): seq<bv8>
  {
    [LowByte(w), LowByte(w >> 8), LowByte(w >> 16), LowByte(w >> 24)]
  }

  function Raise(x: bv32): bv32
  {
    x << 8
  }

  predicate ThreeBytes(x: bv32)
  {
    x < 0x1000000
  }

  lemma ByteStepsLower(y: bv32)
    requires ThreeBytes(y)
    ensures ByteSteps(Raise(y)) == y
  {
  }

  /** Bytes mixed in after eight steps can be mixed in before them, one byte higher. */
  lemma MixByteEarlier(x: bv32, y: bv32)
    requires ThreeBytes(y)
    ensures Xor(ByteSteps(x), y) == ByteSteps(Xor(x, Raise(y)))
  {
    hide ByteSteps;
    hide Xor;
    hide Raise;
    hide ThreeBytes;
    ByteStepsLinear(x, Raise(y));
    ByteStepsLower(y);
  }

  lemma StackBytes(b0: bv8, b1: bv8, b2: bv8, b3: bv8)
    ensures ThreeBytes(Widen(b3)) && ThreeBytes(Xor(Widen(b2), Raise(Widen(b3))))
    ensures ThreeBytes(Xor(Widen(b1), Raise(Xor(Widen(b2), Raise(Widen(b3))))))
  {
  }

  lemma RebuildWord(w: bv32)
    ensures Xor(Widen(LowByte(w)), Raise(Xor(Widen(LowByte(w >> 8)), Raise(Xor(Widen(LowByte(w >> 16)), Raise(Widen(LowByte(w >> 24)))))))) == w
  {
  }

  /** Four bytes fed one after the other act as their little-endian word fed at once. */
  lemma FoldWord(c: bv32, w: bv32)
    ensures Fold(c, WordBytes(w)) == ByteSteps(ByteSteps(ByteSteps(ByteSteps(Xor(c, w)))))
  {
    hide ByteSteps;
    hide Xor;
    hide Raise;
    hide ThreeBytes;
    hide Widen;
    hide LowByte;
    hide Update;
    hide Fold;
    var b0, b1, b2, b3 := LowByte(w), LowByte(w >> 8), LowByte(w >> 16), LowByte(w >> 24);
    FourUpdates(c, WordBytes(w));
    var y3 := Widen(b3);
    var y2 := Xor(Widen(b2), Raise(y3));
    var y1 := Xor(Widen(b1), Raise(y2));
    StackBytes(b0, b1, b2, b3);
    var x0 := Xor(c, Widen(b0));
    var x1 := Xor(ByteSteps(x0), Widen(b1));
    var x2 := Xor(ByteSteps(x1), Widen(b2));
    UpdateIsByteSteps(c, b0);
    UpdateIsByteSteps(ByteSteps(x0), b1);
    UpdateIsByteSteps(ByteSteps(x1), b2);
    UpdateIsByteSteps(ByteSteps(x2), b3);
    MixByteEarlier(x2, y3);
    XorAssoc(ByteSteps(x1), Widen(b2), Raise(y3));
    MixByteEarlier(x1, y2);
    XorAssoc(ByteSteps(x0), Widen(b1), Raise(y2));
    MixByteEarlier(x0, y1);
    XorAssoc(c, Widen(b0), Raise(y1));
    RebuildWord(w);
  }

  lemma FourUpdates(c: bv32, m: seq<bv8>)
    requires |m| == 4
    ensures Fold(c, m) == Update(Update(Update(Update(c, m[0]), m[1]), m[2]), m[3])
  {
    hide Update;
    assert m[..3][..2] == m[..2] && m[..2][..1] == m[..1] && m[..1][..0] == [];
    assert Fold(c, m[..1]) == Update(c, m[0]);
    assert Fold(c, m[..2]) == Update(Fold(c, m[..1]), m[1]);
    assert Fold(c, m[..3]) == Update(Fold(c, m[..2]), m[2]);
  }

  lemma AllOnes(r: bv32)
    ensures Xor(r, Not(r)) == 0xFFFFFFFF
  {
  }

  lemma ResidueOfOnes()
    ensures Not(ByteSteps(ByteSteps(ByteSteps(ByteSteps(0xFFFFFFFF))))) == 0x2144DF1C
  {
    assert ByteSteps(0xFFFFFFFF) == 0x2DFD1072;
    assert ByteSteps(0x2DFD1072) == 0xBE26ED00;
    assert ByteSteps(0xBE26ED00) == 0xBE26ED;
    assert ByteSteps(0xBE26ED) == 0xDEBB20E3;
  }

  /** Appending a message's CRC, low byte first, always gives a message with the same constant CRC. */
  lemma {:induction false} ResidueIsConstant(m: seq<bv8>, crc: bv32)
    ensures CrcByDivision(m + WordBytes(CrcByDivision(m, crc)), crc) == 0x2144DF1C
  {
    hide Not;
    hide Xor;
    hide ByteSteps;
    hide FeedBits;
    hide Fold;
    hide MessageBits;
    hide WordBytes;
    var r := FeedBits(Not(crc), MessageBits(m));
    var w := Not(r);
    Incremental(m, WordBytes(w), crc);
    NotTwice(r);
    FoldIsDivision(r, WordBytes(w));
    FoldWord(r, w);
    AllOnes(r);
    ResidueOfOnes();
  }
}
