/** The log lines and boot messages of lab 5 in the characters and bytes themselves. */
module TraceMeans {
  import opened Words
  import opened TraceSpec
  import opened TraceProofs

  // ---------------------------------------------------------------- lines

  predicate HexDigit(c: Byte, d: int)
  {
    (0 <= d < 10 && c == 48 + d) || (10 <= d < 16 && (c == 87 + d || c == 55 + d))
  }

  predicate White(c: Byte) { c == 32 || 9 <= c <= 13 }

  /** Up to `k` blanks, and there the end or a `#`. */
  ghost predicate CommentAt(t: seq<Byte>, a: nat, b: nat, k: nat)
  {
    a <= k <= b <= |t| && (k < b ==> t[k] == 35) && forall j :: a <= j < k ==> White(t[j])
  }

  /** Blanks, then perhaps a comment that starts with `#`. */
  ghost predicate BlanksThenComment(t: seq<Byte>, a: nat, b: nat)
  {
    exists k: nat :: CommentAt(t, a, b, k)
  }

  /** t[a..b] is one whole line for the entry: `p,0x4f` in either case, blanks or a comment, and the newline. */
  ghost predicate IsLine(t: seq<Byte>, a: nat, b: nat, e: Entry)
  {
    && a + 7 <= b <= |t| && t[a] == e.sender && t[a + 1] == 44 && t[a + 2] == 48 && t[a + 3] == 120
    && HexDigit(t[a + 4], e.v / 16) && HexDigit(t[a + 5], e.v % 16)
    && t[b - 1] == 10 && (forall j :: a + 6 <= j < b - 1 ==> t[j] != 10) && BlanksThenComment(t, a + 6, b - 1)
  }

  lemma {:induction false} LineEndsIff(t: seq<Byte>, i: nat, comment: bool, r: nat)
    requires i < r <= |t|
    ensures AfterLine(t, i, comment) == r <==>
            t[r - 1] == 10 && (forall j :: i <= j < r - 1 ==> t[j] != 10) && (comment || BlanksThenComment(t, i, r - 1))
    decreases |t| - i
  {
    if t[i] == 10 {
      assert CommentAt(t, i, i, i);
    } else if i + 1 < r {
      LineEndsIff(t, i + 1, comment || t[i] == 35, r);
      BlanksOneOn(t, i, r - 1);
    }
  }

  lemma BlanksOneOn(t: seq<Byte>, a: nat, b: nat)
    requires a < b <= |t|
    ensures BlanksThenComment(t, a, b) <==> t[a] == 35 || (White(t[a]) && BlanksThenComment(t, a + 1, b))
  {
    if t[a] == 35 {
      assert CommentAt(t, a, b, a);
    } else {
      if k: nat :| CommentAt(t, a, b, k) {
        assert CommentAt(t, a + 1, b, k) && White(t[a]);
      }
      if White(t[a]) && BlanksThenComment(t, a + 1, b) {
        var k: nat :| CommentAt(t, a + 1, b, k);
        assert CommentAt(t, a, b, k);
      }
    }
  }

  lemma HexIff(c: Byte, d: int)
    requires 0 <= d < 16
    ensures HexValue(c) == d <==> HexDigit(c, d)
  {
  }

  lemma HexPair(h: Byte, l: Byte, v: Byte)
    ensures HexValue(h) >= 0 && HexValue(l) >= 0 && HexValue(h) * 16 + HexValue(l) == v <==> HexDigit(h, v / 16) && HexDigit(l, v % 16)
  {
    HexIff(h, v / 16);
    HexIff(l, v % 16);
  }

  /** The reader takes an entry from a place in the log exactly when one whole line for it stands there. */
  lemma {:induction false} EntryReadIff(t: seq<Byte>, i: nat, e: Entry, next: nat)
    ensures ReadEntry(t, i) == Got(e, next) <==> IsLine(t, i, next, e)
  {
    hide AfterLine;
    hide HexValue;
    hide HexDigit;
    hide BlanksThenComment;
    if i + 6 < next <= |t| {
      LineEndsIff(t, i + 6, false, next);
    }
    if i + 6 <= |t| {
      HexPair(t[i + 4], t[i + 5], e.v);
      var r := ReadEntry(t, i);
      if r.Got? {
        assert r.next == AfterLine(t, i + 6, false);
      }
    }
  }

  /** The writer's line: lower-case digits, the high one first, and nothing behind them. */
  lemma {:induction false} WrittenLine(sender: Byte, high: nat, low: nat)
    requires sender != 0 && high < 16 && low < 16
    ensures Written(Entry(sender, 16 * high + low)) ==
            [sender, 44, 48, 120, "0123456789abcdef"[high] as int, "0123456789abcdef"[low] as int, 10]
  {
    var v: Byte := 16 * high + low;
    assert v / 16 == high && v % 16 == low;
    assert DigitChar(high) == "0123456789abcdef"[high] as int;
    assert DigitChar(low) == "0123456789abcdef"[low] as int;
  }

  // ---------------------------------------------------------------- messages

  /** The entries of every message without a word of its own, from the Pi (`p`, 112) and from Unix (`u`, 117). */
  lemma {:induction false} MessageEntries(bs: seq<Byte>)
    ensures Serialise(GetProgInfo) == Sent(112, [0x22, 0x22, 0x11, 0x11])
    ensures Serialise(BootError) == Sent(112, [0xCC, 0xCC, 0xBB, 0xBB])
    ensures Serialise(BadCodeAddr) == Sent(112, [0xef, 0xbe, 0xad, 0xde])
    ensures Serialise(BadCodeCksum) == Sent(112, [0xce, 0xfa, 0xed, 0xfe])
    ensures Serialise(BootSuccess(bs)) == Sent(112, [0xAA, 0xAA, 0x99, 0x99] + bs)
    ensures Serialise(PutCode(bs)) == Sent(117, [0x88, 0x88, 0x77, 0x77] + bs)
  {
    OpcodeBytes();
    hide Sent;
    SentConcat(112, [0x22, 0x22, 0x11, 0x11], []);
    SentConcat(112, [0xCC, 0xCC, 0xBB, 0xBB], []);
    SentConcat(112, [0xef, 0xbe, 0xad, 0xde], []);
    SentConcat(112, [0xce, 0xfa, 0xed, 0xfe], []);
    SentConcat(112, [0xAA, 0xAA, 0x99, 0x99], bs);
    SentConcat(117, [0x88, 0x88, 0x77, 0x77], bs);
    hide LittleEndian;
  }

  lemma OpcodeBytes()
    ensures LittleEndian(GET_PROG_INFO) == [0x22, 0x22, 0x11, 0x11] && LittleEndian(BOOT_ERROR) == [0xCC, 0xCC, 0xBB, 0xBB]
    ensures LittleEndian(BAD_CODE_ADDR) == [0xef, 0xbe, 0xad, 0xde] && LittleEndian(BAD_CODE_CKSUM) == [0xce, 0xfa, 0xed, 0xfe]
    ensures LittleEndian(BOOT_SUCCESS) == [0xAA, 0xAA, 0x99, 0x99] && LittleEndian(PUT_CODE) == [0x88, 0x88, 0x77, 0x77]
    ensures LittleEndian(GET_CODE) == [0x66, 0x66, 0x55, 0x55] && LittleEndian(PUT_PROG_INFO) == [0x44, 0x44, 0x33, 0x33]
  {
  }

  /** The entries of the messages with words: address, size and checksum of the program in this order. */
  lemma {:induction false} WordMessageEntries(base: Word, size: Word, crc: Word, b: seq<Byte>, n: seq<Byte>, c: seq<Byte>)
    requires LowFirst(base, b) && LowFirst(size, n) && LowFirst(crc, c)
    ensures Serialise(GetCode(crc)) == Sent(112, [0x66, 0x66, 0x55, 0x55] + c)
    ensures Serialise(PutProgInfo(base, size, crc)) == Sent(117, [0x44, 0x44, 0x33, 0x33] + (b + n + c))
  {
    LowFirstIs(base, b);
    LowFirstIs(size, n);
    LowFirstIs(crc, c);
    OpcodeBytes();
    hide Sent;
    hide LittleEndian;
    SentConcat(112, [0x66, 0x66, 0x55, 0x55], c);
    SentConcat(117, [0x44, 0x44, 0x33, 0x33], b + n + c);
  }
}
