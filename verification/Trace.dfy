/**
 The log reader and trace parser as they run: a cursor over the log's text.  A method that stops
 the program answers with `ok == false`, `Dies`, `Died` or `None`; its cursor then means nothing.
 */
module Trace {
  import opened Words
  import opened TraceSpec
  import Proofs = TraceProofs

  // ---------------------------------------------------------------- what a read did to the entries left

  /** `bs`, all from `sender`, were read off the front. */
  ghost predicate Gave(before: Option<seq<Entry>>, sender: Byte, bs: seq<Byte>, after: Option<seq<Entry>>)
  {
    before.Some? == after.Some? && (before.Some? ==> before.value == Sent(sender, bs) + after.value)
  }

  /** The next `n` entries are not there, not readable, or not all from `sender`. */
  ghost predicate Refused(before: Option<seq<Entry>>, sender: Byte, n: nat)
  {
    before.None? || Take(before.value, sender, n).None?
  }

  lemma GaveNothing(a: Option<seq<Entry>>, s: Byte)
    ensures Gave(a, s, [], a)
  {
    if a.Some? {
      assert a.value == [] + a.value;
    }
  }

  lemma GaveOne(t: seq<Byte>, i: nat)
    requires ReadEntry(t, i).Got?
    ensures var r := ReadEntry(t, i); Gave(Entries(t, i), r.e.sender, [r.e.v], Entries(t, r.next))
  {
    hide ReadEntry;
  }

  lemma GaveMore(a: Option<seq<Entry>>, b: Option<seq<Entry>>, c: Option<seq<Entry>>, s: Byte, x: seq<Byte>, y: seq<Byte>)
    requires Gave(a, s, x, b) && Gave(b, s, y, c)
    ensures Gave(a, s, x + y, c)
  {
    hide Sent;
    if a.Some? {
      Proofs.SentConcat(s, x, y);
      assert Sent(s, x) + (Sent(s, y) + c.value) == Sent(s, x) + Sent(s, y) + c.value;
    }
  }

  lemma GaveTakes(a: Option<seq<Entry>>, b: Option<seq<Entry>>, s: Byte, x: seq<Byte>)
    requires Gave(a, s, x, b) && a.Some?
    ensures |x| <= |a.value| && Take(a.value, s, |x|) == Some(x) && a.value[|x|..] == b.value
  {
    Proofs.TakeSent(s, x, b.value);
  }

  lemma GaveWord(a: Option<seq<Entry>>, b: Option<seq<Entry>>, s: Byte, w: Word)
    requires Gave(a, s, LittleEndian(w), b) && a.Some?
    ensures |a.value| >= 4 && TakeWord(a.value, s) == Some(w) && a.value[4..] == b.value
  {
    hide LittleEndian;
    GaveTakes(a, b, s, LittleEndian(w));
    LittleEndianRoundTrip(w);
  }

  lemma RefusedLater(a: Option<seq<Entry>>, b: Option<seq<Entry>>, s: Byte, x: seq<Byte>, n: nat)
    requires Gave(a, s, x, b) && Refused(b, s, n)
    ensures Refused(a, s, |x| + n)
  {
    hide Sent;
    if a.Some? && |x| + n <= |a.value| {
      GaveTakes(a, b, s, x);
      var front := a.value[..|x| + n];
      assert b.value[..n] == front[|x|..];
      var e :| e in b.value[..n] && e.sender != s;
      assert e in front;
    }
  }

  lemma RefusedAtEnd(t: seq<Byte>, i: nat, s: Byte, n: nat)
    requires n > 0 && !ReadEntry(t, i).Got?
    ensures Refused(Entries(t, i), s, n)
  {
    hide ReadEntry;
  }

  lemma RefusedSender(t: seq<Byte>, i: nat, s: Byte, n: nat)
    requires n > 0 && ReadEntry(t, i).Got? && ReadEntry(t, i).e.sender != s
    ensures Refused(Entries(t, i), s, n)
    ensures Entries(t, i).None? || !From(Entries(t, i).value, s)
  {
    hide ReadEntry;
    var es := Entries(t, i);
    if es.Some? {
      assert es.value[0].sender != s;
      assert es.value[0] in es.value;
      if n <= |es.value| {
        assert es.value[0] in es.value[..n];
      }
    }
  }

  lemma OtherSenderLater(a: Option<seq<Entry>>, b: Option<seq<Entry>>, s: Byte, x: seq<Byte>)
    requires Gave(a, s, x, b) && (b.None? || !From(b.value, s))
    ensures a.None? || !From(a.value, s)
  {
    if a.Some? {
      var e :| e in b.value && e.sender != s;
      assert e in a.value;
    }
  }

  /** The parse of what was read so far followed by what is left. */
  ghost function Finish(done: seq<Msg>, left: Option<seq<Entry>>, n: Word): Option<seq<Msg>>
  {
    if left.None? then None
    else
      var ms := ParseAll(left.value, n);
      if ms.None? then None else Some(done + ms.value)
  }

  datatype Fetched = NoWord | NoWordDied | Fetched(sender: Byte, w: Word)
  datatype Turn = Done | Died | Message(msg: Msg, nbytes: Word)

  /** What one turn of the message loop says about the entries before and after it. */
  ghost predicate TurnIs(t: Turn, before: Option<seq<Entry>>, after: Option<seq<Entry>>, n: Word)
  {
    match t
    case Done => before == Some([])
    case Died => before.None? || (before.value != [] && ParseOne(before.value, n).Stop?)
    case Message(m, n1) =>
      && before.Some? == after.Some?
      && (before.Some? ==>
            && |after.value| < |before.value|
            && ParseOne(before.value, n) == Parsed(m, |before.value| - |after.value|, n1)
            && after.value == before.value[|before.value| - |after.value|..])
  }

  lemma TurnFinishes(t: Turn, done: seq<Msg>, before: Option<seq<Entry>>, after: Option<seq<Entry>>, n: Word)
    requires TurnIs(t, before, after, n)
    ensures t.Done? ==> Finish(done, before, n) == Some(done)
    ensures t.Died? ==> Finish(done, before, n) == None
    ensures t.Message? ==> Finish(done, before, n) == Finish(done + [t.msg], after, t.nbytes)
  {
    hide ParseOne;
    assert done + [] == done;
    if t.Message? && before.Some? && ParseAll(after.value, t.nbytes).Some? {
      var ms := ParseAll(after.value, t.nbytes).value;
      assert done + ([t.msg] + ms) == done + [t.msg] + ms;
    }
  }

  /** The opcode has been read: `es` from the sender of its first entry, `rest` is left. */
  ghost predicate AfterOpcode(es: Option<seq<Entry>>, rest: Option<seq<Entry>>, w: Word)
  {
    && es.Some? == rest.Some?
    && (es.Some? ==> |es.value| >= 4 && TakeWord(es.value, es.value[0].sender) == Some(w) && es.value[4..] == rest.value)
  }

  ghost predicate NoOpcode(es: Option<seq<Entry>>)
  {
    es.None? || (es.value != [] && TakeWord(es.value, es.value[0].sender).None?)
  }

  /** `op_check` and the `switch`: the opcodes without payload. */
  function Empty(w: Word): (m: Option<Msg>)
    ensures m.Some? ==> Proofs.Opcode(m.value) == w && Proofs.Payload(m.value) == []
  {
    if w == GET_PROG_INFO then Some(GetProgInfo)
    else if w == BOOT_ERROR then Some(BootError)
    else if w == BAD_CODE_ADDR then Some(BadCodeAddr)
    else if w == BAD_CODE_CKSUM then Some(BadCodeCksum)
    else None
  }

  // ---------------------------------------------------------------- the writer

  /** The log file as the interposer grows it. */
  class LogFile {
    var text: seq<Byte>

    constructor ()
      ensures Entries(text, 0) == Some([])
    {
      text := [];
    }

    /** `wr_log_byte`: whatever could be read back before can still be, and after it the new entry unless its sender is 0. */
    method WriteByte(e: Entry)
      requires Entries(text, 0).Some?
      modifies this
      ensures Entries(text, 0) == Some(old(Entries(text, 0)).value + if e.sender == 0 then [] else [e])
      ensures text == old(text) + Proofs.Written(e)
    {
      hide Entries;
      var buf := PrintEntry(e) + [NEWLINE];
      var n := |buf|;
      if e.sender == 0 {
        n := 0;
      }
      assert buf[..n] == Proofs.Written(e);
      Proofs.AppendWritten(text, e);
      text := text + buf[..n];
    }
  }

  // ---------------------------------------------------------------- the reader

  class Log {
    const log: seq<Byte>
    var off: nat
    var lineno: nat

    ghost predicate Valid()
      reads this
    {
      off <= |log|
    }

    ghost function Remaining(): Option<seq<Entry>>
      reads this
    {
      Entries(log, off)
    }

    constructor (text: seq<Byte>)
      ensures log == text && off == 0 && lineno == 1 && Valid()
    {
      log, off, lineno := text, 0, 1;
    }

    method Getc() returns (ok: bool, c: Byte)
      requires Valid()
      modifies this`off
      ensures Valid() && ok == (old(off) < |log|)
      ensures ok ==> off == old(off) + 1 && c == log[old(off)]
    {
      if off < |log| {
        c := log[off];
        off := off + 1;
        return true, c;
      }
      return false, 0;
    }

    method ExpTok(exp: Byte) returns (ok: bool)
      requires Valid()
      modifies this`off
      ensures Valid() && ok == (old(off) < |log| && log[old(off)] == exp)
      ensures ok ==> off == old(off) + 1
    {
      var c;
      ok, c := Getc();
      ok := ok && c == exp;
    }

    /** `0x` and two hexadecimal digits. */
    method GetHex() returns (ok: bool, v: Byte)
      requires Valid()
      modifies this`off
      ensures Valid()
      ensures var i := old(off);
              && ok == (i + 4 <= |log| && log[i] == CHAR_0 && log[i + 1] == CHAR_X &&
                        HexValue(log[i + 2]) >= 0 && HexValue(log[i + 3]) >= 0)
              && (ok ==> off == i + 4 && v == HexValue(log[i + 2]) * 16 + HexValue(log[i + 3]))
    {
      v := 0;
      ok := ExpTok(CHAR_0);
      if !ok { return; }
      ok := ExpTok(CHAR_X);
      if !ok { return; }
      var d1, d0;
      ok, d1 := Getc();
      if !ok { return; }
      ok, d0 := Getc();
      if !ok || HexValue(d1) < 0 || HexValue(d0) < 0 { return false, 0; }
      v := HexValue(d1) * 16 + HexValue(d0);
    }

    /** The rest of a line: blanks, or anything after a `#`. */
    method EatLine() returns (ok: bool)
      requires Valid()
      modifies this`off, this`lineno
      ensures Valid() && ok == (AfterLine(log, old(off), false) >= 0)
      ensures ok ==> off == AfterLine(log, old(off), false) && lineno == old(lineno) + 1
    {
      var inComment := false;
      var c;
      ok, c := Getc();
      while ok && c != NEWLINE
        invariant off <= |log| && lineno == old(lineno)
        invariant ok ==> off > old(off) && c == log[off - 1] && AfterLine(log, off - 1, inComment) == AfterLine(log, old(off), false)
        invariant !ok ==> AfterLine(log, old(off), false) < 0
        decreases ok, |log| - off
      {
        if c == HASH {
          inComment := true;
        }
        if !inComment && !IsSpaceChar(c) {
          return false;
        }
        ok, c := Getc();
      }
      if ok {
        lineno := lineno + 1;
      }
    }

    /** One log line. */
    method ReadEnt() returns (r: Read)
      requires Valid()
      modifies this`off, this`lineno
      ensures Valid() && r == ReadEntry(log, old(off))
      ensures r.Got? ==> off == r.next && lineno == old(lineno) + 1
      ensures r.End? ==> off == old(off)
    {
      if off == |log| { return End; }
      hide AfterLine;
      var ok, op := Getc();
      ok := ExpTok(COMMA);
      if !ok { return Dies; }
      var v;
      ok, v := GetHex();
      if !ok { return Dies; }
      ok := EatLine();
      if !ok { return Dies; }
      return Got(Entry(op, v), off);
    }

    /** One entry that must come from `op`. */
    method ReadEntOp(op: Byte) returns (ok: bool, v: Byte)
      requires Valid()
      modifies this`off, this`lineno
      ensures Valid() && (ok ==> off > old(off))
      ensures ok ==> Gave(old(Remaining()), op, [v], Remaining())
      ensures !ok ==> Refused(old(Remaining()), op, 1)
    {
      hide ReadEntry;
      ghost var start := off;
      var r := ReadEnt();
      if !r.Got? {
        RefusedAtEnd(log, start, op, 1);
        return false, 0;
      }
      if r.e.sender != op {
        RefusedSender(log, start, op, 1);
        return false, 0;
      }
      GaveOne(log, start);
      return true, r.e.v;
    }

    /** `log_ent32_exp`: four entries from `op`, least significant first. */
    method ReadWord(op: Byte) returns (ok: bool, w: Word)
      requires Valid()
      modifies this`off, this`lineno
      ensures Valid() && (ok ==> off > old(off))
      ensures ok ==> Gave(old(Remaining()), op, LittleEndian(w), Remaining())
      ensures !ok ==> Refused(old(Remaining()), op, 4)
    {
      hide Gave;
      hide Refused;
      hide Entries;
      w := 0;
      var bs: seq<Byte> := [];
      ghost var first := Remaining();
      GaveNothing(first, op);
      while |bs| < 4
        invariant Valid() && |bs| <= 4 && off >= old(off) && (bs != [] ==> off > old(off))
        invariant Gave(first, op, bs, Remaining())
      {
        ghost var before := Remaining();
        var v;
        ok, v := ReadEntOp(op);
        if !ok {
          RefusedLater(first, before, op, bs, 1);
          RefusedMore(first, op, |bs| + 1, 4);
          return;
        }
        GaveMore(first, before, Remaining(), op, bs, [v]);
        bs := bs + [v];
      }
      FromLittleEndianRoundTrip(bs);
      return true, FromLittleEndian(bs);
    }

    /** A look at the next word from `op`: the cursor does not move. */
    method PeekWord(op: Byte) returns (ok: bool, w: Word)
      requires Valid()
      modifies this`off, this`lineno
      ensures Valid() && (ok ==> off == old(off) && lineno == old(lineno))
      ensures var es := old(Remaining());
              && (ok ==> es.None? || TakeWord(es.value, op) == Some(w))
              && (!ok ==> Refused(es, op, 4))
    {
      hide LittleEndian;
      hide Entries;
      hide Sent;
      hide Take;
      var ckptOff, ckptLineno := off, lineno;
      ghost var es := Remaining();
      ok, w := ReadWord(op);
      if ok && es.Some? {
        GaveWord(es, Remaining(), op, w);
      }
      if ok {
        off, lineno := ckptOff, ckptLineno;
      }
    }

    /** `log_readN`. */
    method ReadN(op: Byte, n: nat) returns (ok: bool, bs: seq<Byte>)
      requires Valid()
      modifies this`off, this`lineno
      ensures Valid() && (ok ==> off >= old(off))
      ensures ok ==> |bs| == n && Gave(old(Remaining()), op, bs, Remaining())
      ensures !ok ==> Refused(old(Remaining()), op, n)
    {
      hide Gave;
      hide Refused;
      hide Entries;
      bs := [];
      ghost var first := Remaining();
      GaveNothing(first, op);
      for i := 0 to n
        invariant Valid() && |bs| == i && off >= old(off)
        invariant Gave(first, op, bs, Remaining())
      {
        ghost var before := Remaining();
        var v;
        ok, v := ReadEntOp(op);
        if !ok {
          RefusedLater(first, before, op, bs, 1);
          RefusedMore(first, op, |bs| + 1, n);
          return;
        }
        GaveMore(first, before, Remaining(), op, bs, [v]);
        bs := bs + [v];
      }
      ok := true;
    }

    /** The counting pass of `log_readall`. */
    method CountRest(op: Byte) returns (ok: bool, n: nat)
      requires Valid()
      modifies this`off, this`lineno
      ensures Valid()
      ensures var es := old(Remaining());
              && (ok ==> es.Some? && |es.value| == n && From(es.value, op))
              && (!ok ==> es.None? || !From(es.value, op))
    {
      hide Gave;
      hide ReadEntry;
      ghost var first, start := Remaining(), off;
      ghost var bs: seq<Byte> := [];
      GaveNothing(first, op);
      n := 0;
      while true
        invariant Valid() && |bs| == n
        invariant Gave(first, op, bs, Remaining())
        decreases |log| - off
      {
        ghost var before, at := Remaining(), off;
        var r := ReadEnt();
        if r.End? {
          GaveAll(first, op, bs);
          return true, n;
        }
        if r.Dies? {
          OtherSenderLater(first, before, op, bs);
          return false, n;
        }
        if r.e.sender != op {
          RefusedSender(log, at, op, 1);
          OtherSenderLater(first, before, op, bs);
          return false, n;
        }
        GaveOne(log, at);
        GaveMore(first, before, Remaining(), op, bs, [r.e.v]);
        bs := bs + [r.e.v];
        n := n + 1;
      }
    }

    /** `log_readall`: everything that is left, in two passes. */
    method ReadAll(op: Byte) returns (ok: bool, bs: seq<Byte>)
      requires Valid()
      modifies this`off, this`lineno
      ensures Valid() && (ok ==> off >= old(off))
      ensures ok ==> old(Remaining()) == Some(Sent(op, bs)) && Remaining() == Some([])
      ensures !ok ==> old(Remaining()).None? || !From(old(Remaining()).value, op)
    {
      hide Entries;
      var ckptOff, ckptLineno := off, lineno;
      ghost var es := Remaining();
      var n;
      ok, n := CountRest(op);
      if !ok { return false, []; }
      off, lineno := ckptOff, ckptLineno;
      assert es.value[..n] == es.value;
      ok, bs := ReadN(op, n);
      GaveTakes(es, Remaining(), op, bs);
      assert Remaining().value == [];
    }

    // -------------------------------------------------------------- messages

    /** `log_read32`: a word from whoever sent the next entry. */
    method FetchOpcode() returns (r: Fetched)
      requires Valid()
      modifies this`off, this`lineno
      ensures Valid()
      ensures r.NoWord? ==> old(Remaining()) == Some([])
      ensures r.NoWordDied? ==> NoOpcode(old(Remaining()))
      ensures r.Fetched? ==> off > old(off) && AfterOpcode(old(Remaining()), Remaining(), r.w)
    {
      hide LittleEndian;
      hide Sent;
      hide Take;
      if off == |log| { return NoWord; }
      var op := log[off];
      ghost var es := Remaining();
      FirstSender(log, off);
      hide Entries;
      var ok, w := ReadWord(op);
      if !ok { return NoWordDied; }
      if es.Some? {
        GaveWord(es, Remaining(), op, w);
      }
      return Fetched(op, w);
    }

    method ParseGetCode(ghost es: Option<seq<Entry>>, n: Word) returns (t: Turn)
      requires Valid() && AfterOpcode(es, Remaining(), GET_CODE)
      modifies this`off, this`lineno
      ensures Valid() && (t.Message? ==> off >= old(off)) && !t.Done?
      ensures TurnIs(t, es, Remaining(), n)
    {
      hide LittleEndian;
      hide Sent;
      hide Take;
      hide Entries;
      ghost var rest := Remaining();
      var ok, crc := ReadWord(PI);
      if !ok { return Died; }
      if es.Some? {
        GaveWord(rest, Remaining(), PI, crc);
        assert es.value[8..] == es.value[4..][4..];
      }
      return Message(GetCode(crc), n);
    }

    method ParseBootSuccess(ghost es: Option<seq<Entry>>, n: Word) returns (t: Turn)
      requires Valid() && AfterOpcode(es, Remaining(), BOOT_SUCCESS)
      modifies this`off, this`lineno
      ensures Valid() && (t.Message? ==> off >= old(off)) && !t.Done?
      ensures TurnIs(t, es, Remaining(), n)
    {
      hide LittleEndian;
      hide Entries;
      hide TakeWord;
      var ok, out := ReadAll(PI);
      if !ok { return Died; }
      return Message(BootSuccess(out), n);
    }

    method ParsePutCode(ghost es: Option<seq<Entry>>, n: Word) returns (t: Turn)
      requires Valid() && AfterOpcode(es, Remaining(), PUT_CODE)
      modifies this`off, this`lineno
      ensures Valid() && (t.Message? ==> off >= old(off)) && !t.Done?
      ensures TurnIs(t, es, Remaining(), n)
    {
      hide LittleEndian;
      hide Entries;
      hide TakeWord;
      hide Sent;
      if n == 0 { return Died; }
      ghost var rest := Remaining();
      var ok, code := ReadN(UNIX, n);
      if !ok { return Died; }
      if es.Some? {
        GaveTakes(rest, Remaining(), UNIX, code);
        assert es.value[4 + n..] == es.value[4..][n..];
      }
      return Message(PutCode(code), n);
    }

    method ParsePutProgInfo(ghost es: Option<seq<Entry>>, n: Word) returns (t: Turn)
      requires Valid() && AfterOpcode(es, Remaining(), PUT_PROG_INFO)
      modifies this`off, this`lineno
      ensures Valid() && (t.Message? ==> off >= old(off)) && !t.Done?
      ensures TurnIs(t, es, Remaining(), n)
    {
      hide LittleEndian;
      hide Entries;
      hide Sent;
      hide Take;
      hide Gave;
      hide Refused;
      hide TakeWord;
      ghost var a := Remaining();
      var ok, base := ReadWord(UNIX);
      if !ok { RefusedWord(a, UNIX); return Died; }
      ghost var b := Remaining();
      GaveSome(a, b, UNIX, base);
      if a.Some? { GaveWord(a, b, UNIX, base); assert es.value[8..] == b.value; }
      var size;
      ok, size := ReadWord(UNIX);
      if !ok { RefusedWord(b, UNIX); return Died; }
      ghost var c := Remaining();
      GaveSome(b, c, UNIX, size);
      if a.Some? { GaveWord(b, c, UNIX, size); assert es.value[12..] == c.value; }
      var crc;
      ok, crc := ReadWord(UNIX);
      if !ok { RefusedWord(c, UNIX); return Died; }
      GaveSome(c, Remaining(), UNIX, crc);
      if a.Some? { GaveWord(c, Remaining(), UNIX, crc); assert es.value[16..] == Remaining().value; }
      if n != 0 && n != size { return Died; }
      return Message(PutProgInfo(base, size, crc), size);
    }

    /** One turn of the message loop. */
    method ParseMessage(n: Word) returns (t: Turn)
      requires Valid()
      modifies this`off, this`lineno
      ensures Valid() && (t.Message? ==> off > old(off))
      ensures TurnIs(t, old(Remaining()), Remaining(), n)
    {
      hide Entries;
      hide TakeWord;
      ghost var es := Remaining();
      var r := FetchOpcode();
      if r.NoWord? { return Done; }
      if r.NoWordDied? { return Died; }
      var m := Empty(r.w);
      if m.Some? { return Message(m.value, n); }
      hide ParseOne;
      if r.w == GET_CODE { t := ParseGetCode(es, n); }
      else if r.w == BOOT_SUCCESS { t := ParseBootSuccess(es, n); }
      else if r.w == PUT_PROG_INFO { t := ParsePutProgInfo(es, n); }
      else if r.w == PUT_CODE { t := ParsePutCode(es, n); }
      else {
        UnknownOpcode(es, Remaining(), r.w, n);
        t := Died;
      }
    }

    /** The loop that drops what a previous connection left behind. */
    method SkipGarbage() returns (ok: bool)
      requires Valid()
      modifies this`off, this`lineno
      ensures Valid()
      ensures var es := old(Remaining());
              && (ok ==> es.Some? == Remaining().Some?)
              && (ok && es.Some? ==> Skip(es.value) == Remaining())
              && (!ok ==> es.None? || Skip(es.value) == None)
    {
      hide Entries;
      hide Gave;
      hide TakeWord;
      ghost var es := Remaining();
      while true
        invariant Valid()
        invariant es.Some? == Remaining().Some?
        invariant es.Some? ==> Skip(es.value) == Skip(Remaining().value)
        decreases |log| - off
      {
        ghost var before := Remaining();
        var w;
        ok, w := PeekWord(PI);
        if !ok {
          RefusedWord(before, PI);
          return;
        }
        if w == GET_PROG_INFO { return; }
        var x;
        ok, x := DropOne(before);
        if !ok { return; }
      }
    }

    /** The entry read after a peek that succeeded. */
    method DropOne(ghost es: Option<seq<Entry>>) returns (ok: bool, v: Byte)
      requires Valid() && es == Remaining() && (es.Some? ==> TakeWord(es.value, PI).Some?)
      modifies this`off, this`lineno
      ensures Valid() && (ok ==> off > old(off))
      ensures ok ==> es.Some? == Remaining().Some? && (es.Some? ==> es.value[1..] == Remaining().value)
      ensures !ok ==> es.None?
    {
      hide Entries;
      ok, v := ReadEntOp(PI);
      if ok && es.Some? {
        GaveTakes(es, Remaining(), PI, [v]);
      }
      if !ok && es.Some? {
        FirstOfFour(es.value, PI);
      }
    }

    /** The whole parser; no message at all if the program stops on the way. */
    method ParseTrace() returns (ms: Option<seq<Msg>>)
      requires Valid()
      modifies this`off, this`lineno
      ensures ms == TraceSpec.ParseTrace(old(Remaining()))
    {
      hide Entries;
      hide Skip;
      hide ParseAll;
      hide TurnIs;
      var ok := SkipGarbage();
      if !ok { return None; }
      var m: seq<Msg> := [];
      var nbytes: Word := 0;
      ghost var all := Finish(m, Remaining(), nbytes);
      FinishNothing(Remaining());
      while true
        invariant Valid()
        invariant Finish(m, Remaining(), nbytes) == all
        decreases |log| - off
      {
        ghost var before := Remaining();
        var t := ParseMessage(nbytes);
        TurnFinishes(t, m, before, Remaining(), nbytes);
        hide Finish;
        if t.Done? { return Some(m); }
        if t.Died? { return None; }
        m, nbytes := m + [t.msg], t.nbytes;
      }
    }
  }

  lemma FinishNothing(es: Option<seq<Entry>>)
    ensures Finish([], es, 0) == if es.None? then None else ParseAll(es.value, 0)
  {
    hide ParseAll;
    if es.Some? && ParseAll(es.value, 0).Some? {
      assert [] + ParseAll(es.value, 0).value == ParseAll(es.value, 0).value;
    }
  }

  lemma GaveSome(a: Option<seq<Entry>>, b: Option<seq<Entry>>, s: Byte, w: Word)
    requires Gave(a, s, LittleEndian(w), b)
    ensures a.Some? == b.Some?
  {
  }

  lemma RefusedMore(a: Option<seq<Entry>>, s: Byte, m: nat, n: nat)
    requires Refused(a, s, m) && m <= n
    ensures Refused(a, s, n)
  {
    if a.Some? && n <= |a.value| {
      assert forall e <- a.value[..m] :: e in a.value[..n];
    }
  }

  lemma RefusedWord(a: Option<seq<Entry>>, s: Byte)
    requires Refused(a, s, 4)
    ensures a.Some? ==> TakeWord(a.value, s).None?
  {
  }

  lemma FirstOfFour(es: seq<Entry>, s: Byte)
    requires TakeWord(es, s).Some?
    ensures !Refused(Some(es), s, 1)
  {
    assert forall e <- es[..1] :: e in es[..4];
  }

  lemma GaveAll(a: Option<seq<Entry>>, s: Byte, bs: seq<Byte>)
    requires Gave(a, s, bs, Some([]))
    ensures a.Some? && |a.value| == |bs| && From(a.value, s)
  {
    assert a.value == Sent(s, bs);
  }

  lemma FirstSender(t: seq<Byte>, i: nat)
    requires i < |t|
    ensures var es := Entries(t, i); es.Some? ==> es.value != [] && es.value[0].sender == t[i]
  {
  }

  lemma UnknownOpcode(es: Option<seq<Entry>>, rest: Option<seq<Entry>>, w: Word, n: Word)
    requires AfterOpcode(es, rest, w) && Empty(w).None?
    requires w != GET_CODE && w != BOOT_SUCCESS && w != PUT_PROG_INFO && w != PUT_CODE
    ensures TurnIs(Died, es, rest, n)
  {
    hide TakeWord;
  }
}
