/** Reading back what was written: lines, words and whole boot runs. */
module TraceProofs {
  import opened Words
  import opened TraceSpec

  // ---------------------------------------------------------------- lines

  /** An entry as it may stand in a log: printed, with a tail of blanks and comment. */
  datatype Line = Line(e: Entry, tail: seq<Byte>)

  function LineText(l: Line): seq<Byte>
  {
    PrintEntry(l.e) + l.tail + [NEWLINE]
  }

  function LogText(ls: seq<Line>): seq<Byte>
  {
    if ls == [] then [] else LineText(ls[0]) + LogText(ls[1..])
  }

  function EntriesOf(ls: seq<Line>): (es: seq<Entry>)
    ensures |es| == |ls|
  {
    if ls == [] then [] else [ls[0].e] + EntriesOf(ls[1..])
  }

  ghost predicate Readable(ls: seq<Line>)
  {
    forall l <- ls :: IsTail(l.tail, false)
  }

  lemma HexRoundTrip(v: Byte)
    ensures HexValue(DigitChar(v / 16)) * 16 + HexValue(DigitChar(v % 16)) == v
    ensures HexValue(DigitChar(v / 16)) >= 0 && HexValue(DigitChar(v % 16)) >= 0
  {
  }

  lemma {:induction false} TailIsEaten(t: seq<Byte>, i: nat, tail: seq<Byte>, comment: bool)
    requires i + |tail| < |t| && t[i..i + |tail|] == tail && t[i + |tail|] == NEWLINE && IsTail(tail, comment)
    ensures AfterLine(t, i, comment) == i + |tail| + 1
    decreases |tail|
  {
    if tail != [] {
      assert t[i] == tail[0];
      assert t[i + 1..i + 1 + |tail[1..]|] == tail[1..];
      TailIsEaten(t, i + 1, tail[1..], comment || tail[0] == HASH);
    }
  }

  lemma LineIsRead(pre: seq<Byte>, l: Line, post: seq<Byte>)
    requires IsTail(l.tail, false)
    ensures ReadEntry(pre + LineText(l) + post, |pre|) == Got(l.e, |pre + LineText(l)|)
  {
    var t, i := pre + LineText(l) + post, |pre|;
    assert t[i..i + 6] == PrintEntry(l.e);
    assert t[i] == t[i..i + 6][0] && t[i + 1] == t[i..i + 6][1] && t[i + 2] == t[i..i + 6][2];
    assert t[i + 3] == t[i..i + 6][3] && t[i + 4] == t[i..i + 6][4] && t[i + 5] == t[i..i + 6][5];
    assert t[i + 6..i + 6 + |l.tail|] == l.tail && t[i + 6 + |l.tail|] == NEWLINE;
    TailIsEaten(t, i + 6, l.tail, false);
    HexRoundTrip(l.e.v);
  }

  lemma {:induction false} LogIsRead(pre: seq<Byte>, ls: seq<Line>)
    requires Readable(ls)
    ensures Entries(pre + LogText(ls), |pre|) == Some(EntriesOf(ls))
    decreases |ls|
  {
    var t := pre + LogText(ls);
    if ls != [] {
      var line, post := LineText(ls[0]), LogText(ls[1..]);
      assert t == pre + line + post;
      LineIsRead(pre, ls[0], post);
      LogIsRead(pre + line, ls[1..]);
    }
  }

  /** Any list of entries, printed with any blanks or comments after them, reads back as the same list. */
  lemma {:induction false} LogRoundTrip(ls: seq<Line>)
    requires Readable(ls)
    ensures Entries(LogText(ls), 0) == Some(EntriesOf(ls))
  {
    LogIsRead([], ls);
    assert [] + LogText(ls) == LogText(ls);
  }

  lemma {:induction false} LineStable(t: seq<Byte>, i: nat, comment: bool, more: seq<Byte>)
    requires AfterLine(t, i, comment) >= 0
    ensures AfterLine(t + more, i, comment) == AfterLine(t, i, comment)
    decreases |t| - i
  {
    if t[i] != NEWLINE {
      LineStable(t, i + 1, comment || t[i] == HASH, more);
    }
  }

  /** A line appended to a readable log adds its entry and leaves the others alone. */
  lemma {:induction false} AppendLine(t: seq<Byte>, i: nat, l: Line)
    requires i <= |t| && IsTail(l.tail, false) && Entries(t, i).Some?
    ensures Entries(t + LineText(l), i) == Some(Entries(t, i).value + [l.e])
    decreases |t| - i
  {
    hide LineText;
    hide IsTail;
    var t1 := t + LineText(l);
    if i == |t| {
      assert t1 == t + LineText(l) + [];
      LineIsRead(t, l, []);
      assert Entries(t1, |t1|) == Some([]);
      assert Entries(t, i) == Some([]);
      assert [] + [l.e] == [l.e] + [];
    } else {
      var r := ReadEntry(t, i);
      LineStable(t, i + 6, false, LineText(l));
      hide AfterLine;
      assert ReadEntry(t1, i) == r;
      AppendLine(t, r.next, l);
      var later := Entries(t, r.next).value;
      assert [r.e] + (later + [l.e]) == [r.e] + later + [l.e];
    }
  }

  /** What `wr_log_byte` writes: a line, cut at its first NUL, which only a sender of 0 puts there. */
  function Written(e: Entry): seq<Byte>
  {
    if e.sender == 0 then [] else LineText(Line(e, []))
  }

  function WrittenAll(es: seq<Entry>): seq<Byte>
  {
    if es == [] then [] else WrittenAll(es[..|es| - 1]) + Written(es[|es| - 1])
  }

  /** The entries that leave a trace. */
  function Kept(es: seq<Entry>): (ks: seq<Entry>)
    ensures |ks| <= |es| && (|ks| == |es| <==> forall k :: 0 <= k < |es| ==> es[k].sender != 0)
    ensures |ks| == |es| ==> ks == es
  {
    if es == [] then []
    else
      var front, e := es[..|es| - 1], es[|es| - 1];
      assert es == front + [e];
      Kept(front) + if e.sender == 0 then [] else [e]
  }

  lemma AppendWritten(t: seq<Byte>, e: Entry)
    requires Entries(t, 0).Some?
    ensures Entries(t + Written(e), 0) == Some(Entries(t, 0).value + if e.sender == 0 then [] else [e])
  {
    hide Entries;
    if e.sender == 0 {
      assert t + [] == t && Entries(t, 0).value + [] == Entries(t, 0).value;
    } else {
      AppendLine(t, 0, Line(e, []));
    }
  }

  lemma {:induction false} WrittenIsKept(es: seq<Entry>)
    ensures Entries(WrittenAll(es), 0) == Some(Kept(es))
    decreases |es|
  {
    if es != [] {
      hide Entries;
      WrittenIsKept(es[..|es| - 1]);
      AppendWritten(WrittenAll(es[..|es| - 1]), es[|es| - 1]);
    }
  }

  /** A log written entry by entry reads back as what was written exactly when no sender is 0. */
  lemma {:induction false} WrittenReadsBackIff(es: seq<Entry>)
    ensures Entries(WrittenAll(es), 0) == Some(es) <==> forall k :: 0 <= k < |es| ==> es[k].sender != 0
  {
    WrittenIsKept(es);
  }

  // ---------------------------------------------------------------- words

  lemma TakeSent(sender: Byte, bs: seq<Byte>, rest: seq<Entry>)
    ensures Take(Sent(sender, bs) + rest, sender, |bs|) == Some(bs)
  {
    assert (Sent(sender, bs) + rest)[..|bs|] == Sent(sender, bs);
  }

  lemma TakeSentWord(sender: Byte, w: Word, rest: seq<Entry>)
    ensures TakeWord(Sent(sender, LittleEndian(w)) + rest, sender) == Some(w)
  {
    TakeSent(sender, LittleEndian(w), rest);
    LittleEndianRoundTrip(w);
  }

  // ---------------------------------------------------------------- messages

  function Opcode(m: Msg): Word
  {
    match m
    case GetProgInfo => GET_PROG_INFO
    case BootError => BOOT_ERROR
    case BadCodeAddr => BAD_CODE_ADDR
    case BadCodeCksum => BAD_CODE_CKSUM
    case GetCode(_) => GET_CODE
    case BootSuccess(_) => BOOT_SUCCESS
    case PutProgInfo(_, _, _) => PUT_PROG_INFO
    case PutCode(_) => PUT_CODE
  }

  function Sender(m: Msg): Byte
  {
    if m.PutProgInfo? || m.PutCode? then UNIX else PI
  }

  /** The bytes of a message after its opcode. */
  function Payload(m: Msg): seq<Byte>
  {
    match m
    case GetCode(crc) => LittleEndian(crc)
    case BootSuccess(out) => out
    case PutProgInfo(base, size, crc) => LittleEndian(base) + LittleEndian(size) + LittleEndian(crc)
    case PutCode(code) => code
    case _ => []
  }

  function Serialise(m: Msg): seq<Entry>
  {
    Sent(Sender(m), LittleEndian(Opcode(m))) + Sent(Sender(m), Payload(m))
  }

  function SerialiseAll(ms: seq<Msg>): seq<Entry>
  {
    if ms == [] then [] else Serialise(ms[0]) + SerialiseAll(ms[1..])
  }

  /** The program size known after a message. */
  function SizeAfter(m: Msg, n: Word): Word
  {
    if m.PutProgInfo? then m.nbytes else n
  }

  /** A message that may appear when program size `n` is known (0: not yet announced). */
  predicate Fits(m: Msg, n: Word)
  {
    match m
    case PutProgInfo(_, size, _) => n == 0 || size == n
    case PutCode(code) => n != 0 && |code| == n
    case _ => true
  }

  /** A boot run: sizes agree and a success, if any, comes last. */
  predicate WellFormed(ms: seq<Msg>, n: Word)
  {
    ms == [] || (Fits(ms[0], n) && (ms[0].BootSuccess? ==> |ms| == 1) && WellFormed(ms[1..], SizeAfter(ms[0], n)))
  }

  lemma WordsInPayload(base: Word, size: Word, crc: Word, rest: seq<Entry>)
    ensures var es := Sent(UNIX, LittleEndian(base) + LittleEndian(size) + LittleEndian(crc)) + rest;
            && TakeWord(es, UNIX) == Some(base) && TakeWord(es[4..], UNIX) == Some(size)
            && TakeWord(es[8..], UNIX) == Some(crc)
  {
    var a, b, c := Sent(UNIX, LittleEndian(base)), Sent(UNIX, LittleEndian(size)), Sent(UNIX, LittleEndian(crc));
    var es := Sent(UNIX, LittleEndian(base) + LittleEndian(size) + LittleEndian(crc)) + rest;
    assert es == a + (b + (c + rest));
    assert es[4..] == b + (c + rest);
    assert es[8..] == c + rest;
    TakeSentWord(UNIX, base, b + (c + rest));
    TakeSentWord(UNIX, size, c + rest);
    TakeSentWord(UNIX, crc, rest);
  }

  lemma SerialiseShape(m: Msg, rest: seq<Entry>)
    ensures var es := Serialise(m) + rest;
            && |es| >= 4 && es[0].sender == Sender(m) && TakeWord(es, Sender(m)) == Some(Opcode(m))
            && es[4..] == Sent(Sender(m), Payload(m)) + rest
            && |Serialise(m)| == 4 + |Payload(m)|
  {
    var head, tail := Sent(Sender(m), LittleEndian(Opcode(m))), Sent(Sender(m), Payload(m));
    var es := Serialise(m) + rest;
    assert es == head + (tail + rest);
    TakeSentWord(Sender(m), Opcode(m), tail + rest);
    assert es[0] == head[0] && head[0] in head;
  }

  lemma {:induction false} OneMessageParses(m: Msg, n: Word, rest: seq<Entry>)
    requires Fits(m, n) && (m.BootSuccess? ==> rest == [])
    ensures ParseOne(Serialise(m) + rest, n) == Parsed(m, |Serialise(m)|, SizeAfter(m, n))
  {
    hide Take;
    hide TakeWord;
    hide Serialise;
    hide LittleEndian;
    var es := Serialise(m) + rest;
    SerialiseShape(m, rest);
    match m
    case GetCode(crc) => TakeSentWord(PI, crc, rest);
    case BootSuccess(out) =>
      assert es[4..] == Sent(PI, out);
    case PutProgInfo(base, size, crc) =>
      WordsInPayload(base, size, crc, rest);
      assert es[4..][4..] == es[8..] && es[4..][8..] == es[12..];
    case PutCode(code) => TakeSent(UNIX, code, rest);
    case _ =>
  }

  lemma ParseContinues(m: Msg, front: seq<Entry>, n: Word, rest: seq<Entry>, n1: Word)
    requires front != [] && ParseOne(front + rest, n) == Parsed(m, |front|, n1) && ParseAll(rest, n1).Some?
    ensures ParseAll(front + rest, n) == Some([m] + ParseAll(rest, n1).value)
  {
    hide ParseOne;
    assert (front + rest)[|front|..] == rest;
  }

  lemma {:induction false} RunParses(ms: seq<Msg>, n: Word)
    requires WellFormed(ms, n)
    ensures ParseAll(SerialiseAll(ms), n) == Some(ms)
    decreases |ms|
  {
    hide ParseOne;
    hide Serialise;
    hide Fits;
    hide SizeAfter;
    if ms != [] {
      var rest := SerialiseAll(ms[1..]);
      OneMessageParses(ms[0], n, rest);
      RunParses(ms[1..], SizeAfter(ms[0], n));
      ParseContinues(ms[0], Serialise(ms[0]), n, rest, SizeAfter(ms[0], n));
      assert [ms[0]] + ms[1..] == ms;
    }
  }

  /** Whatever the parser accepts is a well-formed run. */
  lemma {:induction false} ParsedIsWellFormed(es: seq<Entry>, n: Word)
    requires ParseAll(es, n).Some?
    ensures WellFormed(ParseAll(es, n).value, n)
    decreases |es|
  {
    if es != [] {
      var s := ParseOne(es, n);
      ParsedIsWellFormed(es[s.used..], s.nbytes);
      var ms := ParseAll(es[s.used..], s.nbytes).value;
      assert ([s.msg] + ms)[1..] == ms;
    }
  }

  lemma ValuesConcat(a: seq<Entry>, b: seq<Entry>)
    ensures Values(a + b) == Values(a) + Values(b)
  {
  }

  lemma TakenWord(es: seq<Entry>, sender: Byte)
    requires TakeWord(es, sender).Some?
    ensures |es| >= 4 && Values(es[..4]) == LittleEndian(TakeWord(es, sender).value)
  {
    FromLittleEndianRoundTrip(Values(es[..4]));
  }

  lemma ProgInfoBytes(es: seq<Entry>, n: Word)
    requires |es| >= 4 && ParseProgInfo(es, n).Parsed?
    ensures |es| >= 16 && ParseProgInfo(es, n).used == 16
    ensures Values(es[4..16]) == Payload(ParseProgInfo(es, n).msg)
  {
    hide TakeWord;
    hide LittleEndian;
    TakenWord(es[4..], UNIX);
    TakenWord(es[8..], UNIX);
    TakenWord(es[12..], UNIX);
    assert es[4..16] == es[4..][..4] + es[8..][..4] + es[12..][..4];
    ValuesConcat(es[4..][..4] + es[8..][..4], es[12..][..4]);
    ValuesConcat(es[4..][..4], es[8..][..4]);
  }

  lemma PayloadBytes(es: seq<Entry>, n: Word)
    requires es != [] && ParseOne(es, n).Parsed?
    ensures var s := ParseOne(es, n);
            && |es| >= 4 && Values(es[..4]) == LittleEndian(Opcode(s.msg))
            && Values(es[4..s.used]) == Payload(s.msg)
  {
    hide TakeWord;
    hide LittleEndian;
    hide ParseProgInfo;
    var s := ParseOne(es, n);
    TakenWord(es, es[0].sender);
    if s.msg.GetCode? {
      TakenWord(es[4..], PI);
      assert es[4..8] == es[4..][..4];
    } else if s.msg.PutProgInfo? {
      ProgInfoBytes(es, n);
    } else if s.msg.PutCode? {
      assert es[4..s.used] == es[4..][..s.used - 4];
    } else if s.msg.BootSuccess? {
      assert es[4..s.used] == es[4..];
    }
  }

  lemma MessageBytes(es: seq<Entry>, n: Word)
    requires es != [] && ParseOne(es, n).Parsed?
    ensures Values(es[..ParseOne(es, n).used]) == Values(Serialise(ParseOne(es, n).msg))
  {
    hide ParseOne;
    hide LittleEndian;
    hide Opcode;
    hide Payload;
    var s := ParseOne(es, n);
    PayloadBytes(es, n);
    assert es[..s.used] == es[..4] + es[4..s.used];
    ValuesConcat(es[..4], es[4..s.used]);
    ValuesConcat(Sent(Sender(s.msg), LittleEndian(Opcode(s.msg))), Sent(Sender(s.msg), Payload(s.msg)));
  }

  /** No byte is lost or invented by parsing: writing the messages out again gives the same bytes. */
  lemma {:induction false} ParsedBytesReappear(es: seq<Entry>, n: Word)
    requires ParseAll(es, n).Some?
    ensures Values(SerialiseAll(ParseAll(es, n).value)) == Values(es)
    decreases |es|
  {
    hide ParseOne;
    hide Serialise;
    if es != [] {
      var s := ParseOne(es, n);
      ParsedBytesReappear(es[s.used..], s.nbytes);
      MessageBytes(es, n);
      var ms := ParseAll(es[s.used..], s.nbytes).value;
      assert ([s.msg] + ms)[1..] == ms;
      ValuesConcat(Serialise(s.msg), SerialiseAll(ms));
      ValuesConcat(es[..s.used], es[s.used..]);
      assert es[..s.used] + es[s.used..] == es;
    }
  }

  // ---------------------------------------------------------------- who sent what

  lemma SentBack(es: seq<Entry>, sender: Byte)
    requires From(es, sender)
    ensures Sent(sender, Values(es)) == es
  {
    forall k | 0 <= k < |es|
      ensures Sent(sender, Values(es))[k] == es[k]
    {
      assert es[k] in es;
    }
  }

  lemma TakenFrom(es: seq<Entry>, sender: Byte, n: nat)
    requires Take(es, sender, n).Some?
    ensures n <= |es| && From(es[..n], sender)
  {
  }

  lemma FromParts(a: seq<Entry>, b: seq<Entry>, sender: Byte)
    requires From(a, sender) && From(b, sender)
    ensures From(a + b, sender)
  {
  }

  lemma ProgInfoFrom(es: seq<Entry>, n: Word)
    requires |es| >= 4 && ParseProgInfo(es, n).Parsed?
    ensures |es| >= 16 && From(es[4..16], UNIX)
  {
    hide From;
    hide Take;
    TakenFrom(es[4..], UNIX, 4);
    TakenFrom(es[8..], UNIX, 4);
    TakenFrom(es[12..], UNIX, 4);
    FromParts(es[4..][..4], es[8..][..4], UNIX);
    FromParts(es[4..][..4] + es[8..][..4], es[12..][..4], UNIX);
    assert es[4..16] == es[4..][..4] + es[8..][..4] + es[12..][..4];
  }

  /** The parser checks who sent a payload. */
  lemma PayloadFrom(es: seq<Entry>, n: Word)
    requires es != [] && ParseOne(es, n).Parsed?
    ensures var s := ParseOne(es, n); |es| >= 4 && From(es[..4], es[0].sender) && From(es[4..s.used], Sender(s.msg))
  {
    hide ParseProgInfo;
    var s := ParseOne(es, n);
    TakenFrom(es, es[0].sender, 4);
    if s.msg.GetCode? {
      assert es[4..8] == es[4..][..4];
    } else if s.msg.PutProgInfo? {
      ProgInfoFrom(es, n);
      ProgInfoBytes(es, n);
    } else if s.msg.PutCode? {
      assert es[4..s.used] == es[4..][..s.used - 4];
    } else if s.msg.BootSuccess? {
      assert es[4..s.used] == es[4..];
    }
  }

  lemma MessageEntriesIff(es: seq<Entry>, n: Word)
    requires es != [] && ParseOne(es, n).Parsed?
    ensures var s := ParseOne(es, n);
            |es[..s.used]| == |Serialise(s.msg)| && (es[..s.used] == Serialise(s.msg) <==> es[0].sender == Sender(s.msg))
  {
    hide ParseOne;
    hide LittleEndian;
    hide Opcode;
    hide Payload;
    hide From;
    var s := ParseOne(es, n);
    PayloadFrom(es, n);
    PayloadBytes(es, n);
    SentBack(es[..4], es[0].sender);
    SentBack(es[4..s.used], Sender(s.msg));
    assert es[..s.used] == es[..4] + es[4..s.used];
    assert es[..s.used][0] == es[0];
    var head := Sent(Sender(s.msg), LittleEndian(Opcode(s.msg)));
    SerialiseShape(s.msg, []);
    assert Serialise(s.msg)[0] == head[0] && head[0] in head;
    FromHas(head, Sender(s.msg), head[0]);
  }

  lemma FromHas(es: seq<Entry>, sender: Byte, e: Entry)
    requires From(es, sender) && e in es
    ensures e.sender == sender
  {
  }

  /** Every message's opcode was sent by the side whose message it is, which the parser does not check. */
  predicate OpcodesFromTheirSide(es: seq<Entry>, n: Word)
    decreases |es|
  {
    es == [] ||
    match ParseOne(es, n)
    case Stop => false
    case Parsed(m, used, n1) => es[0].sender == Sender(m) && OpcodesFromTheirSide(es[used..], n1)
  }

  lemma SameParts(a: seq<Entry>, b: seq<Entry>, c: seq<Entry>, d: seq<Entry>)
    requires |a| == |c|
    ensures a + b == c + d <==> a == c && b == d
  {
    if a + b == c + d {
      assert a == (a + b)[..|a|] && c == (c + d)[..|c|];
      assert b == (a + b)[|a|..] && d == (c + d)[|c|..];
    }
  }

  /** Serialising what was parsed gives back the log, senders included, exactly when every opcode came from its side. */
  lemma {:induction false} EntriesReappearIff(es: seq<Entry>, n: Word)
    requires ParseAll(es, n).Some?
    ensures SerialiseAll(ParseAll(es, n).value) == es <==> OpcodesFromTheirSide(es, n)
    decreases |es|
  {
    hide ParseOne;
    hide Serialise;
    if es != [] {
      var s := ParseOne(es, n);
      var rest := es[s.used..];
      EntriesReappearIff(rest, s.nbytes);
      MessageEntriesIff(es, n);
      var ms := ParseAll(rest, s.nbytes).value;
      assert ([s.msg] + ms)[1..] == ms;
      assert es == es[..s.used] + rest;
      SameParts(Serialise(s.msg), SerialiseAll(ms), es[..s.used], rest);
    }
  }

  /** The Pi's request, sent by Unix, is taken for the Pi's. */
  lemma {:induction false} OpcodeFromWrongSide()
    ensures ParseAll(Sent(UNIX, LittleEndian(GET_PROG_INFO)), 0) == Some([GetProgInfo])
    ensures SerialiseAll([GetProgInfo]) != Sent(UNIX, LittleEndian(GET_PROG_INFO))
  {
    hide LittleEndian;
    hide SerialiseAll;
    var es := Sent(UNIX, LittleEndian(GET_PROG_INFO));
    WrongSideParses(es);
    assert es[4..] == [];
    hide ParseOne;
    ParseContinues(GetProgInfo, es, 0, [], 0);
    assert es + [] == es && [GetProgInfo] + [] == [GetProgInfo];
    EntriesReappearIff(es, 0);
  }

  lemma WrongSideParses(es: seq<Entry>)
    requires es == Sent(UNIX, LittleEndian(GET_PROG_INFO))
    ensures |es| == 4 && es[0].sender == UNIX && ParseOne(es + [], 0) == Parsed(GetProgInfo, 4, 0)
  {
    hide LittleEndian;
    TakeSentWord(UNIX, GET_PROG_INFO, []);
    assert es[0] in es && es + [] == es;
  }

  // ---------------------------------------------------------------- garbage

  /** The bytes of GET_PROG_INFO on the wire. */
  const MARK: seq<Byte> := [0x22, 0x22, 0x11, 0x11]

  lemma MarkIsWord()
    ensures LittleEndian(GET_PROG_INFO) == MARK
  {
  }

  ghost predicate MarkAt(g: seq<Byte>, i: nat)
  {
    i + 4 <= |g| && g[i..i + 4] == MARK
  }

  ghost predicate ContainsMark(g: seq<Byte>)
  {
    exists i :: MarkAt(g, i)
  }

  /** The mark has no border, so it cannot straddle the end of a text that does not contain it. */
  lemma {:induction false} MarkDoesNotStraddle(g: seq<Byte>, post: seq<Byte>, i: nat)
    requires i < |g| && MarkAt(g + MARK + post, i)
    ensures MarkAt(g, i)
  {
    var t := g + MARK + post;
    assert t[i] == t[i..i + 4][0] && t[i + 1] == t[i..i + 4][1] && t[i + 2] == t[i..i + 4][2] && t[i + 3] == t[i..i + 4][3];
    assert t[|g|] == MARK[0] && t[|g| + 1] == MARK[1] && t[|g| + 2] == MARK[2];
    assert i + 4 <= |g|;
    assert t[i..i + 4] == g[i..i + 4];
  }

  lemma WordAt(bs: seq<Byte>, rest: seq<Entry>)
    requires |bs| >= 4
    ensures TakeWord(Sent(PI, bs) + rest, PI).Some?
    ensures TakeWord(Sent(PI, bs) + rest, PI).value == GET_PROG_INFO <==> bs[..4] == MARK
  {
    var es := Sent(PI, bs) + rest;
    assert es[..4] == Sent(PI, bs[..4]);
    MarkIsWord();
    LittleEndianRoundTrip(GET_PROG_INFO);
    FromLittleEndianRoundTrip(bs[..4]);
  }

  /** The skip loop stops at the first mark among the Pi's bytes. */
  lemma {:induction false} SkipStopsAtMark(bs: seq<Byte>, k: nat, rest: seq<Entry>)
    requires MarkAt(bs, k) && forall i :: 0 <= i < k ==> !MarkAt(bs, i)
    ensures Skip(Sent(PI, bs) + rest) == Some(Sent(PI, bs[k..]) + rest)
    decreases k
  {
    var es := Sent(PI, bs) + rest;
    WordAt(bs, rest);
    if k == 0 {
      assert bs[0..4] == bs[..4] && bs[0..] == bs;
    } else {
      assert !MarkAt(bs, 0);
      assert bs[0..4] == bs[..4];
      assert es[1..] == Sent(PI, bs[1..]) + rest;
      assert bs[1..][k - 1..k + 3] == bs[k..k + 4];
      forall i | 0 <= i < k - 1
        ensures !MarkAt(bs[1..], i)
      {
        assert !MarkAt(bs, i + 1);
        assert bs[1..][i..i + 4] == bs[i + 1..i + 5];
      }
      SkipStopsAtMark(bs[1..], k - 1, rest);
      assert bs[1..][k - 1..] == bs[k..];
    }
  }

  lemma FirstMark(bs: seq<Byte>, i: nat) returns (k: nat)
    requires MarkAt(bs, i)
    ensures k <= i && MarkAt(bs, k) && forall j :: 0 <= j < k ==> !MarkAt(bs, j)
  {
    k := 0;
    while !MarkAt(bs, k)
      invariant k <= i && forall j :: 0 <= j < k ==> !MarkAt(bs, j)
      decreases i - k
    {
      k := k + 1;
    }
  }

  /** Garbage before the first request is skipped exactly, if and only if the garbage does not itself contain the mark. */
  lemma {:induction false} GarbageSkippedIff(g: seq<Byte>, post: seq<Byte>, rest: seq<Entry>)
    ensures Skip(Sent(PI, g + MARK + post) + rest) == Some(Sent(PI, MARK + post) + rest) <==> !ContainsMark(g)
  {
    var bs := g + MARK + post;
    assert bs[|g|..|g| + 4] == MARK;
    assert MarkAt(bs, |g|);
    var k := FirstMark(bs, |g|);
    SkipStopsAtMark(bs, k, rest);
    if k < |g| {
      MarkDoesNotStraddle(g, post, k);
      assert |bs[k..]| > |MARK + post|;
      assert |Sent(PI, bs[k..]) + rest| > |Sent(PI, MARK + post) + rest|;
    } else {
      assert bs[k..] == MARK + post;
      if i: nat :| MarkAt(g, i) {
        assert g[i..i + 4] == bs[i..i + 4];
        assert MarkAt(bs, i);
      }
    }
  }

  // ---------------------------------------------------------------- the whole pipeline

  lemma SentConcat(s: Byte, x: seq<Byte>, y: seq<Byte>)
    ensures Sent(s, x + y) == Sent(s, x) + Sent(s, y)
  {
  }

  lemma GarbageBeforeRun(g: seq<Byte>, ms: seq<Msg>)
    requires ms != [] && ms[0] == GetProgInfo && !ContainsMark(g)
    ensures Skip(Sent(PI, g) + SerialiseAll(ms)) == Some(SerialiseAll(ms))
  {
    hide Skip;
    hide ContainsMark;
    var rest := SerialiseAll(ms[1..]);
    MarkIsWord();
    assert Serialise(GetProgInfo) == Sent(PI, MARK);
    assert SerialiseAll(ms) == Sent(PI, MARK) + rest;
    SentConcat(PI, g, MARK);
    assert g + MARK + [] == g + MARK;
    assert Sent(PI, g) + SerialiseAll(ms) == Sent(PI, g + MARK + []) + rest;
    GarbageSkippedIff(g, [], rest);
    assert MARK + [] == MARK;
  }

  /**
   A boot run that starts with the Pi's request, printed line by line behind any garbage without
   the mark, parses back to exactly its messages if and only if it is well formed.
   */
  lemma {:induction false} BootRunRoundTrip(g: seq<Byte>, ms: seq<Msg>, ls: seq<Line>)
    requires ms != [] && ms[0] == GetProgInfo && !ContainsMark(g)
    requires Readable(ls) && EntriesOf(ls) == Sent(PI, g) + SerialiseAll(ms)
    ensures ParseTrace(Entries(LogText(ls), 0)) == Some(ms) <==> WellFormed(ms, 0)
  {
    hide Skip;
    hide Entries;
    hide LogText;
    hide SerialiseAll;
    hide ParseAll;
    hide WellFormed;
    hide ContainsMark;
    hide Sent;
    LogRoundTrip(ls);
    GarbageBeforeRun(g, ms);
    if WellFormed(ms, 0) {
      RunParses(ms, 0);
    } else if ParseAll(SerialiseAll(ms), 0).Some? {
      ParsedIsWellFormed(SerialiseAll(ms), 0);
    }
  }
}
