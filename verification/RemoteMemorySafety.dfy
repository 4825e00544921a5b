/** What every run of the remote-memory protocol keeps, and why every run finishes. */
module RemoteMemorySafety {
  import opened Words
  import opened RemoteMemory

  // ---------------------------------------------------------------- the invariant

  function ScanOf(rx: Rx): Scan
  {
    match rx
    case Quiet => AtOp
    case WaitOp(_) => AtOp
    case WaitChar(_) => InChar
    case WaitWord => InWord([])
    case Mismatch => Lost
    case ShortRead(got) => InWord(got)
  }

  /** The Unix program is inside `get32`: it waits there, or has panicked on a short read. */
  predicate Asking(u: Unix)
  {
    u.rx == WaitOp(PI_GET32_REPLY) || u.rx == WaitChar(PI_GET32_REPLY) || u.rx.WaitWord? || u.rx.ShortRead?
  }

  /** The Unix program has pinged and has not read the Pi's answer. */
  predicate Greeting(u: Unix)
  {
    u.phase != Running || u.rx == WaitOp(PI_READY) || u.rx == WaitChar(PI_READY)
  }

  /** The calls whose effect on the Unix side is complete. */
  function Settled<M>(c: Config<M>, u: Unix): seq<Call>
    requires u.next <= |c.script|
  {
    if Asking(u) && u.next > 0 then c.script[..u.next - 1] else c.script[..u.next]
  }

  /** The frames, besides console output, that the Pi still owes the Unix program. */
  function Owed<M>(c: Config<M>, u: Unix): seq<Frame>
    requires u.next <= |c.script|
  {
    if Greeting(u) then [ReadyFrame]
    else if Asking(u) && u.next > 0 && c.script[u.next - 1].Get? then
      [ReplyFrame(c.dev.load(MemAfter(c.dev, c.mem, c.script[..u.next - 1]), c.script[u.next - 1].addr).0)]
    else []
  }

  ghost predicate UnixOk<M>(c: Config<M>, u: Unix)
  {
    && u.next <= |c.script|
    && (u.rx == Quiet || Greeting(u) || Asking(u))
    && (u.rx.ShortRead? ==> 0 < |u.rx.got| < 4)
    && (Asking(u) ==> u.phase == Running && u.next > 0 && c.script[u.next - 1].Get?)
    && (u.phase != Running ==> u.rx == Quiet)
    && (Greeting(u) ==> u.next == 0 && u.out == [])
    && (u.out != [] ==> u.rx == Quiet || u.rx == WaitOp(PI_GET32_REPLY))
    && u.answers == Answers(c.dev, c.mem, Settled(c, u))
  }

  /** Bytes coming back hold whole frames up to where the Pi has written, whatever the Unix side has half read. */
  ghost predicate FramesWhole<M>(s: State<M>)
  {
    ScanAll(ScanOf(s.unix.rx), s.toUnix + s.pi.out).0 == AtOp
  }

  ghost predicate PiOnTrack<M>(c: Config<M>, s: State<M>)
    requires s.unix.next <= |c.script|
  {
    var ahead := Feed(c, s.pi.pc, s.pi.mem, s.toPi + s.unix.out);
    ahead.pc == FetchOp && ahead.mem == MemAfter(c.dev, c.mem, c.script[..s.unix.next])
  }

  ghost predicate DebtsInFlight<M>(c: Config<M>, s: State<M>)
    requires s.unix.next <= |c.script|
  {
    Substance(ScanAll(ScanOf(s.unix.rx), s.toUnix + s.pi.out).1) +
    Substance(Feed(c, s.pi.pc, s.pi.mem, s.toPi + s.unix.out).frames) == Owed(c, s.unix)
  }

  /** Before the program runs, the Pi has read nothing or exactly the one ping. */
  ghost predicate HandshakeShape<M>(c: Config<M>, s: State<M>)
  {
    && (s.unix.phase != Running ==>
          || (s.pi.pc == Boot && s.pi.mem == c.mem && s.toPi == [PI_READY] && s.toUnix == [] && s.pi.out == [])
          || (s.pi.pc == FetchOp && s.pi.mem == c.mem && s.toPi == []))
    && (s.unix.phase == Running ==> s.pi.pc != Boot)
  }

  ghost predicate OnePing<M>(c: Config<M>, s: State<M>)
  {
    && s.unix.pings == 1
    && UnixOk(c, s.unix)
    && FramesWhole(s)
    && PiOnTrack(c, s)
    && DebtsInFlight(c, s)
    && HandshakeShape(c, s)
  }

  ghost predicate Stranded(u: Unix)
  {
    && u.answers == []
    && (u.rx == Quiet || Greeting(u) || u.rx == WaitOp(PI_GET32_REPLY) || u.rx == WaitChar(PI_GET32_REPLY))
    && (u.phase != Running ==> u.rx == Quiet)
    && (Greeting(u) ==> u.next == 0 && u.out == [])
  }

  /** The bytes on their way back that are frames: all but the text of a panic. */
  function Framed<M>(c: Config<M>, s: State<M>): seq<Byte>
  {
    Without(s.toUnix + s.pi.out, RawText(c, s.pi.pc))
  }

  function Without(bytes: seq<Byte>, text: seq<Byte>): seq<Byte>
  {
    if |text| <= |bytes| then bytes[..|bytes| - |text|] else bytes
  }

  ghost predicate PanicTextLast<M>(c: Config<M>, s: State<M>)
  {
    s.toUnix + s.pi.out == Framed(c, s) + RawText(c, s.pi.pc)
  }

  ghost predicate OnlyGreeting<M>(c: Config<M>, s: State<M>)
  {
    ScanAll(ScanOf(s.unix.rx), Framed(c, s)).0 == AtOp &&
    Substance(ScanAll(ScanOf(s.unix.rx), Framed(c, s)).1) ==
    (if Greeting(s.unix) && s.pi.pc != Boot then [ReadyFrame] else [])
  }

  function Readies(k: nat): (bs: seq<Byte>)
    ensures |bs| == k && forall i :: 0 <= i < k ==> bs[i] == PI_READY
  {
    seq(k, _ => PI_READY)
  }

  /** The Pi has read nothing yet: on their way to it are the pings, and nothing else has happened. */
  ghost predicate Booting<M>(c: Config<M>, s: State<M>)
  {
    && s.pi == Pi(Boot, c.mem, []) && s.toUnix == [] && s.toPi == Readies(s.unix.pings)
    && s.unix.phase != Running && s.unix.rx == Quiet && s.unix.next == 0 && s.unix.out == [] && s.unix.answers == []
  }

  ghost predicate PiDoomed<M>(c: Config<M>, s: State<M>)
  {
    && s.pi.mem == c.mem
    && (|| (&& s.pi.pc == Boot && s.unix.pings >= 2 && s.toPi == Readies(s.unix.pings)
            && s.toUnix == [] && s.pi.out == [] && s.unix.phase != Running)
        || (s.pi.pc == FetchOp && [PI_READY] <= s.toPi)
        || s.pi.pc == Panicked)
  }

  /** The Unix program has read panic text where an opcode was due, and has panicked in turn. */
  ghost predicate GaveUp<M>(s: State<M>)
  {
    s.unix.rx == Mismatch && s.unix.phase == Running && s.unix.answers == [] && s.pi.pc == Panicked
  }

  /**
   With more than one ping the Pi has a surplus ping as its next request, or has panicked: then what
   it wrote is frames followed by raw text, on which the Unix program gives up when it gets there.
   */
  ghost predicate ManyPings<M>(c: Config<M>, s: State<M>)
  {
    && s.unix.pings >= 2 && PiDoomed(c, s)
    && (GaveUp(s) || (Stranded(s.unix) && PanicTextLast(c, s) && OnlyGreeting(c, s)))
  }

  ghost predicate Inv<M>(c: Config<M>, s: State<M>)
  {
    || (s.unix.pings == 0 && Booting(c, s))
    || OnePing(c, s)
    || ManyPings(c, s)
  }

  // ---------------------------------------------------------------- facts about readers

  lemma {:induction false} LostStaysLost(bs: seq<Byte>)
    ensures ScanAll(Lost, bs).0 == Lost
  {
    if bs != [] {
      LostStaysLost(bs[1..]);
    }
  }

  /** A reader inside a reply finds that reply before anything else. */
  lemma {:induction false} WordComesFirst(got: seq<Byte>, bs: seq<Byte>)
    requires |got| < 4 && ScanAll(InWord(got), bs).0 == AtOp
    ensures Substance(ScanAll(InWord(got), bs).1) != []
    ensures Substance(ScanAll(InWord(got), bs).1)[0].ReplyFrame?
    decreases |bs|
  {
    if bs != [] && |got| != 3 {
      WordComesFirst(got + [bs[0]], bs[1..]);
      ScanOn(InWord(got), bs);
    }
  }

  /** What the first byte on its way to the Unix side does to the frames found. */
  lemma ScanFirst<M>(s: State<M>)
    requires s.toUnix != []
    ensures var (s1, f1) := ScanByte(ScanOf(s.unix.rx), s.toUnix[0]);
            var rest := ScanAll(s1, s.toUnix[1..] + s.pi.out);
            var all := ScanAll(ScanOf(s.unix.rx), s.toUnix + s.pi.out);
            all.0 == rest.0 && Substance(all.1) == Substance(f1) + Substance(rest.1)
  {
    var (s1, f1) := ScanByte(ScanOf(s.unix.rx), s.toUnix[0]);
    assert (s.toUnix + s.pi.out)[1..] == s.toUnix[1..] + s.pi.out;
    SubstanceConcat(f1, ScanAll(s1, s.toUnix[1..] + s.pi.out).1);
  }

  // ---------------------------------------------------------------- steps that only move bytes

  lemma UnixWriteKeeps<M>(c: Config<M>, s: State<M>)
    requires OnePing(c, s) && Enabled(c, s, UnixWrite)
    ensures OnePing(c, Apply(c, s, UnixWrite))
  {
    hide Feed;
    hide ScanAll;
    hide Substance;
    hide Answers;
    hide MemAfter;
    assert s.toPi + [s.unix.out[0]] + s.unix.out[1..] == s.toPi + s.unix.out;
  }

  lemma PiWriteKeeps<M>(c: Config<M>, s: State<M>)
    requires OnePing(c, s) && Enabled(c, s, PiWrite)
    ensures OnePing(c, Apply(c, s, PiWrite))
  {
    hide Feed;
    hide ScanAll;
    hide Substance;
    hide Answers;
    hide MemAfter;
    hide UnixOk;
    assert s.toUnix + [s.pi.out[0]] + s.pi.out[1..] == s.toUnix + s.pi.out;
  }

  lemma ScanAppended(sc: Scan, bs: seq<Byte>, fs: seq<Frame>)
    requires ScanAll(sc, bs).0 == AtOp
    ensures ScanAll(sc, bs + Encode(fs)) == (AtOp, ScanAll(sc, bs).1 + fs)
  {
    ScanConcat(sc, bs, Encode(fs));
    ScanInvertsEncode(fs);
  }

  /** Frames appended by the Pi are found after those already there. */
  lemma PiAppends<M>(s: State<M>, fs: seq<Frame>)
    requires FramesWhole(s)
    ensures var before := ScanAll(ScanOf(s.unix.rx), s.toUnix + s.pi.out);
            var after := ScanAll(ScanOf(s.unix.rx), s.toUnix + (s.pi.out + Encode(fs)));
            after.0 == AtOp && Substance(after.1) == Substance(before.1) + Substance(fs)
  {
    hide ScanAll;
    hide Substance;
    hide Encode;
    hide ScanOf;
    assert s.toUnix + (s.pi.out + Encode(fs)) == (s.toUnix + s.pi.out) + Encode(fs);
    ScanAppended(ScanOf(s.unix.rx), s.toUnix + s.pi.out, fs);
    SubstanceConcat(ScanAll(ScanOf(s.unix.rx), s.toUnix + s.pi.out).1, fs);
  }

  lemma PiPrintKeeps<M>(c: Config<M>, s: State<M>, ch: Byte)
    requires OnePing(c, s) && Enabled(c, s, PiPrint(ch))
    ensures OnePing(c, Apply(c, s, PiPrint(ch)))
  {
    hide Feed;
    hide ScanAll;
    hide Answers;
    hide MemAfter;
    hide UnixOk;
    PiAppends(s, [PrintFrame(ch)]);
    assert Encode([PrintFrame(ch)]) == EncodeFrame(PrintFrame(ch));
  }

  // ---------------------------------------------------------------- the Pi handles a byte

  lemma FeedFirst<M>(c: Config<M>, s: State<M>)
    requires s.toPi != []
    ensures var one := PiByte(c, s.pi.pc, s.pi.mem, s.toPi[0]);
            var rest := Feed(c, one.pc, one.mem, s.toPi[1..] + s.unix.out);
            var all := Feed(c, s.pi.pc, s.pi.mem, s.toPi + s.unix.out);
            all.pc == rest.pc && all.mem == rest.mem &&
            Substance(all.frames) == Substance(one.frames) + Substance(rest.frames)
  {
    var one := PiByte(c, s.pi.pc, s.pi.mem, s.toPi[0]);
    assert (s.toPi + s.unix.out)[1..] == s.toPi[1..] + s.unix.out;
    SubstanceConcat(one.frames, Feed(c, one.pc, one.mem, s.toPi[1..] + s.unix.out).frames);
  }

  lemma PiReadHandshake<M>(c: Config<M>, s: State<M>)
    requires HandshakeShape(c, s) && Enabled(c, s, PiRead)
    ensures HandshakeShape(c, Apply(c, s, PiRead))
  {
    assert PiByte(c, s.pi.pc, s.pi.mem, s.toPi[0]).pc != Boot;
  }

  lemma PiReadFrames<M>(c: Config<M>, s: State<M>)
    requires UnixOk(c, s.unix) && FramesWhole(s) && PiOnTrack(c, s) && DebtsInFlight(c, s) && Enabled(c, s, PiRead)
    ensures var t := Apply(c, s, PiRead); FramesWhole(t) && PiOnTrack(c, t) && DebtsInFlight(c, t)
  {
    hide Feed;
    hide ScanAll;
    hide Substance;
    hide Answers;
    hide MemAfter;
    hide PiByte;
    hide Encode;
    hide ScanOf;
    hide Owed;
    var one := PiByte(c, s.pi.pc, s.pi.mem, s.toPi[0]);
    var t := Apply(c, s, PiRead);
    FeedFirst(c, s);
    PanicIsFinal(c, one.mem, s.toPi[1..] + s.unix.out);
    assert one.pc != Panicked;
    PiAppends(s, one.frames);
    assert s.pi.out + Encode(one.frames) == t.pi.out;
    assert FramesWhole(t) && PiOnTrack(c, t);
    var inFlight := Substance(ScanAll(ScanOf(s.unix.rx), s.toUnix + s.pi.out).1);
    var rest := Substance(Feed(c, one.pc, one.mem, s.toPi[1..] + s.unix.out).frames);
    assert (inFlight + Substance(one.frames)) + rest == inFlight + (Substance(one.frames) + rest);
  }

  lemma PiReadKeeps<M>(c: Config<M>, s: State<M>)
    requires OnePing(c, s) && Enabled(c, s, PiRead)
    ensures OnePing(c, Apply(c, s, PiRead))
  {
    PiReadHandshake(c, s);
    PiReadFrames(c, s);
  }

  // ---------------------------------------------------------------- the Unix side starts a call

  lemma IssueUnix<M>(c: Config<M>, s: State<M>)
    requires UnixOk(c, s.unix) && Enabled(c, s, Issue)
    ensures UnixOk(c, Apply(c, s, Issue).unix)
  {
    var n := s.unix.next;
    assert c.script[..n + 1][..n] == c.script[..n];
  }

  lemma IssueFeed<M>(c: Config<M>, s: State<M>)
    requires s.unix.next < |c.script| && PiOnTrack(c, s) && s.unix.out == []
    ensures var call := c.script[s.unix.next];
            var m := MemAfter(c.dev, c.mem, c.script[..s.unix.next]);
            var ahead := Feed(c, s.pi.pc, s.pi.mem, s.toPi + EncodeCall(call));
            && ahead.pc == FetchOp && ahead.mem == MemAfter(c.dev, c.mem, c.script[..s.unix.next + 1])
            && Substance(ahead.frames) == Substance(Feed(c, s.pi.pc, s.pi.mem, s.toPi + s.unix.out).frames) +
                                          (if call.Get? then [ReplyFrame(c.dev.load(m, call.addr).0)] else [])
  {
    var n := s.unix.next;
    var call := c.script[n];
    assert c.script[..n + 1][..n] == c.script[..n];
    var m := MemAfter(c.dev, c.mem, c.script[..n]);
    assert s.toPi + s.unix.out == s.toPi;
    FeedConcat(c, s.pi.pc, s.pi.mem, s.toPi, EncodeCall(call));
    FeedCall(c, m, call);
    SubstanceConcat(Feed(c, s.pi.pc, s.pi.mem, s.toPi).frames, Feed(c, FetchOp, m, EncodeCall(call)).frames);
  }

  lemma IssueKeeps<M>(c: Config<M>, s: State<M>)
    requires OnePing(c, s) && Enabled(c, s, Issue)
    ensures OnePing(c, Apply(c, s, Issue))
  {
    hide Feed;
    hide ScanAll;
    hide Answers;
    hide MemAfter;
    hide EncodeCall;
    IssueUnix(c, s);
    IssueFeed(c, s);
    var t := Apply(c, s, Issue);
    assert ScanOf(t.unix.rx) == ScanOf(s.unix.rx) == AtOp;
    assert FramesWhole(t) && PiOnTrack(c, t);
  }

  // ---------------------------------------------------------------- the Unix side handles a byte

  /** `get_op` starts on a frame boundary, so the byte it sees is one of the opcodes the Pi sends. */
  lemma {:induction false} OpIsExpected<M>(c: Config<M>, s: State<M>)
    requires OnePing(c, s) && Enabled(c, s, UnixRead) && s.unix.rx.WaitOp?
    ensures s.toUnix[0] == PI_PRINT_CHAR || s.toUnix[0] == s.unix.rx.want
  {
    var b := s.toUnix[0];
    ScanFirst(s);
    if b == PI_GET32_REPLY {
      WordComesFirst([], s.toUnix[1..] + s.pi.out);
      assert Owed(c, s.unix)[0].ReplyFrame?;
    } else if b != PI_PRINT_CHAR && b != PI_READY {
      LostStaysLost(s.toUnix[1..] + s.pi.out);
    } else if b == PI_READY {
      assert Owed(c, s.unix)[0] == ReadyFrame;
    }
  }

  lemma OpByteOk<M>(c: Config<M>, u: Unix, b: Byte)
    requires UnixOk(c, u) && u.out == [] && (u.rx.WaitChar? || (u.rx.WaitOp? && (b == PI_PRINT_CHAR || b == u.rx.want)))
    ensures UnixOk(c, UnixByte(u, b))
    ensures Owed(c, UnixByte(u, b)) == if u.rx.WaitOp? && b == PI_READY then [] else Owed(c, u)
  {
  }

  lemma UnixReadOpDebts<M>(c: Config<M>, s: State<M>)
    requires OnePing(c, s) && Enabled(c, s, UnixRead) && (s.unix.rx.WaitOp? || s.unix.rx.WaitChar?)
    requires s.unix.rx.WaitOp? ==> s.toUnix[0] == PI_PRINT_CHAR || s.toUnix[0] == s.unix.rx.want
    ensures var after := ScanAll(ScanOf(UnixByte(s.unix, s.toUnix[0]).rx), s.toUnix[1..] + s.pi.out);
            && after.0 == AtOp
            && Substance(after.1) + Substance(Feed(c, s.pi.pc, s.pi.mem, s.toPi + s.unix.out).frames) ==
               if s.unix.rx.WaitOp? && s.toUnix[0] == PI_READY then [] else Owed(c, s.unix)
  {
    hide Feed;
    hide ScanAll;
    hide Answers;
    hide MemAfter;
    ScanFirst(s);
    var ahead := Substance(Feed(c, s.pi.pc, s.pi.mem, s.toPi + s.unix.out).frames);
    var rest := Substance(ScanAll(ScanOf(UnixByte(s.unix, s.toUnix[0]).rx), s.toUnix[1..] + s.pi.out).1);
    if s.unix.rx.WaitOp? && s.toUnix[0] == PI_READY {
      assert ([ReadyFrame] + rest) + ahead == Owed(c, s.unix);
      assert |Owed(c, s.unix)| == 1 + |rest| + |ahead|;
    } else {
      assert [] + rest == rest;
    }
  }

  lemma UnixReadOp<M>(c: Config<M>, s: State<M>)
    requires OnePing(c, s) && Enabled(c, s, UnixRead) && (s.unix.rx.WaitOp? || s.unix.rx.WaitChar?)
    ensures OnePing(c, Apply(c, s, UnixRead))
  {
    hide Feed;
    hide ScanAll;
    hide Substance;
    hide Answers;
    hide MemAfter;
    if s.unix.rx.WaitOp? {
      OpIsExpected(c, s);
    }
    OpByteOk(c, s.unix, s.toUnix[0]);
    UnixReadOpDebts(c, s);
  }

  /** A word that comes in pieces: the `read` gets some of it, and the program panics with the reply still owed. */
  lemma UnixReadShort<M>(c: Config<M>, s: State<M>)
    requires OnePing(c, s) && Enabled(c, s, UnixRead) && s.unix.rx == WaitWord && |s.toUnix| < 4
    ensures OnePing(c, Apply(c, s, UnixRead))
  {
    hide Feed;
    hide ScanAll;
    hide Substance;
    hide Answers;
    hide MemAfter;
    var t := Apply(c, s, UnixRead);
    ScanPart([], s.toUnix);
    assert [] + s.toUnix == s.toUnix;
    ScanConcat(InWord([]), s.toUnix, s.pi.out);
    assert t.toUnix + t.pi.out == s.pi.out;
    var found := ScanAll(InWord(s.toUnix), s.pi.out).1;
    assert [] + found == found;
    assert UnixOk(c, t.unix);
  }

  lemma ScanWholeWord<M>(s: State<M>)
    requires |s.toUnix| >= 4
    ensures var w, rest := s.toUnix[..4], ScanAll(AtOp, s.toUnix[4..] + s.pi.out);
            var all := ScanAll(InWord([]), s.toUnix + s.pi.out);
            all.0 == rest.0 && Substance(all.1) == [ReplyFrame(FromLittleEndian(w))] + Substance(rest.1)
  {
    hide ScanAll;
    hide FromLittleEndian;
    var w, tail := s.toUnix[..4], s.toUnix[4..] + s.pi.out;
    assert s.toUnix + s.pi.out == w + tail;
    ScanWord(w);
    ScanConcat(InWord([]), w, tail);
    SubstanceConcat([ReplyFrame(FromLittleEndian(w))], ScanAll(AtOp, tail).1);
  }

  /** A word read whole is what the local memory answers. */
  lemma {:induction false} ReplyIsAnswer<M>(c: Config<M>, s: State<M>)
    requires OnePing(c, s) && Enabled(c, s, UnixRead) && s.unix.rx == WaitWord && |s.toUnix| >= 4
    ensures ReplyFrame(FromLittleEndian(s.toUnix[..4])) == Owed(c, s.unix)[0]
    ensures Substance(ScanAll(AtOp, s.toUnix[4..] + s.pi.out).1) +
            Substance(Feed(c, s.pi.pc, s.pi.mem, s.toPi + s.unix.out).frames) == []
    ensures ScanAll(AtOp, s.toUnix[4..] + s.pi.out).0 == AtOp
  {
    hide Feed;
    hide ScanAll;
    hide Substance;
    ScanWholeWord(s);
    var v := FromLittleEndian(s.toUnix[..4]);
    var ahead := Substance(Feed(c, s.pi.pc, s.pi.mem, s.toPi + s.unix.out).frames);
    var rest := Substance(ScanAll(AtOp, s.toUnix[4..] + s.pi.out).1);
    assert ([ReplyFrame(v)] + rest) + ahead == Owed(c, s.unix);
    assert |Owed(c, s.unix)| == 1 + |rest| + |ahead|;
  }

  lemma WordReadOk<M>(c: Config<M>, u: Unix, inbox: seq<Byte>)
    requires UnixOk(c, u) && u.rx == WaitWord && |inbox| >= 4
    requires Owed(c, u)[0] == ReplyFrame(FromLittleEndian(inbox[..4]))
    ensures UnixOk(c, UnixReads(u, inbox).0) && Owed(c, UnixReads(u, inbox).0) == []
  {
    var n := u.next;
    assert c.script[..n][..n - 1] == c.script[..n - 1];
  }

  lemma UnixReadWord<M>(c: Config<M>, s: State<M>)
    requires OnePing(c, s) && Enabled(c, s, UnixRead) && s.unix.rx == WaitWord && |s.toUnix| >= 4
    ensures OnePing(c, Apply(c, s, UnixRead))
  {
    hide Feed;
    hide ScanAll;
    hide Substance;
    hide Answers;
    hide MemAfter;
    ReplyIsAnswer(c, s);
    WordReadOk(c, s.unix, s.toUnix);
  }

  // ---------------------------------------------------------------- the handshake

  lemma BootingSteps<M>(c: Config<M>, s: State<M>, step: Step)
    requires Booting(c, s) && Enabled(c, s, step) && (step == Ping || step == Lose || step == Timeout)
    ensures Booting(c, Apply(c, s, step))
  {
    assert Readies(s.unix.pings) + [PI_READY] == Readies(s.unix.pings + 1);
    if s.unix.pings > 0 {
      assert Readies(s.unix.pings)[1..] == Readies(s.unix.pings - 1);
    }
  }

  lemma BootFeed<M>(c: Config<M>)
    ensures var f := Feed(c, Boot, c.mem, [PI_READY]);
            f.pc == FetchOp && f.mem == c.mem && Substance(f.frames) == [ReadyFrame]
  {
    FeedLast(c, Boot, c.mem, [PI_READY]);
    PrintsHaveNoSubstance(c.banner);
    SubstanceConcat([ReadyFrame], PrintFrames(c.banner));
  }

  lemma NoCalls<M>(c: Config<M>)
    ensures c.script[..0] == [] && MemAfter(c.dev, c.mem, []) == c.mem && Answers(c.dev, c.mem, []) == []
  {
  }

  lemma BootingOnePing<M>(c: Config<M>, s: State<M>)
    requires Booting(c, s) && s.unix.pings == 1
    ensures OnePing(c, s)
  {
    hide Feed;
    hide ScanAll;
    hide Substance;
    hide MemAfter;
    hide Answers;
    assert s.toPi + s.unix.out == [PI_READY];
    assert s.toUnix + s.pi.out == [] && [] + [ReadyFrame] == [ReadyFrame];
    BootFeed(c);
    NoCalls(c);
    NothingScanned(s.unix.rx);
  }

  lemma BootingManyPings<M>(c: Config<M>, s: State<M>)
    requires Booting(c, s) && s.unix.pings >= 2
    ensures ManyPings(c, s)
  {
    NoPanicText(c, s);
    assert s.toUnix + s.pi.out == [];
  }

  /** However many pings were lost, before the Pi's first read only those that were not lost count. */
  lemma BootingKeepsInv<M>(c: Config<M>, s: State<M>, step: Step)
    requires Booting(c, s) && Enabled(c, s, step) && (step == Ping || step == Lose || step == Timeout)
    ensures Inv(c, Apply(c, s, step))
  {
    hide OnePing;
    hide ManyPings;
    BootingSteps(c, s, step);
    var t := Apply(c, s, step);
    if t.unix.pings == 1 {
      BootingOnePing(c, t);
    } else if t.unix.pings >= 2 {
      BootingManyPings(c, t);
    }
  }

  lemma StillBooting<M>(c: Config<M>, s: State<M>)
    requires (OnePing(c, s) || ManyPings(c, s)) && s.pi.pc == Boot
    ensures Booting(c, s)
  {
    hide FramesWhole;
    hide PiOnTrack;
    hide DebtsInFlight;
    hide OnlyGreeting;
    hide PanicTextLast;
    assert c.script[..0] == [];
    assert s.unix.pings == 1 ==> [PI_READY] == Readies(1);
  }

  lemma TimeoutKeeps<M>(c: Config<M>, s: State<M>)
    requires OnePing(c, s) && Enabled(c, s, Timeout)
    ensures OnePing(c, Apply(c, s, Timeout))
  {
  }

  lemma NoticeKeeps<M>(c: Config<M>, s: State<M>)
    requires OnePing(c, s) && Enabled(c, s, Notice)
    ensures OnePing(c, Apply(c, s, Notice))
  {
  }

  lemma SecondPing<M>(c: Config<M>, s: State<M>)
    requires OnePing(c, s) && Enabled(c, s, Ping)
    ensures ManyPings(c, Apply(c, s, Ping))
  {
    assert s.toPi + s.unix.out == s.toPi;
    NoPanicText(c, Apply(c, s, Ping));
    if s.pi.pc == FetchOp {
      assert Feed(c, FetchOp, s.pi.mem, []).frames == [];
    }
  }

  lemma OnePingStep<M>(c: Config<M>, s: State<M>, step: Step)
    requires OnePing(c, s) && Enabled(c, s, step)
    ensures Inv(c, Apply(c, s, step))
  {
    match step
    case Ping => SecondPing(c, s);
    case Lose =>
      StillBooting(c, s);
      BootingKeepsInv(c, s, step);
    case Timeout => TimeoutKeeps(c, s);
    case Notice => NoticeKeeps(c, s);
    case Issue => IssueKeeps(c, s);
    case UnixWrite => UnixWriteKeeps(c, s);
    case UnixRead => 
      if s.unix.rx != WaitWord {
        UnixReadOp(c, s);
      } else if |s.toUnix| < 4 {
        UnixReadShort(c, s);
      } else {
        UnixReadWord(c, s);
      }
    case PiRead => PiReadKeeps(c, s);
    case PiWrite => PiWriteKeeps(c, s);
    case PiPrint(ch) => PiPrintKeeps(c, s, ch);
  }

  // ---------------------------------------------------------------- too many pings

  lemma ScanFirstByte(sc: Scan, bs: seq<Byte>)
    requires bs != []
    ensures var (s1, f1) := ScanByte(sc, bs[0]);
            var rest, all := ScanAll(s1, bs[1..]), ScanAll(sc, bs);
            all.0 == rest.0 && Substance(all.1) == Substance(f1) + Substance(rest.1)
  {
    var (s1, f1) := ScanByte(sc, bs[0]);
    SubstanceConcat(f1, ScanAll(s1, bs[1..]).1);
  }

  /** Reading a byte takes it off the frames while there are any, and else off the panic text. */
  lemma FramedRead<M>(c: Config<M>, s: State<M>)
    requires PanicTextLast(c, s) && Enabled(c, s, UnixRead) && s.unix.rx != WaitWord
    ensures Framed(c, s) != [] ==>
              && Framed(c, s)[0] == s.toUnix[0] && Framed(c, Apply(c, s, UnixRead)) == Framed(c, s)[1..]
              && PanicTextLast(c, Apply(c, s, UnixRead))
    ensures Framed(c, s) == [] ==> s.pi.pc == Panicked && s.toUnix[0] == 80
  {
    hide UnixByte;
    hide Without;
    var bytes, t := s.toUnix + s.pi.out, Apply(c, s, UnixRead);
    assert t.toUnix + t.pi.out == bytes[1..] && bytes[0] == s.toUnix[0];
    WithoutRead(bytes, RawText(c, s.pi.pc));
  }

  lemma WithoutRead(bytes: seq<Byte>, text: seq<Byte>)
    requires bytes != [] && bytes == Without(bytes, text) + text
    ensures Without(bytes, text) != [] ==>
              && Without(bytes, text)[0] == bytes[0] && Without(bytes[1..], text) == Without(bytes, text)[1..]
              && bytes[1..] == Without(bytes[1..], text) + text
    ensures Without(bytes, text) == [] ==> bytes == text
  {
    var front := Without(bytes, text);
    if front != [] {
      assert (front + text)[1..] == front[1..] + text;
      assert front[0] == (front + text)[0];
    }
  }

  /** Before a panic everything in flight is frames. */
  lemma NoPanicText<M>(c: Config<M>, s: State<M>)
    requires s.pi.pc != Panicked
    ensures PanicTextLast(c, s) && Framed(c, s) == s.toUnix + s.pi.out
  {
  }

  lemma FramedSame<M>(c: Config<M>, s: State<M>, t: State<M>)
    requires PanicTextLast(c, s) && t.toUnix + t.pi.out == s.toUnix + s.pi.out && t.pi.pc == s.pi.pc
    ensures PanicTextLast(c, t) && Framed(c, t) == Framed(c, s)
  {
  }

  lemma StrandedReadOp<M>(c: Config<M>, s: State<M>)
    requires Stranded(s.unix) && OnlyGreeting(c, s) && PanicTextLast(c, s) && Enabled(c, s, UnixRead) && s.unix.rx.WaitOp?
    requires Framed(c, s) != []
    ensures s.toUnix[0] == PI_PRINT_CHAR || (s.toUnix[0] == PI_READY == s.unix.rx.want && s.pi.pc != Boot)
    ensures s.toUnix[0] == PI_READY ==> Substance(ScanAll(AtOp, Framed(c, s)[1..]).1) == []
  {
    hide Framed;
    hide PanicTextLast;
    FramedRead(c, s);
    var bs := Framed(c, s);
    var b := bs[0];
    ScanFirstByte(AtOp, bs);
    var after := ScanAll(ScanByte(AtOp, b).0, bs[1..]);
    var found := Substance(ScanAll(AtOp, bs).1);
    assert found == [] || found == [ReadyFrame];
    if b == PI_GET32_REPLY {
      assert found == Substance(after.1);
      WordComesFirst([], bs[1..]);
    } else if b == PI_READY {
      assert |found| == 1 + |Substance(after.1)|;
    } else if b != PI_PRINT_CHAR {
      LostStaysLost(bs[1..]);
    }
  }

  lemma OpFrames(b: Byte)
    ensures b == PI_PRINT_CHAR ==> ScanByte(AtOp, b) == (InChar, [])
    ensures b == PI_READY ==> ScanByte(AtOp, b) == (AtOp, [ReadyFrame])
    ensures Substance([]) == [] && Substance([ReadyFrame]) == [ReadyFrame]
  {
  }

  lemma ReadPanicText<M>(c: Config<M>, s: State<M>)
    requires ManyPings(c, s) && !GaveUp(s) && Enabled(c, s, UnixRead) && s.unix.rx.WaitOp? && Framed(c, s) == []
    ensures ManyPings(c, Apply(c, s, UnixRead))
  {
    hide Framed;
    hide PanicTextLast;
    hide ScanAll;
    FramedRead(c, s);
    NothingScanned(s.unix.rx);
    assert GaveUp(Apply(c, s, UnixRead));
  }

  lemma NothingScanned(rx: Rx)
    ensures ScanAll(ScanOf(rx), []) == (ScanOf(rx), []) && Substance([]) == []
  {
  }

  lemma ReadFramedOp<M>(c: Config<M>, s: State<M>)
    requires ManyPings(c, s) && !GaveUp(s) && Enabled(c, s, UnixRead) && s.unix.rx.WaitOp? && Framed(c, s) != []
    ensures ManyPings(c, Apply(c, s, UnixRead))
  {
    hide Framed;
    hide PanicTextLast;
    hide ScanAll;
    hide Substance;
    hide ScanByte;
    FramedRead(c, s);
    var t, bs := Apply(c, s, UnixRead), Framed(c, s);
    OpFrames(bs[0]);
    ScanFirstByte(AtOp, bs);
    StrandedReadOp(c, s);
    var rest := Substance(ScanAll(ScanByte(AtOp, bs[0]).0, bs[1..]).1);
    assert [] + rest == rest;
    assert Stranded(t.unix);
    assert OnlyGreeting(c, t);
  }

  lemma ManyPingsReadOp<M>(c: Config<M>, s: State<M>)
    requires ManyPings(c, s) && !GaveUp(s) && Enabled(c, s, UnixRead) && s.unix.rx.WaitOp?
    ensures ManyPings(c, Apply(c, s, UnixRead))
  {
    hide ManyPings;
    if Framed(c, s) == [] {
      ReadPanicText(c, s);
    } else {
      ReadFramedOp(c, s);
    }
  }

  lemma ManyPingsReadChar<M>(c: Config<M>, s: State<M>)
    requires ManyPings(c, s) && Enabled(c, s, UnixRead) && s.unix.rx.WaitChar?
    ensures ManyPings(c, Apply(c, s, UnixRead))
  {
    hide ScanAll;
    hide Framed;
    hide PanicTextLast;
    FramedRead(c, s);
    NothingScanned(s.unix.rx);
    assert Framed(c, s) != [];
    ScanFirstByte(InChar, Framed(c, s));
    var rest := Substance(ScanAll(AtOp, Framed(c, s)[1..]).1);
    assert [] + rest == rest;
    assert Stranded(UnixByte(s.unix, s.toUnix[0]));
  }

  lemma DoomedPiRead<M>(c: Config<M>, s: State<M>)
    requires PiDoomed(c, s) && Enabled(c, s, PiRead)
    ensures PiDoomed(c, Apply(c, s, PiRead))
  {
  }

  lemma DoomedSays<M>(c: Config<M>, s: State<M>)
    requires PiDoomed(c, s) && Enabled(c, s, PiRead)
    ensures var one := PiByte(c, s.pi.pc, s.pi.mem, s.toPi[0]);
            && (s.pi.pc == Boot ==> one.pc == FetchOp && Substance(one.frames) == [ReadyFrame])
            && (s.pi.pc != Boot ==> one.pc == Panicked && Substance(one.frames) == [])
  {
    PrintsHaveNoSubstance(c.banner);
    SubstanceConcat([ReadyFrame], PrintFrames(c.banner));
  }

  /** The Pi adds the greeting's frames, or nothing but the text of its panic. */
  lemma GreetingPiRead<M>(c: Config<M>, s: State<M>)
    requires OnlyGreeting(c, s) && PanicTextLast(c, s) && PiDoomed(c, s) && Enabled(c, s, PiRead)
    ensures OnlyGreeting(c, Apply(c, s, PiRead)) && PanicTextLast(c, Apply(c, s, PiRead))
  {
    hide ScanAll;
    hide Encode;
    hide ScanOf;
    hide Substance;
    hide PiByte;
    hide PanicText;
    var one := PiByte(c, s.pi.pc, s.pi.mem, s.toPi[0]);
    var t := Apply(c, s, PiRead);
    var bytes := Encode(one.frames);
    assert s.toUnix + s.pi.out == s.toUnix && Framed(c, s) == s.toUnix;
    assert t.toUnix + t.pi.out == (s.toUnix + bytes) + RawText(c, t.pi.pc);
    assert Framed(c, t) == s.toUnix + bytes;
    assert s.toUnix + (s.pi.out + bytes) == s.toUnix + bytes;
    PiAppends(s, one.frames);
    DoomedSays(c, s);
    assert [] + Substance(one.frames) == Substance(one.frames);
    var before := Substance(ScanAll(ScanOf(s.unix.rx), s.toUnix).1);
    assert before + [] == before;
  }

  lemma GreetingPiPrint<M>(c: Config<M>, s: State<M>, ch: Byte)
    requires OnlyGreeting(c, s) && PanicTextLast(c, s) && Enabled(c, s, PiPrint(ch))
    ensures OnlyGreeting(c, Apply(c, s, PiPrint(ch))) && PanicTextLast(c, Apply(c, s, PiPrint(ch)))
  {
    hide ScanAll;
    hide ScanOf;
    NoPanicText(c, s);
    NoPanicText(c, Apply(c, s, PiPrint(ch)));
    PiAppends(s, [PrintFrame(ch)]);
    assert Encode([PrintFrame(ch)]) == EncodeFrame(PrintFrame(ch));
  }

  lemma GaveUpStep<M>(c: Config<M>, s: State<M>, step: Step)
    requires GaveUp(s) && ManyPings(c, s) && Enabled(c, s, step) && step != Lose
    ensures ManyPings(c, Apply(c, s, step))
  {
    assert GaveUp(Apply(c, s, step));
  }

  /** Steps that neither read nor handle a byte. */
  lemma ManyPingsOther<M>(c: Config<M>, s: State<M>, step: Step)
    requires ManyPings(c, s) && !GaveUp(s) && Enabled(c, s, step)
    requires !step.UnixRead? && !step.PiRead? && !step.PiPrint? && !step.Lose?
    ensures ManyPings(c, Apply(c, s, step))
  {
    hide ScanAll;
    hide Framed;
    hide PanicTextLast;
    var t := Apply(c, s, step);
    if step == PiWrite {
      assert s.toUnix + [s.pi.out[0]] + s.pi.out[1..] == s.toUnix + s.pi.out;
    }
    FramedSame(c, s, t);
  }

  lemma ManyPingsStep<M>(c: Config<M>, s: State<M>, step: Step)
    requires ManyPings(c, s) && Enabled(c, s, step) && step != Lose
    ensures ManyPings(c, Apply(c, s, step))
  {
    hide ScanAll;
    hide PiByte;
    hide Framed;
    hide PanicTextLast;
    hide OnlyGreeting;
    if GaveUp(s) {
      GaveUpStep(c, s, step);
      return;
    }
    match step
    case UnixRead => if s.unix.rx.WaitOp? { ManyPingsReadOp(c, s); } else { ManyPingsReadChar(c, s); }
    case PiRead =>
      DoomedPiRead(c, s);
      GreetingPiRead(c, s);
    case PiPrint(ch) => GreetingPiPrint(c, s, ch);
    case _ => ManyPingsOther(c, s, step);
  }

  // ---------------------------------------------------------------- every run

  lemma {:induction false} EveryRunKeepsInv<M>(c: Config<M>, s: State<M>, steps: seq<Step>)
    requires Inv(c, s) && IsRun(c, s, steps)
    ensures Inv(c, Final(c, s, steps))
    decreases |steps|
  {
    if steps != [] {
      if OnePing(c, s) {
        OnePingStep(c, s, steps[0]);
      } else if !ManyPings(c, s) {
        BootingKeepsInv(c, s, steps[0]);
      } else if steps[0] == Lose {
        StillBooting(c, s);
        BootingKeepsInv(c, s, steps[0]);
      } else {
        ManyPingsStep(c, s, steps[0]);
      }
      EveryRunKeepsInv(c, Apply(c, s, steps[0]), steps[1..]);
    }
  }

  lemma InvAtStart<M>(c: Config<M>)
    ensures Inv(c, Init(c))
  {
  }

  /** Which part of the invariant holds is decided by the number of pings. */
  lemma InvByPings<M>(c: Config<M>, s: State<M>)
    requires Inv(c, s)
    ensures s.unix.pings == 0 ==> Booting(c, s)
    ensures s.unix.pings == 1 ==> OnePing(c, s)
    ensures s.unix.pings >= 2 ==> ManyPings(c, s)
    ensures s.unix.phase == Running ==> s.pi.pc != Boot
  {
    hide UnixOk;
    hide FramesWhole;
    hide PiOnTrack;
    hide DebtsInFlight;
  }

  lemma OnePingReads<M>(c: Config<M>, s: State<M>)
    requires OnePing(c, s)
    ensures s.unix.rx != Mismatch && !Torn(s)
  {
    hide PiOnTrack;
    hide DebtsInFlight;
    hide HandshakeShape;
    hide ScanAll;
  }

  lemma {:induction false} PanicIsFinal<M>(c: Config<M>, m: M, bs: seq<Byte>)
    ensures Feed(c, Panicked, m, bs).pc == Panicked
  {
    if bs != [] {
      PanicIsFinal(c, m, bs[1..]);
    }
  }

  /**
   Every interleaving of the two programs and the wires answers like one local memory: the gets
   that have returned are, in issue order, what the calls issued so far answer locally, although
   no put is acknowledged.  The Pi never panics, and the Unix side never meets a wrong opcode; what
   can stop it is a short read of a reply.
   */
  lemma {:induction false} RemoteMemoryIsLocal<M>(c: Config<M>, steps: seq<Step>)
    requires IsRun(c, Init(c), steps) && Final(c, Init(c), steps).unix.pings <= 1
    ensures var s := Final(c, Init(c), steps);
            && s.unix.next <= |c.script|
            && s.unix.rx != Mismatch && s.pi.pc != Panicked
            && (Asking(s.unix) ==> s.unix.next > 0 && s.unix.answers == Answers(c.dev, c.mem, c.script[..s.unix.next - 1]))
            && (!Asking(s.unix) ==> s.unix.answers == Answers(c.dev, c.mem, c.script[..s.unix.next]))
  {
    var s := Final(c, Init(c), steps);
    EveryRunKeepsInv(c, Init(c), steps);
    if OnePing(c, s) && s.pi.pc == Panicked {
      PanicIsFinal(c, s.pi.mem, s.toPi + s.unix.out);
    }
  }

  /**
   As long as the Pi has not panicked, the bytes in flight continue the frame the Unix side is
   reading, go on in whole frames and end in at most one partial frame, which the bytes the Pi is
   about to write complete.  In particular `get_op` starts on a frame boundary.  With one ping that
   is always.
   */
  lemma {:induction false} FramesNeverTear<M>(c: Config<M>, steps: seq<Step>)
    requires IsRun(c, Init(c), steps)
    ensures var s := Final(c, Init(c), steps);
            s.pi.pc != Panicked ==>
              && ScanAll(ScanOf(s.unix.rx), s.toUnix).0 != Lost
              && ScanAll(ScanOf(s.unix.rx), s.toUnix + s.pi.out).0 == AtOp
    ensures Final(c, Init(c), steps).unix.pings <= 1 ==> Final(c, Init(c), steps).pi.pc != Panicked
  {
    var s := Final(c, Init(c), steps);
    EveryRunKeepsInv(c, Init(c), steps);
    if s.pi.pc != Panicked {
      NoPanicText(c, s);
      assert s.toUnix + s.pi.out == [] ==> ScanAll(AtOp, s.toUnix + s.pi.out) == (AtOp, []);
      ScanConcat(ScanOf(s.unix.rx), s.toUnix, s.pi.out);
      LostStaysLost(s.pi.out);
    } else {
      PanicIsFinal(c, s.pi.mem, s.toPi + s.unix.out);
    }
  }

  // ---------------------------------------------------------------- one ping is exactly enough

  ghost predicate CanPanic<M>(c: Config<M>, s: State<M>)
  {
    exists more :: IsRun(c, s, more) && Final(c, s, more).pi.pc == Panicked
  }

  lemma CanPanicBefore<M>(c: Config<M>, s: State<M>, step: Step)
    requires Enabled(c, s, step) && CanPanic(c, Apply(c, s, step))
    ensures CanPanic(c, s)
  {
    var t := Apply(c, s, step);
    var more :| IsRun(c, t, more) && Final(c, t, more).pi.pc == Panicked;
    var all := [step] + more;
    assert all[1..] == more;
    assert IsRun(c, s, all) && Final(c, s, all).pi.pc == Panicked;
  }

  lemma {:induction false} SurplusPingPanics<M>(c: Config<M>, s: State<M>)
    requires ManyPings(c, s)
    ensures CanPanic(c, s)
    decreases s.pi.pc == Boot, |s.toPi|, |s.pi.out|
  {
    if s.pi.pc == Panicked {
      assert IsRun(c, s, []) && Final(c, s, []).pi.pc == Panicked;
    } else {
      var step := if s.pi.out != [] then PiWrite else PiRead;
      ManyPingsStep(c, s, step);
      SurplusPingPanics(c, Apply(c, s, step));
      CanPanicBefore(c, s, step);
    }
  }

  lemma {:induction false} PingsSettled<M>(c: Config<M>, s: State<M>, steps: seq<Step>)
    requires IsRun(c, s, steps) && s.unix.phase == Running && s.pi.pc != Boot
    ensures Final(c, s, steps).unix.pings == s.unix.pings && Final(c, s, steps).unix.phase == Running
    decreases |steps|
  {
    if steps != [] {
      PingsSettled(c, Apply(c, s, steps[0]), steps[1..]);
    }
  }

  /** Once the Unix program runs, the Pi can be driven into its panic exactly when a surplus ping was sent. */
  lemma {:induction false} PanicIffSurplusPing<M>(c: Config<M>, steps: seq<Step>)
    requires IsRun(c, Init(c), steps) && Final(c, Init(c), steps).unix.phase == Running
    ensures CanPanic(c, Final(c, Init(c), steps)) <==> Final(c, Init(c), steps).unix.pings >= 2
  {
    var s := Final(c, Init(c), steps);
    EveryRunKeepsInv(c, Init(c), steps);
    if ManyPings(c, s) {
      SurplusPingPanics(c, s);
    } else {
      forall more | IsRun(c, s, more)
        ensures Final(c, s, more).pi.pc != Panicked
      {
        var t := Final(c, s, more);
        EveryRunKeepsInv(c, s, more);
        PingsSettled(c, s, more);
        PanicIsFinal(c, t.pi.mem, t.toPi + t.unix.out);
      }
    }
  }

  // ---------------------------------------------------------------- what a surplus ping does to the Unix side

  /** The bytes on their way back do not parse: the reader meets one that is no opcode where one is due. */
  ghost predicate Torn<M>(s: State<M>)
  {
    ScanAll(ScanOf(s.unix.rx), s.toUnix + s.pi.out).0 == Lost
  }

  lemma PanicTears<M>(c: Config<M>, s: State<M>)
    requires ManyPings(c, s) && s.pi.pc == Panicked
    ensures Torn(s)
  {
    if GaveUp(s) {
      LostStaysLost(s.toUnix + s.pi.out);
    } else {
      ScanConcat(ScanOf(s.unix.rx), Framed(c, s), PanicText(c));
      assert ScanByte(AtOp, PanicText(c)[0]).0 == Lost;
      LostStaysLost(PanicText(c)[1..]);
    }
  }

  ghost predicate CanTear<M>(c: Config<M>, s: State<M>)
  {
    exists more :: IsRun(c, s, more) && Torn(Final(c, s, more))
  }

  /** Once the Unix program runs, the stream of frames can be torn exactly when a surplus ping was sent. */
  lemma {:induction false} TornIffSurplusPing<M>(c: Config<M>, steps: seq<Step>)
    requires IsRun(c, Init(c), steps) && Final(c, Init(c), steps).unix.phase == Running
    ensures CanTear(c, Final(c, Init(c), steps)) <==> Final(c, Init(c), steps).unix.pings >= 2
  {
    hide OnePing;
    hide ManyPings;
    hide Torn;
    hide Inv;
    hide Final;
    hide IsRun;
    var s := Final(c, Init(c), steps);
    InvAtStart(c);
    EveryRunKeepsInv(c, Init(c), steps);
    InvByPings(c, s);
    if s.unix.pings >= 2 {
      SurplusPingPanics(c, s);
      var more :| IsRun(c, s, more) && Final(c, s, more).pi.pc == Panicked;
      EveryRunKeepsInv(c, s, more);
      PingsSettled(c, s, more);
      InvByPings(c, Final(c, s, more));
      PanicTears(c, Final(c, s, more));
    } else {
      forall more | IsRun(c, s, more)
        ensures !Torn(Final(c, s, more))
      {
        EveryRunKeepsInv(c, s, more);
        PingsSettled(c, s, more);
        InvByPings(c, Final(c, s, more));
        OnePingReads(c, Final(c, s, more));
      }
    }
  }

  ghost predicate CanMismatch<M>(c: Config<M>, s: State<M>)
  {
    exists more :: IsRun(c, s, more) && Final(c, s, more).unix.rx == Mismatch
  }

  lemma CanMismatchBefore<M>(c: Config<M>, s: State<M>, step: Step)
    requires Enabled(c, s, step) && CanMismatch(c, Apply(c, s, step))
    ensures CanMismatch(c, s)
  {
    var t := Apply(c, s, step);
    var more :| IsRun(c, t, more) && Final(c, t, more).unix.rx == Mismatch;
    var all := [step] + more;
    assert all[1..] == more;
    assert IsRun(c, s, all) && Final(c, s, all).unix.rx == Mismatch;
  }

  /** The next step on the way to a mismatch: let the request out, let the Pi panic, and read. */
  function Towards<M>(s: State<M>): Step
  {
    if s.unix.out != [] then UnixWrite
    else if s.pi.out != [] then PiWrite
    else if s.pi.pc != Panicked then PiRead
    else UnixRead
  }

  lemma TowardsEnabled<M>(c: Config<M>, s: State<M>)
    requires ManyPings(c, s) && s.unix.phase == Running && Asking(s.unix)
    ensures Enabled(c, s, Towards(s))
    ensures var t := Apply(c, s, Towards(s)); t.unix.phase == Running && (Asking(t.unix) || t.unix.rx == Mismatch)
  {
    hide ScanAll;
    hide PiByte;
    hide Encode;
    if Towards(s) == UnixRead {
      assert s.toUnix + s.pi.out == s.toUnix;
      assert |RawText(c, s.pi.pc)| > 0;
    }
  }

  lemma {:induction false} SurplusPingMismatches<M>(c: Config<M>, s: State<M>)
    requires ManyPings(c, s) && s.unix.phase == Running && (Asking(s.unix) || s.unix.rx == Mismatch)
    ensures CanMismatch(c, s)
    decreases |s.unix.out|, if s.pi.pc == Panicked then 0 else 1 + |s.toPi|, |s.pi.out|, |s.toUnix|
  {
    hide ScanAll;
    hide Encode;
    hide OnlyGreeting;
    hide PanicTextLast;
    if s.unix.rx == Mismatch {
      assert IsRun(c, s, []) && Final(c, s, []).unix.rx == Mismatch;
    } else {
      TowardsEnabled(c, s);
      var step := Towards(s);
      ManyPingsStep(c, s, step);
      SurplusPingMismatches(c, Apply(c, s, step));
      CanMismatchBefore(c, s, step);
    }
  }

  /** A waiting `get32` can be answered by panic text, and so panic itself, exactly when a surplus ping was sent. */
  lemma {:induction false} MismatchIffSurplusPing<M>(c: Config<M>, steps: seq<Step>)
    requires IsRun(c, Init(c), steps) && Final(c, Init(c), steps).unix.phase == Running
    requires Asking(Final(c, Init(c), steps).unix)
    ensures CanMismatch(c, Final(c, Init(c), steps)) <==> Final(c, Init(c), steps).unix.pings >= 2
  {
    hide OnePing;
    hide ManyPings;
    hide Inv;
    hide Final;
    hide IsRun;
    var s := Final(c, Init(c), steps);
    InvAtStart(c);
    EveryRunKeepsInv(c, Init(c), steps);
    InvByPings(c, s);
    if s.unix.pings >= 2 {
      SurplusPingMismatches(c, s);
    } else {
      forall more | IsRun(c, s, more)
        ensures Final(c, s, more).unix.rx != Mismatch
      {
        EveryRunKeepsInv(c, s, more);
        PingsSettled(c, s, more);
        InvByPings(c, Final(c, s, more));
        OnePingReads(c, Final(c, s, more));
      }
    }
  }

  /** After a surplus ping no `get32` ever returns. */
  lemma {:induction false} NoAnswerAfterSurplusPing<M>(c: Config<M>, steps: seq<Step>)
    requires IsRun(c, Init(c), steps) && Final(c, Init(c), steps).unix.pings >= 2
    ensures Final(c, Init(c), steps).unix.answers == []
  {
    EveryRunKeepsInv(c, Init(c), steps);
  }

  /** A surplus ping does happen: the Unix side pings again before the Pi's answer is on the wire. */
  lemma {:induction false} SurplusPingHappens<M>(c: Config<M>)
    ensures var steps := [Ping, Timeout, Ping, PiRead, PiWrite, Notice];
            && IsRun(c, Init(c), steps)
            && Final(c, Init(c), steps).unix.phase == Running && Final(c, Init(c), steps).unix.pings == 2
  {
    hide IsRun;
    hide Final;
    hide Encode;
    hide PrintFrames;
    var s0 := Init(c);
    var s1 := Apply(c, s0, Ping);
    var s2 := Apply(c, s1, Timeout);
    var s3 := Apply(c, s2, Ping);
    var s4 := Apply(c, s3, PiRead);
    GreetingBytes(c);
    var s5 := Apply(c, s4, PiWrite);
    var s6 := Apply(c, s5, Notice);
    RunNothing(c, s6);
    var r5 := [Notice] + [];
    RunCons(c, s5, Notice, []);
    var r4 := [PiWrite] + r5;
    RunCons(c, s4, PiWrite, r5);
    var r3 := [PiRead] + r4;
    RunCons(c, s3, PiRead, r4);
    var r2 := [Ping] + r3;
    RunCons(c, s2, Ping, r3);
    var r1 := [Timeout] + r2;
    RunCons(c, s1, Timeout, r2);
    var r0 := [Ping] + r1;
    RunCons(c, s0, Ping, r1);
    assert r0 == [Ping, Timeout, Ping, PiRead, PiWrite, Notice];
  }

  /** Why the loop pings again: a ping lost while the Pi boots is replaced, and exactly one counts. */
  lemma {:induction false} LostPingIsReplaced<M>(c: Config<M>)
    ensures var steps := [Ping, Lose, Timeout, Ping, PiRead, PiWrite, Notice];
            && IsRun(c, Init(c), steps)
            && Final(c, Init(c), steps).unix.phase == Running && Final(c, Init(c), steps).unix.pings == 1
  {
    hide IsRun;
    hide Final;
    hide Encode;
    hide PrintFrames;
    var s0 := Init(c);
    var s1 := Apply(c, s0, Ping);
    var s2 := Apply(c, s1, Lose);
    var s3 := Apply(c, s2, Timeout);
    var s4 := Apply(c, s3, Ping);
    var s5 := Apply(c, s4, PiRead);
    GreetingBytes(c);
    var s6 := Apply(c, s5, PiWrite);
    var s7 := Apply(c, s6, Notice);
    RunNothing(c, s7);
    var r6 := [Notice] + [];
    RunCons(c, s6, Notice, []);
    var r5 := [PiWrite] + r6;
    RunCons(c, s5, PiWrite, r6);
    var r4 := [PiRead] + r5;
    RunCons(c, s4, PiRead, r5);
    var r3 := [Ping] + r4;
    RunCons(c, s3, Ping, r4);
    var r2 := [Timeout] + r3;
    RunCons(c, s2, Timeout, r3);
    var r1 := [Lose] + r2;
    RunCons(c, s1, Lose, r2);
    var r0 := [Ping] + r1;
    RunCons(c, s0, Ping, r1);
    assert r0 == [Ping, Lose, Timeout, Ping, PiRead, PiWrite, Notice];
  }

  lemma GreetingBytes<M>(c: Config<M>)
    ensures var bytes := Encode([ReadyFrame] + PrintFrames(c.banner)); bytes != [] && bytes[0] == PI_READY
  {
  }

  lemma RunNothing<M>(c: Config<M>, s: State<M>)
    ensures IsRun(c, s, []) && Final(c, s, []) == s
  {
  }

  lemma RunCons<M>(c: Config<M>, s: State<M>, step: Step, more: seq<Step>)
    requires Enabled(c, s, step) && IsRun(c, Apply(c, s, step), more)
    ensures IsRun(c, s, [step] + more) && Final(c, s, [step] + more) == Final(c, Apply(c, s, step), more)
  {
    assert ([step] + more)[1..] == more;
  }

  // ---------------------------------------------------------------- progress

  /** Pending work, in steps: each byte is written once and read once, and a request can cause a five-byte reply. */
  function Work<M>(c: Config<M>, s: State<M>): nat
    requires s.unix.next <= |c.script|
  {
    120 * (|c.script| - s.unix.next) + 13 * |s.unix.out| + 12 * |s.toPi| + 2 * |s.pi.out| + |s.toUnix|
  }

  ghost predicate Finished<M>(c: Config<M>, s: State<M>)
  {
    && s.unix.next == |c.script| && s.unix.rx == Quiet
    && s.unix.answers == Answers(c.dev, c.mem, c.script)
    && s.pi.mem == MemAfter(c.dev, c.mem, c.script)
  }

  lemma RepliesAreShort<M>(c: Config<M>, pc: PiPc, m: M, b: Byte)
    requires pc != Boot && PiByte(c, pc, m, b).pc != Rebooting
    ensures |Encode(PiByte(c, pc, m, b).frames)| <= 5
  {
    var fs := PiByte(c, pc, m, b).frames;
    if fs != [] {
      assert fs[1..] == [];
    }
  }

  lemma {:induction false} RebootIsFinal<M>(c: Config<M>, m: M, bs: seq<Byte>)
    ensures Feed(c, Rebooting, m, bs).pc == Rebooting
  {
    if bs != [] {
      RebootIsFinal(c, m, bs[1..]);
    }
  }

  lemma PiReadWork<M>(c: Config<M>, s: State<M>)
    requires NoRebootAhead(c, s) && s.pi.pc != Boot && Enabled(c, s, PiRead)
    ensures |Apply(c, s, PiRead).pi.out| <= 5
  {
    FeedFirst(c, s);
    var one := PiByte(c, s.pi.pc, s.pi.mem, s.toPi[0]);
    RebootIsFinal(c, one.mem, s.toPi[1..] + s.unix.out);
    PanicIsFinal(c, one.mem, s.toPi[1..] + s.unix.out);
    assert one.pc != Panicked;
    RepliesAreShort(c, s.pi.pc, s.pi.mem, s.toPi[0]);
  }

  /** Weaker than being on track: the requests under way do not reboot the Pi. */
  ghost predicate NoRebootAhead<M>(c: Config<M>, s: State<M>)
  {
    Feed(c, s.pi.pc, s.pi.mem, s.toPi + s.unix.out).pc == FetchOp
  }

  lemma StepStaysOnTrack<M>(c: Config<M>, s: State<M>, step: Step)
    requires OnePing(c, s) && s.unix.phase == Running && Enabled(c, s, step)
    ensures OnePing(c, Apply(c, s, step)) && Apply(c, s, step).unix.phase == Running
  {
    hide Feed;
    hide ScanAll;
    hide Substance;
    hide Answers;
    hide MemAfter;
    hide UnixOk;
    hide PiOnTrack;
    hide DebtsInFlight;
    hide FramesWhole;
    hide HandshakeShape;
    OnePingStep(c, s, step);
    assert Apply(c, s, step).unix.pings == 1;
  }

  lemma WorkShrinks<M>(c: Config<M>, s: State<M>, step: Step)
    requires s.unix.next <= |c.script| && s.unix.phase == Running && Enabled(c, s, step)
    requires step == PiRead ==> |Apply(c, s, step).pi.out| <= 5
    ensures Apply(c, s, step).unix.next <= |c.script|
    ensures Work(c, Apply(c, s, step)) + 1 <= Work(c, s) + (if step.PiPrint? then 5 else 0)
  {
  }

  /**
   While the Unix program still has something to do and has not panicked on a short read, some step
   other than a console print can be taken.
   */
  lemma {:induction false} NeverStuck<M>(c: Config<M>, s: State<M>)
    requires OnePing(c, s) && s.unix.phase == Running
    requires forall step :: Enabled(c, s, step) ==> step.PiPrint?
    ensures Finished(c, s) || s.unix.rx.ShortRead?
  {
    hide Answers;
    hide HandshakeShape;
    assert !Enabled(c, s, UnixWrite) && !Enabled(c, s, PiWrite) && !Enabled(c, s, Issue) && !Enabled(c, s, UnixRead);
    assert !Enabled(c, s, PiRead);
    assert s.unix.out == [] && s.pi.out == [];
    NotStopped(c, s);
    assert s.toPi + s.unix.out == [];
    assert s.toUnix == [] ==> s.toUnix + s.pi.out == [];
    if !s.unix.rx.ShortRead? {
      assert c.script[..s.unix.next] == c.script;
    }
  }

  lemma NotStopped<M>(c: Config<M>, s: State<M>)
    requires OnePing(c, s)
    ensures s.pi.pc != Rebooting && s.pi.pc != Panicked
  {
    hide FramesWhole;
    hide DebtsInFlight;
    hide HandshakeShape;
    hide UnixOk;
    hide Feed;
    RebootIsFinal(c, s.pi.mem, s.toPi + s.unix.out);
    PanicIsFinal(c, s.pi.mem, s.toPi + s.unix.out);
    OnePingNext(c, s);
  }

  lemma OnePingNext<M>(c: Config<M>, s: State<M>)
    requires OnePing(c, s)
    ensures s.unix.next <= |c.script|
  {
  }

  function Prints(steps: seq<Step>): nat
  {
    if steps == [] then 0 else (if steps[0].PiPrint? then 1 else 0) + Prints(steps[1..])
  }

  lemma {:induction false} RunsAreBounded<M>(c: Config<M>, s: State<M>, more: seq<Step>)
    requires OnePing(c, s) && s.unix.phase == Running && IsRun(c, s, more)
    ensures OnePing(c, Final(c, s, more)) && Final(c, s, more).unix.phase == Running
    ensures |more| + Work(c, Final(c, s, more)) <= Work(c, s) + 5 * Prints(more)
    decreases |more|
  {
    if more != [] {
      StepStaysOnTrack(c, s, more[0]);
      if more[0] == PiRead {
        PiReadWork(c, s);
      }
      WorkShrinks(c, s, more[0]);
      RunsAreBounded(c, Apply(c, s, more[0]), more[1..]);
    }
  }

  /** Every word that was read had arrived whole. */
  ghost predicate WholeReads<M>(c: Config<M>, s: State<M>, steps: seq<Step>)
    requires IsRun(c, s, steps)
    decreases |steps|
  {
    steps == [] ||
    ((steps[0] == UnixRead && s.unix.rx == WaitWord ==> |s.toUnix| >= 4) && WholeReads(c, Apply(c, s, steps[0]), steps[1..]))
  }

  /** At the read of a word `get32` panics exactly when fewer than four bytes are there. */
  lemma {:induction false} ShortReadIffFewer<M>(c: Config<M>, s: State<M>, step: Step)
    requires Enabled(c, s, step) && !s.unix.rx.ShortRead?
    ensures Apply(c, s, step).unix.rx.ShortRead? <==> step == UnixRead && s.unix.rx == WaitWord && |s.toUnix| < 4
  {
  }

  lemma {:induction false} ShortReadStays<M>(c: Config<M>, s: State<M>, steps: seq<Step>)
    requires IsRun(c, s, steps) && s.unix.rx.ShortRead? && s.unix.phase == Running
    ensures Final(c, s, steps).unix.rx.ShortRead?
    decreases |steps|
  {
    if steps != [] {
      ShortReadStays(c, Apply(c, s, steps[0]), steps[1..]);
    }
  }

  /** A run ends in the short-read panic exactly when one of its word reads found fewer than four bytes. */
  lemma {:induction false} ShortReadIffCut<M>(c: Config<M>, s: State<M>, steps: seq<Step>)
    requires IsRun(c, s, steps) && s.unix.phase == Running && !s.unix.rx.ShortRead?
    ensures Final(c, s, steps).unix.rx.ShortRead? <==> !WholeReads(c, s, steps)
    decreases |steps|
  {
    if steps != [] {
      var t := Apply(c, s, steps[0]);
      ShortReadIffFewer(c, s, steps[0]);
      if t.unix.rx.ShortRead? {
        ShortReadStays(c, t, steps[1..]);
      } else {
        ShortReadIffCut(c, t, steps[1..]);
      }
    }
  }

  ghost predicate OnlyPrintsLeft<M>(c: Config<M>, s: State<M>)
  {
    forall step :: Enabled(c, s, step) ==> step.PiPrint?
  }

  /**
   After a one-ping handshake every run is bounded by the pending work and the console output it
   prints.  A run that can only print has finished the whole script with the local answers, or stopped
   in a short read; and it has finished if every word it read had arrived whole.
   */
  lemma {:induction false} EveryRunFinishes<M>(c: Config<M>, steps: seq<Step>, more: seq<Step>)
    requires IsRun(c, Init(c), steps)
    requires var s := Final(c, Init(c), steps); s.unix.phase == Running && s.unix.pings == 1 && IsRun(c, s, more)
    ensures var s := Final(c, Init(c), steps);
            var t := Final(c, s, more);
            && s.unix.next <= |c.script|
            && |more| <= Work(c, s) + 5 * Prints(more)
            && (OnlyPrintsLeft(c, t) ==> Finished(c, t) || t.unix.rx.ShortRead?)
            && (OnlyPrintsLeft(c, t) && !s.unix.rx.ShortRead? && WholeReads(c, s, more) ==> Finished(c, t))
  {
    hide OnePing;
    hide ManyPings;
    hide Finished;
    hide WholeReads;
    var s := Final(c, Init(c), steps);
    InvAtStart(c);
    EveryRunKeepsInv(c, Init(c), steps);
    InvByPings(c, s);
    OnePingNext(c, s);
    hide Inv;
    RunsAreBounded(c, s, more);
    if OnlyPrintsLeft(c, Final(c, s, more)) {
      NeverStuck(c, Final(c, s, more));
    }
    if !s.unix.rx.ShortRead? {
      ShortReadIffCut(c, s, more);
    }
  }

  // ---------------------------------------------------------------- replies that come in pieces

  /** The reply the Unix side waits for has arrived whole, behind whatever the Pi printed first. */
  ghost predicate Arrived<M>(s: State<M>)
  {
    exists f :: f in ScanAll(ScanOf(s.unix.rx), s.toUnix).1 && f.ReplyFrame?
  }

  /** The `get32` that is waiting can panic on a short read: a continuation without a new call does so. */
  ghost predicate CanCut<M>(c: Config<M>, s: State<M>)
  {
    exists more :: IsRun(c, s, more) && Final(c, s, more).unix.rx.ShortRead? && Final(c, s, more).unix.next == s.unix.next
  }

  lemma CanCutBefore<M>(c: Config<M>, s: State<M>, step: Step)
    requires Enabled(c, s, step) && CanCut(c, Apply(c, s, step)) && Apply(c, s, step).unix.next == s.unix.next
    ensures CanCut(c, s)
  {
    var t := Apply(c, s, step);
    var more :| IsRun(c, t, more) && Final(c, t, more).unix.rx.ShortRead? && Final(c, t, more).unix.next == t.unix.next;
    RunCons(c, s, step, more);
    assert IsRun(c, s, [step] + more) && Final(c, s, [step] + more).unix.rx.ShortRead?;
  }

  /** The word has arrived whole exactly when four bytes of it are there. */
  lemma WordArrived<M>(s: State<M>)
    requires s.unix.rx == WaitWord
    ensures Arrived(s) <==> |s.toUnix| >= 4
  {
    if |s.toUnix| < 4 {
      ScanPart([], s.toUnix);
    } else {
      var w, tail := s.toUnix[..4], s.toUnix[4..];
      assert s.toUnix == w + tail;
      ScanWord(w);
      ScanConcat(InWord([]), w, tail);
      var f := ReplyFrame(FromLittleEndian(w));
      assert f in ScanAll(InWord([]), s.toUnix).1;
    }
  }

  lemma ScanTakesOne(sc: Scan, bs: seq<Byte>)
    requires bs != []
    ensures ScanAll(sc, bs).1 == ScanByte(sc, bs[0]).1 + ScanAll(ScanByte(sc, bs[0]).0, bs[1..]).1
  {
  }

  /** Reading an opcode or a character on the way neither brings the reply nor takes it. */
  lemma ArrivedAfterRead<M>(c: Config<M>, s: State<M>)
    requires OnePing(c, s) && Enabled(c, s, UnixRead) && s.unix.rx != WaitWord && Asking(s.unix)
    ensures var t := Apply(c, s, UnixRead);
            && Asking(t.unix) && !t.unix.rx.ShortRead? && (Arrived(t) <==> Arrived(s)) && t.unix.next == s.unix.next
  {
    if s.unix.rx.WaitOp? {
      OpIsExpected(c, s);
    }
    hide OnePing;
    hide ScanAll;
    var t := Apply(c, s, UnixRead);
    ScanTakesOne(ScanOf(s.unix.rx), s.toUnix);
    assert ScanByte(ScanOf(s.unix.rx), s.toUnix[0]).0 == ScanOf(t.unix.rx);
  }

  /** Bytes that arrive behind others leave arrived what has arrived. */
  lemma ArrivedStays<M>(c: Config<M>, s: State<M>)
    requires Enabled(c, s, PiWrite) && Arrived(s)
    ensures Arrived(Apply(c, s, PiWrite))
  {
    hide ScanAll;
    ScanConcat(ScanOf(s.unix.rx), s.toUnix, [s.pi.out[0]]);
    var f :| f in ScanAll(ScanOf(s.unix.rx), s.toUnix).1 && f.ReplyFrame?;
    assert f in ScanAll(ScanOf(s.unix.rx), s.toUnix + [s.pi.out[0]]).1;
  }

  lemma OneByteIsNoReply<M>(c: Config<M>, s: State<M>)
    requires Enabled(c, s, PiWrite) && s.toUnix == [] && Waits(s.unix.rx)
    ensures !Arrived(Apply(c, s, PiWrite))
  {
    var b := s.pi.out[0];
    assert s.toUnix + [b] == [b];
    ScanLast(ScanOf(s.unix.rx), [b]);
  }

  /** One step on the way to a short read: read what is there, else have one more byte sent. */
  function Cutting<M>(s: State<M>): Step
  {
    if s.unix.out != [] then UnixWrite
    else if s.toUnix != [] then UnixRead
    else if s.pi.out != [] then PiWrite
    else PiRead
  }

  lemma CuttingEnabled<M>(c: Config<M>, s: State<M>)
    requires OnePing(c, s) && s.unix.phase == Running && Asking(s.unix) && !s.unix.rx.ShortRead?
    ensures Enabled(c, s, Cutting(s))
  {
    hide Answers;
    hide HandshakeShape;
    NotStopped(c, s);
    if Cutting(s) == PiRead {
      assert s.toUnix + s.pi.out == [];
      assert s.toPi == [] ==> s.toPi + s.unix.out == [];
    }
  }

  lemma CuttingGoesOn<M>(c: Config<M>, s: State<M>)
    requires OnePing(c, s) && s.unix.phase == Running && Asking(s.unix) && !s.unix.rx.ShortRead? && !Arrived(s)
    requires Enabled(c, s, Cutting(s))
    ensures var t := Apply(c, s, Cutting(s));
            t.unix.next == s.unix.next && Asking(t.unix) && (t.unix.rx.ShortRead? || !Arrived(t))
  {
    hide OnePing;
    if Cutting(s) == UnixRead {
      if s.unix.rx == WaitWord {
        WordArrived(s);
      } else {
        ArrivedAfterRead(c, s);
      }
    } else if Cutting(s) == PiWrite {
      OneByteIsNoReply(c, s);
    } else {
      hide ScanAll;
      var t := Apply(c, s, Cutting(s));
      assert t.toUnix == s.toUnix && t.unix.rx == s.unix.rx;
    }
  }

  lemma {:induction false} NotArrivedCanCut<M>(c: Config<M>, s: State<M>)
    requires OnePing(c, s) && s.unix.phase == Running && Asking(s.unix) && (s.unix.rx.ShortRead? || !Arrived(s))
    requires s.unix.next <= |c.script|
    ensures CanCut(c, s)
    decreases Work(c, s)
  {
    hide OnePing;
    hide Arrived;
    if s.unix.rx.ShortRead? {
      assert IsRun(c, s, []) && Final(c, s, []).unix.rx.ShortRead?;
    } else {
      var step := Cutting(s);
      CuttingEnabled(c, s);
      CuttingGoesOn(c, s);
      StepStaysOnTrack(c, s, step);
      if step == PiRead {
        OnePingTrack(c, s);
        PiReadWork(c, s);
      }
      WorkShrinks(c, s, step);
      NotArrivedCanCut(c, Apply(c, s, step));
      CanCutBefore(c, s, step);
    }
  }

  lemma OnePingTrack<M>(c: Config<M>, s: State<M>)
    requires OnePing(c, s)
    ensures NoRebootAhead(c, s) && (s.unix.phase == Running ==> s.pi.pc != Boot)
  {
    hide FramesWhole;
    hide DebtsInFlight;
  }

  /** The waiting `get32` has its reply or has returned. */
  ghost predicate Safe<M>(s: State<M>, next: nat)
  {
    s.unix.next > next || (s.unix.next == next && (s.unix.rx == Quiet || (Asking(s.unix) && !s.unix.rx.ShortRead? && Arrived(s))))
  }

  lemma SafeStep<M>(c: Config<M>, s: State<M>, step: Step, next: nat)
    requires OnePing(c, s) && s.unix.phase == Running && Enabled(c, s, step) && Safe(s, next)
    ensures Safe(Apply(c, s, step), next)
  {
    OnePingTrack(c, s);
    var t := Apply(c, s, step);
    if s.unix.next == next && s.unix.rx != Quiet {
      if step == UnixRead {
        if s.unix.rx == WaitWord {
          hide OnePing;
          WordArrived(s);
        } else {
          ArrivedAfterRead(c, s);
        }
      } else if step == PiWrite {
        hide OnePing;
        ArrivedStays(c, s);
      } else {
        hide OnePing;
        hide ScanAll;
        assert t.toUnix == s.toUnix && t.unix.rx == s.unix.rx;
      }
    }
  }

  lemma {:induction false} SafeRun<M>(c: Config<M>, s: State<M>, steps: seq<Step>, next: nat)
    requires OnePing(c, s) && s.unix.phase == Running && IsRun(c, s, steps) && Safe(s, next)
    ensures Safe(Final(c, s, steps), next)
    decreases |steps|
  {
    hide OnePing;
    hide Safe;
    if steps != [] {
      SafeStep(c, s, steps[0], next);
      StepStaysOnTrack(c, s, steps[0]);
      SafeRun(c, Apply(c, s, steps[0]), steps[1..], next);
    }
  }

  /** A waiting `get32` can panic on a short read exactly when its reply has not arrived whole yet. */
  lemma {:induction false} CutIffNotArrived<M>(c: Config<M>, steps: seq<Step>)
    requires IsRun(c, Init(c), steps)
    requires var s := Final(c, Init(c), steps); s.unix.phase == Running && s.unix.pings == 1 && Asking(s.unix) && !s.unix.rx.ShortRead?
    ensures var s := Final(c, Init(c), steps); CanCut(c, s) <==> !Arrived(s)
  {
    hide OnePing;
    hide ManyPings;
    hide Arrived;
    var s := Final(c, Init(c), steps);
    InvAtStart(c);
    EveryRunKeepsInv(c, Init(c), steps);
    InvByPings(c, s);
    OnePingNext(c, s);
    hide Inv;
    if !Arrived(s) {
      NotArrivedCanCut(c, s);
    } else {
      forall more | IsRun(c, s, more) && Final(c, s, more).unix.next == s.unix.next
        ensures !Final(c, s, more).unix.rx.ShortRead?
      {
        SafeRun(c, s, more, s.unix.next);
      }
    }
  }

  /** It does happen, to the first call of any script that starts with a get: one ping, no loss, nobody at fault. */
  lemma {:induction false} ShortReadHappens<M>(c: Config<M>)
    requires c.script != [] && c.script[0].Get?
    ensures var steps := [Ping, PiRead, PiWrite, Notice, UnixRead, Issue];
            && IsRun(c, Init(c), steps)
            && var s := Final(c, Init(c), steps);
               s.unix.phase == Running && s.unix.pings == 1 && Asking(s.unix) && !s.unix.rx.ShortRead? && CanCut(c, s)
  {
    hide IsRun;
    hide Final;
    hide Encode;
    hide PrintFrames;
    var s0 := Init(c);
    var s1 := Apply(c, s0, Ping);
    var s2 := Apply(c, s1, PiRead);
    GreetingBytes(c);
    var s3 := Apply(c, s2, PiWrite);
    assert s3.toUnix == [PI_READY];
    var s4 := Apply(c, s3, Notice);
    var s5 := Apply(c, s4, UnixRead);
    var s6 := Apply(c, s5, Issue);
    RunNothing(c, s6);
    var r5 := [Issue] + [];
    RunCons(c, s5, Issue, []);
    var r4 := [UnixRead] + r5;
    RunCons(c, s4, UnixRead, r5);
    var r3 := [Notice] + r4;
    RunCons(c, s3, Notice, r4);
    var r2 := [PiWrite] + r3;
    RunCons(c, s2, PiWrite, r3);
    var r1 := [PiRead] + r2;
    RunCons(c, s1, PiRead, r2);
    var r0 := [Ping] + r1;
    RunCons(c, s0, Ping, r1);
    assert r0 == [Ping, PiRead, PiWrite, Notice, UnixRead, Issue];
    var steps := [Ping, PiRead, PiWrite, Notice, UnixRead, Issue];
    NothingScanned(s6.unix.rx);
    assert s6.toUnix == [] && !Arrived(s6);
    CutIffNotArrived(c, steps);
  }

  // ---------------------------------------------------------------- plain memory

  /** Ordinary RAM: a load returns the last store to the address. */
  function Ram(init: Word -> Word): Device<map<Word, Word>>
  {
    Device((m: map<Word, Word>, a: Word) => (if a in m then m[a] else init(a), m),
           (m: map<Word, Word>, a: Word, v: Word) => m[a := v])
  }

  /** The value of the last put to `a` among the calls, or what the address held at the start. */
  function LastPut(init: Word -> Word, calls: seq<Call>, a: Word): Word
  {
    if calls == [] then init(a)
    else if calls[|calls| - 1].Put? && calls[|calls| - 1].addr == a then calls[|calls| - 1].val
    else LastPut(init, calls[..|calls| - 1], a)
  }

  lemma {:induction false} RamHoldsLastPut(init: Word -> Word, calls: seq<Call>, a: Word)
    ensures Ram(init).load(MemAfter(Ram(init), map[], calls), a).0 == LastPut(init, calls, a)
  {
    if calls != [] {
      RamHoldsLastPut(init, calls[..|calls| - 1], a);
    }
  }

  /** With RAM on the Pi, a `get32` that has just returned gave the last value put, in issue order, to its address. */
  lemma {:induction false} GetReturnsLastPut(c: Config<map<Word, Word>>, init: Word -> Word, steps: seq<Step>)
    requires c.dev == Ram(init) && c.mem == map[]
    requires IsRun(c, Init(c), steps) && Final(c, Init(c), steps).unix.pings <= 1
    ensures var u := Final(c, Init(c), steps).unix;
            u.next <= |c.script| &&
            (u.next > 0 && c.script[u.next - 1].Get? && !Asking(u) ==>
               u.answers != [] &&
               u.answers[|u.answers| - 1] == LastPut(init, c.script[..u.next - 1], c.script[u.next - 1].addr))
  {
    RemoteMemoryIsLocal(c, steps);
    var u := Final(c, Init(c), steps).unix;
    if u.next > 0 {
      assert c.script[..u.next][..u.next - 1] == c.script[..u.next - 1];
      RamHoldsLastPut(init, c.script[..u.next - 1], c.script[u.next - 1].addr);
    }
  }
}
