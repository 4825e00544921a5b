/**
 The remote-memory protocol of lab 11 as two step machines joined by two FIFO byte channels.

 Every step moves or handles a single byte, or is one system call of the Unix process, so a run of
 steps is one interleaving of the Unix process, the Pi and the wires.  The two readers are described
 once, as byte-at-a-time transducers: `Feed` says what the Pi will do with bytes on their way to it,
 and `ScanAll` says which frames the bytes on their way back hold.
 */
module RemoteMemory {
  import opened Words

  const PI_READY: Byte := 1
  const PI_PRINT_CHAR: Byte := 3
  const PI_REBOOT: Byte := 4
  const PI_PUT32: Byte := 14
  const PI_GET32: Byte := 15
  const PI_GET32_REPLY: Byte := 16

  // ---------------------------------------------------------------- local memory

  /** What GET32 and PUT32 do to the Pi; a load may change the device too. */
  datatype Device<!M> = Device(load: (M, Word) -> (Word, M), store: (M, Word, Word) -> M)

  datatype Call = Put(addr: Word, val: Word) | Get(addr: Word)

  /** The memory left by performing the calls, in order, on one local memory. */
  function MemAfter<M>(d: Device<M>, m: M, calls: seq<Call>): M
  {
    if calls == [] then m
    else
      var before := MemAfter(d, m, calls[..|calls| - 1]);
      match calls[|calls| - 1]
      case Put(a, v) => d.store(before, a, v)
      case Get(a) => d.load(before, a).1
  }

  /** The values the gets among the calls return on one local memory. */
  function Answers<M>(d: Device<M>, m: M, calls: seq<Call>): seq<Word>
  {
    if calls == [] then []
    else
      var front := calls[..|calls| - 1];
      match calls[|calls| - 1]
      case Put(_, _) => Answers(d, m, front)
      case Get(a) => Answers(d, m, front) + [d.load(MemAfter(d, m, front), a).0]
  }

  // ---------------------------------------------------------------- frames

  datatype Frame = ReadyFrame | PrintFrame(ch: Byte) | ReplyFrame(val: Word)

  function EncodeFrame(f: Frame): seq<Byte>
  {
    match f
    case ReadyFrame => [PI_READY]
    case PrintFrame(ch) => [PI_PRINT_CHAR, ch]
    case ReplyFrame(val) => [PI_GET32_REPLY] + LittleEndian(val)
  }

  function Encode(fs: seq<Frame>): seq<Byte>
  {
    if fs == [] then [] else EncodeFrame(fs[0]) + Encode(fs[1..])
  }

  function PrintFrames(text: seq<Byte>): seq<Frame>
  {
    if text == [] then [] else [PrintFrame(text[0])] + PrintFrames(text[1..])
  }

  /** The frames that are not console output. */
  function Substance(fs: seq<Frame>): seq<Frame>
  {
    if fs == [] then []
    else (if fs[0].PrintFrame? then [] else [fs[0]]) + Substance(fs[1..])
  }

  function EncodeCall(call: Call): seq<Byte>
  {
    match call
    case Put(a, v) => [PI_PUT32] + LittleEndian(a) + LittleEndian(v)
    case Get(a) => [PI_GET32] + LittleEndian(a)
  }

  // ---------------------------------------------------------------- the Unix reader

  datatype Scan = AtOp | InChar | InWord(got: seq<Byte>) | Lost

  function ScanByte(s: Scan, b: Byte): (Scan, seq<Frame>)
  {
    match s
    case AtOp =>
      if b == PI_PRINT_CHAR then (InChar, [])
      else if b == PI_READY then (AtOp, [ReadyFrame])
      else if b == PI_GET32_REPLY then (InWord([]), [])
      else (Lost, [])
    case InChar => (AtOp, [PrintFrame(b)])
    case InWord(got) =>
      if |got| == 3 then (AtOp, [ReplyFrame(FromLittleEndian(got + [b]))]) else (InWord(got + [b]), [])
    case Lost => (Lost, [])
  }

  function ScanAll(s: Scan, bs: seq<Byte>): (Scan, seq<Frame>)
    decreases |bs|
  {
    if bs == [] then (s, [])
    else
      var (s1, f1) := ScanByte(s, bs[0]);
      var (s2, f2) := ScanAll(s1, bs[1..]);
      (s2, f1 + f2)
  }

  // ---------------------------------------------------------------- the Pi loop

  datatype PiPc =
    | Boot
    | FetchOp
    | GetAddr(got: seq<Byte>)
    | PutAddr(got: seq<Byte>)
    | PutVal(addr: Word, got: seq<Byte>)
    | Rebooting
    | Panicked

  datatype Config<!M> = Config(dev: Device<M>, mem: M, banner: seq<Byte>, farewell: seq<Byte>, detail: seq<Byte>,
                               script: seq<Call>)

  /** What a panicking Pi prints: it drops its network putchar first, so the text goes out without frames. */
  function PanicText<M>(c: Config<M>): (text: seq<Byte>)
    ensures text != []
  {
    [80, 65, 78, 73, 67, 58] + c.detail
  }

  /** What is written besides frames when the loop gets to `pc`. */
  function RawText<M>(c: Config<M>, pc: PiPc): seq<Byte>
  {
    if pc == Panicked then PanicText(c) else []
  }

  datatype PiStep<M> = PiStep(pc: PiPc, mem: M, frames: seq<Frame>)

  /** One byte arriving at the Pi: the switch of its opcode loop, a byte at a time. */
  function PiByte<M>(c: Config<M>, pc: PiPc, m: M, b: Byte): PiStep<M>
  {
    match pc
    case Boot =>
      if b == PI_READY then PiStep(FetchOp, m, [ReadyFrame] + PrintFrames(c.banner)) else PiStep(Panicked, m, [])
    case FetchOp =>
      if b == PI_REBOOT then PiStep(Rebooting, m, PrintFrames(c.farewell))
      else if b == PI_GET32 then PiStep(GetAddr([]), m, [])
      else if b == PI_PUT32 then PiStep(PutAddr([]), m, [])
      else PiStep(Panicked, m, [])
    case GetAddr(got) =>
      if |got| == 3 then
        var (v, m1) := c.dev.load(m, FromLittleEndian(got + [b]));
        PiStep(FetchOp, m1, [ReplyFrame(v)])
      else PiStep(GetAddr(got + [b]), m, [])
    case PutAddr(got) =>
      if |got| == 3 then PiStep(PutVal(FromLittleEndian(got + [b]), []), m, []) else PiStep(PutAddr(got + [b]), m, [])
    case PutVal(a, got) =>
      if |got| == 3 then PiStep(FetchOp, c.dev.store(m, a, FromLittleEndian(got + [b])), [])
      else PiStep(PutVal(a, got + [b]), m, [])
    case Rebooting => PiStep(Rebooting, m, [])
    case Panicked => PiStep(Panicked, m, [])
  }

  function Feed<M>(c: Config<M>, pc: PiPc, m: M, bs: seq<Byte>): PiStep<M>
    decreases |bs|
  {
    if bs == [] then PiStep(pc, m, [])
    else
      var one := PiByte(c, pc, m, bs[0]);
      var rest := Feed(c, one.pc, one.mem, bs[1..]);
      PiStep(rest.pc, rest.mem, one.frames + rest.frames)
  }

  // ---------------------------------------------------------------- the whole system

  datatype Phase = Pinging | Polling | Running

  /** What the Unix program is reading; `Mismatch` and `ShortRead` are its two panics. */
  datatype Rx =
    | Quiet
    | WaitOp(want: Byte)
    | WaitChar(want: Byte)
    | WaitWord
    | Mismatch
    | ShortRead(got: seq<Byte>)

  /** `pings` counts the pings that were not lost; `printed` is what was echoed. */
  datatype Unix = Unix(phase: Phase, pings: nat, next: nat, out: seq<Byte>, rx: Rx,
                       answers: seq<Word>, printed: seq<Byte>)

  datatype Pi<M> = Pi(pc: PiPc, mem: M, out: seq<Byte>)

  datatype State<M> = State(unix: Unix, pi: Pi<M>, toPi: seq<Byte>, toUnix: seq<Byte>)

  /** `Lose` is a byte that reaches the Pi before it is up: until it has read its first byte. */
  datatype Step = Ping | Lose | Timeout | Notice | Issue | UnixWrite | UnixRead | PiRead | PiWrite | PiPrint(ch: Byte)

  function Init<M>(c: Config<M>): State<M>
  {
    State(Unix(Pinging, 0, 0, [], Quiet, [], []), Pi(Boot, c.mem, []), [], [])
  }

  predicate Enabled<M>(c: Config<M>, s: State<M>, step: Step)
  {
    match step
    case Ping => s.unix.phase == Pinging
    case Lose => s.pi.pc == Boot && s.toPi != [] && s.unix.pings > 0
    case Timeout => s.unix.phase == Polling && s.toUnix == []
    case Notice => s.unix.phase == Polling && s.toUnix != []
    case Issue => s.unix.phase == Running && s.unix.rx == Quiet && s.unix.out == [] && s.unix.next < |c.script|
    case UnixWrite => s.unix.out != []
    case UnixRead => s.unix.out == [] && Waits(s.unix.rx) && s.toUnix != []
    case PiRead => s.pi.out == [] && s.pi.pc != Rebooting && s.pi.pc != Panicked && s.toPi != []
    case PiWrite => s.pi.out != []
    case PiPrint(_) => s.pi.pc == FetchOp
  }

  predicate Waits(rx: Rx)
  {
    rx.WaitOp? || rx.WaitChar? || rx.WaitWord?
  }

  /** One byte handled by `get_op` or `expect_op`. */
  function UnixByte(u: Unix, b: Byte): Unix
  {
    match u.rx
    case Quiet => u
    case WaitOp(e) =>
      if b == PI_PRINT_CHAR then u.(rx := WaitChar(e))
      else if b != e then u.(rx := Mismatch)
      else u.(rx := if e == PI_GET32_REPLY then WaitWord else Quiet)
    case WaitChar(e) => u.(rx := WaitOp(e), printed := u.printed + [b])
    case _ => u
  }

  /**
   One `read` on the line, which returns what is there, up to what was asked for: a byte for an
   opcode or a character, four for the word of a reply.  `read_exact` panics when it gets fewer.
   */
  function UnixReads(u: Unix, inbox: seq<Byte>): (Unix, seq<Byte>)
    requires inbox != []
  {
    if u.rx != WaitWord then (UnixByte(u, inbox[0]), inbox[1..])
    else if |inbox| < 4 then (u.(rx := ShortRead(inbox)), [])
    else (u.(rx := Quiet, answers := u.answers + [FromLittleEndian(inbox[..4])]), inbox[4..])
  }

  function Apply<M>(c: Config<M>, s: State<M>, step: Step): State<M>
    requires Enabled(c, s, step)
  {
    match step
    case Ping => s.(unix := s.unix.(phase := Polling, pings := s.unix.pings + 1), toPi := s.toPi + [PI_READY])
    case Lose => s.(unix := s.unix.(pings := s.unix.pings - 1), toPi := s.toPi[1..])
    case Timeout => s.(unix := s.unix.(phase := Pinging))
    case Notice => s.(unix := s.unix.(phase := Running, rx := WaitOp(PI_READY)))
    case Issue =>
      var call := c.script[s.unix.next];
      s.(unix := s.unix.(next := s.unix.next + 1, out := EncodeCall(call),
                         rx := if call.Get? then WaitOp(PI_GET32_REPLY) else Quiet))
    case UnixWrite => s.(unix := s.unix.(out := s.unix.out[1..]), toPi := s.toPi + [s.unix.out[0]])
    case UnixRead => s.(unix := UnixReads(s.unix, s.toUnix).0, toUnix := UnixReads(s.unix, s.toUnix).1)
    case PiRead =>
      var p := PiByte(c, s.pi.pc, s.pi.mem, s.toPi[0]);
      s.(pi := Pi(p.pc, p.mem, Encode(p.frames) + RawText(c, p.pc)), toPi := s.toPi[1..])
    case PiWrite => s.(pi := s.pi.(out := s.pi.out[1..]), toUnix := s.toUnix + [s.pi.out[0]])
    case PiPrint(ch) => s.(pi := s.pi.(out := s.pi.out + EncodeFrame(PrintFrame(ch))))
  }

  /** `steps` can be taken one after the other from `s`. */
  ghost predicate IsRun<M>(c: Config<M>, s: State<M>, steps: seq<Step>)
    decreases |steps|
  {
    steps == [] || (Enabled(c, s, steps[0]) && IsRun(c, Apply(c, s, steps[0]), steps[1..]))
  }

  function Final<M>(c: Config<M>, s: State<M>, steps: seq<Step>): State<M>
    requires IsRun(c, s, steps)
    decreases |steps|
  {
    if steps == [] then s else Final(c, Apply(c, s, steps[0]), steps[1..])
  }

  // ---------------------------------------------------------------- transducer laws

  lemma {:induction false} ScanConcat(s: Scan, xs: seq<Byte>, ys: seq<Byte>)
    ensures var (s1, f1) := ScanAll(s, xs);
            var (s2, f2) := ScanAll(s1, ys);
            ScanAll(s, xs + ys) == (s2, f1 + f2)
    decreases |xs|
  {
    if xs == [] {
      assert xs + ys == ys;
      assert [] + ScanAll(s, ys).1 == ScanAll(s, ys).1;
    } else {
      assert (xs + ys)[1..] == xs[1..] + ys;
      var (s0, f0) := ScanByte(s, xs[0]);
      ScanConcat(s0, xs[1..], ys);
      var (s1, f1) := ScanAll(s0, xs[1..]);
      assert (f0 + f1) + ScanAll(s1, ys).1 == f0 + (f1 + ScanAll(s1, ys).1);
    }
  }

  /** A byte that completes no frame just moves the reader on. */
  lemma ScanOn(s: Scan, bs: seq<Byte>)
    requires bs != [] && ScanByte(s, bs[0]).1 == []
    ensures ScanAll(s, bs) == ScanAll(ScanByte(s, bs[0]).0, bs[1..])
  {
    var rest := ScanAll(ScanByte(s, bs[0]).0, bs[1..]);
    assert [] + rest.1 == rest.1;
  }

  lemma ScanLast(s: Scan, bs: seq<Byte>)
    requires |bs| == 1
    ensures ScanAll(s, bs) == ScanByte(s, bs[0])
  {
    var one := ScanByte(s, bs[0]);
    assert one.1 + [] == one.1;
  }

  lemma ScanFrame(f: Frame)
    ensures ScanAll(AtOp, EncodeFrame(f)) == (AtOp, [f])
  {
    match f
    case ReadyFrame =>
      ScanLast(AtOp, EncodeFrame(f));
    case PrintFrame(ch) =>
      assert EncodeFrame(f)[1..] == [ch];
      ScanOn(AtOp, EncodeFrame(f));
      ScanLast(InChar, [ch]);
    case ReplyFrame(val) =>
      LittleEndianRoundTrip(val);
      assert EncodeFrame(f)[1..] == LittleEndian(val);
      ScanOn(AtOp, EncodeFrame(f));
      ScanWord(LittleEndian(val));
  }

  /** The four bytes of a word as `read_exact` collects them. */
  lemma FourBytes(w: seq<Byte>)
    requires |w| == 4
    ensures [] + [w[0]] == w[..1] && w[..1] + [w[1]] == w[..2] && w[..2] + [w[2]] == w[..3] && w[..3] + [w[3]] == w
    ensures w[1..][1..] == w[2..] && w[2..][1..] == w[3..] && w[3..][1..] == []
  {
  }

  lemma ScanWord(w: seq<Byte>)
    requires |w| == 4
    ensures ScanAll(InWord([]), w) == (AtOp, [ReplyFrame(FromLittleEndian(w))])
  {
    FourBytes(w);
    ScanOn(InWord([]), w);
    ScanOn(InWord(w[..1]), w[1..]);
    ScanOn(InWord(w[..2]), w[2..]);
    ScanLast(InWord(w[..3]), w[3..]);
  }

  /** Fewer than four bytes of a reply's word complete nothing. */
  lemma {:induction false} ScanPart(got: seq<Byte>, bs: seq<Byte>)
    requires |got| + |bs| < 4
    ensures ScanAll(InWord(got), bs) == (InWord(got + bs), [])
    decreases |bs|
  {
    if bs == [] {
      assert got + bs == got;
    } else {
      ScanOn(InWord(got), bs);
      ScanPart(got + [bs[0]], bs[1..]);
      assert got + [bs[0]] + bs[1..] == got + bs;
    }
  }

  /** Whatever the Pi writes, the Unix reader finds exactly those frames, even when a printed character is an opcode. */
  lemma {:induction false} ScanInvertsEncode(fs: seq<Frame>)
    ensures ScanAll(AtOp, Encode(fs)) == (AtOp, fs)
  {
    if fs != [] {
      ScanFrame(fs[0]);
      ScanInvertsEncode(fs[1..]);
      ScanConcat(AtOp, EncodeFrame(fs[0]), Encode(fs[1..]));
      assert [fs[0]] + fs[1..] == fs;
    }
  }

  lemma {:induction false} FeedConcat<M>(c: Config<M>, pc: PiPc, m: M, xs: seq<Byte>, ys: seq<Byte>)
    ensures var a := Feed(c, pc, m, xs);
            var b := Feed(c, a.pc, a.mem, ys);
            Feed(c, pc, m, xs + ys) == PiStep(b.pc, b.mem, a.frames + b.frames)
    decreases |xs|
  {
    if xs == [] {
      assert xs + ys == ys;
    } else {
      var one := PiByte(c, pc, m, xs[0]);
      assert (xs + ys)[1..] == xs[1..] + ys;
      FeedConcat(c, one.pc, one.mem, xs[1..], ys);
      var a := Feed(c, one.pc, one.mem, xs[1..]);
      var b := Feed(c, a.pc, a.mem, ys);
      assert (one.frames + a.frames) + b.frames == one.frames + (a.frames + b.frames);
    }
  }

  /** The Pi's reading of one whole request is the local memory's reading of the call. */
  lemma {:induction false} FeedCall<M>(c: Config<M>, m: M, call: Call)
    ensures Feed(c, FetchOp, m, EncodeCall(call)) ==
            match call
            case Put(a, v) => PiStep(FetchOp, c.dev.store(m, a, v), [])
            case Get(a) => PiStep(FetchOp, c.dev.load(m, a).1, [ReplyFrame(c.dev.load(m, a).0)])
  {
    match call
    case Get(a) =>
      var w := LittleEndian(a);
      LittleEndianRoundTrip(a);
      assert EncodeCall(call)[1..] == w;
      FeedOn(c, FetchOp, m, EncodeCall(call));
      FeedGetAddr(c, m, w);
    case Put(a, v) =>
      var w, x := LittleEndian(a), LittleEndian(v);
      LittleEndianRoundTrip(a);
      LittleEndianRoundTrip(v);
      assert EncodeCall(call)[1..] == w + x;
      FeedOn(c, FetchOp, m, EncodeCall(call));
      FeedPutAddr(c, m, w);
      FeedPutVal(c, m, a, x);
      FeedConcat(c, PutAddr([]), m, w, x);
  }

  /** A byte that makes the Pi send nothing just moves its loop on. */
  lemma FeedOn<M>(c: Config<M>, pc: PiPc, m: M, bs: seq<Byte>)
    requires bs != [] && PiByte(c, pc, m, bs[0]).frames == []
    ensures var one := PiByte(c, pc, m, bs[0]); Feed(c, pc, m, bs) == Feed(c, one.pc, one.mem, bs[1..])
  {
    var one := PiByte(c, pc, m, bs[0]);
    var rest := Feed(c, one.pc, one.mem, bs[1..]);
    assert [] + rest.frames == rest.frames;
  }

  lemma FeedLast<M>(c: Config<M>, pc: PiPc, m: M, bs: seq<Byte>)
    requires |bs| == 1
    ensures Feed(c, pc, m, bs) == PiByte(c, pc, m, bs[0])
  {
    var one := PiByte(c, pc, m, bs[0]);
    assert one.frames + [] == one.frames;
  }

  lemma FeedGetAddr<M>(c: Config<M>, m: M, w: seq<Byte>)
    requires |w| == 4
    ensures Feed(c, GetAddr([]), m, w) ==
            var (v, m1) := c.dev.load(m, FromLittleEndian(w)); PiStep(FetchOp, m1, [ReplyFrame(v)])
  {
    FourBytes(w);
    FeedOn(c, GetAddr([]), m, w);
    FeedOn(c, GetAddr(w[..1]), m, w[1..]);
    FeedOn(c, GetAddr(w[..2]), m, w[2..]);
    FeedLast(c, GetAddr(w[..3]), m, w[3..]);
  }

  lemma FeedPutAddr<M>(c: Config<M>, m: M, w: seq<Byte>)
    requires |w| == 4
    ensures Feed(c, PutAddr([]), m, w) == PiStep(PutVal(FromLittleEndian(w), []), m, [])
  {
    FourBytes(w);
    FeedOn(c, PutAddr([]), m, w);
    FeedOn(c, PutAddr(w[..1]), m, w[1..]);
    FeedOn(c, PutAddr(w[..2]), m, w[2..]);
    FeedLast(c, PutAddr(w[..3]), m, w[3..]);
  }

  lemma FeedPutVal<M>(c: Config<M>, m: M, a: Word, w: seq<Byte>)
    requires |w| == 4
    ensures Feed(c, PutVal(a, []), m, w) == PiStep(FetchOp, c.dev.store(m, a, FromLittleEndian(w)), [])
  {
    FourBytes(w);
    FeedOn(c, PutVal(a, []), m, w);
    FeedOn(c, PutVal(a, w[..1]), m, w[1..]);
    FeedOn(c, PutVal(a, w[..2]), m, w[2..]);
    FeedLast(c, PutVal(a, w[..3]), m, w[3..]);
  }

  lemma {:induction false} SubstanceConcat(xs: seq<Frame>, ys: seq<Frame>)
    ensures Substance(xs + ys) == Substance(xs) + Substance(ys)
  {
    if xs == [] {
      assert xs + ys == ys;
    } else {
      assert (xs + ys)[1..] == xs[1..] + ys;
      SubstanceConcat(xs[1..], ys);
    }
  }

  lemma {:induction false} PrintsHaveNoSubstance(text: seq<Byte>)
    ensures Substance(PrintFrames(text)) == []
  {
    if text != [] {
      PrintsHaveNoSubstance(text[1..]);
      assert PrintFrames(text)[1..] == PrintFrames(text[1..]);
    }
  }

  // ---------------------------------------------------------------- the bytes themselves

  /** What goes over the wire in both directions, byte by byte. */
  lemma {:induction false} OnTheWire(addr: Word, val: Word, ch: Byte, a: seq<Byte>, v: seq<Byte>)
    requires LowFirst(addr, a) && LowFirst(val, v)
    ensures EncodeCall(Put(addr, val)) == [14, a[0], a[1], a[2], a[3], v[0], v[1], v[2], v[3]]
    ensures EncodeCall(Get(addr)) == [15, a[0], a[1], a[2], a[3]]
    ensures EncodeFrame(ReplyFrame(val)) == [16, v[0], v[1], v[2], v[3]]
    ensures EncodeFrame(PrintFrame(ch)) == [3, ch] && EncodeFrame(ReadyFrame) == [1]
  {
    hide LowFirst;
    LowFirstIs(addr, a);
    LowFirstIs(val, v);
    hide LittleEndian;
  }

  /** What the Pi does with them: 14 stores, 15 loads and replies, 4 reboots, anything else is a panic. */
  lemma {:induction false} PiReads<M>(c: Config<M>, m: M, addr: Word, val: Word, a: seq<Byte>, v: seq<Byte>, op: Byte)
    requires LowFirst(addr, a) && LowFirst(val, v)
    ensures Feed(c, FetchOp, m, [14, a[0], a[1], a[2], a[3], v[0], v[1], v[2], v[3]]) == PiStep(FetchOp, c.dev.store(m, addr, val), [])
    ensures Feed(c, FetchOp, m, [15, a[0], a[1], a[2], a[3]]) ==
            PiStep(FetchOp, c.dev.load(m, addr).1, [ReplyFrame(c.dev.load(m, addr).0)])
    ensures op == 4 ==> Feed(c, FetchOp, m, [op]) == PiStep(Rebooting, m, PrintFrames(c.farewell))
    ensures op != 4 && op != 14 && op != 15 ==> Feed(c, FetchOp, m, [op]) == PiStep(Panicked, m, [])
  {
    OnTheWire(addr, val, 0, a, v);
    FeedCall(c, m, Put(addr, val));
    FeedCall(c, m, Get(addr));
    FeedLast(c, FetchOp, m, [op]);
    hide Feed;
    hide EncodeCall;
  }
}
