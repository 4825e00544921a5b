/**
 The loops of `fake-pi.c` and `pi-vmm.c` themselves, over the bytes received so far, tied to the
 transducers that the step machine is built from.
 */
module RemoteMemoryCode {
  import opened Words
  import opened RemoteMemory

  /** How a Unix routine ends: with a value, in one of its two panics, or waiting for the first byte. */
  datatype Outcome = Returned(val: Word) | WrongOp | CutShort | Blocked

  /** One end of the link: bytes written, bytes received and not yet read, characters echoed to the console. */
  class Port {
    var sent: seq<Byte>
    var inbox: seq<Byte>
    var console: seq<Byte>

    constructor (received: seq<Byte>)
      ensures sent == [] && inbox == received && console == []
    {
      sent, inbox, console := [], received, [];
    }

    method WriteExact(data: seq<Byte>)
      modifies this`sent
      ensures sent == old(sent) + data
    {
      for i := 0 to |data|
        invariant sent == old(sent) + data[..i]
      {
        sent := sent + [data[i]];
      }
      assert data[..|data|] == data;
    }

    /** libunix's `read_exact`: one `read` of what is there, up to `n` bytes; it panics unless that is all of them. */
    method ReadOnce(n: nat) returns (ok: bool, data: seq<Byte>)
      requires n > 0 && inbox != []
      modifies this`inbox
      ensures old(inbox) == data + inbox && |data| == (if n <= |old(inbox)| then n else |old(inbox)|)
      ensures ok <==> |data| == n
    {
      var got := if n <= |inbox| then n else |inbox|;
      data, inbox := inbox[..got], inbox[got..];
      ok := got == n;
    }

    /** The Pi's `read_exact`: up to `n` bytes, fewer only when the sender has not written more. */
    method ReadExact(n: nat) returns (data: seq<Byte>)
      modifies this`inbox
      ensures |data| == (if n <= |old(inbox)| then n else |old(inbox)|)
      ensures old(inbox) == data + inbox
    {
      data := [];
      while |data| < n && inbox != []
        invariant |data| <= n && old(inbox) == data + inbox
        decreases |inbox|
      {
        data, inbox := data + [inbox[0]], inbox[1..];
      }
    }

    /** `get_op`: echo print frames until another opcode arrives. */
    method GetOp() returns (op: Outcome)
      modifies this`inbox, this`console
      ensures var (o, text, rest) := NextOp(old(inbox)); op == o && console == old(console) + text && inbox == rest
    {
      ghost var whole, before := inbox, console;
      assert console[|before|..] + NextOp(inbox).1 == NextOp(inbox).1;
      while true
        invariant |inbox| <= |whole| && before <= console
        invariant var (o, text, rest) := NextOp(inbox); NextOp(whole) == (o, console[|before|..] + text, rest)
        decreases |inbox|
      {
        if inbox == [] {
          return Blocked;
        }
        var b := inbox[0];
        inbox := inbox[1..];
        if b != PI_PRINT_CHAR {
          return Returned(b);
        }
        if inbox == [] {
          return Blocked;
        }
        ghost var (o, text, rest) := NextOp(inbox[1..]);
        assert console[|before|..] + ([inbox[0]] + text) == (console + [inbox[0]])[|before|..] + text;
        console, inbox := console + [inbox[0]], inbox[1..];
      }
    }

    method Put32(addr: Word, val: Word)
      modifies this`sent
      ensures sent == old(sent) + EncodeCall(Put(addr, val))
    {
      WriteExact([PI_PUT32]);
      WriteExact(LittleEndian(addr));
      WriteExact(LittleEndian(val));
    }

    method Get32(addr: Word) returns (r: Outcome)
      modifies this
      ensures sent == old(sent) + EncodeCall(Get(addr))
      ensures r == GetResult(old(inbox))
    {
      WriteExact([PI_GET32]);
      WriteExact(LittleEndian(addr));
      var op := GetOp();
      if op.Blocked? {
        return Blocked;
      }
      if op != Returned(PI_GET32_REPLY) {
        return WrongOp;
      }
      if inbox == [] {
        return Blocked;
      }
      ghost var rest := inbox;
      var ok, w := ReadOnce(4);
      assert w == rest[..|w|];
      if !ok {
        return CutShort;
      }
      return Returned(FromLittleEndian(w));
    }
  }

  /** What `get_op` makes of the bytes received: the opcode, the characters echoed and the bytes left. */
  function NextOp(inbox: seq<Byte>): (Outcome, seq<Byte>, seq<Byte>)
  {
    if inbox == [] then (Blocked, [], [])
    else if inbox[0] != PI_PRINT_CHAR then (Returned(inbox[0]), [], inbox[1..])
    else if |inbox| == 1 then (Blocked, [], [])
    else
      var (o, text, rest) := NextOp(inbox[2..]);
      (o, [inbox[1]] + text, rest)
  }

  function GetResult(inbox: seq<Byte>): Outcome
  {
    var (op, _, rest) := NextOp(inbox);
    if op.Blocked? then Blocked
    else if op != Returned(PI_GET32_REPLY) then WrongOp
    else if rest == [] then Blocked
    else if |rest| < 4 then CutShort
    else Returned(FromLittleEndian(rest[..4]))
  }

  /** Any console output, opcodes among its characters included, is echoed in full before the next opcode is returned. */
  lemma {:induction false} OpFollowsConsoleOutput(text: seq<Byte>, tail: seq<Byte>)
    requires tail != [] && tail[0] != PI_PRINT_CHAR
    ensures NextOp(Encode(PrintFrames(text)) + tail) == (Returned(tail[0]), text, tail[1..])
  {
    var inbox := Encode(PrintFrames(text)) + tail;
    if text == [] {
      assert inbox == tail;
    } else {
      OpFollowsConsoleOutput(text[1..], tail);
      assert PrintFrames(text)[1..] == PrintFrames(text[1..]);
      assert inbox[2..] == Encode(PrintFrames(text[1..])) + tail;
      assert [text[0]] + text[1..] == text;
    }
  }

  lemma {:induction false} GetSkipsConsoleOutput(text: seq<Byte>, val: Word, rest: seq<Byte>)
    ensures GetResult(Encode(PrintFrames(text)) + (EncodeFrame(ReplyFrame(val)) + rest)) == Returned(val)
  {
    var tail := EncodeFrame(ReplyFrame(val)) + rest;
    OpFollowsConsoleOutput(text, tail);
    LittleEndianRoundTrip(val);
    assert tail[1..][..4] == LittleEndian(val);
  }

  /** The step machine's Unix side, reading from what has been received for as long as it waits. */
  function Receive(u: Unix, bs: seq<Byte>): Unix
    decreases |bs|
  {
    if bs == [] || !Waits(u.rx) then u else Receive(UnixReads(u, bs).0, UnixReads(u, bs).1)
  }

  /** The code of `get32` and the step machine's reader do the same with any bytes received, panics included. */
  lemma {:induction false} GetIsStepMachine(u: Unix, inbox: seq<Byte>)
    requires u.rx == WaitOp(PI_GET32_REPLY)
    ensures var r := Receive(u, inbox);
            && r.printed == u.printed + NextOp(inbox).1
            && match GetResult(inbox)
               case Returned(v) => r.rx == Quiet && r.answers == u.answers + [v]
               case WrongOp => r.rx == Mismatch && r.answers == u.answers
               case CutShort => r.rx.ShortRead? && r.answers == u.answers
               case Blocked => Waits(r.rx) && r.answers == u.answers
    decreases |inbox|
  {
    hide FromLittleEndian;
    if inbox == [] {
    } else if inbox[0] != PI_PRINT_CHAR {
      var u1, rest := UnixByte(u, inbox[0]), inbox[1..];
      if rest != [] && Waits(u1.rx) {
        assert Receive(u1, rest) == Receive(UnixReads(u1, rest).0, UnixReads(u1, rest).1) == UnixReads(u1, rest).0;
      }
    } else if |inbox| > 1 {
      var u1 := UnixByte(u, inbox[0]);
      var u2 := UnixByte(u1, inbox[1]);
      assert inbox[1..][1..] == inbox[2..];
      assert Receive(u, inbox) == Receive(u1, inbox[1..]) == Receive(u2, inbox[2..]);
      GetIsStepMachine(u2, inbox[2..]);
      assert u.printed + [inbox[1]] + NextOp(inbox[2..]).1 == u.printed + ([inbox[1]] + NextOp(inbox[2..]).1);
    } else {
      var u1 := UnixByte(u, inbox[0]);
      assert Receive(u, inbox) == Receive(u1, []);
    }
  }

  // ---------------------------------------------------------------- the Pi's opcode loop

  predicate Collecting(pc: PiPc, more: nat)
  {
    match pc
    case GetAddr(got) => |got| + more < 4
    case PutAddr(got) => |got| + more < 4
    case PutVal(_, got) => |got| + more < 4
    case _ => false
  }

  function Collect(pc: PiPc, bs: seq<Byte>): PiPc
  {
    match pc
    case GetAddr(got) => GetAddr(got + bs)
    case PutAddr(got) => PutAddr(got + bs)
    case PutVal(a, got) => PutVal(a, got + bs)
    case _ => pc
  }

  lemma CollectByte<M>(c: Config<M>, m: M, pc: PiPc, bs: seq<Byte>)
    requires bs != [] && Collecting(pc, |bs|)
    ensures PiByte(c, pc, m, bs[0]) == PiStep(Collect(pc, [bs[0]]), m, [])
    ensures Collecting(Collect(pc, [bs[0]]), |bs[1..]|)
    ensures Collect(Collect(pc, [bs[0]]), bs[1..]) == Collect(pc, bs)
  {
    assert pc.got + [bs[0]] + bs[1..] == pc.got + bs;
  }

  /** Operand bytes that do not complete a word are only collected. */
  lemma {:induction false} FeedPart<M>(c: Config<M>, m: M, pc: PiPc, bs: seq<Byte>)
    requires Collecting(pc, |bs|)
    ensures Feed(c, pc, m, bs) == PiStep(Collect(pc, bs), m, [])
    decreases |bs|
  {
    if bs == [] {
      assert pc.got + bs == pc.got;
    } else {
      CollectByte(c, m, pc, bs);
      FeedOn(c, pc, m, bs);
      FeedPart(c, m, Collect(pc, [bs[0]]), bs[1..]);
    }
  }

  lemma {:induction false} FeedStopped<M>(c: Config<M>, m: M, pc: PiPc, bs: seq<Byte>)
    requires pc == Rebooting || pc == Panicked
    ensures Feed(c, pc, m, bs) == PiStep(pc, m, [])
  {
    if bs != [] {
      FeedOn(c, pc, m, bs);
      FeedStopped(c, m, pc, bs[1..]);
    }
  }

  /** The PI_GET32 case of the loop, after its opcode. */
  method ServeGet<M>(c: Config<M>, m0: M, port: Port) returns (pc: PiPc, m: M, ghost used: seq<Byte>, ghost frames: seq<Frame>)
    modifies port`sent, port`inbox
    ensures old(port.inbox) == used + port.inbox && (pc != FetchOp ==> port.inbox == []) && pc != Panicked
    ensures Feed(c, GetAddr([]), m0, used) == PiStep(pc, m, frames)
    ensures port.sent == old(port.sent) + Encode(frames)
  {
    m, frames := m0, [];
    var a := port.ReadExact(4);
    used := a;
    if |a| < 4 {
      FeedPart(c, m0, GetAddr([]), a);
      pc := GetAddr([] + a);
    } else {
      FeedGetAddr(c, m0, a);
      var (v, m1) := c.dev.load(m0, FromLittleEndian(a));
      pc, m, frames := FetchOp, m1, [ReplyFrame(v)];
      port.WriteExact([PI_GET32_REPLY]);
      port.WriteExact(LittleEndian(v));
      assert frames[1..] == [];
    }
  }

  /** The PI_PUT32 case of the loop, after its opcode. */
  method ServePut<M>(c: Config<M>, m0: M, port: Port) returns (pc: PiPc, m: M, ghost used: seq<Byte>)
    modifies port`inbox
    ensures old(port.inbox) == used + port.inbox && (pc != FetchOp ==> port.inbox == []) && pc != Panicked
    ensures Feed(c, PutAddr([]), m0, used) == PiStep(pc, m, [])
  {
    m := m0;
    var a := port.ReadExact(4);
    used := a;
    if |a| < 4 {
      FeedPart(c, m0, PutAddr([]), a);
      pc := PutAddr([] + a);
      return;
    }
    FeedPutAddr(c, m0, a);
    var v := port.ReadExact(4);
    FeedConcat(c, PutAddr([]), m0, a, v);
    used := a + v;
    if |v| < 4 {
      FeedPart(c, m0, PutVal(FromLittleEndian(a), []), v);
      pc := PutVal(FromLittleEndian(a), [] + v);
    } else {
      FeedPutVal(c, m0, FromLittleEndian(a), v);
      pc, m := FetchOp, c.dev.store(m0, FromLittleEndian(a), FromLittleEndian(v));
    }
  }

  /** One turn of the loop in `notmain`: read an opcode and its operands, act, reply. */
  method ServeOne<M>(c: Config<M>, m0: M, port: Port) returns (pc: PiPc, m: M, ghost used: seq<Byte>, ghost frames: seq<Frame>)
    requires port.inbox != []
    modifies port`sent, port`inbox
    ensures old(port.inbox) == used + port.inbox && used != []
    ensures pc != FetchOp ==> port.inbox == [] || pc == Rebooting || pc == Panicked
    ensures Feed(c, FetchOp, m0, used) == PiStep(pc, m, frames)
    ensures port.sent == Wrote(c, old(port.sent), frames, pc)
  {
    m, frames := m0, [];
    var got := port.ReadExact(1);
    var op := got[0];
    if op == PI_GET32 {
      pc, m, used, frames := ServeGet(c, m0, port);
      FeedOn(c, FetchOp, m0, [op] + used);
      used := [op] + used;
    } else if op == PI_PUT32 {
      pc, m, used := ServePut(c, m0, port);
      FeedOn(c, FetchOp, m0, [op] + used);
      used := [op] + used;
    } else {
      used := [op];
      FeedLast(c, FetchOp, m0, used);
      if op == PI_REBOOT {
        pc, frames := Rebooting, PrintFrames(c.farewell);
        port.WriteExact(Encode(PrintFrames(c.farewell)));
      } else {
        pc := Panicked;
        port.WriteExact(PanicText(c));
      }
    }
    assert old(port.sent) + Encode(frames) + [] == old(port.sent) + Encode(frames);
    assert old(port.sent) + Encode([]) == old(port.sent);
  }

  lemma {:induction false} EncodeConcat(xs: seq<Frame>, ys: seq<Frame>)
    ensures Encode(xs + ys) == Encode(xs) + Encode(ys)
  {
    if xs == [] {
      assert xs + ys == ys;
    } else {
      assert (xs + ys)[1..] == xs[1..] + ys;
      EncodeConcat(xs[1..], ys);
    }
  }

  /** What the loop has yet to do with the bytes left completes the whole job. */
  ghost predicate Remains<M>(c: Config<M>, whole: PiStep<M>, done: PiStep<M>, left: seq<Byte>)
  {
    var rest := Feed(c, done.pc, done.mem, left);
    whole == PiStep(rest.pc, rest.mem, done.frames + rest.frames)
  }

  lemma RemainsAtStart<M>(c: Config<M>, m0: M, received: seq<Byte>)
    ensures Remains(c, Feed(c, FetchOp, m0, received), PiStep(FetchOp, m0, []), received)
  {
    var f := Feed(c, FetchOp, m0, received).frames;
    assert [] + f == f;
  }

  lemma RemainsAfterTurn<M>(c: Config<M>, whole: PiStep<M>, done: PiStep<M>, took: seq<Byte>, turn: PiStep<M>, left: seq<Byte>)
    requires done.pc == FetchOp && Remains(c, whole, done, took + left) && Feed(c, FetchOp, done.mem, took) == turn
    ensures Remains(c, whole, turn.(frames := done.frames + turn.frames), left)
  {
    hide Feed;
    FeedConcat(c, FetchOp, done.mem, took, left);
    var f := Feed(c, turn.pc, turn.mem, left).frames;
    assert done.frames + (turn.frames + f) == done.frames + turn.frames + f;
  }

  lemma NothingRemains<M>(c: Config<M>, whole: PiStep<M>, done: PiStep<M>, left: seq<Byte>)
    requires Remains(c, whole, done, left) && (left == [] || done.pc == Rebooting || done.pc == Panicked)
    ensures whole == done
  {
    if left != [] {
      FeedStopped(c, done.mem, done.pc, left);
    }
    assert done.frames + [] == done.frames;
  }

  /** What the Pi has written when the loop has sent some frames and got to `pc`. */
  function Wrote<M>(c: Config<M>, before: seq<Byte>, frames: seq<Frame>, pc: PiPc): seq<Byte>
  {
    before + Encode(frames) + RawText(c, pc)
  }

  lemma WroteMore<M>(c: Config<M>, before: seq<Byte>, xs: seq<Frame>, ys: seq<Frame>, pc: PiPc)
    ensures Wrote(c, Wrote(c, before, xs, FetchOp), ys, pc) == Wrote(c, before, xs + ys, pc)
  {
    hide Encode;
    hide PanicText;
    EncodeConcat(xs, ys);
    assert before + Encode(xs) + [] == before + Encode(xs);
    assert before + Encode(xs) + Encode(ys) == before + (Encode(xs) + Encode(ys));
  }

  lemma WroteNothing<M>(c: Config<M>, before: seq<Byte>)
    ensures Wrote(c, before, [], FetchOp) == before
  {
  }

  /** The Pi's `while(1)` on all bytes received so far does what the byte-at-a-time transducer says, and panics as raw text. */
  method Serve<M>(c: Config<M>, m0: M, port: Port) returns (pc: PiPc, m: M)
    modifies port`sent, port`inbox
    ensures var f := Feed(c, FetchOp, m0, old(port.inbox));
            pc == f.pc && m == f.mem && port.sent == Wrote(c, old(port.sent), f.frames, f.pc)
  {
    hide Wrote;
    hide Feed;
    hide Remains;
    WroteNothing(c, port.sent);
    ghost var whole := Feed(c, FetchOp, m0, port.inbox);
    RemainsAtStart(c, m0, port.inbox);
    ghost var frames: seq<Frame> := [];
    pc, m := FetchOp, m0;
    while pc == FetchOp && port.inbox != []
      invariant Remains(c, whole, PiStep(pc, m, frames), port.inbox)
      invariant port.sent == Wrote(c, old(port.sent), frames, pc)
      invariant pc != FetchOp ==> port.inbox == [] || pc == Rebooting || pc == Panicked
      decreases |port.inbox|
    {
      ghost var done := PiStep(pc, m, frames);
      ghost var took, fs;
      pc, m, took, fs := ServeOne(c, m, port);
      RemainsAfterTurn(c, whole, done, took, PiStep(pc, m, fs), port.inbox);
      WroteMore(c, old(port.sent), frames, fs, pc);
      frames := frames + fs;
    }
    NothingRemains(c, whole, PiStep(pc, m, frames), port.inbox);
  }
}
