/**
 The two lexers of libesp: the keep-everything one, which is the specification, and the one over
 the ring.  Input arrives as refills; a refill is the list of reads one `lex_readin` performs.
 */
module Lexer {
  import opened Words
  import opened ModArith
  import opened SpscRing
  import opened Circular

  type Refill = seq<seq<Byte>>

  function Flat(rs: Refill): seq<Byte>
  {
    if rs == [] then [] else Flat(rs[..|rs| - 1]) + rs[|rs| - 1]
  }

  /** `esp_read` returns at least one byte or the program panics, so every refill brings something. */
  predicate Arrivals(pending: seq<Refill>)
  {
    forall k :: 0 <= k < |pending| ==> Flat(pending[k]) != []
  }

  datatype Op = Getc | Peek | Buffered | Checkpoint | Restore(k: nat)

  datatype Obs = Char(b: Byte) | Number(n: nat) | Silent | Waits | Fails

  // ---------------------------------------------------------------- the keep-everything lexer

  datatype Simple = Simple(stream: seq<Byte>, pos: nat, marks: seq<nat>, pending: seq<Refill>)

  ghost predicate SimpleOk(s: Simple)
  {
    s.pos <= |s.stream| && (forall k :: 0 <= k < |s.marks| ==> s.marks[k] <= |s.stream|) && Arrivals(s.pending)
  }

  function SimpleReadin(s: Simple): Simple
    requires s.pending != []
  {
    s.(stream := s.stream + Flat(s.pending[0]), pending := s.pending[1..])
  }

  predicate SimpleDry(s: Simple)
  {
    s.pos >= |s.stream|
  }

  /** What getc and peek share: when nothing is buffered, wait for a refill and read it in. */
  function SimpleFill(s: Simple): (Simple, Obs)
  {
    if !SimpleDry(s) then (s, Silent)
    else if s.pending == [] then (s, Waits)
    else
      var t := SimpleReadin(s);
      (t, if SimpleDry(t) then Fails else Silent)
  }

  function SimpleStep(s: Simple, op: Op): (Simple, Obs)
  {
    match op
    case Getc =>
      var (t, o) := SimpleFill(s);
      if o != Silent then (t, o) else (t.(pos := t.pos + 1), Char(t.stream[t.pos]))
    case Peek =>
      var (t, o) := SimpleFill(s);
      if o != Silent then (t, o) else (t, Char(t.stream[t.pos]))
    case Buffered => (s, if SimpleDry(s) then Number(0) else Number(|s.stream| - s.pos))
    case Checkpoint => (s.(marks := s.marks + [s.pos]), Silent)
    case Restore(k) => (if k < |s.marks| then s.(pos := s.marks[k]) else s, Silent)
  }

  // ---------------------------------------------------------------- the ring lexer

  datatype Circ = Circ(ring: Ring, marks: seq<nat>, pending: seq<Refill>)

  predicate CircOk(c: Circ)
  {
    RingOk(c.ring) && forall k :: 0 <= k < |c.marks| ==> c.marks[k] < |c.ring.buf|
  }

  /** `lex_readin` over the ring: panics when the refill does not fit beside the slot kept free. */
  function CircReadin(c: Circ): Circ
    requires CircOk(c) && c.pending != []
  {
    c.(ring := PushedAll(c.ring, Flat(c.pending[0])), pending := c.pending[1..])
  }

  predicate CircDry(c: Circ)
  {
    c.ring.head == c.ring.tail
  }

  predicate CircOverflows(c: Circ)
  {
    CircDry(c) && c.pending != [] && |Flat(c.pending[0])| >= |c.ring.buf|
  }

  function CircFill(c: Circ): (r: (Circ, Obs))
    requires CircOk(c)
    ensures CircOk(r.0)
  {
    if !CircDry(c) then (c, Silent)
    else if c.pending == [] then (c, Waits)
    else if CircOverflows(c) then (c, Fails)
    else
      var d := CircReadin(c);
      (d, if CircDry(d) then Fails else Silent)
  }

  function CircStep(c: Circ, op: Op): (r: (Circ, Obs))
    requires CircOk(c)
    ensures CircOk(r.0)
  {
    match op
    case Getc =>
      var (d, o) := CircFill(c);
      if o != Silent then (d, o) else (d.(ring := Popped(d.ring)), Char(d.ring.buf[d.ring.tail]))
    case Peek =>
      var (d, o) := CircFill(c);
      if o != Silent then (d, o) else (d, Char(d.ring.buf[d.ring.tail]))
    case Buffered => (c, Number(Nelem(c.ring.head, c.ring.tail, |c.ring.buf|)))
    case Checkpoint => (c.(marks := c.marks + [c.ring.tail]), Silent)
    case Restore(k) => (if k < |c.marks| then c.(ring := c.ring.(tail := c.marks[k])) else c, Silent)
  }

  // ---------------------------------------------------------------- runs

  function SimpleRun(s: Simple, ops: seq<Op>): seq<Obs>
    decreases |ops|
  {
    if ops == [] then [] else var (t, o) := SimpleStep(s, ops[0]); [o] + SimpleRun(t, ops[1..])
  }

  function CircRun(c: Circ, ops: seq<Op>): seq<Obs>
    requires CircOk(c)
    decreases |ops|
  {
    if ops == [] then [] else var (d, o) := CircStep(c, ops[0]); [o] + CircRun(d, ops[1..])
  }

  /** One operation stays within what a ring of `n` slots can remember. */
  predicate FitsStep(n: nat, s: Simple, op: Op)
  {
    match op
    case Getc => SimpleDry(s) && s.pending != [] ==> |Flat(s.pending[0])| < n
    case Peek => SimpleDry(s) && s.pending != [] ==> |Flat(s.pending[0])| < n
    case Restore(k) => k < |s.marks| ==> |s.stream| - s.marks[k] < n
    case _ => true
  }

  /** Every refill, and every restored checkpoint's distance to the newest byte, is at most `n - 1`. */
  predicate Fits(n: nat, s: Simple, ops: seq<Op>)
    decreases |ops|
  {
    ops == [] || (FitsStep(n, s, ops[0]) && Fits(n, SimpleStep(s, ops[0]).0, ops[1..]))
  }

  // ---------------------------------------------------------------- the simulation

  ghost predicate Remembers(buf: seq<Byte>, stream: seq<Byte>)
    requires buf != []
  {
    forall i :: 0 <= i < |stream| < i + |buf| ==> buf[Slot(i, |buf|)] == stream[i]
  }

  ghost predicate Sim(c: Circ, s: Simple)
  {
    && CircOk(c) && SimpleOk(s)
    && |s.stream| < s.pos + |c.ring.buf|
    && c.ring.head == Slot(|s.stream|, |c.ring.buf|)
    && c.ring.tail == Slot(s.pos, |c.ring.buf|)
    && Remembers(c.ring.buf, s.stream)
    && |c.marks| == |s.marks|
    && (forall k :: 0 <= k < |s.marks| ==> c.marks[k] == Slot(s.marks[k], |c.ring.buf|))
    && c.pending == s.pending
  }

  lemma IndexIsNextSlot(i: nat, n: nat)
    requires n > 0
    ensures Index(Slot(i, n) + 1, n) == Slot(i + 1, n)
  {
    SlotSucc(i, n);
    ModNext(Slot(i, n), n);
  }

  lemma PushRemembers(q: Ring, stream: seq<Byte>, x: Byte)
    requires RingOk(q) && q.head == Slot(|stream|, |q.buf|) && Remembers(q.buf, stream)
    ensures Remembers(Pushed(q, x).buf, stream + [x])
    ensures Pushed(q, x).head == Slot(|stream| + 1, |q.buf|)
  {
    IndexIsNextSlot(|stream|, |q.buf|);
    var all, buf := stream + [x], Pushed(q, x).buf;
    forall i | 0 <= i < |all| < i + |buf|
      ensures buf[Slot(i, |buf|)] == all[i]
    {
      if i < |stream| {
        SlotDistinct(i, |stream|, |buf|);
        assert q.buf[Slot(i, |buf|)] == stream[i];
      }
    }
  }

  lemma {:induction false} PushAllRemembers(q: Ring, stream: seq<Byte>, xs: seq<Byte>)
    requires RingOk(q) && q.head == Slot(|stream|, |q.buf|) && Remembers(q.buf, stream)
    ensures Remembers(PushedAll(q, xs).buf, stream + xs)
    ensures PushedAll(q, xs).head == Slot(|stream| + |xs|, |q.buf|)
  {
    if xs == [] {
      assert stream + xs == stream;
    } else {
      var front := xs[..|xs| - 1];
      PushAllRemembers(q, stream, front);
      PushRemembers(PushedAll(q, front), stream + front, xs[|xs| - 1]);
      assert stream + front + [xs[|xs| - 1]] == stream + xs;
    }
  }

  /** Either both lexers have run dry or neither has. */
  lemma DryTogether(c: Circ, s: Simple)
    requires Sim(c, s)
    ensures CircDry(c) <==> SimpleDry(s)
    ensures !SimpleDry(s) ==> c.ring.buf[c.ring.tail] == s.stream[s.pos]
  {
    if s.pos < |s.stream| {
      SlotDistinct(s.pos, |s.stream|, |c.ring.buf|);
      assert c.ring.buf[Slot(s.pos, |c.ring.buf|)] == s.stream[s.pos];
    }
  }

  lemma ReadinKeepsSim(c: Circ, s: Simple)
    requires Sim(c, s) && SimpleDry(s) && s.pending != [] && |Flat(s.pending[0])| < |c.ring.buf|
    ensures Sim(CircReadin(c), SimpleReadin(s)) && !SimpleDry(SimpleReadin(s))
  {
    PushAllRemembers(c.ring, s.stream, Flat(s.pending[0]));
  }

  lemma PopKeepsSim(c: Circ, s: Simple)
    requires Sim(c, s) && !SimpleDry(s)
    ensures Sim(c.(ring := Popped(c.ring)), s.(pos := s.pos + 1))
  {
    IndexIsNextSlot(s.pos, |c.ring.buf|);
  }

  lemma BufferedAgrees(c: Circ, s: Simple)
    requires Sim(c, s)
    ensures Nelem(c.ring.head, c.ring.tail, |c.ring.buf|) == |s.stream| - s.pos
  {
    ModOfWrapped(c.ring.head - c.ring.tail, |c.ring.buf|, 0x1_0000_0000);
    SlotDistance(s.pos, |s.stream|, |c.ring.buf|);
  }

  lemma FillAgrees(c: Circ, s: Simple)
    requires Sim(c, s) && FitsStep(|c.ring.buf|, s, Peek)
    ensures CircFill(c).1 == SimpleFill(s).1
    ensures Sim(CircFill(c).0, SimpleFill(s).0) && |CircFill(c).0.ring.buf| == |c.ring.buf|
    ensures SimpleFill(s).1 == Silent ==>
              CircFill(c).0.ring.buf[CircFill(c).0.ring.tail] == SimpleFill(s).0.stream[SimpleFill(s).0.pos]
  {
    DryTogether(c, s);
    if SimpleDry(s) && s.pending != [] {
      ReadinKeepsSim(c, s);
      DryTogether(CircReadin(c), SimpleReadin(s));
    }
  }

  lemma SimOk(c: Circ, s: Simple)
    requires Sim(c, s)
    ensures CircOk(c)
  {
  }

  lemma FilledNotDry(s: Simple)
    requires SimpleFill(s).1 == Silent
    ensures !SimpleDry(SimpleFill(s).0)
  {
  }

  lemma GetcAgrees(c: Circ, s: Simple)
    requires Sim(c, s) && FitsStep(|c.ring.buf|, s, Getc)
    ensures CircStep(c, Getc).1 == SimpleStep(s, Getc).1
    ensures Sim(CircStep(c, Getc).0, SimpleStep(s, Getc).0)
    ensures |CircStep(c, Getc).0.ring.buf| == |c.ring.buf|
  {
    SimOk(c, s);
    hide Sim;
    hide SimpleFill;
    hide CircFill;
    FillAgrees(c, s);
    if SimpleFill(s).1 == Silent {
      FilledNotDry(s);
      PopKeepsSim(CircFill(c).0, SimpleFill(s).0);
    }
  }

  lemma {:induction false} StepAgrees(c: Circ, s: Simple, op: Op)
    requires Sim(c, s) && FitsStep(|c.ring.buf|, s, op)
    ensures CircStep(c, op).1 == SimpleStep(s, op).1
    ensures Sim(CircStep(c, op).0, SimpleStep(s, op).0)
    ensures |CircStep(c, op).0.ring.buf| == |c.ring.buf|
  {
    DryTogether(c, s);
    match op {
      case Buffered => BufferedAgrees(c, s);
      case Checkpoint =>
      case Restore(_) =>
      case Peek => FillAgrees(c, s);
      case Getc => GetcAgrees(c, s);
    }
  }

  /**
   For any chunking of the input and any sequence of getc, peek, count, checkpoint and restore, the
   ring lexer returns what the keep-everything lexer returns, as long as nothing it is asked to
   remember is more than one slot short of the ring.
   */
  lemma {:induction false} RingLexerRefines(c: Circ, s: Simple, ops: seq<Op>)
    requires Sim(c, s) && Fits(|c.ring.buf|, s, ops)
    ensures CircRun(c, ops) == SimpleRun(s, ops)
    decreases |ops|
  {
    if ops != [] {
      StepAgrees(c, s, ops[0]);
      RingLexerRefines(CircStep(c, ops[0]).0, SimpleStep(s, ops[0]).0, ops[1..]);
    }
  }

  /** A restore or refill beyond the ring is visible at once, in its own result or the next count. */
  lemma {:induction false} OverrunIsVisible(c: Circ, s: Simple, op: Op)
    requires Sim(c, s) && !FitsStep(|c.ring.buf|, s, op)
    ensures CircRun(c, [op, Buffered]) != SimpleRun(s, [op, Buffered])
  {
    DryTogether(c, s);
    var (d, o) := CircStep(c, op);
    var (t, p) := SimpleStep(s, op);
    assert [op, Buffered][1..] == [Buffered];
    assert CircRun(c, [op, Buffered])[0] == o && SimpleRun(s, [op, Buffered])[0] == p;
    if op.Restore? {
      assert CircRun(d, [Buffered])[0] == Number(Nelem(d.ring.head, d.ring.tail, |d.ring.buf|));
      assert SimpleRun(t, [Buffered])[0] == Number(|t.stream| - t.pos);
      assert CircRun(c, [op, Buffered])[1] == CircRun(d, [Buffered])[0];
      assert SimpleRun(s, [op, Buffered])[1] == SimpleRun(t, [Buffered])[0];
    }
  }

  ghost predicate AgreesThroughout(c: Circ, s: Simple, ops: seq<Op>)
    requires CircOk(c)
  {
    forall i :: 0 <= i <= |ops| ==> CircRun(c, ops[..i] + [Buffered]) == SimpleRun(s, ops[..i] + [Buffered])
  }

  lemma AgreesAfterStep(c: Circ, s: Simple, ops: seq<Op>)
    requires CircOk(c) && ops != [] && AgreesThroughout(c, s, ops)
    ensures AgreesThroughout(CircStep(c, ops[0]).0, SimpleStep(s, ops[0]).0, ops[1..])
  {
    var d, t := CircStep(c, ops[0]).0, SimpleStep(s, ops[0]).0;
    forall i | 0 <= i <= |ops[1..]|
      ensures CircRun(d, ops[1..][..i] + [Buffered]) == SimpleRun(t, ops[1..][..i] + [Buffered])
    {
      var all := ops[..i + 1] + [Buffered];
      assert all[1..] == ops[1..][..i] + [Buffered];
      assert CircRun(c, all) == SimpleRun(s, all);
      assert CircRun(c, all)[1..] == CircRun(d, all[1..]) && SimpleRun(s, all)[1..] == SimpleRun(t, all[1..]);
    }
  }

  /** The fitting condition is exact: it holds just when no prefix of the operations betrays the ring. */
  lemma {:induction false} RefinesIffFits(c: Circ, s: Simple, ops: seq<Op>)
    requires Sim(c, s)
    ensures Fits(|c.ring.buf|, s, ops) <==> AgreesThroughout(c, s, ops)
    decreases |ops|
  {
    if Fits(|c.ring.buf|, s, ops) {
      forall i | 0 <= i <= |ops|
        ensures CircRun(c, ops[..i] + [Buffered]) == SimpleRun(s, ops[..i] + [Buffered])
      {
        FitsPrefix(|c.ring.buf|, s, ops, i);
        RingLexerRefines(c, s, ops[..i] + [Buffered]);
      }
    } else if !FitsStep(|c.ring.buf|, s, ops[0]) {
      OverrunIsVisible(c, s, ops[0]);
      assert ops[..1] + [Buffered] == [ops[0], Buffered];
    } else {
      StepAgrees(c, s, ops[0]);
      var d, t := CircStep(c, ops[0]).0, SimpleStep(s, ops[0]).0;
      RefinesIffFits(d, t, ops[1..]);
      if AgreesThroughout(c, s, ops) {
        AgreesAfterStep(c, s, ops);
      }
    }
  }

  lemma {:induction false} FitsPrefix(n: nat, s: Simple, ops: seq<Op>, i: nat)
    requires Fits(n, s, ops) && i <= |ops|
    ensures Fits(n, s, ops[..i] + [Buffered])
    decreases |ops|
  {
    if i > 0 {
      hide SimpleStep;
      hide FitsStep;
      FitsPrefix(n, SimpleStep(s, ops[0]).0, ops[1..], i - 1);
      assert (ops[..i] + [Buffered])[1..] == ops[1..][..i - 1] + [Buffered];
    }
  }

  /** Two lexers fresh from their init functions, about to receive the same input, are in step. */
  lemma {:induction false} StartInStep(buf: seq<Byte>, pending: seq<Refill>)
    requires RingSize(|buf|) && Arrivals(pending)
    ensures Sim(Circ(Ring(buf, 0, 0), [], pending), Simple([], 0, [], pending))
  {
  }

  /** A ring of two slots, two refills of one byte, and a checkpoint held over both of them. */
  lemma {:induction false} RingForgets()
    ensures var pending: seq<Refill> := [[[1]], [[2]]];
            var c, s := Circ(Ring([0, 0], 0, 0), [], pending), Simple([], 0, [], pending);
            var ops := [Checkpoint, Getc, Getc, Restore(0)];
            Sim(c, s) && !Fits(2, s, ops) && !AgreesThroughout(c, s, ops)
  {
    hide Fits;
    hide AgreesThroughout;
    hide Sim;
    var pending: seq<Refill> := [[[1]], [[2]]];
    OneByte(1);
    OneByte(2);
    StartInStep([0, 0], pending);
    CheckpointTooOld(pending);
    RefinesIffFits(Circ(Ring([0, 0], 0, 0), [], pending), Simple([], 0, [], pending), [Checkpoint, Getc, Getc, Restore(0)]);
  }

  lemma OneByte(b: Byte)
    ensures Flat([[b]]) == [b]
  {
    var none: Refill := [];
    assert [[b]][..0] == none && Flat(none) == [];
  }

  lemma CheckpointTooOld(pending: seq<Refill>)
    requires pending == [[[1]], [[2]]]
    ensures !Fits(2, Simple([], 0, [], pending), [Checkpoint, Getc, Getc, Restore(0)])
  {
    hide Fits;
    hide Flat;
    OneByte(1);
    OneByte(2);
    var rest := pending[1..];
    assert rest[0] == [[2]] && rest[1..] == [];
    var s, s1 := Simple([], 0, [], pending), Simple([], 0, [0], pending);
    var s2, s3 := Simple([1], 1, [0], rest), Simple([1, 2], 2, [0], []);
    assert SimpleStep(s, Checkpoint).0 == s1;
    assert SimpleStep(s1, Getc).0 == s2;
    assert SimpleStep(s2, Getc).0 == s3;
    FitsNext(2, s, Checkpoint, [Getc, Getc, Restore(0)]);
    FitsNext(2, s1, Getc, [Getc, Restore(0)]);
    FitsNext(2, s2, Getc, [Restore(0)]);
    FitsFirst(2, s3, Restore(0), []);
    assert [Checkpoint] + [Getc, Getc, Restore(0)] == [Checkpoint, Getc, Getc, Restore(0)];
    assert [Getc] + [Getc, Restore(0)] == [Getc, Getc, Restore(0)] && [Getc] + [Restore(0)] == [Getc, Restore(0)];
    assert [Restore(0)] + [] == [Restore(0)];
  }

  lemma FitsNext(n: nat, s: Simple, op: Op, ops: seq<Op>)
    ensures Fits(n, s, [op] + ops) ==> Fits(n, SimpleStep(s, op).0, ops)
  {
    assert ([op] + ops)[1..] == ops;
  }

  lemma FitsFirst(n: nat, s: Simple, op: Op, ops: seq<Op>)
    ensures Fits(n, s, [op] + ops) ==> FitsStep(n, s, op)
  {
  }
}
