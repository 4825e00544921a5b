/**
 The lock-free ring of `circular.h` with one producer and one consumer, interleaved at every read
 and write of a shared field.  `pushed`, `popped`, `sure` and the `seen` counts are history variables; no
 step's effect on the shared fields or the local variables depends on them.
 */
module SpscRing {
  import opened Words
  import opened ModArith

  /**
   Where the producer is.  `Space*` is the `cq_nspace` of `cq_push_n`; the rest is one `cq_push` with
   `xs` still to push.  With `must` it runs under `cq_push_n`, which panics when it finds the queue
   full; `sure` says that its count left the slot free that must stay free.  `Closing*` is the
   assertion with which a `cq_push_n` of at least one element ends, that the queue is not empty.
   */
  datatype Producer =
    | Idle
    | SpaceStart(xs: seq<Byte>)
    | SpaceHeadRead(xs: seq<Byte>, h: nat)
    | PushStart(xs: seq<Byte>, must: bool, sure: bool)
    | HeadRead(xs: seq<Byte>, must: bool, sure: bool, h: nat)
    | FullHeadRead(xs: seq<Byte>, must: bool, sure: bool, h: nat, h2: nat)
    | SlotWrite(xs: seq<Byte>, must: bool, sure: bool, h: nat)
    | HeadWrite(xs: seq<Byte>, must: bool, sure: bool, h: nat)
    | Stuffed(sure: bool)
    | ClosingStart
    | ClosingHeadRead(h: nat)
    | Drained

  /**
   Where the consumer is.  `Count*` is the `cq_nelem` of `cq_pop_n_noblk`; the rest is one
   `cq_pop_nonblock` with `k` elements still to pop.  With `must` it runs under `cq_pop`, which
   panics when it finds the queue empty.
   */
  datatype Consumer =
    | Resting
    | CountStart(n: nat)
    | CountHeadRead(n: nat, h: nat, seen: nat)
    | PopStart(k: nat, must: bool)
    | EmptyHeadRead(k: nat, must: bool, h: nat, seen: nat)
    | TailRead(k: nat, must: bool)
    | SlotRead(k: nat, must: bool, t: nat)
    | TailWrite(k: nat, must: bool, t: nat, e: Byte)
    | Panic

  datatype State = State(buf: seq<Byte>, head: nat, tail: nat, prod: Producer, cons: Consumer,
                         pushed: seq<Byte>, popped: seq<Byte>)

  datatype Step = BeginPush(x: Byte) | BeginPushN(xs: seq<Byte>) | Produce | BeginPopN(n: nat) | BeginTryPop | Consume

  /** The ring size the header is compiled for: any that the 32-bit index arithmetic respects. */
  predicate RingSize(n: nat)
  {
    n > 0 && 0x1_0000_0000 % n == 0
  }

  /** `cq_nelem` on the two values read: unsigned 32-bit subtraction, then the remainder. */
  function Nelem(head: nat, tail: nat, n: nat): nat
    requires n > 0
  {
    ((head - tail) % 0x1_0000_0000) % n
  }

  function Init(buf: seq<Byte>): State
  {
    State(buf, 0, 0, Idle, Resting, [], [])
  }

  predicate Enabled(s: State, step: Step)
  {
    match step
    case BeginPush(_) => s.prod == Idle
    case BeginPushN(_) => s.prod == Idle
    case Produce => s.prod != Idle && !s.prod.Stuffed? && s.prod != Drained
    case BeginPopN(_) => s.cons == Resting
    case BeginTryPop => s.cons == Resting
    case Consume => s.cons != Resting && s.cons != Panic
  }

  function Produced(s: State): State
    requires s.buf != []
  {
    var n := |s.buf|;
    match s.prod
    case Idle => s
    case SpaceStart(xs) => s.(prod := SpaceHeadRead(xs, s.head))
    case SpaceHeadRead(xs, h) =>
      var k := Nelem(h, s.tail, n);
      s.(prod := if n - k < |xs| then Idle else PushStart(xs, true, |xs| < n - k))
    case PushStart(xs, must, sure) => s.(prod := if xs == [] then Idle else HeadRead(xs, must, sure, s.head))
    case HeadRead(xs, must, sure, h) => s.(prod := FullHeadRead(xs, must, sure, h, s.head))
    case FullHeadRead(xs, must, sure, h, h2) =>
      s.(prod := if (h2 + 1) % n != s.tail then SlotWrite(xs, must, sure, h) else if must then Stuffed(sure) else Idle)
    case SlotWrite(xs, must, sure, h) =>
      if h < n && xs != [] then s.(buf := s.buf[h := xs[0]], prod := HeadWrite(xs, must, sure, h)) else s
    case HeadWrite(xs, must, sure, h) =>
      if xs != [] then
        s.(head := (h + 1) % n, pushed := s.pushed + [xs[0]],
           prod := if must && |xs| == 1 then ClosingStart else PushStart(xs[1..], must, sure))
      else s
    case Stuffed(_) => s
    case ClosingStart => s.(prod := ClosingHeadRead(s.head))
    case ClosingHeadRead(h) => s.(prod := if h == s.tail then Drained else Idle)
    case Drained => s
  }

  function Consumed(s: State): State
    requires s.buf != []
  {
    var n := |s.buf|;
    match s.cons
    case Resting => s
    case CountStart(k) => s.(cons := CountHeadRead(k, s.head, |s.pushed|))
    case CountHeadRead(k, h, _) =>
      s.(cons := if Nelem(h, s.tail, n) < k then Resting else PopStart(k, true))
    case PopStart(k, must) =>
      s.(cons := if k == 0 then Resting else EmptyHeadRead(k, must, s.head, |s.pushed|))
    case EmptyHeadRead(k, must, h, _) =>
      s.(cons := if h != s.tail then TailRead(k, must) else if must then Panic else Resting)
    case TailRead(k, must) => s.(cons := SlotRead(k, must, s.tail))
    case SlotRead(k, must, t) => if t < n then s.(cons := TailWrite(k, must, t, s.buf[t])) else s
    case TailWrite(k, must, t, e) =>
      s.(tail := (t + 1) % n, cons := PopStart(if k > 0 then k - 1 else 0, must), popped := s.popped + [e])
    case Panic => s
  }

  function Apply(s: State, step: Step): State
    requires s.buf != []
  {
    match step
    case BeginPush(x) => s.(prod := PushStart([x], false, false))
    case BeginPushN(xs) => s.(prod := SpaceStart(xs))
    case Produce => Produced(s)
    case BeginPopN(n) => s.(cons := CountStart(n))
    case BeginTryPop => s.(cons := PopStart(1, false))
    case Consume => Consumed(s)
  }

  ghost predicate IsRun(s: State, steps: seq<Step>)
    requires s.buf != []
    decreases |steps|
  {
    steps == [] || (Enabled(s, steps[0]) && IsRun(Apply(s, steps[0]), steps[1..]))
  }

  function Final(s: State, steps: seq<Step>): State
    requires s.buf != [] && IsRun(s, steps)
    decreases |steps|
  {
    if steps == [] then s else Final(Apply(s, steps[0]), steps[1..])
  }

  // ---------------------------------------------------------------- the invariant

  /** The elements between the two indices, as `cq_nelem` counts them, oldest first. */
  ghost function Stored(s: State): seq<Byte>
    requires s.buf != []
  {
    seq(Nelem(s.head, s.tail, |s.buf|), i requires 0 <= i => s.buf[(s.tail + i) % |s.buf|])
  }

  ghost predicate Shared(s: State)
  {
    && RingSize(|s.buf|)
    && |s.popped| <= |s.pushed| < |s.popped| + |s.buf|
    && s.popped == s.pushed[..|s.popped|]
    && s.head == Slot(|s.pushed|, |s.buf|)
    && s.tail == Slot(|s.popped|, |s.buf|)
    && forall i :: |s.popped| <= i < |s.pushed| ==> s.buf[Slot(i, |s.buf|)] == s.pushed[i]
  }

  ghost predicate ProducerOk(s: State)
    requires s.buf != []
  {
    match s.prod
    case Idle => true
    case SpaceStart(_) => true
    case SpaceHeadRead(_, h) => h == s.head
    case PushStart(xs, _, sure) => sure ==> RoomFor(s, |xs|)
    case HeadRead(xs, _, sure, h) => xs != [] && h == s.head && (sure ==> RoomFor(s, |xs|))
    case FullHeadRead(xs, _, sure, h, h2) => xs != [] && h == s.head && h2 == s.head && (sure ==> RoomFor(s, |xs|))
    case SlotWrite(xs, _, sure, h) => xs != [] && h == s.head && RoomFor(s, 1) && (sure ==> RoomFor(s, |xs|))
    case HeadWrite(xs, _, sure, h) =>
      && xs != [] && h == s.head && RoomFor(s, 1) && (sure ==> RoomFor(s, |xs|))
      && h < |s.buf| && s.buf[h] == xs[0]
    case Stuffed(sure) => !sure
    case ClosingStart => true
    case ClosingHeadRead(h) => h == s.head
    case Drained => true
  }

  /** `k` more elements fit beside the slot that stays free; only the producer can make this false. */
  ghost predicate RoomFor(s: State, k: nat)
  {
    |s.pushed| + k < |s.popped| + |s.buf|
  }

  /** A head read some time ago still bounds the elements present from below. */
  ghost predicate SeenOk(s: State, h: nat, seen: nat)
    requires s.buf != []
  {
    |s.popped| <= seen <= |s.pushed| && h == Slot(seen, |s.buf|)
  }

  ghost predicate ConsumerOk(s: State)
    requires s.buf != []
  {
    match s.cons
    case Resting => true
    case CountStart(_) => true
    case CountHeadRead(_, h, seen) => SeenOk(s, h, seen)
    case PopStart(k, must) => must ==> |s.popped| + k <= |s.pushed|
    case EmptyHeadRead(k, must, h, seen) => k > 0 && SeenOk(s, h, seen) && (must ==> |s.popped| + k <= seen)
    case TailRead(k, must) => 0 < k && |s.popped| < |s.pushed| && (must ==> |s.popped| + k <= |s.pushed|)
    case SlotRead(k, must, t) =>
      0 < k && t == s.tail && |s.popped| < |s.pushed| && (must ==> |s.popped| + k <= |s.pushed|)
    case TailWrite(k, must, t, e) =>
      && 0 < k && t == s.tail && |s.popped| < |s.pushed| && e == s.pushed[|s.popped|]
      && (must ==> |s.popped| + k <= |s.pushed|)
    case Panic => false
  }

  ghost predicate Inv(s: State)
  {
    Shared(s) && ProducerOk(s) && ConsumerOk(s)
  }

  /** The slot the producer fills is not one of the unread ones, so nothing unread is lost. */
  lemma WriteMissesUnread(s: State)
    requires Inv(s) && (s.prod.SlotWrite? || s.prod.HeadWrite?)
    ensures s.prod.h < |s.buf|
    ensures forall i :: |s.popped| <= i < |s.pushed| ==> Slot(i, |s.buf|) != s.prod.h
  {
    assert s.prod.h == Slot(|s.pushed|, |s.buf|);
    SlotsDistinct(|s.popped|, |s.pushed|, |s.buf|);
  }

  lemma SlotsDistinct(q: nat, p: nat, n: nat)
    requires n > 0 && p < q + n
    ensures forall i :: q <= i < p ==> Slot(i, n) != Slot(p, n)
  {
    forall i | q <= i < p
      ensures Slot(i, n) != Slot(p, n)
    {
      SlotDistinct(i, p, n);
    }
  }

  lemma SlotWriteKeeps(s: State)
    requires Inv(s) && s.prod.SlotWrite?
    ensures Inv(Produced(s))
  {
    WriteMissesUnread(s);
    var t := Produced(s);
    assert forall i :: |t.popped| <= i < |t.pushed| ==> s.pushed[i] == t.pushed[i];
    if s.cons.TailWrite? {
      assert t.cons.e == t.pushed[|t.popped|];
    }
    assert Shared(t) && ConsumerOk(t);
  }

  lemma HeadWriteShared(s: State)
    requires Shared(s) && ProducerOk(s) && s.prod.HeadWrite?
    ensures Shared(Produced(s))
  {
    var t := Produced(s);
    SlotSucc(|s.pushed|, |s.buf|);
    assert t.head == Slot(|t.pushed|, |t.buf|);
    assert t.popped == t.pushed[..|t.popped|];
    assert t.pushed[|s.pushed|] == s.prod.xs[0];
  }

  lemma HeadWriteKeeps(s: State)
    requires Inv(s) && s.prod.HeadWrite?
    ensures Inv(Produced(s))
  {
    HeadWriteShared(s);
    assert ConsumerOk(Produced(s));
  }

  /** A tail read some time ago still bounds the space from below: the count is right when it is made and stays safe. */
  lemma {:induction false} SpaceCountKeeps(s: State)
    requires Inv(s) && s.prod.SpaceHeadRead?
    ensures Inv(Produced(s))
  {
    CountIsExact(s, s.head, |s.pushed|);
    assert ConsumerOk(Produced(s));
  }

  /** Under a `cq_push_n` whose count left the free slot alone, the fullness test cannot succeed. */
  lemma {:induction false} FullTestKeeps(s: State)
    requires Inv(s) && s.prod.FullHeadRead?
    ensures Inv(Produced(s))
  {
    FullTestExact(s);
    assert ConsumerOk(Produced(s));
  }

  lemma FullTestExact(s: State)
    requires Shared(s)
    ensures (s.head + 1) % |s.buf| == s.tail <==> !RoomFor(s, 1)
  {
    var n, p, q := |s.buf|, |s.pushed|, |s.popped|;
    SlotSucc(p, n);
    if p + 1 < q + n {
      SlotDistinct(q, p + 1, n);
    } else {
      assert Slot(q + n, n) == Slot(q, n);
    }
  }

  lemma ProducedKeeps(s: State)
    requires Inv(s)
    ensures Inv(Produced(s))
  {
    if s.prod.SlotWrite? {
      SlotWriteKeeps(s);
    } else if s.prod.HeadWrite? {
      HeadWriteKeeps(s);
    } else if s.prod.FullHeadRead? {
      FullTestKeeps(s);
    } else if s.prod.SpaceHeadRead? {
      SpaceCountKeeps(s);
    } else {
      assert ConsumerOk(Produced(s));
    }
  }

  /** What `cq_nelem` computes from a possibly stale head: exactly the elements between it and the tail. */
  lemma {:induction false} CountIsExact(s: State, h: nat, seen: nat)
    requires Shared(s) && SeenOk(s, h, seen)
    ensures Nelem(h, s.tail, |s.buf|) == seen - |s.popped|
  {
    ModOfWrapped(h - s.tail, |s.buf|, 0x1_0000_0000);
    SlotDistance(|s.popped|, seen, |s.buf|);
  }

  lemma CountKeeps(s: State)
    requires Inv(s) && (s.cons.CountStart? || s.cons.CountHeadRead?)
    ensures Inv(Consumed(s))
  {
    if s.cons.CountHeadRead? {
      CountIsExact(s, s.cons.h, s.cons.seen);
    }
    assert ProducerOk(Consumed(s));
  }

  /** Under `cq_pop_n_noblk` the emptiness test cannot succeed, so `cq_pop` does not panic. */
  lemma {:induction false} EmptyTestKeeps(s: State)
    requires Inv(s) && s.cons.EmptyHeadRead?
    ensures Inv(Consumed(s))
  {
    var h, seen := s.cons.h, s.cons.seen;
    if |s.popped| < seen {
      SlotDistinct(|s.popped|, seen, |s.buf|);
    }
    assert ProducerOk(Consumed(s));
  }

  lemma SlotReadKeeps(s: State)
    requires Inv(s) && s.cons.SlotRead?
    ensures Inv(Consumed(s))
  {
    assert s.buf[Slot(|s.popped|, |s.buf|)] == s.pushed[|s.popped|];
    assert ProducerOk(Consumed(s));
  }

  lemma TailWriteKeeps(s: State)
    requires Inv(s) && s.cons.TailWrite?
    ensures Inv(Consumed(s))
  {
    var t := Consumed(s);
    SlotSucc(|s.popped|, |s.buf|);
    assert t.popped == t.pushed[..|t.popped|];
    assert ProducerOk(t);
  }

  lemma ConsumedKeeps(s: State)
    requires Inv(s)
    ensures Inv(Consumed(s))
  {
    if s.cons.CountStart? || s.cons.CountHeadRead? {
      CountKeeps(s);
    } else if s.cons.EmptyHeadRead? {
      EmptyTestKeeps(s);
    } else if s.cons.SlotRead? {
      SlotReadKeeps(s);
    } else if s.cons.TailWrite? {
      TailWriteKeeps(s);
    } else {
      assert ProducerOk(Consumed(s));
    }
  }

  /** The closing assertion fires exactly when the consumer has popped everything by the time the tail is read. */
  lemma {:induction false} ClosingFiresIff(s: State)
    requires Inv(s) && s.prod.ClosingHeadRead?
    ensures Produced(s).prod == Drained <==> |s.popped| == |s.pushed|
  {
    if |s.popped| < |s.pushed| {
      SlotDistinct(|s.popped|, |s.pushed|, |s.buf|);
    }
  }

  lemma {:induction false} StepKeeps(s: State, step: Step)
    requires Inv(s) && Enabled(s, step)
    ensures Inv(Apply(s, step))
  {
    match step
    case Produce => ProducedKeeps(s);
    case Consume => ConsumedKeeps(s);
    case BeginPush(_) => assert ConsumerOk(Apply(s, step));
    case BeginPushN(_) => assert ConsumerOk(Apply(s, step));
    case BeginPopN(_) => assert ProducerOk(Apply(s, step));
    case BeginTryPop => assert ProducerOk(Apply(s, step));
  }

  lemma {:induction false} RunKeeps(s: State, steps: seq<Step>)
    requires Inv(s) && IsRun(s, steps)
    ensures Inv(Final(s, steps))
    decreases |steps|
  {
    if steps != [] {
      StepKeeps(s, steps[0]);
      RunKeeps(Apply(s, steps[0]), steps[1..]);
    }
  }

  lemma StoredIsUnread(s: State)
    requires Shared(s)
    ensures Stored(s) == s.pushed[|s.popped|..]
  {
    CountIsExact(s, s.head, |s.pushed|);
    assert |Stored(s)| == |s.pushed| - |s.popped|;
    forall i | 0 <= i < |Stored(s)|
      ensures Stored(s)[i] == s.pushed[|s.popped|..][i]
    {
      SlotAdd(|s.popped|, i, |s.buf|);
      assert s.buf[Slot(|s.popped| + i, |s.buf|)] == s.pushed[|s.popped| + i];
    }
  }

  /**
   For every interleaving: what was popped followed by what is stored is exactly what was pushed,
   at most one slot short of the ring is ever in use, a `cq_pop_n_noblk` that passed its count test
   never meets the empty-queue panic, and a `cq_push_n` asked for at most CQ_N - 1 - nelem elements
   never meets the full-queue panic.
   */
  lemma {:induction false} NothingLostOrReordered(buf: seq<Byte>, steps: seq<Step>)
    requires RingSize(|buf|) && IsRun(Init(buf), steps)
    ensures var s := Final(Init(buf), steps);
            && s.buf != []
            && s.popped + Stored(s) == s.pushed
            && |Stored(s)| < |s.buf| == |buf|
            && s.cons != Panic && s.prod != Stuffed(true)
  {
    var s := Final(Init(buf), steps);
    RunKeeps(Init(buf), steps);
    BufLength(Init(buf), steps);
    StoredIsUnread(s);
    assert s.pushed[..|s.popped|] + s.pushed[|s.popped|..] == s.pushed;
  }

  lemma {:induction false} BufLength(s: State, steps: seq<Step>)
    requires s.buf != [] && IsRun(s, steps)
    ensures |Final(s, steps).buf| == |s.buf|
    decreases |steps|
  {
    if steps != [] {
      BufLength(Apply(s, steps[0]), steps[1..]);
    }
  }

  /** No write of the producer hits a slot whose element has not been popped. */
  lemma {:induction false} NoUnreadSlotOverwritten(buf: seq<Byte>, steps: seq<Step>, i: nat)
    requires RingSize(|buf|) && IsRun(Init(buf), steps)
    requires var s := Final(Init(buf), steps); s.prod.SlotWrite? && |s.popped| <= i < |s.pushed|
    ensures var s := Final(Init(buf), steps);
            s.buf != [] && Slot(i, |s.buf|) != s.prod.h && Produced(s).buf[Slot(i, |s.buf|)] == s.pushed[i]
  {
    var s := Final(Init(buf), steps);
    RunKeeps(Init(buf), steps);
    WriteMissesUnread(s);
    assert s.buf[Slot(i, |s.buf|)] == s.pushed[i];
  }

  /** The count is right for every pair of indices exactly when the ring size divides 2^32. */
  lemma {:induction false} NelemExactIffSizeDivides(n: nat)
    requires n > 0
    ensures (forall h, t :: 0 <= h < n && 0 <= t < n ==> Nelem(h, t, n) == if h >= t then h - t else h - t + n)
            <==> RingSize(n)
  {
    if RingSize(n) {
      forall h, t | 0 <= h < n && 0 <= t < n
        ensures Nelem(h, t, n) == if h >= t then h - t else h - t + n
      {
        ModOfWrapped(h - t, n, 0x1_0000_0000);
        if h >= t {
          ModUnique(h - t, 0, h - t, n);
        } else {
          ModUnique(h - t, -1, h - t + n, n);
        }
      }
    } else if n == 1 {
      ModUnique(0x1_0000_0000, 0x1_0000_0000, 0, 1);
    } else if Nelem(0, 1, n) == n - 1 {
      var q := 0xFFFF_FFFF / n;
      assert 0xFFFF_FFFF == q * n + (n - 1);
      assert 0x1_0000_0000 == (q + 1) * n + 0;
      ModUnique(0x1_0000_0000, q + 1, 0, n);
    }
  }

  ghost predicate Reachable(buf: seq<Byte>, s: State)
  {
    buf != [] && exists steps :: IsRun(Init(buf), steps) && Final(Init(buf), steps) == s
  }

  lemma {:induction false} RunSnoc(s: State, steps: seq<Step>, step: Step)
    requires s.buf != [] && IsRun(s, steps)
    requires var t := Final(s, steps); t.buf != [] && Enabled(t, step)
    ensures IsRun(s, steps + [step]) && Final(s, steps + [step]) == Apply(Final(s, steps), step)
    decreases |steps|
  {
    if steps == [] {
      assert ([] + [step])[1..] == [];
    } else {
      RunSnoc(Apply(s, steps[0]), steps[1..], step);
      assert (steps + [step])[1..] == steps[1..] + [step];
    }
  }

  lemma ReachOn(buf: seq<Byte>, s: State, step: Step)
    requires Reachable(buf, s) && s.buf != [] && Enabled(s, step)
    ensures Reachable(buf, Apply(s, step))
  {
    var steps :| IsRun(Init(buf), steps) && Final(Init(buf), steps) == s;
    RunSnoc(Init(buf), steps, step);
  }

  lemma PushStarts(buf: seq<Byte>)
    requires Reachable(buf, State([0, 0, 0, 0], 0, 0, Idle, Resting, [], []))
    ensures Reachable(buf, State([0, 0, 0, 0], 0, 0, HeadRead([7], true, true, 0), Resting, [], []))
  {
    hide Reachable;
    ReachOn(buf, State([0, 0, 0, 0], 0, 0, Idle, Resting, [], []), BeginPushN([7]));
    assert Apply(State([0, 0, 0, 0], 0, 0, Idle, Resting, [], []), BeginPushN([7])) == State([0, 0, 0, 0], 0, 0, SpaceStart([7]), Resting, [], []);
    ReachOn(buf, State([0, 0, 0, 0], 0, 0, SpaceStart([7]), Resting, [], []), Produce);
    assert Apply(State([0, 0, 0, 0], 0, 0, SpaceStart([7]), Resting, [], []), Produce) == State([0, 0, 0, 0], 0, 0, SpaceHeadRead([7], 0), Resting, [], []);
    ReachOn(buf, State([0, 0, 0, 0], 0, 0, SpaceHeadRead([7], 0), Resting, [], []), Produce);
    assert Apply(State([0, 0, 0, 0], 0, 0, SpaceHeadRead([7], 0), Resting, [], []), Produce) == State([0, 0, 0, 0], 0, 0, PushStart([7], true, true), Resting, [], []);
    ReachOn(buf, State([0, 0, 0, 0], 0, 0, PushStart([7], true, true), Resting, [], []), Produce);
    assert Apply(State([0, 0, 0, 0], 0, 0, PushStart([7], true, true), Resting, [], []), Produce) == State([0, 0, 0, 0], 0, 0, HeadRead([7], true, true, 0), Resting, [], []);
  }

  lemma PushEnds(buf: seq<Byte>)
    requires Reachable(buf, State([0, 0, 0, 0], 0, 0, HeadRead([7], true, true, 0), Resting, [], []))
    ensures Reachable(buf, State([7, 0, 0, 0], 1, 0, ClosingStart, Resting, [7], []))
  {
    hide Reachable;
    ReachOn(buf, State([0, 0, 0, 0], 0, 0, HeadRead([7], true, true, 0), Resting, [], []), Produce);
    assert Apply(State([0, 0, 0, 0], 0, 0, HeadRead([7], true, true, 0), Resting, [], []), Produce) == State([0, 0, 0, 0], 0, 0, FullHeadRead([7], true, true, 0, 0), Resting, [], []);
    ReachOn(buf, State([0, 0, 0, 0], 0, 0, FullHeadRead([7], true, true, 0, 0), Resting, [], []), Produce);
    assert Apply(State([0, 0, 0, 0], 0, 0, FullHeadRead([7], true, true, 0, 0), Resting, [], []), Produce) == State([0, 0, 0, 0], 0, 0, SlotWrite([7], true, true, 0), Resting, [], []);
    ReachOn(buf, State([0, 0, 0, 0], 0, 0, SlotWrite([7], true, true, 0), Resting, [], []), Produce);
    assert Apply(State([0, 0, 0, 0], 0, 0, SlotWrite([7], true, true, 0), Resting, [], []), Produce) == State([7, 0, 0, 0], 0, 0, HeadWrite([7], true, true, 0), Resting, [], []);
    ReachOn(buf, State([7, 0, 0, 0], 0, 0, HeadWrite([7], true, true, 0), Resting, [], []), Produce);
    assert Apply(State([7, 0, 0, 0], 0, 0, HeadWrite([7], true, true, 0), Resting, [], []), Produce) == State([7, 0, 0, 0], 1, 0, ClosingStart, Resting, [7], []);
  }

  lemma PopStarts(buf: seq<Byte>)
    requires Reachable(buf, State([7, 0, 0, 0], 1, 0, ClosingStart, Resting, [7], []))
    ensures Reachable(buf, State([7, 0, 0, 0], 1, 0, ClosingStart, SlotRead(1, false, 0), [7], []))
  {
    hide Reachable;
    ReachOn(buf, State([7, 0, 0, 0], 1, 0, ClosingStart, Resting, [7], []), BeginTryPop);
    assert Apply(State([7, 0, 0, 0], 1, 0, ClosingStart, Resting, [7], []), BeginTryPop) == State([7, 0, 0, 0], 1, 0, ClosingStart, PopStart(1, false), [7], []);
    ReachOn(buf, State([7, 0, 0, 0], 1, 0, ClosingStart, PopStart(1, false), [7], []), Consume);
    assert Apply(State([7, 0, 0, 0], 1, 0, ClosingStart, PopStart(1, false), [7], []), Consume) == State([7, 0, 0, 0], 1, 0, ClosingStart, EmptyHeadRead(1, false, 1, 1), [7], []);
    ReachOn(buf, State([7, 0, 0, 0], 1, 0, ClosingStart, EmptyHeadRead(1, false, 1, 1), [7], []), Consume);
    assert Apply(State([7, 0, 0, 0], 1, 0, ClosingStart, EmptyHeadRead(1, false, 1, 1), [7], []), Consume) == State([7, 0, 0, 0], 1, 0, ClosingStart, TailRead(1, false), [7], []);
    ReachOn(buf, State([7, 0, 0, 0], 1, 0, ClosingStart, TailRead(1, false), [7], []), Consume);
    assert Apply(State([7, 0, 0, 0], 1, 0, ClosingStart, TailRead(1, false), [7], []), Consume) == State([7, 0, 0, 0], 1, 0, ClosingStart, SlotRead(1, false, 0), [7], []);
  }

  lemma PopEnds(buf: seq<Byte>)
    requires Reachable(buf, State([7, 0, 0, 0], 1, 0, ClosingStart, SlotRead(1, false, 0), [7], []))
    ensures Reachable(buf, State([7, 0, 0, 0], 1, 1, Drained, PopStart(0, false), [7], [7]))
  {
    hide Reachable;
    ReachOn(buf, State([7, 0, 0, 0], 1, 0, ClosingStart, SlotRead(1, false, 0), [7], []), Consume);
    assert Apply(State([7, 0, 0, 0], 1, 0, ClosingStart, SlotRead(1, false, 0), [7], []), Consume) == State([7, 0, 0, 0], 1, 0, ClosingStart, TailWrite(1, false, 0, 7), [7], []);
    ReachOn(buf, State([7, 0, 0, 0], 1, 0, ClosingStart, TailWrite(1, false, 0, 7), [7], []), Consume);
    assert Apply(State([7, 0, 0, 0], 1, 0, ClosingStart, TailWrite(1, false, 0, 7), [7], []), Consume) == State([7, 0, 0, 0], 1, 1, ClosingStart, PopStart(0, false), [7], [7]);
    ReachOn(buf, State([7, 0, 0, 0], 1, 1, ClosingStart, PopStart(0, false), [7], [7]), Produce);
    assert Apply(State([7, 0, 0, 0], 1, 1, ClosingStart, PopStart(0, false), [7], [7]), Produce) == State([7, 0, 0, 0], 1, 1, ClosingHeadRead(1), PopStart(0, false), [7], [7]);
    ReachOn(buf, State([7, 0, 0, 0], 1, 1, ClosingHeadRead(1), PopStart(0, false), [7], [7]), Produce);
    assert Apply(State([7, 0, 0, 0], 1, 1, ClosingHeadRead(1), PopStart(0, false), [7], [7]), Produce) == State([7, 0, 0, 0], 1, 1, Drained, PopStart(0, false), [7], [7]);
  }

  /** It does fire, in a ring of four slots: one element is pushed and popped before the producer looks. */
  lemma {:induction false} ClosingFires()
    ensures exists s :: Reachable([0, 0, 0, 0], s) && s.prod == Drained
  {
    var buf: seq<Byte> := [0, 0, 0, 0];
    assert IsRun(Init(buf), []) && Final(Init(buf), []) == Init(buf);
    PushStarts(buf);
    PushEnds(buf);
    PopStarts(buf);
    PopEnds(buf);
    assert State([7, 0, 0, 0], 1, 1, Drained, PopStart(0, false), [7], [7]).prod == Drained;
  }
}
