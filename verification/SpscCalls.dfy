/** What one call does to the ring, whatever the other side does meanwhile: all of it or nothing. */
module SpscCalls {
  import opened Words
  import opened ModArith
  import opened SpscRing

  // ---------------------------------------------------------------- pushing

  predicate NoNewPush(steps: seq<Step>)
  {
    forall k :: 0 <= k < |steps| ==> !steps[k].BeginPush? && !steps[k].BeginPushN?
  }

  /** The test the producer is about to make turns its call down: too many for the space, or no space for one. */
  ghost predicate PushRefuses(s: State)
  {
    match s.prod
    case SpaceHeadRead(xs, _) => |s.pushed| + |xs| > |s.popped| + |s.buf|
    case FullHeadRead(_, must, _, _, _) => !must && |s.pushed| + 1 == |s.popped| + |s.buf|
    case _ => false
  }

  ghost predicate PushRefused(s: State, steps: seq<Step>)
    requires s.buf != [] && IsRun(s, steps)
    decreases |steps|
  {
    steps != [] && ((steps[0] == Produce && PushRefuses(s)) || PushRefused(Apply(s, steps[0]), steps[1..]))
  }

  /** `ys` of `xs` are still to be pushed; the others have been. */
  ghost predicate Remaining(s: State, before: seq<Byte>, xs: seq<Byte>, ys: seq<Byte>)
  {
    |ys| <= |xs| && ys == xs[|xs| - |ys|..] && s.pushed == before + xs[..|xs| - |ys|]
  }

  /** The producer is inside a call that was to push `xs` behind `before`. */
  ghost predicate InPush(s: State, before: seq<Byte>, xs: seq<Byte>, must: bool)
  {
    match s.prod
    case Idle => false
    case SpaceStart(ys) => must && ys == xs && s.pushed == before
    case SpaceHeadRead(ys, _) => must && ys == xs && s.pushed == before
    case PushStart(ys, m, _) => m == must && Remaining(s, before, xs, ys) && (must && xs != [] ==> ys != [])
    case HeadRead(ys, m, _, _) => m == must && Remaining(s, before, xs, ys)
    case FullHeadRead(ys, m, _, _, _) => m == must && Remaining(s, before, xs, ys) && (!must ==> s.pushed == before)
    case SlotWrite(ys, m, _, _) => m == must && Remaining(s, before, xs, ys)
    case HeadWrite(ys, m, _, _) => m == must && Remaining(s, before, xs, ys)
    case Stuffed(_) => must
    case ClosingStart => s.pushed == before + xs
    case ClosingHeadRead(_) => s.pushed == before + xs
    case Drained => s.pushed == before + xs
  }

  lemma PushedOne(s: State, before: seq<Byte>, xs: seq<Byte>, ys: seq<Byte>)
    requires Remaining(s, before, xs, ys) && ys != []
    ensures s.pushed + [ys[0]] == before + xs[..|xs| - |ys[1..]|] && ys[1..] == xs[|xs| - |ys[1..]|..]
  {
    var k := |xs| - |ys|;
    assert xs[..k + 1] == xs[..k] + [xs[k]];
    assert ys[0] == xs[k];
  }

  lemma ProduceInPush(s: State, before: seq<Byte>, xs: seq<Byte>, must: bool)
    requires Inv(s) && InPush(s, before, xs, must) && Enabled(s, Produce) && (must || |xs| == 1)
    ensures var t := Produced(s);
            if t.prod == Idle then t.pushed == before + (if PushRefuses(s) then [] else xs)
            else InPush(t, before, xs, must) && !PushRefuses(s)
  {
    assert before + [] == before;
    assert xs[|xs|..] == [] && xs[..|xs|] == xs && xs[0..] == xs && xs[..0] == [];
    if s.prod.HeadWrite? {
      PushedOne(s, before, xs, s.prod.xs);
    } else if s.prod.SpaceHeadRead? {
      CountIsExact(s, s.head, |s.pushed|);
    } else if s.prod.FullHeadRead? {
      FullTestExact(s);
    }
  }

  lemma OtherInPush(s: State, step: Step, before: seq<Byte>, xs: seq<Byte>, must: bool)
    requires s.buf != [] && InPush(s, before, xs, must) && Enabled(s, step)
    requires step != Produce && !step.BeginPush? && !step.BeginPushN?
    ensures InPush(Apply(s, step), before, xs, must)
  {
  }

  lemma {:induction false} IdleStays(s: State, steps: seq<Step>)
    requires s.buf != [] && IsRun(s, steps) && NoNewPush(steps) && (s.prod == Idle || s.prod == Drained)
    ensures Final(s, steps).prod == s.prod && Final(s, steps).pushed == s.pushed && !PushRefused(s, steps)
    decreases |steps|
  {
    if steps != [] {
      assert !steps[0].BeginPush? && !steps[0].BeginPushN?;
      IdleStays(Apply(s, steps[0]), steps[1..]);
    }
  }

  lemma {:induction false} PushRun(s: State, steps: seq<Step>, before: seq<Byte>, xs: seq<Byte>, must: bool)
    requires Inv(s) && InPush(s, before, xs, must) && IsRun(s, steps) && NoNewPush(steps) && (must || |xs| == 1)
    ensures var t := Final(s, steps);
            && (t.prod == Idle ==> t.pushed == before + (if PushRefused(s, steps) then [] else xs))
            && (t.prod == Drained ==> t.pushed == before + xs && !PushRefused(s, steps))
    decreases |steps|
  {
    hide Inv;
    hide PushRefuses;
    InvNonempty(s);
    if steps != [] {
      var t := Apply(s, steps[0]);
      assert !steps[0].BeginPush? && !steps[0].BeginPushN?;
      StepKeeps(s, steps[0]);
      InvNonempty(t);
      if steps[0] == Produce {
        ProduceInPush(s, before, xs, must);
      } else {
        OtherInPush(s, steps[0], before, xs, must);
      }
      hide InPush;
      hide Apply;
      if t.prod == Idle {
        IdleStays(t, steps[1..]);
      } else {
        PushRun(t, steps[1..], before, xs, must);
      }
    } else {
      NotDone(s, before, xs, must);
    }
  }

  lemma InvNonempty(s: State)
    requires Inv(s)
    ensures s.buf != []
  {
  }

  lemma NotDone(s: State, before: seq<Byte>, xs: seq<Byte>, must: bool)
    requires InPush(s, before, xs, must)
    ensures s.prod != Idle && (s.prod == Drained ==> s.pushed == before + xs)
  {
  }

  lemma InvAtStart(buf: seq<Byte>)
    requires RingSize(|buf|)
    ensures Inv(Init(buf))
  {
  }

  /**
   `cq_push_n`, in any interleaving: once the call is over, exactly its elements have been pushed
   behind what was there, or nothing; and nothing exactly when its count found too little space.
   */
  lemma {:induction false} PushNAllOrNothing(buf: seq<Byte>, before: seq<Step>, xs: seq<Byte>, more: seq<Step>)
    requires RingSize(|buf|) && IsRun(Init(buf), before)
    requires var s := Final(Init(buf), before);
             s.buf != [] && Enabled(s, BeginPushN(xs)) && IsRun(Apply(s, BeginPushN(xs)), more) && NoNewPush(more)
    ensures var s := Final(Init(buf), before);
            var called := Apply(s, BeginPushN(xs));
            var t := Final(called, more);
            t.prod == Idle || t.prod == Drained ==>
              t.pushed == s.pushed + (if PushRefused(called, more) then [] else xs)
  {
    InvAtStart(buf);
    RunKeeps(Init(buf), before);
    var s := Final(Init(buf), before);
    StepKeeps(s, BeginPushN(xs));
    PushRun(Apply(s, BeginPushN(xs)), more, s.pushed, xs, true);
  }

  /** `cq_push`, in any interleaving: its element or nothing, and nothing exactly when it found the queue full. */
  lemma {:induction false} PushAllOrNothing(buf: seq<Byte>, before: seq<Step>, x: Byte, more: seq<Step>)
    requires RingSize(|buf|) && IsRun(Init(buf), before)
    requires var s := Final(Init(buf), before);
             s.buf != [] && Enabled(s, BeginPush(x)) && IsRun(Apply(s, BeginPush(x)), more) && NoNewPush(more)
    ensures var s := Final(Init(buf), before);
            var called := Apply(s, BeginPush(x));
            var t := Final(called, more);
            t.prod == Idle ==> t.pushed == s.pushed + (if PushRefused(called, more) then [] else [x])
  {
    InvAtStart(buf);
    RunKeeps(Init(buf), before);
    var s := Final(Init(buf), before);
    StepKeeps(s, BeginPush(x));
    assert s.pushed == s.pushed + [x][..0] && [x] == [x][0..];
    PushRun(Apply(s, BeginPush(x)), more, s.pushed, [x], false);
  }

  // ---------------------------------------------------------------- popping

  predicate NoNewPop(steps: seq<Step>)
  {
    forall k :: 0 <= k < |steps| ==> !steps[k].BeginPopN? && !steps[k].BeginTryPop?
  }

  /** The test the consumer is about to make turns its call down: too few elements were there, or none. */
  ghost predicate PopRefuses(s: State)
  {
    match s.cons
    case CountHeadRead(k, _, seen) => seen - |s.popped| < k
    case EmptyHeadRead(_, must, _, seen) => !must && seen == |s.popped|
    case _ => false
  }

  ghost predicate PopRefused(s: State, steps: seq<Step>)
    requires s.buf != [] && IsRun(s, steps)
    decreases |steps|
  {
    steps != [] && ((steps[0] == Consume && PopRefuses(s)) || PopRefused(Apply(s, steps[0]), steps[1..]))
  }

  /** The consumer is inside a call that was to pop `n` elements behind the first `before`. */
  ghost predicate InPop(s: State, before: nat, n: nat, must: bool)
  {
    match s.cons
    case Resting => false
    case CountStart(k) => must && k == n && |s.popped| == before
    case CountHeadRead(k, _, _) => must && k == n && |s.popped| == before
    case PopStart(k, m) => m == must && k <= n && |s.popped| == before + n - k
    case EmptyHeadRead(k, m, _, _) => m == must && k <= n && |s.popped| == before + n - k
    case TailRead(k, m) => m == must && 0 < k <= n && |s.popped| == before + n - k
    case SlotRead(k, m, _) => m == must && 0 < k <= n && |s.popped| == before + n - k
    case TailWrite(k, m, _, _) => m == must && 0 < k <= n && |s.popped| == before + n - k
    case Panic => false
  }

  lemma ConsumeInPop(s: State, before: nat, n: nat, must: bool)
    requires Inv(s) && InPop(s, before, n, must) && Enabled(s, Consume) && (must || n == 1)
    ensures var t := Consumed(s);
            if t.cons == Resting then |t.popped| == before + (if PopRefuses(s) then 0 else n)
            else InPop(t, before, n, must) && !PopRefuses(s)
  {
    if s.cons.CountHeadRead? {
      CountIsExact(s, s.cons.h, s.cons.seen);
    } else if s.cons.EmptyHeadRead? {
      EmptyTestKeeps(s);
      if |s.popped| < s.cons.seen {
        SlotDistinct(|s.popped|, s.cons.seen, |s.buf|);
      }
    }
  }

  lemma OtherInPop(s: State, step: Step, before: nat, n: nat, must: bool)
    requires s.buf != [] && InPop(s, before, n, must) && Enabled(s, step)
    requires step != Consume && !step.BeginPopN? && !step.BeginTryPop?
    ensures InPop(Apply(s, step), before, n, must)
  {
  }

  lemma {:induction false} RestingStays(s: State, steps: seq<Step>)
    requires s.buf != [] && IsRun(s, steps) && NoNewPop(steps) && s.cons == Resting
    ensures Final(s, steps).cons == Resting && Final(s, steps).popped == s.popped && !PopRefused(s, steps)
    decreases |steps|
  {
    if steps != [] {
      assert !steps[0].BeginPopN? && !steps[0].BeginTryPop?;
      RestingStays(Apply(s, steps[0]), steps[1..]);
    }
  }

  lemma {:induction false} PopRun(s: State, steps: seq<Step>, before: nat, n: nat, must: bool)
    requires Inv(s) && InPop(s, before, n, must) && IsRun(s, steps) && NoNewPop(steps) && (must || n == 1)
    ensures Final(s, steps).cons == Resting ==>
              |Final(s, steps).popped| == before + (if PopRefused(s, steps) then 0 else n)
    decreases |steps|
  {
    hide Inv;
    hide PopRefuses;
    InvNonempty(s);
    if steps != [] {
      var t := Apply(s, steps[0]);
      assert !steps[0].BeginPopN? && !steps[0].BeginTryPop?;
      StepKeeps(s, steps[0]);
      InvNonempty(t);
      if steps[0] == Consume {
        ConsumeInPop(s, before, n, must);
      } else {
        OtherInPop(s, steps[0], before, n, must);
      }
      hide InPop;
      hide Apply;
      if t.cons == Resting {
        RestingStays(t, steps[1..]);
      } else {
        PopRun(t, steps[1..], before, n, must);
      }
    } else {
      NotResting(s, before, n, must);
    }
  }

  lemma NotResting(s: State, before: nat, n: nat, must: bool)
    requires InPop(s, before, n, must)
    ensures s.cons != Resting
  {
  }

  /**
   `cq_pop_n_noblk`, in any interleaving: once the call is over, exactly the next `n` elements have
   been popped, or none; and none exactly when its count found fewer.
   */
  lemma {:induction false} PopNAllOrNothing(buf: seq<Byte>, before: seq<Step>, n: nat, more: seq<Step>)
    requires RingSize(|buf|) && IsRun(Init(buf), before)
    requires var s := Final(Init(buf), before);
             s.buf != [] && Enabled(s, BeginPopN(n)) && IsRun(Apply(s, BeginPopN(n)), more) && NoNewPop(more)
    ensures var s := Final(Init(buf), before);
            var called := Apply(s, BeginPopN(n));
            var t := Final(called, more);
            t.cons == Resting ==>
              var k := |s.popped| + (if PopRefused(called, more) then 0 else n);
              k <= |t.pushed| && t.popped == t.pushed[..k]
  {
    InvAtStart(buf);
    RunKeeps(Init(buf), before);
    var s := Final(Init(buf), before);
    StepKeeps(s, BeginPopN(n));
    var called := Apply(s, BeginPopN(n));
    RunKeeps(called, more);
    PopRun(called, more, |s.popped|, n, true);
  }

  /** `cq_pop_nonblock`, in any interleaving: the next element or none, and none exactly when it found the queue empty. */
  lemma {:induction false} PopAllOrNothing(buf: seq<Byte>, before: seq<Step>, more: seq<Step>)
    requires RingSize(|buf|) && IsRun(Init(buf), before)
    requires var s := Final(Init(buf), before);
             s.buf != [] && Enabled(s, BeginTryPop) && IsRun(Apply(s, BeginTryPop), more) && NoNewPop(more)
    ensures var s := Final(Init(buf), before);
            var called := Apply(s, BeginTryPop);
            var t := Final(called, more);
            t.cons == Resting ==>
              var k := |s.popped| + (if PopRefused(called, more) then 0 else 1);
              k <= |t.pushed| && t.popped == t.pushed[..k]
  {
    InvAtStart(buf);
    RunKeeps(Init(buf), before);
    var s := Final(Init(buf), before);
    StepKeeps(s, BeginTryPop);
    var called := Apply(s, BeginTryPop);
    RunKeeps(called, more);
    PopRun(called, more, |s.popped|, 1, false);
  }

  // ---------------------------------------------------------------- calls end

  /** How many more steps of its own a call can take. */
  function PushSteps(p: Producer): int
  {
    match p
    case SpaceStart(xs) => 5 * |xs| + 5
    case SpaceHeadRead(xs, _) => 5 * |xs| + 4
    case PushStart(xs, _, _) => 5 * |xs| + 3
    case HeadRead(xs, _, _, _) => 5 * |xs| + 2
    case FullHeadRead(xs, _, _, _, _) => 5 * |xs| + 1
    case SlotWrite(xs, _, _, _) => 5 * |xs|
    case HeadWrite(xs, _, _, _) => 5 * |xs| - 1
    case ClosingStart => 2
    case ClosingHeadRead(_) => 1
    case _ => 0
  }

  function PopSteps(c: Consumer): int
  {
    match c
    case CountStart(k) => 5 * k + 3
    case CountHeadRead(k, _, _) => 5 * k + 2
    case PopStart(k, _) => 5 * k + 1
    case EmptyHeadRead(k, _, _, _) => 5 * k
    case TailRead(k, _) => 5 * k - 1
    case SlotRead(k, _, _) => 5 * k - 2
    case TailWrite(k, _, _, _) => 5 * k - 3
    case _ => 0
  }

  lemma ProduceEnds(s: State)
    requires Inv(s) && Enabled(s, Produce)
    ensures 0 <= PushSteps(Produced(s).prod) < PushSteps(s.prod) && Produced(s).cons == s.cons
  {
    hide ConsumerOk;
  }

  lemma ConsumeEnds(s: State)
    requires Inv(s) && Enabled(s, Consume)
    ensures 0 <= PopSteps(Consumed(s).cons) < PopSteps(s.cons) && Consumed(s).prod == s.prod
  {
    hide ProducerOk;
  }

  /** Each step of a side brings its call nearer to its end, and the other side cannot put that off. */
  lemma {:induction false} CallsEnd(s: State, step: Step)
    requires Inv(s) && Enabled(s, step)
    ensures var t := Apply(s, step);
            && (step == Produce ==> 0 <= PushSteps(t.prod) < PushSteps(s.prod) && t.cons == s.cons)
            && (step == Consume ==> 0 <= PopSteps(t.cons) < PopSteps(s.cons) && t.prod == s.prod)
  {
    hide PushSteps;
    hide PopSteps;
    if step == Produce {
      ProduceEnds(s);
    } else if step == Consume {
      ConsumeEnds(s);
    }
  }
}
