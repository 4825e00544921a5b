/**
 The life of thread blocks: a block is on the run queue, on the free queue, or handed out.
 Blocks are any type, so that the heap version can use its own objects.
 */
module ThreadSpec {
  import opened Words

  datatype State<T> = State(
    run: seq<T>,
    free: seq<T>,
    live: set<T>,       // handed out and on no queue
    made: set<T>,       // every block ever obtained from the allocator
    stamp: map<T, nat>, // which allocation a block was last handed out by
    given: nat)         // allocations so far

  datatype Op<T> =
    | Alloc(block: T)   // `block` is what the allocator would return
    | Free(t: T)
    | Enqueue(t: T)
    | Dequeue

  function TidOf(i: nat): Word { (1 + i) % WORD_LIMIT }

  function AllocStep<T>(s: State<T>, block: T): (r: (State<T>, T))
  {
    var t := if s.free == [] then block else s.free[0];
    (State(s.run, if s.free == [] then [] else s.free[1..], s.live + {t},
           if s.free == [] then s.made + {t} else s.made, s.stamp[t := s.given], s.given + 1), t)
  }

  function Apply<T>(s: State<T>, op: Op<T>): State<T>
  {
    match op
    case Alloc(b) => AllocStep(s, b).0
    case Free(t) => s.(free := [t] + s.free, live := s.live - {t})
    case Enqueue(t) => s.(run := s.run + [t], live := s.live - {t})
    case Dequeue => if s.run == [] then s else s.(run := s.run[1..], live := s.live + {s.run[0]})
  }

  /** The allocator returns new memory; only a block one holds is freed or queued. */
  predicate Allowed<T(==)>(s: State<T>, op: Op<T>)
  {
    match op
    case Alloc(b) => s.free == [] ==> b !in s.made
    case Free(t) => t in s.live
    case Enqueue(t) => t in s.live
    case Dequeue => true
  }

  function Init<T>(): State<T> { State([], [], {}, {}, map[], 0) }

  /** No block is lost, and none is in two places: both as one equation. */
  ghost predicate Inv<T>(s: State<T>)
  {
    && multiset(s.run) + multiset(s.free) + multiset(s.live) == multiset(s.made)
    && s.stamp.Keys == s.made
    && (forall t <- s.stamp :: s.stamp[t] < s.given)
    && (forall t <- s.stamp, u <- s.stamp :: s.stamp[t] == s.stamp[u] ==> t == u)
  }

  predicate RunAllowed<T(==)>(s: State<T>, ops: seq<Op<T>>)
    decreases |ops|
  {
    ops == [] || (Allowed(s, ops[0]) && RunAllowed(Apply(s, ops[0]), ops[1..]))
  }

  function Run<T>(s: State<T>, ops: seq<Op<T>>): State<T>
    decreases |ops|
  {
    if ops == [] then s else Run(Apply(s, ops[0]), ops[1..])
  }

  ghost predicate Distinct<T>(s: seq<T>)
  {
    forall i, j :: 0 <= i < j < |s| ==> s[i] != s[j]
  }

  // ---------------------------------------------------------------- what the equation means

  lemma InOnePlace<T>(s: State<T>, t: T)
    requires Inv(s) && t in s.made
    ensures multiset(s.run)[t] + multiset(s.free)[t] + multiset(s.live)[t] == 1
  {
    assert multiset(s.made)[t] == 1;
    assert (multiset(s.run) + multiset(s.free) + multiset(s.live))[t] == 1;
  }

  /** The queues are disjoint, neither repeats a block, and what is handed out is on neither. */
  lemma Apart<T>(s: State<T>)
    requires Inv(s)
    ensures forall t <- s.run :: t !in s.free && t !in s.live
    ensures forall t <- s.free :: t !in s.live
    ensures forall t <- s.run :: t in s.made
    ensures forall t <- s.free :: t in s.made
    ensures s.live <= s.made
  {
    var all := multiset(s.run) + multiset(s.free) + multiset(s.live);
    forall t | t in s.run || t in s.free || t in s.live
      ensures t in s.made && multiset(s.run)[t] + multiset(s.free)[t] + multiset(s.live)[t] == 1
    {
      assert t in all;
      InOnePlace(s, t);
    }
  }

  lemma NoRepeats<T>(s: seq<T>, i: nat, j: nat)
    requires i < j < |s| && s[i] == s[j]
    ensures multiset(s)[s[i]] >= 2
  {
    assert s == s[..j] + s[j..];
    assert s[i] == s[..j][i] && s[j] == s[j..][0];
    assert s[i] in multiset(s[..j]) && s[i] in multiset(s[j..]);
  }

  lemma QueuesDistinct<T>(s: State<T>)
    requires Inv(s)
    ensures Distinct(s.run) && Distinct(s.free)
  {
    Apart(s);
    hide Inv;
    forall i, j | 0 <= i < j < |s.run|
      ensures s.run[i] != s.run[j]
    {
      InOnePlace(s, s.run[i]);
      if s.run[i] == s.run[j] {
        NoRepeats(s.run, i, j);
      }
    }
    forall i, j | 0 <= i < j < |s.free|
      ensures s.free[i] != s.free[j]
    {
      InOnePlace(s, s.free[i]);
      if s.free[i] == s.free[j] {
        NoRepeats(s.free, i, j);
      }
    }
  }

  /** Queued and handed-out blocks together are all the blocks there are. */
  lemma {:induction false} BlocksAddUp<T>(s: State<T>)
    requires Inv(s)
    ensures |s.run| + |s.free| + |s.live| == |s.made|
  {
    assert |multiset(s.run) + multiset(s.free) + multiset(s.live)| == |multiset(s.made)|;
  }

  // ---------------------------------------------------------------- steps

  /** The allocator never hands out a block somebody holds or that waits to run. */
  lemma {:induction false} AllocIsNew<T>(s: State<T>, block: T)
    requires Inv(s) && Allowed(s, Alloc(block))
    ensures var t := AllocStep(s, block).1; t !in s.live && t !in s.run
  {
    Apart(s);
  }

  lemma AllocKeeps<T>(s: State<T>, block: T)
    requires Inv(s) && Allowed(s, Alloc(block))
    ensures Inv(AllocStep(s, block).0)
  {
    AllocIsNew(s, block);
    var r, t := AllocStep(s, block).0, AllocStep(s, block).1;
    assert multiset(r.live) == multiset(s.live) + multiset{t};
    if s.free == [] {
      assert multiset(r.made) == multiset(s.made) + multiset{t};
    } else {
      assert s.free == [t] + s.free[1..];
      assert multiset(s.free) == multiset{t} + multiset(r.free);
      Apart(s);
    }
    assert multiset(r.run) + multiset(r.free) + multiset(r.live) == multiset(r.made);
  }

  lemma {:induction false} StepKeeps<T>(s: State<T>, op: Op<T>)
    requires Inv(s) && Allowed(s, op)
    ensures Inv(Apply(s, op))
  {
    var r := Apply(s, op);
    match op
    case Alloc(b) => AllocKeeps(s, b);
    case Free(t) =>
      assert multiset(s.live) == multiset(r.live) + multiset{t};
      assert multiset(r.free) == multiset{t} + multiset(s.free);
    case Enqueue(t) =>
      assert multiset(s.live) == multiset(r.live) + multiset{t};
      assert multiset(r.run) == multiset(s.run) + multiset{t};
    case Dequeue => DequeueKeeps(s);
  }

  lemma DequeueKeeps<T>(s: State<T>)
    requires Inv(s)
    ensures Inv(Apply(s, Dequeue))
  {
    if s.run != [] {
      var r := Apply(s, Dequeue);
      Apart(s);
      assert s.run == [s.run[0]] + s.run[1..];
      assert multiset(s.run) == multiset{s.run[0]} + multiset(r.run);
      assert multiset(r.live) == multiset(s.live) + multiset{s.run[0]};
    }
  }

  lemma {:induction false} RunKeeps<T>(s: State<T>, ops: seq<Op<T>>)
    requires Inv(s) && RunAllowed(s, ops)
    ensures Inv(Run(s, ops))
    decreases |ops|
  {
    hide Inv;
    hide Apply;
    hide Allowed;
    if ops != [] {
      StepKeeps(s, ops[0]);
      RunKeeps(Apply(s, ops[0]), ops[1..]);
    }
  }

  /** Over every sequence of operations: no block lost, none in two places, none handed out twice. */
  lemma {:induction false} EveryRunConserves<T>(ops: seq<Op<T>>, block: T)
    requires RunAllowed(Init(), ops)
    ensures var s := Run(Init(), ops);
            && |s.run| + |s.free| + |s.live| == |s.made|
            && (forall t <- s.run :: t !in s.free && t !in s.live)
            && (forall t <- s.free :: t !in s.live)
            && Distinct(s.run) && Distinct(s.free)
            && (Allowed(s, Alloc(block)) ==> AllocStep(s, block).1 !in s.live && AllocStep(s, block).1 !in s.run)
  {
    hide Run;
    hide RunAllowed;
    hide AllocStep;
    hide Allowed;
    hide Distinct;
    assert Inv(Init<T>());
    hide Inv;
    RunKeeps(Init(), ops);
    var s := Run(Init(), ops);
    BlocksAddUp(s);
    Apart(s);
    QueuesDistinct(s);
    if Allowed(s, Alloc(block)) {
      AllocIsNew(s, block);
    }
  }

  // ---------------------------------------------------------------- order

  function QueuedBy<T>(op: Op<T>): seq<T> { if op.Enqueue? then [op.t] else [] }

  function TakenBy<T>(s: State<T>, op: Op<T>): seq<T> { if op.Dequeue? && s.run != [] then [s.run[0]] else [] }

  /** The blocks put on the run queue, in order. */
  function Queued<T>(ops: seq<Op<T>>): seq<T>
    decreases |ops|
  {
    if ops == [] then [] else QueuedBy(ops[0]) + Queued(ops[1..])
  }

  /** The blocks taken off it, in order. */
  function Taken<T>(s: State<T>, ops: seq<Op<T>>): seq<T>
    decreases |ops|
  {
    if ops == [] then [] else TakenBy(s, ops[0]) + Taken(Apply(s, ops[0]), ops[1..])
  }

  lemma QueueOrder<T>(s: State<T>, op: Op<T>)
    ensures TakenBy(s, op) + Apply(s, op).run == s.run + QueuedBy(op)
  {
  }

  lemma Regroup<T>(a: seq<T>, b: seq<T>, c: seq<T>, d: seq<T>, e: seq<T>, f: seq<T>, g: seq<T>)
    requires a + b == c + d && e + f == b + g
    ensures (a + e) + f == c + (d + g)
  {
    assert (a + e) + f == a + (e + f) == (a + b) + g == c + (d + g);
  }

  /** Over every sequence of operations threads run in the order in which they were queued. */
  lemma {:induction false} FirstQueuedRunsFirst<T>(s: State<T>, ops: seq<Op<T>>)
    ensures Taken(s, ops) + Run(s, ops).run == s.run + Queued(ops)
    decreases |ops|
  {
    hide Apply;
    hide QueuedBy;
    hide TakenBy;
    if ops == [] {
      assert [] + s.run == s.run + [];
    } else {
      var r, rest := Apply(s, ops[0]), ops[1..];
      QueueOrder(s, ops[0]);
      FirstQueuedRunsFirst(r, rest);
      Regroup(TakenBy(s, ops[0]), r.run, s.run, QueuedBy(ops[0]), Taken(r, rest), Run(r, rest).run, Queued(rest));
    }
  }

  /** A freed block is the next one handed out; nothing new is made for it. */
  lemma {:induction false} FreedComesBack<T>(s: State<T>, t: T, block: T)
    ensures var (r, u) := AllocStep(Apply(s, Free(t)), block);
            u == t && r.free == s.free && r.run == s.run && r.made == s.made && t in r.live
  {
    assert ([t] + s.free)[1..] == s.free;
  }

  // ---------------------------------------------------------------- thread ids

  lemma TidsAgreeIff(i: nat, j: nat)
    ensures TidOf(i) == TidOf(j) <==> (i - j) % WORD_LIMIT == 0
  {
  }

  /** Two blocks carry one id only if they were handed out a multiple of 2^32 allocations apart. */
  lemma {:induction false} TidsDistinct<T>(s: State<T>, t: T, u: T)
    requires Inv(s) && t in s.made && u in s.made && t != u
    ensures TidOf(s.stamp[t]) == TidOf(s.stamp[u]) <==> (s.stamp[t] - s.stamp[u]) % WORD_LIMIT == 0
    ensures s.given <= WORD_LIMIT ==> TidOf(s.stamp[t]) != TidOf(s.stamp[u])
  {
    TidsAgreeIff(s.stamp[t], s.stamp[u]);
  }
}
