/** What holds over every interleaving of pollers, readers and the producer. */
module FselProofs {
  import opened Words
  import opened FselSpec

  // ---------------------------------------------------------------- the invariant

  lemma PollKeeps(s: State, f: nat, ph: Option<Handle>)
    requires Inv(s) && f < FILES && (ph.Some? ==> Registered(ph.value) !in s.ledger.events)
    ensures Inv(PollStep(s, f, ph))
  {
    hide LedgerInv;
    if ph.Some? {
      ReleaseKeeps(s.ledger, f, false);
      RegisterKeeps(Release(s.ledger, f, false), f, ph.value);
    }
  }

  lemma ReadKeeps(s: State, f: nat, size: nat)
    requires Inv(s) && f < FILES
    ensures Inv(ReadStep(s, f, size))
  {
    hide LedgerInv;
  }

  lemma ProduceKeeps(s: State, t: nat)
    requires Inv(s) && t < FILES
    ensures Inv(Produce(s, t))
  {
    hide LedgerInv;
    ReleaseKeeps(s.ledger, t, true);
  }

  lemma {:induction false} FilesKeeps(s: State, t: nat, i: nat, k: nat)
    requires Inv(s) && t < FILES && i <= s.nr
    ensures Inv(Files(s, t, i, k))
    decreases s.nr - i
  {
    hide Inv;
    hide Produce;
    hide Stride;
    InvSized(s);
    if i != s.nr {
      LearntKeeps(s, i == k);
      var s1 := Learnt(s, i == k);
      ProduceKeeps(s1, t);
      FilesKeeps(Produce(s1, t), Stride(t, s.nr), i + 1, k);
    }
  }

  lemma LearntKeeps(s: State, now: bool)
    requires Inv(s)
    ensures Inv(Learnt(s, now))
  {
    hide LedgerInv;
  }

  lemma InvSized(s: State)
    requires Inv(s)
    ensures Sized(s)
  {
  }

  lemma {:induction false} StepKeeps(s: State, l: Label)
    requires Inv(s) && Allowed(s, l)
    ensures Inv(Apply(s, l))
  {
    match l
    case Learn =>
    case Poll(f, ph) => PollKeeps(s, f, ph);
    case ReadFile(f, size) => ReadKeeps(s, f, size);
    case Tick(k) => FilesKeeps(s, s.idx, 0, k);
  }

  lemma {:induction false} RunKeeps(s: State, ls: seq<Label>)
    requires Inv(s) && RunAllowed(s, ls)
    ensures Inv(Run(s, ls))
    decreases |ls|
  {
    hide Inv;
    hide Apply;
    InvSized(s);
    if ls != [] {
      StepKeeps(s, ls[0]);
      RunKeeps(Apply(s, ls[0]), ls[1..]);
    }
  }

  /**
   From the start, whatever the interleaving: bits say who waits, a handle is destroyed at most
   once and untouched from then on, every handle that is no longer held was destroyed, and no
   byte is lost, duplicated or stored beyond the limit.
   */
  lemma {:induction false} EveryRunIsSafe(ls: seq<Label>)
    requires RunAllowed(Init(), ls)
    ensures var s := Run(Init(), ls);
            && (forall f :: 0 <= f < FILES ==> (s.mask[f] <==> s.ledger.slot[f].Some?))
            && (forall i, j :: 0 <= i < j < |s.ledger.events| && s.ledger.events[i].Destroyed? ==>
                                 s.ledger.events[j].h != s.ledger.events[i].h)
            && (forall h: Handle :: Registered(h) in s.ledger.events && !Holds(s.ledger.slot, h) ==> Destroyed(h) in s.ledger.events)
            && (forall h: Handle :: Holds(s.ledger.slot, h) ==> Destroyed(h) !in s.ledger.events)
            && (forall f :: 0 <= f < FILES ==> s.produced[f] == s.consumed[f] + s.cnt[f] && s.cnt[f] <= CNT_MAX)
  {
    hide Run;
    hide RunAllowed;
    hide Init;
    RunKeeps(Init(), ls);
    var s := Run(Init(), ls);
    hide Holds;
    forall h: Handle | Registered(h) in s.ledger.events && !Holds(s.ledger.slot, h)
      ensures Destroyed(h) in s.ledger.events
    {
      assert !Live(s.ledger.events, h);
    }
    forall h: Handle | Holds(s.ledger.slot, h)
      ensures Destroyed(h) !in s.ledger.events
    {
      assert Live(s.ledger.events, h);
    }
  }

  // ---------------------------------------------------------------- the producer's rounds

  /** How often file `f` is met in the inner loop from round `i` on. */
  function Stops(t: nat, i: nat, nr: nat, f: nat): nat
    requires t < FILES && i <= nr && (nr == 1 || nr == 2 || nr == 4)
    decreases nr - i
  {
    if i == nr then 0 else (if t == f then 1 else 0) + Stops(Stride(t, nr), i + 1, nr, f)
  }

  lemma {:induction false} FilesVisits(s: State, t: nat, i: nat, k: nat, f: nat)
    requires Sized(s) && t < FILES && i <= s.nr && f < FILES
    ensures Files(s, t, i, k).visits[f] == s.visits[f] + Stops(t, i, s.nr, f)
    decreases s.nr - i
  {
    hide Release;
    hide Stride;
    if i != s.nr {
      FilesVisits(Produce(Learnt(s, i == k), t), Stride(t, s.nr), i + 1, k, f);
    }
  }

  /** The tick number within the producer's cycle of forty-eight. */
  function Phase(idx: nat, nr: nat): (p: nat)
    requires idx < FILES && (nr == 1 || nr == 2 || nr == 4)
    ensures p < 48
  {
    idx + (if nr == 1 then 0 else if nr == 2 then 16 else 32)
  }

  function StopsAt(p: nat, f: nat): nat
    requires p < 48
  {
    Stops(p % 16, 0, if p < 16 then 1 else if p < 32 then 2 else 4, f)
  }

  /** The visits of `n` ticks starting at phase `p`. */
  function Window(p: nat, n: nat, f: nat): nat
    requires p < 48
    decreases n
  {
    if n == 0 then 0 else StopsAt(p, f) + Window(if p == 47 then 0 else p + 1, n - 1, f)
  }

  lemma TickPhase(s: State, k: nat, f: nat)
    requires Sized(s) && f < FILES
    ensures var r := TickStep(s, k);
            && r.visits[f] == s.visits[f] + StopsAt(Phase(s.idx, s.nr), f)
            && Phase(r.idx, r.nr) == (if Phase(s.idx, s.nr) == 47 then 0 else Phase(s.idx, s.nr) + 1)
  {
    hide Files;
    hide Stops;
    FilesVisits(s, s.idx, 0, k, f);
  }

  lemma {:induction false} WindowConcat(p: nat, a: nat, b: nat, f: nat)
    requires p < 48 && a <= 48
    ensures Window(p, a + b, f) == Window(p, a, f) + Window((p + a) % 48, b, f)
    decreases a
  {
    hide StopsAt;
    if a > 0 {
      WindowConcat(if p == 47 then 0 else p + 1, a - 1, b, f);
    }
  }

  /** A file index carried `d` files further round. */
  function Turn(t: nat, d: nat): (r: nat)
    requires t < FILES && d < FILES
    ensures r < FILES
  {
    if t + d < FILES then t + d else t + d - FILES
  }

  function Count(b: bool): nat { if b then 1 else 0 }

  lemma StrideTurns(t: nat)
    requires t < FILES
    ensures Stride(t, 2) == Turn(t, 8) && Stride(t, 4) == Turn(t, 4)
  {
  }

  /** The files met in one tick. */
  lemma StopsAre(t: nat, f: nat)
    requires t < FILES && f < FILES
    ensures Stops(t, 0, 1, f) == Count(t == f)
    ensures Stops(t, 0, 2, f) == Count(t == f) + Count(Turn(t, 8) == f)
    ensures Stops(t, 0, 4, f) == Count(t == f) + Count(Turn(t, 4) == f) + Count(Turn(t, 8) == f) + Count(Turn(t, 12) == f)
  {
    hide Stride;
    StrideTurns(t);
    StrideTurns(Turn(t, 4));
    StrideTurns(Turn(t, 8));
    assert Stops(Stride(t, 1), 1, 1, f) == 0;
    assert Stops(Turn(t, 8), 1, 2, f) == Count(Turn(t, 8) == f);
    assert Stops(Turn(t, 12), 3, 4, f) == Count(Turn(t, 12) == f);
    assert Stops(Turn(t, 8), 2, 4, f) == Count(Turn(t, 8) == f) + Stops(Turn(t, 12), 3, 4, f);
    assert Stops(Turn(t, 4), 1, 4, f) == Count(Turn(t, 4) == f) + Stops(Turn(t, 8), 2, 4, f);
  }

  lemma OneMoreTick(p: nat, n: nat, f: nat)
    requires p + n < 48
    ensures Window(p, n + 1, f) == Window(p, n, f) + StopsAt(p + n, f)
  {
    hide StopsAt;
    WindowConcat(p, n, 1, f);
    assert Window(p + n, 1, f) == StopsAt(p + n, f) + Window(if p + n == 47 then 0 else p + n + 1, 0, f);
  }

  /** The first `n` ticks at each stride. */
  lemma {:induction false} RowCounts(n: nat, f: nat)
    requires f < FILES && n <= FILES
    ensures Window(0, n, f) == Count(f < n)
    ensures Window(16, n, f) == Count(f < n) + Count(Turn(f, 8) < n)
    ensures Window(32, n, f) == Count(f < n) + Count(Turn(f, 4) < n) + Count(Turn(f, 8) < n) + Count(Turn(f, 12) < n)
    decreases n
  {
    hide Window;
    hide Stops;
    if n > 0 {
      RowCounts(n - 1, f);
      OneMoreTick(0, n - 1, f);
      OneMoreTick(16, n - 1, f);
      OneMoreTick(32, n - 1, f);
      StopsAre(n - 1, f);
      StopsAtRows(n - 1, f);
    } else {
      NoTicks(f);
    }
  }

  lemma NoTicks(f: nat)
    ensures Window(0, 0, f) == Window(16, 0, f) == Window(32, 0, f) == 0
  {
  }

  lemma StopsAtRows(t: nat, f: nat)
    requires t < FILES
    ensures StopsAt(t, f) == Stops(t, 0, 1, f) && StopsAt(16 + t, f) == Stops(t, 0, 2, f) && StopsAt(32 + t, f) == Stops(t, 0, 4, f)
  {
    hide Stops;
  }

  /** From any phase, forty-eight ticks meet every file seven times. */
  lemma {:induction false} CycleVisits(p: nat, f: nat)
    requires p < 48 && f < FILES
    ensures Window(p, 48, f) == 7
  {
    hide Window;
    RowCounts(16, f);
    WindowConcat(0, 16, 16, f);
    WindowConcat(0, 32, 16, f);
    WindowConcat(0, p, 48 - p, f);
    WindowConcat(p, 48 - p, p, f);
  }

  lemma OtherStepsVisitNothing(s: State, l: Label)
    requires Sized(s) && OnFile(l) && !l.Tick?
    ensures var r := Apply(s, l); r.visits == s.visits && r.idx == s.idx && r.nr == s.nr
  {
  }

  lemma {:induction false} RunVisits(s: State, ls: seq<Label>, f: nat)
    requires Sized(s) && RunAllowed(s, ls) && f < FILES
    ensures Run(s, ls).visits[f] == s.visits[f] + Window(Phase(s.idx, s.nr), Ticks(ls), f)
    decreases |ls|
  {
    hide Apply;
    hide StopsAt;
    hide Phase;
    if ls != [] {
      var r := Apply(s, ls[0]);
      RunVisits(r, ls[1..], f);
      if ls[0].Tick? {
        TickPhase(s, ls[0].learnAt, f);
        ApplyTick(s, ls[0].learnAt);
      } else {
        OtherStepsVisitNothing(s, ls[0]);
      }
    }
  }

  lemma ApplyTick(s: State, k: nat)
    requires Sized(s)
    ensures Apply(s, Tick(k)) == TickStep(s, k)
  {
  }

  /** In any run with forty-eight ticks, wherever it starts, the producer meets every file seven times. */
  lemma {:induction false} EveryCycleIsFair(s: State, ls: seq<Label>, f: nat)
    requires Sized(s) && RunAllowed(s, ls) && Ticks(ls) == 48 && f < FILES
    ensures Run(s, ls).visits[f] == s.visits[f] + 7
  {
    hide Run;
    hide RunAllowed;
    hide Window;
    RunVisits(s, ls, f);
    CycleVisits(Phase(s.idx, s.nr), f);
  }

  // ---------------------------------------------------------------- waiters

  /** `h` waits on a file with room. */
  ghost predicate Waiting(s: State, f: nat, h: Handle)
  {
    Inv(s) && f < FILES && s.fuse && s.ledger.slot[f] == Some(h) && s.cnt[f] < CNT_MAX
  }

  /** `h` was told, or somebody else took its place; either way it is gone. */
  ghost predicate Served(s: State, h: Handle, replaced: bool)
  {
    Destroyed(h) in s.ledger.events && (replaced || Notified(h) in s.ledger.events)
  }

  lemma ProduceServes(s: State, t: nat, f: nat, h: Handle)
    requires Waiting(s, f, h) && t < FILES
    ensures t == f ==> Served(Produce(s, t), h, false)
    ensures t != f ==> Waiting(Produce(s, t), f, h) && Produce(s, t).visits[f] == s.visits[f]
  {
    hide LedgerInv;
    ProduceKeeps(s, t);
  }

  lemma ProduceKeepsServed(s: State, t: nat, h: Handle, replaced: bool)
    requires Sized(s) && t < FILES && Served(s, h, replaced)
    ensures Served(Produce(s, t), h, replaced)
  {
  }

  lemma LearntServes(s: State, now: bool, h: Handle, replaced: bool)
    requires Served(s, h, replaced)
    ensures Served(Learnt(s, now), h, replaced)
  {
  }

  lemma {:induction false} FilesKeepServed(s: State, t: nat, i: nat, k: nat, h: Handle, replaced: bool)
    requires Sized(s) && t < FILES && i <= s.nr && Served(s, h, replaced)
    ensures Served(Files(s, t, i, k), h, replaced)
    decreases s.nr - i
  {
    hide Produce;
    hide Served;
    hide Stride;
    if i != s.nr {
      var s1 := Learnt(s, i == k);
      LearntServes(s, i == k, h, replaced);
      ProduceKeepsServed(s1, t, h, replaced);
      FilesKeepServed(Produce(s1, t), Stride(t, s.nr), i + 1, k, h, replaced);
    }
  }

  lemma {:induction false} FilesServe(s: State, t: nat, i: nat, k: nat, f: nat, h: Handle)
    requires Waiting(s, f, h) && t < FILES && i <= s.nr
    ensures var r := Files(s, t, i, k);
            Served(r, h, false) || (Waiting(r, f, h) && r.visits[f] == s.visits[f])
    decreases s.nr - i
  {
    hide Produce;
    hide Served;
    hide Stride;
    hide LedgerInv;
    if i != s.nr {
      assert Learnt(s, i == k) == s;
      ProduceServes(s, t, f, h);
      if t == f {
        FilesKeepServed(Produce(s, t), Stride(t, s.nr), i + 1, k, h, false);
      } else {
        FilesServe(Produce(s, t), Stride(t, s.nr), i + 1, k, f, h);
      }
    }
  }

  lemma TickServes(s: State, k: nat, f: nat, h: Handle)
    requires Waiting(s, f, h)
    ensures var r := TickStep(s, k); Served(r, h, false) || (Waiting(r, f, h) && r.visits[f] == s.visits[f])
  {
    hide Files;
    hide LedgerInv;
    FilesServe(s, s.idx, 0, k, f, h);
  }

  predicate Replaces(l: Label, f: nat) { l.Poll? && l.f == f && l.ph.Some? }

  lemma StepServes(s: State, l: Label, f: nat, h: Handle)
    requires Waiting(s, f, h) && Allowed(s, l)
    ensures var r := Apply(s, l);
            || Served(r, h, Replaces(l, f))
            || (Waiting(r, f, h) && r.visits[f] == s.visits[f] && !Replaces(l, f))
  {
    hide LedgerInv;
    match l
    case Learn =>
    case Poll(g, ph) => PollKeeps(s, g, ph);
    case ReadFile(g, size) => ReadKeeps(s, g, size);
    case Tick(k) =>
      hide TickStep;
      TickServes(s, k, f, h);
  }

  lemma StepKeepsServed(s: State, l: Label, h: Handle, replaced: bool)
    requires Sized(s) && OnFile(l) && Served(s, h, replaced)
    ensures Served(Apply(s, l), h, replaced)
  {
    if l.Tick? {
      hide Files;
      FilesKeepServed(s, s.idx, 0, l.learnAt, h, replaced);
    }
  }

  lemma {:induction false} RunKeepsServed(s: State, ls: seq<Label>, h: Handle, replaced: bool)
    requires Sized(s) && RunAllowed(s, ls) && Served(s, h, replaced)
    ensures Served(Run(s, ls), h, replaced)
    decreases |ls|
  {
    hide Served;
    hide Apply;
    if ls != [] {
      StepKeepsServed(s, ls[0], h, replaced);
      RunKeepsServed(Apply(s, ls[0]), ls[1..], h, replaced);
    }
  }

  ghost predicate SomeReplaces(ls: seq<Label>, f: nat)
  {
    exists i :: 0 <= i < |ls| && Replaces(ls[i], f)
  }

  lemma ServedWeaker(s: State, h: Handle, r1: bool, r2: bool)
    requires Served(s, h, r1) && (r1 ==> r2)
    ensures Served(s, h, r2)
  {
  }

  lemma ReplacesLater(ls: seq<Label>, f: nat)
    requires ls != [] && SomeReplaces(ls[1..], f)
    ensures SomeReplaces(ls, f)
  {
    var i :| 0 <= i < |ls[1..]| && Replaces(ls[1..][i], f);
    assert Replaces(ls[i + 1], f);
  }

  lemma {:induction false} RunServes(s: State, ls: seq<Label>, f: nat, h: Handle)
    requires Waiting(s, f, h) && RunAllowed(s, ls)
    ensures var r := Run(s, ls);
            || Served(r, h, SomeReplaces(ls, f))
            || (Waiting(r, f, h) && r.visits[f] == s.visits[f])
    decreases |ls|
  {
    hide Served;
    hide Apply;
    hide Replaces;
    hide LedgerInv;
    if ls != [] {
      var r := Apply(s, ls[0]);
      StepServes(s, ls[0], f, h);
      if Served(r, h, Replaces(ls[0], f)) {
        RunKeepsServed(r, ls[1..], h, Replaces(ls[0], f));
        ServedWeaker(Run(r, ls[1..]), h, Replaces(ls[0], f), SomeReplaces(ls, f));
      } else {
        RunServes(r, ls[1..], f, h);
        if Served(Run(r, ls[1..]), h, SomeReplaces(ls[1..], f)) {
          if SomeReplaces(ls[1..], f) {
            ReplacesLater(ls, f);
          }
          ServedWeaker(Run(r, ls[1..]), h, SomeReplaces(ls[1..], f), SomeReplaces(ls, f));
        }
      }
    }
  }

  /**
   A handle that waits on a file with room is gone within forty-eight ticks, whatever else
   happens meanwhile, and it was notified unless another poll of that file replaced it.
   */
  lemma {:induction false} NobodyWaitsForever(s: State, ls: seq<Label>, f: nat, h: Handle)
    requires Waiting(s, f, h) && RunAllowed(s, ls) && Ticks(ls) >= 48
    ensures var ev := Run(s, ls).ledger.events;
            Destroyed(h) in ev && (Notified(h) in ev || SomeReplaces(ls, f))
  {
    hide Run;
    hide RunAllowed;
    hide Window;
    hide SomeReplaces;
    hide LedgerInv;
    RunServes(s, ls, f, h);
    RunVisits(s, ls, f);
    var p := Phase(s.idx, s.nr);
    CycleVisits(p, f);
    WindowConcat(p, 48, Ticks(ls) - 48, f);
  }

  /** `h` waits on a file that is full. */
  ghost predicate Stuck(s: State, f: nat, h: Handle)
  {
    Sized(s) && f < FILES && s.ledger.slot[f] == Some(h) && s.cnt[f] == CNT_MAX
  }

  lemma {:induction false} FilesLeaveStuck(s: State, t: nat, i: nat, k: nat, f: nat, h: Handle)
    requires Stuck(s, f, h) && t < FILES && i <= s.nr
    ensures Stuck(Files(s, t, i, k), f, h)
    decreases s.nr - i
  {
    hide Stride;
    if i != s.nr {
      FilesLeaveStuck(Produce(Learnt(s, i == k), t), Stride(t, s.nr), i + 1, k, f, h);
    }
  }

  predicate Touches(l: Label, f: nat) { Replaces(l, f) || (l.ReadFile? && l.f == f && l.size > 0) }

  lemma StepLeavesStuck(s: State, l: Label, f: nat, h: Handle)
    requires Stuck(s, f, h) && OnFile(l) && !Touches(l, f)
    ensures Stuck(Apply(s, l), f, h)
  {
    if l.Tick? {
      hide Files;
      FilesLeaveStuck(s, s.idx, 0, l.learnAt, f, h);
    }
  }

  /** Room is needed: on a full file nobody reads or polls again, a handle waits as long as the run lasts. */
  lemma {:induction false} FullFileIsNotNotified(s: State, ls: seq<Label>, f: nat, h: Handle)
    requires Stuck(s, f, h) && RunAllowed(s, ls) && forall i :: 0 <= i < |ls| ==> !Touches(ls[i], f)
    ensures Run(s, ls).ledger.slot[f] == Some(h)
    decreases |ls|
  {
    hide Apply;
    if ls != [] {
      StepLeavesStuck(s, ls[0], f, h);
      FullFileIsNotNotified(Apply(s, ls[0]), ls[1..], f, h);
    }
  }

  // ---------------------------------------------------------------- a full file is reached

  /** Nobody has polled, and nobody has read from `f`: it holds what the producer brought, up to the limit. */
  ghost predicate Filling(s: State, f: nat)
  {
    && Sized(s) && f < FILES && s.fuse && s.ledger.events == [] && (forall g :: 0 <= g < FILES ==> !s.mask[g])
    && s.cnt[f] == if s.visits[f] < CNT_MAX then s.visits[f] else CNT_MAX
  }

  lemma {:induction false} FilesFill(s: State, t: nat, i: nat, k: nat, f: nat)
    requires Filling(s, f) && t < FILES && i <= s.nr
    ensures Filling(Files(s, t, i, k), f)
    decreases s.nr - i
  {
    hide Stride;
    if i != s.nr {
      FilesFill(Produce(Learnt(s, i == k), t), Stride(t, s.nr), i + 1, k, f);
    }
  }

  function TicksOnly(n: nat): seq<Label>
  {
    if n == 0 then [] else [Tick(0)] + TicksOnly(n - 1)
  }

  lemma {:induction false} TicksFill(s: State, n: nat, f: nat)
    requires Filling(s, f)
    ensures RunAllowed(s, TicksOnly(n)) && Ticks(TicksOnly(n)) == n && Filling(Run(s, TicksOnly(n)), f)
    decreases n
  {
    if n > 0 {
      var r := TickStep(s, 0);
      TickFills(s, f);
      ApplyTick(s, 0);
      hide Apply;
      hide TickStep;
      hide Filling;
      assert TicksOnly(n)[1..] == TicksOnly(n - 1);
      TicksFill(r, n - 1, f);
    }
  }

  lemma TickFills(s: State, f: nat)
    requires Filling(s, f)
    ensures Filling(TickStep(s, 0), f)
  {
    hide Files;
    FilesFill(s, s.idx, 0, 0, f);
  }

  lemma {:induction false} RunAppend(s: State, xs: seq<Label>, ys: seq<Label>)
    requires Sized(s) && RunAllowed(s, xs) && RunAllowed(Run(s, xs), ys)
    ensures RunAllowed(s, xs + ys) && Run(s, xs + ys) == Run(Run(s, xs), ys)
    decreases |xs|
  {
    hide Apply;
    if xs == [] {
      assert xs + ys == ys;
    } else {
      RunAppend(Apply(s, xs[0]), xs[1..], ys);
      assert (xs + ys)[1..] == xs[1..] + ys;
    }
  }

  lemma TwoCyclesFill(s: State, f: nat)
    requires Filling(s, f) && s.idx == 0 && s.nr == 1
    ensures RunAllowed(s, TicksOnly(96)) && Run(s, TicksOnly(96)).cnt[f] == CNT_MAX
  {
    hide Run;
    hide RunAllowed;
    hide Window;
    hide Ticks;
    TicksFill(s, 96, f);
    RunVisits(s, TicksOnly(96), f);
    WindowConcat(0, 48, 48, f);
    CycleVisits(0, f);
  }

  /** The steps that fill every file and then leave a handle waiting on file `f`. */
  function FillThenPoll(f: nat, h: Handle): seq<Label>
  {
    [Learn] + TicksOnly(96) + [Poll(f, Some(h))]
  }

  lemma OneStep(s: State, l: Label)
    requires Sized(s) && Allowed(s, l)
    ensures RunAllowed(s, [l]) && Run(s, [l]) == Apply(s, l)
  {
    assert [l][1..] == [];
  }

  /** A handle does come to wait on a full file with notifications known, from the start of the program. */
  lemma {:induction false} FullFileHappens(f: nat, h: Handle)
    requires f < FILES
    ensures RunAllowed(Init(), FillThenPoll(f, h))
    ensures Stuck(Run(Init(), FillThenPoll(f, h)), f, h) && Run(Init(), FillThenPoll(f, h)).fuse
  {
    hide Run;
    hide RunAllowed;
    hide TicksOnly;
    var s0 := Init();
    var s1 := Apply(s0, Learn);
    OneStep(s0, Learn);
    assert Filling(s1, f);
    TicksFill(s1, 96, f);
    TwoCyclesFill(s1, f);
    var s2 := Run(s1, TicksOnly(96));
    OneStep(s2, Poll(f, Some(h)));
    RunAppend(s0, [Learn], TicksOnly(96));
    RunAppend(s0, [Learn] + TicksOnly(96), [Poll(f, Some(h))]);
  }
}
