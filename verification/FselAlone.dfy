/**
 One file of fsel.c on its own.  A file is described here by what a user of it can see: in which
 turns the producer comes by, how a visit stores a byte below the limit of ten and wakes the poller,
 and what a poll and a read do.  Every run of the sixteen files, seen from one of them, is this.
 */
module FselAlone {
  import opened Words
  import opened FselSpec
  import Proofs = FselProofs

  /** One file, with the number of producer turns so far and everything done with its own handles. */
  datatype File = File(
    turn: nat, fuse: bool, cnt: nat, produced: nat, consumed: nat, held: Option<Handle>, log: seq<Event>)

  /** Sixteen turns at one file each, sixteen at two files eight apart, sixteen at four files four apart. */
  predicate Met(turn: nat, f: nat)
  {
    var t, round := turn % 16, turn / 16 % 3;
    if round == 0 then f == t else if round == 1 then f % 8 == t % 8 else f % 4 == t % 4
  }

  function FilesPerTurn(turn: nat): nat
  {
    var round := turn / 16 % 3;
    if round == 0 then 1 else if round == 1 then 2 else 4
  }

  /** As which file of the turn a file is met. */
  function Order(turn: nat, f: nat): nat
    requires f < 16
  {
    var t := turn % 16;
    (if f >= t then f - t else f + 16 - t) / (16 / FilesPerTurn(turn))
  }

  /** A visit of the producer while the file holds fewer than ten bytes. */
  function Fed(x: File, notify: bool): File
  {
    var y := x.(cnt := x.cnt + 1, produced := x.produced + 1);
    if notify && x.held.Some? then
      y.(held := None, log := x.log + [Notified(x.held.value), Destroyed(x.held.value)])
    else y
  }

  function Alone(x: File, l: Label, f: nat): File
    requires f < 16
  {
    match l
    case Learn => x.(fuse := true)
    case Poll(g, ph) =>
      if g != f || ph.None? then x
      else x.(held := ph, log := x.log + (if x.held.Some? then [Destroyed(x.held.value)] else []) + [Registered(ph.value)])
    case ReadFile(g, size) =>
      if g != f then x
      else if x.cnt < size then x.(cnt := 0, consumed := x.consumed + x.cnt)
      else x.(cnt := x.cnt - size, consumed := x.consumed + size)
    case Tick(k) =>
      var y := if Met(x.turn, f) && x.cnt < 10 then Fed(x, x.fuse || k <= Order(x.turn, f)) else x;
      y.(turn := x.turn + 1, fuse := x.fuse || k < FilesPerTurn(x.turn))
  }

  function AloneRun(x: File, ls: seq<Label>, f: nat): File
    requires f < 16
    decreases |ls|
  {
    if ls == [] then x else AloneRun(Alone(x, ls[0], f), ls[1..], f)
  }

  function Untouched(): File { File(0, false, 0, 0, 0, None, []) }

  // ---------------------------------------------------------------- seeing one file

  /** What happened to the handles in `hs`. */
  function Seen(ev: seq<Event>, hs: set<Handle>): (r: seq<Event>)
  {
    if ev == [] then [] else Seen(ev[..|ev| - 1], hs) + (if ev[|ev| - 1].h in hs then [ev[|ev| - 1]] else [])
  }

  lemma SeenOne(ev: seq<Event>, e: Event, hs: set<Handle>)
    ensures Seen(ev + [e], hs) == Seen(ev, hs) + (if e.h in hs then [e] else [])
  {
    assert (ev + [e])[..|ev|] == ev;
  }

  lemma SeenTwo(ev: seq<Event>, d: Event, e: Event, hs: set<Handle>)
    requires d.h == e.h
    ensures Seen(ev + [d] + [e], hs) == Seen(ev, hs) + (if e.h in hs then [d, e] else [])
  {
    SeenOne(ev, d, hs);
    SeenOne(ev + [d], e, hs);
  }

  /** `x` is what file `f` of `s` looks like, its handles being those in `hs`. */
  ghost predicate Content(s: State, f: nat, hs: set<Handle>, x: File)
  {
    && Sized(s) && f < 16 && x.cnt <= 10
    && s.fuse == x.fuse && s.cnt[f] == x.cnt && s.produced[f] == x.produced && s.consumed[f] == x.consumed
    && s.ledger.slot[f] == x.held && (s.mask[f] <==> x.held.Some?)
    && Seen(s.ledger.events, hs) == x.log
    && forall g :: 0 <= g < 16 && s.ledger.slot[g].Some? ==> (s.ledger.slot[g].value in hs <==> g == f)
  }

  ghost predicate Shows(s: State, f: nat, hs: set<Handle>, x: File)
  {
    Content(s, f, hs, x) && s.idx == x.turn % 16 && s.nr == FilesPerTurn(x.turn)
  }

  // ---------------------------------------------------------------- a producer turn

  /** The inner loop as one file sees it, from round `i` at file `t` on. */
  function Rounds(x: File, t: nat, i: nat, nr: nat, k: nat, f: nat): File
    requires t < 16 && i <= nr && (nr == 1 || nr == 2 || nr == 4)
    decreases nr - i
  {
    if i == nr then x
    else
      var y := if i == k then x.(fuse := true) else x;
      Rounds(if t == f && x.cnt < 10 then Fed(y, y.fuse) else y, (t + 16 / nr) % 16, i + 1, nr, k, f)
  }

  lemma ProduceSeen(s: State, t: nat, f: nat, hs: set<Handle>, x: File)
    requires Content(s, f, hs, x) && t < 16
    ensures Content(Produce(s, t), f, hs, if t == f && x.cnt < 10 then Fed(x, x.fuse) else x)
  {
    hide Seen;
    if s.ledger.slot[t].Some? {
      var h := s.ledger.slot[t].value;
      SeenTwo(s.ledger.events, Notified(h), Destroyed(h), hs);
    }
  }

  lemma StrideIs(t: nat, nr: nat)
    requires t < 16 && (nr == 1 || nr == 2 || nr == 4)
    ensures Stride(t, nr) == (t + 16 / nr) % 16
  {
  }

  lemma {:induction false} FilesSeen(s: State, t: nat, i: nat, k: nat, f: nat, hs: set<Handle>, x: File)
    requires Content(s, f, hs, x) && t < 16 && i <= s.nr
    ensures Content(Files(s, t, i, k), f, hs, Rounds(x, t, i, s.nr, k, f))
    decreases s.nr - i
  {
    hide Produce;
    hide Seen;
    hide Fed;
    hide Stride;
    assert Stride(t, s.nr) == (t + 16 / s.nr) % 16 by {
      StrideIs(t, s.nr);
    }
    if i != s.nr {
      var s1 := Learnt(s, i == k);
      var x1 := if i == k then x.(fuse := true) else x;
      ProduceSeen(s1, t, f, hs, x1);
      FilesSeen(Produce(s1, t), Stride(t, s.nr), i + 1, k, f, hs, if t == f && x1.cnt < 10 then Fed(x1, x1.fuse) else x1);
    }
  }

  /** After how many strides the loop that is at file `t` meets file `f`, if it does. */
  function Strides(t: nat, f: nat, nr: nat): Option<nat>
    requires t < 16 && f < 16 && (nr == 1 || nr == 2 || nr == 4)
  {
    var a := if f >= t then f - t else f + 16 - t;
    if a == 0 then Some(0)
    else if nr == 2 && a == 8 then Some(1)
    else if nr == 4 && a == 4 then Some(1)
    else if nr == 4 && a == 8 then Some(2)
    else if nr == 4 && a == 12 then Some(3)
    else None
  }

  ghost predicate StridesOn(t: nat, f: nat, nr: nat)
    requires t < 16 && f < 16 && (nr == 1 || nr == 2 || nr == 4)
  {
    var a, b := Strides(t, f, nr), Strides((t + 16 / nr) % 16, f, nr);
    && (t == f ==> a == Some(0) && b == Some(nr - 1))
    && (t != f ==> if a.Some? then a.value > 0 && b == Some(a.value - 1) else b.None?)
  }

  lemma StridesByTwo(t: nat, f: nat)
    requires t < 16 && f < 16
    ensures StridesOn(t, f, 2)
  {
    assert (t + 8) % 16 == if t < 8 then t + 8 else t - 8;
  }

  lemma StridesByFour(t: nat, f: nat)
    requires t < 16 && f < 16
    ensures StridesOn(t, f, 4)
  {
    assert (t + 4) % 16 == if t < 12 then t + 4 else t - 12;
  }

  lemma StridesByOne(t: nat, f: nat)
    requires t < 16 && f < 16
    ensures StridesOn(t, f, 1)
  {
    assert (t + 16) % 16 == t;
  }

  lemma StridesGoOn(t: nat, f: nat, nr: nat)
    requires t < 16 && f < 16 && (nr == 1 || nr == 2 || nr == 4)
    ensures StridesOn(t, f, nr)
  {
    hide StridesOn;
    StridesByOne(t, f);
    StridesByTwo(t, f);
    StridesByFour(t, f);
  }

  lemma {:induction false} RoundsFrom(x: File, t: nat, i: nat, nr: nat, k: nat, f: nat)
    requires t < 16 && f < 16 && i <= nr && (nr == 1 || nr == 2 || nr == 4)
    ensures var a := Strides(t, f, nr);
            var fuse := x.fuse || i <= k < nr;
            Rounds(x, t, i, nr, k, f) ==
            if a.Some? && i + a.value < nr && x.cnt < 10 then Fed(x, x.fuse || i <= k <= i + a.value).(fuse := fuse)
            else x.(fuse := fuse)
    decreases nr - i
  {
    hide Strides;
    if i < nr {
      var y := if i == k then x.(fuse := true) else x;
      StridesGoOn(t, f, nr);
      RoundsFrom(if t == f && x.cnt < 10 then Fed(y, y.fuse) else y, (t + 16 / nr) % 16, i + 1, nr, k, f);
    }
  }

  lemma MetInTwos(t: nat, f: nat)
    requires t < 16 && f < 16
    ensures f % 8 == t % 8 <==> Strides(t, f, 2).Some?
  {
    assert t % 8 == if t < 8 then t else t - 8;
    assert f % 8 == if f < 8 then f else f - 8;
  }

  function LastTwoBits(f: nat): nat
  {
    if f < 4 then f else if f < 8 then f - 4 else if f < 12 then f - 8 else f - 12
  }

  lemma LastTwoBitsIs(f: nat)
    requires f < 16
    ensures f % 4 == LastTwoBits(f)
  {
  }

  lemma MetInFours(t: nat, f: nat)
    requires t < 16 && f < 16
    ensures LastTwoBits(f) == LastTwoBits(t) <==> Strides(t, f, 4).Some?
  {
  }

  lemma MetIffStrides(turn: nat, f: nat)
    requires f < 16
    ensures var a := Strides(turn % 16, f, FilesPerTurn(turn));
            && (Met(turn, f) <==> a.Some?)
            && (a.Some? ==> a.value == Order(turn, f) && a.value < FilesPerTurn(turn))
  {
    var t := turn % 16;
    LastTwoBitsIs(t);
    LastTwoBitsIs(f);
    MetInTwos(t, f);
    MetInFours(t, f);
    StridesAre(t, f);
    hide Strides;
    hide LastTwoBits;
  }

  lemma StridesAre(t: nat, f: nat)
    requires t < 16 && f < 16
    ensures var a := if f >= t then f - t else f + 16 - t;
            && (Strides(t, f, 1).Some? <==> t == f)
            && (Strides(t, f, 1).Some? ==> Strides(t, f, 1).value == a / 16 < 1)
            && (Strides(t, f, 2).Some? ==> Strides(t, f, 2).value == a / 8 < 2)
            && (Strides(t, f, 4).Some? ==> Strides(t, f, 4).value == a / 4 < 4)
  {
  }

  lemma RoundsAreTurn(x: File, k: nat, f: nat)
    requires f < 16
    ensures Rounds(x, x.turn % 16, 0, FilesPerTurn(x.turn), k, f).(turn := x.turn + 1) == Alone(x, Tick(k), f)
  {
    hide Met;
    hide Order;
    hide Strides;
    hide Rounds;
    MetIffStrides(x.turn, f);
    RoundsFrom(x, x.turn % 16, 0, FilesPerTurn(x.turn), k, f);
  }

  lemma NextTurn(turn: nat)
    ensures NextNr(turn % 16, FilesPerTurn(turn)) == FilesPerTurn(turn + 1)
    ensures (turn % 16 + 1) % 16 == (turn + 1) % 16
  {
    var q, r := turn / 16, turn % 16;
    if r == 15 {
      assert (turn + 1) / 16 == q + 1;
    } else {
      assert (turn + 1) / 16 == q;
    }
  }

  lemma TickSeen(s: State, k: nat, f: nat, hs: set<Handle>, x: File)
    requires Shows(s, f, hs, x)
    ensures Shows(TickStep(s, k), f, hs, Alone(x, Tick(k), f))
  {
    hide Seen;
    hide Files;
    hide Rounds;
    hide Met;
    hide FilesPerTurn;
    FilesSeen(s, s.idx, 0, k, f, hs, x);
    RoundsAreTurn(x, k, f);
    NextTurn(x.turn);
  }

  lemma PollSeen(s: State, g: nat, h: Handle, f: nat, hs: set<Handle>, x: File)
    requires Shows(s, f, hs, x) && g < 16 && (h in hs <==> g == f)
    ensures Shows(PollStep(s, g, Some(h)), f, hs, Alone(x, Poll(g, Some(h)), f))
  {
    hide Seen;
    var ev := s.ledger.events;
    if s.ledger.slot[g].Some? {
      SeenOne(ev, Destroyed(s.ledger.slot[g].value), hs);
      SeenOne(ev + [Destroyed(s.ledger.slot[g].value)], Registered(h), hs);
      assert ev + [] + [Destroyed(s.ledger.slot[g].value)] == ev + [Destroyed(s.ledger.slot[g].value)];
    } else {
      SeenOne(ev, Registered(h), hs);
      assert x.held.None? ==> x.log + [] == x.log;
    }
  }

  // ---------------------------------------------------------------- whole runs

  /** The handles polled with on file `f`. */
  ghost predicate Theirs(ls: seq<Label>, f: nat, hs: set<Handle>)
  {
    forall i :: 0 <= i < |ls| && ls[i].Poll? && ls[i].ph.Some? ==> (ls[i].ph.value in hs <==> ls[i].f == f)
  }

  lemma StepSeen(s: State, l: Label, f: nat, hs: set<Handle>, x: File)
    requires Shows(s, f, hs, x) && OnFile(l)
    requires l.Poll? && l.ph.Some? ==> (l.ph.value in hs <==> l.f == f)
    ensures Shows(Apply(s, l), f, hs, Alone(x, l, f))
  {
    match l
    case Learn =>
    case Poll(g, ph) =>
      if ph.Some? {
        PollSeen(s, g, ph.value, f, hs, x);
      }
    case ReadFile(g, size) =>
    case Tick(k) => TickSeen(s, k, f, hs, x);
  }

  lemma {:induction false} RunSeen(s: State, ls: seq<Label>, f: nat, hs: set<Handle>, x: File)
    requires Shows(s, f, hs, x) && RunAllowed(s, ls) && Theirs(ls, f, hs)
    ensures Shows(Run(s, ls), f, hs, AloneRun(x, ls, f))
    decreases |ls|
  {
    hide Apply;
    hide Alone;
    if ls != [] {
      StepSeen(s, ls[0], f, hs, x);
      RunSeen(Apply(s, ls[0]), ls[1..], f, hs, Alone(x, ls[0], f));
    }
  }

  lemma {:induction false} PolledNotAgain(s: State, ls: seq<Label>, h: Handle, j: nat)
    requires Sized(s) && RunAllowed(s, ls) && Registered(h) in s.ledger.events && j < |ls|
    ensures ls[j].Poll? ==> ls[j].ph != Some(h)
    decreases |ls|
  {
    hide Apply;
    if j > 0 {
      EventsStay(s, ls[0]);
      PolledNotAgain(Apply(s, ls[0]), ls[1..], h, j - 1);
    }
  }

  lemma {:induction false} FilesEventsStay(s: State, t: nat, i: nat, k: nat)
    requires Sized(s) && t < FILES && i <= s.nr
    ensures s.ledger.events <= Files(s, t, i, k).ledger.events
    decreases s.nr - i
  {
    hide Stride;
    if i != s.nr {
      FilesEventsStay(Produce(Learnt(s, i == k), t), Stride(t, s.nr), i + 1, k);
    }
  }

  lemma EventsStay(s: State, l: Label)
    requires Sized(s) && OnFile(l)
    ensures s.ledger.events <= Apply(s, l).ledger.events
  {
    if l.Tick? {
      FilesEventsStay(s, s.idx, 0, l.learnAt);
    }
  }

  lemma {:induction false} HandlesOnce(s: State, ls: seq<Label>, i: nat, j: nat)
    requires Sized(s) && RunAllowed(s, ls) && i < j < |ls| && ls[i].Poll? && ls[j].Poll? && ls[i].ph.Some?
    ensures ls[i].ph != ls[j].ph
    decreases |ls|
  {
    hide Release;
    hide TickStep;
    var s1 := Apply(s, ls[0]);
    if i == 0 {
      assert Registered(ls[0].ph.value) in s1.ledger.events;
      PolledNotAgain(s1, ls[1..], ls[0].ph.value, j - 1);
    } else {
      HandlesOnce(s1, ls[1..], i - 1, j - 1);
    }
  }

  /** The handles polled with on file `f` in a run. */
  ghost function HandlesOf(ls: seq<Label>, f: nat): set<Handle>
  {
    set i | 0 <= i < |ls| && ls[i].Poll? && ls[i].ph.Some? && ls[i].f == f :: ls[i].ph.value
  }

  /**
   Every run of the sixteen files with their shared handles and producer, seen from file `f`, is the
   run of that file alone: its bytes, its poller and the whole history of its handles.
   */
  lemma {:induction false} FileRunsAlone(ls: seq<Label>, f: nat)
    requires RunAllowed(Init(), ls) && f < 16
    ensures var s, x := Run(Init(), ls), AloneRun(Untouched(), ls, f);
            && s.cnt[f] == x.cnt && s.produced[f] == x.produced && s.consumed[f] == x.consumed
            && s.ledger.slot[f] == x.held && (s.mask[f] <==> x.held.Some?) && s.fuse == x.fuse
            && Seen(s.ledger.events, HandlesOf(ls, f)) == x.log
  {
    hide Run;
    hide AloneRun;
    hide RunAllowed;
    var hs := HandlesOf(ls, f);
    forall i | 0 <= i < |ls| && ls[i].Poll? && ls[i].ph.Some?
      ensures ls[i].ph.value in hs <==> ls[i].f == f
    {
      if ls[i].ph.value in hs {
        var j :| 0 <= j < |ls| && ls[j].Poll? && ls[j].ph.Some? && ls[j].f == f && ls[j].ph.value == ls[i].ph.value;
        if i < j {
          HandlesOnce(Init(), ls, i, j);
        } else if j < i {
          HandlesOnce(Init(), ls, j, i);
        }
      }
    }
    RunSeen(Init(), ls, f, hs, Untouched());
  }

  // ---------------------------------------------------------------- notifications and bytes

  lemma {:induction false} SeenHas(ev: seq<Event>, hs: set<Handle>, e: Event)
    requires e.h in hs
    ensures e in Seen(ev, hs) <==> e in ev
  {
    if ev != [] {
      assert ev == ev[..|ev| - 1] + [ev[|ev| - 1]];
      SeenHas(ev[..|ev| - 1], hs, e);
    }
  }

  /** `turn` numbers the producer turn that is due in `s`, up to whole cycles. */
  predicate Due(s: State, turn: nat)
  {
    s.idx == turn % 16 && s.nr == FilesPerTurn(turn)
  }

  function FileOf(s: State, turn: nat, f: nat, hs: set<Handle>): File
    requires Sized(s) && f < 16
  {
    File(turn, s.fuse, s.cnt[f], s.produced[f], s.consumed[f], s.ledger.slot[f], Seen(s.ledger.events, hs))
  }

  /**
   In a producer turn the handle waiting on file `f` is notified if and only if the turn comes to the
   file, finds fewer than ten bytes there and knows by then where notifications go.  At that moment
   the file has gained a byte, so the woken reader finds one.
   */
  lemma {:induction false} NotifiedIff(s: State, turn: nat, k: nat, f: nat, h: Handle)
    requires Inv(s) && Due(s, turn) && f < 16 && s.ledger.slot[f] == Some(h) && Notified(h) !in s.ledger.events
    ensures var r := Apply(s, Tick(k));
            && (Notified(h) in r.ledger.events <==> Met(turn, f) && s.cnt[f] < 10 && (s.fuse || k <= Order(turn, f)))
            && (Notified(h) in r.ledger.events ==>
                  && r.produced[f] == s.produced[f] + 1 && r.cnt[f] == s.cnt[f] + 1
                  && r.ledger.slot[f].None? && !r.mask[f] && Destroyed(h) in r.ledger.events)
            && (Notified(h) !in r.ledger.events ==> r.ledger.slot[f] == Some(h) && r.mask[f])
  {
    hide Seen;
    hide TickStep;
    hide Met;
    hide Order;
    var r := Apply(s, Tick(k));
    var x := FileOf(s, turn, f, {h});
    TickSeen(s, k, f, {h}, x);
    SeenHas(s.ledger.events, {h}, Notified(h));
    SeenHas(r.ledger.events, {h}, Notified(h));
    SeenHas(r.ledger.events, {h}, Destroyed(h));
  }

  /** Nothing else notifies, and nobody else is notified. */
  lemma {:induction false} NotifiedWasWaiting(s: State, l: Label, h: Handle)
    requires Inv(s) && Allowed(s, l) && Notified(h) !in s.ledger.events && Notified(h) in Apply(s, l).ledger.events
    ensures l.Tick? && Holds(s.ledger.slot, h)
  {
    hide Seen;
    hide TickStep;
    hide Met;
    hide Order;
    if l.Tick? && !Holds(s.ledger.slot, h) {
      var hs := {h} + (if s.ledger.slot[0].Some? then {s.ledger.slot[0].value} else {});
      var turn := Turn(s);
      TickSeen(s, l.learnAt, 0, hs, FileOf(s, turn, 0, hs));
      SeenHas(s.ledger.events, hs, Notified(h));
      SeenHas(Apply(s, l).ledger.events, hs, Notified(h));
      assert false;
    }
  }

  function Turn(s: State): (turn: nat)
    requires Sized(s)
    ensures Due(s, turn)
  {
    s.idx + (if s.nr == 1 then 0 else if s.nr == 2 then 16 else 32)
  }

  /** The producer's visits to file `f` that found fewer than ten bytes there. */
  function LowVisits(s: State, turn: nat, ls: seq<Label>, f: nat): nat
    requires Sized(s) && RunAllowed(s, ls) && f < 16
    decreases |ls|
  {
    if ls == [] then 0
    else if !ls[0].Tick? then LowVisits(Apply(s, ls[0]), turn, ls[1..], f)
    else (if Met(turn, f) && s.cnt[f] < 10 then 1 else 0) + LowVisits(Apply(s, ls[0]), turn + 1, ls[1..], f)
  }

  /** Over any run a file gains exactly one byte for each such visit, whoever polls or reads meanwhile. */
  lemma {:induction false} ProducedIsLowVisits(s: State, turn: nat, ls: seq<Label>, f: nat)
    requires Inv(s) && Due(s, turn) && RunAllowed(s, ls) && f < 16
    ensures Run(s, ls).produced[f] == s.produced[f] + LowVisits(s, turn, ls, f)
    decreases |ls|
  {
    hide Inv;
    hide Apply;
    hide Met;
    if ls != [] {
      Proofs.InvSized(s);
      Proofs.StepKeeps(s, ls[0]);
      if ls[0].Tick? {
        TickProduces(s, turn, ls[0].learnAt, f);
        ProducedIsLowVisits(Apply(s, ls[0]), turn + 1, ls[1..], f);
      } else {
        OthersProduceNothing(s, ls[0], f);
        ProducedIsLowVisits(Apply(s, ls[0]), turn, ls[1..], f);
      }
    }
  }

  lemma TickProduces(s: State, turn: nat, k: nat, f: nat)
    requires Inv(s) && Due(s, turn) && f < 16
    ensures var r := Apply(s, Tick(k));
            r.produced[f] == s.produced[f] + (if Met(turn, f) && s.cnt[f] < 10 then 1 else 0) && Due(r, turn + 1)
  {
    hide Seen;
    hide TickStep;
    hide Met;
    hide Order;
    hide FilesPerTurn;
    var hs := if s.ledger.slot[f].Some? then {s.ledger.slot[f].value} else {};
    TickSeen(s, k, f, hs, FileOf(s, turn, f, hs));
  }

  lemma OthersProduceNothing(s: State, l: Label, f: nat)
    requires Sized(s) && OnFile(l) && !l.Tick? && f < 16
    ensures var r := Apply(s, l); r.produced == s.produced && r.idx == s.idx && r.nr == s.nr
  {
  }
}
