/**
 The sixteen self-filling files of fsel.c as a state machine.  Every step below is one critical
 section of the monitor, so a list of steps is one interleaving of pollers, readers and producer.
 Beside the program's own variables the state carries its history: what was done with each poll
 handle, how many bytes each file gained and lost, and how often the producer came by.
 */
module FselSpec {
  import opened Words

  const CNT_MAX := 10
  const FILES := 16

  type Handle = nat

  datatype Event =
    | Registered(h: Handle)
    | Notified(h: Handle)
    | Destroyed(h: Handle)

  /** Who holds which handle, and everything ever done with handles. */
  datatype Ledger = Ledger(slot: seq<Option<Handle>>, events: seq<Event>)

  datatype State = State(
    cnt: seq<nat>,
    mask: seq<bool>,
    ledger: Ledger,
    fuse: bool,
    idx: nat,
    nr: nat,
    produced: seq<nat>,
    consumed: seq<nat>,
    visits: seq<nat>)

  datatype Label =
    | Learn
    | Poll(f: nat, ph: Option<Handle>)
    | ReadFile(f: nat, size: nat)
    | Tick(learnAt: nat) // the round of the inner loop before which the notification target is learnt, if any

  // ---------------------------------------------------------------- steps

  function Bump(xs: seq<nat>, f: nat, n: nat): (ys: seq<nat>)
    requires f < |xs|
    ensures |ys| == |xs|
  {
    xs[f := xs[f] + n]
  }

  function Release(l: Ledger, f: nat, notify: bool): (r: Ledger)
    requires f < |l.slot|
    ensures |r.slot| == |l.slot| && r.slot[f].None?
  {
    if l.slot[f].None? then l
    else
      var h := l.slot[f].value;
      Ledger(l.slot[f := None], l.events + (if notify then [Notified(h)] else []) + [Destroyed(h)])
  }

  function Register(l: Ledger, f: nat, h: Handle): (r: Ledger)
    requires f < |l.slot|
    ensures |r.slot| == |l.slot|
  {
    Ledger(l.slot[f := Some(h)], l.events + [Registered(h)])
  }

  predicate Sized(s: State)
  {
    && |s.cnt| == |s.mask| == |s.ledger.slot| == FILES
    && |s.produced| == |s.consumed| == |s.visits| == FILES
    && s.idx < FILES && (s.nr == 1 || s.nr == 2 || s.nr == 4)
  }

  /** `fsel_poll`: a new handle replaces, and destroys, the one before it. */
  function PollStep(s: State, f: nat, ph: Option<Handle>): (r: State)
    requires Sized(s) && f < FILES
    ensures Sized(r)
  {
    match ph
    case None => s
    case Some(h) => s.(ledger := Register(Release(s.ledger, f, false), f, h), mask := s.mask[f := true])
  }

  function Transferred(s: State, f: nat, size: nat): nat
    requires Sized(s) && f < FILES
  {
    if s.cnt[f] < size then s.cnt[f] else size
  }

  /** `fsel_read`. */
  function ReadStep(s: State, f: nat, size: nat): (r: State)
    requires Sized(s) && f < FILES
    ensures Sized(r)
  {
    var n := Transferred(s, f, size);
    s.(cnt := s.cnt[f := s.cnt[f] - n], consumed := Bump(s.consumed, f, n))
  }

  /** The producer at file `t`: nothing if it is full, else a byte and perhaps a notification. */
  function Produce(s: State, t: nat): (r: State)
    requires Sized(s) && t < FILES
    ensures Sized(r) && r.idx == s.idx && r.nr == s.nr
  {
    var v := s.(visits := Bump(s.visits, t, 1));
    if s.cnt[t] == CNT_MAX then v
    else
      var p := v.(cnt := Bump(s.cnt, t, 1), produced := Bump(s.produced, t, 1));
      if s.fuse && s.mask[t] then
        p.(ledger := Release(s.ledger, t, true), mask := s.mask[t := false])
      else p
  }

  function Stride(t: nat, nr: nat): (r: nat)
    requires t < FILES && (nr == 1 || nr == 2 || nr == 4)
    ensures r < FILES
  {
    (t + FILES / nr) % FILES
  }

  /** `fsel_fuse` is set outside the mutex, so also between two rounds of a producer turn. */
  function Learnt(s: State, now: bool): State
  {
    if now then s.(fuse := true) else s
  }

  /** The inner loop, from its `i`-th round on. */
  function Files(s: State, t: nat, i: nat, learnAt: nat): (r: State)
    requires Sized(s) && t < FILES && i <= s.nr
    ensures Sized(r) && r.idx == s.idx && r.nr == s.nr
    decreases s.nr - i
  {
    if i == s.nr then s else Files(Produce(Learnt(s, i == learnAt), t), Stride(t, s.nr), i + 1, learnAt)
  }

  function NextNr(idx: nat, nr: nat): nat
    requires idx < FILES
  {
    if (idx + 1) % FILES == 0 then nr * 2 % 7 else nr
  }

  /** One turn of `fsel_producer`. */
  function TickStep(s: State, learnAt: nat): (r: State)
    requires Sized(s)
    ensures Sized(r)
  {
    var r := Files(s, s.idx, 0, learnAt);
    r.(idx := (s.idx + 1) % FILES, nr := NextNr(s.idx, s.nr))
  }

  function Apply(s: State, l: Label): (r: State)
    requires Sized(s) && OnFile(l)
    ensures Sized(r)
  {
    match l
    case Learn => s.(fuse := true)
    case Poll(f, ph) => PollStep(s, f, ph)
    case ReadFile(f, size) => ReadStep(s, f, size)
    case Tick(k) => TickStep(s, k)
  }

  predicate OnFile(l: Label)
  {
    match l
    case Poll(f, _) => f < FILES
    case ReadFile(f, _) => f < FILES
    case _ => true
  }

  /** FUSE hands out each poll handle once. */
  predicate Allowed(s: State, l: Label)
  {
    OnFile(l) && (l.Poll? && l.ph.Some? ==> Registered(l.ph.value) !in s.ledger.events)
  }

  predicate RunAllowed(s: State, ls: seq<Label>)
    requires Sized(s)
    decreases |ls|
  {
    ls == [] || (Allowed(s, ls[0]) && RunAllowed(Apply(s, ls[0]), ls[1..]))
  }

  function Run(s: State, ls: seq<Label>): (r: State)
    requires Sized(s) && RunAllowed(s, ls)
    ensures Sized(r)
    decreases |ls|
  {
    if ls == [] then s else Run(Apply(s, ls[0]), ls[1..])
  }

  function Ticks(ls: seq<Label>): nat
  {
    if ls == [] then 0 else (if ls[0].Tick? then 1 else 0) + Ticks(ls[1..])
  }

  function Zeros(): (z: seq<nat>)
    ensures |z| == FILES && forall f :: 0 <= f < FILES ==> z[f] == 0
  {
    seq(FILES, _ => 0)
  }

  function Init(): (s: State)
    ensures Sized(s) && Inv(s)
  {
    State(Zeros(), seq(FILES, _ => false), Ledger(seq(FILES, _ => None), []), false, 0, 1, Zeros(), Zeros(), Zeros())
  }

  // ---------------------------------------------------------------- handles

  /** After a handle is destroyed nothing more happens to it; no handle is registered twice. */
  ghost predicate NeverAfterDestroy(ev: seq<Event>)
  {
    forall i, j :: 0 <= i < j < |ev| && ev[i].h == ev[j].h ==> !ev[i].Destroyed? && !ev[j].Registered?
  }

  ghost predicate Live(ev: seq<Event>, h: Handle)
  {
    Registered(h) in ev && Destroyed(h) !in ev
  }

  ghost predicate Holds(slot: seq<Option<Handle>>, h: Handle)
  {
    exists f :: 0 <= f < |slot| && slot[f] == Some(h)
  }

  ghost predicate OneHolder(slot: seq<Option<Handle>>)
  {
    forall f, g :: 0 <= f < |slot| && 0 <= g < |slot| && slot[f].Some? && slot[f] == slot[g] ==> f == g
  }

  /** Nothing happens to a handle before it is registered. */
  ghost predicate KnownOnly(ev: seq<Event>)
  {
    forall i :: 0 <= i < |ev| ==> Registered(ev[i].h) in ev
  }

  ghost predicate LedgerInv(l: Ledger)
  {
    && NeverAfterDestroy(l.events)
    && KnownOnly(l.events)
    && OneHolder(l.slot)
    && forall h :: Live(l.events, h) <==> Holds(l.slot, h)
  }

  ghost predicate BitsMatch(s: State)
    requires Sized(s)
  {
    forall f :: 0 <= f < FILES ==> (s.mask[f] <==> s.ledger.slot[f].Some?)
  }

  ghost predicate Conserved(s: State)
    requires Sized(s)
  {
    forall f :: 0 <= f < FILES ==>
                  s.produced[f] == s.consumed[f] + s.cnt[f] && s.cnt[f] <= CNT_MAX && s.produced[f] <= s.visits[f]
  }

  ghost predicate Inv(s: State)
  {
    Sized(s) && LedgerInv(s.ledger) && BitsMatch(s) && Conserved(s)
  }

  lemma {:induction false} ReleaseKeeps(l: Ledger, f: nat, notify: bool)
    requires LedgerInv(l) && f < |l.slot|
    ensures LedgerInv(Release(l, f, notify))
  {
    if l.slot[f].Some? {
      var h := l.slot[f].value;
      var r := Release(l, f, notify);
      assert Holds(l.slot, h);
      assert Live(l.events, h);
      forall g: Handle | Live(r.events, g)
        ensures Holds(r.slot, g)
      {
        assert Live(l.events, g);
        var i :| 0 <= i < |l.slot| && l.slot[i] == Some(g);
        assert r.slot[i] == Some(g);
      }
      forall g: Handle | Holds(r.slot, g)
        ensures Live(r.events, g)
      {
        var i :| 0 <= i < |r.slot| && r.slot[i] == Some(g);
        assert l.slot[i] == Some(g);
        assert Holds(l.slot, g);
        assert Live(l.events, g);
      }
    }
  }

  lemma {:induction false} RegisterKeeps(l: Ledger, f: nat, h: Handle)
    requires LedgerInv(l) && f < |l.slot| && l.slot[f].None? && Registered(h) !in l.events
    ensures LedgerInv(Register(l, f, h))
  {
    var r := Register(l, f, h);
    assert !Live(l.events, h);
    assert !Holds(l.slot, h);
    forall g: Handle | Live(r.events, g)
      ensures Holds(r.slot, g)
    {
      if g != h {
        assert Live(l.events, g);
        var i :| 0 <= i < |l.slot| && l.slot[i] == Some(g);
        assert r.slot[i] == Some(g);
      } else {
        assert r.slot[f] == Some(h);
      }
    }
    forall g: Handle | Holds(r.slot, g)
      ensures Live(r.events, g)
    {
      var i :| 0 <= i < |r.slot| && r.slot[i] == Some(g);
      if i != f {
        assert l.slot[i] == Some(g);
        assert Holds(l.slot, g);
        assert Live(l.events, g);
      }
    }
  }
}
