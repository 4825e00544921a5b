/** The monitor of fsel.c: globals behind one mutex, each method one critical section. */
module Fsel {
  import opened Words
  import opened FselSpec
  import Proofs = FselProofs

  class Monitor {
    var cnt: seq<nat>
    var notifyMask: seq<bool>
    var pollHandle: seq<Option<Handle>>
    var fuse: bool
    var idx: nat
    var nr: nat

    // history
    ghost var events: seq<Event>
    ghost var produced: seq<nat>
    ghost var consumed: seq<nat>
    ghost var visits: seq<nat>

    ghost function Snapshot(): State
      reads this
    {
      State(cnt, notifyMask, Ledger(pollHandle, events), fuse, idx, nr, produced, consumed, visits)
    }

    ghost predicate Valid()
      reads this
    {
      Inv(Snapshot())
    }

    constructor ()
      ensures Valid() && Snapshot() == Init()
    {
      cnt, notifyMask, pollHandle := seq(FILES, _ => 0), seq(FILES, _ => false), seq(FILES, _ => None);
      fuse, idx, nr := false, 0, 1;
      events, produced, consumed, visits := [], Zeros(), Zeros(), Zeros();
      new;
      assert Snapshot() == Init();
    }

    /** The first poll learns where notifications go, if FUSE says so. */
    method LearnFuse(context: bool)
      requires Valid()
      modifies this
      ensures Valid() && Snapshot() == Learnt(old(Snapshot()), context)
    {
      hide LedgerInv;
      if !fuse && context {
        fuse := true;
      }
    }

    /** Calls into FUSE leave a line in the history. */
    ghost method Record(es: seq<Event>)
      modifies this`events
      ensures events == old(events) + es
    {
      events := events + es;
    }

    /** The locked part of `fsel_poll`; `readable` is POLLIN. */
    method Poll(f: nat, ph: Option<Handle>) returns (readable: bool)
      requires Valid() && f < FILES && Allowed(Snapshot(), FselSpec.Poll(f, ph))
      modifies this
      ensures Valid() && Snapshot() == PollStep(old(Snapshot()), f, ph)
      ensures readable <==> old(produced[f] > consumed[f])
    {
      hide LedgerInv;
      Proofs.PollKeeps(Snapshot(), f, ph);
      if ph.Some? {
        var oldph := pollHandle[f];
        assert events + [] == events;
        assert pollHandle[f := ph] == pollHandle[f := None][f := ph];
        if oldph.Some? {
          Record([Destroyed(oldph.value)]);
        }
        notifyMask := notifyMask[f := true];
        pollHandle := pollHandle[f := ph];
        Record([Registered(ph.value)]);
      }
      return cnt[f] > 0;
    }

    /** `fsel_read`: how many bytes were handed over. */
    method Read(f: nat, wanted: nat) returns (size: nat)
      requires Valid() && f < FILES
      modifies this
      ensures Valid() && Snapshot() == ReadStep(old(Snapshot()), f, wanted)
      ensures size <= wanted && size <= CNT_MAX && consumed[f] == old(consumed[f]) + size
      ensures size < wanted ==> consumed[f] == produced[f]
    {
      hide LedgerInv;
      Proofs.ReadKeeps(Snapshot(), f, wanted);
      size := wanted;
      if cnt[f] < size {
        size := cnt[f];
      }
      cnt := cnt[f := cnt[f] - size];
      consumed := Bump(consumed, f, size);
    }

    /** The body of the inner producer loop. */
    method ProduceOne(t: nat)
      requires Valid() && t < FILES
      modifies this
      ensures Valid() && Snapshot() == Produce(old(Snapshot()), t)
    {
      hide LedgerInv;
      Proofs.ProduceKeeps(Snapshot(), t);
      visits := Bump(visits, t, 1);
      if cnt[t] == CNT_MAX {
        return;
      }
      cnt := cnt[t := cnt[t] + 1];
      produced := Bump(produced, t, 1);
      if fuse && notifyMask[t] {
        var ph := pollHandle[t];
        assert ph.Some?;
        Record([Notified(ph.value)]);
        Record([Destroyed(ph.value)]);
        notifyMask := notifyMask[t := false];
        pollHandle := pollHandle[t := None];
      }
    }

    /** One turn of the producer; `learnAt` is the round before which a poller sets `fuse`, if one does. */
    method Tick(learnAt: nat)
      requires Valid()
      modifies this
      ensures Valid() && Snapshot() == TickStep(old(Snapshot()), learnAt)
    {
      hide LedgerInv;
      hide Produce;
      var t: nat, i: nat := idx, 0;
      Proofs.StepKeeps(Snapshot(), Label.Tick(learnAt));
      Proofs.ApplyTick(Snapshot(), learnAt);
      ghost var all := Files(Snapshot(), t, i, learnAt);
      while i < nr
        invariant Valid() && i <= nr && t < FILES && idx == old(idx) && nr == old(nr)
        invariant Files(Snapshot(), t, i, learnAt) == all
      {
        LearnFuse(i == learnAt);
        ProduceOne(t);
        t := (t + FILES / nr) % FILES;
        i := i + 1;
      }
      idx := (idx + 1) % FILES;
      if idx == 0 {
        nr := nr * 2 % 7;
      }
    }
  }
}
