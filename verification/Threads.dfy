/** The thread-block cache of rpi-thread.c: two queues that share the blocks' `next` field. */
module Threads {
  import opened Words
  import opened ThreadSpec
  import opened ThreadQueue

  class ThreadSystem {
    const runq: Queue
    const freeq: Queue
    var tid: Word
    var nalloced: Word
    ghost var st: State<Thread>

    ghost predicate Stamped()
      reads this`st, st.made`tid
    {
      st.made == st.stamp.Keys && forall t <- st.made :: t.tid == TidOf(st.stamp[t])
    }

    ghost predicate Valid()
      reads this, runq, freeq, runq.items`next, freeq.items`next, st.made`tid
    {
      && runq != freeq && runq.Valid() && freeq.Valid()
      && runq.items == st.run && freeq.items == st.free && Inv(st)
      && nalloced == |st.made| % WORD_LIMIT && tid == TidOf(st.given)
      && Stamped()
    }

    constructor ()
      ensures Valid() && st == Init()
    {
      runq := new Queue();
      freeq := new Queue();
      tid, nalloced := 1, 0;
      st := Init();
    }

    /** A cached block, or a new one. */
    method Obtain() returns (t: Thread)
      requires freeq.Valid()
      modifies this`nalloced, freeq
      ensures freeq.Valid()
      ensures if old(freeq.items) == []
              then fresh(t) && freeq.items == [] && nalloced == Inc(old(nalloced))
              else t == old(freeq.items)[0] && freeq.items == old(freeq.items)[1..] && nalloced == old(nalloced)
    {
      var p := freeq.Pop();
      if p == null {
        t := new Thread();
        nalloced := Inc(nalloced);
      } else {
        t := p;
      }
    }

    /** The block gets the next id. */
    method Hand(t: Thread, ghost r: State<Thread>)
      requires Stamped() && tid == TidOf(st.given)
      requires r.stamp == st.stamp[t := st.given] && r.given == st.given + 1 && r.made == st.made + {t}
      modifies this`tid, this`st, t`tid
      ensures st == r && Stamped() && tid == TidOf(r.given) && t.tid == old(tid)
    {
      NextTid(st.given);
      hide TidOf;
      t.tid := tid;
      tid := Inc(tid);
      st := r;
    }

    /** `th_alloc`: a cached block if there is one, else a new one; never one that is held or queued to run. */
    method Alloc() returns (t: Thread)
      requires Valid()
      modifies this, freeq, freeq.items`tid
      ensures Valid() && st == AllocStep(old(st), t).0
      ensures if old(freeq.items) == [] then fresh(t) else t == old(freeq.items)[0]
      ensures t !in old(st.live) && t !in runq.items && t !in freeq.items
      ensures t.tid == TidOf(old(st.given))
    {
      hide Inv;
      hide Queue.Valid;
      hide ThreadSystem.Stamped;
      hide AllocStep;
      hide Inc;
      hide TidOf;
      ghost var s := st;
      t := Obtain();
      AllocFacts(s, t);
      Hand(t, AllocStep(s, t).0);
    }

    /** `th_free`. */
    method Free(th: Thread)
      requires Valid() && th in st.live
      modifies this, freeq, th`next
      ensures Valid() && st == Apply(old(st), Op.Free(th))
    {
      hide Inv;
      hide Queue.Valid;
      hide ThreadSystem.Stamped;
      Apart(st);
      StepKeeps(st, Op.Free(th));
      freeq.Push(th);
      Move(Apply(st, Op.Free(th)));
    }

    /** Book-keeping for a block that changes its place. */
    ghost method Move(r: State<Thread>)
      requires Stamped() && r.made == st.made && r.stamp == st.stamp && r.given == st.given
      modifies this`st
      ensures st == r && Stamped()
    {
      st := r;
    }

    /** The end of `rpi_fork`. */
    method Enqueue(t: Thread)
      requires Valid() && t in st.live
      modifies this, runq, t`next, runq.items`next
      ensures Valid() && st == Apply(old(st), Op.Enqueue(t))
    {
      hide Inv;
      hide Queue.Valid;
      hide ThreadSystem.Stamped;
      Apart(st);
      StepKeeps(st, Op.Enqueue(t));
      assert forall i :: 0 <= i < |freeq.items| ==> freeq.items[i] !in runq.items && freeq.items[i] != t;
      label before:
      runq.Append(t);
      StillValid@before(freeq);
      Move(Apply(st, Op.Enqueue(t)));
    }

    /** The next thread to run, if there is one. */
    method Dequeue() returns (t: Thread?)
      requires Valid()
      modifies this, runq
      ensures Valid() && st == Apply(old(st), Op.Dequeue)
      ensures if old(runq.items) == [] then t == null else t == old(runq.items)[0]
    {
      hide Inv;
      hide Queue.Valid;
      hide ThreadSystem.Stamped;
      StepKeeps(st, Op.Dequeue);
      t := runq.Pop();
      Move(Apply(st, Op.Dequeue));
    }

    /** `rpi_fork` without the stack set-up. */
    method Fork() returns (t: Thread)
      requires Valid()
      modifies this, runq, freeq, runq.items`next, freeq.items
      ensures Valid() && st == Apply(AllocStep(old(st), t).0, Op.Enqueue(t))
      ensures runq.items == old(runq.items) + [t] && t !in old(runq.items) && t !in old(st.live)
    {
      hide Inv;
      hide Queue.Valid;
      hide ThreadSystem.Stamped;
      hide AllocStep;
      ghost var s := st;
      Apart(s);
      t := Alloc();
      AllocFacts(s, t);
      Enqueue(t);
    }

    /** The count test of `rpi_internal_check`: it passes exactly when nothing is handed out. */
    method InternalCheck() returns (ok: bool)
      requires Valid()
      ensures ok <==> |st.live| % WORD_LIMIT == 0
    {
      var nfree, nrun := freeq.cnt, runq.cnt;
      var n: Word := (nfree + nrun) % WORD_LIMIT;
      ok := nalloced == n;
      BlocksAddUp(st);
      SumTest(|runq.items|, |freeq.items|, |st.live|);
    }
  }

  lemma NextTid(i: nat)
    ensures TidOf(i + 1) == Inc(TidOf(i))
  {
  }

  /** What an allocation changes, in one place. */
  lemma AllocFacts<T>(s: State<T>, t: T)
    requires Inv(s) && (if s.free == [] then t !in s.made else t == s.free[0])
    ensures var r := AllocStep(s, t).0;
            && r.run == s.run && r.free == (if s.free == [] then [] else s.free[1..])
            && r.stamp == s.stamp[t := s.given] && r.given == s.given + 1
            && t in r.live && r.made == s.made + {t} && t !in s.live && t !in r.run && t !in r.free
            && |r.made| % WORD_LIMIT == (if s.free == [] then Inc(|s.made| % WORD_LIMIT) else |s.made| % WORD_LIMIT)
            && Inv(r)
  {
    hide Inv;
    hide Inc;
    AllocKeeps(s, t);
    AllocIsNew(s, t);
    Apart(s);
    Apart(AllocStep(s, t).0);
    if s.free == [] {
      assert |s.made + {t}| == |s.made| + 1;
      NextCount(|s.made|);
    } else {
      assert s.made + {t} == s.made;
    }
  }

  lemma SumTest(run: nat, free: nat, live: nat)
    ensures (run + free + live) % WORD_LIMIT == (free % WORD_LIMIT + run % WORD_LIMIT) % WORD_LIMIT <==> live % WORD_LIMIT == 0
  {
  }
}
