/** The intrusive queue of Q.h: blocks chained through their own `next` field. */
module ThreadQueue {
  import opened Words
  import opened ThreadSpec

  class Thread {
    var next: Thread?
    var tid: Word
    constructor () { next, tid := null, 0; }
  }

  function Inc(w: Word): Word { (w + 1) % WORD_LIMIT }

  function Dec(w: Word): Word { (w + WORD_LIMIT - 1) % WORD_LIMIT }

  lemma NextCount(n: nat)
    ensures (n + 1) % WORD_LIMIT == Inc(n % WORD_LIMIT)
  {
  }

  lemma InsertDistinct<T>(s: seq<T>, k: nat, x: T)
    requires Distinct(s) && k <= |s| && x !in s
    ensures Distinct(s[..k] + [x] + s[k..])
  {
  }

  lemma DistinctAt<T>(s: seq<T>, k: nat)
    requires Distinct(s) && k < |s|
    ensures forall i :: 0 <= i < |s| && i != k ==> s[i] != s[k]
  {
  }

  class Queue {
    var head: Thread?
    var tail: Thread?
    var cnt: Word
    ghost var items: seq<Thread>

    /** `items` is what following `next` from `head` visits, and `tail` is where that ends. */
    ghost predicate Valid()
      reads this, items`next
    {
      && Distinct(items)
      && cnt == |items| % WORD_LIMIT
      && (items == [] ==> head == null && tail == null)
      && (items != [] ==> head == items[0] && tail == items[|items| - 1] && items[|items| - 1].next == null)
      && forall i :: 0 <= i < |items| - 1 ==> items[i].next == items[i + 1]
    }

    constructor ()
      ensures Valid() && items == []
    {
      head, tail, cnt, items := null, null, 0, [];
    }

    /** Neither of the two checks inside `Q_empty` can fire. */
    method Empty() returns (b: bool)
      requires Valid()
      ensures b <==> items == []
    {
      if head != null { return false; }
      assert cnt == 0;
      assert tail == null;
      return true;
    }

    method Pop() returns (e: Thread?)
      requires Valid()
      modifies this
      ensures Valid()
      ensures old(items) == [] ==> e == null && items == []
      ensures old(items) != [] ==> e == old(items)[0] && items == old(items)[1..]
    {
      e := head;
      if e == null { return; }
      cnt := Dec(cnt);
      head := e.next;
      if head == null {
        tail := null;
      }
      items := items[1..];
    }

    method Append(e: Thread)
      requires Valid() && e !in items
      modifies this, e`next, items`next
      ensures Valid() && items == old(items) + [e]
    {
      hide Inc;
      NextCount(|items|);
      e.next := null;
      cnt := Inc(cnt);
      if tail == null {
        head, tail := e, e;
      } else {
        tail.next := e;
        tail := e;
      }
      items := items + [e];
    }

    method Push(e: Thread)
      requires Valid() && e !in items
      modifies this, e`next
      ensures Valid() && items == [e] + old(items)
    {
      hide Inc;
      NextCount(|items|);
      cnt := Inc(cnt);
      e.next := head;
      head := e;
      if tail == null {
        tail := e;
      }
      items := [e] + items;
    }

    /** `k` is where `e` stands in the queue. */
    method InsertAfter(e: Thread?, new_e: Thread, ghost k: nat)
      requires Valid() && new_e !in items
      requires e != null ==> k < |items| && items[k] == e
      modifies this, new_e`next, items`next
      ensures Valid()
      ensures items == if e == null then [new_e] + old(items) else old(items)[..k + 1] + [new_e] + old(items)[k + 1..]
    {
      if e == null {
        Push(new_e);
      } else if tail == e {
        assert k == |items| - 1;
        Append(new_e);
      } else {
        Splice(e, new_e, k);
      }
    }

    /** The middle case of `Q_insert_after`. */
    method Splice(e: Thread, new_e: Thread, ghost k: nat)
      requires Valid() && new_e !in items && k < |items| - 1 && items[k] == e
      modifies this, new_e`next, e`next
      ensures Valid() && items == old(items)[..k + 1] + [new_e] + old(items)[k + 1..]
    {
      hide Distinct;
      hide Inc;
      InsertDistinct(items, k + 1, new_e);
      NextCount(|items|);
      DistinctAt(items, k);
      ghost var was := items;
      ghost var now := was[..k + 1] + [new_e] + was[k + 1..];
      cnt := Inc(cnt);
      new_e.next := e.next;
      e.next := new_e;
      items := now;
      forall i | 0 <= i < |now| - 1
        ensures now[i].next == now[i + 1]
      {
        if i < k {
          assert now[i] == was[i] && now[i + 1] == was[i + 1];
        } else if i > k + 1 {
          assert now[i] == was[i - 1] && now[i + 1] == was[i];
        }
      }
      assert now[|now| - 1] == was[|was| - 1] && now[0] == was[0];
      assert cnt == |now| % WORD_LIMIT;
    }
  }

  /** A queue none of whose blocks changed is still a queue. */
  twostate lemma StillValid(q: Queue)
    requires old(q.Valid()) && unchanged(q)
    requires forall i :: 0 <= i < |q.items| ==> q.items[i].next == old(q.items[i].next)
    ensures q.Valid()
  {
  }
}
