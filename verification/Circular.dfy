/** The ring of `circular.h` used by one caller at a time. */
module Circular {
  import opened Words
  import opened ModArith
  import opened SpscRing

  /** The value of a ring: its buffer and two indices. */
  datatype Ring = Ring(buf: seq<Byte>, head: nat, tail: nat)

  predicate RingOk(q: Ring)
  {
    RingSize(|q.buf|) && q.head < |q.buf| && q.tail < |q.buf|
  }

  function Count(q: Ring): nat
    requires RingOk(q)
  {
    if q.head >= q.tail then q.head - q.tail else q.head - q.tail + |q.buf|
  }

  function Index(i: nat, n: nat): nat
    requires i < 2 * n
  {
    if i < n then i else i - n
  }

  /** The queued elements, oldest first. */
  function Contents(q: Ring): (s: seq<Byte>)
    requires RingOk(q)
    ensures |s| == Count(q)
    ensures forall i :: 0 <= i < |s| ==> s[i] == q.buf[Index(q.tail + i, |q.buf|)]
  {
    seq(Count(q), i requires 0 <= i < Count(q) => q.buf[Index(q.tail + i, |q.buf|)])
  }

  function Pushed(q: Ring, x: Byte): (r: Ring)
    requires RingOk(q)
    ensures RingOk(r)
  {
    q.(buf := q.buf[q.head := x], head := Index(q.head + 1, |q.buf|))
  }

  function PushedAll(q: Ring, xs: seq<Byte>): (r: Ring)
    requires RingOk(q)
    ensures RingOk(r) && r.tail == q.tail && |r.buf| == |q.buf|
  {
    if xs == [] then q else Pushed(PushedAll(q, xs[..|xs| - 1]), xs[|xs| - 1])
  }

  function Popped(q: Ring): (r: Ring)
    requires RingOk(q)
    ensures RingOk(r)
  {
    q.(tail := Index(q.tail + 1, |q.buf|))
  }

  lemma PushAppends(q: Ring, x: Byte)
    requires RingOk(q) && Count(q) + 1 < |q.buf|
    ensures Contents(Pushed(q, x)) == Contents(q) + [x]
  {
  }

  lemma {:induction false} PopTakesFirst(q: Ring)
    requires RingOk(q) && Count(q) > 0
    ensures Contents(q) == [q.buf[q.tail]] + Contents(Popped(q))
  {
    var r := [q.buf[q.tail]] + Contents(Popped(q));
    forall i | 0 <= i < Count(q)
      ensures Contents(q)[i] == r[i]
    {
      if i > 0 {
        assert r[i] == Contents(Popped(q))[i - 1];
      }
    }
  }

  lemma {:induction false} PushAllAppends(q: Ring, xs: seq<Byte>)
    requires RingOk(q) && Count(q) + |xs| < |q.buf|
    ensures Contents(PushedAll(q, xs)) == Contents(q) + xs
  {
    if xs != [] {
      var front := xs[..|xs| - 1];
      PushAllAppends(q, front);
      PushAppends(PushedAll(q, front), xs[|xs| - 1]);
      assert front + [xs[|xs| - 1]] == xs;
    }
  }

  lemma NelemIsCount(q: Ring)
    requires RingOk(q)
    ensures Nelem(q.head, q.tail, |q.buf|) == Count(q)
  {
    NelemExactIffSizeDivides(|q.buf|);
  }

  datatype PushOutcome = Refused | Stored | Panics

  lemma TakenInOrder(data: seq<Byte>, e: Byte, rest: seq<Byte>)
    ensures data + ([e] + rest) == data + [e] + rest
  {
  }

  class CircularQueue {
    const buf: array<Byte>
    var head: nat
    var tail: nat

    ghost predicate Valid()
      reads this, buf
    {
      RingOk(View())
    }

    ghost function View(): Ring
      reads this, buf
    {
      Ring(buf[..], head, tail)
    }

    /** `cq_init`, for a ring of `size` slots. */
    constructor (size: nat)
      requires RingSize(size)
      ensures Valid() && fresh(buf) && buf.Length == size && head == 0 && tail == 0 && Contents(View()) == []
    {
      buf := new Byte[size](_ => 0);
      head, tail := 0, 0;
    }

    method IsEmpty() returns (r: bool)
      requires Valid()
      ensures r <==> Contents(View()) == []
    {
      r := head == tail;
    }

    method IsFull() returns (r: bool)
      requires Valid()
      ensures r <==> |Contents(View())| == buf.Length - 1
    {
      ModNext(head, buf.Length);
      r := (head + 1) % buf.Length == tail;
    }

    method Nelems() returns (n: nat)
      requires Valid()
      ensures n == |Contents(View())|
    {
      NelemIsCount(View());
      n := ((head - tail) % 0x1_0000_0000) % buf.Length;
    }

    /** `cq_nspace`: one more than can actually be pushed. */
    method Nspace() returns (n: nat)
      requires Valid()
      ensures n == buf.Length - |Contents(View())|
    {
      var used := Nelems();
      n := buf.Length - used;
    }

    method Push(x: Byte) returns (ok: bool)
      requires Valid()
      modifies this`head, buf
      ensures Valid() && (ok <==> |Contents(old(View()))| + 1 < buf.Length)
      ensures View() == if ok then Pushed(old(View()), x) else old(View())
    {
      var h := head;
      var full := IsFull();
      if full {
        return false;
      }
      buf[h] := x;
      ModNext(h, buf.Length);
      head := (h + 1) % buf.Length;
      return true;
    }

    method PopNonblock() returns (ok: bool, e: Byte)
      requires Valid()
      modifies this`tail
      ensures Valid() && (ok <==> Contents(old(View())) != [])
      ensures ok ==> View() == Popped(old(View())) && Contents(old(View())) == [e] + Contents(View())
      ensures ok ==> e == old(View()).buf[old(tail)]
      ensures !ok ==> View() == old(View())
    {
      if head == tail {
        return false, 0;
      }
      PopTakesFirst(View());
      e := buf[tail];
      ModNext(tail, buf.Length);
      tail := (tail + 1) % buf.Length;
      ok := true;
    }

    method Peek() returns (ok: bool, e: Byte)
      requires Valid()
      ensures ok <==> Contents(View()) != []
      ensures ok ==> e == Contents(View())[0] == View().buf[tail]
    {
      if head == tail {
        return false, 0;
      }
      assert Contents(View())[0] == View().buf[Index(tail + 0, buf.Length)];
      return true, buf[tail];
    }

    /** `cq_pop_n_noblk`: all `n` elements in order, or nothing. */
    method PopN(n: nat) returns (ok: bool, data: seq<Byte>)
      requires Valid()
      modifies this`tail
      ensures Valid() && (ok <==> n <= |Contents(old(View()))|)
      ensures ok ==> |data| == n && Contents(old(View())) == data + Contents(View())
      ensures View() == old(View()).(tail := tail) && (!ok ==> View() == old(View()))
    {
      hide Contents;
      var have := Nelems();
      if have < n {
        return false, [];
      }
      data := [];
      ghost var start := View();
      for i := 0 to n
        invariant Valid() && |data| == i && Contents(start) == data + Contents(View())
        invariant View() == start.(tail := tail)
      {
        ghost var before := Contents(View());
        var popped, e := PopNonblock();
        assert popped && before == [e] + Contents(View());
        TakenInOrder(data, e, Contents(View()));
        data := data + [e];
      }
      ok := true;
    }

    /** `cq_peek_n`: the first `n` elements without consuming them. */
    method PeekN(n: nat) returns (ok: bool, data: seq<Byte>)
      requires Valid()
      modifies this`tail
      ensures View() == old(View()) && (ok <==> n <= |Contents(View())|)
      ensures ok ==> data == Contents(View())[..n]
    {
      var size := Nelems();
      if n > size {
        return false, [];
      }
      var saved := tail;
      ok, data := PopN(n);
      tail := saved;
    }

    /**
     `cq_push_n`: refuses what exceeds `cq_nspace`, stores everything when it fits, and reaches its
     panic exactly when asked for one byte more than the ring can hold.
     */
    method PushN(data: seq<Byte>) returns (r: PushOutcome)
      requires Valid()
      modifies this`head, buf
      ensures Valid()
      ensures r == Stored <==> |Contents(old(View()))| + |data| < buf.Length
      ensures r == Panics <==> |Contents(old(View()))| + |data| == buf.Length
      ensures r == Stored ==> View() == PushedAll(old(View()), data) && Contents(View()) == Contents(old(View())) + data
      ensures r == Refused ==> View() == old(View())
    {
      var space := Nspace();
      if space < |data| {
        return Refused;
      }
      for i := 0 to |data|
        invariant Valid() && |Contents(old(View()))| + i < buf.Length
        invariant View() == PushedAll(old(View()), data[..i])
      {
        PushAllAppends(old(View()), data[..i]);
        var ok := Push(data[i]);
        if !ok {
          return Panics;
        }
        assert data[..i + 1][..i] == data[..i];
      }
      assert data[..|data|] == data;
      PushAllAppends(old(View()), data);
      return Stored;
    }
  }
}
