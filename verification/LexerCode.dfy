/** The ring lexer's routines themselves: `lex_readin`'s loop, `getc`, `peek`, checkpoint and restore. */
module LexerCode {
  import opened Words
  import opened SpscRing
  import opened Circular
  import opened Lexer

  lemma {:induction false} PushedAllConcat(q: Ring, xs: seq<Byte>, ys: seq<Byte>)
    requires RingOk(q)
    ensures PushedAll(PushedAll(q, xs), ys) == PushedAll(q, xs + ys)
  {
    if ys == [] {
      assert xs + ys == xs;
    } else {
      PushedAllConcat(q, xs, ys[..|ys| - 1]);
      assert (xs + ys)[..|xs + ys| - 1] == xs + ys[..|ys| - 1];
    }
  }

  lemma {:induction false} FlatPrefix(rs: Refill, i: nat)
    requires i <= |rs|
    ensures |Flat(rs[..i])| <= |Flat(rs)|
    decreases |rs|
  {
    if i == |rs| {
      assert rs[..i] == rs;
    } else {
      FlatPrefix(rs[..|rs| - 1], i);
      assert rs[..|rs| - 1][..i] == rs[..i];
    }
  }

  lemma ReadPushed(start: Ring, rs: Refill, i: nat)
    requires RingOk(start) && Count(start) == 0 && i < |rs| && |Flat(rs[..i])| < |start.buf|
    ensures Count(PushedAll(start, Flat(rs[..i]))) == |Flat(rs[..i])|
    ensures PushedAll(PushedAll(start, Flat(rs[..i])), rs[i]) == PushedAll(start, Flat(rs[..i + 1]))
    ensures |Flat(rs[..i + 1])| == |Flat(rs[..i])| + |rs[i]| <= |Flat(rs)|
  {
    PushAllAppends(start, Flat(rs[..i]));
    PushedAllConcat(start, Flat(rs[..i]), rs[i]);
    FlatPrefix(rs, i + 1);
    assert rs[..i + 1][..i] == rs[..i];
  }

  class CircLexer {
    const q: CircularQueue
    var n: nat
    var pending: seq<Refill>

    ghost predicate Valid()
      reads this, q, q.buf
    {
      q.Valid() && Arrivals(pending)
    }

    ghost function View(): Circ
      reads this, q, q.buf
    {
      Circ(q.View(), [], pending)
    }

    constructor (size: nat, input: seq<Refill>)
      requires RingSize(size) && Arrivals(input)
      ensures Valid() && fresh(q) && fresh(q.buf) && q.buf.Length == size
      ensures View().ring.head == 0 && View().ring.tail == 0 && pending == input
    {
      q := new CircularQueue(size);
      n, pending := 0, input;
    }

    /** `lex_readin` with data available: push every read of the refill; false is the panic. */
    method Readin() returns (ok: bool)
      requires Valid() && pending != [] && q.head == q.tail
      modifies this`pending, q`head, q.buf
      ensures Valid() && (ok <==> |Flat(old(pending)[0])| < q.buf.Length)
      ensures ok ==> View() == CircReadin(old(View()))
    {
      ghost var start := q.View();
      var refill := pending[0];
      pending := pending[1..];
      assert Arrivals(pending);
      for i := 0 to |refill|
        invariant pending == old(pending)[1..]
        invariant q.Valid() && q.View() == PushedAll(start, Flat(refill[..i])) && |Flat(refill[..i])| < q.buf.Length
      {
        ReadPushed(start, refill, i);
        var r := q.PushN(refill[i]);
        if r != Stored {
          return false;
        }
      }
      assert refill[..|refill|] == refill;
      return true;
    }

    method EnsureData() returns (r: Obs)
      requires Valid()
      modifies this`pending, q`head, q.buf
      ensures Valid() && r == CircFill(old(View())).1
      ensures r != Fails ==> View() == CircFill(old(View())).0
      ensures r == Silent ==> Contents(q.View()) != []
    {
      var empty := q.IsEmpty();
      if !empty {
        return Silent;
      }
      if pending == [] {
        return Waits;
      }
      ghost var start, refill := q.View(), Flat(pending[0]);
      var ok := Readin();
      if !ok {
        return Fails;
      }
      PushAllAppends(start, refill);
      return Silent;
    }

    method Getc() returns (r: Obs)
      requires Valid()
      modifies this, q, q.buf
      ensures Valid() && r == CircStep(old(View()), Op.Getc).1
      ensures r != Fails ==> View() == CircStep(old(View()), Op.Getc).0
    {
      n := n + 1;
      r := EnsureData();
      if r != Silent {
        return;
      }
      var ok, e := q.PopNonblock();
      return Char(e);
    }

    method Peek() returns (r: Obs)
      requires Valid()
      modifies this, q, q.buf
      ensures Valid() && r == CircStep(old(View()), Op.Peek).1
      ensures r != Fails ==> View() == CircStep(old(View()), Op.Peek).0
    {
      r := EnsureData();
      if r != Silent {
        return;
      }
      var ok, e := q.Peek();
      return Char(e);
    }

    method Buffered() returns (k: nat)
      requires Valid()
      ensures Number(k) == CircStep(View(), Op.Buffered).1
    {
      NelemIsCount(q.View());
      k := q.Nelems();
    }

    method Mark() returns (tail: nat)
      requires Valid()
      ensures tail == View().ring.tail
    {
      tail := q.tail;
    }

    method Restore(tail: nat)
      requires Valid() && tail < q.buf.Length
      modifies q`tail
      ensures Valid() && View() == old(View()).(ring := old(View()).ring.(tail := tail))
    {
      q.tail := tail;
    }
  }
}
