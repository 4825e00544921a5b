/**
 Where the ring lexer stands in the whole input, and what its two limits do: a restore that reaches
 back too far lands a whole number of rings later, and a refill that is too long panics.
 */
module RingPlace {
  import opened Words
  import opened ModArith
  import opened SpscRing
  import opened Circular
  import opened Lexer

  function FlatAll(pending: seq<Refill>): seq<Byte>
  {
    if pending == [] then [] else Flat(pending[0]) + FlatAll(pending[1..])
  }

  /** `have` bytes of the input have been read in, `pending` is yet to come, the next to be consumed is at `pos`. */
  datatype Place = Place(have: nat, pending: seq<Refill>, pos: nat)

  ghost predicate PlaceOk(input: seq<Byte>, a: Place)
  {
    a.pos <= a.have <= |input| && Arrivals(a.pending) && input == input[..a.have] + FlatAll(a.pending)
  }

  /** The keep-everything lexer at the same place. */
  function Keeper(input: seq<Byte>, a: Place): Simple
    requires a.have <= |input|
  {
    Simple(input[..a.have], a.pos, [], a.pending)
  }

  // ---------------------------------------------------------------- reading ahead

  /** Refills are read in until the byte at `x` is there, or none is left. */
  function Reach(a: Place, x: nat): (r: Place)
    ensures r.pos == a.pos && a.have <= r.have
    decreases |a.pending|
  {
    if a.have > x || a.pending == [] then a
    else Reach(Place(a.have + |Flat(a.pending[0])|, a.pending[1..], a.pos), x)
  }

  /** Every refill read in on the way fits a ring of `n` slots. */
  predicate RefillsFit(a: Place, x: nat, n: nat)
    decreases |a.pending|
  {
    a.have > x || a.pending == [] ||
    (|Flat(a.pending[0])| < n && RefillsFit(Place(a.have + |Flat(a.pending[0])|, a.pending[1..], a.pos), x, n))
  }

  lemma {:induction false} ReachTwice(a: Place, x: nat, y: nat, n: nat)
    requires x <= y
    ensures Reach(Reach(a, x), y) == Reach(a, y)
    ensures RefillsFit(a, y, n) <==> RefillsFit(a, x, n) && RefillsFit(Reach(a, x), y, n)
    decreases |a.pending|
  {
    if a.have <= x && a.pending != [] {
      ReachTwice(Place(a.have + |Flat(a.pending[0])|, a.pending[1..], a.pos), x, y, n);
    }
  }

  /** Reading ahead does not depend on what has been consumed. */
  lemma {:induction false} ReachMoved(a: Place, p: nat, x: nat, n: nat)
    ensures Reach(a.(pos := p), x) == Reach(a, x).(pos := p)
    ensures RefillsFit(a.(pos := p), x, n) == RefillsFit(a, x, n)
    decreases |a.pending|
  {
    if a.have <= x && a.pending != [] {
      ReachMoved(Place(a.have + |Flat(a.pending[0])|, a.pending[1..], a.pos), p, x, n);
    }
  }

  lemma {:induction false} ReachOk(input: seq<Byte>, a: Place, x: nat)
    requires PlaceOk(input, a)
    ensures PlaceOk(input, Reach(a, x)) && (x < |input| ==> x < Reach(a, x).have)
    decreases |a.pending|
  {
    if a.have <= x && a.pending != [] {
      var b := Place(a.have + |Flat(a.pending[0])|, a.pending[1..], a.pos);
      NextRefill(input, a);
      ReachOk(input, b, x);
    } else if a.pending == [] {
      assert |input| == |input[..a.have]|;
    }
  }

  lemma NextRefill(input: seq<Byte>, a: Place)
    requires PlaceOk(input, a) && a.pending != []
    ensures var b := Place(a.have + |Flat(a.pending[0])|, a.pending[1..], a.pos);
            PlaceOk(input, b) && input[..b.have] == input[..a.have] + Flat(a.pending[0])
  {
    var chunk, rest := Flat(a.pending[0]), FlatAll(a.pending[1..]);
    assert input == (input[..a.have] + chunk) + rest;
    assert input[..a.have + |chunk|] == input[..a.have] + chunk;
  }

  lemma {:induction false} Reached(a: Place, x: nat)
    ensures Reach(a, x).have > x || Reach(a, x).pending == []
    decreases |a.pending|
  {
    if a.have <= x && a.pending != [] {
      Reached(Place(a.have + |Flat(a.pending[0])|, a.pending[1..], a.pos), x);
    }
  }

  /** Looking again at what has been looked at reads in nothing. */
  lemma Again(a: Place, x: nat, n: nat)
    requires a.have > x || a.pending == []
    ensures Reach(a, x) == a && RefillsFit(a, x, n)
  {
  }

  /** `a` lies on the way from `b` to reading in the byte at `x`. */
  ghost predicate Onward(a: Place, b: Place, x: nat, n: nat)
  {
    Reach(a, x) == Reach(b, x).(pos := a.pos) && (RefillsFit(a, x, n) <==> RefillsFit(b, x, n))
  }

  lemma OnwardStart(b: Place, p: nat, x: nat, n: nat)
    ensures Onward(b.(pos := p), b, x, n)
  {
    ReachMoved(b, p, x, n);
  }

  /** Looking at an earlier byte stays on the way; if its refill does not fit, the way is blocked. */
  lemma OnwardStep(a: Place, b: Place, y: nat, p: nat, x: nat, n: nat)
    requires Onward(a, b, x, n) && y <= x
    ensures RefillsFit(a, y, n) ==> Onward(Reach(a, y).(pos := p), b, x, n)
    ensures !RefillsFit(a, y, n) ==> !RefillsFit(b, x, n)
  {
    ReachTwice(a, y, x, n);
    ReachMoved(Reach(a, y), p, x, n);
  }

  lemma OnwardEnd(a: Place, b: Place, x: nat, n: nat)
    requires Onward(a, b, x, n) && (a.have > x || a.pending == [])
    ensures a == Reach(b, x).(pos := a.pos) && RefillsFit(b, x, n)
  {
  }

  // ---------------------------------------------------------------- going back

  /** Where restoring a checkpoint taken at `m` puts a ring of `n` slots whose newest byte is before `have`. */
  function Landing(have: nat, m: nat, n: nat): (r: nat)
    requires n > 0 && m <= have
    ensures m <= r <= have < r + n && (r == m <==> have < m + n) && Slot(r, n) == Slot(m, n)
    decreases have - m
  {
    if have < m + n then m else Landing(have, m + n, n)
  }

  /** However far back a checkpoint lies, the ring behaves as if it had been taken where the restore lands. */
  lemma {:induction false} RestoreLands(c: Circ, s: Simple, m: nat)
    requires Sim(c, s) && m <= |s.stream|
    ensures var n := |c.ring.buf|;
            Sim(c.(ring := c.ring.(tail := Slot(m, n))), s.(pos := Landing(|s.stream|, m, n)))
  {
  }

  /** A peek of the ring lexer, in terms of the whole input. */
  lemma {:induction false} PeekPlace(input: seq<Byte>, c: Circ, a: Place)
    requires PlaceOk(input, a) && Sim(c, Keeper(input, a))
    ensures var n := |c.ring.buf|;
            && (CircStep(c, Peek).1 == Fails <==> !RefillsFit(a, a.pos, n))
            && (RefillsFit(a, a.pos, n) ==>
                  && PlaceOk(input, Reach(a, a.pos)) && Sim(CircStep(c, Peek).0, Keeper(input, Reach(a, a.pos)))
                  && CircStep(c, Peek).1 == (if a.pos < |input| then Char(input[a.pos]) else Waits)
                  && |CircStep(c, Peek).0.ring.buf| == n)
  {
    var s := Keeper(input, a);
    DryTogether(c, s);
    if a.have == a.pos && a.pending != [] {
      NextRefill(input, a);
      var b := Place(a.have + |Flat(a.pending[0])|, a.pending[1..], a.pos);
      assert Reach(a, a.pos) == b;
      assert SimpleReadin(s) == Keeper(input, b);
    } else if a.pending == [] {
      assert |input| == |input[..a.have]|;
    }
    if FitsStep(|c.ring.buf|, s, Peek) {
      StepAgrees(c, s, Peek);
    }
  }

  lemma {:induction false} GetcPlace(input: seq<Byte>, c: Circ, a: Place)
    requires PlaceOk(input, a) && Sim(c, Keeper(input, a))
    ensures var n := |c.ring.buf|;
            && CircStep(c, Getc).1 == CircStep(c, Peek).1
            && (CircStep(c, Getc).1 == Fails <==> !RefillsFit(a, a.pos, n))
            && (RefillsFit(a, a.pos, n) ==>
                  var b := Reach(a, a.pos).(pos := if a.pos < |input| then a.pos + 1 else a.pos);
                  && PlaceOk(input, b) && Sim(CircStep(c, Getc).0, Keeper(input, b))
                  && |CircStep(c, Getc).0.ring.buf| == n)
  {
    PeekPlace(input, c, a);
    SimOk(c, Keeper(input, a));
    GetcIsPeekAndPop(c);
    ReachOk(input, a, a.pos);
    hide CircStep;
    hide Sim;
    hide Reach;
    hide RefillsFit;
    hide FlatAll;
    hide Arrivals;
    var d, s := CircStep(c, Peek).0, Keeper(input, Reach(a, a.pos));
    if RefillsFit(a, a.pos, |c.ring.buf|) && a.pos < |input| {
      PopKeepsSim(d, s);
      assert Keeper(input, Reach(a, a.pos).(pos := a.pos + 1)) == s.(pos := a.pos + 1);
    }
  }

  lemma GetcIsPeekAndPop(c: Circ)
    requires CircOk(c)
    ensures var (d, o) := CircStep(c, Peek);
            CircStep(c, Getc) == (if o.Char? then d.(ring := Popped(d.ring)) else d, o)
  {
    hide CircFill;
    FillIsSilent(c);
  }

  lemma FillIsSilent(c: Circ)
    requires CircOk(c)
    ensures !CircFill(c).1.Char?
  {
  }
}
