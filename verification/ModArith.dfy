/** Remainders with a variable divisor, which the solver does not reason about on its own. */
module ModArith {

  lemma ModUnique(x: int, q: int, r: int, n: int)
    requires n > 0 && x == q * n + r && 0 <= r < n
    ensures x % n == r && x / n == q
  {
    var d := x / n - q;
    assert x == (x / n) * n + x % n;
    assert d * n == r - x % n;
    assert d >= 1 ==> d * n >= n;
    assert d <= -1 ==> d * n <= -n;
  }

  /** Advancing an index in a ring of `n` slots. */
  lemma ModNext(i: nat, n: nat)
    requires i < n
    ensures (i + 1) % n == if i + 1 == n then 0 else i + 1
  {
    if i + 1 == n {
      ModUnique(i + 1, 1, 0, n);
    } else {
      ModUnique(i + 1, 0, i + 1, n);
    }
  }

  lemma ModSmall(i: nat, n: nat)
    requires i < n
    ensures i % n == i
  {
    ModUnique(i, 0, i, n);
  }

  lemma ModSucc(i: nat, n: nat)
    requires n > 0
    ensures (i % n + 1) % n == (i + 1) % n
  {
    ModNext(i % n, n);
    if i % n + 1 == n {
      assert i + 1 == (i / n + 1) * n + 0;
      ModUnique(i + 1, i / n + 1, 0, n);
    } else {
      ModUnique(i + 1, i / n, i % n + 1, n);
    }
  }

  /** Indices closer together than the ring is long use different slots. */
  lemma ModDistinct(i: nat, j: nat, n: nat)
    requires i < j < i + n
    ensures i % n != j % n
  {
    var d := j / n - i / n;
    assert j - i == d * n + (j % n - i % n);
    assert d <= 0 ==> d * n <= 0;
    assert d >= 1 ==> d * n >= n;
  }

  /** The distance from slot `i % n` forward to slot `j % n`. */
  lemma ModDistance(i: nat, j: nat, n: nat)
    requires i <= j < i + n
    ensures (j % n - i % n) % n == j - i
  {
    var q := i / n - j / n;
    assert j % n - i % n == j - i + q * n;
    ModUnique(j % n - i % n, q, j - i, n);
  }

  /** Unsigned subtraction modulo a multiple of `n` does not disturb the remainder. */
  lemma ModOfWrapped(x: int, n: nat, w: nat)
    requires n > 0 && w > 0 && w % n == 0
    ensures (x % w) % n == x % n
  {
    var a, k, b := x / w, w / n, (x % w) / n;
    assert x == a * w + x % w;
    assert w == k * n;
    assert x % w == b * n + (x % w) % n;
    assert a * w == (a * k) * n by {
      MulAssoc(a, k, n);
    }
    assert x == (a * k + b) * n + (x % w) % n;
    ModUnique(x, a * k + b, (x % w) % n, n);
  }

  lemma ModAdd(q: nat, i: nat, n: nat)
    requires n > 0
    ensures (q % n + i) % n == (q + i) % n
  {
    var a, r := q / n, q % n;
    var b, c := (r + i) / n, (r + i) % n;
    MulDist(a, b, n);
    ModUnique(q + i, a + b, c, n);
  }

  lemma MulDist(a: int, b: int, c: int)
    ensures (a + b) * c == a * c + b * c
  {
  }

  lemma MulAssoc(a: int, b: int, c: int)
    ensures a * (b * c) == (a * b) * c
  {
  }

  /** The remainder of an index, by repeated subtraction: linear, so quantified facts about slots stay easy. */
  function Slot(i: nat, n: nat): (r: nat)
    requires n > 0
    ensures r < n
  {
    if i < n then i else Slot(i - n, n)
  }

  lemma {:induction false} SlotIsMod(i: nat, n: nat)
    requires n > 0
    ensures Slot(i, n) == i % n
  {
    if i < n {
      ModSmall(i, n);
    } else {
      SlotIsMod(i - n, n);
      ModUnique(i, (i - n) / n + 1, (i - n) % n, n);
    }
  }

  lemma SlotSucc(i: nat, n: nat)
    requires n > 0
    ensures (Slot(i, n) + 1) % n == Slot(i + 1, n)
  {
    SlotIsMod(i, n);
    SlotIsMod(i + 1, n);
    ModSucc(i, n);
  }

  lemma SlotDistinct(i: nat, j: nat, n: nat)
    requires i < j < i + n
    ensures Slot(i, n) != Slot(j, n)
  {
    SlotIsMod(i, n);
    SlotIsMod(j, n);
    ModDistinct(i, j, n);
  }

  lemma SlotDistance(i: nat, j: nat, n: nat)
    requires i <= j < i + n
    ensures (Slot(j, n) - Slot(i, n)) % n == j - i
  {
    SlotIsMod(i, n);
    SlotIsMod(j, n);
    ModDistance(i, j, n);
  }

  lemma SlotAdd(q: nat, i: nat, n: nat)
    requires n > 0
    ensures (Slot(q, n) + i) % n == Slot(q + i, n)
  {
    SlotIsMod(q, n);
    SlotIsMod(q + i, n);
    ModAdd(q, i, n);
  }
}
