/** `pi-random.c`: the generator object, its two chasing pointers and its state arrays. */
module Random {
  import opened Words
  import opened ModArith
  import opened RandomSpec

  /** Adding the rear entry into the front one and advancing shifts the window read from the front. */
  lemma {:induction false} ChaseIsShift(table: seq<Word>, f: nat, r: nat, sep: nat, v: Word)
    requires 0 < sep < |table| && f < |table| && r < |table|
    requires r == (if f >= sep then f - sep else f - sep + |table|)
    requires v == (table[f] as int + table[r]) % 0x1_0000_0000
    ensures var w := Rotated(table[f := v], if f + 1 == |table| then 0 else f + 1);
            w == Shift(Rotated(table, f), sep) && w[|w| - 1] == v
  {
    var w := Rotated(table, f);
    var f1 := if f + 1 == |table| then 0 else f + 1;
    RotatedEntries(table, f, sep);
    RotatedFurther(table, f, v);
    hide Rotated;
    var u := Rotated(table[f := v], f1);
    assert u == w[1..] + [v];
    assert u[|u| - 1] == v;
  }

  /** The first entry read from `f` is the one there, and the one `sep` before the end is `sep` places behind it in the ring. */
  lemma RotatedEntries(table: seq<Word>, f: nat, sep: nat)
    requires 0 < sep < |table| && f < |table|
    ensures var w := Rotated(table, f);
            w[0] == table[f] && w[|w| - sep] == table[if f >= sep then f - sep else f - sep + |table|]
  {
  }

  lemma RotatedFurther(table: seq<Word>, f: nat, v: Word)
    requires f < |table|
    ensures Rotated(table[f := v], if f + 1 == |table| then 0 else f + 1) == Rotated(table, f)[1..] + [v]
  {
    var t := table[f := v];
    assert Rotated(table, f)[1..] == table[f + 1..] + table[..f];
    assert t[..f + 1] == table[..f] + [v];
    assert t[f + 1..] == table[f + 1..];
    if f + 1 == |table| {
      assert t == t[..f + 1] && table[f + 1..] == [];
    }
  }

  lemma {:induction false} SlotPeriod(i: nat, m: nat, n: nat)
    requires n > 0
    ensures Slot(i + m * n, n) == Slot(i, n)
  {
    if m > 0 {
      assert i + m * n == i + (m - 1) * n + n;
      SlotPeriod(i, m - 1, n);
    }
  }

  lemma NextSlot(i: nat, n: nat)
    requires n > 0
    ensures Slot(i + 1, n) == if Slot(i, n) + 1 == n then 0 else Slot(i, n) + 1
  {
    SlotSucc(i, n);
    ModNext(Slot(i, n), n);
  }

  class RandomData {
    // The state array with its header at index 0; the C state pointer is the element after it.
    var arr: array<Word>
    var kind: nat
    var deg: nat
    var sep: nat
    var f: nat
    var r: nat

    constructor (a: array<Word>)
      ensures arr == a
    {
      arr, kind, deg, sep, f, r := a, 0, 0, 0, 0, 0;
    }

    /** The pointers are always `sep` entries apart, which is why they never wrap on the same draw. */
    ghost predicate Valid()
      reads this
    {
      && kind < MAX_TYPES && deg == Degree(kind) && sep == Separation(kind)
      && deg < arr.Length && 2 <= arr.Length
      && (kind > 0 ==> 0 < sep < deg < 64 && f < deg && r < deg && r == (if f >= sep then f - sep else f - sep + deg))
    }

    ghost function View(): (g: Gen)
      requires Valid()
      reads this, arr
      ensures GenOk(g) && (g.Lcg? <==> kind == 0)
    {
      if kind == 0 then Lcg(arr[1]) else Trinomial(kind, Rotated(arr[1..1 + deg], f))
    }

    /** The additive-feedback branch of `pi_random_r`. */
    method Chase() returns (val: Word)
      requires Valid() && kind > 0
      modifies this`f, this`r, arr
      ensures Valid() && f == (if old(f) + 1 == deg then 0 else old(f) + 1)
      ensures arr[0] == old(arr[0])
      ensures Rotated(arr[1..1 + deg], f) == Shift(old(Rotated(arr[1..1 + deg], f)), sep)
      ensures val == Rotated(arr[1..1 + deg], f)[deg - 1]
    {
      hide Shift;
      hide Rotated;
      ghost var table := arr[1..1 + deg];
      val := (arr[1 + f] as int + arr[1 + r]) % 0x1_0000_0000;
      ChaseIsShift(table, f, r, sep, val);
      arr[1 + f] := val;
      assert arr[1..1 + deg] == table[f := val];
      f := f + 1;
      if f >= deg {
        f := 0;
        r := r + 1;
      } else {
        r := r + 1;
        if r >= deg {
          r := 0;
        }
      }
    }

    /** `pi_random_r`. */
    method Draw() returns (result: Word)
      requires Valid()
      modifies this`f, this`r, arr
      ensures Valid() && View() == Next(old(View())) && result == Output(View())
      ensures arr[0] == old(arr[0])
      ensures kind > 0 ==> f == (if old(f) + 1 == deg then 0 else old(f) + 1)
    {
      if kind == 0 {
        arr[1] := (arr[1] as int * 1103515245 + 12345) % 0x8000_0000;
        result := arr[1];
      } else {
        var val := Chase();
        result := val / 2;
      }
    }

    ghost predicate Drawn(g: Gen, f0: nat, k: nat)
      requires GenOk(g)
      reads this, arr
    {
      Valid() && kind > 0 && View() == After(g, k) && f == Slot(f0 + k, deg)
    }

    method DiscardOne(ghost g: Gen, ghost f0: nat, ghost k: nat)
      requires GenOk(g) && Drawn(g, f0, k)
      modifies this`f, this`r, arr
      ensures Drawn(g, f0, k + 1)
    {
      NextSlot(f0 + k, deg);
      var _ := Draw();
      assert After(g, k + 1) == Next(After(g, k));
    }

    /** The discard loop of `pi_srandom_r`. */
    method Discard(n: nat, ghost g: Gen, ghost f0: nat)
      requires GenOk(g) && Drawn(g, f0, 0)
      modifies this`f, this`r, arr
      ensures Drawn(g, f0, n)
    {
      hide RandomData.Drawn;
      for i := 0 to n
        invariant Drawn(g, f0, i)
      {
        DiscardOne(g, f0, i);
      }
    }

    /** The seeding loop of `pi_srandom_r`. */
    method FillTable(seed: Word)
      requires Valid() && kind > 0
      modifies arr
      ensures arr[1..1 + deg] == SeedTable(seed, deg)
      ensures arr[0] == old(arr[0])
    {
      arr[1] := if seed == 0 then 1 else seed;
      var word: int := arr[1];
      for i := 1 to deg
        invariant word == SeedWord(seed, i - 1) && arr[0] == old(arr[0])
        invariant forall j :: 0 <= j < i ==> arr[1 + j] == SeedWord(seed, j)
      {
        SchrageIsMinimal(word);
        var hi, lo := word / 127773, word % 127773;
        var x := 16807 * lo - 2836 * hi;
        word := if x < 0 then x + 2147483647 else x;
        arr[1 + i] := word;
      }
    }

    /** `pi_srandom_r`: seeded, ten rounds discarded, both pointers back where they started. */
    method Srandom(seed: Word)
      requires Valid()
      modifies this`f, this`r, arr
      ensures Valid() && View() == Seeded(kind, seed)
      ensures kind > 0 ==> f == sep && r == 0
    {
      if kind == 0 {
        arr[1] := if seed == 0 then 1 else seed;
        return;
      }
      FillTable(seed);
      f, r := sep, 0;
      Discard(10 * deg, View(), f);
      SlotPeriod(sep, 10, deg);
    }

    /** `pi_initstate_r` on an array of `n` bytes: every access stays inside it. */
    method Initstate(seed: Word, a: array<Word>, n: nat) returns (ok: bool)
      requires a.Length == n / 4
      modifies this, a
      ensures ok <==> n >= 8
      ensures !ok ==> unchanged(this) && unchanged(a)
      ensures ok ==> Valid() && arr == a && kind == TypeFor(n) && View() == Seeded(kind, seed)
      ensures ok ==> Loadable(a[..]) && Load(a[..]) == View()
    {
      if n < 8 {
        return false;
      }
      kind := TypeFor(n);
      deg, sep := Degree(kind), Separation(kind);
      arr := a;
      f, r := sep, 0;
      Srandom(seed);
      Save();
      return true;
    }

    /** The start of `pi_setstate_r`: the pointers go into the current array's header, from which the state can be loaded. */
    method Save()
      requires Valid()
      modifies arr
      ensures Valid() && View() == old(View())
      ensures arr[..] == old(arr[..])[0 := Header(kind, if kind == 0 then 0 else r)]
      ensures Loadable(arr[..]) && Load(arr[..]) == View()
    {
      HeaderDecodes(kind, if kind == 0 then 0 else r);
      ghost var table := arr[1..1 + deg];
      arr[0] := if kind == 0 then 0 else MAX_TYPES * r + kind;
      assert arr[..][1..1 + deg] == arr[1..1 + deg] == table;
    }

    /** The rest of `pi_setstate_r`: adopt an array whose header has a type. */
    method Adopt(a: array<Word>)
      requires Loadable(a[..]) && CRem(Signed(a[0]), MAX_TYPES) >= 0
      modifies this
      ensures Valid() && arr == a && View() == Load(a[..])
    {
      var t := CRem(Signed(a[0]), MAX_TYPES);
      deg, sep, kind, arr := Degree(t), Separation(t), t, a;
      if t != 0 {
        var rear := a[0] / MAX_TYPES;
        r := rear;
        ModFront(rear, t);
        f := (rear + sep) % deg;
        assert a[..][1..1 + deg] == a[1..1 + deg];
      }
    }

    /** `pi_setstate_r`: fails only when the header's remainder is negative, after having saved the current state. */
    method Setstate(a: array<Word>) returns (ok: bool)
      requires Valid() && (a != arr ==> Loadable(a[..]))
      modifies this, arr, a
      ensures a != old(arr) ==> a[..] == old(a[..])
      ensures var home := old(arr);
              && home[..] == old(arr[..])[0 := Header(old(kind), if old(kind) == 0 then 0 else old(r))]
              && Loadable(home[..]) && Load(home[..]) == old(View())
      ensures Loadable(a[..]) && (ok <==> CRem(Signed(a[0]), MAX_TYPES) >= 0)
      ensures ok ==> Valid() && arr == a && View() == Load(a[..])
      ensures !ok ==> unchanged(this) && View() == old(View())
    {
      Save();
      var t := CRem(Signed(a[0]), MAX_TYPES);
      if t < 0 || t > 4 {
        return false;
      }
      Adopt(a);
      return true;
    }
  }

  lemma ModFront(rear: nat, t: nat)
    requires 1 <= t < MAX_TYPES && rear < Degree(t)
    ensures (rear + Separation(t)) % Degree(t) == Front(rear, t)
  {
    var n := Degree(t);
    if rear + Separation(t) < n {
      ModUnique(rear + Separation(t), 0, rear + Separation(t), n);
    } else {
      ModUnique(rear + Separation(t), 1, rear + Separation(t) - n, n);
    }
  }

  /** `pi_initstate_r` followed by `k` + 1 calls of `pi_random_r`; the last value is the one RandomSpec.InitstateDraws and LinearDraws speak of. */
  method DrawAfterInit(buf: RandomData, seed: Word, a: array<Word>, n: nat, k: nat) returns (ok: bool, v: Word)
    requires a.Length == n / 4
    modifies buf, a
    ensures ok <==> n >= 8
    ensures ok ==> buf.Valid() && buf.arr == a && v == RandomSpec.Draw(Seeded(TypeFor(n), seed), k)
  {
    v := 0;
    ok := buf.Initstate(seed, a, n);
    if !ok {
      return;
    }
    ghost var start := buf.View();
    v := buf.Draw();
    assert After(start, 1) == Next(After(start, 0));
    for i := 0 to k
      invariant buf.Valid() && buf.arr == a && GenOk(start)
      invariant buf.View() == After(start, i + 1) && v == Output(buf.View())
    {
      v := buf.Draw();
    }
  }

  /**
   Switch to another array, draw any number of values there, and switch back: the generator is
   exactly as if it had never left, and the other array holds its own generator `k` draws on.
   */
  method SwitchAwayAndBack(buf: RandomData, other: array<Word>, k: nat) returns (ok: bool)
    requires buf.Valid() && other != buf.arr && Loadable(other[..])
    modifies buf, buf.arr, other
    ensures ok <==> CRem(Signed(old(other[0])), MAX_TYPES) >= 0
    ensures buf.Valid() && buf.arr == old(buf.arr) && buf.View() == old(buf.View())
    ensures ok ==> Loadable(other[..]) && Load(other[..]) == After(Load(old(other[..])), k)
  {
    var home := buf.arr;
    ghost var g := buf.View();
    ok := buf.Setstate(other);
    if !ok {
      return;
    }
    ghost var there := buf.View();
    ghost var saved := home[..];
    for i := 0 to k
      invariant buf.Valid() && buf.arr == other && home[..] == saved
      invariant buf.View() == After(there, i)
    {
      var _ := buf.Draw();
    }
    var back := buf.Setstate(home);
    assert back by {
      assert CRem(Signed(home[0]), MAX_TYPES) >= 0;
    }
  }

  /** Setting the array that is already current changes nothing the generator can show. */
  method SetCurrent(buf: RandomData)
    requires buf.Valid()
    modifies buf, buf.arr
    ensures buf.Valid() && buf.arr == old(buf.arr) && buf.View() == old(buf.View())
  {
    HeaderDecodes(buf.kind, if buf.kind == 0 then 0 else buf.r);
    var ok := buf.Setstate(buf.arr);
  }
}
