/**
 The generators of `pi-random.c` as values: the linear congruential one, and the additive-feedback
 ones as the window of the last `deg` terms of a recurrence.
 */
module RandomSpec {
  import opened Words
  import opened ModArith

  const MAX_TYPES: nat := 5

  function Degree(t: nat): nat
  {
    if t == 1 then 7 else if t == 2 then 15 else if t == 3 then 31 else if t == 4 then 63 else 0
  }

  function Separation(t: nat): nat
  {
    if t == 1 || t == 3 then 3 else if t == 2 || t == 4 then 1 else 0
  }

  /** The type `pi_initstate_r` picks for `n` bytes of state. */
  function TypeFor(n: nat): nat
  {
    if n < 32 then 0 else if n < 64 then 1 else if n < 128 then 2 else if n < 256 then 3 else 4
  }

  // ---------------------------------------------------------------- generators

  datatype Gen = Lcg(x: Word) | Trinomial(t: nat, window: seq<Word>)

  predicate GenOk(g: Gen)
  {
    g.Trinomial? ==> 1 <= g.t < MAX_TYPES && |g.window| == Degree(g.t)
  }

  function Shift(w: seq<Word>, sep: nat): (r: seq<Word>)
    requires 0 < sep <= |w|
    ensures |r| == |w|
  {
    w[1..] + [(w[0] as int + w[|w| - sep]) % 0x1_0000_0000]
  }

  function Next(g: Gen): (r: Gen)
    requires GenOk(g)
    ensures GenOk(r) && r.Lcg? == g.Lcg? && (g.Trinomial? ==> r.t == g.t)
  {
    match g
    case Lcg(x) => Lcg((x * 1103515245 + 12345) % 0x8000_0000)
    case Trinomial(t, w) => Trinomial(t, Shift(w, Separation(t)))
  }

  /** The value returned when a draw has left the generator in state `g`. */
  function Output(g: Gen): Word
    requires GenOk(g)
  {
    match g
    case Lcg(x) => x
    case Trinomial(t, w) => w[|w| - 1] / 2
  }

  function After(g: Gen, k: nat): (r: Gen)
    requires GenOk(g)
    ensures GenOk(r) && r.Lcg? == g.Lcg? && (g.Trinomial? ==> r.t == g.t)
  {
    if k == 0 then g else Next(After(g, k - 1))
  }

  /** The `k`-th value drawn from `g`, counting from zero. */
  function Draw(g: Gen, k: nat): Word
    requires GenOk(g)
  {
    Output(After(g, k + 1))
  }

  // ---------------------------------------------------------------- the recurrence

  /** o[i] = o[i - deg] + o[i - sep] modulo 2^32 over the starting window. */
  function Term(start: seq<Word>, sep: nat, i: nat): Word
    requires 0 < sep < |start|
  {
    if i < |start| then start[i] else (Term(start, sep, i - |start|) + Term(start, sep, i - sep)) % 0x1_0000_0000
  }

  /** A window whose entries are consecutive terms of the recurrence, from term `k` on. */
  ghost predicate IsWindow(start: seq<Word>, sep: nat, k: nat, w: seq<Word>)
    requires 0 < sep < |start|
  {
    |w| == |start| && forall j :: 0 <= j < |w| ==> w[j] == Term(start, sep, k + j)
  }

  lemma ShiftMovesWindow(start: seq<Word>, sep: nat, k: nat, w: seq<Word>)
    requires 0 < sep < |start| && IsWindow(start, sep, k, w)
    ensures IsWindow(start, sep, k + 1, Shift(w, sep))
  {
    var n := |w|;
    var v := Shift(w, sep);
    forall j | 0 <= j < n
      ensures v[j] == Term(start, sep, k + 1 + j)
    {
      if j + 1 < n {
        assert v[j] == w[j + 1];
      } else {
        assert w[0] == Term(start, sep, k + 0) && w[n - sep] == Term(start, sep, k + (n - sep));
      }
    }
  }

  lemma {:induction false} WindowIsTerms(t: nat, start: seq<Word>, k: nat)
    requires 1 <= t < MAX_TYPES && |start| == Degree(t)
    ensures IsWindow(start, Separation(t), k, After(Trinomial(t, start), k).window)
  {
    if k > 0 {
      WindowIsTerms(t, start, k - 1);
      ShiftMovesWindow(start, Separation(t), k - 1, After(Trinomial(t, start), k - 1).window);
    }
  }

  /** Every draw is a term of the recurrence with its lowest bit dropped. */
  lemma {:induction false} DrawIsTerm(t: nat, start: seq<Word>, k: nat)
    requires 1 <= t < MAX_TYPES && |start| == Degree(t)
    ensures Draw(Trinomial(t, start), k) == Term(start, Separation(t), |start| + k) / 2
  {
    WindowIsTerms(t, start, k + 1);
  }

  lemma {:induction false} AfterAdds(g: Gen, j: nat, k: nat)
    requires GenOk(g)
    ensures After(After(g, j), k) == After(g, j + k)
  {
    hide Next;
    if k > 0 {
      AfterAdds(g, j, k - 1);
      assert j + k - 1 == j + (k - 1);
    }
  }

  // ---------------------------------------------------------------- seeding

  const MODULUS: int := 2147483647

  /** The minimal standard generator the table is seeded with. */
  function Minimal(w: int): int
  {
    16807 * w % MODULUS
  }

  function SeedWord(seed: Word, i: nat): Word
  {
    if i == 0 then (if seed == 0 then 1 else seed) else Minimal(SeedWord(seed, i - 1))
  }

  function SeedTable(seed: Word, n: nat): (t: seq<Word>)
    ensures |t| == n
  {
    seq(n, i requires 0 <= i => SeedWord(seed, i))
  }

  /** Reading a ring of values from index `f` on. */
  function Rotated(t: seq<Word>, f: nat): (w: seq<Word>)
    requires f <= |t|
    ensures |w| == |t|
  {
    t[f..] + t[..f]
  }

  /** The generator left by `pi_srandom_r`: the seeded table read from the front pointer, with ten rounds discarded. */
  function Seeded(t: nat, seed: Word): (g: Gen)
    requires t < MAX_TYPES
    ensures GenOk(g) && g.Lcg? == (t == 0) && (t != 0 ==> g.t == t)
  {
    if t == 0 then Lcg(if seed == 0 then 1 else seed)
    else After(Trinomial(t, Rotated(SeedTable(seed, Degree(t)), Separation(t))), 10 * Degree(t))
  }

  /** The `k`-th draw after seeding is term 11 * deg + k of the recurrence over the seeded table, halved. */
  lemma {:induction false} SeededDraw(t: nat, seed: Word, k: nat)
    requires 1 <= t < MAX_TYPES
    ensures Draw(Seeded(t, seed), k) ==
            Term(Rotated(SeedTable(seed, Degree(t)), Separation(t)), Separation(t), 11 * Degree(t) + k) / 2
  {
    var start := Rotated(SeedTable(seed, Degree(t)), Separation(t));
    AfterAdds(Trinomial(t, start), 10 * Degree(t), k + 1);
    DrawIsTerm(t, start, 10 * Degree(t) + k);
  }

  // ---------------------------------------------------------------- the same with its numbers

  /** The words a table is seeded with. */
  ghost predicate IsSeeding(r: seq<Word>, seed: Word)
  {
    && r != [] && r[0] == (if seed == 0 then 1 else seed)
    && forall i :: 0 < i < |r| ==> r[i] == 16807 * (r[i - 1] as int) % 2147483647
  }

  /** From `deg` on every entry is the sum of the ones `deg` and `sep` before it. */
  ghost predicate AddsUp(o: seq<Word>, deg: nat, sep: nat)
  {
    0 < sep < deg && forall i :: deg <= i < |o| ==> o[i] == (o[i - deg] as int + o[i - sep]) % 0x1_0000_0000
  }

  lemma {:induction false} SeedingIsTable(r: seq<Word>, seed: Word, i: nat)
    requires IsSeeding(r, seed) && i < |r|
    ensures r[i] == SeedWord(seed, i)
  {
    if i > 0 {
      SeedingIsTable(r, seed, i - 1);
    }
  }

  lemma {:induction false} TermIsEntry(start: seq<Word>, o: seq<Word>, sep: nat, i: nat)
    requires 0 < sep < |start| <= |o| && o[..|start|] == start && AddsUp(o, |start|, sep) && i < |o|
    ensures Term(start, sep, i) == o[i]
  {
    if i < |start| {
      assert o[i] == o[..|start|][i];
    } else {
      TermIsEntry(start, o, sep, i - |start|);
      TermIsEntry(start, o, sep, i - sep);
    }
  }

  /**
   What `pi_initstate_r` with `n` bytes of state and a seed leads to.  From 32 bytes on the generator
   adds the entries 7 and 3 before, from 64 on 15 and 1, from 128 on 31 and 3, from 256 on 63 and 1;
   the k-th draw is entry 11 * deg + k, halved, of the sequence that starts with the seeded words read
   from the `sep`-th on.
   */
  lemma {:induction false} InitstateDraws(n: nat, seed: Word, k: nat, deg: nat, sep: nat, r: seq<Word>, o: seq<Word>)
    requires || (32 <= n < 64 && deg == 7 && sep == 3) || (64 <= n < 128 && deg == 15 && sep == 1)
             || (128 <= n < 256 && deg == 31 && sep == 3) || (256 <= n && deg == 63 && sep == 1)
    requires |r| == deg && IsSeeding(r, seed)
    requires |o| > 11 * deg + k && o[..deg] == r[sep..] + r[..sep] && AddsUp(o, deg, sep)
    ensures Draw(Seeded(TypeFor(n), seed), k) == o[11 * deg + k] / 2
  {
    hide Seeded;
    hide Draw;
    hide Term;
    hide AddsUp;
    var t := TypeFor(n);
    assert Degree(t) == deg && Separation(t) == sep;
    forall i | 0 <= i < deg
      ensures r[i] == SeedTable(seed, deg)[i]
    {
      SeedingIsTable(r, seed, i);
    }
    assert r == SeedTable(seed, deg);
    SeededDraw(t, seed, k);
    TermIsEntry(Rotated(r, sep), o, sep, 11 * deg + k);
  }

  /** With 8 to 31 bytes the draws are the iterates of 1103515245 * x + 12345 modulo 2^31 from the seed. */
  lemma {:induction false} LinearDraws(n: nat, seed: Word, k: nat, x: seq<Word>)
    requires 8 <= n < 32 && |x| > k + 1 && x[0] == (if seed == 0 then 1 else seed)
    requires forall i :: 0 < i < |x| ==> x[i] == (1103515245 * (x[i - 1] as int) + 12345) % 0x8000_0000
    ensures Draw(Seeded(TypeFor(n), seed), k) == x[k + 1]
  {
    LinearIterates(seed, x, k + 1);
  }

  lemma {:induction false} LinearIterates(seed: Word, x: seq<Word>, k: nat)
    requires |x| > k && x[0] == (if seed == 0 then 1 else seed)
    requires forall i :: 0 < i < |x| ==> x[i] == (1103515245 * (x[i - 1] as int) + 12345) % 0x8000_0000
    ensures After(Seeded(0, seed), k) == Lcg(x[k])
  {
    if k > 0 {
      LinearIterates(seed, x, k - 1);
    }
  }

  // ---------------------------------------------------------------- Schrage's multiplication

  /** One seeding step as written: division first, so that no product exceeds 31 bits. */
  function Schrage(w: int): int
    requires 0 <= w < 0x1_0000_0000
  {
    var hi, lo := w / 127773, w % 127773;
    var x := 16807 * lo - 2836 * hi;
    if x < 0 then x + MODULUS else x
  }

  /** For every 32-bit word Schrage's step is the exact modular product, and no intermediate leaves the signed 32-bit range. */
  lemma {:induction false} SchrageIsMinimal(w: int)
    requires 0 <= w < 0x1_0000_0000
    ensures Schrage(w) == Minimal(w)
    ensures 0 <= Schrage(w) < MODULUS
    ensures var hi, lo := w / 127773, w % 127773;
            0 <= 16807 * lo < 0x8000_0000 && 0 <= 2836 * hi < 0x8000_0000 && -0x8000_0000 <= 16807 * lo - 2836 * hi
  {
    var hi, lo := w / 127773, w % 127773;
    assert w == 127773 * hi + lo;
    var x := 16807 * lo - 2836 * hi;
    assert 16807 * w == MODULUS * hi + x;
    if x < 0 {
      ModUnique(16807 * w, hi - 1, x + MODULUS, MODULUS);
    } else {
      ModUnique(16807 * w, hi, x, MODULUS);
    }
  }

  /** The step can be undone: 1407677000 is the inverse of 16807. */
  lemma {:induction false} MinimalInvertible(w: int)
    ensures 1407677000 * Minimal(w) % MODULUS == w % MODULUS
  {
    var q, r := 16807 * w / MODULUS, Minimal(w);
    assert 16807 * w == q * MODULUS + r;
    var a, b := w / MODULUS, w % MODULUS;
    assert 1407677000 * 16807 == 11017 * MODULUS + 1;
    ModUnique(1407677000 * r, 11017 * w - 1407677000 * q + a, b, MODULUS);
  }

  /** The step maps a word to zero exactly when the modulus divides the word. */
  lemma MinimalZeroIff(w: int)
    ensures Minimal(w) == 0 <==> w % MODULUS == 0
    ensures 0 <= Minimal(w) < MODULUS
  {
    MinimalInvertible(w);
    if w % MODULUS == 0 {
      var q := w / MODULUS;
      assert w == q * MODULUS;
      ModUnique(16807 * w, 16807 * q, 0, MODULUS);
    }
  }

  /** A zero appears in the seeded table exactly when the seed is a nonzero multiple of the modulus, and then everywhere after it. */
  lemma {:induction false} ZeroWordIff(seed: Word, i: nat)
    requires i > 0
    ensures SeedWord(seed, i) == 0 <==> seed != 0 && seed % MODULUS == 0
    ensures 0 <= SeedWord(seed, i) < MODULUS
  {
    MinimalZeroIff(SeedWord(seed, i - 1));
    if i > 1 {
      ZeroWordIff(seed, i - 1);
      ModSmall(SeedWord(seed, i - 1), MODULUS);
    } else {
      ModSmall(1, MODULUS);
    }
  }

  lemma {:induction false} ZeroSeeds(seed: Word)
    ensures seed != 0 && seed % MODULUS == 0 <==> seed == 2147483647 || seed == 4294967294
  {
  }

  // ---------------------------------------------------------------- saving in a state array

  /** The signed value of an `int32_t`. */
  function Signed(w: Word): int
  {
    if w < 0x8000_0000 then w else w - 0x1_0000_0000
  }

  /** C's remainder, which truncates toward zero. */
  function CRem(v: int, d: int): int
    requires d > 0
  {
    if v >= 0 then v % d else -((-v) % d)
  }

  /** The word in front of the table: the rear pointer's index and the type in one number. */
  function Header(t: nat, rear: nat): Word
    requires t < MAX_TYPES && rear < 63
  {
    if t == 0 then 0 else MAX_TYPES * rear + t
  }

  /** A state array that `pi_setstate_r` can be handed: whatever its header says lies inside it. */
  predicate Loadable(a: seq<Word>)
  {
    |a| >= 2 &&
    var t := CRem(Signed(a[0]), MAX_TYPES);
    t <= 0 || (a[0] / MAX_TYPES < Degree(t) < |a|)
  }

  function Front(rear: nat, t: nat): nat
    requires 1 <= t < MAX_TYPES && rear < Degree(t)
  {
    if rear + Separation(t) < Degree(t) then rear + Separation(t) else rear + Separation(t) - Degree(t)
  }

  /** The generator a state array stands for. */
  function Load(a: seq<Word>): (g: Gen)
    requires Loadable(a)
    ensures GenOk(g)
  {
    var t := CRem(Signed(a[0]), MAX_TYPES);
    if t <= 0 then Lcg(a[1])
    else Trinomial(t, Rotated(a[1..1 + Degree(t)], Front(a[0] / MAX_TYPES, t)))
  }

  /** The header is five times the rear pointer's index plus the type, and 0 for the linear generator. */
  lemma {:induction false} HeaderIs(t: nat, rear: nat)
    requires t < 5 && rear < 63
    ensures Header(t, rear) == if t == 0 then 0 else 5 * rear + t
  {
  }

  lemma {:induction false} HeaderDecodes(t: nat, rear: nat)
    requires t < MAX_TYPES && rear < 63
    ensures CRem(Signed(Header(t, rear)), MAX_TYPES) == t
    ensures t != 0 ==> Header(t, rear) / MAX_TYPES == rear
  {
  }
}
