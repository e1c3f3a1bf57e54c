/** The leapfrog seeding of the OpenMP Monte-Carlo program's Lehmer
    generator x' = MULTIPLIER·x mod PMOD: one shared table of per-thread
    seeds and a shared multiplier raised to the thread count, so that each
    thread's private state strides through the single-multiplier sequence by
    the number of threads. Only the integer part of the generator is modelled. */
module LeapfrogLcg {

  const MULTIPLIER: nat := 764261123
  const PMOD: nat := 2147483647
  const MAX_THREADS: nat := 128

  /** 2^64: every product the generator forms must stay below it to fit an
      unsigned 64-bit integer. */
  const U64: nat := 0x1_0000_0000_0000_0000

  /** The first seed: PMOD / MULTIPLIER, which is 2. */
  const ISEED: nat := PMOD / MULTIPLIER

  /** One step of the single-multiplier sequence. */
  function Next(x: nat): nat
  {
    (MULTIPLIER * x) % PMOD
  }

  /** Element n of the single-multiplier sequence that starts at x. */
  function Stream(x: nat, n: nat): nat
  {
    if n == 0 then x else Next(Stream(x, n - 1))
  }

  /** MULTIPLIER^n mod PMOD, for n >= 1, computed as the seeding loop does. */
  function MultiplierPower(n: nat): nat
    requires n >= 1
  {
    if n == 1 then MULTIPLIER else (MultiplierPower(n - 1) * MULTIPLIER) % PMOD
  }

  /** Every state and multiplier the generator holds is below PMOD, so every
      product it forms has both operands below 2^31 and fits in 64 bits. */
  lemma ProductsFit(a: nat, b: nat)
    requires a < PMOD && b < PMOD
    ensures a * b < U64
  {
    MulBelow(a, b, PMOD);
    assert PMOD * PMOD < U64;
  }

  lemma MulBelow(a: nat, b: nat, n: nat)
    requires a < n && b < n
    ensures a * b < n * n
  {
    assert a * b <= a * n;
    assert a * n < n * n;
  }

  /** The sequence stays below PMOD after its start. */
  lemma StreamBelowModulus(x: nat, n: nat)
    requires x < PMOD
    ensures Stream(x, n) < PMOD
  {
  }

  /** The power stays below PMOD: MULTIPLIER itself is below PMOD. */
  lemma MultiplierPowerBelowModulus(n: nat)
    requires n >= 1
    ensures MultiplierPower(n) < PMOD
  {
  }

  /** Reducing a factor before multiplying does not change the product mod p. */
  lemma MulModRight(a: nat, b: nat, p: nat)
    requires p > 0
    ensures (a * (b % p)) % p == (a * b) % p
  {
    var q := b / p;
    assert b == q * p + b % p;
    assert a * b == (a * q) * p + a * (b % p);
    AddMultipleMod(a * (b % p), a * q, p);
  }

  lemma AddMultipleMod(x: nat, k: nat, p: nat)
    requires p > 0
    ensures (k * p + x) % p == x % p
  {
    var q := x / p;
    assert x == q * p + x % p;
    assert k * p + x == (k + q) * p + x % p;
    ModUnique(k * p + x, k + q, x % p, p);
  }

  /** Division with remainder is unique. */
  lemma ModUnique(x: int, q: int, r: int, p: int)
    requires p > 0 && 0 <= r < p && x == q * p + r
    ensures x % p == r
  {
    var d := q - x / p;
    assert x == (x / p) * p + x % p;
    assert d * p == x % p - r;
    if d > 0 {
      MulAtLeast(d, p);
    } else if d < 0 {
      MulAtLeast(-d, p);
    }
  }

  lemma MulAtLeast(d: int, n: int)
    requires d >= 1 && n >= 0
    ensures d * n >= n
  {
    assert d * n == (d - 1) * n + n;
  }

  /** Multiplying by the n-th power jumps n places along the sequence. */
  lemma {:induction false} PowerJumps(x: nat, n: nat)
    requires x < PMOD && n >= 1
    ensures (MultiplierPower(n) * x) % PMOD == Stream(x, n)
  {
    if n > 1 {
      PowerJumps(x, n - 1);
      var m := MultiplierPower(n - 1);
      calc {
        (MultiplierPower(n) * x) % PMOD;
        (((m * MULTIPLIER) % PMOD) * x) % PMOD;
        { MulModRight(x, m * MULTIPLIER, PMOD); }
        (x * (m * MULTIPLIER)) % PMOD;
        { assert x * (m * MULTIPLIER) == MULTIPLIER * (m * x); }
        (MULTIPLIER * (m * x)) % PMOD;
        { MulModRight(MULTIPLIER, m * x, PMOD); }
        (MULTIPLIER * ((m * x) % PMOD)) % PMOD;
        Next(Stream(x, n - 1));
      }
    }
  }

  /** Walking a places and then b places is walking a + b places. */
  lemma {:induction false} StreamAdds(x: nat, a: nat, b: nat)
    ensures Stream(Stream(x, a), b) == Stream(x, a + b)
  {
    if b > 0 {
      StreamAdds(x, a, b - 1);
    }
  }

  /** The k-th state of thread id after seeding with nthreads threads: the
      thread's seed, then k draws with the leapfrog multiplier. */
  function ThreadState(nthreads: nat, id: nat, k: nat): nat
    requires nthreads >= 1
  {
    if k == 0 then Stream(ISEED, id) else (MultiplierPower(nthreads) * ThreadState(nthreads, id, k - 1)) % PMOD
  }

  /** Leapfrog: thread id's k-th state is element id + k·nthreads of the one
      sequence that starts at the first seed. */
  lemma {:induction false} LeapfrogStreams(nthreads: nat, id: nat, k: nat)
    requires nthreads >= 1
    ensures ThreadState(nthreads, id, k) == Stream(ISEED, id + k * nthreads)
  {
    if k > 0 {
      LeapfrogStreams(nthreads, id, k - 1);
      var x := Stream(ISEED, id + (k - 1) * nthreads);
      StreamBelowModulus(ISEED, id + (k - 1) * nthreads);
      PowerJumps(x, nthreads);
      StreamAdds(ISEED, id + (k - 1) * nthreads, nthreads);
      assert id + (k - 1) * nthreads + nthreads == id + k * nthreads;
    }
  }

  /** Different threads, or different draws of one thread, use different
      positions of the sequence: the streams do not overlap. */
  lemma PositionsDistinct(nthreads: nat, id1: nat, k1: nat, id2: nat, k2: nat)
    requires id1 < nthreads && id2 < nthreads
    requires id1 + k1 * nthreads == id2 + k2 * nthreads
    ensures id1 == id2 && k1 == k2
  {
    if k1 < k2 {
      var d: int := k2 - k1;
      assert k2 * nthreads == k1 * nthreads + d * nthreads;
      MulAtLeast(d, nthreads);
    } else if k2 < k1 {
      var d: int := k1 - k2;
      assert k1 * nthreads == k2 * nthreads + d * nthreads;
      MulAtLeast(d, nthreads);
    }
  }

  /** The shared generator state: the leapfrog multiplier, the output range
      and the seed table (the first column of the padded MAX_THREADS x 4
      table). */
  class Leapfrog {
    var multN: nat
    var randomLow: real
    var randomHi: real
    const pseed: array<nat>

    ghost predicate Valid()
      reads this
    {
      pseed.Length == MAX_THREADS
    }

    /** Static storage: everything starts at zero. */
    constructor ()
      ensures Valid() && fresh(pseed)
      ensures multN == 0 && randomLow == 0.0 && randomHi == 0.0
      ensures forall i :: 0 <= i < MAX_THREADS ==> pseed[i] == 0
    {
      multN := 0;
      randomLow, randomHi := 0.0, 0.0;
      pseed := new nat[MAX_THREADS](_ => 0);
    }

    /** The state after seeding for nthreads threads. */
    ghost predicate Seeded(nthreads: nat)
      reads this, pseed
    {
      Valid() && 1 <= nthreads <= MAX_THREADS &&
      multN == MultiplierPower(nthreads) &&
      forall i :: 0 <= i < nthreads ==> pseed[i] == Stream(ISEED, i)
    }

    /** The single-thread part of seeding: order the range, then fill the
      seed table along the sequence and raise the multiplier to the thread
      count. The table has MAX_THREADS rows, so at most 128 threads fit. */
    method Seed(lowIn: real, hiIn: real, nthreads: nat)
      requires Valid() && 1 <= nthreads <= MAX_THREADS
      modifies this, pseed
      ensures Seeded(nthreads)
      ensures randomLow <= randomHi
      ensures if lowIn < hiIn then randomLow == lowIn && randomHi == hiIn else randomLow == hiIn && randomHi == lowIn
      ensures forall i :: nthreads <= i < MAX_THREADS ==> pseed[i] == old(pseed[i])
      ensures multN < PMOD && forall i :: 0 <= i < nthreads ==> pseed[i] < PMOD
    {
      if lowIn < hiIn {
        randomLow := lowIn;
        randomHi := hiIn;
      } else {
        randomLow := hiIn;
        randomHi := lowIn;
      }
      ghost var old0Low, old0Hi := randomLow, randomHi;
      var iseed := PMOD / MULTIPLIER;
      pseed[0] := iseed;
      multN := MULTIPLIER;
      var i := 1;
      while i < nthreads
        invariant 1 <= i <= nthreads
        invariant randomLow == old0Low && randomHi == old0Hi
        invariant iseed == Stream(ISEED, i - 1) && multN == MultiplierPower(i)
        invariant forall t :: 0 <= t < i ==> pseed[t] == Stream(ISEED, t)
        invariant forall t :: nthreads <= t < MAX_THREADS ==> pseed[t] == old(pseed[t])
      {
        StreamBelowModulus(ISEED, i - 1);
        MultiplierPowerBelowModulus(i);
        ProductsFit(MULTIPLIER, iseed);
        ProductsFit(multN, MULTIPLIER);
        iseed := (MULTIPLIER * iseed) % PMOD;
        pseed[i] := iseed;
        multN := (multN * MULTIPLIER) % PMOD;
        i := i + 1;
      }
      MultiplierPowerBelowModulus(nthreads);
      forall t | 0 <= t < nthreads
        ensures pseed[t] < PMOD
      {
        StreamBelowModulus(ISEED, t);
      }
    }
  }

  /** One thread's private generator state. */
  class ThreadRng {
    var randomLast: nat

    constructor ()
      ensures randomLast == 0
    {
      randomLast := 0;
    }

    /** The per-thread tail of seeding: take the thread's seed from the table. */
    method Attach(g: Leapfrog, id: nat)
      requires g.Valid() && id < MAX_THREADS
      modifies this
      ensures randomLast == g.pseed[id]
    {
      randomLast := g.pseed[id];
    }

    /** The integer part of a draw: the next state is the leapfrog multiplier
      times the last state, mod PMOD; it becomes the last state. The product
      fits in 64 bits once the generator is seeded. */
    method Drandom(g: Leapfrog) returns (randomNext: nat)
      requires g.multN < PMOD && randomLast < PMOD
      modifies this
      ensures randomNext == (g.multN * old(randomLast)) % PMOD
      ensures randomLast == randomNext && randomNext < PMOD
      ensures g.multN * old(randomLast) < U64
    {
      ProductsFit(g.multN, randomLast);
      randomNext := (g.multN * randomLast) % PMOD;
      randomLast := randomNext;
    }

    /** A thread's first k draws after seeding: the k-th is element
      id + k·nthreads of the single-multiplier sequence. */
    method Draws(g: Leapfrog, nthreads: nat, id: nat, k: nat) returns (last: nat)
      requires g.Seeded(nthreads) && id < nthreads
      modifies this
      ensures last == Stream(ISEED, id + k * nthreads)
    {
      Attach(g, id);
      StreamBelowModulus(ISEED, id);
      MultiplierPowerBelowModulus(nthreads);
      last := randomLast;
      var n := 0;
      while n < k
        invariant 0 <= n <= k
        invariant last == randomLast == ThreadState(nthreads, id, n) && randomLast < PMOD
      {
        last := Drandom(g);
        n := n + 1;
      }
      LeapfrogStreams(nthreads, id, k);
    }
  }
}
