/** The linear congruential generator behind every random choice of the program. */
module Random {
  import opened Arithmetic
  import opened Bits

  /** def_workload_randomize_constant */
  const MULTIPLIER: nat := 0x015a4e35

  /** unsigned int arithmetic wraps at 32 bits. */
  const WORD: nat := 0x1_0000_0000

  /** workload_randomize_update */
  function Update(seed: nat): (r: nat)
    ensures r < WORD
  {
    (seed * MULTIPLIER + 1) % WORD
  }

  /** The seed after n updates. */
  function SeedAfter(seed: nat, n: nat): nat {
    if n == 0 then seed else Update(SeedAfter(seed, n - 1))
  }

  /** (seed >> 16) | (seed << 16): the halves change places. */
  function Rotated(seed: nat): (r: nat)
    requires seed < WORD
    ensures r == seed / 0x1_0000 + seed % 0x1_0000 * 0x1_0000 && r < WORD
  {
    ShiftLeft(seed);
    HalvesAdd(seed / 0x1_0000, seed % 0x1_0000);
    BitOr(seed / 0x1_0000, seed * 0x1_0000 % WORD)
  }

  lemma HalvesAdd(low: nat, high: nat)
    requires low < 0x1_0000
    ensures BitOr(low, high * 0x1_0000) == low + high * 0x1_0000
  {
    hide BitOr;
    assert Pow2(8) == 0x100;
    Pow2Sum(8, 8);
    OrAdds(high, 16, low);
  }

  /** seed << 16 in 32 bits. */
  lemma ShiftLeft(seed: nat)
    ensures seed * 0x1_0000 % WORD == seed % 0x1_0000 * 0x1_0000
  {
    ModUnique(seed * 0x1_0000, WORD, seed / 0x1_0000, seed % 0x1_0000 * 0x1_0000);
  }

  /** The 31-bit result for a seed. */
  function Output(seed: nat): (r: nat)
    requires seed < WORD
    ensures r < WORD / 2
  {
    Rotated(seed) / 2
  }

  /** The result of the n-th call, counted from 0. */
  function Drawn(seed: nat, n: nat): (r: nat)
    ensures r < WORD / 2
  {
    Output(SeedAfter(seed, n + 1))
  }

  // ---------------------------------------------------------------- powers of two

  predicate Divides(k: nat, a: int) {
    a % Pow2(k) == 0
  }

  lemma HalfDivides(k: nat, a: int)
    ensures Divides(k + 1, 2 * a) <==> Divides(k, a)
  {
    HalfMod(a, Pow2(k));
  }

  lemma OddOdd(a: int, b: int)
    requires b % 2 == 1
    ensures (a * b) % 2 == a % 2
  {
    var h := b / 2;
    assert b == 2 * h + 1;
    assert a * b == 2 * (a * h) + a;
  }

  /** An odd factor does not matter to a power of two. */
  lemma {:induction false} OddFactor(k: nat, a: int, odd: int)
    requires odd % 2 == 1
    ensures Divides(k, a * odd) <==> Divides(k, a)
  {
    if k > 0 {
      OddOdd(a, odd);
      EvenWhenDivided(k, a * odd);
      EvenWhenDivided(k, a);
      if a % 2 == 0 {
        var h := a / 2;
        assert a == 2 * h && a * odd == 2 * (h * odd);
        OddFactor(k - 1, h, odd);
        HalfDivides(k - 1, h);
        HalfDivides(k - 1, h * odd);
      }
    }
  }

  lemma EvenWhenDivided(k: nat, a: int)
    requires k > 0
    ensures Divides(k, a) ==> a % 2 == 0
  {
    if Divides(k, a) {
      var p, q := Pow2(k - 1), a / Pow2(k);
      assert a == Pow2(k) * q;
      assert a == 2 * (p * q) by {
        assert Pow2(k) == 2 * p;
      }
    }
  }

  // ---------------------------------------------------------------- the period

  /** 1 + A + A^2 + ... + A^(n - 1) for the multiplier A: where n updates, taken without
      wrap-around, lead from the seed 0. */
  function Series(n: nat): nat {
    if n == 0 then 0 else Series(n - 1) * MULTIPLIER + 1
  }

  /** The same from any seed. */
  function Unwrapped(seed: nat, n: nat): nat {
    if n == 0 then seed else Unwrapped(seed, n - 1) * MULTIPLIER + 1
  }

  lemma {:induction false} WrapsAround(seed: nat, n: nat)
    requires seed < WORD
    ensures SeedAfter(seed, n) == Unwrapped(seed, n) % WORD
  {
    if n > 0 {
      WrapsAround(seed, n - 1);
      StepWraps(Unwrapped(seed, n - 1));
    }
  }

  lemma StepWraps(u: nat)
    ensures Update(u % WORD) == (u * MULTIPLIER + 1) % WORD
  {
    var q, r := u / WORD, u % WORD;
    assert u == q * WORD + r;
    var t := r * MULTIPLIER + 1;
    assert u * MULTIPLIER + 1 == (q * MULTIPLIER + t / WORD) * WORD + t % WORD;
    ModUnique(u * MULTIPLIER + 1, WORD, q * MULTIPLIER + t / WORD, t % WORD);
  }

  lemma OddDouble(h: int)
    ensures (2 * h + 1) % 2 == 1
  {
  }

  function Stride(seed: nat): (c: nat)
    ensures c % 2 == 1 && c == (MULTIPLIER - 1) * seed + 1
  {
    var h := 0x00ad271a * seed;
    OddDouble(h);
    2 * h + 1
  }

  lemma DistanceStep(u: int, seed: int, s: int, c: int)
    requires u - seed == s * c && c == (MULTIPLIER - 1) * seed + 1
    ensures u * MULTIPLIER + 1 - seed == (s * MULTIPLIER + 1) * c
  {
    var sc := s * c;
    assert (s * MULTIPLIER + 1) * c == sc * MULTIPLIER + c;
  }

  /** How far n updates lead from a seed. */
  lemma {:induction false} Distance(seed: nat, n: nat)
    ensures Unwrapped(seed, n) - seed == Series(n) * Stride(seed)
  {
    if n > 0 {
      Distance(seed, n - 1);
      DistanceStep(Unwrapped(seed, n - 1), seed, Series(n - 1), Stride(seed));
    } else {
      assert Series(0) * Stride(seed) == 0;
    }
  }

  lemma {:induction false} SeriesAdds(a: nat, b: nat)
    ensures Series(a + b) == Series(a) + Series(b) + (MULTIPLIER - 1) * (Series(a) * Series(b))
  {
    if b > 0 {
      SeriesAdds(a, b - 1);
      assert Series(a + b) == Series(a + (b - 1)) * MULTIPLIER + 1;
      AddStep(Series(a), Series(b - 1));
    } else {
      assert Series(a) * Series(0) == 0;
    }
  }

  lemma AddStep(s: int, t: int)
    ensures (s + t + (MULTIPLIER - 1) * (s * t)) * MULTIPLIER + 1
         == s + (t * MULTIPLIER + 1) + (MULTIPLIER - 1) * (s * (t * MULTIPLIER + 1))
  {
    var st := s * t;
    assert s * (t * MULTIPLIER + 1) == st * MULTIPLIER + s;
  }

  /** What doubling adds besides the factor two. */
  function OddPart(s: int): (odd: int)
    ensures odd % 2 == 1 && odd == 1 + (MULTIPLIER - 1) / 2 * s
  {
    var h := 0x0056938d * s;
    OddDouble(h);
    2 * h + 1
  }

  lemma SquareStep(s: int)
    ensures s + s + (MULTIPLIER - 1) * (s * s) == 2 * (s * OddPart(s))
  {
    var odd, sq := OddPart(s), s * s;
    assert s * (1 + (MULTIPLIER - 1) / 2 * s) == s + (MULTIPLIER - 1) / 2 * sq;
  }

  /** Doubling n doubles the series, up to an odd factor. */
  lemma SeriesDoubles(m: nat)
    ensures Series(2 * m) == 2 * (Series(m) * OddPart(Series(m)))
  {
    SeriesAdds(m, m);
    SquareStep(Series(m));
    assert m + m == 2 * m;
  }

  /** The series is divisible by exactly the powers of two that divide its length. */
  lemma {:induction false} SeriesDivides(k: nat, n: nat)
    ensures Divides(k, Series(n)) <==> Divides(k, n)
  {
    if k > 0 {
      var m := n / 2;
      SeriesDoubles(m);
      EvenWhenDivided(k, n);
      EvenWhenDivided(k, Series(n));
      if n % 2 == 0 {
        assert n == 2 * m;
        var odd := OddPart(Series(m));
        SeriesDivides(k - 1, m);
        OddFactor(k - 1, Series(m), odd);
        HalfDivides(k - 1, m);
        HalfDivides(k - 1, Series(m) * odd);
      } else {
        assert n == 2 * m + 1 && Series(n) == Series(2 * m) * MULTIPLIER + 1;
      }
    }
  }

  lemma WordIsPower()
    ensures Pow2(32) == WORD
  {
    assert Pow2(8) == 0x100;
    assert Pow2(16) == 0x1_0000;
    assert Pow2(24) == 0x100_0000;
  }

  lemma SameModulo(a: nat, b: nat, p: nat)
    requires p > 0 && b < p
    ensures a % p == b <==> (a - b) % p == 0
  {
    var q := (a - b) / p;
    if (a - b) % p == 0 {
      assert a == q * p + b;
      ModUnique(a, p, q, b);
    }
    if a % p == b {
      assert a - b == (a / p) * p + 0;
      ModUnique(a - b, p, a / p, 0);
    }
  }

  /** The generator has full period: n updates lead back to the seed exactly when 2^32
      divides n. */
  lemma FullPeriod(seed: nat, n: nat)
    requires seed < WORD
    ensures SeedAfter(seed, n) == seed <==> n % WORD == 0
  {
    WrapsAround(seed, n);
    SameModulo(Unwrapped(seed, n), seed, WORD);
    Distance(seed, n);
    WordIsPower();
    OddFactor(32, Series(n), Stride(seed));
    SeriesDivides(32, n);
  }

  // ---------------------------------------------------------------- one period

  lemma {:induction false} SeedSplits(seed: nat, a: nat, b: nat)
    ensures SeedAfter(seed, a + b) == SeedAfter(SeedAfter(seed, a), b)
  {
    if b > 0 {
      SeedSplits(seed, a, b - 1);
      assert SeedAfter(seed, a + b) == Update(SeedAfter(seed, a + (b - 1)));
    }
  }

  lemma SeedInRange(seed: nat, n: nat)
    requires seed < WORD
    ensures SeedAfter(seed, n) < WORD
  {
  }

  /** Within a period no seed comes up twice. */
  lemma BelowPeriod(n: nat)
    requires 0 < n < WORD
    ensures n % WORD != 0
  {
    ModUnique(n, WORD, 0, n);
  }

  lemma SeedsDiffer(seed: nat, i: nat, j: nat)
    requires seed < WORD && i < j < i + WORD
    ensures SeedAfter(seed, i) != SeedAfter(seed, j)
  {
    hide SeedAfter;
    SeedSplits(seed, i, j - i);
    SeedInRange(seed, i);
    BelowPeriod(j - i);
    FullPeriod(SeedAfter(seed, i), j - i);
  }

  /** Within a period every seed comes up. */
  lemma SeedComesUp(seed: nat, y: nat) returns (k: nat)
    requires seed < WORD && y < WORD
    ensures 1 <= k <= WORD && SeedAfter(seed, k) == y
  {
    var a := seq(WORD, (i: nat) => SeedAfter(seed, i + 1));
    forall i, j | 0 <= i < j < |a|
      ensures a[i] != a[j]
    {
      SeedsDiffer(seed, i + 1, j + 1);
    }
    Pigeonhole(a, y);
    var i :| 0 <= i < |a| && a[i] == y;
    k := i + 1;
  }

  lemma RotatedTwice(seed: nat)
    requires seed < WORD
    ensures Rotated(Rotated(seed)) == seed
  {
    hide Rotated;
    ModUnique(Rotated(seed), 0x1_0000, seed % 0x1_0000, seed / 0x1_0000);
  }

  /** Exactly two seeds give each result. */
  lemma OutputOf(seed: nat, v: nat)
    requires seed < WORD && v < WORD / 2
    ensures Output(seed) == v <==> seed == Rotated(2 * v) || seed == Rotated(2 * v + 1)
  {
    hide Rotated;
    RotatedTwice(seed);
    RotatedTwice(2 * v);
    RotatedTwice(2 * v + 1);
  }

  /** Over any full period each 31-bit result is drawn exactly twice. */
  lemma EachResultTwice(seed: nat, v: nat) returns (i: nat, j: nat)
    requires seed < WORD && v < WORD / 2
    ensures i < WORD && j < WORD && i != j
    ensures forall n :: 0 <= n < WORD ==> (Drawn(seed, n) == v <==> n == i || n == j)
  {
    hide SeedAfter, Rotated, Output;
    var a := SeedComesUp(seed, Rotated(2 * v));
    var b := SeedComesUp(seed, Rotated(2 * v + 1));
    RotatedTwice(2 * v);
    RotatedTwice(2 * v + 1);
    i, j := a - 1, b - 1;
    forall n | 0 <= n < WORD
      ensures Drawn(seed, n) == v <==> n == i || n == j
    {
      SeedInRange(seed, n + 1);
      OutputOf(SeedAfter(seed, n + 1), v);
      SeedOnce(seed, n + 1, a);
      SeedOnce(seed, n + 1, b);
    }
  }

  lemma SeedOnce(seed: nat, i: nat, j: nat)
    requires seed < WORD && 1 <= i <= WORD && 1 <= j <= WORD
    ensures SeedAfter(seed, i) == SeedAfter(seed, j) <==> i == j
  {
    if i < j {
      SeedsDiffer(seed, i, j);
    } else if j < i {
      SeedsDiffer(seed, j, i);
    }
  }

  // ---------------------------------------------------------------- the generator

  /** Byte i of a buffer filled from a seed: each draw fills two bytes, low byte first. */
  function FillByte(seed: nat, i: nat): (b: nat)
    ensures b < 256
  {
    if i % 2 == 0 then Drawn(seed, i / 2) % 256 else Drawn(seed, i / 2) / 256 % 256
  }

  predicate Filled(bytes: seq<nat>, start: nat) {
    forall i :: 0 <= i < |bytes| ==> bytes[i] == FillByte(start, i)
  }

  lemma NothingFilled(start: nat)
    ensures Filled([], start)
  {
  }

  lemma FilledFurther(done: seq<nat>, start: nat, offset: nat, r: nat)
    requires Filled(done, start) && |done| == 2 * offset && r == Drawn(start, offset)
    ensures Filled(done + [r % 256], start) && Filled(done + [r % 256, r / 256 % 256], start)
  {
    hide Drawn;
  }

  /** The seed that the first call starts from, with the time and the uptime in it. */
  function FirstSeed(seeded: bool, seed: nat, now: nat, uptime: Uptime): nat {
    if seeded then seed else Update((seed + (if uptime.Known? then uptime.seconds else 0) + now) % WORD)
  }

  /** Reducing an intermediate sum does not change the result. */
  lemma SumModulo(a: nat, b: nat, c: nat)
    requires a < WORD
    ensures ((a + b) % WORD + c) % WORD == (a + b + c) % WORD && a % WORD == a
  {
    var q, r := (a + b) / WORD, (a + b) % WORD;
    assert a + b == q * WORD + r;
    var t, u := (r + c) / WORD, (r + c) % WORD;
    assert a + b + c == (q + t) * WORD + u;
    ModUnique(a + b + c, WORD, q + t, u);
    ModUnique(a, WORD, 0, a);
  }

  class Generator {
    var seed: nat          // g_workload_rand_seed
    var seeded: bool       // g_workload_rand_seed_init

    ghost predicate Valid()
      reads this
    {
      seed < WORD
    }

    constructor ()
      ensures Valid() && seed == 0 && !seeded
    {
      seed, seeded := 0, false;
    }

    /** workload_srand; `uptime` is None when the system call fails. */
    method Srand(value: nat, uptime: Uptime)
      requires Valid() && value < WORD
      modifies this
      ensures Valid() && seeded
      ensures seed == Update((old(seed) + (if uptime.Known? then uptime.seconds else 0) + value) % WORD)
    {
      if uptime.Known? {
        seed := (seed + uptime.seconds) % WORD;
      }
      SumModulo(old(seed), if uptime.Known? then uptime.seconds else 0, value);
      seed := Update((seed + value) % WORD);
      seeded := true;
    }

    /** __workload_rand */
    method Rand() returns (r: nat)
      requires Valid()
      modifies `seed
      ensures Valid() && seed == Update(old(seed)) && r == Output(seed)
    {
      seed := Update(seed);
      r := Rotated(seed) / 2;
    }

    /** The test of both public functions: the first call seeds with the time. */
    method EnsureSeeded(now: nat, uptime: Uptime)
      requires Valid() && now < WORD
      modifies this
      ensures Valid() && seeded && seed == FirstSeed(old(seeded), old(seed), now, uptime)
    {
      if !seeded {
        Srand(now, uptime);
      }
    }

    /** workload_rand */
    method NextRand(now: nat, uptime: Uptime) returns (r: nat)
      requires Valid() && now < WORD
      modifies this
      ensures Valid() && seeded
      ensures var start := FirstSeed(old(seeded), old(seed), now, uptime); seed == SeedAfter(start, 1) && r == Drawn(start, 0)
    {
      EnsureSeeded(now, uptime);
      ghost var start := seed;
      r := Rand();
      assert SeedAfter(start, 1) == Update(SeedAfter(start, 0));
    }

    /** One round of the filling loop: two bytes of a draw. */
    method FillPair(data: array<nat>, offset: nat, ghost start: nat)
      requires Valid() && 2 * offset + 1 < data.Length && seed == SeedAfter(start, offset)
      requires Filled(data[..2 * offset], start)
      modifies `seed, data
      ensures Valid() && seed == SeedAfter(start, offset + 1) && Filled(data[..2 * offset + 2], start)
      ensures forall i :: 2 * offset + 2 <= i < data.Length ==> data[i] == old(data[i])
    {
      hide Output, Update, Filled, FillByte;
      ghost var done := data[..2 * offset];
      var r := Rand();
      assert r == Drawn(start, offset);
      data[2 * offset] := r % 256;
      data[2 * offset + 1] := r / 256 % 256;
      FilledFurther(done, start, offset, r);
      assert data[..2 * offset + 2] == done + [r % 256, r / 256 % 256];
    }

    /** The last byte of a buffer of odd size. */
    method FillLast(data: array<nat>, offset: nat, ghost start: nat)
      requires Valid() && 2 * offset < data.Length && seed == SeedAfter(start, offset)
      requires Filled(data[..2 * offset], start)
      modifies `seed, data
      ensures Valid() && seed == SeedAfter(start, offset + 1) && Filled(data[..2 * offset + 1], start)
      ensures forall i :: 2 * offset + 1 <= i < data.Length ==> data[i] == old(data[i])
    {
      hide Output, Update, Filled, FillByte;
      ghost var done := data[..2 * offset];
      var r := Rand();
      assert r == Drawn(start, offset);
      data[2 * offset] := r % 256;
      FilledFurther(done, start, offset, r);
      assert data[..2 * offset + 1] == done + [r % 256];
    }

    /** workload_fill_rand on a buffer: without bytes to fill, nothing is seeded or drawn. */
    method FillRand(data: array<nat>, size: nat, now: nat, uptime: Uptime)
      requires Valid() && size <= data.Length && now < WORD
      modifies this, data
      ensures Valid() && (size == 0 ==> seed == old(seed) && seeded == old(seeded))
      ensures var start := FirstSeed(old(seeded), old(seed), now, uptime);
        size > 0 ==> seeded && seed == SeedAfter(start, (size + 1) / 2) && Filled(data[..size], start)
      ensures forall i :: size <= i < data.Length ==> data[i] == old(data[i])
    {
      hide Filled, FirstSeed;
      if size == 0 {
        return;
      }
      EnsureSeeded(now, uptime);
      var offset, half := 0, size / 2;
      ghost var start := seed;
      NothingFilled(start);
      assert data[..0] == [];
      while offset < half
        invariant offset <= half && Valid() && seeded && seed == SeedAfter(start, offset)
        invariant Filled(data[..2 * offset], start)
        invariant forall i :: size <= i < data.Length ==> data[i] == old(data[i])
      {
        FillPair(data, offset, start);
        offset := offset + 1;
      }
      if size % 2 != 0 {
        FillLast(data, offset, start);
      }
    }
  }

  datatype Uptime = Unknown | Known(seconds: nat)
}
