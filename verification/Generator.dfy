/** The pseudo-random generator of project1/prototype/skipList.c and the node heights drawn from it.
    The C state is an unsigned int, so it is a number modulo 2^32 (section 6.2.5 of C11). */
module RandomGenerator {
  import opened Arithmetic

  const MODULUS: int := 0x1_0000_0000
  const MULTIPLIER: int := 1103515245
  const INCREMENT: int := 12345

  type Word = x: int | 0 <= x < 0x1_0000_0000

  function Next(x: Word): Word {
    (x * MULTIPLIER + INCREMENT) % MODULUS
  }

  /** The 15 bits that are handed out: bits 16 to 30 of the state. */
  function Draw(x: Word): (r: int)
    ensures 0 <= r < 32768
  {
    (x / 65536) % 32768
  }

  /** The state after n calls. */
  function After(seed: Word, n: nat): Word {
    if n == 0 then seed else Next(After(seed, n - 1))
  }

  /** What call number n returns, counting from zero. */
  function Returned(seed: Word, n: nat): int {
    Draw(After(seed, n + 1))
  }

  // ---- Closed form: n steps from x move x by Weight(n) * Drift(x) ----

  /** 1 + MULTIPLIER + ... + MULTIPLIER^(n-1). */
  function Weight(n: nat): nat {
    if n == 0 then 0 else MULTIPLIER * Weight(n - 1) + 1
  }

  function Drift(x: Word): int {
    (MULTIPLIER - 1) * x + INCREMENT
  }

  /** MULTIPLIER^n, written through Weight. */
  function Gain(n: nat): nat {
    1 + (MULTIPLIER - 1) * Weight(n)
  }

  lemma {:induction false} AfterClosedForm(x: Word, n: nat)
    ensures After(x, n) == (x + Weight(n) * Drift(x)) % MODULUS
  {
    if n == 0 {
      ModUnique(x, MODULUS, 0, x);
    } else {
      AfterClosedForm(x, n - 1);
      ClosedFormStep(After(x, n), x, Weight(n - 1), Drift(x), x + Weight(n - 1) * Drift(x));
    }
  }

  /** One more call, on plain integers: z is congruent to the state before it. */
  lemma ClosedFormStep(next: int, x: int, w: int, d: int, z: int)
    requires z == x + w * d && d == (MULTIPLIER - 1) * x + INCREMENT
    requires next == (z % MODULUS * MULTIPLIER + INCREMENT) % MODULUS
    ensures next == (x + (MULTIPLIER * w + 1) * d) % MODULUS
  {
    var q := z / MODULUS;
    assert z % MODULUS == z - MODULUS * q;
    Distribute(MULTIPLIER, w, d);
    ModShift(x + (MULTIPLIER * w + 1) * d, MODULUS, -(MULTIPLIER * q));
  }

  lemma Distribute(m: int, w: int, d: int)
    ensures (m * w + 1) * d == m * (w * d) + d
  {
    Associate(m, w, d);
  }

  lemma {:induction false} AfterSplits(x: Word, m: nat, n: nat)
    ensures After(x, m + n) == After(After(x, m), n)
  {
    if n == 0 {
    } else {
      AfterSplits(x, m, n - 1);
    }
  }

  lemma {:induction false} WeightAdds(m: nat, k: nat)
    ensures ProductPlus(Weight(m + k), Gain(k), Weight(m), Weight(k))
  {
    if k == 0 {
    } else {
      WeightAdds(m, k - 1);
      assert Gain(k) == MULTIPLIER * Gain(k - 1);
      Associate(MULTIPLIER, Gain(k - 1), Weight(m));
    }
  }

  lemma ParityStep(v: int, w: int, n: int)
    requires v == MULTIPLIER * w + 1 && w % 2 == (n - 1) % 2
    ensures v % 2 == n % 2
  {
    var h := (MULTIPLIER - 1) / 2;
    ModShift(w + 1, 2, h * w);
    assert v == w + 1 + 2 * (h * w);
  }

  lemma {:induction false} WeightParity(n: nat)
    ensures Weight(n) % 2 == n % 2
  {
    if n == 0 {
    } else {
      WeightParity(n - 1);
      ParityStep(Weight(n), Weight(n - 1), n);
    }
  }

  /** Because MULTIPLIER is 1 modulo 4, doubling n multiplies Weight by exactly one factor 2. */
  lemma WeightDoubles(k: nat, m: nat)
    requires k >= 1
    ensures Weight(m + m) % Pow2(k) == 0 <==> Weight(m) % Pow2(k - 1) == 0
  {
    WeightAdds(m, m);
    OneFactorTwo(k, Weight(m + m), Gain(m), 275878811 * Weight(m), Weight(m));
  }

  /** Weight(n) and n are divisible by the same powers of two. */
  lemma {:induction false} WeightDivisible(k: nat, n: nat)
    ensures Weight(n) % Pow2(k) == 0 <==> n % Pow2(k) == 0
    decreases k
  {
    WeightParity(n);
    if k == 0 {
    } else {
      if n % 2 == 1 {
        if Weight(n) % Pow2(k) == 0 { EvenIfDivisible(k, Weight(n)); }
        if n % Pow2(k) == 0 { EvenIfDivisible(k, n); }
      } else {
        var m := n / 2;
        assert n == m + m;
        WeightDoubles(k, m);
        WeightDivisible(k - 1, m);
        HalfDivisible(k, m);
      }
    }
  }

  lemma DriftIsOdd(x: Word)
    ensures Drift(x) % 2 == 1
  {
    var h := (MULTIPLIER - 1) / 2;
    assert Drift(x) == 2 * (h * x + 6172) + 1;
    ModUnique(Drift(x), 2, h * x + 6172, 1);
  }

  // ---- The period of the state ----

  /** From every seed the state returns to itself after exactly the multiples of 2^32. */
  lemma StatePeriod(x: Word, n: nat)
    ensures After(x, n) == x <==> n % MODULUS == 0
  {
    Pow2Known();
    AfterClosedForm(x, n);
    DriftIsOdd(x);
    OddFactor(32, Weight(n), Drift(x));
    WeightDivisible(32, n);
    UnchangedByMultiple(x, Weight(n) * Drift(x), MODULUS);
    ModUnique(x, MODULUS, 0, x);
  }

  lemma SameStateExactly(x: Word, i: nat, j: nat)
    requires i <= j
    ensures After(x, i) == After(x, j) <==> (j - i) % MODULUS == 0
  {
    AfterSplits(x, i, j - i);
    StatePeriod(After(x, i), j - i);
  }

  // ---- The period of the returned numbers ----

  /** Draw only looks at the state modulo 2^31. */
  lemma DrawOfLowBits(x: Word)
    ensures Draw(x) == (x % 0x8000_0000) / 65536
  {
    var q, r := x / 0x8000_0000, x % 0x8000_0000;
    assert x / 65536 == 32768 * q + r / 65536;
    ModUnique(x / 65536, 32768, q, r / 65536);
  }

  lemma LowBits(z: int)
    ensures (z % MODULUS) % 0x8000_0000 == z % 0x8000_0000
  {
    var q := z / MODULUS;
    ModShift(z % MODULUS, 0x8000_0000, 2 * q);
  }

  /** How n steps act on the state modulo 2^31. */
  lemma AfterLowBits(x: Word, n: nat)
    ensures After(x, n) % 0x8000_0000 == (x + Weight(n) * Drift(x)) % 0x8000_0000
  {
    AfterClosedForm(x, n);
    LowBits(x + Weight(n) * Drift(x));
  }

  lemma DrawRepeatsAfterHalfCycle(x: Word, p: nat)
    requires p % 0x8000_0000 == 0
    ensures Draw(After(x, p)) == Draw(x)
  {
    Pow2Known();
    AfterLowBits(x, p);
    WeightDivisible(31, p);
    OddFactor(31, Weight(p), Drift(x)) by { DriftIsOdd(x); }
    UnchangedByMultiple(x, Weight(p) * Drift(x), 0x8000_0000);
    DrawOfLowBits(x);
    DrawOfLowBits(After(x, p));
  }

  /** 2^30 times an odd number of steps moves the state by half a turn modulo 2^31. */
  lemma QuarterCycleShift(x: Word, n: nat)
    requires n % 0x8000_0000 == 0x4000_0000
    ensures (Weight(n) * Drift(x)) % 0x8000_0000 == 0x4000_0000
  {
    Pow2Known();
    DriftIsOdd(x);
    ModUnique(n, 0x4000_0000, 2 * (n / 0x8000_0000) + 1, 0);
    WeightDivisible(30, n);
    WeightDivisible(31, n);
    OddFactor(30, Weight(n), Drift(x));
    OddFactor(31, Weight(n), Drift(x));
    HalfwayRemainder(31, Weight(n) * Drift(x));
  }

  /** A step of half a turn modulo 2^31 flips the top bit that Draw hands out. */
  lemma DrawFlipsAfterQuarterCycle(x: Word, n: nat)
    requires n % 0x8000_0000 == 0x4000_0000
    ensures Draw(After(x, n)) != Draw(x)
  {
    QuarterCycleShift(x, n);
    AfterLowBits(x, n);
    ShiftedByHalf(x, Weight(n) * Drift(x));
    DrawOfLowBits(x);
    DrawOfLowBits(After(x, n));
  }

  lemma ShiftedByHalf(x: int, t: int)
    requires t % 0x8000_0000 == 0x4000_0000
    ensures ((x + t) % 0x8000_0000) / 65536 != (x % 0x8000_0000) / 65536
  {
    var q := t / 0x8000_0000;
    ModShift(x + 0x4000_0000, 0x8000_0000, q);
    var r := x % 0x8000_0000;
    var c := x / 0x8000_0000;
    if r < 0x4000_0000 {
      ModUnique(x + 0x4000_0000, 0x8000_0000, c, r + 0x4000_0000);
    } else {
      ModUnique(x + 0x4000_0000, 0x8000_0000, c + 1, r - 0x4000_0000);
    }
  }

  ghost predicate IsPeriod(seed: Word, p: nat) {
    forall n: nat :: Returned(seed, n + p) == Returned(seed, n)
  }

  lemma {:induction false} PeriodMultiple(seed: Word, p: nat, m: nat, n: nat)
    requires IsPeriod(seed, p)
    ensures Returned(seed, n + m * p) == Returned(seed, n)
    decreases m
  {
    if m == 0 {
    } else {
      PeriodMultiple(seed, p, m - 1, n);
      var k := n + (m - 1) * p;
      assert n + m * p == k + p;
      assert Returned(seed, k + p) == Returned(seed, k);
    }
  }

  lemma HalfCycleIsPeriod(seed: Word, p: nat)
    requires p % 0x8000_0000 == 0
    ensures IsPeriod(seed, p)
  {
    forall n: nat
      ensures Returned(seed, n + p) == Returned(seed, n)
    {
      AfterSplits(seed, n + 1, p);
      assert n + p + 1 == (n + 1) + p;
      DrawRepeatsAfterHalfCycle(After(seed, n + 1), p);
    }
  }

  lemma OtherStepsAreNoPeriod(seed: Word, p: nat)
    requires p % 0x8000_0000 != 0
    ensures !IsPeriod(seed, p)
  {
    Pow2Known();
    var m := HalfTurnMultiple(31, p);
    AfterSplits(seed, 1, m * p);
    DrawFlipsAfterQuarterCycle(After(seed, 1), m * p);
    assert Returned(seed, 0 + m * p) != Returned(seed, 0);
    if IsPeriod(seed, p) {
      PeriodMultiple(seed, p, m, 0);
    }
  }

  /** From every seed the periods of the returned stream are exactly the multiples of 2^31,
      so its least period is 2^31. */
  lemma ReturnedPeriods(seed: Word, p: nat)
    ensures IsPeriod(seed, p) <==> p % 0x8000_0000 == 0
  {
    if p % 0x8000_0000 == 0 { HalfCycleIsPeriod(seed, p); } else { OtherStepsAreNoPeriod(seed, p); }
  }

  // ---- How often each number is returned ----

  /** The calls of one full cycle that return a number of [lo, hi). */
  ghost function Calls(seed: Word, lo: int, hi: int): set<int> {
    set n | n in Range(0, MODULUS) && n >= 0 && lo <= Returned(seed, n) < hi
  }

  /** The states whose draw lies in [lo, hi). */
  ghost function Drawing(lo: int, hi: int): set<int> {
    set x | x in Range(0, MODULUS) && 0 <= x < 0x1_0000_0000 && lo <= Draw(x) < hi
  }

  lemma DrawingSize(lo: int, hi: int)
    requires 0 <= lo <= hi <= 32768
    ensures |Drawing(lo, hi)| == (hi - lo) * 131072
  {
    var low := Range(lo * 65536, hi * 65536);
    var high := Range(0x8000_0000 + lo * 65536, 0x8000_0000 + hi * 65536);
    forall x: Word
      ensures lo <= Draw(x) < hi <==> x in low + high
    {
      var q, r := x / 0x8000_0000, x % 0x8000_0000;
      DrawOfLowBits(x);
      assert q == 0 || q == 1;
      assert lo <= Draw(x) < hi <==> lo * 65536 <= r < hi * 65536;
      if q == 0 {
        assert x in low <==> lo * 65536 <= r < hi * 65536;
      } else {
        assert x in high <==> lo * 65536 <= r < hi * 65536;
      }
    }
    assert Drawing(lo, hi) == low + high;
    assert low !! high;
    RangeSize(lo * 65536, hi * 65536);
    RangeSize(0x8000_0000 + lo * 65536, 0x8000_0000 + hi * 65536);
  }

  /** The state that call number n leaves behind. */
  function Visited(seed: Word): int -> int {
    n => if n >= 0 then After(seed, n + 1) else 0
  }

  lemma VisitedOnce(seed: Word, i: nat, j: nat)
    requires i <= j < MODULUS && After(seed, i + 1) == After(seed, j + 1)
    ensures i == j
  {
    SameStateExactly(seed, i + 1, j + 1);
    ModUnique(j - i, MODULUS, 0, j - i);
  }

  lemma VisitedInjective(seed: Word)
    ensures InjectiveOn(Visited(seed), Range(0, MODULUS))
  {
    var f := Visited(seed);
    forall i, j | i in Range(0, MODULUS) && j in Range(0, MODULUS) && f(i) == f(j)
      ensures i == j
    {
      if i <= j { VisitedOnce(seed, i, j); } else { VisitedOnce(seed, j, i); }
    }
  }

  lemma VisitedStays(seed: Word)
    ensures forall n :: n in Range(0, MODULUS) ==> Visited(seed)(n) in Range(0, MODULUS)
  {
    forall n | n in Range(0, MODULUS)
      ensures Visited(seed)(n) in Range(0, MODULUS)
    {
      assert Within(After(seed, n + 1), 0, MODULUS);
    }
  }

  /** Over one full cycle every state is visited exactly once, whatever the seed. */
  lemma EveryStateVisited(seed: Word)
    ensures Image(Visited(seed), Range(0, MODULUS)) == Range(0, MODULUS)
  {
    VisitedInjective(seed);
    VisitedStays(seed);
    InjectiveOntoItself(Visited(seed), Range(0, MODULUS));
  }

  lemma CallLeavesDrawingState(seed: Word, lo: int, hi: int, n: int)
    requires n in Calls(seed, lo, hi)
    ensures Visited(seed)(n) in Drawing(lo, hi)
  {
    assert Within(After(seed, n + 1), 0, MODULUS);
  }

  lemma DrawingStateIsLeft(seed: Word, lo: int, hi: int, x: int) returns (n: int)
    requires x in Drawing(lo, hi)
    ensures n in Calls(seed, lo, hi) && Visited(seed)(n) == x
  {
    EveryStateVisited(seed);
    n := Preimage(Visited(seed), Range(0, MODULUS), x);
    assert Visited(seed)(n) == After(seed, n + 1);
  }

  /** From every seed one full cycle returns each range of numbers equally often. */
  lemma ReturnedEquallyOften(seed: Word, lo: int, hi: int)
    requires 0 <= lo <= hi <= 32768
    ensures |Calls(seed, lo, hi)| == (hi - lo) * 131072
  {
    var calls, f := Calls(seed, lo, hi), Visited(seed);
    forall x | x in Drawing(lo, hi)
      ensures x in Image(f, calls)
    {
      var n := DrawingStateIsLeft(seed, lo, hi, x);
    }
    forall x | x in Image(f, calls)
      ensures x in Drawing(lo, hi)
    {
      var n := Preimage(f, calls, x);
      CallLeavesDrawingState(seed, lo, hi, n);
    }
    assert Image(f, calls) == Drawing(lo, hi);
    VisitedInjective(seed);
    ImageSize(f, calls);
    DrawingSize(lo, hi);
  }

  /** Each single number 0..32767 is returned exactly 2^17 times in one full cycle. */
  lemma EachNumberReturned(seed: Word, v: int)
    requires 0 <= v < 32768
    ensures |set n | n in Range(0, MODULUS) && n >= 0 && Returned(seed, n) == v| == 131072
  {
    ReturnedEquallyOften(seed, v, v + 1);
    assert Calls(seed, v, v + 1) == set n | n in Range(0, MODULUS) && n >= 0 && Returned(seed, n) == v;
  }

  // ---- Node heights ----

  predicate KnownChance(chance: int) {
    chance == 2 || chance == 4 || chance == 8 || chance == 16
  }

  /** The bound that upHeight compares the drawn number with. */
  function Threshold(chance: int): int
    requires KnownChance(chance)
  {
    if chance == 2 then 16383 else if chance == 4 then 8191 else if chance == 8 then 4095 else 2047
  }

  /** The comparison that is meant to raise a node: it succeeds on the "else" side. */
  predicate Promotes(drawn: int, chance: int)
    requires KnownChance(chance)
  {
    !(drawn > Threshold(chance))
  }

  /** Over one full cycle the promote side is taken for exactly one call in `chance`. */
  lemma PromotedOneIn(seed: Word, chance: int)
    requires KnownChance(chance)
    ensures |set n | n in Range(0, MODULUS) && n >= 0 && Promotes(Returned(seed, n), chance)| * chance == MODULUS
  {
    var bound := Threshold(chance) + 1;
    ReturnedEquallyOften(seed, 0, bound);
    assert Calls(seed, 0, bound)
        == set n | n in Range(0, MODULUS) && n >= 0 && Promotes(Returned(seed, n), chance);
    if {
      case chance == 2 => assert bound == 16384;
      case chance == 4 => assert bound == 8192;
      case chance == 8 => assert bound == 4096;
      case chance == 16 => assert bound == 2048;
    }
  }

  /** The counting loop of upHeight: `tries` starts at 0 or 1 and grows past maxHeight. */
  function Climb(count: int, tries: int, maxHeight: int): int
    decreases maxHeight + 1 - tries
  {
    if count != 0 && tries <= maxHeight
    then Climb(if count < maxHeight then count + 1 else count, tries + 1, maxHeight)
    else count
  }

  /** The height that upHeight computes from a drawn number, exactly as written. */
  function WrittenHeight(drawn: int, chance: int, maxHeight: int): int
    requires KnownChance(chance)
  {
    Climb(1, if Promotes(drawn, chance) then 1 else 0, maxHeight)
  }

  lemma {:induction false} ClimbReachesTop(count: int, tries: int, maxHeight: int)
    requires 1 <= count <= maxHeight && tries <= count
    ensures Climb(count, tries, maxHeight) == maxHeight
    decreases maxHeight + 1 - tries
  {
    if count < maxHeight {
      ClimbReachesTop(count + 1, tries + 1, maxHeight);
    } else {
      ClimbStays(count, tries, maxHeight);
    }
  }

  lemma {:induction false} ClimbStays(count: int, tries: int, maxHeight: int)
    requires count >= maxHeight
    ensures Climb(count, tries, maxHeight) == count
    decreases maxHeight + 1 - tries
  {
    if count == 0 || tries > maxHeight {
    } else {
      ClimbStays(count, tries + 1, maxHeight);
    }
  }

  /** As written the drawn number has no influence: every node gets the full height. */
  lemma HeightIgnoresDraw(drawn: int, chance: int, maxHeight: int)
    requires KnownChance(chance)
    ensures WrittenHeight(drawn, chance, maxHeight) == if maxHeight >= 1 then maxHeight else 1
  {
    if maxHeight >= 1 {
      ClimbReachesTop(1, if Promotes(drawn, chance) then 1 else 0, maxHeight);
    } else {
      ClimbStays(1, if Promotes(drawn, chance) then 1 else 0, maxHeight);
    }
  }

  /** "Only the promote side raises a node above level one" therefore holds of the code exactly for
      lists with at most one level. */
  lemma OnlyPromotedAreRaised(chance: int, maxHeight: int)
    requires KnownChance(chance)
    ensures (forall x: Word :: WrittenHeight(Draw(x), chance, maxHeight) > 1 ==> Promotes(Draw(x), chance))
       <==> maxHeight <= 1
  {
    forall x: Word
      ensures WrittenHeight(Draw(x), chance, maxHeight) == if maxHeight >= 1 then maxHeight else 1
    {
      HeightIgnoresDraw(Draw(x), chance, maxHeight);
    }
    var x: Word := 0x7fff_0000;
    assert Draw(x) == 32767;
    assert !Promotes(Draw(x), chance);
  }

  /** The global next_random and the functions that change it. */
  class Generator {
    var state: Word

    constructor (seed: Word)
      ensures state == seed
    {
      state := seed;
    }

    method SeedRandom(seed: Word)
      modifies this
      ensures state == seed
    {
      state := seed;
    }

    method GetRandomInt() returns (r: int)
      modifies this
      ensures state == After(old(state), 1) == (old(state) * 1103515245 + 12345) % 0x1_0000_0000
      ensures r == Returned(old(state), 0) == state / 65536 % 32768
    {
      assert After(state, 1) == Next(After(state, 0));
      state := Next(state);
      r := Draw(state);
    }

    /** `unset` is whatever the local `check` happens to hold when chance is none of 2, 4, 8, 16. */
    method UpHeight(maxHeight: int, chance: int, unset: int) returns (count: int)
      modifies this
      ensures state == After(old(state), 1)
      ensures KnownChance(chance) ==> count == WrittenHeight(Returned(old(state), 0), chance, maxHeight)
      ensures count == if maxHeight >= 1 then maxHeight else 1
    {
      count := 1;
      var check := unset;
      if chance == 2 {
        check := 16383;
      } else if chance == 4 {
        check := 8191;
      } else if chance == 8 {
        check := 4095;
      } else if chance == 16 {
        check := 2047;
      }
      var drawn := GetRandomInt();
      var tries := if drawn > check then 0 else 1;
      ghost var start := tries;
      while count != 0 && tries <= maxHeight
        invariant Climb(count, tries, maxHeight) == Climb(1, start, maxHeight)
        decreases maxHeight + 1 - tries
      {
        if count < maxHeight {
          count := count + 1;
        }
        tries := tries + 1;
      }
      if maxHeight >= 1 {
        ClimbReachesTop(1, start, maxHeight);
      } else {
        ClimbStays(1, start, maxHeight);
      }
    }
  }
}
