/** Powers of two, divisibility by them, and the cardinality facts the counting theorems need. */
module Arithmetic {

  function Pow2(k: nat): (p: nat)
    ensures p >= 1
  {
    if k == 0 then 1 else 2 * Pow2(k - 1)
  }

  lemma {:induction false} Pow2Known()
    ensures Pow2(16) == 65536
    ensures Pow2(30) == 0x4000_0000
    ensures Pow2(31) == 0x8000_0000
    ensures Pow2(32) == 0x1_0000_0000
  {
    assert Pow2(4) == 16;
    assert Pow2(8) == 256;
    assert Pow2(12) == 4096;
    assert Pow2(16) == 65536;
    assert Pow2(20) == 0x10_0000;
    assert Pow2(24) == 0x100_0000;
    assert Pow2(28) == 0x1000_0000;
  }

  lemma MultipleIsDivisible(d: int, q: int)
    requires d > 0
    ensures (d * q) % d == 0
  {
    ModUnique(d * q, d, q, 0);
  }

  /** Quotient and remainder are determined by n == d * q + r with 0 <= r < d. */
  lemma ModUnique(n: int, d: int, q: int, r: int)
    requires d > 0 && n == d * q + r && 0 <= r < d
    ensures n % d == r && n / d == q
  {
    var q', r' := n / d, n % d;
    assert n == d * q' + r';
    assert d * (q - q') == d * q - d * q' == r' - r;
    assert d * (q' - q) == d * q' - d * q == r - r';
    if q' < q {
      MulGrows(d, q - q');
    } else if q < q' {
      MulGrows(d, q' - q);
    }
  }

  lemma MulGrows(d: int, m: int)
    requires d > 0 && m >= 1
    ensures d * m >= d
  {
    assert d * m == d + d * (m - 1);
    assert d * (m - 1) >= 0;
  }

  /** Adding a multiple of d does not change the remainder. */
  lemma ModShift(n: int, d: int, q: int)
    requires d > 0
    ensures (n + d * q) % d == n % d
  {
    assert n + d * q == d * (n / d + q) + n % d by {
      assert d * (n / d + q) == d * (n / d) + d * q;
    }
    ModUnique(n + d * q, d, n / d + q, n % d);
  }

  /** An even number is divisible by 2^k exactly when its half is divisible by 2^(k-1). */
  lemma HalfDivisible(k: nat, b: int)
    requires k >= 1
    ensures (2 * b) % Pow2(k) == 0 <==> b % Pow2(k - 1) == 0
  {
    var p := Pow2(k - 1);
    if b % p == 0 {
      assert 2 * b == Pow2(k) * (b / p) by {
        assert b == p * (b / p);
        assert (2 * p) * (b / p) == 2 * (p * (b / p));
      }
      MultipleIsDivisible(Pow2(k), b / p);
    }
    if (2 * b) % Pow2(k) == 0 {
      var q := (2 * b) / Pow2(k);
      assert 2 * b == (2 * p) * q;
      assert b == p * q by { assert (2 * p) * q == 2 * (p * q); }
      MultipleIsDivisible(p, q);
    }
  }

  lemma OddProduct(a: int, b: int)
    ensures (a * b) % 2 == 1 <==> a % 2 == 1 && b % 2 == 1
  {
    var i, j := a / 2, b / 2;
    if a % 2 == 0 {
      assert a * b == 2 * (i * b) by { assert a == 2 * i; }
      ModUnique(a * b, 2, i * b, 0);
    } else if b % 2 == 0 {
      assert a * b == 2 * (a * j) by { assert b == 2 * j; }
      ModUnique(a * b, 2, a * j, 0);
    } else {
      assert a * b == 2 * (i * b + j) + 1 by {
        assert a == 2 * i + 1 && b == 2 * j + 1;
        assert (2 * i + 1) * b == 2 * (i * b) + b;
      }
      ModUnique(a * b, 2, i * b + j, 1);
    }
  }

  lemma Associate(a: int, b: int, c: int)
    ensures (a * b) * c == a * (b * c)
  {
  }

  /** Adding t keeps the remainder modulo d exactly when d divides t. */
  lemma UnchangedByMultiple(x: int, t: int, d: int)
    requires d > 0
    ensures (x + t) % d == x % d <==> t % d == 0
  {
    var a, s, q, r := x / d, x % d, t / d, t % d;
    assert d * (a + q) == d * a + d * q;
    assert d * (a + q + 1) == d * a + d * q + d;
    if s + r < d {
      ModUnique(x + t, d, a + q, s + r);
    } else {
      ModUnique(x + t, d, a + q + 1, s + r - d);
    }
  }

  lemma EvenIfDivisible(k: nat, n: int)
    requires k >= 1 && n % Pow2(k) == 0
    ensures n % 2 == 0
  {
    var q := n / Pow2(k);
    assert n == 2 * (Pow2(k - 1) * q) by {
      assert n == Pow2(k) * q;
      assert (2 * Pow2(k - 1)) * q == 2 * (Pow2(k - 1) * q);
    }
    ModUnique(n, 2, Pow2(k - 1) * q, 0);
  }

  /** An odd factor never helps divisibility by a power of two. */
  lemma {:induction false} OddFactor(k: nat, a: int, o: int)
    requires o % 2 == 1
    ensures (a * o) % Pow2(k) == 0 <==> a % Pow2(k) == 0
    decreases k
  {
    if k == 0 {
    } else {
      OddProduct(a, o);
      if a % 2 == 1 {
        if (a * o) % Pow2(k) == 0 { EvenIfDivisible(k, a * o); }
        if a % Pow2(k) == 0 { EvenIfDivisible(k, a); }
      } else {
        var b := a / 2;
        assert a == 2 * b;
        assert a * o == 2 * (b * o);
        HalfDivisible(k, b);
        HalfDivisible(k, b * o);
        OddFactor(k - 1, b, o);
      }
    }
  }

  predicate ProductPlus(total: int, a: int, b: int, c: int) {
    total == a * b + c
  }

  /** When g is 1 modulo 4, the sum g w + w carries exactly one more factor 2 than w. */
  lemma OneFactorTwo(k: nat, total: int, g: int, e: int, w: int)
    requires k >= 1 && g == 1 + 4 * e && ProductPlus(total, g, w, w)
    ensures total % Pow2(k) == 0 <==> w % Pow2(k - 1) == 0
  {
    var o := 1 + 2 * e;
    assert g * w == (1 + 4 * e) * w == w + 4 * (e * w);
    assert w * o == w + 2 * (w * e);
    assert total == 2 * (w * o);
    HalfDivisible(k, w * o);
    OddFactor(k - 1, w, o);
  }

  /** 2^j divides whatever 2^k divides, for j <= k. */
  lemma {:induction false} SmallerPowerDivides(j: nat, k: nat, n: int)
    requires j <= k && n % Pow2(k) == 0
    ensures n % Pow2(j) == 0
    decreases k
  {
    if j == k {
    } else {
      var q := n / Pow2(k);
      assert n == Pow2(k - 1) * (2 * q) by {
        assert n == (2 * Pow2(k - 1)) * q;
        assert (2 * Pow2(k - 1)) * q == Pow2(k - 1) * (2 * q);
      }
      MultipleIsDivisible(Pow2(k - 1), 2 * q);
      SmallerPowerDivides(j, k - 1, n);
    }
  }

  lemma DoubledFactor(p: int, q: int)
    ensures (2 * p) * q == p * (2 * q) == 2 * (p * q)
  {
  }

  lemma OddMultiple(p: int, q: int)
    requires p > 0 && q % 2 == 1
    ensures (p * q) % (2 * p) == p
  {
    var h := q / 2;
    calc {
      p * q;
    == { assert q == 2 * h + 1; }
      p * (2 * h + 1);
    ==
      p * (2 * h) + p;
    == { DoubledFactor(p, h); }
      (2 * p) * h + p;
    }
    ModUnique(p * q, 2 * p, h, p);
  }

  /** Divisible by 2^(k-1) but not by 2^k means the remainder modulo 2^k is 2^(k-1). */
  lemma HalfwayRemainder(k: nat, n: int)
    requires k >= 1 && n % Pow2(k - 1) == 0 && n % Pow2(k) != 0
    ensures n % Pow2(k) == Pow2(k - 1)
  {
    var p := Pow2(k - 1);
    var q := n / p;
    assert n == p * q;
    if q % 2 == 0 {
      DoubledFactor(p, q / 2);
      assert n == (2 * p) * (q / 2);
      MultipleIsDivisible(2 * p, q / 2);
      assert false;
    } else {
      OddMultiple(p, q);
    }
  }

  lemma DoubledRemainder(n: int, d: int)
    requires d > 0
    ensures (2 * n) % (2 * d) == 2 * (n % d)
  {
    var q := n / d;
    DoubledFactor(d, q);
    assert 2 * n == (2 * d) * q + 2 * (n % d);
    ModUnique(2 * n, 2 * d, q, 2 * (n % d));
  }

  /** Any step not divisible by 2^k has a multiple that is half a turn modulo 2^k. */
  lemma {:induction false} HalfTurnMultiple(k: nat, p: nat) returns (m: nat)
    requires p % Pow2(k) != 0
    ensures k >= 1 && (m * p) % Pow2(k) == Pow2(k - 1)
    decreases k
  {
    assert k >= 1;
    if p % 2 == 1 {
      m := Pow2(k - 1);
      OddMultiple(m, p);
    } else {
      var h := p / 2;
      HalfDivisible(k, h);
      m := HalfTurnMultiple(k - 1, h);
      DoubledFactor(m, h);
      DoubledRemainder(m * h, Pow2(k - 1));
    }
  }

  predicate Within(i: int, lo: int, hi: int) {
    lo <= i < hi
  }

  /** The integers of [lo, hi). */
  function Range(lo: int, hi: int): set<int> {
    set i | lo <= i < hi && Within(i, lo, hi)
  }

  lemma {:induction false} RangeSize(lo: int, hi: int)
    requires lo <= hi
    ensures |Range(lo, hi)| == hi - lo
    decreases hi - lo
  {
    if lo < hi {
      RangeSize(lo, hi - 1);
      assert Range(lo, hi) == Range(lo, hi - 1) + {hi - 1};
    } else {
      assert Range(lo, hi) == {};
    }
  }

  ghost predicate InjectiveOn(f: int -> int, s: set<int>) {
    forall i, j :: i in s && j in s && f(i) == f(j) ==> i == j
  }

  function Image(f: int -> int, s: set<int>): set<int> {
    set i | i in s :: f(i)
  }

  lemma Preimage(f: int -> int, s: set<int>, y: int) returns (x: int)
    requires y in Image(f, s)
    ensures x in s && f(x) == y
  {
    x :| x in s && f(x) == y;
  }

  lemma SomeElement<T>(s: set<T>) returns (x: T)
    requires s != {}
    ensures x in s
  {
    x :| x in s;
  }

  lemma {:induction false} ImageSize(f: int -> int, s: set<int>)
    requires InjectiveOn(f, s)
    ensures |Image(f, s)| == |s|
    decreases s
  {
    if s == {} {
      assert Image(f, s) == {};
    } else {
      var x := SomeElement(s);
      var rest := s - {x};
      ImageSize(f, rest);
      assert Image(f, s) == Image(f, rest) + {f(x)};
      assert f(x) !in Image(f, rest);
    }
  }

  lemma {:induction false} EqualSizeSubset(a: set<int>, b: set<int>)
    requires a <= b && |a| == |b|
    ensures a == b
  {
    assert b == a + (b - a);
    assert |b| == |a| + |b - a|;
    assert b - a == {};
  }

  /** An injective map of a finite set into itself is onto. */
  lemma InjectiveOntoItself(f: int -> int, s: set<int>)
    requires InjectiveOn(f, s)
    requires forall x :: x in s ==> f(x) in s
    ensures Image(f, s) == s
  {
    ImageSize(f, s);
    EqualSizeSubset(Image(f, s), s);
  }
}
