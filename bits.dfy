/** Powers of two and exclusive-or on unbounded naturals: the integer
    arithmetic that the buddy allocator performs on `usize` values
    (`is_power_of_two`, `next_power_of_two`, `<<` and `^`). */
module Bits {

  /** `1 << k`. */
  function Pow2(k: nat): (r: nat)
    ensures r >= 1
  {
    if k == 0 then 1 else 2 * Pow2(k - 1)
  }

  /** `usize::is_power_of_two`: exactly one bit is set. */
  predicate IsPow2(n: nat)
    decreases n
  {
    n == 1 || (n >= 2 && n % 2 == 0 && IsPow2(n / 2))
  }

  /** `r` is the smallest power of two that is at least `n`. */
  ghost predicate IsLeastPow2AtLeast(r: nat, n: nat) {
    IsPow2(r) && n <= r && (r == 1 || r / 2 < n)
  }

  /** `usize::next_power_of_two`, without the overflow of a fixed width. */
  function NextPowerOfTwo(n: nat): (r: nat)
    ensures IsLeastPow2AtLeast(r, n)
    decreases n
  {
    if n <= 1 then 1 else 2 * NextPowerOfTwo((n + 1) / 2)
  }

  lemma {:induction false} Pow2IsPow2(k: nat)
    ensures IsPow2(Pow2(k))
  {
    if k > 0 {
      Pow2IsPow2(k - 1);
    }
  }

  lemma {:induction false} Pow2Add(a: nat, b: nat)
    ensures Pow2(a + b) == Pow2(a) * Pow2(b)
  {
    if b > 0 {
      Pow2Add(a, b - 1);
      assert Pow2(a + b) == 2 * Pow2(a + b - 1);
    }
  }

  lemma {:induction false} Pow2Monotonic(a: nat, b: nat)
    requires a <= b
    ensures Pow2(a) <= Pow2(b)
  {
    if a < b {
      Pow2Monotonic(a, b - 1);
    }
  }

  lemma {:induction false} Pow2StrictlyMonotonic(a: nat, b: nat)
    requires a < b
    ensures Pow2(a) < Pow2(b)
  {
    Pow2Monotonic(a, b - 1);
  }

  /** Two powers of two are equal exactly when their exponents are. */
  lemma Pow2Injective(a: nat, b: nat)
    requires Pow2(a) == Pow2(b)
    ensures a == b
  {
    if a < b {
      Pow2StrictlyMonotonic(a, b);
    } else if b < a {
      Pow2StrictlyMonotonic(b, a);
    }
  }

  /** Bitwise exclusive-or of two naturals (`usize::bitxor`). */
  function Xor(a: nat, b: nat): nat
    decreases a + b
  {
    if a == 0 then b
    else if b == 0 then a
    else 2 * Xor(a / 2, b / 2) + (if a % 2 == b % 2 then 0 else 1)
  }

  /** The lowest bit and the remaining bits of an exclusive-or. */
  lemma XorDigits(a: nat, b: nat)
    ensures Xor(a, b) % 2 == (a % 2 + b % 2) % 2
    ensures Xor(a, b) / 2 == Xor(a / 2, b / 2)
  {
    if a == 0 {
      assert Xor(a / 2, b / 2) == b / 2;
    } else if b == 0 {
      assert Xor(a / 2, b / 2) == a / 2;
    } else {
      var x := Xor(a / 2, b / 2);
      var e := if a % 2 == b % 2 then 0 else 1;
      assert Xor(a, b) == 2 * x + e;
      assert e == (a % 2 + b % 2) % 2 by {
        BitSum(a % 2, b % 2);
      }
      DivModUnique(Xor(a, b), 2, x, e);
    }
  }

  /** The exclusive-or of two bits is their sum modulo 2. */
  lemma BitSum(x: nat, y: nat)
    requires x < 2 && y < 2
    ensures (if x == y then 0 else 1) == (x + y) % 2
  {
  }

  /** XOR with the same value twice is the identity: the buddy of a block's
      buddy is the block itself. */
  lemma {:induction false} XorInvolutive(a: nat, b: nat)
    ensures Xor(Xor(a, b), b) == a
    decreases a + b
  {
    var c := Xor(a, b);
    var d := Xor(c, b);
    XorDigits(a, b);
    XorDigits(c, b);
    if a + b > 0 && (a / 2) + (b / 2) < a + b {
      XorInvolutive(a / 2, b / 2);
    } else {
      assert a == 0 && b == 0;
    }
    assert d % 2 == a % 2;
    assert d / 2 == a / 2;
  }

  /** For `a` a multiple of `2^k`, XOR with `2^k` flips bit `k`: it adds
      `2^k` when that bit is clear and subtracts it when it is set. */
  lemma {:induction false} XorAlignedPow2(a: nat, k: nat)
    requires a % Pow2(k) == 0
    ensures (a / Pow2(k)) % 2 == 0 ==> Xor(a, Pow2(k)) == a + Pow2(k)
    ensures (a / Pow2(k)) % 2 == 1 ==> Xor(a, Pow2(k)) == a - Pow2(k)
  {
    var n := Pow2(k);
    var x := Xor(a, n);
    XorDigits(a, n);
    if k == 0 {
      assert n == 1 && Xor(a / 2, n / 2) == a / 2;
      assert x == 2 * (x / 2) + x % 2 && a == 2 * (a / 2) + a % 2;
    } else {
      var p := Pow2(k - 1);
      assert n == 2 * p;
      ModDouble(a, p);
      assert a % 2 == 0 && (a / 2) % p == 0 && a / n == (a / 2) / p;
      XorAlignedPow2(a / 2, k - 1);
      assert x % 2 == 0 && x / 2 == Xor(a / 2, p);
      assert x == 2 * (x / 2) && a == 2 * (a / 2);
    }
  }

  /** The lower half and the upper half of a block aligned to `2^(k+1)` are
      both aligned to `2^k`. */
  lemma HalvesAligned(b: nat, k: nat)
    requires b % Pow2(k + 1) == 0
    ensures b % Pow2(k) == 0 && (b + Pow2(k)) % Pow2(k) == 0
  {
    var p := Pow2(k);
    var q := b / (2 * p);
    assert b == q * (2 * p) + 0;
    DivModUnique(b, p, 2 * q, 0);
    DivModUnique(b + p, p, 2 * q + 1, 0);
  }

  /** The lower of a block aligned to `2^k` and its XOR-buddy at `2^k` is
      aligned to `2^(k+1)`, and the two blocks are adjacent. */
  lemma BuddyPairAligned(b: nat, k: nat)
    requires b % Pow2(k) == 0
    ensures b < Xor(b, Pow2(k)) ==> Xor(b, Pow2(k)) == b + Pow2(k) && b % Pow2(k + 1) == 0
    ensures Xor(b, Pow2(k)) < b ==> b == Xor(b, Pow2(k)) + Pow2(k) && Xor(b, Pow2(k)) % Pow2(k + 1) == 0
  {
    var p := Pow2(k);
    XorAlignedPow2(b, k);
    var q := b / p;
    LowerBuddyAligned(b, p, q);
  }

  /** A block aligned to `2^k` and its XOR-buddy at `2^k` are distinct,
      adjacent and both aligned to `2^k`, and the lower of the two is
      aligned to `2^(k+1)`. */
  lemma BuddyFacts(b: nat, k: nat)
    requires b % Pow2(k) == 0
    ensures var x := Xor(b, Pow2(k));
            var low := if b < x then b else x;
            && x != b && x % Pow2(k) == 0 && low % Pow2(k + 1) == 0
            && (b < x ==> x == b + Pow2(k))
            && (x < b ==> b == x + Pow2(k))
  {
    var x := Xor(b, Pow2(k));
    BuddyPairAligned(b, k);
    XorAlignedPow2(b, k);
    if b < x {
      HalvesAligned(b, k);
    } else {
      HalvesAligned(x, k);
    }
  }

  lemma LowerBuddyAligned(b: nat, p: nat, q: nat)
    requires p >= 1 && q == b / p && b % p == 0
    ensures q % 2 == 0 ==> b % (2 * p) == 0
    ensures q % 2 == 1 ==> b >= p && (b - p) % (2 * p) == 0
  {
    assert b == q * p;
    var m := q / 2;
    var e := q % 2;
    assert q == 2 * m + e;
    assert q * p == m * (2 * p) + e * p by {
      assert q * p == (2 * m + e) * p;
    }
    if e == 0 {
      DivModUnique(b, 2 * p, m, 0);
    } else {
      DivModUnique(b - p, 2 * p, m, 0);
    }
  }

  lemma MulAtLeast(t: int, d: int)
    requires t >= 1 && d >= 1
    ensures t * d >= d
  {
    assert t * d == (t - 1) * d + d;
  }

  /** Euclidean division has one quotient and one remainder. */
  lemma DivModUnique(x: int, d: int, q: int, r: int)
    requires d > 0 && 0 <= r < d && x == q * d + r
    ensures x / d == q && x % d == r
  {
    var t := q - x / d;
    assert x == (x / d) * d + x % d;
    assert t * d == x % d - r;
    if t >= 1 {
      MulAtLeast(t, d);
    }
  }

  /** Division by `2 * p` is division by 2 followed by division by `p`. */
  lemma ModDouble(b: nat, p: nat)
    requires p >= 1
    ensures b % (2 * p) == 2 * ((b / 2) % p) + b % 2
    ensures b / (2 * p) == (b / 2) / p
  {
    var h, e := b / 2, b % 2;
    var q, r := h / p, h % p;
    assert h == q * p + r;
    assert b == q * (2 * p) + (2 * r + e);
    DivModUnique(b, 2 * p, q, 2 * r + e);
  }
}
