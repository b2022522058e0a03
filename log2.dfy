/** The floor of log base 2, as `impl Log2 for usize` computes it with the
    table-driven bit scan of alarm-buddy/src/log2.rs. */
module Log2 {
  import opened Bits

  /** Floor of log base 2 on naturals (0 for 0 and for 1): what the bit scan
      computes, and what the allocator uses to turn a block size into an
      order. */
  function FloorLog2(n: nat): nat
    decreases n
  {
    if n <= 1 then 0 else 1 + FloorLog2(n / 2)
  }

  /** `2^r <= n < 2^(r+1)` for `r = FloorLog2(n)` and every `n >= 1`. */
  lemma {:induction false} FloorLog2Bounds(n: nat)
    requires n >= 1
    ensures Pow2(FloorLog2(n)) <= n < Pow2(FloorLog2(n) + 1)
    decreases n
  {
    if n >= 2 {
      FloorLog2Bounds(n / 2);
    }
  }

  /** Conversely the bounds determine the logarithm. */
  lemma {:induction false} FloorLog2Unique(n: nat, r: nat)
    requires Pow2(r) <= n < Pow2(r + 1)
    ensures FloorLog2(n) == r
    decreases r
  {
    if r > 0 {
      FloorLog2Unique(n / 2, r - 1);
    }
  }

  /** `log2(1 << k) == k`. */
  lemma FloorLog2OfPow2(k: nat)
    ensures FloorLog2(Pow2(k)) == k
  {
    FloorLog2Unique(Pow2(k), k);
  }

  /** A power of two is `1 << log2` of itself. */
  lemma {:induction false} PowerOfTwoIsPow2OfLog(n: nat)
    requires IsPow2(n)
    ensures Pow2(FloorLog2(n)) == n
    decreases n
  {
    if n > 1 {
      PowerOfTwoIsPow2OfLog(n / 2);
    }
  }

  /** Width of `usize` on the 64-bit targets the tables are written for. */
  const UsizeBits: nat := 64

  /** The shift amounts `S` of the scan on a 64-bit target, widest last. */
  const S: seq<nat> := [1, 2, 4, 8, 16, 32]

  /** The masks `B` of the scan: `B[i]` selects bits `S[i] .. 2 * S[i] - 1`. */
  const B: seq<bv64> := [0x2, 0xC, 0xF0, 0xFF00, 0xFFFF_0000, 0xFFFF_FFFF_0000_0000]

  /** `usize::log2`: scans the tables from the widest mask down; whenever the
      remaining value has a bit under mask `i` it shifts the value right by
      `S[i]` and ORs `S[i]` into the result. On a non-zero value the result is
      the floor of its logarithm; on zero no mask matches and it is 0.
      The value is a natural below `2^64`; the mask test `v & B[i] != 0` is
      written `v >= 2^S[i]`, the shift `v >> S[i]` as `Shr(v, S[i])` and the OR
      as an addition (`MaskTestIsWindowTest` and `OrAddsShift` show these
      agree with the 64-bit operations). */
  method Log2(value: nat) returns (result: nat)
    requires value < Pow2(UsizeBits)
    ensures value != 0 ==> result == FloorLog2(value)
    ensures value == 0 ==> result == 0
    ensures result < UsizeBits
  {
    result := 0;
    var v := value;
    var i := |S|;
    ghost var width := UsizeBits;
    while i > 0
      invariant 0 <= i <= 6
      invariant width == Pow2(i)
      invariant v == Shr(value, result)
      invariant v < Pow2(width)
      invariant value != 0 ==> v != 0
      invariant value == 0 ==> result == 0
    {
      i := i - 1;
      ShiftTable(i);
      if v >= Pow2(S[i]) {
        Round(value, result, v, S[i], width);
        v := Shr(v, S[i]);
        result := result + S[i];
      }
      width := S[i];
    }
    if value != 0 {
      Final(value, result, v);
      FloorLog2Below(value, UsizeBits);
    }
  }

  /** A value that fits in `w` bits has a logarithm below `w`: on `usize`
      the result is at most 63. */
  lemma FloorLog2Below(n: nat, w: nat)
    requires 1 <= n < Pow2(w)
    ensures FloorLog2(n) < w
  {
    FloorLog2Bounds(n);
    if FloorLog2(n) >= w {
      Pow2Monotonic(w, FloorLog2(n));
    }
  }

  /** Entry `i` of the shift table is `2^i`. */
  lemma ShiftTable(i: nat)
    requires i < 6
    ensures S[i] == Pow2(i)
  {
    if i == 0 {} else if i == 1 {} else if i == 2 {} else if i == 3 {} else if i == 4 {} else {}
  }

  /** `x >> n` on naturals: `n` halvings. */
  function Shr(x: nat, n: nat): nat
  {
    if n == 0 then x else Shr(x, n - 1) / 2
  }

  /** Shifting right by `n` divides by `2^n`. */
  lemma {:induction false} ShrIsDiv(x: nat, n: nat)
    ensures Shr(x, n) == x / Pow2(n)
  {
    if n > 0 {
      ShrIsDiv(x, n - 1);
      DivDiv(x, Pow2(n - 1), 2);
    }
  }

  /** Shifting right by `a` and then by `b` is shifting right by `a + b`. */
  lemma {:induction false} ShrAdd(x: nat, a: nat, b: nat)
    ensures Shr(Shr(x, a), b) == Shr(x, a + b)
  {
    if b > 0 {
      ShrAdd(x, a, b - 1);
    }
  }

  /** One round that finds a bit under the mask: the shifted value is what
      shifting the input by the new result gives, is non-zero, and fits in
      half the window. */
  lemma Round(value: nat, result: nat, v: nat, k: nat, width: nat)
    requires v == Shr(value, result)
    requires width == 2 * k
    requires Pow2(k) <= v < Pow2(width)
    ensures Shr(v, k) == Shr(value, result + k)
    ensures 1 <= Shr(v, k) < Pow2(k)
  {
    Pow2Add(k, k);
    ShiftedWindow(v, k);
    ShrIsDiv(v, k);
    ShrAdd(value, result, k);
  }

  /** When the scan ends with a remaining value of 1, the result is the
      floor of the logarithm. */
  lemma Final(value: nat, result: nat, v: nat)
    requires v == Shr(value, result)
    requires 0 < v < Pow2(1)
    ensures result == FloorLog2(value)
  {
    ShrIsDiv(value, result);
    QuotientOne(value, Pow2(result));
    Pow2Add(result, 1);
    FloorLog2Unique(value, result);
  }

  /** A value in the window `[2^k, 2^(2k))` shifted right by `k` is non-zero
      and fits in `k` bits. */
  lemma ShiftedWindow(v: nat, k: nat)
    requires Pow2(k) <= v < Pow2(k) * Pow2(k)
    ensures 1 <= v / Pow2(k) < Pow2(k)
  {
    var p := Pow2(k);
    var q := v / p;
    assert v == q * p + v % p;
    if q >= p {
      MulLeftMonotonic(p, q, p);
    }
  }

  /** `q >= p` implies `q * m >= p * m`. */
  lemma MulLeftMonotonic(p: nat, q: nat, m: nat)
    requires p <= q
    ensures p * m <= q * m
  {
    var d := q - p;
    assert q * m == p * m + d * m;
  }

  /** A quotient of 1 bounds the dividend by one and two divisors. */
  lemma QuotientOne(x: nat, p: nat)
    requires p >= 1 && x / p == 1
    ensures p <= x < 2 * p
  {
    assert x == (x / p) * p + x % p;
  }

  /** `(x / p) / q == x / (p * q)` for positive divisors. */
  lemma DivDiv(x: nat, p: nat, q: nat)
    requires p >= 1 && q >= 1
    ensures x / p / q == x / (p * q)
  {
    var q1 := x / p;
    var r1 := x % p;
    var q2 := q1 / q;
    var r2 := q1 % q;
    assert x == q1 * p + r1;
    assert q1 == q2 * q + r2;
    assert x == q2 * (p * q) + (r2 * p + r1) by {
      assert q1 * p == (q2 * q + r2) * p;
      assert (q2 * q + r2) * p == q2 * (p * q) + r2 * p;
    }
    assert r2 * p + r1 < p * q by {
      assert r2 <= q - 1;
      MulLeftMonotonic(r2, q - 1, p);
      assert (q - 1) * p == p * q - p;
    }
    DivModUnique(x, p * q, q2, r2 * p + r1);
  }

  /** The source's mask test on a 64-bit value that fits in `2 * S[i]` bits:
      `v & B[i]` is non-zero exactly when `v >= 1 << S[i]`. */
  lemma MaskTestIsWindowTest(i: nat, v: bv64)
    requires i < 6
    requires i < 5 ==> v < 1 << (2 * S[i]) as bv7
    ensures (v & B[i] != 0) == (v >= 1 << S[i] as bv7)
  {
    if i == 0 {} else if i == 1 {} else if i == 2 {} else if i == 3 {} else if i == 4 {} else {}
  }

  /** ORing a shift amount into the result adds it, because the shift
      amounts used in one scan are distinct powers of two, so share no bits
      with what the result already holds. */
  lemma OrAddsShift(r: bv64, s: bv64)
    requires r & s == 0
    ensures r | s == r + s
  {
  }
}
