/**
 Unsigned C arithmetic on mathematical naturals: powers of two, right shifts,
 single bits, and the bitwise `&`, with the few laws that the masks of the
 lookup code rest on.
 */
module Bits {

  const TWO_TO_THE_32: nat := 0x1_0000_0000
  const ALL_ONES_32: nat := 0xffff_ffff

  function Pow2(n: nat): (p: nat)
    ensures p >= 1
  {
    if n == 0 then 1 else 2 * Pow2(n - 1)
  }

  /** The C expression `x >> k` for an unsigned `x`. */
  function Shr(x: nat, k: nat): nat {
    if k == 0 then x else Shr(x / 2, k - 1)
  }

  /** Bit `k` of `x`, bit 0 being the least significant. */
  predicate Bit(x: nat, k: nat) {
    Shr(x, k) % 2 == 1
  }

  /** The C expression `a & b` for unsigned operands. */
  function BitAnd(a: nat, b: nat): nat {
    if a == 0 || b == 0 then 0
    else (if a % 2 == 1 && b % 2 == 1 then 1 else 0) + 2 * BitAnd(a / 2, b / 2)
  }

  /** The C expression `x << k` where no bit is lost. */
  function Shl(x: nat, k: nat): nat {
    x * Pow2(k)
  }

  /** The C expression `x << k` for a 32-bit unsigned `x`. */
  function Shl32(x: nat, k: nat): nat {
    x * Pow2(k) % TWO_TO_THE_32
  }

  /** `x & 1` tests the lowest bit. */
  lemma LowestBit(x: nat)
    ensures BitAnd(x, 1) != 0 <==> x % 2 == 1
  {
    assert BitAnd(x / 2, 0) == 0;
  }

  lemma {:induction false} Pow2Add(m: nat, n: nat)
    ensures Pow2(m + n) == Pow2(m) * Pow2(n)
  {
    if m == 0 {
    } else {
      Pow2Add(m - 1, n);
    }
  }

  lemma {:induction false} Pow2Monotonic(m: nat, n: nat)
    requires m <= n
    ensures Pow2(m) <= Pow2(n)
    decreases n - m
  {
    if m < n {
      Pow2Monotonic(m + 1, n);
    }
  }

  lemma Pow2Values()
    ensures Pow2(1) == 2
    ensures Pow2(8) == 256
    ensures Pow2(16) == 0x1_0000
    ensures Pow2(24) == 0x100_0000
    ensures Pow2(31) == 0x8000_0000
    ensures Pow2(32) == TWO_TO_THE_32
  {
    assert Pow2(4) == 16;
    Pow2Add(4, 4);
    Pow2Add(8, 8);
    Pow2Add(16, 8);
    Pow2Add(16, 16);
  }

  /** Euclidean division: the quotient and remainder are determined by their defining equation. */
  lemma DivModUnique(x: int, p: int, q: int, r: int)
    requires 0 < p && x == q * p + r && 0 <= r < p
    ensures x / p == q && x % p == r
  {
    var d := x / p - q;
    assert d * p == r - x % p;
    if d >= 1 {
      MulMonotonic(1, d, p);
    } else if d <= -1 {
      MulMonotonic(d, -1, p);
    }
  }

  lemma MulMonotonic(a: int, b: int, p: nat)
    requires a <= b
    ensures a * p <= b * p
  {
  }

  lemma {:induction false} ShrIsDivision(x: nat, k: nat)
    ensures Shr(x, k) == x / Pow2(k)
  {
    if k == 0 {
    } else {
      ShrIsDivision(x / 2, k - 1);
      var p := Pow2(k - 1);
      var h := x / 2;
      var q, r := h / p, h % p;
      assert h == q * p + r;
      Doubling(q, p);
      assert x == q * (2 * p) + (2 * r + x % 2);
      DivModUnique(x, 2 * p, q, 2 * r + x % 2);
    }
  }

  lemma {:induction false} ShrShr(x: nat, j: nat, k: nat)
    ensures Shr(Shr(x, j), k) == Shr(x, j + k)
  {
    if j == 0 {
    } else {
      ShrShr(x / 2, j - 1, k);
    }
  }

  lemma ShrBelow(x: nat, k: nat, w: nat)
    requires x < Pow2(w) && k <= w
    ensures Shr(x, k) < Pow2(w - k)
  {
    ShrIsDivision(x, k);
    Pow2Add(w - k, k);
    var p, q := Pow2(k), x / Pow2(k);
    assert x == q * p + x % p;
    if q >= Pow2(w - k) {
      MulMonotonic(Pow2(w - k), q, p);
    }
  }

  /** An aligned block of `2^k` numbers is exactly the set of numbers with the same top bits. */
  lemma SameBlock(x: nat, k: nat, q: nat)
    ensures Shr(x, k) == q <==> q * Pow2(k) <= x < q * Pow2(k) + Pow2(k)
  {
    ShrIsDivision(x, k);
    QuotientIff(x, Pow2(k), q);
  }

  lemma QuotientIff(x: nat, p: nat, q: nat)
    requires p > 0
    ensures x / p == q <==> q * p <= x < q * p + p
  {
    if q * p <= x < q * p + p {
      DivModUnique(x, p, q, x - q * p);
    } else {
      assert x == x / p * p + x % p;
    }
  }

  /** A block below `h` blocks ends where those end, or before. */
  lemma BlockFits(s: nat, h: nat, p: nat)
    requires s < h
    ensures s * p + p <= h * p
  {
    MulMonotonic(s + 1, h, p);
  }

  lemma {:induction false} BitAndSplit(a: nat, b: nat, k: nat)
    ensures BitAnd(a, b) == BitAnd(Shr(a, k), Shr(b, k)) * Pow2(k) + BitAnd(a % Pow2(k), b % Pow2(k))
  {
    if k == 0 {
    } else {
      var p := Pow2(k - 1);
      var s, t := BitAnd(Shr(a, k), Shr(b, k)), BitAnd((a / 2) % p, (b / 2) % p);
      BitAndSplit(a / 2, b / 2, k - 1);
      assert BitAnd(a / 2, b / 2) == s * p + t;
      BitAndHalves(a, b);
      RemainderHalves(a, b, k);
      Doubling(s, p);
    }
  }

  lemma Doubling(s: int, p: int)
    ensures s * (2 * p) == 2 * (s * p)
  {
  }

  lemma RemainderHalves(a: nat, b: nat, k: nat)
    requires k > 0
    ensures BitAnd(a % Pow2(k), b % Pow2(k))
         == (if a % 2 == 1 && b % 2 == 1 then 1 else 0)
            + 2 * BitAnd((a / 2) % Pow2(k - 1), (b / 2) % Pow2(k - 1))
  {
    HalfOfRemainder(a, k);
    HalfOfRemainder(b, k);
    BitAndHalves(a % Pow2(k), b % Pow2(k));
  }

  lemma BitAndHalves(a: nat, b: nat)
    ensures BitAnd(a, b) == (if a % 2 == 1 && b % 2 == 1 then 1 else 0) + 2 * BitAnd(a / 2, b / 2)
  {
  }

  lemma HalfOfRemainder(x: nat, k: nat)
    requires k > 0
    ensures (x % Pow2(k)) / 2 == (x / 2) % Pow2(k - 1)
    ensures (x % Pow2(k)) % 2 == x % 2
  {
    var p := Pow2(k - 1);
    var h := x / 2;
    var q, r := h / p, h % p;
    assert h == q * p + r;
    assert x == q * (2 * p) + (2 * r + x % 2);
    DivModUnique(x, 2 * p, q, 2 * r + x % 2);
  }

  /** `((1 << k) - 1) & x` keeps the low `k` bits. */
  lemma {:induction false} AndLowOnes(k: nat, x: nat)
    ensures BitAnd(Pow2(k) - 1, x) == x % Pow2(k)
  {
    if k == 0 {
    } else {
      var p := Pow2(k - 1);
      assert Pow2(k) - 1 == 2 * (p - 1) + 1;
      assert (Pow2(k) - 1) / 2 == p - 1 && (Pow2(k) - 1) % 2 == 1;
      AndLowOnes(k - 1, x / 2);
      HalfOfRemainder(x, k);
      BitAndHalves(Pow2(k) - 1, x);
    }
  }

  /** `&` works on high and low parts separately. */
  lemma BitAndParts(h1: nat, l1: nat, h2: nat, l2: nat, k: nat)
    requires l1 < Pow2(k) && l2 < Pow2(k)
    ensures BitAnd(h1 * Pow2(k) + l1, h2 * Pow2(k) + l2) == BitAnd(h1, h2) * Pow2(k) + BitAnd(l1, l2)
  {
    var a, b := h1 * Pow2(k) + l1, h2 * Pow2(k) + l2;
    DivModUnique(a, Pow2(k), h1, l1);
    DivModUnique(b, Pow2(k), h2, l2);
    ShrIsDivision(a, k);
    ShrIsDivision(b, k);
    BitAndSplit(a, b, k);
  }

  lemma {:induction false} BitAndCommutes(a: nat, b: nat)
    ensures BitAnd(a, b) == BitAnd(b, a)
  {
    if a != 0 && b != 0 {
      BitAndCommutes(a / 2, b / 2);
    }
  }

  /** The `w`-bit number whose low `k` bits are clear and whose other bits are set. */
  function HighOnes(w: nat, k: nat): nat
    requires k <= w
  {
    (Pow2(w - k) - 1) * Pow2(k)
  }

  lemma HighOnesShape(w: nat, k: nat)
    requires k <= w
    ensures Shr(HighOnes(w, k), k) == Pow2(w - k) - 1
    ensures HighOnes(w, k) % Pow2(k) == 0
    ensures HighOnes(w, k) == Pow2(w) - Pow2(k)
  {
    Pow2Add(w - k, k);
    DivModUnique(HighOnes(w, k), Pow2(k), Pow2(w - k) - 1, 0);
    ShrIsDivision(HighOnes(w, k), k);
  }

  /** `x & ~((1 << k) - 1)` clears the low `k` bits of a `w`-bit number. */
  lemma AndHighOnes(x: nat, w: nat, k: nat)
    requires x < Pow2(w) && k <= w
    ensures BitAnd(x, HighOnes(w, k)) == Shr(x, k) * Pow2(k)
  {
    var (s, h, p) := (Shr(x, k), HighOnes(w, k), Pow2(k));
    assert BitAnd(s, Shr(h, k)) == s by {
      HighOnesShape(w, k);
      ShrBelow(x, k, w);
      AndAllOnes(s, w - k);
    }
    assert BitAnd(x % p, h % p) == 0 by {
      HighOnesShape(w, k);
    }
    BitAndSplit(x, h, k);
  }

  lemma AndAllOnes(x: nat, w: nat)
    requires x < Pow2(w)
    ensures BitAnd(x, Pow2(w) - 1) == x
  {
    BitAndCommutes(x, Pow2(w) - 1);
    AndLowOnes(w, x);
    DivModUnique(x, Pow2(w), 0, x);
  }

  /** `x & (1 << k)` is nonzero exactly when bit `k` is set. */
  lemma {:induction false} AndSingleBit(x: nat, k: nat)
    ensures BitAnd(x, Pow2(k)) == (if Bit(x, k) then Pow2(k) else 0)
  {
    BitAndHalves(x, Pow2(k));
    if k == 0 {
      assert BitAnd(x / 2, 0) == 0;
    } else {
      AndSingleBit(x / 2, k - 1);
    }
  }

  /** The low bits of a number do not depend on what is added above them. */
  lemma {:induction false} HighPartIgnored(high: nat, low: nat, j: nat, k: nat)
    requires k < j
    ensures Bit(high * Pow2(j) + low, k) == Bit(low, k)
  {
    var p := Pow2(j - 1);
    var n := high * Pow2(j) + low;
    Doubling(high, p);
    assert n == 2 * (high * p) + low;
    if k > 0 {
      assert n / 2 == high * p + low / 2;
      HighPartIgnored(high, low / 2, j - 1, k - 1);
    }
  }
}
