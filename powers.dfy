/**
 * Powers of two, the shift and mask operations of unsigned words, and the
 * integer-division facts that the sublog index arithmetic rests on. The
 * shifts and the mask are defined bit by bit, as repeated halving and
 * doubling; ShrIsDiv, ShlIsMul and LowBitsIsMod prove them equal to
 * `x / 2^n`, `x * 2^n` and `x % 2^n`.
 */
module Powers {

  /** 2^64, the number of distinct 64-bit unsigned values. */
  const WordLimit: int := 0x1_0000_0000_0000_0000

  /** A 64-bit unsigned integer (Rust's `u64`). */
  type U64 = x: int | 0 <= x < WordLimit

  /** The largest `u64`. */
  const U64Max: int := WordLimit - 1

  function Pow2(n: nat): (r: nat)
    ensures r >= 1
  {
    if n == 0 then 1 else 2 * Pow2(n - 1)
  }

  lemma {:induction false} Pow2Add(m: nat, n: nat)
    ensures Pow2(m + n) == Pow2(m) * Pow2(n)
  {
    if n > 0 {
      Pow2Add(m, n - 1);
      assert Pow2(m + n) == 2 * Pow2(m + n - 1);
    }
  }

  lemma {:induction false} Pow2Strict(m: nat, n: nat)
    requires m < n
    ensures Pow2(m) < Pow2(n)
  {
    if m + 1 < n {
      Pow2Strict(m, n - 1);
    }
  }

  /** Pow2 is strictly increasing, so it preserves and reflects order. */
  lemma Pow2Order(m: nat, n: nat)
    ensures m < n <==> Pow2(m) < Pow2(n)
    ensures m <= n <==> Pow2(m) <= Pow2(n)
  {
    if m < n {
      Pow2Strict(m, n);
    } else if n < m {
      Pow2Strict(n, m);
    }
  }

  /** The exponent of the power of two bracketing a positive number is unique. */
  lemma Pow2Bracket(v: int, j: nat, k: nat)
    requires Pow2(j) <= v < Pow2(j + 1)
    requires Pow2(k) <= v < Pow2(k + 1)
    ensures j == k
  {
    Pow2Order(j, k + 1);
    Pow2Order(k, j + 1);
  }

  lemma Pow2Of64()
    ensures Pow2(64) == WordLimit
  {
    Pow2Squared(1, 2);
    Pow2Squared(2, 4);
    Pow2Squared(4, 16);
    Pow2Squared(8, 256);
    Pow2Squared(16, 0x1_0000);
    Pow2Squared(32, 0x1_0000_0000);
  }

  lemma Pow2Squared(n: nat, p: nat)
    requires Pow2(n) == p
    ensures Pow2(n + n) == p * p
  {
    Pow2Add(n, n);
  }

  /** For k >= 2, k + 1 < 2^k. */
  lemma {:induction false} SuccBelowPow2(k: nat)
    requires k >= 2
    ensures k + 1 < Pow2(k)
  {
    if k > 2 {
      SuccBelowPow2(k - 1);
    }
  }

  /** Multiplying by a positive d preserves and reflects order. */
  lemma MulOrder(a: int, b: int, d: int)
    requires d > 0
    ensures a < b <==> a * d < b * d
    ensures a <= b <==> a * d <= b * d
  {
    if a < b {
      MulGap(b - a, d);
      assert b * d == a * d + (b - a) * d;
    } else {
      MulGap(a - b, d);
      assert a * d == b * d + (a - b) * d;
    }
  }

  lemma MulGap(k: nat, d: int)
    requires d > 0
    ensures k * d >= 0
    ensures k > 0 ==> k * d >= d
  {
  }

  /** Euclidean division is determined by its quotient and remainder. */
  lemma DivModUnique(n: int, d: int, q: int, r: int)
    requires d > 0 && 0 <= r < d
    requires n == q * d + r
    ensures n / d == q && n % d == r
  {
    var q', r' := n / d, n % d;
    assert n == q' * d + r';
    MulOrder(q, q' + 1, d);
    MulOrder(q', q + 1, d);
    assert (q + 1) * d == q * d + d;
    assert (q' + 1) * d == q' * d + d;
  }

  /** The quotient of v by d is q exactly when v lies in [q * d, q * d + d). */
  lemma DivInterval(v: int, d: int, q: int)
    requires d > 0
    ensures v / d == q <==> q * d <= v < q * d + d
  {
    if q * d <= v < q * d + d {
      DivModUnique(v, d, q, v - q * d);
    }
    assert v == (v / d) * d + v % d;
  }

  /** Bounds on a quotient from bounds on the dividend. */
  lemma DivBounds(v: int, d: int, a: int, c: int)
    requires d > 0 && a * d <= v < c * d
    ensures a <= v / d < c
  {
    var q := v / d;
    DivInterval(v, d, q);
    MulOrder(a, q + 1, d);
    MulOrder(q, c, d);
    assert (q + 1) * d == q * d + d;
  }

  /** Division by a positive d is monotone. */
  lemma DivMonotone(v: int, w: int, d: int)
    requires v <= w && d > 0
    ensures v / d <= w / d
  {
    DivInterval(v, d, v / d);
    DivInterval(w, d, w / d);
    MulOrder(v / d, w / d + 1, d);
    assert (w / d + 1) * d == (w / d) * d + d;
  }

  /**
   * Arithmetic of a band: a number q in [p, 2p) offset by s * p. Such a sum
   * splits back into s + 1 and q - p by division and remainder by p.
   */
  lemma BandSplit(i: int, p: int, s: int, q: int)
    requires p > 0 && p <= q < 2 * p
    requires i == q + s * p
    ensures i / p == s + 1 && i % p == q - p
  {
    assert (s + 1) * p == s * p + p;
    DivModUnique(i, p, s + 1, q - p);
  }

  /** A band offset by s * p stays below (s + 2) * p. */
  lemma BandBelow(p: int, s: int, q: int, n: int)
    requires p > 0 && q < 2 * p && s + 2 <= n
    ensures q + s * p < n * p
  {
    assert (s + 2) * p == s * p + 2 * p;
    MulOrder(s + 2, n, p);
  }

  /** Bands with a smaller offset lie wholly below bands with a larger one. */
  lemma BandOrder(p: int, qv: int, sv: int, qw: int, sw: int)
    requires p > 0 && qv < 2 * p && p <= qw && sv < sw
    ensures qv + sv * p < qw + sw * p
  {
    assert (sv + 2) * p == sv * p + 2 * p;
    assert (sw + 1) * p == sw * p + p;
    MulOrder(sv + 2, sw + 1, p);
  }

  /** Scaling [p, 2p) by d: q * d and (q + 1) * d stay within [p * d, 2 * p * d]. */
  lemma BandScaled(p: int, q: int, d: int)
    requires d > 0 && p <= q < 2 * p
    ensures p * d <= q * d
    ensures q * d + d <= (2 * p) * d
  {
    MulOrder(p, q, d);
    MulOrder(q + 1, 2 * p, d);
    assert (q + 1) * d == q * d + d;
  }

  /** A number in [p, n * p) is a band member q in [p, 2p) offset by s * p with s + 1 < n. */
  lemma BandOf(p: int, i: int, n: int) returns (s: nat, q: int)
    requires p > 0 && p <= i < n * p
    ensures s + 1 < n && p <= q < 2 * p && i == q + s * p
  {
    DivBounds(i, p, 1, n);
    var t := i / p;
    s := t - 1;
    q := i % p + p;
    assert i == t * p + i % p;
    assert t * p == s * p + p;
  }

  /** `v >> n` on an unsigned word. */
  function Shr(v: nat, n: nat): (r: nat)
  {
    if n == 0 then v else Shr(v / 2, n - 1)
  }

  /** `x << n` on an unsigned word, for shifts that do not overflow it. */
  function Shl(x: nat, n: nat): (r: nat)
  {
    if n == 0 then x else 2 * Shl(x, n - 1)
  }

  /** `x & ((1 << n) - 1)`: the n low bits of x. */
  function LowBits(x: nat, n: nat): (r: nat)
  {
    if n == 0 then 0 else 2 * LowBits(x / 2, n - 1) + x % 2
  }

  /** Dividing by a then by c is dividing by a * c. */
  lemma DivDiv(v: int, a: int, c: int)
    requires v >= 0 && a > 0 && c > 0
    ensures (v / a) / c == v / (a * c)
  {
    var q1, r1 := v / a, v % a;
    var q2, r2 := q1 / c, q1 % c;
    assert v == q1 * a + r1;
    assert q1 == q2 * c + r2;
    assert (q2 * c + r2) * a == q2 * (a * c) + r2 * a;
    MulOrder(r2, c - 1, a);
    assert (c - 1) * a == c * a - a;
    DivModUnique(v, a * c, q2, r2 * a + r1);
  }

  /** The remainder by 2p is built from the remainder of the half by p and the low bit. */
  lemma ModDouble(x: int, p: int)
    requires x >= 0 && p > 0
    ensures x % (2 * p) == 2 * ((x / 2) % p) + x % 2
  {
    var h, e := x / 2, x % 2;
    var k, r := h / p, h % p;
    assert h == k * p + r;
    assert 2 * (k * p) == k * (2 * p);
    DivModUnique(x, 2 * p, k, 2 * r + e);
  }

  lemma {:induction false} ShrIsDiv(v: nat, n: nat)
    ensures Shr(v, n) == v / Pow2(n)
  {
    if n > 0 {
      ShrIsDiv(v / 2, n - 1);
      DivDiv(v, 2, Pow2(n - 1));
    }
  }

  lemma {:induction false} ShlIsMul(x: nat, n: nat)
    ensures Shl(x, n) == x * Pow2(n)
  {
    if n > 0 {
      ShlIsMul(x, n - 1);
      var p := Pow2(n - 1);
      assert Pow2(n) == 2 * p;
      assert 2 * (x * p) == x * (2 * p);
    }
  }

  lemma {:induction false} LowBitsIsMod(x: nat, n: nat)
    ensures LowBits(x, n) == x % Pow2(n)
  {
    if n > 0 {
      LowBitsIsMod(x / 2, n - 1);
      ModDouble(x, Pow2(n - 1));
    }
  }

  /** A set holding exactly the integers of [lo, lo + n) has n elements. */
  lemma {:induction false} IntervalCard(s: set<int>, lo: int, n: nat)
    requires forall w :: w in s <==> lo <= w < lo + n
    ensures |s| == n
  {
    if n > 0 {
      var smaller := s - {lo + n - 1};
      IntervalCard(smaller, lo, n - 1);
      assert s == smaller + {lo + n - 1};
    } else {
      assert forall w :: w !in s;
      assert s == {};
    }
  }
}
