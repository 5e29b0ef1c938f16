/**
 * The sublog index mapper (`convert_value_to_index`) and the histogram
 * length formula (`sublog_to_histogram_size`).
 *
 * A value below 2^b (b = sublog_bits) is its own bucket. Any larger value
 * keeps its most significant bit and the b bits just below it; the bucket
 * index is those b bits plus (shift + 1) * 2^b, where shift = msb - b
 * counts the low bits that were dropped. Bucket widths therefore double
 * with every binary order of magnitude above 2^(b+1).
 */
module SublogIndex {
  import opened Powers

  /**
   * The largest precision for which `(65 - b) * (1 << b)` fits in a u64:
   * the product is 3 * 2^62 at b = 62 and 2^64 at b = 63.
   */
  const MaxSublogBits: nat := 62

  /** Number of significant bits of v (0 for v = 0). */
  function BitLength(v: nat): (r: nat)
    ensures v < Pow2(r)
    ensures r > 0 ==> Pow2(r - 1) <= v
    ensures v > 0 ==> r > 0
  {
    if v == 0 then 0 else 1 + BitLength(v / 2)
  }

  /** Rust's `u64::leading_zeros`: the zero bits above the highest set bit of a 64-bit word. */
  function LeadingZeros(v: U64): (r: nat)
    ensures r <= 64
    ensures r == 64 <==> v == 0
    ensures r < 64 ==> Pow2(63 - r) <= v < Pow2(64 - r)
  {
    var n := BitLength(v);
    assert n <= 64 by {
      if n > 0 {
        Pow2Order(64, n - 1);
      }
      Pow2Of64();
    }
    64 - n
  }

  /** Position of the most significant set bit, `63 - leading_zeros(v)` (src/histogram.rs:82). */
  function Msb(v: U64): (r: nat)
    requires v > 0
    ensures r <= 63
    ensures Pow2(r) <= v < Pow2(r + 1)
  {
    63 - LeadingZeros(v)
  }

  /** Outside the linear region the subtraction `msb - sublog_bits` cannot underflow. */
  lemma MsbAtLeast(b: nat, v: U64)
    requires Pow2(b) <= v
    ensures b <= Msb(v)
  {
    Pow2Order(b, Msb(v) + 1);
  }

  /**
   * `convert_value_to_index(sublog_bits, value)`. `1 << b` is Pow2(b); no
   * shift here overflows a u64 for b < 64 (the last one is at most
   * (64 - b) << b), so the word operations are exact.
   */
  function Index(b: nat, v: U64): (r: nat)
    requires b < 64
  {
    if v < Pow2(b) then
      v
    else
      MsbAtLeast(b, v);
      var shift := Msb(v) - b;
      var index := Shr(v, shift);
      var index := LowBits(index, b);
      index + Shl(shift + 1, b)
  }

  /** `sublog_to_histogram_size(sublog_bits)`: the number of buckets. */
  function HistogramSize(b: nat): (n: nat)
    requires b <= MaxSublogBits
    ensures 0 < n < WordLimit
  {
    SuccBelowPow2(64 - b);
    Pow2Add(b, 64 - b);
    Pow2Of64();
    MulOrder(65 - b, Pow2(64 - b), Pow2(b));
    MulGap(65 - b, Pow2(b));
    (65 - b) * Pow2(b)
  }

  /** The number of low bits a value's bucket ignores: 0 in the linear region. */
  function BucketShift(b: nat, v: U64): (r: nat)
    requires b < 64
  {
    if v < Pow2(b) then 0 else MsbAtLeast(b, v); Msb(v) - b
  }

  /** The smallest value that shares v's bucket: v with its BucketShift low bits cleared. */
  function BucketLow(b: nat, v: U64): (r: nat)
    requires b < 64
  {
    Shl(Shr(v, BucketShift(b, v)), BucketShift(b, v))
  }

  lemma BucketLowByDivision(b: nat, v: U64)
    requires b < 64
    ensures var d := Pow2(BucketShift(b, v)); BucketLow(b, v) == (v / d) * d
  {
    var s := BucketShift(b, v);
    ShrIsDiv(v, s);
    ShlIsMul(v / Pow2(s), s);
  }

  /** How many values share v's bucket. */
  function BucketWidth(b: nat, v: U64): (r: nat)
    requires b < 64
  {
    Pow2(BucketShift(b, v))
  }

  /**
   * Outside the linear region, v >> shift keeps the leading one and the b
   * bits below it, so it lies in [2^b, 2^(b+1)), and the index is that
   * quotient plus shift * 2^b.
   */
  lemma IndexClosedForm(b: nat, v: U64)
    requires b < 64 && Pow2(b) <= v
    ensures var s := BucketShift(b, v);
      && Pow2(b) <= v / Pow2(s) < Pow2(b + 1)
      && Index(b, v) == v / Pow2(s) + s * Pow2(b)
  {
    MsbAtLeast(b, v);
    var s := Msb(v) - b;
    assert Index(b, v) == LowBits(Shr(v, s), b) + Shl(s + 1, b);
    ShrIsDiv(v, s);
    ShiftIntoBand(v, b, s);
    DropLeadingOne(v / Pow2(s), b);
    ShlSucc(s, b);
  }

  /** A value of binary order b + s, shifted right by s, has binary order b. */
  lemma ShiftIntoBand(v: nat, b: nat, s: nat)
    requires Pow2(b + s) <= v < Pow2(b + s + 1)
    ensures Pow2(b) <= v / Pow2(s) < Pow2(b + 1)
  {
    Pow2Add(b, s);
    Pow2Add(b + 1, s);
    DivBounds(v, Pow2(s), Pow2(b), Pow2(b + 1));
  }

  /** Masking the b low bits of a number of binary order b removes its leading one. */
  lemma DropLeadingOne(q: nat, b: nat)
    requires Pow2(b) <= q < Pow2(b + 1)
    ensures LowBits(q, b) == q - Pow2(b)
  {
    LowBitsIsMod(q, b);
    DivModUnique(q, Pow2(b), 1, q - Pow2(b));
  }

  /** `(s + 1) << b` is s * 2^b + 2^b. */
  lemma ShlSucc(s: nat, b: nat)
    ensures Shl(s + 1, b) == s * Pow2(b) + Pow2(b)
  {
    ShlIsMul(s + 1, b);
    assert (s + 1) * Pow2(b) == s * Pow2(b) + Pow2(b);
  }

  /**
   * The index of a value outside the linear region splits back into its
   * shift and its quotient: Index / 2^b == shift + 1 and Index % 2^b is the
   * quotient without its leading one.
   */
  lemma IndexSplit(b: nat, v: U64)
    requires b < 64 && Pow2(b) <= v
    ensures var s := BucketShift(b, v);
      && Index(b, v) / Pow2(b) == s + 1
      && Index(b, v) % Pow2(b) == v / Pow2(s) - Pow2(b)
  {
    IndexClosedForm(b, v);
    var s := BucketShift(b, v);
    BandSplit(Index(b, v), Pow2(b), s, v / Pow2(s));
  }

  /**
   * The mapping is the identity on [0, 2^(b+1)): the linear region
   * [0, 2^b) and also the first band, where the shift is zero.
   */
  lemma IndexIdentity(b: nat, v: U64)
    requires b < 64 && v < Pow2(b + 1)
    ensures Index(b, v) == v
  {
    if Pow2(b) <= v {
      Pow2Bracket(v, Msb(v), b);
      assert BucketShift(b, v) == 0;
      IndexClosedForm(b, v);
      assert Pow2(0) == 1;
    }
  }

  /** Every 64-bit value lands inside a histogram of HistogramSize(b) buckets. */
  lemma IndexBound(b: nat, v: U64)
    requires b <= MaxSublogBits
    ensures Index(b, v) < HistogramSize(b)
  {
    var p := Pow2(b);
    assert HistogramSize(b) == (65 - b) * p;
    if v < p {
      MulOrder(1, 65 - b, p);
    } else {
      IndexClosedForm(b, v);
      var s := BucketShift(b, v);
      BandBelow(p, s, v / Pow2(s), 65 - b);
    }
  }

  /**
   * The value q << s, for q in [2^b, 2^(b+1)), is a 64-bit value whose index
   * is q + s * 2^b: the shift reconstructs the dropped bits as zeros.
   */
  lemma BandValue(b: nat, s: nat, q: int) returns (v: U64)
    requires b + s < 64 && Pow2(b) <= q < 2 * Pow2(b)
    ensures Index(b, v) == q + s * Pow2(b)
  {
    var d := Pow2(s);
    ScaledBandOctave(b, s, q);
    v := q * d;
    Pow2Bracket(v, Msb(v), b + s);
    Pow2Order(b, b + s);
    IndexClosedForm(b, v);
    DivModUnique(v, d, q, 0);
  }

  /** q << s, for q in [2^b, 2^(b+1)), lies in the octave [2^(b+s), 2^(b+s+1)) of 64-bit values. */
  lemma ScaledBandOctave(b: nat, s: nat, q: int)
    requires b + s < 64 && Pow2(b) <= q < 2 * Pow2(b)
    ensures Pow2(b + s) <= q * Pow2(s) < Pow2(b + s + 1) <= WordLimit
  {
    Pow2Add(b, s);
    Pow2Add(b + 1, s);
    Pow2Order(b + s + 1, 64);
    Pow2Of64();
    BandScaled(Pow2(b), q, Pow2(s));
  }

  /** Every bucket of the histogram is reached by some 64-bit value, so the length is tight. */
  lemma IndexOnto(b: nat, i: nat) returns (v: U64)
    requires b <= MaxSublogBits && i < HistogramSize(b)
    ensures Index(b, v) == i
  {
    var p := Pow2(b);
    assert HistogramSize(b) == (65 - b) * p;
    if i < p {
      Pow2Order(b, 64);
      Pow2Of64();
      v := i;
    } else {
      var s, q := BandOf(p, i, 65 - b);
      v := BandValue(b, s, q);
    }
  }

  /** Larger values never map to smaller buckets. */
  lemma IndexMonotone(b: nat, v: U64, w: U64)
    requires b < 64 && v <= w
    ensures Index(b, v) <= Index(b, w)
  {
    var p := Pow2(b);
    if p <= w {
      IndexClosedForm(b, w);
      var sw := BucketShift(b, w);
      var qw := w / Pow2(sw);
      MulGap(sw, p);
      if p <= v {
        IndexClosedForm(b, v);
        var sv := BucketShift(b, v);
        var qv := v / Pow2(sv);
        Pow2Order(Msb(w) + 1, Msb(v));
        if sv == sw {
          DivMonotone(v, w, Pow2(sv));
        } else {
          BandOrder(p, qv, sv, qw, sw);
        }
      }
    }
  }

  /**
   * v's bucket is a run of BucketWidth(b, v) consecutive values containing v;
   * for v > 0 it lies within v's binary order of magnitude.
   */
  lemma BucketWithinOctave(b: nat, v: U64)
    requires b < 64
    ensures BucketLow(b, v) <= v < BucketLow(b, v) + BucketWidth(b, v)
    ensures v > 0 ==> Pow2(Msb(v)) <= BucketLow(b, v)
    ensures v > 0 ==> BucketLow(b, v) + BucketWidth(b, v) <= Pow2(Msb(v) + 1)
  {
    var p := Pow2(b);
    var s := BucketShift(b, v);
    var d := Pow2(s);
    var q := v / d;
    BucketLowByDivision(b, v);
    assert BucketLow(b, v) == q * d && BucketWidth(b, v) == d;
    if p <= v {
      IndexClosedForm(b, v);
      OctaveOfBand(b, s, v);
    } else {
      assert d == 1;
    }
  }

  /** Scaling the band [2^b, 2^(b+1)) by 2^s gives the octave [2^(b+s), 2^(b+s+1)). */
  lemma OctaveOfBand(b: nat, s: nat, v: int)
    requires v >= 0
    requires Pow2(b) <= v / Pow2(s) < Pow2(b + 1)
    ensures var d, q := Pow2(s), v / Pow2(s);
      && q * d <= v < q * d + d
      && Pow2(b + s) <= q * d
      && q * d + d <= Pow2(b + s + 1)
  {
    var p, d := Pow2(b), Pow2(s);
    var q := v / d;
    DivInterval(v, d, q);
    Pow2Add(b, s);
    Pow2Add(b + 1, s);
    BandScaled(p, q, d);
  }

  /**
   * Two 64-bit values share a bucket exactly when the second lies in the
   * first's run [BucketLow, BucketLow + BucketWidth).
   */
  lemma SameBucketIsRange(b: nat, v: U64, w: U64)
    requires b < 64
    ensures Index(b, w) == Index(b, v) <==> BucketLow(b, v) <= w < BucketLow(b, v) + BucketWidth(b, v)
  {
    var p := Pow2(b);
    BucketWithinOctave(b, v);
    if v < p {
      BucketLowByDivision(b, v);
      assert BucketLow(b, v) == v && BucketWidth(b, v) == 1;
      if p <= w {
        IndexClosedForm(b, w);
        MulGap(BucketShift(b, w), p);
      }
    } else {
      IndexClosedForm(b, v);
      MulGap(BucketShift(b, v), p);
      Pow2Order(b, Msb(v));
      if p <= w {
        if Index(b, w) == Index(b, v) {
          SameIndexInRun(b, v, w);
        }
        if BucketLow(b, v) <= w < BucketLow(b, v) + BucketWidth(b, v) {
          RunHasSameIndex(b, v, w);
        }
      }
    }
  }

  lemma SameIndexInRun(b: nat, v: U64, w: U64)
    requires b < 64 && Pow2(b) <= v && Pow2(b) <= w
    requires Index(b, w) == Index(b, v)
    ensures BucketLow(b, v) <= w < BucketLow(b, v) + BucketWidth(b, v)
  {
    BucketLowByDivision(b, v);
    IndexSplit(b, v);
    IndexSplit(b, w);
    var s := BucketShift(b, v);
    var d, q := Pow2(s), v / Pow2(s);
    assert BucketShift(b, w) == s;
    assert w / d == q;
    DivInterval(w, d, q);
  }

  lemma RunHasSameIndex(b: nat, v: U64, w: U64)
    requires b < 64 && Pow2(b) <= v
    requires BucketLow(b, v) <= w < BucketLow(b, v) + BucketWidth(b, v)
    ensures Index(b, w) == Index(b, v)
  {
    RunSharesShift(b, v, w);
    BucketLowByDivision(b, v);
    var s := BucketShift(b, v);
    var d, q := Pow2(s), v / Pow2(s);
    DivInterval(w, d, q);
    IndexClosedForm(b, v);
    IndexClosedForm(b, w);
  }

  /** Values in the run of a value outside the linear region have its most significant bit and shift. */
  lemma RunSharesShift(b: nat, v: U64, w: U64)
    requires b < 64 && Pow2(b) <= v
    requires BucketLow(b, v) <= w < BucketLow(b, v) + BucketWidth(b, v)
    ensures Pow2(b) <= w && BucketShift(b, w) == BucketShift(b, v)
  {
    BucketWithinOctave(b, v);
    MsbAtLeast(b, v);
    Pow2Order(b, Msb(v));
    assert Pow2(Msb(v)) <= w < Pow2(Msb(v) + 1);
    Pow2Bracket(w, Msb(w), Msb(v));
  }

  /** BucketShift is the exponent max(0, msb - b). */
  lemma BucketShiftOfMsb(b: nat, v: U64)
    requires b < 64 && v > 0
    ensures BucketShift(b, v) == if Msb(v) <= b then 0 else Msb(v) - b
  {
    Pow2Order(b, Msb(v));
    Pow2Order(b, Msb(v) + 1);
  }

  /** The number of raw values a bucket gathers is 2^max(0, msb - b) (1 for v = 0). */
  lemma BucketSize(b: nat, v: U64)
    requires b < 64
    ensures v == 0 ==> |set w: int | 0 <= w < WordLimit && Index(b, w) == Index(b, v)| == 1
    ensures v > 0 ==>
      |set w: int | 0 <= w < WordLimit && Index(b, w) == Index(b, v)| ==
      Pow2(if Msb(v) <= b then 0 else Msb(v) - b)
  {
    var bucket := set w: int | 0 <= w < WordLimit && Index(b, w) == Index(b, v);
    var low, width := BucketLow(b, v), BucketWidth(b, v);
    BucketWithinOctave(b, v);
    if v > 0 {
      Pow2Order(Msb(v) + 1, 64);
      BucketShiftOfMsb(b, v);
    }
    Pow2Of64();
    forall w: int
      ensures w in bucket <==> low <= w < low + width
    {
      if 0 <= w < WordLimit {
        SameBucketIsRange(b, v, w);
      }
    }
    IntervalCard(bucket, low, width);
  }

  /** How many of the values 1 .. n - 1 fall in bucket j. */
  ghost function Tally(b: nat, n: nat, j: int): (r: nat)
    requires b < 64 && n <= WordLimit
  {
    |set w: int | 1 <= w < n && Index(b, w) == j|
  }

  /** Counting one more value adds one to its own bucket's tally and nothing to the others. */
  lemma TallyStep(b: nat, n: nat, j: int)
    requires b < 64 && 1 <= n < WordLimit
    ensures Tally(b, n + 1, j) == Tally(b, n, j) + (if Index(b, n) == j then 1 else 0)
  {
    if Index(b, n) == j {
      TallyGrows(b, n, j);
    } else {
      TallyStays(b, n, j);
    }
  }

  lemma TallyGrows(b: nat, n: nat, j: int)
    requires b < 64 && 1 <= n < WordLimit && Index(b, n) == j
    ensures Tally(b, n + 1, j) == Tally(b, n, j) + 1
  {
    var earlier := set w: int | 1 <= w < n && Index(b, w) == j;
    assert (set w: int | 1 <= w < n + 1 && Index(b, w) == j) == earlier + {n};
  }

  lemma TallyStays(b: nat, n: nat, j: int)
    requires b < 64 && 1 <= n < WordLimit && Index(b, n) != j
    ensures Tally(b, n + 1, j) == Tally(b, n, j)
  {
    assert (set w: int | 1 <= w < n + 1 && Index(b, w) == j) == (set w: int | 1 <= w < n && Index(b, w) == j);
  }

  /**
   * With one sublog bit, counting the values 1..7 by bucket gives each value's
   * bucket 2^max(0, msb - 1) members: 1, 2 and 3 alone, then {4, 5} and {6, 7}.
   */
  lemma BucketSizeSublogOne(i: U64)
    requires 1 <= i <= 7
    ensures Tally(1, 8, Index(1, i)) == Pow2(if Msb(i) <= 1 then 0 else Msb(i) - 1)
  {
    var bucket := set w: int | 1 <= w < 8 && Index(1, w) == Index(1, i);
    var low, width := BucketLow(1, i), BucketWidth(1, i);
    BucketWithinOctave(1, i);
    BucketShiftOfMsb(1, i);
    assert Pow2(3) == 8;
    Pow2Order(Msb(i), 3);
    Pow2Order(Msb(i) + 1, 3);
    Pow2Order(0, Msb(i));
    forall w: int
      ensures w in bucket <==> low <= w < low + width
    {
      if 1 <= w < 8 {
        SameBucketIsRange(1, i, w);
      }
    }
    IntervalCard(bucket, low, width);
  }

  /** With eight sublog bits, 512 and 513 share bucket 512 while 514 opens bucket 513. */
  lemma CollisionAtEightBits()
    ensures Index(8, 512) == Index(8, 513) == 512
    ensures Index(8, 514) == 513
  {
    assert Pow2(8) == 256 && Pow2(9) == 512 && Pow2(10) == 1024;
    Pow2Bracket(512, Msb(512), 9);
    Pow2Bracket(513, Msb(513), 9);
    Pow2Bracket(514, Msb(514), 9);
  }

  /** With eight sublog bits the histogram has 14592 buckets. */
  lemma SizeAtEightBits()
    ensures HistogramSize(8) == 14592
  {
    assert Pow2(8) == 256;
  }
}
