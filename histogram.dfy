/**
 * `Histogram<u64>`: a fixed-length vector of 64-bit frequency counters,
 * one per sublog bucket. Every operation addresses the vector through the
 * index mapper, so values that share a bucket share a counter.
 */
module Histograms {
  import opened Powers
  import opened SublogIndex

  class Histogram {
    /** The precision `sublog_bits`, fixed for the histogram's lifetime. */
    const sublogBits: nat
    /** The counters `values`; the vector is allocated once and never resized. */
    const values: array<U64>

    /** The vector has the formula's length, so every 64-bit value has a counter. */
    ghost predicate Valid()
    {
      && sublogBits <= MaxSublogBits
      && values.Length == HistogramSize(sublogBits)
      && forall v: U64 :: Index(sublogBits, v) < values.Length
    }

    /** The counters as a sequence, bucket 0 first. */
    ghost function Counts(): seq<U64>
      reads values
    {
      values[..]
    }

    /** The counter of the bucket that `reuseTime` falls in. */
    ghost function Frequency(reuseTime: U64): U64
      reads values
      requires Valid()
    {
      values[Index(sublogBits, reuseTime)]
    }

    /** `new_single(sublog_bits)`: all HistogramSize(b) counters start at zero. */
    constructor NewSingle(b: nat)
      requires b <= MaxSublogBits
      ensures Valid() && fresh(values)
      ensures sublogBits == b
      ensures |Counts()| == HistogramSize(b)
      ensures forall i :: 0 <= i < |Counts()| ==> Counts()[i] == 0
    {
      sublogBits := b;
      values := new U64[HistogramSize(b)](_ => 0);
      forall v: U64
        ensures Index(b, v) < HistogramSize(b)
      {
        IndexBound(b, v);
      }
    }

    /**
     * `add(reuse_time)`: the counter of reuse_time's bucket goes up by one
     * and every other counter is untouched.
     */
    method Add(reuseTime: U64)
      requires Valid()
      requires Frequency(reuseTime) < U64Max
      modifies values
      ensures Counts() ==
        old(Counts())[Index(sublogBits, reuseTime) := old(Frequency(reuseTime)) + 1]
      ensures Frequency(reuseTime) == old(Frequency(reuseTime)) + 1
      ensures forall y: U64 :: Index(sublogBits, y) != Index(sublogBits, reuseTime) ==>
        Frequency(y) == old(Frequency(y))
    {
      var i := Index(sublogBits, reuseTime);
      values[i] := values[i] + 1;
    }

    /**
     * `insert(reuse_time, frequency)`: the counter of reuse_time's bucket is
     * overwritten, so every value in that bucket now reads `frequency`, and
     * every other counter is untouched.
     */
    method Insert(reuseTime: U64, frequency: U64)
      requires Valid()
      modifies values
      ensures Counts() == old(Counts())[Index(sublogBits, reuseTime) := frequency]
      ensures forall y: U64 ::
        BucketLow(sublogBits, reuseTime) <= y < BucketLow(sublogBits, reuseTime) + BucketWidth(sublogBits, reuseTime) ==>
        Frequency(y) == frequency
      ensures forall y: U64 :: Index(sublogBits, y) != Index(sublogBits, reuseTime) ==>
        Frequency(y) == old(Frequency(y))
    {
      var i := Index(sublogBits, reuseTime);
      values[i] := frequency;
      forall y: U64 |
        BucketLow(sublogBits, reuseTime) <= y < BucketLow(sublogBits, reuseTime) + BucketWidth(sublogBits, reuseTime)
        ensures Frequency(y) == frequency
      {
        SameBucketIsRange(sublogBits, reuseTime, y);
      }
    }

    /** `get_frequency(reuse_time)`: the counter of reuse_time's bucket. */
    method GetFrequency(reuseTime: U64) returns (f: U64)
      requires Valid()
      ensures f == Frequency(reuseTime)
    {
      f := values[Index(sublogBits, reuseTime)];
    }

    /** `get_histgram_vec()`: a new vector holding the current counters. */
    method GetHistogramVec() returns (copy: array<U64>)
      requires Valid()
      ensures fresh(copy)
      ensures copy[..] == Counts()
    {
      copy := new U64[values.Length](i requires 0 <= i < values.Length reads values => values[i]);
    }

    /** `get_sublog_bits()`: the precision the histogram was built with. */
    method GetSublogBits() returns (b: nat)
      ensures b == sublogBits
    {
      b := sublogBits;
    }
  }

  /** With eight sublog bits, `insert(512, 2)` is read back through 513, which shares its bucket. */
  method InsertionCollision() returns (f: U64)
    ensures f == 2
  {
    var h := new Histogram.NewSingle(8);
    h.Insert(512, 2);
    CollisionAtEightBits();
    f := h.GetFrequency(513);
  }

  /** On a fresh histogram, one `add(512)` makes the frequency of 512 one. */
  method AdditionFromEmpty() returns (f: U64)
    ensures f == 1
  {
    var h := new Histogram.NewSingle(8);
    h.Add(512);
    f := h.GetFrequency(512);
  }

  /**
   * A vector taken by `get_histgram_vec` is a copy: a later `add` shows in
   * the histogram but not in the copy.
   */
  method CopyIsIndependent() returns (copied: U64, live: U64)
    ensures copied == 0 && live == 1
  {
    var h := new Histogram.NewSingle(8);
    var copy := h.GetHistogramVec();
    h.Add(512);
    SizeAtEightBits();
    copied := copy[512];
    live := h.GetFrequency(512);
  }

  /** A histogram built with eight sublog bits holds 14592 counters and reports its precision. */
  method LengthAtEightBits() returns (n: nat, b: nat)
    ensures n == 14592 && b == 8
  {
    var h := new Histogram.NewSingle(8);
    var copy := h.GetHistogramVec();
    SizeAtEightBits();
    n := copy.Length;
    b := h.GetSublogBits();
  }

  /**
   * With one sublog bit, reading and re-inserting the counter of each value
   * 1..7 plus one counts, in each value's bucket, the values of 1..7 that
   * share it: 2^max(0, msb - 1) of them.
   */
  method CountBucketMembers() returns (counts: seq<U64>)
    ensures forall i: U64 :: 1 <= i <= 7 ==>
      Index(1, i) < |counts| && counts[Index(1, i)] == Pow2(if Msb(i) <= 1 then 0 else Msb(i) - 1)
  {
    var h := new Histogram.NewSingle(1);
    for i := 1 to 8
      invariant h.Valid()
      invariant forall j :: 0 <= j < h.values.Length ==> h.values[j] < i
      invariant forall j :: 0 <= j < h.values.Length ==> h.values[j] == Tally(1, i, j)
    {
      var temp := h.GetFrequency(i);
      ghost var before := h.Counts();
      h.Insert(i, temp + 1);
      forall j | 0 <= j < h.values.Length
        ensures h.values[j] == Tally(1, i + 1, j)
      {
        TallyStep(1, i, j);
        assert h.values[j] == if j == Index(1, i) then before[j] + 1 else before[j];
      }
    }
    var copy := h.GetHistogramVec();
    counts := copy[..];
    forall i: U64 | 1 <= i <= 7
      ensures counts[Index(1, i)] == Pow2(if Msb(i) <= 1 then 0 else Msb(i) - 1)
    {
      BucketSizeSublogOne(i);
    }
  }
}
