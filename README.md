# Sublog histogram of reuse times

This project models the sublog histogram of the Decomposition crate
(`src/histogram.rs`). The histogram counts how often each reuse time
(a 64-bit unsigned integer) occurs. It does so with a fixed number of
counters, one per *sublog bucket*:

- Below `2^b` (`b` = `sublog_bits`, the precision) every value is its own
  bucket.
- A larger value keeps its most significant bit and the `b` bits just below
  it. The `shift = msb - b` low bits are dropped.
- The bucket index is the kept `b` bits plus `(shift + 1) << b`.

Above `2^(b+1)`, each binary order of magnitude is split into `2^b` buckets
of equal width. The width doubles from one order to the next. A histogram at
precision `b` holds `(65 - b) * 2^b` counters, which is 14592 at `b = 8`.

The project has four modules:

- `Powers` (`powers.dfy`):
  - the 64-bit word type `U64` and powers of two;
  - `>>`, `<<` and the low-bit mask, defined bit by bit and proved equal to
    division, multiplication and remainder by `2^n`;
  - the division facts the proofs use.
- `SublogIndex` (`sublog_index.dfy`):
  - `leading_zeros` and the most significant bit;
  - the mapper `convert_value_to_index` (`Index`) and the length formula
    `sublog_to_histogram_size` (`HistogramSize`);
  - the shape of a bucket: its first value `BucketLow` and its width
    `BucketWidth`;
  - the laws the mapper obeys.
- `Histograms` (`histogram.dfy`):
  - `Histogram<u64>` as a class. It has a fixed precision and a counter
    array that its methods update in place.
  - the unit-test scenarios of the source, written as methods whose
    postconditions are the tests' assertions.
- `Buckets` (`bucket.dfy`): the test-module `Bucket` key. Its equality and
  hash are those of the bucket index.

Two points where the code differs from what one might expect:

- **Zero shift.** Outside the linear region the shift can be 0: for values
  in `[2^b, 2^(b+1))` it is 0 (src/histogram.rs:82-83), and those values map
  to themselves. `IndexIdentity` proves the mapper is the identity on the
  whole of `[0, 2^(b+1))`.
- **Bucket field order.** The comment on `Bucket` says its fields are
  (value, sublog bits). The code reads field 0 as the sublog bits and
  field 1 as the value, and the model follows the code. `Bucket(8, 512)`
  is precision 8, value 512.

Integer widths:

- `u64` is the subset type `U64` of `int`.
- No shift in the mapper overflows for `b < 64`, so the word operations are
  exact there.
- `usize` is taken to be 64 bits wide.
- An overflow panic (in debug builds; release builds wrap) is a precondition:
  - `1 << b` needs `b < 64` (`Index`);
  - the length product fits a `u64` only for `b <= 62` (`HistogramSize`,
    `NewSingle`);
  - `+= 1` on a counter already at `u64::MAX` overflows (`Add`).

## Model

| member | source | states |
|---|---|---|
| SublogIndex.LeadingZeros | src/histogram.rs:82 | `leading_zeros` is 64 exactly for 0. Otherwise `v` lies in `[2^(63-lz), 2^(64-lz))`. |
| SublogIndex.Msb | src/histogram.rs:82 | `63 - leading_zeros(v)` is at most 63. It is the exponent with `2^msb <= v < 2^(msb+1)`. |
| SublogIndex.MsbAtLeast | src/histogram.rs:78-83 | Outside the linear region `msb >= b`, so `msb - sublog_bits` cannot underflow. |
| Powers.ShrIsDiv | src/histogram.rs:84 | `v >> n` equals `v / 2^n`. |
| Powers.LowBitsIsMod | src/histogram.rs:85 | `x & ((1 << n) - 1)` equals `x % 2^n`. |
| Powers.ShlIsMul | src/histogram.rs:87 | `x << n` equals `x * 2^n`. |
| SublogIndex.HistogramSize | src/histogram.rs:31-33 | For `b <= 62` the length `(65 - b) * 2^b` is positive and fits a `u64`. |
| SublogIndex.SizeAtEightBits | src/histogram.rs:31-33 | At eight sublog bits the length is 14592. |
| SublogIndex.IndexClosedForm | src/histogram.rs:75-88 | Outside the linear region, `v >> shift` lies in `[2^b, 2^(b+1))`. The index is that quotient plus `shift * 2^b`. |
| SublogIndex.IndexSplit | src/histogram.rs:83-87 | Outside the linear region, index / `2^b` is `shift + 1` and index % `2^b` is the kept mantissa. So the shift and the mantissa are recoverable from the index. |
| SublogIndex.IndexIdentity | src/histogram.rs:78-88 | Every value below `2^(b+1)` is its own index. |
| SublogIndex.IndexBound | src/histogram.rs:31-33 | For every `u64` value, the index is below `sublog_to_histogram_size(b)`. |
| SublogIndex.IndexOnto | src/histogram.rs:31-33 | Some `u64` value reaches every index below `sublog_to_histogram_size(b)`, so no counter is unused. |
| SublogIndex.IndexMonotone | src/histogram.rs:75-88 | The mapper is monotone: `v <= w` implies `index(v) <= index(w)`. |
| SublogIndex.BucketLowByDivision | src/histogram.rs:83-84 | The first value of a bucket is `v` with its `shift` low bits cleared, i.e. `(v / 2^shift) * 2^shift`. |
| SublogIndex.BucketWithinOctave | src/histogram.rs:82-87 | A bucket is a run of `2^shift` consecutive values that contains `v`. For `v > 0` the run stays inside `v`'s binary order `[2^msb, 2^(msb+1))`. |
| SublogIndex.BucketShiftOfMsb | src/histogram.rs:78-83 | A bucket's shift is `max(0, msb - b)`. |
| SublogIndex.SameBucketIsRange | src/histogram.rs:75-88 | Two values share an index if and only if the second lies in the first's run `[BucketLow, BucketLow + 2^shift)`. |
| SublogIndex.BucketSize | src/histogram.rs:75-88 | The number of `u64` values with the same index as `v` is `2^max(0, msb(v) - b)`, and 1 for `v = 0`. |
| SublogIndex.BucketSizeSublogOne | src/histogram.rs:156-169 | At one sublog bit, the tally of the values 1..7 in `i`'s bucket is `2^max(0, msb(i) - 1)`. |
| SublogIndex.CollisionAtEightBits | src/histogram.rs:128-133 | At eight sublog bits, 512 and 513 both map to bucket 512 and 514 maps to bucket 513. |
| Histograms.Histogram.NewSingle | src/histogram.rs:20-26 | The new histogram keeps `sublog_bits`. It has `sublog_to_histogram_size(b)` counters, all zero. Every `u64` value has a counter. |
| Histograms.Histogram.Add | src/histogram.rs:35-38 | The counter of the value's bucket goes up by one. The counters are the old ones with that single entry updated, so every value in another bucket reads as before. |
| Histograms.Histogram.Insert | src/histogram.rs:43-46 | The counter of the value's bucket becomes `frequency`. Every value in the bucket's run then reads `frequency`. Every counter of another bucket is unchanged. |
| Histograms.Histogram.GetFrequency | src/histogram.rs:51-54 | Returns the counter of the value's bucket. |
| Histograms.Histogram.GetHistogramVec | src/histogram.rs:59-61 | Returns a newly allocated vector holding the current counters. |
| Histograms.Histogram.GetSublogBits | src/histogram.rs:66-68 | Returns the precision the histogram was built with. |
| Histograms.InsertionCollision | src/histogram.rs:127-133 | After `insert(512, 2)` at eight sublog bits, `get_frequency(513)` is 2. |
| Histograms.AdditionFromEmpty | src/histogram.rs:135-141 | After one `add(512)` on a fresh histogram, `get_frequency(512)` is 1. |
| Histograms.CopyIsIndependent | src/histogram.rs:59-61 | A vector taken before an `add` still reads 0 at that bucket, while the histogram reads 1. So the vector is a copy, not a view. |
| Histograms.LengthAtEightBits | src/reader.rs:49-55 | A histogram built at eight sublog bits returns a vector of 14592 counters and reports precision 8. |
| SublogIndex.TallyStep | src/histogram.rs:148-153 | Counting the value `n` adds one to its own bucket's tally of 1..n and leaves every other bucket's tally unchanged. |
| Histograms.CountBucketMembers | src/histogram.rs:143-170 | The test runs get-then-insert-plus-one over 1..7 and then reads the vector. For each `i` in 1..7 the vector holds `2^max(0, msb(i) - 1)` at `i`'s index. The loop invariant is that each counter equals its bucket's tally. |
| Buckets.EqReflexive | src/histogram.rs:189-197 | Bucket equality is reflexive, as `impl Eq` requires. |
| Buckets.EqSymmetric | src/histogram.rs:189-197 | Bucket equality is symmetric. |
| Buckets.EqTransitive | src/histogram.rs:189-197 | Bucket equality is transitive. |
| Buckets.EqIsSameRun | src/histogram.rs:182-195 | At one precision, `Bucket(b, v) == Bucket(b, w)` holds if and only if `w` lies in `v`'s run of values. |
| Buckets.EqAtEightBits | src/histogram.rs:108-125 | `Bucket(8, 512) == Bucket(8, 513)`, and `Bucket(8, 512) != Bucket(8, 514)`. |
| Buckets.MapOverwriteThroughEqualKey | src/histogram.rs:108-125 | In a map keyed by bucket, the entry for `Bucket(8, 512)` is found through `Bucket(8, 513)`. Writing back its count plus one makes `Bucket(8, 512)` read 2. |

## Left out

- `src/reader.rs`: reading a histogram from a file is file I/O. Only its length test (lines 49-55) is modelled, as `LengthAtEightBits`, on a histogram built directly at precision 8.
- `src/distribution.rs`: normalising counts to `f32` probabilities. Floating point is not modelled.
- `src/lib.rs`, `src/cycle.rs`: the decomposer that turns the `f32` distribution into cycles. It uses floating point and calls `read_histogram_from_file`, which `Histogram` does not define. It is not part of this model.
- The generic `Histogram<T>` struct: only the `Histogram<u64>` implementation has operations. The model fixes the counter type to `u64`.
- `Bucket::clone` (lines 199-205): it copies both fields, which on a value datatype is the value itself.
- `Bucket`'s `Hash` is modelled as the key it feeds the hasher (`Key`). The hasher itself is not modelled, so the map in `MapOverwriteThroughEqualKey` is keyed by that index.
- Histograms.Histogram.Add: `+= 1` on a counter at `u64::MAX` panics in debug builds and wraps to 0 in release builds. The model requires the counter to be below `u64::MAX` and models neither behaviour.
- SublogIndex.HistogramSize: at `b = 63` the product `2 * 2^63` overflows, and for `b >= 64` `1 << b` overflows. Debug builds panic; release builds wrap the product (to 0 at `b = 63`) and mask the shift amount to its low six bits. The model requires `b <= 62` and models neither behaviour.
- SublogIndex.Index: `1 << b` for `b >= 64` panics in debug builds and masks the shift amount to its low six bits in release builds. The model requires `b < 64` and models neither behaviour.
- The `as usize` casts assume a 64-bit `usize`. A narrower target, where the cast would truncate, is not modelled.
