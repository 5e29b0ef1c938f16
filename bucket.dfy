/**
 * `Bucket(sublog_bits, value)`: a hash-map key whose equality and hash are
 * those of the sublog bucket index, so that all raw values sharing a bucket
 * are the same key. Field 0 is the precision and field 1 the value.
 */
module Buckets {
  import opened Powers
  import opened SublogIndex

  datatype Bucket = Bucket(sublogBits: U64, value: U64)
  {
    /** `1 << sublog_bits` is defined only below the word width. */
    predicate Valid()
    {
      sublogBits < 64
    }

    /** What `Hash::hash` feeds to the hasher: the bucket index. */
    function Key(): (r: nat)
      requires Valid()
    {
      Index(sublogBits, value)
    }

    /** `PartialEq::eq`: equal bucket indices. */
    predicate Eq(other: Bucket)
      requires Valid() && other.Valid()
    {
      Key() == other.Key()
    }
  }

  lemma EqReflexive(x: Bucket)
    requires x.Valid()
    ensures x.Eq(x)
  {
  }

  lemma EqSymmetric(x: Bucket, y: Bucket)
    requires x.Valid() && y.Valid()
    ensures x.Eq(y) <==> y.Eq(x)
  {
  }

  lemma EqTransitive(x: Bucket, y: Bucket, z: Bucket)
    requires x.Valid() && y.Valid() && z.Valid()
    requires x.Eq(y) && y.Eq(z)
    ensures x.Eq(z)
  {
  }

  /**
   * At one precision, Bucket(b, v) equals Bucket(b, w) exactly when w lies in
   * v's run of BucketWidth(b, v) consecutive values.
   */
  lemma EqIsSameRun(b: U64, v: U64, w: U64)
    requires b < 64
    ensures Bucket(b, v).Eq(Bucket(b, w)) <==>
      BucketLow(b, v) <= w < BucketLow(b, v) + BucketWidth(b, v)
  {
    SameBucketIsRange(b, v, w);
  }

  /** Bucket(8, 512) and Bucket(8, 513) are one key; Bucket(8, 514) is another. */
  lemma EqAtEightBits()
    ensures Bucket(8, 512).Eq(Bucket(8, 513))
    ensures !Bucket(8, 512).Eq(Bucket(8, 514))
  {
    CollisionAtEightBits();
  }

  /**
   * A map keyed by buckets: after `insert(Bucket(8, 512), 1)`, the key
   * Bucket(8, 513) is found, and writing back its count plus one leaves
   * Bucket(8, 512) mapped to 2.
   */
  lemma MapOverwriteThroughEqualKey()
    ensures var b1, b2 := Bucket(8, 512), Bucket(8, 513);
      var m := map[b1.Key() := 1];
      && b2.Key() in m
      && m[b2.Key() := m[b2.Key()] + 1][b1.Key()] == 2
  {
    CollisionAtEightBits();
  }
}
