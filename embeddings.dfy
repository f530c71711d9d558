/**
 * `FaceEmbeddingExtractor`: the stub extractor and the Euclidean comparison
 * of two byte embeddings against the fixed threshold 0.4.
 */
module Embeddings {
  import opened Wrappers

  /** A Java `byte`: a signed 8-bit integer. */
  type JByte = x: int | -128 <= x < 128

  /** The contents of a `byte[]`. A `byte[]` that may be null is an `Option<Bytes>`. */
  type Bytes = seq<JByte>

  /** The only exception the comparison throws: `IllegalArgumentException("Invalid embeddings.")`. */
  datatype Error = InvalidEmbeddings

  /** Length of the array the stub extractor allocates. */
  const EmbeddingLength: nat := 128

  /** The acceptance threshold 0.4, as the exact fraction ThresholdNum / ThresholdDen. */
  const ThresholdNum: nat := 2
  const ThresholdDen: nat := 5

  /**
   * `extractEmbedding`: a placeholder that ignores the face region and returns
   * a fresh, zero-initialised array of 128 bytes (never null).
   */
  function ExtractEmbedding(): (e: Bytes)
    ensures |e| == EmbeddingLength
    ensures forall i :: 0 <= i < |e| ==> e[i] == 0
  {
    seq(EmbeddingLength, _ => 0)
  }

  function Square(x: int): nat
  {
    x * x
  }

  /**
   * The squared Euclidean distance of two equally long byte vectors, summed
   * from the first position to the last as the comparison loop does. Every
   * term is an exact integer, so the double the source accumulates holds this
   * value exactly.
   */
  function SqDist(a: Bytes, b: Bytes): nat
    requires |a| == |b|
    decreases |a|
  {
    if |a| == 0 then 0
    else SqDist(a[..|a| - 1], b[..|b| - 1]) + Square(a[|a| - 1] as int - b[|b| - 1] as int)
  }

  /**
   * `sqrt(d) < num / den` for a non-negative d. Both sides are non-negative,
   * so the comparison is the same as `d < (num / den)^2`, written here without
   * division (see SqrtBelowThreshold).
   */
  predicate BelowThreshold(d: nat, num: nat, den: nat)
    requires den > 0
  {
    d * (den * den) < num * num
  }

  /**
   * `compareEmbeddings` as a value: it throws when either argument is null or
   * their lengths differ, and otherwise accepts when the Euclidean distance is
   * below 0.4.
   */
  function Compare(emb1: Option<Bytes>, emb2: Option<Bytes>): Result<bool, Error>
  {
    if emb1.None? || emb2.None? || |emb1.value| != |emb2.value| then Failure(InvalidEmbeddings)
    else Success(BelowThreshold(SqDist(emb1.value, emb2.value), ThresholdNum, ThresholdDen))
  }

  /**
   * `compareEmbeddings`: validates both arrays, accumulates the squared
   * differences in a loop, and compares the square root with 0.4.
   */
  method CompareEmbeddings(emb1: Option<Bytes>, emb2: Option<Bytes>) returns (r: Result<bool, Error>)
    ensures r == Compare(emb1, emb2)
    ensures r.Failure? <==> emb1.None? || emb2.None? || |emb1.value| != |emb2.value|
    ensures r.Success? ==> (r.value <==> emb1.value == emb2.value)
  {
    if emb1.None? || emb2.None? || |emb1.value| != |emb2.value| {
      return Failure(InvalidEmbeddings);
    }
    var a, b := emb1.value, emb2.value;
    var distance: nat := 0;
    for i := 0 to |a|
      invariant distance == SqDist(a[..i], b[..i])
    {
      var diff := a[i] as int - b[i] as int;
      assert a[..i + 1][..i] == a[..i] && b[..i + 1][..i] == b[..i];
      distance := distance + diff * diff;
    }
    assert a[..|a|] == a && b[..|b|] == b;
    r := Success(BelowThreshold(distance, ThresholdNum, ThresholdDen));
    CompareIsEquality(a, b);
  }

  /** The squared distance is zero exactly when the two vectors are equal. */
  lemma {:induction false} SqDistZeroIff(a: Bytes, b: Bytes)
    requires |a| == |b|
    ensures SqDist(a, b) == 0 <==> a == b
  {
    if |a| > 0 {
      var n := |a| - 1;
      SqDistZeroIff(a[..n], b[..n]);
      assert a == a[..n] + [a[n]] && b == b[..n] + [b[n]];
      assert Square(a[n] as int - b[n] as int) == 0 <==> a[n] == b[n];
    }
  }

  /** The squared distance does not depend on the order of its arguments. */
  lemma {:induction false} SqDistSymmetric(a: Bytes, b: Bytes)
    requires |a| == |b|
    ensures SqDist(a, b) == SqDist(b, a)
  {
    if |a| > 0 {
      var n := |a| - 1;
      SqDistSymmetric(a[..n], b[..n]);
      assert Square(a[n] as int - b[n] as int) == Square(b[n] as int - a[n] as int);
    }
  }

  /**
   * BelowThreshold is the square-root comparison: for s = sqrt(d), that is
   * s >= 0 and s * s == d, `s < num / den` holds exactly when
   * `d * den^2 < num^2`.
   */
  lemma SqrtBelowThreshold(s: real, d: nat, num: nat, den: nat)
    requires den > 0 && s >= 0.0 && s * s == d as real
    ensures s < num as real / den as real <==> BelowThreshold(d, num, den)
  {
    var t := num as real / den as real;
    var D := den as real;
    assert t * D == num as real;
    assert (num * num) as real == t * t * (D * D);
    assert (d * (den * den)) as real == s * s * (D * D);
    if s < t {
      assert s * s <= s * t < t * t;
      assert s * s * (D * D) < t * t * (D * D);
    } else {
      assert s * s >= t * s >= t * t;
      assert s * s * (D * D) >= t * t * (D * D);
    }
  }

  /**
   * On an integer sum of squares, any threshold of at most 1 accepts only
   * the sum 0: the next possible value, 1, already has distance 1.
   */
  lemma IntegerBelowThreshold(d: nat, num: nat, den: nat)
    requires 0 < num <= den
    ensures BelowThreshold(d, num, den) <==> d == 0
  {
    if d > 0 {
      assert d * (den * den) >= den * den;
      assert den * den >= num * den >= num * num;
    }
  }

  /**
   * On two non-null arrays of equal length the comparison returns normally,
   * and it accepts exactly when the arrays are element-wise equal.
   */
  lemma CompareIsEquality(a: Bytes, b: Bytes)
    requires |a| == |b|
    ensures Compare(Some(a), Some(b)) == Success(a == b)
  {
    SqDistZeroIff(a, b);
    IntegerBelowThreshold(SqDist(a, b), ThresholdNum, ThresholdDen);
  }

  /** The comparison throws exactly when an argument is null or the lengths differ. */
  lemma CompareFailsIff(emb1: Option<Bytes>, emb2: Option<Bytes>)
    ensures Compare(emb1, emb2).Failure? <==> emb1.None? || emb2.None? || |emb1.value| != |emb2.value|
    ensures Compare(emb1, emb2).Failure? ==> Compare(emb1, emb2).error == InvalidEmbeddings
  {
  }

  /** Swapping the arguments changes neither the verdict nor whether it throws. */
  lemma CompareSymmetric(emb1: Option<Bytes>, emb2: Option<Bytes>)
    ensures Compare(emb1, emb2) == Compare(emb2, emb1)
  {
    if emb1.Some? && emb2.Some? && |emb1.value| == |emb2.value| {
      SqDistSymmetric(emb1.value, emb2.value);
    }
  }

  /** Every non-null array is accepted as matching itself. */
  lemma CompareReflexive(a: Bytes)
    ensures Compare(Some(a), Some(a)) == Success(true)
  {
    CompareIsEquality(a, a);
  }
}
