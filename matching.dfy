/**
 * `RegisteredFace` and `findMatchingFace`: a linear, first-match scan of the
 * gallery snapshot.
 */
module Matching {
  import opened Wrappers
  import opened Embeddings

  /** `RegisteredFace`: an immutable pair of a name and a stored embedding. */
  datatype RegisteredFace = RegisteredFace(name: string, features: Option<Bytes>)

  /**
   * What `findMatchingFace` returns or throws: the name of the first face, in
   * list order, whose features compare as matching; null when none does; the
   * comparison's exception when it throws before any match.
   */
  function FirstMatch(embedding: Option<Bytes>, faces: seq<RegisteredFace>): Result<Option<string>, Error>
    decreases |faces|
  {
    if |faces| == 0 then Success(None)
    else match Compare(embedding, faces[0].features)
      case Failure(e) => Failure(e)
      case Success(true) => Success(Some(faces[0].name))
      case Success(false) => FirstMatch(embedding, faces[1..])
  }

  /** Every face before position k is compared, returns normally, and does not match. */
  ghost predicate NoMatchBefore(embedding: Option<Bytes>, faces: seq<RegisteredFace>, k: nat)
    requires k <= |faces|
  {
    forall j :: 0 <= j < k ==> Compare(embedding, faces[j].features) == Success(false)
  }

  /** `findMatchingFace`: a for-each loop with an early return. */
  method FindMatchingFace(embedding: Option<Bytes>, faces: seq<RegisteredFace>) returns (r: Result<Option<string>, Error>)
    ensures r == FirstMatch(embedding, faces)
  {
    for i := 0 to |faces|
      invariant FirstMatch(embedding, faces) == FirstMatch(embedding, faces[i..])
    {
      assert faces[i..][1..] == faces[i + 1..];
      var same := CompareEmbeddings(embedding, faces[i].features);
      if same.Failure? {
        return Failure(same.error);
      }
      if same.value {
        return Success(Some(faces[i].name));
      }
    }
    r := Success(None);
  }

  /** Skipping faces that were compared and did not match leaves the result unchanged. */
  lemma {:induction false} FirstMatchSkipsPrefix(embedding: Option<Bytes>, faces: seq<RegisteredFace>, k: nat)
    requires k <= |faces| && NoMatchBefore(embedding, faces, k)
    ensures FirstMatch(embedding, faces) == FirstMatch(embedding, faces[k..])
  {
    if k > 0 {
      assert faces[1..][k - 1..] == faces[k..];
      FirstMatchSkipsPrefix(embedding, faces[1..], k - 1);
    }
  }

  /**
   * The scan returns null exactly when every face is compared, returns
   * normally and does not match; in particular on an empty list.
   */
  lemma {:induction false} FirstMatchNone(embedding: Option<Bytes>, faces: seq<RegisteredFace>)
    ensures FirstMatch(embedding, faces) == Success(None) <==> NoMatchBefore(embedding, faces, |faces|)
  {
    if |faces| > 0 {
      FirstMatchNone(embedding, faces[1..]);
      if NoMatchBefore(embedding, faces[1..], |faces| - 1) && Compare(embedding, faces[0].features) == Success(false) {
        forall j | 0 <= j < |faces| ensures Compare(embedding, faces[j].features) == Success(false) {
          if j > 0 { assert faces[j] == faces[1..][j - 1]; }
        }
      }
      if NoMatchBefore(embedding, faces, |faces|) {
        forall j | 0 <= j < |faces| - 1 ensures Compare(embedding, faces[1..][j].features) == Success(false) {
          assert faces[1..][j] == faces[j + 1];
        }
      }
    }
  }

  /**
   * If no face before position k matches, the face at k decides: a match
   * returns its name, and an invalid comparison (null or wrong-length
   * features) throws, whatever follows.
   */
  lemma FirstMatchAt(embedding: Option<Bytes>, faces: seq<RegisteredFace>, k: nat)
    requires k < |faces| && NoMatchBefore(embedding, faces, k)
    ensures Compare(embedding, faces[k].features) == Success(true) ==> FirstMatch(embedding, faces) == Success(Some(faces[k].name))
    ensures Compare(embedding, faces[k].features).Failure? ==> FirstMatch(embedding, faces) == Failure(InvalidEmbeddings)
  {
    FirstMatchSkipsPrefix(embedding, faces, k);
    assert faces[k..][0] == faces[k];
  }

  /**
   * A name is returned only for the first matching face: every face before it
   * returned normally without matching.
   */
  lemma {:induction false} FirstMatchFound(embedding: Option<Bytes>, faces: seq<RegisteredFace>) returns (k: nat)
    requires FirstMatch(embedding, faces).Success? && FirstMatch(embedding, faces).value.Some?
    ensures k < |faces| && NoMatchBefore(embedding, faces, k)
    ensures Compare(embedding, faces[k].features) == Success(true)
    ensures FirstMatch(embedding, faces).value.value == faces[k].name
  {
    if Compare(embedding, faces[0].features) == Success(true) {
      k := 0;
    } else {
      var k' := FirstMatchFound(embedding, faces[1..]);
      k := k' + 1;
      forall j | 0 <= j < k ensures Compare(embedding, faces[j].features) == Success(false) {
        if j > 0 { assert faces[j] == faces[1..][j - 1]; }
      }
    }
  }

  /**
   * The scan stops at the first match or exception: whatever is appended
   * after it is never examined. When the list has no match, the appended
   * part alone decides.
   */
  lemma {:induction false} FirstMatchAppend(embedding: Option<Bytes>, faces: seq<RegisteredFace>, more: seq<RegisteredFace>)
    ensures FirstMatch(embedding, faces + more)
         == if FirstMatch(embedding, faces) == Success(None) then FirstMatch(embedding, more) else FirstMatch(embedding, faces)
  {
    if |faces| > 0 {
      assert (faces + more)[0] == faces[0];
      assert (faces + more)[1..] == faces[1..] + more;
      FirstMatchAppend(embedding, faces[1..], more);
    } else {
      assert faces + more == more;
    }
  }

  /** The name of the first face whose stored features equal the query, if any. */
  function FirstEqual(query: Bytes, faces: seq<RegisteredFace>): Option<string>
    decreases |faces|
  {
    if |faces| == 0 then None
    else if faces[0].features == Some(query) then Some(faces[0].name)
    else FirstEqual(query, faces[1..])
  }

  /**
   * With byte embeddings the threshold 0.4 admits only distance 0, so when
   * every stored array is non-null and as long as the query, the scan returns
   * the first face whose features equal the query, and never throws.
   */
  lemma {:induction false} FirstMatchIsFirstEqual(query: Bytes, faces: seq<RegisteredFace>)
    requires forall j :: 0 <= j < |faces| ==> faces[j].features.Some? && |faces[j].features.value| == |query|
    ensures FirstMatch(Some(query), faces) == Success(FirstEqual(query, faces))
  {
    if |faces| > 0 {
      CompareIsEquality(query, faces[0].features.value);
      FirstMatchIsFirstEqual(query, faces[1..]);
    }
  }
}
