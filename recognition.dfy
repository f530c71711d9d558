/**
 * The recognition side of `processImages`/`processImage`: one gallery
 * snapshot per run, then every detected face region matched against it.
 * A region is represented by the embedding the extractor returned for it.
 */
module Recognition {
  import opened Wrappers
  import opened Embeddings
  import opened Matching
  import opened FacesTable

  /**
   * What happens to one region: no embedding (skipped, nothing drawn), a
   * match (green rectangle, name printed) or no match (red rectangle).
   */
  datatype RegionOutcome = Skipped | Matched(name: string) | NoMatch

  /** One iteration of the region loop: a null embedding is skipped before the matcher runs. */
  function RegionResult(embedding: Option<Bytes>, gallery: seq<RegisteredFace>): Result<RegionOutcome, Error>
  {
    if embedding.None? then Success(Skipped)
    else match FirstMatch(embedding, gallery)
      case Failure(e) => Failure(e)
      case Success(Some(name)) => Success(Matched(name))
      case Success(None) => Success(NoMatch)
  }

  /** No region of the image makes the matcher throw. */
  ghost predicate AllRegionsReturn(regions: seq<Option<Bytes>>, gallery: seq<RegisteredFace>)
  {
    forall i :: 0 <= i < |regions| ==> RegionResult(regions[i], gallery).Success?
  }

  /**
   * The whole region loop: each region's outcome on its own, against the same
   * gallery; or the matcher's exception, which ends the loop and skips saving
   * the annotated image.
   */
  ghost function RegionsResult(regions: seq<Option<Bytes>>, gallery: seq<RegisteredFace>): Result<seq<RegionOutcome>, Error>
  {
    if AllRegionsReturn(regions, gallery)
    then Success(seq(|regions|, i requires 0 <= i < |regions| => RegionResult(regions[i], gallery).value))
    else Failure(InvalidEmbeddings)
  }

  /** The per-region loop of `processImage`, with `continue` on a null embedding. */
  method ProcessRegions(regions: seq<Option<Bytes>>, gallery: seq<RegisteredFace>) returns (r: Result<seq<RegionOutcome>, Error>)
    ensures r == RegionsResult(regions, gallery)
  {
    var outcomes: seq<RegionOutcome> := [];
    for i := 0 to |regions|
      invariant |outcomes| == i
      invariant forall j :: 0 <= j < i ==> RegionResult(regions[j], gallery) == Success(outcomes[j])
    {
      var embedding := regions[i];
      if embedding.None? {
        outcomes := outcomes + [Skipped];
        continue;
      }
      var matchedName := FindMatchingFace(embedding, gallery);
      if matchedName.Failure? {
        assert RegionResult(regions[i], gallery).Failure?;
        assert !AllRegionsReturn(regions, gallery);
        assert RegionsResult(regions, gallery) == Failure(InvalidEmbeddings);
        assert matchedName.error == InvalidEmbeddings;
        return Failure(matchedName.error);
      }
      outcomes := outcomes + [if matchedName.value.Some? then Matched(matchedName.value.value) else NoMatch];
    }
    assert AllRegionsReturn(regions, gallery);
    assert RegionsResult(regions, gallery).value == outcomes;
    r := Success(outcomes);
  }

  /**
   * `processImages`: reads the gallery once and processes every image against
   * that snapshot, in order. It returns the outcomes of the images whose
   * annotated output was saved and, when the matcher threw, the exception
   * that ended the run at the next image.
   */
  method ProcessImages(db: FaceDatabase, images: seq<seq<Option<Bytes>>>) returns (saved: seq<seq<RegionOutcome>>, thrown: Option<Error>)
    ensures |saved| <= |images|
    ensures forall k :: 0 <= k < |saved| ==> RegionsResult(images[k], Registered(db.rows)) == Success(saved[k])
    ensures thrown.None? ==> |saved| == |images|
    ensures thrown.Some? ==> |saved| < |images| && RegionsResult(images[|saved|], Registered(db.rows)).Failure?
  {
    var registeredFaces := db.GetRegisteredFaces();
    saved, thrown := [], None;
    for k := 0 to |images|
      invariant |saved| == k
      invariant forall j :: 0 <= j < k ==> RegionsResult(images[j], registeredFaces) == Success(saved[j])
    {
      var outcome := ProcessRegions(images[k], registeredFaces);
      if outcome.Failure? {
        thrown := Some(outcome.error);
        return;
      }
      saved := saved + [outcome.value];
    }
  }

  /**
   * Regions do not influence each other: when the loop completes, the
   * outcome at each position is that region's own outcome, a null embedding
   * is skipped without consulting the gallery, and skipping does not stop
   * later regions. The loop throws exactly when some region's scan throws.
   */
  lemma RegionsIndependent(regions: seq<Option<Bytes>>, gallery: seq<RegisteredFace>)
    ensures RegionsResult(regions, gallery).Failure? <==> exists i :: 0 <= i < |regions| && RegionResult(regions[i], gallery).Failure?
    ensures RegionsResult(regions, gallery).Success? ==>
      var outcomes := RegionsResult(regions, gallery).value;
      |outcomes| == |regions| &&
      forall i :: 0 <= i < |regions| ==>
        (regions[i].None? ==> outcomes[i] == Skipped) &&
        (regions[i].Some? ==> FirstMatch(regions[i], gallery) == Success(if outcomes[i].Matched? then Some(outcomes[i].name) else None))
  {
  }

  /**
   * With the stub extractor every region carries 128 zero bytes. Against a
   * gallery of 128-byte features it is recognised as the first face stored
   * with all-zero features, and as no match when there is none.
   */
  lemma StubRegionOutcome(gallery: seq<RegisteredFace>)
    requires forall j :: 0 <= j < |gallery| ==> gallery[j].features.Some? && |gallery[j].features.value| == EmbeddingLength
    ensures RegionResult(Some(ExtractEmbedding()), gallery)
         == Success(match FirstEqual(ExtractEmbedding(), gallery) case Some(name) => Matched(name) case None => NoMatch)
  {
    FirstMatchIsFirstEqual(ExtractEmbedding(), gallery);
  }

  /**
   * Registering "alice" from "alice.jpg" twice stores one row; a region whose
   * embedding equals the stored one is recognised as "alice", and one whose
   * embedding is all 10s is not recognised.
   */
  lemma RegisterThenRecognise()
    ensures var zeros := ExtractEmbedding();
      var once := InsertOrIgnore([], Some("alice"), Some("alice.jpg"), Some(zeros));
      var twice := InsertOrIgnore(once, Some("alice"), Some("alice.jpg"), Some(zeros));
      var gallery := Registered(twice);
      |twice| == 1 &&
      RegionsResult([Some(zeros), None, Some(seq(EmbeddingLength, _ => 10))], gallery)
        == Success([Matched("alice"), Skipped, NoMatch])
  {
    var zeros := ExtractEmbedding();
    var tens: Bytes := seq(EmbeddingLength, _ => 10);
    var once := InsertOrIgnore([], Some("alice"), Some("alice.jpg"), Some(zeros));
    InsertIdempotent([], "alice", "alice.jpg", Some(zeros), Some("alice"), Some(zeros));
    InsertThenList([], Some("alice"), Some("alice.jpg"), Some(zeros));
    var gallery := Registered(once);
    assert gallery == [RegisteredFace("alice", Some(zeros))];
    FirstMatchIsFirstEqual(zeros, gallery);
    FirstMatchIsFirstEqual(tens, gallery);
    assert tens[0] != zeros[0];
    var regions := [Some(zeros), None, Some(tens)];
    var outcomes := [Matched("alice"), Skipped, NoMatch];
    forall i | 0 <= i < 3 ensures RegionResult(regions[i], gallery) == Success(outcomes[i]) {
    }
    assert AllRegionsReturn(regions, gallery);
    assert RegionsResult(regions, gallery).value == outcomes;
  }
}
