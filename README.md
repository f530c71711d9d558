# Face gallery matching in autface, modelled in Dafny

This project models the matching logic of `FaceRecognitionApp`. It covers
four parts of the application.

- **Embedding comparison** (`FaceEmbeddingExtractor`). `compareEmbeddings`
  takes two nullable `byte[]` embeddings. It throws
  `IllegalArgumentException` when either one is null or their lengths
  differ. Otherwise it sums the squared differences of the signed bytes and
  accepts when the square root of that sum is below 0.4.
  `extractEmbedding` is a placeholder that always returns 128 zero bytes.
- **The first-match scan** (`findMatchingFace`). It returns the name of the
  first `RegisteredFace`, in list order, whose features compare as matching.
  It returns null when none does. An exception from the comparison stops
  the scan.
- **The `faces` table**. `name` and `image_path` are `NOT NULL`,
  `image_path` is `UNIQUE` and `features` may be `NULL`. `insertFace` runs
  `INSERT OR IGNORE`. `getRegisteredFaces` lists `(name, features)` for
  every row whose features are not null.
- **Recognition** (`processImages` / `processImage`). The gallery is read
  once per run. Every detected region is then matched against that
  snapshot. A region without an embedding is skipped.

Modules, one per component of the source file:

- `Wrappers` defines `Option` (a nullable reference) and `Result` (a value
  or a thrown exception).
- `Embeddings` defines Java bytes (`JByte`, an integer in [-128, 127]), the
  squared distance `SqDist`, the threshold test `BelowThreshold`, and both
  `Compare` and its loop `CompareEmbeddings`.
- `Matching` defines `RegisteredFace`, the reference scan `FirstMatch`, and
  its loop `FindMatchingFace`.
- `FacesTable` defines the rows, `InsertOrIgnore`, `Registered`, and the
  class `FaceDatabase`, which holds the table as a `seq` of rows.
- `Recognition` defines the per-region loop `ProcessRegions` and the run
  `ProcessImages`.

## No floating point is needed

The bytes are signed 8-bit values, so every difference is an exact integer
in [-255, 255]. The accumulated sum is at most 2^31 · 65025, which is below
2^53, so the `double` accumulator holds it exactly. The model therefore
keeps the sum as an integer.

`sqrt(sum) < 0.4` is modelled as `sum · 5² < 2²`. `SqrtBelowThreshold`
proves, over the reals, that this is the same as comparing a non-negative
square root with 2/5. `IntegerBelowThreshold` proves that any threshold of
at most 1 accepts only the sum 0. That holds whether the threshold is 0.4
or the `double` nearest to it.

`SqrtBelowThreshold` assumes an exact root, while `Math.sqrt` returns a
correctly rounded `double`. The gap closes because `Math.sqrt(0.0)` is
`0.0`, and `Math.sqrt(d) >= 1.0` for every integer `d >= 1`. Rounding is
monotone and 1 is a perfect square, so the root of any `d >= 1` rounds to at
least 1. The double test therefore also accepts exactly the sum 0.

As a consequence, two embeddings match exactly when they are element-wise
equal (`CompareIsEquality`). The scan then returns the first stored face
whose features equal the query (`FirstMatchIsFirstEqual`).

## Behaviour of the code worth knowing

- **Only identical embeddings match.** Embeddings are bytes, and the
  threshold admits only distance 0. `RegisterThenRecognise` shows this with
  the code's own values: the stub's 128 zeros match, and 128 tens do not.
- **`image_path` alone is `UNIQUE`.** A second insert under a stored path is
  ignored, whatever name it carries (`InsertIdempotent`). Distinct paths may
  share a name (`SameNameDistinctPaths`).
- **A failed `SELECT` is not fatal.** `getRegisteredFaces` prints the
  `SQLException` and returns the rows read so far. This model does not cover
  database failures (see Left out).
- **A null embedding only prints a message.** The region gets no rectangle
  and the loop goes on; the model records that region as `Skipped`.
- **Nothing in this file calls `insertFace`.** Only its declaration exists
  (line 81). Menu option 1 runs `captureAndSaveImage`, which only writes
  `images/<name>.jpg` (lines 241-242). The application therefore never fills
  the `faces` table itself. `RegisterThenRecognise` applies `insertFace`'s
  semantics directly; it is not the application's own flow.

## Model

| member | source | states |
|---|---|---|
| `Embeddings.ExtractEmbedding` | src/com/mesafacial/FaceRecognitionApp.java:373-376 | the stub embedding is non-null, 128 bytes long, and all zero |
| `Embeddings.CompareEmbeddings` | src/com/mesafacial/FaceRecognitionApp.java:378-392 | the loop computes `Compare`. It throws exactly when an argument is null or the lengths differ. Otherwise it returns true exactly when the arrays are element-wise equal |
| `Embeddings.SqDistZeroIff` | src/com/mesafacial/FaceRecognitionApp.java:383-387 | the accumulated squared distance is 0 if and only if the two arrays are equal |
| `Embeddings.SqDistSymmetric` | src/com/mesafacial/FaceRecognitionApp.java:383-387 | the accumulated squared distance is unchanged when the arrays are swapped |
| `Embeddings.SqrtBelowThreshold` | src/com/mesafacial/FaceRecognitionApp.java:389-391 | for s ≥ 0 with s·s = d, `s < num/den` holds if and only if `d·den² < num²`; with the rounding argument above, the integer test is the source's `Math.sqrt` test |
| `Embeddings.IntegerBelowThreshold` | src/com/mesafacial/FaceRecognitionApp.java:389-391 | for an integer sum and a threshold 0 < num/den ≤ 1 (0.4 is one), the test passes if and only if the sum is 0 |
| `Embeddings.CompareIsEquality` | src/com/mesafacial/FaceRecognitionApp.java:383-391 | on two non-null arrays of equal length, the comparison returns normally with true exactly when the arrays are equal |
| `Embeddings.CompareFailsIff` | src/com/mesafacial/FaceRecognitionApp.java:379-381 | the comparison throws `IllegalArgumentException` exactly when an argument is null or the lengths differ (definitional: it unfolds `Compare` and repeats `CompareEmbeddings`' own ensures) |
| `Embeddings.CompareSymmetric` | src/com/mesafacial/FaceRecognitionApp.java:379-391 | swapping the arguments changes neither the verdict nor whether it throws |
| `Embeddings.CompareReflexive` | src/com/mesafacial/FaceRecognitionApp.java:383-391 | any non-null array matches itself |
| `Matching.FindMatchingFace` | src/com/mesafacial/FaceRecognitionApp.java:171-178 | the for-each loop with early return computes the first-match result `FirstMatch`: a name, null, or the comparison's exception |
| `Matching.FirstMatchSkipsPrefix` | src/com/mesafacial/FaceRecognitionApp.java:172-175 | faces that were compared and did not match do not affect the result |
| `Matching.FirstMatchNone` | src/com/mesafacial/FaceRecognitionApp.java:171-178 | the scan returns null if and only if every face compares without throwing and without matching; an empty list returns null |
| `Matching.FirstMatchAt` | src/com/mesafacial/FaceRecognitionApp.java:172-175 | when no earlier face matches, a match at position k returns that face's name, and a null or wrong-length feature array at k throws |
| `Matching.FirstMatchFound` | src/com/mesafacial/FaceRecognitionApp.java:172-175 | a returned name belongs to a matching face, and every face before it compared without matching |
| `Matching.FirstMatchAppend` | src/com/mesafacial/FaceRecognitionApp.java:172-177 | faces after a match or an exception are never examined; after a list with no match, the faces that follow decide |
| `Matching.FirstMatchIsFirstEqual` | src/com/mesafacial/FaceRecognitionApp.java:171-178 | when all stored features are non-null and as long as the query, the scan never throws and returns the name of the first face whose features equal the query |
| `FacesTable.FaceDatabase.constructor` | src/com/mesafacial/FaceRecognitionApp.java:63-70 | a new table is empty and satisfies the UNIQUE constraint |
| `FacesTable.FaceDatabase.InsertFace` | src/com/mesafacial/FaceRecognitionApp.java:81-95 | the table becomes `InsertOrIgnore` of the old table and stays free of duplicate paths |
| `FacesTable.FaceDatabase.GetRegisteredFaces` | src/com/mesafacial/FaceRecognitionApp.java:97-117 | the result-set loop returns `Registered(rows)`, and no listed face has null features |
| `FacesTable.InsertKeepsPathsUnique` | src/com/mesafacial/FaceRecognitionApp.java:81-89 | an insert never creates two rows with the same `image_path` |
| `FacesTable.InsertOrIgnoreEffect` | src/com/mesafacial/FaceRecognitionApp.java:81-89 | with a non-null name and a new, non-null path the insert appends exactly the given row; in every other case the table is unchanged (definitional: it unfolds `InsertOrIgnore`) |
| `FacesTable.InsertIdempotent` | src/com/mesafacial/FaceRecognitionApp.java:81-89 | a second insert under a stored path changes nothing, whatever name and features it carries |
| `FacesTable.SameNameDistinctPaths` | src/com/mesafacial/FaceRecognitionApp.java:63-70 | two new, distinct paths under one name give two rows, in insertion order |
| `FacesTable.RegisteredAppend` | src/com/mesafacial/FaceRecognitionApp.java:105-111 | the listing of a concatenation of rows is the concatenation of the listings |
| `FacesTable.RegisteredFeaturesNonNull` | src/com/mesafacial/FaceRecognitionApp.java:105-111 | no listed face has null features |
| `FacesTable.RegisteredExactly` | src/com/mesafacial/FaceRecognitionApp.java:105-111 | a face is listed if and only if some stored row has non-null features and that face's name and features |
| `FacesTable.InsertThenList` | src/com/mesafacial/FaceRecognitionApp.java:81-117 | a stored insert with non-null features adds its face at the end of the next listing; any other insert leaves the listing unchanged |
| `Recognition.ProcessRegions` | src/com/mesafacial/FaceRecognitionApp.java:148-166 | the region loop, including its `continue`, gives each region its own outcome against the same gallery, or throws when some region's scan throws |
| `Recognition.ProcessImages` | src/com/mesafacial/FaceRecognitionApp.java:119-133 | the gallery is read once and every image is processed against that same snapshot, in order; an exception ends the run at the first image whose regions make the scan throw, after the earlier images were completed |
| `Recognition.RegionsIndependent` | src/com/mesafacial/FaceRecognitionApp.java:148-157 | a null embedding is skipped without a scan and does not stop later regions; every other region's outcome is its own scan result; the loop throws if and only if some region's scan throws (definitional: it unfolds `RegionsResult`; `ProcessRegions` carries the proof) |
| `Recognition.StubRegionOutcome` | src/com/mesafacial/FaceRecognitionApp.java:373-376 | against a gallery of 128-byte features, a stub embedding is recognised as the first face stored with all-zero features, or as no match when there is none |
| `Recognition.RegisterThenRecognise` | src/com/mesafacial/FaceRecognitionApp.java:148-157 | registering "alice" from "alice.jpg" twice stores one row; the stub embedding is then recognised as "alice", a null region is skipped, and an all-10 embedding is not recognised |

## Left out

- OpenCV face detection, image reading, rectangle drawing and
  `saveOutputImage`. These are foreign library calls and file I/O. A region
  is represented only by the embedding extracted for it. The colour of the
  rectangle is represented by the outcome `Matched` or `NoMatch`.
- `processImages`' directory checks, the `.jpg` filter and images that fail
  to load. These are file-system I/O. `ProcessImages` receives the regions
  of the loaded images only.
- `captureAndSaveImage`, `matToBufferedImage`, `run`, `main`, `initialize`,
  `loadHaarCascade`, `loadEmbeddingModel` and `initializeDatabase`. These
  are the camera, the Swing UI with its refresh thread, the console menu,
  and library and model loading.
- JDBC connections and every `SQLException` path. On such a failure the
  source prints a message. An insert then does nothing, and the listing
  returns the rows read before the failure.
- The `id` column. It is assigned by `AUTOINCREMENT` and never read by this
  code.
- Row order. `SELECT` has no `ORDER BY`; the model takes rows in insertion
  order.
- `Math.sqrt` and `double` arithmetic are replaced by the exact integer
  test described above. The accumulation is exact, and no integer sum lies
  between 0 and 0.4².
- `extractEmbedding`'s `Mat` argument. The stub ignores it.
- `byte[]` arrays are modelled as their contents, because nothing in this
  code writes into them after creation.
- `RegisteredFace`'s name is non-null, because its only producer reads the
  `NOT NULL` column `name`.
