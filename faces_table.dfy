/**
 * The `faces` table as its schema and `INSERT OR IGNORE` define it: `name`
 * and `image_path` are NOT NULL, `image_path` is UNIQUE, `features` may be
 * NULL. `insertFace` and `getRegisteredFaces` act on it.
 */
module FacesTable {
  import opened Wrappers
  import opened Embeddings
  import opened Matching

  /** A stored row. The auto-increment `id` is never read by the core and is not kept. */
  datatype Row = Row(name: string, imagePath: string, features: Option<Bytes>)

  /** The UNIQUE constraint on `image_path`. */
  ghost predicate PathsUnique(rows: seq<Row>)
  {
    forall i, j :: 0 <= i < j < |rows| ==> rows[i].imagePath != rows[j].imagePath
  }

  predicate HasPath(rows: seq<Row>, imagePath: string)
  {
    exists i :: 0 <= i < |rows| && rows[i].imagePath == imagePath
  }

  /**
   * The table after `INSERT OR IGNORE INTO faces (name, image_path, features)`:
   * a row that would break NOT NULL or UNIQUE is skipped; otherwise it is
   * appended, whatever its name and even with NULL features.
   */
  function InsertOrIgnore(rows: seq<Row>, name: Option<string>, imagePath: Option<string>, features: Option<Bytes>): seq<Row>
  {
    if name.None? || imagePath.None? || HasPath(rows, imagePath.value) then rows
    else rows + [Row(name.value, imagePath.value, features)]
  }

  /**
   * The list `getRegisteredFaces` builds from `SELECT name, features FROM faces`:
   * in row order, one face per row whose features are not NULL.
   */
  function Registered(rows: seq<Row>): seq<RegisteredFace>
    decreases |rows|
  {
    if |rows| == 0 then []
    else
      var last := rows[|rows| - 1];
      Registered(rows[..|rows| - 1]) + (if last.features.Some? then [RegisteredFace(last.name, last.features)] else [])
  }

  /** The `faces` table: a sequence of rows, in insertion order. */
  class FaceDatabase {
    var rows: seq<Row>

    ghost predicate Valid()
      reads this
    {
      PathsUnique(rows)
    }

    /** `CREATE TABLE IF NOT EXISTS faces`, on a fresh database. */
    constructor ()
      ensures Valid() && rows == []
    {
      rows := [];
    }

    /** `insertFace`: one `INSERT OR IGNORE`. */
    method InsertFace(name: Option<string>, imagePath: Option<string>, features: Option<Bytes>)
      requires Valid()
      modifies this
      ensures Valid()
      ensures rows == InsertOrIgnore(old(rows), name, imagePath, features)
    {
      InsertKeepsPathsUnique(rows, name, imagePath, features);
      if name.Some? && imagePath.Some? && !HasPath(rows, imagePath.value) {
        rows := rows + [Row(name.value, imagePath.value, features)];
      }
    }

    /** `getRegisteredFaces`: walks the result set and keeps rows with non-null features. */
    method GetRegisteredFaces() returns (faces: seq<RegisteredFace>)
      ensures faces == Registered(rows)
      ensures forall k :: 0 <= k < |faces| ==> faces[k].features.Some?
    {
      faces := [];
      var i := 0;
      while i < |rows|
        invariant i <= |rows|
        invariant faces == Registered(rows[..i])
      {
        assert rows[..i + 1][..i] == rows[..i];
        var row := rows[i];
        if row.features.Some? {
          faces := faces + [RegisteredFace(row.name, row.features)];
        }
        i := i + 1;
      }
      assert rows[..i] == rows;
      RegisteredFeaturesNonNull(rows);
    }
  }

  /** An insert never breaks the UNIQUE constraint on `image_path`. */
  lemma InsertKeepsPathsUnique(rows: seq<Row>, name: Option<string>, imagePath: Option<string>, features: Option<Bytes>)
    requires PathsUnique(rows)
    ensures PathsUnique(InsertOrIgnore(rows, name, imagePath, features))
  {
  }

  /**
   * An insert adds exactly one row, the given one, when name and path are
   * non-null and the path is new, and otherwise leaves the table unchanged.
   */
  lemma InsertOrIgnoreEffect(rows: seq<Row>, name: Option<string>, imagePath: Option<string>, features: Option<Bytes>)
    ensures var after := InsertOrIgnore(rows, name, imagePath, features);
      if name.Some? && imagePath.Some? && (forall i :: 0 <= i < |rows| ==> rows[i].imagePath != imagePath.value)
      then |after| == |rows| + 1 && after[..|rows|] == rows && after[|rows|] == Row(name.value, imagePath.value, features)
      else after == rows
  {
  }

  /**
   * Inserting twice under the same non-null name and path stores one row:
   * the second insert changes nothing, whatever name and features it carries.
   */
  lemma InsertIdempotent(rows: seq<Row>, name: string, imagePath: string, features: Option<Bytes>,
                         name': Option<string>, features': Option<Bytes>)
    ensures var once := InsertOrIgnore(rows, Some(name), Some(imagePath), features);
      HasPath(once, imagePath) && InsertOrIgnore(once, name', Some(imagePath), features') == once
  {
    var once := InsertOrIgnore(rows, Some(name), Some(imagePath), features);
    if once != rows {
      assert once[|rows|].imagePath == imagePath;
    }
  }

  /** Two new, distinct paths under the same name give two rows, in order. */
  lemma SameNameDistinctPaths(rows: seq<Row>, name: string, path1: string, path2: string, f1: Option<Bytes>, f2: Option<Bytes>)
    requires path1 != path2 && !HasPath(rows, path1) && !HasPath(rows, path2)
    ensures InsertOrIgnore(InsertOrIgnore(rows, Some(name), Some(path1), f1), Some(name), Some(path2), f2)
         == rows + [Row(name, path1, f1), Row(name, path2, f2)]
  {
  }

  /** The listing distributes over concatenation of row sequences. */
  lemma {:induction false} RegisteredAppend(rows: seq<Row>, more: seq<Row>)
    ensures Registered(rows + more) == Registered(rows) + Registered(more)
    decreases |more|
  {
    if |more| == 0 {
      assert rows + more == rows;
    } else {
      var n := |more| - 1;
      assert (rows + more)[..|rows + more| - 1] == rows + more[..n];
      RegisteredAppend(rows, more[..n]);
    }
  }

  /** No face in the listing has null features. */
  lemma {:induction false} RegisteredFeaturesNonNull(rows: seq<Row>)
    ensures forall k :: 0 <= k < |Registered(rows)| ==> Registered(rows)[k].features.Some?
    decreases |rows|
  {
    if |rows| > 0 {
      RegisteredFeaturesNonNull(rows[..|rows| - 1]);
    }
  }

  /**
   * The listing holds exactly the stored rows with non-null features, each
   * with its own name and features.
   */
  lemma {:induction false} RegisteredExactly(rows: seq<Row>, face: RegisteredFace)
    ensures face in Registered(rows)
        <==> exists i :: 0 <= i < |rows| && rows[i].features.Some? && face == RegisteredFace(rows[i].name, rows[i].features)
    decreases |rows|
  {
    if |rows| > 0 {
      var n := |rows| - 1;
      RegisteredExactly(rows[..n], face);
      if exists i :: 0 <= i < |rows| && rows[i].features.Some? && face == RegisteredFace(rows[i].name, rows[i].features) {
        var i :| 0 <= i < |rows| && rows[i].features.Some? && face == RegisteredFace(rows[i].name, rows[i].features);
        if i < n {
          assert rows[..n][i] == rows[i];
        }
      }
      if face in Registered(rows[..n]) {
        var i :| 0 <= i < n && rows[..n][i].features.Some? && face == RegisteredFace(rows[..n][i].name, rows[..n][i].features);
        assert rows[i] == rows[..n][i];
      }
    }
  }

  /**
   * What an insert adds to the next gallery snapshot: the new face at the
   * end when the row is stored with non-null features, and nothing otherwise.
   */
  lemma InsertThenList(rows: seq<Row>, name: Option<string>, imagePath: Option<string>, features: Option<Bytes>)
    ensures Registered(InsertOrIgnore(rows, name, imagePath, features))
         == if name.Some? && imagePath.Some? && !HasPath(rows, imagePath.value) && features.Some?
            then Registered(rows) + [RegisteredFace(name.value, features)]
            else Registered(rows)
  {
    if name.Some? && imagePath.Some? && !HasPath(rows, imagePath.value) {
      var row := Row(name.value, imagePath.value, features);
      RegisteredAppend(rows, [row]);
      assert [row][..0] == [];
    }
  }
}
