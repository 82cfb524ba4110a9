/**
 * The `files` table of main.go, keyed by path (the UNIQUE column), with its
 * two `INSERT ... ON CONFLICT(path) DO UPDATE` statements.  The SQLite
 * database becomes a map from path to row; the autoincrement id is dropped.
 */
module PathStore {
  import opened Wrappers
  import opened Classification

  /** A timestamp; the clock and the file system supply them. */
  type Time = int

  /** One row of the `files` table, without its key and its id. */
  datatype FileRecord = FileRecord(
    classification: int,
    classifiedAt: Option<Time>,
    lastModified: Option<Time>)

  type Table = map<string, FileRecord>

  /** What `db.Exec` can report: the table is missing, or the storage layer failed. */
  datatype StoreError = NoSuchTable | IoFault

  /** The row invariant: a row that carries a classification also carries its time. */
  predicate Consistent(files: Table)
  {
    forall p :: p in files && files[p].classification != Unclassified ==> files[p].classifiedAt.Some?
  }

  /**
   * `insertUnclassifiedInDB`: insert (path, 0, modTime), or on conflict set
   * only `last_modified`.
   */
  function UpsertSeen(files: Table, path: string, modTime: Time): (r: Table)
    ensures r.Keys == files.Keys + {path}
    ensures r[path].lastModified == Some(modTime)
    ensures path !in files ==> r[path].classification == Unclassified && r[path].classifiedAt == None
    ensures path in files ==>
      r[path].classification == files[path].classification && r[path].classifiedAt == files[path].classifiedAt
    ensures forall p :: p in files && p != path ==> r[p] == files[p]
  {
    if path in files then files[path := files[path].(lastModified := Some(modTime))]
    else files[path := FileRecord(Unclassified, None, Some(modTime))]
  }

  /**
   * `updateClassificationInDB`: insert (path, classification, now), or on
   * conflict set `classification` and `classified_at` only.
   */
  function UpsertClassification(files: Table, path: string, classification: int, now: Time): (r: Table)
    ensures r.Keys == files.Keys + {path}
    ensures r[path].classification == classification && r[path].classifiedAt == Some(now)
    ensures path !in files ==> r[path].lastModified == None
    ensures path in files ==> r[path].lastModified == files[path].lastModified
    ensures forall p :: p in files && p != path ==> r[p] == files[p]
  {
    if path in files then files[path := files[path].(classification := classification, classifiedAt := Some(now))]
    else files[path := FileRecord(classification, Some(now), None)]
  }

  /** Discovery never changes any row's classification or classification time. */
  lemma UpsertSeenKeepsClassifications(files: Table, path: string, modTime: Time)
    ensures forall p :: p in files ==>
      UpsertSeen(files, path, modTime)[p].classification == files[p].classification &&
      UpsertSeen(files, path, modTime)[p].classifiedAt == files[p].classifiedAt
  {
  }

  /** Classification never changes any row's `last_modified`. */
  lemma UpsertClassificationKeepsLastModified(files: Table, path: string, c: int, now: Time)
    ensures forall p :: p in files ==>
      UpsertClassification(files, path, c, now)[p].lastModified == files[p].lastModified
  {
  }

  /** Both upserts keep the row invariant. */
  lemma UpsertsKeepConsistent(files: Table, path: string, modTime: Time, c: int, now: Time)
    requires Consistent(files)
    ensures Consistent(UpsertSeen(files, path, modTime))
    ensures Consistent(UpsertClassification(files, path, c, now))
  {
  }

  /** Only a classification write can move a row off 0: discovery of a fresh or
      unclassified path leaves it unclassified. */
  lemma OnlyClassificationClassifies(files: Table, path: string, modTime: Time)
    requires path in files ==> files[path].classification == Unclassified
    ensures UpsertSeen(files, path, modTime)[path].classification == Unclassified
  {
  }

  /** Re-classification is last-write-wins. */
  lemma ClassificationLastWriteWins(files: Table, path: string, c1: int, t1: Time, c2: int, t2: Time)
    ensures UpsertClassification(UpsertClassification(files, path, c1, t1), path, c2, t2)
         == UpsertClassification(files, path, c2, t2)
  {
  }

  /** Discovery of the same path twice keeps only the later modification time. */
  lemma SeenLastWriteWins(files: Table, path: string, t1: Time, t2: Time)
    ensures UpsertSeen(UpsertSeen(files, path, t1), path, t2) == UpsertSeen(files, path, t2)
  {
  }

  /**
   * The two statements update disjoint columns, so they commute on every
   * pair of paths: a classification that arrives before discovery of the same
   * path still ends with both the classification and the modification time.
   */
  lemma UpsertsCommute(files: Table, p: string, modTime: Time, q: string, c: int, now: Time)
    ensures UpsertSeen(UpsertClassification(files, q, c, now), p, modTime)
         == UpsertClassification(UpsertSeen(files, p, modTime), q, c, now)
  {
  }

  /** The database of main.go with its `files` table (once created). */
  class Store {
    var hasTable: bool
    var files: Table

    ghost predicate Valid()
      reads this
    {
      (!hasTable ==> files == map[]) && Consistent(files)
    }

    /**
     * `sql.Open` on the database file: a new file has no table; a file kept
     * from an earlier run has the table with the rows saved then.
     */
    constructor (hasTable: bool, files: Table)
      requires (!hasTable ==> files == map[]) && Consistent(files)
      ensures Valid() && this.hasTable == hasTable && this.files == files
    {
      this.hasTable := hasTable;
      this.files := files;
    }

    /**
     * `ensureDBSchema`: `CREATE TABLE IF NOT EXISTS` creates an empty table if
     * there is none and leaves an existing table and its rows alone, so a
     * repeated call succeeds and changes nothing.
     */
    method EnsureSchema(ioFails: bool) returns (err: Option<StoreError>)
      requires Valid()
      modifies this
      ensures Valid()
      ensures ioFails ==> err == Some(IoFault) && hasTable == old(hasTable) && files == old(files)
      ensures !ioFails ==> err == None && hasTable && files == old(files)
    {
      if ioFails {
        return Some(IoFault);
      }
      hasTable := true;
      err := None;
    }

    /** `insertUnclassifiedInDB`, one statement: all or nothing. */
    method InsertUnclassified(path: string, modTime: Time, ioFails: bool) returns (err: Option<StoreError>)
      requires Valid()
      modifies this
      ensures Valid() && hasTable == old(hasTable)
      ensures !old(hasTable) ==> err == Some(NoSuchTable) && files == old(files)
      ensures old(hasTable) && ioFails ==> err == Some(IoFault) && files == old(files)
      ensures old(hasTable) && !ioFails ==> err == None && files == UpsertSeen(old(files), path, modTime)
    {
      if !hasTable {
        return Some(NoSuchTable);
      }
      if ioFails {
        return Some(IoFault);
      }
      UpsertsKeepConsistent(files, path, modTime, Unclassified, 0);
      files := UpsertSeen(files, path, modTime);
      err := None;
    }

    /** `updateClassificationInDB` with `time.Now()` passed in as `now`. */
    method UpdateClassification(path: string, classification: int, now: Time, ioFails: bool)
      returns (err: Option<StoreError>)
      requires Valid()
      modifies this
      ensures Valid() && hasTable == old(hasTable)
      ensures !old(hasTable) ==> err == Some(NoSuchTable) && files == old(files)
      ensures old(hasTable) && ioFails ==> err == Some(IoFault) && files == old(files)
      ensures old(hasTable) && !ioFails ==>
        err == None && files == UpsertClassification(old(files), path, classification, now)
    {
      if !hasTable {
        return Some(NoSuchTable);
      }
      if ioFails {
        return Some(IoFault);
      }
      UpsertsKeepConsistent(files, path, 0, classification, now);
      files := UpsertClassification(files, path, classification, now);
      err := None;
    }
  }

  /**
   * The insert-then-update scenario of main_test.go over a fresh database:
   * after the schema step a discovered path reads as unclassified, and after
   * a classification write it reads as that classification, with the path's
   * modification time still in place.
   */
  method InsertThenUpdate(path: string, modTime: Time, now: Time) returns (before: int, after: FileRecord)
    ensures before == Unclassified
    ensures after == FileRecord(ArchiveAfter60d, Some(now), Some(modTime))
  {
    var db := new Store(false, map[]);
    var err := db.EnsureSchema(false);
    err := db.InsertUnclassified(path, modTime, false);
    before := db.files[path].classification;
    err := db.UpdateClassification(path, ArchiveAfter60d, now, false);
    after := db.files[path];
  }
}
