/**
 * `scanDownloads`: a depth-first `filepath.Walk` over the Downloads tree whose
 * callback skips hidden entries, prunes hidden directories, ignores
 * directories, swallows per-entry errors and upserts every other entry as
 * seen, collecting the paths whose insert succeeded and stopping at the first
 * insert error.
 */
module Scanner {
  import opened Wrappers
  import opened PathStore

  /**
   * One entry of the watched tree as `filepath.Walk` reports it.  `hasError`
   * means the walk hands the callback an error for it (failed `Lstat`, or a
   * directory that cannot be read); `children` are in the order the walk
   * visits them (`filepath.Walk` visits a directory's names in lexical
   * order) and matter only for directories.
   */
  datatype Entry = Entry(
    name: string,
    isDir: bool,
    hasError: bool,
    modTime: Time,
    children: seq<Entry>)

  /** A (path, info) pair that reaches the insert. */
  datatype Candidate = Candidate(path: string, info: Entry)

  /** `filepath.Join` of a directory and a base name (without path cleaning). */
  function Join(dir: string, name: string): (r: string)
    ensures |r| == |dir| + 1 + |name|
    ensures r[..|dir|] == dir && r[|dir|] == '/' && r[|dir| + 1..] == name
  {
    dir + "/" + name
  }

  /** Different names in one directory give different paths. */
  lemma JoinInjective(dir: string, a: string, b: string)
    requires Join(dir, a) == Join(dir, b)
    ensures a == b
  {
    assert a == Join(dir, a)[|dir| + 1..];
  }

  /** `strings.HasPrefix`. */
  predicate HasPrefix(s: string, prefix: string)
  {
    |prefix| <= |s| && s[..|prefix|] == prefix
  }

  /** A hidden name, `strings.HasPrefix(name, ".")`: its first character is a dot. */
  predicate IsHidden(name: string)
    ensures IsHidden(name) <==> |name| > 0 && name[0] == '.'
  {
    HasPrefix(name, ".")
  }

  /** Whether the callback hands this entry to the insert. */
  predicate Upsertable(e: Entry)
  {
    !e.hasError && !IsHidden(e.name) && !e.isDir
  }

  /**
   * The entries the callback hands to the insert, in visit order, when every
   * insert succeeds: an entry with an error is skipped, a hidden entry is
   * skipped and a hidden directory is not entered, a directory is entered but
   * not inserted.
   */
  function Eligible(e: Entry, path: string): seq<Candidate>
    decreases e, 1
  {
    if e.hasError || IsHidden(e.name) then []
    else if !e.isDir then [Candidate(path, e)]
    else EligibleIn(e.children, path)
  }

  /** The candidates of the entries `cs` of directory `dir`, in order. */
  function EligibleIn(cs: seq<Entry>, dir: string): seq<Candidate>
    decreases cs, 0
  {
    if cs == [] then []
    else
      EligibleIn(cs[..|cs| - 1], dir) + Eligible(cs[|cs| - 1], Join(dir, cs[|cs| - 1].name))
  }

  /** Whether some candidate's insert fails. */
  predicate Aborts(cs: seq<Candidate>, faulty: set<string>)
  {
    cs != [] && (cs[0].path in faulty || Aborts(cs[1..], faulty))
  }

  /** The candidates inserted before the first failing insert. */
  function Succeeded(cs: seq<Candidate>, faulty: set<string>): (r: seq<Candidate>)
    ensures |r| <= |cs| && r == cs[..|r|]
    ensures |r| < |cs| ==> cs[|r|].path in faulty
    ensures |r| == |cs| <==> !Aborts(cs, faulty)
    ensures !Aborts(cs, faulty) ==> r == cs
  {
    if cs == [] then []
    else if cs[0].path in faulty then []
    else [cs[0]] + Succeeded(cs[1..], faulty)
  }

  /** The paths of a list of candidates. */
  function Paths(cs: seq<Candidate>): (r: seq<string>)
    ensures |r| == |cs|
  {
    if cs == [] then [] else [cs[0].path] + Paths(cs[1..])
  }

  /** The table after inserting each candidate as seen, in order. */
  function InsertAll(files: Table, cs: seq<Candidate>): Table
    decreases cs
  {
    if cs == [] then files
    else InsertAll(UpsertSeen(files, cs[0].path, cs[0].info.modTime), cs[1..])
  }

  // ---- algebra of the specification functions ----

  lemma {:induction false} EligibleInAppend(a: seq<Entry>, b: seq<Entry>, dir: string)
    ensures EligibleIn(a + b, dir) == EligibleIn(a, dir) + EligibleIn(b, dir)
    decreases |b|
  {
    if b == [] {
      assert a + b == a;
    } else {
      var n := |b| - 1;
      assert (a + b)[..|a + b| - 1] == a + b[..n];
      assert (a + b)[|a + b| - 1] == b[n];
      EligibleInAppend(a, b[..n], dir);
    }
  }

  lemma {:induction false} PathsAppend(a: seq<Candidate>, b: seq<Candidate>)
    ensures Paths(a + b) == Paths(a) + Paths(b)
    decreases |a|
  {
    if a == [] {
      assert a + b == b;
    } else {
      assert (a + b)[1..] == a[1..] + b;
      PathsAppend(a[1..], b);
    }
  }

  /** The i-th path is the path of the i-th candidate. */
  lemma {:induction false} PathsAt(cs: seq<Candidate>, i: int)
    requires 0 <= i < |cs|
    ensures Paths(cs)[i] == cs[i].path
    decreases |cs|
  {
    if i > 0 {
      PathsAt(cs[1..], i - 1);
    }
  }

  lemma {:induction false} AbortsAppend(a: seq<Candidate>, b: seq<Candidate>, faulty: set<string>)
    ensures Aborts(a + b, faulty) <==> Aborts(a, faulty) || Aborts(b, faulty)
    decreases |a|
  {
    if a == [] {
      assert a + b == b;
    } else {
      assert (a + b)[1..] == a[1..] + b;
      AbortsAppend(a[1..], b, faulty);
    }
  }

  /** Some candidate fails exactly when one of them is a faulty path. */
  lemma {:induction false} AbortsMeansFaulty(cs: seq<Candidate>, faulty: set<string>)
    ensures Aborts(cs, faulty) <==> exists i :: 0 <= i < |cs| && cs[i].path in faulty
    decreases |cs|
  {
    if cs != [] {
      AbortsMeansFaulty(cs[1..], faulty);
      if exists i :: 0 <= i < |cs| && cs[i].path in faulty {
        var i :| 0 <= i < |cs| && cs[i].path in faulty;
        if i > 0 {
          assert cs[1..][i - 1].path in faulty;
        }
      }
      if Aborts(cs[1..], faulty) {
        var i :| 0 <= i < |cs[1..]| && cs[1..][i].path in faulty;
        assert cs[i + 1].path in faulty;
      }
    }
  }

  /** Every candidate inserted before the abort has a path whose insert succeeds. */
  lemma {:induction false} SucceededNotFaulty(cs: seq<Candidate>, faulty: set<string>)
    ensures forall i :: 0 <= i < |Succeeded(cs, faulty)| ==> Succeeded(cs, faulty)[i].path !in faulty
    decreases |cs|
  {
    if cs != [] && cs[0].path !in faulty {
      SucceededNotFaulty(cs[1..], faulty);
      var r := Succeeded(cs, faulty);
      forall i | 0 <= i < |r|
        ensures r[i].path !in faulty
      {
        if i > 0 {
          assert r[i] == Succeeded(cs[1..], faulty)[i - 1];
        }
      }
    }
  }

  lemma {:induction false} SucceededAppend(a: seq<Candidate>, b: seq<Candidate>, faulty: set<string>)
    ensures Succeeded(a + b, faulty) == if Aborts(a, faulty) then Succeeded(a, faulty) else a + Succeeded(b, faulty)
    decreases |a|
  {
    if a == [] {
      assert a + b == b;
    } else {
      assert (a + b)[1..] == a[1..] + b;
      assert (a + b)[0] == a[0];
      assert a == [a[0]] + a[1..];
      SucceededAppend(a[1..], b, faulty);
    }
  }

  lemma {:induction false} InsertAllAppend(files: Table, a: seq<Candidate>, b: seq<Candidate>)
    ensures InsertAll(files, a + b) == InsertAll(InsertAll(files, a), b)
    decreases |a|
  {
    if a == [] {
      assert a + b == b;
    } else {
      assert (a + b)[1..] == a[1..] + b;
      InsertAllAppend(UpsertSeen(files, a[0].path, a[0].info.modTime), a[1..], b);
    }
  }

  /** A whole scan keeps every row and never touches a classification or its time. */
  lemma {:induction false} InsertAllKeepsClassifications(files: Table, cs: seq<Candidate>)
    ensures files.Keys <= InsertAll(files, cs).Keys
    ensures forall p :: p in files ==>
      InsertAll(files, cs)[p].classification == files[p].classification &&
      InsertAll(files, cs)[p].classifiedAt == files[p].classifiedAt
    decreases |cs|
  {
    if cs != [] {
      var next := UpsertSeen(files, cs[0].path, cs[0].info.modTime);
      UpsertSeenKeepsClassifications(files, cs[0].path, cs[0].info.modTime);
      InsertAllKeepsClassifications(next, cs[1..]);
    }
  }

  /** The candidates of a directory's first i + 1 entries. */
  lemma EligibleInSnoc(cs: seq<Entry>, i: int, dir: string)
    requires 0 <= i < |cs|
    ensures EligibleIn(cs[..i + 1], dir) == EligibleIn(cs[..i], dir) + Eligible(cs[i], Join(dir, cs[i].name))
  {
    assert cs[..i + 1][..i] == cs[..i];
  }

  /** The candidates of a directory, split after its i-th entry. */
  lemma EligibleInSplit(cs: seq<Entry>, i: int, dir: string)
    requires 0 <= i < |cs|
    ensures EligibleIn(cs, dir) == EligibleIn(cs[..i + 1], dir) + EligibleIn(cs[i + 1..], dir)
  {
    assert cs[..i + 1] + cs[i + 1..] == cs;
    EligibleInAppend(cs[..i + 1], cs[i + 1..], dir);
  }

  /** Concatenation regrouped, stated once for the proofs that need it. */
  lemma Regroup<T>(a: seq<T>, b: seq<T>, c: seq<T>)
    ensures a + (b + c) == (a + b) + c
    ensures |a + (b + c)| == |a| + |b| + |c|
  {
  }

  /** An abort inside `mine` hides everything after it. */
  lemma SucceededAtAbort(before: seq<Candidate>, mine: seq<Candidate>, rest: seq<Candidate>, faulty: set<string>)
    requires !Aborts(before, faulty) && Aborts(mine, faulty)
    ensures Aborts(before + mine + rest, faulty)
    ensures Succeeded(before + mine + rest, faulty) == before + Succeeded(mine, faulty)
  {
    AbortsAppend(before, mine, faulty);
    AbortsAppend(before + mine, rest, faulty);
    SucceededAppend(before + mine, rest, faulty);
    SucceededAppend(before, mine, faulty);
  }

  /**
   * The walk's loop after a child whose walk failed: with `before` the
   * candidates of the earlier children, `mine` those of the child and `rest`
   * those of the later ones, the directory stops with the child's outcome.
   */
  lemma StepStops(scanned: seq<string>, before: seq<Candidate>, mine: seq<Candidate>, rest: seq<Candidate>,
                  faulty: set<string>, out0: seq<string>, out1: seq<string>,
                  files0: Table, files1: Table, files2: Table)
    requires !Aborts(before, faulty) && Aborts(mine, faulty)
    requires out0 == scanned + Paths(before) && files1 == InsertAll(files0, before)
    requires out1 == out0 + Paths(Succeeded(mine, faulty)) && files2 == InsertAll(files1, Succeeded(mine, faulty))
    ensures Aborts(before + mine + rest, faulty)
    ensures out1 == scanned + Paths(Succeeded(before + mine + rest, faulty))
    ensures files2 == InsertAll(files0, Succeeded(before + mine + rest, faulty))
  {
    var done := Succeeded(mine, faulty);
    SucceededAtAbort(before, mine, rest, faulty);
    Regroup(scanned, Paths(before), Paths(done));
    PathsAppend(before, done);
    assert files2 == InsertAll(InsertAll(files0, before), done);
    InsertAllAppend(files0, before, done);
  }

  /** The walk's loop after a child whose walk succeeded: the loop's
      invariant holds with the child's candidates appended. */
  lemma StepContinues(scanned: seq<string>, before: seq<Candidate>, mine: seq<Candidate>,
                      faulty: set<string>, out0: seq<string>, out1: seq<string>,
                      files0: Table, files1: Table, files2: Table)
    requires !Aborts(before, faulty) && !Aborts(mine, faulty)
    requires out0 == scanned + Paths(before) && files1 == InsertAll(files0, before)
    requires out1 == out0 + Paths(Succeeded(mine, faulty)) && files2 == InsertAll(files1, Succeeded(mine, faulty))
    ensures !Aborts(before + mine, faulty)
    ensures out1 == scanned + Paths(before + mine)
    ensures files2 == InsertAll(files0, before + mine)
  {
    AbortsAppend(before, mine, faulty);
    var done := Succeeded(mine, faulty);
    assert done == mine;
    Regroup(scanned, Paths(before), Paths(mine));
    PathsAppend(before, mine);
    assert files2 == InsertAll(InsertAll(files0, before), mine);
    InsertAllAppend(files0, before, mine);
  }

  // ---- the walk ----

  /**
   * The walk of one entry at `path`, appending to `scanned` the path of every
   * successful insert.  The result says: the paths are those of the eligible
   * entries up to the first failing insert, the table has exactly those
   * inserts applied in order, and an error comes back exactly when an insert
   * failed.
   */
  method WalkEntry(store: Store, e: Entry, path: string, faulty: set<string>, scanned: seq<string>)
    returns (out: seq<string>, err: Option<StoreError>)
    requires store.Valid() && store.hasTable
    modifies store
    ensures store.Valid() && store.hasTable
    ensures out == scanned + Paths(Succeeded(Eligible(e, path), faulty))
    ensures store.files == InsertAll(old(store.files), Succeeded(Eligible(e, path), faulty))
    ensures err == if Aborts(Eligible(e, path), faulty) then Some(IoFault) else None
    decreases e, 1
  {
    out := scanned;
    if e.hasError {
      // the callback gets the error and returns nil: skip, keep walking
      return out, None;
    }
    if IsHidden(e.name) {
      // a hidden file is skipped; a hidden directory returns SkipDir
      return out, None;
    }
    if e.isDir {
      out, err := WalkChildren(store, e.children, path, faulty, scanned);
      return;
    }
    err := store.InsertUnclassified(path, e.modTime, path in faulty);
    if err == None {
      out := out + [path];
    }
    ghost var c := Candidate(path, e);
    assert Eligible(e, path) == [c];
    if path !in faulty {
      assert Succeeded([c], faulty) == [c];
      assert InsertAll(old(store.files), [c]) == UpsertSeen(old(store.files), path, e.modTime);
    } else {
      assert [c][0].path in faulty;
      assert Succeeded([c], faulty) == [];
    }
  }

  /** The walk of the entries `cs` of the directory `dir`, in order, stopping at an insert error. */
  method WalkChildren(store: Store, cs: seq<Entry>, dir: string, faulty: set<string>, scanned: seq<string>)
    returns (out: seq<string>, err: Option<StoreError>)
    requires store.Valid() && store.hasTable
    modifies store
    ensures store.Valid() && store.hasTable
    ensures out == scanned + Paths(Succeeded(EligibleIn(cs, dir), faulty))
    ensures store.files == InsertAll(old(store.files), Succeeded(EligibleIn(cs, dir), faulty))
    ensures err == if Aborts(EligibleIn(cs, dir), faulty) then Some(IoFault) else None
    decreases cs, 0
  {
    out := scanned;
    ghost var files0 := store.files;
    var i := 0;
    while i < |cs|
      invariant 0 <= i <= |cs|
      invariant store.Valid() && store.hasTable
      invariant !Aborts(EligibleIn(cs[..i], dir), faulty)
      invariant out == scanned + Paths(EligibleIn(cs[..i], dir))
      invariant store.files == InsertAll(files0, EligibleIn(cs[..i], dir))
    {
      ghost var before := EligibleIn(cs[..i], dir);
      ghost var mine := Eligible(cs[i], Join(dir, cs[i].name));
      ghost var out0, files1 := out, store.files;
      var childErr;
      out, childErr := WalkEntry(store, cs[i], Join(dir, cs[i].name), faulty, out);
      EligibleInSnoc(cs, i, dir);
      if childErr.Some? {
        EligibleInSplit(cs, i, dir);
        StepStops(scanned, before, mine, EligibleIn(cs[i + 1..], dir), faulty, out0, out, files0, files1, store.files);
        return out, childErr;
      }
      StepContinues(scanned, before, mine, faulty, out0, out, files0, files1, store.files);
      i := i + 1;
    }
    assert cs[..i] == cs;
    err := None;
  }

  /**
   * `scanDownloads` over the tree rooted at `root` (the Downloads folder at
   * `rootPath`).  A root reported with an error yields no paths and no error.
   */
  method Scan(store: Store, root: Entry, rootPath: string, faulty: set<string>)
    returns (scanned: seq<string>, err: Option<StoreError>)
    requires store.Valid() && store.hasTable
    modifies store
    ensures store.Valid() && store.hasTable
    ensures scanned == Paths(Succeeded(Eligible(root, rootPath), faulty))
    ensures store.files == InsertAll(old(store.files), Succeeded(Eligible(root, rootPath), faulty))
    ensures err == if Aborts(Eligible(root, rootPath), faulty) then Some(IoFault) else None
  {
    scanned, err := WalkEntry(store, root, rootPath, faulty, []);
  }

  // ---- the filter rules ----

  /** Every inserted entry is a non-hidden, non-directory entry (as `Lstat` reports it) reported without error. */
  lemma {:induction false} EligibleAreVisibleFiles(e: Entry, path: string)
    ensures forall c :: c in Eligible(e, path) ==> Upsertable(c.info)
    decreases e, 1
  {
    if !e.hasError && !IsHidden(e.name) && e.isDir {
      EligibleInAreVisibleFiles(e.children, path);
    }
  }

  lemma {:induction false} EligibleInAreVisibleFiles(cs: seq<Entry>, dir: string)
    ensures forall c :: c in EligibleIn(cs, dir) ==> Upsertable(c.info)
    decreases cs, 0
  {
    if cs != [] {
      var n := |cs| - 1;
      EligibleInAreVisibleFiles(cs[..n], dir);
      EligibleAreVisibleFiles(cs[n], Join(dir, cs[n].name));
    }
  }

  /**
   * The tree with everything the walk never looks at removed: the contents of
   * hidden directories and of entries reported with an error.
   */
  function Prune(e: Entry): Entry
    decreases e, 1
  {
    if e.hasError || IsHidden(e.name) then e.(children := [])
    else if !e.isDir then e
    else e.(children := PruneAll(e.children))
  }

  function PruneAll(cs: seq<Entry>): (r: seq<Entry>)
    ensures |r| == |cs|
    decreases cs, 0
  {
    seq(|cs|, i requires 0 <= i < |cs| => Prune(cs[i]))
  }

  /**
   * Nothing inside a hidden directory or an unreadable entry reaches the
   * insert: the scan sees the pruned tree exactly as it sees the whole tree.
   */
  lemma {:induction false} PruneKeepsEligible(e: Entry, path: string)
    ensures Eligible(Prune(e), path) == Eligible(e, path)
    decreases e, 1
  {
    if !e.hasError && !IsHidden(e.name) && e.isDir {
      PruneAllKeepsEligible(e.children, path);
    }
  }

  lemma {:induction false} PruneAllKeepsEligible(cs: seq<Entry>, dir: string)
    ensures EligibleIn(PruneAll(cs), dir) == EligibleIn(cs, dir)
    decreases cs, 0
  {
    if cs != [] {
      var n := |cs| - 1;
      assert PruneAll(cs)[..n] == PruneAll(cs[..n]);
      assert PruneAll(cs)[n] == Prune(cs[n]);
      PruneAllKeepsEligible(cs[..n], dir);
      PruneKeepsEligible(cs[n], Join(dir, cs[n].name));
    }
  }

  /** Two trees that differ only inside hidden directories or unreadable entries scan alike. */
  lemma HiddenContentsIrrelevant(e1: Entry, e2: Entry, path: string)
    requires Prune(e1) == Prune(e2)
    ensures Eligible(e1, path) == Eligible(e2, path)
  {
    PruneKeepsEligible(e1, path);
    PruneKeepsEligible(e2, path);
  }

  /**
   * Conversely the walk descends into every visible directory: whatever a
   * child of a visible directory contributes is inserted for the directory.
   */
  lemma ChildEligibleIncluded(e: Entry, path: string, i: int)
    requires !e.hasError && !IsHidden(e.name) && e.isDir && 0 <= i < |e.children|
    ensures forall c :: c in Eligible(e.children[i], Join(path, e.children[i].name)) ==> c in Eligible(e, path)
  {
    var cs := e.children;
    assert cs == cs[..i + 1] + cs[i + 1..];
    EligibleInAppend(cs[..i + 1], cs[i + 1..], path);
    assert cs[..i + 1][..i] == cs[..i];
  }

  /** A visible non-directory entry (as `Lstat` reports it) is inserted under its own path. */
  lemma VisibleFileEligible(e: Entry, path: string)
    requires Upsertable(e)
    ensures Eligible(e, path) == [Candidate(path, e)]
  {
  }

  /**
   * A root holding the hidden directory `.cache` with `b.txt` and the file
   * `a.txt` (in the walk's lexical order) inserts `a.txt` alone, as an
   * unclassified row with its modification time.
   */
  lemma HiddenDirectoryExample(t1: Time, t2: Time)
    ensures
      var a := Entry("a.txt", false, false, t1, []);
      var b := Entry("b.txt", false, false, t2, []);
      var cache := Entry(".cache", true, false, t2, [b]);
      var root := Entry("root", true, false, t2, [cache, a]);
      Eligible(root, "/root") == [Candidate("/root/a.txt", a)] &&
      InsertAll(map[], Eligible(root, "/root")) == map["/root/a.txt" := FileRecord(0, None, Some(t1))]
  {
    var a := Entry("a.txt", false, false, t1, []);
    var b := Entry("b.txt", false, false, t2, []);
    var cache := Entry(".cache", true, false, t2, [b]);
    var root := Entry("root", true, false, t2, [cache, a]);
    assert [cache, a][..1] == [cache];
    assert [cache][..0] == [];
    assert IsHidden(cache.name);
    assert Join("/root", "a.txt") == "/root/a.txt";
    assert Eligible(a, "/root/a.txt") == [Candidate("/root/a.txt", a)];
    assert Eligible(cache, Join("/root", ".cache")) == [];
    assert EligibleIn([cache], "/root") == [];
    assert EligibleIn([cache, a], "/root") == [Candidate("/root/a.txt", a)];
  }
}
