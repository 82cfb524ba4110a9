/**
 * The two loops of main.go flattened into steps on one object: a watcher
 * pass (`watcherLoop` body: scan, then enqueue every scanned path not yet in
 * `queuedFiles`) and a classifier step (`classifierLoop` body: take a path,
 * read inputs until one is a valid classification, write it).
 */
module Pipeline {
  import opened Wrappers
  import opened Classification
  import opened PathStore
  import opened Scanner

  /** The buffer size of `classificationQueue`. */
  const Capacity: nat := 100

  /** No path occurs twice in `s`. */
  predicate NoDup(s: seq<string>)
  {
    s == [] || (s[|s| - 1] !in s[..|s| - 1] && NoDup(s[..|s| - 1]))
  }

  /** `NoDup` means that any two positions hold different paths. */
  lemma {:induction false} NoDupMeans(s: seq<string>)
    ensures NoDup(s) <==> forall i, j :: 0 <= i < j < |s| ==> s[i] != s[j]
  {
    if s != [] {
      var n := |s| - 1;
      var init := s[..n];
      NoDupMeans(init);
      if NoDup(s) {
        forall i, j | 0 <= i < j < |s|
          ensures s[i] != s[j]
        {
          if j == n {
            assert s[i] == init[i];
          } else {
            assert s[i] == init[i] && s[j] == init[j];
          }
        }
      }
      if forall i, j :: 0 <= i < j < |s| ==> s[i] != s[j] {
        forall i, j | 0 <= i < j < n
          ensures init[i] != init[j]
        {
          assert init[i] == s[i] && init[j] == s[j];
        }
      }
    }
  }

  lemma NoDupSnoc(s: seq<string>, x: string)
    requires NoDup(s) && x !in s
    ensures NoDup(s + [x])
  {
    assert (s + [x])[..|s|] == s;
  }

  lemma {:induction false} NoDupAppend(a: seq<string>, b: seq<string>)
    requires NoDup(a) && NoDup(b) && forall x :: x in a ==> x !in b
    ensures NoDup(a + b)
    decreases |b|
  {
    if b == [] {
      assert a + b == a;
    } else {
      var n := |b| - 1;
      assert b == b[..n] + [b[n]];
      NoDupAppend(a, b[..n]);
      assert (a + b)[..|a + b| - 1] == a + b[..n];
      assert (a + b)[|a + b| - 1] == b[n];
    }
  }

  lemma {:induction false} NoDupPrefix(a: seq<string>, b: seq<string>)
    requires NoDup(a + b)
    ensures NoDup(a)
    decreases |b|
  {
    if b == [] {
      assert a + b == a;
    } else {
      var n := |b| - 1;
      assert (a + b)[..|a + b| - 1] == a + b[..n];
      NoDupPrefix(a, b[..n]);
    }
  }

  /** The paths of a list, as a set. */
  function Elems(s: seq<string>): (r: set<string>)
    ensures forall x :: x in r <==> x in s
  {
    set x | x in s
  }

  lemma ElemsSnoc(base: set<string>, s: seq<string>, i: nat)
    requires i < |s|
    ensures base + Elems(s[..i + 1]) == (base + Elems(s[..i])) + {s[i]}
  {
    assert s[..i + 1] == s[..i] + [s[i]];
    assert Elems(s[..i + 1]) == Elems(s[..i]) + {s[i]};
  }

  /** A scan's inserts add exactly the scanned paths to the table's keys. */
  lemma {:induction false} InsertAllKeys(files: Table, cs: seq<Candidate>)
    ensures InsertAll(files, cs).Keys == files.Keys + Elems(Paths(cs))
    decreases |cs|
  {
    if cs == [] {
      assert Elems(Paths(cs)) == {};
    } else {
      InsertAllKeys(UpsertSeen(files, cs[0].path, cs[0].info.modTime), cs[1..]);
      assert Paths(cs) == [cs[0].path] + Paths(cs[1..]);
      assert Elems(Paths(cs)) == {cs[0].path} + Elems(Paths(cs[1..]));
    }
  }

  /** Pushing a path that was never marked keeps the history duplicate-free and
      in step with the marked set. */
  lemma EnqueueKeepsHistory(history: seq<string>, marked: set<string>, f: string)
    requires NoDup(history) && marked == Elems(history) && f !in marked
    ensures NoDup(history + [f]) && marked + {f} == Elems(history + [f])
  {
    NoDupSnoc(history, f);
  }

  /**
   * The paths one dispatch pass over `files` enqueues, in order, when the
   * paths in `queued` are already marked: each path is enqueued the first
   * time the pass meets it unmarked, and is marked from then on.
   */
  function Fresh(files: seq<string>, queued: set<string>): (r: seq<string>)
    ensures |r| <= |files|
  {
    if files == [] then []
    else
      var f := files[0];
      var rest := Fresh(files[1..], queued + {f});
      if f in queued then rest else [f] + rest
  }

  /**
   * A pass enqueues no path twice and none already marked, and every path it
   * meets ends up either marked before or enqueued by it.
   */
  lemma {:induction false} FreshMeans(files: seq<string>, queued: set<string>)
    ensures NoDup(Fresh(files, queued))
    ensures forall x :: x in Fresh(files, queued) ==> x in files && x !in queued
    ensures forall x :: x in files ==> x in queued || x in Fresh(files, queued)
    decreases |files|
  {
    if files != [] {
      var f := files[0];
      var rest := Fresh(files[1..], queued + {f});
      FreshMeans(files[1..], queued + {f});
      assert files == [f] + files[1..];
      if f !in queued {
        NoDupAppend([f], rest);
      }
    }
  }

  /** One step of `Fresh` along a suffix of `files`. */
  lemma FreshStep(files: seq<string>, i: nat, queued: set<string>)
    requires i < |files|
    ensures Fresh(files[i..], queued)
         == (if files[i] in queued then [] else [files[i]]) + Fresh(files[i + 1..], queued + {files[i]})
  {
    assert files[i..][1..] == files[i + 1..];
    assert files[i..] == [files[i]] + files[i + 1..];
  }

  /** A dispatch pass keeps the history of pushed paths duplicate-free and in
      step with the marked set. */
  lemma {:induction false} DispatchKeepsHistory(history: seq<string>, marked: set<string>, files: seq<string>)
    requires NoDup(history) && marked == Elems(history)
    ensures NoDup(history + Fresh(files, marked))
    ensures marked + Elems(files) == Elems(history + Fresh(files, marked))
    decreases |files|
  {
    if files == [] {
      assert history + Fresh(files, marked) == history;
    } else {
      var f := files[0];
      assert Elems(files) == {f} + Elems(files[1..]);
      if f in marked {
        assert marked + {f} == marked;
        DispatchKeepsHistory(history, marked, files[1..]);
      } else {
        EnqueueKeepsHistory(history, marked, f);
        DispatchKeepsHistory(history + [f], marked + {f}, files[1..]);
        Regroup(history, [f], Fresh(files[1..], marked + {f}));
      }
    }
  }

  /** What a run of dispatch passes enqueues, starting from the set `queued`. */
  function EnqueuedBy(passes: seq<seq<string>>, queued: set<string>): seq<string>
  {
    if passes == [] then []
    else Fresh(passes[0], queued) + EnqueuedBy(passes[1..], queued + Elems(passes[0]))
  }

  /**
   * Since nothing is ever removed from `queuedFiles`, a run of any number of
   * passes enqueues every path at most once, and never one already queued.
   */
  lemma {:induction false} EnqueuedAtMostOnce(passes: seq<seq<string>>, queued: set<string>)
    ensures NoDup(EnqueuedBy(passes, queued))
    ensures forall x :: x in EnqueuedBy(passes, queued) ==> x !in queued
  {
    if passes != [] {
      var q' := queued + Elems(passes[0]);
      var first := Fresh(passes[0], queued);
      FreshMeans(passes[0], queued);
      EnqueuedAtMostOnce(passes[1..], q');
      NoDupAppend(first, EnqueuedBy(passes[1..], q'));
    }
  }

  /** `err == nil && isValidClassification(castInput)` for one parsed input line. */
  predicate Accepted(input: Option<int>)
    ensures Accepted(input) <==> input.Some? && 1 <= input.value <= 3
  {
    input.Some? && IsValidClassification(input.value)
  }

  /** The position of the first input the classifier accepts, if any. */
  function FirstAccepted(inputs: seq<Option<int>>): (r: Option<nat>)
    ensures r.Some? ==> r.value < |inputs| && Accepted(inputs[r.value])
    ensures r.Some? ==> forall j :: 0 <= j < r.value ==> !Accepted(inputs[j])
    ensures r.None? <==> forall j :: 0 <= j < |inputs| ==> !Accepted(inputs[j])
  {
    if inputs == [] then None
    else if Accepted(inputs[0]) then Some(0)
    else
      match FirstAccepted(inputs[1..])
      case None => None
      case Some(k) => Some(k + 1)
  }

  /** The classification the classifier writes for these inputs, if it writes one. */
  function Decision(inputs: seq<Option<int>>): (r: Option<int>)
    ensures r.Some? ==> IsValidClassification(r.value) && r.value != Unclassified
    ensures r.Some? ==> exists k :: 0 <= k < |inputs| && inputs[k] == Some(r.value)
                                   && forall j :: 0 <= j < k ==> !Accepted(inputs[j])
    ensures r.None? <==> forall j :: 0 <= j < |inputs| ==> !Accepted(inputs[j])
  {
    match FirstAccepted(inputs)
    case None => None
    case Some(k) =>
      assert inputs[k] == Some(inputs[k].value);
      Some(inputs[k].value)
  }

  /**
   * A write of the classifier's decision leaves the path classified: its row
   * carries a policy value other than 0 and the time of the decision, and
   * keeps the modification time it had.
   */
  lemma DecisionClassifies(files: Table, path: string, inputs: seq<Option<int>>, now: Time)
    requires Decision(inputs).Some?
    ensures var row := UpsertClassification(files, path, Decision(inputs).value, now)[path];
      && row.classification != Unclassified && IsValidClassification(row.classification)
      && row.classifiedAt == Some(now)
      && row.lastModified == (if path in files then files[path].lastModified else None)
  {
  }

  /** The store with the `queuedFiles` map and the `classificationQueue` channel. */
  class Pipeline {
    var queuedFiles: set<string>
    var classificationQueue: seq<string>
    /** The path the classifier has taken off the channel and is still asking about. */
    var current: Option<string>
    const store: Store
    /** Every path the classifier has finished with, in order. */
    ghost var resolved: seq<string>

    function InFlight(): seq<string>
      reads this
    {
      if current.Some? then [current.value] else []
    }

    /** Every path ever pushed onto the channel, in order: the finished ones,
        the one in hand and those still waiting. */
    ghost function Enqueued(): seq<string>
      reads this
    {
      resolved + InFlight() + classificationQueue
    }

    ghost predicate Valid()
      reads this, store
    {
      && store.Valid() && store.hasTable
      && |classificationQueue| <= Capacity
      && NoDup(Enqueued())
      && queuedFiles == Elems(Enqueued())
      && queuedFiles <= store.files.Keys
    }

    /** The state `main` starts both loops in, over a store whose schema exists. */
    constructor (store: Store)
      requires store.Valid() && store.hasTable
      ensures Valid() && this.store == store
      ensures queuedFiles == {} && classificationQueue == [] && current == None
    {
      this.store := store;
      queuedFiles := {};
      classificationQueue := [];
      current := None;
      resolved := [];
    }

    /**
     * The body of the inner loop of `watcherLoop`: a path not yet in
     * `queuedFiles` is marked and then pushed onto the channel; a marked path
     * is left alone.  A push needs room in the channel.
     */
    method Offer(f: string)
      requires f !in queuedFiles ==> |classificationQueue| < Capacity
      modifies this
      ensures queuedFiles == old(queuedFiles) + {f}
      ensures classificationQueue == old(classificationQueue) + (if f in old(queuedFiles) then [] else [f])
      ensures current == old(current) && resolved == old(resolved)
    {
      if f !in queuedFiles {
        queuedFiles := queuedFiles + {f};
        classificationQueue := classificationQueue + [f];
      }
    }

    /**
     * The inner `for _, f := range files` of `watcherLoop`.  The channel
     * never blocks here: its free room covers what the pass enqueues.
     */
    method Dispatch(files: seq<string>)
      requires |classificationQueue| + |Fresh(files, queuedFiles)| <= Capacity
      modifies this
      ensures classificationQueue == old(classificationQueue) + Fresh(files, old(queuedFiles))
      ensures queuedFiles == old(queuedFiles) + Elems(files)
      ensures current == old(current) && resolved == old(resolved)
    {
      var i := 0;
      while i < |files|
        invariant 0 <= i <= |files|
        invariant |classificationQueue| + |Fresh(files[i..], queuedFiles)| <= Capacity
        invariant classificationQueue + Fresh(files[i..], queuedFiles)
               == old(classificationQueue) + Fresh(files, old(queuedFiles))
        invariant queuedFiles == old(queuedFiles) + Elems(files[..i])
        invariant current == old(current) && resolved == old(resolved)
      {
        ghost var q := classificationQueue;
        ghost var marked := queuedFiles;
        ghost var step := if files[i] in marked then [] else [files[i]];
        FreshStep(files, i, marked);
        ElemsSnoc(old(queuedFiles), files, i);
        Regroup(q, step, Fresh(files[i + 1..], marked + {files[i]}));
        Offer(files[i]);
        assert classificationQueue == q + step;
        i := i + 1;
      }
      assert files[i..] == [] && files[..i] == files;
    }

    /**
     * One iteration of `watcherLoop`: scan, then dispatch what the scan
     * returned, also when it returned an error with a partial list.  Every
     * path pushed is one never pushed before.
     */
    method WatchPass(root: Entry, rootPath: string, faulty: set<string>) returns (err: Option<StoreError>)
      requires Valid()
      requires |classificationQueue| + |Fresh(Paths(Succeeded(Eligible(root, rootPath), faulty)), queuedFiles)| <= Capacity
      modifies this, store
      ensures Valid()
      ensures store.files == InsertAll(old(store.files), Succeeded(Eligible(root, rootPath), faulty))
      ensures err == if Aborts(Eligible(root, rootPath), faulty) then Some(IoFault) else None
      ensures classificationQueue
           == old(classificationQueue) + Fresh(Paths(Succeeded(Eligible(root, rootPath), faulty)), old(queuedFiles))
      ensures queuedFiles == old(queuedFiles) + Elems(Paths(Succeeded(Eligible(root, rootPath), faulty)))
      ensures Enqueued() == old(Enqueued()) + Fresh(Paths(Succeeded(Eligible(root, rootPath), faulty)), old(queuedFiles))
      ensures current == old(current) && resolved == old(resolved)
    {
      var files;
      files, err := Scan(store, root, rootPath, faulty);
      ghost var head := resolved + InFlight();
      ghost var before := classificationQueue;
      assert old(Enqueued()) == head + before;
      Dispatch(files);
      ghost var added := Fresh(files, old(queuedFiles));
      assert Enqueued() == head + classificationQueue;
      Regroup(head, before, added);
      DispatchKeepsHistory(old(Enqueued()), old(queuedFiles), files);
      InsertAllKeys(old(store.files), Succeeded(Eligible(root, rootPath), faulty));
    }

    /** The receive of `for file := range classificationQueue`. */
    method Receive()
      requires Valid() && current.None? && classificationQueue != []
      modifies this
      ensures Valid()
      ensures current == Some(old(classificationQueue)[0]) && classificationQueue == old(classificationQueue)[1..]
      ensures queuedFiles == old(queuedFiles) && resolved == old(resolved) && Enqueued() == old(Enqueued())
    {
      ghost var q0 := classificationQueue;
      assert resolved + [] == resolved;
      assert old(Enqueued()) == resolved + q0;
      current := Some(classificationQueue[0]);
      classificationQueue := classificationQueue[1..];
      assert [q0[0]] + classificationQueue == q0;
      Regroup(resolved, [q0[0]], classificationQueue);
      assert Enqueued() == old(Enqueued());
    }

    /**
     * The inner `for` of `classifierLoop` for the path in hand: it consumes
     * inputs up to and including the first accepted one and writes that
     * classification with time `now`.  The write's error is ignored
     * (`storageFails` stands for it), so the path counts as finished either
     * way.  If no input is accepted, every input is consumed and the
     * classifier is still waiting on the same path.
     */
    method Classify(inputs: seq<Option<int>>, now: Time, storageFails: bool) returns (used: nat)
      requires Valid() && current.Some?
      modifies this, store
      ensures Valid()
      ensures queuedFiles == old(queuedFiles) && Enqueued() == old(Enqueued())
      ensures classificationQueue == old(classificationQueue)
      ensures match FirstAccepted(inputs)
        case None =>
          used == |inputs| && current == old(current) && store.files == old(store.files) && resolved == old(resolved)
        case Some(k) =>
          && used == k + 1 && current == None && resolved == old(resolved) + [old(current).value]
          && store.files == (if storageFails then old(store.files)
                             else UpsertClassification(old(store.files), old(current).value, Decision(inputs).value, now))
          && (!storageFails ==>
                store.files[old(current).value] == old(store.files)[old(current).value].(classification := Decision(inputs).value, classifiedAt := Some(now)))
    {
      var path := current.value;
      used := 0;
      while used < |inputs|
        invariant used <= |inputs|
        invariant forall j :: 0 <= j < used ==> !Accepted(inputs[j])
        invariant current == old(current) && classificationQueue == old(classificationQueue)
        invariant store.files == old(store.files) && store.Valid() && store.hasTable
        invariant resolved == old(resolved) && queuedFiles == old(queuedFiles)
      {
        var input := inputs[used];
        used := used + 1;
        if input.Some? && IsValidClassification(input.value) {
          var discarded := store.UpdateClassification(path, input.value, now, storageFails);
          current := None;
          resolved := resolved + [path];
          assert Enqueued() == old(Enqueued());
          return;
        }
      }
    }

    /**
     * One iteration of the outer loop of `classifierLoop`.  With no path in
     * hand the classifier takes the head of the channel (and blocks, changing
     * nothing, on an empty one); it then asks about that path with `inputs`.
     */
    method ClassifyNext(inputs: seq<Option<int>>, now: Time, storageFails: bool) returns (used: nat)
      requires Valid()
      modifies this, store
      ensures Valid()
      ensures queuedFiles == old(queuedFiles) && Enqueued() == old(Enqueued())
      ensures old(current).None? && old(classificationQueue) == [] ==>
        && used == 0 && current == None && classificationQueue == []
        && store.files == old(store.files) && resolved == old(resolved)
      ensures old(current).Some? || old(classificationQueue) != [] ==>
        var path := if old(current).Some? then old(current).value else old(classificationQueue)[0];
        && classificationQueue == (if old(current).Some? then old(classificationQueue) else old(classificationQueue)[1..])
        && match FirstAccepted(inputs)
           case None =>
             used == |inputs| && current == Some(path) && store.files == old(store.files) && resolved == old(resolved)
           case Some(k) =>
             && used == k + 1 && current == None && resolved == old(resolved) + [path]
             && store.files == (if storageFails then old(store.files)
                                else UpsertClassification(old(store.files), path, Decision(inputs).value, now))
             && (!storageFails ==>
                   store.files[path] == old(store.files)[path].(classification := Decision(inputs).value, classifiedAt := Some(now)))
    {
      if current.None? {
        if classificationQueue == [] {
          return 0;
        }
        Receive();
      }
      used := Classify(inputs, now, storageFails);
    }
  }

  /** Every path the classifier holds or waits on already has its row, so the
      classification write always takes the update branch of the upsert. */
  lemma QueuedHaveRows(p: Pipeline)
    requires p.Valid()
    ensures p.current.Some? ==> p.current.value in p.store.files
    ensures forall x :: x in p.classificationQueue ==> x in p.store.files
  {
    assert p.Enqueued() == p.resolved + (p.InFlight() + p.classificationQueue);
  }

  /** Every path that finishes, finishes once: at most one classification write per path. */
  lemma ResolvedAtMostOnce(p: Pipeline)
    requires p.Valid()
    ensures NoDup(p.resolved)
  {
    assert p.Enqueued() == p.resolved + (p.InFlight() + p.classificationQueue);
    NoDupPrefix(p.resolved, p.InFlight() + p.classificationQueue);
  }

  /**
   * One watcher pass from the start state over a root holding a hidden
   * `.cache/b.txt` and `a.txt`: only `/root/a.txt` is recorded and queued.
   */
  method DiscoverExample(t1: Time, t2: Time) returns (p: Pipeline)
    ensures fresh(p) && fresh(p.store) && p.Valid()
    ensures p.current == None && p.classificationQueue == ["/root/a.txt"]
    ensures p.store.files == map["/root/a.txt" := FileRecord(Unclassified, None, Some(t1))]
  {
    var db := new Store(false, map[]);
    var err := db.EnsureSchema(false);
    p := new Pipeline(db);
    var a := Entry("a.txt", false, false, t1, []);
    var b := Entry("b.txt", false, false, t2, []);
    var cache := Entry(".cache", true, false, t2, [b]);
    var root := Entry("root", true, false, t2, [cache, a]);
    HiddenDirectoryExample(t1, t2);
    var found := Eligible(root, "/root");
    assert Succeeded(found, {}) == found;
    assert Paths(found) == ["/root/a.txt"];
    assert Fresh(["/root/a.txt"], {}) == ["/root/a.txt"];
    err := p.WatchPass(root, "/root", {});
  }

  /**
   * The pass of `DiscoverExample` followed by one classifier step: after an
   * unreadable line and an out-of-range number the third input classifies
   * `/root/a.txt`.  Its row then holds both the classification and the
   * modification time, and nothing is left on the channel.
   */
  method DiscoverAndClassify(t1: Time, t2: Time, now: Time) returns (used: nat, row: FileRecord, left: seq<string>)
    ensures used == 3
    ensures row == FileRecord(ArchiveAfter60d, Some(now), Some(t1))
    ensures left == []
  {
    var p := DiscoverExample(t1, t2);
    var inputs := [None, Some(7), Some(ArchiveAfter60d)];
    assert !Accepted(inputs[0]) && !Accepted(inputs[1]) && Accepted(inputs[2]);
    assert FirstAccepted(inputs) == Some(2);
    used := p.ClassifyNext(inputs, now, false);
    row := p.store.files["/root/a.txt"];
    left := p.classificationQueue;
  }

  /**
   * A restart: the database kept from an earlier run already holds
   * `/root/a.txt` as classified 2, but `queuedFiles` starts empty and the
   * watcher never reads the stored classification, so the first pass queues
   * the path again and the next answer, 1, overwrites the old one.
   */
  method RestartAsksAgain(t1: Time, earlier: Time, now: Time) returns (asked: seq<string>, row: FileRecord)
    ensures asked == ["/root/a.txt"]
    ensures row == FileRecord(NeverArchive, Some(now), Some(t1))
  {
    var p := RestartPass(t1, earlier);
    asked := p.classificationQueue;
    var inputs := [Some(NeverArchive)];
    assert FirstAccepted(inputs) == Some(0);
    var used := p.ClassifyNext(inputs, now, false);
    row := p.store.files["/root/a.txt"];
  }

  /** The first pass of `RestartAsksAgain`, over the kept database. */
  method RestartPass(t1: Time, earlier: Time) returns (p: Pipeline)
    ensures fresh(p) && fresh(p.store) && p.Valid()
    ensures p.current == None && p.classificationQueue == ["/root/a.txt"]
    ensures p.store.files == map["/root/a.txt" := FileRecord(ArchiveAfter60d, Some(earlier), Some(t1))]
  {
    var db := new Store(true, map["/root/a.txt" := FileRecord(ArchiveAfter60d, Some(earlier), Some(t1))]);
    p := new Pipeline(db);
    var a := Entry("a.txt", false, false, t1, []);
    var root := Entry("root", true, false, t1, [a]);
    assert [a][..0] == [];
    assert Join("/root", "a.txt") == "/root/a.txt";
    assert EligibleIn([a], "/root") == [Candidate("/root/a.txt", a)];
    var found := Eligible(root, "/root");
    assert Succeeded(found, {}) == found;
    assert Paths(found) == ["/root/a.txt"];
    assert Fresh(["/root/a.txt"], {}) == ["/root/a.txt"];
    var err := p.WatchPass(root, "/root", {});
  }

  /**
   * `DiscoverAndClassify` followed by a second watcher pass that finds
   * `/root/a.txt` modified at `t3`: the path is already in `queuedFiles`, so
   * nothing is asked again, and the upsert refreshes only the row's
   * modification time, keeping the classification and its time.
   */
  method SecondPassKeepsClassification(t1: Time, t2: Time, t3: Time, now: Time) returns (asked: seq<string>, row: FileRecord)
    ensures asked == []
    ensures row == FileRecord(ArchiveAfter60d, Some(now), Some(t3))
  {
    var p := ClassifiedExample(t1, t2, now);
    var a := Entry("a.txt", false, false, t3, []);
    var root := Entry("root", true, false, t3, [a]);
    assert [a][..0] == [];
    assert Join("/root", "a.txt") == "/root/a.txt";
    assert EligibleIn([a], "/root") == [Candidate("/root/a.txt", a)];
    var found := Eligible(root, "/root");
    assert Succeeded(found, {}) == found;
    assert Paths(found) == ["/root/a.txt"];
    assert Fresh(["/root/a.txt"], p.queuedFiles) == [];
    var err := p.WatchPass(root, "/root", {});
    asked := p.classificationQueue;
    row := p.store.files["/root/a.txt"];
  }

  /** The state `DiscoverAndClassify` leaves when the first input is accepted. */
  method ClassifiedExample(t1: Time, t2: Time, now: Time) returns (p: Pipeline)
    ensures fresh(p) && fresh(p.store) && p.Valid()
    ensures p.classificationQueue == [] && "/root/a.txt" in p.queuedFiles
    ensures p.store.files == map["/root/a.txt" := FileRecord(ArchiveAfter60d, Some(now), Some(t1))]
  {
    p := DiscoverExample(t1, t2);
    var inputs := [Some(ArchiveAfter60d)];
    assert FirstAccepted(inputs) == Some(0);
    p.Receive();
    var used := p.Classify(inputs, now, false);
    assert "/root/a.txt" in p.Enqueued();
  }
}
