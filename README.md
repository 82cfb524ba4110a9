# Stillwater: a verified model of the Downloads classifier

Stillwater watches the user's Downloads folder and asks the user to choose a
lifecycle policy for every file it finds, once per run of the program. There are three policies: never archive,
archive after 60 days, and delete after 60 days. The core is `main.go`, which
has four parts:

- a SQLite `files` table keyed by path, written by two upserts. One records
  that a file was seen with its modification time. The other records the
  user's classification with the time it was made;
- `scanDownloads`, a `filepath.Walk` that skips hidden entries, prunes hidden
  directories, ignores directories and per-entry errors, upserts every other
  entry and stops at the first insert error;
- `watcherLoop`, which re-scans and pushes onto a buffered channel of
  capacity 100 each scanned path not yet in the `queuedFiles` map;
- `classifierLoop`, which takes a path off the channel and reads input lines
  until one parses to 1, 2 or 3, then writes that classification.

The model consists of five modules:

- `Wrappers`: the `Option` type.
- `Classification`: the policy constants and `isValidClassification`.
- `PathStore`: each row is a `FileRecord`, and the table is a
  `map<string, FileRecord>`.
  - The two SQL statements are specified by the pure functions `UpsertSeen`
    and `UpsertClassification`.
  - The database is the class `Store`. Its methods `EnsureSchema`,
    `InsertUnclassified` and `UpdateClassification` update its fields in place.
- `Scanner`: the walked tree is an `Entry` datatype.
  - The pure function `Eligible` gives the entries the callback hands to the
    insert.
  - `Succeeded` cuts that list at the first failing insert.
  - The methods `WalkEntry`, `WalkChildren` and `Scan` perform the walk
    against a `Store` and are proved equal to those functions.
- `Pipeline`: the `queuedFiles` set and the channel (a `seq`) are fields of
  the class `Pipeline`.
  - One pass of each loop is a method: `WatchPass` (with its inner loop
    `Dispatch`) and `ClassifyNext` (with `Receive` and its inner loop
    `Classify`).
  - The ghost history `Enqueued()` is every path ever pushed onto the channel.
    The class invariant keeps it free of duplicates and equal, as a set, to
    `queuedFiles`, and keeps `queuedFiles` within the table's keys: a path is
    queued only after its insert succeeded, and rows are never removed.

## Model

| member | source | states |
|---|---|---|
| Classification.IsValidClassification | main.go:36-43 | holds exactly for the three policy values 1, 2 and 3 |
| Classification.ValidityExamples | main_test.go:25-44 | 1, 2 and 3 are valid; 0, 4 and -1 are not |
| PathStore.UpsertSeen | main.go:63-72 | the path gets the new `last_modified`. A new path is inserted with classification 0 and no classification time. An existing path keeps its classification and its classification time. Every other row is unchanged |
| PathStore.UpsertClassification | main.go:74-86 | the path gets the classification and `Some(now)`. A new path has no `last_modified`. An existing path keeps its `last_modified`. Every other row is unchanged |
| PathStore.UpsertSeenKeepsClassifications | main.go:67-68 | discovery changes no row's classification or classification time |
| PathStore.UpsertClassificationKeepsLastModified | main.go:78-80 | a classification write changes no row's `last_modified` |
| PathStore.UpsertsKeepConsistent | main.go:63-86 | both upserts keep the row invariant: a classified row has a classification time |
| PathStore.OnlyClassificationClassifies | main.go:63-69 | discovery of a new or still unclassified path leaves it at 0 |
| PathStore.ClassificationLastWriteWins | main.go:77-80 | two classification writes to one path equal the second one alone |
| PathStore.SeenLastWriteWins | main.go:66-68 | two discoveries of one path equal the second one alone |
| PathStore.UpsertsCommute | main.go:63-86 | discovery and classification commute for any two paths, including the same path, because they write disjoint columns |
| PathStore.Store.constructor | main.go:172-176 | the opened database is the one on disk: either a new file with no table and no rows, or a file from an earlier run with its table and saved rows (rows that satisfy the row invariant) |
| PathStore.Store.EnsureSchema | main.go:50-61 | creates the table only if it is missing and keeps existing rows. A storage fault returns an error and changes nothing |
| PathStore.Store.InsertUnclassified | main.go:63-72 | the table becomes `UpsertSeen` of the old table. A missing table or a storage fault returns an error and changes nothing |
| PathStore.Store.UpdateClassification | main.go:74-86 | the table becomes `UpsertClassification` of the old table. A missing table or a storage fault returns an error and changes nothing |
| PathStore.InsertThenUpdate | main_test.go:46-81 | after the schema step, insert, then update to 2: the path first reads 0, then reads `(2, now, modTime)` |
| Scanner.Join | main.go:94 | the path the walk hands the callback for a child: the directory, one `/`, then the child's name |
| Scanner.JoinInjective | main.go:94 | two names in one directory that give the same path are the same name, so distinct entries get distinct paths |
| Scanner.IsHidden | main.go:100-101 | `strings.HasPrefix(name, ".")`: holds exactly when the name's first character is a dot |
| Scanner.Eligible | main.go:94-110 | the callback's filter on one entry, as a definition: an entry with an error or a hidden name gives nothing (and a hidden directory's subtree is never entered); a non-directory entry (as `Lstat` reports it) gives itself; a directory gives its entries' candidates. Its properties are in the lemmas below |
| Scanner.EligibleIn | main.go:94-110 | the candidates of a directory's entries, concatenated in visit order, each at `Join(dir, name)` |
| Scanner.Succeeded | main.go:111-116 | the longest prefix with no failing insert. It is the whole list exactly when no insert fails; otherwise the next candidate's insert fails |
| Scanner.InsertAllKeepsClassifications | main.go:94-116 | a whole scan keeps every existing row (the table only grows) and never changes its classification or classification time |
| Scanner.AbortsMeansFaulty | main.go:111-116 | the walk errors exactly when some candidate's insert fails |
| Scanner.SucceededNotFaulty | main.go:111-114 | every collected candidate's insert succeeded |
| Scanner.WalkEntry | main.go:94-116 | the collected paths are the paths of `Succeeded(Eligible(e))`. The table is the in-order fold of their upserts. The error is returned exactly when an insert fails |
| Scanner.WalkChildren | main.go:94-116 | the same for the entries of one directory, in visit order, stopping at the first failing child |
| Scanner.Scan | main.go:87-119 | `scanDownloads`: the collected paths, the table and the error as for `WalkEntry` on the root. The partial list is returned together with the error |
| Scanner.EligibleAreVisibleFiles | main.go:95-110 | every entry handed to the insert is non-hidden, not a directory, and reported without error |
| Scanner.EligibleInAreVisibleFiles | main.go:95-110 | the same for a directory's entries |
| Scanner.PruneKeepsEligible | main.go:95-104 | removing the contents of hidden directories and of unreadable entries does not change what is inserted |
| Scanner.PruneAllKeepsEligible | main.go:95-104 | the same for a directory's entries |
| Scanner.HiddenContentsIrrelevant | main.go:101-104 | trees that differ only inside hidden directories or unreadable entries insert the same paths in the same order |
| Scanner.ChildEligibleIncluded | main.go:108-110 | the walk descends into every visible directory: a child's candidates are the directory's candidates |
| Scanner.VisibleFileEligible | main.go:108-114 | a visible non-directory entry (as `Lstat` reports it) is handed to the insert under its own path |
| Scanner.HiddenDirectoryExample | main.go:99-114 | a root holding `.cache/b.txt` and `a.txt`, in lexical order, inserts only `/root/a.txt`, as `(0, none, modTime)` |
| Pipeline.EnqueueKeepsHistory | main.go:129-131 | marking and pushing an unmarked path keeps the history free of duplicates and equal to the marked set |
| Pipeline.InsertAllKeys | main.go:94-116 | the table after a whole scan has exactly the old keys plus the scanned paths |
| Pipeline.Fresh | main.go:128-133 | the paths one dispatch pass pushes, in order: each path of `files` the first time it is met unmarked. No more paths than `files` has; its other properties are in `FreshMeans` |
| Pipeline.FreshMeans | main.go:128-133 | a pass pushes no path twice and none already marked. Every path it meets was marked before or is pushed by it |
| Pipeline.DispatchKeepsHistory | main.go:128-133 | a whole pass keeps the history free of duplicates. The marked set grows by exactly the pass's paths and equals the set of the new history |
| Pipeline.EnqueuedAtMostOnce | main.go:121-136 | any number of passes push each path at most once, and never one already marked |
| Pipeline.Accepted | main.go:146-148 | `err == nil && isValidClassification(castInput)`: the line parsed, and to 1, 2 or 3 |
| Pipeline.FirstAccepted | main.go:141-156 | the index of the first input that parses to a valid classification, with every earlier one rejected. `None` exactly when every input is rejected |
| Pipeline.Decision | main.go:146-150 | the classification written is the value of an input that is accepted with every earlier input rejected; it is valid and not 0. `None` exactly when every input is rejected |
| Pipeline.DecisionClassifies | main.go:148-150 | writing the decision leaves the row classified: a policy value other than 0, `classified_at` set to the time of the write, `last_modified` kept |
| Pipeline.Pipeline.constructor | main.go:16-19 | empty `queuedFiles`, an empty channel and nothing in hand, over a store that has the table |
| Pipeline.Pipeline.Offer | main.go:129-132 | an unmarked path is marked and pushed. A marked path changes nothing |
| Pipeline.Pipeline.Dispatch | main.go:128-133 | the channel grows by `Fresh(files, queuedFiles)` and `queuedFiles` grows by every path of `files` |
| Pipeline.Pipeline.WatchPass | main.go:122-134 | scan, then dispatch even a partial list. Keeps the pipeline invariant. The channel, `queuedFiles`, the table and the error are as follows from `Scan` and `Dispatch`. Requires the pass to fit into the channel's free room |
| Pipeline.Pipeline.Receive | main.go:140 | the head of the channel becomes the path in hand, and the history is unchanged |
| Pipeline.Pipeline.Classify | main.go:141-156 | consumes inputs up to and including the first accepted one, then writes `Decision(inputs)` (or not, if storage fails) and finishes the path. With no accepted input it consumes all inputs and keeps the path in hand |
| Pipeline.Pipeline.ClassifyNext | main.go:140-156 | idle on an empty channel with nothing in hand. Otherwise receives if needed and classifies. An accepted write updates the path's existing row, setting only its classification and classification time. Keeps the pipeline invariant and never changes `queuedFiles` |
| Pipeline.ResolvedAtMostOnce | main.go:128-150 | under the pipeline invariant, each path is finished, and so classified, at most once |
| Pipeline.QueuedHaveRows | main.go:111-133 | under the pipeline invariant, the path in hand and every path on the channel already has its row, so the classification write updates an existing row |
| Pipeline.DiscoverExample | main.go:121-134 | from the start state, one pass over `.cache/b.txt` and `a.txt` records and queues only `/root/a.txt` |
| Pipeline.DiscoverAndClassify | main.go:138-156 | after that pass and the inputs (unreadable, 7, 2), three inputs are used. The row is `(2, now, modTime)` and the channel is empty |
| Pipeline.RestartAsksAgain | main.go:121-156 | over a kept database in which `/root/a.txt` is already classified 2, a fresh pipeline queues the path again on its first pass, and the answer 1 overwrites the stored classification: the row becomes `(1, now, modTime)` |
| Pipeline.SecondPassKeepsClassification | main.go:63-134 | after `/root/a.txt` is discovered and classified 2, a second pass that sees it modified at a new time queues nothing; the row becomes `(2, now, newTime)`, keeping the classification and its time |

## Left out

- SQLite itself, the `id` column, SQL text and connection handling: the table is a map keyed by path.
- Storage failures are parameters: `ioFails`, `storageFails`, and the set `faulty` of paths whose insert fails.
- File-system access is the `Entry` tree. The tree fixes the visit order: `filepath.Walk` visits a directory's names in lexical order, and the model takes the children in the order given without checking that they are sorted. An entry with `hasError` stands for both a failed `Lstat` and an unreadable directory, since the walk treats them alike. `Join` does no path cleaning.
- Standard input, `strings.TrimSpace` and `strconv.Atoi` are replaced by a sequence of already-parsed inputs (`Option<int>`; `None` for a line that does not parse). Console output is not modelled.
- `time.Now` and `info.ModTime` are parameters of type `Time` (an integer). `time.Sleep` between passes is not modelled.
- The two goroutines are flattened into alternating steps on one object. A classifier blocked on an empty channel is a step that changes nothing. Waiting for input is a step that consumes every input and keeps the path in hand.
- `main`, `getDBPath`, `os.MkdirAll`, `os.UserHomeDir` and the panics on start-up are not modelled. The scanned root is a parameter.
- Pipeline.Pipeline.WatchPass: a pass must fit into the channel's free room (capacity 100). A pass that would block on a full channel, such as a first run over more than 100 new files, is not modelled.
- Pipeline.Pipeline.Dispatch: the blocking send on a full channel is not modelled. A pass requires room on the channel for every path it pushes (capacity 100).
- Pipeline.Pipeline.Classify: follows the code, which ignores the error of `updateClassificationInDB`. The path counts as finished whether or not the write succeeded.
- Pipeline.Pipeline.ClassifyNext: the code never removes a path from `queuedFiles`, although one might expect a classified path to leave it. So a path is pushed at most once for the life of the process (`EnqueuedAtMostOnce`, `ResolvedAtMostOnce`).
- Restart behaviour follows the code: `queuedFiles` starts empty on every run and the stored classification is never read before a path is queued. A restart therefore asks again about every visible file already classified in an earlier run, and the new answer overwrites the old classification (`RestartAsksAgain`).
- Pipeline.Pipeline.Classify: the error of `reader.ReadString` is ignored, so once input ends every read yields an empty line and the classifier rejects it forever on the same path. The model captures the resulting state: it consumes every input and keeps the path in hand.
