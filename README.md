# gatecam catalogue sync and face identification, in Dafny

gatecam is a door camera. It keeps a local catalogue of reference photos,
`<base>/catalogue/<name>/<index>.jpg`, and mirrors it into a remote face
collection. Each photo is indexed under the external id `<name>_<index>`.
When a camera frame holds faces, each cropped face is searched in that
collection. A crop that matches nothing is saved as a guest photo. A crop
that matches is reported as the candidate its sorted results put first.

This project models the core of that behaviour and proves what it does:

- **Face keys** (`face_keys.dfy`): the `FaceKey` record, its `"%s_%s"`
  external-id form, and `ParseFaceKey`, which splits at the first `_` with
  `strings.SplitN(s, "_", 2)`.
- **Catalogue pattern** (`catalogue_pattern.dfy`): the unanchored regular
  expression `/catalogue/([\w]+)/([-\w]+)\.jpg` and the key that its leftmost
  match captures. A visited path yields a key only through this match.
- **Paths** (`paths.dfy`, `decimal.dfy`): `filepath.Join` over plain segments,
  its inverse, and the `%d` formatting used in guest file names.
- **Local store** (`local_store.dfy`):
  - the guest, catalogue and image paths;
  - `SaveGuest`'s file name;
  - `ReadImage` over a file system given as a map;
  - the `LocalStore` class with its `lastSync` field and `sync`. `sync` folds
    the walk into `lastMod` and the key list, then calls the callback or
    short-circuits.
- **Reconciliation** (`reconcile.dfy`): the sync callback of `watch`. It
  reads the registered `(name, index)` pairs from the listed faces, finds the
  local keys not registered (`newkeys`), and pushes one IndexFaces request
  per readable photo.
- **Identification** (`identify.dfy`):
  - `identify`'s filtering of search hits;
  - `bySimilarity`'s `Less` and `Swap`;
  - the sort, as Go's insertion sort over an array;
  - the choice between saving a guest, reporting a candidate and doing
    nothing.
- **Watch** (`watch.dfy`): one pass of the store's watch with the
  reconciling callback plugged in.

Times are integers: Go's zero `time.Time` is `0`, and `t.After(u)` is
`t > u`. The walk is a sequence of visited paths with their modification
times. Remote calls and `store.ReadImage` appear as function parameters.

Four things the proofs show about the code as written:

- `lastMod` starts at the zero time and is lowered by each earlier time.
  On ordinary files it never leaves zero (`LastModOfOrdinaryFiles`), so the
  "no updates" short-circuit never fires (`ShortCircuitNeverFires`,
  `UnchangedCatalogueListedTwice`). Every pass lists the remote collection.
  The evidently intended pass keeps the latest time and skips when that time
  is not after `lastSync` (`LocalStore.SyncIntended`). With it, a pass after a
  successful one makes no callback (`UnchangedCatalogueSkipped`). Turning the
  comparison around alone is not enough, because the guard's `After` is
  strict: such a pass (`LocalStore.SyncHalfFixed`) still calls the callback
  on every pass over an unchanged catalogue (`HalfFixedResyncsUnchanged`).
  See Findings.
- A catalogue name containing `_` never round-trips through its external id
  (`ParseFormatRoundTrip`, `UnderscoreNameDoesNotRoundTrip`). Such a key is
  never seen as registered, so every pass pushes it again
  (`UnderscoreNameAlwaysMissing`). For `_`-free names, a pass whose pushes
  succeed leaves nothing missing for the next one (`SecondPassPushesNothing`).
  That assumes the next listing returns the whole collection, which a single
  ListFaces call does only when it fits in one page.
- `sort.Sort(bySimilarity(results))` orders results by ascending similarity.
  The candidate reported, `results[0]`, is therefore the least similar one
  (see Findings).
- The watch goroutine runs `sync` once and then sleeps; it has no loop. The
  passes proved about here are what each call of `sync` does.

## Model

| member | source | states |
|---|---|---|
| FaceKeys.Format | main.go:289 | The external id is the name, then one `_` at position `|name|`, then the index: its text before the `_` is the name and its text after it is the index. |
| FaceKeys.SplitN2 | main.go:225 | One part (the string itself) exactly when there is no `_`. Otherwise two parts: the `_`-free text before the first `_`, and the rest. The two rejoin with `_` to the input. |
| FaceKeys.ParseFaceKey | main.go:224-230 | Fails exactly when the id has no `_`, with the zero key and "Invalid face key syntax". On success the name has no `_` and formatting the key gives the id back. |
| FaceKeys.ParseFormatRoundTrip | main.go:224-230 | Parsing a formatted key gives the key back, with no error, if and only if its name has no `_`. |
| FaceKeys.UnderscoreNameDoesNotRoundTrip | main.go:224-230 | The key `("a_b", "1")` is written `a_b_1` and read back as `("a", "b_1")`. |
| CataloguePattern.RunLength | local_store.go:13 | The run of class characters at `i` stays in the string, holds only class characters, and is followed by the end or by a character outside the class: the longest run. |
| CataloguePattern.MatchAt | local_store.go:13 | Definition, without a contract of its own: the key read off the text at `p` when the prefix, the longest `\w` run, `/`, the longest `[-\w]` run and `.jpg` follow one another there, and nothing otherwise. `MatchAtSound` and `MatchAtComplete` state what it means. |
| CataloguePattern.MatchAtSound | local_store.go:13 | A match found at `p` has the prefix, a `\w` run, `/`, a `[-\w]` run and `.jpg` there, one after the other. |
| CataloguePattern.MatchAtComplete | local_store.go:13 | The pattern occurs at `p` with groups `k` if and only if the matcher returns `k` at `p`. At most one group pair matches at each start. |
| CataloguePattern.MatchStartsWithSlash | local_store.go:13 | A match can only start at a `/`. |
| CataloguePattern.FirstFrom | local_store.go:76 | The leftmost start at or after `p` that holds a match, with no match before it. Or none, when no start holds one. |
| CataloguePattern.FirstFromFirst | local_store.go:76 | When `p` is the first start that holds a match, the search returns that match. |
| CataloguePattern.CatalogueKeyIsLeftmostMatch | local_store.go:76-81 | A path yields the groups of the pattern's leftmost occurrence. It yields nothing exactly when the pattern occurs nowhere. |
| CataloguePattern.CatalogueKey | local_store.go:76-77 | Definition, without a contract of its own: the key at the first start position, scanning from the left, where `MatchAt` finds one, and nothing when there is none. `CatalogueKeyIsLeftmostMatch` and `CatalogueKeyShape` state what it means. |
| CataloguePattern.CatalogueKeyShape | local_store.go:76-81 | A key taken from a path has a non-empty `\w` name and a non-empty `[-\w]` index. |
| Strings.FirstIndex | main.go:225 | The position of the first occurrence of the character, or the length when there is none. |
| Paths.SplitJoin | local_store.go:44 | Splitting a path joined from plain segments at its slashes gives the segments back. |
| Paths.Join | local_store.go:44 | `filepath.Join` of clean segments is never empty. Its inverse is `SplitPath` (`SplitJoin`) and it composes over concatenation (`JoinAppend`). |
| Paths.JoinAppend | local_store.go:39 | Joining a directory built by `Join` with further segments is one `Join` of all the segments. |
| Decimal.FormatIntRoundTrip | local_store.go:39 | What `%d` writes reads back as the same integer, negatives included. |
| Decimal.FormatInt | local_store.go:39 | `%d` writes a non-empty text that starts with `-` exactly for a negative number, and is digits after that sign. |
| Decimal.FormatIntInjective | local_store.go:39 | Different integers are written differently. |
| LocalStores.LastMod | local_store.go:70-74 | The walk's `lastMod` is at most the zero time and at most every visited time. It is the zero time or one of the visited times. |
| LocalStores.LastModOfOrdinaryFiles | local_store.go:70-74 | A walk over files whose times are at or after the zero time leaves `lastMod` at the zero time. |
| LocalStores.After | local_store.go:87 | Definition, without a contract of its own: `time.Time.After`, one time strictly later than the other (also used at line 72). |
| LocalStores.CatalogueKeys | local_store.go:76-81 | No more keys than visited paths, and each key is one the pattern's groups can capture. |
| LocalStores.PathKeys | local_store.go:76-81 | One visited path adds at most one key, and only a capturable one. |
| LocalStores.CatalogueKeysAppend | local_store.go:71-83 | The keys of a walk are the keys of its first part followed by those of the rest. |
| LocalStores.Walk | local_store.go:69-83 | The walk closure's loop leaves exactly the walk's keys, in order, and its `lastMod`. |
| LocalStores.ImagePathLayout | local_store.go:43-45 | The image of a key is `<index>.jpg` in the key's directory under the catalogue directory. Splitting the path gives the base, `catalogue`, the name and the file name back. |
| LocalStores.GuestDir | local_store.go:20-22 | The guest directory is the base directory followed by `/guests`. |
| LocalStores.CatalogueDir | local_store.go:24-26 | The catalogue directory is the base directory followed by `/catalogue`. |
| LocalStores.ImagePath | local_store.go:44 | Definition, without a contract of its own: the four segments base, `catalogue`, name and `<index>.jpg`, joined. `ImagePathLayout` and `ImagePathText` state its shape. |
| LocalStores.ImagePathText | local_store.go:43-45 | An image path is the base directory followed by the text the catalogue pattern matches for the key. |
| LocalStores.ImagePathCatalogueKey | local_store.go:43-45 | The catalogue pattern maps the path `ReadImage` reads for a capturable key back to that key. |
| LocalStores.ReadImage | local_store.go:43-46 | Succeeds exactly when a file exists at the key's image path, with that file's contents. |
| LocalStores.Reader | local_store.go:43-46 | The reader the callback gets agrees with `ReadImage` on every key made of plain segments. |
| LocalStores.GuestPath | local_store.go:39 | A guest crop goes in the guest directory under `<stamp>-<idx>.jpg`. |
| LocalStores.GuestFileName | local_store.go:39 | Definition, without a contract of its own: `<stamp>-<idx>.jpg`. `GuestPathInjective` states that distinct stamps or indices give distinct names. |
| LocalStores.GuestPathInjective | local_store.go:39 | With equally wide stamps, two crops share a file only if their stamp and in-frame index are both equal. |
| LocalStores.SaveGuest | local_store.go:38-41 | Afterwards the guest path holds the image. No other path appears or changes. |
| LocalStores.LocalStore.constructor | main.go:57 | A new store has the given base directory and the zero `lastSync`. |
| LocalStores.LocalStore.Sync | local_store.go:68-98 | Three cases. A walk error is returned, with no callback and `lastSync` unchanged. If `lastSync` is after `lastMod`, nothing happens. Otherwise the callback gets the walk's keys, its error is returned, and `lastSync` becomes `lastMod` only when it succeeded. |
| LocalStores.ShortCircuitNeverFires | local_store.go:87-90 | On a catalogue of ordinary files, a store whose `lastSync` is not after the zero time never short-circuits. |
| LocalStores.LastMax | local_store.go:72-73 | The intended `lastMod` is at least the zero time and at least every visited time. It is the zero time or one of the visited times. |
| LocalStores.WalkIntended | local_store.go:69-83 | The walk loop with the comparison turned around leaves exactly the walk's keys and its latest time. |
| LocalStores.LocalStore.SyncIntended | local_store.go:68-98 | The intended pass. A walk error is returned. If the latest time is not after `lastSync`, nothing happens. Otherwise the callback gets the walk's keys, and `lastSync` becomes the latest time only when the callback succeeded. |
| LocalStores.UnchangedCatalogueSkipped | local_store.go:87-90 | With the intended pass, a pass that follows a successful one over the same catalogue makes no callback. |
| LocalStores.LocalStore.SyncHalfFixed | local_store.go:68-98 | The pass with only the scan at lines 72-73 turned around. A walk error is returned. If `lastSync` is after the latest time, nothing happens. Otherwise the callback gets the walk's keys, and `lastSync` becomes the latest time only when the callback succeeded. |
| LocalStores.HalfFixedResyncsUnchanged | local_store.go:87-96 | With only the scan fixed, two successful passes over an unchanged catalogue both call the callback with the same keys: the strict guard at line 87 does not fire once `lastSync` holds the latest time. |
| Reconcile.RegisteredEntry | main.go:256-266 | A listed face contributes one pair exactly when its id is present and holds `_`. The pair's name has no `_`, and the pair rejoins to the id. |
| Reconcile.Registered | main.go:255-267 | `registered` has at most one pair per listed face. `RegisteredMembers` states which pairs. |
| Reconcile.FilterRegistered | main.go:255-267 | The loop builds exactly the registered pairs of the listed faces, in listing order. |
| Reconcile.RegisteredAppend | main.go:255-267 | The pairs of two listings are those of the first followed by those of the second. |
| Reconcile.RegisteredMembers | main.go:255-267 | A pair is registered if and only if some listed face's id splits into it. |
| Reconcile.RegisteredNamesPlain | main.go:260 | No registered name holds `_`. |
| Reconcile.FindRegistered | main.go:272-276 | The inner scan reports a key found if and only if its `(Name, Index)` is a registered pair. |
| Reconcile.IsRegistered | main.go:273 | Definition, without a contract of its own: the key's `(Name, Index)` equals some registered pair. `FindRegistered` is proved to compute it. |
| Reconcile.Missing | main.go:269-279 | `newkeys` is no longer than `locals`, and none of its keys is registered. |
| Reconcile.NewKeys | main.go:269-279 | The loop builds exactly the unregistered local keys, in local order. |
| Reconcile.MissingAppend | main.go:269-279 | The diff of two local lists is the diff of the first followed by that of the second. |
| Reconcile.MissingMembers | main.go:269-279 | A key is in `newkeys` if and only if it is local and not registered. |
| Reconcile.MissingCount | main.go:269-279 | An unregistered key appears in `newkeys` as often as it appears locally. A registered key does not appear. |
| Reconcile.PushNewKeys | main.go:281-299 | The push loop sends exactly one request per key whose photo reads, in order, under the formatted key. |
| Reconcile.Requests | main.go:281-299 | At most one IndexFaces request per new key. |
| Reconcile.RequestsAppend | main.go:281-299 | The requests for two key lists are those of the first followed by those of the second. |
| Reconcile.ReadFailureSkipsOnlyThatKey | main.go:282-286 | A key whose photo cannot be read is skipped, and the requests for the other keys are unchanged. |
| Reconcile.RequestsOfReadableKeys | main.go:281-299 | When every photo reads, the `i`-th request is for the `i`-th key, with its formatted id and its bytes. |
| Reconcile.SyncCallback | main.go:243-301 | A ListFaces error is returned and nothing is pushed. Otherwise the callback succeeds, having pushed exactly the requests for the unregistered local keys. |
| Reconcile.IndexedFaces | main.go:287-294 | After the pushes succeed, the collection lists one face per request, under the request's external id. |
| Reconcile.UnderscoreNameAlwaysMissing | main.go:260-277 | A local key whose name holds `_` is missing whatever the collection lists. |
| Reconcile.IndexedKeysRegistered | main.go:281-299 | Once the pushes for readable `_`-free keys succeed, each of those keys is registered. |
| Reconcile.NothingMissing | main.go:269-279 | Nothing is missing when every local key is registered. |
| Reconcile.SecondPassPushesNothing | main.go:255-299 | With `_`-free names and readable photos, the pass after a successful push finds nothing missing. |
| Identify.Candidate | main.go:164-173 | A hit contributes a candidate exactly when its id is present and parses. The candidate keeps the hit's similarity, and its key formats back to the id. |
| Identify.Candidates | main.go:163-174 | `results` has at most one candidate per hit. |
| Identify.CollectCandidates | main.go:163-174 | The loop builds exactly the candidates of the hits, in search order. |
| Identify.CandidatesAppend | main.go:163-174 | The candidates of two hit lists are those of the first followed by those of the second. |
| Identify.CandidatesMembers | main.go:163-174 | A candidate is in `results` if and only if some hit produces it. |
| Identify.Less | main.go:211-213 | `Less(i, j)` never holds for `i == j`, and never for both `(i, j)` and `(j, i)`. |
| Identify.Swap | main.go:215-217 | Elements `i` and `j` trade places, and the multiset of elements is unchanged. |
| Identify.Sort | main.go:178 | Afterwards the array is in non-decreasing similarity and is a permutation of what it held. |
| Identify.Rank | main.go:178 | The sorted results are in non-decreasing similarity and hold the same candidates. |
| Identify.RankedEnds | main.go:178-179 | The first of the sorted results is the least similar candidate, and the last is the most similar. |
| Identify.Identify | main.go:148-181 | Four cases. A search error is returned. No hit saves a guest. Hits without usable ids do nothing. Otherwise a candidate with the least similarity is reported, with no error and no guest saved. |
| Identify.LeastSimilarIsReported | main.go:178-179 | For hits scored 80 and 95, the 80 is reported. |
| Identify.IdentifyMostSimilar | main.go:178-179 | The same cases, but the reported candidate has the greatest similarity. |
| Identify.MostSimilarIsReported | main.go:178-179 | With the correction, for hits scored 80 and 95, the 95 is reported. |
| Watch.WatchPass | main.go:241-307 | Three cases, from `sync`. A walk error is returned. A short-circuit does nothing. Otherwise ListFaces' outcome is returned, the unregistered readable keys are pushed, and `lastSync` advances only when listing succeeded. |
| Watch.UnchangedCatalogueListedTwice | local_store.go:87-90 | Two passes over an unchanged catalogue of ordinary files both list and reconcile the collection. |

## Left out

- The camera, face detection and cropping (gocv) are not modelled. `identify` starts from the SearchFacesByImage outcome.
- The bounding-box clamping in `capture` is not modelled. It is floating-point geometry.
- The AWS session, flags, environment settings and logging are not modelled. Log lines have no effect on state.
- Similarity is a `real`, not a `float64`. NaN and rounding are not modelled.
- `sort.Sort` is modelled as an insertion sort. Go 1.19 and later sort at most twelve elements by insertion sort and longer inputs by pattern-defeating quicksort; earlier releases run a gap-6 Shell pass before the insertion sort. Only the promise is modelled: a permutation in non-decreasing order. Which of equally similar candidates comes first is not determined.
- `Setup`, and the `os.Stat` check at the start of `Watch`, are not modelled. A missing catalogue directory ends `Watch` without a sync.
- The goroutine and the ten-second sleep in `Watch` are not modelled. `WatchPass` is one synchronous run of `sync` with the callback.
- `filepath.Walk` is modelled as a given sequence of visited paths, with times and an error at the end. Its lexical order and directory reads are not modelled.
- `LocalStores.LocalStore.Sync` and `Watch.WatchPass` keep a walk-error case that does not arise in the source. `filepath.Walk` returns what the closure returns, and the closure always returns nil. An unreadable directory reaches the closure with its own info and an error. The closure ignores the error, and the walk skips that directory's contents. In the model this is a shorter walk with `walkErr == Nil`. A root that vanished after `Watch`'s Stat check would reach the closure with nil info; that race is not modelled.
- `filepath.Join` is modelled for a base directory of one plain segment, and for keys made of plain segments. Its cleaning of `.`, `..` and repeated slashes is not modelled. `Reader` answers "not found" for any other key.
- Files are a map from path to bytes. `ioutil.ReadFile` errors other than a missing file are not modelled, nor are the error texts.
- `SaveGuest` write failures are not modelled, nor file permissions. `SaveGuest` takes the time stamp as a parameter instead of reading the clock.
- `WatchPass` runs the callback's pushes after `Sync` returns, not inside it. The pushes touch nothing `Sync` reads or writes, so the outcome is the same.
- The IndexFaces response, and the face id logged for a hit without an external id, are not modelled. `IndexedFaces` assumes each successful push adds exactly one listed face under its external id.
- `Reconcile.SecondPassPushesNothing` assumes that the next ListFaces returns the whole collection. The source makes a single ListFaces call and never follows its NextToken, so a collection larger than one page lists only its first page. The faces on later pages are then seen as missing and pushed again.

## Findings

| source | as written | input that shows it | evidently intended | confidence | as-written member | corrected member |
|---|---|---|---|---|---|---|
| local_store.go:72-87 | `lastMod.After(info.ModTime())` keeps the earliest time, starting from the zero time. So `lastMod` stays at zero, and `lastSync.After(lastMod)` never holds. | any catalogue of files with times after the zero time, synced twice without changes: both passes call the callback | keep the latest visited time, and skip the pass when it is not after `lastSync`. Turning the comparison around alone is not enough, because `After` at line 87 is strict. | medium, not executed | LocalStores.ShortCircuitNeverFires | LocalStores.LocalStore.SyncIntended |
| main.go:178-179 | `bySimilarity.Less` is `<`, so `sort.Sort` puts the least similar candidate first, and `results[0]` is logged as identified | hits `x_1` scored 80 and `y_1` scored 95: `x` is reported | report the most similar candidate, the last after the ascending sort (or sort by `>`) | medium, not executed | Identify.LeastSimilarIsReported | Identify.IdentifyMostSimilar |
