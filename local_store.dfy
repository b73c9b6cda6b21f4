/** The local catalogue store: where reference photos and guest crops live, and
    the catalogue scan that hands the current keys to a sync callback. */
module LocalStores {
  import opened Errors
  import opened FaceKeys
  import opened CataloguePattern
  import opened Paths
  import opened Decimal

  /** A modification time; `ZeroTime` is Go's zero `time.Time`, and the times of
      real files are at or after it. */
  type Time = int
  const ZeroTime: Time := 0

  /** `t.After(u)`. */
  predicate After(t: Time, u: Time) {
    t > u
  }

  /** One path the catalogue walk visits (files and directories alike). */
  datatype WalkEntry = WalkEntry(path: string, modTime: Time)

  /** The `lastMod` the walk leaves behind: starting from the zero time, it is
      replaced by a visited time only when it is after that time, so it is the
      least of the zero time and every visited time. */
  function LastMod(walk: seq<WalkEntry>): (t: Time)
    ensures t <= ZeroTime
    ensures forall i :: 0 <= i < |walk| ==> t <= walk[i].modTime
    ensures t == ZeroTime || exists i :: 0 <= i < |walk| && t == walk[i].modTime
  {
    if walk == [] then ZeroTime
    else
      var t := LastMod(walk[..|walk| - 1]);
      var e := walk[|walk| - 1];
      assert forall i :: 0 <= i < |walk| - 1 ==> walk[..|walk| - 1][i] == walk[i];
      if After(t, e.modTime) then e.modTime else t
  }

  /** The `lastMod` the walk closure evidently means to keep: replaced by a
      visited time whenever that time is after it, so the latest of the zero
      time and every visited time. */
  function LastMax(walk: seq<WalkEntry>): (t: Time)
    ensures t >= ZeroTime
    ensures forall i :: 0 <= i < |walk| ==> walk[i].modTime <= t
    ensures t == ZeroTime || exists i :: 0 <= i < |walk| && t == walk[i].modTime
  {
    if walk == [] then ZeroTime
    else
      var t := LastMax(walk[..|walk| - 1]);
      var e := walk[|walk| - 1];
      assert forall i :: 0 <= i < |walk| - 1 ==> walk[..|walk| - 1][i] == walk[i];
      if After(e.modTime, t) then e.modTime else t
  }

  /** The keys the walk collects: one per visited path that matches the
      catalogue pattern, in walk order. */
  function CatalogueKeys(walk: seq<WalkEntry>): (keys: seq<FaceKey>)
    ensures |keys| <= |walk|
    ensures forall i :: 0 <= i < |keys| ==> IsCatalogueKey(keys[i])
  {
    if walk == [] then []
    else CatalogueKeys(walk[..|walk| - 1]) + PathKeys(walk[|walk| - 1].path)
  }

  /** The key one visited path contributes: none, or the one its path matches. */
  function PathKeys(path: string): (keys: seq<FaceKey>)
    ensures |keys| <= 1
    ensures forall i :: 0 <= i < |keys| ==> IsCatalogueKey(keys[i])
  {
    match CatalogueKey(path)
    case Some(k) =>
      CatalogueKeyShape(path);
      [k]
    case None => []
  }

  /** One more visited path: how `lastMod` and the keys move. */
  lemma WalkStep(walk: seq<WalkEntry>, i: nat)
    requires i < |walk|
    ensures LastMod(walk[..i + 1]) ==
      if After(LastMod(walk[..i]), walk[i].modTime) then walk[i].modTime else LastMod(walk[..i])
    ensures LastMax(walk[..i + 1]) ==
      if After(walk[i].modTime, LastMax(walk[..i])) then walk[i].modTime else LastMax(walk[..i])
    ensures CatalogueKeys(walk[..i + 1]) == CatalogueKeys(walk[..i]) + PathKeys(walk[i].path)
  {
    assert walk[..i + 1][..i] == walk[..i];
  }

  /** A walk over ordinary files (times at or after the zero time) leaves
      `lastMod` at the zero time whatever the files' times are. */
  lemma LastModOfOrdinaryFiles(walk: seq<WalkEntry>)
    requires forall i :: 0 <= i < |walk| ==> walk[i].modTime >= ZeroTime
    ensures LastMod(walk) == ZeroTime
  {
  }

  /** The walk's keys split along the walk. */
  lemma {:induction false} CatalogueKeysAppend(a: seq<WalkEntry>, b: seq<WalkEntry>)
    ensures CatalogueKeys(a + b) == CatalogueKeys(a) + CatalogueKeys(b)
    decreases |b|
  {
    if b == [] {
      assert a + b == a;
    } else {
      assert (a + b)[..|a + b| - 1] == a + b[..|b| - 1];
      CatalogueKeysAppend(a, b[..|b| - 1]);
    }
  }

  /** `guestDir()`. */
  function GuestDir(baseDir: string): (d: string)
    requires IsSegment(baseDir)
    ensures d == baseDir + "/guests"
  {
    var parts := [baseDir, "guests"];
    assert parts[1..] == ["guests"] && Join(parts[1..]) == "guests";
    Join(parts)
  }

  /** `catalogueDir()`. */
  function CatalogueDir(baseDir: string): (d: string)
    requires IsSegment(baseDir)
    ensures d == baseDir + "/catalogue"
  {
    var parts := [baseDir, "catalogue"];
    assert parts[1..] == ["catalogue"] && Join(parts[1..]) == "catalogue";
    Join(parts)
  }

  /** Can a key be joined into a path as two plain segments? */
  predicate IsPathKey(k: FaceKey) {
    IsSegment(k.name) && IsSegment(k.index + ".jpg")
  }

  /** The file `ReadImage` reads: `Join(catalogueDir(), Name, Index + ".jpg")`. */
  function ImagePath(baseDir: string, k: FaceKey): string
    requires IsSegment(baseDir) && IsPathKey(k)
  {
    Join([baseDir, "catalogue", k.name, k.index + ".jpg"])
  }

  /** The image of a key is `<index>.jpg` in the key's own directory under the
      catalogue directory, and splitting its path gives those four parts back. */
  lemma ImagePathLayout(baseDir: string, k: FaceKey)
    requires IsSegment(baseDir) && IsPathKey(k)
    ensures ImagePath(baseDir, k) == CatalogueDir(baseDir) + ("/" + (k.name + ("/" + (k.index + ".jpg"))))
    ensures SplitPath(ImagePath(baseDir, k)) == [baseDir, "catalogue", k.name, k.index + ".jpg"]
  {
    var dir := [baseDir, "catalogue"];
    var file := [k.name, k.index + ".jpg"];
    assert dir + file == [baseDir, "catalogue", k.name, k.index + ".jpg"];
    JoinAppend(dir, file);
    SplitJoin(dir + file);
    assert file[1..] == [k.index + ".jpg"];
  }

  /** A key the pattern captures is made of plain segments. */
  lemma CatalogueKeyIsPathKey(k: FaceKey)
    requires IsCatalogueKey(k)
    ensures IsPathKey(k)
  {
    assert k.name[0] != '.' && k.index[0] != '.';
    assert '/' !in k.name && '/' !in k.index;
  }

  /** The catalogue directory's own name and the slash after it spell the
      pattern's prefix. */
  lemma CatalogueDirPrefix(x: string)
    ensures ("/" + "catalogue") + ("/" + x) == Prefix + x
  {
    assert ("/" + "catalogue") + "/" == Prefix;
  }

  /** The text of an image path: the base directory, then what the catalogue
      pattern matches. */
  lemma ImagePathText(baseDir: string, k: FaceKey)
    requires IsSegment(baseDir) && IsPathKey(k)
    ensures ImagePath(baseDir, k) == baseDir + Instance(k)
  {
    ImagePathLayout(baseDir, k);
    assert [baseDir, "catalogue"][1..] == ["catalogue"];
    assert Join(["catalogue"]) == "catalogue";
    assert CatalogueDir(baseDir) == baseDir + ("/" + "catalogue");
    CatalogueDirPrefix(k.name + ("/" + (k.index + ".jpg")));
  }

  /** The photo `ReadImage` reads for a catalogue key sits at a path the walk maps
      back to that same key, when the base directory is one plain segment. */
  lemma ImagePathCatalogueKey(baseDir: string, k: FaceKey)
    requires IsSegment(baseDir) && IsCatalogueKey(k)
    ensures IsPathKey(k) && CatalogueKey(ImagePath(baseDir, k)) == Some(k)
  {
    CatalogueKeyIsPathKey(k);
    var s := ImagePath(baseDir, k);
    var p := |baseDir|;
    ImagePathText(baseDir, k);
    HasAtTail(baseDir, Instance(k));
    MatchAtComplete(s, p, k);
    forall q | 0 <= q < p ensures MatchAt(s, q).None? {
      assert s[q] == baseDir[q];
      if MatchAt(s, q).Some? {
        MatchStartsWithSlash(s, q);
      }
    }
    FirstFromFirst(Starts(s), 0, p, k);
  }

  /** The error text `ReadFile` gives for a path with no file. */
  function NotFound(path: string): string {
    "open " + path + ": no such file or directory"
  }

  /** `ReadImage(key)` over a file system given as a map from path to contents. */
  function ReadImage(baseDir: string, files: map<string, Bytes>, k: FaceKey): (r: Result<Bytes>)
    requires IsSegment(baseDir) && IsPathKey(k)
    ensures r.Ok? <==> ImagePath(baseDir, k) in files
    ensures r.Ok? ==> r.value == files[ImagePath(baseDir, k)]
  {
    var path := ImagePath(baseDir, k);
    if path in files then Ok(files[path]) else Err(NotFound(path))
  }

  /** `store.ReadImage` as the sync callback sees it. Keys that are not plain
      segments never come out of the catalogue walk; they read as missing. */
  function Reader(baseDir: string, files: map<string, Bytes>): (read: FaceKey -> Result<Bytes>)
    requires IsSegment(baseDir)
    ensures forall k :: IsPathKey(k) ==> read(k) == ReadImage(baseDir, files, k)
  {
    k => if IsPathKey(k) then ReadImage(baseDir, files, k) else Err(NotFound(k.name))
  }

  /** The name of a guest crop: the capture time as laid out by
      "20060102-150405", a dash, the face's index in the frame, ".jpg". */
  function GuestFileName(stamp: string, idx: int): string {
    stamp + "-" + FormatInt(idx) + ".jpg"
  }

  /** The file `SaveGuest` writes. */
  function GuestPath(baseDir: string, stamp: string, idx: int): (p: string)
    requires IsSegment(baseDir) && '/' !in stamp
    ensures p == GuestDir(baseDir) + "/" + GuestFileName(stamp, idx)
  {
    var name := GuestFileName(stamp, idx);
    assert '/' !in name by {
      assert '/' !in FormatInt(idx);
    }
    assert IsSegment(name) by {
      assert name[|name| - 4] == '.' && |name| > 2;
    }
    JoinAppend([baseDir, "guests"], [name]);
    assert [baseDir, "guests"] + [name] == [baseDir, "guests", name];
    Join([baseDir, "guests", name])
  }

  /** Two crops stamped with equally wide times get the same file only when the
      stamp and the in-frame index are both the same: a crop never overwrites
      one taken at another second or of another face. */
  lemma GuestPathInjective(baseDir: string, s1: string, i1: int, s2: string, i2: int)
    requires IsSegment(baseDir) && '/' !in s1 && '/' !in s2 && |s1| == |s2|
    requires GuestPath(baseDir, s1, i1) == GuestPath(baseDir, s2, i2)
    ensures s1 == s2 && i1 == i2
  {
    var d := GuestDir(baseDir) + "/";
    var n1, n2 := GuestFileName(s1, i1), GuestFileName(s2, i2);
    assert n1 == (d + n1)[|d|..] == (d + n2)[|d|..] == n2;
    assert s1 == n1[..|s1|] == n2[..|s2|] == s2;
    var f1, f2 := FormatInt(i1), FormatInt(i2);
    assert f1 == n1[|s1| + 1..|n1| - 4];
    assert f2 == n2[|s2| + 1..|n2| - 4];
    FormatIntInjective(i1, i2);
  }

  /** `SaveGuest(img, idx)` at a time stamped `stamp`: the file system afterwards. */
  function SaveGuest(baseDir: string, files: map<string, Bytes>, stamp: string, img: Bytes, idx: int): (r: map<string, Bytes>)
    requires IsSegment(baseDir) && '/' !in stamp
    ensures r.Keys == files.Keys + {GuestPath(baseDir, stamp, idx)}
    ensures r[GuestPath(baseDir, stamp, idx)] == img
    ensures forall p :: p in files && p != GuestPath(baseDir, stamp, idx) ==> r[p] == files[p]
  {
    files[GuestPath(baseDir, stamp, idx):= img]
  }

  /** The store: a base directory and the time of the last successful sync. */
  class LocalStore {
    const baseDir: string
    var lastSync: Time

    /** `lastSync` starts at the zero time and only ever takes a `lastMod`,
        which is never after the zero time. */
    ghost predicate Valid()
      reads this
    {
      IsSegment(baseDir) && !After(lastSync, ZeroTime)
    }

    /** `&LocalStore{baseDir: baseDir}`. */
    constructor (baseDir: string)
      requires IsSegment(baseDir)
      ensures Valid() && this.baseDir == baseDir && lastSync == ZeroTime
    {
      this.baseDir := baseDir;
      lastSync := ZeroTime;
    }

    /** `sync(synccb)`. The walk visits `walk` in order and then reports
        `walkErr`; the callback's answer for given keys is `synccb(keys)`.
        `called` is the argument the callback was called with, if it was. */
    method Sync(walk: seq<WalkEntry>, walkErr: Error, synccb: seq<FaceKey> -> Error)
      returns (err: Error, called: Option<seq<FaceKey>>)
      requires Valid()
      modifies this
      ensures Valid()
      ensures walkErr != Nil ==> err == walkErr && called == None && lastSync == old(lastSync)
      ensures walkErr == Nil && After(old(lastSync), LastMod(walk)) ==>
        err == Nil && called == None && lastSync == old(lastSync)
      ensures walkErr == Nil && !After(old(lastSync), LastMod(walk)) ==>
        called == Some(CatalogueKeys(walk)) && err == synccb(CatalogueKeys(walk)) &&
        lastSync == (if err == Nil then LastMod(walk) else old(lastSync))
    {
      var keys, lastMod := Walk(walk);
      if walkErr != Nil {
        return walkErr, None;
      }
      if After(lastSync, lastMod) {
        // Nothing in the catalogue changed since the last sync.
        return Nil, None;
      }
      called := Some(keys);
      err := synccb(keys);
      if err != Nil {
        return;
      }
      // Only a successful callback moves the timestamp.
      lastSync := lastMod;
    }

    /** `sync` as evidently meant: the walk keeps the latest time, and the pass
        does nothing when that time is not after the last successful sync. */
    method SyncIntended(walk: seq<WalkEntry>, walkErr: Error, synccb: seq<FaceKey> -> Error)
      returns (err: Error, called: Option<seq<FaceKey>>)
      modifies this
      ensures walkErr != Nil ==> err == walkErr && called == None && lastSync == old(lastSync)
      ensures walkErr == Nil && !After(LastMax(walk), old(lastSync)) ==>
        err == Nil && called == None && lastSync == old(lastSync)
      ensures walkErr == Nil && After(LastMax(walk), old(lastSync)) ==>
        called == Some(CatalogueKeys(walk)) && err == synccb(CatalogueKeys(walk)) &&
        lastSync == (if err == Nil then LastMax(walk) else old(lastSync))
    {
      var keys, lastMod := WalkIntended(walk);
      if walkErr != Nil {
        return walkErr, None;
      }
      if !After(lastMod, lastSync) {
        return Nil, None;
      }
      called := Some(keys);
      err := synccb(keys);
      if err != Nil {
        return;
      }
      lastSync := lastMod;
    }

    /** `sync` with only the scan corrected: the walk keeps the latest time,
        but the guard is still the strict `lastSync.After(lastMod)`. */
    method SyncHalfFixed(walk: seq<WalkEntry>, walkErr: Error, synccb: seq<FaceKey> -> Error)
      returns (err: Error, called: Option<seq<FaceKey>>)
      modifies this
      ensures walkErr != Nil ==> err == walkErr && called == None && lastSync == old(lastSync)
      ensures walkErr == Nil && After(old(lastSync), LastMax(walk)) ==>
        err == Nil && called == None && lastSync == old(lastSync)
      ensures walkErr == Nil && !After(old(lastSync), LastMax(walk)) ==>
        called == Some(CatalogueKeys(walk)) && err == synccb(CatalogueKeys(walk)) &&
        lastSync == (if err == Nil then LastMax(walk) else old(lastSync))
    {
      var keys, lastMod := WalkIntended(walk);
      if walkErr != Nil {
        return walkErr, None;
      }
      if After(lastSync, lastMod) {
        return Nil, None;
      }
      called := Some(keys);
      err := synccb(keys);
      if err != Nil {
        return;
      }
      lastSync := lastMod;
    }
  }

  /** The closure `sync` hands to `filepath.Walk`, run over every visited path:
      it lowers `lastMod` past any earlier time and collects the key of each
      path the catalogue pattern matches. */
  method Walk(walk: seq<WalkEntry>) returns (keys: seq<FaceKey>, lastMod: Time)
    ensures keys == CatalogueKeys(walk) && lastMod == LastMod(walk)
  {
    keys, lastMod := [], ZeroTime;
    var i := 0;
    while i < |walk|
      invariant 0 <= i <= |walk|
      invariant keys == CatalogueKeys(walk[..i])
      invariant lastMod == LastMod(walk[..i])
    {
      var e := walk[i];
      WalkStep(walk, i);
      if After(lastMod, e.modTime) {
        lastMod := e.modTime;
      }
      var m := CatalogueKey(e.path);
      if m.Some? {
        keys := keys + [m.value];
      }
      i := i + 1;
    }
    assert walk[..|walk|] == walk;
  }

  /** The walk closure as evidently meant: it raises `lastMod` to any later
      visited time. */
  method WalkIntended(walk: seq<WalkEntry>) returns (keys: seq<FaceKey>, lastMod: Time)
    ensures keys == CatalogueKeys(walk) && lastMod == LastMax(walk)
  {
    keys, lastMod := [], ZeroTime;
    var i := 0;
    while i < |walk|
      invariant 0 <= i <= |walk|
      invariant keys == CatalogueKeys(walk[..i])
      invariant lastMod == LastMax(walk[..i])
    {
      var e := walk[i];
      WalkStep(walk, i);
      if After(e.modTime, lastMod) {
        lastMod := e.modTime;
      }
      var m := CatalogueKey(e.path);
      if m.Some? {
        keys := keys + [m.value];
      }
      i := i + 1;
    }
    assert walk[..|walk|] == walk;
  }

  /** With the corrected scan and guard, a pass that follows a successful one
      over the same catalogue makes no callback. */
  method UnchangedCatalogueSkipped(store: LocalStore, walk: seq<WalkEntry>, synccb: seq<FaceKey> -> Error)
    returns (first: Option<seq<FaceKey>>, second: Option<seq<FaceKey>>)
    requires synccb(CatalogueKeys(walk)) == Nil
    modifies store
    ensures second == None
  {
    var err;
    err, first := store.SyncIntended(walk, Nil, synccb);
    err, second := store.SyncIntended(walk, Nil, synccb);
  }

  /** Turning the scan around is not enough on its own: the source's guard
      `lastSync.After(lastMod)` is strict, so once a pass has stored the latest
      time, the next pass over the unchanged catalogue calls the callback again. */
  method HalfFixedResyncsUnchanged(store: LocalStore, walk: seq<WalkEntry>, synccb: seq<FaceKey> -> Error)
    returns (first: Option<seq<FaceKey>>, second: Option<seq<FaceKey>>)
    requires synccb(CatalogueKeys(walk)) == Nil && !After(store.lastSync, LastMax(walk))
    modifies store
    ensures first == Some(CatalogueKeys(walk)) && second == Some(CatalogueKeys(walk))
  {
    var err;
    err, first := store.SyncHalfFixed(walk, Nil, synccb);
    err, second := store.SyncHalfFixed(walk, Nil, synccb);
  }

  /** On a catalogue of ordinary files the short-circuit never fires: every
      successful walk calls the callback, however recent the last sync. */
  lemma ShortCircuitNeverFires(lastSync: Time, walk: seq<WalkEntry>)
    requires !After(lastSync, ZeroTime)
    requires forall i :: 0 <= i < |walk| ==> walk[i].modTime >= ZeroTime
    ensures !After(lastSync, LastMod(walk))
  {
    LastModOfOrdinaryFiles(walk);
  }
}
