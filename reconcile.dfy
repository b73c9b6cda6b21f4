/** The sync callback of `watch`: list what the remote collection already holds,
    work out which local keys it lacks, and index those one by one. */
module Reconcile {
  import opened Errors
  import opened FaceKeys

  /** One face the remote collection lists; the external id may be absent. */
  datatype RemoteFace = RemoteFace(externalImageId: Option<string>)

  /** A remote external id split at its first `_`. */
  type Pair = (string, string)

  /** What one listed face contributes to `registered`: nothing when its id is
      absent or has no `_`, otherwise the id split at its first `_`. */
  function RegisteredEntry(f: RemoteFace): (r: seq<Pair>)
    ensures |r| <= 1
    ensures |r| == 1 <==> f.externalImageId.Some? && '_' in f.externalImageId.value
    ensures |r| == 1 ==> '_' !in r[0].0 && r[0].0 + "_" + r[0].1 == f.externalImageId.value
  {
    match f.externalImageId
    case None => []
    case Some(id) =>
      var parts := SplitN2(id);
      if |parts| != 2 then [] else [(parts[0], parts[1])]
  }

  /** `registered`: the usable ids of the listed faces, split, in listing order. */
  function Registered(faces: seq<RemoteFace>): (r: seq<Pair>)
    ensures |r| <= |faces|
  {
    if faces == [] then []
    else Registered(faces[..|faces| - 1]) + RegisteredEntry(faces[|faces| - 1])
  }

  /** The loop that builds `registered`. */
  method FilterRegistered(faces: seq<RemoteFace>) returns (registered: seq<Pair>)
    ensures registered == Registered(faces)
  {
    registered := [];
    var i := 0;
    while i < |faces|
      invariant 0 <= i <= |faces|
      invariant registered == Registered(faces[..i])
    {
      var f := faces[i];
      RegisteredStep(faces, i);
      if f.externalImageId.Some? {
        var parts := SplitN2(f.externalImageId.value);
        if |parts| == 2 {
          registered := registered + [(parts[0], parts[1])];
        }
      }
      i := i + 1;
    }
    assert faces[..|faces|] == faces;
  }

  lemma {:induction false} RegisteredAppend(a: seq<RemoteFace>, b: seq<RemoteFace>)
    ensures Registered(a + b) == Registered(a) + Registered(b)
    decreases |b|
  {
    if b == [] {
      assert a + b == a;
    } else {
      assert (a + b)[..|a + b| - 1] == a + b[..|b| - 1];
      RegisteredAppend(a, b[..|b| - 1]);
    }
  }

  /** One more listed face: what it adds to `registered`. */
  lemma RegisteredStep(faces: seq<RemoteFace>, i: nat)
    requires i < |faces|
    ensures Registered(faces[..i + 1]) == Registered(faces[..i]) + RegisteredEntry(faces[i])
  {
    assert faces[..i + 1][..i] == faces[..i];
  }

  /** A registered pair comes from some listed face. */
  lemma {:induction false} RegisteredSource(faces: seq<RemoteFace>, p: Pair) returns (i: nat)
    requires p in Registered(faces)
    ensures i < |faces| && RegisteredEntry(faces[i]) == [p]
  {
    var n := |faces|;
    RegisteredStep(faces, n - 1);
    assert faces[..n] == faces;
    if p in Registered(faces[..n - 1]) {
      i := RegisteredSource(faces[..n - 1], p);
      assert faces[..n - 1][i] == faces[i];
    } else {
      i := n - 1;
    }
  }

  /** Every listed face's pair is kept. */
  lemma RegisteredKept(faces: seq<RemoteFace>, i: nat)
    requires i < |faces|
    ensures RegisteredEntry(faces[i]) == [] || RegisteredEntry(faces[i])[0] in Registered(faces)
  {
    var e := RegisteredEntry(faces[i]);
    assert faces == faces[..i + 1] + faces[i + 1..];
    RegisteredAppend(faces[..i + 1], faces[i + 1..]);
    RegisteredStep(faces, i);
    if e != [] {
      assert e[0] in Registered(faces[..i + 1]);
    }
  }

  /** A pair is registered exactly when some listed face has an id that splits
      into it. */
  lemma RegisteredMembers(faces: seq<RemoteFace>, p: Pair)
    ensures p in Registered(faces) <==> exists i :: 0 <= i < |faces| && RegisteredEntry(faces[i]) == [p]
  {
    if p in Registered(faces) {
      var i := RegisteredSource(faces, p);
    } else {
      forall i | 0 <= i < |faces| ensures RegisteredEntry(faces[i]) != [p] {
        RegisteredKept(faces, i);
        assert RegisteredEntry(faces[i]) == [] || RegisteredEntry(faces[i])[0] != p;
      }
    }
  }

  /** No registered name holds `_`: the split is at the first one. */
  lemma {:induction false} RegisteredNamesPlain(faces: seq<RemoteFace>)
    ensures forall p :: p in Registered(faces) ==> '_' !in p.0
  {
    if faces != [] {
      RegisteredNamesPlain(faces[..|faces| - 1]);
    }
  }

  /** Is the key's `(Name, Index)` one of the registered pairs? */
  predicate IsRegistered(k: FaceKey, registered: seq<Pair>) {
    (k.name, k.index) in registered
  }

  /** `newkeys`: the local keys not registered, in local order, duplicates kept. */
  function Missing(locals: seq<FaceKey>, registered: seq<Pair>): (r: seq<FaceKey>)
    ensures |r| <= |locals|
    ensures forall j :: 0 <= j < |r| ==> !IsRegistered(r[j], registered)
  {
    if locals == [] then []
    else
      var k := locals[|locals| - 1];
      Missing(locals[..|locals| - 1], registered) + if IsRegistered(k, registered) then [] else [k]
  }

  /** The inner closure: scan `registered` and stop at the first equal pair. */
  method FindRegistered(k: FaceKey, registered: seq<Pair>) returns (found: bool)
    ensures found <==> IsRegistered(k, registered)
  {
    var j := 0;
    while j < |registered|
      invariant 0 <= j <= |registered|
      invariant forall i :: 0 <= i < j ==> registered[i] != (k.name, k.index)
    {
      var k2 := registered[j];
      if k.name == k2.0 && k.index == k2.1 {
        return true;
      }
      j := j + 1;
    }
    return false;
  }

  /** The loop that builds `newkeys`. */
  method NewKeys(locals: seq<FaceKey>, registered: seq<Pair>) returns (newkeys: seq<FaceKey>)
    ensures newkeys == Missing(locals, registered)
  {
    newkeys := [];
    var i := 0;
    while i < |locals|
      invariant 0 <= i <= |locals|
      invariant newkeys == Missing(locals[..i], registered)
    {
      var k := locals[i];
      assert locals[..i + 1][..i] == locals[..i];
      var found := FindRegistered(k, registered);
      if !found {
        newkeys := newkeys + [k];
      }
      i := i + 1;
    }
    assert locals[..|locals|] == locals;
  }

  /** The missing keys split along the local list: the diff keeps order and
      looks at each local key on its own. */
  lemma {:induction false} MissingAppend(a: seq<FaceKey>, b: seq<FaceKey>, registered: seq<Pair>)
    ensures Missing(a + b, registered) == Missing(a, registered) + Missing(b, registered)
    decreases |b|
  {
    if b == [] {
      assert a + b == a;
    } else {
      assert (a + b)[..|a + b| - 1] == a + b[..|b| - 1];
      MissingAppend(a, b[..|b| - 1], registered);
    }
  }

  /** A key is missing exactly when it is local and not registered. */
  lemma {:induction false} MissingMembers(locals: seq<FaceKey>, registered: seq<Pair>, k: FaceKey)
    ensures k in Missing(locals, registered) <==> k in locals && !IsRegistered(k, registered)
  {
    if locals != [] {
      var init := locals[..|locals| - 1];
      MissingMembers(init, registered, k);
      assert locals == init + [locals[|locals| - 1]];
    }
  }

  /** Each unregistered local key is missing as often as it occurs locally, and
      a registered one not at all. */
  lemma {:induction false} MissingCount(locals: seq<FaceKey>, registered: seq<Pair>, k: FaceKey)
    ensures multiset(Missing(locals, registered))[k] ==
      if IsRegistered(k, registered) then 0 else multiset(locals)[k]
  {
    if locals != [] {
      var init := locals[..|locals| - 1];
      MissingCount(init, registered, k);
      assert locals == init + [locals[|locals| - 1]];
    }
  }

  /** One IndexFaces call: the external id and the photo's bytes. */
  datatype IndexRequest = IndexRequest(externalImageId: string, image: Bytes)

  /** The IndexFaces calls the push loop makes for `newkeys`: one per key whose
      photo could be read, in order, under the formatted key. */
  function Requests(newkeys: seq<FaceKey>, read: FaceKey -> Result<Bytes>): (r: seq<IndexRequest>)
    ensures |r| <= |newkeys|
  {
    if newkeys == [] then []
    else
      var k := newkeys[|newkeys| - 1];
      Requests(newkeys[..|newkeys| - 1], read) +
      match read(k)
      case Ok(img) => [IndexRequest(Format(k), img)]
      case Err(_) => []
  }

  /** The push loop. `read` stands for `store.ReadImage`, `indexFaces` for the
      remote IndexFaces call; an IndexFaces error is only logged. */
  method PushNewKeys(newkeys: seq<FaceKey>, read: FaceKey -> Result<Bytes>, indexFaces: IndexRequest -> Error)
    returns (sent: seq<IndexRequest>)
    ensures sent == Requests(newkeys, read)
  {
    sent := [];
    var i := 0;
    while i < |newkeys|
      invariant 0 <= i <= |newkeys|
      invariant sent == Requests(newkeys[..i], read)
    {
      var k := newkeys[i];
      assert newkeys[..i + 1][..i] == newkeys[..i];
      i := i + 1;
      var img := read(k);
      if img.Err? {
        continue;
      }
      var req := IndexRequest(Format(k), img.value);
      var indexErr := indexFaces(req);
      sent := sent + [req];
    }
    assert newkeys[..|newkeys|] == newkeys;
  }

  lemma {:induction false} RequestsAppend(a: seq<FaceKey>, b: seq<FaceKey>, read: FaceKey -> Result<Bytes>)
    ensures Requests(a + b, read) == Requests(a, read) + Requests(b, read)
    decreases |b|
  {
    if b == [] {
      assert a + b == a;
    } else {
      assert (a + b)[..|a + b| - 1] == a + b[..|b| - 1];
      RequestsAppend(a, b[..|b| - 1], read);
    }
  }

  /** A key whose photo cannot be read is skipped and nothing else changes. */
  lemma ReadFailureSkipsOnlyThatKey(a: seq<FaceKey>, k: FaceKey, b: seq<FaceKey>, read: FaceKey -> Result<Bytes>)
    requires read(k).Err?
    ensures Requests(a + [k] + b, read) == Requests(a, read) + Requests(b, read)
  {
    RequestsAppend(a + [k], b, read);
    RequestsAppend(a, [k], read);
    assert Requests([k], read) == [] by {
      assert [k][..0] == [];
    }
    calc {
      Requests(a + [k] + b, read);
      Requests(a + [k], read) + Requests(b, read);
      Requests(a, read) + Requests([k], read) + Requests(b, read);
      Requests(a, read) + Requests(b, read);
    }
  }

  /** When every photo can be read, each key is indexed exactly once, in order,
      under its formatted external id. */
  lemma {:induction false} RequestsOfReadableKeys(newkeys: seq<FaceKey>, read: FaceKey -> Result<Bytes>)
    requires forall k :: k in newkeys ==> read(k).Ok?
    ensures |Requests(newkeys, read)| == |newkeys|
    ensures forall i :: 0 <= i < |newkeys| ==>
      Requests(newkeys, read)[i] == IndexRequest(Format(newkeys[i]), read(newkeys[i]).value)
  {
    if newkeys != [] {
      var n := |newkeys|;
      var init := newkeys[..n - 1];
      var last := newkeys[n - 1];
      assert forall k :: k in init ==> k in newkeys;
      RequestsOfReadableKeys(init, read);
      assert read(last).Ok?;
      var r := Requests(newkeys, read);
      assert r == Requests(init, read) + [IndexRequest(Format(last), read(last).value)];
      forall i | 0 <= i < n
        ensures r[i] == IndexRequest(Format(newkeys[i]), read(newkeys[i]).value)
      {
        if i < n - 1 {
          assert newkeys[i] == init[i];
        }
      }
    }
  }

  /** `synccb(locals)`: `listed` is the ListFaces outcome. */
  method SyncCallback(locals: seq<FaceKey>, listed: Result<seq<RemoteFace>>,
                      read: FaceKey -> Result<Bytes>, indexFaces: IndexRequest -> Error)
    returns (err: Error, sent: seq<IndexRequest>)
    ensures listed.Err? ==> err == Failure(listed.error) && sent == []
    ensures listed.Ok? ==> err == Nil && sent == Requests(Missing(locals, Registered(listed.value)), read)
  {
    if listed.Err? {
      return Failure(listed.error), [];
    }
    var registered := FilterRegistered(listed.value);
    var newkeys := NewKeys(locals, registered);
    sent := PushNewKeys(newkeys, read, indexFaces);
    err := Nil;
  }

  /** The faces the collection lists once the given IndexFaces calls succeeded. */
  function IndexedFaces(sent: seq<IndexRequest>): (faces: seq<RemoteFace>)
    ensures |faces| == |sent|
    ensures forall i :: 0 <= i < |sent| ==> faces[i] == RemoteFace(Some(sent[i].externalImageId))
  {
    if sent == [] then [] else IndexedFaces(sent[..|sent| - 1]) + [RemoteFace(Some(sent[|sent| - 1].externalImageId))]
  }

  /** A local key whose name holds `_` is never registered, whatever the remote
      collection lists, so every pass pushes it again. */
  lemma UnderscoreNameAlwaysMissing(locals: seq<FaceKey>, faces: seq<RemoteFace>, k: FaceKey)
    requires k in locals && '_' in k.name
    ensures k in Missing(locals, Registered(faces))
  {
    RegisteredNamesPlain(faces);
    MissingMembers(locals, Registered(faces), k);
  }

  lemma IndexedFacesSnoc(sent: seq<IndexRequest>, r: IndexRequest)
    ensures IndexedFaces(sent + [r]) == IndexedFaces(sent) + [RemoteFace(Some(r.externalImageId))]
  {
    assert (sent + [r])[..|sent|] == sent;
  }

  lemma RegisteredSnoc(faces: seq<RemoteFace>, f: RemoteFace)
    ensures Registered(faces + [f]) == Registered(faces) + RegisteredEntry(f)
  {
    assert (faces + [f])[..|faces|] == faces;
  }

  /** Pushing one more readable key with a `_`-free name registers exactly its pair. */
  lemma RegisteredAfterPush(keys: seq<FaceKey>, k: FaceKey, read: FaceKey -> Result<Bytes>)
    requires '_' !in k.name && read(k).Ok?
    ensures Registered(IndexedFaces(Requests(keys + [k], read))) ==
      Registered(IndexedFaces(Requests(keys, read))) + [(k.name, k.index)]
  {
    var r := IndexRequest(Format(k), read(k).value);
    assert (keys + [k])[..|keys|] == keys;
    assert Requests(keys + [k], read) == Requests(keys, read) + [r];
    IndexedFacesSnoc(Requests(keys, read), r);
    RegisteredSnoc(IndexedFaces(Requests(keys, read)), RemoteFace(Some(Format(k))));
    ParseFormatRoundTrip(k);
  }

  /** Once the IndexFaces calls for readable keys with `_`-free names have
      succeeded, each of those keys is registered. */
  lemma {:induction false} IndexedKeysRegistered(keys: seq<FaceKey>, read: FaceKey -> Result<Bytes>)
    requires forall k :: k in keys ==> '_' !in k.name && read(k).Ok?
    ensures forall k :: k in keys ==> IsRegistered(k, Registered(IndexedFaces(Requests(keys, read))))
  {
    if keys != [] {
      var init := keys[..|keys| - 1];
      var last := keys[|keys| - 1];
      assert keys == init + [last];
      IndexedKeysRegistered(init, read);
      RegisteredAfterPush(init, last, read);
    }
  }

  /** Nothing is missing when every local key is registered. */
  lemma {:induction false} NothingMissing(locals: seq<FaceKey>, registered: seq<Pair>)
    requires forall k :: k in locals ==> IsRegistered(k, registered)
    ensures Missing(locals, registered) == []
  {
    if locals != [] {
      var init := locals[..|locals| - 1];
      assert forall k :: k in init ==> k in locals;
      NothingMissing(init, registered);
    }
  }

  /** When local names have no `_`, every photo can be read and every IndexFaces
      call succeeds, the next pass finds nothing missing. */
  lemma SecondPassPushesNothing(locals: seq<FaceKey>, faces: seq<RemoteFace>, read: FaceKey -> Result<Bytes>)
    requires forall k :: k in locals ==> '_' !in k.name && read(k).Ok?
    ensures Missing(locals, Registered(faces + IndexedFaces(Requests(Missing(locals, Registered(faces)), read)))) == []
  {
    var reg := Registered(faces);
    var missing := Missing(locals, reg);
    forall k | k in missing ensures '_' !in k.name && read(k).Ok? {
      MissingMembers(locals, reg, k);
    }
    IndexedKeysRegistered(missing, read);
    var added := IndexedFaces(Requests(missing, read));
    RegisteredAppend(faces, added);
    forall k | k in locals ensures IsRegistered(k, Registered(faces + added)) {
      MissingMembers(locals, reg, k);
    }
    NothingMissing(locals, Registered(faces + added));
  }
}
