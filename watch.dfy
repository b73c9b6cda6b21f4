/** `watch`: the store's catalogue sync with the reconciling callback plugged in. */
module Watch {
  import opened Errors
  import opened FaceKeys
  import opened LocalStores
  import opened Reconcile

  /** One pass of `store.Watch(synccb)`: walk the catalogue and, unless the
      store short-circuits, list the remote faces and push the missing ones.
      `synced` says whether the callback, and so ListFaces, ran; `sent` are the
      IndexFaces calls made. The callback's pushes happen before `lastSync` is
      updated in the source; they touch nothing `Sync` reads, so running them
      after it gives the same outcome. */
  method WatchPass(store: LocalStore, walk: seq<WalkEntry>, walkErr: Error, files: map<string, Bytes>,
                   listed: Result<seq<RemoteFace>>, indexFaces: IndexRequest -> Error)
    returns (err: Error, synced: bool, sent: seq<IndexRequest>)
    requires store.Valid()
    modifies store
    ensures store.Valid()
    ensures walkErr != Nil ==> err == walkErr && !synced && sent == [] && store.lastSync == old(store.lastSync)
    ensures walkErr == Nil && After(old(store.lastSync), LastMod(walk)) ==>
      err == Nil && !synced && sent == [] && store.lastSync == old(store.lastSync)
    ensures walkErr == Nil && !After(old(store.lastSync), LastMod(walk)) ==>
      synced && err == listed.ErrorOf() &&
      sent == (if listed.Ok?
               then Requests(Missing(CatalogueKeys(walk), Registered(listed.value)), Reader(store.baseDir, files))
               else []) &&
      store.lastSync == (if listed.Ok? then LastMod(walk) else old(store.lastSync))
  {
    var synccb := (keys: seq<FaceKey>) => listed.ErrorOf();
    var called;
    err, called := store.Sync(walk, walkErr, synccb);
    synced := called.Some?;
    sent := [];
    if called.Some? {
      var cbErr;
      cbErr, sent := SyncCallback(called.value, listed, Reader(store.baseDir, files), indexFaces);
      assert cbErr == listed.ErrorOf();
    }
  }

  /** Two passes over an unchanged catalogue of ordinary files both list the
      remote collection: the timestamp check never spares a pass. */
  method UnchangedCatalogueListedTwice(store: LocalStore, walk: seq<WalkEntry>, files: map<string, Bytes>,
                                       listed: Result<seq<RemoteFace>>, indexFaces: IndexRequest -> Error)
    returns (firstSynced: bool, secondSynced: bool)
    requires store.Valid()
    requires forall i :: 0 <= i < |walk| ==> walk[i].modTime >= ZeroTime
    modifies store
    ensures firstSynced && secondSynced
  {
    ShortCircuitNeverFires(store.lastSync, walk);
    var err, sent;
    err, firstSynced, sent := WatchPass(store, walk, Nil, files, listed, indexFaces);
    ShortCircuitNeverFires(store.lastSync, walk);
    err, secondSynced, sent := WatchPass(store, walk, Nil, files, listed, indexFaces);
  }
}
