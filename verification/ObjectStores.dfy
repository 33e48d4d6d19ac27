/** The two stores behind the object handlers, and the upstream calls that change them. A call may
    take effect and still be reported as failed (a timeout after the work was done); it is never
    reported as done without having taken effect. */
module ObjectStores {
  /** A metadata row; `put` is the unique id the row was created with. */
  datatype Meta = Meta(put: nat, storageRef: string, sizeBytes: nat)

  /** A bucket with a content hash, or with an object key. */
  datatype Place = Place(bucket: string, name: string)

  datatype Stores = Stores(blobs: map<Place, string>, metas: map<Place, Meta>)

  /** How one upstream call went. */
  datatype Answer = Answer(effect: bool, ok: bool) {
    predicate Possible() { ok ==> effect }
  }

  const DONE: Answer := Answer(true, true)

  function StoreBlob(s: Stores, bucket: string, hash: string, body: string, effect: bool): Stores {
    if effect then s.(blobs := s.blobs[Place(bucket, hash) := body]) else s
  }

  /** Deleting an absent blob succeeds. */
  function RemoveBlob(s: Stores, bucket: string, hash: string, effect: bool): Stores {
    if effect then s.(blobs := s.blobs - {Place(bucket, hash)}) else s
  }

  function StoreMeta(s: Stores, bucket: string, key: string, meta: Meta, effect: bool): Stores {
    if effect then s.(metas := s.metas[Place(bucket, key) := meta]) else s
  }

  function RemoveMeta(s: Stores, bucket: string, key: string, effect: bool): Stores {
    if effect then s.(metas := s.metas - {Place(bucket, key)}) else s
  }

  /** Every live object's blob exists. */
  ghost predicate Intact(s: Stores) {
    forall p <- s.metas :: Place(p.bucket, s.metas[p].storageRef) in s.blobs
  }

  /** Some live object of the bucket is stored under this hash. */
  ghost predicate Referenced(s: Stores, bucket: string, hash: string) {
    exists p <- s.metas :: p.bucket == bucket && s.metas[p].storageRef == hash
  }

  /** Some other live object of the bucket is stored under this hash. */
  ghost predicate Shared(s: Stores, bucket: string, key: string, hash: string) {
    exists p <- s.metas :: p.bucket == bucket && p.name != key && s.metas[p].storageRef == hash
  }

  // ---------------------------------------------------------------- what each handler leaves behind

  /** `handlePutObject` after authorization. A failed metadata call is compensated by deleting the
      blob; a failed blob write is not compensated at all. */
  function AfterPut(s: Stores, bucket: string, key: string, body: string, meta: Meta,
                    write: Answer, row: Answer, undo: Answer): Stores
  {
    var s1 := StoreBlob(s, bucket, meta.storageRef, body, write.effect);
    if !write.ok then s1
    else
      var s2 := StoreMeta(s1, bucket, key, meta, row.effect);
      if row.ok then s2 else RemoveBlob(s2, bucket, meta.storageRef, undo.effect)
  }

  /** `handleDeleteObject` after authorization; `found` says whether the metadata lookup answered. */
  function AfterDelete(s: Stores, bucket: string, key: string, found: bool, blob: Answer, row: Answer): Stores {
    var p := Place(bucket, key);
    if !found || p !in s.metas then s
    else
      var s1 := RemoveBlob(s, bucket, s.metas[p].storageRef, blob.effect);
      if !blob.ok then s1 else RemoveMeta(s1, bucket, key, row.effect)
  }

  // ---------------------------------------------------------------- what nothing but the target sees

  /** However its calls go, a put leaves every other row, and every blob but that of its content, as it
      was; its own row is either untouched or exactly the one it saved. */
  lemma PutTouchesItsOwn(s: Stores, bucket: string, key: string, body: string, meta: Meta,
                         write: Answer, row: Answer, undo: Answer)
    requires write.Possible() && row.Possible() && undo.Possible()
    ensures var s' := AfterPut(s, bucket, key, body, meta, write, row, undo);
            && (forall p | p != Place(bucket, key) :: p in s'.metas <==> p in s.metas)
            && (forall p <- s.metas | p != Place(bucket, key) :: s'.metas[p] == s.metas[p])
            && (s'.metas == s.metas || s'.metas == s.metas[Place(bucket, key) := meta])
            && (forall p | p != Place(bucket, meta.storageRef) :: p in s'.blobs <==> p in s.blobs)
            && (forall p <- s.blobs | p != Place(bucket, meta.storageRef) :: s'.blobs[p] == s.blobs[p])
            && (write == DONE && row == DONE ==>
                  Place(bucket, meta.storageRef) in s'.blobs && s'.blobs[Place(bucket, meta.storageRef)] == body)
  {
  }

  /** However its calls go, a delete leaves every other row, and every blob but the one its row refers
      to, as it was, and changes none. */
  lemma DeleteTouchesItsOwn(s: Stores, bucket: string, key: string, found: bool, blob: Answer, row: Answer)
    requires blob.Possible() && row.Possible()
    ensures var s' := AfterDelete(s, bucket, key, found, blob, row);
            && (forall p | p != Place(bucket, key) :: p in s'.metas <==> p in s.metas)
            && (forall p <- s'.metas :: p in s.metas && s'.metas[p] == s.metas[p])
            && (forall p <- s'.blobs :: p in s.blobs && s'.blobs[p] == s.blobs[p])
            && (forall p <- s.blobs | p !in s'.blobs ::
                  Place(bucket, key) in s.metas && p == Place(bucket, s.metas[Place(bucket, key)].storageRef))
            && (found && blob == DONE && row == DONE ==> Place(bucket, key) !in s'.metas)
  {
  }

  // ---------------------------------------------------------------- reference integrity

  /** A successful put keeps every live object's blob, whatever it overwrites. */
  lemma SuccessfulPutKeepsIntact(s: Stores, bucket: string, key: string, body: string, meta: Meta, undo: Answer)
    requires Intact(s)
    ensures Intact(AfterPut(s, bucket, key, body, meta, DONE, DONE, undo))
  {
  }

  /** However its calls go, a put loses a live object's blob exactly when a compensation that takes
      effect removes content some row needs: a row of the bucket with the same hash from before, or the
      put's own, saved although reported failed. */
  lemma PutKeepsIntact(s: Stores, bucket: string, key: string, body: string, meta: Meta,
                       write: Answer, row: Answer, undo: Answer)
    requires Intact(s) && write.Possible() && row.Possible() && undo.Possible()
    ensures Intact(AfterPut(s, bucket, key, body, meta, write, row, undo))
       <==> !(write.ok && !row.ok && undo.effect && (row.effect || Referenced(s, bucket, meta.storageRef)))
  {
  }

  /** A metadata call that took effect although it was reported failed always breaks integrity. */
  lemma LateMetadataBreaksIntact(s: Stores, bucket: string, key: string, body: string, meta: Meta)
    ensures !Intact(AfterPut(s, bucket, key, body, meta, DONE, Answer(true, false), DONE))
  {
  }

  /** Uploading again what the object already holds, with the metadata service down, loses the object. */
  lemma FailedRewriteLosesObject(s: Stores, bucket: string, key: string, body: string, meta: Meta)
    requires Place(bucket, key) in s.metas && s.metas[Place(bucket, key)].storageRef == meta.storageRef
    ensures !Intact(AfterPut(s, bucket, key, body, meta, DONE, Answer(false, false), DONE))
  {
  }

  /** However its calls go, a delete keeps every live object's blob exactly when it removes no blob, or
      removes blob and row both and no other live object of the bucket has that content. A delete cut
      short between the two always leaves its own object without a blob. */
  lemma DeleteKeepsIntact(s: Stores, bucket: string, key: string, found: bool, blob: Answer, row: Answer)
    requires Intact(s) && Place(bucket, key) in s.metas && blob.Possible() && row.Possible()
    ensures Intact(AfterDelete(s, bucket, key, found, blob, row))
       <==> || !found || !blob.effect
            || (blob.ok && row.effect && !Shared(s, bucket, key, s.metas[Place(bucket, key)].storageRef))
  {
  }

  // ---------------------------------------------------------------- retrying a delete

  /** One attempt: whether the lookup answered, and how the two removals went. */
  datatype Attempt = Attempt(found: bool, blob: Answer, row: Answer) {
    predicate Possible() { blob.Possible() && row.Possible() }
  }

  function AfterAttempts(s: Stores, bucket: string, key: string, attempts: seq<Attempt>): Stores {
    if attempts == [] then s
    else
      var a := attempts[|attempts| - 1];
      AfterDelete(AfterAttempts(s, bucket, key, attempts[..|attempts| - 1]), bucket, key, a.found, a.blob, a.row)
  }

  /** However many attempts were cut short anywhere, the stores are as before, without the blob, or
      as after an uninterrupted delete. */
  lemma {:induction false} AttemptsInBetween(s: Stores, bucket: string, key: string, attempts: seq<Attempt>)
    requires Place(bucket, key) in s.metas
    requires forall a <- attempts :: a.Possible()
    ensures var s' := AfterAttempts(s, bucket, key, attempts);
            || s' == s
            || s' == RemoveBlob(s, bucket, s.metas[Place(bucket, key)].storageRef, true)
            || s' == AfterDelete(s, bucket, key, true, DONE, DONE)
  {
    if attempts != [] {
      AttemptsInBetween(s, bucket, key, attempts[..|attempts| - 1]);
      assert attempts[|attempts| - 1] in attempts;
    }
  }

  /** A delete can be retried any number of times: the first attempt that runs through reaches the
      stores an uninterrupted delete would have left. */
  lemma RetriedDeleteCompletes(s: Stores, bucket: string, key: string, attempts: seq<Attempt>)
    requires Place(bucket, key) in s.metas
    requires forall a <- attempts :: a.Possible()
    ensures AfterDelete(AfterAttempts(s, bucket, key, attempts), bucket, key, true, DONE, DONE)
         == AfterDelete(s, bucket, key, true, DONE, DONE)
  {
    AttemptsInBetween(s, bucket, key, attempts);
    var p, hash := Place(bucket, key), s.metas[Place(bucket, key)].storageRef;
    var s1 := RemoveBlob(s, bucket, hash, true);
    assert s1.blobs - {Place(bucket, hash)} == s1.blobs;
  }
}
