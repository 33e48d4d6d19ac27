/** Which live objects keep their blobs, over every run of interleaved object requests. Nothing
    counts references, so the answer depends on what else was uploaded to the bucket. */
module ObjectIntegrity {
  import opened ObjectStores
  import opened ObjectFlow

  // ---------------------------------------------------------------- when a blob comes and goes

  /** The step is a blob write of this blob that takes effect. */
  ghost predicate StoresBlob(s: Sys, e: Event, blob: Place, hash: string -> string) {
    e.Call? && e.id in s.requests && e.answer.effect && s.requests[e.id].PutStoring? &&
    var put := s.requests[e.id].put;
    put in s.uploads && blob == Place(s.uploads[put].bucket, hash(s.uploads[put].body))
  }

  /** The step is a compensation or a blob deletion of this blob that takes effect. */
  ghost predicate RemovesBlob(s: Sys, e: Event, blob: Place) {
    e.Call? && e.id in s.requests && e.answer.effect &&
    match s.requests[e.id]
    case PutUndoing(put, h) => put in s.uploads && blob == Place(s.uploads[put].bucket, h)
    case DeleteBlobNext(place, meta) => blob == Place(place.bucket, meta.storageRef)
    case _ => false
  }

  ghost predicate EverStored(states: seq<Sys>, events: seq<Event>, hash: string -> string, i: nat, blob: Place)
    requires IsRun(states, events, hash) && i < |states|
  {
    exists j | 0 <= j < i :: StoresBlob(states[j], events[j], blob, hash)
  }

  /** Some step before state `i` removed the blob, and none since has stored it again. */
  ghost predicate RemovedSince(states: seq<Sys>, events: seq<Event>, hash: string -> string, i: nat, blob: Place)
    requires IsRun(states, events, hash) && i < |states|
  {
    exists j | 0 <= j < i :: RemovesBlob(states[j], events[j], blob)
      && forall k | j < k < i :: !StoresBlob(states[k], events[k], blob, hash)
  }

  lemma BlobAfterStep(s: Sys, e: Event, blob: Place, hash: string -> string)
    requires Enabled(s, e)
    ensures blob in Take(s, e, hash).stores.blobs
       <==> StoresBlob(s, e, blob, hash) || (blob in s.stores.blobs && !RemovesBlob(s, e, blob))
  {
  }

  lemma RemovedSinceStep(states: seq<Sys>, events: seq<Event>, hash: string -> string, i: nat, blob: Place)
    requires IsRun(states, events, hash) && i < |events|
    ensures RemovedSince(states, events, hash, i + 1, blob)
       <==> RemovesBlob(states[i], events[i], blob)
            || (RemovedSince(states, events, hash, i, blob) && !StoresBlob(states[i], events[i], blob, hash))
  {
    if RemovedSince(states, events, hash, i, blob) && !StoresBlob(states[i], events[i], blob, hash) {
      var j :| 0 <= j < i && RemovesBlob(states[j], events[j], blob)
               && forall k | j < k < i :: !StoresBlob(states[k], events[k], blob, hash);
      assert forall k | j < k < i + 1 :: !StoresBlob(states[k], events[k], blob, hash);
    }
  }

  lemma {:induction false} BlobHistory(states: seq<Sys>, events: seq<Event>, hash: string -> string, i: nat, blob: Place)
    requires IsRun(states, events, hash) && i < |states|
    ensures blob in states[i].stores.blobs
       <==> EverStored(states, events, hash, i, blob) && !RemovedSince(states, events, hash, i, blob)
  {
    if i > 0 {
      BlobHistory(states, events, hash, i - 1, blob);
      RemovedSinceStep(states, events, hash, i - 1, blob);
      BlobAfterStep(states[i - 1], events[i - 1], blob, hash);
    }
  }

  /** The blob behind a request that is about to save a row. */
  function SavingBlob(s: Sys, r: Request): Place
    requires r.PutSaving? && r.put in s.uploads
  {
    Place(s.uploads[r.put].bucket, r.hash)
  }

  /** Rows, and requests about to save one, only exist for blobs that have been stored. */
  ghost predicate RowsBacked(states: seq<Sys>, events: seq<Event>, hash: string -> string, i: nat)
    requires IsRun(states, events, hash) && i < |states|
  {
    forall p <- states[i].stores.metas ::
      EverStored(states, events, hash, i, Place(p.bucket, states[i].stores.metas[p].storageRef))
  }

  ghost predicate SavesBacked(states: seq<Sys>, events: seq<Event>, hash: string -> string, i: nat)
    requires IsRun(states, events, hash) && i < |states|
  {
    forall id <- states[i].requests | states[i].requests[id].PutSaving? && states[i].requests[id].put in states[i].uploads ::
      EverStored(states, events, hash, i, SavingBlob(states[i], states[i].requests[id]))
  }

  lemma EverStoredGrows(states: seq<Sys>, events: seq<Event>, hash: string -> string, i: nat, blob: Place)
    requires IsRun(states, events, hash) && i < |events|
    ensures EverStored(states, events, hash, i + 1, blob)
       <==> EverStored(states, events, hash, i, blob) || StoresBlob(states[i], events[i], blob, hash)
  {
  }

  lemma NewRowWasSaving(s: Sys, e: Event, hash: string -> string, p: Place)
    requires Enabled(s, e) && p in Take(s, e, hash).stores.metas
    ensures var meta := Take(s, e, hash).stores.metas[p];
            || (p in s.stores.metas && meta == s.stores.metas[p])
            || (e.Call? && s.requests[e.id].PutSaving? && s.requests[e.id].put in s.uploads
                && SavingBlob(s, s.requests[e.id]) == Place(p.bucket, meta.storageRef))
  {
  }

  lemma NewSaveHasStored(s: Sys, e: Event, hash: string -> string, id: nat)
    requires Sound(s, hash) && Enabled(s, e)
    requires var s' := Take(s, e, hash); id in s'.requests && s'.requests[id].PutSaving? && s'.requests[id].put in s'.uploads
    ensures var s' := Take(s, e, hash);
            || (id in s.requests && s.requests[id] == s'.requests[id] && s.requests[id].put in s.uploads
                && SavingBlob(s, s.requests[id]) == SavingBlob(s', s'.requests[id]))
            || StoresBlob(s, e, SavingBlob(s', s'.requests[id]), hash)
  {
    if id in s.requests {
      assert RequestSound(s, s.requests[id], hash);
    }
  }

  lemma {:induction false} RunIsBacked(states: seq<Sys>, events: seq<Event>, hash: string -> string, i: nat)
    requires IsRun(states, events, hash) && i < |states|
    ensures RowsBacked(states, events, hash, i) && SavesBacked(states, events, hash, i)
  {
    if i > 0 {
      RunIsBacked(states, events, hash, i - 1);
      RunIsSound(states, events, hash, i - 1);
      var s, e, s' := states[i - 1], events[i - 1], states[i];
      assert Enabled(s, e) && s' == Take(s, e, hash);
      forall p | p in s'.stores.metas
        ensures EverStored(states, events, hash, i, Place(p.bucket, s'.stores.metas[p].storageRef))
      {
        NewRowWasSaving(s, e, hash, p);
        EverStoredGrows(states, events, hash, i - 1, Place(p.bucket, s'.stores.metas[p].storageRef));
      }
      forall id | id in s'.requests && s'.requests[id].PutSaving? && s'.requests[id].put in s'.uploads
        ensures EverStored(states, events, hash, i, SavingBlob(s', s'.requests[id]))
      {
        NewSaveHasStored(s, e, hash, id);
        EverStoredGrows(states, events, hash, i - 1, SavingBlob(s', s'.requests[id]));
      }
    }
  }

  /** In every state of every run, a live object's blob is missing exactly when some step removed the
      blob of that content from the bucket and no upload has stored it there since. */
  lemma BlobMissingExactly(states: seq<Sys>, events: seq<Event>, hash: string -> string, i: nat, p: Place)
    requires IsRun(states, events, hash) && i < |states| && p in states[i].stores.metas
    ensures var blob := Place(p.bucket, states[i].stores.metas[p].storageRef);
            blob !in states[i].stores.blobs <==> RemovedSince(states, events, hash, i, blob)
  {
    RunIsBacked(states, events, hash, i);
    BlobHistory(states, events, hash, i, Place(p.bucket, states[i].stores.metas[p].storageRef));
  }

  // ---------------------------------------------------------------- the life of one put

  predicate Owns(r: Request, put: nat) {
    (r.PutStoring? || r.PutSaving? || r.PutUndoing?) && r.put == put
  }

  /** The put was begun and no request works on it any more. */
  ghost predicate Over(s: Sys, put: nat) {
    put in s.uploads && forall id <- s.requests :: !Owns(s.requests[id], put)
  }

  /** No row carries the put, and no delete has read one that does. */
  ghost predicate Unwritten(s: Sys, put: nat) {
    && (forall p <- s.stores.metas :: s.stores.metas[p].put != put)
    && (forall id <- s.requests | s.requests[id].DeleteBlobNext? :: s.requests[id].meta.put != put)
  }

  /** One request works on a put, and until it is through nothing has seen its row. */
  ghost predicate InOneHand(s: Sys, put: nat) {
    && (forall id <- s.requests, other <- s.requests | Owns(s.requests[id], put) && Owns(s.requests[other], put) :: id == other)
    && (forall id <- s.requests | Owns(s.requests[id], put) :: Unwritten(s, put))
  }

  /** The put's metadata call does not take effect while being reported failed. */
  predicate ToldTrue(s: Sys, e: Event, put: nat) {
    e.Call? && e.id in s.requests && s.requests[e.id].PutSaving? && s.requests[e.id].put == put && e.answer.effect
    ==> e.answer.ok
  }

  ghost predicate AlwaysTold(states: seq<Sys>, events: seq<Event>, hash: string -> string, put: nat)
    requires IsRun(states, events, hash)
  {
    forall i | 0 <= i < |events| :: ToldTrue(states[i], events[i], put)
  }

  /** No other upload to the bucket has content of the same hash. */
  ghost predicate Alone(s: Sys, put: nat, hash: string -> string) {
    forall q <- s.uploads | put in s.uploads && s.uploads[q].bucket == s.uploads[put].bucket
                            && hash(s.uploads[q].body) == hash(s.uploads[put].body) :: q == put
  }

  lemma StepKeepsOneHand(s: Sys, e: Event, put: nat, hash: string -> string)
    requires Sound(s, hash) && Enabled(s, e) && InOneHand(s, put) && ToldTrue(s, e, put)
    ensures InOneHand(Take(s, e, hash), put)
  {
    var s' := Take(s, e, hash);
    forall id | id in s.requests
      ensures RequestSound(s, s.requests[id], hash)
    {
    }
    forall id | id in s'.requests && Owns(s'.requests[id], put)
      ensures Unwritten(s', put)
      ensures e.BeginPut? || (id in s.requests && Owns(s.requests[id], put))
    {
    }
  }

  lemma {:induction false} RunInOneHand(states: seq<Sys>, events: seq<Event>, hash: string -> string, i: nat, put: nat)
    requires IsRun(states, events, hash) && i < |states| && AlwaysTold(states, events, hash, put)
    ensures InOneHand(states[i], put)
  {
    if i > 0 {
      RunInOneHand(states, events, hash, i - 1, put);
      RunIsSound(states, events, hash, i - 1);
      StepKeepsOneHand(states[i - 1], events[i - 1], put, hash);
    }
  }

  lemma {:induction false} UploadsStay(states: seq<Sys>, events: seq<Event>, hash: string -> string, i: nat, j: nat, put: nat)
    requires IsRun(states, events, hash) && i <= j < |states| && put in states[i].uploads
    ensures put in states[j].uploads && states[j].uploads[put] == states[i].uploads[put]
    decreases j
  {
    if i < j {
      UploadsStay(states, events, hash, i, j - 1, put);
      assert Enabled(states[j - 1], events[j - 1]);
    }
  }

  /** A put that is over stays over, and no place gets its row afterwards. */
  lemma {:induction false} OverStaysOver(states: seq<Sys>, events: seq<Event>, hash: string -> string,
                                         i: nat, j: nat, put: nat, p: Place)
    requires IsRun(states, events, hash) && i <= j < |states| && Over(states[i], put)
    ensures Over(states[j], put)
    ensures p in states[j].stores.metas && states[j].stores.metas[p].put == put ==>
              p in states[i].stores.metas && states[i].stores.metas[p].put == put
    decreases j
  {
    if i < j {
      OverStaysOver(states, events, hash, i, j - 1, put, p);
      StepKeepsOver(states[j - 1], events[j - 1], put, p, hash);
    }
  }

  lemma StepKeepsOver(s: Sys, e: Event, put: nat, p: Place, hash: string -> string)
    requires Enabled(s, e) && Over(s, put)
    ensures Over(Take(s, e, hash), put)
    ensures var s' := Take(s, e, hash);
            p in s'.stores.metas && s'.stores.metas[p].put == put ==> p in s.stores.metas && s.stores.metas[p].put == put
  {
  }

  // ---------------------------------------------------------------- integrity from conditions on the inputs

  /** The step is the blob deletion, with effect, of a DELETE that read exactly this row. */
  ghost predicate DeletesBlobOf(s: Sys, e: Event, p: Place, meta: Meta) {
    e.Call? && e.id in s.requests && e.answer.effect && s.requests[e.id] == DeleteBlobNext(p, meta)
  }

  /** After its compensation a put is over, without a row. */
  lemma LastStepEndsPut(s: Sys, e: Event, put: nat, hash: string -> string)
    requires Sound(s, hash) && Enabled(s, e) && InOneHand(s, put) && e.Call?
    requires s.requests[e.id].PutUndoing? && s.requests[e.id].put == put
    ensures Over(Take(s, e, hash), put) && Unwritten(Take(s, e, hash), put)
  {
    assert RequestSound(s, s.requests[e.id], hash);
    assert Owns(s.requests[e.id], put);
  }

  /** A step that removes the blob of a lone put is a deletion that read its row. */
  lemma RemoverIsOwnDelete(states: seq<Sys>, events: seq<Event>, hash: string -> string, i: nat, j: nat, p: Place)
    requires IsRun(states, events, hash) && j < i < |states| && p in states[i].stores.metas
    requires var meta := states[i].stores.metas[p];
             AlwaysTold(states, events, hash, meta.put) && Alone(states[i], meta.put, hash)
             && RemovesBlob(states[j], events[j], Place(p.bucket, meta.storageRef))
    ensures DeletesBlobOf(states[j], events[j], p, states[i].stores.metas[p])
  {
    var meta, s, id := states[i].stores.metas[p], states[j], events[j].id;
    RunIsSound(states, events, hash, i);
    RunIsSound(states, events, hash, j);
    assert RowOf(states[i], p, meta, hash) && RequestSound(s, s.requests[id], hash);
    match s.requests[id]
    case PutUndoing(put, h) =>
      UploadsStay(states, events, hash, j, i, put);
      assert put == meta.put;
      RunInOneHand(states, events, hash, j, put);
      assert Unwritten(s, put);
      LastStepEndsPut(s, events[j], put, hash);
      OverStaysOver(states, events, hash, j + 1, i, put, p);
      assert false;
    case DeleteBlobNext(place, read) =>
      UploadsStay(states, events, hash, j, i, read.put);
      assert read.put == meta.put;
  }

  lemma ReadRowIsOver(states: seq<Sys>, events: seq<Event>, hash: string -> string, j: nat, p: Place, meta: Meta)
    requires IsRun(states, events, hash) && j < |events| && AlwaysTold(states, events, hash, meta.put)
    requires DeletesBlobOf(states[j], events[j], p, meta)
    ensures Over(states[j], meta.put) && meta.put in states[j].uploads
    ensures Over(states[j + 1], meta.put)
  {
    RunIsSound(states, events, hash, j);
    RunInOneHand(states, events, hash, j, meta.put);
    var s := states[j];
    assert RequestSound(s, s.requests[events[j].id], hash);
    forall id | id in s.requests
      ensures !Owns(s.requests[id], meta.put)
    {
      if Owns(s.requests[id], meta.put) {
        assert false;
      }
    }
    StepKeepsOver(s, events[j], meta.put, p, hash);
  }

  /** An object whose content nobody else uploaded to the bucket, and whose metadata call was answered
      truthfully, is without its blob exactly when a DELETE that read this very row has removed it:
      no other put, delete or compensation can take it, however the requests interleave and fail. */
  lemma LostOnlyToItsOwnDelete(states: seq<Sys>, events: seq<Event>, hash: string -> string, i: nat, p: Place)
    requires IsRun(states, events, hash) && i < |states| && p in states[i].stores.metas
    requires AlwaysTold(states, events, hash, states[i].stores.metas[p].put)
    requires Alone(states[i], states[i].stores.metas[p].put, hash)
    ensures var meta := states[i].stores.metas[p];
            Place(p.bucket, meta.storageRef) !in states[i].stores.blobs
            <==> exists j | 0 <= j < i :: DeletesBlobOf(states[j], events[j], p, meta)
  {
    var meta := states[i].stores.metas[p];
    var blob := Place(p.bucket, meta.storageRef);
    BlobMissingExactly(states, events, hash, i, p);
    if RemovedSince(states, events, hash, i, blob) {
      var j :| 0 <= j < i && RemovesBlob(states[j], events[j], blob);
      RemoverIsOwnDelete(states, events, hash, i, j, p);
    }
    if j :| 0 <= j < i && DeletesBlobOf(states[j], events[j], p, meta) {
      assert RemovesBlob(states[j], events[j], blob);
      ReadRowIsOver(states, events, hash, j, p, meta);
      forall k | j < k < i
        ensures !StoresBlob(states[k], events[k], blob, hash)
      {
        NotStoredAgain(states, events, hash, j, k, i, p);
      }
    }
  }

  lemma NotStoredAgain(states: seq<Sys>, events: seq<Event>, hash: string -> string, j: nat, k: nat, i: nat, p: Place)
    requires IsRun(states, events, hash) && j < k < i < |states| && p in states[i].stores.metas
    requires Alone(states[i], states[i].stores.metas[p].put, hash)
    requires Over(states[j], states[i].stores.metas[p].put)
    ensures !StoresBlob(states[k], events[k], Place(p.bucket, states[i].stores.metas[p].storageRef), hash)
  {
    var meta := states[i].stores.metas[p];
    RunIsSound(states, events, hash, i);
    assert RowOf(states[i], p, meta, hash);
    OverStaysOver(states, events, hash, j, k, meta.put, p);
    if StoresBlob(states[k], events[k], Place(p.bucket, meta.storageRef), hash) {
      var put := states[k].requests[events[k].id].put;
      UploadsStay(states, events, hash, k, i, put);
      assert false;
    }
  }

  // ---------------------------------------------------------------- whole states

  ghost predicate DistinctContents(s: Sys, hash: string -> string) {
    forall put <- s.uploads :: Alone(s, put, hash)
  }

  /** No two uploads of the run to one bucket have the same hash, and no metadata call of a put takes
      effect while being reported failed. */
  ghost predicate Distinct(states: seq<Sys>, events: seq<Event>, hash: string -> string)
    requires IsRun(states, events, hash)
  {
    DistinctContents(states[|states| - 1], hash) && forall put: nat :: AlwaysTold(states, events, hash, put)
  }

  ghost predicate DeletesRowOf(s: Sys, e: Event, id: nat, p: Place) {
    e.Call? && e.id == id && e.answer.effect && id in s.requests && s.requests[id] == DeleteMetaNext(p)
  }

  /** Event `j` is the blob deletion of a DELETE of this row, and up to state `i` the same request has
      not deleted the row. */
  ghost predicate CutShort(states: seq<Sys>, events: seq<Event>, hash: string -> string, j: nat, i: nat, p: Place, meta: Meta)
    requires IsRun(states, events, hash) && j < i < |states|
  {
    && DeletesBlobOf(states[j], events[j], p, meta)
    && forall k | j < k < i :: !DeletesRowOf(states[k], events[k], events[j].id, p)
  }

  lemma AloneEarlier(states: seq<Sys>, events: seq<Event>, hash: string -> string, i: nat, put: nat)
    requires IsRun(states, events, hash) && i < |states| && put in states[i].uploads
    requires Alone(states[|states| - 1], put, hash)
    ensures Alone(states[i], put, hash)
  {
    UploadsStay(states, events, hash, i, |states| - 1, put);
    forall q | q in states[i].uploads && states[i].uploads[q].bucket == states[i].uploads[put].bucket
               && hash(states[i].uploads[q].body) == hash(states[i].uploads[put].body)
      ensures q == put
    {
      UploadsStay(states, events, hash, i, |states| - 1, q);
    }
  }

  lemma DeletedRowStaysAway(states: seq<Sys>, events: seq<Event>, hash: string -> string,
                            j: nat, k: nat, i: nat, p: Place, meta: Meta)
    requires IsRun(states, events, hash) && j < k < i < |states| && AlwaysTold(states, events, hash, meta.put)
    requires DeletesBlobOf(states[j], events[j], p, meta) && DeletesRowOf(states[k], events[k], events[j].id, p)
    ensures p in states[i].stores.metas ==> states[i].stores.metas[p].put != meta.put
  {
    ReadRowIsOver(states, events, hash, j, p, meta);
    OverStaysOver(states, events, hash, j + 1, k + 1, meta.put, p);
    OverStaysOver(states, events, hash, k + 1, i, meta.put, p);
  }

  /** With distinct contents, all live objects have their blobs exactly when no stored row has been read
      by a DELETE that stopped, for now or for good, between its two removals. */
  lemma IntactUnlessDeleteCutShort(states: seq<Sys>, events: seq<Event>, hash: string -> string, i: nat)
    requires IsRun(states, events, hash) && i < |states| && Distinct(states, events, hash)
    ensures Intact(states[i].stores)
       <==> forall p <- states[i].stores.metas, j | 0 <= j < i ::
              !CutShort(states, events, hash, j, i, p, states[i].stores.metas[p])
  {
    forall p | p in states[i].stores.metas
      ensures Place(p.bucket, states[i].stores.metas[p].storageRef) !in states[i].stores.blobs
         <==> exists j | 0 <= j < i :: CutShort(states, events, hash, j, i, p, states[i].stores.metas[p])
    {
      LostWhenCutShort(states, events, hash, i, p);
    }
  }

  lemma LostWhenCutShort(states: seq<Sys>, events: seq<Event>, hash: string -> string, i: nat, p: Place)
    requires IsRun(states, events, hash) && i < |states| && Distinct(states, events, hash)
    requires p in states[i].stores.metas
    ensures Place(p.bucket, states[i].stores.metas[p].storageRef) !in states[i].stores.blobs
       <==> exists j | 0 <= j < i :: CutShort(states, events, hash, j, i, p, states[i].stores.metas[p])
  {
    var meta := states[i].stores.metas[p];
    RunIsSound(states, events, hash, i);
    assert RowOf(states[i], p, meta, hash);
    UploadsStay(states, events, hash, i, |states| - 1, meta.put);
    AloneEarlier(states, events, hash, i, meta.put);
    LostOnlyToItsOwnDelete(states, events, hash, i, p);
    forall j | 0 <= j < i && DeletesBlobOf(states[j], events[j], p, meta)
      ensures CutShort(states, events, hash, j, i, p, meta)
    {
      forall k | j < k < i
        ensures !DeletesRowOf(states[k], events[k], events[j].id, p)
      {
        if DeletesRowOf(states[k], events[k], events[j].id, p) {
          DeletedRowStaysAway(states, events, hash, j, k, i, p, meta);
          assert false;
        }
      }
    }
  }

  // ---------------------------------------------------------------- the conditions are needed

  lemma Extend(states: seq<Sys>, events: seq<Event>, hash: string -> string, e: Event)
    returns (states': seq<Sys>, events': seq<Event>)
    requires IsRun(states, events, hash) && Enabled(states[|states| - 1], e)
    ensures states' == states + [Take(states[|states| - 1], e, hash)] && events' == events + [e]
    ensures IsRun(states', events', hash)
  {
    states', events' := states + [Take(states[|states| - 1], e, hash)], events + [e];
  }

  /** Uploads, without interference, content that is put on a new request. */
  lemma RunPut(states: seq<Sys>, events: seq<Event>, hash: string -> string, id: nat, put: nat, u: Upload)
    returns (states': seq<Sys>, events': seq<Event>)
    requires IsRun(states, events, hash) && id !in states[|states| - 1].requests && put !in states[|states| - 1].uploads
    requires forall e <- events | e.Call? :: e.answer == DONE
    ensures IsRun(states', events', hash) && forall e <- events' | e.Call? :: e.answer == DONE
    ensures var s, s' := states[|states| - 1], states'[|states'| - 1];
            && s'.requests == s.requests[id := Finished(true)]
            && s'.uploads == s.uploads[put := u]
            && s'.stores == AfterPut(s.stores, u.bucket, u.key, u.body, Meta(put, hash(u.body), |u.body|), DONE, DONE, DONE)
  {
    var s1, e1 := Extend(states, events, hash, BeginPut(id, put, u));
    var s2, e2 := Extend(s1, e1, hash, Call(id, DONE));
    states', events' := Extend(s2, e2, hash, Call(id, DONE));
    var s := states[|states| - 1];
    assert s.requests[id := PutStoring(put)][id := PutSaving(put, hash(u.body), |u.body|)][id := Finished(true)]
        == s.requests[id := Finished(true)];
  }

  lemma RunDelete(states: seq<Sys>, events: seq<Event>, hash: string -> string, id: nat, p: Place)
    returns (states': seq<Sys>, events': seq<Event>)
    requires IsRun(states, events, hash) && id !in states[|states| - 1].requests && p in states[|states| - 1].stores.metas
    requires forall e <- events | e.Call? :: e.answer == DONE
    ensures IsRun(states', events', hash) && forall e <- events' | e.Call? :: e.answer == DONE
    ensures var s, s' := states[|states| - 1], states'[|states'| - 1];
            && s'.requests == s.requests[id := Finished(true)]
            && s'.uploads == s.uploads
            && s'.stores == AfterDelete(s.stores, p.bucket, p.name, true, DONE, DONE)
  {
    var s := states[|states| - 1];
    var s1, e1 := Extend(states, events, hash, BeginDelete(id, p));
    var s2, e2 := Extend(s1, e1, hash, Call(id, DONE));
    var s3, e3 := Extend(s2, e2, hash, Call(id, DONE));
    states', events' := Extend(s3, e3, hash, Call(id, DONE));
    assert states'[|states'| - 1].requests == s.requests[id := Finished(true)];
  }

  /** Reads, without interference, an object whose blob is gone. */
  lemma RunLostGet(states: seq<Sys>, events: seq<Event>, hash: string -> string, id: nat, p: Place)
    returns (states': seq<Sys>, events': seq<Event>)
    requires IsRun(states, events, hash) && id !in states[|states| - 1].requests && p in states[|states| - 1].stores.metas
    requires var s := states[|states| - 1]; Place(p.bucket, s.stores.metas[p].storageRef) !in s.stores.blobs
    requires forall e <- events | e.Call? :: e.answer == DONE
    ensures IsRun(states', events', hash) && forall e <- events' | e.Call? :: e.answer == DONE
    ensures var s, s' := states[|states| - 1], states'[|states'| - 1];
            s' == s.(requests := s.requests[id := Finished(false)])
  {
    var s := states[|states| - 1];
    var s1, e1 := Extend(states, events, hash, BeginGet(id, p));
    var s2, e2 := Extend(s1, e1, hash, Call(id, DONE));
    states', events' := Extend(s2, e2, hash, Call(id, DONE));
    assert states'[|states'| - 1].requests == s.requests[id := Finished(false)];
  }

  /** Equal content under two keys of a bucket: every call succeeds, the DELETE of the first object
      completes, and the second, still stored, can no longer be read. */
  lemma SharedContentIsLost(bucket: string, key: string, other: string, body: string, hash: string -> string)
    returns (states: seq<Sys>, events: seq<Event>)
    requires key != other
    ensures IsRun(states, events, hash) && forall e <- events | e.Call? :: e.answer == DONE
    ensures var s := states[|states| - 1];
            && s.uploads == map[0 := Upload(bucket, key, body), 1 := Upload(bucket, other, body)]
            && s.requests == map[0 := Finished(true), 1 := Finished(true), 2 := Finished(true), 3 := Finished(false)]
            && s.stores == Stores(map[], map[Place(bucket, other) := Meta(1, hash(body), |body|)])
  {
    var h, p, q := hash(body), Place(bucket, key), Place(bucket, other);
    var s1, e1 := RunPut([EMPTY], [], hash, 0, 0, Upload(bucket, key, body));
    var s2, e2 := RunPut(s1, e1, hash, 1, 1, Upload(bucket, other, body));
    assert s2[|s2| - 1].stores == Stores(map[Place(bucket, h) := body], map[p := Meta(0, h, |body|), q := Meta(1, h, |body|)]);
    var s3, e3 := RunDelete(s2, e2, hash, 2, p);
    assert s3[|s3| - 1].stores == Stores(map[], map[q := Meta(1, h, |body|)]);
    states, events := RunLostGet(s3, e3, hash, 3, q);
  }

  /** A single put whose metadata call takes effect but is reported failed: its compensation removes
      the blob and the row stays. */
  lemma LateRowIsStranded(u: Upload, hash: string -> string) returns (states: seq<Sys>, events: seq<Event>)
    ensures IsRun(states, events, hash)
    ensures var s := states[|states| - 1];
            && s.uploads == map[0 := u] && s.requests == map[0 := Finished(false)]
            && s.stores == Stores(map[], map[Place(u.bucket, u.key) := Meta(0, hash(u.body), |u.body|)])
  {
    states, events := Extend([EMPTY], [], hash, BeginPut(0, 0, u));
    states, events := Extend(states, events, hash, Call(0, DONE));
    states, events := Extend(states, events, hash, Call(0, Answer(true, false)));
    states, events := Extend(states, events, hash, Call(0, DONE));
  }
}
