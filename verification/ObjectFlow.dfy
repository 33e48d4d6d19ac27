/** Any number of object requests at once: each upstream call of each handler is one atomic step,
    steps of different requests interleave freely, calls fail with or without effect, and a request
    may be abandoned anywhere. */
module ObjectFlow {
  import opened ObjectStores

  datatype Upload = Upload(bucket: string, key: string, body: string)

  /** What an authorized request will do next. */
  datatype Request =
    | PutStoring(put: nat)
    | PutSaving(put: nat, hash: string, size: nat)
    | PutUndoing(put: nat, hash: string)
    | GetLooking(place: Place)
    | GetReading(place: Place, meta: Meta)
    | GetDone(place: Place, meta: Meta, body: string)
    | DeleteLooking(place: Place)
    | DeleteBlobNext(place: Place, meta: Meta)
    | DeleteMetaNext(place: Place)
    | Finished(ok: bool)

  /** `uploads` is history: every put ever begun, under its unique id. */
  datatype Sys = Sys(stores: Stores, requests: map<nat, Request>, uploads: map<nat, Upload>)

  const EMPTY: Sys := Sys(Stores(map[], map[]), map[], map[])

  datatype Event =
    | BeginPut(id: nat, put: nat, upload: Upload)
    | BeginGet(id: nat, place: Place)
    | BeginDelete(id: nat, place: Place)
    | Call(id: nat, answer: Answer)
    | Abandon(id: nat)

  predicate Enabled(s: Sys, e: Event) {
    match e
    case BeginPut(id, put, _) => id !in s.requests && put !in s.uploads
    case BeginGet(id, _) => id !in s.requests
    case BeginDelete(id, _) => id !in s.requests
    case Call(id, answer) => id in s.requests && answer.Possible()
    case Abandon(id) => id in s.requests
  }

  /** The stores after the next call of a request. */
  function StoresAfter(s: Sys, r: Request, a: Answer, hash: string -> string): Stores {
    match r
    case PutStoring(put) =>
      if put in s.uploads then
        var u := s.uploads[put];
        StoreBlob(s.stores, u.bucket, hash(u.body), u.body, a.effect)
      else s.stores
    case PutSaving(put, h, size) =>
      if put in s.uploads then
        StoreMeta(s.stores, s.uploads[put].bucket, s.uploads[put].key, Meta(put, h, size), a.effect)
      else s.stores
    case PutUndoing(put, h) =>
      if put in s.uploads then RemoveBlob(s.stores, s.uploads[put].bucket, h, a.effect) else s.stores
    case DeleteBlobNext(place, meta) => RemoveBlob(s.stores, place.bucket, meta.storageRef, a.effect)
    case DeleteMetaNext(place) => RemoveMeta(s.stores, place.bucket, place.name, a.effect)
    case _ => s.stores
  }

  /** Where a request stands after its next call. */
  function RequestAfter(s: Sys, r: Request, a: Answer, hash: string -> string): Request {
    match r
    case PutStoring(put) =>
      if a.ok && put in s.uploads then PutSaving(put, hash(s.uploads[put].body), |s.uploads[put].body|)
      else Finished(false)
    case PutSaving(put, h, size) => if a.ok then Finished(true) else PutUndoing(put, h)
    case PutUndoing(_, _) => Finished(false)
    case GetLooking(place) =>
      if a.ok && place in s.stores.metas then GetReading(place, s.stores.metas[place]) else Finished(false)
    case GetReading(place, meta) =>
      var blob := Place(place.bucket, meta.storageRef);
      if a.ok && blob in s.stores.blobs then GetDone(place, meta, s.stores.blobs[blob]) else Finished(false)
    case DeleteLooking(place) =>
      if a.ok && place in s.stores.metas then DeleteBlobNext(place, s.stores.metas[place]) else Finished(false)
    case DeleteBlobNext(place, _) => if a.ok then DeleteMetaNext(place) else Finished(false)
    case DeleteMetaNext(place) => Finished(a.ok && place in s.stores.metas)
    case GetDone(_, _, _) => r
    case Finished(_) => r
  }

  function Take(s: Sys, e: Event, hash: string -> string): Sys
    requires Enabled(s, e)
  {
    match e
    case BeginPut(id, put, u) =>
      s.(requests := s.requests[id := PutStoring(put)], uploads := s.uploads[put := u])
    case BeginGet(id, place) => s.(requests := s.requests[id := GetLooking(place)])
    case BeginDelete(id, place) => s.(requests := s.requests[id := DeleteLooking(place)])
    case Call(id, a) =>
      s.(stores := StoresAfter(s, s.requests[id], a, hash),
         requests := s.requests[id := RequestAfter(s, s.requests[id], a, hash)])
    case Abandon(id) => s.(requests := s.requests[id := Finished(false)])
  }

  /** What one step does to the rows: the metadata call of a put writes the row of that put under its own
      bucket and key, the metadata call of a delete removes the row it is about, and no other step, request
      or place has a part in it. */
  lemma StepTouchesOneRow(s: Sys, e: Event, hash: string -> string)
    requires Enabled(s, e)
    ensures var s' := Take(s, e, hash);
            s'.stores.metas ==
              if e.Call? && e.answer.effect && s.requests[e.id].PutSaving? && s.requests[e.id].put in s.uploads then
                var r, u := s.requests[e.id], s.uploads[s.requests[e.id].put];
                s.stores.metas[Place(u.bucket, u.key) := Meta(r.put, r.hash, r.size)]
              else if e.Call? && e.answer.effect && s.requests[e.id].DeleteMetaNext? then
                s.stores.metas - {s.requests[e.id].place}
              else s.stores.metas
  {
  }

  /** What one step does to the blobs: the write of a put stores its body under its hash in its bucket, a
      compensation removes that blob, a delete the one its row refers to. */
  lemma StepTouchesOneBlob(s: Sys, e: Event, hash: string -> string)
    requires Enabled(s, e)
    ensures var s' := Take(s, e, hash);
            s'.stores.blobs ==
              if e.Call? && e.answer.effect && s.requests[e.id].PutStoring? && s.requests[e.id].put in s.uploads then
                var u := s.uploads[s.requests[e.id].put];
                s.stores.blobs[Place(u.bucket, hash(u.body)) := u.body]
              else if e.Call? && e.answer.effect && s.requests[e.id].PutUndoing? && s.requests[e.id].put in s.uploads then
                s.stores.blobs - {Place(s.uploads[s.requests[e.id].put].bucket, s.requests[e.id].hash)}
              else if e.Call? && e.answer.effect && s.requests[e.id].DeleteBlobNext? then
                s.stores.blobs - {Place(s.requests[e.id].place.bucket, s.requests[e.id].meta.storageRef)}
              else s.stores.blobs
  {
  }

  /** No step moves another request, and only the beginning of a put adds to the history. */
  lemma StepMovesOneRequest(s: Sys, e: Event, hash: string -> string)
    requires Enabled(s, e)
    ensures var s' := Take(s, e, hash);
            && s'.requests - {e.id} == s.requests - {e.id} && e.id in s'.requests
            && s'.uploads == if e.BeginPut? then s.uploads[e.put := e.upload] else s.uploads
  {
  }

  /** A run: `states[i + 1]` comes from `states[i]` by `events[i]`. */
  ghost predicate IsRun(states: seq<Sys>, events: seq<Event>, hash: string -> string) {
    && |states| == |events| + 1 && states[0] == EMPTY
    && forall i | 0 <= i < |events| :: Enabled(states[i], events[i]) && states[i + 1] == Take(states[i], events[i], hash)
  }

  // ---------------------------------------------------------------- what every step keeps

  /** The row was written for this upload: same place, its hash and its length. */
  ghost predicate RowOf(s: Sys, place: Place, meta: Meta, hash: string -> string) {
    meta.put in s.uploads && var u := s.uploads[meta.put];
    place == Place(u.bucket, u.key) && meta.storageRef == hash(u.body) && meta.sizeBytes == |u.body|
  }

  /** Some upload to the bucket had exactly this content. */
  ghost predicate Uploaded(s: Sys, bucket: string, body: string) {
    exists put <- s.uploads :: s.uploads[put].bucket == bucket && s.uploads[put].body == body
  }

  ghost predicate BlobsSound(s: Sys, hash: string -> string) {
    forall p <- s.stores.blobs :: p.name == hash(s.stores.blobs[p]) && Uploaded(s, p.bucket, s.stores.blobs[p])
  }

  ghost predicate RowsSound(s: Sys, hash: string -> string) {
    forall p <- s.stores.metas :: RowOf(s, p, s.stores.metas[p], hash)
  }

  ghost predicate RequestSound(s: Sys, r: Request, hash: string -> string) {
    match r
    case PutStoring(put) => put in s.uploads
    case PutSaving(put, h, size) => put in s.uploads && h == hash(s.uploads[put].body) && size == |s.uploads[put].body|
    case PutUndoing(put, h) => put in s.uploads && h == hash(s.uploads[put].body)
    case GetReading(place, meta) => RowOf(s, place, meta, hash)
    case GetDone(place, meta, body) =>
      RowOf(s, place, meta, hash) && hash(body) == meta.storageRef && Uploaded(s, place.bucket, body)
    case DeleteBlobNext(place, meta) => RowOf(s, place, meta, hash)
    case _ => true
  }

  ghost predicate Sound(s: Sys, hash: string -> string) {
    && BlobsSound(s, hash) && RowsSound(s, hash)
    && forall id <- s.requests :: RequestSound(s, s.requests[id], hash)
  }

  lemma UploadKeepsSound(s: Sys, put: nat, u: Upload, hash: string -> string)
    requires Sound(s, hash) && put !in s.uploads
    ensures Sound(s.(uploads := s.uploads[put := u]), hash)
  {
    var s' := s.(uploads := s.uploads[put := u]);
    forall b, body | Uploaded(s, b, body)
      ensures Uploaded(s', b, body)
    {
      var p :| p in s.uploads && s.uploads[p].bucket == b && s.uploads[p].body == body;
      assert p in s'.uploads;
    }
  }

  lemma CallKeepsStoresSound(s: Sys, r: Request, a: Answer, hash: string -> string)
    requires Sound(s, hash) && RequestSound(s, r, hash)
    ensures BlobsSound(s.(stores := StoresAfter(s, r, a, hash)), hash)
    ensures RowsSound(s.(stores := StoresAfter(s, r, a, hash)), hash)
  {
  }

  lemma CallKeepsRequestSound(s: Sys, r: Request, a: Answer, hash: string -> string)
    requires Sound(s, hash) && RequestSound(s, r, hash)
    ensures RequestSound(s, RequestAfter(s, r, a, hash), hash)
  {
  }

  lemma StepKeepsSound(s: Sys, e: Event, hash: string -> string)
    requires Sound(s, hash) && Enabled(s, e)
    ensures Sound(Take(s, e, hash), hash)
  {
    match e
    case BeginPut(id, put, u) => UploadKeepsSound(s, put, u, hash);
    case Call(id, a) =>
      CallKeepsStoresSound(s, s.requests[id], a, hash);
      CallKeepsRequestSound(s, s.requests[id], a, hash);
      var s' := Take(s, e, hash);
      assert forall b, body :: Uploaded(s, b, body) == Uploaded(s', b, body);
      forall other | other in s'.requests
        ensures RequestSound(s', s'.requests[other], hash)
      {
        assert RequestSound(s, s'.requests[other], hash);
      }
    case _ =>
  }

  lemma {:induction false} RunIsSound(states: seq<Sys>, events: seq<Event>, hash: string -> string, i: nat)
    requires IsRun(states, events, hash) && i < |states|
    ensures Sound(states[i], hash)
  {
    if i > 0 {
      RunIsSound(states, events, hash, i - 1);
      StepKeepsSound(states[i - 1], events[i - 1], hash);
    }
  }

  // ---------------------------------------------------------------- what a GET returns

  /** The hash does not collide on the contents uploaded in the run. */
  ghost predicate CollisionFree(s: Sys, hash: string -> string) {
    forall p <- s.uploads, q <- s.uploads | hash(s.uploads[p].body) == hash(s.uploads[q].body) ::
      s.uploads[p].body == s.uploads[q].body
  }

  /** At the step the GET `id` looked, and found this row stored under this place. */
  ghost predicate LookedUp(s: Sys, e: Event, id: nat, place: Place, meta: Meta) {
    && e.Call? && e.id == id && id in s.requests && s.requests[id] == GetLooking(place)
    && place in s.stores.metas && s.stores.metas[place] == meta
  }

  /** In every run, a GET that reads a blob or has returned one goes by a row that was stored under the
      requested key at the moment it looked. */
  lemma {:induction false} GetReadsAStoredRow(states: seq<Sys>, events: seq<Event>, hash: string -> string, i: nat, id: nat)
    requires IsRun(states, events, hash) && i < |states|
    requires id in states[i].requests && (states[i].requests[id].GetReading? || states[i].requests[id].GetDone?)
    ensures exists j | 0 <= j < i ::
              LookedUp(states[j], events[j], id, states[i].requests[id].place, states[i].requests[id].meta)
  {
    var s, e, r := states[i - 1], events[i - 1], states[i].requests[id];
    assert states[i] == Take(s, e, hash);
    if !LookedUp(s, e, id, r.place, r.meta) {
      assert id in s.requests && (s.requests[id].GetReading? || s.requests[id].GetDone?);
      GetReadsAStoredRow(states, events, hash, i - 1, id);
    }
  }

  /** In every run, whatever the interleaving and the failures, a GET that returns a body returns
      exactly what was uploaded by the one put whose row was stored under its key when it looked, and
      as many bytes as that row says. */
  lemma GetReturnsItsPut(states: seq<Sys>, events: seq<Event>, hash: string -> string, i: nat, id: nat)
    requires IsRun(states, events, hash) && i < |states| && CollisionFree(states[i], hash)
    requires id in states[i].requests && states[i].requests[id].GetDone?
    ensures var s, g := states[i], states[i].requests[id];
            && g.meta.put in s.uploads
            && s.uploads[g.meta.put] == Upload(g.place.bucket, g.place.name, g.body)
            && |g.body| == g.meta.sizeBytes
            && exists j | 0 <= j < i :: LookedUp(states[j], events[j], id, g.place, g.meta)
  {
    RunIsSound(states, events, hash, i);
    GetReadsAStoredRow(states, events, hash, i, id);
    var s, g := states[i], states[i].requests[id];
    assert RequestSound(s, g, hash);
    var p :| p in s.uploads && s.uploads[p].bucket == g.place.bucket && s.uploads[p].body == g.body;
    assert hash(s.uploads[p].body) == hash(s.uploads[g.meta.put].body);
  }

  // ---------------------------------------------------------------- the handlers are these steps

  function Play(s: Sys, id: nat, answers: seq<Answer>, hash: string -> string): Sys
    requires id in s.requests && forall a <- answers :: a.Possible()
    decreases |answers|
  {
    if answers == [] then s
    else Play(Take(s, Call(id, answers[0]), hash), id, answers[1..], hash)
  }

  lemma PlayThree(s: Sys, id: nat, a: Answer, b: Answer, c: Answer, hash: string -> string)
    requires id in s.requests && a.Possible() && b.Possible() && c.Possible()
    ensures Play(s, id, [a, b, c], hash)
         == Take(Take(Take(s, Call(id, a), hash), Call(id, b), hash), Call(id, c), hash)
  {
    var s1 := Take(s, Call(id, a), hash);
    var s2 := Take(s1, Call(id, b), hash);
    assert [a, b, c][1..] == [b, c] && [b, c][1..] == [c] && [c][1..] == [];
    assert Play(s2, id, [c], hash) == Take(s2, Call(id, c), hash);
    assert Play(s1, id, [b, c], hash) == Play(s2, id, [c], hash);
  }

  /** A put whose steps nothing interrupts leaves what its handler leaves, and ends as it answers. */
  lemma PutStepsAreHandler(s: Sys, id: nat, put: nat, u: Upload, write: Answer, row: Answer, undo: Answer,
                           hash: string -> string)
    requires id !in s.requests && put !in s.uploads && write.Possible() && row.Possible() && undo.Possible()
    ensures var s' := Play(Take(s, BeginPut(id, put, u), hash), id, [write, row, undo], hash);
            && s'.stores == AfterPut(s.stores, u.bucket, u.key, u.body, Meta(put, hash(u.body), |u.body|), write, row, undo)
            && id in s'.requests && s'.requests[id] == Finished(write.ok && row.ok)
  {
    PlayThree(Take(s, BeginPut(id, put, u), hash), id, write, row, undo, hash);
  }

  /** A delete whose steps nothing interrupts leaves what its handler leaves, and ends as it answers. */
  lemma DeleteStepsAreHandler(s: Sys, id: nat, place: Place, look: Answer, blob: Answer, row: Answer,
                              hash: string -> string)
    requires id !in s.requests && look.Possible() && blob.Possible() && row.Possible()
    ensures var s' := Play(Take(s, BeginDelete(id, place), hash), id, [look, blob, row], hash);
            && s'.stores == AfterDelete(s.stores, place.bucket, place.name, look.ok, blob, row)
            && id in s'.requests
            && s'.requests[id] == Finished(look.ok && place in s.stores.metas && blob.ok && row.ok)
  {
    var s0 := Take(s, BeginDelete(id, place), hash);
    PlayThree(s0, id, look, blob, row, hash);
  }

  /** A GET whose steps nothing interrupts returns the body of a stored object whenever its row and its
      blob are there and both calls answer, ends in an error otherwise, and changes nothing. */
  lemma GetStepsAreHandler(s: Sys, id: nat, place: Place, look: Answer, read: Answer, hash: string -> string)
    requires id !in s.requests && look.Possible() && read.Possible()
    ensures var s' := Play(Take(s, BeginGet(id, place), hash), id, [look, read], hash);
            && s'.stores == s.stores && id in s'.requests
            && s'.requests[id] ==
                 if look.ok && read.ok && place in s.stores.metas
                    && Place(place.bucket, s.stores.metas[place].storageRef) in s.stores.blobs
                 then GetDone(place, s.stores.metas[place],
                              s.stores.blobs[Place(place.bucket, s.stores.metas[place].storageRef)])
                 else Finished(false)
  {
    var s0 := Take(s, BeginGet(id, place), hash);
    var s1 := Take(s0, Call(id, look), hash);
    assert [look, read][1..] == [read] && [read][1..] == [];
    assert Play(s1, id, [read], hash) == Take(s1, Call(id, read), hash);
  }
}
