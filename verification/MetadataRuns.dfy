/** Runs of the metadata service: its requests one after the other, and `PutObject` split into the
    two transactions it is made of. */
module MetadataRuns {
  import opened Results
  import opened StoreTypes
  import opened StoreKeys
  import opened MetadataState

  datatype Request =
    | CreateBucket(name: string, ownerID: string, id: string, now: Time)
    | DeleteBucket(name: string, now: Time)
    | PutObject(bucketName: string, key: string, sizeBytes: int, etag: string, contentType: string,
                storageRef: string, id: string, now: Time)
    | DeleteObject(bucketName: string, key: string, now: Time)

  predicate NameChar(c: char) {
    'a' <= c <= 'z' || '0' <= c <= '9'
  }

  /** The regular expression `^[a-z0-9][a-z0-9-]{1,61}[a-z0-9]$`. */
  predicate ValidBucketName(name: string) {
    && 3 <= |name| <= 63
    && NameChar(name[0]) && NameChar(name[|name| - 1])
    && forall c <- name :: NameChar(c) || c == '-'
  }

  function NewBucket(name: string, ownerID: string, id: string): Bucket {
    Bucket(id, name, ownerID, false, None, None)
  }

  function NewObject(r: Request): Object
    requires r.PutObject?
  {
    Object(r.id, r.key, r.bucketName, r.sizeBytes, r.etag, r.contentType, r.storageRef, "null", true, None, None)
  }

  /** The checks `PutObject` makes before it writes: input, then the bucket lookup. */
  function PutCheckError(st: State, r: Request): Option<StoreError>
    requires r.PutObject?
  {
    if r.bucketName == "" then Some(InvalidInput("bucket_name"))
    else if r.key == "" then Some(InvalidInput("object_key"))
    else if r.sizeBytes < 0 then Some(InvalidInput("size_bytes"))
    else if r.storageRef == "" then Some(InvalidInput("storage_ref"))
    else if !LiveBucket(st, r.bucketName) then Some(NotFound)
    else None
  }

  ghost function RequestError(st: State, r: Request): Option<StoreError> {
    match r
    case CreateBucket(name, ownerID, id, now) =>
      if !ValidBucketName(name) then Some(InvalidInput("name"))
      else if ownerID == "" then Some(InvalidInput("owner_id"))
      else CreateError(st, NewBucket(name, ownerID, id))
    case DeleteBucket(name, now) =>
      if name == "" then Some(InvalidInput("name")) else DeleteBucketError(st, name)
    case PutObject(_, _, _, _, _, _, _, _) =>
      if PutCheckError(st, r).Some? then PutCheckError(st, r) else PutError(NewObject(r))
    case DeleteObject(bucketName, key, now) =>
      if bucketName == "" then Some(InvalidInput("bucket_name"))
      else if key == "" then Some(InvalidInput("object_key"))
      else ReadError(st, bucketName, key)
  }

  ghost function Apply(st: State, r: Request): State {
    if RequestError(st, r).Some? then st
    else match r
      case CreateBucket(name, ownerID, id, now) => AfterCreate(st, NewBucket(name, ownerID, id), now)
      case DeleteBucket(name, now) => AfterDeleteBucket(st, name, now)
      case PutObject(_, _, _, _, _, _, _, now) => AfterPut(st, NewObject(r), now)
      case DeleteObject(bucketName, key, now) => AfterDeleteObject(st, bucketName, key, now)
  }

  /** The state a run of requests reaches from the empty store. */
  ghost function After(run: seq<Request>): State {
    if run == [] then EMPTY else Apply(After(run[..|run| - 1]), run[|run| - 1])
  }

  // ---------------------------------------------------------------- what a request means

  /** The expression, read as a language. */
  lemma ValidBucketNameIsRegex(name: string)
    ensures ValidBucketName(name)
       <==> && 3 <= |name| <= 63 && name[0] != '-' && name[|name| - 1] != '-'
            && forall c <- name :: c in "abcdefghijklmnopqrstuvwxyz0123456789-"
  {
    forall c: char
      ensures c in "abcdefghijklmnopqrstuvwxyz0123456789-" <==> NameChar(c) || c == '-'
    {
      NameByteIs(c);
    }
    if 3 <= |name| {
      assert name[0] in name && name[|name| - 1] in name;
    }
  }

  lemma NameByteIs(c: char)
    ensures c in "abcdefghijklmnopqrstuvwxyz0123456789-" <==> NameChar(c) || c == '-'
  {
  }

  /** The whole outcome of a bucket creation: a valid name, an owner, no live bucket of the name. */
  lemma CreateBucketRefusedExactly(st: State, r: Request)
    requires r.CreateBucket?
    ensures RequestError(st, r) ==
      if !ValidBucketName(r.name) then Some(InvalidInput("name"))
      else if r.ownerID == "" then Some(InvalidInput("owner_id"))
      else if r.name in st.records && st.records[r.name].deletedAt.None? then Some(AlreadyExists)
      else if '\0' in r.ownerID then Some(NullByte("owner_id"))
      else None
  {
    CreateRefusedExactly(st, NewBucket(r.name, r.ownerID, r.id));
    if ValidBucketName(r.name) && '\0' in r.name {
      assert false;
    }
  }

  /** A created bucket carries the request's name, owner and id, and is listed for that owner and for
      nobody else. */
  lemma CreatedBucketIsTheOwners(st: State, r: Request, someone: string)
    requires Inv(st) && r.CreateBucket? && RequestError(st, r).None?
    ensures var st' := Apply(st, r);
            var b := Bucket(id := r.id, name := r.name, ownerID := r.ownerID, isVersioned := false,
                            deletedAt := None, createdAt := Some(r.now));
            && r.name in st'.records && st'.records[r.name] == b
            && (b in OwnerListing(st', someone) <==> someone == r.ownerID)
  {
    ApplyKeepsInv(st, r);
    OwnerListingExact(Apply(st, r), someone);
    var b := Apply(st, r).records[r.name];
    assert b in Apply(st, r).records.Values;
  }

  lemma PutObjectRefusedExactly(st: State, r: Request)
    requires r.PutObject?
    ensures RequestError(st, r) ==
      if r.bucketName == "" then Some(InvalidInput("bucket_name"))
      else if r.key == "" then Some(InvalidInput("object_key"))
      else if r.sizeBytes < 0 then Some(InvalidInput("size_bytes"))
      else if r.storageRef == "" then Some(InvalidInput("storage_ref"))
      else if !(r.bucketName in st.records && st.records[r.bucketName].deletedAt.None?) then Some(NotFound)
      else if '\0' in r.bucketName then Some(NullByte("bucket_name"))
      else if '\0' in r.key then Some(NullByte("object_key"))
      else None
  {
  }

  /** A stored object carries every field of the request, and a GET finds it. */
  lemma PutObjectIsStored(st: State, r: Request)
    requires r.PutObject? && RequestError(st, r).None?
    ensures var st', k := Apply(st, r), r.bucketName + "\0" + r.key;
            && ReadError(st', r.bucketName, r.key).None? && k in st'.objects
            && st'.objects[k] == Object(
                 id := r.id, objectKey := r.key, bucketName := r.bucketName, sizeBytes := r.sizeBytes,
                 etag := r.etag, contentType := r.contentType, storageRef := r.storageRef, versionID := "null",
                 isLatest := true, createdAt := Some(r.now), deletedAt := None)
            && st'.objects - {k} == st.objects - {k} && st'.records == st.records && st'.ownerIndex == st.ownerIndex
  {
    CompositeKeyText(r.bucketName, r.key);
  }

  // ---------------------------------------------------------------- every reachable state

  ghost predicate Good(st: State) {
    Inv(st) && ObjectsInLiveBuckets(st)
  }

  lemma ApplyKeepsInv(st: State, r: Request)
    requires Inv(st)
    ensures Inv(Apply(st, r))
  {
    if RequestError(st, r).None? {
      match r
      case CreateBucket(name, ownerID, id, now) => CreateKeepsInv(st, NewBucket(name, ownerID, id), now);
      case DeleteBucket(name, now) => DeleteBucketKeepsInv(st, name, now);
      case PutObject(_, _, _, _, _, _, _, _) =>
      case DeleteObject(_, _, _) =>
    }
  }

  lemma ApplyKeepsContainment(st: State, r: Request)
    requires Good(st)
    ensures ObjectsInLiveBuckets(Apply(st, r))
  {
    if RequestError(st, r).None? && r.DeleteBucket? {
      forall k | k in st.objects && st.objects[k].Live()
        ensures st.objects[k].bucketName != r.name
      {
        assert k !in Selected(st, r.name, "");
      }
    }
  }

  lemma ApplyKeepsGood(st: State, r: Request)
    requires Good(st)
    ensures Good(Apply(st, r))
  {
    ApplyKeepsInv(st, r);
    ApplyKeepsContainment(st, r);
  }

  /** In every reachable state the owner index is exact and every live object is in a live bucket. */
  lemma {:induction false} ReachableIsGood(run: seq<Request>)
    ensures Good(After(run))
  {
    if run != [] {
      ReachableIsGood(run[..|run| - 1]);
      ApplyKeepsGood(After(run[..|run| - 1]), run[|run| - 1]);
    }
  }

  /** The owner index maps owner+NUL+name to name exactly for the live buckets of that owner. */
  lemma ReachableIndexExact(run: seq<Request>, ownerID: string, name: string)
    ensures var st, k := After(run), CompositeKey(ownerID, name);
            k in st.ownerIndex && st.ownerIndex[k] == name
            <==> LiveBucket(st, name) && st.records[name].ownerID == ownerID
  {
    ReachableIsGood(run);
    OwnerIndexExact(After(run), ownerID, name);
  }

  lemma NoBucketNoObjects(st: State, name: string)
    requires Good(st) && !LiveBucket(st, name)
    ensures Selected(st, name, "") == {}
  {
  }

  /** A bucket just created holds nothing, whatever an earlier bucket of that name held. */
  lemma CreatedBucketIsEmpty(run: seq<Request>, r: Request)
    requires r.CreateBucket? && RequestError(After(run), r).None?
    ensures LiveBucket(After(run + [r]), r.name) && LiveCount(After(run + [r]), r.name) == 0
  {
    var st := After(run);
    ReachableIsGood(run);
    NoBucketNoObjects(st, r.name);
    assert (run + [r])[..|run|] == run;
    var st' := Apply(st, r);
    assert st' == After(run + [r]) && st'.objects == st.objects;
    assert Selected(st', r.name, "") == Selected(st, r.name, "");
  }

  // ---------------------------------------------------------------- conservation of counts

  ghost function Adds(st: State, r: Request, bucketName: string): nat {
    if r.PutObject? && RequestError(st, r).None? && r.bucketName == bucketName
       && !LiveObject(st, bucketName, r.key) then 1 else 0
  }

  ghost function Removes(st: State, r: Request, bucketName: string): nat {
    if r.DeleteObject? && RequestError(st, r).None? && r.bucketName == bucketName then 1 else 0
  }

  ghost function TotalAdds(run: seq<Request>, bucketName: string): nat {
    if run == [] then 0
    else
      var front := run[..|run| - 1];
      TotalAdds(front, bucketName) + Adds(After(front), run[|run| - 1], bucketName)
  }

  ghost function TotalRemoves(run: seq<Request>, bucketName: string): nat {
    if run == [] then 0
    else
      var front := run[..|run| - 1];
      TotalRemoves(front, bucketName) + Removes(After(front), run[|run| - 1], bucketName)
  }

  lemma SelectedAfterPut(st: State, o: Object, now: Time, bucketName: string)
    requires ObjectsKeyed(st) && PutError(o).None? && o.Live()
    ensures Selected(AfterPut(st, o, now), bucketName, "")
         == Selected(st, bucketName, "")
            + if o.bucketName == bucketName then {CompositeKey(o.bucketName, o.objectKey)} else {}
  {
    var k, st' := CompositeKey(o.bucketName, o.objectKey), AfterPut(st, o, now);
    assert st'.objects[k].bucketName == o.bucketName && st'.objects[k].Live();
    if k in st.objects {
      CompositeKeyInjective(st.objects[k].bucketName, st.objects[k].objectKey, o.bucketName, o.objectKey);
    }
  }

  lemma CountAfterPut(st: State, o: Object, now: Time, bucketName: string)
    requires ObjectsKeyed(st) && PutError(o).None? && o.Live()
    ensures LiveCount(AfterPut(st, o, now), bucketName)
         == LiveCount(st, bucketName) + if o.bucketName == bucketName && !LiveObject(st, bucketName, o.objectKey) then 1 else 0
  {
    var k := CompositeKey(o.bucketName, o.objectKey);
    SelectedAfterPut(st, o, now, bucketName);
    if o.bucketName == bucketName {
      if k in st.objects {
        CompositeKeyInjective(st.objects[k].bucketName, st.objects[k].objectKey, o.bucketName, o.objectKey);
      }
      var s := Selected(st, bucketName, "");
      if k in s {
        assert s + {k} == s;
      }
    }
  }

  lemma CountAfterDelete(st: State, owner: string, key: string, now: Time, bucketName: string)
    requires ObjectsKeyed(st) && ReadError(st, owner, key).None?
    ensures LiveCount(AfterDeleteObject(st, owner, key, now), bucketName)
         == LiveCount(st, bucketName) - if owner == bucketName then 1 else 0
  {
    var k := CompositeKey(owner, key);
    var s, s' := Selected(st, bucketName, ""), Selected(AfterDeleteObject(st, owner, key, now), bucketName, "");
    CompositeKeyInjective(st.objects[k].bucketName, st.objects[k].objectKey, owner, key);
    if owner == bucketName {
      assert s' == s - {k} && k in s;
    } else {
      assert s' == s;
    }
  }

  /** One request moves the count of a bucket by what it adds to it and removes from it. */
  lemma CountStep(st: State, r: Request, bucketName: string)
    requires ObjectsKeyed(st)
    ensures LiveCount(Apply(st, r), bucketName) + Removes(st, r, bucketName)
         == LiveCount(st, bucketName) + Adds(st, r, bucketName)
  {
    if RequestError(st, r).None? && r.PutObject? {
      CountAfterPut(st, NewObject(r), r.now, bucketName);
    } else if RequestError(st, r).None? && r.DeleteObject? {
      CountAfterDelete(st, r.bucketName, r.key, r.now, bucketName);
    } else {
      assert Selected(Apply(st, r), bucketName, "") == Selected(st, bucketName, "");
    }
  }

  /** Over every run a bucket's count is what was added to it less what was removed. */
  lemma {:induction false} CountConserved(run: seq<Request>, bucketName: string)
    ensures LiveCount(After(run), bucketName) + TotalRemoves(run, bucketName) == TotalAdds(run, bucketName)
  {
    if run == [] {
      assert Selected(EMPTY, bucketName, "") == {};
    } else {
      CountConserved(run[..|run| - 1], bucketName);
      ReachableIsGood(run[..|run| - 1]);
      CountStep(After(run[..|run| - 1]), run[|run| - 1], bucketName);
    }
  }

  // ---------------------------------------------------------------- PutObject in two transactions

  /** A step of the split service: a whole request, or one half of a put. */
  datatype Step =
    | Whole(request: Request)
    | PutCheck(pid: nat, put: Request)
    | PutCommit(pid: nat, now: Time)

  /** The store, and the objects of the puts that have passed their check. */
  datatype World = World(st: State, pending: map<nat, Object>)

  ghost function Take(w: World, step: Step): World {
    match step
    case Whole(r) => w.(st := Apply(w.st, r))
    case PutCheck(pid, r) =>
      if r.PutObject? && PutCheckError(w.st, r).None? then w.(pending := w.pending[pid := NewObject(r)]) else w
    case PutCommit(pid, now) =>
      if pid in w.pending then World(AfterPut(w.st, w.pending[pid], now), w.pending - {pid}) else w
  }

  ghost function WorldAfter(steps: seq<Step>): World {
    if steps == [] then World(EMPTY, map[])
    else Take(WorldAfter(steps[..|steps| - 1]), steps[|steps| - 1])
  }

  /** A put whose halves nothing separates is the whole request. */
  lemma SplitPutIsWhole(w: World, pid: nat, r: Request)
    requires r.PutObject? && pid !in w.pending
    ensures Take(Take(w, PutCheck(pid, r)), PutCommit(pid, r.now)) == World(Apply(w.st, r), w.pending)
  {
    var w' := Take(w, PutCheck(pid, r));
    assert w'.pending - {pid} == w.pending;
  }

  /** Does this step commit an object, and if so is its bucket live at that moment? */
  ghost predicate CommitsIntoLiveBucket(w: World, step: Step) {
    if step.PutCommit? && step.pid in w.pending && PutError(w.pending[step.pid]).None? then
      LiveBucket(w.st, w.pending[step.pid].bucketName)
    else true
  }

  ghost predicate GoodWorld(w: World) {
    Inv(w.st) && forall pid <- w.pending :: w.pending[pid].Live()
  }

  lemma {:induction false} ReachableWorldIsGood(steps: seq<Step>)
    ensures GoodWorld(WorldAfter(steps))
  {
    if steps != [] {
      var w, step := WorldAfter(steps[..|steps| - 1]), steps[|steps| - 1];
      ReachableWorldIsGood(steps[..|steps| - 1]);
      if step.Whole? {
        ApplyKeepsInv(w.st, step.request);
      }
    }
  }

  lemma StepKeepsContainment(w: World, step: Step)
    requires GoodWorld(w) && ObjectsInLiveBuckets(w.st)
    ensures ObjectsInLiveBuckets(Take(w, step).st) <==> CommitsIntoLiveBucket(w, step)
  {
    match step
    case Whole(r) => ApplyKeepsGood(w.st, r);
    case PutCheck(pid, r) =>
    case PutCommit(pid, now) =>
      if pid in w.pending && PutError(w.pending[pid]).None? {
        var k := CompositeKey(w.pending[pid].bucketName, w.pending[pid].objectKey);
        assert k in Take(w, step).st.objects;
      }
  }

  /** Every state of the run, from the empty store on, has its live objects in live buckets. */
  ghost predicate AlwaysContained(steps: seq<Step>) {
    && ObjectsInLiveBuckets(WorldAfter(steps).st)
    && (steps != [] ==> AlwaysContained(steps[..|steps| - 1]))
  }

  /** Every put of the run commits while its bucket is live. */
  ghost predicate EveryCommitFindsItsBucket(steps: seq<Step>) {
    steps != [] ==>
      && EveryCommitFindsItsBucket(steps[..|steps| - 1])
      && CommitsIntoLiveBucket(WorldAfter(steps[..|steps| - 1]), steps[|steps| - 1])
  }

  /** With interleaved puts every live object stays in a live bucket throughout a run in exactly
      those runs where each put finds its bucket live when it commits. */
  lemma {:induction false} SplitPutContainment(steps: seq<Step>)
    ensures AlwaysContained(steps) <==> EveryCommitFindsItsBucket(steps)
  {
    if steps != [] {
      var front := steps[..|steps| - 1];
      SplitPutContainment(front);
      ReachableWorldIsGood(front);
      if ObjectsInLiveBuckets(WorldAfter(front).st) {
        StepKeepsContainment(WorldAfter(front), steps[|steps| - 1]);
      }
    }
  }

  /** The race is real: deleting the bucket between the check and the commit strands the object. */
  lemma DeleteBetweenCheckAndCommit()
    ensures var put := PutObject("abc", "k", 1, "", "", "ref", "o1", 3);
            var steps := [Whole(CreateBucket("abc", "me", "b1", 1)), PutCheck(0, put),
                          Whole(DeleteBucket("abc", 2)), PutCommit(0, 3)];
            !ObjectsInLiveBuckets(WorldAfter(steps).st)
  {
    var put := PutObject("abc", "k", 1, "", "", "ref", "o1", 3);
    var create, check := Whole(CreateBucket("abc", "me", "b1", 1)), PutCheck(0, put);
    var delete, commit := Whole(DeleteBucket("abc", 2)), PutCommit(0, 3);
    var w1 := Take(World(EMPTY, map[]), create);
    var w2 := Take(w1, check);
    var w3 := Take(w2, delete);
    var w4 := Take(w3, commit);
    assert LiveBucket(w1.st, "abc");
    assert Selected(w2.st, "abc", "") == {};
    assert !LiveBucket(w3.st, "abc");
    assert CompositeKey("abc", "k") in w4.st.objects;
    assert [create, check, delete, commit][..3] == [create, check, delete];
    assert [create, check, delete][..2] == [create, check];
    assert [create, check][..1] == [create];
    assert [create][..0] == [];
    assert WorldAfter([]) == World(EMPTY, map[]);
    assert WorldAfter([create]) == w1;
    assert WorldAfter([create, check]) == w2;
    assert WorldAfter([create, check, delete]) == w3;
    assert WorldAfter([create, check, delete, commit]) == w4;
  }
}
