/** What the metadata store means: three plain maps, and what each repository operation does to
    them. Nothing here knows about cursors, partial writes or rollback. */
module MetadataState {
  import opened Results
  import opened StoreTypes
  import opened StoreKeys
  import opened Text
  import opened OrderedTable

  datatype State = State(
    records: map<string, Bucket>,
    ownerIndex: map<string, string>,
    objects: map<string, Object>)

  const EMPTY: State := State(map[], map[], map[])

  // ---------------------------------------------------------------- invariant

  ghost predicate RecordsKeyed(st: State) {
    forall n <- st.records ::
      && n == st.records[n].name && n != ""
      && NulFree(n) && NulFree(st.records[n].ownerID)
  }

  ghost predicate ObjectsKeyed(st: State) {
    forall k <- st.objects ::
      && NulFree(st.objects[k].bucketName) && NulFree(st.objects[k].objectKey)
      && k == CompositeKey(st.objects[k].bucketName, st.objects[k].objectKey)
  }

  /** Every live record has its index entry, and every entry points at a live record. */
  ghost predicate IndexExact(st: State) {
    && (forall n <- st.records | st.records[n].Live() ::
          var k := CompositeKey(st.records[n].ownerID, n);
          k in st.ownerIndex && st.ownerIndex[k] == n)
    && (forall k <- st.ownerIndex ::
          var n := st.ownerIndex[k];
          && n in st.records && st.records[n].Live()
          && k == CompositeKey(st.records[n].ownerID, n))
  }

  ghost predicate Inv(st: State) {
    RecordsKeyed(st) && ObjectsKeyed(st) && IndexExact(st)
  }

  predicate LiveBucket(st: State, name: string) {
    name in st.records && st.records[name].Live()
  }

  predicate LiveObject(st: State, bucketName: string, key: string) {
    var k := CompositeKey(bucketName, key);
    k in st.objects && st.objects[k].Live()
  }

  ghost predicate ObjectsInLiveBuckets(st: State) {
    forall k <- st.objects | st.objects[k].Live() :: LiveBucket(st, st.objects[k].bucketName)
  }

  // ---------------------------------------------------------------- selections

  /** Keys of the live objects of one bucket whose object key starts with `prefix`. */
  ghost function Selected(st: State, bucketName: string, prefix: string): set<string> {
    set k <- st.objects | st.objects[k].Live()
      && st.objects[k].bucketName == bucketName && prefix <= st.objects[k].objectKey
  }

  ghost function LiveCount(st: State, bucketName: string): nat {
    |Selected(st, bucketName, "")|
  }

  ghost function OwnedBy(st: State, ownerID: string): set<string> {
    set n <- st.records | st.records[n].Live() && st.records[n].ownerID == ownerID
  }

  const DEFAULT_LIMIT: nat := 1000

  /** The first `limit` selected objects in key order (1000 when `limit` is not positive). */
  ghost function Listing(st: State, bucketName: string, prefix: string, limit: int): seq<Object> {
    var keys := InOrder(Selected(st, bucketName, prefix));
    var n := if limit <= 0 then DEFAULT_LIMIT else limit;
    assert forall i | 0 <= i < |keys| :: keys[i] in Selected(st, bucketName, prefix);
    var rows := RowsAt(st.objects, keys);
    if |rows| <= n then rows else rows[..n]
  }

  ghost function OwnerListing(st: State, ownerID: string): seq<Bucket> {
    var names := InOrder(OwnedBy(st, ownerID));
    assert forall i | 0 <= i < |names| :: names[i] in OwnedBy(st, ownerID);
    RowsAt(st.records, names)
  }

  // ---------------------------------------------------------------- operations

  function StampBucket(b: Bucket, now: Time): Bucket {
    if b.createdAt.None? then b.(createdAt := Some(now)) else b
  }

  function StampObject(o: Object, now: Time): Object {
    if o.createdAt.None? then o.(createdAt := Some(now)) else o
  }

  function CreateError(st: State, b: Bucket): Option<StoreError> {
    if LiveBucket(st, b.name) then Some(AlreadyExists)
    else if b.name == "" then Some(KeyRequired)
    else KeyError("owner_id", b.ownerID, "bucket_name", b.name)
  }

  function AfterCreate(st: State, b: Bucket, now: Time): State {
    if CreateError(st, b).Some? then st
    else st.(records := st.records[b.name := StampBucket(b, now)],
             ownerIndex := st.ownerIndex[CompositeKey(b.ownerID, b.name) := b.name])
  }

  ghost function DeleteBucketError(st: State, name: string): Option<StoreError> {
    if !LiveBucket(st, name) then Some(NotFound)
    else if Selected(st, name, "") != {} then Some(BucketNotEmpty)
    else None
  }

  ghost function AfterDeleteBucket(st: State, name: string, now: Time): State {
    if DeleteBucketError(st, name).Some? then st
    else
      var b := st.records[name];
      st.(records := st.records[name := b.(deletedAt := Some(now))],
          ownerIndex := st.ownerIndex - {CompositeKey(b.ownerID, name)})
  }

  function PutError(o: Object): Option<StoreError> {
    KeyError("bucket_name", o.bucketName, "object_key", o.objectKey)
  }

  function AfterPut(st: State, o: Object, now: Time): State {
    if PutError(o).Some? then st
    else st.(objects := st.objects[CompositeKey(o.bucketName, o.objectKey) := StampObject(o, now)])
  }

  function ReadError(st: State, bucketName: string, key: string): Option<StoreError> {
    if !NulFree(bucketName) then Some(NullByte("bucket_name"))
    else if !NulFree(key) then Some(NullByte("object_key"))
    else if !LiveObject(st, bucketName, key) then Some(NotFound)
    else None
  }

  function AfterDeleteObject(st: State, bucketName: string, key: string, now: Time): State {
    if ReadError(st, bucketName, key).Some? then st
    else
      var k := CompositeKey(bucketName, key);
      st.(objects := st.objects[k := st.objects[k].(deletedAt := Some(now))])
  }

  // ---------------------------------------------------------------- what every operation keeps

  /** Creating keeps the invariant exactly when the bucket handed in is not marked deleted: one that
      is would be indexed without being live. The service never hands one in. */
  lemma CreateKeepsInv(st: State, b: Bucket, now: Time)
    requires Inv(st)
    ensures Inv(AfterCreate(st, b, now)) <==> b.Live() || CreateError(st, b).Some?
  {
    var st' := AfterCreate(st, b, now);
    var key := CompositeKey(b.ownerID, b.name);
    if CreateError(st, b).None? && !b.Live() {
      assert st'.ownerIndex[key] == b.name && !st'.records[b.name].Live();
    }
    if CreateError(st, b).None? && b.Live() {
      forall n | n in st'.records && st'.records[n].Live()
        ensures var k := CompositeKey(st'.records[n].ownerID, n);
                k in st'.ownerIndex && st'.ownerIndex[k] == n
      {
        if n != b.name {
          CompositeKeysDiffer(st.records[n].ownerID, n, b.ownerID, b.name);
        }
      }
      forall k | k in st'.ownerIndex
        ensures var n := st'.ownerIndex[k];
                && n in st'.records && st'.records[n].Live()
                && k == CompositeKey(st'.records[n].ownerID, n)
      {
        if k != key {
          assert st.ownerIndex[k] != b.name;
        }
      }
    }
  }

  lemma DeleteBucketKeepsInv(st: State, name: string, now: Time)
    requires Inv(st)
    ensures Inv(AfterDeleteBucket(st, name, now))
  {
  }

  /** The owner index is exact, for every owner and name whatsoever. */
  lemma OwnerIndexExact(st: State, ownerID: string, name: string)
    requires Inv(st)
    ensures var k := CompositeKey(ownerID, name);
            k in st.ownerIndex && st.ownerIndex[k] == name
            <==> LiveBucket(st, name) && st.records[name].ownerID == ownerID
  {
    var k := CompositeKey(ownerID, name);
    if k in st.ownerIndex && st.ownerIndex[k] == name {
      var owner := st.records[name].ownerID;
      assert k == CompositeKey(owner, name);
      assert |ownerID| == |owner|;
      assert k[..|owner|] == owner && k[..|ownerID|] == ownerID;
    }
  }

  // ---------------------------------------------------------------- reading what was written

  /** A bucket is refused when a live one has its name, and otherwise for the store's own reasons. */
  lemma CreateRefusedExactly(st: State, b: Bucket)
    ensures CreateError(st, b) ==
      if b.name in st.records && st.records[b.name].deletedAt.None? then Some(AlreadyExists)
      else if b.name == "" then Some(KeyRequired)
      else if '\0' in b.ownerID then Some(NullByte("owner_id"))
      else if '\0' in b.name then Some(NullByte("bucket_name"))
      else None
  {
  }

  /** A bucket created is stored as it was given, with a creation time it came with or the present one,
      and indexed under its owner; no other record, no other entry and no object moves. */
  lemma CreateThenGet(st: State, b: Bucket, now: Time, other: string)
    requires CreateError(st, b).None? && b.Live() && other != b.name
    ensures var st' := AfterCreate(st, b, now);
            && LiveBucket(st', b.name) && st'.records[b.name].ownerID == b.ownerID
            && st'.records[b.name] == b.(createdAt := if b.createdAt.Some? then b.createdAt else Some(now))
            && (other in st'.records <==> other in st.records)
            && (other in st.records ==> st'.records[other] == st.records[other])
            && st'.ownerIndex == st.ownerIndex[b.ownerID + "\0" + b.name := b.name]
            && st'.objects == st.objects
  {
    CompositeKeyText(b.ownerID, b.name);
  }

  /** A bucket can be deleted exactly when it is live and no live object lies in it. */
  lemma DeleteBucketRefusedExactly(st: State, name: string)
    ensures DeleteBucketError(st, name) ==
      if !(name in st.records && st.records[name].deletedAt.None?) then Some(NotFound)
      else if exists k <- st.objects :: st.objects[k].deletedAt.None? && st.objects[k].bucketName == name then
        Some(BucketNotEmpty)
      else None
  {
    if k :| k in st.objects && st.objects[k].deletedAt.None? && st.objects[k].bucketName == name {
      assert k in Selected(st, name, "");
    }
  }

  /** A bucket deleted is gone, from the lookup and from every owner's listing; its record keeps
      everything but the date of deletion; every other bucket and all objects stay as they are. */
  lemma DeleteBucketThenGet(st: State, name: string, now: Time, other: string)
    requires Inv(st) && DeleteBucketError(st, name).None? && other != name
    ensures var st' := AfterDeleteBucket(st, name, now);
            && st'.records[name] == st.records[name].(deletedAt := Some(now)) && !LiveBucket(st', name)
            && (forall owner, b | b in OwnerListing(st', owner) :: b.name != name)
            && (other in st'.records <==> other in st.records)
            && (other in st.records ==> st'.records[other] == st.records[other])
            && st'.ownerIndex == st.ownerIndex - {st.records[name].ownerID + "\0" + name}
            && st'.objects == st.objects
  {
    var st' := AfterDeleteBucket(st, name, now);
    DeleteBucketKeepsInv(st, name, now);
    forall owner, b | b in OwnerListing(st', owner)
      ensures b.name != name
    {
      OwnerListingExact(st', owner);
    }
    CompositeKeyText(st.records[name].ownerID, name);
  }

  /** An object put is read back as it was given, with a creation time it came with or the present one;
      every other object of every bucket, and all buckets, stay as they are. */
  lemma PutThenGet(st: State, o: Object, now: Time, bucketName: string, key: string)
    requires PutError(o).None? && o.Live() && NulFree(bucketName)
    requires bucketName != o.bucketName || key != o.objectKey
    ensures var st', k := AfterPut(st, o, now), o.bucketName + "\0" + o.objectKey;
            && ReadError(st', o.bucketName, o.objectKey).None?
            && st'.objects[k] == o.(createdAt := if o.createdAt.Some? then o.createdAt else Some(now))
            && ReadError(st', bucketName, key) == ReadError(st, bucketName, key)
            && (LiveObject(st, bucketName, key) ==>
                  st'.objects[bucketName + "\0" + key] == st.objects[bucketName + "\0" + key])
            && st'.objects - {k} == st.objects - {k}
            && st'.records == st.records && st'.ownerIndex == st.ownerIndex
  {
    CompositeKeysDiffer(bucketName, key, o.bucketName, o.objectKey);
    CompositeKeyText(o.bucketName, o.objectKey);
    CompositeKeyText(bucketName, key);
  }

  /** An object can be read, and deleted, exactly when a live row is stored under valid components. */
  lemma ReadRefusedExactly(st: State, bucketName: string, key: string)
    ensures ReadError(st, bucketName, key) ==
      if '\0' in bucketName then Some(NullByte("bucket_name"))
      else if '\0' in key then Some(NullByte("object_key"))
      else
        var k := bucketName + "\0" + key;
        if k in st.objects && st.objects[k].deletedAt.None? then None else Some(NotFound)
  {
    CompositeKeyText(bucketName, key);
  }

  /** An object deleted is gone, its row keeping everything but the date; no other row changes. */
  lemma DeleteThenGet(st: State, bucketName: string, key: string, now: Time, other: string, otherKey: string)
    requires ReadError(st, bucketName, key).None? && NulFree(other)
    requires other != bucketName || otherKey != key
    ensures var st', k := AfterDeleteObject(st, bucketName, key, now), bucketName + "\0" + key;
            && ReadError(st', bucketName, key) == Some(NotFound)
            && k in st.objects && k in st'.objects && st'.objects[k] == st.objects[k].(deletedAt := Some(now))
            && ReadError(st', other, otherKey) == ReadError(st, other, otherKey)
            && st'.objects - {k} == st.objects - {k}
            && st'.records == st.records && st'.ownerIndex == st.ownerIndex
  {
    CompositeKeysDiffer(other, otherKey, bucketName, key);
    CompositeKeyText(bucketName, key);
  }

  // ---------------------------------------------------------------- listings

  /** The keys a prefix scan selects, told from the store's own keys. */
  lemma SelectedByPrefix(st: State, bucketName: string, prefix: string, k: string)
    requires ObjectsKeyed(st) && NulFree(bucketName)
    ensures k in Selected(st, bucketName, prefix)
            <==> k in st.objects && st.objects[k].Live() && CompositeKey(bucketName, prefix) <= k
  {
    if k in st.objects {
      PrefixSelectsComponent(bucketName, prefix, st.objects[k].bucketName, st.objects[k].objectKey);
    }
  }

  /** Listings hold stored live objects of the bucket only, with the prefix, in byte order of the key, and
      never more than asked for: 1000 when the limit is not positive. */
  lemma ListingSound(st: State, bucketName: string, prefix: string, limit: int)
    requires ObjectsKeyed(st)
    ensures var r := Listing(st, bucketName, prefix, limit);
            && |r| <= (if limit <= 0 then 1000 else limit)
            && (forall o <- r :: o in st.objects.Values && o.deletedAt.None? && o.bucketName == bucketName
                                 && prefix <= o.objectKey)
            && (forall i, j | 0 <= i < j < |r| :: Less(r[i].objectKey, r[j].objectKey))
  {
    var s := Selected(st, bucketName, prefix);
    var keys, r := InOrder(s), Listing(st, bucketName, prefix, limit);
    forall i, j | 0 <= i < j < |r|
      ensures Less(r[i].objectKey, r[j].objectKey)
    {
      assert keys[i] in s && keys[j] in s;
      CompositeKeyOrder(bucketName, r[i].objectKey, r[j].objectKey);
    }
    forall o | o in r
      ensures o in st.objects.Values && o.Live() && o.bucketName == bucketName && prefix <= o.objectKey
    {
      var i :| 0 <= i < |r| && r[i] == o;
      assert keys[i] in s;
    }
  }

  /** Nothing is missed: a live object of the bucket with the prefix is left out only by a full listing of
      objects that all come before it. With `ListingSound`: a listing is exactly the first so many. */
  lemma ListingComplete(st: State, bucketName: string, prefix: string, limit: int, k: string)
    requires ObjectsKeyed(st) && k in st.objects && st.objects[k].deletedAt.None?
    requires st.objects[k].bucketName == bucketName && prefix <= st.objects[k].objectKey
    ensures var r := Listing(st, bucketName, prefix, limit);
            st.objects[k] in r
            || (|r| == (if limit <= 0 then 1000 else limit) && forall o <- r :: Less(o.objectKey, st.objects[k].objectKey))
  {
    var s := Selected(st, bucketName, prefix);
    var keys, r := InOrder(s), Listing(st, bucketName, prefix, limit);
    assert k in s && k in keys;
    var j :| 0 <= j < |keys| && keys[j] == k;
    if j < |r| {
      assert r[j] == st.objects[k];
    } else {
      forall i | 0 <= i < |r|
        ensures Less(r[i].objectKey, st.objects[k].objectKey)
      {
        assert keys[i] in s;
        CompositeKeyOrder(bucketName, r[i].objectKey, st.objects[k].objectKey);
      }
    }
  }

  /** The count is the length of the listing whenever the limit does not cut it. */
  lemma CountIsUnlimitedListing(st: State, bucketName: string, limit: int)
    requires limit >= LiveCount(st, bucketName) && limit > 0
    ensures |Listing(st, bucketName, "", limit)| == LiveCount(st, bucketName)
  {
  }

  /** An owner's listing is sorted by name, repeats nothing, and filters the live records. */
  lemma OwnerListingExact(st: State, ownerID: string)
    requires RecordsKeyed(st)
    ensures var r := OwnerListing(st, ownerID);
            && (forall i, j | 0 <= i < j < |r| :: Less(r[i].name, r[j].name))
            && (forall b :: b in r <==> b in st.records.Values && b.Live() && b.ownerID == ownerID)
  {
    var s := OwnedBy(st, ownerID);
    var keys, r := InOrder(s), OwnerListing(st, ownerID);
    forall i | 0 <= i < |keys|
      ensures r[i].name == keys[i] && r[i] in st.records.Values && r[i].Live() && r[i].ownerID == ownerID
    {
      assert keys[i] in s;
    }
    forall b | b in st.records.Values && b.Live() && b.ownerID == ownerID
      ensures b in r
    {
      var n :| n in st.records && st.records[n] == b;
      assert n in s && n in keys;
      var i :| 0 <= i < |keys| && keys[i] == n;
      assert r[i] == b;
    }
  }
}
