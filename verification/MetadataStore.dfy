/** The bbolt database of the metadata service and its two repositories. Write operations run as
    `Update` transactions: a body that writes as it goes, and a rollback when it returns an error.
    Every method is tied to the plain maps of `MetadataState`. */
module MetadataStore {
  import opened Results
  import opened StoreTypes
  import opened StoreKeys
  import opened Text
  import opened OrderedTable
  import opened MetadataState

  class Database {
    var records: Table<Bucket>
    var ownerIndex: Table<string>
    var objects: Table<Object>

    constructor ()
      ensures Valid() && Abstract() == EMPTY
    {
      records := Table([], map[]);
      ownerIndex := Table([], map[]);
      objects := Table([], map[]);
    }

    ghost predicate TablesValid()
      reads this
    {
      records.Valid() && ownerIndex.Valid() && objects.Valid()
    }

    function Abstract(): State
      reads this
    {
      State(records.rows, ownerIndex.rows, objects.rows)
    }

    ghost predicate Valid()
      reads this
    {
      TablesValid() && RecordsKeyed(Abstract()) && ObjectsKeyed(Abstract())
    }

    /** Undo a failed transaction. */
    method Rollback(records: Table<Bucket>, ownerIndex: Table<string>, objects: Table<Object>)
      modifies this
      ensures this.records == records && this.ownerIndex == ownerIndex && this.objects == objects
    {
      this.records, this.ownerIndex, this.objects := records, ownerIndex, objects;
    }
  }

  // ---------------------------------------------------------------- what the cursor loops meet

  ghost predicate CursorOver<V>(keys: seq<string>, rows: map<string, V>) {
    Ascending(keys) && forall k :: k in keys <==> k in rows
  }

  ghost function LiveObjects(st: State): map<string, Object> {
    map k <- st.objects | st.objects[k].Live() :: st.objects[k]
  }

  /** The live records that index entries lead to. */
  ghost function IndexedBuckets(st: State): map<string, Bucket> {
    map k <- st.ownerIndex | LiveBucket(st, st.ownerIndex[k]) :: st.records[st.ownerIndex[k]]
  }

  /** A prefix scan of the objects meets the selected live objects in order. */
  lemma ObjectRun(st: State, keys: seq<string>, bucketName: string, prefix: string)
    requires ObjectsKeyed(st) && NulFree(bucketName) && CursorOver(keys, st.objects)
    ensures var p, ks := CompositeKey(bucketName, prefix), InOrder(Selected(st, bucketName, prefix));
            (forall m | 0 <= m < |ks| :: ks[m] in st.objects)
            && Run(keys, LiveObjects(st), p, Seek(keys, p)) == RowsAt(st.objects, ks)
  {
    var p, s := CompositeKey(bucketName, prefix), Selected(st, bucketName, prefix);
    forall k
      ensures k in InRange(keys, LiveObjects(st).Keys, p) <==> k in s
    {
      SelectedByPrefix(st, bucketName, prefix, k);
    }
    assert InRange(keys, LiveObjects(st).Keys, p) == s;
    RunIsInOrder(keys, LiveObjects(st), p);
  }

  /** The owner's run of an exact index meets the owner's live buckets in name order. */
  lemma OwnerRun(st: State, keys: seq<string>, ownerID: string)
    requires Inv(st) && NulFree(ownerID) && CursorOver(keys, st.ownerIndex)
    ensures var p := CompositeKey(ownerID, "");
            Run(keys, IndexedBuckets(st), p, Seek(keys, p)) == OwnerListing(st, ownerID)
  {
    var p := CompositeKey(ownerID, "");
    var s := InRange(keys, IndexedBuckets(st).Keys, p);
    var ks := InOrder(s);
    RunIsInOrder(keys, IndexedBuckets(st), p);
    forall m | 0 <= m < |ks|
      ensures ks[m] in st.ownerIndex && st.ownerIndex[ks[m]] in OwnedBy(st, ownerID)
      ensures ks[m] == CompositeKey(ownerID, st.ownerIndex[ks[m]])
    {
      assert ks[m] in s;
      var n := st.ownerIndex[ks[m]];
      PrefixSelectsComponent(ownerID, "", st.records[n].ownerID, n);
    }
    OwnerRunNames(st, ownerID, s, keys, seq(|ks|, m requires 0 <= m < |ks| => st.ownerIndex[ks[m]]));
  }

  lemma OwnerRunNames(st: State, ownerID: string, s: set<string>, keys: seq<string>, names: seq<string>)
    requires Inv(st) && NulFree(ownerID) && CursorOver(keys, st.ownerIndex)
    requires s == InRange(keys, IndexedBuckets(st).Keys, CompositeKey(ownerID, ""))
    requires |names| == |InOrder(s)|
    requires forall m | 0 <= m < |names| ::
      names[m] in OwnedBy(st, ownerID) && InOrder(s)[m] == CompositeKey(ownerID, names[m])
    ensures names == InOrder(OwnedBy(st, ownerID))
  {
    var ks := InOrder(s);
    forall i, j | 0 <= i < j < |names|
      ensures Less(names[i], names[j])
    {
      assert Less(ks[i], ks[j]);
      CompositeKeyOrder(ownerID, names[i], names[j]);
    }
    forall n | n in OwnedBy(st, ownerID)
      ensures n in names
    {
      var k := CompositeKey(ownerID, n);
      PrefixSelectsComponent(ownerID, "", ownerID, n);
      assert k in s && k in ks;
      var m :| 0 <= m < |ks| && ks[m] == k;
      assert names[m] == n;
    }
    OrderingUnique(names, InOrder(OwnedBy(st, ownerID)), OwnedBy(st, ownerID));
  }

  // ---------------------------------------------------------------- the cursor loops

  method OwnerScan(st: State, keys: seq<string>, prefix: string)
    returns (buckets: seq<Bucket>, ghost skipped: nat)
    requires CursorOver(keys, st.ownerIndex)
    ensures buckets == Run(keys, IndexedBuckets(st), prefix, Seek(keys, prefix))
    ensures IndexExact(st) ==> skipped == 0
  {
    var i := Seek(keys, prefix);
    buckets, skipped := [], 0;
    ghost var all := Run(keys, IndexedBuckets(st), prefix, i);
    while i < |keys| && prefix <= keys[i]
      invariant buckets + Run(keys, IndexedBuckets(st), prefix, i) == all
      invariant IndexExact(st) ==> skipped == 0
    {
      assert keys[i] in keys;
      var v := st.ownerIndex[keys[i]];
      if v in st.records && st.records[v].deletedAt.None? {
        buckets := buckets + [st.records[v]];
      } else {
        skipped := skipped + 1;
      }
      i := i + 1;
    }
  }

  method EmptinessScan(st: State, keys: seq<string>, prefix: string) returns (empty: bool)
    requires CursorOver(keys, st.objects)
    ensures empty <==> Run(keys, LiveObjects(st), prefix, Seek(keys, prefix)) == []
  {
    var i := Seek(keys, prefix);
    ghost var all := Run(keys, LiveObjects(st), prefix, i);
    while i < |keys| && prefix <= keys[i]
      invariant Run(keys, LiveObjects(st), prefix, i) == all
    {
      assert keys[i] in keys;
      if st.objects[keys[i]].deletedAt.None? {
        return false;
      }
      i := i + 1;
    }
    return true;
  }

  method ListScan(st: State, keys: seq<string>, prefix: string, limit: nat) returns (objects: seq<Object>)
    requires CursorOver(keys, st.objects) && limit > 0
    ensures var all := Run(keys, LiveObjects(st), prefix, Seek(keys, prefix));
            objects == if |all| <= limit then all else all[..limit]
  {
    var i := Seek(keys, prefix);
    objects := [];
    ghost var all := Run(keys, LiveObjects(st), prefix, i);
    while i < |keys| && prefix <= keys[i]
      invariant objects + Run(keys, LiveObjects(st), prefix, i) == all
      invariant |objects| <= limit
    {
      if |objects| >= limit {
        break;
      }
      assert keys[i] in keys;
      var o := st.objects[keys[i]];
      i := i + 1;
      if o.deletedAt.Some? {
        continue;
      }
      objects := objects + [o];
    }
  }

  method CountScan(st: State, keys: seq<string>, prefix: string) returns (count: nat)
    requires CursorOver(keys, st.objects)
    ensures count == |Run(keys, LiveObjects(st), prefix, Seek(keys, prefix))|
  {
    var i := Seek(keys, prefix);
    count := 0;
    ghost var all := Run(keys, LiveObjects(st), prefix, i);
    while i < |keys| && prefix <= keys[i]
      invariant count + |Run(keys, LiveObjects(st), prefix, i)| == |all|
    {
      assert keys[i] in keys;
      if st.objects[keys[i]].deletedAt.None? {
        count := count + 1;
      }
      i := i + 1;
    }
  }

  class BucketRepository {
    const db: Database

    constructor (db: Database)
      ensures this.db == db
    {
      this.db := db;
    }

    /** Body of the `Create` transaction. The record is written before the index key is validated,
        so a rejected owner leaves a partial write behind for the rollback. */
    method CreateInTx(b: Bucket, now: Time) returns (r: Result<Bucket, StoreError>)
      requires db.Valid()
      modifies db
      ensures r == Outcome(CreateError(old(db.Abstract()), b), StampBucket(b, now))
      ensures db.TablesValid()
      ensures r.Ok? ==> db.Abstract() == AfterCreate(old(db.Abstract()), b, now)
      ensures r.Err? && r.error.NullByte? ==>
        db.Abstract() == old(db.Abstract()).(records := old(db.records.rows)[b.name := StampBucket(b, now)])
    {
      if b.name in db.records.rows {
        var current := db.records.rows[b.name];
        if current.deletedAt.None? {
          return Err(AlreadyExists);
        }
      }
      var stamped := b;
      if b.createdAt.None? {
        stamped := b.(createdAt := Some(now));
      }
      if b.name == "" {
        return Err(KeyRequired);
      }
      db.records := db.records.Put(b.name, stamped);
      var idxKey := OwnerIndexKey(b.ownerID, b.name);
      if idxKey.Err? {
        return Err(idxKey.error);
      }
      db.ownerIndex := db.ownerIndex.Put(idxKey.value, b.name);
      return Ok(stamped);
    }

    method Create(b: Bucket, now: Time) returns (r: Result<Bucket, StoreError>)
      requires db.Valid()
      modifies db
      ensures db.Valid()
      ensures r == Outcome(CreateError(old(db.Abstract()), b), StampBucket(b, now))
      ensures db.Abstract() == AfterCreate(old(db.Abstract()), b, now)
      ensures old(Inv(db.Abstract())) ==> (Inv(db.Abstract()) <==> b.Live() || r.Err?)
    {
      var records, ownerIndex, objects := db.records, db.ownerIndex, db.objects;
      r := CreateInTx(b, now);
      if r.Err? {
        db.Rollback(records, ownerIndex, objects);
      }
      if Inv(old(db.Abstract())) {
        CreateKeepsInv(old(db.Abstract()), b, now);
      }
    }

    method GetByName(name: string) returns (r: Result<Bucket, StoreError>)
      ensures r.Ok? <==> LiveBucket(db.Abstract(), name)
      ensures r.Ok? ==> r.value == db.records.rows[name]
      ensures r.Err? ==> r.error == NotFound
    {
      if name !in db.records.rows {
        return Err(NotFound);
      }
      var b := db.records.rows[name];
      if b.deletedAt.Some? {
        return Err(NotFound);
      }
      return Ok(b);
    }

    /** Walks the owner's run of the index and looks every record up. When the index is exact no
        entry is ever skipped, and the result is the owner's live buckets sorted by name. */
    method ListByOwner(ownerID: string) returns (r: Result<seq<Bucket>, StoreError>, ghost skipped: nat)
      requires db.Valid()
      ensures r.Err? <==> !NulFree(ownerID)
      ensures r.Err? ==> r.error == NullByte("owner_id")
      ensures r.Ok? && Inv(db.Abstract()) ==> skipped == 0 && r.value == OwnerListing(db.Abstract(), ownerID)
    {
      skipped := 0;
      var prefix := OwnerIndexPrefix(ownerID);
      if prefix.Err? {
        return Err(prefix.error), skipped;
      }
      var buckets;
      buckets, skipped := OwnerScan(db.Abstract(), db.ownerIndex.keys, prefix.value);
      if Inv(db.Abstract()) {
        OwnerRun(db.Abstract(), db.ownerIndex.keys, ownerID);
      }
      return Ok(buckets), skipped;
    }

    /** Body of the `Delete` transaction. The index entry goes before the emptiness scan runs. */
    method DeleteInTx(name: string, now: Time) returns (r: Result<(), StoreError>)
      requires db.Valid()
      modifies db
      ensures r == Outcome(DeleteBucketError(old(db.Abstract()), name), ())
      ensures db.TablesValid()
      ensures r.Ok? ==> db.Abstract() == AfterDeleteBucket(old(db.Abstract()), name, now)
      ensures r == Err(BucketNotEmpty) ==>
        db.Abstract() == old(db.Abstract()).(ownerIndex :=
          old(db.ownerIndex.rows) - {CompositeKey(old(db.records.rows)[name].ownerID, name)})
    {
      if name !in db.records.rows {
        return Err(NotFound);
      }
      var b := db.records.rows[name];
      if b.deletedAt.Some? {
        return Err(NotFound);
      }
      var idxKey := OwnerIndexKey(b.ownerID, name);
      if idxKey.Err? {
        assert false; // stored names and owners are NUL-free
      }
      db.ownerIndex := db.ownerIndex.Delete(idxKey.value);
      var objPrefix := ObjectListPrefix(name, "");
      if objPrefix.Err? {
        assert false;
      }
      ObjectRun(db.Abstract(), db.objects.keys, name, "");
      var empty := EmptinessScan(db.Abstract(), db.objects.keys, objPrefix.value);
      if !empty {
        return Err(BucketNotEmpty);
      }
      db.records := db.records.Put(name, b.(deletedAt := Some(now)));
      return Ok(());
    }

    method Delete(name: string, now: Time) returns (r: Result<(), StoreError>)
      requires db.Valid()
      modifies db
      ensures db.Valid()
      ensures r == Outcome(DeleteBucketError(old(db.Abstract()), name), ())
      ensures db.Abstract() == AfterDeleteBucket(old(db.Abstract()), name, now)
      ensures old(Inv(db.Abstract())) ==> Inv(db.Abstract())
    {
      var records, ownerIndex, objects := db.records, db.ownerIndex, db.objects;
      r := DeleteInTx(name, now);
      if r.Err? {
        db.Rollback(records, ownerIndex, objects);
      }
      if Inv(old(db.Abstract())) {
        DeleteBucketKeepsInv(old(db.Abstract()), name, now);
      }
    }
  }

  class ObjectRepository {
    const db: Database

    constructor (db: Database)
      ensures this.db == db
    {
      this.db := db;
    }

    method Put(o: Object, now: Time) returns (r: Result<Object, StoreError>)
      requires db.Valid()
      modifies db
      ensures db.Valid()
      ensures r == Outcome(PutError(o), StampObject(o, now))
      ensures db.Abstract() == AfterPut(old(db.Abstract()), o, now)
    {
      var key := ObjectKey(o.bucketName, o.objectKey);
      if key.Err? {
        return Err(key.error);
      }
      var stamped := o;
      if o.createdAt.None? {
        stamped := o.(createdAt := Some(now));
      }
      db.objects := db.objects.Put(key.value, stamped);
      return Ok(stamped);
    }

    method Get(bucketName: string, key: string) returns (r: Result<Object, StoreError>)
      ensures r.Err? <==> ReadError(db.Abstract(), bucketName, key).Some?
      ensures r.Err? ==> r.error == ReadError(db.Abstract(), bucketName, key).value
      ensures r.Ok? ==> r.value == db.objects.rows[CompositeKey(bucketName, key)]
    {
      var objKey := ObjectKey(bucketName, key);
      if objKey.Err? {
        return Err(objKey.error);
      }
      if objKey.value !in db.objects.rows {
        return Err(NotFound);
      }
      var o := db.objects.rows[objKey.value];
      if o.deletedAt.Some? {
        return Err(NotFound);
      }
      return Ok(o);
    }

    method List(bucketName: string, prefix: string, limit: int) returns (r: Result<seq<Object>, StoreError>)
      requires db.Valid()
      ensures r == Outcome(KeyError("bucket_name", bucketName, "prefix", prefix),
                           Listing(db.Abstract(), bucketName, prefix, limit))
      ensures r.Ok? ==> |r.value| <= if limit <= 0 then 1000 else limit
    {
      ListingSound(db.Abstract(), bucketName, prefix, limit);
      var n := limit;
      if n <= 0 {
        n := 1000;
      }
      var scanPrefix := ObjectListPrefix(bucketName, prefix);
      if scanPrefix.Err? {
        return Err(scanPrefix.error);
      }
      var objects := ListScan(db.Abstract(), db.objects.keys, scanPrefix.value, n);
      ObjectRun(db.Abstract(), db.objects.keys, bucketName, prefix);
      return Ok(objects);
    }

    method Delete(bucketName: string, key: string, now: Time) returns (r: Result<(), StoreError>)
      requires db.Valid()
      modifies db
      ensures db.Valid()
      ensures r == Outcome(ReadError(old(db.Abstract()), bucketName, key), ())
      ensures db.Abstract() == AfterDeleteObject(old(db.Abstract()), bucketName, key, now)
    {
      var objKey := ObjectKey(bucketName, key);
      if objKey.Err? {
        return Err(objKey.error);
      }
      if objKey.value !in db.objects.rows {
        return Err(NotFound);
      }
      var o := db.objects.rows[objKey.value];
      if o.deletedAt.Some? {
        return Err(NotFound);
      }
      db.objects := db.objects.Put(objKey.value, o.(deletedAt := Some(now)));
      return Ok(());
    }

    method CountByBucketName(bucketName: string) returns (r: Result<nat, StoreError>)
      requires db.Valid()
      ensures r == Outcome(KeyError("bucket_name", bucketName, "prefix", ""), LiveCount(db.Abstract(), bucketName))
    {
      var scanPrefix := ObjectListPrefix(bucketName, "");
      if scanPrefix.Err? {
        return Err(scanPrefix.error);
      }
      var count := CountScan(db.Abstract(), db.objects.keys, scanPrefix.value);
      ObjectRun(db.Abstract(), db.objects.keys, bucketName, "");
      return Ok(count);
    }
  }
}
