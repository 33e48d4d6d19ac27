/** The services in front of the two repositories. */
module MetadataService {
  import opened Results
  import opened StoreTypes
  import opened StoreKeys
  import opened MetadataState
  import opened MetadataStore
  import opened MetadataRuns

  class BucketService {
    const buckets: BucketRepository

    constructor (buckets: BucketRepository)
      ensures this.buckets == buckets
    {
      this.buckets := buckets;
    }

    method CreateBucket(name: string, ownerID: string, id: string, now: Time) returns (r: Result<Bucket, StoreError>)
      requires buckets.db.Valid()
      modifies buckets.db
      ensures buckets.db.Valid()
      ensures r == Outcome(RequestError(old(buckets.db.Abstract()), Request.CreateBucket(name, ownerID, id, now)),
                           StampBucket(NewBucket(name, ownerID, id), now))
      ensures buckets.db.Abstract() == Apply(old(buckets.db.Abstract()), Request.CreateBucket(name, ownerID, id, now))
      ensures r ==
        if !ValidBucketName(name) then Err(InvalidInput("name"))
        else if ownerID == "" then Err(InvalidInput("owner_id"))
        else if name in old(buckets.db.records.rows) && old(buckets.db.records.rows)[name].deletedAt.None? then Err(AlreadyExists)
        else if '\0' in ownerID then Err(NullByte("owner_id"))
        else Ok(Bucket(id := id, name := name, ownerID := ownerID, isVersioned := false, deletedAt := None, createdAt := Some(now)))
      ensures r.Ok? && old(Good(buckets.db.Abstract())) ==> r.value in OwnerListing(buckets.db.Abstract(), ownerID)
      ensures old(Good(buckets.db.Abstract())) ==> Good(buckets.db.Abstract())
    {
      if Good(buckets.db.Abstract()) {
        ApplyKeepsGood(buckets.db.Abstract(), Request.CreateBucket(name, ownerID, id, now));
        if RequestError(buckets.db.Abstract(), Request.CreateBucket(name, ownerID, id, now)).None? {
          CreatedBucketIsTheOwners(buckets.db.Abstract(), Request.CreateBucket(name, ownerID, id, now), ownerID);
        }
      }
      CreateBucketRefusedExactly(buckets.db.Abstract(), Request.CreateBucket(name, ownerID, id, now));
      if !ValidBucketName(name) {
        return Err(InvalidInput("name"));
      }
      if ownerID == "" {
        return Err(InvalidInput("owner_id"));
      }
      r := buckets.Create(NewBucket(name, ownerID, id), now);
    }

    method DeleteBucket(name: string, now: Time) returns (r: Result<(), StoreError>)
      requires buckets.db.Valid()
      modifies buckets.db
      ensures buckets.db.Valid()
      ensures r == Outcome(RequestError(old(buckets.db.Abstract()), Request.DeleteBucket(name, now)), ())
      ensures r.Ok? <==>
        && name != "" && name in old(buckets.db.records.rows) && old(buckets.db.records.rows)[name].deletedAt.None?
        && forall o <- old(buckets.db.objects.rows).Values :: o.deletedAt.None? ==> o.bucketName != name
      ensures r.Err? ==>
        r.error == if name == "" then InvalidInput("name")
                   else if name in old(buckets.db.records.rows) && old(buckets.db.records.rows)[name].deletedAt.None?
                   then BucketNotEmpty else NotFound
      ensures r.Ok? ==>
        && buckets.db.records.rows == old(buckets.db.records.rows)[name :=
             old(buckets.db.records.rows)[name].(deletedAt := Some(now))]
        && buckets.db.objects.rows == old(buckets.db.objects.rows)
      ensures buckets.db.Abstract() == Apply(old(buckets.db.Abstract()), Request.DeleteBucket(name, now))
      ensures old(Good(buckets.db.Abstract())) ==> Good(buckets.db.Abstract())
    {
      if Good(buckets.db.Abstract()) {
        ApplyKeepsGood(buckets.db.Abstract(), Request.DeleteBucket(name, now));
      }
      DeleteBucketRefusedExactly(buckets.db.Abstract(), name);
      if name == "" {
        return Err(InvalidInput("name"));
      }
      r := buckets.Delete(name, now);
    }

    method ListBuckets(ownerID: string) returns (r: Result<seq<Bucket>, StoreError>)
      requires buckets.db.Valid() && Good(buckets.db.Abstract())
      ensures ownerID == "" ==> r == Err(InvalidInput("owner_id"))
      ensures ownerID != "" && !NulFree(ownerID) ==> r == Err(NullByte("owner_id"))
      ensures ownerID != "" && NulFree(ownerID) ==> r == Ok(OwnerListing(buckets.db.Abstract(), ownerID))
    {
      if ownerID == "" {
        return Err(InvalidInput("owner_id"));
      }
      ghost var skipped;
      r, skipped := buckets.ListByOwner(ownerID);
    }
  }

  class ObjectService {
    const objects: ObjectRepository
    const buckets: BucketRepository

    constructor (objects: ObjectRepository, buckets: BucketRepository)
      ensures this.objects == objects && this.buckets == buckets
    {
      this.objects, this.buckets := objects, buckets;
    }

    method PutObject(r: Request) returns (o: Result<Object, StoreError>)
      requires r.PutObject?
      requires objects.db == buckets.db && objects.db.Valid()
      modifies objects.db
      ensures objects.db.Valid()
      ensures o == Outcome(RequestError(old(objects.db.Abstract()), r), StampObject(NewObject(r), r.now))
      ensures objects.db.Abstract() == Apply(old(objects.db.Abstract()), r)
      ensures o ==
        if r.bucketName == "" then Err(InvalidInput("bucket_name"))
        else if r.key == "" then Err(InvalidInput("object_key"))
        else if r.sizeBytes < 0 then Err(InvalidInput("size_bytes"))
        else if r.storageRef == "" then Err(InvalidInput("storage_ref"))
        else if !(r.bucketName in old(objects.db.records.rows) && old(objects.db.records.rows)[r.bucketName].deletedAt.None?)
        then Err(NotFound)
        else if '\0' in r.bucketName then Err(NullByte("bucket_name"))
        else if '\0' in r.key then Err(NullByte("object_key"))
        else Ok(Object(id := r.id, objectKey := r.key, bucketName := r.bucketName, sizeBytes := r.sizeBytes,
                       etag := r.etag, contentType := r.contentType, storageRef := r.storageRef, versionID := "null",
                       isLatest := true, createdAt := Some(r.now), deletedAt := None))
      ensures o.Ok? ==> objects.db.objects.rows == old(objects.db.objects.rows)[r.bucketName + "\0" + r.key := o.value]
      ensures old(Good(objects.db.Abstract())) ==> Good(objects.db.Abstract())
    {
      if Good(objects.db.Abstract()) {
        ApplyKeepsGood(objects.db.Abstract(), r);
      }
      PutObjectRefusedExactly(objects.db.Abstract(), r);
      CompositeKeyText(r.bucketName, r.key);
      if r.bucketName == "" {
        return Err(InvalidInput("bucket_name"));
      }
      if r.key == "" {
        return Err(InvalidInput("object_key"));
      }
      if r.sizeBytes < 0 {
        return Err(InvalidInput("size_bytes"));
      }
      if r.storageRef == "" {
        return Err(InvalidInput("storage_ref"));
      }
      var bucket := buckets.GetByName(r.bucketName);
      if bucket.Err? {
        return Err(bucket.error);
      }
      o := objects.Put(NewObject(r), r.now);
    }

    method GetObject(bucketName: string, key: string) returns (r: Result<Object, StoreError>)
      ensures r.Ok? <==> bucketName != "" && key != "" && ReadError(objects.db.Abstract(), bucketName, key).None?
      ensures var rows, k := objects.db.objects.rows, bucketName + "\0" + key;
              r == if bucketName == "" then Err(InvalidInput("bucket_name"))
                   else if key == "" then Err(InvalidInput("object_key"))
                   else if '\0' in bucketName then Err(NullByte("bucket_name"))
                   else if '\0' in key then Err(NullByte("object_key"))
                   else if k in rows && rows[k].deletedAt.None? then Ok(rows[k])
                   else Err(NotFound)
    {
      ReadRefusedExactly(objects.db.Abstract(), bucketName, key);
      CompositeKeyText(bucketName, key);
      if bucketName == "" {
        return Err(InvalidInput("bucket_name"));
      }
      if key == "" {
        return Err(InvalidInput("object_key"));
      }
      r := objects.Get(bucketName, key);
    }

    method ListObjects(bucketName: string, prefix: string, limit: int) returns (r: Result<seq<Object>, StoreError>)
      requires objects.db.Valid()
      ensures bucketName == "" ==> r == Err(InvalidInput("bucket_name"))
      ensures bucketName != "" ==>
        r == Outcome(KeyError("bucket_name", bucketName, "prefix", prefix),
                     Listing(objects.db.Abstract(), bucketName, prefix, limit))
      ensures r.Ok? ==> |r.value| <= if limit <= 0 then 1000 else limit
    {
      if bucketName == "" {
        return Err(InvalidInput("bucket_name"));
      }
      r := objects.List(bucketName, prefix, limit);
    }

    method DeleteObject(bucketName: string, key: string, now: Time) returns (r: Result<(), StoreError>)
      requires objects.db.Valid()
      modifies objects.db
      ensures objects.db.Valid()
      ensures r == Outcome(RequestError(old(objects.db.Abstract()), Request.DeleteObject(bucketName, key, now)), ())
      ensures objects.db.Abstract() == Apply(old(objects.db.Abstract()), Request.DeleteObject(bucketName, key, now))
      ensures var rows, k := old(objects.db.objects.rows), bucketName + "\0" + key;
              && r == (if bucketName == "" then Err(InvalidInput("bucket_name"))
                       else if key == "" then Err(InvalidInput("object_key"))
                       else if '\0' in bucketName then Err(NullByte("bucket_name"))
                       else if '\0' in key then Err(NullByte("object_key"))
                       else if k in rows && rows[k].deletedAt.None? then Ok(())
                       else Err(NotFound))
              && (r.Ok? ==> objects.db.objects.rows == rows[k := rows[k].(deletedAt := Some(now))])
      ensures old(Good(objects.db.Abstract())) ==> Good(objects.db.Abstract())
    {
      if Good(objects.db.Abstract()) {
        ApplyKeepsGood(objects.db.Abstract(), Request.DeleteObject(bucketName, key, now));
      }
      ReadRefusedExactly(objects.db.Abstract(), bucketName, key);
      CompositeKeyText(bucketName, key);
      if bucketName == "" {
        return Err(InvalidInput("bucket_name"));
      }
      if key == "" {
        return Err(InvalidInput("object_key"));
      }
      r := objects.Delete(bucketName, key, now);
    }
  }
}
