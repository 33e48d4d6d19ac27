/** The object handlers of api-service, each a sequence of calls to data-service and
    metadata-service. How each call goes is an input. */
module ObjectHandlers {
  import opened Results
  import opened ObjectStores

  datatype Status = Created | NoContent | NotFound | Conflict | BadRequest | BadGateway

  /** What a call answers with when it does not answer as asked. `WriteUpstreamError` forwards the first
      three kinds of metadata-service and turns the rest into a bad gateway. */
  datatype Refusal = Missing | Clash | Invalid | Other

  function Forwarded(r: Refusal): Status {
    match r
    case Missing => NotFound
    case Clash => Conflict
    case Invalid => BadRequest
    case Other => BadGateway
  }

  class Gateway {
    var blobs: map<Place, string>
    var metas: map<Place, Meta>
    const hash: string -> string

    constructor (hash: string -> string)
      ensures this.hash == hash && Current() == Stores(map[], map[])
    {
      blobs, metas := map[], map[];
      this.hash := hash;
    }

    ghost function Current(): Stores
      reads this
    {
      Stores(blobs, metas)
    }

    // -------------------------------------------------------------- upstream calls

    method WriteBlob(bucket: string, body: string, a: Answer) returns (r: Option<(string, nat)>)
      requires a.Possible()
      modifies this`blobs
      ensures Current() == StoreBlob(old(Current()), bucket, hash(body), body, a.effect)
      ensures r == if a.ok then Some((hash(body), |body|)) else None
    {
      if a.effect {
        blobs := blobs[Place(bucket, hash(body)) := body];
      }
      if a.ok {
        return Some((hash(body), |body|));
      }
      return None;
    }

    method DeleteBlob(bucket: string, h: string, a: Answer) returns (ok: bool)
      requires a.Possible()
      modifies this`blobs
      ensures Current() == RemoveBlob(old(Current()), bucket, h, a.effect)
      ensures ok == a.ok
    {
      if a.effect {
        blobs := blobs - {Place(bucket, h)};
      }
      return a.ok;
    }

    method PutObjectMeta(bucket: string, key: string, meta: Meta, a: Answer) returns (ok: bool)
      requires a.Possible()
      modifies this`metas
      ensures Current() == StoreMeta(old(Current()), bucket, key, meta, a.effect)
      ensures ok == a.ok
    {
      if a.effect {
        metas := metas[Place(bucket, key) := meta];
      }
      return a.ok;
    }

    method DeleteObjectMeta(bucket: string, key: string, a: Answer) returns (ok: bool)
      requires a.Possible()
      modifies this`metas
      ensures Current() == RemoveMeta(old(Current()), bucket, key, a.effect)
      ensures ok == (a.ok && Place(bucket, key) in old(metas))
    {
      ok := a.ok && Place(bucket, key) in metas;
      if a.effect {
        metas := metas - {Place(bucket, key)};
      }
    }

    // -------------------------------------------------------------- handlers

    /** What a GET of this object would return. */
    ghost predicate Holds(bucket: string, key: string, body: string)
      reads this
    {
      && Place(bucket, key) in metas && metas[Place(bucket, key)].sizeBytes == |body|
      && var blob := Place(bucket, metas[Place(bucket, key)].storageRef);
      blob in blobs && blobs[blob] == body
    }

    /** `refusal` is how metadata-service answers a call that is not answered as asked. */
    method HandlePutObject(bucket: string, key: string, body: string, put: nat,
                           write: Answer, row: Answer, undo: Answer, refusal: Refusal) returns (status: Status)
      requires write.Possible() && row.Possible() && undo.Possible()
      modifies this
      ensures Current() == AfterPut(old(Current()), bucket, key, body, Meta(put, hash(body), |body|), write, row, undo)
      ensures metas == if write.ok && row.effect then old(metas)[Place(bucket, key) := Meta(put, hash(body), |body|)]
                       else old(metas)
      ensures blobs == if write.ok && !row.ok && undo.effect then old(blobs) - {Place(bucket, hash(body))}
                       else if write.effect then old(blobs)[Place(bucket, hash(body)) := body]
                       else old(blobs)
      ensures status == if !write.ok then BadGateway else if row.ok then Created else Forwarded(refusal)
      ensures status == Created && old(Intact(Current())) ==> Intact(Current())
      ensures status == Created ==> Holds(bucket, key, body)
    {
      var stored := WriteBlob(bucket, body, write);
      if stored.None? {
        return BadGateway;
      }
      var saved := PutObjectMeta(bucket, key, Meta(put, stored.value.0, stored.value.1), row);
      if !saved {
        var _ := DeleteBlob(bucket, stored.value.0, undo);
        return Forwarded(refusal);
      }
      return Created;
    }

    method HandleGetObject(bucket: string, key: string, metaOk: bool, blobOk: bool, refusal: Refusal)
      returns (r: Result<string, Status>)
      ensures r.Ok? <==> metaOk && blobOk && Place(bucket, key) in metas
                         && Place(bucket, metas[Place(bucket, key)].storageRef) in blobs
      ensures r.Ok? ==> r.value == blobs[Place(bucket, metas[Place(bucket, key)].storageRef)]
      ensures forall body | Holds(bucket, key, body) && metaOk && blobOk :: r == Ok(body)
      ensures r.Err? ==> r.error == if !metaOk then Forwarded(refusal)
                                    else if Place(bucket, key) !in metas || blobOk then NotFound else BadGateway
    {
      if !metaOk {
        return Err(Forwarded(refusal));
      }
      if Place(bucket, key) !in metas {
        return Err(NotFound);
      }
      var meta := metas[Place(bucket, key)];
      if !blobOk {
        return Err(BadGateway);
      }
      if Place(bucket, meta.storageRef) !in blobs {
        return Err(NotFound);
      }
      return Ok(blobs[Place(bucket, meta.storageRef)]);
    }

    method HandleDeleteObject(bucket: string, key: string, metaOk: bool, blob: Answer, row: Answer, refusal: Refusal)
      returns (status: Status)
      requires blob.Possible() && row.Possible()
      modifies this
      ensures Current() == AfterDelete(old(Current()), bucket, key, metaOk, blob, row)
      ensures metas == if metaOk && Place(bucket, key) in old(metas) && blob.ok && row.effect
                       then old(metas) - {Place(bucket, key)} else old(metas)
      ensures blobs == if metaOk && Place(bucket, key) in old(metas) && blob.effect
                       then old(blobs) - {Place(bucket, old(metas)[Place(bucket, key)].storageRef)} else old(blobs)
      ensures status == NoContent ==> Current() == AfterDelete(old(Current()), bucket, key, true, DONE, DONE)
      ensures status == NoContent ==> Place(bucket, key) !in metas
      ensures status ==
        if !metaOk then Forwarded(refusal)
        else if Place(bucket, key) !in old(metas) then NotFound
        else if !blob.ok then BadGateway
        else if row.ok then NoContent
        else Forwarded(refusal)
      ensures status == NoContent && old(Intact(Current())) ==>
        (Intact(Current()) <==> !old(Shared(Current(), bucket, key, metas[Place(bucket, key)].storageRef)))
    {
      if !metaOk {
        return Forwarded(refusal);
      }
      if Place(bucket, key) !in metas {
        return NotFound;
      }
      if Intact(Current()) {
        DeleteKeepsIntact(Current(), bucket, key, metaOk, blob, row);
      }
      var meta := metas[Place(bucket, key)];
      var removed := DeleteBlob(bucket, meta.storageRef, blob);
      if !removed {
        return BadGateway;
      }
      var deleted := DeleteObjectMeta(bucket, key, row);
      if !deleted {
        return Forwarded(refusal);
      }
      return NoContent;
    }
  }
}
