/** The directory tree as the plain blob map that the object handlers work on. */
module BlobRefinement {
  import opened ObjectStores
  import opened LocalStore

  /** The tree holds exactly the blobs of the map, each under its sharded path. */
  ghost predicate Represents(files: map<Path, string>, base: Path, blobs: map<Place, string>) {
    forall n: string, h: string | |h| >= 4 ::
      && (ShardedPath(base, n, h) in files <==> Place(n, h) in blobs)
      && (Place(n, h) in blobs ==> files[ShardedPath(base, n, h)] == blobs[Place(n, h)])
  }

  /** A completed `Write` stores one blob. */
  lemma WriteRefines(files: map<Path, string>, base: Path, s: Stores, bucket: string, hash: string, body: string)
    requires |hash| >= 4 && Represents(files, base, s.blobs)
    ensures Represents(files[ShardedPath(base, bucket, hash) := body], base, StoreBlob(s, bucket, hash, body, true).blobs)
  {
    forall n: string, h: string | |h| >= 4
      ensures ShardedPath(base, n, h) == ShardedPath(base, bucket, hash) <==> Place(n, h) == Place(bucket, hash)
    {
      if ShardedPath(base, n, h) == ShardedPath(base, bucket, hash) {
        ShardedPathInjective(base, n, h, bucket, hash);
      }
    }
  }

  /** `Delete` removes one blob, and none when there is none. */
  lemma DeleteRefines(files: map<Path, string>, base: Path, s: Stores, bucket: string, hash: string)
    requires |hash| >= 4 && Represents(files, base, s.blobs)
    ensures Represents(files - {ShardedPath(base, bucket, hash)}, base, RemoveBlob(s, bucket, hash, true).blobs)
  {
    forall n: string, h: string | |h| >= 4
      ensures ShardedPath(base, n, h) == ShardedPath(base, bucket, hash) <==> Place(n, h) == Place(bucket, hash)
    {
      if ShardedPath(base, n, h) == ShardedPath(base, bucket, hash) {
        ShardedPathInjective(base, n, h, bucket, hash);
      }
    }
  }

  /** A `Write` that failed to rename leaves a temporary file, which is no blob. */
  lemma LeftoverIsNoBlob(files: map<Path, string>, base: Path, blobs: map<Place, string>, tmpName: string, body: string)
    requires Represents(files, base, blobs)
    ensures Represents(files[base + ["tmp", tmpName] := body], base, blobs)
  {
  }
}
