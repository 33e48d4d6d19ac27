/** Rows and errors of the metadata store. */
module StoreTypes {
  import opened Results

  type Time = int

  /** `createdAt == None` is Go's zero time: the repository stamps it on the way in. */
  datatype Bucket = Bucket(
    id: string,
    name: string,
    ownerID: string,
    isVersioned: bool,
    deletedAt: Option<Time>,
    createdAt: Option<Time>)
  {
    predicate Live() { deletedAt.None? }
  }

  datatype Object = Object(
    id: string,
    objectKey: string,
    bucketName: string,
    sizeBytes: int,
    etag: string,
    contentType: string,
    storageRef: string,
    versionID: string,
    isLatest: bool,
    createdAt: Option<Time>,
    deletedAt: Option<Time>)
  {
    predicate Live() { deletedAt.None? }
  }

  datatype StoreError =
    | NotFound
    | AlreadyExists
    | BucketNotEmpty
    | KeyRequired                      // bbolt refuses to store an empty key
    | NullByte(field: string)
    | InvalidInput(field: string)

  /** The error when there is one, the value otherwise. */
  function Outcome<T>(error: Option<StoreError>, value: T): Result<T, StoreError> {
    if error.Some? then Err(error.value) else Ok(value)
  }
}
