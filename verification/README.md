# ms3 verification model

ms3 is a small S3-compatible object store made of four services. This project models the parts of it
that keep state or that two parties must agree on, and proves what they promise:

- **Metadata store** (`StoreTypes`, `StoreKeys`, `OrderedTable`, `MetadataState`, `MetadataStore`,
  `MetadataService`, `MetadataRuns`): three byte-sorted namespaces (bucket records, owner index,
  objects) with NUL-joined keys, soft-deleted rows, cursor loops and transactions that roll back. The
  repositories are classes over a database whose methods write as the source does; each is proved
  against plain maps, and the invariants are proved over every run of requests.
- **Request signatures** (`Text`, `Sorting`, `UriEncoding`, `CanonicalQuery`, `CanonicalRequest`,
  `WhiteSpace`, `Authorization`, `Verification`, `PythonSigner`, `SignerAgreement`): AWS Signature
  Version 4 as the Go verifier and the Python script compute it. The canonical text determines the
  request, the parser's image is known exactly, and the two implementations agree under an exact
  condition on query, header values and payload hash.
- **Objects across two services** (`ObjectStores`, `ObjectHandlers`, `ObjectFlow`, `ObjectIntegrity`):
  the PUT, GET and DELETE handlers, each upstream call being one atomic step that can fail with or
  without effect, both run alone and interleaved without bound.
- **Blob store on disk** (`LocalStore`, `BlobRefinement`): the content-addressed directory tree, its
  clean-up walk, and its refinement of a plain blob map.
- **Credentials** (`KeyGeneration`, `Credentials`): the issuing loop, the life of an access key over
  every run, the encryption round trip, and the exact uniformity of key generation.

A Go string is a Dafny `string` whose characters stand for bytes; statements that depend on bytes being
below 256 say so with `IsBytes`. Clocks, random draws, identifiers, hash, HMAC and cipher are parameters.
Collision-freedom is assumed only of the values named in a statement.

What the code does not promise is stated as such: encoding does not keep byte order outside
`InSafeAlphabet`; a request of the script is refused when a header value holds two spaces in a row or
other inner white space (`WhiteSpace.InnerRunPartsThem`), when the payload hash is empty or padded, or
when two query pairs first differ at an unreserved byte and a later, escaped one; a delete or a
compensated put takes the blob of any other object of the bucket with the same content
(`ObjectIntegrity.SharedContentIsLost` is a run in which every call succeeds); a delete cut short between
its two removals leaves its object without a blob; an object is stranded exactly when its put commits
after its bucket was deleted; a failed rename leaves the temporary file; the namespace "tmp" can lose the
temporary directory and the base; a bucket handed to the repository already marked deleted would be
indexed. Where the repository's design notes
(`metadata-service/docs/design.md`) describe a layout keyed by identifiers, the model follows the code,
which keys everything by name. The stop directory of the clean-up walk lies on the walked path for the
namespace "objects" alone, and the specification accounts for it.

Run `dafny verify dfyconfig.toml` in this directory to verify everything.

## Model

| member | source | states |
|---|---|---|
| StoreKeys.ValidateKeyComponent | metadata-service/internal/repository/bolt/keys.go:10-15 | a component is accepted exactly when it holds no NUL byte, and the error names the field |
| StoreKeys.ObjectKey | metadata-service/internal/repository/bolt/object_keys.go:3-16 | the appended buffer is bucket, NUL, key; the first component with a NUL byte decides the error |
| StoreKeys.ObjectListPrefix | metadata-service/internal/repository/bolt/object_keys.go:18-33 | the scan prefix is bucket, NUL, user prefix, with the same errors |
| StoreKeys.OwnerIndexKey | metadata-service/internal/repository/bolt/bucket_keys.go:3-16 | the index key is owner, NUL, bucket name, owner checked first |
| StoreKeys.OwnerIndexPrefix | metadata-service/internal/repository/bolt/bucket_keys.go:18-27 | the owner's scan prefix, or the error for a NUL byte in the owner |
| StoreKeys.PrefixSelectsComponent | metadata-service/internal/repository/bolt/object_keys.go:18-33 | a composite key starts with a composite prefix if and only if the first components are equal and the second is a prefix: no scan meets another bucket's or owner's rows |
| StoreKeys.CompositeKeyInjective | metadata-service/internal/repository/bolt/keys.go:8-15 | equal composite keys have equal components, given NUL-free first components |
| StoreKeys.CompositeKeyOrder | metadata-service/internal/repository/bolt/object_keys.go:3-16 | within one bucket or owner the store's order is the byte order of the second component |
| OrderedTable.PrefixRunFromSeek | metadata-service/internal/repository/object_repository.go:110 | keys with a prefix form one contiguous run starting at Seek(prefix), so stopping at the first key without it misses nothing |
| OrderedTable.RunIsInOrder | metadata-service/internal/repository/object_repository.go:110-126 | the rows a cursor loop meets are exactly the kept rows in range, in byte order |
| MetadataStore.BucketRepository.CreateInTx | metadata-service/internal/repository/bucket_repository.go:35-71 | the transaction body: outcome, new state on success, and the partial write left when the index key is rejected |
| MetadataStore.BucketRepository.Create | metadata-service/internal/repository/bucket_repository.go:32-84 | the whole operation on the three maps: all or nothing on every error, and the invariant kept exactly when a live bucket was handed in |
| MetadataStore.BucketRepository.GetByName | metadata-service/internal/repository/bucket_repository.go:86-111 | found exactly when the record exists and is not soft-deleted |
| MetadataStore.OwnerScan | metadata-service/internal/repository/bucket_repository.go:126-146 | the index loop collects the records its entries lead to, and skips nothing when the index is exact |
| MetadataStore.BucketRepository.ListByOwner | metadata-service/internal/repository/bucket_repository.go:113-157 | in every state with the invariant the result is the owner's live buckets sorted by name, and the missing-record and deleted-record branches are never taken |
| MetadataStore.EmptinessScan | metadata-service/internal/repository/bucket_repository.go:191-204 | the scan of Delete answers whether any live row is in range |
| MetadataStore.BucketRepository.DeleteInTx | metadata-service/internal/repository/bucket_repository.go:162-214 | the transaction body: outcome, new state on success, and the index entry already gone when the bucket turns out not empty |
| MetadataStore.BucketRepository.Delete | metadata-service/internal/repository/bucket_repository.go:159-230 | the whole operation on the three maps: soft deletion and index removal together or nothing, invariant kept |
| MetadataStore.ObjectRepository.Put | metadata-service/internal/repository/object_repository.go:32-60 | the row under bucket, NUL, key is replaced and stamped, or nothing changes and the bad component is named |
| MetadataStore.ObjectRepository.Get | metadata-service/internal/repository/object_repository.go:62-92 | found exactly when a live row is stored under valid components |
| MetadataStore.ListScan | metadata-service/internal/repository/object_repository.go:110-126 | the loop collects the first `limit` live rows in range, tombstones not counting |
| MetadataStore.ObjectRepository.List | metadata-service/internal/repository/object_repository.go:94-137 | the result is the specified listing: the first limit live objects of the bucket with the prefix, never more than limit (1000 if not positive) |
| MetadataStore.ObjectRepository.Delete | metadata-service/internal/repository/object_repository.go:139-184 | the live row becomes a tombstone with its other fields kept, or nothing changes |
| MetadataStore.CountScan | metadata-service/internal/repository/object_repository.go:198-210 | the loop counts the live rows in range |
| MetadataStore.ObjectRepository.CountByBucketName | metadata-service/internal/repository/object_repository.go:186-219 | the number of live objects of the bucket |
| MetadataStore.ObjectRun | metadata-service/internal/repository/object_repository.go:101-126 | a prefix scan of the store meets exactly the selected live objects of that bucket in key order |
| MetadataStore.OwnerRun | metadata-service/internal/repository/bucket_repository.go:116-146 | the owner's run of an exact index is the owner's live buckets in name order |
| MetadataState.ListingSound | metadata-service/internal/repository/object_repository.go:94-137 | listings hold only stored live objects of that bucket with the prefix, strictly ascending by object key, and at most limit of them (1000 if not positive) |
| MetadataState.ListingComplete | metadata-service/internal/repository/object_repository.go:94-137 | a selected object left out of a listing comes after every object of a listing that is full |
| MetadataState.CountIsUnlimitedListing | metadata-service/internal/repository/object_repository.go:186-219 | the count is the length of the listing whenever the limit does not cut it |
| MetadataState.OwnerListingExact | metadata-service/internal/repository/bucket_repository.go:113-157 | an owner's listing is strictly sorted by name and holds a bucket if and only if it is a live record of that owner |
| MetadataState.CreateKeepsInv | metadata-service/internal/repository/bucket_repository.go:35-71 | create, also over a soft-deleted name by a new owner, keeps the invariant if and only if it fails or the bucket is not marked deleted |
| MetadataState.DeleteBucketKeepsInv | metadata-service/internal/repository/bucket_repository.go:162-214 | bucket deletion keeps keys well formed and the owner index exact |
| MetadataState.OwnerIndexExact | metadata-service/internal/repository/bucket_repository.go:62-68 | owner, NUL, name maps to name if and only if the record for name is live with that owner, for all strings |
| MetadataState.CreateRefusedExactly | metadata-service/internal/repository/bucket_repository.go:35-68 | the error of a create: a live bucket of the name, an empty name, a NUL byte in owner or name, in that order |
| MetadataState.CreateThenGet | metadata-service/internal/repository/bucket_repository.go:32-111 | a created bucket is stored as given, with its own or the stamped creation time, and indexed under its owner; no other record, entry or object moves |
| MetadataState.DeleteBucketRefusedExactly | metadata-service/internal/repository/bucket_repository.go:162-204 | a bucket can be deleted exactly when it is live and no live object lies in it, and which error is given otherwise |
| MetadataState.DeleteBucketThenGet | metadata-service/internal/repository/bucket_repository.go:159-230 | a deleted bucket is gone from lookup and listings with its record otherwise kept; every other bucket and all objects stay |
| MetadataState.PutThenGet | metadata-service/internal/repository/object_repository.go:32-92 | an object put is read back as given, with its own or the stamped creation time; every other row and all buckets stay as they are |
| MetadataState.ReadRefusedExactly | metadata-service/internal/repository/object_repository.go:62-92 | an object is found exactly when a live row is stored under bucket, NUL, key, both NUL-free, and which error is given otherwise |
| MetadataState.DeleteThenGet | metadata-service/internal/repository/object_repository.go:62-184 | a deleted object is not found and its row keeps all but the date; no other row changes |
| MetadataService.BucketService.CreateBucket | metadata-service/internal/service/bucket_service.go:28-52 | the outcome in full: the first failing check, or the bucket with the given name, owner and id, which the owner's listing then holds; the state stays good |
| MetadataService.BucketService.DeleteBucket | metadata-service/internal/service/bucket_service.go:68-78 | deleted exactly if named, live and without live objects, which error otherwise, and what changes; the state stays good |
| MetadataService.BucketService.ListBuckets | metadata-service/internal/service/bucket_service.go:61-66 | an empty owner is refused; otherwise the owner's listing in every good state |
| MetadataService.ObjectService.PutObject | metadata-service/internal/service/object_service.go:28-70 | the outcome in full: the first failing check, or the object with every field of the request, stored under its key; the state stays good |
| MetadataService.ObjectService.GetObject | metadata-service/internal/service/object_service.go:72-80 | found exactly for non-empty arguments with a live row; otherwise the first failing check decides the error |
| MetadataService.ObjectService.ListObjects | metadata-service/internal/service/object_service.go:82-87 | an empty bucket name is refused; otherwise the specified listing, never longer than the limit |
| MetadataService.ObjectService.DeleteObject | metadata-service/internal/service/object_service.go:89-102 | the outcome in full, and the one row that becomes a tombstone; the state stays good |
| MetadataRuns.ValidBucketNameIsRegex | metadata-service/internal/service/bucket_service.go:15-16 | a valid name has 3 to 63 of the listed bytes and no hyphen at either end |
| MetadataRuns.CreateBucketRefusedExactly | metadata-service/internal/service/bucket_service.go:28-49 | every reason to refuse a creation, in order |
| MetadataRuns.CreatedBucketIsTheOwners | metadata-service/internal/service/bucket_service.go:40-52 | the stored bucket has the request's name, owner and id and is listed for that owner and nobody else |
| MetadataRuns.PutObjectRefusedExactly | metadata-service/internal/service/object_service.go:28-66 | every reason to refuse a put, in order |
| MetadataRuns.PutObjectIsStored | metadata-service/internal/service/object_service.go:52-70 | the stored object has every field of the request, version "null", and no other row changes |
| MetadataRuns.ReachableIsGood | metadata-service/internal/service/object_service.go:48-66 | after every run of requests the owner index is exact and every live object lies in a live bucket |
| MetadataRuns.ReachableIndexExact | metadata-service/internal/repository/bucket_repository.go:35-71 | after every run, owner, NUL, name is indexed exactly for the live buckets of that owner |
| MetadataRuns.CreatedBucketIsEmpty | metadata-service/internal/repository/bucket_repository.go:186-213 | a bucket created after any run, also over a deleted one, holds no live object |
| MetadataRuns.CountStep | metadata-service/internal/repository/object_repository.go:186-219 | a put over an absent or deleted key adds one, over a live key nothing, a delete takes one away, and no other bucket's count changes |
| MetadataRuns.CountConserved | metadata-service/internal/repository/object_repository.go:186-219 | over every run the count is what was added less what was removed |
| MetadataRuns.StepKeepsContainment | metadata-service/internal/service/object_service.go:48-66 | with PutObject split into check and commit, a step keeps live objects in live buckets if and only if a committing put finds its bucket live |
| MetadataRuns.SplitPutIsWhole | metadata-service/internal/service/object_service.go:48-66 | check and commit with nothing in between are the whole PutObject |
| MetadataRuns.SplitPutContainment | metadata-service/internal/service/object_service.go:48-66 | over every run of interleaved puts, containment holds throughout if and only if every commit finds its bucket live |
| MetadataRuns.DeleteBetweenCheckAndCommit | metadata-service/internal/service/object_service.go:48-66 | the run create, check, delete bucket, commit strands an object |
| UriEncoding.EncodeUri | api-service/internal/sigv4/sigv4.go:194-208 | the encoding loop computes the byte-wise percent-encoding |
| UriEncoding.DecodeOfEncode | api-service/internal/sigv4/sigv4.go:194-213 | percent-decoding recovers every byte string, with or without slash encoding |
| UriEncoding.EncodeConcat | api-service/internal/sigv4/sigv4.go:194-208 | encoding goes byte by byte |
| UriEncoding.EncodeOneByte | api-service/internal/sigv4/sigv4.go:190-213 | one byte: left alone if a letter, digit, '-', '.', '_', '~' or a path's slash, otherwise a percent sign and two upper-case hexadecimal digits |
| UriEncoding.EncodingLeavesAlone | api-service/internal/sigv4/sigv4.go:194-208 | exactly the strings with nothing to escape are left as they are |
| UriEncoding.EncodedAlphabet | api-service/internal/sigv4/sigv4.go:190-213 | encoded text holds only unreserved bytes, percent signs and, in paths, slashes |
| UriEncoding.EncodeKeepsOrder | api-service/internal/sigv4/sigv4.go:194-213 | over an order-safe alphabet encoding keeps strict byte order in both directions |
| UriEncoding.OrderSafeIsExact | api-service/internal/sigv4/sigv4.go:194-213 | an alphabet's order is kept on all strings if and only if each escaped byte precedes each byte left alone |
| UriEncoding.SafeAlphabetIsLargest | api-service/internal/sigv4/sigv4.go:210-213 | of the alphabets with all unreserved bytes, exactly those within bytes up to 0x2C and the unreserved set are safe |
| UriEncoding.FirstDifferenceDecides | api-service/internal/sigv4/sigv4.go:194-213 | of two strings in byte order, encoding keeps the order if and only if they do not first differ at an unreserved byte of the first and an escaped byte of the second |
| UriEncoding.BraceBreaksOrder | scripts/sigv4-request.py:58-61 | a concrete pair, '{' and 'z', whose order encoding reverses |
| CanonicalQuery.BuildCanonicalQueryString | api-service/internal/sigv4/sigv4.go:172-188 | whatever order the map yields its keys in, the nested loops produce the one canonical string |
| CanonicalQuery.PairsAreTheQuery | api-service/internal/sigv4/sigv4.go:172-188 | the signed pairs are exactly the query's values under their keys, with multiplicity |
| CanonicalQuery.PairsInOrderSorted | api-service/internal/sigv4/sigv4.go:177-183 | sorting keys, then values under each key, sorts the pairs |
| CanonicalQuery.QueryTextDecodes | api-service/internal/sigv4/sigv4.go:172-208 | splitting at '&' and '=' and percent-decoding recovers exactly the sorted list of all pairs |
| CanonicalQuery.QueryTextAlphabet | api-service/internal/sigv4/sigv4.go:172-208 | the query string holds only unreserved bytes, percent signs, '=' and '&': slashes are escaped |
| CanonicalQuery.QueryTextIsCanonical | api-service/internal/sigv4/sigv4.go:172-208 | two queries share a string if and only if they hold the same multiset of pairs |
| CanonicalRequest.BuildCanonicalRequest | api-service/internal/sigv4/sigv4.go:129-163 | the loops over headers and values produce the canonical text |
| CanonicalRequest.CanonicalTextExactly | api-service/internal/sigv4/sigv4.go:148-162 | the text written out: method, path, query, header lines, signed names and payload hash in that order |
| CanonicalRequest.SignedValueExactly | api-service/internal/sigv4/sigv4.go:131-146 | all values of a repeated header are signed, in order and comma-joined; an absent header is empty; the host is the request's own |
| CanonicalRequest.PayloadExactly | api-service/internal/sigv4/sigv4.go:150-153 | the first value of the payload header, or "UNSIGNED-PAYLOAD" |
| CanonicalRequest.PlainPathStays | api-service/internal/sigv4/sigv4.go:165-170 | a path of unreserved bytes and slashes is signed as it is, the empty one as "/" |
| WhiteSpace.RunBecomesOneSpace | api-service/internal/sigv4/sigv4.go:215-217 | a value is normalised word by word: ends trimmed, each inner run of white space one space |
| CanonicalRequest.TextIsLines | api-service/internal/sigv4/sigv4.go:148-162 | the text is its lines joined by newlines, header block and blank line included |
| CanonicalRequest.CanonicalTextUnambiguous | api-service/internal/sigv4/sigv4.go:129-208 | texts are equal if and only if method, path (empty equal to "/"), pair multiset, signed header list, each signed value and payload hash are, for newline-free parts and header lists as the parser splits them, colons in names included |
| Authorization.ParseAuthorization | api-service/internal/sigv4/sigv4.go:55-96 | the loops compute the specified parse, with a later field of the same name overriding |
| Authorization.FieldsExactly | api-service/internal/sigv4/sigv4.go:61-68 | a field has the value of the last part of its name, up to the first '=', or is missing |
| Authorization.FieldsAcceptedExactly | api-service/internal/sigv4/sigv4.go:62-66 | the parts are taken if and only if each has an '=' |
| Authorization.ParseExactly | api-service/internal/sigv4/sigv4.go:55-96 | for every header and credential, one parses to the other if and only if algorithm, the three fields, the four parts before "aws4_request", signature and sorted names agree |
| Authorization.OtherTerminatorIsRefused | api-service/internal/sigv4/sigv4.go:77-80 | a credential that does not end in "/aws4_request" is refused |
| Authorization.ParseIsCanonical | api-service/internal/sigv4/sigv4.go:61-95 | every accepted header yields a canonical credential: clean parts, and header names trimmed, lower-case and sorted |
| Authorization.ParseOfPrint | api-service/internal/sigv4/sigv4.go:52-96 | every canonical credential is parsed back from its printed header |
| Authorization.ParsePrintParse | api-service/internal/sigv4/sigv4.go:55-96 | for every accepted header, printing the credential and parsing again gives the same credential |
| Authorization.OrderAndSpacingIrrelevant | api-service/internal/sigv4/sigv4.go:61-75 | the parse of three fields does not depend on their order nor on white space around the commas |
| Authorization.LayoutParses | api-service/internal/sigv4/sigv4.go:55-96 | any layout of a canonical credential's fields parses to that credential |
| Verification.Verify | api-service/internal/sigv4/sigv4.go:101-127 | missing date, bad date, outside the window and mismatch in that order; accepted if and only if the signature, in either case, is the standard's five nested HMACs of secret, date, region, service and string to sign |
| Verification.AcceptedRequestsAgree | api-service/internal/sigv4/sigv4.go:101-163 | one signature accepted for two requests, under any credentials and secrets: secret, scope, date and everything signed agree, unless a hash collides on the way to the two |
| Verification.VerifyOtherSigning | api-service/internal/sigv4/sigv4.go:101-127 | a signature is accepted inside the window if it was made from what the verifier uses, and one made under another secret, scope, date or request only with a collision |
| Verification.OtherSecretIsRefused | api-service/internal/sigv4/sigv4.go:225-230 | a request signed with another secret is never accepted without a collision |
| Verification.SignatureExactly | api-service/internal/sigv4/sigv4.go:115-121 | the signature written out as the standard does |
| Verification.HexExactly | api-service/internal/sigv4/sigv4.go:232-235 | two lower-case hexadecimal digits for each byte |
| PythonSigner.EncodeUriPy | scripts/sigv4-request.py:46-55 | the script's encoder computes the same encoding as the Go one |
| PythonSigner.QueryStringsAgree | scripts/sigv4-request.py:58-61 | encode-then-sort equals sort-then-encode if and only if no two pairs at hand first differ at an unreserved byte against a later, escaped one |
| PythonSigner.QueryStringsAgreeOverSafeAlphabet | scripts/sigv4-request.py:58-61 | over the order-safe alphabet the two query strings are always equal |
| WhiteSpace.NormalizeIsStrip | scripts/sigv4-request.py:76 | for every value, the script's strip equals the verifier's trimming and collapsing if and only if the value has no white space but single inner spaces and what both sides trim |
| WhiteSpace.DeliveredNormalizesAlike | api-service/internal/sigv4/sigv4.go:140-143 | the optional white space an HTTP server drops around a value does not change what the verifier signs |
| WhiteSpace.InnerRunPartsThem | scripts/sigv4-request.py:76 | with "a  b" the two differ |
| PythonSigner.SignRequest | scripts/sigv4-request.py:64-103 | the dictionary returned: caller's headers, host, date, payload default and the printed Authorization header |
| PythonSigner.SentHeadersExactly | scripts/sigv4-request.py:70-73 | which headers are sent with which values, name by name |
| PythonSigner.AuthorizationExactly | scripts/sigv4-request.py:87-102 | the Authorization header written out, with the five nested HMACs under "us-east-1" and "s3" |
| SignerAgreement.CanonicalTextsAgree | scripts/sigv4-request.py:75-85 | the verifier rebuilds the signed canonical request if and only if encoding keeps the order of the query pairs, every signed header value is tidy, and the payload hash is neither empty nor padded |
| SignerAgreement.SignerIsAccepted | scripts/sigv4-request.py:64-103 | the header the script makes parses to the signer's credential; inside the skew window the request is accepted if the secrets are equal and that condition holds, and otherwise, or outside the window, never without a hash collision |
| ObjectHandlers.Gateway.HandlePutObject | api-service/api/handlers.go:106-129 | all rows and blobs and the status after each outcome of write, metadata call and compensation, refusals of the metadata call forwarded; a created object is what a GET returns and keeps every blob |
| ObjectHandlers.Gateway.HandleGetObject | api-service/api/handlers.go:144-160 | a body exactly when both calls answer and row and blob exist, and then the blob under the row's reference; otherwise the status the failing call leads to |
| ObjectHandlers.Gateway.HandleDeleteObject | api-service/api/handlers.go:206-221 | all rows and blobs and the status after each outcome of lookup and the two removals; no-content exactly after a complete delete, which keeps every blob if and only if no other object of the bucket has that content |
| ObjectStores.PutTouchesItsOwn | api-service/api/handlers.go:106-129 | however its calls go, a put leaves every other row and every blob of other content as it was |
| ObjectStores.DeleteTouchesItsOwn | api-service/api/handlers.go:206-221 | however its calls go, a delete leaves every other row, and every blob but the one its row refers to, as it was |
| ObjectStores.SuccessfulPutKeepsIntact | api-service/api/handlers.go:106-129 | a completed put always keeps every live object's blob |
| ObjectStores.PutKeepsIntact | api-service/api/handlers.go:106-129 | however its calls go, a put breaks integrity if and only if a compensation takes effect while the row was saved all the same or a live object of the bucket already had that content |
| ObjectStores.LateMetadataBreaksIntact | api-service/api/handlers.go:122-127 | a metadata call that took effect but was reported failed is always left without its blob |
| ObjectStores.FailedRewriteLosesObject | api-service/api/handlers.go:122-127 | re-uploading identical content while the metadata call fails loses the object's blob |
| ObjectStores.DeleteKeepsIntact | api-service/api/handlers.go:206-221 | however its calls go, a delete keeps integrity if and only if it removes no blob, or removes blob and row and no other live object of the bucket has that content |
| ObjectStores.AttemptsInBetween | api-service/api/handlers.go:206-221 | any number of interrupted deletes leaves the stores as before, without the blob, or completely deleted |
| ObjectStores.RetriedDeleteCompletes | api-service/api/handlers.go:206-221 | the first uninterrupted retry reaches the stores of an uninterrupted delete |
| ObjectFlow.StepKeepsSound | api-service/api/handlers.go:92-222 | every step of every interleaving keeps blobs, rows and pending requests traceable to one upload each |
| ObjectFlow.RunIsSound | api-service/api/handlers.go:92-222 | every state of every run is sound |
| ObjectFlow.StepTouchesOneRow | api-service/api/handlers.go:122-217 | in every interleaving only a put's metadata call writes a row, its own, and only a delete's removes one, its own |
| ObjectFlow.StepTouchesOneBlob | api-service/api/handlers.go:110-212 | in every interleaving a step stores or removes at most the one blob its request is about |
| ObjectFlow.GetReturnsItsPut | api-service/api/handlers.go:132-161 | in every run a GET that returns a body returns exactly the content of the one put whose row was stored under its key when it looked, as long as that row says |
| ObjectFlow.GetReadsAStoredRow | api-service/api/handlers.go:144-152 | in every run the row a GET goes by was stored under the requested key at the step at which that GET looked |
| ObjectIntegrity.BlobMissingExactly | api-service/api/handlers.go:92-222 | in every state of every run a live object lacks its blob if and only if some step removed that content from the bucket and no write has stored it since |
| ObjectIntegrity.LostOnlyToItsOwnDelete | api-service/api/handlers.go:92-222 | in every run, an object whose content no other upload brought to the bucket and whose metadata call was answered truthfully lacks its blob if and only if a DELETE that read exactly its row has removed it |
| ObjectIntegrity.IntactUnlessDeleteCutShort | api-service/api/handlers.go:92-222 | in every state of a run with distinct contents and truthful metadata answers, all live objects have their blobs if and only if no stored row was read by a DELETE that stands between its two removals |
| ObjectIntegrity.SharedContentIsLost | api-service/api/handlers.go:206-221 | a run in which every call succeeds: equal content under two keys, one DELETE, and the other object cannot be read any more |
| ObjectIntegrity.LateRowIsStranded | api-service/api/handlers.go:122-127 | a run of one put whose metadata call takes effect but is reported failed: the row stays without its blob |
| ObjectFlow.PutStepsAreHandler | api-service/api/handlers.go:106-129 | uninterrupted, the put's steps leave what its handler leaves and end as it answers |
| ObjectFlow.DeleteStepsAreHandler | api-service/api/handlers.go:206-221 | uninterrupted, the delete's steps leave what its handler leaves and end as it answers |
| ObjectFlow.GetStepsAreHandler | api-service/api/handlers.go:144-160 | uninterrupted, a GET returns the stored body whenever row and blob are there, and changes nothing |
| LocalStore.Store.Read | data-service/internal/backend/localfs/store.go:74-83 | the file at the sharded path if there is one; nothing for a hash too short to shard |
| LocalStore.Store.Write | data-service/internal/backend/localfs/store.go:42-68 | on success hash, size, the blob in place and its directories; on failure no file changes, except the temporary file a failed rename leaves |
| LocalStore.Store.Delete | data-service/internal/backend/localfs/store.go:85-97 | exactly the blob and the directories it leaves empty are removed, nothing when removal is denied or the hash is too short; outside "tmp" base and tmp stay |
| LocalStore.Store.CleanUpEmptyDirs | data-service/internal/backend/localfs/store.go:99-109 | the walk terminates and removes exactly the ancestors with nothing below them but the way to the blob, as far up as no removal is refused |
| LocalStore.EmptiedExactly | data-service/internal/backend/localfs/store.go:99-109 | which directories go, for every namespace, in terms of paths alone: those on the way with nothing else below, in the namespace "objects" only below it |
| LocalStore.ShardedPathInjective | data-service/internal/backend/localfs/store.go:70-72 | different namespaces or hashes have different paths |
| LocalStore.ShardedPathParts | data-service/internal/backend/localfs/store.go:70-72 | namespace, "objects", two levels of two characters, whole hash |
| LocalStore.BaseSurvives | data-service/internal/backend/localfs/store.go:99-109 | outside the namespace "tmp" neither base, nor tmp, nor anything above is ever among the removed directories |
| LocalStore.TmpNamespaceRemovesBase | data-service/internal/backend/localfs/store.go:99-109 | in the namespace "tmp" the temporary directory, the base and each directory above go exactly when they hold only the way to the blob and no removal up to them is refused |
| LocalStore.StopPathOnTheWay | data-service/internal/backend/localfs/store.go:100-102 | the stop directory is on the walked path for the namespace "objects" and for no other |
| BlobRefinement.WriteRefines | data-service/internal/backend/localfs/store.go:42-68 | a completed write is one update of the plain blob map |
| BlobRefinement.DeleteRefines | data-service/internal/backend/localfs/store.go:85-97 | a delete is one removal from the plain blob map, also of an absent blob |
| BlobRefinement.LeftoverIsNoBlob | data-service/internal/backend/localfs/store.go:66-67 | the temporary file of a failed rename is not a blob of any namespace |
| KeyGeneration.RandomStringFromAlphabet | auth-service/internal/service/credential_service.go:195-204 | the buffer is rewritten in place to the letters its bytes map to |
| KeyGeneration.ByteStringsSize | auth-service/internal/service/credential_service.go:195-199 | there are 256^n byte strings of length n |
| KeyGeneration.GenerationIsUniform | auth-service/internal/service/credential_service.go:20-26 | for every n, each text of n base32 letters comes from exactly 8^n byte strings |
| KeyGeneration.AccessKeySuffixIsUniform | auth-service/internal/service/credential_service.go:187-193 | each 16-letter suffix comes from exactly 8^16 byte strings |
| Credentials.CredentialRepository.Create | auth-service/internal/repository/credential_repository.go:32-68 | a fresh key is stored and stamped; a bad or taken key, live or revoked, changes nothing |
| Credentials.CredentialRepository.GetByAccessKey | auth-service/internal/repository/credential_repository.go:70-100 | found exactly when present and not revoked |
| Credentials.CredentialRepository.Revoke | auth-service/internal/repository/credential_repository.go:102-146 | a live credential becomes revoked once, anything else changes nothing |
| Credentials.DecryptOfEncrypt | auth-service/internal/service/credential_service.go:136-173 | decrypting undoes encrypting for every plaintext and nonce, and what is stored is the nonce followed by the plaintext sealed under it |
| Credentials.CredentialService.IssueCredential | auth-service/internal/service/credential_service.go:45-97 | at most five create attempts; on success the key, the secret encoding the drawn bytes, the owner and the stored row in full, on failure no change |
| Credentials.CredentialService.RevokeCredential | auth-service/internal/service/credential_service.go:99-104 | an empty key is refused without effect; otherwise the repository's revocation, with its result |
| Credentials.CredentialService.LookupCredential | auth-service/internal/service/credential_service.go:118-134 | owner and decrypted secret of a live key, or the first error on the way |
| Credentials.PickedKeyIsFresh | auth-service/internal/service/credential_service.go:66-88 | the first drawn key not in the store is picked; a failed draw before it ends the issue; giving up as taken means every draw was taken |
| Credentials.AccessKeyShape | auth-service/internal/service/credential_service.go:187-193 | "AKIA" and one base32 letter for each byte drawn |
| Credentials.IssueSucceedsExactly | auth-service/internal/service/credential_service.go:45-97 | issuing succeeds if and only if user, generator and cipher do and a drawn key is free before any draw fails |
| Credentials.SecretIsTheDraw | auth-service/internal/service/credential_service.go:56-97 | decoding the secret handed out gives exactly the bytes drawn; owner, date and sealed secret of the row |
| Credentials.DifferentDrawsDifferentSecrets | auth-service/internal/service/credential_service.go:206-212 | issues with different draws never share a secret |
| Credentials.IssueAddsOneFreshKey | auth-service/internal/service/credential_service.go:45-97 | success adds exactly one fresh access key and touches no other row; failure changes nothing |
| Credentials.RevokeTakesEffect | auth-service/internal/repository/credential_repository.go:102-146 | a revoked key is not found, cannot be revoked again, and other keys look up as before |
| Credentials.KeysAreForEver | auth-service/internal/repository/credential_repository.go:32-146 | over every run a key keeps its first owner, secret and date for ever and moves only from live to revoked |
| Credentials.NeverReissued | auth-service/internal/repository/credential_repository.go:41-44 | no access key is issued twice in a run |
| Credentials.LookupReturnsIssuedSecret | auth-service/internal/service/credential_service.go:118-134 | from issue until revocation a lookup gives the first owner and exactly the issued secret, and not-found afterwards |

## Left out

- Text.Trim: white space and letter case are ASCII only; Go's and Python's Unicode rules for them, and Go's replacement of invalid UTF-8 when lowering case, are not modelled.
- SignerAgreement.SignerIsAccepted: starts from the URL already split and the pairs already decoded; `urlsplit`, `parse_qsl`, Go's URL and query parsing and percent-escaped input paths are not modelled. Header names are those the parser keeps as they are (lower case, trimmed, without ';' and ','), values are ASCII, and HTTP's own refusals of control bytes are not modelled.
- OrderedTable.Run: stands for the bbolt cursor over a sorted namespace; pages, file locks and limits on key sizes are not modelled.
- MetadataStore.ObjectRepository.List: the JSON codec of rows is the identity, and cancellation of the request context inside a scan is not modelled; neither changes any state.
- LocalStore.ShardedPath: namespace and the parts of a hash are plain path segments; the cleaning `filepath.Join` does on "", ".", ".." and slashes is not modelled.
- LocalStore.Store.Write: the copy is one step; short reads and the bytes of a partial upload are not modelled.
- ObjectFlow.GetReturnsItsPut: streaming a blob to the client is one step; a transfer cut short is not modelled. Rows are the live rows only, soft deletion being the metadata store's part of the model. Rows are found by the exact key; `api-service/clients/metadata/client_metadata.go:212` and `:228` put the key into a URL unescaped, so a key holding '?', '#' or '%' can reach metadata-service as another key.
- Credentials.CredentialService.IssueCredential: the user lookup is an input; the user repository and its indexes are not part of this model.
- Ownership checks, bearer tokens, passwords, the disabled signature middleware and its fixed local principal: each is one branch.
- HTTP servers, clients, timeouts, health checks, logging, configuration, schema versions and shutdown.
- SHA-256, HMAC, AES-GCM, base64, UUIDs and time formats: parameters with the laws a statement names.
