/** Composite keys of the metadata store: two components joined by a NUL byte. */
module StoreKeys {
  import opened Results
  import opened StoreTypes
  import opened Text

  const KEY_SEPARATOR: char := '\0'

  predicate NulFree(s: string) {
    KEY_SEPARATOR !in s
  }

  function CompositeKey(first: string, second: string): string {
    first + [KEY_SEPARATOR] + second
  }

  function ValidateKeyComponent(field: string, value: string): (r: Result<(), StoreError>)
    ensures r.Ok? <==> NulFree(value)
    ensures r.Err? ==> r.error == NullByte(field)
  {
    if KEY_SEPARATOR in value then Err(NullByte(field)) else Ok(())
  }

  /** The first of two components to hold a NUL byte decides the error. */
  function KeyError(field1: string, value1: string, field2: string, value2: string): Option<StoreError> {
    if !NulFree(value1) then Some(NullByte(field1))
    else if !NulFree(value2) then Some(NullByte(field2))
    else None
  }

  method BuildKey(field1: string, value1: string, field2: string, value2: string)
    returns (r: Result<string, StoreError>)
    ensures r == Outcome(KeyError(field1, value1, field2, value2), CompositeKey(value1, value2))
    ensures r.Ok? <==> '\0' !in value1 && '\0' !in value2
    ensures r.Ok? ==> r.value == value1 + "\0" + value2
    ensures r.Err? ==> r.error == NullByte(if '\0' in value1 then field1 else field2)
  {
    var checked := ValidateKeyComponent(field1, value1);
    if checked.Err? { return Err(checked.error); }
    checked := ValidateKeyComponent(field2, value2);
    if checked.Err? { return Err(checked.error); }
    var key := "";
    key := key + value1;
    key := key + [KEY_SEPARATOR];
    key := key + value2;
    assert key == CompositeKey(value1, value2);
    return Ok(key);
  }

  method ObjectKey(bucketName: string, objectKeyName: string) returns (r: Result<string, StoreError>)
    ensures r == Outcome(KeyError("bucket_name", bucketName, "object_key", objectKeyName), CompositeKey(bucketName, objectKeyName))
    ensures r == if '\0' in bucketName then Err(NullByte("bucket_name")) else if '\0' in objectKeyName then Err(NullByte("object_key"))
                 else Ok(bucketName + "\0" + objectKeyName)
  {
    r := BuildKey("bucket_name", bucketName, "object_key", objectKeyName);
  }

  method ObjectListPrefix(bucketName: string, userPrefix: string) returns (r: Result<string, StoreError>)
    ensures r == Outcome(KeyError("bucket_name", bucketName, "prefix", userPrefix), CompositeKey(bucketName, userPrefix))
    ensures r == if '\0' in bucketName then Err(NullByte("bucket_name")) else if '\0' in userPrefix then Err(NullByte("prefix"))
                 else Ok(bucketName + "\0" + userPrefix)
  {
    r := BuildKey("bucket_name", bucketName, "prefix", userPrefix);
  }

  method OwnerIndexKey(ownerID: string, bucketName: string) returns (r: Result<string, StoreError>)
    ensures r == Outcome(KeyError("owner_id", ownerID, "bucket_name", bucketName), CompositeKey(ownerID, bucketName))
    ensures r == if '\0' in ownerID then Err(NullByte("owner_id")) else if '\0' in bucketName then Err(NullByte("bucket_name"))
                 else Ok(ownerID + "\0" + bucketName)
  {
    r := BuildKey("owner_id", ownerID, "bucket_name", bucketName);
  }

  method OwnerIndexPrefix(ownerID: string) returns (r: Result<string, StoreError>)
    ensures r == if NulFree(ownerID) then Ok(CompositeKey(ownerID, "")) else Err(NullByte("owner_id"))
    ensures r == if '\0' in ownerID then Err(NullByte("owner_id")) else Ok(ownerID + "\0")
  {
    r := BuildKey("owner_id", ownerID, "", "");
    assert ownerID + "\0" + "" == ownerID + "\0";
  }

  /** The text of a composite key, and which components it takes. */
  lemma CompositeKeyText(first: string, second: string)
    ensures CompositeKey(first, second) == first + "\0" + second && (NulFree(first) <==> '\0' !in first)
  {
  }

  /** A composite prefix selects one first component, and a prefix of the second: no key of
      another bucket or owner starts with it. */
  lemma {:induction false} PrefixSelectsComponent(first: string, prefix: string, other: string, rest: string)
    requires NulFree(first) && NulFree(other)
    ensures CompositeKey(first, prefix) <= CompositeKey(other, rest) <==> first == other && prefix <= rest
  {
    var p, k := CompositeKey(first, prefix), CompositeKey(other, rest);
    if first == "" || other == "" {
      if p <= k {
        assert p[0] == k[0];
        assert first == other;
      }
      if first == other {
        assert p[1..] == prefix && k[1..] == rest;
      }
    } else if first[0] == other[0] {
      PrefixSelectsComponent(first[1..], prefix, other[1..], rest);
      assert p[1..] == CompositeKey(first[1..], prefix) && k[1..] == CompositeKey(other[1..], rest);
      assert first == [first[0]] + first[1..] && other == [other[0]] + other[1..];
      assert p == [first[0]] + p[1..] && k == [other[0]] + k[1..];
    } else {
      assert p[0] == first[0] && k[0] == other[0];
    }
  }

  /** Composite keys are unambiguous as long as the first component is NUL-free. */
  lemma CompositeKeyInjective(a: string, b: string, c: string, d: string)
    requires NulFree(a) && NulFree(c)
    requires CompositeKey(a, b) == CompositeKey(c, d)
    ensures a == c && b == d
  {
    PrefixSelectsComponent(a, b, c, d);
    PrefixSelectsComponent(c, d, a, b);
  }

  lemma CompositeKeysDiffer(a: string, b: string, c: string, d: string)
    requires NulFree(a) && NulFree(c) && (a != c || b != d)
    ensures CompositeKey(a, b) != CompositeKey(c, d)
  {
    if CompositeKey(a, b) == CompositeKey(c, d) {
      CompositeKeyInjective(a, b, c, d);
    }
  }

  /** Inside one bucket the store's order is the byte order of the object keys. */
  lemma CompositeKeyOrder(first: string, a: string, b: string)
    ensures Less(CompositeKey(first, a), CompositeKey(first, b)) <==> Less(a, b)
  {
    LessAfterCommonPrefix(first + [KEY_SEPARATOR], a, b);
  }
}
