/** One bbolt namespace: a map whose keys a cursor visits in byte order. */
module OrderedTable {
  import opened Text
  import Sorting

  ghost predicate Ascending(keys: seq<string>) {
    forall i, j {:trigger Less(keys[i], keys[j])} | 0 <= i < j < |keys| :: Less(keys[i], keys[j])
  }

  /** Index of the first key at or after `key`: where a cursor stands after `Seek`. */
  function Seek(keys: seq<string>, key: string): (i: nat)
    ensures i <= |keys|
    ensures forall j | 0 <= j < i :: Less(keys[j], key)
    ensures i < |keys| ==> AtMost(key, keys[i])
  {
    if keys == [] || !Less(keys[0], key) then 0 else 1 + Seek(keys[1..], key)
  }

  datatype Table<V> = Table(keys: seq<string>, rows: map<string, V>) {
    ghost predicate Valid() {
      && Ascending(keys)
      && (forall k <- keys :: k in rows)
      && (forall k <- rows :: k in keys)
    }

    /** `Bucket.Put`. */
    function Put(key: string, row: V): (t: Table<V>)
      requires Valid()
      ensures t.Valid() && t.rows == rows[key := row]
    {
      var i := Seek(keys, key);
      if i < |keys| && keys[i] == key then
        Table(keys, rows[key := row])
      else
        InsertKeepsOrder(keys, key);
        Table(keys[..i] + [key] + keys[i..], rows[key := row])
    }

    /** `Bucket.Delete`: silent when the key is absent. */
    function Delete(key: string): (t: Table<V>)
      requires Valid()
      ensures t.Valid() && t.rows == rows - {key}
    {
      var i := Seek(keys, key);
      if i < |keys| && keys[i] == key then
        RemoveKeepsOrder(keys, i);
        Table(keys[..i] + keys[i + 1..], rows - {key})
      else
        SeekMissesAbsent(keys, key);
        assert rows - {key} == rows;
        this
    }
  }

  lemma SeekIsSplit(keys: seq<string>, key: string)
    requires Ascending(keys)
    ensures forall j | Seek(keys, key) <= j < |keys| :: AtMost(key, keys[j])
    ensures forall j | Seek(keys, key) < j < |keys| :: Less(key, keys[j])
  {
    var i := Seek(keys, key);
    forall j | i < j < |keys|
      ensures Less(key, keys[j]) && AtMost(key, keys[j])
    {
      LessTotal(key, keys[i]);
      if key != keys[i] {
        LessTransitive(key, keys[i], keys[j]);
      }
      LessTotal(key, keys[j]);
    }
  }

  lemma SeekMissesAbsent(keys: seq<string>, key: string)
    requires Ascending(keys)
    requires var i := Seek(keys, key); i == |keys| || keys[i] != key
    ensures key !in keys
  {
    SeekIsSplit(keys, key);
    LessTotal(key, key);
  }

  lemma SliceAscends(keys: seq<string>, from: nat, to: nat)
    requires Ascending(keys) && from <= to <= |keys|
    ensures Ascending(keys[from..to])
  {
  }

  lemma InsertKeepsOrder(keys: seq<string>, key: string)
    requires Ascending(keys)
    requires var i := Seek(keys, key); i == |keys| || keys[i] != key
    ensures var i := Seek(keys, key); Ascending(keys[..i] + [key] + keys[i..])
    ensures var i := Seek(keys, key); forall k :: k in keys[..i] + [key] + keys[i..] <==> k in keys || k == key
  {
    var i := Seek(keys, key);
    SeekIsSplit(keys, key);
    if i < |keys| {
      LessTotal(key, keys[i]);
    }
    SliceAscends(keys, 0, i);
    SliceAscends(keys, i, |keys|);
    AscendingAround(keys[..i], key, keys[i..]);
    MembersAround(keys, i, key);
  }

  lemma MembersAround(keys: seq<string>, i: nat, key: string)
    requires i <= |keys|
    ensures forall k :: k in keys[..i] + [key] + keys[i..] <==> k in keys || k == key
  {
  }

  lemma AscendingAround(low: seq<string>, key: string, high: seq<string>)
    requires Ascending(low) && Ascending(high)
    requires forall k <- low :: Less(k, key)
    requires forall k <- high :: Less(key, k)
    ensures Ascending(low + [key] + high)
  {
    var all := low + [key] + high;
    forall i, j | 0 <= i < j < |all|
      ensures Less(all[i], all[j])
    {
      if i < |low| < j {
        assert low[i] in low && high[j - |low| - 1] in high;
        LessTransitive(all[i], key, all[j]);
      }
    }
  }

  lemma RemoveKeepsOrder(keys: seq<string>, i: nat)
    requires Ascending(keys) && i < |keys|
    ensures Ascending(keys[..i] + keys[i + 1..])
    ensures forall k :: k in keys[..i] + keys[i + 1..] <==> k in keys && k != keys[i]
  {
    LessTotal(keys[i], keys[i]);
    var rest := keys[..i] + keys[i + 1..];
    forall k | k in keys && k != keys[i]
      ensures k in rest
    {
      var j :| 0 <= j < |keys| && keys[j] == k;
      assert k == if j < i then rest[j] else rest[j - 1];
    }
  }

  /** Keys that start with `prefix` form one contiguous run that begins at `Seek(prefix)`: a cursor
      loop may stop at the first key without the prefix. */
  lemma PrefixRunFromSeek(keys: seq<string>, prefix: string, stop: nat)
    requires Ascending(keys)
    requires Seek(keys, prefix) <= stop < |keys| && !(prefix <= keys[stop])
    ensures forall j | 0 <= j < |keys| && prefix <= keys[j] :: Seek(keys, prefix) <= j < stop
  {
    forall j | 0 <= j < |keys| && prefix <= keys[j]
      ensures Seek(keys, prefix) <= j < stop
    {
      PrefixAtMost(prefix, keys[j]);
      if stop < j {
        SeekIsSplit(keys, prefix);
        assert Less(keys[stop], keys[j]);
        LessTotal(keys[stop], keys[j]);
        PrefixRun(prefix, prefix, keys[stop], keys[j]);
      }
    }
  }

  // ---------------------------------------------------------------- sets of keys in order

  ghost predicate IsOrdering(keys: seq<string>, s: set<string>) {
    Ascending(keys) && forall k :: k in keys <==> k in s
  }

  /** The members of a set in byte order. */
  ghost function InOrder(s: set<string>): (keys: seq<string>)
    ensures IsOrdering(keys, s) && |keys| == |s|
  {
    OrderingExists(s);
    var keys :| IsOrdering(keys, s) && |keys| == |s|;
    keys
  }

  lemma {:induction false} OrderingExists(s: set<string>)
    ensures exists keys :: IsOrdering(keys, s) && |keys| == |s|
  {
    if s == {} {
      assert IsOrdering([], s);
    } else {
      var x :| x in s;
      OrderingExists(s - {x});
      var rest :| IsOrdering(rest, s - {x}) && |rest| == |s - {x}|;
      InsertKeepsOrder(rest, x);
      var i := Seek(rest, x);
      assert IsOrdering(rest[..i] + [x] + rest[i..], s);
    }
  }

  lemma OrderingTail(keys: seq<string>, s: set<string>)
    requires IsOrdering(keys, s) && keys != []
    ensures IsOrdering(keys[1..], s - {keys[0]})
    ensures forall k <- s | k != keys[0] :: Less(keys[0], k)
  {
    assert keys == [keys[0]] + keys[1..];
    forall k | k in keys[1..]
      ensures Less(keys[0], k) && k != keys[0]
    {
      var j :| 0 <= j < |keys| - 1 && keys[1..][j] == k;
      assert Less(keys[0], keys[j + 1]);
      LessTotal(k, k);
    }
    SliceAscends(keys, 1, |keys|);
  }

  /** A set has only one ordering. */
  lemma {:induction false} OrderingUnique(a: seq<string>, b: seq<string>, s: set<string>)
    requires IsOrdering(a, s) && IsOrdering(b, s)
    ensures a == b
    decreases |a|
  {
    assert a == [] || a[0] in a;
    assert b == [] || b[0] in b;
    if s != {} {
      var x :| x in s;
      assert x in a && x in b;
      OrderingTail(a, s);
      OrderingTail(b, s);
      LessTotal(a[0], b[0]);
      OrderingUnique(a[1..], b[1..], s - {a[0]});
      assert a == [a[0]] + a[1..] && b == [b[0]] + b[1..];
    }
  }

  // ---------------------------------------------------------------- cursor scans

  /** The rows a cursor loop meets from position `i` on, up to the first key without the prefix. */
  ghost function Run<V>(keys: seq<string>, rows: map<string, V>, prefix: string, i: nat): seq<V>
    decreases |keys| - i
  {
    if i >= |keys| || !(prefix <= keys[i]) then []
    else if keys[i] in rows then [rows[keys[i]]] + Run(keys, rows, prefix, i + 1)
    else Run(keys, rows, prefix, i + 1)
  }

  ghost function InRange(keys: seq<string>, kept: set<string>, prefix: string): set<string> {
    set k <- keys | k in kept && prefix <= k
  }

  function RowsAt<V>(rows: map<string, V>, keys: seq<string>): seq<V>
    requires forall i | 0 <= i < |keys| :: keys[i] in rows
  {
    seq(|keys|, i requires 0 <= i < |keys| => rows[keys[i]])
  }

  /** The keys behind `Run`. */
  ghost function RunKeys(keys: seq<string>, kept: set<string>, prefix: string, i: nat): (r: seq<string>)
    ensures forall k <- r :: k in keys && k in kept && prefix <= k
    decreases |keys| - i
  {
    if i >= |keys| || !(prefix <= keys[i]) then []
    else if keys[i] in kept then [keys[i]] + RunKeys(keys, kept, prefix, i + 1)
    else RunKeys(keys, kept, prefix, i + 1)
  }

  lemma {:induction false} RunIsRowsAtRunKeys<V>(keys: seq<string>, rows: map<string, V>, prefix: string, i: nat)
    ensures var ks := RunKeys(keys, rows.Keys, prefix, i);
            (forall m | 0 <= m < |ks| :: ks[m] in rows) && Run(keys, rows, prefix, i) == RowsAt(rows, ks)
    decreases |keys| - i
  {
    if i < |keys| && prefix <= keys[i] {
      var rest := RunKeys(keys, rows.Keys, prefix, i + 1);
      RunIsRowsAtRunKeys(keys, rows, prefix, i + 1);
      if keys[i] in rows {
        assert RowsAt(rows, [keys[i]] + rest) == [rows[keys[i]]] + RowsAt(rows, rest);
      }
    }
  }

  lemma {:induction false} RunKeysExact(keys: seq<string>, kept: set<string>, prefix: string, i: nat)
    requires Ascending(keys) && Seek(keys, prefix) <= i <= |keys|
    ensures Ascending(RunKeys(keys, kept, prefix, i))
    ensures forall k :: k in RunKeys(keys, kept, prefix, i) <==> k in keys[i..] && k in kept && prefix <= k
    decreases |keys| - i
  {
    if i < |keys| {
      assert keys[i..] == [keys[i]] + keys[i + 1..];
      if prefix <= keys[i] {
        RunKeysExact(keys, kept, prefix, i + 1);
        var rest := RunKeys(keys, kept, prefix, i + 1);
        forall m | 0 <= m < |rest|
          ensures Less(keys[i], rest[m])
        {
          assert rest[m] in rest;
          var j :| 0 <= j < |keys| - i - 1 && keys[i + 1..][j] == rest[m];
          assert Less(keys[i], keys[i + 1 + j]);
        }
      } else {
        PrefixRunFromSeek(keys, prefix, i);
      }
    }
  }

  /** A cursor loop from `Seek(prefix)` meets exactly the rows in range, in key order. */
  lemma RunIsInOrder<V>(keys: seq<string>, rows: map<string, V>, prefix: string)
    requires Ascending(keys)
    ensures var ks := InOrder(InRange(keys, rows.Keys, prefix));
            (forall m | 0 <= m < |ks| :: ks[m] in rows)
            && Run(keys, rows, prefix, Seek(keys, prefix)) == RowsAt(rows, ks)
  {
    var from, s := Seek(keys, prefix), InRange(keys, rows.Keys, prefix);
    var ks := RunKeys(keys, rows.Keys, prefix, from);
    RunKeysExact(keys, rows.Keys, prefix, from);
    RunIsRowsAtRunKeys(keys, rows, prefix, from);
    forall k | k in s
      ensures k in ks
    {
      PrefixAtMost(prefix, k);
      assert k !in keys[..from];
      assert keys == keys[..from] + keys[from..];
    }
    OrderingUnique(ks, InOrder(s), s);
  }
}
