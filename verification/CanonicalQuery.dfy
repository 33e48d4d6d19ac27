/** The canonical query string: percent-encoded pairs sorted by raw key, then by raw value. */
module CanonicalQuery {
  import opened Text
  import opened Sorting
  import opened OrderedTable
  import opened UriEncoding

  /** Go's `url.Values`. */
  type Query = map<string, seq<string>>

  datatype Pair = Pair(key: string, value: string)

  predicate PairLess(p: Pair, q: Pair) {
    Less(p.key, q.key) || (p.key == q.key && Less(p.value, q.value))
  }

  predicate PairAtMost(p: Pair, q: Pair) {
    !PairLess(q, p)
  }

  ghost predicate PairBytes(p: Pair) {
    IsBytes(p.key) && IsBytes(p.value)
  }

  ghost predicate QueryBytes(q: Query) {
    forall k <- q :: IsBytes(k) && forall v <- q[k] :: IsBytes(v)
  }

  lemma PairOrderIsTotal()
    ensures TotalOrder(PairAtMost)
  {
    ByteOrderIsTotal();
    forall p, q
      ensures PairAtMost(p, q) || PairAtMost(q, p)
      ensures PairAtMost(p, q) && PairAtMost(q, p) ==> p == q
    {
      LessTotal(p.key, q.key);
      LessTotal(p.value, q.value);
    }
    forall p, q, r | PairAtMost(p, q) && PairAtMost(q, r)
      ensures PairAtMost(p, r)
    {
      PairAtMostKeys(p, q);
      PairAtMostKeys(q, r);
      assert AtMost(p.key, q.key) && AtMost(q.key, r.key);
      assert AtMost(p.key, r.key);
      LessTotal(p.key, r.key);
      if p.key == r.key {
        LessTotal(p.key, q.key);
        assert p.key == q.key;
        assert AtMost(p.value, r.value);
        LessTotal(p.key, p.key);
      }
    }
  }

  lemma PairAtMostKeys(p: Pair, q: Pair)
    ensures PairAtMost(p, q) <==> Less(p.key, q.key) || (p.key == q.key && AtMost(p.value, q.value))
  {
    LessTotal(p.key, q.key);
  }

  // ---------------------------------------------------------------- the pairs of a query

  function PairsUnder(key: string, values: seq<string>): seq<Pair> {
    seq(|values|, i requires 0 <= i < |values| => Pair(key, values[i]))
  }

  function PairsByKey(q: Query, keys: seq<string>): seq<Pair>
    requires forall i | 0 <= i < |keys| :: keys[i] in q
  {
    if keys == [] then []
    else PairsUnder(keys[0], SortStrings(q[keys[0]])) + PairsByKey(q, keys[1..])
  }

  /** All pairs of the query, in the order they are signed. */
  ghost function PairsInOrder(q: Query): seq<Pair> {
    PairsByKey(q, InOrder(q.Keys))
  }

  ghost function Pairs(q: Query): multiset<Pair> {
    multiset(PairsInOrder(q))
  }

  lemma {:induction false} PairsUnderCount(key: string, values: seq<string>, p: Pair)
    ensures multiset(PairsUnder(key, values))[p] == if p.key == key then multiset(values)[p.value] else 0
  {
    if values != [] {
      PairsUnderCount(key, values[1..], p);
      assert values == [values[0]] + values[1..];
      assert PairsUnder(key, values) == [Pair(key, values[0])] + PairsUnder(key, values[1..]);
    }
  }

  lemma {:induction false} PairsByKeyCount(q: Query, keys: seq<string>, p: Pair)
    requires forall i | 0 <= i < |keys| :: keys[i] in q
    requires forall i, j | 0 <= i < j < |keys| :: keys[i] != keys[j]
    ensures multiset(PairsByKey(q, keys))[p] == if p.key in keys then multiset(q[p.key])[p.value] else 0
  {
    if keys != [] {
      var k := keys[0];
      PairsByKeyCount(q, keys[1..], p);
      PairsUnderCount(k, SortStrings(q[k]), p);
      ByteOrderIsTotal();
      SortIsSortedPermutation(q[k], AtMost);
      assert keys == [k] + keys[1..];
    }
  }

  /** Every value listed under a key is one pair, and there are no others. */
  lemma PairsAreTheQuery(q: Query, key: string, value: string)
    ensures Pairs(q)[Pair(key, value)] == if key in q then multiset(q[key])[value] else 0
  {
    AscendingIsDistinct(InOrder(q.Keys));
    PairsByKeyCount(q, InOrder(q.Keys), Pair(key, value));
  }

  lemma AscendingIsDistinct(keys: seq<string>)
    requires Ascending(keys)
    ensures forall i, j | 0 <= i < j < |keys| :: keys[i] != keys[j]
  {
    forall i, j | 0 <= i < j < |keys|
      ensures keys[i] != keys[j]
    {
      assert Less(keys[i], keys[j]);
      LessTotal(keys[i], keys[j]);
    }
  }

  /** Sorting keys, then values under each key, sorts the pairs. */
  lemma {:induction false} PairsByKeySorted(q: Query, keys: seq<string>)
    requires forall i | 0 <= i < |keys| :: keys[i] in q
    requires Ascending(keys)
    ensures Sorted(PairsByKey(q, keys), PairAtMost)
    ensures forall p <- PairsByKey(q, keys) :: p.key in keys
  {
    if keys != [] {
      var k, rest := keys[0], PairsByKey(q, keys[1..]);
      var values := SortStrings(q[k]);
      var front := PairsUnder(k, values);
      SliceAscends(keys, 1, |keys|);
      PairsByKeySorted(q, keys[1..]);
      ByteOrderIsTotal();
      SortIsSortedPermutation(q[k], AtMost);
      forall i, j | 0 <= i < j < |front|
        ensures PairAtMost(front[i], front[j])
      {
        PairAtMostKeys(front[i], front[j]);
      }
      forall p, r | p in front && r in rest
        ensures PairAtMost(p, r)
      {
        var j :| 0 <= j < |keys| - 1 && keys[1..][j] == r.key;
        assert Less(keys[0], keys[j + 1]);
        PairAtMostKeys(p, r);
      }
      SortedConcat(front, rest);
    }
  }

  lemma SortedConcat(a: seq<Pair>, b: seq<Pair>)
    requires Sorted(a, PairAtMost) && Sorted(b, PairAtMost)
    requires forall p <- a, r <- b :: PairAtMost(p, r)
    ensures Sorted(a + b, PairAtMost)
  {
  }

  lemma PairsInOrderSorted(q: Query)
    ensures Sorted(PairsInOrder(q), PairAtMost)
  {
    PairsByKeySorted(q, InOrder(q.Keys));
  }

  lemma PairsInOrderBytes(q: Query)
    requires QueryBytes(q)
    ensures forall i | 0 <= i < |PairsInOrder(q)| :: PairBytes(PairsInOrder(q)[i])
  {
    var ps := PairsInOrder(q);
    forall i | 0 <= i < |ps|
      ensures PairBytes(ps[i])
    {
      assert ps[i] in Pairs(q);
      PairsAreTheQuery(q, ps[i].key, ps[i].value);
      assert ps[i].value in multiset(q[ps[i].key]);
    }
  }

  // ---------------------------------------------------------------- the text

  function EncodePair(p: Pair): Pair {
    Pair(UriEncode(p.key, true), UriEncode(p.value, true))
  }

  function EncodeAll(ps: seq<Pair>): (r: seq<Pair>)
    ensures |r| == |ps| && forall i | 0 <= i < |ps| :: r[i] == EncodePair(ps[i])
  {
    seq(|ps|, i requires 0 <= i < |ps| => EncodePair(ps[i]))
  }

  function PairText(p: Pair): string {
    p.key + "=" + p.value
  }

  function Texts(ps: seq<Pair>): (r: seq<string>)
    ensures |r| == |ps| && forall i | 0 <= i < |ps| :: r[i] == PairText(ps[i])
  {
    seq(|ps|, i requires 0 <= i < |ps| => PairText(ps[i]))
  }

  ghost function CanonicalQueryString(q: Query): string {
    Join(Texts(EncodeAll(PairsInOrder(q))), '&')
  }

  /** The keys come out of the map in some order; the result does not depend on it. */
  method BuildCanonicalQueryString(q: Query) returns (r: string)
    ensures r == CanonicalQueryString(q)
  {
    var keys := CollectKeys(q);
    keys := SortStrings(keys);
    var parts: seq<string> := [];
    for i := 0 to |keys|
      invariant parts + Texts(EncodeAll(PairsByKey(q, keys[i..]))) == Texts(EncodeAll(PairsInOrder(q)))
    {
      var k := keys[i];
      assert keys[i..][0] == k && keys[i..][1..] == keys[i + 1..];
      TextsConcat(PairsUnder(k, SortStrings(q[k])), PairsByKey(q, keys[i + 1..]));
      var values := SortStrings(q[k]);
      var more := EncodeValues(k, values);
      parts := parts + more;
    }
    assert keys[|keys|..] == [];
    assert parts == Texts(EncodeAll(PairsInOrder(q)));
    return Join(parts, '&');
  }

  method EncodeValues(k: string, values: seq<string>) returns (parts: seq<string>)
    ensures parts == Texts(EncodeAll(PairsUnder(k, values)))
  {
    parts := [];
    for j := 0 to |values|
      invariant |parts| == j
      invariant forall i | 0 <= i < j :: parts[i] == PairText(EncodePair(Pair(k, values[i])))
    {
      var encodedKey := EncodeUri(k, true);
      var encodedValue := EncodeUri(values[j], true);
      parts := parts + [encodedKey + "=" + encodedValue];
    }
  }

  lemma TextsConcat(a: seq<Pair>, b: seq<Pair>)
    ensures Texts(EncodeAll(a + b)) == Texts(EncodeAll(a)) + Texts(EncodeAll(b))
  {
  }

  method CollectKeys<V>(m: map<string, V>) returns (keys: seq<string>)
    ensures SortStrings(keys) == InOrder(m.Keys)
    ensures forall i | 0 <= i < |SortStrings(keys)| :: SortStrings(keys)[i] in m
  {
    keys := [];
    var left := m.Keys;
    while left != {}
      invariant left <= m.Keys
      invariant forall k :: k in keys <==> k in m.Keys - left
      invariant forall i, j | 0 <= i < j < |keys| :: keys[i] != keys[j]
      decreases |left|
    {
      var k :| k in left;
      assert k !in keys;
      assert forall i | 0 <= i < |keys| :: keys[i] in keys;
      keys := keys + [k];
      left := left - {k};
    }
    DistinctSortIsInOrder(keys, m.Keys);
  }

  lemma DistinctSortIsInOrder(keys: seq<string>, s: set<string>)
    requires forall k :: k in keys <==> k in s
    requires forall i, j | 0 <= i < j < |keys| :: keys[i] != keys[j]
    ensures SortStrings(keys) == InOrder(s)
    ensures forall i | 0 <= i < |SortStrings(keys)| :: SortStrings(keys)[i] in s
  {
    ByteOrderIsTotal();
    var sorted := SortStrings(keys);
    SortIsSortedPermutation(keys, AtMost);
    forall k
      ensures k in sorted <==> k in s
    {
      assert k in sorted <==> k in multiset(sorted);
      assert k in keys <==> k in multiset(keys);
    }
    DistinctCount(keys);
    forall i, j | 0 <= i < j < |sorted|
      ensures Less(sorted[i], sorted[j])
    {
      if sorted[i] == sorted[j] {
        TwiceCounts(sorted, i, j);
      }
      LessTotal(sorted[i], sorted[j]);
    }
    OrderingUnique(sorted, InOrder(s), s);
    assert forall i | 0 <= i < |sorted| :: sorted[i] in sorted;
  }

  lemma {:induction false} DistinctCount(keys: seq<string>)
    requires forall i, j | 0 <= i < j < |keys| :: keys[i] != keys[j]
    ensures forall k :: multiset(keys)[k] <= 1
  {
    if keys != [] {
      DistinctCount(keys[1..]);
      assert keys == [keys[0]] + keys[1..];
      assert keys[0] !in keys[1..];
      assert multiset(keys[1..])[keys[0]] == 0;
    }
  }

  lemma TwiceCounts(s: seq<string>, i: nat, j: nat)
    requires i < j < |s| && s[i] == s[j]
    ensures multiset(s)[s[i]] >= 2
  {
    assert s == s[..j] + s[j..];
    assert s[j..][0] == s[i];
    assert s[i] in s[..j] && s[i] in s[j..];
    assert multiset(s) == multiset(s[..j]) + multiset(s[j..]);
  }

  // ---------------------------------------------------------------- reading the text back

  function Before(s: string, sep: char): string {
    if s == "" || s[0] == sep then "" else [s[0]] + Before(s[1..], sep)
  }

  function DecodePair(part: string): Pair {
    var key := Before(part, '=');
    Pair(PercentDecode(key), PercentDecode(if |key| < |part| then part[|key| + 1..] else ""))
  }

  function DecodeAll(parts: seq<string>): (r: seq<Pair>)
    ensures |r| == |parts| && forall i | 0 <= i < |parts| :: r[i] == DecodePair(parts[i])
  {
    seq(|parts|, i requires 0 <= i < |parts| => DecodePair(parts[i]))
  }

  /** Split at '&' and at the first '=', then percent-decode. */
  function DecodeQuery(s: string): seq<Pair> {
    if s == "" then [] else DecodeAll(Split(s, '&'))
  }

  lemma {:induction false} BeforeFirst(a: string, b: string, sep: char)
    requires sep !in a
    ensures Before(a + [sep] + b, sep) == a
  {
    var s := a + [sep] + b;
    if a != "" {
      assert s[1..] == a[1..] + [sep] + b;
      BeforeFirst(a[1..], b, sep);
      assert a == [a[0]] + a[1..];
    }
  }

  lemma EncodedPairClean(p: Pair)
    ensures '=' !in EncodePair(p).key
    ensures '&' !in PairText(EncodePair(p)) && '\n' !in PairText(EncodePair(p))
  {
    var e := EncodePair(p);
    forall c | c in e.key
      ensures c != '=' && c != '&' && c != '\n'
    {
      EncodedAlphabet(p.key, true, c);
    }
    forall c | c in e.value
      ensures c != '&' && c != '\n'
    {
      EncodedAlphabet(p.value, true, c);
    }
  }

  lemma DecodeOfPairText(p: Pair)
    requires PairBytes(p)
    ensures DecodePair(PairText(EncodePair(p))) == p
  {
    var e := EncodePair(p);
    var part := PairText(e);
    EncodedPairClean(p);
    BeforeFirst(e.key, e.value, '=');
    assert part[|e.key| + 1..] == e.value;
    DecodeOfEncode(p.key, true);
    DecodeOfEncode(p.value, true);
  }

  /** Reading the text of any list of pairs gives the list back. */
  lemma DecodeOfTexts(ps: seq<Pair>)
    requires forall i | 0 <= i < |ps| :: PairBytes(ps[i])
    ensures DecodeQuery(Join(Texts(EncodeAll(ps)), '&')) == ps
  {
    var parts := Texts(EncodeAll(ps));
    if ps != [] {
      forall i | 0 <= i < |ps|
        ensures '&' !in parts[i] && DecodePair(parts[i]) == ps[i]
      {
        EncodedPairClean(ps[i]);
        DecodeOfPairText(ps[i]);
      }
      SplitOfJoin(parts, '&');
      assert '=' in parts[0];
      assert Split("", '&') == [""];
    }
  }

  /** Splitting and decoding recovers exactly the sorted list of all pairs. */
  lemma QueryTextDecodes(q: Query)
    requires QueryBytes(q)
    ensures DecodeQuery(CanonicalQueryString(q)) == PairsInOrder(q)
  {
    PairsInOrderBytes(q);
    DecodeOfTexts(PairsInOrder(q));
  }

  /** The query string is a canonical form: two queries share it exactly when they hold the same pairs. */
  lemma QueryTextIsCanonical(q1: Query, q2: Query)
    requires QueryBytes(q1) && QueryBytes(q2)
    ensures CanonicalQueryString(q1) == CanonicalQueryString(q2) <==> Pairs(q1) == Pairs(q2)
  {
    QueryTextDecodes(q1);
    QueryTextDecodes(q2);
    if Pairs(q1) == Pairs(q2) {
      PairsInOrderSorted(q1);
      PairsInOrderSorted(q2);
      PairOrderIsTotal();
      SortedUnique(PairsInOrder(q1), PairsInOrder(q2), PairAtMost);
    }
  }

  /** In a query everything but unreserved bytes is escaped, slashes too. */
  lemma QueryTextAlphabet(q: Query, c: char)
    requires c in CanonicalQueryString(q)
    ensures IsUnreserved(c) || c == '%' || c == '=' || c == '&'
  {
    var ps := PairsInOrder(q);
    var texts := Texts(EncodeAll(ps));
    JoinBytes(texts, '&', c);
    if c != '&' {
      var text :| text in texts && c in text;
      var i :| 0 <= i < |texts| && texts[i] == text;
      if c in UriEncode(ps[i].key, true) {
        EncodedAlphabet(ps[i].key, true, c);
      } else if c != '=' {
        EncodedAlphabet(ps[i].value, true, c);
      }
    }
  }

  lemma QueryTextHasNoNewline(q: Query)
    ensures '\n' !in CanonicalQueryString(q)
  {
    if '\n' in CanonicalQueryString(q) {
      QueryTextAlphabet(q, '\n');
    }
  }
}
