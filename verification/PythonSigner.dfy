/** The second implementation of the signature, in `scripts/sigv4-request.py`, and its agreement
    with the verifier. */
module PythonSigner {
  import opened Results
  import opened Text
  import opened Sorting
  import opened OrderedTable
  import opened UriEncoding
  import opened CanonicalQuery
  import opened CanonicalRequest
  import opened WhiteSpace
  import opened Authorization
  import opened Verification

  const REGION: string := "us-east-1"
  const SERVICE: string := "s3"

  const UPPER_CASE: string := "ABCDEFGHIJKLMNOPQRSTUVWXYZ"
  const LOWER_CASE: string := "abcdefghijklmnopqrstuvwxyz"
  const DIGITS: string := "0123456789"
  const UNRESERVED: string := UPPER_CASE + LOWER_CASE + DIGITS + "-_.~"

  lemma UpperCaseIsRange(c: char)
    ensures c in UPPER_CASE <==> 'A' <= c <= 'Z'
  {
  }

  lemma LowerCaseIsRange(c: char)
    ensures c in LOWER_CASE <==> 'a' <= c <= 'z'
  {
  }

  lemma DigitsAreRange(c: char)
    ensures c in DIGITS <==> '0' <= c <= '9'
  {
  }

  lemma UnreservedIsTheSameSet(c: char)
    ensures c in UNRESERVED <==> IsUnreserved(c)
  {
    UpperCaseIsRange(c);
    LowerCaseIsRange(c);
    DigitsAreRange(c);
  }

  /** `uri_encode`: membership in a literal string where Go compares ranges. */
  method EncodeUriPy(s: string, encodeSlash: bool) returns (r: string)
    ensures r == UriEncode(s, encodeSlash)
  {
    var out: seq<string> := [];
    for i := 0 to |s|
      invariant Concat(out) == UriEncode(s[..i], encodeSlash)
    {
      var c := s[i];
      UriEncodeAppend(s[..i], c, encodeSlash);
      UnreservedIsTheSameSet(c);
      assert s[..i + 1] == s[..i] + [c];
      ConcatAppend(out, EncodeByte(c, encodeSlash));
      if c in UNRESERVED || (c == '/' && !encodeSlash) {
        out := out + [[c]];
      } else {
        out := out + [Escape(c)];
      }
    }
    assert s[..|s|] == s;
    return Concat(out);
  }

  lemma {:induction false} ConcatAppend(parts: seq<string>, last: string)
    ensures Concat(parts + [last]) == Concat(parts) + last
  {
    if parts == [] {
      assert parts + [last] == [last];
      assert last + "" == last;
    } else {
      ConcatAppend(parts[1..], last);
      assert (parts + [last])[1..] == parts[1..] + [last];
      assert parts[0] + (Concat(parts[1..]) + last) == (parts[0] + Concat(parts[1..])) + last;
    }
  }

  // ---------------------------------------------------------------- query strings

  /** `canonical_query_string` on the decoded pairs: encode first, then sort. */
  function CanonicalQueryPy(pairs: seq<Pair>): string {
    Join(Texts(Sort(EncodeAll(pairs), PairAtMost)), '&')
  }

  /** The keys, or the values of one key, do not first differ at an unreserved byte against an escaped one. */
  predicate PairKept(p: Pair, q: Pair) {
    if p.key == q.key then FirstDifferenceKept(p.value, q.value) else FirstDifferenceKept(p.key, q.key)
  }

  /** No pair comes before another with which it first differs at an unreserved byte against an escaped one. */
  ghost predicate EncodingKeepsOrderOf(pairs: multiset<Pair>) {
    forall p <- pairs, q <- pairs | PairLess(p, q) :: PairKept(p, q)
  }

  lemma PairKeptDecides(p: Pair, q: Pair)
    requires PairLess(p, q) && PairBytes(p) && PairBytes(q)
    ensures PairLess(EncodePair(p), EncodePair(q)) <==> PairKept(p, q)
  {
    LessTotal(p.key, q.key);
    if p.key == q.key {
      FirstDifferenceDecides(p.value, q.value);
      LessTotal(EncodePair(p).key, EncodePair(q).key);
    } else {
      FirstDifferenceDecides(p.key, q.key);
      if EncodePair(p).key == EncodePair(q).key {
        EncodeInjective(p.key, q.key, true);
      }
    }
  }

  lemma EncodeCons(x: Pair, s: seq<Pair>)
    ensures multiset(EncodeAll([x] + s)) == multiset{EncodePair(x)} + multiset(EncodeAll(s))
  {
    assert EncodeAll([x] + s) == [EncodePair(x)] + EncodeAll(s);
  }

  lemma {:induction false} EncodeInsert(x: Pair, s: seq<Pair>)
    ensures multiset(EncodeAll(Insert(x, s, PairAtMost))) == multiset{EncodePair(x)} + multiset(EncodeAll(s))
  {
    if s == [] || PairAtMost(x, s[0]) {
      EncodeCons(x, s);
    } else {
      EncodeInsert(x, s[1..]);
      EncodeCons(s[0], Insert(x, s[1..], PairAtMost));
      EncodeCons(s[0], s[1..]);
      assert s == [s[0]] + s[1..];
    }
  }

  lemma {:induction false} EncodeSort(s: seq<Pair>)
    ensures multiset(EncodeAll(Sort(s, PairAtMost))) == multiset(EncodeAll(s))
  {
    if s != [] {
      EncodeSort(s[1..]);
      EncodeInsert(s[0], Sort(s[1..], PairAtMost));
      EncodeCons(s[0], s[1..]);
      assert s == [s[0]] + s[1..];
    }
  }

  lemma EncodePairInjective(p: Pair, q: Pair)
    requires PairBytes(p) && PairBytes(q) && EncodePair(p) == EncodePair(q)
    ensures p == q
  {
    EncodeInjective(p.key, q.key, true);
    EncodeInjective(p.value, q.value, true);
  }

  lemma CleanTexts(a: seq<Pair>)
    requires forall e <- a :: '&' !in PairText(e)
    ensures forall s <- Texts(a) :: '&' !in s
  {
    forall s | s in Texts(a)
      ensures '&' !in s
    {
      var i :| 0 <= i < |a| && Texts(a)[i] == s;
      assert a[i] in a;
    }
  }

  lemma PairFromText(p: Pair, q: Pair)
    requires '=' !in p.key && '=' !in q.key && PairText(p) == PairText(q)
    ensures p == q
  {
    BeforeFirst(p.key, p.value, '=');
    BeforeFirst(q.key, q.value, '=');
    assert PairText(p)[|p.key| + 1..] == p.value && PairText(q)[|q.key| + 1..] == q.value;
  }

  lemma EncodedPairsFromText(a: seq<Pair>, b: seq<Pair>)
    requires forall e <- a :: '=' !in e.key && '&' !in PairText(e)
    requires forall e <- b :: '=' !in e.key && '&' !in PairText(e)
    requires |a| == |b| && Join(Texts(a), '&') == Join(Texts(b), '&')
    ensures a == b
  {
    if a != [] {
      CleanTexts(a);
      CleanTexts(b);
      SplitOfJoin(Texts(a), '&');
      SplitOfJoin(Texts(b), '&');
      forall i | 0 <= i < |a|
        ensures a[i] == b[i]
      {
        assert Texts(a)[i] == Texts(b)[i] && a[i] in a && b[i] in b;
        PairFromText(a[i], b[i]);
      }
    }
  }

  lemma EncodedSortedWhenOrderKept(ps: seq<Pair>)
    requires Sorted(ps, PairAtMost) && EncodingKeepsOrderOf(multiset(ps))
    requires forall i | 0 <= i < |ps| :: PairBytes(ps[i])
    ensures Sorted(EncodeAll(ps), PairAtMost)
  {
    PairOrderIsTotal();
    var es := EncodeAll(ps);
    forall i, j | 0 <= i < j < |es|
      ensures PairAtMost(es[i], es[j])
    {
      assert ps[i] in multiset(ps) && ps[j] in multiset(ps);
      PairTrichotomy(ps[i], ps[j]);
      PairTrichotomy(es[i], es[j]);
      if PairLess(ps[i], ps[j]) {
        PairKeptDecides(ps[i], ps[j]);
      }
    }
  }

  lemma PairTrichotomy(p: Pair, q: Pair)
    ensures PairLess(p, q) || p == q || PairLess(q, p)
    ensures !(PairLess(p, q) && PairLess(q, p)) && !PairLess(p, p)
  {
    LessTotal(p.key, q.key);
    LessTotal(p.value, q.value);
    LessTotal(p.key, p.key);
    LessTotal(p.value, p.value);
  }

  lemma LessComesFirst(ps: seq<Pair>, i: nat, j: nat)
    requires Sorted(ps, PairAtMost) && i < |ps| && j < |ps| && PairLess(ps[i], ps[j])
    ensures i < j
  {
    PairTrichotomy(ps[i], ps[j]);
  }

  lemma OrderKeptWhenEncodedSorted(ps: seq<Pair>)
    requires Sorted(ps, PairAtMost) && Sorted(EncodeAll(ps), PairAtMost)
    requires forall i | 0 <= i < |ps| :: PairBytes(ps[i])
    ensures EncodingKeepsOrderOf(multiset(ps))
  {
    var es := EncodeAll(ps);
    forall p, q | p in multiset(ps) && q in multiset(ps) && PairLess(p, q)
      ensures PairKept(p, q)
    {
      var i :| 0 <= i < |ps| && ps[i] == p;
      var j :| 0 <= j < |ps| && ps[j] == q;
      LessComesFirst(ps, i, j);
      assert PairAtMost(es[i], es[j]);
      PairTrichotomy(es[i], es[j]);
      PairTrichotomy(p, q);
      if EncodePair(p) == EncodePair(q) {
        EncodePairInjective(p, q);
      }
      PairKeptDecides(p, q);
    }
  }

  /** The two query strings are equal exactly when no two pairs first differ at an unreserved byte
      against a later, escaped one. */
  lemma QueryStringsAgree(q: Query, pairs: seq<Pair>)
    requires QueryBytes(q) && multiset(pairs) == Pairs(q)
    ensures CanonicalQueryPy(pairs) == CanonicalQueryString(q) <==> EncodingKeepsOrderOf(Pairs(q))
  {
    var ps := PairsInOrder(q);
    var es := Sort(EncodeAll(pairs), PairAtMost);
    PairsInOrderSorted(q);
    PairsInOrderBytes(q);
    PairOrderIsTotal();
    SortIsSortedPermutation(pairs, PairAtMost);
    SortedUnique(Sort(pairs, PairAtMost), ps, PairAtMost);
    EncodeSort(pairs);
    SortIsSortedPermutation(EncodeAll(pairs), PairAtMost);
    if EncodingKeepsOrderOf(Pairs(q)) {
      EncodedSortedWhenOrderKept(ps);
      SortedUnique(es, EncodeAll(ps), PairAtMost);
    }
    if CanonicalQueryPy(pairs) == CanonicalQueryString(q) {
      assert |es| == |multiset(es)| == |multiset(EncodeAll(ps))| == |EncodeAll(ps)|;
      AllEncodedClean(EncodeAll(ps), ps);
      forall e | e in es
        ensures e in EncodeAll(ps)
      {
        assert e in multiset(es);
      }
      EncodedPairsFromText(es, EncodeAll(ps));
      OrderKeptWhenEncodedSorted(ps);
    }
  }

  lemma AllEncodedClean(es: seq<Pair>, ps: seq<Pair>)
    requires es == EncodeAll(ps)
    ensures forall e <- es :: '=' !in e.key && '&' !in PairText(e)
  {
    forall e | e in es
      ensures '=' !in e.key && '&' !in PairText(e)
    {
      var i :| 0 <= i < |es| && es[i] == e;
      EncodedPairClean(ps[i]);
    }
  }

  /** Over the order-safe alphabet they always agree. */
  lemma QueryStringsAgreeOverSafeAlphabet(q: Query, pairs: seq<Pair>)
    requires QueryBytes(q) && multiset(pairs) == Pairs(q)
    requires forall p <- pairs :: (forall c <- p.key :: InSafeAlphabet(c)) && (forall c <- p.value :: InSafeAlphabet(c))
    ensures CanonicalQueryPy(pairs) == CanonicalQueryString(q)
  {
    var alphabet := set c: char | InSafeAlphabet(c);
    PairsInOrderBytes(q);
    forall p | p in Pairs(q)
      ensures PairBytes(p) && Over(p.key, alphabet) && Over(p.value, alphabet)
    {
      assert p in multiset(pairs);
      var i :| 0 <= i < |PairsInOrder(q)| && PairsInOrder(q)[i] == p;
    }
    forall p, r | p in Pairs(q) && r in Pairs(q) && PairLess(p, r)
      ensures PairKept(p, r)
    {
      EncodeKeepsOrder(alphabet, p.key, r.key);
      EncodeKeepsOrder(alphabet, p.value, r.value);
      PairKeptDecides(p, r);
    }
    QueryStringsAgree(q, pairs);
  }

  // ---------------------------------------------------------------- sign_request

  /** `str.upper` on ASCII. */
  function Upper(s: string): (t: string)
    ensures |t| == |s|
    ensures forall i | 0 <= i < |s| ::
              if 'a' <= s[i] <= 'z' then 'A' <= t[i] <= 'Z' && t[i] as int == s[i] as int - 32 else t[i] == s[i]
  {
    seq(|s|, i requires 0 <= i < |s| => if 'a' <= s[i] <= 'z' then (s[i] as int - 32) as char else s[i])
  }

  /** The two `strftime` formats, of one moment: digits, and in the first a 'T' and a 'Z'. */
  datatype Clock = Clock(now: int, amzDate: string, dateStamp: string) {
    ghost predicate Valid() {
      && amzDate != "" && (forall c <- amzDate :: '0' <= c <= '9' || c == 'T' || c == 'Z')
      && (forall c <- dateStamp :: '0' <= c <= '9')
    }
  }

  /** What a call of `sign_request` is given, with the URL already taken apart. */
  datatype Call = Call(
    verb: string,
    netloc: string,
    path: string,
    pairs: seq<Pair>,
    accessKey: string,
    secretKey: string,
    headers: map<string, string>)

  function HeadersToSign(call: Call, clock: Clock): map<string, string> {
    var h := call.headers["host" := call.netloc]["x-amz-date" := clock.amzDate];
    if "x-amz-content-sha256" in h then h else h["x-amz-content-sha256" := UNSIGNED_PAYLOAD]
  }

  ghost function SignedNames(call: Call, clock: Clock): seq<string> {
    InOrder(HeadersToSign(call, clock).Keys)
  }

  function PyHeaderTexts(h: map<string, string>, names: seq<string>): (t: seq<string>)
    requires forall i | 0 <= i < |names| :: names[i] in h
    ensures |t| == |names| && forall i | 0 <= i < |names| :: t[i] == names[i] + ":" + Strip(h[names[i]])
  {
    seq(|names|, i requires 0 <= i < |names| => names[i] + ":" + Strip(h[names[i]]))
  }

  /** The canonical request over the dictionary `h` and its sorted names. */
  function PyText(call: Call, h: map<string, string>, names: seq<string>): string
    requires "x-amz-content-sha256" in h && forall i | 0 <= i < |names| :: names[i] in h
  {
    Join([Upper(call.verb), UriEncode(if call.path == "" then "/" else call.path, false),
          CanonicalQueryPy(call.pairs), Concat(EndLines(PyHeaderTexts(h, names))), Join(names, ';'),
          h["x-amz-content-sha256"]], '\n')
  }

  ghost function CanonicalTextPy(call: Call, clock: Clock): string {
    var h, names := HeadersToSign(call, clock), SignedNames(call, clock);
    assert forall i | 0 <= i < |names| :: names[i] in names;
    PyText(call, h, names)
  }

  ghost function SignerCredential(call: Call, clock: Clock, c: Crypto): Credential {
    Credential(call.accessKey, clock.dateStamp, REGION, SERVICE, SignedNames(call, clock),
               Signature(CanonicalTextPy(call, clock), clock.amzDate, clock.dateStamp, REGION, SERVICE, call.secretKey, c))
  }

  ghost function SignedRequestHeaders(call: Call, clock: Clock, c: Crypto): map<string, string> {
    HeadersToSign(call, clock)["authorization" := Print(SignerCredential(call, clock, c))]
  }

  method SignRequest(call: Call, clock: Clock, c: Crypto) returns (headers: map<string, string>)
    ensures headers == SignedRequestHeaders(call, clock, c)
  {
    headers := call.headers;
    headers := headers["host" := call.netloc];
    headers := headers["x-amz-date" := clock.amzDate];
    if "x-amz-content-sha256" !in headers {
      headers := headers["x-amz-content-sha256" := UNSIGNED_PAYLOAD];
    }
    assert headers == HeadersToSign(call, clock);
    var names, canonicalRequest := BuildCanonicalRequestPy(call, headers);
    var authHeader := BuildAuthorization(call.accessKey, call.secretKey, clock, names, canonicalRequest, c);
    headers := headers["authorization" := authHeader];
  }

  /** What the script sends, header by header: the caller's headers under the fixed ones, "UNSIGNED-PAYLOAD"
      unless the caller gave a payload hash. */
  lemma SentHeadersExactly(call: Call, clock: Clock, c: Crypto, name: string)
    ensures var sent := SignedRequestHeaders(call, clock, c);
            && (name in sent <==> (name in call.headers || name in FIXED_NAMES || name == "authorization"))
            && sent["host"] == call.netloc && sent["x-amz-date"] == clock.amzDate
            && ("x-amz-content-sha256" !in call.headers ==> sent["x-amz-content-sha256"] == "UNSIGNED-PAYLOAD")
            && (name in call.headers && name != "host" && name != "x-amz-date" && name != "authorization" ==>
                  sent[name] == call.headers[name])
  {
    HeadersToSignExactly(call, clock, name);
    HeadersToSignExactly(call, clock, "host");
    var h := HeadersToSign(call, clock);
    var value := Print(SignerCredential(call, clock, c));
    FixedNamesDiffer();
    WithAuthorization(h, value, name);
    WithAuthorization(h, value, "host");
    WithAuthorization(h, value, "x-amz-date");
    WithAuthorization(h, value, "x-amz-content-sha256");
  }

  const FIXED_NAMES: set<string> := {"host", "x-amz-date", "x-amz-content-sha256"}

  lemma WithAuthorization(h: map<string, string>, value: string, name: string)
    ensures var sent := h["authorization" := value];
            && (name in sent <==> name in h || name == "authorization")
            && (name in h && name != "authorization" ==> sent[name] == h[name])
  {
  }

  lemma HeadersToSignExactly(call: Call, clock: Clock, name: string)
    ensures var h := HeadersToSign(call, clock);
            && (name in h <==> name in call.headers || name in FIXED_NAMES)
            && h["host"] == call.netloc && h["x-amz-date"] == clock.amzDate
            && ("x-amz-content-sha256" !in call.headers ==> h["x-amz-content-sha256"] == "UNSIGNED-PAYLOAD")
            && (name in call.headers && name != "host" && name != "x-amz-date" ==> h[name] == call.headers[name])
  {
    FixedNamesDiffer();
  }

  lemma FixedNamesDiffer()
    ensures "host" != "x-amz-date" && "host" != "authorization" && "x-amz-date" != "authorization"
    ensures "x-amz-content-sha256" != "host" && "x-amz-content-sha256" != "x-amz-date"
    ensures "x-amz-content-sha256" != "authorization"
  {
    assert |"host"| == 4 && |"x-amz-date"| == 10 && |"authorization"| == 13 && |"x-amz-content-sha256"| == 20;
  }

  /** The Authorization header as the script formats it, with the key derived from the secret, the day,
      "us-east-1" and "s3". */
  lemma AuthorizationExactly(call: Call, clock: Clock, c: Crypto)
    ensures SignedRequestHeaders(call, clock, c)["authorization"]
         == "AWS4-HMAC-SHA256" + " Credential=" + call.accessKey + "/"
            + (clock.dateStamp + "/" + "us-east-1" + "/" + "s3" + "/" + "aws4_request") + ", "
            + "SignedHeaders=" + Join(SignedNames(call, clock), ';') + ", Signature="
            + HexEncode(c.hmac(
                c.hmac(c.hmac(c.hmac(c.hmac("AWS4" + call.secretKey, clock.dateStamp), "us-east-1"), "s3"), "aws4_request"),
                "AWS4-HMAC-SHA256" + "\n" + clock.amzDate + "\n"
                + (clock.dateStamp + "/" + "us-east-1" + "/" + "s3" + "/" + "aws4_request") + "\n"
                + HexEncode(c.sha256(CanonicalTextPy(call, clock)))))
  {
    SignatureExactly(CanonicalTextPy(call, clock), clock.amzDate, clock.dateStamp, REGION, SERVICE, call.secretKey, c);
    PrintText(SignerCredential(call, clock, c));
  }

  method BuildCanonicalRequestPy(call: Call, headers: map<string, string>) returns (names: seq<string>, text: string)
    requires "x-amz-content-sha256" in headers
    ensures names == InOrder(headers.Keys)
    ensures forall i | 0 <= i < |names| :: names[i] in headers
    ensures text == PyText(call, headers, names)
  {
    names := CollectKeys(headers);
    names := SortStrings(names);
    var uri := EncodeUriPy(if call.path == "" then "/" else call.path, false);
    text := Join([Upper(call.verb), uri, CanonicalQueryPy(call.pairs),
                  Concat(EndLines(PyHeaderTexts(headers, names))), Join(names, ';'),
                  headers["x-amz-content-sha256"]], '\n');
  }

  method BuildAuthorization(accessKey: string, secretKey: string, clock: Clock, names: seq<string>, text: string, c: Crypto)
    returns (authHeader: string)
    ensures authHeader == Print(Credential(accessKey, clock.dateStamp, REGION, SERVICE, names,
      Signature(text, clock.amzDate, clock.dateStamp, REGION, SERVICE, secretKey, c)))
  {
    var credentialScope := clock.dateStamp + "/" + REGION + "/" + SERVICE + "/" + TERMINATOR;
    JoinFour(clock.dateStamp, REGION, SERVICE, TERMINATOR);
    var stringToSign := Join([ALGORITHM, clock.amzDate, credentialScope, HexEncode(c.sha256(text))], '\n');
    var kDate := c.hmac("AWS4" + secretKey, clock.dateStamp);
    var kRegion := c.hmac(kDate, REGION);
    var kService := c.hmac(kRegion, SERVICE);
    var kSigning := c.hmac(kService, TERMINATOR);
    var signature := HexEncode(c.hmac(kSigning, stringToSign));
    authHeader := ALGORITHM + " Credential=" + accessKey + "/" + credentialScope + ", "
                  + "SignedHeaders=" + Join(names, ';') + ", Signature=" + signature;
    PrintText(Credential(accessKey, clock.dateStamp, REGION, SERVICE, names, signature));
  }

  lemma JoinThreeFields(a: string, b: string, d: string)
    ensures Join([a, " " + b, " " + d], ',') == a + ", " + b + ", " + d
  {
    var x, y := " " + b, " " + d;
    assert [a, x, y][1..] == [x, y] && [x, y][1..] == [y];
    assert Join([x, y], ',') == x + "," + y;
    assert Join([a, x, y], ',') == a + "," + (x + "," + y);
    assert a + "," + (x + "," + y) == a + ", " + b + ", " + d;
  }

  lemma PrintText(c: Credential)
    ensures Print(c) == ALGORITHM + " Credential=" + c.accessKey + "/"
                        + (c.date + "/" + c.region + "/" + c.service + "/" + TERMINATOR) + ", "
                        + "SignedHeaders=" + Join(c.signedHeaders, ';') + ", Signature=" + c.signature
  {
    var scope := Join([c.date, c.region, c.service, TERMINATOR], '/');
    JoinFour(c.date, c.region, c.service, TERMINATOR);
    var parts := [c.accessKey, c.date, c.region, c.service, TERMINATOR];
    assert parts[1..] == [c.date, c.region, c.service, TERMINATOR];
    assert CredentialValue(c) == c.accessKey + "/" + scope;
    JoinThreeFields(FieldTexts(c)[0], FieldTexts(c)[1], FieldTexts(c)[2]);
    PrintPieces(ALGORITHM, c.accessKey, scope, HeadersValue(c), c.signature);
  }

  lemma PrintPieces(algorithm: string, accessKey: string, scope: string, headers: string, signature: string)
    ensures algorithm + " " + ("Credential" + "=" + (accessKey + "/" + scope) + ", " + ("SignedHeaders" + "=" + headers)
                               + ", " + ("Signature" + "=" + signature))
         == algorithm + " Credential=" + accessKey + "/" + scope + ", " + "SignedHeaders=" + headers
            + ", Signature=" + signature
  {
  }
}
