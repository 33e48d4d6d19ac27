/** The Go verifier against the Python signer: exactly when it rebuilds the text the script signed, and
    what follows for the requests the script sends. */
module SignerAgreement {
  import opened Results
  import opened Text
  import opened Sorting
  import opened OrderedTable
  import opened UriEncoding
  import opened CanonicalQuery
  import opened CanonicalRequest
  import opened WhiteSpace
  import opened Authorization
  import opened Verification
  import opened PythonSigner

  // ---------------------------------------------------------------- what the script is given and sends

  /** A header name that the parser of the Authorization header gives back as it is. */
  ghost predicate GoodName(n: string) {
    ';' !in n && ',' !in n && Trimmed(n) && Lower(n) == n
  }

  /** Lower-case trimmed header names without separators. */
  ghost predicate SignerNames(call: Call) {
    "authorization" !in call.headers && forall n <- call.headers :: GoodName(n)
  }

  /** The request as the Go server sees it after `urllib` has sent it. */
  function Received(call: Call, path: string, q: Query, sent: map<string, string>): HttpRequest {
    HttpRequest(Upper(call.verb), Delivered(call.netloc), path, q, map h <- sent | h != "host" :: [Delivered(sent[h])])
  }

  lemma SignedNamesAreGood(call: Call, clock: Clock)
    requires SignerNames(call)
    ensures forall n <- SignedNames(call, clock) :: GoodName(n)
    ensures "host" in SignedNames(call, clock) && "x-amz-date" in SignedNames(call, clock)
  {
    FixedNamesAreGood();
    assert forall n :: n in SignedNames(call, clock) <==> n in HeadersToSign(call, clock);
  }

  lemma AscendingIsSorted(names: seq<string>)
    requires Ascending(names)
    ensures Sorted(names, AtMost)
  {
    forall i, j | 0 <= i < j < |names|
      ensures AtMost(names[i], names[j])
    {
      assert Less(names[i], names[j]);
      LessTotal(names[i], names[j]);
    }
  }

  lemma SignedNamesAreCanonical(call: Call, clock: Clock)
    requires SignerNames(call)
    ensures var names := SignedNames(call, clock);
            && names != [] && Join(names, ';') != "" && Sorted(names, AtMost)
            && forall n <- names :: GoodName(n)
  {
    var names := SignedNames(call, clock);
    SignedNamesAreGood(call, clock);
    TwoMembers(names, "host", "x-amz-date");
    JoinedNotEmpty(names, ';');
    AscendingIsSorted(names);
  }

  lemma TwoMembers(s: seq<string>, a: string, b: string)
    requires a in s && b in s && a != b
    ensures |s| > 1
  {
  }

  lemma FixedNamesAreGood()
    ensures GoodName("host") && GoodName("x-amz-date") && GoodName("x-amz-content-sha256")
  {
  }

  // ---------------------------------------------------------------- the two canonical requests

  /** What both sides sign is in `sent`. */
  ghost predicate Sends(call: Call, clock: Clock, sent: map<string, string>) {
    forall h <- HeadersToSign(call, clock) :: h in sent && sent[h] == HeadersToSign(call, clock)[h]
  }

  lemma ReceivedValue(call: Call, clock: Clock, path: string, q: Query, sent: map<string, string>, name: string)
    requires Sends(call, clock, sent) && name in HeadersToSign(call, clock)
    ensures HeaderValue(Received(call, path, q, sent), name) == NormalizeValue(HeadersToSign(call, clock)[name])
  {
    var r, v := Received(call, path, q, sent), HeadersToSign(call, clock)[name];
    assert HeaderValues(r, name) == [Delivered(v)];
    assert NormalizeValues([Delivered(v)]) == [NormalizeValue(Delivered(v))];
    DeliveredNormalizesAlike(v);
  }

  /** The header lines: each name with the value at the same index. */
  function Block(names: seq<string>, values: seq<string>): string
    requires |names| == |values|
  {
    if names == [] then "" else names[0] + ":" + values[0] + "\n" + Block(names[1..], values[1..])
  }

  lemma {:induction false} BlockOfTexts(names: seq<string>, values: seq<string>, texts: seq<string>)
    requires |names| == |values| == |texts|
    requires forall i | 0 <= i < |names| :: texts[i] == names[i] + ":" + values[i]
    ensures Concat(EndLines(texts)) == Block(names, values)
  {
    if names != [] {
      BlockOfTexts(names[1..], values[1..], texts[1..]);
      assert EndLines(texts)[1..] == EndLines(texts[1..]);
    }
  }

  /** The number of newlines. */
  ghost function Newlines(s: string): nat {
    multiset(s)['\n']
  }

  lemma NewlinesAdd(a: string, b: string)
    ensures Newlines(a + b) == Newlines(a) + Newlines(b)
  {
  }

  lemma NoNewlines(s: string)
    ensures Newlines(s) == 0 <==> '\n' !in s
  {
  }

  lemma BlockNewlines(names: seq<string>, values: seq<string>)
    requires |names| == |values| && names != []
    ensures Newlines(Block(names, values))
         == Newlines(names[0]) + Newlines(values[0]) + 1 + Newlines(Block(names[1..], values[1..]))
  {
    var rest := Block(names[1..], values[1..]);
    NewlinesAdd(names[0], ":");
    NewlinesAdd(names[0] + ":", values[0]);
    NewlinesAdd(names[0] + ":" + values[0], "\n");
    NewlinesAdd(names[0] + ":" + values[0] + "\n", rest);
    assert Newlines(":") == 0 && Newlines("\n") == 1;
  }

  lemma {:induction false} FewerNewlines(names: seq<string>, a: seq<string>, b: seq<string>)
    requires |names| == |a| == |b| && forall i | 0 <= i < |a| :: '\n' !in a[i]
    ensures Newlines(Block(names, a)) <= Newlines(Block(names, b))
  {
    if names != [] {
      FewerNewlines(names[1..], a[1..], b[1..]);
      NoNewlines(a[0]);
      BlockNewlines(names, a);
      BlockNewlines(names, b);
    }
  }

  lemma FirstLine(a: string, x: string, b: string, y: string)
    requires '\n' !in a && '\n' !in b && a + "\n" + x == b + "\n" + y
    ensures a == b && x == y
  {
    BeforeFirst(a, x, '\n');
    BeforeFirst(b, y, '\n');
    assert (a + "\n" + x)[|a| + 1..] == x && (b + "\n" + y)[|b| + 1..] == y;
  }

  lemma BlockThen(names: seq<string>, values: seq<string>, tail: string)
    requires |names| == |values| && names != []
    ensures Block(names, values) + tail
         == (names[0] + ":") + (values[0] + "\n" + (Block(names[1..], values[1..]) + tail))
  {
    Regroup(names[0] + ":", values[0], Block(names[1..], values[1..]), tail);
  }

  lemma Regroup(front: string, value: string, rest: string, tail: string)
    ensures front + value + "\n" + rest + tail == front + (value + "\n" + (rest + tail))
  {
  }

  lemma FrontCancels(front: string, x: string, y: string)
    requires front + x == front + y
    ensures x == y
  {
    assert (front + x)[|front|..] == x && (front + y)[|front|..] == y;
  }

  /** Under the same names, blocks and what follows them are equal only if all values are. That one
      side's values hold no newline is enough, by counting. */
  lemma {:induction false} BlocksAgree(names: seq<string>, a: seq<string>, s: string, b: seq<string>, t: string)
    requires |names| == |a| == |b| && (forall i | 0 <= i < |a| :: '\n' !in a[i]) && Newlines(s) <= Newlines(t)
    requires Block(names, a) + s == Block(names, b) + t
    ensures a == b && s == t
  {
    if names != [] {
      var ra, rb := Block(names[1..], a[1..]) + s, Block(names[1..], b[1..]) + t;
      BlockThen(names, a, s);
      BlockThen(names, b, t);
      FrontCancels(names[0] + ":", a[0] + "\n" + ra, b[0] + "\n" + rb);
      FewerNewlines(names[1..], a[1..], b[1..]);
      FirstValueHasNoNewline(a[0], ra, b[0], rb) by {
        NewlinesAdd(Block(names[1..], a[1..]), s);
        NewlinesAdd(Block(names[1..], b[1..]), t);
      }
      FirstLine(a[0], ra, b[0], rb);
      BlocksAgree(names[1..], a[1..], s, b[1..], t);
      assert a == [a[0]] + a[1..] && b == [b[0]] + b[1..];
    } else {
      assert "" + s == s && "" + t == t;
    }
  }

  lemma FirstValueHasNoNewline(a: string, x: string, b: string, y: string)
    requires '\n' !in a && a + "\n" + x == b + "\n" + y && Newlines(x) <= Newlines(y)
    ensures '\n' !in b
  {
    NoNewlines(a);
    NoNewlines(b);
    NewlinesAdd(a, "\n");
    NewlinesAdd(a + "\n", x);
    NewlinesAdd(b, "\n");
    NewlinesAdd(b + "\n", y);
  }

  /** The six lines of a canonical request, written out. */
  ghost function SixParts(m: string, u: string, q: string, h: string, n: string, p: string): string {
    (m + "\n" + u + "\n") + (q + "\n" + (h + ("\n" + n + "\n" + p)))
  }

  lemma SixLines(m: string, u: string, q: string, h: string, n: string, p: string)
    ensures Join([m, u, q, h, n, p], '\n') == SixParts(m, u, q, h, n, p)
  {
    assert [m, u, q, h, n, p] == [m] + ([u] + ([q] + ([h] + ([n] + [p]))));
    JoinTwo(m, [u] + ([q] + ([h] + ([n] + [p]))));
    JoinTwo(u, [q] + ([h] + ([n] + [p])));
    JoinTwo(q, [h] + ([n] + [p]));
    JoinTwo(h, [n] + [p]);
    JoinTwo(n, [p]);
  }

  lemma PayloadNewlines(v: string)
    ensures Newlines(Delivered(v)) == Newlines(v)
  {
    var l, r := DropEndsSplits(v, IsOptional);
    NoNewlines(l);
    NoNewlines(r);
    NewlinesAdd(l, Delivered(v));
    NewlinesAdd(l + Delivered(v), r);
  }

  function ArrivingPayload(v: string): string {
    if Delivered(v) == "" then UNSIGNED_PAYLOAD else Delivered(v)
  }

  function SignedUri(call: Call): string {
    UriEncode(if call.path == "" then "/" else call.path, false)
  }

  lemma ReceivedPayload(call: Call, clock: Clock, path: string, q: Query, sent: map<string, string>)
    requires Sends(call, clock, sent)
    ensures var v := HeadersToSign(call, clock)["x-amz-content-sha256"];
            Payload(Received(call, path, q, sent)) == ArrivingPayload(v)
  {
  }

  /** The payload hash reaches the verifier as it was signed. */
  predicate PayloadArrives(v: string) {
    v != "" && Delivered(v) == v
  }

  lemma SamePayload(v: string)
    ensures var p := ArrivingPayload(v);
            && (p == v <==> PayloadArrives(v)) && Newlines(p) <= Newlines(v)
  {
    PayloadNewlines(v);
    UnsignedPayloadArrives();
  }

  lemma UnsignedPayloadArrives()
    ensures PayloadArrives(UNSIGNED_PAYLOAD) && Newlines(UNSIGNED_PAYLOAD) == 0
  {
    assert EndsClear(UNSIGNED_PAYLOAD, IsOptional) && '\n' !in UNSIGNED_PAYLOAD;
    ClearIsDelivered(UNSIGNED_PAYLOAD);
    NoNewlines(UNSIGNED_PAYLOAD);
  }

  /** The verifier rebuilds nothing differently: encoding keeps the order of the query pairs, the signed
      header values hold no white space but single inner spaces and what both sides trim, and the
      payload hash arrives as signed. */
  ghost predicate SignedAlike(call: Call, clock: Clock, q: Query) {
    var h := HeadersToSign(call, clock);
    && EncodingKeepsOrderOf(Pairs(q))
    && (forall n <- h :: TidyValue(h[n]))
    && PayloadArrives(h["x-amz-content-sha256"])
  }

  ghost function NormalizedValues(h: map<string, string>, names: seq<string>): seq<string>
    requires forall i | 0 <= i < |names| :: names[i] in h
  {
    seq(|names|, i requires 0 <= i < |names| => NormalizeValue(h[names[i]]))
  }

  ghost function StrippedValues(h: map<string, string>, names: seq<string>): seq<string>
    requires forall i | 0 <= i < |names| :: names[i] in h
  {
    seq(|names|, i requires 0 <= i < |names| => Strip(h[names[i]]))
  }

  lemma SameValuesWhenTidy(h: map<string, string>, names: seq<string>)
    requires forall n :: n in names <==> n in h
    requires forall i | 0 <= i < |names| :: names[i] in h
    ensures NormalizedValues(h, names) == StrippedValues(h, names) <==> forall n <- h :: TidyValue(h[n])
    ensures forall v <- NormalizedValues(h, names) :: '\n' !in v
  {
    forall i | 0 <= i < |names|
      ensures NormalizedValues(h, names)[i] == StrippedValues(h, names)[i] <==> TidyValue(h[names[i]])
    {
      NormalizeIsStrip(h[names[i]]);
    }
    forall v | v in NormalizedValues(h, names)
      ensures '\n' !in v
    {
      var i :| 0 <= i < |names| && NormalizedValues(h, names)[i] == v;
      NormalizedHasNoNewline(h[names[i]]);
    }
    if NormalizedValues(h, names) == StrippedValues(h, names) {
      forall n | n in h
        ensures TidyValue(h[n])
      {
        var i :| 0 <= i < |names| && names[i] == n;
        assert NormalizedValues(h, names)[i] == StrippedValues(h, names)[i];
      }
    }
  }

  lemma GoText(call: Call, clock: Clock, path: string, q: Query, sent: map<string, string>)
    requires Sends(call, clock, sent) && SamePath(path, call.path)
    ensures var h, names := HeadersToSign(call, clock), SignedNames(call, clock);
            var v := h["x-amz-content-sha256"];
            (forall i | 0 <= i < |names| :: names[i] in h)
            && CanonicalText(Received(call, path, q, sent), names)
            == SixParts(Upper(call.verb), SignedUri(call), CanonicalQueryString(q),
                        Block(names, NormalizedValues(h, names)), Join(names, ';'), ArrivingPayload(v))
  {
    var h, names := HeadersToSign(call, clock), SignedNames(call, clock);
    var r := Received(call, path, q, sent);
    SlashUri(path, call.path);
    ReceivedPayload(call, clock, path, q, sent);
    forall i | 0 <= i < |names|
      ensures names[i] in h && HeaderValue(r, names[i]) == NormalizeValue(h[names[i]])
    {
      assert names[i] in names;
      ReceivedValue(call, clock, path, q, sent, names[i]);
    }
    BlockOfTexts(names, NormalizedValues(h, names), HeaderTexts(r, names));
    SixLines(Upper(call.verb), SignedUri(call), CanonicalQueryString(q), Block(names, NormalizedValues(h, names)),
             Join(names, ';'), ArrivingPayload(h["x-amz-content-sha256"]));
  }

  lemma PyTextIsBlock(call: Call, clock: Clock)
    ensures var h, names := HeadersToSign(call, clock), SignedNames(call, clock);
            (forall i | 0 <= i < |names| :: names[i] in h)
            && CanonicalTextPy(call, clock)
            == SixParts(Upper(call.verb), SignedUri(call), CanonicalQueryPy(call.pairs),
                        Block(names, StrippedValues(h, names)), Join(names, ';'), h["x-amz-content-sha256"])
  {
    var h, names := HeadersToSign(call, clock), SignedNames(call, clock);
    forall i | 0 <= i < |names|
      ensures names[i] in h
    {
      assert names[i] in names;
    }
    BlockOfTexts(names, StrippedValues(h, names), PyHeaderTexts(h, names));
    SixLines(Upper(call.verb), SignedUri(call), CanonicalQueryPy(call.pairs), Block(names, StrippedValues(h, names)),
             Join(names, ';'), h["x-amz-content-sha256"]);
  }

  lemma QueryPyHasNoNewline(pairs: seq<Pair>)
    ensures '\n' !in CanonicalQueryPy(pairs)
  {
    EncodeSort(pairs);
    var es := Sort(EncodeAll(pairs), PairAtMost);
    SortIsSortedPermutation(EncodeAll(pairs), PairAtMost) by {
      PairOrderIsTotal();
    }
    if '\n' in CanonicalQueryPy(pairs) {
      JoinBytes(Texts(es), '&', '\n');
      var text :| text in Texts(es) && '\n' in text;
      var i :| 0 <= i < |es| && Texts(es)[i] == text;
      assert es[i] in multiset(es) && es[i] in multiset(EncodeAll(pairs));
      var j :| 0 <= j < |pairs| && EncodeAll(pairs)[j] == es[i];
      EncodedPairClean(pairs[j]);
    }
  }

  /** Two texts of six parts that differ at most in query, header values and payload are equal if and
      only if these are. */
  lemma SixPartsAgree(m: string, u: string, names: seq<string>, n: string, q1: string, a: seq<string>, p1: string,
                      q2: string, b: seq<string>, p2: string)
    requires |names| == |a| == |b| && (forall v <- a :: '\n' !in v)
    requires '\n' !in q1 && '\n' !in q2 && Newlines(p1) <= Newlines(p2)
    ensures SixParts(m, u, q1, Block(names, a), n, p1) == SixParts(m, u, q2, Block(names, b), n, p2)
       <==> q1 == q2 && a == b && p1 == p2
  {
    if SixParts(m, u, q1, Block(names, a), n, p1) == SixParts(m, u, q2, Block(names, b), n, p2) {
      SixPartsEqual(m, u, names, n, q1, a, p1, q2, b, p2);
    }
  }

  lemma SixPartsEqual(m: string, u: string, names: seq<string>, n: string, q1: string, a: seq<string>, p1: string,
                      q2: string, b: seq<string>, p2: string)
    requires |names| == |a| == |b| && (forall i | 0 <= i < |a| :: '\n' !in a[i])
    requires '\n' !in q1 && '\n' !in q2 && Newlines(p1) <= Newlines(p2)
    requires SixParts(m, u, q1, Block(names, a), n, p1) == SixParts(m, u, q2, Block(names, b), n, p2)
    ensures q1 == q2 && a == b && p1 == p2
  {
    var front, tail := m + "\n" + u + "\n", "\n" + n + "\n";
    var x, y := Block(names, a) + (tail + p1), Block(names, b) + (tail + p2);
    FrontCancels(front, q1 + "\n" + x, q2 + "\n" + y);
    FirstLine(q1, x, q2, y);
    NewlinesAdd(tail, p1);
    NewlinesAdd(tail, p2);
    BlocksAgree(names, a, tail + p1, b, tail + p2);
    FrontCancels(tail, p1, p2);
  }

  /** The verifier rebuilds exactly the text the script signed if and only if no two query pairs first
      differ at an unreserved byte against a later, escaped one, every signed header value is tidy, and
      the payload hash arrives as it is. */
  lemma CanonicalTextsAgree(call: Call, clock: Clock, path: string, q: Query, sent: map<string, string>)
    requires Sends(call, clock, sent) && SamePath(path, call.path)
    requires QueryBytes(q) && multiset(call.pairs) == Pairs(q)
    ensures CanonicalText(Received(call, path, q, sent), SignedNames(call, clock)) == CanonicalTextPy(call, clock)
       <==> SignedAlike(call, clock, q)
  {
    var h, names := HeadersToSign(call, clock), SignedNames(call, clock);
    var v := h["x-amz-content-sha256"];
    GoText(call, clock, path, q, sent);
    PyTextIsBlock(call, clock);
    QueryStringsAgree(q, call.pairs);
    SamePayload(v);
    SameValuesWhenTidy(h, names);
    QueryTextHasNoNewline(q);
    QueryPyHasNoNewline(call.pairs);
    SixPartsAgree(Upper(call.verb), SignedUri(call), names, Join(names, ';'),
                  CanonicalQueryString(q), NormalizedValues(h, names), ArrivingPayload(v),
                  CanonicalQueryPy(call.pairs), StrippedValues(h, names), v);
  }

  lemma SlashUri(a: string, b: string)
    requires SamePath(a, b)
    ensures CanonicalUri(a) == UriEncode(if b == "" then "/" else b, false)
  {
  }

  // ---------------------------------------------------------------- end to end

  lemma SignerHeaderParses(call: Call, clock: Clock, c: Crypto)
    requires c.Valid() && SignerNames(call) && clock.Valid()
    requires ',' !in call.accessKey && '/' !in call.accessKey
    ensures var header := SignedRequestHeaders(call, clock, c)["authorization"];
            Delivered(header) == header && Parse(header) == Some(SignerCredential(call, clock, c))
  {
    var cred := SignerCredential(call, clock, c);
    SignedNamesAreCanonical(call, clock);
    CanonicalSigner(cred, clock, c, CanonicalTextPy(call, clock), call.secretKey);
    ParseOfPrint(cred);
    PrintEnds(cred);
    ClearIsDelivered(Print(cred));
  }

  lemma PrintEnds(cred: Credential)
    requires cred.signature != "" && !IsSpace(cred.signature[|cred.signature| - 1])
    ensures EndsClear(Print(cred), IsOptional)
  {
    PrintText(cred);
    var header, s := Print(cred), cred.signature;
    var front := ALGORITHM + " Credential=" + cred.accessKey + "/"
                 + (cred.date + "/" + cred.region + "/" + cred.service + "/" + TERMINATOR) + ", "
                 + "SignedHeaders=" + Join(cred.signedHeaders, ';') + ", Signature=";
    assert header == front + s;
    assert front[0] == ALGORITHM[0] == 'A';
  }

  lemma ClearIsDelivered(v: string)
    requires EndsClear(v, IsOptional)
    ensures Delivered(v) == v
  {
    assert "" + v + "" == v;
    DropEndsPadded("", v, "", IsOptional);
  }

  lemma AuthorizationNotSigned(call: Call, clock: Clock)
    requires "authorization" !in call.headers
    ensures "authorization" !in HeadersToSign(call, clock)
  {
    assert |"authorization"| == 13 && |"host"| == 4 && |"x-amz-date"| == 10 && |"x-amz-content-sha256"| == 20;
  }

  lemma ExtraKey(h: map<string, string>, key: string, value: string)
    requires key !in h
    ensures forall k <- h :: k in h[key := value] && h[key := value][k] == h[k]
  {
  }

  lemma AuthorizationIsExtra(call: Call, clock: Clock, c: Crypto)
    requires SignerNames(call)
    ensures Sends(call, clock, SignedRequestHeaders(call, clock, c))
  {
    AuthorizationNotSigned(call, clock);
    ExtraKey(HeadersToSign(call, clock), "authorization", Print(SignerCredential(call, clock, c)));
  }

  lemma DateArrives(call: Call, clock: Clock, path: string, q: Query, sent: map<string, string>)
    requires Sends(call, clock, sent) && clock.Valid()
    ensures HeaderGet(Received(call, path, q, sent), "x-amz-date") == clock.amzDate
  {
    var d := clock.amzDate;
    assert d[0] in d && d[|d| - 1] in d;
    ClearIsDelivered(d);
  }

  lemma ScopeHasNoNewline(clock: Clock)
    requires clock.Valid()
    ensures '\n' !in Scope(clock.dateStamp, REGION, SERVICE) && '\n' !in clock.amzDate
  {
    JoinFour(clock.dateStamp, REGION, SERVICE, TERMINATOR);
    assert '\n' !in REGION && '\n' !in SERVICE && '\n' !in TERMINATOR;
    assert '\n' !in clock.dateStamp;
  }

  /** What the script makes its signature from. */
  ghost function Made(call: Call, clock: Clock): Signing {
    Signing(call.secretKey, clock.dateStamp, REGION, SERVICE, clock.amzDate, CanonicalTextPy(call, clock))
  }

  /** End to end: the header the script makes arrives and parses to the signer's credential. Inside the
      skew window the verifier accepts the request if it knows the same secret and rebuilds the text the
      script signed, and accepts it otherwise only if a hash collides; outside it never does. */
  lemma SignerIsAccepted(call: Call, clock: Clock, path: string, q: Query, secretKey: string, maxSkew: int, now: int, c: Crypto)
    requires c.Valid() && clock.Valid() && c.parseDate(clock.amzDate) == Some(clock.now)
    requires SignerNames(call) && SamePath(path, call.path)
    requires ',' !in call.accessKey && '/' !in call.accessKey
    requires QueryBytes(q) && multiset(call.pairs) == Pairs(q)
    ensures var r, cred := Received(call, path, q, SignedRequestHeaders(call, clock, c)), SignerCredential(call, clock, c);
            var accepted := VerifyOutcome(r, cred, secretKey, maxSkew, now, c).None?;
            var inWindow := -maxSkew <= now - clock.now <= maxSkew;
            var alike := secretKey == call.secretKey && SignedAlike(call, clock, q);
            && Parse(HeaderGet(r, "authorization")) == Some(cred)
            && (inWindow && alike ==> accepted)
            && (accepted ==> inWindow && (alike || Collision(Made(call, clock), Expected(r, cred, secretKey), c)))
  {
    var sent := SignedRequestHeaders(call, clock, c);
    var r, cred := Received(call, path, q, sent), SignerCredential(call, clock, c);
    SignerHeaderParses(call, clock, c);
    AuthorizationIsExtra(call, clock, c);
    CanonicalTextsAgree(call, clock, path, q, sent);
    DateArrives(call, clock, path, q, sent);
    ScopeHasNoNewline(clock);
    VerifyOtherSigning(r, cred, Made(call, clock), secretKey, maxSkew, now, clock.now, c);
  }

  lemma CanonicalSigner(cred: Credential, clock: Clock, c: Crypto, text: string, secretKey: string)
    requires c.Valid()
    requires cred.date == clock.dateStamp && cred.region == REGION && cred.service == SERVICE
    requires cred.signature == Signature(text, clock.amzDate, clock.dateStamp, REGION, SERVICE, secretKey, c)
    requires ',' !in cred.accessKey && '/' !in cred.accessKey && ',' !in cred.date && '/' !in cred.date
    requires var names := cred.signedHeaders;
             && names != [] && Join(names, ';') != "" && Sorted(names, AtMost)
             && forall n <- names :: GoodName(n)
    ensures Canonical(cred)
  {
  }
}
