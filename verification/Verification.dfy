/** Verifying a signature against the live request. SHA-256, HMAC (section 2 of RFC 2104) and the
    date codec are parameters. */
module Verification {
  import opened Results
  import opened Text
  import opened CanonicalRequest
  import opened Authorization

  datatype Crypto = Crypto(
    sha256: string -> string,
    hmac: (string, string) -> string,
    parseDate: string -> Option<int>)
  {
    /** Digests are byte strings, and an HMAC is not empty. */
    ghost predicate Valid() {
      && (forall x :: IsBytes(sha256(x)))
      && (forall k, x :: IsBytes(hmac(k, x)) && hmac(k, x) != "")
    }
  }

  datatype VerifyError = MissingDate | InvalidDate | RequestExpired | SignatureMismatch

  // ---------------------------------------------------------------- lower-case hexadecimal

  function HexLower(n: nat): char
    requires n < 16
  {
    if n < 10 then ('0' as int + n) as char else ('a' as int + n - 10) as char
  }

  function HexEncode(s: string): (t: string)
    ensures |t| == 2 * |s|
    ensures forall i | 0 <= i < |t| :: '0' <= t[i] <= '9' || 'a' <= t[i] <= 'f'
  {
    if s == "" then ""
    else [HexLower(s[0] as int / 16 % 16), HexLower(s[0] as int % 16)] + HexEncode(s[1..])
  }

  /** Two lower-case digits for each byte, the high one first. */
  lemma HexExactly(s: string, i: nat)
    requires i < |s|
    ensures HexEncode(s)[2 * i] == "0123456789abcdef"[s[i] as int / 16 % 16]
    ensures HexEncode(s)[2 * i + 1] == "0123456789abcdef"[s[i] as int % 16]
  {
    HexAt(s, i);
    HexDigitText(s[i] as int / 16 % 16);
    HexDigitText(s[i] as int % 16);
  }

  lemma {:induction false} HexAt(s: string, i: nat)
    requires i < |s|
    ensures HexEncode(s)[2 * i] == HexLower(s[i] as int / 16 % 16)
    ensures HexEncode(s)[2 * i + 1] == HexLower(s[i] as int % 16)
  {
    var all, rest := HexEncode(s), HexEncode(s[1..]);
    HexCons(s);
    if i > 0 {
      HexAt(s[1..], i - 1);
      var j := 2 * (i - 1);
      assert s[1..][i - 1] == s[i];
      assert all[j + 2] == all[2..][j] && all[j + 3] == all[2..][j + 1];
    }
  }

  lemma HexCons(s: string)
    requires s != ""
    ensures var t := HexEncode(s);
            t[0] == HexLower(s[0] as int / 16 % 16) && t[1] == HexLower(s[0] as int % 16) && t[2..] == HexEncode(s[1..])
  {
  }

  lemma HexDigitText(n: nat)
    requires n < 16
    ensures HexLower(n) == "0123456789abcdef"[n]
  {
  }

  lemma HexByteInjective(x: nat, y: nat)
    requires x < 256 && y < 256
    requires HexLower(x / 16 % 16) == HexLower(y / 16 % 16) && HexLower(x % 16) == HexLower(y % 16)
    ensures x == y
  {
  }

  lemma {:induction false} HexInjective(a: string, b: string)
    requires IsBytes(a) && IsBytes(b) && HexEncode(a) == HexEncode(b)
    ensures a == b
  {
    assert |a| == |b|;
    if a != "" {
      var ha, hb := HexEncode(a), HexEncode(b);
      assert ha[0] == hb[0] && ha[1] == hb[1] && ha[2..] == hb[2..];
      HexByteInjective(a[0] as int, b[0] as int);
      assert ha[2..] == HexEncode(a[1..]) && hb[2..] == HexEncode(b[1..]);
      HexInjective(a[1..], b[1..]);
      assert a == [a[0]] + a[1..] && b == [b[0]] + b[1..];
    }
  }

  // ---------------------------------------------------------------- Verify

  function DeriveSigningKey(secretKey: string, date: string, region: string, service: string, c: Crypto): string {
    c.hmac(c.hmac(c.hmac(c.hmac("AWS4" + secretKey, date), region), service), TERMINATOR)
  }

  function Scope(date: string, region: string, service: string): string {
    Join([date, region, service, TERMINATOR], '/')
  }

  function StringToSign(amzDate: string, scope: string, canonicalText: string, c: Crypto): string {
    Join([ALGORITHM, amzDate, scope, HexEncode(c.sha256(canonicalText))], '\n')
  }

  /** The signature of a canonical request under a credential's scope. */
  function Signature(text: string, amzDate: string, date: string, region: string, service: string,
                     secretKey: string, c: Crypto): string {
    HexEncode(c.hmac(DeriveSigningKey(secretKey, date, region, service, c),
                     StringToSign(amzDate, Scope(date, region, service), text, c)))
  }

  lemma JoinFour(a: string, b: string, d: string, e: string)
    ensures Join([a, b, d, e], '/') == a + "/" + b + "/" + d + "/" + e
    ensures Join([a, b, d, e], '\n') == a + "\n" + b + "\n" + d + "\n" + e
  {
    assert [a, b, d, e][1..] == [b, d, e] && [b, d, e][1..] == [d, e] && [d, e][1..] == [e];
    JoinFourBy(a, b, d, e, '/');
    JoinFourBy(a, b, d, e, '\n');
  }

  lemma JoinFourBy(a: string, b: string, d: string, e: string, sep: char)
    ensures Join([a, b, d, e], sep) == a + [sep] + b + [sep] + d + [sep] + e
  {
    assert [a, b, d, e][1..] == [b, d, e] && [b, d, e][1..] == [d, e] && [d, e][1..] == [e];
    assert Join([d, e], sep) == d + [sep] + e;
    assert Join([b, d, e], sep) == b + [sep] + (d + [sep] + e);
    assert a + [sep] + (b + [sep] + (d + [sep] + e)) == a + [sep] + b + [sep] + d + [sep] + e;
  }

  /** The signature as the standard writes it: the secret, date, region and service go into the key one
      after the other; algorithm, date, scope and hashed canonical request into what it signs. */
  lemma SignatureExactly(text: string, amzDate: string, date: string, region: string, service: string,
                         secretKey: string, c: Crypto)
    ensures Signature(text, amzDate, date, region, service, secretKey, c)
         == HexEncode(c.hmac(c.hmac(c.hmac(c.hmac(c.hmac("AWS4" + secretKey, date), region), service), "aws4_request"),
                             "AWS4-HMAC-SHA256" + "\n" + amzDate + "\n"
                             + (date + "/" + region + "/" + service + "/" + "aws4_request") + "\n"
                             + HexEncode(c.sha256(text))))
  {
    JoinFour(date, region, service, TERMINATOR);
    JoinFour(ALGORITHM, amzDate, Scope(date, region, service), HexEncode(c.sha256(text)));
  }

  ghost function VerifyOutcome(r: HttpRequest, cred: Credential, secretKey: string, maxSkew: int, now: int, c: Crypto)
    : Option<VerifyError>
  {
    var amzDate := HeaderGet(r, "x-amz-date");
    if amzDate == "" then Some(MissingDate)
    else match c.parseDate(amzDate)
      case None => Some(InvalidDate)
      case Some(ts) =>
        if now - ts > maxSkew || now - ts < -maxSkew then Some(RequestExpired)
        else if Signature(CanonicalText(r, cred.signedHeaders), amzDate, cred.date, cred.region, cred.service, secretKey, c)
                != Lower(cred.signature) then Some(SignatureMismatch)
        else None
  }

  method Verify(r: HttpRequest, cred: Credential, secretKey: string, maxSkew: int, now: int, c: Crypto)
    returns (error: Option<VerifyError>)
    ensures error == VerifyOutcome(r, cred, secretKey, maxSkew, now, c)
    ensures var amzDate := HeaderGet(r, "x-amz-date");
            error ==
              if amzDate == "" then Some(MissingDate)
              else if c.parseDate(amzDate).None? then Some(InvalidDate)
              else if !(-maxSkew <= now - c.parseDate(amzDate).value <= maxSkew) then Some(RequestExpired)
              else if Lower(cred.signature) ==
                HexEncode(c.hmac(
                  c.hmac(c.hmac(c.hmac(c.hmac("AWS4" + secretKey, cred.date), cred.region), cred.service), "aws4_request"),
                  "AWS4-HMAC-SHA256" + "\n" + amzDate + "\n"
                  + (cred.date + "/" + cred.region + "/" + cred.service + "/" + "aws4_request") + "\n"
                  + HexEncode(c.sha256(CanonicalText(r, cred.signedHeaders))))) then None
              else Some(SignatureMismatch)
  {
    SignatureExactly(CanonicalText(r, cred.signedHeaders), HeaderGet(r, "x-amz-date"), cred.date, cred.region,
                     cred.service, secretKey, c);
    var amzDate := HeaderGet(r, "x-amz-date");
    if amzDate == "" {
      return Some(MissingDate);
    }
    var ts := c.parseDate(amzDate);
    if ts.None? {
      return Some(InvalidDate);
    }
    var skew := now - ts.value;
    if skew > maxSkew || skew < -maxSkew {
      return Some(RequestExpired);
    }
    var canonicalRequest := BuildCanonicalRequest(r, cred.signedHeaders);
    var hashed := HexEncode(c.sha256(canonicalRequest));
    var credentialScope := Join([cred.date, cred.region, cred.service, TERMINATOR], '/');
    var stringToSign := Join([ALGORITHM, amzDate, credentialScope, hashed], '\n');
    var signingKey := DeriveSigningKey(secretKey, cred.date, cred.region, cred.service, c);
    var expected := HexEncode(c.hmac(signingKey, stringToSign));
    if expected != Lower(cred.signature) {
      return Some(SignatureMismatch);
    }
    return None;
  }

  /** A request whose date is inside the window is accepted exactly when its signature, in either
      case, is the one computed from it. */
  lemma VerifyAccepts(r: HttpRequest, cred: Credential, secretKey: string, maxSkew: int, now: int, ts: int, c: Crypto)
    requires HeaderGet(r, "x-amz-date") != "" && c.parseDate(HeaderGet(r, "x-amz-date")) == Some(ts)
    requires -maxSkew <= now - ts <= maxSkew
    ensures VerifyOutcome(r, cred, secretKey, maxSkew, now, c).None?
       <==> Lower(cred.signature) == Lower(Signature(CanonicalText(r, cred.signedHeaders), HeaderGet(r, "x-amz-date"),
                                                     cred.date, cred.region, cred.service, secretKey, c))
  {
  }

  // ---------------------------------------------------------------- what a signature is made of

  /** Everything that goes into one signature. */
  datatype Signing = Signing(secretKey: string, date: string, region: string, service: string, amzDate: string, text: string)

  function SignatureOf(s: Signing, c: Crypto): string {
    Signature(s.text, s.amzDate, s.date, s.region, s.service, s.secretKey, c)
  }

  /** What the verifier computes the expected signature from. */
  ghost function Expected(r: HttpRequest, cred: Credential, secretKey: string): Signing {
    Signing(secretKey, cred.date, cred.region, cred.service, HeaderGet(r, "x-amz-date"), CanonicalText(r, cred.signedHeaders))
  }

  /** Two different pairs of key and message with the same HMAC. */
  predicate HmacCollides(k1: string, x1: string, k2: string, x2: string, c: Crypto) {
    (k1 != k2 || x1 != x2) && c.hmac(k1, x1) == c.hmac(k2, x2)
  }

  function ToSign(s: Signing, c: Crypto): string {
    StringToSign(s.amzDate, Scope(s.date, s.region, s.service), s.text, c)
  }

  /** SHA-256 collides on the two canonical requests, or HMAC somewhere on the way to the two signatures. */
  predicate Collision(a: Signing, b: Signing, c: Crypto) {
    var a0, b0 := "AWS4" + a.secretKey, "AWS4" + b.secretKey;
    var a1, b1 := c.hmac(a0, a.date), c.hmac(b0, b.date);
    var a2, b2 := c.hmac(a1, a.region), c.hmac(b1, b.region);
    var a3, b3 := c.hmac(a2, a.service), c.hmac(b2, b.service);
    || HmacCollides(a0, a.date, b0, b.date, c) || HmacCollides(a1, a.region, b1, b.region, c)
    || HmacCollides(a2, a.service, b2, b.service, c) || HmacCollides(a3, TERMINATOR, b3, TERMINATOR, c)
    || HmacCollides(c.hmac(a3, TERMINATOR), ToSign(a, c), c.hmac(b3, TERMINATOR), ToSign(b, c), c)
    || (a.text != b.text && c.sha256(a.text) == c.sha256(b.text))
  }

  ghost predicate NewlineFree(s: Signing) {
    '\n' !in s.amzDate && '\n' !in Scope(s.date, s.region, s.service)
  }

  lemma StringToSignUnambiguous(d1: string, d2: string, s1: string, s2: string, h1: string, h2: string)
    requires '\n' !in d1 && '\n' !in d2 && '\n' !in s1 && '\n' !in s2 && '\n' !in h1 && '\n' !in h2
    requires Join([ALGORITHM, d1, s1, h1], '\n') == Join([ALGORITHM, d2, s2, h2], '\n')
    ensures d1 == d2 && h1 == h2
  {
    var a, b := [ALGORITHM, d1, s1, h1], [ALGORITHM, d2, s2, h2];
    SplitOfJoin(a, '\n');
    SplitOfJoin(b, '\n');
    assert a == b;
    assert a[1] == d1 && b[1] == d2 && a[3] == h1 && b[3] == h2;
  }

  lemma EqualKeys(a: Signing, b: Signing, c: Crypto)
    requires DeriveSigningKey(a.secretKey, a.date, a.region, a.service, c)
          == DeriveSigningKey(b.secretKey, b.date, b.region, b.service, c)
    ensures Collision(a, b, c)
            || (a.secretKey == b.secretKey && a.date == b.date && a.region == b.region && a.service == b.service)
  {
    assert ("AWS4" + a.secretKey)[4..] == a.secretKey && ("AWS4" + b.secretKey)[4..] == b.secretKey;
  }

  /** Equal signatures are made from the same secret, date, region, service, request date and canonical
      request, or exhibit a collision. */
  lemma EqualSignatures(a: Signing, b: Signing, c: Crypto)
    requires c.Valid() && NewlineFree(a) && NewlineFree(b) && SignatureOf(a, c) == SignatureOf(b, c)
    ensures Collision(a, b, c) || a == b
  {
    var ka := DeriveSigningKey(a.secretKey, a.date, a.region, a.service, c);
    var kb := DeriveSigningKey(b.secretKey, b.date, b.region, b.service, c);
    HexInjective(c.hmac(ka, ToSign(a, c)), c.hmac(kb, ToSign(b, c)));
    if !Collision(a, b, c) {
      assert !HmacCollides(ka, ToSign(a, c), kb, ToSign(b, c), c);
      EqualKeys(a, b, c);
      StringToSignUnambiguous(a.amzDate, b.amzDate, Scope(a.date, a.region, a.service), Scope(b.date, b.region, b.service),
                              HexEncode(c.sha256(a.text)), HexEncode(c.sha256(b.text)));
      HexInjective(c.sha256(a.text), c.sha256(b.text));
    }
  }

  lemma SignatureIsLower(s: Signing, c: Crypto)
    ensures Lower(SignatureOf(s, c)) == SignatureOf(s, c)
  {
  }

  /** A signature is accepted inside the window if it was made from exactly what the verifier computes it
      from; one made under another secret, for another scope, date or request only with a collision. */
  lemma VerifyOtherSigning(r: HttpRequest, cred: Credential, made: Signing, secretKey: string,
                           maxSkew: int, now: int, ts: int, c: Crypto)
    requires c.Valid() && NewlineFree(made) && NewlineFree(Expected(r, cred, secretKey))
    requires HeaderGet(r, "x-amz-date") != "" && c.parseDate(HeaderGet(r, "x-amz-date")) == Some(ts)
    requires cred.signature == SignatureOf(made, c)
    ensures var accepted := VerifyOutcome(r, cred, secretKey, maxSkew, now, c).None?;
            var inWindow := -maxSkew <= now - ts <= maxSkew;
            && (inWindow && made == Expected(r, cred, secretKey) ==> accepted)
            && (accepted ==> inWindow && (made == Expected(r, cred, secretKey) || Collision(made, Expected(r, cred, secretKey), c)))
  {
    SignatureIsLower(made, c);
    SignatureIsLower(Expected(r, cred, secretKey), c);
    if -maxSkew <= now - ts <= maxSkew {
      VerifyAccepts(r, cred, secretKey, maxSkew, now, ts, c);
      if VerifyOutcome(r, cred, secretKey, maxSkew, now, c).None? {
        EqualSignatures(made, Expected(r, cred, secretKey), c);
      }
    }
  }

  /** In particular a request signed with another secret is never accepted without a collision. */
  lemma OtherSecretIsRefused(r: HttpRequest, cred: Credential, made: Signing, secretKey: string,
                             maxSkew: int, now: int, ts: int, c: Crypto)
    requires c.Valid() && NewlineFree(made) && NewlineFree(Expected(r, cred, secretKey))
    requires HeaderGet(r, "x-amz-date") != "" && c.parseDate(HeaderGet(r, "x-amz-date")) == Some(ts)
    requires cred.signature == SignatureOf(made, c) && made.secretKey != secretKey
    ensures VerifyOutcome(r, cred, secretKey, maxSkew, now, c).None? ==> Collision(made, Expected(r, cred, secretKey), c)
  {
    VerifyOtherSigning(r, cred, made, secretKey, maxSkew, now, ts, c);
  }

  // ---------------------------------------------------------------- tampering

  /** Nothing in the string to sign, other than its own separators, is a newline: HTTP transports none. */
  ghost predicate SignableUnder(r: HttpRequest, cred: Credential) {
    && Signable(r, cred.signedHeaders)
    && '\n' !in HeaderGet(r, "x-amz-date") && '\n' !in Scope(cred.date, cred.region, cred.service)
  }

  lemma AcceptedSignature(r: HttpRequest, cred: Credential, secretKey: string, maxSkew: int, now: int, c: Crypto)
    requires VerifyOutcome(r, cred, secretKey, maxSkew, now, c).None?
    ensures SignatureOf(Expected(r, cred, secretKey), c) == Lower(cred.signature)
  {
  }

  /** One signature, under whatever credentials and secrets it is presented, cannot be accepted with two
      requests that differ in anything signed: if both verify, then secret, scope and date are equal and
      so are method, path, query pairs, signed header names and values, and payload hash, or the two
      exhibit a collision. */
  lemma AcceptedRequestsAgree(r1: HttpRequest, cred1: Credential, secret1: string, now1: int,
                              r2: HttpRequest, cred2: Credential, secret2: string, now2: int, maxSkew: int, c: Crypto)
    requires c.Valid() && SignableUnder(r1, cred1) && SignableUnder(r2, cred2)
    requires cred1.signedHeaders == cred2.signedHeaders || (Separable(cred1.signedHeaders) && Separable(cred2.signedHeaders))
    requires Lower(cred1.signature) == Lower(cred2.signature)
    ensures VerifyOutcome(r1, cred1, secret1, maxSkew, now1, c).None?
            && VerifyOutcome(r2, cred2, secret2, maxSkew, now2, c).None? ==>
            || Collision(Expected(r1, cred1, secret1), Expected(r2, cred2, secret2), c)
            || (&& secret1 == secret2
                && cred1.date == cred2.date && cred1.region == cred2.region && cred1.service == cred2.service
                && HeaderGet(r1, "x-amz-date") == HeaderGet(r2, "x-amz-date")
                && SameSigned(r1, cred1.signedHeaders, r2, cred2.signedHeaders))
  {
    if VerifyOutcome(r1, cred1, secret1, maxSkew, now1, c).None?
       && VerifyOutcome(r2, cred2, secret2, maxSkew, now2, c).None? {
      AcceptedSignature(r1, cred1, secret1, maxSkew, now1, c);
      AcceptedSignature(r2, cred2, secret2, maxSkew, now2, c);
      EqualSignatures(Expected(r1, cred1, secret1), Expected(r2, cred2, secret2), c);
      CanonicalTextUnambiguous(r1, cred1.signedHeaders, r2, cred2.signedHeaders);
    }
  }
}
