/** The canonical request of AWS Signature Version 4 ("Create a canonical request"): a flat text
    that determines the request it was made from. */
module CanonicalRequest {
  import opened Text
  import opened UriEncoding
  import opened CanonicalQuery

  /** The parts of an `http.Request` that are signed. Header names are lower case; Go's server
      takes Host out of the headers. */
  datatype HttpRequest = HttpRequest(
    verb: string,
    host: string,
    path: string,
    query: Query,
    headers: map<string, seq<string>>)

  const UNSIGNED_PAYLOAD: string := "UNSIGNED-PAYLOAD"

  /** `Header.Get`. */
  function HeaderGet(r: HttpRequest, name: string): string {
    if name in r.headers && r.headers[name] != [] then r.headers[name][0] else ""
  }

  function HeaderValues(r: HttpRequest, name: string): seq<string> {
    if name == "host" then [if r.host == "" then HeaderGet(r, "host") else r.host]
    else if name in r.headers then r.headers[name]
    else []
  }

  // ---------------------------------------------------------------- white space

  /** `strings.Fields`; `word` is the word being read. */
  function FieldsFrom(word: string, s: string): seq<string>
    decreases |s|
  {
    if s == "" then if word == "" then [] else [word]
    else if IsSpace(s[0]) then (if word == "" then [] else [word]) + FieldsFrom("", s[1..])
    else FieldsFrom(word + [s[0]], s[1..])
  }

  function CollapseWhitespace(s: string): string {
    Join(FieldsFrom("", s), ' ')
  }

  function NormalizeValue(v: string): string {
    CollapseWhitespace(Trim(v))
  }

  function NormalizeValues(values: seq<string>): (r: seq<string>)
    ensures |r| == |values| && forall i | 0 <= i < |values| :: r[i] == NormalizeValue(values[i])
  {
    seq(|values|, i requires 0 <= i < |values| => NormalizeValue(values[i]))
  }

  /** The signed value of a header: its values normalised and comma-joined (section 5.3 of RFC 9110). */
  function HeaderValue(r: HttpRequest, name: string): string {
    Join(NormalizeValues(HeaderValues(r, name)), ',')
  }

  // ---------------------------------------------------------------- the text

  function CanonicalUri(path: string): string {
    if path == "" then "/" else UriEncode(path, false)
  }

  function Payload(r: HttpRequest): string {
    var hash := HeaderGet(r, "x-amz-content-sha256");
    if hash == "" then UNSIGNED_PAYLOAD else hash
  }

  function HeaderText(r: HttpRequest, name: string): string {
    name + ":" + HeaderValue(r, name)
  }

  function HeaderTexts(r: HttpRequest, signed: seq<string>): (t: seq<string>)
    ensures |t| == |signed| && forall i | 0 <= i < |signed| :: t[i] == HeaderText(r, signed[i])
  {
    seq(|signed|, i requires 0 <= i < |signed| => HeaderText(r, signed[i]))
  }

  function EndLines(texts: seq<string>): (t: seq<string>)
    ensures |t| == |texts| && forall i | 0 <= i < |texts| :: t[i] == texts[i] + "\n"
  {
    seq(|texts|, i requires 0 <= i < |texts| => texts[i] + "\n")
  }

  ghost function CanonicalText(r: HttpRequest, signed: seq<string>): string {
    Join([r.verb, CanonicalUri(r.path), CanonicalQueryString(r.query),
          Concat(EndLines(HeaderTexts(r, signed))), Join(signed, ';'), Payload(r)], '\n')
  }

  /** The header lines, one name, its signed value and a newline each. */
  ghost function HeaderLines(r: HttpRequest, signed: seq<string>): string {
    if signed == [] then ""
    else signed[0] + ":" + HeaderValue(r, signed[0]) + "\n" + HeaderLines(r, signed[1..])
  }

  lemma {:induction false} HeaderLinesAreTexts(r: HttpRequest, signed: seq<string>)
    ensures Concat(EndLines(HeaderTexts(r, signed))) == HeaderLines(r, signed)
  {
    if signed != [] {
      HeaderLinesAreTexts(r, signed[1..]);
      assert EndLines(HeaderTexts(r, signed))[1..] == EndLines(HeaderTexts(r, signed[1..]));
    }
  }

  lemma JoinSix(m: string, u: string, q: string, h: string, n: string, p: string)
    ensures Join([m, u, q, h, n, p], '\n') == m + "\n" + u + "\n" + q + "\n" + h + "\n" + n + "\n" + p
  {
    assert [m, u, q, h, n, p] == [m] + ([u] + ([q] + ([h] + ([n] + [p]))));
    JoinTwo(m, [u] + ([q] + ([h] + ([n] + [p]))));
    JoinTwo(u, [q] + ([h] + ([n] + [p])));
    JoinTwo(q, [h] + ([n] + [p]));
    JoinTwo(h, [n] + [p]);
    JoinTwo(n, [p]);
    SixConcat(m, u, q, h, n, p);
  }

  lemma SixConcat(m: string, u: string, q: string, h: string, n: string, p: string)
    ensures m + "\n" + (u + "\n" + (q + "\n" + (h + "\n" + (n + "\n" + p))))
         == m + "\n" + u + "\n" + q + "\n" + h + "\n" + n + "\n" + p
  {
  }

  /** The canonical request written out: method, path, query, header lines, a line of signed names and
      the payload hash, each part closed by a newline but the last. */
  lemma CanonicalTextExactly(r: HttpRequest, signed: seq<string>)
    ensures CanonicalText(r, signed)
         == r.verb + "\n" + CanonicalUri(r.path) + "\n" + CanonicalQueryString(r.query) + "\n"
            + HeaderLines(r, signed) + "\n" + Join(signed, ';') + "\n" + Payload(r)
  {
    HeaderLinesAreTexts(r, signed);
    JoinSix(r.verb, CanonicalUri(r.path), CanonicalQueryString(r.query), HeaderLines(r, signed), Join(signed, ';'),
            Payload(r));
  }

  /** A path without bytes to escape is signed as it is, slashes included, and the empty one as "/". */
  lemma PlainPathStays(path: string)
    requires forall c <- path :: IsUnreserved(c) || c == '/'
    ensures CanonicalUri(path) == if path == "" then "/" else path
  {
    EncodingLeavesAlone(path, false);
  }

  /** All values of a repeated header are signed, in order and comma-joined; a header that is not there
      has the empty value; the host is the request's own. */
  lemma SignedValueExactly(r: HttpRequest, name: string, front: seq<string>, last: string)
    requires name != "host" && name in r.headers && r.headers[name] == front + [last]
    ensures HeaderValue(r, name) ==
      if front == [] then NormalizeValue(last)
      else HeaderValue(r.(headers := r.headers[name := front]), name) + "," + NormalizeValue(last)
    ensures HeaderValue(r.(headers := r.headers - {name}), name) == ""
    ensures r.host != "" ==> HeaderValue(r, "host") == NormalizeValue(r.host)
  {
    var a := NormalizeValues(front);
    assert NormalizeValues(front + [last]) == a + [NormalizeValue(last)];
    JoinAppend(a, NormalizeValue(last));
    assert NormalizeValues([r.host]) == [NormalizeValue(r.host)];
    assert NormalizeValues([]) == [];
  }

  lemma {:induction false} JoinAppend(parts: seq<string>, last: string)
    ensures Join(parts + [last], ',') == if parts == [] then last else Join(parts, ',') + "," + last
  {
    if parts == [] {
      assert parts + [last] == [last];
    } else {
      JoinAppend(parts[1..], last);
      assert (parts + [last])[1..] == parts[1..] + [last];
    }
  }

  /** The payload hash is the first value of its header, unless that is missing or empty. */
  lemma PayloadExactly(r: HttpRequest)
    ensures Payload(r) ==
      if "x-amz-content-sha256" in r.headers && r.headers["x-amz-content-sha256"] != []
         && r.headers["x-amz-content-sha256"][0] != "" then r.headers["x-amz-content-sha256"][0]
      else "UNSIGNED-PAYLOAD"
  {
  }

  method BuildCanonicalRequest(r: HttpRequest, signed: seq<string>) returns (text: string)
    ensures text == CanonicalText(r, signed)
  {
    var headerLines: seq<string> := [];
    for i := 0 to |signed|
      invariant |headerLines| == i
      invariant forall j | 0 <= j < i :: headerLines[j] == HeaderText(r, signed[j]) + "\n"
    {
      var line := BuildHeaderLine(r, signed[i]);
      headerLines := headerLines + [line];
    }
    assert headerLines == EndLines(HeaderTexts(r, signed));
    var contentSha256 := HeaderGet(r, "x-amz-content-sha256");
    if contentSha256 == "" {
      contentSha256 := UNSIGNED_PAYLOAD;
    }
    var uri := "/";
    if r.path != "" {
      uri := EncodeUri(r.path, false);
    }
    var query := BuildCanonicalQueryString(r.query);
    return Join([r.verb, uri, query, Concat(headerLines), Join(signed, ';'), contentSha256], '\n');
  }

  method BuildHeaderLine(r: HttpRequest, name: string) returns (line: string)
    ensures line == HeaderText(r, name) + "\n"
  {
    var values;
    if name == "host" {
      var host := r.host;
      if host == "" {
        host := HeaderGet(r, "host");
      }
      values := [host];
    } else {
      values := if name in r.headers then r.headers[name] else [];
    }
    var normalized: seq<string> := [];
    for i := 0 to |values|
      invariant normalized == NormalizeValues(values)[..i]
    {
      normalized := normalized + [CollapseWhitespace(Trim(values[i]))];
    }
    assert normalized == NormalizeValues(HeaderValues(r, name));
    return name + ":" + Join(normalized, ',') + "\n";
  }

  // ---------------------------------------------------------------- the lines of the text

  /** What the text does not let a caller tell apart: the empty path from "/". */
  predicate SamePath(a: string, b: string) {
    a == b || (a == "" && b == "/") || (a == "/" && b == "")
  }

  /** The two requests agree on everything that is signed. */
  ghost predicate SameSigned(r1: HttpRequest, s1: seq<string>, r2: HttpRequest, s2: seq<string>) {
    && r1.verb == r2.verb
    && SamePath(r1.path, r2.path)
    && Pairs(r1.query) == Pairs(r2.query)
    && s1 == s2
    && (forall h <- s1 :: HeaderValue(r1, h) == HeaderValue(r2, h))
    && Payload(r1) == Payload(r2)
  }

  /** No newline in the method, in the payload hash or in a signed header name, none of which HTTP can
      transport, and paths and queries made of bytes. */
  ghost predicate Signable(r: HttpRequest, signed: seq<string>) {
    && '\n' !in r.verb && '\n' !in Payload(r)
    && (forall h <- signed :: '\n' !in h)
    && IsBytes(r.path) && QueryBytes(r.query)
  }

  /** No name holds the separator of the list: true of every list that splitting at ';' yields. */
  predicate Separable(signed: seq<string>) {
    forall h <- signed :: ';' !in h
  }

  ghost function Lines(r: HttpRequest, signed: seq<string>): seq<string> {
    [r.verb, CanonicalUri(r.path), CanonicalQueryString(r.query)]
    + HeaderTexts(r, signed) + ["", Join(signed, ';'), Payload(r)]
  }

  lemma {:induction false} FieldsHaveNoSpace(word: string, s: string, w: string, c: char)
    requires w in FieldsFrom(word, s) && c in w
    requires forall d <- word :: !IsSpace(d)
    ensures !IsSpace(c)
    decreases |s|
  {
    if s != "" {
      if IsSpace(s[0]) {
        if w in FieldsFrom("", s[1..]) {
          FieldsHaveNoSpace("", s[1..], w, c);
        }
      } else {
        FieldsHaveNoSpace(word + [s[0]], s[1..], w, c);
      }
    }
  }

  lemma NormalizedHasNoNewline(v: string)
    ensures '\n' !in NormalizeValue(v)
  {
    var words := FieldsFrom("", Trim(v));
    if '\n' in NormalizeValue(v) {
      JoinBytes(words, ' ', '\n');
      var w :| w in words && '\n' in w;
      FieldsHaveNoSpace("", Trim(v), w, '\n');
    }
  }

  lemma HeaderValueHasNoNewline(r: HttpRequest, name: string)
    ensures '\n' !in HeaderValue(r, name)
  {
    var values := NormalizeValues(HeaderValues(r, name));
    if '\n' in HeaderValue(r, name) {
      JoinBytes(values, ',', '\n');
      var v :| v in values && '\n' in v;
      var i :| 0 <= i < |values| && values[i] == v;
      NormalizedHasNoNewline(HeaderValues(r, name)[i]);
    }
  }

  lemma UriHasNoNewline(path: string)
    ensures '\n' !in CanonicalUri(path)
  {
    if '\n' in CanonicalUri(path) {
      EncodedAlphabet(path, false, '\n');
    }
  }

  lemma {:induction false} LinesThenRest(texts: seq<string>, rest: seq<string>)
    requires rest != []
    ensures Join(texts + rest, '\n') == Concat(EndLines(texts)) + Join(rest, '\n')
  {
    if texts == [] {
      assert texts + rest == rest;
    } else {
      LinesThenRest(texts[1..], rest);
      assert (texts + rest)[1..] == texts[1..] + rest;
      assert EndLines(texts)[1..] == EndLines(texts[1..]);
      assert texts[0] + ['\n'] + (Concat(EndLines(texts[1..])) + Join(rest, '\n'))
          == (texts[0] + "\n" + Concat(EndLines(texts[1..]))) + Join(rest, '\n');
    }
  }

  lemma {:induction false} JoinTwo(first: string, rest: seq<string>)
    requires rest != []
    ensures Join([first] + rest, '\n') == first + "\n" + Join(rest, '\n')
  {
    assert ([first] + rest)[1..] == rest;
  }

  lemma HeaderBlock(texts: seq<string>, tail: seq<string>)
    requires tail != []
    ensures Join([Concat(EndLines(texts))] + tail, '\n') == Join(texts + ([""] + tail), '\n')
  {
    LinesThenRest(texts, [""] + tail);
    JoinTwo("", tail);
    JoinTwo(Concat(EndLines(texts)), tail);
    var t := Join(tail, '\n');
    assert Concat(EndLines(texts)) + "\n" + t == Concat(EndLines(texts)) + ("" + "\n" + t);
  }

  /** The text is its lines joined: headers, the empty line and the rest are lines like any other. */
  lemma TextIsLines(r: HttpRequest, signed: seq<string>)
    ensures CanonicalText(r, signed) == Join(Lines(r, signed), '\n')
  {
    var m, u, q := r.verb, CanonicalUri(r.path), CanonicalQueryString(r.query);
    var s, p := Join(signed, ';'), Payload(r);
    var texts := HeaderTexts(r, signed);
    var headers := Concat(EndLines(texts));
    HeaderBlock(texts, [s, p]);
    JoinThree(m, u, q, texts + ([""] + [s, p]), [headers] + [s, p]);
    assert [m, u, q] + texts + ["", s, p] == [m, u, q] + (texts + ([""] + [s, p]));
    assert [m, u, q, headers, s, p] == [m, u, q] + ([headers] + [s, p]);
  }

  lemma JoinThree(m: string, u: string, q: string, a: seq<string>, b: seq<string>)
    requires a != [] && b != [] && Join(a, '\n') == Join(b, '\n')
    ensures Join([m, u, q] + a, '\n') == Join([m, u, q] + b, '\n')
  {
    assert [m, u, q] + a == [m] + ([u] + ([q] + a));
    assert [m, u, q] + b == [m] + ([u] + ([q] + b));
    JoinTwo(q, a);
    JoinTwo(q, b);
    JoinTwo(u, [q] + a);
    JoinTwo(u, [q] + b);
    JoinTwo(m, [u] + ([q] + a));
    JoinTwo(m, [u] + ([q] + b));
  }

  lemma LinesHaveNoNewline(r: HttpRequest, signed: seq<string>)
    requires Signable(r, signed)
    ensures forall line <- Lines(r, signed) :: '\n' !in line
  {
    UriHasNoNewline(r.path);
    QueryTextHasNoNewline(r.query);
    if '\n' in Join(signed, ';') {
      JoinBytes(signed, ';', '\n');
    }
    var texts := HeaderTexts(r, signed);
    forall line | line in texts
      ensures '\n' !in line
    {
      var i :| 0 <= i < |texts| && texts[i] == line;
      assert signed[i] in signed;
      HeaderValueHasNoNewline(r, signed[i]);
    }
  }

  // ---------------------------------------------------------------- unambiguity

  lemma SameUri(a: string, b: string)
    requires IsBytes(a) && IsBytes(b)
    ensures CanonicalUri(a) == CanonicalUri(b) <==> SamePath(a, b)
  {
    assert UriEncode("/", false) == "/" + UriEncode("", false);
    assert IsBytes("/");
    var a', b' := if a == "" then "/" else a, if b == "" then "/" else b;
    if CanonicalUri(a) == CanonicalUri(b) {
      EncodeInjective(a', b', false);
    }
  }

  lemma SameNames(s1: seq<string>, s2: seq<string>)
    requires |s1| == |s2| && Separable(s1) && Separable(s2) && Join(s1, ';') == Join(s2, ';')
    ensures s1 == s2
  {
    if s1 != [] {
      SplitOfJoin(s1, ';');
      SplitOfJoin(s2, ';');
    }
  }

  lemma SameValues(r1: HttpRequest, r2: HttpRequest, signed: seq<string>)
    requires HeaderTexts(r1, signed) == HeaderTexts(r2, signed)
    ensures forall h <- signed :: HeaderValue(r1, h) == HeaderValue(r2, h)
  {
    forall i | 0 <= i < |signed|
      ensures HeaderValue(r1, signed[i]) == HeaderValue(r2, signed[i])
    {
      var front := signed[i] + ":";
      assert HeaderText(r1, signed[i])[|front|..] == HeaderValue(r1, signed[i]);
      assert HeaderText(r2, signed[i])[|front|..] == HeaderValue(r2, signed[i]);
      assert HeaderTexts(r1, signed)[i] == HeaderTexts(r2, signed)[i];
    }
  }

  lemma SameLines(r1: HttpRequest, s1: seq<string>, r2: HttpRequest, s2: seq<string>)
    requires Lines(r1, s1) == Lines(r2, s2)
    ensures r1.verb == r2.verb && CanonicalUri(r1.path) == CanonicalUri(r2.path)
    ensures CanonicalQueryString(r1.query) == CanonicalQueryString(r2.query)
    ensures HeaderTexts(r1, s1) == HeaderTexts(r2, s2) && Payload(r1) == Payload(r2)
    ensures |s1| == |s2| && Join(s1, ';') == Join(s2, ';')
  {
    var a, b := Lines(r1, s1), Lines(r2, s2);
    assert |a| == |s1| + 6 && |b| == |s2| + 6;
    assert a[0] == b[0] && a[1] == b[1] && a[2] == b[2] && a[|a| - 1] == b[|b| - 1] && a[|a| - 2] == b[|b| - 2];
    assert a[3..|a| - 3] == HeaderTexts(r1, s1) && b[3..|b| - 3] == HeaderTexts(r2, s2);
  }

  /** The canonical request is unambiguous: equal texts mean equal signed content, and conversely. The
      header names may hold colons; when the two lists are not known to be the same, no name may hold a
      ';', which no parsed list does. */
  lemma CanonicalTextUnambiguous(r1: HttpRequest, s1: seq<string>, r2: HttpRequest, s2: seq<string>)
    requires Signable(r1, s1) && Signable(r2, s2)
    requires s1 == s2 || (Separable(s1) && Separable(s2))
    ensures CanonicalText(r1, s1) == CanonicalText(r2, s2) <==> SameSigned(r1, s1, r2, s2)
  {
    TextIsLines(r1, s1);
    TextIsLines(r2, s2);
    LinesHaveNoNewline(r1, s1);
    LinesHaveNoNewline(r2, s2);
    SplitOfJoin(Lines(r1, s1), '\n');
    SplitOfJoin(Lines(r2, s2), '\n');
    SameUri(r1.path, r2.path);
    QueryTextIsCanonical(r1.query, r2.query);
    if CanonicalText(r1, s1) == CanonicalText(r2, s2) {
      SameLines(r1, s1, r2, s2);
      if s1 != s2 {
        SameNames(s1, s2);
      }
      SameValues(r1, r2, s1);
    }
    if SameSigned(r1, s1, r2, s2) {
      forall i | 0 <= i < |s1|
        ensures HeaderTexts(r1, s1)[i] == HeaderTexts(r2, s2)[i]
      {
        assert s1[i] in s1;
      }
      assert HeaderTexts(r1, s1) == HeaderTexts(r2, s2);
    }
  }
}
