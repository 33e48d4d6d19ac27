/** The Authorization header of AWS Signature Version 4: parsing, printing, and what the parser
    makes of every header it accepts. */
module Authorization {
  import opened Results
  import opened Text
  import opened Sorting

  const ALGORITHM: string := "AWS4-HMAC-SHA256"
  const TERMINATOR: string := "aws4_request"

  datatype Credential = Credential(
    accessKey: string,
    date: string,
    region: string,
    service: string,
    signedHeaders: seq<string>,
    signature: string)

  // ---------------------------------------------------------------- parsing

  /** `strings.SplitN(s, "=", 2)` when it yields two parts. */
  function Cut(s: string): Option<(string, string)> {
    if s == "" then None
    else if s[0] == '=' then Some(("", s[1..]))
    else match Cut(s[1..])
      case None => None
      case Some((key, value)) => Some(([s[0]] + key, value))
  }

  /** The `name=value` parts as a map: a later part overrides an earlier one of the same name. */
  function FieldsOf(parts: seq<string>): Option<map<string, string>> {
    if parts == [] then Some(map[])
    else
      var front := FieldsOf(parts[..|parts| - 1]);
      var kv := Cut(Trim(parts[|parts| - 1]));
      if front.None? || kv.None? then None else Some(front.value[kv.value.0 := kv.value.1])
  }

  function NormalizeHeaders(headers: seq<string>): (r: seq<string>)
    ensures |r| == |headers| && forall i | 0 <= i < |headers| :: r[i] == Lower(Trim(headers[i]))
  {
    seq(|headers|, i requires 0 <= i < |headers| => Lower(Trim(headers[i])))
  }

  /** The three fields, once found. */
  function FromFields(credential: string, signedHeaders: string, signature: string): Option<Credential> {
    var credParts := Split(credential, '/');
    if credential == "" || signedHeaders == "" || signature == "" then None
    else if |credParts| != 5 || credParts[4] != TERMINATOR then None
    else Some(Credential(credParts[0], credParts[1], credParts[2], credParts[3],
                         SortStrings(NormalizeHeaders(Split(signedHeaders, ';'))), signature))
  }

  function FromMap(fields: map<string, string>): Option<Credential> {
    if "Credential" !in fields || "SignedHeaders" !in fields || "Signature" !in fields then None
    else FromFields(fields["Credential"], fields["SignedHeaders"], fields["Signature"])
  }

  function Parse(header: string): Option<Credential> {
    if !(ALGORITHM + " " <= header) then None
    else
      var fields := FieldsOf(Split(header[|ALGORITHM| + 1..], ','));
      if fields.None? then None else FromMap(fields.value)
  }

  method ParseAuthorization(header: string) returns (r: Option<Credential>)
    ensures r == Parse(header)
  {
    if !(ALGORITHM + " " <= header) {
      return None;
    }
    var parsed := CollectFields(Split(header[|ALGORITHM| + 1..], ','));
    if parsed.None? {
      return None;
    }
    var fields := parsed.value;
    if "Credential" !in fields || "SignedHeaders" !in fields || "Signature" !in fields {
      return None;
    }
    if fields["Credential"] == "" || fields["SignedHeaders"] == "" || fields["Signature"] == "" {
      return None;
    }
    var credParts := Split(fields["Credential"], '/');
    if |credParts| != 5 || credParts[4] != TERMINATOR {
      return None;
    }
    var headers := NormalizeEach(Split(fields["SignedHeaders"], ';'));
    return Some(Credential(credParts[0], credParts[1], credParts[2], credParts[3],
                           SortStrings(headers), fields["Signature"]));
  }

  method CollectFields(parts: seq<string>) returns (r: Option<map<string, string>>)
    ensures r == FieldsOf(parts)
  {
    var fields: map<string, string> := map[];
    for i := 0 to |parts|
      invariant FieldsOf(parts[..i]) == Some(fields)
    {
      assert parts[..i + 1][..i] == parts[..i];
      var kv := Cut(Trim(parts[i]));
      if kv.None? {
        BadPartSpoils(parts, i);
        return None;
      }
      fields := fields[kv.value.0 := kv.value.1];
    }
    assert parts[..|parts|] == parts;
    return Some(fields);
  }

  method NormalizeEach(given: seq<string>) returns (headers: seq<string>)
    ensures headers == NormalizeHeaders(given)
  {
    headers := given;
    for i := 0 to |headers|
      invariant |headers| == |given|
      invariant forall j | 0 <= j < i :: headers[j] == Lower(Trim(given[j]))
      invariant forall j | i <= j < |headers| :: headers[j] == given[j]
    {
      headers := headers[i := Lower(Trim(headers[i]))];
    }
  }

  lemma {:induction false} BadPartSpoils(parts: seq<string>, i: nat)
    requires i < |parts| && Cut(Trim(parts[i])).None?
    ensures FieldsOf(parts).None?
    decreases |parts|
  {
    if i < |parts| - 1 {
      BadPartSpoils(parts[..|parts| - 1], i);
    }
  }

  // ---------------------------------------------------------------- printing

  function CredentialValue(c: Credential): string {
    Join([c.accessKey, c.date, c.region, c.service, TERMINATOR], '/')
  }

  function HeadersValue(c: Credential): string {
    Join(c.signedHeaders, ';')
  }

  function Field(name: string, value: string): string {
    name + "=" + value
  }

  function FieldTexts(c: Credential): seq<string> {
    [Field("Credential", CredentialValue(c)), Field("SignedHeaders", HeadersValue(c)), Field("Signature", c.signature)]
  }

  function Print(c: Credential): string {
    ALGORITHM + " " + Join([FieldTexts(c)[0], " " + FieldTexts(c)[1], " " + FieldTexts(c)[2]], ',')
  }

  /** The credentials the parser can return. */
  ghost predicate Canonical(c: Credential) {
    && (forall s <- [c.accessKey, c.date, c.region, c.service] :: '/' !in s && ',' !in s)
    && c.signedHeaders != [] && HeadersValue(c) != ""
    && (forall h <- c.signedHeaders :: ';' !in h && ',' !in h && Trimmed(h) && Lower(h) == h)
    && Sorted(c.signedHeaders, AtMost)
    && c.signature != "" && ',' !in c.signature && !IsSpace(c.signature[|c.signature| - 1])
  }

  // ---------------------------------------------------------------- what parsing returns

  lemma {:induction false} CutParts(s: string)
    ensures Cut(s).Some? ==> s == Field(Cut(s).value.0, Cut(s).value.1)
  {
    if s != "" && s[0] != '=' {
      CutParts(s[1..]);
    }
  }

  /** A value found by the parser has no comma and no trailing white space. */
  ghost predicate CleanValue(v: string) {
    ',' !in v && (v != "" ==> !IsSpace(v[|v| - 1]))
  }

  lemma {:induction false} FieldValuesClean(parts: seq<string>)
    requires forall part <- parts :: ',' !in part
    ensures FieldsOf(parts).Some? ==> forall k <- FieldsOf(parts).value :: CleanValue(FieldsOf(parts).value[k])
  {
    if parts != [] {
      var last := Trim(parts[|parts| - 1]);
      FieldValuesClean(parts[..|parts| - 1]);
      TrimIsTrimmed(parts[|parts| - 1]);
      CutParts(last);
      if ',' in last {
        TrimKeepsBytes(parts[|parts| - 1], ',');
      }
      var kv := Cut(last);
      if kv.Some? {
        assert forall c <- kv.value.1 :: c in last;
      }
    }
  }

  lemma LowerClean(s: string, c: char)
    requires c !in s && !('A' <= c <= 'Z') && !('a' <= c <= 'z')
    ensures c !in Lower(s)
  {
  }

  lemma NormalizedHeaderIsCanonical(raw: string)
    requires ';' !in raw && ',' !in raw
    ensures var h := Lower(Trim(raw)); ';' !in h && ',' !in h && Trimmed(h) && Lower(h) == h
  {
    var t := Trim(raw);
    if ';' in t { TrimKeepsBytes(raw, ';'); }
    if ',' in t { TrimKeepsBytes(raw, ','); }
    LowerClean(t, ';');
    LowerClean(t, ',');
    TrimIsTrimmed(raw);
    LowerIdempotent(t);
  }

  /** Joining several parts leaves at least one separator. */
  lemma JoinedNotEmpty(parts: seq<string>, sep: char)
    requires |parts| > 1
    ensures Join(parts, sep) != ""
  {
  }

  lemma NormalizedHeadersCanonical(value: string)
    requires value != "" && CleanValue(value)
    ensures var hs := SortStrings(NormalizeHeaders(Split(value, ';')));
            && hs != [] && Join(hs, ';') != "" && Sorted(hs, AtMost)
            && forall h <- hs :: ';' !in h && ',' !in h && Trimmed(h) && Lower(h) == h
  {
    var raw := Split(value, ';');
    var normal := NormalizeHeaders(raw);
    var hs := SortStrings(normal);
    ByteOrderIsTotal();
    SortIsSortedPermutation(normal, AtMost);
    assert |hs| == |multiset(hs)| == |multiset(normal)| == |normal| == |raw|;
    forall h | h in hs
      ensures ';' !in h && ',' !in h && Trimmed(h) && Lower(h) == h
    {
      assert h in multiset(normal);
      var i :| 0 <= i < |normal| && normal[i] == h;
      assert raw[i] in raw;
      if ',' in raw[i] {
        SplitKeepsBytes(value, ';', raw[i], ',');
      }
      NormalizedHeaderIsCanonical(raw[i]);
    }
    if |hs| > 1 {
      JoinedNotEmpty(hs, ';');
    } else {
      JoinOfSplit(value, ';');
      assert raw == [value] && normal == [Lower(Trim(value))];
      TrimKeepsLast(value);
      assert hs[0] in multiset(normal);
    }
  }

  lemma {:induction false} TrimKeepsLast(s: string)
    requires s != "" && !IsSpace(s[|s| - 1])
    ensures Trim(s) != ""
  {
    if IsSpace(s[0]) {
      TrimKeepsLast(s[1..]);
    }
  }

  /** Everything the parser accepts becomes a canonical credential. */
  lemma ParseIsCanonical(header: string)
    ensures Parse(header).Some? ==> Canonical(Parse(header).value)
  {
    if Parse(header).Some? {
      var parts := Split(header[|ALGORITHM| + 1..], ',');
      var fields := FieldsOf(parts).value;
      FieldValuesClean(parts);
      var credential := fields["Credential"];
      var credParts := Split(credential, '/');
      var c := Parse(header).value;
      forall s | s in [c.accessKey, c.date, c.region, c.service]
        ensures '/' !in s && ',' !in s
      {
        assert s in credParts;
        if ',' in s {
          SplitKeepsBytes(credential, '/', s, ',');
        }
      }
      NormalizedHeadersCanonical(fields["SignedHeaders"]);
    }
  }

  // ---------------------------------------------------------------- parsing what was printed

  lemma {:induction false} CutField(name: string, value: string)
    requires '=' !in name
    ensures Cut(Field(name, value)) == Some((name, value))
  {
    var s := Field(name, value);
    if name == "" {
      assert s[1..] == value;
    } else {
      CutField(name[1..], value);
      assert s[1..] == Field(name[1..], value);
      assert name == [name[0]] + name[1..];
    }
  }

  datatype FieldName = CredentialField | HeadersField | SignatureField {
    function Text(): (t: string)
      ensures |t| == match this case CredentialField => 10 case HeadersField => 13 case SignatureField => 9
    {
      match this
      case CredentialField => "Credential"
      case HeadersField => "SignedHeaders"
      case SignatureField => "Signature"
    }
  }

  /** A field with white space around it, as it stands between two commas. */
  datatype Padded = Padded(left: string, name: FieldName, value: string, right: string) {
    function Text(): string {
      left + Field(name.Text(), value) + right
    }

    ghost predicate Valid() {
      AllSpace(left) && AllSpace(right) && value != "" && CleanValue(value)
    }
  }

  lemma NameIsClean(n: FieldName)
    ensures '=' !in n.Text() && ',' !in n.Text() && n.Text() != "" && !IsSpace(n.Text()[0])
  {
  }

  lemma PaddedParses(p: Padded)
    requires p.Valid()
    ensures ',' !in p.Text() && Cut(Trim(p.Text())) == Some((p.name.Text(), p.value))
  {
    var f := Field(p.name.Text(), p.value);
    NameIsClean(p.name);
    assert f[0] == p.name.Text()[0] && f[|f| - 1] == p.value[|p.value| - 1];
    TrimPadded(p.left, f, p.right);
    CutField(p.name.Text(), p.value);
  }

  lemma FieldsOfThree(x: string, y: string, z: string, a: (string, string), b: (string, string), c: (string, string))
    requires Cut(Trim(x)) == Some(a) && Cut(Trim(y)) == Some(b) && Cut(Trim(z)) == Some(c)
    ensures FieldsOf([x, y, z]) == Some(map[][a.0 := a.1][b.0 := b.1][c.0 := c.1])
  {
    assert [x, y, z][..2] == [x, y] && [x, y][..1] == [x] && [x][..0] == [];
    assert FieldsOf([]) == Some(map[]);
    assert FieldsOf([x]) == Some(map[][a.0 := a.1]);
    assert FieldsOf([x, y]) == Some(map[][a.0 := a.1][b.0 := b.1]);
  }

  /** Three fields, each of the three names once, in any order and with any spacing. */
  ghost predicate IsLayout(x: Padded, y: Padded, z: Padded, value: FieldName -> string) {
    && x.name != y.name && y.name != z.name && x.name != z.name
    && x.value == value(x.name) && y.value == value(y.name) && z.value == value(z.name)
  }

  /** Whatever the order of the three fields and the white space around the commas, the parser
      sees the same fields. */
  lemma OrderAndSpacingIrrelevant(x: Padded, y: Padded, z: Padded, value: FieldName -> string)
    requires x.Valid() && y.Valid() && z.Valid() && IsLayout(x, y, z, value)
    ensures Parse(ALGORITHM + " " + Join([x.Text(), y.Text(), z.Text()], ','))
         == FromFields(value(CredentialField), value(HeadersField), value(SignatureField))
  {
    var parts := [x.Text(), y.Text(), z.Text()];
    var header := ALGORITHM + " " + Join(parts, ',');
    PaddedParses(x);
    PaddedParses(y);
    PaddedParses(z);
    SplitOfJoin(parts, ',');
    assert header[|ALGORITHM| + 1..] == Join(parts, ',');
    FieldsOfThree(x.Text(), y.Text(), z.Text(),
                  (x.name.Text(), x.value), (y.name.Text(), y.value), (z.name.Text(), z.value));
    ThreeFields(x, y, z, value);
  }

  lemma ThreeFields(x: Padded, y: Padded, z: Padded, value: FieldName -> string)
    requires IsLayout(x, y, z, value)
    ensures FromMap(map[][x.name.Text() := x.value][y.name.Text() := y.value][z.name.Text() := z.value])
         == FromFields(value(CredentialField), value(HeadersField), value(SignatureField))
  {
  }

  lemma PrintedCredential(c: Credential)
    requires Canonical(c)
    ensures CleanValue(CredentialValue(c)) && CredentialValue(c) != ""
    ensures Split(CredentialValue(c), '/') == [c.accessKey, c.date, c.region, c.service, TERMINATOR]
  {
    var parts := [c.accessKey, c.date, c.region, c.service, TERMINATOR];
    var names := [c.accessKey, c.date, c.region, c.service];
    forall s | s in parts
      ensures '/' !in s && ',' !in s
    {
      assert s in names || s == TERMINATOR;
    }
    SplitOfJoin(parts, '/');
    JoinEndsWithLast(parts, '/');
    if ',' in CredentialValue(c) {
      JoinBytes(parts, '/', ',');
    }
  }

  lemma PrintedHeaders(c: Credential)
    requires Canonical(c)
    ensures CleanValue(HeadersValue(c))
    ensures SortStrings(NormalizeHeaders(Split(HeadersValue(c), ';'))) == c.signedHeaders
  {
    if ',' in HeadersValue(c) {
      JoinBytes(c.signedHeaders, ';', ',');
    }
    HeadersEnd(c.signedHeaders);
    SplitOfJoin(c.signedHeaders, ';');
    forall i | 0 <= i < |c.signedHeaders|
      ensures NormalizeHeaders(c.signedHeaders)[i] == c.signedHeaders[i]
    {
      assert c.signedHeaders[i] in c.signedHeaders;
      TrimIsTrimmed(c.signedHeaders[i]);
    }
    assert NormalizeHeaders(c.signedHeaders) == c.signedHeaders;
    ByteOrderIsTotal();
    SortOfSorted(c.signedHeaders, AtMost);
  }

  lemma {:induction false} JoinEndsWithLast(parts: seq<string>, sep: char)
    requires parts != [] && parts[|parts| - 1] != ""
    ensures var j, last := Join(parts, sep), parts[|parts| - 1]; j != "" && j[|j| - 1] == last[|last| - 1]
  {
    if |parts| > 1 {
      JoinEndsWithLast(parts[1..], sep);
    }
  }

  lemma {:induction false} HeadersEnd(headers: seq<string>)
    requires headers != [] && forall h <- headers :: Trimmed(h)
    ensures var j := Join(headers, ';'); j != "" ==> !IsSpace(j[|j| - 1])
  {
    if |headers| > 1 {
      HeadersEnd(headers[1..]);
    } else {
      assert headers[0] in headers;
    }
  }

  function FieldValue(c: Credential): FieldName -> string {
    (n: FieldName) => match n
      case CredentialField => CredentialValue(c)
      case HeadersField => HeadersValue(c)
      case SignatureField => c.signature
  }

  lemma CanonicalFields(c: Credential)
    requires Canonical(c)
    ensures forall n: FieldName :: CleanValue(FieldValue(c)(n)) && FieldValue(c)(n) != ""
    ensures FromFields(CredentialValue(c), HeadersValue(c), c.signature) == Some(c)
  {
    PrintedCredential(c);
    PrintedHeaders(c);
    PartsMakeCredential(CredentialValue(c), HeadersValue(c), c);
    CleanFieldValues(c);
  }

  lemma CleanFieldValues(c: Credential)
    requires CleanValue(CredentialValue(c)) && CleanValue(HeadersValue(c)) && CleanValue(c.signature)
    requires CredentialValue(c) != "" && HeadersValue(c) != "" && c.signature != ""
    ensures forall n: FieldName :: CleanValue(FieldValue(c)(n)) && FieldValue(c)(n) != ""
  {
  }

  lemma PartsMakeCredential(credential: string, headers: string, c: Credential)
    requires credential != "" && headers != "" && c.signature != ""
    requires Split(credential, '/') == [c.accessKey, c.date, c.region, c.service, TERMINATOR]
    requires SortStrings(NormalizeHeaders(Split(headers, ';'))) == c.signedHeaders
    ensures FromFields(credential, headers, c.signature) == Some(c)
  {
  }

  /** A header that lays out a canonical credential's fields, in any order and with any white space
      around them, parses to that credential. */
  lemma LayoutParses(c: Credential, x: Padded, y: Padded, z: Padded)
    requires Canonical(c)
    requires AllSpace(x.left) && AllSpace(x.right) && AllSpace(y.left) && AllSpace(y.right)
    requires AllSpace(z.left) && AllSpace(z.right)
    requires IsLayout(x, y, z, FieldValue(c))
    ensures Parse(ALGORITHM + " " + Join([x.Text(), y.Text(), z.Text()], ',')) == Some(c)
  {
    CanonicalFields(c);
    OrderAndSpacingIrrelevant(x, y, z, FieldValue(c));
  }

  lemma ParseOfPrint(c: Credential)
    requires Canonical(c)
    ensures Parse(Print(c)) == Some(c)
  {
    var x := Padded("", CredentialField, CredentialValue(c), "");
    var y := Padded(" ", HeadersField, HeadersValue(c), "");
    var z := Padded(" ", SignatureField, c.signature, "");
    assert x.Text() == FieldTexts(c)[0] && y.Text() == " " + FieldTexts(c)[1] && z.Text() == " " + FieldTexts(c)[2];
    LayoutParses(c, x, y, z);
  }

  /** Printing what was parsed and parsing it again changes nothing, for every accepted header. */
  lemma ParsePrintParse(header: string)
    ensures Parse(header).Some? ==> Parse(Print(Parse(header).value)) == Parse(header)
  {
    if Parse(header).Some? {
      ParseIsCanonical(header);
      ParseOfPrint(Parse(header).value);
    }
  }

  // ---------------------------------------------------------------- what is accepted, exactly

  /** The part, white space aside, is a field of this name: the name ends at its first '='. */
  predicate Named(part: string, name: string) {
    '=' !in name && name + "=" <= Trim(part)
  }

  lemma {:induction false} CutExactly(s: string, name: string, value: string)
    ensures Cut(s).Some? <==> '=' in s
    ensures Cut(s) == Some((name, value)) <==> '=' !in name && s == name + "=" + value
  {
    CutParts(s);
    CutNameClean(s);
    if '=' !in name && s == name + "=" + value {
      CutField(name, value);
    }
  }

  lemma {:induction false} CutNameClean(s: string)
    ensures Cut(s).Some? <==> '=' in s
    ensures Cut(s).Some? ==> '=' !in Cut(s).value.0
  {
    if s != "" {
      assert s == [s[0]] + s[1..];
      if s[0] != '=' {
        CutNameClean(s[1..]);
      }
    }
  }

  /** A list of parts is taken exactly when each has an '='. */
  lemma {:induction false} FieldsAcceptedExactly(parts: seq<string>)
    ensures FieldsOf(parts).Some? <==> forall i | 0 <= i < |parts| :: '=' in Trim(parts[i])
  {
    if parts != [] {
      FieldsAcceptedExactly(parts[..|parts| - 1]);
      CutNameClean(Trim(parts[|parts| - 1]));
    }
  }

  /** Part `i` is the last of this name, and this is its value. */
  ghost predicate LastNamed(parts: seq<string>, name: string, value: string, i: nat) {
    && i < |parts| && Named(parts[i], name) && Trim(parts[i]) == name + "=" + value
    && forall j | i < j < |parts| :: !Named(parts[j], name)
  }

  lemma NamedExactly(part: string, name: string)
    requires Cut(Trim(part)).Some?
    ensures Named(part, name) <==> Cut(Trim(part)).value.0 == name
    ensures Trim(part) == Cut(Trim(part)).value.0 + "=" + Cut(Trim(part)).value.1
  {
    var t := Trim(part);
    CutExactly(t, Cut(t).value.0, Cut(t).value.1);
    if Named(part, name) {
      var rest := t[|name| + 1..];
      assert t == name + "=" + rest;
      CutExactly(t, name, rest);
    }
    if Cut(t).value.0 == name {
      assert name + "=" <= name + "=" + Cut(t).value.1;
    }
  }

  lemma LastNamedInFront(parts: seq<string>, name: string, value: string, i: nat)
    requires parts != [] && LastNamed(parts[..|parts| - 1], name, value, i) && !Named(parts[|parts| - 1], name)
    ensures LastNamed(parts, name, value, i)
  {
    var front := parts[..|parts| - 1];
    assert forall j | 0 <= j < |front| :: front[j] == parts[j];
  }

  /** A name has the value of the last part of that name, and no value when there is none. */
  lemma {:induction false} FieldsExactly(parts: seq<string>, name: string)
    requires FieldsOf(parts).Some?
    ensures var fields := FieldsOf(parts).value;
            if name in fields then exists i :: LastNamed(parts, name, fields[name], i)
            else forall i | 0 <= i < |parts| :: !Named(parts[i], name)
  {
    if parts != [] {
      var front, last := parts[..|parts| - 1], parts[|parts| - 1];
      FieldsExactly(front, name);
      NamedExactly(last, name);
      if Named(last, name) {
        assert LastNamed(parts, name, FieldsOf(parts).value[name], |parts| - 1);
      } else if name in FieldsOf(front).value {
        var i :| LastNamed(front, name, FieldsOf(front).value[name], i);
        LastNamedInFront(parts, name, FieldsOf(front).value[name], i);
      } else {
        assert forall j | 0 <= j < |front| :: front[j] == parts[j];
      }
    }
  }

  /** The value of the Credential field that stands for these parts. */
  ghost predicate IsCredentialValue(value: string, c: Credential) {
    && (forall s <- [c.accessKey, c.date, c.region, c.service] :: '/' !in s)
    && value == c.accessKey + "/" + c.date + "/" + c.region + "/" + c.service + "/" + "aws4_request"
  }

  lemma CredentialValueText(c: Credential)
    ensures CredentialValue(c) == c.accessKey + "/" + c.date + "/" + c.region + "/" + c.service + "/" + "aws4_request"
  {
    JoinFive(c.accessKey, c.date, c.region, c.service, TERMINATOR);
  }

  lemma JoinFive(a: string, b: string, d: string, e: string, f: string)
    ensures Join([a, b, d, e, f], '/') == a + "/" + b + "/" + d + "/" + e + "/" + f
  {
    assert [a, b, d, e, f][1..] == [b, d, e, f] && [b, d, e, f][1..] == [d, e, f];
    assert [d, e, f][1..] == [e, f] && [e, f][1..] == [f];
    assert Join([e, f], '/') == e + ['/'] + f;
    assert Join([d, e, f], '/') == d + ['/'] + (e + ['/'] + f);
    assert Join([b, d, e, f], '/') == b + ['/'] + (d + ['/'] + (e + ['/'] + f));
    FiveConcat(a, b, d, e, f);
  }

  lemma FiveConcat(a: string, b: string, d: string, e: string, f: string)
    ensures a + ['/'] + (b + ['/'] + (d + ['/'] + (e + ['/'] + f))) == a + "/" + b + "/" + d + "/" + e + "/" + f
  {
  }

  /** A credential value is split back into its four parts, and only one that ends in "aws4_request" and
      has exactly these parts is taken. */
  lemma CredentialSplitsExactly(value: string, c: Credential)
    ensures Split(value, '/') == [c.accessKey, c.date, c.region, c.service, TERMINATOR] <==> IsCredentialValue(value, c)
  {
    var parts := [c.accessKey, c.date, c.region, c.service, TERMINATOR];
    var names := [c.accessKey, c.date, c.region, c.service];
    CredentialValueText(c);
    JoinOfSplit(value, '/');
    if Split(value, '/') == parts {
      forall s | s in names
        ensures '/' !in s
      {
        assert s in parts;
      }
    }
    if IsCredentialValue(value, c) {
      forall s | s in parts
        ensures '/' !in s
      {
        assert s in names || s == TERMINATOR;
      }
      SplitOfJoin(parts, '/');
    }
  }

  lemma FromFieldsExactly(credential: string, signedHeaders: string, signature: string, c: Credential)
    ensures FromFields(credential, signedHeaders, signature) == Some(c)
       <==> && signedHeaders != "" && signature != "" && c.signature == signature
            && IsCredentialValue(credential, c)
            && Sorted(c.signedHeaders, AtMost)
            && multiset(c.signedHeaders) == multiset(NormalizeHeaders(Split(signedHeaders, ';')))
  {
    var names := NormalizeHeaders(Split(signedHeaders, ';'));
    CredentialSplitsExactly(credential, c);
    ByteOrderIsTotal();
    SortIsSortedPermutation(names, AtMost);
    if Sorted(c.signedHeaders, AtMost) && multiset(c.signedHeaders) == multiset(names) {
      SortedUnique(SortStrings(names), c.signedHeaders, AtMost);
    }
    if FromFields(credential, signedHeaders, signature) == Some(c) {
      var credParts := Split(credential, '/');
      assert credParts == [c.accessKey, c.date, c.region, c.service, TERMINATOR];
    }
  }

  /** What the parser makes of any header: it names the algorithm; every part has an '='; each of the
      three fields is there and not empty, the last of its name counting; the credential has four parts
      before "aws4_request"; and the signed names are those listed, trimmed, in lower case, sorted. */
  lemma ParseExactly(header: string, c: Credential)
    ensures Parse(header) == Some(c)
       <==> && "AWS4-HMAC-SHA256 " <= header
            && var fields := FieldsOf(Split(header[17..], ','));
            && fields.Some?
            && "Credential" in fields.value && "SignedHeaders" in fields.value && "Signature" in fields.value
            && fields.value["SignedHeaders"] != "" && fields.value["Signature"] == c.signature != ""
            && IsCredentialValue(fields.value["Credential"], c)
            && Sorted(c.signedHeaders, AtMost)
            && multiset(c.signedHeaders) == multiset(NormalizeHeaders(Split(fields.value["SignedHeaders"], ';')))
  {
    assert ALGORITHM + " " == "AWS4-HMAC-SHA256 ";
    if ALGORITHM + " " <= header {
      var fields := FieldsOf(Split(header[17..], ','));
      if fields.Some? && "Credential" in fields.value && "SignedHeaders" in fields.value && "Signature" in fields.value {
        FromFieldsExactly(fields.value["Credential"], fields.value["SignedHeaders"], fields.value["Signature"], c);
      }
    }
  }

  lemma EndOfCredential(front: string)
    ensures var v := front + "/" + "aws4_request"; |v| >= 13 && v[|v| - 13..] == "/aws4_request"
  {
  }

  /** A credential for another terminator is refused, whatever else the header holds. */
  lemma OtherTerminatorIsRefused(header: string, value: string)
    requires "AWS4-HMAC-SHA256 " <= header && FieldsOf(Split(header[17..], ',')).Some?
    requires "Credential" in FieldsOf(Split(header[17..], ',')).value
    requires FieldsOf(Split(header[17..], ',')).value["Credential"] == value
    requires |value| < 13 || value[|value| - 13..] != "/aws4_request"
    ensures Parse(header).None?
  {
    if Parse(header).Some? {
      var c := Parse(header).value;
      ParseExactly(header, c);
      EndOfCredential(c.accessKey + "/" + c.date + "/" + c.region + "/" + c.service);
    }
  }
}
