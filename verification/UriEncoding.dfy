/** Percent-encoding (sections 2.1 and 2.3 of RFC 3986) as AWS Signature Version 4 uses it. */
module UriEncoding {
  import opened Text

  predicate IsUnreserved(b: char) {
    'A' <= b <= 'Z' || 'a' <= b <= 'z' || '0' <= b <= '9' || b == '-' || b == '_' || b == '.' || b == '~'
  }

  function HexDigit(n: nat): char
    requires n < 16
  {
    if n < 10 then ('0' as int + n) as char else ('A' as int + n - 10) as char
  }

  /** Go's and Python's `%02X` of one byte, after a percent sign. */
  function Escape(b: char): (r: string)
    ensures |r| == 3 && r[0] == '%' && IsUnreserved(r[1]) && IsUnreserved(r[2])
  {
    ['%', HexDigit(b as int / 16 % 16), HexDigit(b as int % 16)]
  }

  function EncodeByte(b: char, encodeSlash: bool): string {
    if IsUnreserved(b) || (b == '/' && !encodeSlash) then [b] else Escape(b)
  }

  function UriEncode(s: string, encodeSlash: bool): string {
    if s == "" then "" else EncodeByte(s[0], encodeSlash) + UriEncode(s[1..], encodeSlash)
  }

  lemma {:induction false} UriEncodeAppend(s: string, b: char, encodeSlash: bool)
    ensures UriEncode(s + [b], encodeSlash) == UriEncode(s, encodeSlash) + EncodeByte(b, encodeSlash)
  {
    var code := EncodeByte(b, encodeSlash);
    if s == "" {
      assert s + [b] == [b] && [b][1..] == "";
      assert UriEncode([b], encodeSlash) == code + UriEncode("", encodeSlash);
      assert code + "" == code && "" + code == code;
    } else {
      UriEncodeAppend(s[1..], b, encodeSlash);
      assert (s + [b])[1..] == s[1..] + [b] && (s + [b])[0] == s[0];
      var head, rest := EncodeByte(s[0], encodeSlash), UriEncode(s[1..], encodeSlash);
      assert head + (rest + code) == (head + rest) + code;
    }
  }

  method EncodeUri(s: string, encodeSlash: bool) returns (r: string)
    ensures r == UriEncode(s, encodeSlash)
  {
    var buf := "";
    for i := 0 to |s|
      invariant buf == UriEncode(s[..i], encodeSlash)
    {
      UriEncodeAppend(s[..i], s[i], encodeSlash);
      assert s[..i + 1] == s[..i] + [s[i]];
      var b := s[i];
      if IsUnreserved(b) {
        buf := buf + [b];
      } else if b == '/' && !encodeSlash {
        buf := buf + [b];
      } else {
        buf := buf + Escape(b);
      }
    }
    assert s[..|s|] == s;
    return buf;
  }

  // ---------------------------------------------------------------- byte by byte

  /** Section 2.3 of RFC 3986, letter by letter. */
  lemma UnreservedExactly(b: char)
    ensures IsUnreserved(b) <==> b in "ABCDEFGHIJKLMNOPQRSTUVWXYZ" + "abcdefghijklmnopqrstuvwxyz" + "0123456789-._~"
  {
    UpperExactly(b);
    LowerExactly(b);
  }

  lemma UpperExactly(b: char)
    ensures 'A' <= b <= 'Z' <==> b in "ABCDEFGHIJKLMNOPQRSTUVWXYZ"
  {
  }

  lemma LowerExactly(b: char)
    ensures 'a' <= b <= 'z' <==> b in "abcdefghijklmnopqrstuvwxyz"
  {
  }

  /** Encoding goes byte by byte. */
  lemma {:induction false} EncodeConcat(s: string, t: string, encodeSlash: bool)
    ensures UriEncode(s + t, encodeSlash) == UriEncode(s, encodeSlash) + UriEncode(t, encodeSlash)
  {
    if s == "" {
      assert s + t == t;
    } else {
      EncodeConcat(s[1..], t, encodeSlash);
      assert (s + t)[1..] == s[1..] + t && (s + t)[0] == s[0];
    }
  }

  /** One byte is left alone if it is unreserved, or a slash of a path, and otherwise becomes a percent
      sign and two upper-case hexadecimal digits, the high one first. */
  lemma EncodeOneByte(b: char, encodeSlash: bool)
    requires b as int < 256
    ensures UriEncode([b], encodeSlash) ==
      if b in "ABCDEFGHIJKLMNOPQRSTUVWXYZ" + "abcdefghijklmnopqrstuvwxyz" + "0123456789-._~" || (b == '/' && !encodeSlash) then [b]
      else ['%', "0123456789ABCDEF"[b as int / 16], "0123456789ABCDEF"[b as int % 16]]
  {
    UnreservedExactly(b);
    HexDigitText(b as int / 16);
    HexDigitText(b as int % 16);
    assert [b][1..] == "" && UriEncode("", encodeSlash) == "";
    assert UriEncode([b], encodeSlash) == EncodeByte(b, encodeSlash) + "";
  }

  lemma HexDigitText(n: nat)
    requires n < 16
    ensures HexDigit(n) == "0123456789ABCDEF"[n]
  {
  }

  /** Encoding leaves exactly the strings alone that have nothing to escape: unreserved bytes and, in a
      path, slashes. */
  lemma {:induction false} EncodingLeavesAlone(s: string, encodeSlash: bool)
    ensures UriEncode(s, encodeSlash) == s <==> forall c <- s :: IsUnreserved(c) || (c == '/' && !encodeSlash)
  {
    EncodingNeverShrinks(s, encodeSlash);
    if s != "" {
      var code, rest := EncodeByte(s[0], encodeSlash), UriEncode(s[1..], encodeSlash);
      EncodingLeavesAlone(s[1..], encodeSlash);
      EncodingNeverShrinks(s[1..], encodeSlash);
      assert s == [s[0]] + s[1..];
      if IsUnreserved(s[0]) || (s[0] == '/' && !encodeSlash) {
        assert ([s[0]] + rest)[1..] == rest;
      } else {
        assert |code + rest| > |s| && s[0] in s;
      }
    }
  }

  lemma {:induction false} EncodingNeverShrinks(s: string, encodeSlash: bool)
    ensures |UriEncode(s, encodeSlash)| >= |s|
  {
    if s != "" {
      EncodingNeverShrinks(s[1..], encodeSlash);
    }
  }

  // ---------------------------------------------------------------- decoding

  function HexValue(c: char): int {
    if '0' <= c <= '9' then c as int - '0' as int
    else if 'A' <= c <= 'F' then c as int - 'A' as int + 10
    else 0
  }

  function PercentDecode(s: string): string {
    if s == "" then ""
    else if s[0] == '%' && |s| >= 3 then
      [(16 * HexValue(s[1]) + HexValue(s[2])) as char] + PercentDecode(s[3..])
    else [s[0]] + PercentDecode(s[1..])
  }

  lemma EscapeDecodes(b: char, rest: string)
    requires b as int < 256
    ensures PercentDecode(Escape(b) + rest) == [b] + PercentDecode(rest)
  {
  }

  /** Decoding undoes encoding, with or without slash encoding. */
  lemma {:induction false} DecodeOfEncode(s: string, encodeSlash: bool)
    requires IsBytes(s)
    ensures PercentDecode(UriEncode(s, encodeSlash)) == s
  {
    if s != "" {
      var rest := UriEncode(s[1..], encodeSlash);
      DecodeOfEncode(s[1..], encodeSlash);
      if EncodeByte(s[0], encodeSlash) == [s[0]] {
        assert ([s[0]] + rest)[1..] == rest;
      } else {
        EscapeDecodes(s[0], rest);
      }
      assert s == [s[0]] + s[1..];
    }
  }

  lemma EncodeInjective(a: string, b: string, encodeSlash: bool)
    requires IsBytes(a) && IsBytes(b) && UriEncode(a, encodeSlash) == UriEncode(b, encodeSlash)
    ensures a == b
  {
    DecodeOfEncode(a, encodeSlash);
    DecodeOfEncode(b, encodeSlash);
  }

  /** Encoded text is made of unreserved bytes, percent signs and, in paths, slashes. */
  lemma {:induction false} EncodedAlphabet(s: string, encodeSlash: bool, c: char)
    requires c in UriEncode(s, encodeSlash)
    ensures IsUnreserved(c) || c == '%' || (c == '/' && !encodeSlash)
  {
    if c !in EncodeByte(s[0], encodeSlash) {
      EncodedAlphabet(s[1..], encodeSlash, c);
    }
  }

  // ---------------------------------------------------------------- order

  ghost predicate Over(s: string, alphabet: set<char>) {
    forall i | 0 <= i < |s| :: s[i] in alphabet
  }

  /** Every escaped byte of the alphabet comes before every byte left alone. */
  ghost predicate OrderSafe(alphabet: set<char>) {
    forall e <- alphabet, u <- alphabet | !IsUnreserved(e) && IsUnreserved(u) :: e < u
  }

  lemma LessByHead(a: char, b: char, s: string, t: string)
    ensures Less([a] + s, [b] + t) <==> a < b || (a == b && Less(s, t))
  {
  }

  lemma TripleOrder(h: char, l: char, h': char, l': char, s: string, t: string)
    ensures Less(['%', h, l] + s, ['%', h', l'] + t)
       <==> h < h' || (h == h' && (l < l' || (l == l' && Less(s, t))))
  {
    assert ['%', h, l] + s == ['%'] + ([h] + ([l] + s));
    assert ['%', h', l'] + t == ['%'] + ([h'] + ([l'] + t));
    LessByHead('%', '%', [h] + ([l] + s), [h'] + ([l'] + t));
    LessByHead(h, h', [l] + s, [l'] + t);
    LessByHead(l, l', s, t);
  }

  lemma DigitsOrder(i: nat, j: nat, hi: nat, lo: nat, hj: nat, lj: nat)
    requires i == 16 * hi + lo && lo < 16 && j == 16 * hj + lj && lj < 16
    ensures i < j <==> hi < hj || (hi == hj && lo < lj)
    ensures i == j <==> hi == hj && lo == lj
  {
  }

  lemma EscapeDigits(x: char) returns (h: nat, l: nat)
    requires x as int < 256
    ensures h < 16 && l < 16 && x as int == 16 * h + l
    ensures Escape(x) == ['%', HexDigit(h), HexDigit(l)]
  {
    h, l := x as int / 16, x as int % 16;
  }

  lemma EscapeDigitsOrder(x: char, y: char)
    requires x as int < 256 && y as int < 256 && x != y
    ensures x < y <==> Escape(x)[1] < Escape(y)[1] || (Escape(x)[1] == Escape(y)[1] && Escape(x)[2] < Escape(y)[2])
    ensures Escape(x)[1] != Escape(y)[1] || Escape(x)[2] != Escape(y)[2]
  {
    var hx, lx := EscapeDigits(x);
    var hy, ly := EscapeDigits(y);
    DigitsOrder(x as int, y as int, hx, lx, hy, ly);
    HexDigitOrder(hx, hy);
    HexDigitOrder(lx, ly);
  }

  lemma EscapesOrder(x: char, y: char, s: string, t: string)
    requires x as int < 256 && y as int < 256 && x != y
    ensures Less(Escape(x) + s, Escape(y) + t) <==> x < y
  {
    var e, f := Escape(x), Escape(y);
    TripleOrder(e[1], e[2], f[1], f[2], s, t);
    EscapeDigitsOrder(x, y);
    assert e == ['%', e[1], e[2]] && f == ['%', f[1], f[2]];
  }

  lemma EncodedBytesOrder(x: char, y: char, s: string, t: string)
    requires x as int < 256 && y as int < 256 && x != y
    requires IsUnreserved(x) == IsUnreserved(y) || ((x < y) == IsUnreserved(y))
    ensures Less(EncodeByte(x, true) + s, EncodeByte(y, true) + t) <==> x < y
  {
    if !IsUnreserved(x) && !IsUnreserved(y) {
      EscapesOrder(x, y, s, t);
    }
  }

  lemma HexDigitOrder(m: nat, n: nat)
    requires m < 16 && n < 16
    ensures HexDigit(m) < HexDigit(n) <==> m < n
    ensures HexDigit(m) == HexDigit(n) <==> m == n
  {
  }

  /** Over an order-safe alphabet encoding keeps strict byte order, both ways. */
  lemma {:induction false} EncodeKeepsOrder(alphabet: set<char>, a: string, b: string)
    requires OrderSafe(alphabet) && Over(a, alphabet) && Over(b, alphabet) && IsBytes(a) && IsBytes(b)
    ensures Less(a, b) <==> Less(UriEncode(a, true), UriEncode(b, true))
  {
    if a != "" && b != "" {
      var x, y := a[0], b[0];
      if x == y {
        EncodeKeepsOrder(alphabet, a[1..], b[1..]);
        LessAfterCommonPrefix(EncodeByte(x, true), UriEncode(a[1..], true), UriEncode(b[1..], true));
      } else {
        EncodedBytesOrder(x, y, UriEncode(a[1..], true), UriEncode(b[1..], true));
      }
    }
  }

  /** Where the two strings first differ it is not an unreserved byte against an escaped one. */
  predicate FirstDifferenceKept(a: string, b: string) {
    a == "" || b == "" ||
    if a[0] == b[0] then FirstDifferenceKept(a[1..], b[1..]) else !(IsUnreserved(a[0]) && !IsUnreserved(b[0]))
  }

  /** For two strings in byte order, encoding keeps the order exactly when they do not first differ at
      an unreserved byte of the first and an escaped byte of the second. */
  lemma {:induction false} FirstDifferenceDecides(a: string, b: string)
    requires Less(a, b) && IsBytes(a) && IsBytes(b)
    ensures Less(UriEncode(a, true), UriEncode(b, true)) <==> FirstDifferenceKept(a, b)
  {
    if a != "" {
      var x, y, s, t := a[0], b[0], UriEncode(a[1..], true), UriEncode(b[1..], true);
      if x == y {
        FirstDifferenceDecides(a[1..], b[1..]);
        LessAfterCommonPrefix(EncodeByte(x, true), s, t);
      } else if IsUnreserved(x) && !IsUnreserved(y) {
        assert '%' < x;
      } else {
        EncodedBytesOrder(x, y, s, t);
      }
    }
  }

  /** The alphabets on which encoding keeps order are exactly the order-safe ones. */
  lemma OrderSafeIsExact(alphabet: set<char>)
    requires forall c <- alphabet :: c as int < 256
    ensures OrderSafe(alphabet)
       <==> (forall a, b | Over(a, alphabet) && Over(b, alphabet) ::
               (Less(a, b) <==> Less(UriEncode(a, true), UriEncode(b, true))))
  {
    if OrderSafe(alphabet) {
      forall a, b | Over(a, alphabet) && Over(b, alphabet)
        ensures Less(a, b) <==> Less(UriEncode(a, true), UriEncode(b, true))
      {
        EncodeKeepsOrder(alphabet, a, b);
      }
    } else {
      var e, u :| e in alphabet && u in alphabet && !IsUnreserved(e) && IsUnreserved(u) && !(e < u);
      EscapedBeforeUnreserved(e, u);
      assert Over([e], alphabet) && Over([u], alphabet);
      assert !Less([e], [u]);
    }
  }

  lemma EscapedBeforeUnreserved(e: char, u: char)
    requires !IsUnreserved(e) && IsUnreserved(u)
    ensures Less(UriEncode([e], true), UriEncode([u], true))
  {
  }

  /** Bytes up to 0x2C together with the unreserved set. */
  predicate InSafeAlphabet(c: char) {
    c as int <= 0x2C || IsUnreserved(c)
  }

  /** That alphabet is safe, and no byte can be added to it. */
  lemma SafeAlphabetIsLargest(alphabet: set<char>)
    requires forall c :: IsUnreserved(c) ==> c in alphabet
    ensures OrderSafe(alphabet) <==> forall c <- alphabet :: InSafeAlphabet(c)
  {
    assert '-' in alphabet;
    if OrderSafe(alphabet) {
      forall c | c in alphabet
        ensures InSafeAlphabet(c)
      {
        assert !IsUnreserved(c) ==> c < '-';
      }
    }
  }

  /** Outside it the orders differ: '{' follows 'z', but its escape comes first. */
  lemma BraceBreaksOrder()
    ensures Less("z", "{") && Less(UriEncode("{", true), UriEncode("z", true))
  {
  }
}
