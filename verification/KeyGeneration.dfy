/** Access key generation: random bytes mapped onto the base32 alphabet (section 6 of RFC 4648). */
module KeyGeneration {

  const BASE32: string := "ABCDEFGHIJKLMNOPQRSTUVWXYZ234567"

  function MapBytes(alphabet: string, bytes: string): (t: string)
    requires alphabet != ""
    ensures |t| == |bytes| && forall i | 0 <= i < |t| :: t[i] == alphabet[bytes[i] as int % |alphabet|]
  {
    seq(|bytes|, i requires 0 <= i < |bytes| => alphabet[bytes[i] as int % |alphabet|])
  }

  /** `randomStringFromAlphabet`: the buffer of random bytes is rewritten in place. */
  method RandomStringFromAlphabet(alphabet: string, b: array<char>) returns (r: string)
    requires alphabet != ""
    modifies b
    ensures r == b[..] == MapBytes(alphabet, old(b[..]))
  {
    for i := 0 to b.Length
      invariant forall j | 0 <= j < i :: b[j] == alphabet[old(b[j]) as int % |alphabet|]
      invariant forall j | i <= j < b.Length :: b[j] == old(b[j])
    {
      b[i] := alphabet[b[i] as int % |alphabet|];
    }
    assert b[..] == MapBytes(alphabet, old(b[..]));
    return b[..];
  }

  // ---------------------------------------------------------------- counting

  function PowerOf8(n: nat): nat {
    if n == 0 then 1 else 8 * PowerOf8(n - 1)
  }

  function PowerOf256(n: nat): nat {
    if n == 0 then 1 else 256 * PowerOf256(n - 1)
  }

  predicate Below(c: char, n: nat) {
    c as int < n
  }

  ghost const BYTES: set<char> := set c: char | Below(c, 256)

  lemma {:induction false} BelowSize(n: nat)
    requires n <= 256
    ensures |set c: char | Below(c, n)| == n
  {
    var s := set c: char | Below(c, n);
    if n == 0 {
      assert s == {};
    } else {
      var m := n - 1;
      BelowSize(m);
      assert s == (set c: char | Below(c, m)) + {m as char};
    }
  }

  ghost function ConsAll(heads: set<char>, tails: set<string>): set<string> {
    set h <- heads, t <- tails :: [h] + t
  }

  /** All byte strings of length `n`. */
  ghost function ByteStrings(n: nat): set<string> {
    if n == 0 then {""} else ConsAll(BYTES, ByteStrings(n - 1))
  }

  /** The bytes that come out as a given letter, and the byte strings that come out as a given text. */
  ghost function ByteSources(c: char): set<char> {
    set b <- BYTES | BASE32[b as int % 32] == c
  }

  ghost function Sources(t: string): set<string> {
    set s <- ByteStrings(|t|) | MapBytes(BASE32, s) == t
  }

  lemma ConsAllHas(heads: set<char>, tails: set<string>, s: string)
    ensures s in ConsAll(heads, tails) <==> s != "" && s[0] in heads && s[1..] in tails
  {
    if s in ConsAll(heads, tails) {
      var h, t :| h in heads && t in tails && s == [h] + t;
      assert s[1..] == t;
    }
    if s != "" && s[0] in heads && s[1..] in tails {
      assert s == [s[0]] + s[1..];
    }
  }

  lemma {:induction false} ByteStringsExact(n: nat, s: string)
    ensures s in ByteStrings(n) <==> |s| == n && forall i | 0 <= i < |s| :: s[i] as int < 256
  {
    if n > 0 {
      ConsAllHas(BYTES, ByteStrings(n - 1), s);
      if s != "" {
        ByteStringsExact(n - 1, s[1..]);
        assert s == [s[0]] + s[1..];
      }
    }
  }

  lemma ConsOneStep(h: char, t: string, s: string, tails: set<string>)
    requires t in tails
    ensures s in ConsAll({h}, tails) <==> s in ConsAll({h}, tails - {t}) || s == [h] + t
    ensures s in ConsAll({h}, tails - {t}) ==> s != [h] + t
  {
    ConsAllHas({h}, tails, s);
    ConsAllHas({h}, tails - {t}, s);
    assert ([h] + t)[1..] == t;
    assert s != "" ==> s == [s[0]] + s[1..];
  }

  lemma {:induction false} ConsOneSize(h: char, tails: set<string>)
    ensures |ConsAll({h}, tails)| == |tails|
    decreases |tails|
  {
    var all := ConsAll({h}, tails);
    if tails == {} {
      assert all == {};
    } else {
      var t :| t in tails;
      var rest := ConsAll({h}, tails - {t});
      ConsOneSize(h, tails - {t});
      forall s {
        ConsOneStep(h, t, s, tails);
      }
      assert all == rest + {[h] + t};
    }
  }

  lemma ConsAllSplit(h: char, heads: set<char>, tails: set<string>)
    requires h in heads
    ensures ConsAll(heads, tails) == ConsAll(heads - {h}, tails) + ConsAll({h}, tails)
    ensures ConsAll(heads - {h}, tails) !! ConsAll({h}, tails)
  {
    var all, rest, one := ConsAll(heads, tails), ConsAll(heads - {h}, tails), ConsAll({h}, tails);
    forall s
      ensures s in all <==> s in rest || s in one
      ensures !(s in rest && s in one)
    {
      ConsAllHas(heads, tails, s);
      ConsAllHas(heads - {h}, tails, s);
      ConsAllHas({h}, tails, s);
    }
    assert all == rest + one && rest !! one;
  }

  function Times(n: nat, m: nat): nat {
    if n == 0 then 0 else Times(n - 1, m) + m
  }

  lemma {:induction false} TimesIsProduct(n: nat, m: nat)
    ensures Times(n, m) == n * m
  {
    if n > 0 {
      TimesIsProduct(n - 1, m);
      assert n * m == (n - 1) * m + m;
    }
  }

  lemma {:induction false} ConsAllSize(heads: set<char>, tails: set<string>, n: nat)
    requires n == |heads|
    ensures |ConsAll(heads, tails)| == Times(n, |tails|)
    decreases n
  {
    if n == 0 {
      assert ConsAll(heads, tails) == {};
    } else {
      assert heads != {};
      var h :| h in heads;
      ConsAllSize(heads - {h}, tails, n - 1);
      ConsOneSize(h, tails);
      ConsAllSplit(h, heads, tails);
    }
  }

  lemma {:induction false} ByteStringsSize(n: nat)
    ensures |ByteStrings(n)| == PowerOf256(n)
  {
    if n > 0 {
      ByteStringsSize(n - 1);
      BelowSize(256);
      var m := |BYTES|;
      ConsAllSize(BYTES, ByteStrings(n - 1), m);
      TimesIsProduct(m, |ByteStrings(n - 1)|);
    }
  }

  /** Letters of the alphabet are distinct, so a letter knows its index. */
  function Index(c: char): nat {
    if 'A' <= c <= 'Z' then c as int - 'A' as int else if '2' <= c <= '7' then 26 + (c as int - '2' as int) else 0
  }

  lemma IndexOfLetter(i: nat)
    requires i < 32
    ensures Index(BASE32[i]) == i
  {
  }

  ghost function EightBytes(i: nat): (s: set<char>)
    requires i < 32
    ensures |s| == 8
  {
    {i as char, (i + 32) as char, (i + 64) as char, (i + 96) as char,
     (i + 128) as char, (i + 160) as char, (i + 192) as char, (i + 224) as char}
  }

  /** Each letter comes from exactly eight bytes. */
  lemma ByteSourcesSize(i: nat)
    requires i < 32
    ensures |ByteSources(BASE32[i])| == 8
  {
    var s, eight := ByteSources(BASE32[i]), EightBytes(i);
    forall b: char
      ensures b in s <==> b in eight
    {
      if b as int < 256 {
        LetterOfByte(b, i);
      }
    }
    assert s == eight;
  }

  lemma LetterOfByte(b: char, i: nat)
    requires b as int < 256 && i < 32
    ensures BASE32[b as int % 32] == BASE32[i] <==> b in EightBytes(i)
  {
    IndexOfLetter(b as int % 32);
    IndexOfLetter(i);
    SameRemainder(b as int, i);
  }

  lemma SameRemainder(b: nat, i: nat)
    requires b < 256 && i < 32
    ensures b % 32 == i <==> b == i || b == i + 32 || b == i + 64 || b == i + 96
                             || b == i + 128 || b == i + 160 || b == i + 192 || b == i + 224
  {
  }

  lemma MapCons(s: string)
    requires s != ""
    ensures MapBytes(BASE32, s) == [BASE32[s[0] as int % 32]] + MapBytes(BASE32, s[1..])
  {
  }

  lemma SourcesOfCons(t: string)
    requires t != ""
    ensures Sources(t) == ConsAll(ByteSources(t[0]), Sources(t[1..]))
  {
    forall s
      ensures s in Sources(t) <==> s in ConsAll(ByteSources(t[0]), Sources(t[1..]))
    {
      SourceOfCons(t, s);
    }
  }

  lemma SourceOfCons(t: string, s: string)
    requires t != ""
    ensures s in Sources(t) <==> s in ConsAll(ByteSources(t[0]), Sources(t[1..]))
  {
    ConsAllHas(ByteSources(t[0]), Sources(t[1..]), s);
    ConsAllHas(BYTES, ByteStrings(|t| - 1), s);
    if s != "" {
      MapCons(s);
      assert t == [t[0]] + t[1..];
      assert MapBytes(BASE32, s) == t <==> BASE32[s[0] as int % 32] == t[0] && MapBytes(BASE32, s[1..]) == t[1..];
    }
  }

  /** Generation is exactly uniform: every text of n letters comes from 8^n of the byte strings of
      length n, of which there are 256^n (`ByteStringsSize`). */
  lemma {:induction false} GenerationIsUniform(t: string)
    requires forall i | 0 <= i < |t| :: t[i] in BASE32
    ensures |Sources(t)| == PowerOf8(|t|)
  {
    if t == "" {
      assert MapBytes(BASE32, "") == "";
      assert Sources(t) == {""};
    } else {
      var i :| 0 <= i < 32 && BASE32[i] == t[0];
      var rest := t[1..];
      GenerationIsUniform(rest);
      SourcesOfCons(t);
      ByteSourcesSize(i);
      var m := |ByteSources(t[0])|;
      ConsAllSize(ByteSources(t[0]), Sources(rest), m);
      TimesIsProduct(m, |Sources(rest)|);
    }
  }

  /** An access key suffix of 16 letters: 8^16 sources each. */
  lemma AccessKeySuffixIsUniform(t: string)
    requires |t| == 16 && forall i | 0 <= i < |t| :: t[i] in BASE32
    ensures |Sources(t)| == 281_474_976_710_656
  {
    GenerationIsUniform(t);
    SixteenthPower();
  }

  lemma SixteenthPower()
    ensures PowerOf8(16) == 281_474_976_710_656
  {
    assert PowerOf8(2) == 64;
    assert PowerOf8(4) == 4096;
    assert PowerOf8(6) == 262_144;
    assert PowerOf8(8) == 16_777_216;
    assert PowerOf8(10) == 1_073_741_824;
    assert PowerOf8(12) == 68_719_476_736;
    assert PowerOf8(14) == 4_398_046_511_104;
  }
}
