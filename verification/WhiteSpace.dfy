/** The white space of header values: what HTTP delivers, what the verifier normalises, and what the
    Python signer strips. */
module WhiteSpace {
  import opened Text
  import opened CanonicalRequest

  // ---------------------------------------------------------------- dropping bytes at both ends

  function DropLeft(s: string, p: char -> bool): (t: string)
    ensures t != "" ==> !p(t[0])
  {
    if s != "" && p(s[0]) then DropLeft(s[1..], p) else s
  }

  function DropRight(s: string, p: char -> bool): (t: string)
    ensures t <= s && (t != "" ==> !p(t[|t| - 1]))
  {
    if s != "" && p(s[|s| - 1]) then DropRight(s[..|s| - 1], p) else s
  }

  function DropEnds(s: string, p: char -> bool): string {
    DropRight(DropLeft(s, p), p)
  }

  ghost predicate All(s: string, p: char -> bool) {
    forall c <- s :: p(c)
  }

  /** Neither end of the string is such a byte. */
  predicate EndsClear(s: string, p: char -> bool) {
    s != "" ==> !p(s[0]) && !p(s[|s| - 1])
  }

  lemma {:induction false} DropLeftPadded(left: string, s: string, p: char -> bool)
    requires All(left, p) && (s != "" ==> !p(s[0]))
    ensures DropLeft(left + s, p) == s
  {
    if left == "" {
      assert left + s == s;
    } else {
      assert (left + s)[1..] == left[1..] + s;
      assert left[0] in left;
      DropLeftPadded(left[1..], s, p);
    }
  }

  lemma {:induction false} DropRightPadded(s: string, right: string, p: char -> bool)
    requires All(right, p) && (s != "" ==> !p(s[|s| - 1]))
    ensures DropRight(s + right, p) == s
    decreases |right|
  {
    if right == "" {
      assert s + right == s;
    } else {
      var n := |right| - 1;
      assert (s + right)[..|s + right| - 1] == s + right[..n];
      assert right[n] in right;
      DropRightPadded(s, right[..n], p);
    }
  }

  /** What is left when the padding is taken away, and the only such string. */
  lemma DropEndsPadded(left: string, s: string, right: string, p: char -> bool)
    requires All(left, p) && All(right, p) && EndsClear(s, p)
    ensures DropEnds(left + s + right, p) == s
  {
    if s == "" {
      assert left + s + right == (left + right) + "";
      DropLeftPadded(left + right, "", p);
    } else {
      assert left + s + right == left + (s + right);
      DropLeftPadded(left, s + right, p);
      DropRightPadded(s, right, p);
    }
  }

  lemma {:induction false} DropLeftSplits(s: string, p: char -> bool) returns (left: string)
    ensures s == left + DropLeft(s, p) && All(left, p)
  {
    left := "";
    if s != "" && p(s[0]) {
      var rest := DropLeftSplits(s[1..], p);
      left := [s[0]] + rest;
      assert s == [s[0]] + s[1..];
    }
  }

  lemma {:induction false} DroppedRight(s: string, p: char -> bool)
    ensures forall i | |DropRight(s, p)| <= i < |s| :: p(s[i])
    decreases |s|
  {
    if s != "" && p(s[|s| - 1]) {
      DroppedRight(s[..|s| - 1], p);
      assert forall i | 0 <= i < |s| - 1 :: s[..|s| - 1][i] == s[i];
    }
  }

  lemma DropRightSplits(s: string, p: char -> bool) returns (right: string)
    ensures s == DropRight(s, p) + right && All(right, p)
  {
    var t := DropRight(s, p);
    right := s[|t|..];
    assert s[..|t|] == t;
    DroppedRight(s, p);
  }

  lemma DropEndsSplits(s: string, p: char -> bool) returns (left: string, right: string)
    ensures s == left + DropEnds(s, p) + right && All(left, p) && All(right, p)
    ensures EndsClear(DropEnds(s, p), p)
  {
    left := DropLeftSplits(s, p);
    right := DropRightSplits(DropLeft(s, p), p);
  }

  lemma Regroup(a: string, b: string, t: string, c: string, d: string)
    ensures a + (b + t + c) + d == (a + b) + t + (c + d)
  {
  }

  lemma AllConcat(a: string, b: string, p: char -> bool)
    requires All(a, p) && All(b, p)
    ensures All(a + b, p)
  {
  }

  /** Dropping few kinds of bytes and then more is dropping more. */
  lemma DropTwice(s: string, p: char -> bool, q: char -> bool)
    requires forall c :: p(c) ==> q(c)
    ensures DropEnds(DropEnds(s, p), q) == DropEnds(s, q)
  {
    var l, r := DropEndsSplits(s, p);
    var l', r' := DropEndsSplits(DropEnds(s, p), q);
    var t := DropEnds(DropEnds(s, p), q);
    Regroup(l, l', t, r', r);
    AllConcat(l, l', q);
    AllConcat(r', r, q);
    DropEndsPadded(l + l', t, r' + r, q);
  }

  lemma TrimIsDrop(s: string)
    ensures Trim(s) == DropEnds(s, IsSpace)
  {
    var l, r := DropEndsSplits(s, IsSpace);
    var t := DropEnds(s, IsSpace);
    if t != "" {
      TrimPadded(l, t, r);
    } else {
      SpaceTrimsAway(s);
    }
  }

  lemma {:induction false} SpaceTrimsAway(s: string)
    requires AllSpace(s)
    ensures TrimLeft(s) == ""
  {
    if s != "" {
      assert s[0] in s;
      SpaceTrimsAway(s[1..]);
    }
  }

  // ---------------------------------------------------------------- the three kinds

  /** Optional white space around a field value (section 5.5 of RFC 9110), which a server drops. */
  predicate IsOptional(c: char) {
    c == ' ' || c == '\t'
  }

  function Delivered(v: string): string {
    DropEnds(v, IsOptional)
  }

  /** ASCII white space as `str.strip` sees it: four separators more than Go's. */
  predicate IsPySpace(c: char) {
    IsSpace(c) || 0x1C <= c as int <= 0x1F
  }

  /** `str.strip`. */
  function Strip(s: string): string {
    DropEnds(s, IsPySpace)
  }

  lemma DeliveredNormalizesAlike(v: string)
    ensures NormalizeValue(Delivered(v)) == NormalizeValue(v)
  {
    TrimIsDrop(v);
    TrimIsDrop(Delivered(v));
    DropTwice(v, IsOptional, IsSpace);
  }

  // ---------------------------------------------------------------- collapsing

  /** All white space is single spaces between other bytes, apart from the ends. */
  predicate SingleSpaced(s: string) {
    forall i | 0 <= i < |s| && IsSpace(s[i]) :: s[i] == ' ' && (i > 0 ==> !IsSpace(s[i - 1]))
  }

  ghost predicate IsWord(w: string) {
    w != "" && forall c <- w :: !IsSpace(c)
  }

  lemma {:induction false} FieldsAreWords(word: string, s: string)
    requires forall c <- word :: !IsSpace(c)
    ensures forall w <- FieldsFrom(word, s) :: IsWord(w)
    decreases |s|
  {
    if s != "" {
      if IsSpace(s[0]) {
        FieldsAreWords("", s[1..]);
      } else {
        FieldsAreWords(word + [s[0]], s[1..]);
      }
    }
  }

  lemma {:induction false} JoinedWordsSingleSpaced(words: seq<string>)
    requires forall w <- words :: IsWord(w)
    ensures SingleSpaced(Join(words, ' ')) && EndsClear(Join(words, ' '), IsSpace)
    ensures words != [] ==> Join(words, ' ') != "" && Join(words, ' ')[0] == words[0][0]
  {
    if words != [] {
      assert IsWord(words[0]);
      if |words| > 1 {
        JoinedWordsSingleSpaced(words[1..]);
        WordThenSpaced(words[0], Join(words[1..], ' '));
      }
    }
  }

  lemma WordThenSpaced(w: string, t: string)
    requires IsWord(w) && SingleSpaced(t) && t != "" && EndsClear(t, IsSpace)
    ensures SingleSpaced(w + [' '] + t) && EndsClear(w + [' '] + t, IsSpace)
  {
    var j := w + [' '] + t;
    assert forall k | 0 <= k < |w| :: w[k] in w && j[k] == w[k];
    forall i | 0 <= i < |j| && IsSpace(j[i])
      ensures j[i] == ' ' && (i > 0 ==> !IsSpace(j[i - 1]))
    {
      assert i > |w| ==> j[i] == t[i - |w| - 1];
      assert i > |w| + 1 ==> j[i - 1] == t[i - |w| - 2];
    }
    assert j[0] == w[0] && j[|j| - 1] == t[|t| - 1];
  }

  /** Collapsing keeps the first and the last byte of a trimmed string. */
  lemma {:induction false} CollapseKeepsEnds(word: string, s: string)
    requires (forall c <- word :: !IsSpace(c)) && EndsClear(word + s, IsSpace) && word + s != ""
    ensures var words, t := FieldsFrom(word, s), word + s;
            && words != [] && words[0] != "" && words[0][0] == t[0]
            && var w := words[|words| - 1]; w != "" && w[|w| - 1] == t[|t| - 1]
    decreases |s|
  {
    if s != "" {
      if IsSpace(s[0]) {
        assert (word + s)[|word|] == s[0] && s[|s| - 1] == (word + s)[|word + s| - 1];
        CollapseLast("", s[1..]);
      } else {
        assert word + [s[0]] + s[1..] == word + s;
        CollapseKeepsEnds(word + [s[0]], s[1..]);
      }
    }
  }

  lemma {:induction false} CollapseLast(word: string, s: string)
    requires word + s != "" && !IsSpace((word + s)[|word + s| - 1])
    ensures var words := FieldsFrom(word, s);
            words != [] && var w := words[|words| - 1]; w != "" && w[|w| - 1] == (word + s)[|word + s| - 1]
    decreases |s|
  {
    if s != "" {
      if IsSpace(s[0]) {
        assert s[|s| - 1] == (word + s)[|word + s| - 1];
        CollapseLast("", s[1..]);
      } else {
        assert word + [s[0]] + s[1..] == word + s;
        CollapseLast(word + [s[0]], s[1..]);
      }
    }
  }

  lemma {:induction false} JoinLast(words: seq<string>)
    requires words != [] && forall w <- words :: IsWord(w)
    ensures var j, w := Join(words, ' '), words[|words| - 1]; j != "" && w != "" && j[|j| - 1] == w[|w| - 1]
  {
    assert words[|words| - 1] in words;
    if |words| > 1 {
      JoinLast(words[1..]);
    }
  }

  /** Collapsing leaves single-spaced text alone. */
  lemma {:induction false} CollapseSingleSpaced(word: string, s: string)
    requires SingleSpaced(s) && (s != "" ==> !IsSpace(s[|s| - 1]))
    requires s != "" && IsSpace(s[0]) ==> word != ""
    ensures Join(FieldsFrom(word, s), ' ') == word + s
    decreases |s|
  {
    if s == "" {
      assert word + s == word;
    } else {
      var rest := s[1..];
      assert SingleSpaced(rest);
      if IsSpace(s[0]) {
        assert !IsSpace(s[1]);
        CollapseSingleSpaced("", rest);
        assert FieldsFrom("", rest) != [];
        assert word + s == word + [' '] + rest;
      } else {
        CollapseSingleSpaced(word + [s[0]], rest);
        assert word + [s[0]] + rest == word + s;
      }
    }
  }

  // ---------------------------------------------------------------- what collapsing does to any value

  /** The white space of the two languages, byte by byte. */
  lemma SpaceBytes(c: char)
    ensures IsSpace(c) <==> c as int in {0x09, 0x0A, 0x0B, 0x0C, 0x0D, 0x20}
    ensures IsPySpace(c) <==> c as int in {0x09, 0x0A, 0x0B, 0x0C, 0x0D, 0x1C, 0x1D, 0x1E, 0x1F, 0x20}
  {
  }

  lemma {:induction false} FieldsAroundSpace(word: string, x: string, w: string, y: string)
    requires All(w, IsSpace) && w != ""
    ensures FieldsFrom(word, x + w + y) == FieldsFrom(word, x) + FieldsFrom("", y)
    decreases |x|, |w|
  {
    var s := x + w + y;
    if x == "" {
      assert w[0] in w && s[0] == w[0] && s[1..] == w[1..] + y;
      if w[1..] == "" {
        assert s[1..] == y;
      } else {
        assert "" + w[1..] + y == s[1..];
        FieldsAroundSpace("", "", w[1..], y);
      }
    } else {
      assert s[0] == x[0] && s[1..] == x[1..] + w + y;
      if IsSpace(x[0]) {
        FieldsAroundSpace("", x[1..], w, y);
      } else {
        FieldsAroundSpace(word + [x[0]], x[1..], w, y);
      }
    }
  }

  lemma FieldsOfTrimmed(v: string)
    ensures FieldsFrom("", Trim(v)) == FieldsFrom("", v)
  {
    TrimIsDrop(v);
    var l, r := DropEndsSplits(v, IsSpace);
    var t := Trim(v);
    if r != "" {
      FieldsAroundSpace("", l + t, r, "");
      assert l + t + r + "" == v;
    } else {
      assert l + t == v;
    }
    if l != "" {
      FieldsAroundSpace("", "", l, t);
      assert "" + l + t == l + t;
    } else {
      assert l + t == t;
    }
  }

  lemma {:induction false} JoinConcat(a: seq<string>, b: seq<string>)
    requires a != [] && b != []
    ensures Join(a + b, ' ') == Join(a, ' ') + " " + Join(b, ' ')
  {
    if |a| == 1 {
      assert (a + b)[1..] == b;
    } else {
      JoinConcat(a[1..], b);
      assert (a + b)[1..] == a[1..] + b;
    }
  }

  /** A value is normalised word by word: white space at the ends goes, and any run of it in between
      becomes one space. */
  lemma RunBecomesOneSpace(x: string, w: string, y: string)
    requires All(w, IsSpace) && w != ""
    ensures NormalizeValue(x + w + y) ==
      if NormalizeValue(x) == "" then NormalizeValue(y)
      else if NormalizeValue(y) == "" then NormalizeValue(x)
      else NormalizeValue(x) + " " + NormalizeValue(y)
  {
    var a, b := FieldsFrom("", x), FieldsFrom("", y);
    FieldsOfTrimmed(x);
    FieldsOfTrimmed(y);
    FieldsOfTrimmed(x + w + y);
    FieldsAroundSpace("", x, w, y);
    FieldsAreWords("", x);
    FieldsAreWords("", y);
    JoinedWordsSingleSpaced(a);
    JoinedWordsSingleSpaced(b);
    assert a == [] ==> a + b == b;
    assert b == [] ==> a + b == a;
    if a != [] && b != [] {
      JoinConcat(a, b);
    }
  }

  lemma WordIsNormal(v: string)
    requires forall c <- v :: !IsSpace(c)
    ensures NormalizeValue(v) == v
  {
    if v != "" {
      assert v[0] in v && v[|v| - 1] in v;
    }
    TrimIsTrimmed(v);
    assert SingleSpaced(v) by {
      forall i | 0 <= i < |v|
        ensures !IsSpace(v[i])
      {
        assert v[i] in v;
      }
    }
    CollapseSingleSpaced("", v);
  }

  // ---------------------------------------------------------------- where the two sides agree

  /** All white space in the value is single inner spaces, apart from what Go trims at the ends, and
      no separator that only Python strips stands next to that. */
  predicate TidyValue(v: string) {
    SingleSpaced(Trim(v)) && EndsClear(Trim(v), IsPySpace)
  }

  lemma StripIsTrim(v: string)
    requires EndsClear(Trim(v), IsPySpace)
    ensures Strip(v) == Trim(v)
  {
    TrimIsDrop(v);
    var l, r := DropEndsSplits(v, IsSpace);
    DropEndsPadded(l, Trim(v), r, IsPySpace);
  }

  lemma CollapsedEnds(t: string)
    requires Trimmed(t) && t != ""
    ensures var n := CollapseWhitespace(t); SingleSpaced(n) && n != "" && n[0] == t[0] && n[|n| - 1] == t[|t| - 1]
  {
    var words := FieldsFrom("", t);
    assert "" + t == t;
    FieldsAreWords("", t);
    CollapseKeepsEnds("", t);
    JoinedWordsSingleSpaced(words);
    JoinLast(words);
  }

  lemma StripEndsClear(v: string)
    ensures EndsClear(Strip(v), IsPySpace)
  {
    var l, r := DropEndsSplits(v, IsPySpace);
  }

  lemma TidyAgrees(v: string)
    requires TidyValue(v)
    ensures NormalizeValue(v) == Strip(v)
  {
    TrimIsTrimmed(v);
    StripIsTrim(v);
    CollapseSingleSpaced("", Trim(v));
  }

  lemma UntidyDiffers(v: string)
    requires !TidyValue(v)
    ensures NormalizeValue(v) != Strip(v)
  {
    TrimIsTrimmed(v);
    CollapsedEnds(Trim(v));
    StripEndsClear(v);
    if EndsClear(Trim(v), IsPySpace) {
      StripIsTrim(v);
    }
  }

  /** For every value, the script's strip gives what the verifier's trimming and collapsing gives
      exactly when the value is tidy. */
  lemma NormalizeIsStrip(v: string)
    ensures NormalizeValue(v) == Strip(v) <==> TidyValue(v)
  {
    if TidyValue(v) {
      TidyAgrees(v);
    } else {
      UntidyDiffers(v);
    }
  }

  /** Two spaces inside a value are enough to part them. */
  lemma InnerRunPartsThem()
    ensures NormalizeValue("a  b") != Strip("a  b") && !TidyValue("a  b")
  {
    assert Trim("a  b") == "a  b" && IsSpace("a  b"[2]) && IsSpace("a  b"[1]);
    NormalizeIsStrip("a  b");
  }
}
