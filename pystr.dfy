/** The parts of Python's `str` that the plate assemblers rely on:
    `strip()`, `sep.join(parts)`, `isdigit()`, `pattern in text` and the
    ordering `<` that `sort(key=...)` uses on strings. */
module PyStr {

  /** `str.isspace()` for one character: the characters Python treats as
      whitespace (bidirectional classes WS, B, S and category Zs). */
  predicate IsSpace(c: char) {
    || c == ' ' || ('\t' <= c <= '\r') || ('\U{1C}' <= c <= '\U{1F}')
    || c == '\U{85}' || c == '\U{A0}' || c == '\U{1680}'
    || ('\U{2000}' <= c <= '\U{200A}') || c == '\U{2028}' || c == '\U{2029}'
    || c == '\U{202F}' || c == '\U{205F}' || c == '\U{3000}'
  }

  ghost predicate AllSpace(s: string) {
    forall i :: 0 <= i < |s| ==> IsSpace(s[i])
  }

  /** Neither the first nor the last character is whitespace. */
  predicate NoEdgeSpace(s: string) {
    s == [] || (!IsSpace(s[0]) && !IsSpace(s[|s| - 1]))
  }

  /** A non-empty string without whitespace at its ends. */
  predicate IsWord(s: string) {
    s != [] && NoEdgeSpace(s)
  }

  /** Every element of `s` shows a word through `ch`. */
  ghost predicate ShowWords<T>(s: seq<T>, ch: T -> string) {
    forall i :: 0 <= i < |s| ==> IsWord(ch(s[i]))
  }

  /** Reordering or dropping elements keeps every shown string a word. */
  lemma WordsSurvive<T>(s: seq<T>, sub: seq<T>, ch: T -> string)
    requires multiset(sub) <= multiset(s) && ShowWords(s, ch)
    ensures ShowWords(sub, ch)
  {
    forall i | 0 <= i < |sub| ensures IsWord(ch(sub[i])) {
      assert sub[i] in multiset(s);
      var k :| 0 <= k < |s| && s[k] == sub[i];
    }
  }

  /** A whitespace character followed by whitespace is whitespace. */
  lemma SpaceThenSpaces(s: string, n: nat)
    requires 0 < n <= |s| && IsSpace(s[0]) && AllSpace(s[1..][..n - 1])
    ensures AllSpace(s[..n])
  {
    forall k | 0 <= k < n ensures IsSpace(s[..n][k]) {
      if k > 0 {
        assert s[..n][k] == s[1..][..n - 1][k - 1];
      }
    }
  }

  /** Whitespace followed by a whitespace character is whitespace. */
  lemma SpacesThenSpace(s: string, n: nat)
    requires n < |s| && IsSpace(s[|s| - 1]) && AllSpace(s[..|s| - 1][n..])
    ensures AllSpace(s[n..])
  {
    forall k | 0 <= k < |s| - n ensures IsSpace(s[n..][k]) {
      if k < |s| - 1 - n {
        assert s[n..][k] == s[..|s| - 1][n..][k];
      }
    }
  }

  /** `s.lstrip()` */
  function LStrip(s: string): (r: string)
    ensures |r| <= |s| && r == s[|s| - |r|..]
    ensures AllSpace(s[..|s| - |r|])
    ensures r == [] || !IsSpace(r[0])
  {
    if s != [] && IsSpace(s[0]) then
      var r := LStrip(s[1..]);
      SuffixSlices(s, 1, |s| - 1 - |r|);
      SpaceThenSpaces(s, |s| - |r|);
      r
    else s
  }

  /** `s.rstrip()` */
  function RStrip(s: string): (r: string)
    ensures |r| <= |s| && r == s[..|r|]
    ensures AllSpace(s[|r|..])
    ensures r == [] || !IsSpace(r[|r| - 1])
  {
    if s != [] && IsSpace(s[|s| - 1]) then
      var r := RStrip(s[..|s| - 1]);
      SpacesThenSpace(s, |r|);
      r
    else s
  }

  /** `r` is the infix of `s` starting at `i` and everything around it is
      whitespace. */
  ghost predicate InfixWithin(s: string, r: string, i: int) {
    0 <= i <= |s| - |r| && r == s[i..i + |r|] && AllSpace(s[..i]) && AllSpace(s[i + |r|..])
  }

  /** A slice of a suffix is a slice of the whole. */
  lemma SuffixSlices<T>(s: seq<T>, i: nat, n: nat)
    requires i + n <= |s|
    ensures s[i..][..n] == s[i..i + n]
    ensures s[i..][n..] == s[i + n..]
  { }

  /** Stripping the left and then the right side leaves an infix with
      whitespace all around it and none at its own ends. */
  lemma StripBothSides(s: string, l: string, r: string)
    requires l == LStrip(s) && r == RStrip(l)
    ensures NoEdgeSpace(r) && InfixWithin(s, r, |s| - |l|)
  {
    var i := |s| - |l|;
    assert l == s[i..];
    SuffixSlices(s, i, |r|);
    assert r == s[i..i + |r|];
    assert AllSpace(s[..i]);
    assert AllSpace(s[i + |r|..]);
    assert r != [] ==> r[0] == l[0];
  }

  /** `s.strip()`: the infix of `s` left after removing the whitespace on
      both sides. */
  function Strip(s: string): (r: string)
    ensures NoEdgeSpace(r)
    ensures exists i :: InfixWithin(s, r, i)
  {
    StripBothSides(s, LStrip(s), RStrip(LStrip(s)));
    RStrip(LStrip(s))
  }

  lemma {:induction false} LStripAfterSpace(w: string, m: string)
    requires AllSpace(w) && (m == [] || !IsSpace(m[0]))
    ensures LStrip(w + m) == m
  {
    if w != [] {
      assert (w + m)[1..] == w[1..] + m;
      LStripAfterSpace(w[1..], m);
    } else {
      assert w + m == m;
    }
  }

  lemma {:induction false} RStripBeforeSpace(m: string, w: string)
    requires AllSpace(w) && (m == [] || !IsSpace(m[|m| - 1]))
    ensures RStrip(m + w) == m
  {
    if w != [] {
      assert (m + w)[..|m + w| - 1] == m + w[..|w| - 1];
      RStripBeforeSpace(m, w[..|w| - 1]);
    } else {
      assert m + w == m;
    }
  }

  /** Whatever whitespace surrounds a string without whitespace at its
      ends, `strip()` returns exactly that string. */
  lemma StripSurrounded(w1: string, m: string, w2: string)
    requires AllSpace(w1) && AllSpace(w2) && NoEdgeSpace(m)
    ensures Strip(w1 + m + w2) == m
  {
    if m == [] {
      assert w1 + m + w2 == w1 + w2;
      assert AllSpace(w1 + w2);
      LStripAfterSpace(w1 + w2, []);
      assert w1 + w2 + [] == w1 + w2;
    } else {
      assert w1 + m + w2 == w1 + (m + w2);
      LStripAfterSpace(w1, m + w2);
      RStripBeforeSpace(m, w2);
    }
  }

  /** Two parts without edge whitespace, joined by one space and stripped:
      the space survives only between two non-empty parts. */
  lemma StripAroundSpace(a: string, b: string)
    requires NoEdgeSpace(a) && NoEdgeSpace(b)
    ensures Strip(a + " " + b) == if a != "" && b != "" then a + " " + b else a + b
  {
    if a != "" && b != "" {
      var m := a + " " + b;
      assert m[0] == a[0] && m[|m| - 1] == b[|b| - 1];
      assert "" + m + "" == m;
      StripSurrounded("", m, "");
    } else if a == "" {
      assert " " + b + "" == a + " " + b;
      StripSurrounded(" ", b, "");
    } else {
      assert "" + a + " " == a + " " + b;
      StripSurrounded("", a, " ");
    }
  }

  /** Words joined by spaces, one space, words joined without a
      separator, stripped: each part is empty exactly when it has no words,
      the space survives only between two non-empty parts, and nothing is
      left exactly when there are no words at all. */
  lemma StripJoined(spaced: seq<string>, packed: seq<string>)
    requires forall i :: 0 <= i < |spaced| ==> IsWord(spaced[i])
    requires forall i :: 0 <= i < |packed| ==> IsWord(packed[i])
    ensures var a, b := Join(" ", spaced), Join("", packed);
            && (a == "" <==> spaced == [])
            && (b == "" <==> packed == [])
            && Strip(a + " " + b) == (if a != "" && b != "" then a + " " + b else a + b)
            && (Strip(a + " " + b) == "" <==> spaced == [] && packed == [])
  {
    JoinWords(" ", spaced);
    JoinWords("", packed);
    StripAroundSpace(Join(" ", spaced), Join("", packed));
  }

  /** `sep.join(parts)`; `"".join(parts)` is `Join("", parts)`. */
  function Join(sep: string, parts: seq<string>): string {
    if |parts| == 0 then ""
    else if |parts| == 1 then parts[0]
    else parts[0] + sep + Join(sep, parts[1..])
  }

  /** Joining words gives a word or, for no parts at all, the empty string. */
  lemma {:induction false} JoinWords(sep: string, parts: seq<string>)
    requires forall i :: 0 <= i < |parts| ==> IsWord(parts[i])
    ensures Join(sep, parts) == [] <==> parts == []
    ensures NoEdgeSpace(Join(sep, parts))
  {
    if |parts| > 1 {
      JoinWords(sep, parts[1..]);
      var rest := Join(sep, parts[1..]);
      assert parts[1] == parts[1..][0];
      var j := parts[0] + sep + rest;
      assert j[0] == parts[0][0];
      assert j[|j| - 1] == rest[|rest| - 1];
    }
  }

  /** `str.isdecimal()` for one character, restricted to the two scripts
      a plate uses: ASCII digits and Arabic-Indic digits. */
  predicate IsDecimalChar(c: char) {
    ('0' <= c <= '9') || ('\U{0660}' <= c <= '\U{0669}')
  }

  /** `s.isdigit()`: non-empty and made of digits only. */
  predicate IsDigitStr(s: string) {
    |s| > 0 && forall i :: 0 <= i < |s| ==> IsDecimalChar(s[i])
  }

  function StartsWith(text: string, pat: string): bool {
    |pat| <= |text| && text[..|pat|] == pat
  }

  /** `pat in text`, scanning `text` from the left as `str.find` does. */
  function Contains(text: string, pat: string): bool
    decreases |text|
  {
    StartsWith(text, pat) || (|text| > 0 && Contains(text[1..], pat))
  }

  ghost predicate OccursAt(pat: string, text: string, i: int) {
    0 <= i && i + |pat| <= |text| && text[i..i + |pat|] == pat
  }

  /** `pat` occurs at some offset of `text`. */
  ghost predicate Occurs(pat: string, text: string) {
    exists i :: OccursAt(pat, text, i)
  }

  lemma {:induction false} ContainsIsOccurs(text: string, pat: string)
    ensures Contains(text, pat) <==> Occurs(pat, text)
  {
    if StartsWith(text, pat) {
      assert OccursAt(pat, text, 0);
    } else if |text| > 0 {
      ContainsIsOccurs(text[1..], pat);
      if Occurs(pat, text) {
        var i :| OccursAt(pat, text, i);
        assert text[1..][i - 1..i - 1 + |pat|] == pat;
        assert OccursAt(pat, text[1..], i - 1);
      }
      if Occurs(pat, text[1..]) {
        var i :| OccursAt(pat, text[1..], i);
        assert text[i + 1..i + 1 + |pat|] == pat;
        assert OccursAt(pat, text, i + 1);
      }
    }
  }

  /** A character of `text` is found in it as a one-character string. */
  lemma ContainsChar(text: string, c: char)
    requires c in text
    ensures Contains(text, [c])
  {
    var k :| 0 <= k < |text| && text[k] == c;
    assert OccursAt([c], text, k);
    ContainsIsOccurs(text, [c]);
  }

  /** Python's `a < b` on strings: code point by code point, a proper
      prefix coming first. */
  function LexLess(a: string, b: string): bool {
    if a == [] then b != []
    else if b == [] then false
    else if a[0] != b[0] then a[0] < b[0]
    else LexLess(a[1..], b[1..])
  }

  lemma {:induction false} LexIrreflexive(a: string)
    ensures !LexLess(a, a)
  {
    if a != [] { LexIrreflexive(a[1..]); }
  }

  lemma {:induction false} LexTransitive(a: string, b: string, c: string)
    requires LexLess(a, b) && LexLess(b, c)
    ensures LexLess(a, c)
  {
    if a != [] && b != [] && c != [] && a[0] == b[0] && b[0] == c[0] {
      LexTransitive(a[1..], b[1..], c[1..]);
    }
  }

  /** Not-greater is transitive: `x <= y` and `y <= z` give `x <= z`. */
  lemma LexNotLessTransitive(x: string, y: string, z: string)
    requires !LexLess(y, x) && !LexLess(z, y)
    ensures !LexLess(z, x)
  {
    if x != y {
      LexTotal(x, y);
      if LexLess(z, x) {
        LexTransitive(z, x, y);
      }
    }
  }

  lemma {:induction false} LexTotal(a: string, b: string)
    ensures a == b || LexLess(a, b) || LexLess(b, a)
  {
    if a != [] && b != [] && a[0] == b[0] {
      LexTotal(a[1..], b[1..]);
      if a[1..] == b[1..] {
        assert a == [a[0]] + a[1..] && b == [b[0]] + b[1..];
      }
    }
  }
}
