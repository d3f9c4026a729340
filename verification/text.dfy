/** Character and string primitives the conversation relies on: Python's
    `str.lower`, `str.strip` and the substring test `w in s`, restricted to
    ASCII (see README for what that leaves out). */
module Text {

  /** Whitespace as Python's `str.isspace` classifies ASCII characters:
      tab, line feed, vertical tab, form feed, carriage return, the four
      information separators 0x1C-0x1F, and space. */
  predicate IsSpace(c: char) {
    var n := c as int;
    (9 <= n <= 13) || (28 <= n <= 32)
  }

  predicate IsUpper(c: char) {
    'A' <= c <= 'Z'
  }

  /** A string with no upper-case ASCII letter. */
  predicate IsLower(s: string) {
    forall i :: 0 <= i < |s| ==> !IsUpper(s[i])
  }

  function LowerChar(c: char): (d: char)
    ensures !IsUpper(d)
    ensures IsSpace(d) == IsSpace(c)
    ensures IsUpper(c) ==> d as int == c as int + 32
    ensures !IsUpper(c) ==> d == c
  {
    if IsUpper(c) then (c as int + 32) as char else c
  }

  /** `s.lower()` on ASCII text. */
  function Lower(s: string): (r: string)
    ensures |r| == |s|
    ensures IsLower(r)
    ensures forall i :: 0 <= i < |s| && !IsUpper(s[i]) ==> r[i] == s[i]
    ensures forall i :: 0 <= i < |s| && IsUpper(s[i]) ==> r[i] as int == s[i] as int + 32
  {
    seq(|s|, i requires 0 <= i < |s| => LowerChar(s[i]))
  }

  /** Lower-casing changes nothing in text that is already lower case. */
  lemma LowerOfLower(s: string)
    requires IsLower(s)
    ensures Lower(s) == s
  {
  }

  /** Number of whitespace characters at the front of `s`. */
  function LeadingSpace(s: string): (n: nat)
    ensures n <= |s|
    ensures forall k :: 0 <= k < n ==> IsSpace(s[k])
    ensures n < |s| ==> !IsSpace(s[n])
    decreases |s|
  {
    if |s| > 0 && IsSpace(s[0]) then 1 + LeadingSpace(s[1..]) else 0
  }

  /** Number of whitespace characters at the back of `s`. */
  function TrailingSpace(s: string): (n: nat)
    ensures n <= |s|
    ensures forall k :: |s| - n <= k < |s| ==> IsSpace(s[k])
    ensures n < |s| ==> !IsSpace(s[|s| - n - 1])
    decreases |s|
  {
    if |s| > 0 && IsSpace(s[|s| - 1]) then 1 + TrailingSpace(s[..|s| - 1]) else 0
  }

  /** `r` sits in `s` at offset `a`, and everything of `s` outside it is whitespace. */
  ghost predicate Window(s: string, a: int, r: string) {
    && 0 <= a && a + |r| <= |s|
    && s[a..a + |r|] == r
    && (forall k :: 0 <= k < a ==> IsSpace(s[k]))
    && (forall k :: a + |r| <= k < |s| ==> IsSpace(s[k]))
  }

  /** `r` neither starts nor ends with whitespace. */
  predicate Trimmed(r: string) {
    r == [] || (!IsSpace(r[0]) && !IsSpace(r[|r| - 1]))
  }

  /** `s.strip()`: drop leading and trailing whitespace. */
  function Strip(s: string): (r: string)
    ensures Trimmed(r)
    ensures exists a :: Window(s, a, r)
  {
    var a := LeadingSpace(s);
    var rest := s[a..];
    var b := TrailingSpace(rest);
    var r := rest[..|rest| - b];
    assert Window(s, a, r);
    r
  }

  /** Stripping is determined by its contract: the trimmed window of `s`
      whose outside is all whitespace is exactly `Strip(s)`. */
  lemma StripIsTheTrimmedWindow(s: string, a: int, r: string)
    requires Window(s, a, r) && Trimmed(r)
    ensures r == Strip(s)
  {
    var q := Strip(s);
    var b :| Window(s, b, q);
    // Both windows start at the first and end at the last non-space character.
    assert q != [] ==> s[b] == q[0] && s[b + |q| - 1] == q[|q| - 1];
    assert r != [] ==> s[a] == r[0] && s[a + |r| - 1] == r[|r| - 1];
    assert r != [] ==> q != [];
    assert q != [] ==> r != [];
    assert r != [] ==> a == b && |r| == |q|;
  }

  lemma StripIdempotent(s: string)
    ensures Strip(Strip(s)) == Strip(s)
  {
    var r := Strip(s);
    assert Window(r, 0, r);
    StripIsTheTrimmedWindow(r, 0, r);
  }

  /** The normalisation applied to every reply: `response.lower().strip()`. */
  function Normalize(s: string): (r: string)
    ensures IsLower(r)
    ensures Trimmed(r)
    ensures exists a :: Window(Lower(s), a, r)
  {
    Strip(Lower(s))
  }

  /** Normalising twice is normalising once. */
  lemma NormalizeIdempotent(s: string)
    ensures Normalize(Normalize(s)) == Normalize(s)
  {
    var r := Normalize(s);
    LowerOfLower(r);
    StripIdempotent(Lower(s));
  }

  /** Text that is already lower case and trimmed is its own normal form. */
  lemma NormalizeOfNormal(s: string)
    requires IsLower(s) && Trimmed(s)
    ensures Normalize(s) == s
  {
    LowerOfLower(s);
    assert Window(s, 0, s);
    StripIsTheTrimmedWindow(s, 0, s);
  }

  /** Text without surrounding whitespace normalises to its lower case. */
  lemma NormalizeOfTrimmed(s: string)
    requires Trimmed(s)
    ensures Normalize(s) == Lower(s)
  {
    var l := Lower(s);
    assert Trimmed(l);
    assert Window(l, 0, l);
    StripIsTheTrimmedWindow(l, 0, l);
  }

  /** Python's `w in s`: `w` occurs as a contiguous piece of `s`. */
  predicate Contains(s: string, w: string)
    decreases |s|
  {
    (|w| <= |s| && s[..|w|] == w) || (|s| > 0 && Contains(s[1..], w))
  }

  ghost predicate OccursAt(s: string, w: string, i: int) {
    0 <= i && i + |w| <= |s| && s[i..i + |w|] == w
  }

  lemma {:induction false} ContainsHasOccurrence(s: string, w: string)
    requires Contains(s, w)
    ensures exists i :: OccursAt(s, w, i)
    decreases |s|
  {
    if |w| <= |s| && s[..|w|] == w {
      assert OccursAt(s, w, 0);
    } else {
      ContainsHasOccurrence(s[1..], w);
      var i :| OccursAt(s[1..], w, i);
      assert s[1..][i..i + |w|] == s[i + 1..i + 1 + |w|];
      assert OccursAt(s, w, i + 1);
    }
  }

  lemma {:induction false} OccurrenceIsContained(s: string, w: string, i: int)
    requires OccursAt(s, w, i)
    ensures Contains(s, w)
    decreases i
  {
    if i > 0 {
      assert s[1..][i - 1..i - 1 + |w|] == s[i..i + |w|];
      OccurrenceIsContained(s[1..], w, i - 1);
    }
  }

  /** `Contains` agrees with the index-based definition of a substring. */
  lemma ContainsIffOccurs(s: string, w: string)
    ensures Contains(s, w) <==> exists i :: OccursAt(s, w, i)
  {
    if Contains(s, w) {
      ContainsHasOccurrence(s, w);
    }
    if i :| OccursAt(s, w, i) {
      OccurrenceIsContained(s, w, i);
    }
  }

  /** A one-letter keyword is found exactly when that letter appears. */
  lemma ContainsLetter(s: string, c: char)
    ensures Contains(s, [c]) <==> c in s
  {
    ContainsIffOccurs(s, [c]);
    if c in s {
      var i :| 0 <= i < |s| && s[i] == c;
      assert OccursAt(s, [c], i);
    }
    if i :| OccursAt(s, [c], i) {
      assert s[i] == s[i..i + 1][0];
    }
  }

  /** Every letter of a contained piece occurs in the text. */
  lemma ContainedLetters(s: string, w: string, k: int)
    requires 0 <= k < |w|
    ensures Contains(s, w) ==> w[k] in s
  {
    if Contains(s, w) {
      ContainsHasOccurrence(s, w);
      var i :| OccursAt(s, w, i);
      assert s[i + k] == s[i..i + |w|][k];
    }
  }

  /** Whatever text contains `w` also contains every prefix of `w`. */
  lemma ContainsPrefix(s: string, w: string, v: string)
    requires |v| <= |w| && w[..|v|] == v
    requires Contains(s, w)
    ensures Contains(s, v)
  {
    ContainsIffOccurs(s, w);
    var i :| OccursAt(s, w, i);
    assert s[i..i + |v|] == s[i..i + |w|][..|v|];
    assert OccursAt(s, v, i);
    ContainsIffOccurs(s, v);
  }
}
