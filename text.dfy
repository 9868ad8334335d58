/** ASCII models of the Python string operations the application relies on:
    str.strip(), str.title(), the scan a regular expression makes for one
    character, and str.replace(). */
module Text {

  /** Python's str.isspace() restricted to ASCII: tab, line feed, vertical
      tab, form feed, carriage return, the separators 0x1C to 0x1F and space.
      The same set is what `\s` matches in a Python regular expression. */
  predicate IsSpace(c: char) {
    9 <= c as int <= 13 || 28 <= c as int <= 32
  }

  /** An ASCII letter: the only cased characters of this model. */
  predicate IsLetter(c: char) {
    'a' <= c <= 'z' || 'A' <= c <= 'Z'
  }

  function Upper(c: char): (u: char)
    requires IsLetter(c)
    ensures 'A' <= u <= 'Z'
  {
    if 'a' <= c <= 'z' then (c as int - 32) as char else c
  }

  function Lower(c: char): (l: char)
    requires IsLetter(c)
    ensures 'a' <= l <= 'z'
  {
    if 'A' <= c <= 'Z' then (c as int + 32) as char else c
  }

  // ---------------------------------------------------------------------
  // str.strip()
  // ---------------------------------------------------------------------

  /** The first position at or after i that is not whitespace (|s| if none). */
  function SkipSpaces(s: string, i: nat): (n: nat)
    requires i <= |s|
    ensures i <= n <= |s|
    ensures forall k :: i <= k < n ==> IsSpace(s[k])
    ensures n < |s| ==> !IsSpace(s[n])
    decreases |s| - i
  {
    if i == |s| || !IsSpace(s[i]) then i else SkipSpaces(s, i + 1)
  }

  /** The position just past the last non-whitespace character before j
      (0 if none). */
  function BackOverSpaces(s: string, j: nat): (n: nat)
    requires j <= |s|
    ensures n <= j
    ensures forall k :: n <= k < j ==> IsSpace(s[k])
    ensures n > 0 ==> !IsSpace(s[n - 1])
  {
    if j == 0 || !IsSpace(s[j - 1]) then j else BackOverSpaces(s, j - 1)
  }

  /** Number of whitespace characters at the front of s. */
  function LeadingSpaces(s: string): (n: nat)
    ensures n <= |s|
    ensures forall k :: 0 <= k < n ==> IsSpace(s[k])
    ensures n < |s| ==> !IsSpace(s[n])
  {
    SkipSpaces(s, 0)
  }

  /** Index just past the last non-whitespace character of s (0 if none). */
  function ContentEnd(s: string): (n: nat)
    ensures n <= |s|
    ensures forall k :: n <= k < |s| ==> IsSpace(s[k])
    ensures n > 0 ==> !IsSpace(s[n - 1])
  {
    BackOverSpaces(s, |s|)
  }

  /** str.strip(): s without its leading and trailing whitespace. */
  function Strip(s: string): (r: string)
    ensures |r| <= |s|
  {
    var lo := LeadingSpaces(s);
    if lo == |s| then [] else s[lo..ContentEnd(s)]
  }

  /** strip leaves nothing exactly when s is all whitespace. */
  lemma StripEmpty(s: string)
    ensures |Strip(s)| == 0 <==> forall k :: 0 <= k < |s| ==> IsSpace(s[k])
  {
    if LeadingSpaces(s) < |s| {
      assert !IsSpace(s[LeadingSpaces(s)]);
    }
  }

  /** Otherwise it leaves the stretch from the first to the last
      non-whitespace character, which starts and ends with non-whitespace. */
  lemma StripNonEmpty(s: string)
    requires |Strip(s)| > 0
    ensures Strip(s) == s[LeadingSpaces(s)..ContentEnd(s)]
    ensures !IsSpace(Strip(s)[0]) && !IsSpace(Strip(s)[|Strip(s)| - 1])
  {
    var lo, hi := LeadingSpaces(s), ContentEnd(s);
    var r := s[lo..hi];
    assert Strip(s) == r;
    assert r[0] == s[lo];
    assert r[|r| - 1] == s[hi - 1];
  }

  /** Stripping what is left after the leading whitespace gives the same
      string as stripping the whole of s. */
  lemma StripDropLeading(s: string)
    ensures Strip(s[LeadingSpaces(s)..]) == Strip(s)
  {
    var lo := LeadingSpaces(s);
    var t := s[lo..];
    if lo < |s| {
      var hi := ContentEnd(s);
      assert t[0] == s[lo];
      var n := ContentEnd(t);
      assert n == hi - lo by {
        assert forall k :: 0 <= k < |t| ==> t[k] == s[lo + k];
      }
      assert t[0..n] == s[lo..hi];
    } else {
      StripEmpty(t);
    }
  }

  /** Two strings of one length with whitespace at the same positions are
      stripped at the same positions. */
  lemma SameSpacesSameBounds(s: string, t: string)
    requires |s| == |t|
    requires forall k :: 0 <= k < |s| ==> (IsSpace(s[k]) <==> IsSpace(t[k]))
    ensures LeadingSpaces(s) == LeadingSpaces(t)
    ensures ContentEnd(s) == ContentEnd(t)
  {
  }

  // ---------------------------------------------------------------------
  // str.title()
  // ---------------------------------------------------------------------

  /** The character str.title() puts at position i of s: a letter is
      upper-cased when the character before it is not a letter (or there is
      none) and lower-cased otherwise; any other character is kept. */
  function TitledAt(s: string, i: nat): char
    requires i < |s|
  {
    if !IsLetter(s[i]) then s[i]
    else if i > 0 && IsLetter(s[i - 1]) then Lower(s[i])
    else Upper(s[i])
  }

  /** str.title() as CPython computes it: one pass that remembers whether the
      previous character was cased. */
  function TitleCaseAfter(s: string, afterLetter: bool): (r: string)
    ensures |r| == |s|
  {
    if s == [] then []
    else
      var c := s[0];
      [if !IsLetter(c) then c else if afterLetter then Lower(c) else Upper(c)]
      + TitleCaseAfter(s[1..], IsLetter(c))
  }

  lemma {:induction false} TitleCaseAfterAt(s: string, afterLetter: bool, i: nat)
    requires i < |s|
    ensures TitleCaseAfter(s, afterLetter)[i] ==
      if !IsLetter(s[i]) then s[i]
      else if (if i == 0 then afterLetter else IsLetter(s[i - 1])) then Lower(s[i])
      else Upper(s[i])
  {
    if i > 0 {
      TitleCaseAfterAt(s[1..], IsLetter(s[0]), i - 1);
    }
  }

  lemma TitleCaseAfterEveryIndex(s: string)
    ensures forall i :: 0 <= i < |s| ==> TitleCaseAfter(s, false)[i] == TitledAt(s, i)
  {
    forall i | 0 <= i < |s|
      ensures TitleCaseAfter(s, false)[i] == TitledAt(s, i)
    {
      TitleCaseAfterAt(s, false, i);
    }
  }

  /** str.title(): the one-pass computation agrees with the per-position rule. */
  function TitleCase(s: string): (r: string)
    ensures |r| == |s|
    ensures forall i :: 0 <= i < |s| ==> r[i] == TitledAt(s, i)
  {
    TitleCaseAfterEveryIndex(s);
    TitleCaseAfter(s, false)
  }

  /** Title-casing keeps every non-letter where it was and turns letters
      into letters, so whitespace and punctuation stay put. */
  lemma TitleCaseKeepsNonLetters(s: string)
    ensures forall i :: 0 <= i < |s| ==>
      (IsLetter(TitleCase(s)[i]) <==> IsLetter(s[i])) &&
      (!IsLetter(s[i]) ==> TitleCase(s)[i] == s[i])
  {
  }

  /** In particular title-casing leaves whitespace exactly where it was. */
  lemma TitleCaseKeepsSpaces(s: string)
    ensures |TitleCase(s)| == |s|
    ensures forall k :: 0 <= k < |s| ==> (IsSpace(s[k]) <==> IsSpace(TitleCase(s)[k]))
  {
    var t := TitleCase(s);
    TitleCaseKeepsNonLetters(s);
    forall k | 0 <= k < |s|
      ensures IsSpace(s[k]) <==> IsSpace(t[k])
    {
      if IsLetter(s[k]) {
        assert IsLetter(t[k]);
      }
    }
  }

  /** Title-casing a piece of s that starts at a word boundary gives the same
      characters as title-casing s and cutting the piece out afterwards. */
  lemma TitleCaseSlice(s: string, a: nat, b: nat)
    requires a <= b <= |s|
    requires a == 0 || !IsLetter(s[a - 1])
    ensures TitleCase(s[a..b]) == TitleCase(s)[a..b]
  {
    var u := s[a..b];
    forall k | 0 <= k < b - a
      ensures TitleCase(u)[k] == TitleCase(s)[a + k]
    {
      assert u[k] == s[a + k];
      assert k > 0 ==> u[k - 1] == s[a + k - 1];
    }
  }

  /** Stripping and title-casing commute. */
  lemma {:induction false} TitleCaseStrip(s: string)
    ensures TitleCase(Strip(s)) == Strip(TitleCase(s))
  {
    var t := TitleCase(s);
    TitleCaseKeepsSpaces(s);
    SameSpacesSameBounds(s, t);
    if Strip(s) != [] {
      var lo, hi := LeadingSpaces(s), ContentEnd(s);
      assert Strip(t) != [];
      assert lo > 0 ==> IsSpace(s[lo - 1]);
      TitleCaseSlice(s, lo, hi);
    }
  }

  // ---------------------------------------------------------------------
  // Scanning for one character
  // ---------------------------------------------------------------------

  /** Position of the first c in s at or after `from`; |s| when there is none. */
  function Find(s: string, c: char, from: nat): (r: nat)
    requires from <= |s|
    ensures from <= r <= |s|
    ensures r < |s| ==> s[r] == c
    ensures forall k :: from <= k < r ==> s[k] != c
    decreases |s| - from
  {
    if from == |s| || s[from] == c then from else Find(s, c, from + 1)
  }

  /** The contract of Find pins its result down. */
  lemma FindUnique(s: string, c: char, from: nat, r: nat)
    requires from <= r <= |s|
    requires r < |s| ==> s[r] == c
    requires forall k :: from <= k < r ==> s[k] != c
    ensures Find(s, c, from) == r
  {
  }

  /** Strings that hold c at the same positions have the same occurrences. */
  lemma FindSamePlaces(s: string, t: string, c: char, from: nat)
    requires |s| == |t| && from <= |s|
    requires forall k :: 0 <= k < |s| ==> (s[k] == c <==> t[k] == c)
    ensures Find(s, c, from) == Find(t, c, from)
  {
    var f := Find(s, c, from);
    FindUnique(t, c, from, f);
  }

  /** Looking for a non-whitespace character in the middle part s[lo..hi] of
      a string that is whitespace outside that part finds the same
      occurrence, shifted by lo. */
  lemma FindInWindow(s: string, lo: nat, hi: nat, c: char, from: nat)
    requires lo <= hi <= |s| && from <= hi - lo
    requires !IsSpace(c)
    requires forall k :: 0 <= k < lo ==> IsSpace(s[k])
    requires forall k :: hi <= k < |s| ==> IsSpace(s[k])
    ensures Find(s[lo..hi], c, from) ==
      if Find(s, c, lo + from) == |s| then hi - lo else Find(s, c, lo + from) - lo
    ensures Find(s, c, lo + from) < |s| ==> Find(s, c, lo + from) < hi
  {
    var w := s[lo..hi];
    var f := Find(s, c, lo + from);
    if f == |s| {
      forall k | from <= k < hi - lo
        ensures w[k] != c
      {
        assert w[k] == s[lo + k];
      }
      FindUnique(w, c, from, hi - lo);
    } else {
      forall k | from <= k < f - lo
        ensures w[k] != c
      {
        assert w[k] == s[lo + k];
      }
      FindUnique(w, c, from, f - lo);
    }
  }

  // ---------------------------------------------------------------------
  // str.replace()
  // ---------------------------------------------------------------------

  /** str.replace(pat, rep): scanning left to right, every occurrence of pat
      that does not overlap an earlier replaced one becomes rep. */
  function Replace(s: string, pat: string, rep: string): string
    requires pat != []
    decreases |s|
  {
    if |s| < |pat| then s
    else if s[..|pat|] == pat then rep + Replace(s[|pat|..], pat, rep)
    else [s[0]] + Replace(s[1..], pat, rep)
  }

  /** Replacing one character by another rewrites exactly the positions that
      hold it and leaves the rest in place. */
  lemma {:induction false} ReplaceChar(s: string, a: char, b: char)
    ensures |Replace(s, [a], [b])| == |s|
    ensures forall i :: 0 <= i < |s| ==>
      Replace(s, [a], [b])[i] == if s[i] == a then b else s[i]
  {
    if s != [] {
      ReplaceChar(s[1..], a, b);
      assert s[..1] == [s[0]];
      var r := Replace(s, [a], [b]);
      forall i | 0 <= i < |s|
        ensures r[i] == if s[i] == a then b else s[i]
      {
        if i > 0 {
          assert s[1..][i - 1] == s[i];
        }
      }
    }
  }

  /** pat occurs in s starting at position k. */
  predicate OccursAt(s: string, pat: string, k: nat) {
    k + |pat| <= |s| && s[k..k + |pat|] == pat
  }

  /** When pat does not occur in s, replacing it changes nothing. */
  lemma {:induction false} ReplaceAbsent(s: string, pat: string, rep: string)
    requires pat != []
    requires forall k: nat :: !OccursAt(s, pat, k)
    ensures Replace(s, pat, rep) == s
  {
    if |s| >= |pat| {
      assert !OccursAt(s, pat, 0);
      forall k: nat
        ensures !OccursAt(s[1..], pat, k)
      {
        assert !OccursAt(s, pat, k + 1);
        if k + |pat| <= |s| - 1 {
          assert s[1..][k..k + |pat|] == s[k + 1..k + 1 + |pat|];
        }
      }
      ReplaceAbsent(s[1..], pat, rep);
      assert [s[0]] + s[1..] == s;
    }
  }
}
