/** Passenger titles: extracting the honorific from a "Last, Title. First"
    name and folding it into the four categories the classifier knows. */
module Titles {
  import opened Text

  /** The regular expression `,\s*([^\.]*)\.` can start a match at position
      i of s: there is a comma at i and a period somewhere after it. */
  ghost predicate MatchesAt(s: string, i: int) {
    0 <= i < |s| && s[i] == ',' && exists p :: i < p < |s| && s[p] == '.'
  }

  datatype Option<T> = None | Some(value: T)

  /** The stretch of the name the pattern `,\s*([^\.]*)\.` spans between its
      comma and its period: from just after the first comma up to the first
      period after that comma; None when there is no such comma and period. */
  function TitleStretch(name: string): (g: Option<string>)
    ensures g.Some? ==> ',' in name && '.' !in g.value
  {
    var comma := Find(name, ',', 0);
    if comma == |name| then None
    else
      var period := Find(name, '.', comma + 1);
      if period == |name| then None else Some(name[comma + 1..period])
  }

  /** extract_title: the group of the first match, stripped of whitespace;
      "Other" when the pattern does not match. The group starts after the
      whitespace `\s*` takes, so stripping the whole stretch between comma
      and period gives the same string (ExtractTitleIsGroupStripped). */
  function ExtractTitle(name: string): string {
    match TitleStretch(name)
    case None => "Other"
    case Some(g) => Strip(g)
  }

  /** extract_title never fails, and what it returns holds no period and
      has no whitespace at either end. */
  lemma ExtractTitleShape(name: string)
    ensures '.' !in ExtractTitle(name)
    ensures |ExtractTitle(name)| > 0 ==>
      !IsSpace(ExtractTitle(name)[0]) && !IsSpace(ExtractTitle(name)[|ExtractTitle(name)| - 1])
  {
    match TitleStretch(name)
    case None =>
      assert ExtractTitle(name) == "Other";
    case Some(g) =>
      var r := Strip(g);
      assert ExtractTitle(name) == r;
      if |r| > 0 {
        StripNonEmpty(g);
        assert forall k :: 0 <= k < |r| ==> r[k] == g[LeadingSpaces(g) + k];
      }
  }

  /** The group `([^\.]*)` starts after the whitespace the greedy `\s*` takes
      from the stretch and runs to its end (the stretch holds no period), so
      extract_title's `group(1).strip()` is the stripped stretch. */
  lemma ExtractTitleIsGroupStripped(name: string)
    requires TitleStretch(name).Some?
    ensures var g := TitleStretch(name).value;
      ExtractTitle(name) == Strip(g[LeadingSpaces(g)..])
  {
    StripDropLeading(TitleStretch(name).value);
  }

  /** TitleStretch in terms of where its two searches stop. */
  lemma StretchOf(s: string, comma: nat, period: nat)
    requires comma == Find(s, ',', 0)
    requires comma < |s| ==> period == Find(s, '.', comma + 1)
    ensures TitleStretch(s) ==
      if comma == |s| || period == |s| then None else Some(s[comma + 1..period])
  {
  }

  /** The leftmost match starts at the first comma of the name. */
  lemma {:induction false} LeftmostMatchIsFirstComma(name: string, i: int)
    requires MatchesAt(name, i)
    requires forall j :: 0 <= j < i ==> !MatchesAt(name, j)
    ensures Find(name, ',', 0) == i
  {
    var p :| i < p < |name| && name[p] == '.';
    forall j | 0 <= j < i
      ensures name[j] != ','
    {
      assert !MatchesAt(name, j);
      assert j < p < |name| && name[p] == '.';
    }
    FindUnique(name, ',', 0, i);
  }

  /** When the pattern matches, extract_title returns the stripped text
      between the comma of the leftmost match and the first period after it. */
  lemma ExtractTitleMatch(name: string, i: int, p: int)
    requires MatchesAt(name, i)
    requires forall j :: 0 <= j < i ==> !MatchesAt(name, j)
    requires i < p < |name| && name[p] == '.'
    requires forall k :: i < k < p ==> name[k] != '.'
    ensures ExtractTitle(name) == Strip(name[i + 1..p])
  {
    LeftmostMatchIsFirstComma(name, i);
    FindUnique(name, '.', i + 1, p);
    StretchOf(name, i, p);
  }

  /** When the pattern matches nowhere, extract_title returns "Other". */
  lemma ExtractTitleNoMatch(name: string)
    requires forall i :: 0 <= i < |name| ==> !MatchesAt(name, i)
    ensures ExtractTitle(name) == "Other"
  {
    var comma := Find(name, ',', 0);
    if comma < |name| {
      assert !MatchesAt(name, comma);
      var period := Find(name, '.', comma + 1);
      assert period < |name| ==> MatchesAt(name, comma);
      StretchOf(name, comma, period);
    } else {
      StretchOf(name, comma, 0);
    }
  }

  /** Example from the name field's own hint text. */
  lemma ExtractTitleBraund()
    ensures ExtractTitle("Braund, Mr. Owen Harris") == "Mr"
  {
    BraundSearches();
    StretchOf("Braund, Mr. Owen Harris", 6, 10);
    StripSpaceWord("Mr");
  }

  /** Where the two searches stop in the hint text's name, and what lies
      between. */
  lemma BraundSearches()
    ensures Find("Braund, Mr. Owen Harris", ',', 0) == 6
    ensures Find("Braund, Mr. Owen Harris", '.', 7) == 10
    ensures "Braund, Mr. Owen Harris"[7..10] == " Mr"
  {
    assert Find("Braund, Mr. Owen Harris", ',', 0) == 6 by {
      FindUnique("Braund, Mr. Owen Harris", ',', 0, 6);
    }
    assert Find("Braund, Mr. Owen Harris", '.', 7) == 10 by {
      FindUnique("Braund, Mr. Owen Harris", '.', 7, 10);
    }
  }

  /** A two-letter word after a single blank is stripped to itself. */
  lemma StripSpaceWord(w: string)
    requires |w| == 2 && IsLetter(w[0]) && IsLetter(w[1])
    ensures Strip([' '] + w) == w
  {
    StripOneLeadingSpace(w);
  }

  /** Stripping a single leading blank from a word. */
  lemma StripOneLeadingSpace(w: string)
    requires w != [] && !IsSpace(w[0]) && !IsSpace(w[|w| - 1])
    ensures Strip([' '] + w) == w
  {
    var s := [' '] + w;
    assert s[1..] == w;
    assert LeadingSpaces(s) == 1;
    assert ContentEnd(s) == |s|;
  }

  /** Whitespace around the whole name does not change the extracted title. */
  lemma ExtractTitleIgnoresPadding(name: string)
    ensures ExtractTitle(Strip(name)) == ExtractTitle(name)
  {
    var w := Strip(name);
    StripEmpty(name);
    if |w| == 0 {
      PaddingWindow(name, 0, 0);
      assert name[0..0] == w;
    } else {
      StripNonEmpty(name);
      PaddingWindow(name, LeadingSpaces(name), ContentEnd(name));
    }
  }

  /** Cutting whitespace off both ends of a name, leaving name[lo..hi], keeps
      the stretch between its comma and period. */
  lemma PaddingWindow(name: string, lo: nat, hi: nat)
    requires lo <= hi <= |name|
    requires forall k :: 0 <= k < lo ==> IsSpace(name[k])
    requires forall k :: hi <= k < |name| ==> IsSpace(name[k])
    ensures TitleStretch(name[lo..hi]) == TitleStretch(name)
  {
    var w := name[lo..hi];
    var comma := Find(name, ',', lo);
    assert Find(name, ',', 0) == comma by {
      assert forall k :: 0 <= k < lo ==> name[k] != ',';
      FindUnique(name, ',', 0, comma);
    }
    FindInWindow(name, lo, hi, ',', 0);
    if comma == |name| {
      StretchOf(name, comma, 0);
      StretchOf(w, |w|, 0);
    } else {
      PeriodInWindow(name, lo, hi, comma);
      StretchOf(name, comma, Find(name, '.', comma + 1));
      StretchOf(w, comma - lo, Find(w, '.', comma - lo + 1));
    }
  }

  /** The period search of extract_title, seen from inside the unpadded part
      name[lo..hi] of the name. */
  lemma PeriodInWindow(name: string, lo: nat, hi: nat, comma: nat)
    requires lo <= comma < hi <= |name|
    requires forall k :: 0 <= k < lo ==> IsSpace(name[k])
    requires forall k :: hi <= k < |name| ==> IsSpace(name[k])
    ensures var w := name[lo..hi];
      var period := Find(name, '.', comma + 1);
      var inner := Find(w, '.', comma - lo + 1);
      (period == |name| <==> inner == |w|) &&
      (period < |name| ==> w[comma - lo + 1..inner] == name[comma + 1..period])
  {
    var w := name[lo..hi];
    FindInWindow(name, lo, hi, '.', comma - lo + 1);
    var period := Find(name, '.', comma + 1);
    if period < |name| {
      var inWindow, inName := w[comma - lo + 1..period - lo], name[comma + 1..period];
      forall k | 0 <= k < |inName|
        ensures inWindow[k] == inName[k]
      {
        assert inWindow[k] == w[comma - lo + 1 + k] == name[comma + 1 + k];
      }
    }
  }

  /** Title-casing the name title-cases the extracted title: commas and
      periods stay where they were, and the title starts right after a comma,
      where a word begins. */
  lemma ExtractTitleOfTitleCase(name: string)
    ensures ExtractTitle(TitleCase(name)) == TitleCase(ExtractTitle(name))
  {
    var t := TitleCase(name);
    TitleCaseKeepsNonLetters(name);
    FindSamePlaces(name, t, ',', 0);
    var comma := Find(name, ',', 0);
    if comma == |name| {
      StretchOf(name, comma, 0);
      StretchOf(t, comma, 0);
      TitleCaseOther();
    } else {
      FindSamePlaces(name, t, '.', comma + 1);
      var period := Find(name, '.', comma + 1);
      StretchOf(name, comma, period);
      StretchOf(t, comma, period);
      if period == |name| {
        TitleCaseOther();
      } else {
        TitleCaseSlice(name, comma + 1, period);
        TitleCaseStrip(name[comma + 1..period]);
      }
    }
  }

  lemma TitleCaseOther()
    ensures TitleCase("Other") == "Other"
  {
    var s := "Other";
    assert TitleCase(s)[0] == TitledAt(s, 0) == 'O';
    assert TitleCase(s)[1] == TitledAt(s, 1) == 't';
    assert TitleCase(s)[2] == TitledAt(s, 2) == 'h';
    assert TitleCase(s)[3] == TitledAt(s, 3) == 'e';
    assert TitleCase(s)[4] == TitledAt(s, 4) == 'r';
  }

  // ---------------------------------------------------------------------
  // map_title
  // ---------------------------------------------------------------------

  /** The four title categories the classifier was trained on. */
  datatype Title = Mr | Miss | Mrs | Other

  /** The spelling of a category, as stored in the history and in the
      feature column names. */
  function TitleName(t: Title): string {
    match t
    case Mr => "Mr"
    case Miss => "Miss"
    case Mrs => "Mrs"
    case Other => "Other"
  }

  /** map_title: Mr, Miss and Mrs map to themselves, everything else to Other. */
  function MapTitle(raw: string): (t: Title)
    ensures t != Other ==> TitleName(t) == raw
    ensures t == Other <==> raw !in {"Mr", "Miss", "Mrs"}
  {
    if raw == "Mr" then Mr
    else if raw == "Miss" then Miss
    else if raw == "Mrs" then Mrs
    else Other
  }

  /** Every category's own spelling maps back to it, "Other" included. */
  lemma MapTitleOfName(t: Title)
    ensures MapTitle(TitleName(t)) == t
  {
  }

  /** map_title is idempotent on the strings it returns. */
  lemma MapTitleIdempotent(raw: string)
    ensures TitleName(MapTitle(TitleName(MapTitle(raw)))) == TitleName(MapTitle(raw))
  {
    MapTitleOfName(MapTitle(raw));
  }

  // ---------------------------------------------------------------------
  // The two titles the application computes
  // ---------------------------------------------------------------------

  /** The title the feature vector is built from: extracted from the name
      after stripping and title-casing it. */
  function FeatureTitle(name: string): Title {
    MapTitle(ExtractTitle(TitleCase(Strip(name))))
  }

  /** The title stored in the history row: extracted from the name exactly
      as typed. */
  function HistoryTitle(name: string): Title {
    MapTitle(ExtractTitle(name))
  }

  /** The feature title is the history title's raw token, title-cased before
      it is mapped. So the two agree whenever the typed title is already
      capitalised, and "mr" counts as Mr for the classifier but as Other in
      the history. */
  lemma {:induction false} FeatureTitleFromRawTitle(name: string)
    ensures FeatureTitle(name) == MapTitle(TitleCase(ExtractTitle(name)))
    ensures TitleCase(ExtractTitle(name)) == ExtractTitle(name) ==>
              FeatureTitle(name) == HistoryTitle(name)
  {
    TitleCaseStrip(name);
    ExtractTitleIgnoresPadding(TitleCase(name));
    ExtractTitleOfTitleCase(name);
  }

  /** A lower-case name: the classifier sees Mr while the history says Other. */
  lemma LowerCaseNameTitles()
    ensures FeatureTitle("smith, mr. john") == Mr
    ensures HistoryTitle("smith, mr. john") == Other
  {
    SmithSearches();
    StretchOf("smith, mr. john", 5, 9);
    StripSpaceWord("mr");
    assert ExtractTitle("smith, mr. john") == "mr";
    TitleCaseMr();
    FeatureTitleFromRawTitle("smith, mr. john");
  }

  /** Where the two searches stop in "smith, mr. john", and what lies
      between. */
  lemma SmithSearches()
    ensures Find("smith, mr. john", ',', 0) == 5
    ensures Find("smith, mr. john", '.', 6) == 9
    ensures "smith, mr. john"[6..9] == " mr"
  {
    assert Find("smith, mr. john", ',', 0) == 5 by {
      FindUnique("smith, mr. john", ',', 0, 5);
    }
    assert Find("smith, mr. john", '.', 6) == 9 by {
      FindUnique("smith, mr. john", '.', 6, 9);
    }
  }

  /** title() capitalises "mr". */
  lemma TitleCaseMr()
    ensures TitleCase("mr") == "Mr"
  {
    var m := TitleCase("mr");
    assert m[0] == TitledAt("mr", 0) == 'M';
    assert m[1] == TitledAt("mr", 1) == 'r';
  }
}
