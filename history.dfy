/** The per-session prediction history: its rows, the label a row is
    selected by, the ledger that grows by one row per prediction, selection
    by label, and the name of the single-row download. */
module History {
  import opened Text

  /** One history row, with the columns of new_entry in their order. */
  datatype Entry = Entry(
    name: string,
    pclass: int,
    age: int,
    sibSp: int,
    parch: int,
    fare: real,
    hasCabin: int,
    familySize: int,
    sex: string,
    embarked: string,
    title: string,
    prediction: string,
    confidence: real,
    timestamp: string)

  /** The separator between name and timestamp in a row's label. */
  const Separator: string := " | "

  /** The label the history select box offers for a row. */
  function Label(e: Entry): string {
    e.name + Separator + e.timestamp
  }

  // ---------------------------------------------------------------------
  // Selection by label
  // ---------------------------------------------------------------------

  /** The rows of entries whose label is `wanted`, in ledger order: the
      boolean-mask filter history_df[history_df['label'] == wanted]. */
  function Matching(entries: seq<Entry>, wanted: string): (rows: seq<Entry>)
    ensures |rows| <= |entries|
    ensures forall k :: 0 <= k < |rows| ==> rows[k] in entries && Label(rows[k]) == wanted
    ensures forall k :: 0 <= k < |entries| && Label(entries[k]) == wanted ==> entries[k] in rows
  {
    if entries == [] then []
    else
      var last := entries[|entries| - 1];
      Matching(entries[..|entries| - 1], wanted) + (if Label(last) == wanted then [last] else [])
  }

  /** Filtering a concatenation filters each part, keeping the parts in order. */
  lemma {:induction false} MatchingAppend(a: seq<Entry>, b: seq<Entry>, wanted: string)
    ensures Matching(a + b, wanted) == Matching(a, wanted) + Matching(b, wanted)
    decreases |b|
  {
    if b != [] {
      var bInit := b[..|b| - 1];
      assert (a + b)[..|a + b| - 1] == a + bInit;
      MatchingAppend(a, bInit, wanted);
    } else {
      assert a + b == a;
    }
  }

  /** A ledger cut into the rows before k, row k and the rows after it. */
  lemma SplitAt(entries: seq<Entry>, k: nat, wanted: string)
    requires k < |entries|
    ensures Matching(entries, wanted) ==
      Matching(entries[..k], wanted)
      + (if Label(entries[k]) == wanted then [entries[k]] else [])
      + Matching(entries[k + 1..], wanted)
  {
    assert entries == entries[..k] + [entries[k]] + entries[k + 1..];
    MatchingAppend(entries[..k] + [entries[k]], entries[k + 1..], wanted);
    MatchingAppend(entries[..k], [entries[k]], wanted);
    assert [entries[k]][..0] == [];
  }

  /** Two rows that share a label are both selected, the earlier one first:
      a duplicate label loses no row. */
  lemma SameLabelKeepsBoth(entries: seq<Entry>, i: nat, j: nat)
    requires i < j < |entries|
    requires Label(entries[i]) == Label(entries[j])
    ensures var rows := Matching(entries, Label(entries[i]));
      exists p, q :: 0 <= p < q < |rows| && rows[p] == entries[i] && rows[q] == entries[j]
  {
    var wanted := Label(entries[i]);
    var rest := entries[i + 1..];
    var before := Matching(entries[..i], wanted);
    var tail := Matching(rest, wanted);
    var between := Matching(rest[..j - i - 1], wanted);
    assert Matching(entries, wanted) == (before + [entries[i]]) + tail by {
      SplitAt(entries, i, wanted);
    }
    assert |between| < |tail| && tail[|between|] == entries[j] by {
      SplitAt(rest, j - i - 1, wanted);
      assert rest[j - i - 1] == entries[j];
    }
    var rows := Matching(entries, wanted);
    var p, q := |before|, |before| + 1 + |between|;
    assert rows[p] == entries[i];
    assert rows[q] == tail[|between|];
  }

  /** A row whose label no other row shares is selected alone. */
  lemma UniqueLabelSelectsOne(entries: seq<Entry>, i: nat)
    requires i < |entries|
    requires forall k :: 0 <= k < |entries| && k != i ==> Label(entries[k]) != Label(entries[i])
    ensures Matching(entries, Label(entries[i])) == [entries[i]]
  {
    var wanted := Label(entries[i]);
    NoneBefore(entries, i, wanted);
    NoneAfter(entries, i, wanted);
    SplitAt(entries, i, wanted);
  }

  /** No row before row i carries the label. */
  lemma NoneBefore(entries: seq<Entry>, i: nat, wanted: string)
    requires i < |entries|
    requires forall k :: 0 <= k < i ==> Label(entries[k]) != wanted
    ensures Matching(entries[..i], wanted) == []
  {
    NoneInRange(entries, 0, i, wanted);
    assert entries[0..i] == entries[..i];
  }

  /** No row after row i carries the label. */
  lemma NoneAfter(entries: seq<Entry>, i: nat, wanted: string)
    requires i < |entries|
    requires forall k :: i < k < |entries| ==> Label(entries[k]) != wanted
    ensures Matching(entries[i + 1..], wanted) == []
  {
    NoneInRange(entries, i + 1, |entries|, wanted);
    assert entries[i + 1..|entries|] == entries[i + 1..];
  }

  /** No row of entries[lo..hi] carries the label `wanted`, so nothing there
      is selected. */
  lemma {:induction false} NoneInRange(entries: seq<Entry>, lo: nat, hi: nat, wanted: string)
    requires lo <= hi <= |entries|
    requires forall k :: lo <= k < hi ==> Label(entries[k]) != wanted
    ensures Matching(entries[lo..hi], wanted) == []
    decreases hi - lo
  {
    if lo < hi {
      NoneInRange(entries, lo, hi - 1, wanted);
      assert entries[lo..hi][..hi - lo - 1] == entries[lo..hi - 1];
    }
  }

  // ---------------------------------------------------------------------
  // The ledger
  // ---------------------------------------------------------------------

  /** st.session_state['history']: the rows of this session, oldest first. */
  class Ledger {
    var entries: seq<Entry>

    /** A new session starts with an empty history. */
    constructor()
      ensures entries == []
    {
      entries := [];
    }

    /** pd.concat of the history and the one-row frame of e: every earlier
        row stays where it was and e becomes the last row. */
    method Append(e: Entry)
      modifies this
      ensures entries == old(entries) + [e]
    {
      entries := entries + [e];
    }

    /** The rows whose label equals `wanted`, scanned in ledger order. */
    method Select(wanted: string) returns (rows: seq<Entry>)
      ensures rows == Matching(entries, wanted)
    {
      rows := [];
      var i := 0;
      while i < |entries|
        invariant 0 <= i <= |entries|
        invariant rows == Matching(entries[..i], wanted)
      {
        assert entries[..i + 1][..i] == entries[..i];
        if Label(entries[i]) == wanted {
          rows := rows + [entries[i]];
        }
        i := i + 1;
      }
      assert entries[..i] == entries;
    }
  }

  /** After an append, selecting a label gives what it gave before, followed
      by the new row when its label is the one selected. */
  lemma SelectAfterAppend(entries: seq<Entry>, e: Entry, wanted: string)
    ensures Matching(entries + [e], wanted) ==
      Matching(entries, wanted) + (if Label(e) == wanted then [e] else [])
  {
    MatchingAppend(entries, [e], wanted);
    assert [e][..0] == [];
  }

  // ---------------------------------------------------------------------
  // The single-row download
  // ---------------------------------------------------------------------

  const DownloadPrefix: string := "titanic_prediction_"
  const DownloadSuffix: string := ".csv"

  /** The file name offered for the selected row: the label with each
      " | " turned into "_" and each ':' into '-'. */
  function DownloadName(wanted: string): (r: string)
    ensures ':' !in r
    ensures |r| >= |DownloadPrefix| + |DownloadSuffix|
    ensures r[..|DownloadPrefix|] == DownloadPrefix
    ensures r[|r| - |DownloadSuffix|..] == DownloadSuffix
  {
    var underscored := Replace(wanted, Separator, "_");
    ReplaceChar(underscored, ':', '-');
    DownloadPrefix + Replace(underscored, ":", "-") + DownloadSuffix
  }

  /** Scanning past a stretch where pat cannot start copies it unchanged. */
  lemma {:induction false} ReplaceSkips(a: string, rest: string, pat: string, rep: string)
    requires pat != []
    requires forall k: nat :: k < |a| ==> !OccursAt(a + rest, pat, k)
    ensures Replace(a + rest, pat, rep) == a + Replace(rest, pat, rep)
  {
    if a != [] {
      var s := a + rest;
      assert !OccursAt(s, pat, 0);
      if |s| < |pat| {
        assert Replace(rest, pat, rep) == rest;
      } else {
        assert s[..|pat|] != pat;
        assert Replace(s, pat, rep) == [s[0]] + Replace(s[1..], pat, rep);
        assert s[1..] == a[1..] + rest;
        forall k: nat | k < |a[1..]|
          ensures !OccursAt(a[1..] + rest, pat, k)
        {
          assert !OccursAt(s, pat, k + 1);
          if k + |pat| <= |s| - 1 {
            assert s[1..][k..k + |pat|] == s[k + 1..k + 1 + |pat|];
          }
        }
        ReplaceSkips(a[1..], rest, pat, rep);
        assert s[0] == a[0];
        assert [a[0]] + a[1..] == a;
        assert [s[0]] + (a[1..] + Replace(rest, pat, rep)) == a + Replace(rest, pat, rep);
      }
    } else {
      assert a + rest == rest;
    }
  }

  /** With no '|' in the name or the timestamp, the separator is the only
      " | " of the label, so the file name is the name and the timestamp
      joined by "_", with every ':' turned into '-'. */
  lemma DownloadNameOfLabel(e: Entry)
    requires '|' !in e.name && '|' !in e.timestamp
    ensures DownloadName(Label(e)) ==
      DownloadPrefix + Replace(e.name + "_" + e.timestamp, ":", "-") + DownloadSuffix
  {
    var rest := Separator + e.timestamp;
    NameBeforeSeparator(e.name, rest);
    SeparatorThenTimestamp(e.timestamp);
    assert Label(e) == e.name + rest;
    assert e.name + ("_" + e.timestamp) == e.name + "_" + e.timestamp;
  }

  /** A name without '|' holds no " | ", and none starts inside it and runs
      on into text that begins with a blank, so the replacement copies the
      name unchanged. */
  lemma NameBeforeSeparator(name: string, rest: string)
    requires '|' !in name
    requires |rest| > 0 && rest[0] == ' '
    ensures Replace(name + rest, Separator, "_") == name + Replace(rest, Separator, "_")
  {
    forall k: nat | k < |name|
      ensures !OccursAt(name + rest, Separator, k)
    {
      var s := name + rest;
      if k + |Separator| <= |s| {
        assert s[k..k + |Separator|][1] == s[k + 1];
        if k + 1 < |name| {
          assert s[k + 1] == name[k + 1];
        } else {
          assert s[k + 1] == rest[0];
        }
      }
    }
    ReplaceSkips(name, rest, Separator, "_");
  }

  /** The separator followed by a timestamp without '|' becomes "_" followed
      by the timestamp. */
  lemma SeparatorThenTimestamp(timestamp: string)
    requires '|' !in timestamp
    ensures Replace(Separator + timestamp, Separator, "_") == "_" + timestamp
  {
    var s := Separator + timestamp;
    assert s[..|Separator|] == Separator;
    assert s[|Separator|..] == timestamp;
    forall k: nat
      ensures !OccursAt(timestamp, Separator, k)
    {
      if k + |Separator| <= |timestamp| {
        assert timestamp[k..k + |Separator|][1] == timestamp[k + 1];
      }
    }
    ReplaceAbsent(timestamp, Separator, "_");
  }

  /** A name that is a bar-free w followed by " |" shares its blank and bar
      with the separator's " | ", and the scan replaces the first " | " it
      meets: the one that ends the name. The separator's bar survives and its
      trailing blank stays before the timestamp. */
  lemma SeparatorOverlap(w: string, ts: string)
    requires '|' !in w && '|' !in ts
    ensures Replace(w + " |" + Separator + ts, Separator, "_") == w + "_| " + ts
  {
    var rest := " |" + Separator + ts;
    assert w + " |" + Separator + ts == w + rest;
    NameBeforeSeparator(w, rest);
    OverlapTail(ts);
    assert w + ("_| " + ts) == w + "_| " + ts;
  }

  /** After the name, " | | " and the timestamp: the first " | " becomes
      "_" and the remaining "| " is copied. */
  lemma OverlapTail(ts: string)
    requires '|' !in ts
    ensures Replace(" |" + Separator + ts, Separator, "_") == "_| " + ts
  {
    var rest := " |" + Separator + ts;
    var tail := "| " + ts;
    assert rest[..|Separator|] == Separator;
    assert rest[|Separator|..] == tail;
    BarThenTimestamp(ts);
    assert "_" + tail == "_| " + ts;
  }

  /** "| " followed by a bar-free timestamp holds no " | ". */
  lemma BarThenTimestamp(ts: string)
    requires '|' !in ts
    ensures Replace("| " + ts, Separator, "_") == "| " + ts
  {
    var tail := "| " + ts;
    forall k: nat
      ensures !OccursAt(tail, Separator, k)
    {
      if k + |Separator| <= |tail| {
        assert tail[k..k + |Separator|][0] == tail[k];
        assert tail[k..k + |Separator|][1] == tail[k + 1];
        if k > 0 {
          assert tail[k + 1] == ts[k - 1];
        }
      }
    }
    ReplaceAbsent(tail, Separator, "_");
  }
}
