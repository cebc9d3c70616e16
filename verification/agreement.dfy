/** How the three pieces fit together: lines written in the documented
    output format are what the checker reads back, and the loader and the
    statistics script agree on every file the loader accepts. */
module Agreement {
  import opened Wrappers
  import opened Text
  import opened Ints
  import opened Sorting
  import Miner
  import Checker
  import DatasetInfo

  /* ---- The output format read back by the checker ---- */

  /** A frequency text the checker's `\(\d.\d+\)` accepts: a digit, any
      character but a newline, then one or more digits. "0.125" and "1.000"
      are such texts; "1" and "12" are not. */
  predicate IsFrequencyText(f: string) {
    |f| >= 3 && IsDigit(f[0]) && f[1] != '\n' && AllDigits(f[2..])
  }

  /** The items written as `str` does, joined with ", ". */
  function ItemList(items: seq<int>): string {
    Join(Miner.ItemTexts(items), ", ")
  }

  /** Every character of a list of non-negative items is a digit, a comma or
      a space. */
  lemma {:induction false} ItemListChars(items: seq<int>)
    requires forall i :: 0 <= i < |items| ==> items[i] >= 0
    ensures forall c :: c in ItemList(items) ==> Checker.InClass(c, Checker.GroupChars)
    decreases |items|
  {
    var texts := Miner.ItemTexts(items);
    if |items| > 1 {
      ItemListChars(items[1..]);
      assert texts[1..] == Miner.ItemTexts(items[1..]);
      assert ItemList(items) == texts[0] + ", " + ItemList(items[1..]);
    }
  }

  lemma CommaSpaceRun()
    ensures Checker.Run(Checker.AfterDigit, ", ") == Checker.AfterSpace
  {
    assert ", "[1..] == " ";
    assert " "[1..] == "";
  }

  /** The recognizer of the bracket contents reads decimal numerals joined
      with ", " to the state after a digit. */
  lemma {:induction false} NumeralListAccepted(parts: seq<string>, q: Checker.GroupState)
    requires |parts| > 0 && forall i :: 0 <= i < |parts| ==> |parts[i]| > 0 && AllDigits(parts[i])
    requires q == Checker.Start || q == Checker.AfterSpace
    ensures Checker.Run(q, Join(parts, ", ")) == Checker.AfterDigit
    decreases |parts|
  {
    Checker.RunDigits(q, parts[0]);
    if |parts| > 1 {
      var tail := Join(parts[1..], ", ");
      assert Join(parts, ", ") == parts[0] + (", " + tail);
      Checker.RunAppend(q, parts[0], ", " + tail);
      Checker.RunAppend(Checker.AfterDigit, ", ", tail);
      CommaSpaceRun();
      NumeralListAccepted(parts[1..], Checker.AfterSpace);
    }
  }

  /** The recognizer accepts a list of non-negative items. */
  lemma ItemListAccepted(items: seq<int>)
    requires |items| > 0 && forall i :: 0 <= i < |items| ==> items[i] >= 0
    ensures Checker.GroupMatches(ItemList(items))
  {
    NumeralListAccepted(Miner.ItemTexts(items), Checker.Start);
  }

  /** Where each part of `[g] (f)` sits. */
  lemma LineLayout(g: string, f: string)
    ensures var s := "[" + g + "] (" + f + ")";
      && |s| == |g| + |f| + 5
      && s[0] == '[' && s[|g| + 1] == ']' && s[|g| + 2] == ' ' && s[|g| + 3] == '(' && s[|s| - 1] == ')'
      && (forall i :: 0 <= i < |g| ==> s[i + 1] == g[i])
      && (forall i :: 0 <= i < |f| ==> s[i + |g| + 4] == f[i])
      && s[1..|g| + 1] == g
  {
    var s := "[" + g + "] (" + f + ")";
    assert s == "[" + g + "] (" + f + ")";
  }

  /** The checker's pattern matches `[g] (f)` at its first character when
      `g` is a bracket contents the pattern accepts and `f` a frequency
      text, with group 1 equal to `g`. */
  lemma LineMatches(g: string, f: string)
    requires forall c :: c in g ==> Checker.InClass(c, Checker.GroupChars)
    requires Checker.GroupMatches(g)
    requires IsFrequencyText(f)
    ensures Checker.MatchAt("[" + g + "] (" + f + ")", 0) == Some(g)
  {
    var s := "[" + g + "] (" + f + ")";
    var n := |g|;
    LineLayout(g, f);
    GroupScan(g, f);
    Checker.ScanExact(s, n + 2, Checker.Blanks, n + 3);
    FrequencyScan(g, f);
    assert s[n + 4] == f[0] && s[n + 5] == f[1];
    Checker.MatchAtFromScans(s, 0, n + 1, n + 3, |s| - 1);
  }

  /** The scan of the bracket contents stops at the closing bracket. */
  lemma GroupScan(g: string, f: string)
    requires forall c :: c in g ==> Checker.InClass(c, Checker.GroupChars)
    ensures Checker.Scan("[" + g + "] (" + f + ")", 1, Checker.GroupChars) == |g| + 1
  {
    var s := "[" + g + "] (" + f + ")";
    var n := |g|;
    LineLayout(g, f);
    forall i | 1 <= i < n + 1
      ensures Checker.InClass(s[i], Checker.GroupChars)
    {
      assert s[i] == g[i - 1];
    }
    Checker.ScanExact(s, 1, Checker.GroupChars, n + 1);
  }

  /** The scan of the frequency's digits stops at the closing
      parenthesis. */
  lemma FrequencyScan(g: string, f: string)
    requires IsFrequencyText(f)
    ensures Checker.Scan("[" + g + "] (" + f + ")", |g| + 6, Checker.Digits) == |g| + |f| + 4
  {
    var s := "[" + g + "] (" + f + ")";
    var n := |g|;
    LineLayout(g, f);
    forall j | 2 <= j < |f|
      ensures IsDigit(f[j])
    {
      assert f[j] == f[2..][j - 2];
    }
    forall i | n + 6 <= i < |s| - 1
      ensures Checker.InClass(s[i], Checker.Digits)
    {
      assert s[i] == f[i - (n + 4)];
    }
    Checker.ScanExact(s, n + 6, Checker.Digits, |s| - 1);
  }

  /** The checker's pattern matches a formatted line at its first character,
      with group 1 the item list. */
  lemma FormatLineMatches(items: seq<int>, freq: string)
    requires |items| > 0 && forall i :: 0 <= i < |items| ==> items[i] >= 0
    requires IsFrequencyText(freq)
    ensures Checker.MatchAt(Miner.FormatLine(items, freq), 0) == Some(ItemList(items))
  {
    ItemListChars(items);
    ItemListAccepted(items);
    LineMatches(ItemList(items), freq);
  }

  /** `str` writes non-negative items with digits only. */
  lemma ItemTextsDigits(items: seq<int>)
    requires forall i :: 0 <= i < |items| ==> items[i] >= 0
    ensures forall k, i :: 0 <= k < |items| && 0 <= i < |Miner.ItemTexts(items)[k]| ==> Miner.ItemTexts(items)[k][i] != ','
  {
    var texts := Miner.ItemTexts(items);
    forall k, i | 0 <= k < |items| && 0 <= i < |texts[k]|
      ensures texts[k][i] != ','
    {
      assert AllDigits(DecimalString(items[k]));
    }
  }

  /** `int` reads back every item `str` wrote. */
  lemma ItemTextsRead(items: seq<int>)
    ensures ParseInts(Miner.ItemTexts(items)) == Success(items)
  {
    var texts := Miner.ItemTexts(items);
    var r := ParseInts(texts);
    assert forall i :: 0 <= i < |texts| ==> ParseInt(texts[i]) == Some(items[i]);
    assert r.Success?;
    assert forall i :: 0 <= i < |items| ==> r.value[i] == items[i];
    assert r.value == items;
  }

  /** The checker's search finds the item list on a written line, with or
      without its line break. */
  lemma FormatLineSearch(items: seq<int>, freq: string)
    requires forall i :: 0 <= i < |items| ==> items[i] >= 0
    requires |items| > 0 && IsFrequencyText(freq)
    ensures Checker.Search(RStrip(Miner.FormatLine(items, freq))) == Some(ItemList(items))
    ensures Checker.Search(RStrip(Miner.FormatLine(items, freq) + "\n")) == Some(ItemList(items))
  {
    var s := Miner.FormatLine(items, freq);
    assert s[|s| - 1] == ')';
    assert RStrip(s) == s;
    RStripTrailingSpace(s, '\n');
    FormatLineMatches(items, freq);
    assert Checker.Matcher(s)(0) == Some(ItemList(items));
  }

  /** Splitting a written item list on ", " and converting gives the items
      back. */
  lemma ItemListRead(items: seq<int>)
    requires forall i :: 0 <= i < |items| ==> items[i] >= 0
    requires |items| > 0
    ensures ParseInts(Split(ItemList(items), ", ")) == Success(items)
  {
    ItemTextsRead(items);
    ItemTextsDigits(items);
    SplitJoin(Miner.ItemTexts(items), ", ");
  }

  /** Round trip: a line in the documented output format, with at least one
      non-negative item and a frequency text the pattern accepts, reads back
      as its items in ascending order; the frequency is dropped. */
  lemma FormatRoundTrip(items: seq<int>, freq: string)
    requires |items| > 0 && forall i :: 0 <= i < |items| ==> items[i] >= 0
    requires IsFrequencyText(freq)
    ensures Checker.ParseLine(Miner.FormatLine(items, freq)) == Checker.Pattern(Sort(items))
    ensures Checker.ParseLine(Miner.FormatLine(items, freq) + "\n") == Checker.Pattern(Sort(items))
  {
    var s := Miner.FormatLine(items, freq);
    FormatLineSearch(items, freq);
    ItemListRead(items);
    ParseFound(s, ItemList(items), items);
    ParseFound(s + "\n", ItemList(items), items);
  }

  /** A line whose search finds a list of numerals reads as those numbers,
      sorted. */
  lemma ParseFound(line: string, g: string, items: seq<int>)
    requires Checker.Search(RStrip(line)) == Some(g)
    requires ParseInts(Split(g, ", ")) == Success(items)
    ensures Checker.ParseLine(line) == Checker.Pattern(Sort(items))
  {
  }

  /** A line listing its items in ascending order reads back as exactly
      those items. */
  lemma SortedRoundTrip(items: seq<int>, freq: string)
    requires |items| > 0 && forall i :: 0 <= i < |items| ==> items[i] >= 0
    requires Sorted(items) && IsFrequencyText(freq)
    ensures Checker.ParseLine(Miner.FormatLine(items, freq)) == Checker.Pattern(items)
  {
    FormatRoundTrip(items, freq);
    SortOfSorted(items);
  }

  /** The order of the items on a line and the frequency printed beside them
      do not change what the checker reads. */
  lemma ItemOrderIrrelevant(a: seq<int>, fa: string, b: seq<int>, fb: string)
    requires |a| > 0 && forall i :: 0 <= i < |a| ==> a[i] >= 0
    requires IsFrequencyText(fa) && IsFrequencyText(fb)
    requires multiset(a) == multiset(b)
    ensures Checker.ParseLine(Miner.FormatLine(a, fa)) == Checker.ParseLine(Miner.FormatLine(b, fb))
  {
    forall i | 0 <= i < |b|
      ensures b[i] >= 0
    {
      assert b[i] in multiset(a);
    }
    FormatRoundTrip(a, fa);
    FormatRoundTrip(b, fb);
    SortPermutationInvariant(a, b);
  }

  /* ---- Lines the checker rejects ---- */

  /** `Search` finds nothing when no position starts a match. */
  lemma NoMatchNoSearch(s: string)
    requires forall q: nat :: q < |s| ==> Checker.MatchAt(s, q).None?
    ensures Checker.Search(s).None?
  {
    forall q: nat | q < |s|
      ensures Checker.Matcher(s)(q).None?
    {
    }
    Checker.FirstFoundNone(Checker.Matcher(s), 0, |s|);
  }

  /** Every character of an item list is a digit, a minus sign, a comma or
      a space; in particular it holds no bracket. */
  lemma {:induction false} ItemListAllChars(items: seq<int>)
    ensures forall c :: c in ItemList(items) ==> IsDigit(c) || c == '-' || c == ',' || c == ' '
    decreases |items|
  {
    var texts := Miner.ItemTexts(items);
    if |items| > 0 {
      assert forall c :: c in texts[0] ==> IsDigit(c) || c == '-';
    }
    if |items| > 1 {
      ItemListAllChars(items[1..]);
      assert texts[1..] == Miner.ItemTexts(items[1..]);
      assert ItemList(items) == texts[0] + ", " + ItemList(items[1..]);
    }
  }

  /** The frequency part of `[g] (f)` fails when `f` has fewer than three
      characters, so the pattern cannot match at the `[`. */
  lemma ShortFrequencyNoMatch(g: string, f: string)
    requires ']' !in g && |f| <= 2
    ensures Checker.MatchAt("[" + g + "] (" + f + ")", 0).None?
  {
    var s := "[" + g + "] (" + f + ")";
    var n := |g|;
    LineLayout(g, f);
    var j := Checker.Scan(s, 1, Checker.GroupChars);
    if j == n + 1 {
      Checker.ScanExact(s, n + 2, Checker.Blanks, n + 3);
      if |f| == 2 {
        Checker.ScanExact(s, n + 6, Checker.Digits, n + 6);
      }
    }
  }

  /** Lines whose frequency has fewer than three characters, such as
      `(1)`, have the wrong format: `\(\d.\d+\)` needs a digit, one more
      character and at least one digit. */
  lemma ShortFrequencyRejected(items: seq<int>, freq: string)
    requires |freq| <= 2
    ensures Checker.ParseLine(Miner.FormatLine(items, freq)) == Checker.WrongFormat
  {
    var g := ItemList(items);
    var s := Miner.FormatLine(items, freq);
    var n := |g|;
    assert s == "[" + g + "] (" + freq + ")";
    assert RStrip(s) == s by {
      assert s[|s| - 1] == ')';
    }
    ItemListAllChars(items);
    ShortFrequencyNoMatch(g, freq);
    NoLaterMatch(g, freq);
    NoMatchNoSearch(s);
  }

  /** In `[g] (f)` with no bracket in `g` and at most two characters in `f`,
      no match starts after the first character: the only other place a
      `[` can be is too close to the end. */
  lemma NoLaterMatch(g: string, f: string)
    requires '[' !in g && |f| <= 2
    ensures forall q: nat :: 0 < q < |g| + |f| + 5 ==> Checker.MatchAt("[" + g + "] (" + f + ")", q).None?
  {
    var s := "[" + g + "] (" + f + ")";
    var n := |g|;
    LineLayout(g, f);
    forall q: nat | 0 < q < |s|
      ensures Checker.MatchAt(s, q).None?
    {
      if q <= n {
        assert s[q] == g[q - 1];
      } else if n + 4 <= q && Checker.MatchAt(s, q).Some? {
        Checker.MatchAtNeedsRoom(s, q);
      }
    }
  }

  /** No match starts after the first character of `[g] (f)` when neither
      `g` nor `f` holds an opening bracket. */
  lemma NoBracketLater(g: string, f: string)
    requires '[' !in g && '[' !in f
    ensures forall q: nat :: 0 < q < |g| + |f| + 5 ==> Checker.MatchAt("[" + g + "] (" + f + ")", q).None?
  {
    var s := "[" + g + "] (" + f + ")";
    var n := |g|;
    LineLayout(g, f);
    forall q: nat | 0 < q < |s|
      ensures Checker.MatchAt(s, q).None?
    {
      if q <= n {
        assert s[q] == g[q - 1];
      } else if n + 4 <= q < |s| - 1 {
        assert s[q] == f[q - n - 4];
      }
    }
  }

  /** A line `[g] (f)` whose first character starts no match, with no
      opening bracket after it, has the wrong format. */
  lemma BracketLineRejected(g: string, f: string)
    requires Checker.MatchAt("[" + g + "] (" + f + ")", 0).None?
    requires '[' !in g && '[' !in f
    ensures Checker.ParseLine("[" + g + "] (" + f + ")") == Checker.WrongFormat
  {
    var s := "[" + g + "] (" + f + ")";
    assert RStrip(s) == s by {
      assert s[|s| - 1] == ')';
    }
    NoBracketLater(g, f);
    NoMatchNoSearch(s);
  }

  /** Empty brackets do not match at the start of `[] (f)`. */
  lemma EmptyBracketsNoMatch(f: string)
    ensures Checker.MatchAt("[" + "" + "] (" + f + ")", 0).None?
  {
    var s := "[" + "" + "] (" + f + ")";
    LineLayout("", f);
    assert Checker.Scan(s, 1, Checker.GroupChars) == 1;
    assert s[1..1] == [];
  }

  /** A line for the empty itemset, `[] (f)`, has the wrong format, since the
      bracket contents must hold at least one digit (for a frequency text
      without a bracket of its own). */
  lemma EmptyItemsetRejected(freq: string)
    requires '[' !in freq
    ensures Checker.ParseLine(Miner.FormatLine([], freq)) == Checker.WrongFormat
  {
    assert Miner.FormatLine([], freq) == "[" + "" + "] (" + freq + ")";
    EmptyBracketsNoMatch(freq);
    BracketLineRejected("", freq);
  }

  /** A part starting with a minus sign puts one into the joined text. */
  lemma {:induction false} MinusInJoin(texts: seq<string>, i: nat)
    requires i < |texts| && |texts[i]| > 0 && texts[i][0] == '-'
    ensures '-' in Join(texts, ", ")
    decreases i
  {
    if |texts| == 1 {
      assert Join(texts, ", ")[0] == '-';
    } else {
      var rest := Join(texts[1..], ", ");
      assert Join(texts, ", ") == texts[0] + ", " + rest;
      if i == 0 {
        assert (texts[0] + ", " + rest)[0] == '-';
      } else {
        MinusInJoin(texts[1..], i - 1);
        var d :| 0 <= d < |rest| && rest[d] == '-';
        assert (texts[0] + ", " + rest)[|texts[0]| + 2 + d] == '-';
      }
    }
  }

  /** A negative item puts a minus sign into the item list. */
  lemma NegativeShowsMinus(items: seq<int>, i: nat)
    requires i < |items| && items[i] < 0
    ensures '-' in ItemList(items)
  {
    MinusInJoin(Miner.ItemTexts(items), i);
  }

  /** No match starts at the bracket of `[g] (f)` when `g` holds a minus
      sign and no closing bracket: the bracket contents may only hold
      digits, commas and spaces. */
  lemma MinusNoMatch(g: string, f: string)
    requires '-' in g && ']' !in g
    ensures Checker.MatchAt("[" + g + "] (" + f + ")", 0).None?
  {
    var s := "[" + g + "] (" + f + ")";
    var n := |g|;
    LineLayout(g, f);
    var d :| 0 <= d < n && g[d] == '-';
    assert s[d + 1] == '-';
    var j := Checker.Scan(s, 1, Checker.GroupChars);
    assert j <= d + 1;
    assert s[j] == g[j - 1];
  }

  /** An item list holds no brackets. */
  lemma ItemListNoBrackets(items: seq<int>)
    ensures '[' !in ItemList(items) && ']' !in ItemList(items)
  {
    ItemListAllChars(items);
  }

  /** A line for an itemset holding a negative item has the wrong format,
      although the loader reads negative items (for a frequency text
      without a bracket of its own). */
  lemma NegativeItemRejected(items: seq<int>, i: nat, freq: string)
    requires i < |items| && items[i] < 0
    requires '[' !in freq
    ensures Checker.ParseLine(Miner.FormatLine(items, freq)) == Checker.WrongFormat
  {
    var g := ItemList(items);
    assert Miner.FormatLine(items, freq) == "[" + g + "] (" + freq + ")";
    NegativeShowsMinus(items, i);
    ItemListNoBrackets(items);
    MinusNoMatch(g, freq);
    BracketLineRejected(g, freq);
  }

  /* ---- A whole output file read back ---- */

  /** One mined itemset and the frequency text printed beside it. */
  datatype Entry = Entry(items: seq<int>, freq: string)

  /** An entry the documented format can write and the checker can read. */
  predicate Writable(e: Entry) {
    |e.items| > 0 && (forall i :: 0 <= i < |e.items| ==> e.items[i] >= 0) && IsFrequencyText(e.freq)
  }

  /** The lines of an output file, one entry per line, as a file iteration
      yields them (each ending in "\n"). */
  function OutputLines(entries: seq<Entry>): (lines: seq<string>)
    ensures |lines| == |entries|
    ensures forall i :: 0 <= i < |entries| ==> lines[i] == Miner.FormatLine(entries[i].items, entries[i].freq) + "\n"
  {
    if |entries| == 0 then []
    else [Miner.FormatLine(entries[0].items, entries[0].freq) + "\n"] + OutputLines(entries[1..])
  }

  /** The itemsets of the entries, each in ascending order. */
  function SortedItemsets(entries: seq<Entry>): set<seq<int>> {
    set i | 0 <= i < |entries| :: Sort(entries[i].items)
  }

  /** A file whose every line reads as an itemset yields exactly those
      itemsets. */
  lemma AllPatternsGathered(rds: seq<Checker.Reading>, ts: seq<seq<int>>)
    requires |rds| == |ts|
    requires forall i :: 0 <= i < |rds| ==> Checker.Yields(rds[i], ts[i])
    ensures Checker.Gather(rds) == Checker.Patterns(set i | 0 <= i < |ts| :: ts[i])
  {
    var r := Checker.Gather(rds);
    assert r.Patterns?;
    forall t
      ensures t in r.itemsets <==> t in (set i | 0 <= i < |ts| :: ts[i])
    {
      if t in (set i | 0 <= i < |ts| :: ts[i]) {
        var i :| 0 <= i < |ts| && t == ts[i];
        assert Checker.Yields(rds[i], t);
      }
    }
  }

  /** One written line is read as its itemset in ascending order. */
  lemma EntryReadBack(e: Entry)
    requires Writable(e)
    ensures Checker.Yields(Checker.ReadLine(Miner.FormatLine(e.items, e.freq) + "\n"), Sort(e.items))
  {
    FormatRoundTrip(e.items, e.freq);
  }

  /** The itemsets of the entries, in ascending order, entry by entry. */
  function SortedAll(entries: seq<Entry>): (ts: seq<seq<int>>)
    ensures |ts| == |entries|
    ensures forall i :: 0 <= i < |entries| ==> ts[i] == Sort(entries[i].items)
    ensures (set i | 0 <= i < |ts| :: ts[i]) == SortedItemsets(entries)
  {
    if |entries| == 0 then []
    else
      var rest := SortedAll(entries[1..]);
      var ts := [Sort(entries[0].items)] + rest;
      assert forall i :: 0 <= i < |ts| ==> ts[i] == Sort(entries[i].items);
      ts
  }

  /** A file written in the documented format reads back as the set of its
      itemsets in ascending order, whatever order the lines and the items
      within them come in. */
  lemma OutputReadBack(entries: seq<Entry>)
    requires forall i :: 0 <= i < |entries| ==> Writable(entries[i])
    ensures Checker.ParsePatterns(OutputLines(entries)) == Checker.Patterns(SortedItemsets(entries))
  {
    var lines := OutputLines(entries);
    var rds := Checker.ReadAll(lines);
    var ts := SortedAll(entries);
    forall i | 0 <= i < |entries|
      ensures Checker.Yields(rds[i], ts[i])
    {
      EntryReadBack(entries[i]);
    }
    AllPatternsGathered(rds, ts);
  }

  /** Two output files holding the same itemsets, in any order and with any
      frequency texts, compare as equal. */
  lemma SameItemsetsCompareEqual(expected: seq<Entry>, actual: seq<Entry>)
    requires forall i :: 0 <= i < |expected| ==> Writable(expected[i])
    requires forall i :: 0 <= i < |actual| ==> Writable(actual[i])
    requires SortedItemsets(expected) == SortedItemsets(actual)
    ensures Checker.CompareFiles(OutputLines(expected), OutputLines(actual)) == Checker.Compared({}, {})
  {
    OutputReadBack(expected);
    OutputReadBack(actual);
  }

  /* ---- The loader and the statistics script ---- */

  /** Every piece stripped. */
  function Stripped(parts: seq<string>): (r: seq<string>)
    ensures |r| == |parts|
    ensures forall i :: 0 <= i < |parts| ==> r[i] == Strip(parts[i])
  {
    if |parts| == 0 then [] else [Strip(parts[0])] + Stripped(parts[1..])
  }

  /** Splitting on runs of whitespace a text that was joined with single
      spaces gives back the pieces, stripped, as long as each piece holds
      exactly one word. */
  lemma {:induction false} WordsOfSpaceJoin(parts: seq<string>)
    requires |parts| > 0
    requires forall i :: 0 <= i < |parts| ==> Strip(parts[i]) != [] && NoSpace(Strip(parts[i]))
    ensures Words(Join(parts, " ")) == Stripped(parts)
    decreases |parts|
  {
    WordsOfPadded(parts[0]);
    if |parts| > 1 {
      var tail := Join(parts[1..], " ");
      assert Join(parts, " ") == (parts[0] + " ") + tail;
      WordsAppend(parts[0] + " ", tail);
      WordsAppend(parts[0], " ");
      WordsOfSpace(" ");
      WordsOfSpaceJoin(parts[1..]);
      assert Stripped(parts) == [Strip(parts[0])] + Stripped(parts[1..]);
    }
  }

  /** When every token converts, stripping the tokens first changes
      nothing. (The error of a failing token would carry the stripped text,
      so the failing case is not claimed.) */
  lemma ParseIntsOfStripped(tokens: seq<string>)
    requires ParseInts(tokens).Success?
    ensures ParseInts(Stripped(tokens)) == ParseInts(tokens)
  {
    var st := Stripped(tokens);
    forall i | 0 <= i < |tokens|
      ensures ParseInt(st[i]) == ParseInt(tokens[i])
    {
      ReadLiteralStripped(tokens[i]);
    }
    assert ParseInts(st).Success?;
    assert ParseInts(st).value == ParseInts(tokens).value;
  }

  /** A line the loader reads as a transaction is read as the same items by
      the statistics script, which splits on runs of whitespace instead of
      single spaces. */
  lemma TransactionAgrees(line: string)
    requires Miner.ParseTransaction(line).Success?
    ensures DatasetInfo.LineItems(line) == Miner.ParseTransaction(line)
  {
    var parts := Split(line, " ");
    forall i | 0 <= i < |parts|
      ensures Strip(parts[i]) != [] && NoSpace(Strip(parts[i]))
    {
      assert ParseInt(parts[i]).Some?;
    }
    WordsOfSpaceJoin(parts);
    ParseIntsOfStripped(parts);
  }

  /** The script reads every line the loader accepts as the loader's
      transaction. */
  lemma LinesAgree(kept: seq<string>)
    requires Miner.BuildDataset(kept).Success?
    ensures |Miner.BuildDataset(kept).value.transactions| == |kept|
    ensures forall k :: 0 <= k < |kept| ==> DatasetInfo.LineItems(kept[k]) == Success(Miner.BuildDataset(kept).value.transactions[k])
  {
    forall k | 0 <= k < |kept|
      ensures DatasetInfo.LineItems(kept[k]) == Miner.ParseTransaction(kept[k])
    {
      TransactionAgrees(kept[k]);
    }
  }

  /** The items the script collects are the items of the transactions its
      lines read as. */
  lemma ItemsAgree(kept: seq<string>, ts: seq<seq<int>>, items: set<int>)
    requires |ts| == |kept|
    requires forall k :: 0 <= k < |kept| ==> DatasetInfo.LineItems(kept[k]) == Success(ts[k])
    requires forall k, x :: 0 <= k < |kept| && x in ts[k] ==> x in items
    requires forall x :: x in items ==> exists k :: 0 <= k < |kept| && x in ts[k]
    ensures DatasetInfo.AllRead(kept) && DatasetInfo.ItemsOfLines(kept) == items
  {
    var found := DatasetInfo.ItemsOfLines(kept);
    forall x | x in found
      ensures x in items
    {
      var k, i :| 0 <= k < |kept| && 0 <= i < |DatasetInfo.LineItems(kept[k]).value| && DatasetInfo.LineItems(kept[k]).value[i] == x;
      assert x in ts[k];
    }
    forall x | x in items
      ensures x in found
    {
      var k :| 0 <= k < |kept| && x in ts[k];
      var i :| 0 <= i < |ts[k]| && ts[k][i] == x;
      assert DatasetInfo.LineItems(kept[k]).value[i] == x;
    }
  }

  /** On lines the loader accepts, the script's loop counts the loader's
      transactions and collects exactly the loader's item set. */
  lemma TallyAgrees(kept: seq<string>)
    requires Miner.BuildDataset(kept).Success?
    ensures DatasetInfo.Tally(kept) == Success(DatasetInfo.Counts(Miner.BuildDataset(kept).value.items, |kept|))
  {
    var d := Miner.BuildDataset(kept).value;
    LinesAgree(kept);
    ItemsAgree(kept, d.transactions, d.items);
  }

  /** Whenever the miner's loader accepts a file, the statistics script
      reports the loader's `trans_num()` and `items_num()` for it. */
  lemma LoadAgreesWithProcess(path: string, lines: seq<string>)
    requires Miner.Load(lines).Success?
    ensures DatasetInfo.ProcessDataset(path, lines)
         == Success(DatasetInfo.Summary(Basename(path), Miner.Load(lines).value.ItemsNum(), Miner.Load(lines).value.TransNum()))
  {
    TallyAgrees(NonBlank(lines));
  }

  /** Two words with a run of two spaces between them. */
  lemma WordsOfSpaceRun(a: string, b: string)
    requires |a| > 0 && NoSpace(a) && |b| > 0 && NoSpace(b)
    ensures Words(a + "  " + b) == [a, b]
  {
    WordsOfWord(a);
    WordsOfWord(b);
    WordsOfSpace("  ");
    WordsAppend("  ", b);
    WordsAppend(a, "  " + b);
    assert a + "  " + b == a + ("  " + b);
  }

  /** The items the statistics script collects from a one-line file whose
      line reads as two items. */
  lemma OneLineItems(line: string, va: int, vb: int)
    requires DatasetInfo.LineItems(line) == Success([va, vb])
    ensures DatasetInfo.AllRead([line]) && DatasetInfo.ItemsOfLines([line]) == {va, vb}
  {
    var kept := [line];
    assert kept[0] == line;
    var items := DatasetInfo.ItemsOfLines(kept);
    forall x | x in items
      ensures x == va || x == vb
    {
      var k, i :| 0 <= k < 1 && 0 <= i < |DatasetInfo.LineItems(kept[k]).value| && DatasetInfo.LineItems(kept[k]).value[i] == x;
      assert k == 0;
    }
    assert DatasetInfo.LineItems(kept[0]).value[0] == va;
    assert DatasetInfo.LineItems(kept[0]).value[1] == vb;
  }

  /** A line `a  b` is kept as it is by both readers. */
  lemma SpaceRunKept(a: string, b: string)
    requires |a| > 0 && NoSpace(a) && |b| > 0 && NoSpace(b)
    ensures Strip(a + "  " + b) == a + "  " + b
    ensures NonBlank([a + "  " + b]) == [a + "  " + b]
  {
    var line := a + "  " + b;
    assert line[0] == a[0] && line[|line| - 1] == b[|b| - 1];
    StripTrimmed(line);
    assert [line][1..] == [];
  }

  /** The statistics script reads a line `a  b` as the two items. */
  lemma SpaceRunItems(a: string, b: string)
    requires |a| > 0 && NoSpace(a) && ParseInt(a).Some?
    requires |b| > 0 && NoSpace(b) && ParseInt(b).Some?
    ensures DatasetInfo.LineItems(a + "  " + b) == Success([ParseInt(a).value, ParseInt(b).value])
  {
    WordsOfSpaceRun(a, b);
    var r := ParseInts([a, b]);
    assert r.Success?;
    assert r.value == [ParseInt(a).value, ParseInt(b).value];
  }

  /** The two readers differ on runs of spaces: a line `a  b` (two spaces
      between two numerals) makes the loader fail, since splitting on a
      single space leaves an empty token, while the statistics script
      counts it as one transaction of the two items. */
  lemma SpaceRunSeparatesReaders(path: string, a: string, b: string)
    requires |a| > 0 && NoSpace(a) && ParseInt(a).Some?
    requires |b| > 0 && NoSpace(b) && ParseInt(b).Some?
    ensures Miner.Load([a + "  " + b]).Failure?
    ensures DatasetInfo.ProcessDataset(path, [a + "  " + b])
         == Success(DatasetInfo.Summary(Basename(path), |{ParseInt(a).value, ParseInt(b).value}|, 1))
  {
    var line := a + "  " + b;
    SpaceRunKept(a, b);
    Miner.LoadRejectsDoubleSpace([line], 0, a, b);
    SpaceRunItems(a, b);
    OneLineItems(line, ParseInt(a).value, ParseInt(b).value);
  }
}
