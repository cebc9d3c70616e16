/** The solution checker (smart_checker.py): reading result lines with the
    pattern `\[((?:\d+,? ?)+)\] *(\(\d.\d+\))`, collecting a file's itemsets,
    comparing two files, and choosing which files to compare. */
module Checker {
  import opened Wrappers
  import opened Text
  import opened Ints
  import opened Sorting

  type Itemset = seq<int>

  /* ---- The bracket contents `(?:\d+,? ?)+` ---- */

  /** States of a recognizer for `(?:\d+,? ?)+`: what the last character was. */
  datatype GroupState = Start | AfterDigit | AfterComma | AfterSpace | Dead

  function Step(q: GroupState, c: char): GroupState
  {
    if q == Dead then Dead
    else if IsDigit(c) then AfterDigit
    else if c == ',' && q == AfterDigit then AfterComma
    else if c == ' ' && (q == AfterDigit || q == AfterComma) then AfterSpace
    else Dead
  }

  function Run(q: GroupState, g: string): GroupState
    decreases |g|
  {
    if |g| == 0 then q else Run(Step(q, g[0]), g[1..])
  }

  predicate Accepting(q: GroupState) {
    q == AfterDigit || q == AfterComma || q == AfterSpace
  }

  /** The recognizer accepts `g` as the bracket contents. */
  predicate GroupMatches(g: string) {
    Accepting(Run(Start, g))
  }

  lemma {:induction false} RunAppend(q: GroupState, a: string, b: string)
    ensures Run(q, a + b) == Run(Run(q, a), b)
    decreases |a|
  {
    if |a| == 0 {
      assert a + b == b;
    } else {
      assert (a + b)[0] == a[0];
      assert (a + b)[1..] == a[1..] + b;
      RunAppend(Step(q, a[0]), a[1..], b);
    }
  }

  lemma {:induction false} DeadStays(g: string)
    ensures Run(Dead, g) == Dead
    decreases |g|
  {
    if |g| > 0 {
      DeadStays(g[1..]);
    }
  }

  /** One repetition `\d+,? ?` of the group, as the regular expression reads it. */
  ghost predicate IsUnit(u: string) {
    exists n :: 1 <= n <= |u| && AllDigits(u[..n]) && IsUnitTail(u[n..])
  }

  /** `g` is one or more repetitions of `\d+,? ?`: the language of the group. */
  ghost predicate InGroupLanguage(g: string)
    decreases |g|
  {
    exists n :: 1 <= n <= |g| && IsUnit(g[..n]) && (n == |g| || InGroupLanguage(g[n..]))
  }

  /** Every accepted character belongs to the group's alphabet. */
  lemma {:induction false} RunAlphabet(q: GroupState, g: string)
    requires Run(q, g) != Dead
    ensures forall i :: 0 <= i < |g| ==> IsDigit(g[i]) || g[i] == ',' || g[i] == ' '
    decreases |g|
  {
    if |g| > 0 {
      if Step(q, g[0]) == Dead {
        DeadStays(g[1..]);
      } else {
        RunAlphabet(Step(q, g[0]), g[1..]);
        forall i | 0 <= i < |g|
          ensures IsDigit(g[i]) || g[i] == ',' || g[i] == ' '
        {
          if i > 0 {
            assert g[i] == g[1..][i - 1];
          }
        }
      }
    }
  }

  /** Reading digits from any live state ends after a digit. */
  lemma {:induction false} RunDigits(q: GroupState, d: string)
    requires q != Dead && |d| > 0 && AllDigits(d)
    ensures Run(q, d) == AfterDigit
    decreases |d|
  {
    if |d| > 1 {
      RunDigits(AfterDigit, d[1..]);
    }
  }

  /** What may follow the digits of a unit: nothing, a comma, a space, or both. */
  predicate IsUnitTail(t: string) {
    t == "" || t == "," || t == " " || t == ", "
  }

  /** The state after reading a unit's tail right after its digits. */
  lemma TailRun(t: string)
    requires IsUnitTail(t)
    ensures Run(AfterDigit, t) == (if t == "" then AfterDigit else if t == "," then AfterComma else AfterSpace)
  {
    if t == ", " {
      assert t[1..] == " ";
      assert Run(AfterComma, t[1..]) == Run(AfterSpace, t[1..][1..]);
    } else if t != "" {
      assert t[1..] == "";
    }
  }

  /** A unit read from any live state lands in an accepting state. */
  lemma UnitAccepted(q: GroupState, u: string)
    requires q != Dead && IsUnit(u)
    ensures Accepting(Run(q, u))
  {
    var n :| 1 <= n <= |u| && AllDigits(u[..n]) && IsUnitTail(u[n..]);
    assert u == u[..n] + u[n..];
    RunAppend(q, u[..n], u[n..]);
    RunDigits(q, u[..n]);
    TailRun(u[n..]);
  }

  /** Sound: every string of the group's language is accepted. */
  lemma {:induction false} LanguageAccepted(q: GroupState, g: string)
    requires q != Dead && InGroupLanguage(g)
    ensures Accepting(Run(q, g))
    decreases |g|
  {
    var n :| 1 <= n <= |g| && IsUnit(g[..n]) && (n == |g| || InGroupLanguage(g[n..]));
    UnitAccepted(q, g[..n]);
    if n < |g| {
      assert g == g[..n] + g[n..];
      RunAppend(q, g[..n], g[n..]);
      LanguageAccepted(Run(q, g[..n]), g[n..]);
    } else {
      assert g[..n] == g;
    }
  }

  /** The end of the run of digits starting at 0. */
  function DigitRunEnd(g: string, i: nat): (n: nat)
    requires i <= |g|
    ensures i <= n <= |g| && AllDigits(g[i..n]) && (n == |g| || !IsDigit(g[n]))
    decreases |g| - i
  {
    if i < |g| && IsDigit(g[i]) then
      var n := DigitRunEnd(g, i + 1);
      assert g[i..n] == [g[i]] + g[i + 1..n];
      n
    else
      i
  }

  /** A live run that reads a character the state cannot take dies. */
  lemma DiesAfter(q: GroupState, c: char, rest: string)
    requires Step(q, c) == Dead
    ensures Run(q, [c] + rest) == Dead
  {
    assert ([c] + rest)[1..] == rest;
    DeadStays(rest);
  }

  /** The digits at the front of a live string take the run to AfterDigit,
      and what follows them, if anything, is a comma or a space. */
  lemma LeadingDigits(q: GroupState, g: string) returns (n: nat)
    requires q != Dead && |g| > 0 && IsDigit(g[0]) && Run(q, g) != Dead
    ensures 1 <= n <= |g| && AllDigits(g[..n]) && Run(q, g[..n]) == AfterDigit
    ensures n < |g| ==> !IsDigit(g[n]) && (g[n] == ',' || g[n] == ' ')
  {
    n := DigitRunEnd(g, 0);
    RunDigits(q, g[..n]);
    if n < |g| && g[n] != ',' && g[n] != ' ' {
      assert g[n..] == [g[n]] + g[n + 1..];
      assert g == g[..n] + g[n..];
      RunAppend(q, g[..n], g[n..]);
      DiesAfter(AfterDigit, g[n], g[n + 1..]);
    }
  }

  /** The longest unit tail starting at `n`, where a comma or a space (if
      anything) follows the digits. */
  lemma LongestTail(g: string, n: nat) returns (m: nat)
    requires n <= |g| && (n < |g| ==> g[n] == ',' || g[n] == ' ')
    ensures n <= m <= |g| && IsUnitTail(g[n..m])
    ensures m == n <==> n == |g|
    ensures m < |g| && g[n..m] == "," ==> g[m] != ' '
  {
    if n == |g| {
      m := n;
      assert g[n..m] == "";
    } else if g[n] == ',' && n + 1 < |g| && g[n + 1] == ' ' {
      m := n + 2;
      assert g[n..m] == [g[n], g[n + 1]];
    } else {
      m := n + 1;
      assert g[n..m] == [g[n]];
    }
  }

  /** After a non-empty unit tail, only a digit (or a space after a lone
      comma) keeps the run alive. */
  lemma TailThenNonDigit(t: string, c: char)
    requires IsUnitTail(t) && t != "" && !IsDigit(c) && (t == "," ==> c != ' ')
    ensures Step(Run(AfterDigit, t), c) == Dead
  {
    TailRun(t);
  }

  /** The longest unit at the front of a live string ends in an accepting
      state, and is followed by a digit if by anything. */
  lemma GreedyUnit(q: GroupState, g: string) returns (m: nat)
    requires q != Dead && |g| > 0 && IsDigit(g[0]) && Run(q, g) != Dead
    ensures 1 <= m <= |g| && IsUnit(g[..m]) && Accepting(Run(q, g[..m]))
    ensures m < |g| ==> IsDigit(g[m])
  {
    var n := LeadingDigits(q, g);
    m := LongestTail(g, n);
    var u := g[..m];
    var t := g[n..m];
    assert u == g[..n] + t;
    assert u[..n] == g[..n] && u[n..] == t;
    RunAppend(q, g[..n], t);
    TailRun(t);
    if m < |g| && !IsDigit(g[m]) {
      TailThenNonDigit(t, g[m]);
      assert g == u + ([g[m]] + g[m + 1..]);
      RunAppend(q, u, [g[m]] + g[m + 1..]);
      DiesAfter(Run(q, u), g[m], g[m + 1..]);
    }
  }

  /** Complete: every accepted string is in the group's language. The proof
      cuts off the longest unit at the front. */
  lemma {:induction false} AcceptedInLanguage(q: GroupState, g: string)
    requires q != Dead
    requires |g| > 0 && IsDigit(g[0]) && Accepting(Run(q, g))
    ensures InGroupLanguage(g)
    decreases |g|
  {
    var m := GreedyUnit(q, g);
    if m < |g| {
      var qu := Run(q, g[..m]);
      assert g == g[..m] + g[m..];
      RunAppend(q, g[..m], g[m..]);
      AcceptedInLanguage(qu, g[m..]);
    } else {
      assert g[..m] == g;
    }
  }

  /** The recognizer accepts exactly the language of `(?:\d+,? ?)+`. */
  lemma GroupMatchesIff(g: string)
    ensures GroupMatches(g) <==> InGroupLanguage(g)
  {
    if InGroupLanguage(g) {
      LanguageAccepted(Start, g);
    }
    if GroupMatches(g) {
      if |g| == 0 || !IsDigit(g[0]) {
        assert g == [g[0]] + g[1..];
        assert Step(Start, g[0]) == Dead;
        DeadStays(g[1..]);
        assert false;
      }
      AcceptedInLanguage(Start, g);
    }
  }

  /* ---- The whole pattern at one position ---- */

  /** The character classes the pattern scans over. */
  datatype CharClass = Digits | GroupChars | Blanks

  predicate InClass(c: char, k: CharClass) {
    match k
    case Digits => IsDigit(c)
    case GroupChars => IsDigit(c) || c == ',' || c == ' '
    case Blanks => c == ' '
  }

  /** The end of the longest run of `k` characters starting at `i`. */
  function Scan(s: string, i: nat, k: CharClass): (j: nat)
    requires i <= |s|
    ensures i <= j <= |s|
    ensures forall m :: i <= m < j ==> InClass(s[m], k)
    ensures j < |s| ==> !InClass(s[j], k)
    decreases |s| - i
  {
    if i < |s| && InClass(s[i], k) then Scan(s, i + 1, k) else i
  }

  /** A run is determined by where it stops. */
  lemma ScanExact(s: string, i: nat, k: CharClass, j: nat)
    requires i <= j <= |s|
    requires forall m :: i <= m < j ==> InClass(s[m], k)
    requires j < |s| ==> !InClass(s[j], k)
    ensures Scan(s, i, k) == j
  {
  }

  /** The contents of group 1 when the pattern matches starting at `p`:
      `[`, the group, `]`, any spaces, `(`, a digit, any character but a
      newline, one or more digits, `)`. */
  function MatchAt(s: string, p: nat): Option<string>
  {
    if p >= |s| || s[p] != '[' then None
    else
      var j := Scan(s, p + 1, GroupChars);
      if j == |s| || s[j] != ']' || !GroupMatches(s[p + 1..j]) then None
      else
        var k := Scan(s, j + 1, Blanks);
        if k + 3 > |s| || s[k] != '(' || !IsDigit(s[k + 1]) || s[k + 2] == '\n' then None
        else
          var m := Scan(s, k + 3, Digits);
          if m == k + 3 || m == |s| || s[m] != ')' then None
          else Some(s[p + 1..j])
  }

  /** Every character of `s[i..j]` is of class `k`. */
  predicate AllIn(s: string, i: int, j: int, k: CharClass)
    requires 0 <= i <= j <= |s|
  {
    forall m :: i <= m < j ==> InClass(s[m], k)
  }

  /** The pattern matches `s` from position `p` with group 1 equal to `g`,
      as the regular expression reads it: `k` is the position of `(` and `m`
      that of the closing `)`. */
  ghost predicate MatchesWith(s: string, p: nat, g: string, k: int, m: int)
  {
    && p + |g| + 2 <= k && k + 3 < m < |s|
    && s[p] == '[' && s[p + 1..p + 1 + |g|] == g && InGroupLanguage(g) && s[p + 1 + |g|] == ']'
    && AllIn(s, p + 2 + |g|, k, Blanks)
    && s[k] == '(' && IsDigit(s[k + 1]) && s[k + 2] != '\n'
    && AllIn(s, k + 3, m, Digits)
    && s[m] == ')'
  }

  ghost predicate MatchesAt(s: string, p: nat, g: string)
  {
    exists k, m :: MatchesWith(s, p, g, k, m)
  }

  /** A match found by `MatchAt` is a match of the regular expression. */
  lemma MatchAtSound(s: string, p: nat, g: string)
    requires MatchAt(s, p) == Some(g)
    ensures MatchesAt(s, p, g)
  {
    var j := Scan(s, p + 1, GroupChars);
    var k := Scan(s, j + 1, Blanks);
    var m := Scan(s, k + 3, Digits);
    assert g == s[p + 1..j];
    GroupMatchesIff(g);
    assert MatchesWith(s, p, g, k, m);
  }

  /** Every match of the regular expression at `p` is the one `MatchAt` finds. */
  lemma MatchAtComplete(s: string, p: nat, g: string, k: int, m: int)
    requires MatchesWith(s, p, g, k, m)
    ensures MatchAt(s, p) == Some(g)
  {
    var j := p + 1 + |g|;
    GroupMatchesIff(g);
    RunAlphabet(Start, g);
    forall i | p + 1 <= i < j
      ensures InClass(s[i], GroupChars)
    {
      assert s[i] == g[i - (p + 1)];
    }
    ScanExact(s, p + 1, GroupChars, j);
    assert s[p + 1..j] == g;
    ScanExact(s, j + 1, Blanks, k);
    ScanExact(s, k + 3, Digits, m);
    MatchAtFromScans(s, p, j, k, m);
  }

  /** `MatchAt` succeeds once its three scans stop where a match needs
      them to. */
  lemma MatchAtFromScans(s: string, p: nat, j: nat, k: nat, m: nat)
    requires p < |s| && s[p] == '['
    requires p + 1 <= j < |s| && Scan(s, p + 1, GroupChars) == j && s[j] == ']' && GroupMatches(s[p + 1..j])
    requires Scan(s, j + 1, Blanks) == k && k + 3 <= |s| && s[k] == '(' && IsDigit(s[k + 1]) && s[k + 2] != '\n'
    requires Scan(s, k + 3, Digits) == m && k + 3 < m < |s| && s[m] == ')'
    ensures MatchAt(s, p) == Some(s[p + 1..j])
  {
  }

  /** `MatchAt` agrees with the regular expression at every position. */
  lemma MatchAtIff(s: string, p: nat, g: string)
    ensures MatchAt(s, p) == Some(g) <==> MatchesAt(s, p, g)
  {
    if MatchAt(s, p) == Some(g) {
      MatchAtSound(s, p, g);
    }
    if MatchesAt(s, p, g) {
      var k, m :| MatchesWith(s, p, g, k, m);
      MatchAtComplete(s, p, g, k, m);
    }
  }

  /** A match takes at least eight characters from its `[` on: `[`, a
      digit, `]`, `(`, a digit, any character, a digit and `)`. */
  lemma MatchAtNeedsRoom(s: string, p: nat)
    requires MatchAt(s, p).Some?
    ensures p + 8 <= |s|
  {
    var j := Scan(s, p + 1, GroupChars);
    assert GroupMatches(s[p + 1..j]);
    assert !GroupMatches([]);
  }

  /* ---- `re.search`: the leftmost match ---- */

  /** The first defined value among `f(lo)`, ..., `f(hi - 1)`. */
  function FirstFound(f: nat -> Option<string>, lo: nat, hi: nat): Option<string>
    decreases hi - lo
  {
    if lo >= hi then None
    else if f(lo).Some? then f(lo)
    else FirstFound(f, lo + 1, hi)
  }

  /** The pattern tried at each position of `s`. */
  function Matcher(s: string): nat -> Option<string> {
    (p: nat) => MatchAt(s, p)
  }

  /** Group 1 of the leftmost match in `s`, as `re.search` returns it. */
  function Search(s: string): Option<string> {
    FirstFound(Matcher(s), 0, |s|)
  }

  lemma {:induction false} FirstFoundIsFirst(f: nat -> Option<string>, lo: nat, hi: nat, g: string)
    requires lo <= hi
    ensures FirstFound(f, lo, hi) == Some(g) <==>
      (exists p: nat :: lo <= p < hi && f(p) == Some(g) && (forall q: nat :: lo <= q < p ==> f(q).None?))
    decreases hi - lo
  {
    if lo < hi && f(lo).None? {
      FirstFoundIsFirst(f, lo + 1, hi, g);
      if FirstFound(f, lo, hi) == Some(g) {
        var p: nat :| lo + 1 <= p < hi && f(p) == Some(g) && forall q: nat :: lo + 1 <= q < p ==> f(q).None?;
        assert forall q: nat :: lo <= q < p ==> f(q).None?;
      }
      if exists p: nat :: lo <= p < hi && f(p) == Some(g) && forall q: nat :: lo <= q < p ==> f(q).None? {
        var p: nat :| lo <= p < hi && f(p) == Some(g) && forall q: nat :: lo <= q < p ==> f(q).None?;
        assert p != lo;
      }
    }
  }

  lemma {:induction false} FirstFoundNone(f: nat -> Option<string>, lo: nat, hi: nat)
    requires lo <= hi
    ensures FirstFound(f, lo, hi).None? <==> (forall q: nat :: lo <= q < hi ==> f(q).None?)
    decreases hi - lo
  {
    if lo < hi {
      FirstFoundNone(f, lo + 1, hi);
    }
  }

  /** Matches as `MatchAt` finds them and as the regular expression reads
      them agree on every prefix of positions. */
  lemma NoMatchBefore(s: string, p: nat)
    ensures (forall q: nat :: q < p ==> Matcher(s)(q).None?) <==>
            (forall q: nat, h :: q < p ==> !MatchesAt(s, q, h))
  {
    forall q: nat, h | q < p
      ensures Matcher(s)(q) == Some(h) <==> MatchesAt(s, q, h)
    {
      MatchAtIff(s, q, h);
    }
    if exists q: nat :: q < p && Matcher(s)(q).Some? {
      var q: nat :| q < p && Matcher(s)(q).Some?;
      assert MatchesAt(s, q, Matcher(s)(q).value);
    }
  }

  /** What `Search` returns is group 1 of the leftmost match. */
  lemma SearchFindsLeftmost(s: string, g: string) returns (p: nat)
    requires Search(s) == Some(g)
    ensures p < |s| && MatchesAt(s, p, g) && (forall q: nat, h :: q < p ==> !MatchesAt(s, q, h))
  {
    var f := Matcher(s);
    FirstFoundIsFirst(f, 0, |s|, g);
    p :| p < |s| && f(p) == Some(g) && (forall q: nat :: q < p ==> f(q).None?);
    MatchAtIff(s, p, g);
    NoMatchBefore(s, p);
  }

  /** Group 1 of the leftmost match is what `Search` returns. */
  lemma LeftmostIsFound(s: string, g: string, p: nat)
    requires p < |s| && MatchesAt(s, p, g) && (forall q: nat, h :: q < p ==> !MatchesAt(s, q, h))
    ensures Search(s) == Some(g)
  {
    var f := Matcher(s);
    MatchAtIff(s, p, g);
    NoMatchBefore(s, p);
    assert f(p) == Some(g);
    FirstFoundIsFirst(f, 0, |s|, g);
  }

  /** `Search` returns group 1 of the leftmost position where the regular
      expression matches. */
  lemma SearchLeftmost(s: string, g: string)
    ensures Search(s) == Some(g) <==>
      (exists p: nat :: p < |s| && MatchesAt(s, p, g) && (forall q: nat, h :: q < p ==> !MatchesAt(s, q, h)))
  {
    if Search(s) == Some(g) {
      var p := SearchFindsLeftmost(s, g);
    }
    if exists p: nat :: p < |s| && MatchesAt(s, p, g) && (forall q: nat, h :: q < p ==> !MatchesAt(s, q, h)) {
      var p: nat :| p < |s| && MatchesAt(s, p, g) && (forall q: nat, h :: q < p ==> !MatchesAt(s, q, h));
      LeftmostIsFound(s, g, p);
    }
  }

  /** `Search` finds nothing exactly when the regular expression matches
      nowhere in `s`. */
  lemma SearchNone(s: string)
    ensures Search(s).None? <==> (forall q: nat, h :: q < |s| ==> !MatchesAt(s, q, h))
  {
    FirstFoundNone(Matcher(s), 0, |s|);
    NoMatchBefore(s, |s|);
  }

  /* ---- Reading a result file ---- */

  /** How one line of a result file reads: an itemset, a line of the wrong
      format, or a `ValueError` escaping from `int`. */
  datatype LineResult = Pattern(itemset: Itemset) | WrongFormat | Crash(error: ValueError)

  /** One line: strip trailing whitespace, search for the pattern, split
      group 1 on ", ", convert each piece with `int`, sort. The frequency
      is matched and then dropped. */
  function ParseLine(line: string): (r: LineResult)
    ensures r.Pattern? ==> Sorted(r.itemset) && |r.itemset| > 0
  {
    match Search(RStrip(line))
    case None => WrongFormat
    case Some(g) =>
      match ParseInts(Split(g, ", "))
      case Failure(e) => Crash(e)
      case Success(items) => Pattern(Sort(items))
  }

  /* ---- A comma with no space after it ---- */

  /** The pattern takes "1,2" as group 1, but `split(", ")` leaves it whole
      and `int` rejects it: the line `[1,2] (0.5)` raises a ValueError. */
  lemma TightCommaCrashes()
    ensures ParseLine("[1,2] (0.5)") == Crash(ValueError("1,2"))
  {
    var s := "[1,2] (0.5)";
    assert RStrip(s) == s;
    TightCommaFound();
    TightCommaOnePiece();
    TightCommaRejected();
    assert ParseInts(["1,2"]) == Failure(ValueError("1,2"));
  }

  lemma TightCommaFound()
    ensures Search("[1,2] (0.5)") == Some("1,2")
  {
    var s := "[1,2] (0.5)";
    ScanExact(s, 1, GroupChars, 4);
    ScanExact(s, 5, Blanks, 6);
    ScanExact(s, 9, Digits, 10);
    assert s[1..4] == "1,2";
    assert GroupMatches("1,2");
    MatchAtFromScans(s, 0, 4, 6, 10);
    assert Matcher(s)(0) == Some("1,2");
  }

  lemma TightCommaOnePiece()
    ensures Split("1,2", ", ") == ["1,2"]
  {
    SplitWhole("2", ", ");
    assert !(", " <= ",2") by {
      assert ",2"[1] != ", "[1];
    }
    assert ",2"[1..] == "2";
    assert Split(",2", ", ") == [",2"];
    assert !(", " <= "1,2");
    assert "1,2"[1..] == ",2";
  }

  lemma TightCommaRejected()
    ensures ParseInt("1,2").None?
  {
    IntStripTrimmed("1,2");
    assert !IsDigitGroup("1,2") by {
      assert "1,2"[1] == ',';
    }
  }

  /** What the loop of `get_patterns_from_file` makes of one line: lines
      equal to "" are passed over by the `line != ""` guard (a line read from
      a file always holds at least one character, so this never happens for
      real files), every other line is parsed. */
  datatype Reading = Skipped | Read(line: string, result: LineResult)

  function ReadLine(line: string): (rd: Reading)
    ensures rd.Skipped? <==> line == ""
    ensures rd.Read? ==> rd.line == line
  {
    if line == "" then Skipped else Read(line, ParseLine(line))
  }

  predicate Crashes(rd: Reading) {
    rd.Read? && rd.result.Crash?
  }

  predicate Malformed(rd: Reading) {
    rd.Read? && rd.result.WrongFormat?
  }

  predicate Yields(rd: Reading, t: Itemset) {
    rd.Read? && rd.result == Pattern(t)
  }

  /** What reading a whole file gives: its set of itemsets, `None` together
      with the lines reported as malformed, or the error that escaped. */
  datatype FileResult = Patterns(itemsets: set<Itemset>) | Rejected(reported: seq<string>) | Crashed(error: ValueError)

  /** The loop of `get_patterns_from_file` over the readings of a file's
      lines, in order. */
  function Gather(rds: seq<Reading>): (r: FileResult)
    ensures r.Crashed? <==> exists i :: 0 <= i < |rds| && Crashes(rds[i])
    ensures r.Crashed? ==> exists i :: 0 <= i < |rds| && rds[i].Read? && rds[i].result == Crash(r.error)
                                       && forall j :: 0 <= j < i ==> !Crashes(rds[j])
    ensures r.Patterns? <==> forall i :: 0 <= i < |rds| ==> !Crashes(rds[i]) && !Malformed(rds[i])
    ensures r.Patterns? ==> forall t :: t in r.itemsets <==> exists i :: 0 <= i < |rds| && Yields(rds[i], t)
    ensures r.Rejected? ==> |r.reported| > 0
    ensures r.Rejected? ==> forall l :: l in r.reported <==> exists i :: 0 <= i < |rds| && Malformed(rds[i]) && rds[i].line == l
  {
    if |rds| == 0 then Patterns({})
    else
      var rd := rds[0];
      if Crashes(rd) then Crashed(rd.result.error)
      else
        var rest := Gather(rds[1..]);
        if rest.Crashed? || rd.Skipped? then rest
        else match rd.result
          case WrongFormat => Rejected([rd.line] + (if rest.Rejected? then rest.reported else []))
          case Pattern(t) => if rest.Patterns? then Patterns({t} + rest.itemsets) else rest
  }

  /** The readings of a file's lines, one per line. */
  function ReadAll(lines: seq<string>): (rds: seq<Reading>)
    ensures |rds| == |lines|
    ensures forall i :: 0 <= i < |lines| ==> rds[i] == ReadLine(lines[i])
  {
    if |lines| == 0 then [] else [ReadLine(lines[0])] + ReadAll(lines[1..])
  }

  /** `get_patterns_from_file` on the lines of a file: an error escapes iff
      some non-empty line raises, and it is the error of the first such line;
      the file is accepted iff every non-empty
      line parses, and then its set holds exactly those lines' itemsets;
      otherwise the reported lines are exactly the non-empty lines of the
      wrong format. */
  function ParsePatterns(lines: seq<string>): (r: FileResult)
    ensures r.Crashed? <==> exists i :: 0 <= i < |lines| && lines[i] != "" && ParseLine(lines[i]).Crash?
    ensures r.Crashed? ==> exists i :: 0 <= i < |lines| && lines[i] != "" && ParseLine(lines[i]) == Crash(r.error)
                                       && forall j :: 0 <= j < i && lines[j] != "" ==> !ParseLine(lines[j]).Crash?
    ensures r.Patterns? <==> forall i :: 0 <= i < |lines| && lines[i] != "" ==> ParseLine(lines[i]).Pattern?
    ensures r.Patterns? ==> forall t :: t in r.itemsets <==>
              exists i :: 0 <= i < |lines| && lines[i] != "" && ParseLine(lines[i]) == Pattern(t)
    ensures r.Rejected? ==> forall l :: l in r.reported <==> l in lines && l != "" && ParseLine(l).WrongFormat?
  {
    var rds := ReadAll(lines);
    ReadingsOfLines(lines, rds);
    Gather(rds)
  }

  /** How the readings of a file relate to its lines. */
  lemma ReadingsOfLines(lines: seq<string>, rds: seq<Reading>)
    requires rds == ReadAll(lines)
    ensures forall i :: 0 <= i < |lines| ==> (Crashes(rds[i]) <==> lines[i] != "" && ParseLine(lines[i]).Crash?)
    ensures forall i :: 0 <= i < |lines| ==> (Malformed(rds[i]) <==> lines[i] != "" && ParseLine(lines[i]).WrongFormat?)
    ensures forall i, t :: 0 <= i < |lines| ==> (Yields(rds[i], t) <==> lines[i] != "" && ParseLine(lines[i]) == Pattern(t))
    ensures forall i :: 0 <= i < |lines| ==> (rds[i].Read? ==> rds[i].line == lines[i] && rds[i].result == ParseLine(lines[i]))
  {
    forall i | 0 <= i < |lines| {
      ReadingOfLine(lines[i], rds[i]);
    }
  }

  lemma ReadingOfLine(line: string, rd: Reading)
    requires rd == ReadLine(line)
    ensures Crashes(rd) <==> line != "" && ParseLine(line).Crash?
    ensures Malformed(rd) <==> line != "" && ParseLine(line).WrongFormat?
    ensures forall t :: Yields(rd, t) <==> line != "" && ParseLine(line) == Pattern(t)
    ensures rd.Read? ==> rd.line == line && rd.result == ParseLine(line)
  {
  }

  /** A line holding nothing but whitespace, such as the "\n" of an empty
      line, has the wrong format. */
  lemma BlankLineMalformed(line: string)
    requires line != "" && AllSpace(line)
    ensures Malformed(ReadLine(line))
  {
    assert RStrip(line) == [];
  }

  /** One blank line makes a file that does not crash parse to `None`. */
  lemma BlankLineRejectsFile(lines: seq<string>, k: nat)
    requires k < |lines| && lines[k] != "" && AllSpace(lines[k])
    ensures ParsePatterns(lines).Rejected? || ParsePatterns(lines).Crashed?
    ensures ParsePatterns(lines).Rejected? ==> lines[k] in ParsePatterns(lines).reported
  {
    BlankLineMalformed(lines[k]);
    var rds := ReadAll(lines);
    assert Malformed(rds[k]) && rds[k].line == lines[k];
  }

  /** Only which lines occur matters for a file that parses: reordering or
      repeating lines leaves its set of itemsets unchanged. */
  lemma SameLinesSamePatterns(a: seq<string>, b: seq<string>)
    requires ParsePatterns(a).Patterns?
    requires forall l :: l in a <==> l in b
    ensures ParsePatterns(b) == ParsePatterns(a)
  {
    var ra, rb := ReadAll(a), ReadAll(b);
    forall j | 0 <= j < |b|
      ensures !Crashes(rb[j]) && !Malformed(rb[j])
    {
      assert b[j] in a;
      var i :| 0 <= i < |a| && a[i] == b[j];
      assert ra[i] == rb[j];
    }
    var pa, pb := Gather(ra).itemsets, Gather(rb).itemsets;
    forall t
      ensures t in pa <==> t in pb
    {
      if t in pa {
        var i :| 0 <= i < |a| && Yields(ra[i], t);
        assert a[i] in b;
        var j :| 0 <= j < |b| && b[j] == a[i];
        assert Yields(rb[j], t);
      }
      if t in pb {
        var j :| 0 <= j < |b| && Yields(rb[j], t);
        assert b[j] in a;
        var i :| 0 <= i < |a| && a[i] == b[j];
        assert Yields(ra[i], t);
      }
    }
  }

  /* ---- Comparing two files ---- */

  /** How `compare_solution_files` ends: an error escaping from reading
      either file, no comparison because a file was rejected, or the two
      differences. */
  datatype Verdict = Aborted(error: ValueError) | NotCompared | Compared(missed: set<Itemset>, excess: set<Itemset>)

  /** Compare the expected file's result with the actual file's. The
      expected file is read first, so its error is the one that escapes. */
  function Compare(expected: FileResult, actual: FileResult): (v: Verdict)
    ensures v.Aborted? <==> expected.Crashed? || actual.Crashed?
    ensures v.Aborted? && expected.Crashed? ==> v.error == expected.error
    ensures v.Aborted? && !expected.Crashed? ==> actual == Crashed(v.error)
    ensures v.NotCompared? <==> !v.Aborted? && (expected.Rejected? || actual.Rejected?)
    ensures v.Compared? <==> expected.Patterns? && actual.Patterns?
    ensures v.Compared? ==> v.missed <= expected.itemsets && v.excess <= actual.itemsets && v.missed !! v.excess
    ensures v.Compared? ==> (v.missed == {} && v.excess == {} <==> expected.itemsets == actual.itemsets)
    ensures v.Compared? ==> actual.itemsets == (expected.itemsets - v.missed) + v.excess
    ensures v.Compared? ==> expected.itemsets == (actual.itemsets - v.excess) + v.missed
  {
    if expected.Crashed? then Aborted(expected.error)
    else if actual.Crashed? then Aborted(actual.error)
    else if expected.Rejected? || actual.Rejected? then NotCompared
    else Compared(expected.itemsets - actual.itemsets, actual.itemsets - expected.itemsets)
  }

  /** Swapping the two files swaps what is missed and what is in excess. */
  lemma CompareSwapped(expected: FileResult, actual: FileResult)
    requires expected.Patterns? && actual.Patterns?
    ensures Compare(actual, expected) == Compared(Compare(expected, actual).excess, Compare(expected, actual).missed)
  {
  }

  /** `compare_solution_files` on the lines of the two files: an error
      escapes iff a non-empty line of either file raises, and it is the
      expected file's error if that file raises, the actual file's otherwise;
      the files are
      compared iff both are accepted, and then nothing is missed and nothing
      is in excess exactly when both hold the same itemsets. */
  function CompareFiles(expectedLines: seq<string>, actualLines: seq<string>): (v: Verdict)
    ensures v.Aborted? <==>
      || (exists i :: 0 <= i < |expectedLines| && expectedLines[i] != "" && ParseLine(expectedLines[i]).Crash?)
      || (exists i :: 0 <= i < |actualLines| && actualLines[i] != "" && ParseLine(actualLines[i]).Crash?)
    ensures v.Aborted? ==> Crashed(v.error) == if ParsePatterns(expectedLines).Crashed? then ParsePatterns(expectedLines) else ParsePatterns(actualLines)
    ensures v.Compared? <==> ParsePatterns(expectedLines).Patterns? && ParsePatterns(actualLines).Patterns?
    ensures v.Compared? ==> (v.missed == {} && v.excess == {} <==> ParsePatterns(expectedLines) == ParsePatterns(actualLines))
  {
    Compare(ParsePatterns(expectedLines), ParsePatterns(actualLines))
  }

  /** A file that parses has no difference with itself, nor with any
      reordering or repetition of its lines. */
  lemma CompareSameLines(a: seq<string>, b: seq<string>)
    requires ParsePatterns(a).Patterns?
    requires forall l :: l in a <==> l in b
    ensures CompareFiles(a, b) == Compared({}, {})
  {
    SameLinesSamePatterns(a, b);
  }

  /* ---- Reporting a difference ---- */

  /** At most this many itemsets of each difference are listed. */
  const MaxShown := 10

  /** The itemsets listed for one difference, and its size. */
  datatype Listing = Listing(shown: seq<Itemset>, total: nat)

  /** `order` lists each element of `diff` exactly once. */
  predicate Enumerates(order: seq<Itemset>, diff: set<Itemset>) {
    && |order| == |diff|
    && (forall t :: t in order ==> t in diff)
    && (forall t :: t in diff ==> t in order)
  }

  /** The listing of one difference: nothing when it is empty, otherwise the
      first `MaxShown` itemsets of `list(diff)` and the size of `diff`. The
      iteration order of a Python set is not specified, so `order` is that
      list, passed in. */
  function ShowDifference(diff: set<Itemset>, order: seq<Itemset>): (r: Option<Listing>)
    requires Enumerates(order, diff)
    ensures r.None? <==> diff == {}
    ensures r.Some? ==> r.value.total == |diff|
    ensures r.Some? ==> |r.value.shown| == if |diff| < MaxShown then |diff| else MaxShown
    ensures r.Some? ==> r.value.shown <= order
    ensures r.Some? ==> forall t :: t in r.value.shown ==> t in diff
  {
    if |order| == 0 then None
    else Some(Listing(if |order| > MaxShown then order[..MaxShown] else order, |order|))
  }

  /** What the comparison prints once both files parsed: that they agree,
      or the listing of each non-empty difference. */
  datatype Report = SamePatterns | Differences(missed: Option<Listing>, excess: Option<Listing>)

  function Summarize(missed: set<Itemset>, excess: set<Itemset>, missedOrder: seq<Itemset>, excessOrder: seq<Itemset>): (r: Report)
    requires Enumerates(missedOrder, missed) && Enumerates(excessOrder, excess)
    ensures r.SamePatterns? <==> missed == {} && excess == {}
    ensures r.Differences? ==> (r.missed.Some? <==> missed != {}) && (r.excess.Some? <==> excess != {})
    ensures r.Differences? ==> r.missed == ShowDifference(missed, missedOrder) && r.excess == ShowDifference(excess, excessOrder)
  {
    if missed == {} && excess == {} then SamePatterns
    else Differences(ShowDifference(missed, missedOrder), ShowDifference(excess, excessOrder))
  }

  /** The two files of a comparison report "the same patterns" exactly when
      they hold the same set of itemsets. */
  lemma SameReportIffEqual(expected: set<Itemset>, actual: set<Itemset>, missedOrder: seq<Itemset>, excessOrder: seq<Itemset>)
    requires Enumerates(missedOrder, expected - actual) && Enumerates(excessOrder, actual - expected)
    ensures Summarize(expected - actual, actual - expected, missedOrder, excessOrder).SamePatterns? <==> expected == actual
  {
    if expected - actual == {} && actual - expected == {} {
      assert forall t :: t in expected <==> t in actual;
    }
  }

  /* ---- Choosing the files to compare ---- */

  /** The known dataset names, in table order. */
  const DatasetNames: seq<string> := ["toy", "accidents", "chess", "connect", "mushroom", "pumsb", "retail"]

  /** The minimum frequencies listed for a known dataset, in table order,
      each kept as the text Python prints for that float. The transaction
      file listed beside each frequency is never read by the comparison. */
  function Thresholds(name: string): (r: Option<seq<string>>)
    ensures r.Some? <==> name in DatasetNames
    ensures r.Some? ==> |r.value| == 3
  {
    if name == "toy" then Some(["0.125", "0.4", "0.25"])
    else if name == "accidents" then Some(["0.8", "0.9", "0.85"])
    else if name == "chess" then Some(["0.7", "0.8", "0.9"])
    else if name == "connect" then Some(["0.95", "0.97", "0.98"])
    else if name == "mushroom" then Some(["0.3", "0.5", "0.8"])
    else if name == "pumsb" then Some(["0.9", "0.95", "0.97"])
    else if name == "retail" then Some(["0.1", "0.02", "0.05"])
    else None
  }

  /** A pair of files to compare: the reference solution and the algorithm's. */
  datatype FilePair = FilePair(expected: string, actual: string)

  /** `solutions/{dir}/{name}_{minFreq}`. */
  function SolutionFile(dir: string, name: string, minFreq: string): string {
    "solutions/" + dir + "/" + name + "_" + minFreq
  }

  /** What `run_comparisons` does for a dataset name: compare the listed
      file pairs in order; fail with `UnboundLocalError` for "all" (the
      progress-bar text reads the loop variable before the loop binds it);
      or print the known names and exit with status 1. */
  datatype Dispatch = Checks(pairs: seq<FilePair>) | UnboundName | UnknownDataset(messages: seq<string>, status: int)

  /** The line listing the names `run_comparisons` accepts. */
  function AvailableLine(): string {
    "Available datasets: " + Join(DatasetNames + ["all"], ", ")
  }

  function RunComparisons(name: string, algorithm: string): (r: Dispatch)
    ensures r.UnboundName? <==> name == "all"
    ensures r.UnknownDataset? <==> name != "all" && name !in DatasetNames
    ensures r.UnknownDataset? ==> r.status == 1 && |r.messages| == 2 && r.messages[1] == AvailableLine()
    ensures r.Checks? ==> Thresholds(name).Some? && |r.pairs| == |Thresholds(name).value|
    ensures r.Checks? ==> forall k :: 0 <= k < |r.pairs| ==>
      var t := Thresholds(name).value[k];
      r.pairs[k] == FilePair(SolutionFile("sols", name, t), SolutionFile(algorithm, name, t))
  {
    if name == "all" then UnboundName
    else match Thresholds(name)
      case None => UnknownDataset(["Error: Unknown dataset '" + name + "'.", AvailableLine()], 1)
      case Some(ts) => Checks(DatasetPairs(name, algorithm, ts))
  }

  /** The verdicts of a run: every verdict up to and including the first
      `Aborted` one, since nothing catches the error it stands for. */
  function UntilAborted(vs: seq<Verdict>): (r: seq<Verdict>)
    ensures r <= vs
    ensures forall k :: 0 <= k < |r| - 1 ==> !r[k].Aborted?
    ensures |r| < |vs| ==> |r| > 0 && r[|r| - 1].Aborted?
  {
    if |vs| == 0 then []
    else if vs[0].Aborted? then [vs[0]]
    else
      var rest := UntilAborted(vs[1..]);
      assert [vs[0]] + vs[1..] == vs;
      [vs[0]] + rest
  }

  /** `f` applied to each element, in order. */
  function MapSeq<A, B>(xs: seq<A>, f: A -> B): (r: seq<B>)
    ensures |r| == |xs|
    ensures forall k :: 0 <= k < |xs| ==> r[k] == f(xs[k])
  {
    seq(|xs|, k requires 0 <= k < |xs| => f(xs[k]))
  }

  lemma MapSeqAppend<A, B>(xs: seq<A>, ys: seq<A>, f: A -> B)
    ensures MapSeq(xs + ys, f) == MapSeq(xs, f) + MapSeq(ys, f)
  {
    forall k | 0 <= k < |xs + ys|
      ensures MapSeq(xs + ys, f)[k] == (MapSeq(xs, f) + MapSeq(ys, f))[k]
    {
      if k < |xs| {
        assert (xs + ys)[k] == xs[k];
      } else {
        assert (xs + ys)[k] == ys[k - |xs|];
      }
    }
  }

  /** What each pair's comparison would give, where `read` gives the lines
      of each file. */
  function PairVerdicts(pairs: seq<FilePair>, read: string -> seq<string>): (r: seq<Verdict>)
    ensures |r| == |pairs|
    ensures forall k :: 0 <= k < |pairs| ==> r[k] == CompareFiles(read(pairs[k].expected), read(pairs[k].actual))
  {
    MapSeq(pairs, Judge(read))
  }

  /** The comparison of one pair. */
  function Judge(read: string -> seq<string>): FilePair -> Verdict {
    (pair: FilePair) => CompareFiles(read(pair.expected), read(pair.actual))
  }

  /** The comparisons of a run over `pairs`, in order. Nothing catches an
      error escaping from `compare_solution_files`, so the comparison it
      escapes from is the last one made. */
  function RunChecks(pairs: seq<FilePair>, read: string -> seq<string>): (r: seq<Verdict>)
    ensures |r| <= |pairs|
    ensures forall k :: 0 <= k < |r| ==> r[k] == CompareFiles(read(pairs[k].expected), read(pairs[k].actual))
    ensures forall k :: 0 <= k < |r| - 1 ==> !r[k].Aborted?
    ensures |r| < |pairs| ==> |r| > 0 && r[|r| - 1].Aborted?
  {
    UntilAborted(PairVerdicts(pairs, read))
  }

  /** When nothing in `a` aborts, stopping at the first abort goes
      through all of `a` and carries on into `b`. */
  lemma {:induction false} UntilAbortedPassesOver(a: seq<Verdict>, b: seq<Verdict>)
    requires forall k :: 0 <= k < |a| ==> !a[k].Aborted?
    ensures UntilAborted(a + b) == a + UntilAborted(b)
    decreases |a|
  {
    if |a| == 0 {
      assert a + b == b;
    } else {
      var t := a[1..];
      assert a + b == [a[0]] + (t + b);
      UntilAbortedPassesOver(t, b);
      assert UntilAborted(a + b) == [a[0]] + (t + UntilAborted(b));
      assert a == [a[0]] + t;
    }
  }

  /** An abort in `a` ends the run there, whatever follows. */
  lemma {:induction false} UntilAbortedStopsIn(a: seq<Verdict>, b: seq<Verdict>, j: nat)
    requires j < |a| && a[j].Aborted?
    ensures UntilAborted(a + b) == UntilAborted(a)
    decreases |a|
  {
    var t := a[1..];
    assert a + b == [a[0]] + (t + b);
    if !a[0].Aborted? {
      assert t[j - 1] == a[j];
      UntilAbortedStopsIn(t, b, j - 1);
      assert a == [a[0]] + t;
    }
  }

  /** Running two lists of pairs one after the other: when no comparison of
      the first aborts, both runs are made in full order; otherwise the run
      ends within the first. */
  lemma RunChecksAppend(p: seq<FilePair>, q: seq<FilePair>, read: string -> seq<string>)
    ensures (forall k :: 0 <= k < |p| ==> !PairVerdicts(p, read)[k].Aborted?) ==>
      RunChecks(p + q, read) == RunChecks(p, read) + RunChecks(q, read)
    ensures (exists k :: 0 <= k < |p| && PairVerdicts(p, read)[k].Aborted?) ==>
      RunChecks(p + q, read) == RunChecks(p, read)
  {
    var a, b := PairVerdicts(p, read), PairVerdicts(q, read);
    PairVerdictsAppend(p, q, read);
    if forall k :: 0 <= k < |p| ==> !a[k].Aborted? {
      UntilAbortedPassesOver(a, b);
      UntilAbortedPassesOver(a, []);
      assert a + [] == a;
    } else {
      var j :| 0 <= j < |p| && a[j].Aborted?;
      UntilAbortedStopsIn(a, b, j);
    }
  }

  lemma PairVerdictsAppend(p: seq<FilePair>, q: seq<FilePair>, read: string -> seq<string>)
    ensures PairVerdicts(p + q, read) == PairVerdicts(p, read) + PairVerdicts(q, read)
  {
    MapSeqAppend(p, q, Judge(read));
  }

  /** The file pairs for one dataset, one per listed frequency. */
  function DatasetPairs(name: string, algorithm: string, ts: seq<string>): (r: seq<FilePair>)
    ensures |r| == |ts|
    ensures forall k :: 0 <= k < |ts| ==> r[k] == FilePair(SolutionFile("sols", name, ts[k]), SolutionFile(algorithm, name, ts[k]))
  {
    seq(|ts|, k requires 0 <= k < |ts| =>
      FilePair(SolutionFile("sols", name, ts[k]), SolutionFile(algorithm, name, ts[k])))
  }

  /** The pairs `run_comparisons` compares for a known name, none otherwise. */
  function KnownPairs(name: string, algorithm: string): seq<FilePair> {
    match Thresholds(name)
    case None => []
    case Some(ts) => DatasetPairs(name, algorithm, ts)
  }

  /** The pairs of every dataset in `names`, dataset after dataset. */
  function AllPairs(names: seq<string>, algorithm: string): (r: seq<FilePair>)
    ensures forall i, p :: 0 <= i < |names| && p in KnownPairs(names[i], algorithm) ==> p in r
    ensures forall p :: p in r ==> exists i :: 0 <= i < |names| && p in KnownPairs(names[i], algorithm)
  {
    if |names| == 0 then []
    else
      var rest := AllPairs(names[1..], algorithm);
      AllPairsStep(names, algorithm, rest);
      KnownPairs(names[0], algorithm) + rest
  }

  lemma AllPairsStep(names: seq<string>, algorithm: string, rest: seq<FilePair>)
    requires |names| > 0
    requires forall i, p :: 0 <= i < |names| - 1 && p in KnownPairs(names[1..][i], algorithm) ==> p in rest
    requires forall p :: p in rest ==> exists i :: 0 <= i < |names| - 1 && p in KnownPairs(names[1..][i], algorithm)
    ensures forall i, p :: 0 <= i < |names| && p in KnownPairs(names[i], algorithm) ==> p in KnownPairs(names[0], algorithm) + rest
    ensures forall p :: p in KnownPairs(names[0], algorithm) + rest ==> exists i :: 0 <= i < |names| && p in KnownPairs(names[i], algorithm)
  {
    forall i, p | 0 < i < |names| && p in KnownPairs(names[i], algorithm)
      ensures p in rest
    {
      assert names[i] == names[1..][i - 1];
    }
    forall p | p in rest
      ensures exists i :: 0 <= i < |names| && p in KnownPairs(names[i], algorithm)
    {
      var i :| 0 <= i < |names| - 1 && p in KnownPairs(names[1..][i], algorithm);
      assert names[i + 1] == names[1..][i];
    }
  }

  /** `run_comparisons` as its "all" branch evidently means it: every known
      dataset's pairs, in table order; any other name as before. */
  function RunComparisonsIntended(name: string, algorithm: string): (r: Dispatch)
    ensures !r.UnboundName?
    ensures name != "all" ==> r == RunComparisons(name, algorithm)
    ensures name == "all" ==> r.Checks?
  {
    if name == "all" then Checks(AllPairs(DatasetNames, algorithm))
    else RunComparisons(name, algorithm)
  }

  /** Asked for "all", the script as written compares nothing, while the
      intended reading compares the pairs of every known dataset, dataset
      after dataset; by `AllPairs` these are exactly the pairs a run on some
      known name compares. */
  lemma AllComparesEveryDataset(algorithm: string)
    ensures RunComparisons("all", algorithm) == UnboundName
    ensures RunComparisonsIntended("all", algorithm) == Checks(AllPairs(DatasetNames, algorithm))
    ensures forall name :: name in DatasetNames ==> RunComparisons(name, algorithm) == Checks(KnownPairs(name, algorithm))
  {
    forall name | name in DatasetNames
      ensures RunComparisons(name, algorithm) == Checks(KnownPairs(name, algorithm))
    {
      assert name != "all";
    }
  }

  /** No dataset name and no frequency text of the table holds a slash. */
  lemma TableHasNoSlash(name: string)
    requires Thresholds(name).Some?
    ensures '/' !in name
    ensures forall k :: 0 <= k < |Thresholds(name).value| ==> '/' !in Thresholds(name).value[k]
  {
  }

  /** A solution file's base name is `{name}_{minFreq}` when neither part
      holds a slash. */
  lemma SolutionFileName(dir: string, name: string, t: string)
    requires '/' !in name && '/' !in t
    ensures Basename(SolutionFile(dir, name, t)) == name + "_" + t
  {
    var file := name + "_" + t;
    assert '/' !in file by {
      assert forall i :: 0 <= i < |file| ==> file[i] in name || file[i] == '_' || file[i] in t;
    }
    BasenameAfterSlash("solutions/" + dir, file);
    assert SolutionFile(dir, name, t) == "solutions/" + dir + "/" + file;
  }

  /** The two files of a pair carry the same file name, `{name}_{minFreq}`,
      whatever the algorithm is called. */
  lemma PairSharesFileName(name: string, algorithm: string, k: nat)
    requires RunComparisons(name, algorithm).Checks? && k < |RunComparisons(name, algorithm).pairs|
    ensures var pair := RunComparisons(name, algorithm).pairs[k];
      Basename(pair.expected) == Basename(pair.actual) == name + "_" + Thresholds(name).value[k]
  {
    var t := Thresholds(name).value[k];
    TableHasNoSlash(name);
    SolutionFileName("sols", name, t);
    SolutionFileName(algorithm, name, t);
  }

  /** The name list printed for an unknown dataset reads back, split on ", ",
      as the known names followed by "all". */
  lemma AvailableLineListsNames()
    ensures Split(AvailableLine()[|"Available datasets: "|..], ", ") == DatasetNames + ["all"]
  {
    var parts := DatasetNames + ["all"];
    assert parts == ["toy", "accidents", "chess", "connect", "mushroom", "pumsb", "retail", "all"];
    SplitJoin(parts, ", ");
  }
}
