/** Python's `int(str)` in base 10 and `str(int)`, the two conversions
    between item identifiers and their text. */
module Ints {
  import opened Wrappers
  import opened Text

  /** The exception `int()` raises, carrying the literal it could not read. */
  datatype ValueError = ValueError(literal: string)

  predicate IsDigit(c: char) {
    '0' <= c <= '9'
  }

  predicate AllDigits(s: string) {
    forall i :: 0 <= i < |s| ==> IsDigit(s[i])
  }

  function DigitValue(c: char): nat
    requires IsDigit(c)
  {
    c as int - '0' as int
  }

  function DigitChar(d: nat): (c: char)
    requires d < 10
    ensures IsDigit(c) && DigitValue(c) == d
  {
    ('0' as int + d) as char
  }

  /** What `int()` reads after the optional sign: decimal digits, with single
      underscores allowed between two digits. Leading zeros are allowed. */
  predicate IsDigitGroup(b: string) {
    && |b| > 0 && IsDigit(b[0]) && IsDigit(b[|b| - 1])
    && (forall i :: 0 <= i < |b| ==> IsDigit(b[i]) || b[i] == '_')
    && (forall i :: 0 <= i < |b| - 1 ==> b[i] == '_' ==> b[i + 1] != '_')
  }

  /** The decimal value of a digit string, underscores skipped. */
  function DigitsValue(b: string): nat
    requires forall i :: 0 <= i < |b| ==> IsDigit(b[i]) || b[i] == '_'
  {
    if |b| == 0 then 0
    else
      var last := b[|b| - 1];
      var v := DigitsValue(b[..|b| - 1]);
      if last == '_' then v else v * 10 + DigitValue(last)
  }

  /** The characters `int()` skips around its literal. CPython first turns
      every non-ASCII whitespace character into ' ' and then skips ASCII
      whitespace only (U+0009..U+000D and U+0020), so the separators
      U+001C..U+001F, which `strip` removes, stay and spoil the literal. */
  predicate IsIntSpace(c: char) {
    IsSpace(c) && !IsSeparatorControl(c)
  }

  /** U+001C..U+001F, the information separators. */
  predicate IsSeparatorControl(c: char) {
    0x1C <= c as int <= 0x1F
  }

  /** The index of the first character at or after `i` that `int()` does
      not skip. */
  function LeadEnd(s: string, i: nat): (n: nat)
    requires i <= |s|
    ensures i <= n <= |s|
    ensures n < |s| ==> !IsIntSpace(s[n])
    decreases |s| - i
  {
    if i < |s| && IsIntSpace(s[i]) then LeadEnd(s, i + 1) else i
  }

  /** `LeadEnd` skips only characters `int()` skips. */
  lemma {:induction false} LeadEndSkips(s: string, i: nat)
    requires i <= |s|
    ensures forall k :: i <= k < LeadEnd(s, i) ==> IsIntSpace(s[k])
    decreases |s| - i
  {
    if i < |s| && IsIntSpace(s[i]) {
      LeadEndSkips(s, i + 1);
    }
  }

  /** The index just after the last character before `j`, and not before
      `lo`, that `int()` does not skip. */
  function TrailStart(s: string, lo: nat, j: nat): (m: nat)
    requires lo <= j <= |s|
    ensures lo <= m <= j
    ensures m > lo ==> !IsIntSpace(s[m - 1])
    decreases j
  {
    if j > lo && IsIntSpace(s[j - 1]) then TrailStart(s, lo, j - 1) else j
  }

  /** `TrailStart` skips only characters `int()` skips. */
  lemma {:induction false} TrailStartSkips(s: string, lo: nat, j: nat)
    requires lo <= j <= |s|
    ensures forall k :: TrailStart(s, lo, j) <= k < j ==> IsIntSpace(s[k])
    decreases j
  {
    if j > lo && IsIntSpace(s[j - 1]) {
      TrailStartSkips(s, lo, j - 1);
    }
  }

  /** The text `int()` reads once its margins are skipped. */
  function IntStrip(s: string): (r: string)
    ensures |r| <= |s|
    ensures r == [] || (!IsIntSpace(r[0]) && !IsIntSpace(r[|r| - 1]))
  {
    var lo := LeadEnd(s, 0);
    s[lo..TrailStart(s, lo, |s|)]
  }

  /** `IntStrip` removes only the characters `int()` skips. */
  lemma IntStripMargins(s: string) returns (lo: nat, hi: nat)
    ensures lo <= hi <= |s| && IntStrip(s) == s[lo..hi]
    ensures forall k :: 0 <= k < lo ==> IsIntSpace(s[k])
    ensures forall k :: hi <= k < |s| ==> IsIntSpace(s[k])
  {
    lo := LeadEnd(s, 0);
    hi := TrailStart(s, lo, |s|);
    LeadEndSkips(s, 0);
    TrailStartSkips(s, lo, |s|);
  }

  /** Text `IntStrip` leaves alone. */
  lemma IntStripTrimmed(t: string)
    requires t == [] || (!IsIntSpace(t[0]) && !IsIntSpace(t[|t| - 1]))
    ensures IntStrip(t) == t
  {
    assert LeadEnd(t, 0) == 0;
    assert TrailStart(t, 0, |t|) == |t|;
  }

  /** A literal `int()` reads in base 10: an optional '+' or '-', then a
      digit group. */
  predicate IsLiteral(t: string) {
    || IsDigitGroup(t)
    || (|t| > 0 && (t[0] == '+' || t[0] == '-') && IsDigitGroup(t[1..]))
  }

  /** The value of a literal. */
  function LiteralValue(t: string): int
    requires IsLiteral(t)
  {
    if IsDigitGroup(t) then DigitsValue(t)
    else
      var v: int := DigitsValue(t[1..]);
      if t[0] == '-' then -v else v
  }

  /** `int(s)` for a str in base 10: the margins `int()` skips are dropped,
      and what is left must be a literal. `None` stands for the
      ValueError. */
  function ParseInt(s: string): (r: Option<int>)
    ensures r.Some? <==> IsLiteral(IntStrip(s))
    ensures r.Some? ==> Strip(s) != [] && NoSpace(Strip(s))
    ensures AllSpace(s) ==> r.None?
  {
    var t := IntStrip(s);
    if IsLiteral(t) then
      LiteralIsStripped(s, t);
      StripEmpty(s);
      Some(LiteralValue(t))
    else
      None
  }

  /** A literal framed by margins `int()` skips is exactly what `strip`
      keeps, and holds no whitespace and no separator control. */
  lemma LiteralIsStripped(s: string, t: string)
    requires t == IntStrip(s) && IsLiteral(t)
    ensures Strip(s) == t && t != [] && NoSpace(t)
    ensures forall i :: 0 <= i < |s| ==> !IsSeparatorControl(s[i])
  {
    var lo, hi := IntStripMargins(s);
    LiteralChars(t);
    MarginsAreSpace(s, lo, hi);
    var a, b := s[..lo], s[hi..];
    assert s == a + t + b;
    StripOfPadded(a, t, b);
    FramedNoControl(s, t, lo, hi);
  }

  lemma MarginsAreSpace(s: string, lo: nat, hi: nat)
    requires lo <= hi <= |s|
    requires forall k :: 0 <= k < lo ==> IsIntSpace(s[k])
    requires forall k :: hi <= k < |s| ==> IsIntSpace(s[k])
    ensures AllSpace(s[..lo]) && AllSpace(s[hi..])
  {
    assert forall k :: 0 <= k < lo ==> s[..lo][k] == s[k];
    assert forall k :: 0 <= k < |s| - hi ==> s[hi..][k] == s[hi + k];
  }

  lemma FramedNoControl(s: string, t: string, lo: nat, hi: nat)
    requires lo <= hi <= |s| && t == s[lo..hi]
    requires forall k :: 0 <= k < lo ==> IsIntSpace(s[k])
    requires forall k :: hi <= k < |s| ==> IsIntSpace(s[k])
    requires forall i :: 0 <= i < |t| ==> !IsSeparatorControl(t[i])
    ensures forall i :: 0 <= i < |s| ==> !IsSeparatorControl(s[i])
  {
    forall i | 0 <= i < |s|
      ensures !IsSeparatorControl(s[i])
    {
      if lo <= i < hi {
        assert s[i] == t[i - lo];
      }
    }
  }

  /** A literal is made of digits, underscores and a sign only. */
  lemma LiteralChars(t: string)
    requires IsLiteral(t)
    ensures t != [] && Trimmed(t) && NoSpace(t)
    ensures forall i :: 0 <= i < |t| ==> !IsSeparatorControl(t[i]) && !IsIntSpace(t[i])
  {
    assert forall i :: 0 <= i < |t| ==> IsDigit(t[i]) || t[i] == '_' || t[i] == '+' || t[i] == '-' by {
      if !IsDigitGroup(t) {
        assert forall i :: 1 <= i < |t| ==> t[i] == t[1..][i - 1];
      }
    }
  }

  /** `int()` reads a string exactly as it reads that string with its own
      margins removed. */
  lemma ParseIntOfStrip(s: string)
    ensures ParseInt(IntStrip(s)) == ParseInt(s)
  {
    IntStripTrimmed(IntStrip(s));
  }

  /** When `int()` reads a string, `strip` keeps exactly the literal, so it
      reads the stripped string identically. */
  lemma ReadLiteralStripped(s: string)
    requires ParseInt(s).Some?
    ensures Strip(s) == IntStrip(s)
    ensures ParseInt(Strip(s)) == ParseInt(s)
    ensures forall i :: 0 <= i < |s| ==> !IsSeparatorControl(s[i])
  {
    LiteralIsStripped(s, IntStrip(s));
    ParseIntOfStrip(s);
  }

  /** `int()` does not strip as `str.strip` does: U+001C before a digit is
      whitespace to `strip`, but `int()` rejects it. */
  lemma SeparatorControlRejected()
    ensures ParseInt([0x1C as char, '5']).None?
    ensures Strip([0x1C as char, '5']) == "5" && ParseInt("5") == Some(5)
  {
    var s := [0x1C as char, '5'];
    assert IntStrip(s) == s by {
      IntStripTrimmed(s);
    }
    assert !IsLiteral(s);
    assert LStrip(s) == "5" by {
      assert s[1..] == "5";
    }
    assert IntStrip("5") == "5" by {
      IntStripTrimmed("5");
    }
    assert IsDigitGroup("5");
  }

  /** `str(n)` for n >= 0: decimal digits without a leading zero, whose value
      is n. */
  function NatString(n: nat): (r: string)
    ensures |r| > 0 && AllDigits(r)
    ensures r[0] == '0' ==> r == "0"
    ensures DigitsValue(r) == n
  {
    if n < 10 then
      [DigitChar(n)]
    else
      var high := NatString(n / 10);
      var r := high + [DigitChar(n % 10)];
      assert r[..|r| - 1] == high;
      r
  }

  lemma ParseNatString(n: nat)
    ensures ParseInt(NatString(n)) == Some(n)
  {
    var r := NatString(n);
    IntStripTrimmed(r);
    assert IsDigitGroup(r);
  }

  /** `str(n)`: the item text the miner prints; `int()` reads it back as n. */
  function DecimalString(n: int): (r: string)
    ensures |r| > 0
    ensures n >= 0 ==> AllDigits(r)
    ensures forall i :: 0 <= i < |r| ==> IsDigit(r[i]) || r[i] == '-'
    ensures n < 0 ==> r[0] == '-'
    ensures ParseInt(r) == Some(n)
  {
    if n < 0 then
      var digits := NatString(-n);
      var r := "-" + digits;
      ParseNegative(digits, -n);
      r
    else
      ParseNatString(n);
      NatString(n)
  }

  lemma ParseNegative(digits: string, m: nat)
    requires digits == NatString(m)
    ensures ParseInt("-" + digits) == Some(0 - m)
  {
    var r := "-" + digits;
    assert r[0] == '-' && r[1..] == digits;
    assert IsDigitGroup(digits);
    assert !IsDigitGroup(r);
    assert LiteralValue(r) == 0 - m;
    IntStripTrimmed(r);
  }

  /** `list(map(int, tokens))`: every token converted in order, or the
      ValueError of the first token `int()` rejects. */
  function ParseInts(tokens: seq<string>): (r: Result<seq<int>, ValueError>)
    ensures r.Success? <==> forall i :: 0 <= i < |tokens| ==> ParseInt(tokens[i]).Some?
    ensures r.Success? ==> |r.value| == |tokens|
    ensures r.Success? ==> forall i :: 0 <= i < |tokens| ==> ParseInt(tokens[i]) == Some(r.value[i])
    ensures r.Failure? ==> exists i :: FirstRejected(tokens, i) && r.error == ValueError(tokens[i])
  {
    if |tokens| == 0 then
      Success([])
    else
      match ParseInt(tokens[0])
      case None =>
        assert FirstRejected(tokens, 0);
        Failure(ValueError(tokens[0]))
      case Some(v) =>
        var rest := ParseInts(tokens[1..]);
        if rest.Failure? then
          var i :| FirstRejected(tokens[1..], i) && rest.error == ValueError(tokens[1..][i]);
          FirstRejectedShift(tokens, i);
          Failure(rest.error)
        else
          ParsedCons(tokens, v, rest.value);
          Success([v] + rest.value)
  }

  /** Token i is the first one `int()` rejects. */
  predicate FirstRejected(tokens: seq<string>, i: int) {
    && 0 <= i < |tokens|
    && ParseInt(tokens[i]).None?
    && forall j :: 0 <= j < i ==> ParseInt(tokens[j]).Some?
  }

  lemma FirstRejectedShift(tokens: seq<string>, i: int)
    requires |tokens| > 0 && ParseInt(tokens[0]).Some?
    requires FirstRejected(tokens[1..], i)
    ensures FirstRejected(tokens, i + 1) && tokens[1..][i] == tokens[i + 1]
  {
    forall j | 0 <= j < i + 1
      ensures ParseInt(tokens[j]).Some?
    {
      if j > 0 {
        assert tokens[j] == tokens[1..][j - 1];
      }
    }
  }

  lemma {:induction false} ParsedCons(tokens: seq<string>, v: int, vs: seq<int>)
    requires |tokens| > 0 && ParseInt(tokens[0]) == Some(v)
    requires |vs| == |tokens| - 1
    requires forall i :: 0 <= i < |tokens| - 1 ==> ParseInt(tokens[1..][i]) == Some(vs[i])
    ensures forall i :: 0 <= i < |tokens| ==> ParseInt(tokens[i]) == Some(([v] + vs)[i])
  {
    assert forall i :: 0 < i < |tokens| ==> tokens[i] == tokens[1..][i - 1] && ([v] + vs)[i] == vs[i - 1];
  }
}
