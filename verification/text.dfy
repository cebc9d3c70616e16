/** The Python string builtins the loader, the checker and the statistics
    script rely on: `strip`/`rstrip`, `split(sep)`, `split()`, `join`,
    iteration of a text file by lines, and `os.path.basename`. */
module Text {

  /** The characters CPython's `str.isspace` accepts; `strip()`, `rstrip()`
      and `split()` without arguments all use this set: U+0009..U+000D,
      U+001C..U+0020, U+0085, U+00A0, U+1680, U+2000..U+200A, U+2028,
      U+2029, U+202F, U+205F and U+3000. */
  predicate IsSpace(c: char) {
    var n := c as int;
    (0x09 <= n <= 0x0D) || (0x1C <= n <= 0x20) || n == 0x85 || n == 0xA0 || n == 0x1680
    || (0x2000 <= n <= 0x200A) || n == 0x2028 || n == 0x2029 || n == 0x202F || n == 0x205F
    || n == 0x3000
  }

  predicate AllSpace(s: string) {
    forall i :: 0 <= i < |s| ==> IsSpace(s[i])
  }

  predicate NoSpace(s: string) {
    forall i :: 0 <= i < |s| ==> !IsSpace(s[i])
  }

  /** `s.rstrip()`: drop the whitespace at the end. */
  function RStrip(s: string): (r: string)
    ensures r <= s
    ensures r == [] || !IsSpace(r[|r| - 1])
  {
    if |s| > 0 && IsSpace(s[|s| - 1]) then RStrip(s[..|s| - 1]) else s
  }

  /** `s.lstrip()`: drop the whitespace at the start. */
  function LStrip(s: string): (r: string)
    ensures |r| <= |s|
    ensures r == [] || !IsSpace(r[0])
  {
    if |s| > 0 && IsSpace(s[0]) then LStrip(s[1..]) else s
  }

  /** `s.strip()`: drop the whitespace at both ends. */
  function Strip(s: string): (r: string)
    ensures |r| <= |s|
    ensures Trimmed(r)
  {
    var right := RStrip(s);
    var r := LStrip(right);
    if r == [] then r
    else
      LStripMargin(right);
      assert r[|r| - 1] == right[|right| - 1];
      r
  }

  /** Text with no whitespace at either end, as `strip` leaves it. */
  predicate Trimmed(t: string) {
    t == [] || (!IsSpace(t[0]) && !IsSpace(t[|t| - 1]))
  }

  /** `rstrip` removes only whitespace. */
  /** A trailing whitespace character, such as a line's "\n", goes. */
  lemma RStripTrailingSpace(s: string, c: char)
    requires IsSpace(c)
    ensures RStrip(s + [c]) == RStrip(s)
  {
    assert (s + [c])[..|s|] == s;
  }

  lemma {:induction false} RStripMargin(s: string)
    ensures AllSpace(s[|RStrip(s)|..])
    decreases |s|
  {
    if |s| > 0 && IsSpace(s[|s| - 1]) {
      var p := s[..|s| - 1];
      RStripMargin(p);
      var r := RStrip(p);
      assert s[|r|..] == p[|r|..] + [s[|s| - 1]];
    }
  }

  /** `lstrip` removes only whitespace. */
  lemma {:induction false} LStripMargin(s: string)
    ensures LStrip(s) == s[|s| - |LStrip(s)|..]
    ensures AllSpace(s[..|s| - |LStrip(s)|])
    decreases |s|
  {
    if |s| > 0 && IsSpace(s[0]) {
      LStripMargin(s[1..]);
      var r := LStrip(s[1..]);
      assert s[..|s| - |r|] == [s[0]] + s[1..][..|s| - 1 - |r|];
    }
  }

  /** Strip removes whitespace only: `s` is the stripped text with a
      whitespace-only margin on each side. */
  lemma StripMargins(s: string) returns (lead: nat)
    ensures lead + |Strip(s)| <= |s|
    ensures s == s[..lead] + Strip(s) + s[lead + |Strip(s)|..]
    ensures AllSpace(s[..lead]) && AllSpace(s[lead + |Strip(s)|..])
  {
    var right := RStrip(s);
    var r := LStrip(right);
    RStripMargin(s);
    LStripMargin(right);
    assert r == Strip(s);
    lead := |right| - |r|;
    var tail := s[|right|..];
    assert right == right[..lead] + r;
    assert s == right + tail;
    assert s[..lead] == right[..lead];
    assert s[lead + |r|..] == tail;
    assert s == s[..lead] + r + tail;
  }

  /** A line strips to nothing exactly when it is all whitespace. */
  lemma StripEmpty(s: string)
    ensures Strip(s) == [] <==> AllSpace(s)
  {
    var lead := StripMargins(s);
    var t := Strip(s);
    if t == [] {
      assert s == s[..lead] + s[lead..];
    } else {
      assert s[lead] == t[0];
    }
  }

  /** A line whose only '\n' can be its last character strips to text
      with no '\n' at all: the terminator never reaches the tokens. */
  lemma StripDropsTerminator(line: string)
    requires forall i :: 0 <= i < |line| - 1 ==> line[i] != '\n'
    ensures forall i :: 0 <= i < |Strip(line)| ==> Strip(line)[i] != '\n'
  {
    var lead := StripMargins(line);
    var t := Strip(line);
    forall i | 0 <= i < |t|
      ensures t[i] != '\n'
    {
      assert t[i] == line[lead + i];
      if lead + i == |line| - 1 {
        assert i == |t| - 1;
      }
    }
  }

  /** Text with no whitespace at its ends, framed by whitespace, strips to
      itself. */
  lemma StripOfPadded(a: string, t: string, b: string)
    requires AllSpace(a) && AllSpace(b) && t != [] && Trimmed(t)
    ensures Strip(a + t + b) == t
  {
    var s := a + t + b;
    var lead := StripMargins(s);
    var r := Strip(s);
    var e := lead + |r|;
    PaddedLayout(a, t, b);
    StripEmpty(s);
    StrippedLayout(s, lead);
    SameFrame(s, lead, e, |a|, |a| + |t|);
    MiddleOf(s[..lead], r, s[e..]);
    MiddleOf(a, t, b);
  }

  /** The middle part of a three-part concatenation. */
  lemma MiddleOf<T>(x: seq<T>, y: seq<T>, z: seq<T>)
    ensures (x + y + z)[|x|..|x| + |y|] == y
  {
  }

  lemma PaddedLayout(a: string, t: string, b: string)
    requires AllSpace(a) && AllSpace(b) && t != [] && Trimmed(t)
    ensures var s := a + t + b;
      && !IsSpace(s[|a|]) && !IsSpace(s[|a| + |t| - 1])
      && (forall k :: 0 <= k < |a| ==> IsSpace(s[k]))
      && (forall k :: |a| + |t| <= k < |s| ==> IsSpace(s[k]))
  {
    var s := a + t + b;
    assert forall k :: 0 <= k < |a| ==> s[k] == a[k];
    assert forall k :: |a| + |t| <= k < |s| ==> s[k] == b[k - |a| - |t|];
  }

  /** Where the stripped text sits in a line that is not all whitespace. */
  lemma StrippedLayout(s: string, lead: nat)
    requires !AllSpace(s)
    requires lead + |Strip(s)| <= |s|
    requires s == s[..lead] + Strip(s) + s[lead + |Strip(s)|..]
    requires AllSpace(s[..lead]) && AllSpace(s[lead + |Strip(s)|..])
    ensures Strip(s) != []
    ensures !IsSpace(s[lead]) && !IsSpace(s[lead + |Strip(s)| - 1])
    ensures forall k :: 0 <= k < lead ==> IsSpace(s[k])
    ensures forall k :: lead + |Strip(s)| <= k < |s| ==> IsSpace(s[k])
  {
    var r := Strip(s);
    var e := lead + |r|;
    StripEmpty(s);
    assert s[lead] == r[0] && s[e - 1] == r[|r| - 1];
    assert forall k :: 0 <= k < lead ==> s[k] == s[..lead][k];
    assert forall k :: e <= k < |s| ==> s[k] == s[e..][k - e];
  }

  /** Two framings of a text by whitespace margins around non-space ends
      are the same framing. */
  lemma SameFrame(s: string, i: nat, e: nat, i2: nat, e2: nat)
    requires i < e <= |s| && i2 < e2 <= |s|
    requires !IsSpace(s[i]) && !IsSpace(s[e - 1]) && !IsSpace(s[i2]) && !IsSpace(s[e2 - 1])
    requires forall k :: 0 <= k < i ==> IsSpace(s[k])
    requires forall k :: 0 <= k < i2 ==> IsSpace(s[k])
    requires forall k :: e <= k < |s| ==> IsSpace(s[k])
    requires forall k :: e2 <= k < |s| ==> IsSpace(s[k])
    ensures i == i2 && e == e2
  {
  }

  /** Stripping twice is stripping once. */
  lemma StripIdempotent(s: string)
    ensures Strip(Strip(s)) == Strip(s)
  {
    var t := Strip(s);
    if t != [] {
      assert RStrip(t) == t;
      assert LStrip(t) == t;
    }
  }

  /** Text that neither starts nor ends with whitespace is left alone by
      `strip` and `rstrip`. */
  lemma StripTrimmed(s: string)
    requires Trimmed(s)
    ensures RStrip(s) == s && Strip(s) == s
  {
  }

  /** `sep.join(parts)`. */
  function Join(parts: seq<string>, sep: string): string
  {
    if |parts| == 0 then ""
    else if |parts| == 1 then parts[0]
    else parts[0] + sep + Join(parts[1..], sep)
  }

  /** True when `sep` occurs somewhere inside `s`. */
  predicate Contains(s: string, sep: string)
    decreases |s|
  {
    |sep| <= |s| && (sep <= s || Contains(s[1..], sep))
  }

  lemma JoinHead(c: char, parts: seq<string>, sep: string)
    requires |parts| > 0
    ensures Join([[c] + parts[0]] + parts[1..], sep) == [c] + Join(parts, sep)
  {
    var ps := [[c] + parts[0]] + parts[1..];
    if |parts| > 1 {
      assert ps[1..] == parts[1..];
    }
  }

  lemma JoinStartsWithHead(parts: seq<string>, sep: string)
    requires |parts| > 0
    ensures parts[0] <= Join(parts, sep)
  {
  }

  lemma ContainsHead(c: char, x: string, sep: string)
    requires |sep| > 0
    requires !(sep <= [c] + x) && !Contains(x, sep)
    ensures !Contains([c] + x, sep)
  {
    assert ([c] + x)[1..] == x;
  }

  /** `s.split(sep)` for a non-empty separator: cut at every occurrence of
      `sep`, scanning left to right, keeping empty pieces. The pieces joined
      with `sep` give back `s` (and by `SplitPiecesFree` no piece contains
      `sep`). */
  function Split(s: string, sep: string): (r: seq<string>)
    requires |sep| > 0
    ensures |r| > 0
    ensures Join(r, sep) == s
    decreases |s|
  {
    if |s| == 0 then
      [""]
    else if sep <= s then
      var rest := Split(s[|sep|..], sep);
      SplitSepJoin(s, sep, rest);
      [""] + rest
    else
      var rest := Split(s[1..], sep);
      SplitCharJoin(s, sep, rest);
      [[s[0]] + rest[0]] + rest[1..]
  }

  lemma SplitSepJoin(s: string, sep: string, rest: seq<string>)
    requires |sep| > 0 && sep <= s && |rest| > 0 && Join(rest, sep) == s[|sep|..]
    ensures Join([""] + rest, sep) == s
  {
    JoinEmptyHead(rest, sep);
    assert s == sep + s[|sep|..];
  }

  lemma JoinEmptyHead(rest: seq<string>, sep: string)
    requires |rest| > 0
    ensures Join([""] + rest, sep) == sep + Join(rest, sep)
  {
    var ps := [""] + rest;
    assert ps[1..] == rest;
    EmptyPrefix(sep + Join(rest, sep));
  }

  lemma EmptyPrefix<T>(a: seq<T>)
    ensures [] + a == a
  {
  }

  lemma SplitCharJoin(s: string, sep: string, rest: seq<string>)
    requires |s| > 0 && |rest| > 0 && Join(rest, sep) == s[1..]
    ensures Join([[s[0]] + rest[0]] + rest[1..], sep) == s
  {
    JoinHead(s[0], rest, sep);
    assert s == [s[0]] + s[1..];
  }

  /** No piece `Split` cuts out contains the separator. */
  lemma {:induction false} SplitPiecesFree(s: string, sep: string)
    requires |sep| > 0
    ensures forall k :: 0 <= k < |Split(s, sep)| ==> !Contains(Split(s, sep)[k], sep)
    decreases |s|
  {
    var r := Split(s, sep);
    if |s| > 0 && sep <= s {
      var rest := Split(s[|sep|..], sep);
      SplitPiecesFree(s[|sep|..], sep);
      forall k | 0 <= k < |r|
        ensures !Contains(r[k], sep)
      {
        if k > 0 {
          assert r[k] == rest[k - 1];
        }
      }
    } else if |s| > 0 {
      var rest := Split(s[1..], sep);
      SplitPiecesFree(s[1..], sep);
      var head := [s[0]] + rest[0];
      JoinHead(s[0], rest, sep);
      assert s == [s[0]] + s[1..];
      JoinStartsWithHead(rest, sep);
      assert head <= s;
      ContainsHead(s[0], rest[0], sep);
      forall k | 0 <= k < |r|
        ensures !Contains(r[k], sep)
      {
        if k > 0 {
          assert r[k] == rest[k];
        }
      }
    }
  }

  /** A piece free of the separator's first character and followed by the
      separator is cut off as one piece. */
  lemma {:induction false} SplitPieceThenSep(p: string, sep: string, rest: string)
    requires |sep| > 0
    requires forall i :: 0 <= i < |p| ==> p[i] != sep[0]
    ensures Split(p + sep + rest, sep) == [p] + Split(rest, sep)
    decreases |p|
  {
    var s := p + sep + rest;
    if |p| == 0 {
      assert s == sep + rest;
      assert s[|sep|..] == rest;
    } else {
      assert s[1..] == p[1..] + sep + rest;
      assert s[0] != sep[0];
      assert !(sep <= s);
      SplitPieceThenSep(p[1..], sep, rest);
      var r := Split(s[1..], sep);
      assert r[0] == p[1..] && r[1..] == Split(rest, sep);
      assert [s[0]] + p[1..] == p;
    }
  }

  /** Text free of the separator's first character is one piece. */
  lemma {:induction false} SplitWhole(p: string, sep: string)
    requires |sep| > 0
    requires forall i :: 0 <= i < |p| ==> p[i] != sep[0]
    ensures Split(p, sep) == [p]
    decreases |p|
  {
    if |p| > 0 {
      assert p[0] != sep[0];
      assert !(sep <= p);
      SplitWhole(p[1..], sep);
      assert [p[0]] + p[1..] == p;
    }
  }

  /** Splitting undoes joining when no piece holds the separator's first
      character. */
  lemma {:induction false} SplitJoin(parts: seq<string>, sep: string)
    requires |sep| > 0 && |parts| > 0
    requires forall k, i :: 0 <= k < |parts| && 0 <= i < |parts[k]| ==> parts[k][i] != sep[0]
    ensures Split(Join(parts, sep), sep) == parts
  {
    if |parts| == 1 {
      SplitWhole(parts[0], sep);
    } else {
      SplitPieceThenSep(parts[0], sep, Join(parts[1..], sep));
      SplitJoin(parts[1..], sep);
      assert [parts[0]] + parts[1..] == parts;
    }
  }

  /** `Split` on a one-character separator at a leading separator. */
  lemma SplitSepHead(z: string, c: char)
    requires |z| > 0 && z[0] == c
    ensures Split(z, [c]) == [""] + Split(z[1..], [c])
  {
    assert [c] <= z;
  }

  /** `Split` on a one-character separator at any other leading
      character. */
  lemma SplitCharHead(h: char, t: string, c: char)
    requires h != c
    ensures Split([h] + t, [c]) == [[h] + Split(t, [c])[0]] + Split(t, [c])[1..]
  {
    var z := [h] + t;
    assert z[0] == h && z[1..] == t;
    assert !([c] <= z);
  }

  /** The step of `SplitAtSeparator` when the first half starts with the
      separator. */
  lemma SplitAtSeparatorSepHead(x: string, c: char, y: string)
    requires |x| > 0 && x[0] == c
    requires Split(x[1..] + [c] + y, [c]) == Split(x[1..], [c]) + Split(y, [c])
    ensures Split(x + [c] + y, [c]) == Split(x, [c]) + Split(y, [c])
  {
    var t := x[1..];
    assert x == [c] + t;
    assert x + [c] + y == [c] + (t + [c] + y);
    SplitSepCons(t + [c] + y, c);
    SplitSepCons(t, c);
    ConsAssoc("", Split(t, [c]), Split(y, [c]));
  }

  lemma SplitSepCons(t: string, c: char)
    ensures Split([c] + t, [c]) == [""] + Split(t, [c])
  {
    var z := [c] + t;
    assert z[1..] == t;
    SplitSepHead(z, c);
  }

  lemma ConsAssoc<T>(h: T, a: seq<T>, b: seq<T>)
    ensures [h] + (a + b) == ([h] + a) + b
  {
  }

  /** The step of `SplitAtSeparator` when the first half starts with
      another character. */
  lemma SplitAtSeparatorCharHead(x: string, c: char, y: string)
    requires |x| > 0 && x[0] != c
    requires Split(x[1..] + [c] + y, [c]) == Split(x[1..], [c]) + Split(y, [c])
    ensures Split(x + [c] + y, [c]) == Split(x, [c]) + Split(y, [c])
  {
    var h, t := x[0], x[1..];
    assert x == [h] + t;
    assert x + [c] + y == [h] + (t + [c] + y);
    SplitCharHead(h, t + [c] + y, c);
    SplitCharHead(h, t, c);
    HeadMerge([h], Split(t, [c]), Split(y, [c]));
  }

  /** With a one-character separator, a separator occurrence cuts the text
      into two independently split halves. */
  lemma {:induction false} SplitAtSeparator(x: string, c: char, y: string)
    ensures Split(x + [c] + y, [c]) == Split(x, [c]) + Split(y, [c])
    decreases |x|
  {
    if |x| == 0 {
      var s := x + [c] + y;
      assert s[0] == c && s[1..] == y;
      SplitSepHead(s, c);
    } else {
      SplitAtSeparator(x[1..], c, y);
      if x[0] == c {
        SplitAtSeparatorSepHead(x, c, y);
      } else {
        SplitAtSeparatorCharHead(x, c, y);
      }
    }
  }

  /** `s.split()` without arguments: the maximal runs of non-whitespace
      characters, in order. */
  function Words(s: string): (r: seq<string>)
    ensures forall k :: 0 <= k < |r| ==> |r[k]| > 0 && NoSpace(r[k])
    ensures |s| > 0 && !IsSpace(s[0]) ==> |r| > 0 && r[0][0] == s[0]
    decreases |s|
  {
    if |s| == 0 then []
    else
      var rest := Words(s[1..]);
      if IsSpace(s[0]) then rest
      else if |s| > 1 && !IsSpace(s[1]) then [[s[0]] + rest[0]] + rest[1..]
      else [[s[0]]] + rest
  }

  /** `Words` after a leading whitespace character. */
  lemma WordsSpaceHead(x: string)
    requires |x| > 0 && IsSpace(x[0])
    ensures Words(x) == Words(x[1..])
  {
  }

  /** `Words` when the first word goes on past the first character. */
  lemma WordsWordHead(x: string)
    requires |x| > 1 && !IsSpace(x[0]) && !IsSpace(x[1])
    ensures |Words(x[1..])| > 0
    ensures Words(x) == [[x[0]] + Words(x[1..])[0]] + Words(x[1..])[1..]
  {
  }

  /** `Words` when the first character is a word on its own. */
  lemma WordsCharHead(x: string)
    requires |x| > 1 && !IsSpace(x[0]) && IsSpace(x[1])
    ensures Words(x) == [[x[0]]] + Words(x[1..])
  {
  }

  lemma WordsAppendSpaceHead(a: string, b: string)
    requires |a| > 1 && IsSpace(a[0])
    requires Words(a[1..] + b) == Words(a[1..]) + Words(b)
    ensures Words(a + b) == Words(a) + Words(b)
  {
    var s := a + b;
    assert s[0] == a[0];
    assert s[1..] == a[1..] + b;
    WordsSpaceHead(s);
    WordsSpaceHead(a);
  }

  lemma WordsAppendCharHead(a: string, b: string)
    requires |a| > 1 && !IsSpace(a[0]) && IsSpace(a[1])
    requires Words(a[1..] + b) == Words(a[1..]) + Words(b)
    ensures Words(a + b) == Words(a) + Words(b)
  {
    var s := a + b;
    assert s[0] == a[0] && s[1] == a[1];
    assert s[1..] == a[1..] + b;
    WordsCharHead(s);
    WordsCharHead(a);
  }

  /** Gluing a prefix onto the first word commutes with appending. */
  lemma HeadMerge(h: string, tail: seq<string>, wb: seq<string>)
    requires |tail| > 0
    ensures (tail + wb)[0] == tail[0]
    ensures [h + (tail + wb)[0]] + (tail + wb)[1..] == ([h + tail[0]] + tail[1..]) + wb
  {
    assert (tail + wb)[1..] == tail[1..] + wb;
  }

  lemma WordsAppendWordHead(a: string, b: string)
    requires |a| > 1 && !IsSpace(a[0]) && !IsSpace(a[1])
    requires Words(a[1..] + b) == Words(a[1..]) + Words(b)
    ensures Words(a + b) == Words(a) + Words(b)
  {
    var s := a + b;
    assert s[0] == a[0] && s[1] == a[1];
    assert s[1..] == a[1..] + b;
    WordsWordHead(s);
    WordsWordHead(a);
    HeadMerge([a[0]], Words(a[1..]), Words(b));
  }

  /** The step of `WordsAppend` for a first part of two or more
      characters. */
  lemma WordsAppendStep(a: string, b: string)
    requires |a| > 1
    requires Words(a[1..] + b) == Words(a[1..]) + Words(b)
    ensures Words(a + b) == Words(a) + Words(b)
  {
    if IsSpace(a[0]) {
      WordsAppendSpaceHead(a, b);
    } else if IsSpace(a[1]) {
      WordsAppendCharHead(a, b);
    } else {
      WordsAppendWordHead(a, b);
    }
  }

  /** The step of `WordsAppend` for a first part of one character. */
  lemma WordsAppendSingle(a: string, b: string)
    requires |a| == 1 && |b| > 0 && (IsSpace(a[0]) || IsSpace(b[0]))
    ensures Words(a + b) == Words(a) + Words(b)
  {
    var s := a + b;
    assert s[0] == a[0] && s[1] == b[0];
    assert s[1..] == b;
    if IsSpace(a[0]) {
      WordsSpaceHead(s);
      WordsSpaceHead(a);
      assert Words(a[1..]) == [];
    } else {
      WordsCharHead(s);
      WordsOfWord(a);
      assert [a[0]] == a;
    }
  }

  /** Whitespace on either side of a boundary separates words. */
  lemma {:induction false} WordsAppend(a: string, b: string)
    requires |a| == 0 || |b| == 0 || IsSpace(a[|a| - 1]) || IsSpace(b[0])
    ensures Words(a + b) == Words(a) + Words(b)
    decreases |a|
  {
    if |a| == 0 {
      assert a + b == b;
    } else if |b| == 0 {
      assert a + b == a;
    } else if |a| == 1 {
      WordsAppendSingle(a, b);
    } else {
      WordsAppend(a[1..], b);
      WordsAppendStep(a, b);
    }
  }

  lemma {:induction false} WordsOfSpace(s: string)
    requires AllSpace(s)
    ensures Words(s) == []
    decreases |s|
  {
    if |s| > 0 {
      WordsOfSpace(s[1..]);
    }
  }

  lemma {:induction false} WordsOfWord(s: string)
    requires |s| > 0 && NoSpace(s)
    ensures Words(s) == [s]
    decreases |s|
  {
    if |s| > 1 {
      WordsOfWord(s[1..]);
      assert !IsSpace(s[1]);
      assert [s[0]] + s[1..] == s;
    } else {
      assert Words(s[1..]) == [];
      assert s == [s[0]];
    }
  }

  /** A single word with whitespace margins splits to its stripped form. */
  lemma WordsOfPadded(s: string)
    requires Strip(s) != [] && NoSpace(Strip(s))
    ensures Words(s) == [Strip(s)]
  {
    var t := Strip(s);
    WordsOfWord(t);
    WordsOfStrip(s);
  }

  /** Stripping never changes the words of a line. */
  lemma WordsOfStrip(s: string)
    ensures Words(Strip(s)) == Words(s)
  {
    var lead := StripMargins(s);
    var t := Strip(s);
    WordsOfMargins(s[..lead], t, s[lead + |t|..]);
  }

  lemma WordsOfMargins(left: string, t: string, right: string)
    requires AllSpace(left) && AllSpace(right)
    ensures Words(left + t + right) == Words(t)
  {
    var tr := t + right;
    assert left + t + right == left + tr;
    WordsOfSpace(left);
    WordsOfSpace(right);
    WordsAppend(t, right);
    WordsAppend(left, tr);
  }

  /** A line is blank after stripping exactly when it has no words. */
  lemma BlankIffNoWords(s: string)
    ensures Strip(s) == [] <==> Words(s) == []
  {
    WordsOfStrip(s);
    StripEmpty(s);
    if Strip(s) == [] {
      WordsOfSpace(s);
    } else {
      var t := Strip(s);
      assert |Words(t)| > 0;
    }
  }

  /** The text file lines as `Lines` describes them. */
  predicate LineShaped(r: seq<string>) {
    && (forall k :: 0 <= k < |r| ==> |r[k]| > 0)
    && (forall k :: 0 <= k < |r| - 1 ==> r[k][|r[k]| - 1] == '\n')
    && (forall k, i :: 0 <= k < |r| && 0 <= i < |r[k]| - 1 ==> r[k][i] != '\n')
  }

  /** Iterating a text file: the lines, each keeping its '\n' terminator;
      only the last line may lack one. */
  function Lines(text: string): (r: seq<string>)
    ensures Concat(r) == text
    ensures LineShaped(r)
    decreases |text|
  {
    if |text| == 0 then []
    else
      var rest := Lines(text[1..]);
      if text[0] == '\n' || |rest| == 0 then
        LinesNewPiece(text, rest);
        [[text[0]]] + rest
      else
        LinesExtendPiece(text, rest);
        [[text[0]] + rest[0]] + rest[1..]
  }

  lemma LinesNewPiece(text: string, rest: seq<string>)
    requires |text| > 0 && Concat(rest) == text[1..]
    requires LineShaped(rest) && (text[0] == '\n' || |rest| == 0)
    ensures LineShaped([[text[0]]] + rest)
    ensures Concat([[text[0]]] + rest) == text
  {
    ConcatCons([text[0]], rest);
    NewHeadShaped(text[0], rest);
    assert text == [text[0]] + text[1..];
  }

  lemma NewHeadShaped(c: char, rest: seq<string>)
    requires LineShaped(rest) && (c == '\n' || |rest| == 0)
    ensures LineShaped([[c]] + rest)
  {
    var r := [[c]] + rest;
    forall k | 0 < k < |r|
      ensures r[k] == rest[k - 1]
    {
    }
  }

  lemma LinesExtendPiece(text: string, rest: seq<string>)
    requires |text| > 0 && Concat(rest) == text[1..]
    requires LineShaped(rest) && text[0] != '\n' && |rest| > 0
    ensures LineShaped([[text[0]] + rest[0]] + rest[1..])
    ensures Concat([[text[0]] + rest[0]] + rest[1..]) == text
  {
    ExtendedHeadConcat(text[0], rest);
    ExtendedHeadShaped(text[0], rest);
    assert text == [text[0]] + text[1..];
  }

  lemma ExtendedHeadConcat(c: char, rest: seq<string>)
    requires |rest| > 0
    ensures Concat([[c] + rest[0]] + rest[1..]) == [c] + Concat(rest)
  {
    var p, tail := rest[0], rest[1..];
    assert rest == [p] + tail;
    ConcatCons([c] + p, tail);
    ConcatCons(p, tail);
    AppendAssoc([c], p, Concat(tail));
  }

  lemma AppendAssoc<T>(a: seq<T>, b: seq<T>, d: seq<T>)
    ensures a + (b + d) == (a + b) + d
  {
  }

  lemma ConcatCons(p: string, ps: seq<string>)
    ensures Concat([p] + ps) == p + Concat(ps)
  {
    assert ([p] + ps)[1..] == ps;
  }

  lemma ExtendedHeadShaped(c: char, rest: seq<string>)
    requires LineShaped(rest) && c != '\n' && |rest| > 0
    ensures LineShaped([[c] + rest[0]] + rest[1..])
  {
    var head := [c] + rest[0];
    var r := [head] + rest[1..];
    assert head[|head| - 1] == rest[0][|rest[0]| - 1];
    forall i | 0 <= i < |head| - 1
      ensures head[i] != '\n'
    {
      if i > 0 {
        assert head[i] == rest[0][i - 1];
      }
    }
    forall k | 0 < k < |r|
      ensures r[k] == rest[k]
    {
    }
  }

  function Concat(parts: seq<string>): string
  {
    if |parts| == 0 then "" else parts[0] + Concat(parts[1..])
  }

  /** The non-blank lines of a file after `strip`, in file order: what both
      the loader and the statistics script keep. */
  function NonBlank(lines: seq<string>): (r: seq<string>)
    ensures |r| <= |lines|
    ensures forall k :: 0 <= k < |r| ==> r[k] != [] && Trimmed(r[k])
  {
    if |lines| == 0 then []
    else
      var t := Strip(lines[0]);
      if t == [] then NonBlank(lines[1..]) else [t] + NonBlank(lines[1..])
  }

  /** Lines terminated only at their end keep no terminator once stripped. */
  lemma {:induction false} NonBlankDropsTerminators(lines: seq<string>)
    requires forall k, i :: 0 <= k < |lines| && 0 <= i < |lines[k]| - 1 ==> lines[k][i] != '\n'
    ensures forall k, i :: 0 <= k < |NonBlank(lines)| && 0 <= i < |NonBlank(lines)[k]| ==> NonBlank(lines)[k][i] != '\n'
    decreases |lines|
  {
    if |lines| > 0 {
      var tail := lines[1..];
      assert forall k :: 0 <= k < |tail| ==> tail[k] == lines[k + 1];
      NonBlankDropsTerminators(tail);
      StripDropsTerminator(lines[0]);
    }
  }

  lemma {:induction false} NonBlankAppend(a: seq<string>, b: seq<string>)
    ensures NonBlank(a + b) == NonBlank(a) + NonBlank(b)
    decreases |a|
  {
    if |a| == 0 {
      assert a + b == b;
    } else {
      assert (a + b)[1..] == a[1..] + b;
      NonBlankAppend(a[1..], b);
    }
  }

  /** Blank lines contribute nothing to the kept lines. */
  lemma NonBlankSkipsBlank(before: seq<string>, blank: string, after: seq<string>)
    requires AllSpace(blank)
    ensures NonBlank(before + [blank] + after) == NonBlank(before + after)
  {
    StripEmpty(blank);
    NonBlankAppend(before + [blank], after);
    NonBlankAppend(before, [blank]);
    NonBlankAppend(before, after);
    assert NonBlank([blank]) == [];
  }

  lemma RemoveAt<T>(s: seq<T>, j: nat)
    requires j < |s|
    ensures s == s[..j] + [s[j]] + s[j + 1..]
    ensures multiset(s[..j] + s[j + 1..]) == multiset(s) - multiset{s[j]}
  {
    assert s == s[..j] + [s[j]] + s[j + 1..];
    assert multiset(s) == multiset(s[..j]) + multiset{s[j]} + multiset(s[j + 1..]);
  }

  /** Taking one line out of a file takes its kept line, if any, out of
      the kept lines. */
  lemma NonBlankRemove(b: seq<string>, j: nat)
    requires j < |b|
    ensures multiset(NonBlank(b)) == multiset(NonBlank([b[j]])) + multiset(NonBlank(b[..j] + b[j + 1..]))
  {
    var x, m, y := b[..j], [b[j]], b[j + 1..];
    RemoveAt(b, j);
    NonBlankOfThree(x, m, y);
    assert NonBlank(b) == NonBlank(x + m + y);
  }

  lemma NonBlankOfThree(x: seq<string>, m: seq<string>, y: seq<string>)
    ensures multiset(NonBlank(x + m + y)) == multiset(NonBlank(m)) + multiset(NonBlank(x + y))
  {
    NonBlankAppend(x + m, y);
    NonBlankAppend(x, m);
    NonBlankAppend(x, y);
    MultisetOfThree(NonBlank(x), NonBlank(m), NonBlank(y));
  }

  lemma MultisetOfThree<T>(x: seq<T>, m: seq<T>, y: seq<T>)
    ensures multiset(x + m + y) == multiset(m) + multiset(x + y)
  {
    assert multiset(x + m + y) == multiset(x + m) + multiset(y);
    assert multiset(x + y) == multiset(x) + multiset(y);
  }

  /** Reordering the lines reorders the kept lines: the kept lines of two
      permutations of each other are permutations of each other. */
  lemma {:induction false} NonBlankPermutation(a: seq<string>, b: seq<string>)
    requires multiset(a) == multiset(b)
    ensures multiset(NonBlank(a)) == multiset(NonBlank(b))
    decreases |a|
  {
    if |a| > 0 {
      var x := a[0];
      assert x in multiset(b);
      var j :| 0 <= j < |b| && b[j] == x;
      var ra, rb := a[..0] + a[1..], b[..j] + b[j + 1..];
      assert ra == a[1..];
      RemoveAt(b, j);
      RemoveAt(a, 0);
      NonBlankPermutation(ra, rb);
      NonBlankRemove(a, 0);
      NonBlankRemove(b, j);
    }
  }

  /** A line that is not blank is kept, stripped. */
  lemma NonBlankKeeps(lines: seq<string>, k: nat) returns (j: nat)
    requires k < |lines| && Strip(lines[k]) != []
    ensures j < |NonBlank(lines)| && NonBlank(lines)[j] == Strip(lines[k])
  {
    var before := lines[..k];
    var after := lines[k + 1..];
    assert lines == before + [lines[k]] + after;
    NonBlankAppend(before + [lines[k]], after);
    NonBlankAppend(before, [lines[k]]);
    j := |NonBlank(before)|;
  }

  /** `os.path.basename` on a POSIX path: what follows the last '/'. */
  function Basename(path: string): (r: string)
    ensures '/' !in r
    ensures |r| <= |path|
  {
    if |path| == 0 || path[|path| - 1] == '/' then ""
    else Basename(path[..|path| - 1]) + [path[|path| - 1]]
  }

  /** The base name is the longest '/'-free suffix of the path. */
  lemma {:induction false} BasenameIsLastComponent(path: string)
    ensures Basename(path) == path[|path| - |Basename(path)|..]
    ensures |Basename(path)| < |path| ==> path[|path| - |Basename(path)| - 1] == '/'
    decreases |path|
  {
    if |path| > 0 && path[|path| - 1] != '/' {
      var p := path[..|path| - 1];
      BasenameIsLastComponent(p);
      var b := Basename(p);
      var k := |path| - |b| - 1;
      assert Basename(path) == b + [path[|path| - 1]];
      assert path[k..] == path[k..|path| - 1] + [path[|path| - 1]];
      assert path[k..|path| - 1] == p[|p| - |b|..];
      if |b| < |p| {
        assert path[k - 1] == p[|p| - |b| - 1];
      }
    }
  }

  /** The last component of `dir/file` is `file` when `file` holds no slash. */
  lemma {:induction false} BasenameAfterSlash(dir: string, file: string)
    requires '/' !in file
    ensures Basename(dir + "/" + file) == file
    decreases |file|
  {
    var path := dir + "/" + file;
    if |file| > 0 {
      var init := file[..|file| - 1];
      assert path[..|path| - 1] == dir + "/" + init;
      BasenameAfterSlash(dir, init);
      assert file == init + [file[|file| - 1]];
    }
  }
}
