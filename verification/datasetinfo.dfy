/** The dataset statistics script (datasets_info.py): one pass over a
    transaction file counting its non-blank lines and its distinct items. */
module DatasetInfo {
  import opened Wrappers
  import opened Text
  import opened Ints

  /** `process_dataset`'s result: the file's base name, the number of
      distinct items and the number of transactions. */
  datatype Summary = Summary(name: string, uniqueItems: nat, transactions: nat)

  /** `map(int, line.split())` for one stripped line: its tokens are the
      maximal runs of non-whitespace, and the first token `int` rejects
      raises. */
  function LineItems(line: string): (r: Result<seq<int>, ValueError>)
    ensures r.Success? <==> forall w :: w in Words(line) ==> ParseInt(w).Some?
    ensures r.Success? ==> |r.value| == |Words(line)|
    ensures AllSpace(line) ==> r == Success([])
  {
    BlankIffNoWords(line);
    StripEmpty(line);
    ParseInts(Words(line))
  }

  /** Every counted line reads as items. */
  predicate AllRead(kept: seq<string>) {
    forall k :: 0 <= k < |kept| ==> LineItems(kept[k]).Success?
  }

  /** Line k is the first counted line whose items cannot be read. */
  predicate FirstUnreadable(kept: seq<string>, k: int) {
    && 0 <= k < |kept|
    && LineItems(kept[k]).Failure?
    && forall j :: 0 <= j < k ==> LineItems(kept[j]).Success?
  }

  /** Every item of every counted line, as a reference for `unique_items`. */
  ghost function ItemsOfLines(kept: seq<string>): set<int>
    requires AllRead(kept)
  {
    set k, i | 0 <= k < |kept| && 0 <= i < |LineItems(kept[k]).value| :: LineItems(kept[k]).value[i]
  }

  /** The running state of the loop: `unique_items` and `transaction_count`. */
  datatype Counts = Counts(items: set<int>, count: nat)

  /** The loop of `process_dataset` over the counted lines. */
  function Tally(kept: seq<string>): (r: Result<Counts, ValueError>)
    ensures r.Success? <==> AllRead(kept)
    ensures r.Success? ==> r.value.count == |kept|
    ensures r.Success? ==> r.value.items == ItemsOfLines(kept)
    ensures r.Failure? ==> exists k :: FirstUnreadable(kept, k) && LineItems(kept[k]) == Failure(r.error)
  {
    if |kept| == 0 then
      Success(Counts({}, 0))
    else
      match LineItems(kept[0])
      case Failure(e) =>
        assert FirstUnreadable(kept, 0);
        Failure(e)
      case Success(t) =>
        match Tally(kept[1..])
        case Failure(e) =>
          var k :| FirstUnreadable(kept[1..], k) && LineItems(kept[1..][k]) == Failure(e);
          FirstUnreadableShift(kept, k);
          Failure(e)
        case Success(c) =>
          TallyStep(kept, t, c.items);
          Success(Counts((set x | x in t) + c.items, c.count + 1))
  }

  lemma FirstUnreadableShift(kept: seq<string>, k: int)
    requires |kept| > 0 && LineItems(kept[0]).Success?
    requires FirstUnreadable(kept[1..], k)
    ensures FirstUnreadable(kept, k + 1) && kept[1..][k] == kept[k + 1]
  {
    forall j | 0 <= j < k + 1
      ensures LineItems(kept[j]).Success?
    {
      if j > 0 {
        assert kept[j] == kept[1..][j - 1];
      }
    }
  }

  lemma TallyStep(kept: seq<string>, t: seq<int>, rest: set<int>)
    requires |kept| > 0 && LineItems(kept[0]) == Success(t)
    requires AllRead(kept[1..]) && rest == ItemsOfLines(kept[1..])
    ensures AllRead(kept)
    ensures ItemsOfLines(kept) == (set x | x in t) + rest
  {
    forall k | 0 <= k < |kept|
      ensures LineItems(kept[k]).Success?
    {
      if k > 0 {
        assert kept[k] == kept[1..][k - 1];
      }
    }
    forall x | x in ItemsOfLines(kept)
      ensures x in t || x in rest
    {
      var k, i :| 0 <= k < |kept| && 0 <= i < |LineItems(kept[k]).value| && LineItems(kept[k]).value[i] == x;
      if k > 0 {
        assert kept[k] == kept[1..][k - 1];
      }
    }
    forall x | x in t
      ensures x in ItemsOfLines(kept)
    {
      var i :| 0 <= i < |t| && t[i] == x;
      assert LineItems(kept[0]).value[i] == x;
    }
    forall x | x in rest
      ensures x in ItemsOfLines(kept)
    {
      var k, i :| 0 <= k < |kept| - 1 && 0 <= i < |LineItems(kept[1..][k]).value| && LineItems(kept[1..][k]).value[i] == x;
      assert kept[1..][k] == kept[k + 1];
    }
  }

  /** `process_dataset(filepath)` on the lines of the file: every line blank
      after `strip` is passed over, every other one counts as a transaction
      whose whitespace-separated items join the item set, and the first
      token `int` rejects makes the call fail with that ValueError. */
  function ProcessDataset(path: string, lines: seq<string>): (r: Result<Summary, ValueError>)
    ensures r.Success? <==> AllRead(NonBlank(lines))
    ensures r.Success? ==> r.value.name == Basename(path)
    ensures r.Success? ==> r.value.transactions == |NonBlank(lines)|
    ensures r.Success? ==> r.value.uniqueItems == |ItemsOfLines(NonBlank(lines))|
    ensures r.Failure? ==> exists k :: FirstUnreadable(NonBlank(lines), k) && LineItems(NonBlank(lines)[k]) == Failure(r.error)
  {
    match Tally(NonBlank(lines))
    case Failure(e) => Failure(e)
    case Success(c) => Success(Summary(Basename(path), |c.items|, c.count))
  }

  /** Which items are counted depends only on which lines occur. */
  lemma SameLinesSameItems(a: seq<string>, b: seq<string>)
    requires AllRead(a)
    requires forall l :: l in a <==> l in b
    ensures AllRead(b) && ItemsOfLines(b) == ItemsOfLines(a)
  {
    forall k | 0 <= k < |b|
      ensures LineItems(b[k]).Success?
    {
      assert b[k] in a;
    }
    forall x | x in ItemsOfLines(a)
      ensures x in ItemsOfLines(b)
    {
      var k, i :| 0 <= k < |a| && 0 <= i < |LineItems(a[k]).value| && LineItems(a[k]).value[i] == x;
      assert a[k] in b;
      var k' :| 0 <= k' < |b| && b[k'] == a[k];
      assert LineItems(b[k']).value[i] == x;
    }
    forall x | x in ItemsOfLines(b)
      ensures x in ItemsOfLines(a)
    {
      var k, i :| 0 <= k < |b| && 0 <= i < |LineItems(b[k]).value| && LineItems(b[k]).value[i] == x;
      assert b[k] in a;
      var k' :| 0 <= k' < |a| && a[k'] == b[k];
      assert LineItems(a[k']).value[i] == x;
    }
  }

  /** Adding a blank line anywhere changes neither count nor the outcome. */
  lemma BlankLineIgnored(path: string, before: seq<string>, blank: string, after: seq<string>)
    requires AllSpace(blank)
    ensures ProcessDataset(path, before + [blank] + after) == ProcessDataset(path, before + after)
  {
    NonBlankSkipsBlank(before, blank, after);
  }

  /** Reordering the lines of a file changes neither whether it can be
      processed nor, when it can, either count. */
  lemma ReorderInvariant(path: string, a: seq<string>, b: seq<string>)
    requires multiset(a) == multiset(b)
    ensures ProcessDataset(path, a).Success? <==> ProcessDataset(path, b).Success?
    ensures ProcessDataset(path, a).Success? ==> ProcessDataset(path, b) == ProcessDataset(path, a)
  {
    NonBlankPermutation(a, b);
    var ka, kb := NonBlank(a), NonBlank(b);
    assert |ka| == |multiset(ka)| == |multiset(kb)| == |kb|;
    assert forall l :: l in ka <==> l in multiset(ka);
    assert forall l :: l in kb <==> l in multiset(kb);
    if AllRead(ka) {
      SameLinesSameItems(ka, kb);
    }
    if AllRead(kb) {
      SameLinesSameItems(kb, ka);
    }
  }

  /** Repeated items count once: a file written out twice has twice the
      transactions and the same number of distinct items. */
  lemma RepeatedFile(path: string, lines: seq<string>)
    ensures ProcessDataset(path, lines + lines).Success? <==> ProcessDataset(path, lines).Success?
    ensures ProcessDataset(path, lines).Success? ==>
      ProcessDataset(path, lines + lines).value.transactions == 2 * ProcessDataset(path, lines).value.transactions &&
      ProcessDataset(path, lines + lines).value.uniqueItems == ProcessDataset(path, lines).value.uniqueItems
  {
    NonBlankAppend(lines, lines);
    var k := NonBlank(lines);
    if AllRead(k) {
      SameLinesSameItems(k, k + k);
    }
    if AllRead(k + k) {
      forall i | 0 <= i < |k|
        ensures LineItems(k[i]).Success?
      {
        assert k[i] == (k + k)[i];
      }
    }
  }
}
