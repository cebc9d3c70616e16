/** The `Dataset` class of the miner skeleton (frequent_itemset_miner.py):
    loading a transaction file, its three queries, and the output line
    format the module documentation prescribes for mined itemsets. */
module Miner {
  import opened Wrappers
  import opened Text
  import opened Ints

  type Transaction = seq<int>

  /** What `Dataset.__init__` leaves in `self.transactions` and `self.items`. */
  datatype Dataset = Dataset(transactions: seq<Transaction>, items: set<int>) {

    /** `trans_num()`: the count of transactions, which is exactly what
        makes an index answer `get_transaction`. */
    function TransNum(): (n: nat)
      ensures forall i :: GetTransaction(i).Some? <==> -(n as int) <= i < n
    {
      |transactions|
    }

    /** The items are exactly those occurring in some transaction, as
        `__init__` builds them. */
    predicate Consistent() {
      && (forall k, x :: 0 <= k < |transactions| && x in transactions[k] ==> x in items)
      && (forall x :: x in items ==> exists k :: 0 <= k < |transactions| && x in transactions[k])
    }

    /** `items_num()`: for a dataset built by `__init__`, at most the number
        of tokens read, and zero exactly when every transaction is empty. */
    function ItemsNum(): (n: nat)
      ensures Consistent() ==> n <= TokenCount(transactions)
      ensures Consistent() ==> (n == 0 <==> forall k :: 0 <= k < |transactions| ==> transactions[k] == [])
    {
      ItemsBound(this);
      |items|
    }

    /** `get_transaction(i)`: Python list indexing, so a negative index counts
        from the end; `None` stands for the IndexError of any other index. */
    function GetTransaction(i: int): (r: Option<Transaction>)
      ensures r.Some? <==> -|transactions| <= i < |transactions|
      ensures 0 <= i < |transactions| ==> r == Some(transactions[i])
      ensures -|transactions| <= i < 0 ==> r == Some(transactions[|transactions| + i])
    {
      if 0 <= i < |transactions| then Some(transactions[i])
      else if -|transactions| <= i < 0 then Some(transactions[|transactions| + i])
      else None
    }
  }

  /** `list(map(int, line.split(" ")))` for one stripped line: one item per
      piece, and since `int` rejects the empty piece, a line that is empty or
      starts or ends with a space is never read. */
  function ParseTransaction(line: string): (r: Result<Transaction, ValueError>)
    ensures r.Success? ==> |r.value| == |Split(line, " ")|
    ensures r.Success? ==> line != [] && line[0] != ' ' && line[|line| - 1] != ' '
  {
    EdgeSpaceRejected(line);
    ParseInts(Split(line, " "))
  }

  /** An empty line, or one with a space at either end, splits into an
      empty first or last piece. */
  lemma EdgeSpaceRejected(line: string)
    ensures line == [] || line[0] == ' ' || line[|line| - 1] == ' ' ==> ParseInts(Split(line, " ")).Failure?
  {
    if line == [] {
      EmptyPieceRejected(Split(line, " "), 0);
    } else if line[0] == ' ' {
      LeadingSpacePiece(line);
      EmptyPieceRejected(Split(line, " "), 0);
    } else if line[|line| - 1] == ' ' {
      TrailingSpacePiece(line);
      EmptyPieceRejected(Split(line, " "), |Split(line, " ")| - 1);
    }
  }

  lemma LeadingSpacePiece(line: string)
    requires line != [] && line[0] == ' '
    ensures Split(line, " ")[0] == ""
  {
    assert line == [' '] + line[1..];
    SplitSepCons(line[1..], ' ');
  }

  lemma TrailingSpacePiece(line: string)
    requires line != [] && line[|line| - 1] == ' '
    ensures Split(line, " ")[|Split(line, " ")| - 1] == ""
  {
    var front := line[..|line| - 1];
    assert line == front + [' '] + "";
    SplitAtSeparator(front, ' ', "");
    assert Split("", " ") == [""];
  }

  /** `int` rejects the empty piece, so no list holding one converts. */
  lemma EmptyPieceRejected(tokens: seq<string>, j: nat)
    requires j < |tokens| && tokens[j] == ""
    ensures ParseInts(tokens).Failure?
  {
    assert ParseInt(tokens[j]).None? by {
      assert AllSpace(tokens[j]);
    }
  }

  /** Every kept line reads as a transaction. */
  predicate AllParse(kept: seq<string>) {
    forall k :: 0 <= k < |kept| ==> ParseTransaction(kept[k]).Success?
  }

  /** Line k is the first of `kept` whose transaction cannot be read. */
  predicate FirstBadLine(kept: seq<string>, k: int) {
    && 0 <= k < |kept|
    && ParseTransaction(kept[k]).Failure?
    && forall j :: 0 <= j < k ==> ParseTransaction(kept[j]).Success?
  }

  /** The loop of `Dataset.__init__` over the kept lines: one transaction
      per line, in order, and every item added to the item set. The first
      ValueError escapes, so no dataset is built. */
  function BuildDataset(kept: seq<string>): (r: Result<Dataset, ValueError>)
    ensures r.Success? <==> AllParse(kept)
    ensures r.Success? ==> |r.value.transactions| == |kept|
    ensures r.Success? ==> forall k :: 0 <= k < |kept| ==> ParseTransaction(kept[k]) == Success(r.value.transactions[k])
    ensures r.Success? ==> forall k, x :: 0 <= k < |kept| && x in r.value.transactions[k] ==> x in r.value.items
    ensures r.Success? ==> forall x :: x in r.value.items ==> exists k :: 0 <= k < |kept| && x in r.value.transactions[k]
    ensures r.Failure? ==> exists k :: FirstBadLine(kept, k) && ParseTransaction(kept[k]) == Failure(r.error)
  {
    if |kept| == 0 then
      Success(Dataset([], {}))
    else
      match ParseTransaction(kept[0])
      case Failure(e) =>
        assert FirstBadLine(kept, 0);
        Failure(e)
      case Success(t) =>
        var rest := BuildDataset(kept[1..]);
        if rest.Failure? then
          var k :| FirstBadLine(kept[1..], k) && ParseTransaction(kept[1..][k]) == Failure(rest.error);
          FirstBadLineShift(kept, k);
          Failure(rest.error)
        else
          var d := rest.value;
          var r := Dataset([t] + d.transactions, (set x | x in t) + d.items);
          BuildStepParsed(kept, t, d.transactions);
          BuildStepItemsCovered(t, d, r);
          BuildStepItemsFound(t, d, r);
          Success(r)
  }

  lemma FirstBadLineShift(kept: seq<string>, k: int)
    requires |kept| > 0 && ParseTransaction(kept[0]).Success?
    requires FirstBadLine(kept[1..], k)
    ensures FirstBadLine(kept, k + 1) && kept[1..][k] == kept[k + 1]
  {
    forall j | 0 <= j < k + 1
      ensures ParseTransaction(kept[j]).Success?
    {
      if j > 0 {
        assert kept[j] == kept[1..][j - 1];
      }
    }
  }

  lemma {:induction false} BuildStepParsed(kept: seq<string>, t: Transaction, ts: seq<Transaction>)
    requires |kept| > 0 && ParseTransaction(kept[0]) == Success(t)
    requires |ts| == |kept| - 1
    requires forall k :: 0 <= k < |kept| - 1 ==> ParseTransaction(kept[1..][k]) == Success(ts[k])
    ensures forall k :: 0 <= k < |kept| ==> ParseTransaction(kept[k]) == Success(([t] + ts)[k])
  {
    assert forall k :: 0 < k < |kept| ==> kept[k] == kept[1..][k - 1] && ([t] + ts)[k] == ts[k - 1];
  }

  lemma BuildStepItemsCovered(t: Transaction, d: Dataset, r: Dataset)
    requires forall k, x :: 0 <= k < |d.transactions| && x in d.transactions[k] ==> x in d.items
    requires r == Dataset([t] + d.transactions, (set x | x in t) + d.items)
    ensures forall k, x :: 0 <= k < |r.transactions| && x in r.transactions[k] ==> x in r.items
  {
    forall k, x | 0 <= k < |r.transactions| && x in r.transactions[k]
      ensures x in r.items
    {
      if k > 0 {
        assert r.transactions[k] == d.transactions[k - 1];
      }
    }
  }

  lemma BuildStepItemsFound(t: Transaction, d: Dataset, r: Dataset)
    requires forall x :: x in d.items ==> exists k :: 0 <= k < |d.transactions| && x in d.transactions[k]
    requires r == Dataset([t] + d.transactions, (set x | x in t) + d.items)
    ensures forall x :: x in r.items ==> exists k :: 0 <= k < |r.transactions| && x in r.transactions[k]
  {
    forall x | x in r.items
      ensures exists k :: 0 <= k < |r.transactions| && x in r.transactions[k]
    {
      if x in t {
        assert x in r.transactions[0];
      } else {
        var k :| 0 <= k < |d.transactions| && x in d.transactions[k];
        assert r.transactions[k + 1] == d.transactions[k];
      }
    }
  }

  /** `Dataset(filepath)` on the lines of the file: lines blank after
      `strip` are skipped, every other line becomes one transaction, and a
      token `int` rejects makes the whole load fail with that ValueError
      (the `IOError` handler does not catch it). */
  function Load(lines: seq<string>): (r: Result<Dataset, ValueError>)
    ensures r.Success? <==> AllParse(NonBlank(lines))
    ensures r.Success? ==> r.value.TransNum() == |NonBlank(lines)|
    ensures r.Success? ==> forall k :: 0 <= k < |NonBlank(lines)| ==>
              ParseTransaction(NonBlank(lines)[k]) == Success(r.value.transactions[k])
    ensures r.Success? ==> forall k, x :: 0 <= k < r.value.TransNum() && x in r.value.transactions[k] ==> x in r.value.items
    ensures r.Success? ==> forall x :: x in r.value.items ==> exists k :: 0 <= k < r.value.TransNum() && x in r.value.transactions[k]
    ensures r.Failure? ==> exists k :: FirstBadLine(NonBlank(lines), k) && ParseTransaction(NonBlank(lines)[k]) == Failure(r.error)
  {
    BuildDataset(NonBlank(lines))
  }

  /** Reading a file line by line keeps each '\n', but `strip` removes it
      before `split`, so no line handed to `int` carries a terminator. */
  lemma KeptLinesHaveNoTerminator(text: string)
    ensures forall k, i :: 0 <= k < |NonBlank(Lines(text))| && 0 <= i < |NonBlank(Lines(text))[k]| ==>
              NonBlank(Lines(text))[k][i] != '\n'
  {
    NonBlankDropsTerminators(Lines(text));
  }

  /** `str(item)` for every item, in order. */
  function ItemTexts(itemset: seq<int>): (r: seq<string>)
    ensures |r| == |itemset|
    ensures forall i :: 0 <= i < |itemset| ==> r[i] == DecimalString(itemset[i])
  {
    if |itemset| == 0 then [] else [DecimalString(itemset[0])] + ItemTexts(itemset[1..])
  }

  /** One output line as the module documentation prescribes:
      `[<item 1>, <item 2>, ... <item k>] (<frequency>)`, where `frequency`
      is the text the miner prints for the itemset's frequency. */
  function FormatLine(itemset: seq<int>, frequency: string): (r: string)
    ensures |r| >= |frequency| + 4
    ensures r[0] == '[' && r[|r| - 1] == ')'
    ensures r[|r| - |frequency| - 2] == '(' && r[|r| - |frequency| - 1..|r| - 1] == frequency
  {
    "[" + Join(ItemTexts(itemset), ", ") + "] (" + frequency + ")"
  }

  /** The number of tokens over all transactions. */
  function TokenCount(ts: seq<Transaction>): nat
  {
    if |ts| == 0 then 0 else |ts[0]| + TokenCount(ts[1..])
  }

  lemma {:induction false} DistinctAtMostLength(t: seq<int>)
    ensures |set x | x in t| <= |t|
    decreases |t|
  {
    if |t| > 0 {
      DistinctAtMostLength(t[1..]);
      assert (set x | x in t) == {t[0]} + (set x | x in t[1..]);
    }
  }

  /** Every item of every transaction. */
  ghost function Occurring(ts: seq<Transaction>): set<int> {
    set k, x | 0 <= k < |ts| && x in ts[k] :: x
  }

  lemma {:induction false} OccurringBound(ts: seq<Transaction>)
    ensures |Occurring(ts)| <= TokenCount(ts)
    decreases |ts|
  {
    if |ts| > 0 {
      OccurringBound(ts[1..]);
      DistinctAtMostLength(ts[0]);
      var head, tail := (set x | x in ts[0]), Occurring(ts[1..]);
      forall x | x in head
        ensures x in Occurring(ts)
      {
        assert 0 <= 0 < |ts| && x in ts[0];
      }
      forall x | x in Occurring(ts)
        ensures x in head + tail
      {
        var k :| 0 <= k < |ts| && x in ts[k];
        if k > 0 {
          assert ts[k] == ts[1..][k - 1];
        }
      }
      forall x | x in tail
        ensures x in Occurring(ts)
      {
        var k :| 0 <= k < |ts| - 1 && x in ts[1..][k];
        assert ts[1..][k] == ts[k + 1];
        assert 0 <= k + 1 < |ts| && x in ts[k + 1];
      }
      assert Occurring(ts) == head + tail;
    }
  }

  lemma HeadIsMember(t: Transaction)
    ensures t != [] ==> t[0] in t
  {
  }

  /** The bound behind `items_num()`. */
  lemma ItemsBound(d: Dataset)
    ensures d.Consistent() ==> |d.items| <= TokenCount(d.transactions)
    ensures d.Consistent() ==> (|d.items| == 0 <==> forall k :: 0 <= k < |d.transactions| ==> d.transactions[k] == [])
  {
    if d.Consistent() {
      var all := Occurring(d.transactions);
      OccurringBound(d.transactions);
      forall x | x in d.items
        ensures x in all
      {
        var k :| 0 <= k < |d.transactions| && x in d.transactions[k];
      }
      assert |all| == |d.items| + |all - d.items| by {
        assert all == d.items + (all - d.items);
      }
      if |d.items| == 0 {
        forall k | 0 <= k < |d.transactions|
          ensures d.transactions[k] == []
        {
          var t := d.transactions[k];
          assert d.items == {};
          assert forall x :: x in t ==> x in d.items;
          HeadIsMember(t);
        }
      }
      if |d.items| > 0 {
        var x :| x in d.items;
        var k :| 0 <= k < |d.transactions| && x in d.transactions[k];
        assert d.transactions[k] != [];
      }
    }
  }

  /** `items_num()` never exceeds the number of tokens read, and an empty
      file gives an empty dataset. */
  lemma ItemsAtMostTokens(lines: seq<string>)
    requires Load(lines).Success?
    ensures Load(lines).value.ItemsNum() <= TokenCount(Load(lines).value.transactions)
    ensures |lines| == 0 ==> Load(lines).value.TransNum() == 0 && Load(lines).value.ItemsNum() == 0
  {
  }

  /** A file of blank lines loads as an empty dataset. */
  lemma {:induction false} BlankFileIsEmpty(lines: seq<string>)
    requires forall i :: 0 <= i < |lines| ==> AllSpace(lines[i])
    ensures Load(lines) == Success(Dataset([], {}))
    decreases |lines|
  {
    if |lines| > 0 {
      StripEmpty(lines[0]);
      BlankFileIsEmpty(lines[1..]);
    }
  }

  /** Blank lines are skipped wherever they are: adding one changes nothing,
      not even which error a bad file reports. */
  lemma BlankLineSkipped(before: seq<string>, blank: string, after: seq<string>)
    requires AllSpace(blank)
    ensures Load(before + [blank] + after) == Load(before + after)
  {
    NonBlankSkipsBlank(before, blank, after);
  }

  /** Two consecutive spaces leave an empty token between them, which `int`
      rejects, so such a line can never be read. */
  lemma DoubleSpaceRejected(a: string, b: string)
    ensures ParseTransaction(a + "  " + b).Failure?
  {
    var sb := " " + b;
    assert a + "  " + b == a + [' '] + sb;
    assert sb == "" + [' '] + b;
    SplitAtSeparator(a, ' ', sb);
    SplitAtSeparator("", ' ', b);
    var left := Split(a, " ");
    var tokens := left + ([""] + Split(b, " "));
    assert Split(a + "  " + b, " ") == tokens;
    assert tokens[|left|] == "";
    assert ParseInt("").None?;
  }

  /** A file with a non-blank line holding two consecutive spaces fails to
      load. */
  lemma LoadRejectsDoubleSpace(lines: seq<string>, k: nat, a: string, b: string)
    requires k < |lines| && Strip(lines[k]) == a + "  " + b
    ensures Load(lines).Failure?
  {
    DoubleSpaceRejected(a, b);
    var j := NonBlankKeeps(lines, k);
    assert !AllParse(NonBlank(lines));
  }
}
