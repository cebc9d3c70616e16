# Frequent itemset miner: loader, result checker and dataset statistics

A Dafny model of the text-handling core of the LINGI2364 frequent itemset
mining project (Python). The project ships a miner skeleton whose mining
functions are stubs. So the behaviour it actually defines lies in the code around them:

- **Transaction loader** (`Dataset` in `frequent_itemset_miner.py`). It reads
  a dataset file line by line, strips each line, skips blank ones and splits
  the rest on single spaces. It converts every token with `int` and records
  the transactions and the set of distinct items. It answers `trans_num`,
  `items_num` and `get_transaction`.
- **Output format.** One mined itemset per line, as
  `[<item 1>, <item 2>, ... <item k>] (<frequency>)`, with the items in order.
- **Result checker** (`smart_checker.py`). It reads a result file,
  recognises each line with the regular expression
  `\[((?:\d+,? ?)+)\] *(\(\d.\d+\))`, and collects the sorted itemsets. It
  rejects the file when a line has the wrong format. It compares an
  expected and an actual file as sets and reports what was missed and what
  is in excess (at most ten of each). It chooses the file pairs to compare
  from a fixed table of datasets and minimum frequencies.
- **Dataset statistics** (`process_dataset` in `datasets_info.py`). It counts
  the non-blank lines and the distinct items of a dataset file and reports
  them with the file's base name.

## Files and modules

- `wrappers.dfy`, module `Wrappers`: `Option` and `Result`.
- `ints.dfy`, module `Ints`: Python's `int(str)` and `str(int)`. `int`
  skips its own margin set: ASCII whitespace and non-ASCII whitespace, but
  not U+001C..U+001F, which `strip` removes. It then reads an optional
  sign and ASCII digit groups joined by single underscores. A rejected
  literal is a `ValueError` carrying the text.
- `text.dfy`, module `Text`: `strip`/`rstrip`/`lstrip` over CPython's
  whitespace set, `split(sep)`, `split()`, `join` and `os.path.basename`.
  It also models iteration of a text file by lines, which keeps each '\n'.
- `sorting.dfy`, module `Sorting`: `sorted` on integer lists.
- `miner.dfy`, module `Miner`: the `Dataset` loader, its queries and the
  output line format.
- `checker.dfy`, module `Checker`:
  - the pattern regex, as a character-class scan plus a small automaton for
    group 1, proved equal to a declarative reading of the regex;
  - `re.search` as the leftmost match;
  - line parsing and the three outcomes of reading a file;
  - the comparison, the report and the dispatch on the dataset name.
- `datasetinfo.dfy`, module `DatasetInfo`: `process_dataset`.
- `agreement.dfy`, module `Agreement`: how the three parts relate.
  - Lines written in the documented format read back, in the checker, as
    their sorted itemsets.
  - Lines the checker rejects.
  - Both scripts agree on every file the loader accepts.
  - A file on which they part ways.

Files are modelled as the sequence of lines Python's file iteration yields.
Each line keeps its '\n' terminator; `Text.Lines` gives that split for a
whole text. The model keeps Python's error behaviour:
- A token `int` rejects raises a `ValueError` that nothing catches. The
  loader and `process_dataset` report it as a `Failure`.
- In the checker, an uncaught `ValueError` in a line matched by the regex
  is a `Crash`, as in the source. It ends the whole read, even when earlier
  lines were malformed. It also ends the run of comparisons: the pairs
  after it are never compared.

## Model

| member | source | states |
|---|---|---|
| Miner.Dataset.TransNum | frequent_itemset_miner.py:43-45 | `get_transaction` answers exactly the indices -n..n-1, where n = `trans_num` |
| Miner.Dataset.ItemsNum | frequent_itemset_miner.py:47-49 | for a dataset whose items are exactly those of its transactions, `items_num` is at most the number of tokens read, and zero exactly when every transaction is empty |
| Miner.ParseTransaction | frequent_itemset_miner.py:36 | a line reads as one item per piece of `split(" ")`; an empty line, or one starting or ending with a space, is never read |
| Miner.EdgeSpaceRejected | frequent_itemset_miner.py:36 | a space at either end of a line leaves an empty first or last piece, which `int` rejects |
| Miner.FormatLine | frequent_itemset_miner.py:11-13 | a formatted line starts with '[' and ends with the frequency text in parentheses; Agreement.FormatRoundTrip reads it back |
| Miner.Dataset.GetTransaction | frequent_itemset_miner.py:51-53 | Python list indexing: indices from -n to n-1 answer, a negative one counting from the end, and every other index is an IndexError |
| Miner.BuildDataset | frequent_itemset_miner.py:35-39 | succeeds iff every kept line converts; then there is one transaction per line, in order, and the item set is exactly the union of the transactions; otherwise it fails with the ValueError of the first bad line |
| Miner.Load | frequent_itemset_miner.py:27-39 | loading a file: the transactions are the non-blank stripped lines in order, `trans_num` counts them, the items are exactly those occurring in some transaction, and the first unreadable line's ValueError escapes |
| Miner.ItemsAtMostTokens | frequent_itemset_miner.py:43-49 | `items_num` never exceeds the number of tokens read, and an empty file gives 0 transactions and 0 items |
| Miner.BlankFileIsEmpty | frequent_itemset_miner.py:33-34 | a file of whitespace-only lines loads as the empty dataset |
| Miner.BlankLineSkipped | frequent_itemset_miner.py:33-34 | inserting a blank line anywhere changes neither the loaded dataset nor the error reported |
| Miner.DoubleSpaceRejected | frequent_itemset_miner.py:36 | a line with two consecutive spaces yields an empty token that `int` rejects |
| Miner.LoadRejectsDoubleSpace | frequent_itemset_miner.py:32-40 | a file holding such a line fails to load, since the IOError handler does not catch ValueError |
| Miner.KeptLinesHaveNoTerminator | frequent_itemset_miner.py:33 | lines read from a file keep their '\n', but no line that reaches `split` still holds one |
| Agreement.ItemTextsRead | frequent_itemset_miner.py:11-13 | the printed item texts, converted back with `int`, give the itemset again, item for item |
| Ints.ParseInt | frequent_itemset_miner.py:36 | `int` succeeds exactly when the text, once the margins `int` itself skips (ASCII whitespace and non-ASCII whitespace, but not U+001C..U+001F) are dropped, is a signed or unsigned digit group; then `strip` leaves a non-empty text without whitespace; whitespace-only text is rejected |
| Ints.ParseIntOfStrip | frequent_itemset_miner.py:36 | `int` reads a text exactly as it reads it with its own margins dropped |
| Ints.ReadLiteralStripped | frequent_itemset_miner.py:33-36 | when `int` reads a text, `strip` drops exactly `int`'s margins, so `int` reads the stripped text identically, and the text holds no U+001C..U+001F |
| Ints.SeparatorControlRejected | frequent_itemset_miner.py:36 | `int` rejects U+001C before a digit, although `strip` removes it and the stripped text reads as 5 |
| Text.StripOfPadded | frequent_itemset_miner.py:33 | text with no whitespace at either end, padded with whitespace on both sides, strips back to itself |
| Ints.DecimalString | frequent_itemset_miner.py:11-13 | `str(n)` is digits, with a leading '-' exactly for negatives, and `int` reads it back as n |
| Ints.ParseInts | frequent_itemset_miner.py:36 | `map(int, ...)` succeeds iff every token converts, giving the values pointwise; otherwise it fails with the first rejected token |
| Text.Strip | frequent_itemset_miner.py:33 | `strip` leaves text with no whitespace at either end |
| Text.StripMargins | frequent_itemset_miner.py:33 | `strip` removes whitespace only: the input is the result with a whitespace margin on each side |
| Text.StripEmpty | frequent_itemset_miner.py:34 | a line strips to nothing exactly when it is all whitespace |
| Text.StripIdempotent | frequent_itemset_miner.py:33-36 | stripping twice is stripping once |
| Text.Split | frequent_itemset_miner.py:36 | `split(sep)` gives at least one piece, and the pieces joined with sep give the input back |
| Text.SplitPiecesFree | frequent_itemset_miner.py:36 | no piece of `split(sep)` contains sep |
| Text.SplitJoin | smart_checker.py:55 | splitting a join of pieces that avoid the separator's first character gives those pieces back |
| Text.SplitAtSeparator | frequent_itemset_miner.py:36 | splitting at an occurrence of a one-character separator splits the two sides independently and concatenates the pieces |
| Text.Words | datasets_info.py:23 | `split()` gives non-empty, whitespace-free words, the first starting where the text does when it starts with a non-space |
| Text.WordsAppend | datasets_info.py:23 | `split()` on text joined where one side has whitespace at the joint is the concatenation of the two splits |
| Text.WordsOfStrip | datasets_info.py:21-23 | `split()` ignores surrounding whitespace |
| Text.BlankIffNoWords | datasets_info.py:22-23 | a line has no words exactly when it strips to nothing |
| Text.Lines | frequent_itemset_miner.py:33 | iterating a text by lines: the lines concatenate to the text, none is empty, each but the last ends in '\n', and '\n' occurs nowhere else |
| Text.StripDropsTerminator | frequent_itemset_miner.py:33 | a line whose only '\n' is its last character holds no '\n' once stripped |
| Text.NonBlank | frequent_itemset_miner.py:33-34 | the kept lines are non-empty and stripped |
| Text.NonBlankSkipsBlank | frequent_itemset_miner.py:34 | a blank line contributes nothing to the kept lines |
| Text.NonBlankPermutation | datasets_info.py:20-22 | reordering a file's lines reorders its kept lines |
| Text.Basename | datasets_info.py:27 | `os.path.basename` holds no '/' and is no longer than the path |
| Text.BasenameIsLastComponent | datasets_info.py:27 | the base name is what follows the last '/' |
| Sorting.Sort | smart_checker.py:55 | `sorted` returns an ordered permutation of its input |
| Sorting.SortedUnique | smart_checker.py:55 | two ordered permutations of one multiset are equal |
| Sorting.SortPermutationInvariant | smart_checker.py:55 | the sorted tuple depends only on the multiset of items |
| Checker.GroupMatchesIff | smart_checker.py:49 | the automaton for group 1 accepts exactly the language of `(?:\d+,? ?)+` |
| Checker.MatchAtIff | smart_checker.py:49 | the scan at a position finds group g exactly when the whole pattern matches there with group 1 equal to g |
| Checker.MatchAtNeedsRoom | smart_checker.py:49 | a match needs at least eight characters |
| Checker.SearchLeftmost | smart_checker.py:49 | `re.search` returns group 1 of the leftmost match |
| Checker.SearchNone | smart_checker.py:49-50 | `re.search` gives None exactly when the pattern matches nowhere |
| Checker.ParseLine | smart_checker.py:49-56 | a parsed line gives a non-empty, sorted itemset |
| Checker.TightCommaCrashes | smart_checker.py:49-55 | the pattern admits `1,2` as group 1, `split(', ')` keeps it whole, so `int` raises on the line `[1,2] (0.5)` |
| Checker.ReadLine | smart_checker.py:47-48 | only the empty line is passed over; every other line is parsed |
| Checker.Gather | smart_checker.py:44-57 | a file crashes iff some line raises, with the first raising line's error; it yields patterns iff no line fails, and the set is exactly the lines' itemsets; otherwise it reports exactly the malformed lines |
| Checker.ReadAll | smart_checker.py:46-48 | one reading per line, in order |
| Checker.ParsePatterns | smart_checker.py:43-57 | an error escapes iff some non-empty line raises, and it is the error of the first such line; the file is accepted iff every non-empty line parses, and then its set is exactly those lines' itemsets; otherwise the reported lines are exactly the non-empty lines of the wrong format |
| Checker.BlankLineRejectsFile | smart_checker.py:48-53 | a whitespace-only line is reported as having the wrong format, so the file is not accepted |
| Checker.SameLinesSamePatterns | smart_checker.py:43-57 | for an accepted file, only which lines occur matters, not their order or repetition |
| Checker.Compare | smart_checker.py:59-65 | an error escapes iff either file's reading raised, and it is the expected file's error if that one raised, the actual file's otherwise; a comparison happens iff both files are accepted; then the missed itemsets are the expected not returned, the excess are the returned not expected, and both are empty iff the sets are equal |
| Checker.CompareFiles | smart_checker.py:59-65 | an error escapes iff a non-empty line of either file raises, and it is the expected file's first such error if that file has one, the actual file's otherwise; the files are compared iff both are accepted, and then the differences are empty exactly when the two files read the same |
| Checker.CompareSwapped | smart_checker.py:64-65 | swapping the two files swaps missed and excess |
| Checker.CompareSameLines | smart_checker.py:59-67 | an accepted file compared with a reordering of its own lines shows no difference |
| Checker.ShowDifference | smart_checker.py:69-80 | a non-empty difference lists min(10, size) of its itemsets, all from the difference and in the enumeration order, together with its size |
| Checker.Summarize | smart_checker.py:66-80 | "same patterns" iff nothing is missed and nothing is in excess; otherwise the missed side and the excess side each get exactly their `ShowDifference` listing, present iff that side is non-empty |
| Checker.SameReportIffEqual | smart_checker.py:66-67 | the report says "same patterns" exactly when the two itemset sets are equal |
| Checker.Thresholds | smart_checker.py:5-41 | the known dataset names are exactly the table's keys, each with three minimum frequencies |
| Checker.RunComparisons | smart_checker.py:82-93 | "all" fails with an unbound name; an unknown name prints two lines and exits with status 1; a known name compares `solutions/sols/{name}_{f}` with `solutions/{algorithm}/{name}_{f}` for each listed frequency f, in order |
| Checker.UntilAborted | smart_checker.py:86-89 | the verdicts made are a prefix of the pairs' verdicts, none aborted but possibly the last, and the run stops early only at an abort |
| Checker.RunChecks | smart_checker.py:86-89 | the comparisons are made in order; a comparison from which an error escapes is the last one made, and otherwise every pair is compared |
| Checker.UntilAbortedPassesOver | smart_checker.py:84-86 | a run that meets no abort in its first part goes on into the second |
| Checker.UntilAbortedStopsIn | smart_checker.py:84-86 | an abort in the first part ends the run there |
| Checker.RunChecksAppend | smart_checker.py:84-86 | running two lists of pairs in a row is running the first and, unless one of its comparisons aborts, then the second |
| Checker.PairSharesFileName | smart_checker.py:88-89 | both files of a pair have the base name `{name}_{f}` |
| Checker.AvailableLineListsNames | smart_checker.py:92 | the printed list of names splits back into the known names followed by "all" |
| Checker.AllPairs | smart_checker.py:84-86 | a pair belongs to the combined run exactly when it belongs to the run of one of the listed datasets |
| Checker.RunComparisonsIntended | smart_checker.py:83-89 | the corrected dispatch never fails with an unbound name, and it agrees with the original for every name but "all" |
| Checker.AllComparesEveryDataset | smart_checker.py:83-86 | as written, "all" compares nothing; as intended, it compares the table's datasets one after another, each contributing exactly the pairs a run on its name compares (with Checker.AllPairs: exactly the pairs of all the known datasets) |
| DatasetInfo.LineItems | datasets_info.py:23 | a line reads iff every word of `split()` converts, one item per word, and a whitespace-only line reads as no items |
| DatasetInfo.Tally | datasets_info.py:19-25 | succeeds iff every kept line converts; it then counts the kept lines and collects exactly their items |
| DatasetInfo.ProcessDataset | datasets_info.py:9-28 | the summary is the file's base name, the number of distinct items and the number of non-blank lines; the first unreadable line's ValueError escapes |
| DatasetInfo.BlankLineIgnored | datasets_info.py:21-22 | inserting a blank line changes nothing |
| DatasetInfo.ReorderInvariant | datasets_info.py:16-28 | reordering a file's lines does not change its summary |
| DatasetInfo.RepeatedFile | datasets_info.py:16-28 | a file repeated twice has twice the transactions and the same distinct items |
| DatasetInfo.SameLinesSameItems | datasets_info.py:23-24 | the items depend only on which lines occur |
| Agreement.FormatLineMatches | smart_checker.py:49 | a line in the documented format, with non-negative items and a frequency such as `0.25`, matches the regex at its start, with group 1 the item list |
| Agreement.FormatRoundTrip | smart_checker.py:49-55 | the checker reads a line in the documented format, with or without its '\n', back as the sorted itemset |
| Agreement.SortedRoundTrip | frequent_itemset_miner.py:15-16 | an itemset printed in order reads back unchanged |
| Agreement.ItemOrderIrrelevant | smart_checker.py:55 | the order of the items on a line does not change what the checker reads |
| Agreement.ShortFrequencyRejected | smart_checker.py:49-53 | a frequency text under three characters, such as `1` or `.5`, puts the line in the wrong format |
| Agreement.EmptyItemsetRejected | smart_checker.py:49-53 | the empty itemset `[] (...)` is in the wrong format |
| Agreement.NegativeItemRejected | smart_checker.py:49-53 | a line showing a negative item is in the wrong format |
| Agreement.OutputLines | frequent_itemset_miner.py:11-14 | an output file is one formatted line per itemset, each ending in '\n' |
| Agreement.OutputReadBack | smart_checker.py:43-57 | a whole output file reads back as exactly the set of its sorted itemsets |
| Agreement.SameItemsetsCompareEqual | smart_checker.py:59-67 | two output files with the same itemsets, in any order and item order, compare with nothing missed and nothing in excess |
| Agreement.TransactionAgrees | datasets_info.py:23 | where the loader's `split(" ")` reads a line, `split()` reads it identically |
| Agreement.LoadAgreesWithProcess | datasets_info.py:9-28 | on a file the loader accepts, `process_dataset` succeeds with the loader's `items_num` and `trans_num` |
| Agreement.SpaceRunSeparatesReaders | datasets_info.py:23 | a line with two consecutive spaces makes the loader fail, while `process_dataset` reads it |

## Findings

| source | as written | input that shows it | evidently intended | confidence | as-written member | corrected member |
|---|---|---|---|---|---|---|
| smart_checker.py:83-86 | the `desc` text of the progress bar reads the loop variable `name` before the `for` binds it, so `run_comparisons("all", ...)` raises UnboundLocalError before comparing anything | dataset name "all" | compare every listed file pair of every dataset in the table, in table order | high; not executed | Checker.RunComparisons (lemma Checker.AllComparesEveryDataset) | Checker.RunComparisonsIntended |

## Left out

- The mining algorithms. The skeleton's module documentation (frequent_itemset_miner.py:5-6) asks for an Apriori and a depth-first search implementation, but `apriori` and `alternative_miner` (frequent_itemset_miner.py:94-103) only print "Not implemented". The model follows the code and has no mining step.
- The second copy of `get_patterns_from_file` and `compare_solution_files` inside `frequent_itemset_miner.py` (lines 55-92). It is the same code as the one in `smart_checker.py`, which is modelled, apart from indentation; but `frequent_itemset_miner.py` imports nothing, so that copy would raise a NameError on `re` at its first non-empty line.
- Opening files, `print`, `tqdm`, `sys.exit`, the command line and the CSV writer are left out. Files enter as their lines, and printed messages and the exit status appear as data.
- The `IOError` handler of the loader (frequent_itemset_miner.py:40-41). A missing file is I/O, and the handler itself would raise a TypeError when concatenating a string and an exception.
- The iteration order of Python sets is left out. `list(missed)` is a parameter (`Enumerates`), so the model does not say which ten itemsets are shown.
- Universal-newline translation of '\r\n' and '\r' on reading is left out; lines end in '\n'.
- Unicode digits other than ASCII (which `\d` and `int` also accept) are left out. So is the 4300-digit limit of `int`.
- The frequencies are kept as the text `str(float)` prints. The float values and the transaction paths in the dataset table are never used by the comparison.
- `process_all_datasets` and the experiment, plotting and simulation scripts are outside the core.
- Checker.RunComparisons: for "all" the model records only the UnboundLocalError outcome. Nothing the loop would do is modelled, since the loop never starts. For a known name it gives the list of file pairs; running them, with the stop at the first comparison an error escapes from, is Checker.RunChecks.
- Checker.RunChecks: a file that cannot be opened is not modelled. `read` gives every file's lines, so the FileNotFoundError that would also end the run does not occur.
- Agreement.EmptyItemsetRejected: requires that the frequency text holds no '['. A later '[' could start another match.
- Agreement.NegativeItemRejected: requires that the frequency text holds no '[', for the same reason.
- Agreement.ParseIntsOfStripped: covers only token lists that convert. On a failure, the error text of the stripped and unstripped tokens differs.
- Text.Split: states only the round trip. That no piece contains the separator is stated by Text.SplitPiecesFree.
