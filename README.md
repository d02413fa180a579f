# LFR community analysis — a Dafny model

This project models the file-reading and scoring core of `lfr_analysis.py`. The script compares community-detection results on LFR benchmark networks. It has four functions:

- `graph_size_from_file` reads an edge list ("a b" per line, up to a `-1` sentinel or a blank line). It returns the number of distinct node names and the number of edges.
- `true_community_helper` reads a ground-truth file ("node\tcommunity" per line). It builds two dictionaries, node → community and community → set of nodes.
- `get_true_community` looks up the set of nodes in a query node's true community.
- `LFR_error_stats` reads a proposed community from an edge list. It returns the symmetric difference with the true community, precision, recall, F1 and the proposal's size.

A file is modelled as the sequence of lines that `readlines()` returns (`Text.ReadLines` says what those are). Python exceptions are modelled as the `Failure` case of `Errors.Result`:

- `ValueError` from a tuple unpack (`UnpackError`)
- `ValueError` from an empty separator (`EmptySeparator`)
- `ValueError` from `int()` (`InvalidLiteral`)
- `KeyError`
- `ZeroDivisionError`

The three reading loops are imperative methods with `while` loops:

- `CommunityReader.GraphSizeFromFile`
- `GroundTruth.TrueCommunityHelper`
- the reading loop of `Metrics.LfrErrorStats`, which is `CommunityReader.ReadProposed`

Each method is proved equal to a specification function built on the generic `Records.Scan`: the per-line results up to the first stop line, or the first failure. The lemmas state what those functions mean:

- which lines are read
- which error is raised
- which nodes are collected
- round trips from well-formed files back to their records, e.g. `ProposedOfPairFile` and `BuildIndexOfFile`

The statistics are pure functions on sets. Python's `/` is modelled as exact real division that fails with `ZeroDivisionError` on a zero divisor; on ints Python returns an IEEE double instead (see "## Left out").

Modules:

- `Errors`: the error kinds and the `Result` type.
- `Text`: `str.strip`, `in`, `str.split`, `int()` / `str()` on decimal literals, and `readlines()`.
- `Records`: splitting a line into exactly two fields, and the scan of a line sequence up to a stop line.
- `CommunityReader`: `graph_size_from_file` and the reading half of `LFR_error_stats`.
- `GroundTruth`: `true_community_helper` and `get_true_community`.
- `Metrics`: the statistics half of `LFR_error_stats` and the whole function.

### Where the behaviour differs from the evident intent

The model follows the code as written in each of these cases.

1. **The blank-line test in `true_community_helper`.** It tests the unstripped line `i` rather than the stripped `line` (`lfr_analysis.py:40`). A blank line `"\n"` is therefore never a stop. It reaches `split("\t")` and raises `ValueError`. The `else: break` at `lfr_analysis.py:50-51` shows the intent: reading stops at the first blank line. `GroundTruth.BuildIndexToBlank` is the reader with the test on the stripped line (see "## Findings").
   - `GroundTruth.TrailingBlankLine` proves that a well-formed file followed by one blank line fails with `UnpackError`.
   - `GroundTruth.ReadsEveryLine` proves that lines from `readlines()` are never empty, so the `break` is never taken.
2. **A node listed twice in the ground truth.** `node_to_com` keeps only the last community, but the node stays in the earlier community's set in `com_to_nodes` (`lfr_analysis.py:44-48`). The two maps are exact inverses only when every node appears once.
   - `GroundTruth.DistinctExact` proves the inverse property for distinct nodes.
   - `GroundTruth.RepeatedNode` is a counterexample.
3. **A proposal that is non-empty but shares no node with the true community.** It does not score 0: precision and recall are 0 and the F1 line divides by zero (`lfr_analysis.py:100`). An empty true community divides 0 by 0 already at the recall line. Both cases are `Metrics.DisjointProposal`. `Metrics.GuardedStatsOf` is the statistics with those divisions defined as 0 (see "## Findings").
4. **Node names in `graph_size_from_file`.** Nodes are counted as strings, not integers (`lfr_analysis.py:21-22`), so `"1"` and `"01"` are two nodes. The model keeps them as strings.

## Model

| member | source | states |
|---|---|---|
| Text.StripMeaning | lfr_analysis.py:18 | `strip()` returns the slice that remains after removing the leading and trailing whitespace; it begins and ends with a non-space character or is empty |
| Text.Strip | lfr_analysis.py:18 | `str.strip()`: the whitespace of `str.isspace()` removed from both ends (its meaning is `Text.StripMeaning`) |
| Text.ContainsIff | lfr_analysis.py:19 | `sub in s` holds exactly when `sub` occurs in `s` at some offset |
| Text.Contains | lfr_analysis.py:19 | Python's `sub in s` on strings, by offsets from the left (its meaning is `Text.ContainsIff`) |
| Text.JoinSplit | lfr_analysis.py:20 | the fields of `split(sep)`, joined with `sep`, give back the string |
| Text.SplitFieldsFree | lfr_analysis.py:20 | no field of `split(sep)` contains the separator |
| Text.Split | lfr_analysis.py:20 | `str.split(sep)` for a non-empty separator: at least one field, each leftmost occurrence of `sep` ending a field |
| Text.ParseInt | lfr_analysis.py:42-43 | `int()` on a string: it skips the whitespace `int()` skips (not `\x1c`-`\x1f`), takes an optional sign and 1 to 4300 ASCII digits, and fails only with a `ValueError` for an invalid literal |
| Text.SeparatorNotSkipped | lfr_analysis.py:41-42 | `"1\x1c".strip()` is `"1"`, yet `int("1\x1c")` raises `ValueError` |
| Text.TooManyDigits | lfr_analysis.py:42-43 | a literal of more than 4300 digits makes `int()` raise `ValueError` |
| Text.ParseIntRoundTrip | lfr_analysis.py:42-43 | `int(w1 + str(n) + w2) == n` for every integer `str()` can write and any whitespace `int()` skips |
| Text.IntToString | lfr_analysis.py:42-43 | the writer `str(n)` used to state `int()`'s round trip: non-empty, only digits and `-`, no whitespace at either end |
| Text.IntToStringInjective | lfr_analysis.py:21-22 | distinct integers have distinct decimal texts |
| Text.ReadLines | lfr_analysis.py:17 | the lines of `readlines()` concatenate to the text; none is empty; every line but the last ends in `\n`; no line has an inner `\n` |
| Records.SplitPairMeaning | lfr_analysis.py:20 | `a, b = s.split(sep)` raises the empty-separator `ValueError` when `sep` is empty; otherwise it raises the unpack `ValueError` unless the split yields exactly two fields; on success `s == a + sep + b` and neither field contains `sep` |
| Records.SplitPair | lfr_analysis.py:20 | `a, b = s.split(sep)`: the empty-separator `ValueError`, otherwise the unpack of exactly two fields of `Split` (its meaning is `Records.SplitPairMeaning`) |
| Records.SplitPairComplete | lfr_analysis.py:20 | a string made of two separator-free fields around a one-character separator unpacks into exactly those fields |
| Records.IntPair | lfr_analysis.py:41-43 | `a, b = s.split(sep); a = int(a); b = int(b)`: an empty separator raises the empty-separator `ValueError` |
| Records.BlankIsNotAPair | lfr_analysis.py:41 | a line that is blank once stripped splits into one field and raises the unpack `ValueError`, with or without `int()` |
| Records.IntPairRoundTrip | lfr_analysis.py:41-43 | the line `str(a) + sep + str(b)` reads back as `(a, b)` for any separator that cannot occur in a number |
| Records.StopIndex | lfr_analysis.py:17-25 | the index of the first line that ends the loop (or the line count): no earlier line is a stop |
| Records.Scan | lfr_analysis.py:17-25 | the reading loop shared by all three readers: lines in order up to the first stop, one record per line, or the first line's exception (its meaning is `Records.ScanMeaning`) |
| Records.ScanMeaning | lfr_analysis.py:17-25 | reading succeeds exactly when every line before the first stop parses; it then holds one record per such line; otherwise the error is that of the first line that fails |
| Records.ScanEnds | lfr_analysis.py:21-22 | the set of pair ends collected over a successful read is the union of both ends of every line read |
| Records.PairSetMembers | lfr_analysis.py:21-22 | `x` is among the collected nodes exactly when it is an end of some pair |
| CommunityReader.GraphSize | lfr_analysis.py:13-27 | the edge count is the number of lines before the first stop line; the node count is no more than twice the edge count |
| CommunityReader.SizeStop | lfr_analysis.py:18-19 | `graph_size_from_file` leaves the loop at a stripped line that contains `-1` or is empty |
| CommunityReader.SizeRecord | lfr_analysis.py:18-20 | the stripped line split on the given separator into two node names |
| CommunityReader.GraphSizeFromFile | lfr_analysis.py:13-27 | the reading loop returns exactly the result of `GraphSize`, including its exceptions |
| CommunityReader.GraphSizeMeaning | lfr_analysis.py:17-27 | `graph_size_from_file` succeeds exactly when every line before the stop unpacks; it then returns the number of distinct names at those lines' ends and the number of lines; otherwise the error is the split's `ValueError` |
| CommunityReader.ProposedCommunity | lfr_analysis.py:74-84 | the proposed community has at most twice as many nodes as lines read |
| CommunityReader.ProposedStop | lfr_analysis.py:77 | `LFR_error_stats` leaves the loop at a raw line that contains `-1` |
| CommunityReader.ProposedRecord | lfr_analysis.py:78-80 | the stripped line split on one space, both fields read with `int()` |
| CommunityReader.ReadProposed | lfr_analysis.py:74-84 | the reading loop of `LFR_error_stats` returns exactly the result of `ProposedCommunity` |
| CommunityReader.ProposedCommunityMeaning | lfr_analysis.py:76-84 | reading the proposal succeeds exactly when every line before the first `-1` line is two integers around one space; the community is then the set of their ends; otherwise the first bad line's `ValueError` is raised |
| CommunityReader.EdgeLineRead | lfr_analysis.py:18-20 | an edge line `"a b\n"` with non-negative ends stops neither reader, parses to `(a, b)` and splits into the names `str(a)` and `str(b)` |
| CommunityReader.SentinelStops | lfr_analysis.py:19 | the sentinel line `"-1\n"` ends both edge-list readers |
| CommunityReader.ProposedOfPairFile | lfr_analysis.py:73-84 | a file of non-negative edges that ends in `-1` reads back as the set of the edges' endpoints |
| CommunityReader.SizeOfPairFile | lfr_analysis.py:13-27 | such a file has as many edges as lines before `-1` and as many nodes as distinct endpoints |
| CommunityReader.NamesCount | lfr_analysis.py:21-27 | the distinct decimal names of the endpoints are as many as the distinct endpoints |
| GroundTruth.BuildIndex | lfr_analysis.py:34-53 | a successful read yields consistent maps: each node's community lists the node; every community is non-empty and holds only known nodes |
| GroundTruth.TruthStop | lfr_analysis.py:40 | `true_community_helper` leaves the loop only at a raw line that is empty |
| GroundTruth.TruthRecord | lfr_analysis.py:39-43 | the stripped line split on a tab, node and community read with `int()` |
| GroundTruth.Assign | lfr_analysis.py:44-48 | one record `(a, b)`: `node_to_com[a] = b`, and `a` added to `com_to_nodes[b]`, which is created when missing |
| GroundTruth.ApplyAll | lfr_analysis.py:38-48 | the records applied in file order to empty dictionaries |
| GroundTruth.TrueCommunityHelper | lfr_analysis.py:34-53 | the reading loop returns exactly the result of `BuildIndex`, including its exceptions |
| GroundTruth.ApplyAllConsistent | lfr_analysis.py:44-48 | the dictionary updates of each record keep the two maps consistent |
| GroundTruth.ApplyAllMeaning | lfr_analysis.py:44-48 | after the records are read, the node keys are the nodes seen, the community keys are the communities seen, and each community maps to every node ever listed with it |
| GroundTruth.ApplyAllLast | lfr_analysis.py:44 | a node's community is the one on its last record |
| GroundTruth.DistinctExact | lfr_analysis.py:44-48 | when no node repeats, a node is in a community's set exactly when the node maps to that community |
| GroundTruth.RepeatedNode | lfr_analysis.py:44-48 | a node listed twice stays in its first community's set although it maps to the second |
| GroundTruth.GetTrueCommunity | lfr_analysis.py:62-64 | the lookup fails only with `KeyError`, and it fails whenever the query node is unknown |
| GroundTruth.TrueCommunityMeaning | lfr_analysis.py:62-64 | on consistent maps the lookup succeeds exactly when the node is known; the result contains the node and only known nodes; on exact maps it is the set of all nodes sharing its community |
| GroundTruth.TrueCommunityOfRecords | lfr_analysis.py:62-64 | after reading records, a node's true community is every node ever listed with the community of its last record |
| GroundTruth.BuildIndexOfFile | lfr_analysis.py:34-53 | a file of `"a\tb\n"` lines reads back as the maps built from those records |
| GroundTruth.TrailingBlankLine | lfr_analysis.py:39-41 | such a file followed by a blank line raises the unpack `ValueError` instead of stopping |
| GroundTruth.ReadsEveryLine | lfr_analysis.py:38-51 | the `break` on an empty line is never reached for lines from `readlines()` |
| GroundTruth.BuildIndexToBlank | lfr_analysis.py:34-53 | the reader with the blank-line test on the stripped line; a successful read yields consistent maps |
| GroundTruth.BlankLineEndsRead | lfr_analysis.py:40 | with that test, a file of records reads back as their maps, at the end of the text or at a blank line followed by anything |
| Metrics.SymmetricDifference | lfr_analysis.py:86 | `x` is in the symmetric difference exactly when it is in one set but not both |
| Metrics.FullNet | lfr_analysis.py:87 | `set(range(1, LFR + 1))` holds exactly the integers 1 to LFR |
| Metrics.Classify | lfr_analysis.py:89-92 | true positives and false negatives partition the true community; true positives and false positives partition the proposal; true negatives are the other network nodes |
| Metrics.TrueDiv | lfr_analysis.py:97-100 | the division fails with `ZeroDivisionError` exactly when the divisor is 0; otherwise the quotient times the divisor is the dividend |
| Metrics.EmptyProposal | lfr_analysis.py:94-95 | an empty proposal returns the true community as the symmetric difference and zero for everything else |
| Metrics.StatsOutcome | lfr_analysis.py:94-102 | for a non-empty proposal the statistics fail (`ZeroDivisionError`) exactly when it shares no node with the true community; otherwise precision is \|T∩P\|/\|P\|, recall \|T∩P\|/\|T\|, F1 is 2\|T∩P\|/(\|P\|+\|T\|) and the size is \|P\| |
| Metrics.ScoresOutcome | lfr_analysis.py:97-102 | the three divisions in terms of the counts of true positives, false positives and false negatives, and when they fail |
| Metrics.StatsOf | lfr_analysis.py:86-102 | the statistics of a proposal: they fail only with `ZeroDivisionError`; on success they carry the symmetric difference and the proposal's size |
| Metrics.Scores | lfr_analysis.py:97-102 | the three divisions of precision, recall and F1, failing only with `ZeroDivisionError`, keeping the symmetric difference and size |
| Metrics.F1Harmonic | lfr_analysis.py:100 | the F1 formula on precision x/p and recall x/t equals 2x/(p+t) |
| Metrics.StatsBounds | lfr_analysis.py:97-100 | successful precision, recall and F1 each lie in (0, 1] |
| Metrics.PerfectMatch | lfr_analysis.py:86-102 | a proposal equal to a non-empty true community gives an empty symmetric difference and scores of 1 |
| Metrics.NetworkSizeIrrelevant | lfr_analysis.py:87-90 | the network size `LFR` has no effect on the returned values |
| Metrics.SmallExample | lfr_analysis.py:86-102 | T = {1,2,3} and P = {2,3,4} give symmetric difference {1,4}, scores of 2/3 and size 3 |
| Metrics.DisjointProposal | lfr_analysis.py:100 | a non-empty proposal disjoint from the true community raises `ZeroDivisionError` |
| Metrics.GuardedDiv | lfr_analysis.py:97-100 | division with the 0 convention: the exact quotient for a non-zero divisor, 0 for a zero one |
| Metrics.GuardedStatsOf | lfr_analysis.py:94-102 | the statistics with recall and F1 defined as 0 where their divisor is 0, as for an empty proposal |
| Metrics.GuardedScores | lfr_analysis.py:97-100 | precision, recall and F1 from the counts, each 0 where its divisor is 0 |
| Metrics.GuardedAgrees | lfr_analysis.py:94-102 | wherever the statistics do not raise, the guarded statistics equal them |
| Metrics.GuardedDisjoint | lfr_analysis.py:98-100 | with the 0 convention, a non-empty proposal that misses the true community scores 0 |
| Metrics.GuardedBounds | lfr_analysis.py:97-100 | with the 0 convention, precision, recall and F1 always lie in [0, 1] |
| Metrics.LfrErrorStats | lfr_analysis.py:73-102 | `LFR_error_stats` returns exactly the reading followed by the statistics; when it succeeds with a non-empty proposal, F1 lies in (0, 1] |
| Metrics.ErrorStats | lfr_analysis.py:73-102 | the proposal read from its file, then its statistics; on success its size is at most twice the number of lines read |
| Metrics.ErrorStatsOfPairFile | lfr_analysis.py:73-102 | on a well-formed pair file, the statistics are those of the set of the edges' endpoints |

## Findings

| source | as written | input that shows it | evidently intended | confidence | as-written member | corrected member |
|---|---|---|---|---|---|---|
| lfr_analysis.py:40 | `if i:` tests the unstripped line, so a blank line is split on a tab and raises `ValueError` | the lines `"1\t5\n"`, `"\n"` | reading ends at the first blank line, as the `else: break` at lfr_analysis.py:50-51 shows | high; not executed | GroundTruth.TrailingBlankLine | GroundTruth.BlankLineEndsRead |
| lfr_analysis.py:98-100 | recall and F1 divide unguarded, so a non-empty proposal with no true positive raises `ZeroDivisionError` | T = {1}, P = {4} (F1 is 0.0/0.0); T = {}, P = {4} (recall is 0/0) | a zero divisor gives 0, as the empty-proposal case does | medium; not executed | Metrics.DisjointProposal | Metrics.GuardedDisjoint |

## Left out

- Opening files (`open`, `with`) and reading them: each file is given as the list of lines `readlines()` would return. Newline translation and character decoding happen before the model.
- The `__main__` block (configuration, graph loading with networkx/igraph, Leiden runs, plotting) and the imports of `lfr_analysis.py:1-5`. They are outside this model.
- Metrics.StatsOf: precision, recall and F1 are exact reals, not IEEE doubles, so results that Python rounds are exact here. The empty-proposal branch returns the integer `0` in Python, which is modelled as `0.0`.
- Text.ParseInt: accepts ASCII decimal digits only. `int()` also accepts underscores between digits and non-ASCII decimal digits, which LFR files do not contain. The digit limit is CPython's default of 4300; a limit changed with `PYTHONINTMAXSTRDIGITS` or `sys.set_int_max_str_digits` is not modelled.
- CommunityReader.ProposedOfPairFile, CommunityReader.SizeOfPairFile, Metrics.ErrorStatsOfPairFile: proved for non-negative node ids that `str()` can write (`BenchmarkIds`). A negative id would contain `-1` in some cases and end the read early; LFR node ids are positive.
- GroundTruth.BuildIndexOfFile, GroundTruth.TrailingBlankLine, GroundTruth.BlankLineEndsRead: proved for numbers of at most 4300 digits, the ones `str()` can write. A longer number in a file makes `int()` raise `ValueError`, as `Text.ParseInt` models.
- The corrected definitions of "## Findings" (`GroundTruth.BuildIndexToBlank`, `Metrics.GuardedStatsOf`) are functions, not loops: they state the intended behaviour beside the code as written, which the methods model.
- `graph_size_from_file`'s `split` argument is any string. An empty one raises `ValueError` (`EmptySeparator`). `split(None)` (whitespace splitting) is never used by the script and is not modelled.
