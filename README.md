# KNNCNV call consolidation and scoring, in Dafny

KNNCNV detects copy-number variants (CNVs) from read depth in fixed-size
genome bins. An outlier scorer and a two-component mixture model label
each bin as an outlier (1) or an inlier (0). This project models what
happens after that, in `knncnv.py`:

* `combiningCNV` keeps the outlier bins. It types each one as a duplication
  when its read depth (RD) is strictly above the baseline `mode`, and a
  deletion otherwise. One left-to-right pass then merges neighbours that
  touch (`end[i] + 1 == start[i+1]`) and have the same type. A merged bin
  hands its start on to its right neighbour and is marked absorbed (type
  code 0). The bins left unabsorbed are returned as five parallel columns:
  chromosome, start, end, RD and type name. `_func` names the type codes.
* `sta_performance` scores calls against a ground truth. It sums, over
  every (call, truth interval) pair of the same type, the base pairs
  they share. It sums the inclusive lengths of the calls and of the truth
  set. Precision is the shared count over the call length, or 0 when the
  call length is 0, and sensitivity is the shared count over the truth
  length. Simulated truth
  sets label states, and `gain` is read as duplication and anything else
  as deletion.

Modules:

* `Selection` (`selection.dfy`) models NumPy boolean-mask selection.
  `Kept` gives the positions a mask keeps and `Select` the chosen
  elements, in order.
* `Combining` (`combining.dfy`) covers the typing and merge of
  `combiningCNV`.
  * `Merge` is a run-based reference definition: one call per maximal run
    of joined bins.
  * `MergeAdjacent` is the in-place pass over `start` and `type` arrays. It
    is proved to leave exactly `Merge` of its input unabsorbed.
  * `CombiningCnv` chains selection, typing (`ClassifyOutliers`), the pass
    and emission (`Emit`). Its columns are proved to list
    `Merge(Outliers(...))` row by row.
* `Performance` (`performance.dfy`) covers the accounting of
  `sta_performance`.
  * `StaPerformance` is the nested loop and the two length loops. It is
    proved equal to `Score`.
  * The case analysis of one pair, `Contribution`, is proved equal to the
    size of the intersection of the two intervals when the types match.

The read depth and the baseline are `real`, and the coordinates are
unbounded integers. Precision and sensitivity are exact `real` ratios of
integer counts, as Python 3's `/` computes them up to floating-point
rounding. An empty truth set makes the source raise a division error at
knncnv.py:113, and the model returns `DivisionByZero` instead.

A merged call carries its last bin's RD, not its first bin's. Only the
start is carried forward (knncnv.py:47). The RD column is then filtered
by `type != 0` (knncnv.py:50-51), which keeps the run's last bin. End,
type and chromosome come from that bin too.
`ExampleTwoDuplicationBins` shows a call with RD 210, not 200.

## Model

| member | source | states |
|---|---|---|
| Selection.Kept | knncnv.py:34-38 | the positions kept by `labels == 1` all have their mask entry set, and they are strictly increasing, so the original order is kept |
| Selection.KeptAll | knncnv.py:34-38 | every position whose mask entry is set is kept |
| Selection.Select | knncnv.py:34-38 | `xs[mask]` has one element per kept position, and the k-th is the element at the k-th kept position |
| Combining.ClassifyNames | knncnv.py:28-43 | an outlier is reported as a duplication iff its RD is strictly above `mode` and as a deletion iff it is at most `mode` (a tie gives deletion); its code is never the absorbed code 0 |
| Combining.ClassifyOutliers | knncnv.py:40-43 | the typing loop gives every kept bin code 2 when its RD exceeds `mode` and code 1 otherwise |
| Combining.RunLength | knncnv.py:45-48 | the run at the front of the bins is empty only for no bins, and otherwise has between one and all of them |
| Combining.RunIsMaximal | knncnv.py:45-48 | inside the front run every neighbour pair satisfies the merge test, and the pair right after it does not |
| Combining.RunKeepsType | knncnv.py:45-48 | all bins of a run have the type of its first bin |
| Combining.Merge | knncnv.py:45-57 | the merge never yields more calls than bins, and yields none exactly when there are no bins |
| Combining.AbsorbJoined | knncnv.py:45-48 | when a bin joins its neighbour, handing its start on to the neighbour and dropping the bin leaves the merge unchanged |
| Combining.AbsorbSeparate | knncnv.py:45-48 | when a bin does not join its neighbour, it is emitted as a call of its own, unchanged, ahead of the merge of the rest |
| Combining.PassAbsorb | knncnv.py:45-48 | one absorbing step of the pass keeps the pass invariant: the unabsorbed rows so far plus the merge of the rest equal the merge of the input |
| Combining.PassKeep | knncnv.py:45-48 | one non-absorbing step of the pass keeps the same invariant |
| Combining.PassStep | knncnv.py:46-48 | one iteration of the merge loop: when bin `i` ends right before bin `i + 1` starts and has its type, bin `i + 1` takes over the start of bin `i` and bin `i` gets code 0, and otherwise both arrays are unchanged; either way the pass invariant moves on by one bin |
| Combining.MergeAdjacent | knncnv.py:45-48 | after the in-place pass over `start` and `type`, the rows whose type is not 0 are exactly the reference merge of the rows before the pass |
| Combining.MergeCount | knncnv.py:45-57 | the number of calls equals the number of kept bins minus the number of neighbour pairs that satisfy the merge test |
| Combining.MergeHead | knncnv.py:45-57 | the first call starts where the first kept bin starts and has its type |
| Combining.MergeMaximal | knncnv.py:45-57 | no two consecutive calls satisfy the merge test, so every call is a maximal run |
| Combining.MergeSingleRun | knncnv.py:45-57 | a run whose neighbours all join becomes one call from its first bin's start to its last bin's end, with the last bin's RD, type and chromosome |
| Combining.MergeKeepsOrder | knncnv.py:45-57 | bins that are well formed and ordered along the genome give calls that are well formed, ordered and pairwise disjoint |
| Combining.OutliersKeepOrder | knncnv.py:34-57 | when all bins are well formed and ordered along the genome, so are the outliers picked out of them, and the calls merged from those |
| Combining.SurvivorsSelected | knncnv.py:50-55 | the rows kept by the mask `type != 0` are those with a non-zero type, in order |
| Combining.KeptRows | knncnv.py:34-43 | the columns selected by `labels == 1`, with the typing loop's codes, are the typed outlier bins in their original order |
| Combining.Emit | knncnv.py:50-56 | the five returned columns have equal length and list the unabsorbed rows row by row, with code 2 named duplication and any other code deletion |
| Combining.CombiningCnv | knncnv.py:27-57 | the returned columns list, row by row, the calls of the reference merge of the kept, typed outlier bins |
| Combining.NoOutliersNoCalls | knncnv.py:34-57 | with no bin labelled 1 there are no calls |
| Combining.ExampleTwoDuplicationBins | knncnv.py:27-57 | two adjacent outlier bins above the baseline give one duplication call over both, with the last bin's RD |
| Combining.ExampleOutliers | knncnv.py:34-43 | of three bins labelled 0, 1, 1 with RD 50, 200, 210 against baseline 55, the last two are kept, in order, both typed duplication |
| Combining.ExampleChromosomeIgnored | knncnv.py:46-48 | touching bins on different chromosomes still merge, and the call carries the last bin's chromosome |
| Performance.TruthTypeNames | knncnv.py:76 | a simulated truth state is a duplication iff it is `gain`, and a deletion otherwise |
| Performance.ContributionIsOverlap | knncnv.py:87-99 | for well-formed intervals, the amount one pair adds is `max(0, min(ends) - max(starts) + 1)` when the types match and 0 when they differ, so disjoint pairs add nothing |
| Performance.CoveredIsMatchedOverlap | knncnv.py:84-99 | the covered count is the uncapped sum of that intersection size over all same-type pairs |
| Performance.CoveredNonNegative | knncnv.py:84-99 | on well-formed input the covered count is never negative |
| Performance.TotalLengthPositive | knncnv.py:101-107 | a well-formed interval set has a total inclusive length of at least its number of intervals |
| Performance.PairSumSwap | knncnv.py:85-99 | summing the matched overlap with the truth set as the outer loop gives the same total |
| Performance.CoveredBounds | knncnv.py:84-107 | against pairwise disjoint truth intervals, the covered count is at most the calls' length; with pairwise disjoint calls, it is at most the truth length |
| Performance.StaPerformance | knncnv.py:84-113 | the nested counting loop, the two length loops and the ratios compute `Score` of the call and truth columns, a division error included |
| Performance.ExactMatchScoresOne | knncnv.py:109-113 | one call equal to the only truth interval, type included, scores precision 1 and sensitivity 1 |
| Performance.NoCallsScoreZero | knncnv.py:109-113 | with no calls and a non-empty, well-formed truth set, both scores are 0 |
| Performance.NoTruthFails | knncnv.py:113 | an empty truth set makes the sensitivity a division by zero |
| Performance.ScoresNonNegative | knncnv.py:109-113 | on well-formed input both scores are non-negative |
| Performance.ScoresAtMostOne | knncnv.py:84-113 | precision is at most 1 when the truth intervals are pairwise disjoint, and sensitivity when the calls are |
| Performance.FScoreBetween | knncnv.py:115 | the harmonic mean of two positive scores lies between them and does not depend on their order |
| Performance.ExamplePartialOverlap | knncnv.py:84-113 | a call over 100..200 against a truth interval over 150..250 shares 51 base pairs, so precision and sensitivity are both 51/101 |
| Performance.ExampleDoubleCounting | knncnv.py:84-113 | a truth interval listed twice is counted twice, and an exact call then reaches precision 2 |

## Left out

- `vbgmm` (knncnv.py:13-24) is a variational Bayesian Gaussian mixture fit from a foreign library. The labels it produces are an input of the model.
- The KNN outlier scorer and `preprocessing` are foreign calls. The bins, their read depth and `mode` are inputs.
- The driver `knncnv` is not part of this model. That covers the random draw of the neighbour count, the trial loop and its printing.
- Loading the ground truth (knncnv.py:74-82) and `save_result` (knncnv.py:60-70) are file I/O. The truth columns are parameters of `StaPerformance`, and `TruthType` models the conversion of states at line 76.
- `seg_count[index, 0]` reads the first column of a two-dimensional array. The model takes that column as a one-dimensional `segCount`.
- Floating point: RD, `mode` and the ratios are exact reals, so rounding is not modelled.
- Performance.FScore: `scipy.stats.hmean` is modelled as `2pq/(p+q)` for positive scores only. How scipy treats a zero score is not modelled.
- Performance.ContributionIsOverlap: the identity with the intersection size is stated for well-formed intervals (start at most end) only. `Contribution` itself follows the source's branches on any input.
- Combining.CombiningCnv: requires the bin columns and `labels` to have equal lengths. With a mask of another length, NumPy's boolean indexing raises an IndexError in the source (knncnv.py:35-38).
- Performance.StaPerformance: requires the call columns to share one length, and the truth columns to share one length. The source does not check this. Its overlap loop runs over the type columns (knncnv.py:85-86), and its length loops run over the start columns (knncnv.py:102, 106). A type column shorter than its start and end columns raises nothing: `count` then covers only a prefix of the rows, while the lengths cover all of them. The model does not capture that case. The source's own caller always passes equal-length columns: the calls come from `combiningCNV`, whose columns `Combining.Emit` proves equal in length, and the truth columns come from one table.
- Combining.MergeKeepsOrder: order is stated for coordinates that increase across the whole input, which is one chromosome. Across several chromosomes, coordinates restart, and order by (chromosome, start) is not proved.
- Combining.OutliersKeepOrder: stated with the same one-chromosome scope as `MergeKeepsOrder`. It assumes coordinates increase across all bins and does not prove order by (chromosome, start).
- Performance.Score: a non-empty truth set of ill-formed intervals can also sum to a zero length. The model returns `DivisionByZero` there too. In the source, `count` may then be a NumPy integer, and the division gives inf or nan with a warning instead of raising.
- Combining.MergeAdjacent: the chromosome and RD columns do not change during the pass, so they are ghost parameters. The arrays it updates, `start` and the type codes, are real `array`s.
