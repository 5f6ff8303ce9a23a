# Needleman-Wunsch with every co-optimal alignment

This is a Dafny model of the alignment core of `magnumopus` and of the
orientation choice in `amplicon_align.py`. The modelled code is the following.

- `magnumopus/nw_all_alignments.py`:
  - `generate_matrices` allocates a score matrix of zeros and a direction matrix of empty lists.
  - `fill_matrix` fills both matrices in place. Each inner cell stores the best of three candidates in the order diagonal, right, down. The cell's direction list holds the index of every candidate that reaches that best value.
  - `traverse_all_paths` is a recursive generator. It walks the direction matrix back to the origin and yields every alignment it reaches.
  - `find_optimal_alignment` collects those alignments together with the bottom-right score.
  - `needleman_wunsch` chains the three steps.
- `magnumopus/nw.py`: the earlier draft.
  - It has one matrix with hard-coded scores of +1 (match), -1 (mismatch) and -1 (gap).
  - The scoring arguments are ignored and nothing is returned.
- `amplicon_align.py`:
  - `reverse_complement`.
  - The choice among the four orientations of two amplicons: `max` over `[score, alignments]` lists, then `list.index`.

The orchestrator's `magnumopus.needleman_wunsch` (`amplicon_align.py` lines 104-107) is taken to be the function in `nw_all_alignments.py`. The package's `__init__` is not part of this model. That function is the one that returns the `(alignments, score)` pair lines 104-107 unpack; the draft in `nw.py` returns `None`, and unpacking `None` would raise.

## Modules

| Module | File | Contents |
|---|---|---|
| `Alignments` | `alignments.dfy` | What an alignment is: scoring parameters, column scores, removing gaps, `IsAlignment`, `AlignmentScore`. |
| `NwScoring` | `nw_scoring.dfy` | The recurrence `fill_matrix` computes, as functions. `Score` and `Dirs` give the value and direction list of every cell. |
| `NwMatrices` | `nw_matrices.dfy` | `generate_matrices` and `fill_matrix` as methods over two `array2`s, proved to leave `Score`/`Dirs` in every cell. |
| `NwBacktrack` | `nw_backtrack.dfy` | `traverse_all_paths` and `find_optimal_alignment` as recursive functions over the filled direction matrix. `Paths` is an accumulator-free path enumeration, proved equal to the traversal. |
| `NwOptimality` | `nw_optimality.dfy` | Over a matrix that holds `Dirs`, the enumerated paths are exactly the optimal alignments that end with the chosen step. They are distinct and ordered. |
| `NwAllAlignments` | `nw_all_alignments.dfy` | `needleman_wunsch` as a method, and what it returns: the score is the maximum, and the alignments are sound, complete for the start direction and distinct. Ties at the last cell that are not explored are also stated. |
| `NwDraft` | `nw_draft.dfy` | The draft's `generate_matrix`/`fill_matrix`/`needleman_wunsch`, and the proof that the draft computes the main recurrence with unit scores. |
| `AmpliconAlign` | `amplicon_align.dfy` | `reverse_complement`; Python's ordering of `[score, alignments]` lists, `max` and `list.index`; the four-orientation selection. |

How some Python behaviour is modelled:

- A generator becomes the sequence of the values it yields, in yield order.
- Python's `max` keeps the first maximal entry and replaces it only with a strictly greater one.
- `list.index` returns the first equal entry.
- A `"".join` over a `None` raises an exception. The model returns `None` instead.
- Python integers are unbounded, like Dafny's `int`.

With match 1, mismatch -1 and gap -1, aligning `ATA` against `ATCA` (the draft's example call) scores 2: `AT-A` over `ATCA` has three matches and one gap.

## Model

| member | source | states |
|---|---|---|
| NwMatrices.GenerateMatrices | akrishna311/magnumopus/nw_all_alignments.py:23-38 | Two fresh (row+1) x (col+1) matrices: the score matrix all zeros, the direction matrix all empty lists. |
| NwMatrices.InnerCell | akrishna311/magnumopus/nw_all_alignments.py:76-82 | From the three neighbours' scores, max(score_list) is the cell's Score and the list of tied positions is its Dirs. |
| NwMatrices.FillCell | akrishna311/magnumopus/nw_all_alignments.py:73-82 | One inner cell gets the best of the three candidates, plus the indices of all candidates reaching it. Every earlier cell keeps its value, and no other cell of either matrix changes. |
| NwMatrices.FillMatrix | akrishna311/magnumopus/nw_all_alignments.py:40-89 | After the fill, every cell of the score matrix holds Score and every cell of the direction matrix holds Dirs for its prefixes. |
| NwScoring.MaxOf | akrishna311/magnumopus/nw_all_alignments.py:81 | max(score_list) is one of the list's entries and is at least every entry. |
| NwScoring.Positions | akrishna311/magnumopus/nw_all_alignments.py:82 | The comprehension lists exactly the indices whose entry equals the value, in ascending order. |
| NwScoring.DirsAreTies | akrishna311/magnumopus/nw_all_alignments.py:59-82 | Every cell's direction list is non-empty and strictly ascending. Away from the origin, a code is listed exactly when its step reaches the cell's score from a predecessor. |
| NwScoring.ScoreCoversSteps | akrishna311/magnumopus/nw_all_alignments.py:76-81 | An inner cell's score is at least the score of each of its three steps. |
| NwScoring.FirstRowScore | akrishna311/magnumopus/nw_all_alignments.py:59-61 | The first row holds j times the gap penalty. |
| NwScoring.FirstColumnScore | akrishna311/magnumopus/nw_all_alignments.py:64-66 | The first column holds i times the gap penalty. |
| NwScoring.ScoreSymmetric | akrishna311/magnumopus/nw_all_alignments.py:76-81 | Swapping the two sequences transposes the score matrix. |
| NwScoring.DirMatrix | akrishna311/magnumopus/nw_all_alignments.py:59-82 | The direction matrix holds Dirs in every cell. It is well formed: each code stays inside the matrix, and the bottom-right list is non-empty. |
| NwBacktrack.ColumnKind | akrishna311/magnumopus/nw_all_alignments.py:153-187 | Every column is classified as a diagonal, right or down step, matching how the traversal writes it. |
| NwBacktrack.AttachTwice | akrishna311/magnumopus/nw_all_alignments.py:158-162 | Extending every accumulated alignment by one pair of strings and then by another is the same as extending it once by their concatenations, so the strings each nested call passes on compose. |
| NwBacktrack.ListedLeads | akrishna311/magnumopus/nw_all_alignments.py:76-82 | A listed direction of a non-origin cell leads to a predecessor inside the matrix. The cell's score equals that predecessor's score plus the step. |
| NwBacktrack.DirMatrixWellFormed | akrishna311/magnumopus/nw_all_alignments.py:59-82 | Any matrix that holds Dirs in every cell is safe to traverse. |
| NwBacktrack.TraverseIsPaths | akrishna311/magnumopus/nw_all_alignments.py:128-187 | traverse_all_paths yields exactly the path enumeration, in the same order, each followed by the reversed columns already walked. |
| NwBacktrack.ExploreIsPathsBelow | akrishna311/magnumopus/nw_all_alignments.py:157-163 | The while loop over the predecessor's directions, from the highest index down, yields the enumeration of those directions in that order. |
| Alignments.AlignmentLength | akrishna311/magnumopus/nw_all_alignments.py:150 | Both rows of an alignment of a against b have the same length, at least the length of each input and at most the sum of the two lengths. |
| NwOptimality.UpperBound | akrishna311/magnumopus/nw_all_alignments.py:76-81 | No alignment of two prefixes scores above the cell's Score. |
| NwOptimality.KindListed | akrishna311/magnumopus/nw_all_alignments.py:82 | The last column of an optimal alignment is a direction listed at its cell. |
| NwOptimality.ExtendOptimal | akrishna311/magnumopus/nw_all_alignments.py:153-187 | For inputs without '-', extending an optimal alignment of the predecessor by a step that reproduces the cell's score gives an optimal alignment of the cell, ending with that step. |
| NwOptimality.AppendStep | akrishna311/magnumopus/nw_all_alignments.py:153-187 | For inputs without '-', appending the column of a step to an alignment of the predecessor's prefixes gives an alignment of the cell's prefixes, adds the step's score and ends with that step. |
| NwOptimality.PathsSound | akrishna311/magnumopus/nw_all_alignments.py:148-187 | For inputs without '-', every path through direction k of a cell is an optimal alignment of the prefixes, and its last column is of kind k. |
| NwOptimality.PathsComplete | akrishna311/magnumopus/nw_all_alignments.py:148-187 | Every optimal alignment of the prefixes whose last column has the kind at index k is among the paths through k. |
| NwOptimality.PathsNonEmpty | akrishna311/magnumopus/nw_all_alignments.py:148-187 | Every listed direction reaches at least one path back to the origin. |
| NwOptimality.AttachDistinct | akrishna311/magnumopus/nw_all_alignments.py:158-162 | Appending the same columns to pairwise different alignments keeps them pairwise different. |
| NwOptimality.PathsDistinct | akrishna311/magnumopus/nw_all_alignments.py:153-187 | For inputs without '-', no path is enumerated twice. |
| NwOptimality.LaterDirectionFirst | akrishna311/magnumopus/nw_all_alignments.py:161-163 | For inputs without '-', a path through a higher-index direction ends with a greater code than one through a lower index, so the two differ. |
| NwOptimality.PathsBelowOrdered | akrishna311/magnumopus/nw_all_alignments.py:161-187 | For inputs without '-', exploring all directions of a cell, highest index first, gives no duplicates and non-increasing last-column codes. |
| NwAllAlignments.StartDirection | akrishna311/magnumopus/nw_all_alignments.py:208-209 | The traversal starts from the last listed direction of the bottom-right cell, which is the greatest code listed there. |
| NwAllAlignments.FindOnFilled | akrishna311/magnumopus/nw_all_alignments.py:190-224 | find_optimal_alignment over the filled matrices returns the enumeration from the last direction and the recurrence's score for the whole sequences. |
| NwAllAlignments.NeedlemanWunsch | akrishna311/magnumopus/nw_all_alignments.py:3-21 | needleman_wunsch returns the yielded alignments and the optimal global score. |
| NwAllAlignments.ScoreIsMaximum | akrishna311/magnumopus/nw_all_alignments.py:211 | No global alignment of the two sequences scores above the returned score. |
| NwAllAlignments.YieldedSound | akrishna311/magnumopus/nw_all_alignments.py:148-224 | For inputs without '-', every returned pair is a global alignment that reaches the returned score and ends with the start direction. |
| NwAllAlignments.YieldedComplete | akrishna311/magnumopus/nw_all_alignments.py:148-224 | Every optimal global alignment whose last column has the start direction is returned. |
| NwAllAlignments.YieldedNonEmpty | akrishna311/magnumopus/nw_all_alignments.py:148-224 | At least one alignment is returned. |
| NwAllAlignments.YieldedDistinct | akrishna311/magnumopus/nw_all_alignments.py:153-224 | For inputs without '-', the returned list has no duplicates. |
| NwAllAlignments.UnexploredTies | akrishna311/magnumopus/nw_all_alignments.py:206-218 | For inputs without '-', when the bottom-right cell lists several tied directions, there is an optimal alignment that is not returned. |
| NwAllAlignments.FirstRowPaths | akrishna311/magnumopus/nw_all_alignments.py:59-61 | Along the first row the only path is the prefix of b against as many gaps. |
| NwAllAlignments.FirstColumnPaths | akrishna311/magnumopus/nw_all_alignments.py:64-66 | Down the first column the only path is the prefix of a against as many gaps. |
| NwAllAlignments.EmptyFirst | akrishna311/magnumopus/nw_all_alignments.py:3-21 | An empty first sequence gives the single alignment of gaps against b, with score len(b) times gap. |
| NwAllAlignments.EmptySecond | akrishna311/magnumopus/nw_all_alignments.py:3-21 | An empty second sequence gives the single alignment of a against gaps, with score len(a) times gap. |
| NwDraft.GenerateMatrix | akrishna311/magnumopus/nw.py:11-25 | A fresh (row+1) x (col+1) matrix of zeros. |
| NwDraft.DraftCell | akrishna311/magnumopus/nw.py:36-41 | One inner cell of the draft gets the best of up-1, left-1 and diagonal±1. Every earlier cell keeps its value, and no other cell changes. |
| NwDraft.FillDraftMatrix | akrishna311/magnumopus/nw.py:27-45 | The draft fill leaves DraftScore in every cell, measured from the origin value it never writes. The scoring arguments play no part. |
| NwDraft.DraftShift | akrishna311/magnumopus/nw.py:28-41 | Every cell is the origin value plus the value it takes from a zero origin. |
| NwDraft.DraftIsUnitScore | akrishna311/magnumopus/nw.py:28-41 | From a zero origin the draft computes the main aligner's score matrix for match 1, mismatch -1, gap -1. |
| NwDraft.AtaAgainstAtca | akrishna311/magnumopus/nw.py:48 | The example call, `ATA` against `ATCA` with match 1, mismatch -1 and gap -1, has score 2 in the draft and in the main aligner. |
| AmpliconAlign.Complement | akrishna311/amplicon_align.py:16-21 | The dictionary lookup succeeds exactly for A, C, G and T and yields a base. |
| AmpliconAlign.JoinComplements | akrishna311/amplicon_align.py:22 | The join succeeds exactly when every symbol is a base, keeps the length, and maps each symbol to its complement in place. |
| AmpliconAlign.ReverseComplement | akrishna311/amplicon_align.py:6-22 | Succeeds exactly on strings of bases. The result has the same length and consists of bases. Position k holds the complement of position len-1-k. |
| AmpliconAlign.ReverseComplementInvolution | akrishna311/amplicon_align.py:6-22 | Reverse-complementing twice gives back the original string. |
| AmpliconAlign.LexIrreflexive | akrishna311/amplicon_align.py:108-109 | Python's lexicographic comparison of lists is irreflexive for any element relation. |
| AmpliconAlign.LexTransitive | akrishna311/amplicon_align.py:108-109 | Lexicographic comparison is transitive when the element order is. |
| AmpliconAlign.LexTotal | akrishna311/amplicon_align.py:108-109 | Lexicographic comparison orders any two different lists when the element order is total. |
| AmpliconAlign.StrLessIsOrder | akrishna311/amplicon_align.py:108-109 | String comparison by code point is a strict total order. |
| AmpliconAlign.PairLessIsOrder | akrishna311/amplicon_align.py:108-109 | Tuple comparison of two alignment pairs is a strict total order. |
| AmpliconAlign.OutcomeLessIsOrder | akrishna311/amplicon_align.py:108-109 | Comparison of [score, alignments] entries is a strict total order. |
| AmpliconAlign.PyMax | akrishna311/amplicon_align.py:109 | max returns an entry of the list. |
| AmpliconAlign.PyMaxIsGreatest | akrishna311/amplicon_align.py:109 | Every entry of the list equals max's result or compares below it. |
| AmpliconAlign.IndexOf | akrishna311/amplicon_align.py:109 | list.index returns a position holding the value, with no earlier position holding it. |
| AmpliconAlign.SelectOrientation | akrishna311/amplicon_align.py:109 | The chosen position is inside the list. |
| AmpliconAlign.SelectedIsBest | akrishna311/amplicon_align.py:108-109 | The chosen entry has the top score. Among entries with that score, its alignment list is the greatest. No earlier entry equals it. |
| AmpliconAlign.TieGoesToGreaterAlignments | akrishna311/amplicon_align.py:108-109 | Of two entries with equal scores, the one whose alignment list compares lower is never chosen, whichever comes first. |
| AmpliconAlign.Orientations | akrishna311/amplicon_align.py:104-108 | The four entries exist exactly when both amplicons are strings of bases, and there are four of them. |
| AmpliconAlign.AlignAmplicons | akrishna311/amplicon_align.py:104-109 | Succeeds exactly when both amplicons are strings of bases. The result is the entry the max/index selection picks among the four orientations. |
| AmpliconAlign.ChosenScoresBest | akrishna311/amplicon_align.py:104-109 | The chosen orientation scores at least as well as each of the four. |

## Left out

- Everything in `amplicon_align.py` outside lines 6-22 and 104-109 is not part of this model:
  - argument parsing (lines 24-93);
  - `magnumopus.ispcr` (lines 94 and 96), a call into code that is not among the modelled files;
  - the header stripping at lines 94-99.
  The amplicons are parameters of `AlignAmplicons`.
- The printing of the result (`amplicon_align.py` lines 110-111, `nw.py` lines 43-44) and the `__main__` blocks are I/O.
  - `"\n".join` at line 110 is applied to a list of tuples and would fail. This is outside the modelled value.
- `traverse` (`nw_all_alignments.py` lines 91-125) is only referenced from a comment and is not part of this model.
- NwBacktrack.Traverse: a generator is modelled as the full list of its values.
  - Laziness is not modelled. Nothing observes it, because `find_optimal_alignment` materialises the list at once.
  - Recursion depth is not modelled. Each step back through the matrix adds one nested `yield from`, so the chain of generators is as deep as `len(seq_a) + len(seq_b)`. Under CPython's recursion limit (1000 by default), long inputs can raise `RecursionError`. The model returns the full list for every input length.
- NwMatrices.FillMatrix: the Python lists of lists become `array2`s.
  - The aliasing of the inner lists is not modelled: `generate_matrices` creates a fresh list per cell, so there is none.
  - The caller must pass an origin cell holding 0, as `generate_matrices` produces. The fill never writes that cell.
- Inputs containing the gap symbol '-' are covered only in part. The alignment predicate recovers each sequence by deleting '-', so an input that already holds '-' would lose symbols under that test. A diagonal step over a '-' in the input also writes a column that reads as a gap column, so the last column's kind no longer names the step taken. The members below are stated for inputs without '-' only. Whenever `AlignAmplicons` returns an entry, its four alignments are of strings of A, C, G and T, so none of these limits applies to them.
- NwOptimality.PathsSound: soundness of the enumerated paths is not claimed for inputs containing '-'.
- NwOptimality.PathsDistinct: distinctness of the enumerated paths is not claimed for inputs containing '-'.
- NwAllAlignments.YieldedSound: soundness of the returned alignments is not claimed for inputs containing '-'.
- NwAllAlignments.YieldedDistinct: distinctness of the returned alignments is not claimed for inputs containing '-'.
- NwOptimality.AppendStep: the effect of one step is not stated for inputs containing '-'.
- NwOptimality.ExtendOptimal: the extension of an optimal alignment is not stated for inputs containing '-'.
- NwOptimality.PathsKind: the last column's kind is not tied to the direction for inputs containing '-'.
- NwOptimality.LaterDirectionFirst: the order of paths by direction is not stated for inputs containing '-'.
- NwOptimality.PathsBelowOrdered: the order and distinctness of a cell's paths are not stated for inputs containing '-'.
- NwAllAlignments.UnexploredTies: the missed optimal alignment is not exhibited for inputs containing '-'.
- NwOptimality.PathsComplete, NwAllAlignments.YieldedComplete: these are proved for all inputs. They say nothing for an input containing '-', because `Ungap` never returns a string with '-', so such an input has no alignment under the model's predicate.
- NwDraft.DraftNeedlemanWunsch has no postcondition, because the draft's `needleman_wunsch` returns nothing. What it computes is stated by `FillDraftMatrix`.
- The model has no exceptions:
  - The reverse-complement join that would raise `TypeError` on a symbol other than A, C, G, T returns `None`.
  - `AlignAmplicons` then returns `None`. A caller would see the exception there.
- String comparison orders characters by code point, as Python does; neither Python nor the model normalises Unicode.
