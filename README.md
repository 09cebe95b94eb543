# Leitmotif dataset model

A Dafny model of `LeitmotifDataset`, `Subset` and `collate_fn` from the
ring-leitmotif repository. The dataset cuts fixed-length training windows
out of constant-Q spectrograms (CQTs) of Wagner *Ring* recordings. Each
recording (a version and an act) has:

- a CQT of shape (frames, bins);
- a ground-truth label matrix of shape (frames, 21). Columns 0-19 mark the
  leitmotifs that an annotation covers at a frame. Column 20 ("none") is 1
  exactly when no motif column is.

The dataset keeps two lists of records:

- positive records, windows that start at a sampled leitmotif instance;
- negative records, windows drawn from time that no annotation and no
  earlier negative window occupies.

One global index addresses them: the positives first, then the negatives.

Modules:

- `Frames`: conversion between seconds and CQT frames.
  - `int(round(sec * 22050 / 512))` uses Python's round-half-even on exact
    reals.
  - `frame * 512 // 22050` is floor division.
  - The default window is 15 s / 646 frames.
- `Tensors`: a row-major `Matrix` value plus Python's slice and list-index
  semantics. A negative bound wraps and is then clamped.
- `Records`: the records the dataset stores: annotations, intervals,
  occupied spans, positive and negative records, loaded recordings, and
  motif query hits.
- `GroundTruthLabels`: the label matrix. It has a declarative definition
  (`GroundTruth`) and the loop that builds it (`BuildGroundTruth`), proved
  equal to that definition.
- `Sampling`: the negative-sampling loop (`SampleNegatives`), proved
  against the recursive specification `Deplete`. Also here are the sort by
  start time, the record comprehensions, and the per-recording positive and
  negative records.
- `Dataset`: the `LeitmotifDataset` and `Subset` classes and `Collate`.

The helpers imported from `data_utils` are parameters of the model, not code
of it. They are the function-valued fields of `Sampling.Helpers`:

- `motif2idx`;
- `sample_instance_intervals`;
- `generate_non_overlapping_intervals`;
- `sample_non_overlapping_interval`.

What the model needs of them is stated as predicates on those fields:

- `MotifsInRange`: motif indices lie in 0..19.
- `ShrinksFreeSpace`: each accepted draw lowers the total free time by at
  least one window. This is what makes `while not depleted` terminate.
- `RegionsAvoidOccupied`, `DrawsInsideRegions` and `DrawsLastDuration`:
  free regions avoid what is occupied, and a draw is a window of the
  requested length inside a free region.

The random stream of `sample_non_overlapping_interval` is an explicit
`Draw(key, n)` argument: the n-th draw made for a recording.

## Model

| member | source | states |
|---|---|---|
| Frames.RoundHalfEven | dataset.py:37-38 | Python's `round` on an exact real lands within 0.5 of its argument |
| Frames.SecToFrame | dataset.py:37-38 | `int(round(sec * 22050 / 512))` is within half a frame of the exact frame position of `sec` |
| Frames.FrameToSec | dataset.py:28 | `frame * 512 // 22050` is the floor of the frame's start time: s * 22050 <= frame * 512 < (s + 1) * 22050 |
| Frames.RoundIsNearest | dataset.py:37-38 | no integer is closer to a real than its rounding |
| Frames.RoundTiesToEven | dataset.py:37-38 | on an exact tie `round` picks the even integer (Python 3 semantics) |
| Frames.RoundMonotone | dataset.py:37-38 | `round` never reverses the order of two reals |
| Frames.RoundOfInteger | dataset.py:37-38 | `round` of an integer is that integer |
| Frames.SecToFrameMonotone | dataset.py:37-38 | a later time in seconds never maps to an earlier frame |
| Frames.SecToFrameNonNegative | dataset.py:37-38 | a non-negative time maps to a non-negative frame |
| Frames.SecondsRoundTrip | dataset.py:92 | frame to seconds after seconds to frame loses less than 1 s + half a hop and never gains more than half a hop |
| Frames.WindowReachesAtMostOneFrame | dataset.py:50 | a 646-frame window starting at s, with an annotation at least 15 s later, ends at most one frame past that annotation's first frame |
| Frames.WindowCanReachOneFrame | dataset.py:68 | that one-frame reach happens for a concrete start time |
| Tensors.SliceBound | dataset.py:131 | Python's slice bound: a non-negative bound is clamped to n, a bound in [-n, 0) counts from the end, one below -n becomes 0 |
| Tensors.SliceRows | dataset.py:131 | `m[lo:hi, :]` keeps the column count and well-formedness; it is `rows[lo..hi]` for in-range bounds, `rows[lo..]` when `hi` is past the end, counts negative bounds from the end, and is empty when the normalised bounds cross |
| Tensors.SliceRowsSameLength | dataset.py:131 | slicing two matrices with equal row counts by the same bounds gives equal row counts |
| Tensors.Zeros | dataset.py:31 | `torch.zeros((n, cols))` is a well-formed n by cols matrix of zeros |
| Tensors.PyIndex | dataset.py:147 | a list read succeeds exactly for -n <= i < n and reads position i, or i + n when i is negative |
| Tensors.MaxOfBinary | dataset.py:43 | the maximum of a non-empty 0/1 row is 0 or 1, and it is 1 exactly when some entry is 1 |
| GroundTruthLabels.GroundTruthIsLabelMatrix | dataset.py:31-43 | the ground truth has one row per CQT frame, 21 binary columns each, and the none column is 1 exactly when every motif column is 0 |
| GroundTruthLabels.MotifColumnIff | dataset.py:33-40 | for annotations at non-negative times, motif cell (f, m) is 1 exactly when some annotation of motif m covers frame f: round(start) <= f < round(end) |
| GroundTruthLabels.CoveredExtend | dataset.py:33-40 | after one more annotation, a cell is covered exactly when it was before or the new annotation's slice covers it |
| GroundTruthLabels.BuildGroundTruth | dataset.py:31-43 | the loop that sets each annotation's slice to 1 and then fills the none column produces exactly the declarative ground truth |
| Sampling.TotalDuration | dataset.py:28 | a recording's length in whole seconds: the floor of frames * 512 / 22050, never negative |
| Sampling.Seed | dataset.py:54 | `occupied = instances.copy()`: one occupied span per annotation, with its motif and times |
| Sampling.Claims | dataset.py:63 | each accepted interval becomes the occupied span `(None, start, end)` |
| Sampling.FreeLength | dataset.py:55 | the total free time of a region list is never negative |
| Sampling.DepleteTrace | dataset.py:56-65 | the loop accepts exactly the sampler's non-None answers, each drawn from the regions left by the annotations and all earlier intervals, and stops at the first None |
| Sampling.DepleteBound | dataset.py:56-65 | the number of accepted intervals times `duration_sec` is at most the free time at the start |
| Sampling.SampleNegatives | dataset.py:53-65 | the `while not depleted` loop returns the accepted intervals of the specification, and `occupied` is the annotations followed by those intervals |
| Sampling.DrawnAvoidsOccupied | dataset.py:58-65 | each accepted interval lasts `duration_sec` and shares no time with any annotation or earlier accepted interval |
| Sampling.InsertByStart | dataset.py:66 | inserting into a list sorted by start keeps it sorted and adds exactly that element |
| Sampling.SortByStart | dataset.py:66 | `sort(key=lambda x: x[0])` returns a permutation of its input in ascending start order |
| Sampling.ToPositive | dataset.py:50 | a positive record keeps the recording and motif, starts at round(start * 22050 / 512) and spans `duration_samples` frames |
| Sampling.ToNegative | dataset.py:68 | a negative record keeps the recording, starts at round(start * 22050 / 512) and spans `duration_samples` frames |
| Sampling.PositiveRecords | dataset.py:50 | the comprehension converts every sampled instance, in order |
| Sampling.NegativeRecords | dataset.py:68 | the comprehension converts every sorted interval, in order |
| Sampling.NegativesSortedByFrame | dataset.py:66-68 | a recording's negative records come in ascending start frame |
| Sampling.NegativeIntervalFacts | dataset.py:58-68 | every sorted negative interval lasts `duration_sec` and shares no time with any annotation |
| Sampling.NegativeFramesBesideAnnotations | dataset.py:37-40 | with the default window, a negative record either starts at or after the last frame an annotation labels, or ends at most one frame into that annotation's labelled frames |
| Sampling.NegativeWindowUnlabelled | dataset.py:37-43 | with the default window and annotations at non-negative times, every frame of a negative window but its last has all motif cells 0 and the none cell 1 in the ground truth, so the zero labels `__getitem__` returns at line 136 agree with it there |
| Dataset.NegativesBesideAnnotations | dataset.py:24-69 | every negative record of the whole dataset comes from a recording with its key and lies beside every annotation of that recording, reaching at most one frame into a later one |
| Dataset.LoadKeepsConsistent | dataset.py:27-69 | storing one recording keeps the dataset consistent: matching keys, label matrices with one row per CQT frame, and every record pointing at a stored recording with a window of the same length |
| Dataset.SameIncreasingSequences | dataset.py:72-85 | two strictly increasing index lists with the same elements are equal |
| Dataset.Range | dataset.py:73 | `list(range(n))` lists 0..n-1 in order |
| Dataset.RangeMembers | dataset.py:73 | `range(n)` holds exactly 0..n-1, in increasing order |
| Dataset.IndicesWhereSound | dataset.py:75-84 | every index an enumerate-and-filter comprehension yields is the offset position of a kept element, in increasing order |
| Dataset.IndicesWhereComplete | dataset.py:75-84 | the offset position of every kept element is among the yielded indices |
| Dataset.IndicesWhereExact | dataset.py:75-84 | `[idx + offset for idx, x in enumerate(s) if keep(x)]` is exactly the offset positions of the kept elements, once each, in increasing order |
| Dataset.ConcatIncreasing | dataset.py:77 | `samples + none_samples` stays strictly increasing, because every positive index is below len(samples) and every negative index is at least that |
| Dataset.FilteredExact | dataset.py:74-85 | a filtered branch returns exactly the global indices whose positive or negative record passes the filters, in increasing order |
| Dataset.MotifHitsExact | dataset.py:92 | the comprehension yields one hit per positive record of the motif, in index order, and none for any other record |
| Dataset.LeitmotifDataset.constructor | dataset.py:10-69 | after loading, the CQTs, ground truths, positives and negatives are those of the recordings in order, and the dataset is consistent |
| Dataset.LeitmotifDataset.Load | dataset.py:27-69 | one loop iteration stores the recording's CQT and ground truth, appends its positives and sorted negatives, and keeps the dataset consistent |
| Dataset.LeitmotifDataset.FilteredIdxs | dataset.py:74-85 | the filtered comprehensions contain an index exactly when its record's version and act pass the filters, in increasing order |
| Dataset.LeitmotifDataset.GetSubsetIdxs | dataset.py:71-85 | every index whose record passes the version and act filters, and no other, in increasing order |
| Dataset.LeitmotifDataset.QueryMotif | dataset.py:87-96 | None exactly when no positive record has the motif; otherwise every such record once, in index order, with its times in whole seconds |
| Dataset.LeitmotifDataset.GetItem | dataset.py:127-136 | succeeds exactly for -len(samples) <= idx < len. A positive index returns the CQT and ground-truth slices of its window; these have equal row counts and well-formed label rows. A negative-record index returns the CQT slice and zero labels |
| Dataset.LeitmotifDataset.LenIsItemCount | dataset.py:124-136 | `__len__` (`Len`) is the number of items: every index 0..len-1 is accepted by `__getitem__` and index len is not |
| Dataset.LeitmotifDataset.ItemPastEndIsShort | dataset.py:129-131 | a positive window running past the end of its recording is clamped by the slice, so its CQT window is shorter than `duration_samples` |
| Dataset.LeitmotifDataset.NegativeIndexReadsPositives | dataset.py:128-131 | a negative index reads the positive record `idx + len(samples)`, never a negative record |
| Dataset.LeitmotifDataset.ItemShape | dataset.py:127-136 | an in-bounds item has shapes (duration_samples, bins) and (duration_samples, 21) |
| Dataset.LeitmotifDataset.CollateInBounds | dataset.py:127-153 | a non-empty batch of in-bounds items from CQTs with a common bin count always stacks |
| Dataset.LeitmotifDataset.UnfilteredIsWholeRange | dataset.py:72-85 | with no filter, the filtered comprehensions equal `range(len(self))`, so the shortcut branch agrees with them |
| Dataset.Subset.constructor | dataset.py:139-141 | the subset keeps its dataset and its index list |
| Dataset.Subset.GetItem | dataset.py:146-147 | item i of the subset is the dataset's item at `indices[i]`, for a negative i at `indices[i + len(indices)]`, and it fails outside Python's index range of `indices` |
| Dataset.Subset.LenBoundsItems | dataset.py:143-147 | `__len__` (`Len`) bounds the accepted positions: every position in [-len, len) reads the dataset through `indices`, and len and -len-1 fail |
| Dataset.SubsetOfSelection | dataset.py:71-85 | a subset over `get_subset_idxs` yields, at every position, the item of a selected record, and never fails |
| Dataset.Collate | dataset.py:149-153 | succeeds exactly on a non-empty batch whose CQT windows share one shape and whose label windows share one shape. The stacked CQTs and labels keep the batch order. An empty batch fails |

## Left out

- `preview_idx` (dataset.py:98-122) loads audio with `torchaudio`. It is file I/O and is not part of this model.
- Reading the pickles, the CSV annotation files and the directory listing (`glob`, `sorted`), the progress bar and `print`. The constructor takes the recordings already loaded, in sorted key order.
- The transpose at load time. A recording's CQT is given already in (time, bins) orientation.
- The CQT values themselves. Cells are reals carried along unchanged; no numeric property of them is modelled.
- data_utils.py is not part of this model. Its four helpers are parameters (`Sampling.Helpers`). Their properties are assumed as requires clauses: `MotifsInRange`, `ShrinksFreeSpace`, `RegionsAvoidOccupied`, `DrawsInsideRegions` and `DrawsLastDuration`.
- Randomness is an explicit position in the random stream. `sample_non_overlapping_interval` gets `Draw(key, n)`, the n-th draw for a recording; `sample_instance_intervals` gets the recording's key. No distribution is modelled, and two loads of the same recordings with the same helpers give the same samples.
- `duration_sec` is modelled as a whole number of at least one second (`Sampling.Admissible`). The source accepts any number. The termination argument for `while not depleted` needs every accepted draw to remove at least one second of free time, measured in whole seconds.
- Floating point. Times are exact reals, so `round` and the products in the frame conversion are exact. The source computes them in binary floating point, and ties may round differently there.
- `audio_path` and its default path. Only `preview_idx` uses them.
- `Sampling.SortByStart`: Python's `sort` is stable. `Sampling.SortByStart` is a stable insertion sort, but its contract states only sortedness and permutation, not stability.
- The dataset is keyed by `RecordingKey(version, act)`. The source keys by the file stem and looks up `f"{version}_{act}"`, so the two agree only for stems with one underscore. A stem with more underscores would raise `KeyError` in the source. The model does not represent this.
- The ground-truth tensor is built in a local sequence and stored as a value. It is not a tensor mutated in place inside the dictionary, so aliasing between the dictionary entry and other references is not modelled.
- `Dataset.LeitmotifDataset.GetItem`: for a positive record it states the slices and their label well-formedness, not the number of rows. The number of rows depends on whether the window lies inside the recording, which `ItemShape` covers under `WindowInBounds`.
- `Dataset.Collate`: the stacked result is kept as the list of matrices. It is not one 3-D tensor.
