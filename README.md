# crop-seq screen dynamics: a verified model of the count-matrix logic

`src/screen_dynamics.py` analyses CRISPR guide (gRNA) screens. Pandas frames indexed by guide id, with one column per sample, pass from stage to stage. This project models the decision logic of those stages over an abstract guide x sample matrix. Guide ids and column labels are strings, and a cell is an `Option<real>` (`None` is pandas' NaN). It proves the properties the script relies on.

| file | models |
|---|---|
| `wrappers.dfy` | `Option` and `Result` |
| `text.dfy` | the substring test `sub in s` / `str.contains`, and the last occurrence of a substring |
| `seqs.dfy` | boolean masks, the positions they select and selection by position |
| `frames.dfy` | the frame (`Frame`, `Row`) and its defined values (`x[~np.isnan(x)]`) |
| `percentile.dfy` | numpy's default (linear) `np.percentile(x, 95)`, computed exactly over the reals |
| `filter.dfy` | `filter_gRNAs`: an imperative method with the source's column loop, proved equal to a closed-form specification |
| `normalize.dfy` | `normalize_by_total` and the three inline normalisations to 10,000 per column |
| `categories.dfy` | the guide colour category (first of `Wnt`, `CTRL`, `Tcr`, `Ess`) and the control selection of `screen_zscore` |
| `ranking.dfy` | `rank(ascending=False, method="first")` |
| `stimulus.dfy` | the stimulated-minus-unstimulated pairing loop of `gRNA_rank_stimulus` and its column relabelling |
| `baselines.dfy` | the choice of comparison column and excluded sub-library per screen in `gRNA_scatter`, and its loop |
| `tally.dfy` | `screen_counts`, the count of cells per (assignment, experiment) |

Where the code works by changing state step by step, the model is a method with the same loop. There are three such methods:
- the column loop of `filter_gRNAs`;
- the pair loop of `gRNA_rank_stimulus`;
- the screen loop of `gRNA_scatter`.

Each method is proved equal to a specification function, and the properties are proved about that function. The rest of the core is pandas expressions, and those are modelled as functions.

Three behaviours of the code are easy to misread. The model follows the code in each:
- **Reference copy.** The noise threshold comes from the copy `filtered`. That copy masks the controls that are not in the filter-out list (lines 43-45). In each column it also masks the guides of the column's own sub-library (lines 51 and 54). So the cells left defined are the filter-out guides, which the comment at lines 406-409 names as the noise source, the guides of the opposite sub-library, and guides that neither test masks.
- **Zero-sum columns.** Normalisation (lines 88 and 415-421) never checks a column's sum. An all-zero column becomes NaN, and a nonzero cell in a column summing to zero becomes infinity. The model gives missing cells in the first case and a `Failure` in the second, since infinity has no real value.
- **`axis.next()`.** `gRNA_rank_stimulus` calls `axis.next()`. That is the Python 2 iterator protocol, and the model follows it.

## Model

| member | source | states |
|---|---|---|
| Filter.FilterGuides | src/screen_dynamics.py:20-81 | running the filter step by step (drop the listed guides, mask the unlisted controls in the reference copy, the column loop, drop `plasmid_pool_ESS` if present, threshold) gives exactly the closed form `FilterSpec`, including the failure when the reference has no defined cell |
| Filter.FilterSpec | src/screen_dynamics.py:41-81 | the filtered frame is rectangular and has no more rows or columns than the input |
| Filter.MaskSubLibraries | src/screen_dynamics.py:48-54 | the column loop masks, in every column handled so far, the opposite library's guides in the working frame and the same library's guides in the reference frame, with the `TCR`/`Jurkat` test made first |
| Filter.MaskStep | src/screen_dynamics.py:48-54 | one turn of the loop extends the handled prefix of columns by one: it masks the column's tag, or nothing for a column of neither library |
| Filter.MaskNothing | src/screen_dynamics.py:48 | before the loop no cell is masked |
| Filter.LoopResults | src/screen_dynamics.py:48-58 | after the loop and the conditional drop of `plasmid_pool_ESS`, the two frames are the closed-form working and reference frames |
| Filter.WorkingSteps | src/screen_dynamics.py:41-58 | row drop, column masks and column drop compose to the closed-form working frame |
| Filter.ReferenceSteps | src/screen_dynamics.py:43-58 | control masks, column masks and column drop compose to the closed-form reference frame, which keeps every input row |
| Filter.DropAbsentColumn | src/screen_dynamics.py:56-58 | dropping a column the frame lacks changes nothing, so the guarded drop agrees with the unconditional one |
| Filter.DropGuides | src/screen_dynamics.py:41 | the row drop keeps the columns and a rectangular frame; which rows it keeps is stated by `FilterKeepsRowsAndColumns` |
| Filter.MaskControls | src/screen_dynamics.py:43-45 | masking the unlisted controls keeps every row, every guide label and every column |
| Filter.MaskTagInColumn | src/screen_dynamics.py:50-54 | one `.loc[..., col] = nan` keeps the rows and columns |
| Filter.DropColumn | src/screen_dynamics.py:56-58 | the column drop keeps every row |
| Filter.ApplyThreshold | src/screen_dynamics.py:79 | `where(df > bound)` keeps rows and columns |
| Filter.FilterKeepsRowsAndColumns | src/screen_dynamics.py:41-58 | the output's guides are exactly the input's guides not in the filter-out list, and its columns are the input's columns other than `plasmid_pool_ESS`, both in their original order |
| Filter.FilterCell | src/screen_dynamics.py:41-79 | each output cell is the input cell at the same guide and column, masked when the guide is of the column's opposite library or the value is not strictly above the threshold |
| Filter.FilterNeverInvents | src/screen_dynamics.py:41-79 | every defined output cell holds the input's value at the same guide and column, and that value is strictly above the threshold; a missing input cell never becomes defined |
| Filter.FilterKeepsExactly | src/screen_dynamics.py:48-79 | a kept cell is defined iff its guide is not of the opposite library and its input value is defined and above the threshold, so values at or below the threshold become missing |
| Filter.WntMaskedInTcrSamples | src/screen_dynamics.py:48-51 | a `Wnt` guide is missing in every `TCR`/`Jurkat` column of the output |
| Filter.TcrMaskedInWntSamples | src/screen_dynamics.py:52-54 | a `Tcr` guide is missing in every output column that names `WNT`/`HEK` but not `TCR`/`Jurkat` |
| Filter.TcrTestTakesPriority | src/screen_dynamics.py:49-53 | in a column naming both libraries, a `Tcr` guide that is not a `Wnt` guide keeps a value above the threshold: the `TCR`/`Jurkat` test wins |
| Filter.ReferenceMasks | src/screen_dynamics.py:43-58 | the reference keeps every input guide and the output's columns; no unlisted control is defined in it, `Tcr` guides are masked in `TCR`/`Jurkat` columns and `Wnt` guides in the other `WNT`/`HEK` columns, and its defined cells hold input values |
| Filter.FailsIffNoReferenceValue | src/screen_dynamics.py:64-68 | the filter fails exactly when every reference cell is missing (empty percentile input) |
| Filter.ThresholdFromReference | src/screen_dynamics.py:64-68 | the threshold lies between two values that are defined cells of the reference frame |
| Filter.Working | src/screen_dynamics.py:41-58 | the closed-form working frame is rectangular |
| Filter.Reference | src/screen_dynamics.py:43-58 | the closed-form reference frame is rectangular |
| Frames.DefinedValuesIff | src/screen_dynamics.py:62-64 | a value is among a frame's non-NaN values exactly when some cell holds it |
| Frames.DefinedCellsIff | src/screen_dynamics.py:64 | a value is among a row's non-NaN values exactly when some cell of the row holds it |
| Frames.DefinedValuesEmpty | src/screen_dynamics.py:64-68 | a frame has no non-NaN value exactly when every cell is missing |
| Seqs.SelectUnlisted | src/screen_dynamics.py:41 | selecting the positions of a mask `~isin(listed)` keeps exactly the elements not listed, in order |
| Seqs.TrueIndicesCharacterised | src/screen_dynamics.py:41 | the selected positions increase strictly and are exactly the positions where the mask holds |
| Text.ContainsIff | src/screen_dynamics.py:49 | the substring test holds exactly when some position of the string starts a copy of the substring |
| Text.LastOccurrence | src/screen_dynamics.py:347 | the result is an occurrence, no later occurrence exists, and `None` means no occurrence at all |
| Percentile.Sort | src/screen_dynamics.py:68 | the sorted sample is ordered and a permutation of the sample |
| Percentile.Insert | src/screen_dynamics.py:68 | inserting into a sorted sample keeps it sorted and adds exactly one element |
| Percentile.LowerPosition | src/screen_dynamics.py:68 | floor((n - 1) * 0.95) is a position of the sorted sample |
| Percentile.Fraction | src/screen_dynamics.py:68 | the interpolation weight lies in [0, 1) |
| Percentile.InterpolateBetween | src/screen_dynamics.py:68 | linear interpolation stays between its two neighbours |
| Percentile.Percentile95Bounds | src/screen_dynamics.py:68 | the 95th percentile lies between two values of the sample, the sorted neighbours around position (n - 1) * 0.95 |
| Percentile.VirtualIndex | src/screen_dynamics.py:68 | the lower position and the interpolation weight add up to numpy's virtual index (n - 1) * 0.95 |
| Percentile.Percentile95 | src/screen_dynamics.py:68 | the 95th percentile lies between the smallest and the largest sample value |
| Percentile.InSorted | src/screen_dynamics.py:68 | every value of the sorted sample is a sample value |
| Percentile.Percentile95OfConstant | src/screen_dynamics.py:68 | a constant sample has that constant as its percentile |
| Normalize.NormalizeColumns | src/screen_dynamics.py:84-88 | normalisation fails exactly when some column sums to zero while holding a nonzero cell; otherwise it keeps the guides and columns and normalises each column on its own |
| Normalize.NormalizeKeepsMissing | src/screen_dynamics.py:88 | a missing cell stays missing; in a column with a nonzero sum a defined cell stays defined; in a column summing to zero every cell becomes missing (0 / 0) |
| Normalize.NormalizedColumnSums | src/screen_dynamics.py:415-422 | a normalised column whose sum was nonzero has defined cells adding up to 10,000 |
| Normalize.NormalizedTotal | src/screen_dynamics.py:88 | a column with a nonzero sum normalises to a column summing to 10,000 |
| Normalize.TotalOfShares | src/screen_dynamics.py:88 | dividing every cell by t and scaling by 10,000 does the same to the column sum |
| Normalize.TotalMissing | src/screen_dynamics.py:88 | an all-missing column sums to zero (`skipna`) |
| Normalize.CellShare | src/screen_dynamics.py:88 | each cell adds (x / t) * 10,000 to the normalised sum |
| Normalize.NormalizeKeepsOrder | src/screen_dynamics.py:84-88 | in a column with a positive sum, one defined cell is below another after normalising exactly when it was before |
| Normalize.NormalizeColumnIdempotent | src/screen_dynamics.py:88 | a normalised column never divides by zero, and normalising it again changes nothing |
| Normalize.NormalizeIdempotent | src/screen_dynamics.py:84-88 | normalising a normalised frame succeeds and gives the same frame |
| Normalize.NormalizeExample | src/screen_dynamics.py:88 | counts 1, missing, 3 become 2,500, missing, 7,500 |
| Normalize.FirstZeroColumn | src/screen_dynamics.py:84-88 | the column it finds divides by zero and no earlier column does; `None` means no column does |
| Normalize.NormalizeByTotal | src/screen_dynamics.py:84-88 | a failure names the first column that sums to zero while holding a nonzero cell (the same expression is written inline at lines 415-421); on success no column does, and the guides and columns are kept |
| Normalize.ShareMonotone | src/screen_dynamics.py:88 | for a positive total, shares compare exactly as the counts do |
| Normalize.FrameByColumns | src/screen_dynamics.py:88 | a frame is determined by its labels and its columns (`apply(axis=0)` rebuilds it column by column) |
| Categories.ClassifyIsFirstMatch | src/screen_dynamics.py:146-150 | the classifier is the scan of the palette order for the first tag the id contains |
| Categories.ClassifyCharacterised | src/screen_dynamics.py:146-150 | a guide gets category c iff its id contains c's tag and no earlier tag; it gets none iff it contains no tag |
| Categories.EarliestTagWins | src/screen_dynamics.py:209-213 | an id with both `Wnt` and `CTRL` is coloured as a Wnt guide |
| Categories.ClassifyAll | src/screen_dynamics.py:264-268 | on success the series is non-empty and there is one category per guide, each its classification; it fails with `EmptySeries` exactly when there is no guide (a zero-row `apply` gives back a frame, which has no `tolist`), and otherwise names the first guide with no tag |
| Categories.ClassifyAllFails | src/screen_dynamics.py:333-337 | colouring a plot fails exactly when the series is empty or some guide has no tag |
| Categories.Rank | src/screen_dynamics.py:146-150 | a category's palette position holds that category |
| Categories.ValuesTaggedIff | src/screen_dynamics.py:99-100 | a value is in the control selection exactly when some guide whose id contains the tag holds it, and the selection is no longer than the series |
| Categories.ValuesTaggedIsSelection | src/screen_dynamics.py:99-100 | the control selection is the sequence of values at the positions of the guides containing the tag, in series order, with repeated values kept |
| Ranking.RanksArePermutation | src/screen_dynamics.py:270 | the ranks of the defined values are exactly 1..n for n defined values, no two equal |
| Ranking.RankBounds | src/screen_dynamics.py:270 | every rank lies in 1..n |
| Ranking.LargerRanksFirst | src/screen_dynamics.py:270 | a strictly larger value gets a strictly smaller rank |
| Ranking.TiesInOrder | src/screen_dynamics.py:339 | of two equal values the earlier gets the smaller rank |
| Ranking.RankOrder | src/screen_dynamics.py:270 | one rank is below another iff its value is larger, or equal and earlier |
| Ranking.RankFirstShape | src/screen_dynamics.py:339 | the rank series has a rank exactly where the value is defined (`na_option="keep"`) |
| Ranking.RankFirst | src/screen_dynamics.py:339 | the rank series has one entry per value, and every rank lies between 1 and the number of defined values |
| Ranking.RankExample | src/screen_dynamics.py:270 | fold-changes 2.0, -1.0, 0.5 rank 1, 3, 2 |
| Stimulus.StimulusDifferences | src/screen_dynamics.py:320-337 | the pair loop (take a panel, check the partner, take the difference, join, colour the series) returns exactly `StimulusSpec`, including its four failures (a colour failure carrying its cause: an empty series or an untagged guide), the first failing iteration deciding which |
| Stimulus.StimulusSucceedsIff | src/screen_dynamics.py:321-337 | the pairing succeeds exactly when there are two, four or six columns, every pair has some guide with both fold-changes defined, and every guide with both fold-changes of some pair carries one of the four tags; otherwise `xxx` is unbound, a partner or a panel is missing, or a colour lookup raises |
| Stimulus.PairColouredIff | src/screen_dynamics.py:323-337 | a pair's series can be coloured exactly when some guide has both of the pair's fold-changes defined and every such guide has a tag |
| Stimulus.StimulusUncoloured | src/screen_dynamics.py:321-337 | a colour failure names a pair within the three panels whose predecessors were all coloured, and its cause: an empty series exactly when no guide has both fold-changes, otherwise a guide of its series with no tag |
| Stimulus.StimulusSpec | src/screen_dynamics.py:320-330 | on success there were two, four or six columns, and the table is rectangular with one column per pair |
| Stimulus.StimulusTable | src/screen_dynamics.py:320-330 | one column per pair, labelled with reversed column 2m + 1; the rows are the input guides with some defined difference, in input order |
| Stimulus.StimulusKeepsGuide | src/screen_dynamics.py:323-330 | a guide is in the table exactly when, for some pair, both of its fold-changes are defined |
| Stimulus.StimulusCell | src/screen_dynamics.py:323 | cell (k, m) holds the difference of pair m for the k-th kept guide: later minus earlier, defined only where both are |
| Stimulus.PairColumn | src/screen_dynamics.py:323 | one difference per guide |
| Stimulus.PairColumns | src/screen_dynamics.py:321-330 | one difference column per pair, each over every guide |
| Stimulus.Joined | src/screen_dynamics.py:328-330 | the joined table is rectangular |
| Stimulus.StimulusLabelRoundTrip | src/screen_dynamics.py:347 | stripping `_stimulated` from `p + "_stimulated"` gives back `p`, for any `p` |
| Stimulus.StimulusLabelMissing | src/screen_dynamics.py:347 | a label gets no sample name exactly when it does not contain `_stimulated` |
| Stimulus.StimulusLabel | src/screen_dynamics.py:347 | an extracted name is followed in the label by `_stimulated`, and no later occurrence of `_stimulated` starts after it (the greedy group) |
| Baselines.ChooseOriginal | src/screen_dynamics.py:125-131 | for original plots a `WNT` screen compares with `plasmid_pool_WNT`, overriding the `TCR` choice; `Wnt` guides are dropped iff `TCR` is named, `Tcr` guides iff `WNT` is |
| Baselines.ChooseScreen | src/screen_dynamics.py:132-141 | for screen plots `_6_WNT` overrides `_4_WNT`, which overrides `TCR`; the dropped tags follow the same tests |
| Baselines.ChoosePlasmid | src/screen_dynamics.py:142-143 | plasmid plots compare with `x[0]`, the column labelled `0` (not the first by position), and drop nothing |
| Baselines.Choose | src/screen_dynamics.py:125-143 | a screen for which no test applies drops no guides, and the only tags ever dropped are `Wnt` and `Tcr` |
| Baselines.OppositeLibraryDropped | src/screen_dynamics.py:125-141 | a TCR baseline always comes with the Wnt guides dropped, a WNT baseline with the Tcr guides dropped |
| Baselines.WithoutIff | src/screen_dynamics.py:126 | one `.ix[~contains(tag)]` keeps exactly the guides without the tag |
| Baselines.RemainingIff | src/screen_dynamics.py:125-141 | a guide is plotted exactly when it carries none of the dropped tags |
| Baselines.ScatterBaselines | src/screen_dynamics.py:121-152 | the screen loop, with `b` carried across iterations and the six panels indexed, returns exactly `ScatterUpTo` |
| Baselines.CarriedIsLatest | src/screen_dynamics.py:125-143 | the carried `b` is unbound iff no screen so far chose one, and otherwise is the choice of the latest screen that chose one |
| Baselines.ScatterUpToIff | src/screen_dynamics.py:121-152 | the panels up to k succeed exactly when k is at most six and the first screen chooses a baseline; panel i then shows the baseline carried after screen i |
| Baselines.ScatterUpTo | src/screen_dynamics.py:121-152 | on success there is one baseline per screen and at most six screens; a failure names a screen already reached |
| Baselines.ScatterFails | src/screen_dynamics.py:121-152 | the scatter fails exactly with more than six screens or a first screen with no baseline, and in the latter case the failure is on screen 0 |
| Baselines.FailureSticks | src/screen_dynamics.py:121-152 | once a panel fails, later screens do not change the outcome |
| Tally.ScreenCounts | src/screen_dynamics.py:401 | the tally is a rectangular frame |
| Tally.ScreenCountsShape | src/screen_dynamics.py:401 | rows are the assigned guides and columns the experiments with an assigned cell, each once; every cell is defined (`fill_value=0`) and holds its count |
| Tally.CountZeroIff | src/screen_dynamics.py:401 | a count is zero exactly when no record has that experiment and guide |
| Tally.Count | src/screen_dynamics.py:401 | a group's size never exceeds the number of assigned cells of its experiment |
| Tally.ScreenColumnTotal | src/screen_dynamics.py:401 | each column adds up to the number of assigned cells of its experiment, which is at least one, so no column of the raw tally sums to zero |
| Tally.AssignedGuides | src/screen_dynamics.py:401 | the grouped guides are exactly the assignments present (missing ones dropped) |
| Tally.AssignedExperiments | src/screen_dynamics.py:401 | the grouped experiments are exactly those with an assigned cell |
| Tally.DistinctProperties | src/screen_dynamics.py:401 | the distinct labels have no repeats and the same members |
| Tally.SumCountsTotal | src/screen_dynamics.py:401 | adding the counts of distinct guides covering every assignment of an experiment gives its number of assigned cells |

## Left out

- Reading and writing CSV/TSV files, the directory globals, annotation loading and the module-level loops that append per-sample tables (lines 351-403 and the `to_csv` calls): I/O.
- Every matplotlib/seaborn call (figures, `distplot`, titles, `savefig`, palette RGB values): presentation only. Categories are an enum instead of colours.
- log2 fold-changes and MA values (lines 152, 179-200, 240-255, 297-318): transcendental floating point. The ranking and the pairing take fold-changes as given reals, and the loop that builds `xx` in `gRNA_rank_stimulus` is not modelled.
- The `screen_zscore` statistic and the `1 / -z` efficiency (lines 94-97, 471): standard deviation and float division. Only the control selection (lines 99-100) is modelled.
- `np.random.permutation` of rows (lines 123, 174, 235, 292): randomness. Row order is taken as given, and it is that order that breaks rank ties.
- Floating point: all arithmetic is exact over `real`, `np.percentile` included, so rounding is not modelled.
- Duplicate labels: selections are by position, which matches pandas' label-based `.loc`, `.ix`, `drop` and `xx[...]` only when guide ids and column labels are distinct.
- Stimulus.StimulusDifferences: keeps the input's row order, whereas pandas' outer join sorts the union of guide ids.
- Tally.ScreenCounts: lists guides and experiments in order of first occurrence, whereas `pivot_table` sorts them.
- Normalize.NormalizeByTotal: a zero-sum column with a nonzero cell (possible only with negative values) is a `Failure`, where pandas yields infinity. An all-zero column becomes all missing, as pandas does, and is not flagged.
- Scale invariance of normalisation is not stated.
- `gRNA_rank_stimulus` reads the global `s1` and ignores its `xx` parameter (line 291). The model takes the fold-change table as an explicit input, with its screen columns in the order of `s2`'s columns, and reverses them itself as line 320 does. The table the function builds in its first loop (lines 296-318) holds those columns already reversed; since line 323 picks each column by name, that order does not change the pairs.
- `gRNA_maplot`, `gRNA_rank` and the first loop of `gRNA_rank_stimulus` repeat the baseline tests but compute `fc` inline. Only `gRNA_scatter`'s choice of `b` (lines 125-143) is modelled.
- Baselines.ScatterBaselines: does not model the colour classification of the same iteration (lines 145-150), which can fail before the panel is drawn, on an untagged guide or an empty series. It also treats `b` as the chosen column's name, not the series taken from the previous iteration's rows.
- Stimulus.StimulusLabel: the regular expression's `.` does not match a line break, and labels containing one are not modelled.
- `str.contains("Essential|CTRL")` is modelled as two substring tests; none of the tags contains a regular-expression metacharacter.
