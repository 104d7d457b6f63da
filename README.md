# Count-table transforms of a metagenomics preprocessing pipeline

This project models the data transformations in a chain of single-shot
pandas scripts that prepare microbiome feature tables. It then proves their
properties in Dafny. The scripts are:

- `1_qza_to_biom.py`: derives the output file name from an artifact path.
- `2_rarefy.py`: rarefies every sample that reaches 1000 reads, using draws
  from one seeded generator.
- `3_feature_abundance_filt.py`: keeps features present in enough samples.
- `3.2_feature_zebra_filt.py`: keeps features whose genome coverage reaches a
  threshold.
- `4_taxonomy_tbl_collapse.py`, `4_wol2_taxonomy_tbl_collapse.py` and
  `4_gg_taxonomy_tbl_collapse.py`: join a reference lineage onto every
  feature and sum the features that share a rank token, once per taxonomic
  level.

A count table is a `Tables.Table`. It holds row labels, column labels and one
row of natural-number counts per row label. Every operation works on rows, as
the scripts do once their own transposes have been applied.

Modules, one per script plus three shared ones:

| module | file | models |
|---|---|---|
| `Wrappers` | tables.dfy | `Option`, used for pandas' nulls (NaN / None) |
| `Tables` | tables.dfy | tables, row sums, `df[mask]` row selection, `df.transpose()` |
| `Rarefy` | rarefy.dfy | `rarefy_table`: a method filling a preallocated array row by row |
| `AbundanceFilter` | abundance_filter.dfy | the prevalence filter |
| `ZebraFilter` | zebra_filter.dfy | the coverage sort and the coverage filter |
| `Taxonomy` | taxonomy.dfy | `str.split(';')`, the left merge, `groupby(level).sum()` |
| `TaxonomyCollapse` | taxonomy_collapse.dfy | the 8-level driver |
| `Wol2TaxonomyCollapse` | wol2_taxonomy_collapse.dfy | the 7-level Web of Life 2 driver |
| `GgTaxonomyCollapse` | gg_taxonomy_collapse.dfy | the 7-level Greengenes2 driver |
| `QzaToBiom` | qza_to_biom.dfy | `rsplit('.qza', 1)[0] + '.biom'` |

How the source's behaviour is stated in the model:

- **The random generator.** `RandomState(seed)` and `choice` become a
  parameter `draws`: the stream of column indices the one shared generator
  yields.
  - Row `i` takes the `Depth` draws that follow those taken by the earlier
    qualifying rows (`Rarefy.Cursor`).
  - `Rarefy.WeightedDraws` states what the `p=row/total` weighting
    guarantees: every draw lands on a column with a positive count.
- **NaN prevalence.** With no columns, pandas computes the prevalence as
  0/0 = NaN, and NaN never passes `>=`. The model writes this prevalence as
  `None`, so such a row is never kept.
- **pandas errors.** Some inputs make pandas raise. Those inputs are excluded
  by preconditions:
  - Assigning `str.split(';', expand=True)` to the level columns raises
    unless the widest lineage has exactly as many pieces as there are
    levels. This becomes `Taxonomy.SplitFits`.
  - A reference id listed twice duplicates rows in the merge. This becomes
    `Taxonomy.UniqueIds`.
- **Group labels.** `groupby` sorts its labels by Python's string order,
  which compares code points (`Taxonomy.Below`). It drops null tokens. It
  keeps empty-string tokens as real groups.

## Model

| member | source | states |
|---|---|---|
| `Rarefy.RarefyTable` | scripts/2_rarefy.py:34-64 | keeps the row labels, column labels and shape. Row `i` is the tally of its own `Depth` draws when its total reaches 1000, and all zeros otherwise. It sums to exactly 1000 or to 0. |
| `Rarefy.Tally` | scripts/2_rarefy.py:59 | `np.bincount(..., minlength=ncols)` yields exactly `ncols` counters |
| `Rarefy.TallyCounts` | scripts/2_rarefy.py:59 | entry `j` of the tally is the number of draws equal to `j` (reference definition `Count`) |
| `Rarefy.TallySum` | scripts/2_rarefy.py:58-59 | the tally distributes exactly as many reads as were drawn |
| `Rarefy.CountBound` | scripts/2_rarefy.py:59 | no counter exceeds the number of draws |
| `Rarefy.QualifyingPrefix` | scripts/2_rarefy.py:54-56 | fewer rows never qualify more often, so the stream length bounds every row's draws |
| `Rarefy.CursorStep` | scripts/2_rarefy.py:51-58 | a qualifying row advances the shared generator by 1000 draws, and any other row leaves it untouched |
| `Rarefy.CursorSeparates` | scripts/2_rarefy.py:51-58 | two qualifying rows consume disjoint stretches of the stream, in row order |
| `Rarefy.RowDraws` | scripts/2_rarefy.py:58 | a qualifying row gets exactly 1000 column indices, each below the column count |
| `Rarefy.RarefiedRow` | scripts/2_rarefy.py:54-60 | row `i` of the rarefied table has one entry per column and sums to exactly 1000 when the row's total reaches 1000, and to 0 otherwise |
| `Rarefy.RarefiedRowShape` | scripts/2_rarefy.py:52-60 | a rarefied row has `ncols` entries, each between 0 and 1000. It sums to 1000 when the row qualifies, and otherwise it is all zeros and sums to 0. |
| `Rarefy.CountAbsent` | scripts/2_rarefy.py:57-59 | a column never drawn gets count 0 |
| `Rarefy.ZeroStaysZero` | scripts/2_rarefy.py:57-59 | with weighted draws, a zero input count stays zero |
| `AbundanceFilter.Positives` | scripts/3_feature_abundance_filt.py:30-33 | the number of present entries is at most the number of columns |
| `AbundanceFilter.Prevalence` | scripts/3_feature_abundance_filt.py:30-33 | the prevalence is NaN exactly when there is no column. It is 0 exactly when the feature is absent from every sample, and 1 exactly when it is present in every sample. |
| `AbundanceFilter.PrevalenceBounds` | scripts/3_feature_abundance_filt.py:30-33 | with at least one column, prevalence is defined and lies in [0, 1] |
| `AbundanceFilter.KeepPrevalent` | scripts/3_feature_abundance_filt.py:36 | the selection is a valid table over the same columns |
| `AbundanceFilter.KeepPrevalentSpec` | scripts/3_feature_abundance_filt.py:30-36 | a row is kept iff its prevalence reaches the threshold. Kept rows keep their labels and contents, in their original order. |
| `AbundanceFilter.DroppedBelowThreshold` | scripts/3_feature_abundance_filt.py:33-36 | a dropped row's prevalence is below the threshold or undefined |
| `AbundanceFilter.RaiseThresholdKeepsSubset` | scripts/3_feature_abundance_filt.py:33-36 | a higher threshold keeps a subset of the rows (by position and by label) |
| `AbundanceFilter.ZeroThresholdKeepsAll` | scripts/3_feature_abundance_filt.py:33-36 | threshold 0 keeps the whole table when there is a column |
| `AbundanceFilter.NoColumnsDropsAll` | scripts/3_feature_abundance_filt.py:33-36 | with no column every prevalence is NaN, so every row is dropped |
| `AbundanceFilter.KeepPrevalentIdempotent` | scripts/3_feature_abundance_filt.py:36 | filtering twice equals filtering once |
| `AbundanceFilter.FeatureAbundanceFilt` | scripts/3_feature_abundance_filt.py:36 | the result is the transpose of the kept rows. The kept features become its columns. |
| `ZebraFilter.Insert` | scripts/3.2_feature_zebra_filt.py:38 | inserting into a non-increasing list keeps it non-increasing and adds exactly one entry |
| `ZebraFilter.SortDescending` | scripts/3.2_feature_zebra_filt.py:38 | the sorted coverage table is a permutation of the input with non-increasing coverage |
| `ZebraFilter.FilteredFeatures` | scripts/3.2_feature_zebra_filt.py:44-46 | the filtered index is no longer than the coverage table, and every id in it is an id of the coverage table |
| `ZebraFilter.FilteredFeaturesMember` | scripts/3.2_feature_zebra_filt.py:44-46 | an id is among the filtered features iff some entry lists it with coverage at or above the threshold |
| `ZebraFilter.CoveredAfterSort` | scripts/3.2_feature_zebra_filt.py:38-46 | the sort does not change which ids pass |
| `ZebraFilter.CoverageMask` | scripts/3.2_feature_zebra_filt.py:44-48 | mask entry `i` is true iff row `i`'s id is listed with enough coverage |
| `ZebraFilter.KeepCovered` | scripts/3.2_feature_zebra_filt.py:48 | the selection is a valid table over the same columns |
| `ZebraFilter.KeepCoveredSpec` | scripts/3.2_feature_zebra_filt.py:44-48 | a row is kept iff its id is listed with enough coverage, and ids missing from the coverage table are dropped. Kept rows are unchanged and stay in table order. |
| `ZebraFilter.RaiseThresholdKeepsSubset` | scripts/3.2_feature_zebra_filt.py:44-48 | a higher threshold keeps a subset of the rows |
| `ZebraFilter.KeepCoveredIdempotent` | scripts/3.2_feature_zebra_filt.py:44-48 | reapplying the filter changes nothing |
| `ZebraFilter.FeatureZebraFilt` | scripts/3.2_feature_zebra_filt.py:48-56 | the table written to `filtered_biom_path` is the transpose of the kept rows (the Python function itself returns None) |
| `Tables.Transpose` | scripts/3_feature_abundance_filt.py:36 | `df.transpose()` swaps the label axes and moves entry (i, j) to (j, i) |
| `Tables.TransposeTwice` | scripts/3.2_feature_zebra_filt.py:30-50 | transposing twice gives back the table |
| `Tables.Masked` | scripts/3_feature_abundance_filt.py:36 | `s[mask]` is no longer than `s` and holds only elements of `s` |
| `Tables.SelectRows` | scripts/3_feature_abundance_filt.py:36 | `df[mask]` is a valid table over the same columns |
| `Tables.SelectRowsAt` | scripts/3_feature_abundance_filt.py:36 | `df[mask]` holds the rows at the kept positions, unchanged and in order |
| `Tables.KeptIndices` | scripts/3.2_feature_zebra_filt.py:48 | the kept positions are exactly the true mask entries, strictly increasing |
| `Taxonomy.Split` | scripts/4_taxonomy_tbl_collapse.py:43 | `str.split(';')` yields at least one piece, and no piece holds a separator |
| `Taxonomy.JoinSplit` | scripts/4_taxonomy_tbl_collapse.py:53 | joining the pieces with ';' gives back the lineage |
| `Taxonomy.SplitJoin` | scripts/4_taxonomy_tbl_collapse.py:53 | splitting a join of separator-free pieces gives back the pieces |
| `Taxonomy.Token` | scripts/4_taxonomy_tbl_collapse.py:53 | a row's token at a level is present exactly when its lineage has a piece at that level, and a present token holds no separator |
| `Taxonomy.TokenOfLineage` | scripts/4_taxonomy_tbl_collapse.py:43-53 | the token at level i of `r0;r1;...` is `ri`, or null past the last piece |
| `Taxonomy.Width` | scripts/4_taxonomy_tbl_collapse.py:53 | the number of columns `str.split(';', expand=True)` produces is at least every lineage's piece count |
| `Taxonomy.WidthIsLargestPieceCount` | scripts/4_taxonomy_tbl_collapse.py:53 | the width is attained: some lineage has exactly that many pieces |
| `Taxonomy.WidthBoundsTokens` | scripts/4_taxonomy_tbl_collapse.py:53 | when the width equals the level count, no lineage has a token past the last level and some lineage fills every level |
| `Taxonomy.Lookup` | scripts/4_taxonomy_tbl_collapse.py:47 | the reference's lineage for an id, or null exactly when the id is not listed |
| `Taxonomy.LookupListed` | scripts/4_taxonomy_tbl_collapse.py:47 | with unique ids, a listed id gets its own lineage |
| `Taxonomy.LeftMerge` | scripts/4_taxonomy_tbl_collapse.py:47 | the merge keeps every table row in order. A row the reference does not list gets null, and a listed row gets its lineage. |
| `Taxonomy.BelowIrreflexive` | scripts/4_taxonomy_tbl_collapse.py:56 | Python string order is irreflexive |
| `Taxonomy.BelowTransitive` | scripts/4_taxonomy_tbl_collapse.py:56 | Python string order is transitive |
| `Taxonomy.BelowTotal` | scripts/4_taxonomy_tbl_collapse.py:56 | Python string order is total |
| `Taxonomy.SortedDistinct` | scripts/4_taxonomy_tbl_collapse.py:56 | strictly sorted labels are distinct |
| `Taxonomy.InsertKey` | scripts/4_taxonomy_tbl_collapse.py:56 | adding a label keeps the labels strictly sorted and adds exactly that label |
| `Taxonomy.GroupKeys` | scripts/4_taxonomy_tbl_collapse.py:56 | the group labels are strictly ascending and are exactly the non-null tokens |
| `Taxonomy.GroupRow` | scripts/4_taxonomy_tbl_collapse.py:56 | a group's row has one entry per sample column |
| `Taxonomy.GroupRowAt` | scripts/4_taxonomy_tbl_collapse.py:56 | entry `j` of a group's row is the sum of column `j` over the rows with that token |
| `Taxonomy.CollapseAtLevel` | scripts/4_taxonomy_tbl_collapse.py:56 | the collapsed table keeps the sample columns, and its labels are sorted, distinct and exactly the non-null tokens at the level |
| `Taxonomy.CollapsedRowIsSum` | scripts/4_taxonomy_tbl_collapse.py:56 | each collapsed row is the elementwise sum of the rows with its token |
| `Taxonomy.CollapsePartition` | scripts/4_taxonomy_tbl_collapse.py:56 | a row with a non-null token lies in exactly one group |
| `Taxonomy.KeyTotalIsMaskedSum` | scripts/4_taxonomy_tbl_collapse.py:56 | summing distinct groups counts each member row once |
| `Taxonomy.GroupColumnTotal` | scripts/4_taxonomy_tbl_collapse.py:56 | a column total over the groups is the sum of the groups' totals |
| `Taxonomy.CollapseConservesTotals` | scripts/4_taxonomy_tbl_collapse.py:56 | every sample's collapsed total equals its total over the rows with a non-null token |
| `Taxonomy.CollapseKeepsAllCounts` | scripts/4_taxonomy_tbl_collapse.py:56 | when every row has a token at the level, each sample's total is kept exactly |
| `Taxonomy.NullTokenRowIgnored` | scripts/4_taxonomy_tbl_collapse.py:56 | there is no catch-all group: a null-token row's counts never reach the level's table |
| `Taxonomy.LevelsDoneStep` | scripts/4_taxonomy_tbl_collapse.py:51-59 | storing one level's table under its name extends the filled dictionary by one level and does not change the others |
| `Taxonomy.LevelsDoneAll` | scripts/4_taxonomy_tbl_collapse.py:51-75 | after the last level the dictionary holds exactly the level names |
| `TaxonomyCollapse.GroupByTaxonomyLevels` | scripts/4_taxonomy_tbl_collapse.py:40-75 | the result's keys are exactly the 8 level names, and each holds the merged table collapsed at that level's original positional token. The 8 files are written in level order, each at its own path. |
| `TaxonomyCollapse.CollapseLevels` | scripts/4_taxonomy_tbl_collapse.py:51-72 | the level loop fills the dictionary and the list of written files |
| `TaxonomyCollapse.OutputPathsDistinct` | scripts/4_taxonomy_tbl_collapse.py:69 | different levels get different output files |
| `TaxonomyCollapse.LevelsDistinct` | scripts/4_taxonomy_tbl_collapse.py:40 | the 8 level names are distinct |
| `TaxonomyCollapse.OutputPath` | scripts/4_taxonomy_tbl_collapse.py:69 | the path is a `.biom` file in `../tables/tables_rs210/per_genome/`, and the level's name can be read back from it |
| `Wol2TaxonomyCollapse.GroupByTaxonomyLevels` | scripts/4_wol2_taxonomy_tbl_collapse.py:26-77 | the loaded table is transposed before the merge. The result's keys are exactly the 7 level names, each with its collapsed table, and one file per level is written. |
| `Wol2TaxonomyCollapse.CollapseLevels` | scripts/4_wol2_taxonomy_tbl_collapse.py:54-74 | the level loop fills the dictionary and writes each level's table to a name with the filter type and the level |
| `Wol2TaxonomyCollapse.OutputPathsDistinct` | scripts/4_wol2_taxonomy_tbl_collapse.py:71 | for one filter type, different levels get different files |
| `Wol2TaxonomyCollapse.FilterTypesDistinct` | scripts/4_wol2_taxonomy_tbl_collapse.py:71-92 | the abundance- and coverage-filtered runs never write the same file |
| `Wol2TaxonomyCollapse.LevelsDistinct` | scripts/4_wol2_taxonomy_tbl_collapse.py:50 | the 7 level names are distinct |
| `Wol2TaxonomyCollapse.OutputPath` | scripts/4_wol2_taxonomy_tbl_collapse.py:71 | the path is a `.biom` file after the fixed table prefix, and both the filter type and the level can be read back from it |
| `GgTaxonomyCollapse.GroupByTaxonomyLevels` | scripts/4_gg_taxonomy_tbl_collapse.py:30-70 | the result holds all 7 levels. The single written file holds the Species table, the loop variable's final value. |
| `GgTaxonomyCollapse.CollapseLevels` | scripts/4_gg_taxonomy_tbl_collapse.py:47-55 | the loop fills the dictionary and leaves `level` at the last level name |
| `GgTaxonomyCollapse.LevelsDistinct` | scripts/4_gg_taxonomy_tbl_collapse.py:43 | the 7 level names are distinct |
| `GgTaxonomyCollapse.OutputPath` | scripts/4_gg_taxonomy_tbl_collapse.py:65 | the path is a `.biom` file named after the abundance-filtered table, and the level's name can be read back from it |
| `QzaToBiom.LastBefore` | scripts/1_qza_to_biom.py:25 | the search from the right finds the last occurrence below a bound, or reports that there is none |
| `QzaToBiom.LastIndexOf` | scripts/1_qza_to_biom.py:25 | `rfind`: an occurrence with none after it, or none at all exactly when the pattern never occurs |
| `QzaToBiom.RSplitOnce` | scripts/1_qza_to_biom.py:25 | `rsplit(sep, 1)` gives back the whole string when `sep` is absent. Otherwise it splits into a head and a tail that rejoin to the string, and the tail has no `sep`. |
| `QzaToBiom.BiomOutputPath` | scripts/1_qza_to_biom.py:25 | the output always ends in ".biom", and a path without ".qza" just gains ".biom" |
| `QzaToBiom.LastQzaReplaced` | scripts/1_qza_to_biom.py:25 | the output is the text before the last ".qza" plus ".biom", of length k + 5 |
| `QzaToBiom.TrailingQzaReplaced` | scripts/1_qza_to_biom.py:25 | a path ending in ".qza" loses those 4 characters and gains ".biom" |
| `QzaToBiom.OutputLength` | scripts/1_qza_to_biom.py:25 | the output is 5 longer than the text before the last ".qza", or 5 longer than the whole path |

## Behaviour of the code that differs from the usual convention

The model follows the code in each case:

- **Draws.** Rarefaction usually subsamples a sample's reads without
  replacement. The code calls `choice(..., p=...)`, which draws with
  replacement, from one generator shared by every row
  (scripts/2_rarefy.py:51-58). So a row's draws depend on how many earlier
  rows qualified (`Rarefy.CursorSeparates`).
- **Depth.** The docstring promises rarefaction to the table's minimum
  sampling depth (scripts/2_rarefy.py:36). The code fixes the depth at
  1000 and leaves the minimum computation commented out
  (scripts/2_rarefy.py:46-47).
- **Missing tokens.** An "unassigned" group for features with a missing
  token would be the usual convention. The code drops null tokens, because
  `groupby` drops null keys (`Taxonomy.NullTokenRowIgnored`). It keeps an
  empty token as a group labelled "".
- **Filter type.** The 8-level script's docstring describes
  `input_filter_type` as a toggle between the two filtered inputs
  (scripts/4_taxonomy_tbl_collapse.py:20). Its output names ignore it
  (scripts/4_taxonomy_tbl_collapse.py:69).

## Left out

- File I/O is not modelled: BIOM/HDF5 loading and saving, `read_csv`,
  `to_csv`, `q2.Artifact.load` and the module-level Greengenes2 load. Each
  written file appears only as a (path, table) pair in `written`.
- Logging, the `__main__` blocks and their try/except handling are not
  modelled.
- numpy's `RandomState` and `choice` internals and the float probabilities
  are not modelled. They are replaced by the draw stream `draws`. That the
  stream follows the count weighting is the assumption
  `WeightedDraws` (used by `Rarefy.ZeroStaysZero`). Reproducibility for a
  fixed seed holds because `Rarefy.RarefyTable`'s ensures fix every output
  row as a function of the table and the stream.
- Float rounding in the prevalence division and in the coverage comparison
  is not modelled; both use exact `real` arithmetic. Prevalence is not
  restated as an integer cross-multiplication.
- The split-width `ValueError` is not modelled as an error result. The
  column assignment raises when the widest lineage does not split into
  exactly the level count, and the model makes that a precondition
  (`Taxonomy.SplitFits`).
- Duplicate reference ids are not modelled. The merge would duplicate rows,
  so the model requires unique ids (`Taxonomy.UniqueIds`).
- The merge output keeps only the lineage column. The reference's other
  columns do not reach the collapsed tables, except as noted below for
  Greengenes2.
- `numeric_only=True` needs no modelling because the count columns are the
  only numeric ones.
- GgTaxonomyCollapse.GroupByTaxonomyLevels: does not model that
  `.sum()` without `numeric_only` also concatenates the string columns
  (`Taxon`, `Confidence`, the level columns) into the grouped frame. Only
  the count columns are modelled.
- The sample axis is not modelled as such; every operation works on rows.
  Which axis holds the samples differs between scripts: the rarefy and
  filter scripts transpose after loading, the 8-level collapse does not,
  and the Web of Life 2 and Greengenes2 collapses do.
- The reference-split loop at scripts/4_taxonomy_tbl_collapse.py:41-43 and
  scripts/4_wol2_taxonomy_tbl_collapse.py:41-43 repeats one assignment.
  It is modelled once, as the `SplitFits(RefLabels(ref), ...)`
  precondition.
- ZebraFilter.SortDescending: pandas' default sort is not stable, so its
  order among equal coverages is unspecified. The model fixes one such
  order; only the written sorted file depends on it, never the selection
  (`ZebraFilter.CoveredAfterSort`).
- Writing the sorted coverage file (scripts/3.2_feature_zebra_filt.py:40)
  is not modelled, as it is I/O.
