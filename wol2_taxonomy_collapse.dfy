/**
 * Collapse over the seven Web of Life 2 levels
 * (scripts/4_wol2_taxonomy_tbl_collapse.py, `group_by_taxonomy_levels`):
 * transpose the loaded table, merge the reference lineages onto its rows,
 * then for each level group the rows by that level's token, keep the result
 * under the level's name and write it to a file named after the input's
 * filter type and the level.
 */
module Wol2TaxonomyCollapse {
  import opened Wrappers
  import opened Tables
  import opened Taxonomy

  const Levels: seq<string> := ["Kingdom", "Phylum", "Class", "Order", "Family", "Genus", "Species"]

  const Prefix: string := "../tables/fastp_hg38_t2t_pangenome_193238_feature-table_rare_"

  /** The file a level's table is written to, for input filtered by `inputFilterType` ("ab" or "zebra"). */
  function OutputPath(inputFilterType: string, level: string): (p: string)
    ensures |p| == |Prefix| + |inputFilterType| + 6 + |level| + |CollapsedSuffix|
    ensures p[..|Prefix|] == Prefix && p[|p| - 5..] == ".biom"
    ensures p[|Prefix|..|Prefix| + |inputFilterType|] == inputFilterType
    ensures p[|p| - |CollapsedSuffix| - |level|..|p| - |CollapsedSuffix|] == level
  {
    Prefix + inputFilterType + "-filt_" + level + CollapsedSuffix
  }

  /** For one input, different levels are written to different files. */
  lemma {:induction false} OutputPathsDistinct(inputFilterType: string, a: string, b: string)
    requires OutputPath(inputFilterType, a) == OutputPath(inputFilterType, b)
    ensures a == b
  {
    var head := Prefix + inputFilterType + "-filt_";
    assert OutputPath(inputFilterType, a) == head + a + CollapsedSuffix;
    assert OutputPath(inputFilterType, b) == head + b + CollapsedSuffix;
    InfixCancel(head, a, b, CollapsedSuffix);
  }

  /** The abundance-filtered and the coverage-filtered runs never write the same file. */
  lemma {:induction false} FilterTypesDistinct(a: string, b: string)
    ensures OutputPath("ab", a) != OutputPath("zebra", b)
  {
    var n := |Prefix|;
    assert OutputPath("ab", a)[n] == 'a';
    assert OutputPath("zebra", b)[n] == 'z';
  }

  /** No level name is listed twice. */
  lemma {:induction false} LevelsDistinct()
    ensures DistinctNames(Levels)
  {
  }


  /**
   * `group_by_taxonomy_levels` without its file I/O. The table is transposed
   * before the merge, so the merge matches the reference against the
   * transposed table's row labels. The reference's own lineages and the
   * merged lineages must each split into exactly seven pieces (otherwise
   * pandas raises on the column assignment), and the reference lists each
   * id once. The result maps each level name to the table collapsed at that
   * level; `written` lists the (file, table) pairs in the order they are
   * saved.
   */
  method GroupByTaxonomyLevels(t: Table, ref: seq<RefEntry>, inputFilterType: string)
    returns (grouped: map<string, Table>, written: seq<(string, Table)>)
    requires t.Valid()
    requires UniqueIds(ref)
    requires SplitFits(RefLabels(ref), |Levels|)
    requires SplitFits(LeftMerge(Transpose(t).rowIds, ref), |Levels|)
    ensures forall x :: x in grouped <==> x in Levels
    ensures forall k :: 0 <= k < |Levels| ==>
      grouped[Levels[k]] == CollapseAtLevel(Transpose(t), LeftMerge(Transpose(t).rowIds, ref), k)
    ensures |written| == |Levels|
    ensures forall k :: 0 <= k < |Levels| ==> written[k] == (OutputPath(inputFilterType, Levels[k]), grouped[Levels[k]])
  {
    var df := Transpose(t);
    grouped, written := CollapseLevels(df, LeftMerge(df.rowIds, ref), inputFilterType);
  }

  /** The loop over the levels: collapse at each level, keep the table under the level's name and save it. */
  method CollapseLevels(t: Table, labels: seq<Option<string>>, inputFilterType: string)
    returns (grouped: map<string, Table>, written: seq<(string, Table)>)
    requires t.Valid() && |labels| == |t.rows|
    ensures forall x :: x in grouped <==> x in Levels
    ensures forall k :: 0 <= k < |Levels| ==> grouped[Levels[k]] == CollapseAtLevel(t, labels, k)
    ensures |written| == |Levels|
    ensures forall k :: 0 <= k < |Levels| ==> written[k] == (OutputPath(inputFilterType, Levels[k]), grouped[Levels[k]])
  {
    LevelsDistinct();
    grouped := map[];
    written := [];
    var i := 0;
    while i < |Levels|
      invariant 0 <= i <= |Levels|
      invariant LevelsDone(grouped, Levels, i, t, labels)
      invariant |written| == i
      invariant forall k :: 0 <= k < i ==> written[k] == (OutputPath(inputFilterType, Levels[k]), CollapseAtLevel(t, labels, k))
    {
      var level := Levels[i];
      var dfGrouped := CollapseAtLevel(t, labels, i);
      LevelsDoneStep(grouped, Levels, i, t, labels);
      grouped := grouped[level := dfGrouped];
      written := written + [(OutputPath(inputFilterType, level), dfGrouped)];
      i := i + 1;
    }
    LevelsDoneAll(grouped, Levels, t, labels);
  }
}
