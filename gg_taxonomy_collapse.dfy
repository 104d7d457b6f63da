/**
 * Collapse over the seven Greengenes2 levels
 * (scripts/4_gg_taxonomy_tbl_collapse.py, `group_by_taxonomy_levels`):
 * transpose the loaded table, merge the taxonomy's `Taxon` lineages onto its
 * rows and group the rows at each level in turn. Only one table is written,
 * after the loop: the one of the loop's last level.
 */
module GgTaxonomyCollapse {
  import opened Wrappers
  import opened Tables
  import opened Taxonomy

  const Levels: seq<string> := ["Kingdom", "Phylum", "Class", "Order", "Family", "Genus", "Species"]

  const Prefix: string := "../tables/fastp_hg38_t2t_pangenome_193238_feature-table_rare_ab-filt_"

  /**
   * The file a level's table is written to; the input is always the
   * abundance-filtered table. It is a `.biom` file whose name carries the
   * level, which can be read back from it.
   */
  function OutputPath(level: string): (p: string)
    ensures |p| == |Prefix| + |level| + |CollapsedSuffix|
    ensures p[..|Prefix|] == Prefix && p[|p| - 5..] == ".biom"
    ensures p[|Prefix|..|p| - |CollapsedSuffix|] == level
  {
    Prefix + level + CollapsedSuffix
  }

  lemma {:induction false} LevelsDistinct()
    ensures DistinctNames(Levels)
  {
  }


  /**
   * `group_by_taxonomy_levels` without its file I/O. The merged lineages
   * must split into exactly seven pieces and the taxonomy lists each id
   * once. Every level's table is kept, but the single file written holds
   * the species table, the value the loop variable has after the loop.
   */
  method GroupByTaxonomyLevels(t: Table, taxonomy: seq<RefEntry>)
    returns (grouped: map<string, Table>, written: seq<(string, Table)>)
    requires t.Valid()
    requires UniqueIds(taxonomy)
    requires SplitFits(LeftMerge(Transpose(t).rowIds, taxonomy), |Levels|)
    ensures forall x :: x in grouped <==> x in Levels
    ensures forall k :: 0 <= k < |Levels| ==>
      grouped[Levels[k]] == CollapseAtLevel(Transpose(t), LeftMerge(Transpose(t).rowIds, taxonomy), k)
    ensures written == [(OutputPath("Species"), grouped["Species"])]
  {
    var df := Transpose(t);
    var level;
    grouped, level := CollapseLevels(df, LeftMerge(df.rowIds, taxonomy));
    written := [(OutputPath(level), grouped[level])];
  }

  /**
   * The loop over the levels: collapse at each level and keep the table
   * under the level's name. `level` is the loop variable's final value.
   */
  method CollapseLevels(t: Table, labels: seq<Option<string>>)
    returns (grouped: map<string, Table>, level: string)
    requires t.Valid() && |labels| == |t.rows|
    ensures forall x :: x in grouped <==> x in Levels
    ensures forall k :: 0 <= k < |Levels| ==> grouped[Levels[k]] == CollapseAtLevel(t, labels, k)
    ensures level == Levels[|Levels| - 1]
  {
    LevelsDistinct();
    grouped := map[];
    level := "";
    var i := 0;
    while i < |Levels|
      invariant 0 <= i <= |Levels|
      invariant LevelsDone(grouped, Levels, i, t, labels)
      invariant i > 0 ==> level == Levels[i - 1]
    {
      var name := Levels[i];
      var dfGrouped := CollapseAtLevel(t, labels, i);
      LevelsDoneStep(grouped, Levels, i, t, labels);
      grouped := grouped[name := dfGrouped];
      level := name;
      i := i + 1;
    }
    LevelsDoneAll(grouped, Levels, t, labels);
  }
}
