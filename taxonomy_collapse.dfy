/**
 * Collapse over the eight RefSeq-style levels
 * (scripts/4_taxonomy_tbl_collapse.py, `group_by_taxonomy_levels`): merge
 * the reference lineages onto the rows, then for each level in turn group
 * the rows by that level's token, keep the result under the level's name
 * and write it to the level's own file.
 */
module TaxonomyCollapse {
  import opened Wrappers
  import opened Tables
  import opened Taxonomy

  const Levels: seq<string> := ["Kingdom", "Phylum", "Class", "Order", "Family", "Genus", "Species", "Species-gOTU"]

  const OutputDir: string := "../tables/tables_rs210/per_genome/"

  /**
   * The file each level's table is written to: a `.biom` file in the output
   * directory from whose name the level can be read back.
   */
  function OutputPath(level: string): (p: string)
    ensures |p| == |OutputDir| + |level| + |CollapsedSuffix|
    ensures p[..|OutputDir|] == OutputDir && p[|p| - 5..] == ".biom"
    ensures p[|OutputDir|..|p| - |CollapsedSuffix|] == level
  {
    OutputDir + level + CollapsedSuffix
  }

  /** Different levels are written to different files. */
  lemma {:induction false} OutputPathsDistinct(a: string, b: string)
    requires OutputPath(a) == OutputPath(b)
    ensures a == b
  {
    InfixCancel(OutputDir, a, b, CollapsedSuffix);
  }

  /** No level name is listed twice. */
  lemma {:induction false} LevelsDistinct()
    ensures DistinctNames(Levels)
  {
  }


  /**
   * `group_by_taxonomy_levels` without its file I/O. The reference file's
   * lineages and the merged lineages must each split into exactly as many
   * pieces as there are levels (otherwise pandas raises on the column
   * assignment), and the reference lists each id once. The result maps each
   * level name to the table collapsed at that level; `written` lists the
   * (file, table) pairs in the order they are saved.
   */
  method GroupByTaxonomyLevels(t: Table, ref: seq<RefEntry>, inputFilterType: string)
    returns (grouped: map<string, Table>, written: seq<(string, Table)>)
    requires t.Valid()
    requires UniqueIds(ref)
    requires SplitFits(RefLabels(ref), |Levels|)
    requires SplitFits(LeftMerge(t.rowIds, ref), |Levels|)
    ensures forall x :: x in grouped <==> x in Levels
    ensures forall k :: 0 <= k < |Levels| ==> grouped[Levels[k]] == CollapseAtLevel(t, LeftMerge(t.rowIds, ref), k)
    ensures |written| == |Levels|
    ensures forall k :: 0 <= k < |Levels| ==> written[k] == (OutputPath(Levels[k]), grouped[Levels[k]])
  {
    grouped, written := CollapseLevels(t, LeftMerge(t.rowIds, ref));
  }

  /** The loop over the levels: collapse at each level, keep the table under the level's name and save it. */
  method CollapseLevels(t: Table, labels: seq<Option<string>>)
    returns (grouped: map<string, Table>, written: seq<(string, Table)>)
    requires t.Valid() && |labels| == |t.rows|
    ensures forall x :: x in grouped <==> x in Levels
    ensures forall k :: 0 <= k < |Levels| ==> grouped[Levels[k]] == CollapseAtLevel(t, labels, k)
    ensures |written| == |Levels|
    ensures forall k :: 0 <= k < |Levels| ==> written[k] == (OutputPath(Levels[k]), grouped[Levels[k]])
  {
    LevelsDistinct();
    grouped := map[];
    written := [];
    var i := 0;
    while i < |Levels|
      invariant 0 <= i <= |Levels|
      invariant LevelsDone(grouped, Levels, i, t, labels)
      invariant |written| == i
      invariant forall k :: 0 <= k < i ==> written[k] == (OutputPath(Levels[k]), CollapseAtLevel(t, labels, k))
    {
      var level := Levels[i];
      var dfGrouped := CollapseAtLevel(t, labels, i);
      LevelsDoneStep(grouped, Levels, i, t, labels);
      grouped := grouped[level := dfGrouped];
      written := written + [(OutputPath(level), dfGrouped)];
      i := i + 1;
    }
    LevelsDoneAll(grouped, Levels, t, labels);
  }
}
