/**
 * The output file name of the artifact conversion
 * (scripts/1_qza_to_biom.py, `qza_to_biom`): the input path split once at
 * its last ".qza" (`rsplit('.qza', 1)`), the part before it kept and
 * ".biom" appended.
 */
module QzaToBiom {
  import opened Wrappers

  const Qza: string := ".qza"
  const Biom: string := ".biom"

  /** `pat` occurs in `s` starting at position `k`. */
  predicate OccursAt(s: string, pat: string, k: nat) {
    k + |pat| <= |s| && s[k..k + |pat|] == pat
  }

  /** The last position below `n` at which `pat` occurs, searching from the right. */
  function LastBefore(s: string, pat: string, n: nat): (r: Option<nat>)
    ensures r.Some? ==> r.value < n && OccursAt(s, pat, r.value)
    ensures r.Some? ==> forall m: nat :: r.value < m < n ==> !OccursAt(s, pat, m)
    ensures r.None? ==> forall m: nat :: 0 <= m < n ==> !OccursAt(s, pat, m)
  {
    if n == 0 then None
    else if OccursAt(s, pat, n - 1) then Some(n - 1)
    else LastBefore(s, pat, n - 1)
  }

  /** Python's `s.rfind(pat)`, with `None` for -1. */
  function LastIndexOf(s: string, pat: string): (r: Option<nat>)
    ensures r.Some? ==> OccursAt(s, pat, r.value) && forall m: nat :: r.value < m ==> !OccursAt(s, pat, m)
    ensures r.None? <==> forall m: nat :: !OccursAt(s, pat, m)
  {
    LastBefore(s, pat, |s| + 1)
  }

  /**
   * `s.rsplit(sep, 1)` for a non-empty separator: `[s]` when `sep` does not
   * occur, otherwise the text before and after its last occurrence.
   */
  function RSplitOnce(s: string, sep: string): (parts: seq<string>)
    requires |sep| > 0
    ensures |parts| == 1 ==> parts[0] == s && forall m: nat :: !OccursAt(s, sep, m)
    ensures |parts| == 2 ==> s == parts[0] + sep + parts[1] && forall m: nat :: !OccursAt(parts[1], sep, m)
    ensures 1 <= |parts| <= 2
  {
    match LastIndexOf(s, sep)
    case None => [s]
    case Some(k) =>
      var before, after := s[..k], s[k + |sep|..];
      assert s == before + sep + after;
      assert forall m: nat :: !OccursAt(after, sep, m) by {
        forall m: nat | OccursAt(after, sep, m) ensures false {
          assert s[k + |sep| + m..k + |sep| + m + |sep|] == after[m..m + |sep|];
          assert OccursAt(s, sep, k + |sep| + m);
        }
      }
      [before, after]
  }

  /**
   * `qza_path.rsplit('.qza', 1)[0] + '.biom'`. The result always ends with
   * ".biom", and a path holding no ".qza" keeps all its text.
   */
  function BiomOutputPath(qzaPath: string): (out: string)
    ensures |out| >= |Biom| && out[|out| - |Biom|..] == Biom
    ensures (forall m: nat :: !OccursAt(qzaPath, Qza, m)) ==> out == qzaPath + Biom
  {
    RSplitOnce(qzaPath, Qza)[0] + Biom
  }

  /**
   * With the last ".qza" at position `k`, the output is the text before it
   * followed by ".biom"; whatever follows that ".qza" is dropped.
   */
  lemma {:induction false} LastQzaReplaced(qzaPath: string, k: nat)
    requires OccursAt(qzaPath, Qza, k)
    requires forall m: nat :: k < m ==> !OccursAt(qzaPath, Qza, m)
    ensures BiomOutputPath(qzaPath) == qzaPath[..k] + Biom
    ensures |BiomOutputPath(qzaPath)| == k + 5
  {
  }

  /** A path ending in ".qza" loses those four characters and gains ".biom". */
  lemma {:induction false} TrailingQzaReplaced(stem: string)
    ensures BiomOutputPath(stem + Qza) == stem + Biom
  {
    var p := stem + Qza;
    assert p[..|stem|] == stem;
    assert OccursAt(p, Qza, |stem|);
    LastQzaReplaced(p, |stem|);
  }

  /** The output is as long as the text before the last ".qza", or the whole path, plus five. */
  lemma {:induction false} OutputLength(qzaPath: string)
    ensures |BiomOutputPath(qzaPath)| ==
      match LastIndexOf(qzaPath, Qza)
      case Some(k) => k + 5
      case None => |qzaPath| + 5
  {
  }
}
