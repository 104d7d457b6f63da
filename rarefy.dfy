/**
 * Rarefaction of a count table (scripts/2_rarefy.py, `rarefy_table`).
 *
 * Rows are visited in order. A row whose total reaches the fixed depth is
 * replaced by the tally of `Depth` column indices drawn from one generator
 * shared by all rows; every other row stays all zeros. The generator is
 * modelled as the stream of column indices it produces, so a row's draws are
 * the next `Depth` entries of the stream after those the earlier
 * qualifying rows consumed.
 */
module Rarefy {
  import opened Tables

  /** The rarefaction depth: a constant, not the smallest row total. */
  const Depth: nat := 1000

  /** How many entries of `xs` equal `v`. */
  function Count(xs: seq<nat>, v: nat): nat {
    if xs == [] then 0
    else Count(xs[..|xs| - 1], v) + (if xs[|xs| - 1] == v then 1 else 0)
  }

  lemma {:induction false} CountBound(xs: seq<nat>, v: nat)
    ensures Count(xs, v) <= |xs|
  {
    if xs != [] {
      CountBound(xs[..|xs| - 1], v);
    }
  }

  lemma {:induction false} CountAbsent(xs: seq<nat>, v: nat)
    requires forall k :: 0 <= k < |xs| ==> xs[k] != v
    ensures Count(xs, v) == 0
  {
    if xs != [] {
      CountAbsent(xs[..|xs| - 1], v);
    }
  }

  /**
   * `np.bincount(xs, minlength=n)` for draws below `n`: a row of `n` counters,
   * bumped once per draw.
   */
  function Tally(xs: seq<nat>, n: nat): (r: seq<nat>)
    requires forall k :: 0 <= k < |xs| ==> xs[k] < n
    ensures |r| == n
  {
    if xs == [] then Zeros(n)
    else
      var prev := Tally(xs[..|xs| - 1], n);
      var x := xs[|xs| - 1];
      prev[x := prev[x] + 1]
  }

  /** Entry `j` of the tally is the number of draws equal to `j`. */
  lemma {:induction false} TallyCounts(xs: seq<nat>, n: nat)
    requires forall k :: 0 <= k < |xs| ==> xs[k] < n
    ensures forall j :: 0 <= j < n ==> Tally(xs, n)[j] == Count(xs, j)
  {
    if xs != [] {
      TallyCounts(xs[..|xs| - 1], n);
    }
  }

  /** The tally distributes exactly as many reads as there were draws. */
  lemma {:induction false} TallySum(xs: seq<nat>, n: nat)
    requires forall k :: 0 <= k < |xs| ==> xs[k] < n
    ensures Sum(Tally(xs, n)) == |xs|
  {
    if xs == [] {
      SumZeros(n);
    } else {
      var prev := Tally(xs[..|xs| - 1], n);
      TallySum(xs[..|xs| - 1], n);
      SumIncrement(prev, xs[|xs| - 1]);
    }
  }

  /** The row reaches the depth and is rarefied rather than zeroed. */
  predicate Qualifies(row: seq<nat>) {
    Sum(row) >= Depth
  }

  /** The number of rows that reach the depth. */
  function Qualifying(rows: seq<seq<nat>>): nat {
    if rows == [] then 0
    else Qualifying(rows[..|rows| - 1]) + (if Qualifies(rows[|rows| - 1]) then 1 else 0)
  }

  lemma {:induction false} QualifyingPrefix(rows: seq<seq<nat>>, i: nat)
    requires i <= |rows|
    ensures Qualifying(rows[..i]) <= Qualifying(rows)
    decreases |rows|
  {
    if i < |rows| {
      assert rows[..|rows| - 1][..i] == rows[..i];
      QualifyingPrefix(rows[..|rows| - 1], i);
    } else {
      assert rows[..i] == rows;
    }
  }

  /** The position in the draw stream where row `i`'s draws begin. */
  function Cursor(rows: seq<seq<nat>>, i: nat): nat
    requires i <= |rows|
  {
    Depth * Qualifying(rows[..i])
  }

  /** A qualifying row consumes `Depth` draws of the shared stream; any other row consumes none. */
  lemma {:induction false} CursorStep(rows: seq<seq<nat>>, i: nat)
    requires i < |rows|
    ensures Cursor(rows, i + 1) == Cursor(rows, i) + (if Qualifies(rows[i]) then Depth else 0)
  {
    assert rows[..i + 1][..i] == rows[..i];
  }

  /** The draws of two qualifying rows never overlap: a later row starts after an earlier one ends. */
  lemma {:induction false} CursorSeparates(rows: seq<seq<nat>>, i: nat, i': nat)
    requires i < i' <= |rows| && Qualifies(rows[i])
    ensures Cursor(rows, i) + Depth <= Cursor(rows, i')
  {
    CursorStep(rows, i);
    assert rows[..i'][..i + 1] == rows[..i + 1];
    QualifyingPrefix(rows[..i'], i + 1);
  }

  /** The stream supplies `Depth` column indices, each below `ncols`, for every qualifying row. */
  predicate Supplies(rows: seq<seq<nat>>, ncols: nat, draws: seq<nat>) {
    && Depth * Qualifying(rows) <= |draws|
    && forall k :: 0 <= k < |draws| ==> draws[k] < ncols
  }

  /** Row `i`'s own draws: the `Depth` entries of the stream from its cursor on. */
  function RowDraws(rows: seq<seq<nat>>, ncols: nat, draws: seq<nat>, i: nat): (d: seq<nat>)
    requires i < |rows| && Supplies(rows, ncols, draws)
    requires Qualifies(rows[i])
    ensures |d| == Depth && forall k :: 0 <= k < |d| ==> d[k] < ncols
  {
    assert rows[..i + 1][..i] == rows[..i];
    QualifyingPrefix(rows, i + 1);
    draws[Cursor(rows, i)..Cursor(rows, i) + Depth]
  }

  /** What row `i` of the rarefied table holds. */
  function RarefiedRow(rows: seq<seq<nat>>, ncols: nat, draws: seq<nat>, i: nat): (r: seq<nat>)
    requires i < |rows| && Supplies(rows, ncols, draws)
    ensures |r| == ncols
    ensures Sum(r) == if Qualifies(rows[i]) then Depth else 0
  {
    if Qualifies(rows[i]) then
      TallySum(RowDraws(rows, ncols, draws, i), ncols);
      Tally(RowDraws(rows, ncols, draws, i), ncols)
    else
      SumZeros(ncols);
      Zeros(ncols)
  }

  /**
   * The rarefied row has `ncols` entries, each between 0 and the depth; it
   * sums to the depth when the row reaches it and to 0 otherwise, and entry
   * `j` of a rarefied row is the number of its draws equal to `j`.
   */
  lemma {:induction false} RarefiedRowShape(rows: seq<seq<nat>>, ncols: nat, draws: seq<nat>, i: nat)
    requires i < |rows| && Supplies(rows, ncols, draws)
    ensures |RarefiedRow(rows, ncols, draws, i)| == ncols
    ensures Sum(RarefiedRow(rows, ncols, draws, i)) == if Qualifies(rows[i]) then Depth else 0
    ensures forall j :: 0 <= j < ncols ==> RarefiedRow(rows, ncols, draws, i)[j] <= Depth
    ensures !Qualifies(rows[i]) ==> forall j :: 0 <= j < ncols ==> RarefiedRow(rows, ncols, draws, i)[j] == 0
    ensures Qualifies(rows[i]) ==> forall j :: 0 <= j < ncols ==>
      RarefiedRow(rows, ncols, draws, i)[j] == Count(RowDraws(rows, ncols, draws, i), j)
  {
    if Qualifies(rows[i]) {
      var d := RowDraws(rows, ncols, draws, i);
      TallyCounts(d, ncols);
      TallySum(d, ncols);
      forall j | 0 <= j < ncols ensures Count(d, j) <= Depth {
        CountBound(d, j);
      }
    } else {
      SumZeros(ncols);
    }
  }

  /**
   * The generator draws column `j` with probability `row[j] / total`, so
   * every draw lands on a column with a positive count.
   */
  predicate WeightedDraws(row: seq<nat>, d: seq<nat>) {
    forall k :: 0 <= k < |d| ==> d[k] < |row| && row[d[k]] > 0
  }

  /** With weighted draws, a zero count stays zero after rarefaction. */
  lemma {:induction false} ZeroStaysZero(rows: seq<seq<nat>>, ncols: nat, draws: seq<nat>, i: nat, j: nat)
    requires i < |rows| && Supplies(rows, ncols, draws)
    requires Qualifies(rows[i]) ==> WeightedDraws(rows[i], RowDraws(rows, ncols, draws, i))
    requires j < |rows[i]| == ncols && rows[i][j] == 0
    ensures RarefiedRow(rows, ncols, draws, i)[j] == 0
  {
    RarefiedRowShape(rows, ncols, draws, i);
    if Qualifies(rows[i]) {
      CountAbsent(RowDraws(rows, ncols, draws, i), j);
    }
  }

  /**
   * `rarefy_table`: preallocate an all-zero table of the same shape, then
   * visit the rows in order, replacing each row that reaches the depth by
   * the tally of its draws. The result keeps the row and column labels.
   */
  method RarefyTable(t: Table, draws: seq<nat>) returns (r: Table)
    requires t.Valid()
    requires Supplies(t.rows, |t.colIds|, draws)
    ensures r.Valid()
    ensures r.rowIds == t.rowIds && r.colIds == t.colIds && |r.rows| == |t.rows|
    ensures forall i :: 0 <= i < |t.rows| ==> r.rows[i] == RarefiedRow(t.rows, |t.colIds|, draws, i)
    ensures forall i :: 0 <= i < |t.rows| ==> Sum(r.rows[i]) == if Qualifies(t.rows[i]) then Depth else 0
  {
    var ncols := |t.colIds|;
    var n := |t.rows|;
    var rarefied := new seq<nat>[n](_ => Zeros(ncols));
    var cursor := 0;
    var i := 0;
    while i < n
      invariant 0 <= i <= n
      invariant cursor == Cursor(t.rows, i)
      invariant forall k :: 0 <= k < i ==> rarefied[k] == RarefiedRow(t.rows, ncols, draws, k)
      invariant forall k :: i <= k < n ==> rarefied[k] == Zeros(ncols)
    {
      var row := t.rows[i];
      assert t.rows[..i + 1][..i] == t.rows[..i];
      if Sum(row) >= Depth {
        QualifyingPrefix(t.rows, i + 1);
        var chosen := draws[cursor..cursor + Depth];
        rarefied[i] := Tally(chosen, ncols);
        cursor := cursor + Depth;
      }
      i := i + 1;
    }
    r := Table(t.rowIds, t.colIds, rarefied[..]);
    forall i | 0 <= i < n
      ensures |r.rows[i]| == ncols
      ensures Sum(r.rows[i]) == if Qualifies(t.rows[i]) then Depth else 0
    {
      RarefiedRowShape(t.rows, ncols, draws, i);
    }
  }
}
