/**
 * What the three taxonomy-collapse scripts share: splitting a ';'-delimited
 * lineage into positional rank tokens (`str.split(';', expand=True)`), the
 * left merge of the lineages onto the table's rows, and the per-level
 * `groupby(level).sum()`, whose group labels come out sorted and which
 * drops the rows whose token is null.
 */
module Taxonomy {
  import opened Wrappers
  import opened Tables

  const Separator: char := ';'

  // ---------------------------------------------------------------------
  // Splitting a lineage
  // ---------------------------------------------------------------------

  /** Python's `s.split(sep)`: the pieces between separators, empty ones included. */
  function Split(s: string, sep: char): (pieces: seq<string>)
    ensures |pieces| >= 1
    ensures forall k :: 0 <= k < |pieces| ==> sep !in pieces[k]
  {
    if s == [] then [""]
    else
      var rest := Split(s[1..], sep);
      if s[0] == sep then [""] + rest else [[s[0]] + rest[0]] + rest[1..]
  }

  /** `sep.join(pieces)`. */
  function Join(pieces: seq<string>, sep: char): string {
    if |pieces| == 0 then ""
    else if |pieces| == 1 then pieces[0]
    else pieces[0] + [sep] + Join(pieces[1..], sep)
  }

  /** Joining the pieces gives back the lineage. */
  lemma {:induction false} JoinSplit(s: string, sep: char)
    ensures Join(Split(s, sep), sep) == s
  {
    if s != [] {
      var rest := Split(s[1..], sep);
      JoinSplit(s[1..], sep);
      if s[0] == sep {
        assert s == [sep] + s[1..];
      } else if |rest| == 1 {
        assert s == [s[0]] + s[1..];
      } else {
        var pieces := Split(s, sep);
        assert pieces[1..] == rest[1..];
        assert s == [s[0]] + s[1..];
      }
    }
  }

  lemma {:induction false} SplitPrefix(p: string, rest: string, sep: char)
    requires sep !in p
    ensures Split(p + rest, sep) == [p + Split(rest, sep)[0]] + Split(rest, sep)[1..]
  {
    if p != [] {
      assert (p + rest)[0] == p[0];
      assert (p + rest)[1..] == p[1..] + rest;
      SplitPrefix(p[1..], rest, sep);
      assert [p[0]] + (p[1..] + Split(rest, sep)[0]) == p + Split(rest, sep)[0];
    } else {
      assert p + rest == rest;
      var r := Split(rest, sep);
      assert r == [r[0]] + r[1..];
      assert p + r[0] == r[0];
    }
  }

  /** Splitting a joined list of separator-free pieces gives back the pieces. */
  lemma {:induction false} SplitJoin(pieces: seq<string>, sep: char)
    requires |pieces| >= 1
    requires forall k :: 0 <= k < |pieces| ==> sep !in pieces[k]
    ensures Split(Join(pieces, sep), sep) == pieces
  {
    if |pieces| == 1 {
      SplitPrefix(pieces[0], "", sep);
      assert pieces[0] + "" == pieces[0];
    } else {
      var tail := Join(pieces[1..], sep);
      SplitJoin(pieces[1..], sep);
      assert pieces[0] + [sep] + tail == pieces[0] + ([sep] + tail);
      assert ([sep] + tail)[1..] == tail;
      assert Split([sep] + tail, sep) == [""] + pieces[1..];
      SplitPrefix(pieces[0], [sep] + tail, sep);
      assert pieces[0] + "" == pieces[0];
      assert pieces == [pieces[0]] + pieces[1..];
    }
  }

  /**
   * The rank token of a (possibly missing) lineage at a 0-based level: the
   * level-th piece, or null when the lineage is missing or has fewer pieces.
   */
  function Token(lineage: Option<string>, level: nat): (t: Option<string>)
    ensures t.Some? <==> level < PieceCount(lineage)
    ensures t.Some? ==> Separator !in t.value
  {
    if lineage.None? then None
    else
      var pieces := Split(lineage.value, Separator);
      if level < |pieces| then Some(pieces[level]) else None
  }

  /** For a lineage written as `r0;r1;...`, the token at level i is `ri`. */
  lemma {:induction false} TokenOfLineage(ranks: seq<string>, level: nat)
    requires |ranks| >= 1
    requires forall k :: 0 <= k < |ranks| ==> Separator !in ranks[k]
    ensures Token(Some(Join(ranks, Separator)), level) == if level < |ranks| then Some(ranks[level]) else None
  {
    SplitJoin(ranks, Separator);
  }

  /** The number of pieces of a lineage; a missing lineage has none. */
  function PieceCount(lineage: Option<string>): nat {
    if lineage.None? then 0 else |Split(lineage.value, Separator)|
  }

  /** The number of columns `str.split(';', expand=True)` produces: the largest piece count. */
  function Width(labels: seq<Option<string>>): (width: nat)
    ensures forall i :: 0 <= i < |labels| ==> PieceCount(labels[i]) <= width
  {
    if labels == [] then 0
    else
      assert forall i :: 0 <= i < |labels| - 1 ==> labels[..|labels| - 1][i] == labels[i];
      var w := Width(labels[..|labels| - 1]);
      var c := PieceCount(labels[|labels| - 1]);
      if c > w then c else w
  }

  /**
   * `df[levels] = labels.str.split(';', expand=True)` succeeds: the split
   * produces exactly one column per level (pandas raises otherwise).
   */
  predicate SplitFits(labels: seq<Option<string>>, levels: nat) {
    Width(labels) == levels
  }

  /** The width is attained: it is the piece count of the longest lineage. */
  lemma {:induction false} WidthIsLargestPieceCount(labels: seq<Option<string>>)
    ensures labels != [] ==> exists i :: 0 <= i < |labels| && PieceCount(labels[i]) == Width(labels)
  {
    if labels != [] {
      var n := |labels|;
      WidthIsLargestPieceCount(labels[..n - 1]);
      assert forall i :: 0 <= i < n - 1 ==> labels[..n - 1][i] == labels[i];
      if n > 1 {
        var i :| 0 <= i < n - 1 && PieceCount(labels[..n - 1][i]) == Width(labels[..n - 1]);
      } else {
        assert PieceCount(labels[0]) == Width(labels);
      }
    }
  }

  /**
   * When the width equals the number of levels, every lineage has at most
   * that many pieces, so no piece is lost, and the pieces of the longest
   * lineage fill every level.
   */
  lemma {:induction false} WidthBoundsTokens(labels: seq<Option<string>>, levels: nat)
    requires SplitFits(labels, levels)
    ensures forall i, level :: 0 <= i < |labels| && levels <= level ==> Token(labels[i], level).None?
    ensures labels != [] ==> exists i :: 0 <= i < |labels| && forall level :: 0 <= level < levels ==> Token(labels[i], level).Some?
  {
    WidthIsLargestPieceCount(labels);
    if labels != [] {
      var i :| 0 <= i < |labels| && PieceCount(labels[i]) == Width(labels);
      assert forall level :: 0 <= level < levels ==> Token(labels[i], level).Some?;
    }
  }

  // ---------------------------------------------------------------------
  // The reference and the left merge
  // ---------------------------------------------------------------------

  /** One line of a reference lineage file: a feature id and its lineage. */
  datatype RefEntry = RefEntry(id: string, lineage: string)

  predicate UniqueIds(ref: seq<RefEntry>) {
    forall k, l :: 0 <= k < l < |ref| ==> ref[k].id != ref[l].id
  }

  /** The reference's lineage for `id`, or null when the reference does not list it. */
  function Lookup(ref: seq<RefEntry>, id: string): (r: Option<string>)
    ensures r.Some? ==> exists k :: 0 <= k < |ref| && ref[k] == RefEntry(id, r.value)
    ensures r.None? <==> forall k :: 0 <= k < |ref| ==> ref[k].id != id
  {
    if ref == [] then None
    else if ref[0].id == id then Some(ref[0].lineage)
    else
      var r := Lookup(ref[1..], id);
      assert forall k :: 1 <= k < |ref| ==> ref[k] == ref[1..][k - 1];
      r
  }

  /** With unique reference ids, a listed id gets exactly its own lineage. */
  lemma {:induction false} LookupListed(ref: seq<RefEntry>, k: nat)
    requires UniqueIds(ref) && k < |ref|
    ensures Lookup(ref, ref[k].id) == Some(ref[k].lineage)
  {
  }

  /** The lineages of a whole reference file, as the merged column would hold them. */
  function RefLabels(ref: seq<RefEntry>): seq<Option<string>> {
    seq(|ref|, k requires 0 <= k < |ref| => Some(ref[k].lineage))
  }

  /**
   * `df.merge(ref, how='left', left_index=True, right_index=True)`, reduced
   * to the lineage column it adds: one entry per table row, in row order,
   * null for a row the reference does not list.
   */
  function LeftMerge(rowIds: seq<string>, ref: seq<RefEntry>): (labels: seq<Option<string>>)
    ensures |labels| == |rowIds|
    ensures forall i :: 0 <= i < |rowIds| ==>
      (labels[i].None? <==> forall k :: 0 <= k < |ref| ==> ref[k].id != rowIds[i])
    ensures UniqueIds(ref) ==> forall i, k :: 0 <= i < |rowIds| && 0 <= k < |ref| && ref[k].id == rowIds[i] ==>
      labels[i] == Some(ref[k].lineage)
  {
    var labels := seq(|rowIds|, i requires 0 <= i < |rowIds| => Lookup(ref, rowIds[i]));
    assert UniqueIds(ref) ==> forall i, k :: 0 <= i < |rowIds| && 0 <= k < |ref| && ref[k].id == rowIds[i] ==>
      labels[i] == Some(ref[k].lineage) by {
      if UniqueIds(ref) {
        forall i, k | 0 <= i < |rowIds| && 0 <= k < |ref| && ref[k].id == rowIds[i]
          ensures labels[i] == Some(ref[k].lineage)
        {
          LookupListed(ref, k);
        }
      }
    }
    labels
  }

  /** The token of every row at one level. */
  function Tokens(labels: seq<Option<string>>, level: nat): seq<Option<string>> {
    seq(|labels|, i requires 0 <= i < |labels| => Token(labels[i], level))
  }

  // ---------------------------------------------------------------------
  // Sorted group labels
  // ---------------------------------------------------------------------

  /** Python's `a < b` on strings: lexicographic by code point, a proper prefix first. */
  predicate Below(a: string, b: string)
    decreases |a|
  {
    if a == [] then b != []
    else if b == [] then false
    else if a[0] != b[0] then a[0] < b[0]
    else Below(a[1..], b[1..])
  }

  lemma {:induction false} BelowIrreflexive(a: string)
    ensures !Below(a, a)
    decreases |a|
  {
    if a != [] {
      BelowIrreflexive(a[1..]);
    }
  }

  lemma {:induction false} BelowTransitive(a: string, b: string, c: string)
    requires Below(a, b) && Below(b, c)
    ensures Below(a, c)
    decreases |a|
  {
    if a != [] && b != [] && c != [] && a[0] == b[0] == c[0] {
      BelowTransitive(a[1..], b[1..], c[1..]);
    }
  }

  lemma {:induction false} BelowTotal(a: string, b: string)
    ensures a == b || Below(a, b) || Below(b, a)
    decreases |a|
  {
    if a != [] && b != [] && a[0] == b[0] {
      BelowTotal(a[1..], b[1..]);
      if a[1..] == b[1..] {
        assert a == [a[0]] + a[1..] && b == [b[0]] + b[1..];
      }
    }
  }

  /** Strictly ascending, hence also free of duplicates. */
  predicate StrictlySorted(keys: seq<string>) {
    forall i, j :: 0 <= i < j < |keys| ==> Below(keys[i], keys[j])
  }

  lemma {:induction false} SortedDistinct(keys: seq<string>)
    requires StrictlySorted(keys)
    ensures forall i, j :: 0 <= i < |keys| && 0 <= j < |keys| && keys[i] == keys[j] ==> i == j
  {
    forall i, j | 0 <= i < |keys| && 0 <= j < |keys| && keys[i] == keys[j]
      ensures i == j
    {
      BelowIrreflexive(keys[i]);
    }
  }

  lemma {:induction false} SortedCons(x: string, s: seq<string>)
    requires StrictlySorted(s)
    requires forall l :: 0 <= l < |s| ==> Below(x, s[l])
    ensures StrictlySorted([x] + s)
  {
  }

  /** Add a label to a strictly ascending list of labels, where it belongs. */
  function InsertKey(k: string, keys: seq<string>): (r: seq<string>)
    requires StrictlySorted(keys)
    ensures StrictlySorted(r)
    ensures forall x :: x in r <==> x == k || x in keys
  {
    if keys == [] then [k]
    else if k == keys[0] then keys
    else if Below(k, keys[0]) then
      assert forall l :: 0 <= l < |keys| ==> Below(k, keys[l]) by {
        forall l | 0 < l < |keys| ensures Below(k, keys[l]) {
          BelowTransitive(k, keys[0], keys[l]);
        }
      }
      SortedCons(k, keys);
      [k] + keys
    else
      BelowTotal(k, keys[0]);
      var rest := InsertKey(k, keys[1..]);
      assert keys == [keys[0]] + keys[1..];
      assert forall l :: 0 <= l < |rest| ==> Below(keys[0], rest[l]) by {
        forall l | 0 <= l < |rest| ensures Below(keys[0], rest[l]) {
          assert rest[l] in rest;
        }
      }
      SortedCons(keys[0], rest);
      [keys[0]] + rest
  }

  /** The distinct non-null tokens in ascending order: the labels `groupby` produces. */
  function GroupKeys(tokens: seq<Option<string>>): (keys: seq<string>)
    ensures StrictlySorted(keys)
    ensures forall x :: x in keys <==> Some(x) in tokens
  {
    if tokens == [] then []
    else
      var n := |tokens|;
      var keys := GroupKeys(tokens[..n - 1]);
      assert tokens == tokens[..n - 1] + [tokens[n - 1]];
      if tokens[n - 1].Some? then InsertKey(tokens[n - 1].value, keys) else keys
  }

  // ---------------------------------------------------------------------
  // Group sums
  // ---------------------------------------------------------------------

  /** The rows whose token is `key`. */
  function MemberMask(tokens: seq<Option<string>>, key: string): (mask: seq<bool>)
    ensures |mask| == |tokens|
    ensures forall i :: 0 <= i < |tokens| ==> (mask[i] <==> tokens[i] == Some(key))
  {
    seq(|tokens|, i requires 0 <= i < |tokens| => tokens[i] == Some(key))
  }

  /** The rows whose token is not null. */
  function NonNullMask(tokens: seq<Option<string>>): (mask: seq<bool>)
    ensures |mask| == |tokens|
    ensures forall i :: 0 <= i < |tokens| ==> (mask[i] <==> tokens[i].Some?)
  {
    seq(|tokens|, i requires 0 <= i < |tokens| => tokens[i].Some?)
  }

  function AddRows(a: seq<nat>, b: seq<nat>): (c: seq<nat>)
    requires |a| == |b|
    ensures |c| == |a|
  {
    seq(|a|, j requires 0 <= j < |a| => a[j] + b[j])
  }

  /** The row of group `key`: the member rows added up column by column. */
  function GroupRow(rows: seq<seq<nat>>, tokens: seq<Option<string>>, key: string, ncols: nat): (r: seq<nat>)
    requires |tokens| == |rows| && Rectangular(rows, ncols)
    ensures |r| == ncols
  {
    if rows == [] then Zeros(ncols)
    else
      var n := |rows|;
      var prev := GroupRow(rows[..n - 1], tokens[..n - 1], key, ncols);
      if tokens[n - 1] == Some(key) then AddRows(prev, rows[n - 1]) else prev
  }

  /** Entry `j` of a group's row is the sum of column `j` over the group's members. */
  lemma {:induction false} GroupRowAt(rows: seq<seq<nat>>, tokens: seq<Option<string>>, key: string, ncols: nat, j: nat)
    requires |tokens| == |rows| && Rectangular(rows, ncols) && j < ncols
    ensures GroupRow(rows, tokens, key, ncols)[j] == Sum(Masked(Column(rows, j), MemberMask(tokens, key)))
  {
    if rows != [] {
      var n := |rows|;
      var col, mask := Column(rows, j), MemberMask(tokens, key);
      GroupRowAt(rows[..n - 1], tokens[..n - 1], key, ncols, j);
      assert col[..n - 1] == Column(rows[..n - 1], j);
      assert mask[..n - 1] == MemberMask(tokens[..n - 1], key);
      if tokens[n - 1] == Some(key) {
        SumSnoc(Masked(col[..n - 1], mask[..n - 1]), col[n - 1]);
      } else {
        assert Masked(col, mask) == Masked(col[..n - 1], mask[..n - 1]);
      }
    }
  }

  /**
   * `df.groupby(level).sum(numeric_only=True)` over the count columns at one
   * level: one row per distinct non-null token, in ascending order, holding
   * the column sums of the rows with that token.
   */
  function CollapseAtLevel(t: Table, labels: seq<Option<string>>, level: nat): (r: Table)
    requires t.Valid() && |labels| == |t.rows|
    ensures r.Valid() && r.colIds == t.colIds
    ensures StrictlySorted(r.rowIds)
    ensures forall x :: x in r.rowIds <==> exists i :: 0 <= i < |t.rows| && Token(labels[i], level) == Some(x)
  {
    var tokens := Tokens(labels, level);
    var keys := GroupKeys(tokens);
    assert |tokens| == |labels| && forall i :: 0 <= i < |labels| ==> tokens[i] == Token(labels[i], level);
    assert forall x :: Some(x) in tokens <==> exists i :: 0 <= i < |t.rows| && Token(labels[i], level) == Some(x);
    Table(keys, t.colIds, seq(|keys|, g requires 0 <= g < |keys| => GroupRow(t.rows, tokens, keys[g], |t.colIds|)))
  }

  /** The collapsed row of token `x` is, column by column, the sum of the rows whose token is `x`. */
  lemma {:induction false} CollapsedRowIsSum(t: Table, labels: seq<Option<string>>, level: nat, g: nat, j: nat)
    requires t.Valid() && |labels| == |t.rows|
    requires g < |CollapseAtLevel(t, labels, level).rows| && j < |t.colIds|
    ensures CollapseAtLevel(t, labels, level).rows[g][j] ==
      Sum(Masked(Column(t.rows, j), MemberMask(Tokens(labels, level), CollapseAtLevel(t, labels, level).rowIds[g])))
  {
    var tokens := Tokens(labels, level);
    GroupRowAt(t.rows, tokens, GroupKeys(tokens)[g], |t.colIds|, j);
  }

  /** Every row with a non-null token lies in exactly one group. */
  lemma {:induction false} CollapsePartition(t: Table, labels: seq<Option<string>>, level: nat, i: nat)
    requires t.Valid() && |labels| == |t.rows| && i < |t.rows|
    requires Token(labels[i], level).Some?
    ensures var r := CollapseAtLevel(t, labels, level);
      exists g :: 0 <= g < |r.rowIds| && r.rowIds[g] == Token(labels[i], level).value &&
        forall h :: 0 <= h < |r.rowIds| && r.rowIds[h] == Token(labels[i], level).value ==> h == g
  {
    var r := CollapseAtLevel(t, labels, level);
    var x := Token(labels[i], level).value;
    assert x in r.rowIds;
    var g :| 0 <= g < |r.rowIds| && r.rowIds[g] == x;
    SortedDistinct(r.rowIds);
  }

  function KeyTotal(rows: seq<seq<nat>>, tokens: seq<Option<string>>, keys: seq<string>, j: nat): nat
    requires |tokens| == |rows| && forall i :: 0 <= i < |rows| ==> j < |rows[i]|
  {
    if keys == [] then 0
    else
      var n := |keys|;
      KeyTotal(rows, tokens, keys[..n - 1], j) + Sum(Masked(Column(rows, j), MemberMask(tokens, keys[n - 1])))
  }

  function InKeysMask(tokens: seq<Option<string>>, keys: seq<string>): (mask: seq<bool>)
    ensures |mask| == |tokens|
    ensures forall i :: 0 <= i < |tokens| ==> (mask[i] <==> tokens[i].Some? && tokens[i].value in keys)
  {
    seq(|tokens|, i requires 0 <= i < |tokens| => tokens[i].Some? && tokens[i].value in keys)
  }

  /** Summing the groups of distinct keys counts each row of those keys once. */
  lemma {:induction false} KeyTotalIsMaskedSum(rows: seq<seq<nat>>, tokens: seq<Option<string>>, keys: seq<string>, j: nat)
    requires |tokens| == |rows| && forall i :: 0 <= i < |rows| ==> j < |rows[i]|
    requires forall a, b :: 0 <= a < |keys| && 0 <= b < |keys| && keys[a] == keys[b] ==> a == b
    ensures KeyTotal(rows, tokens, keys, j) == Sum(Masked(Column(rows, j), InKeysMask(tokens, keys)))
  {
    var col := Column(rows, j);
    if keys == [] {
      MaskedNone(col, InKeysMask(tokens, keys));
    } else {
      var n := |keys|;
      var pre, last := keys[..n - 1], keys[n - 1];
      KeyTotalIsMaskedSum(rows, tokens, pre, j);
      assert last !in pre;
      assert forall x :: x in keys <==> x in pre || x == last by {
        assert keys == pre + [last];
      }
      MaskedSumSplit(col, InKeysMask(tokens, keys), InKeysMask(tokens, pre), MemberMask(tokens, last));
    }
  }

  lemma {:induction false} GroupColumnTotal(rows: seq<seq<nat>>, tokens: seq<Option<string>>, keys: seq<string>, ncols: nat, j: nat)
    requires |tokens| == |rows| && Rectangular(rows, ncols) && j < ncols
    ensures Sum(seq(|keys|, g requires 0 <= g < |keys| => GroupRow(rows, tokens, keys[g], ncols)[j])) == KeyTotal(rows, tokens, keys, j)
  {
    if keys != [] {
      var n := |keys|;
      var s := seq(|keys|, g requires 0 <= g < |keys| => GroupRow(rows, tokens, keys[g], ncols)[j]);
      GroupColumnTotal(rows, tokens, keys[..n - 1], ncols, j);
      assert s[..n - 1] == seq(n - 1, g requires 0 <= g < n - 1 => GroupRow(rows, tokens, keys[..n - 1][g], ncols)[j]);
      GroupRowAt(rows, tokens, keys[n - 1], ncols, j);
    }
  }

  /**
   * Collapsing neither loses nor invents counts: for every column, the
   * collapsed table's total is the total over the rows with a non-null token.
   */
  lemma {:induction false} CollapseConservesTotals(t: Table, labels: seq<Option<string>>, level: nat, j: nat)
    requires t.Valid() && |labels| == |t.rows| && j < |t.colIds|
    ensures Sum(Column(CollapseAtLevel(t, labels, level).rows, j)) ==
      Sum(Masked(Column(t.rows, j), NonNullMask(Tokens(labels, level))))
  {
    var tokens := Tokens(labels, level);
    var keys := GroupKeys(tokens);
    var r := CollapseAtLevel(t, labels, level);
    assert Column(r.rows, j) == seq(|keys|, g requires 0 <= g < |keys| => GroupRow(t.rows, tokens, keys[g], |t.colIds|)[j]);
    GroupColumnTotal(t.rows, tokens, keys, |t.colIds|, j);
    SortedDistinct(keys);
    KeyTotalIsMaskedSum(t.rows, tokens, keys, j);
    assert InKeysMask(tokens, keys) == NonNullMask(tokens) by {
      forall i | 0 <= i < |tokens| ensures InKeysMask(tokens, keys)[i] == NonNullMask(tokens)[i] {
        if tokens[i].Some? {
          assert Some(tokens[i].value) in tokens;
        }
      }
    }
  }

  /** When every row has a token at the level, each column total is kept exactly. */
  lemma {:induction false} CollapseKeepsAllCounts(t: Table, labels: seq<Option<string>>, level: nat, j: nat)
    requires t.Valid() && |labels| == |t.rows| && j < |t.colIds|
    requires forall i :: 0 <= i < |labels| ==> Token(labels[i], level).Some?
    ensures Sum(Column(CollapseAtLevel(t, labels, level).rows, j)) == Sum(Column(t.rows, j))
  {
    CollapseConservesTotals(t, labels, level, j);
    MaskedAll(Column(t.rows, j), NonNullMask(Tokens(labels, level)));
  }

  lemma {:induction false} MaskedIgnoresUnselected<T>(s: seq<T>, s': seq<T>, mask: seq<bool>)
    requires |s| == |s'| == |mask|
    requires forall i :: 0 <= i < |mask| && mask[i] ==> s[i] == s'[i]
    ensures Masked(s, mask) == Masked(s', mask)
  {
    if s != [] {
      var n := |s|;
      MaskedIgnoresUnselected(s[..n - 1], s'[..n - 1], mask[..n - 1]);
    }
  }

  /**
   * There is no catch-all group: the counts of a row whose token is null do
   * not reach the level's table at all, whatever they are.
   */
  lemma {:induction false} NullTokenRowIgnored(t: Table, labels: seq<Option<string>>, level: nat, i: nat, row: seq<nat>)
    requires t.Valid() && |labels| == |t.rows| && i < |t.rows| && |row| == |t.colIds|
    requires Token(labels[i], level).None?
    ensures CollapseAtLevel(t.(rows := t.rows[i := row]), labels, level) == CollapseAtLevel(t, labels, level)
  {
    var t' := t.(rows := t.rows[i := row]);
    var r, r' := CollapseAtLevel(t, labels, level), CollapseAtLevel(t', labels, level);
    var tokens := Tokens(labels, level);
    assert r'.rowIds == r.rowIds;
    forall g, j | 0 <= g < |r.rows| && 0 <= j < |t.colIds|
      ensures r'.rows[g][j] == r.rows[g][j]
    {
      CollapsedRowIsSum(t, labels, level, g, j);
      CollapsedRowIsSum(t', labels, level, g, j);
      MaskedIgnoresUnselected(Column(t.rows, j), Column(t'.rows, j), MemberMask(tokens, r.rowIds[g]));
    }
    assert forall g :: 0 <= g < |r.rows| ==> r'.rows[g] == r.rows[g];
  }

  // ---------------------------------------------------------------------
  // The per-level dictionary the drivers fill
  // ---------------------------------------------------------------------

  /** No level name is listed twice. */
  predicate DistinctNames(levels: seq<string>) {
    forall k, l :: 0 <= k < l < |levels| ==> levels[k] != levels[l]
  }

  /**
   * After the first `i` levels: the dictionary's keys are those level names
   * and each holds the table collapsed at its own level.
   */
  ghost predicate LevelsDone(grouped: map<string, Table>, levels: seq<string>, i: nat, t: Table, labels: seq<Option<string>>)
    requires i <= |levels| && t.Valid() && |labels| == |t.rows|
  {
    && (forall x :: x in grouped <==> x in levels[..i])
    && forall k :: 0 <= k < i ==> levels[k] in grouped && grouped[levels[k]] == CollapseAtLevel(t, labels, k)
  }

  /** Storing level `i`'s table under its name extends the filled prefix by one level. */
  lemma {:induction false} LevelsDoneStep(grouped: map<string, Table>, levels: seq<string>, i: nat, t: Table, labels: seq<Option<string>>)
    requires i < |levels| && t.Valid() && |labels| == |t.rows|
    requires DistinctNames(levels)
    requires LevelsDone(grouped, levels, i, t, labels)
    ensures LevelsDone(grouped[levels[i] := CollapseAtLevel(t, labels, i)], levels, i + 1, t, labels)
  {
  }

  /** Once every level is done, the dictionary holds exactly the level names, each with its own table. */
  lemma {:induction false} LevelsDoneAll(grouped: map<string, Table>, levels: seq<string>, t: Table, labels: seq<Option<string>>)
    requires t.Valid() && |labels| == |t.rows|
    requires LevelsDone(grouped, levels, |levels|, t, labels)
    ensures forall x :: x in grouped <==> x in levels
    ensures forall k :: 0 <= k < |levels| ==> levels[k] in grouped && grouped[levels[k]] == CollapseAtLevel(t, labels, k)
  {
  }

  /** The ending of every collapsed table's file name. */
  const CollapsedSuffix: string := "_collapsed.biom"

  /** `a + x + b` determines `x`: output names that differ only in the level differ. */
  lemma {:induction false} InfixCancel(a: string, x: string, y: string, b: string)
    requires a + x + b == a + y + b
    ensures x == y
  {
    var s := a + x + b;
    assert |x| == |y|;
    assert x == s[|a|..|a| + |x|];
    assert y == (a + y + b)[|a|..|a| + |y|];
  }
}
