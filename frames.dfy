/** The table reshaping both dashboards do with pandas, on a table of
    optional strings (`None` for an empty cell, which pandas reads as NaN):
    promoting a row to be the header, dropping the columns that are empty in
    every row, taking columns by position, renaming duplicate header labels,
    choosing columns by a substring of their label, and keeping the rows that
    pass a test. */
module Frames {
  import opened Wrappers
  import opened Strings

  type Cell = Option<string>
  type Row = seq<Cell>

  /** A table with its header labels. */
  datatype Frame = Frame(labels: seq<Cell>, rows: seq<Row>)

  /** Every row has one cell per label, as pandas guarantees. */
  predicate Rectangular(f: Frame)
  {
    forall i :: 0 <= i < |f.rows| ==> |f.rows[i]| == |f.labels|
  }

  /** Every row of a table read from CSV has the same width. */
  predicate Uniform(t: seq<Row>, width: nat)
  {
    forall i :: 0 <= i < |t| ==> |t[i]| == width
  }

  // ---------------------------------------------------------------- rows

  /** The rows that pass `keep`, in their original order (a boolean mask
      `df[mask]` or `dropna(subset=...)`). */
  function Filter<T(!new)>(xs: seq<T>, keep: T -> bool): (r: seq<T>)
    ensures |r| <= |xs|
    ensures forall x :: x in r <==> x in xs && keep(x)
  {
    if xs == [] then []
    else (if keep(xs[0]) then [xs[0]] else []) + Filter(xs[1..], keep)
  }

  /** Filtering works on each part of a concatenation separately, so the
      rows that survive keep their relative order. */
  lemma {:induction false} FilterAppend<T(!new)>(xs: seq<T>, ys: seq<T>, keep: T -> bool)
    ensures Filter(xs + ys, keep) == Filter(xs, keep) + Filter(ys, keep)
  {
    if xs == [] {
      assert xs + ys == ys;
    } else {
      assert (xs + ys)[1..] == xs[1..] + ys;
      FilterAppend(xs[1..], ys, keep);
    }
  }

  /** Each row is kept as often as it occurs when it passes the test, and
      not at all otherwise: filtering neither drops nor repeats a row. */
  lemma {:induction false} FilterCounts<T(!new)>(xs: seq<T>, keep: T -> bool, x: T)
    ensures multiset(Filter(xs, keep))[x] == if keep(x) then multiset(xs)[x] else 0
  {
    if xs != [] {
      FilterCounts(xs[1..], keep, x);
      assert xs == [xs[0]] + xs[1..];
    }
  }

  /** A test every row passes keeps the whole table. */
  lemma {:induction false} FilterKeepsAll<T(!new)>(xs: seq<T>, keep: T -> bool)
    requires forall x :: x in xs ==> keep(x)
    ensures Filter(xs, keep) == xs
  {
    if xs != [] {
      FilterKeepsAll(xs[1..], keep);
    }
  }

  // ---------------------------------------------------------------- header

  /** `df.columns = df.iloc[0]; df = df.iloc[1:]` (or `df[1:]`): the first
      row becomes the header and leaves the data; on a table without rows
      `iloc[0]` raises, shown as `None`. */
  function PromoteHeader(t: seq<Row>): (r: Option<Frame>)
    ensures r.None? <==> |t| == 0
    ensures r.Some? ==> r.value.labels == t[0] && r.value.rows == t[1..]
    ensures r.Some? && Uniform(t, |t[0]|) ==> Rectangular(r.value)
  {
    if |t| == 0 then None else Some(Frame(t[0], t[1..]))
  }

  // ---------------------------------------------------------------- empty columns

  /** Some row has a value in column `j`. */
  predicate HasValue(rows: seq<Row>, j: nat)
  {
    exists i :: 0 <= i < |rows| && j < |rows[i]| && rows[i][j].Some?
  }

  /** The columns from `j` on that hold a value somewhere, in increasing order. */
  function KeptFrom(rows: seq<Row>, width: nat, j: nat): (r: seq<nat>)
    ensures forall k :: 0 <= k < |r| ==> j <= r[k] < width && HasValue(rows, r[k])
    ensures forall k, l :: 0 <= k < l < |r| ==> r[k] < r[l]
    ensures forall c :: j <= c < width && HasValue(rows, c) ==> c in r
    decreases width - j
  {
    if j >= width then []
    else if HasValue(rows, j) then [j] + KeptFrom(rows, width, j + 1)
    else KeptFrom(rows, width, j + 1)
  }

  /** The cells of `row` at the positions `cols`. */
  function Project(row: Row, cols: seq<nat>): (r: Row)
    requires forall k :: 0 <= k < |cols| ==> cols[k] < |row|
    ensures |r| == |cols|
  {
    seq(|cols|, k requires 0 <= k < |cols| => row[cols[k]])
  }

  /** `dropna(axis=1, how='all')`: the columns in which every row is empty
      go, labels included; the others stay in order. With no rows every
      column goes. */
  function DropEmptyColumns(f: Frame): (r: Frame)
    requires Rectangular(f)
    ensures Rectangular(r) && |r.rows| == |f.rows|
  {
    var cols := KeptFrom(f.rows, |f.labels|, 0);
    Frame(Project(f.labels, cols), seq(|f.rows|, i requires 0 <= i < |f.rows| => Project(f.rows[i], cols)))
  }

  /** Every column kept by `dropna(axis=1, how='all')` holds a value. */
  lemma KeptColumnsHaveValues(f: Frame)
    requires Rectangular(f)
    ensures var r := DropEmptyColumns(f);
      forall k :: 0 <= k < |r.labels| ==> HasValue(r.rows, k)
  {
    DropEmptyColumnsSpec(f);
  }

  /** What `dropna(axis=1, how='all')` promises: the kept columns are
      exactly those holding a value in some row, in their order; the result
      has one label per kept column and every cell of it, missing or not, is
      the input's cell at that column; so no value of the input is lost. */
  lemma DropEmptyColumnsSpec(f: Frame)
    requires Rectangular(f)
    ensures var r := DropEmptyColumns(f);
      var cols := KeptFrom(f.rows, |f.labels|, 0);
      (forall j :: 0 <= j < |f.labels| ==> (j in cols <==> HasValue(f.rows, j))) &&
      |r.labels| == |cols| &&
      (forall k :: 0 <= k < |cols| ==> r.labels[k] == f.labels[cols[k]]) &&
      (forall i, k :: 0 <= i < |f.rows| && 0 <= k < |cols| ==> r.rows[i][k] == f.rows[i][cols[k]]) &&
      (forall k :: 0 <= k < |r.labels| ==> HasValue(r.rows, k)) &&
      (forall i, j :: 0 <= i < |f.rows| && 0 <= j < |f.labels| && f.rows[i][j].Some? ==>
        exists k :: 0 <= k < |cols| && cols[k] == j && r.rows[i][k] == f.rows[i][j])
  {
    KeptCells(f);
    KeptNonEmpty(f);
    NothingLost(f);
  }

  /** The result's labels and cells are the input's at the kept columns. */
  lemma KeptCells(f: Frame)
    requires Rectangular(f)
    ensures var r := DropEmptyColumns(f);
      var cols := KeptFrom(f.rows, |f.labels|, 0);
      |r.labels| == |cols| &&
      (forall k :: 0 <= k < |cols| ==> r.labels[k] == f.labels[cols[k]]) &&
      (forall i, k :: 0 <= i < |f.rows| && 0 <= k < |cols| ==> r.rows[i][k] == f.rows[i][cols[k]])
  {
  }

  lemma KeptNonEmpty(f: Frame)
    requires Rectangular(f)
    ensures var r := DropEmptyColumns(f);
      forall k :: 0 <= k < |r.labels| ==> HasValue(r.rows, k)
  {
    var r := DropEmptyColumns(f);
    var cols := KeptFrom(f.rows, |f.labels|, 0);
    KeptCells(f);
    forall k | 0 <= k < |r.labels|
      ensures HasValue(r.rows, k)
    {
      var i :| 0 <= i < |f.rows| && cols[k] < |f.rows[i]| && f.rows[i][cols[k]].Some?;
      assert r.rows[i][k] == f.rows[i][cols[k]];
    }
  }

  lemma NothingLost(f: Frame)
    requires Rectangular(f)
    ensures var r := DropEmptyColumns(f);
      var cols := KeptFrom(f.rows, |f.labels|, 0);
      forall i, j :: 0 <= i < |f.rows| && 0 <= j < |f.labels| && f.rows[i][j].Some? ==>
        exists k :: 0 <= k < |cols| && cols[k] == j && r.rows[i][k] == f.rows[i][j]
  {
    var r := DropEmptyColumns(f);
    var cols := KeptFrom(f.rows, |f.labels|, 0);
    KeptCells(f);
    forall i, j | 0 <= i < |f.rows| && 0 <= j < |f.labels| && f.rows[i][j].Some?
      ensures exists k :: 0 <= k < |cols| && cols[k] == j && r.rows[i][k] == f.rows[i][j]
    {
      assert HasValue(f.rows, j);
      var k :| 0 <= k < |cols| && cols[k] == j;
      assert r.rows[i][k] == f.rows[i][j];
    }
  }

  /** A table without rows loses every column. */
  lemma DropAllWithoutRows(f: Frame)
    requires Rectangular(f) && |f.rows| == 0
    ensures DropEmptyColumns(f).labels == []
  {
    NothingKeptWithoutRows(f.rows, |f.labels|, 0);
  }

  lemma {:induction false} NothingKeptWithoutRows(rows: seq<Row>, width: nat, j: nat)
    requires |rows| == 0
    ensures KeptFrom(rows, width, j) == []
    decreases width - j
  {
    if j < width {
      NothingKeptWithoutRows(rows, width, j + 1);
    }
  }

  // ---------------------------------------------------------------- positions

  /** `df.iloc[:, lo:hi]`: the columns at positions lo..hi-1, fewer when the
      table is narrower. */
  function Columns(f: Frame, lo: nat, hi: nat): (r: Frame)
    requires Rectangular(f) && lo <= hi
    ensures Rectangular(r) && |r.rows| == |f.rows|
    ensures |r.labels| == if hi <= |f.labels| then hi - lo else if lo <= |f.labels| then |f.labels| - lo else 0
  {
    var top := if hi <= |f.labels| then hi else |f.labels|;
    var start := if lo <= top then lo else top;
    Frame(f.labels[start..top], seq(|f.rows|, i requires 0 <= i < |f.rows| => f.rows[i][start..top]))
  }

  /** `df.columns = names`: pandas refuses a list of another length
      ("Length mismatch"), shown as `None`. */
  function Relabel(f: Frame, names: seq<string>): (r: Option<Frame>)
    requires Rectangular(f)
    ensures r.Some? <==> |names| == |f.labels|
    ensures r.Some? ==> Rectangular(r.value) && r.value.rows == f.rows && |r.value.labels| == |names|
    ensures r.Some? ==> forall k :: 0 <= k < |names| ==> r.value.labels[k] == Some(names[k])
  {
    if |names| == |f.labels| then Some(Frame(seq(|names|, k requires 0 <= k < |names| => Some(names[k])), f.rows))
    else None
  }

  // ---------------------------------------------------------------- labels

  /** How many labels equal `x` (`list.count`). */
  function Count(labels: seq<Cell>, x: Cell): (n: nat)
    ensures n <= |labels|
    ensures n == 0 <==> x !in labels
  {
    if labels == [] then 0 else (if labels[0] == x then 1 else 0) + Count(labels[1..], x)
  }

  /** `f"{col}"` of a label: its text, `nan` for an empty one. */
  function LabelText(c: Cell): string
  {
    if c.Some? then c.value else "nan"
  }

  /** `[f"{col}_{i}" if cols.count(col) > 1 else col for i, col in enumerate(cols)]`. */
  function RenameDuplicates(labels: seq<Cell>): (r: seq<Cell>)
    ensures |r| == |labels|
  {
    seq(|labels|, i requires 0 <= i < |labels| =>
      if Count(labels, labels[i]) > 1 then Some(LabelText(labels[i]) + "_" + NatToString(i)) else labels[i])
  }

  /** A label that occurs once keeps its name; one that occurs more than once
      becomes `label_i` at every occurrence, the first included, with i its
      position. */
  lemma RenameDuplicatesSpec(labels: seq<Cell>, i: nat)
    requires i < |labels|
    ensures Count(labels, labels[i]) == 1 ==> RenameDuplicates(labels)[i] == labels[i]
    ensures Count(labels, labels[i]) > 1 ==>
      RenameDuplicates(labels)[i] == Some(LabelText(labels[i]) + "_" + NatToString(i))
  {
    assert labels[i] in labels;
  }

  /** The worked example: `["A", "B", "A"]` becomes `["A_0", "B", "A_2"]`. */
  lemma RenameExample()
    ensures RenameDuplicates([Some("A"), Some("B"), Some("A")]) == [Some("A_0"), Some("B"), Some("A_2")]
  {
    var labels := [Some("A"), Some("B"), Some("A")];
    assert labels[1..] == [Some("B"), Some("A")] && labels[1..][1..] == [Some("A")];
    assert Count(labels, Some("A")) == 2;
    assert Count(labels, Some("B")) == 1;
    var r := RenameDuplicates(labels);
    assert r[0] == Some("A" + "_" + NatToString(0));
    assert r[2] == Some("A" + "_" + NatToString(2));
    assert r[1] == Some("B");
    assert NatToString(0) == "0" && NatToString(2) == "2";
    assert "A" + "_" + "0" == "A_0" && "A" + "_" + "2" == "A_2";
  }

  /** Renaming can create a new duplicate: `["A_1", "A", "A"]` becomes
      `["A_1", "A_1", "A_2"]`. */
  lemma RenameCollision()
    ensures RenameDuplicates([Some("A_1"), Some("A"), Some("A")]) == [Some("A_1"), Some("A_1"), Some("A_2")]
  {
    var labels := [Some("A_1"), Some("A"), Some("A")];
    assert labels[1..] == [Some("A"), Some("A")] && labels[1..][1..] == [Some("A")];
    assert Count(labels, Some("A_1")) == 1;
    assert Count(labels, Some("A")) == 2;
    var r := RenameDuplicates(labels);
    assert r[1] == Some("A" + "_" + NatToString(1));
    assert r[2] == Some("A" + "_" + NatToString(2));
    assert r[0] == Some("A_1");
    assert NatToString(1) == "1" && NatToString(2) == "2";
    assert "A" + "_" + "1" == "A_1" && "A" + "_" + "2" == "A_2";
  }

  /** Decimal texts of distinct numbers differ. */
  lemma NatToStringInjective(m: nat, n: nat)
    requires NatToString(m) == NatToString(n)
    ensures m == n
  {
    assert DigitsValue(NatToString(m)) == m;
  }

  /** `x + "_" + p == y + "_" + q` with no `_` in `x` or `y` splits both
      sides at the same place. */
  lemma SplitAtMarker(x: string, p: string, y: string, q: string)
    requires '_' !in x && '_' !in y && x + "_" + p == y + "_" + q
    ensures x == y && p == q
  {
    var s := x + "_" + p;
    assert s == x + ("_" + p) && s == y + ("_" + q);
    IndexOfAfterPrefix(x, "_" + p, '_');
    IndexOfAfterPrefix(y, "_" + q, '_');
    assert x == s[..|x|] && y == s[..|y|];
    assert p == s[|x| + 1..] && q == s[|y| + 1..];
  }

  /** When no label is empty and none contains `_`, the renamed labels are
      pairwise distinct. */
  lemma RenameMakesUnique(labels: seq<Cell>)
    requires forall i :: 0 <= i < |labels| ==> labels[i].Some? && '_' !in labels[i].value
    ensures forall i, j :: 0 <= i < j < |labels| ==> RenameDuplicates(labels)[i] != RenameDuplicates(labels)[j]
  {
    var r := RenameDuplicates(labels);
    forall i, j | 0 <= i < j < |labels|
      ensures r[i] != r[j]
    {
      RenameDistinct(labels, i, j);
    }
  }

  lemma RenameDistinct(labels: seq<Cell>, i: nat, j: nat)
    requires forall i :: 0 <= i < |labels| ==> labels[i].Some? && '_' !in labels[i].value
    requires i < j < |labels|
    ensures RenameDuplicates(labels)[i] != RenameDuplicates(labels)[j]
  {
    var r := RenameDuplicates(labels);
    var x, y := labels[i].value, labels[j].value;
    var ci, cj := Count(labels, labels[i]), Count(labels, labels[j]);
    if ci > 1 && cj > 1 {
      if r[i] == r[j] {
        assert x + "_" + NatToString(i) == y + "_" + NatToString(j);
        SplitAtMarker(x, NatToString(i), y, NatToString(j));
        NatToStringInjective(i, j);
      }
    } else if ci > 1 {
      assert (x + "_" + NatToString(i))[|x|] == '_';
      assert r[j] == labels[j];
    } else if cj > 1 {
      assert (y + "_" + NatToString(j))[|y|] == '_';
      assert r[i] == labels[i];
    } else {
      assert r[i] == labels[i] && r[j] == labels[j];
      if labels[i] == labels[j] {
        CountTwo(labels, i, j);
      }
    }
  }

  /** Two equal labels at two positions are counted at least twice. */
  lemma {:induction false} CountTwo(labels: seq<Cell>, i: nat, j: nat)
    requires i < j < |labels| && labels[i] == labels[j]
    ensures Count(labels, labels[i]) >= 2
  {
    if i > 0 {
      CountTwo(labels[1..], i - 1, j - 1);
    } else {
      assert labels[1..][j - 1] == labels[i];
    }
  }

  /** `[col for col in df.columns if pat in col]`: the positions of the
      labels containing `pat`; `None` when some label is empty, because
      `pat in nan` raises a `TypeError`. */
  function Matching(labels: seq<Cell>, pat: string): (r: Option<seq<nat>>)
    ensures r.None? <==> None in labels
    ensures r.Some? ==> forall k :: 0 <= k < |r.value| ==> r.value[k] < |labels|
    ensures r.Some? ==> forall c :: 0 <= c < |labels| ==> (c in r.value <==> Occurs(labels[c].value, pat))
    ensures r.Some? ==> forall k, l :: 0 <= k < l < |r.value| ==> r.value[k] < r.value[l]
  {
    MatchingFrom(labels, pat, 0)
  }

  function MatchingFrom(labels: seq<Cell>, pat: string, j: nat): (r: Option<seq<nat>>)
    requires j <= |labels|
    ensures r.None? <==> None in labels[j..]
    ensures r.Some? ==> forall k :: 0 <= k < |r.value| ==> j <= r.value[k] < |labels|
    ensures r.Some? ==> forall c :: j <= c < |labels| ==> (c in r.value <==> Occurs(labels[c].value, pat))
    ensures r.Some? ==> forall k, l :: 0 <= k < l < |r.value| ==> r.value[k] < r.value[l]
    decreases |labels| - j
  {
    if j == |labels| then Some([])
    else
      assert labels[j..] == [labels[j]] + labels[j + 1..];
      var rest := MatchingFrom(labels, pat, j + 1);
      if labels[j].None? || rest.None? then None
      else if Occurs(labels[j].value, pat) then Some([j] + rest.value)
      else rest
  }
}
