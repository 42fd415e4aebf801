/**
  The part of a pandas DataFrame the dashboard relies on: named columns, one
  index label per row, and the frame operations `pre_process` and the charts
  call. A row maps each column name to its cell. Every operation returns a new
  frame, as the pandas calls in the source do (the one in-place `drop` has the
  same effect as rebinding the name to the dropped frame).
 */
module Frames {
  import opened Sequences
  import opened Cells

  type Row = map<string, Cell>

  /** The column labels of a frame are a set: their left-to-right order only
      matters for display. */
  datatype Frame = Frame(columns: set<string>, index: seq<int>, rows: seq<Row>)

  /** Every row has exactly the frame's columns and an index label. */
  predicate WellFormed(t: Frame) {
    && |t.index| == |t.rows|
    && forall i :: 0 <= i < |t.rows| ==> t.rows[i].Keys == t.columns
  }

  /** A row with no NaN in it: what `dropna` keeps. */
  predicate NoMissing(r: Row) {
    Missing !in r.Values
  }

  /** The cells of one column, top to bottom. */
  function Column(t: Frame, col: string): (cells: seq<Cell>)
    requires WellFormed(t) && col in t.columns
    ensures |cells| == |t.rows|
    ensures forall i :: 0 <= i < |t.rows| ==> cells[i] == t.rows[i][col]
  {
    seq(|t.rows|, i requires 0 <= i < |t.rows| => t.rows[i][col])
  }

  /** One row after renaming the column `oldName` to `newName`. */
  function RenameKey(r: Row, oldName: string, newName: string): (r': Row)
    requires oldName in r ==> newName !in r
    ensures oldName !in r ==> r' == r
    ensures oldName in r ==> r'.Keys == r.Keys - {oldName} + {newName} && r'[newName] == r[oldName]
    ensures forall c :: c in r && c != oldName ==> c in r' && r'[c] == r[c]
  {
    if oldName in r then (r - {oldName})[newName := r[oldName]] else r
  }

  /** `df.rename({oldName: newName}, axis='columns')`: a label the frame does not
      have is ignored. */
  function Rename(t: Frame, oldName: string, newName: string): (r: Frame)
    requires WellFormed(t)
    requires oldName in t.columns ==> newName !in t.columns
    ensures WellFormed(r)
    ensures r.columns == if oldName in t.columns then t.columns - {oldName} + {newName} else t.columns
    ensures r.index == t.index && |r.rows| == |t.rows|
    ensures forall i :: 0 <= i < |t.rows| ==> r.rows[i] == RenameKey(t.rows[i], oldName, newName)
  {
    var columns := if oldName in t.columns then t.columns - {oldName} + {newName} else t.columns;
    Frame(columns, t.index, seq(|t.rows|, i requires 0 <= i < |t.rows| => RenameKey(t.rows[i], oldName, newName)))
  }

  /** `df.drop(names, axis=1)`: pandas raises `KeyError` for a name the frame
      does not have, so every name must be a column. */
  function DropColumns(t: Frame, names: set<string>): (r: Frame)
    requires WellFormed(t) && names <= t.columns
    ensures WellFormed(r)
    ensures r.columns == t.columns - names
    ensures r.index == t.index && |r.rows| == |t.rows|
    ensures forall i :: 0 <= i < |t.rows| ==> r.rows[i] == t.rows[i] - names
  {
    Frame(t.columns - names, t.index, seq(|t.rows|, i requires 0 <= i < |t.rows| => t.rows[i] - names))
  }

  /** `df[col] = df[col].apply(f)`. */
  function ApplyColumn(t: Frame, col: string, f: Cell -> Cell): (r: Frame)
    requires WellFormed(t) && col in t.columns
    ensures WellFormed(r)
    ensures r.columns == t.columns && r.index == t.index && |r.rows| == |t.rows|
    ensures forall i :: 0 <= i < |t.rows| ==> r.rows[i] == t.rows[i][col := f(t.rows[i][col])]
  {
    Frame(t.columns, t.index,
          seq(|t.rows|, i requires 0 <= i < |t.rows| => t.rows[i][col := f(t.rows[i][col])]))
  }

  /** `df[col] = values`: a new column, or new values for an existing one. */
  function AssignColumn(t: Frame, col: string, values: seq<Cell>): (r: Frame)
    requires WellFormed(t) && |values| == |t.rows|
    ensures WellFormed(r)
    ensures r.columns == t.columns + {col}
    ensures r.index == t.index && |r.rows| == |t.rows|
    ensures forall i :: 0 <= i < |t.rows| ==> r.rows[i] == t.rows[i][col := values[i]]
  {
    Frame(t.columns + {col}, t.index, seq(|t.rows|, i requires 0 <= i < |t.rows| => t.rows[i][col := values[i]]))
  }

  /** `df[mask]`: the rows where the mask holds, with their index labels, in
      their original order. */
  function Select(t: Frame, keep: seq<bool>): (r: Frame)
    requires WellFormed(t) && |keep| == |t.rows|
    ensures WellFormed(r)
    ensures r.columns == t.columns
    ensures |r.rows| <= |t.rows|
    ensures Selected(r, t, Positions(keep))
  {
    PickAt(t.index, keep);
    PickAt(t.rows, keep);
    Frame(t.columns, Pick(t.index, keep), Pick(t.rows, keep))
  }

  /** The boolean Series `df[col] != v`. */
  function NotEqualMask(t: Frame, col: string, v: Cell): (keep: seq<bool>)
    requires WellFormed(t) && col in t.columns
    ensures |keep| == |t.rows|
  {
    seq(|t.rows|, i requires 0 <= i < |t.rows| => t.rows[i][col] != v)
  }

  /** The boolean Series `df.notna().all(axis=1)`. */
  function NotMissingMask(t: Frame): (keep: seq<bool>)
    ensures |keep| == |t.rows|
  {
    seq(|t.rows|, i requires 0 <= i < |t.rows| => NoMissing(t.rows[i]))
  }

  /** `df.dropna()`: exactly the rows without a missing cell survive. */
  function DropNa(t: Frame): (r: Frame)
    requires WellFormed(t)
    ensures WellFormed(r) && r.columns == t.columns
    ensures forall k :: 0 <= k < |r.rows| ==> NoMissing(r.rows[k])
    ensures forall i :: 0 <= i < |t.rows| && NoMissing(t.rows[i]) ==> t.rows[i] in r.rows
    ensures Selected(r, t, Positions(NotMissingMask(t)))
  {
    var keep := NotMissingMask(t);
    PickAt(t.rows, keep);
    forall i | 0 <= i < |t.rows| && NoMissing(t.rows[i])
      ensures t.rows[i] in Pick(t.rows, keep)
    {
      PickMember(t.rows, keep, t.rows[i]);
    }
    Select(t, keep)
  }

  /** `df.drop_duplicates()`: the first of every group of equal rows survives. */
  function DropDuplicates(t: Frame): (r: Frame)
    requires WellFormed(t)
    ensures WellFormed(r) && r.columns == t.columns
    ensures NoDuplicates(r.rows)
    ensures forall x :: x in r.rows <==> x in t.rows
    ensures Selected(r, t, Positions(FirstOccurrences(t.rows)))
  {
    DistinctProperties(t.rows);
    Select(t, FirstOccurrences(t.rows))
  }

  /** `r` consists of the rows of `t` at the strictly increasing positions
      `ps`, each with its index label. */
  ghost predicate Selected(r: Frame, t: Frame, ps: seq<nat>) {
    && |ps| == |r.rows| == |r.index|
    && StrictlyIncreasing(ps)
    && forall k :: 0 <= k < |ps| ==>
         ps[k] < |t.rows| && ps[k] < |t.index| && r.rows[k] == t.rows[ps[k]] && r.index[k] == t.index[ps[k]]
  }

  /** Selecting from a selection selects at the composed positions. */
  lemma SelectedTwice(r: Frame, b: Frame, t: Frame, pa: seq<nat>, pm: seq<nat>)
    requires Selected(b, t, pa) && Selected(r, b, pm)
    ensures Selected(r, t, Compose(pa, pm))
  {
  }

  /** The positions `pa[pm[k]]`: positions `pm` into a selection made at `pa`. */
  function Compose(pa: seq<nat>, pm: seq<nat>): (ps: seq<nat>)
    requires forall k :: 0 <= k < |pm| ==> pm[k] < |pa|
    ensures |ps| == |pm|
  {
    seq(|pm|, k requires 0 <= k < |pm| => pa[pm[k]])
  }

  /** Composing the positions of two masks gives the positions of the mask
      over the original that agrees with the second one. */
  lemma ComposePositions(a: seq<bool>, m: seq<bool>, bm: seq<bool>)
    requires |a| == |bm| && |m| == |Positions(a)|
    requires forall j :: 0 <= j < |m| ==> m[j] == bm[Positions(a)[j]]
    requires forall p :: 0 <= p < |bm| && bm[p] ==> a[p]
    ensures Compose(Positions(a), Positions(m)) == Positions(bm)
  {
    var composed := Compose(Positions(a), Positions(m));
    forall x
      ensures x in composed <==> x in Positions(bm)
    {
      if x in composed {
        ComposedSelected(a, m, bm, x);
      }
      if x in Positions(bm) {
        SelectedComposed(a, m, bm, x);
      }
    }
    IncreasingUnique(composed, Positions(bm));
  }

  lemma ComposedSelected(a: seq<bool>, m: seq<bool>, bm: seq<bool>, x: nat)
    requires |a| == |bm| && |m| == |Positions(a)|
    requires forall j :: 0 <= j < |m| ==> m[j] == bm[Positions(a)[j]]
    requires x in Compose(Positions(a), Positions(m))
    ensures x in Positions(bm)
  {
    var pa, pm := Positions(a), Positions(m);
    var k :| 0 <= k < |pm| && pa[pm[k]] == x;
    assert m[pm[k]] && bm[x];
  }

  lemma SelectedComposed(a: seq<bool>, m: seq<bool>, bm: seq<bool>, x: nat)
    requires |a| == |bm| && |m| == |Positions(a)|
    requires forall j :: 0 <= j < |m| ==> m[j] == bm[Positions(a)[j]]
    requires forall p :: 0 <= p < |bm| && bm[p] ==> a[p]
    requires x in Positions(bm)
    ensures x in Compose(Positions(a), Positions(m))
  {
    var pa, pm := Positions(a), Positions(m);
    assert bm[x] && a[x];
    var j :| 0 <= j < |pa| && pa[j] == x;
    assert m[j];
    var k :| 0 <= k < |pm| && pm[k] == j;
    assert Compose(pa, pm)[k] == x;
  }

  /** A row that the zero filter (`df[df[col] != v]`) and `dropna` both keep. */
  predicate KeptRow(r: Row, col: string, v: Cell) {
    col in r && r[col] != v && NoMissing(r)
  }

  function KeptMask(t: Frame, col: string, v: Cell): (keep: seq<bool>)
    ensures |keep| == |t.rows|
  {
    seq(|t.rows|, p requires 0 <= p < |t.rows| => KeptRow(t.rows[p], col, v))
  }

  /** Kept rows that no earlier kept row equals: what `drop_duplicates`
      leaves after the two filters. */
  function FirstKeptMask(t: Frame, col: string, v: Cell): (keep: seq<bool>)
    ensures |keep| == |t.rows|
    ensures forall p :: 0 <= p < |t.rows| && keep[p] ==> KeptRow(t.rows[p], col, v)
  {
    var kept := KeptMask(t, col, v);
    seq(|t.rows|, p requires 0 <= p < |t.rows| =>
          kept[p] && forall q :: 0 <= q < p && kept[q] ==> t.rows[q] != t.rows[p])
  }

  /** `df[df[col] != v].dropna().drop_duplicates()` */
  function FilterRows(t: Frame, col: string, v: Cell): (r: Frame)
    requires WellFormed(t) && col in t.columns
    ensures WellFormed(r) && r.columns == t.columns
  {
    DropDuplicates(DropNa(Select(t, NotEqualMask(t, col, v))))
  }

  /** The zero filter and `dropna` keep exactly the kept rows, in order,
      with their index labels. */
  lemma KeptRowsSelected(t: Frame, col: string, v: Cell)
    requires WellFormed(t) && col in t.columns
    ensures Selected(DropNa(Select(t, NotEqualMask(t, col, v))), t, Positions(KeptMask(t, col, v)))
  {
    var nonZero := NotEqualMask(t, col, v);
    var t1 := Select(t, nonZero);
    var pa := Positions(nonZero);
    var m := NotMissingMask(t1);
    forall j | 0 <= j < |t1.rows|
      ensures m[j] == KeptMask(t, col, v)[pa[j]]
    {
      assert t1.rows[j] == t.rows[pa[j]] && nonZero[pa[j]];
    }
    SelectedTwice(DropNa(t1), t1, t, pa, Positions(m));
    ComposePositions(nonZero, m, KeptMask(t, col, v));
  }

  /** The three filters keep exactly the first kept rows, in order, with
      their index labels. */
  lemma FilterRowsSelected(t: Frame, col: string, v: Cell)
    requires WellFormed(t) && col in t.columns
    ensures Selected(FilterRows(t, col, v), t, Positions(FirstKeptMask(t, col, v)))
  {
    var kept := KeptMask(t, col, v);
    var t2 := DropNa(Select(t, NotEqualMask(t, col, v)));
    KeptRowsSelected(t, col, v);
    var first := FirstOccurrences(t2.rows);
    FirstOccurrencesOfSelection(t.rows, kept, t2.rows, FirstKeptMask(t, col, v));
    SelectedTwice(DropDuplicates(t2), t2, t, Positions(kept), Positions(first));
    ComposePositions(kept, first, FirstKeptMask(t, col, v));
  }
}
