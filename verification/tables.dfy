/** A dataframe as the modelled code sees it: named, typed columns and
    labelled rows whose cells may be missing (pandas' NaN). */
module Tables {
  import opened Wrappers
  import opened Seqs

  /** A present cell value: a number or anything else (kept as text). */
  datatype Value = Num(x: real) | Text(s: string)

  /** `None` is a missing cell (NaN / None in pandas). */
  type Cell = Option<Value>

  /** The column's dtype: numeric (what `select_dtypes(include=[np.number])`
      selects) or anything else. */
  datatype Kind = Numeric | Categorical

  datatype Column = Column(name: string, kind: Kind)

  /** A row carries its index label and one cell per column. */
  datatype Row = Row(index: int, cells: seq<Cell>)

  datatype Table = Table(columns: seq<Column>, rows: seq<Row>)

  function Width(t: Table): nat {
    |t.columns|
  }

  function Height(t: Table): nat {
    |t.rows|
  }

  /** Every row has one cell per column. */
  ghost predicate Rectangular(t: Table) {
    forall i :: 0 <= i < |t.rows| ==> |t.rows[i].cells| == |t.columns|
  }

  function Names(cols: seq<Column>): (r: seq<string>)
    ensures |r| == |cols|
    ensures forall k :: 0 <= k < |cols| ==> r[k] == cols[k].name
  {
    seq(|cols|, k requires 0 <= k < |cols| => cols[k].name)
  }

  /** A well-formed table is rectangular and its column names are unique. */
  ghost predicate WellFormed(t: Table) {
    Rectangular(t) && Distinct(Names(t.columns))
  }

  /** The rows at the given positions, in the given order (`df.iloc[ri]`). */
  function SelectRows(t: Table, ri: seq<nat>): (r: Table)
    requires forall k :: 0 <= k < |ri| ==> ri[k] < |t.rows|
    ensures Rectangular(t) ==> Rectangular(r)
  {
    Table(t.columns, Pick(t.rows, ri))
  }

  function ProjectRow(row: Row, ci: seq<nat>): Row
    requires forall k :: 0 <= k < |ci| ==> ci[k] < |row.cells|
  {
    Row(row.index, Pick(row.cells, ci))
  }

  /** The columns at the given positions, in the given order. */
  function SelectColumns(t: Table, ci: seq<nat>): (r: Table)
    requires Rectangular(t)
    requires forall k :: 0 <= k < |ci| ==> ci[k] < |t.columns|
    ensures Rectangular(r)
    ensures |r.rows| == |t.rows|
  {
    Table(Pick(t.columns, ci),
          seq(|t.rows|, i requires 0 <= i < |t.rows| => ProjectRow(t.rows[i], ci)))
  }

  /** `r` is `t` cut down to some of its rows and some of its columns, each
      kept in their original order, with cells and row labels untouched. */
  ghost predicate IsRestriction(t: Table, r: Table, ri: seq<nat>, ci: seq<nat>) {
    && Rectangular(t)
    && IncreasingBelow(ri, |t.rows|)
    && IncreasingBelow(ci, |t.columns|)
    && r == SelectRows(SelectColumns(t, ci), ri)
  }

  ghost predicate Restriction(t: Table, r: Table) {
    exists ri: seq<nat>, ci: seq<nat> :: IsRestriction(t, r, ri, ci)
  }

  lemma RestrictionByRows(t: Table, ri: seq<nat>)
    requires Rectangular(t)
    requires IncreasingBelow(ri, |t.rows|)
    ensures Restriction(t, SelectRows(t, ri))
  {
    var ci := Identity(|t.columns|);
    assert SelectColumns(t, ci) == t by {
      assert Pick(t.columns, ci) == t.columns;
      forall i | 0 <= i < |t.rows|
        ensures ProjectRow(t.rows[i], ci) == t.rows[i]
      {
        assert Pick(t.rows[i].cells, ci) == t.rows[i].cells;
      }
    }
    assert IsRestriction(t, SelectRows(t, ri), ri, ci);
  }

  lemma RestrictionByColumns(t: Table, ci: seq<nat>)
    requires Rectangular(t)
    requires IncreasingBelow(ci, |t.columns|)
    ensures Restriction(t, SelectColumns(t, ci))
  {
    var u := SelectColumns(t, ci);
    var ri := Identity(|t.rows|);
    assert Pick(u.rows, ri) == u.rows;
    assert IsRestriction(t, u, ri, ci);
  }

  lemma RestrictionReflexive(t: Table)
    requires Rectangular(t)
    ensures Restriction(t, t)
  {
    var ri := Identity(|t.rows|);
    RestrictionByRows(t, ri);
    assert Pick(t.rows, ri) == t.rows;
    assert SelectRows(t, ri) == t;
  }

  /** Restricting a restriction is a restriction of the original. */
  lemma RestrictionTransitive(t: Table, u: Table, v: Table)
    requires Restriction(t, u) && Restriction(u, v)
    ensures Restriction(t, v)
  {
    var r1, c1 :| IsRestriction(t, u, r1, c1);
    var r2, c2 :| IsRestriction(u, v, r2, c2);
    var ri := Pick(r1, r2);
    var ci := Pick(c1, c2);
    IncreasingCompose(r1, r2, |t.rows|);
    IncreasingCompose(c1, c2, |t.columns|);
    var w := SelectRows(SelectColumns(t, ci), ri);
    assert w.columns == v.columns by {
      PickPick(t.columns, c1, c2);
    }
    assert w.rows == v.rows by {
      forall a | 0 <= a < |ri|
        ensures w.rows[a] == v.rows[a]
      {
        var row := t.rows[r1[r2[a]]];
        assert w.rows[a] == ProjectRow(row, ci);
        assert u.rows[r2[a]] == ProjectRow(row, c1);
        assert v.rows[a] == ProjectRow(u.rows[r2[a]], c2);
        PickPick(row.cells, c1, c2);
      }
    }
    assert IsRestriction(t, v, ri, ci);
  }

  /** Renumbers the rows 0, 1, ..., n - 1 (`reset_index(drop=True)`). */
  function ResetIndex(t: Table): (r: Table)
    ensures r.columns == t.columns && |r.rows| == |t.rows|
    ensures forall i :: 0 <= i < |r.rows| ==> r.rows[i].index == i
    ensures forall i :: 0 <= i < |r.rows| ==> r.rows[i].cells == t.rows[i].cells
  {
    Table(t.columns, seq(|t.rows|, i requires 0 <= i < |t.rows| => Row(i, t.rows[i].cells)))
  }

  /** Every cell of column `j` is missing (`df[col].isnull().all()`;
      vacuously true of a table without rows). */
  predicate AllMissing(t: Table, j: nat)
    requires Rectangular(t) && j < |t.columns|
  {
    forall i :: 0 <= i < |t.rows| ==> t.rows[i].cells[j].None?
  }

  /** The distinct present values of column `j`. */
  function ValuesOf(t: Table, j: nat): set<Value>
    requires Rectangular(t) && j < |t.columns|
  {
    set i | 0 <= i < |t.rows| && t.rows[i].cells[j].Some? :: t.rows[i].cells[j].value
  }

  /** `df[col].nunique()`: the number of distinct values, missing ones not
      counted. */
  function Nunique(t: Table, j: nat): nat
    requires Rectangular(t) && j < |t.columns|
  {
    |ValuesOf(t, j)|
  }

  /** Number of missing cells in column `j`. */
  function MissingIn(t: Table, j: nat): nat
    requires Rectangular(t) && j < |t.columns|
  {
    CountTrue(seq(|t.rows|, i requires 0 <= i < |t.rows| => t.rows[i].cells[j].None?))
  }

  /** Positions of the numeric columns, in column order. */
  function NumericColumns(cols: seq<Column>): (r: seq<nat>)
    ensures IncreasingBelow(r, |cols|)
    ensures forall j :: 0 <= j < |cols| ==> (j in r <==> cols[j].kind == Numeric)
  {
    Where(seq(|cols|, j requires 0 <= j < |cols| => cols[j].kind == Numeric))
  }

  /** Positions of the other columns, in column order. */
  function CategoricalColumns(cols: seq<Column>): (r: seq<nat>)
    ensures IncreasingBelow(r, |cols|)
    ensures forall j :: 0 <= j < |cols| ==> (j in r <==> cols[j].kind != Numeric)
  {
    Where(seq(|cols|, j requires 0 <= j < |cols| => cols[j].kind != Numeric))
  }

  /** Position of the column called `name`, if there is one. */
  function ColumnIndex(cols: seq<Column>, name: string): (r: Option<nat>)
    ensures r.Some? ==> r.value < |cols| && cols[r.value].name == name
    ensures r.None? ==> forall k :: 0 <= k < |cols| ==> cols[k].name != name
  {
    if |cols| == 0 then None
    else if cols[0].name == name then Some(0)
    else match ColumnIndex(cols[1..], name)
      case None => None
      case Some(k) => Some(k + 1)
  }

  /** Keeping the columns a mask selects: the result is a well-formed
      restriction holding exactly the selected columns, and the names of the
      others, listed in column order, are exactly the unselected ones. */
  lemma MaskedColumns(t: Table, m: seq<bool>)
    requires WellFormed(t)
    requires |m| == |t.columns|
    ensures var u := SelectColumns(t, Where(m));
      && WellFormed(u)
      && Restriction(t, u)
      && |u.rows| == |t.rows|
      && |u.columns| + CountTrue(Not(m)) == |t.columns|
      && (forall j :: 0 <= j < |t.columns| ==> (t.columns[j] in u.columns <==> m[j]))
    ensures var dropped := Pick(Names(t.columns), Where(Not(m)));
      && SubsequenceOf(dropped, Names(t.columns))
      && (forall j :: 0 <= j < |t.columns| ==> (t.columns[j].name in dropped <==> !m[j]))
  {
    var kept := Where(m);
    var u := SelectColumns(t, kept);
    var names := Names(t.columns);
    RestrictionByColumns(t, kept);
    PickDistinct(names, kept);
    assert Names(u.columns) == Pick(names, kept);
    CountNot(m);
    assert Distinct(t.columns) by {
      forall a, b | 0 <= a < b < |t.columns|
        ensures t.columns[a] != t.columns[b]
      {
        assert names[a] != names[b];
      }
    }
    forall j | 0 <= j < |t.columns|
      ensures t.columns[j] in u.columns <==> m[j]
    {
      PickMember(t.columns, kept, j);
    }
    var dropped := Pick(names, Where(Not(m)));
    PickEmbeds(names, Where(Not(m)));
    forall j | 0 <= j < |t.columns|
      ensures names[j] in dropped <==> !m[j]
    {
      PickMember(names, Where(Not(m)), j);
    }
  }

  /** Keeping the rows a mask selects: a restriction with the same columns,
      holding exactly the rows the mask selects. */
  lemma MaskedRows(t: Table, m: seq<bool>)
    requires WellFormed(t)
    requires |m| == |t.rows|
    ensures var u := SelectRows(t, Where(m));
      && WellFormed(u)
      && Restriction(t, u)
      && u.columns == t.columns
      && |u.rows| == CountTrue(m)
      && (forall i :: 0 <= i < |u.rows| ==> u.rows[i] in t.rows)
  {
    RestrictionByRows(t, Where(m));
    var u := SelectRows(t, Where(m));
    forall i | 0 <= i < |u.rows|
      ensures u.rows[i] in t.rows
    {
      assert u.rows[i] == t.rows[Where(m)[i]];
    }
  }

  /** A selected column keeps its cells. */
  lemma SelectedColumnCells(t: Table, ci: seq<nat>, k: nat)
    requires Rectangular(t)
    requires forall q :: 0 <= q < |ci| ==> ci[q] < |t.columns|
    requires k < |ci|
    ensures var u := SelectColumns(t, ci);
      && (forall i :: 0 <= i < |t.rows| ==> u.rows[i].cells[k] == t.rows[i].cells[ci[k]])
      && (AllMissing(u, k) <==> AllMissing(t, ci[k]))
      && ValuesOf(u, k) == ValuesOf(t, ci[k])
  {
    var u := SelectColumns(t, ci);
    forall i | 0 <= i < |t.rows|
      ensures u.rows[i].cells[k] == t.rows[i].cells[ci[k]]
    {
    }
  }

  /** A restriction is no larger than the table it came from, and its
      columns appear in the original in the same order. */
  lemma RestrictionShape(t: Table, u: Table)
    requires Restriction(t, u)
    ensures |u.columns| <= |t.columns| && |u.rows| <= |t.rows|
    ensures SubsequenceOf(u.columns, t.columns)
    ensures Rectangular(u)
  {
    var ri, ci :| IsRestriction(t, u, ri, ci);
    PickEmbeds(t.columns, ci);
    IncreasingLength(ri, |t.rows|);
    IncreasingLength(ci, |t.columns|);
  }

  /** A row without missing cells. */
  predicate Complete(row: Row) {
    forall k :: 0 <= k < |row.cells| ==> row.cells[k].Some?
  }

  /** No cell of the table is missing. */
  ghost predicate NoMissing(t: Table) {
    forall i :: 0 <= i < |t.rows| ==> Complete(t.rows[i])
  }

  lemma RestrictionNoMissing(t: Table, u: Table)
    requires Restriction(t, u) && NoMissing(t)
    ensures NoMissing(u)
  {
    var ri, ci :| IsRestriction(t, u, ri, ci);
    forall a, k | 0 <= a < |u.rows| && 0 <= k < |u.rows[a].cells|
      ensures u.rows[a].cells[k].Some?
    {
      assert u.rows[a].cells[k] == t.rows[ri[a]].cells[ci[k]];
    }
  }
}
