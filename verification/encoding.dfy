/** One-hot encoding of a text column (`pd.get_dummies(df, columns=[name])`)
    and dropping a column by name, as the recommender and the trainer use
    them. */
module Encoding {
  import opened Wrappers
  import opened Seqs
  import opened Tables

  /** Strict lexicographic order on strings, character by character by code
      point: Python's `<` on `str`, which orders the dummy columns. */
  predicate Below(a: string, b: string) {
    if |a| == 0 then |b| > 0
    else if |b| == 0 then false
    else if a[0] < b[0] then true
    else if a[0] == b[0] then Below(a[1..], b[1..])
    else false
  }

  lemma {:induction false} BelowIrreflexive(a: string)
    ensures !Below(a, a)
  {
    if |a| > 0 {
      BelowIrreflexive(a[1..]);
    }
  }

  lemma {:induction false} BelowTransitive(a: string, b: string, c: string)
    requires Below(a, b) && Below(b, c)
    ensures Below(a, c)
  {
    if |a| > 0 && a[0] == b[0] && b[0] == c[0] {
      BelowTransitive(a[1..], b[1..], c[1..]);
    }
  }

  lemma {:induction false} BelowTotal(a: string, b: string)
    ensures Below(a, b) || a == b || Below(b, a)
  {
    if |a| > 0 && |b| > 0 && a[0] == b[0] {
      BelowTotal(a[1..], b[1..]);
      if a[1..] == b[1..] {
        assert a == [a[0]] + a[1..] && b == [b[0]] + b[1..];
      }
    }
  }

  /** Strictly increasing, hence without repetitions. */
  ghost predicate Sorted(s: seq<string>) {
    forall a, b :: 0 <= a < b < |s| ==> Below(s[a], s[b])
  }

  lemma SortedDistinct(s: seq<string>)
    requires Sorted(s)
    ensures Distinct(s)
  {
    forall a, b | 0 <= a < b < |s|
      ensures s[a] != s[b]
    {
      BelowIrreflexive(s[a]);
    }
  }

  /** Adds `x` to a sorted list at its place, unless it is already there. */
  function Insert(x: string, s: seq<string>): (r: seq<string>)
    requires Sorted(s)
    ensures Sorted(r)
    ensures forall y :: y in r <==> y == x || y in s
  {
    if |s| == 0 then [x]
    else if x == s[0] then s
    else if Below(x, s[0]) then
      InsertFront(x, s);
      [x] + s
    else
      BelowTotal(x, s[0]);
      var rest := Insert(x, s[1..]);
      InsertBehind(s[0], rest, s[1..], x);
      [s[0]] + rest
  }

  lemma InsertFront(x: string, s: seq<string>)
    requires Sorted(s) && |s| > 0 && Below(x, s[0])
    ensures Sorted([x] + s)
  {
    forall b | 0 < b < |s|
      ensures Below(x, s[b])
    {
      BelowTransitive(x, s[0], s[b]);
    }
  }

  lemma InsertBehind(h: string, rest: seq<string>, tail: seq<string>, x: string)
    requires Sorted(rest) && Below(h, x)
    requires forall k :: 0 <= k < |tail| ==> Below(h, tail[k])
    requires forall y :: y in rest ==> y == x || y in tail
    ensures Sorted([h] + rest)
  {
    forall b | 0 <= b < |rest|
      ensures Below(h, rest[b])
    {
      assert rest[b] in rest;
    }
  }

  /** The distinct texts among the cells, sorted. */
  function CategoriesOf(cells: seq<Cell>): (r: seq<string>)
    ensures Sorted(r)
    ensures forall y :: y in r <==> Some(Text(y)) in cells
  {
    if |cells| == 0 then []
    else
      var n := |cells| - 1;
      var r := CategoriesOf(cells[..n]);
      assert cells == cells[..n] + [cells[n]];
      match cells[n]
      case Some(Text(y)) => Insert(y, r)
      case _ => r
  }

  /** Two sorted lists with the same members are the same list: the
      categories are THE sorted list of distinct values. */
  lemma {:induction false} SortedUnique(a: seq<string>, b: seq<string>)
    requires Sorted(a) && Sorted(b)
    requires forall y :: y in a <==> y in b
    ensures a == b
  {
    if |a| > 0 {
      assert a[0] in b;
    }
    if |b| > 0 {
      assert b[0] in a;
    }
    if |a| > 0 && |b| > 0 {
      var i :| 0 <= i < |a| && a[i] == b[0];
      var k :| 0 <= k < |b| && b[k] == a[0];
      assert i == 0 || Below(a[0], b[0]);
      assert k == 0 || Below(b[0], a[0]);
      BelowIrreflexive(a[0]);
      AsymmetricHeads(a[0], b[0]);
      forall y
        ensures y in a[1..] <==> y in b[1..]
      {
        SortedHead(a, y);
        SortedHead(b, y);
      }
      SortedUnique(a[1..], b[1..]);
    }
  }

  lemma AsymmetricHeads(x: string, y: string)
    ensures !(Below(x, y) && Below(y, x))
  {
    if Below(x, y) && Below(y, x) {
      BelowTransitive(x, y, x);
      BelowIrreflexive(x);
    }
  }

  lemma SortedHead(s: seq<string>, y: string)
    requires Sorted(s) && |s| > 0
    ensures y in s[1..] <==> y in s && y != s[0]
  {
    SortedDistinct(s);
    if y in s && y != s[0] {
      var i :| 0 <= i < |s| && s[i] == y;
    }
  }

  /** The cells of column `j`, top to bottom. */
  function ColumnCells(t: Table, j: nat): (r: seq<Cell>)
    requires Rectangular(t) && j < |t.columns|
    ensures |r| == |t.rows|
    ensures forall i :: 0 <= i < |t.rows| ==> r[i] == t.rows[i].cells[j]
  {
    seq(|t.rows|, i requires 0 <= i < |t.rows| => t.rows[i].cells[j])
  }

  /** The categories of column `j`: its distinct texts in sorted order. */
  function Categories(t: Table, j: nat): (r: seq<string>)
    requires Rectangular(t) && j < |t.columns|
    ensures Sorted(r) && Distinct(r)
    ensures forall y :: y in r <==> exists i :: 0 <= i < |t.rows| && t.rows[i].cells[j] == Some(Text(y))
  {
    var cells := ColumnCells(t, j);
    var r := CategoriesOf(cells);
    SortedDistinct(r);
    forall y
      ensures Some(Text(y)) in cells <==> exists i :: 0 <= i < |t.rows| && t.rows[i].cells[j] == Some(Text(y))
    {
      if Some(Text(y)) in cells {
        var i :| 0 <= i < |cells| && cells[i] == Some(Text(y));
      }
    }
    r
  }

  /** The positions of all columns but `j`. */
  function Others(w: nat, j: nat): (r: seq<nat>)
    ensures IncreasingBelow(r, w)
    ensures forall k :: 0 <= k < w ==> (k in r <==> k != j)
  {
    Where(seq(w, k requires 0 <= k < w => k != j))
  }

  /** The positions 0, ..., w - 1 with `j` left out. */
  function Skip(w: nat, j: nat): (r: seq<nat>)
    requires j < w
    ensures |r| == w - 1
    ensures forall k :: 0 <= k < w - 1 ==> r[k] == if k < j then k else k + 1
  {
    seq(w - 1, k requires 0 <= k < w - 1 => if k < j then k else k + 1)
  }

  lemma OthersSkip(w: nat, j: nat)
    requires j < w
    ensures Others(w, j) == Skip(w, j)
  {
    var a := Others(w, j);
    var b := Skip(w, j);
    forall x
      ensures x in a <==> x in b
    {
      if x in a {
        var k :| 0 <= k < |a| && a[k] == x;
        assert x < w && x != j;
        if x < j {
          assert b[x] == x;
        } else {
          assert b[x - 1] == x;
        }
      }
    }
    IncreasingUnique(a, b, w);
  }

  /** Picking all positions but `j` is cutting `j` out. */
  lemma PickOthers<T>(s: seq<T>, j: nat)
    requires j < |s|
    ensures Pick(s, Others(|s|, j)) == s[..j] + s[j + 1..]
  {
    OthersSkip(|s|, j);
  }

  /** The dummy column for one category: `<prefix>_<category>`. */
  function DummyName(prefix: string, category: string): string {
    prefix + "_" + category
  }

  /** Different categories give different dummy columns. */
  lemma DummyNameInjective(prefix: string, a: string, b: string)
    ensures DummyName(prefix, a) == DummyName(prefix, b) ==> a == b
  {
    assert DummyName(prefix, a)[|prefix| + 1..] == a;
    assert DummyName(prefix, b)[|prefix| + 1..] == b;
  }

  function DummyColumns(prefix: string, cats: seq<string>): (r: seq<Column>)
    ensures |r| == |cats|
    ensures forall k :: 0 <= k < |cats| ==> r[k] == Column(DummyName(prefix, cats[k]), Numeric)
  {
    seq(|cats|, k requires 0 <= k < |cats| => Column(DummyName(prefix, cats[k]), Numeric))
  }

  /** One-hot flags of a cell: 1 in the position of its category, 0 elsewhere. */
  function Flags(c: Cell, cats: seq<string>): (r: seq<Cell>)
    ensures |r| == |cats|
    ensures forall k :: 0 <= k < |cats| ==> r[k] == Some(Num(if c == Some(Text(cats[k])) then 1.0 else 0.0))
  {
    seq(|cats|, k requires 0 <= k < |cats| => Some(Num(if c == Some(Text(cats[k])) then 1.0 else 0.0)))
  }

  /** Column `name` holds nothing but text or missing cells. */
  ghost predicate TextColumn(t: Table, name: string) {
    forall i, j :: 0 <= i < |t.rows| && 0 <= j < |t.columns| && j < |t.rows[i].cells| && t.columns[j].name == name ==>
      t.rows[i].cells[j].None? || t.rows[i].cells[j].value.Text?
  }

  /** `pd.get_dummies(t, columns=[name])`: the column `name` is replaced by
      one 0/1 column per category, appended after the remaining columns in
      sorted category order; a missing cell sets no flag.  A table without
      that column is a `KeyError`. */
  function GetDummies(t: Table, name: string): (r: Result<Table, string>)
    requires Rectangular(t)
    requires TextColumn(t, name)
    ensures r.Success? <==> name in Names(t.columns)
    ensures r.Success? ==> Rectangular(r.value) && |r.value.rows| == |t.rows|
  {
    match ColumnIndex(t.columns, name)
    case None =>
      assert forall k :: 0 <= k < |t.columns| ==> Names(t.columns)[k] != name;
      Failure(name)
    case Some(j) =>
      var keep := Others(|t.columns|, j);
      var cats := Categories(t, j);
      var rest := SelectColumns(t, keep);
      assert Names(t.columns)[j] == name;
      Success(Table(rest.columns + DummyColumns(name, cats),
        seq(|t.rows|, i requires 0 <= i < |t.rows| =>
          Row(t.rows[i].index, rest.rows[i].cells + Flags(t.rows[i].cells[j], cats)))))
  }

  /** The encoded table in terms of the selection it is built from. */
  lemma GetDummiesShape(t: Table, name: string, j: nat)
    requires WellFormed(t) && TextColumn(t, name)
    requires j < |t.columns| && t.columns[j].name == name
    ensures GetDummies(t, name).Success?
    ensures var u := GetDummies(t, name).value;
      var keep := Others(|t.columns|, j);
      var cats := Categories(t, j);
      && u.columns == Pick(t.columns, keep) + DummyColumns(name, cats)
      && |u.rows| == |t.rows|
      && forall i :: 0 <= i < |t.rows| ==>
        && u.rows[i].index == t.rows[i].index
        && u.rows[i].cells == Pick(t.rows[i].cells, keep) + Flags(t.rows[i].cells[j], cats)
  {
    var k :| ColumnIndex(t.columns, name) == Some(k);
    DistinctIndex(Names(t.columns), k, j);
  }

  /** `get_dummies` on column `j`, named `name`: the categories are the
      distinct texts of that column in sorted order; the encoded table holds
      the other columns in their order, then one numeric column
      `<name>_<category>` per category; every row keeps its index and its
      other cells, and its flag for a category is 1 exactly when its cell
      held that category, 0 otherwise. */
  lemma GetDummiesSpec(t: Table, name: string, j: nat)
    requires WellFormed(t) && TextColumn(t, name)
    requires j < |t.columns| && t.columns[j].name == name
    ensures GetDummies(t, name).Success?
    ensures var u := GetDummies(t, name).value;
      var cats := Categories(t, j);
      var w := |t.columns| - 1;
      && Sorted(cats) && Distinct(cats)
      && (forall y :: y in cats <==> exists i :: 0 <= i < |t.rows| && t.rows[i].cells[j] == Some(Text(y)))
      && |u.columns| == w + |cats|
      && u.columns[..w] == t.columns[..j] + t.columns[j + 1..]
      && (forall k :: 0 <= k < |cats| ==> u.columns[w + k] == Column(DummyName(name, cats[k]), Numeric))
      && |u.rows| == |t.rows|
      && forall i :: 0 <= i < |t.rows| ==>
        && u.rows[i].index == t.rows[i].index
        && |u.rows[i].cells| == w + |cats|
        && u.rows[i].cells[..w] == t.rows[i].cells[..j] + t.rows[i].cells[j + 1..]
        && forall k :: 0 <= k < |cats| ==>
          u.rows[i].cells[w + k] == Some(Num(if t.rows[i].cells[j] == Some(Text(cats[k])) then 1.0 else 0.0))
  {
    GetDummiesShape(t, name, j);
    var u := GetDummies(t, name).value;
    var cats := Categories(t, j);
    var w := |t.columns| - 1;
    PickOthers(t.columns, j);
    assert u.columns[..w] == t.columns[..j] + t.columns[j + 1..];
    forall i | 0 <= i < |t.rows|
      ensures u.rows[i].cells[..w] == t.rows[i].cells[..j] + t.rows[i].cells[j + 1..]
      ensures forall k :: 0 <= k < |cats| ==>
        u.rows[i].cells[w + k] == Some(Num(if t.rows[i].cells[j] == Some(Text(cats[k])) then 1.0 else 0.0))
    {
      PickOthers(t.rows[i].cells, j);
    }
  }

  /** A present cell sets exactly one flag; a missing cell sets none. */
  lemma FlagsOneHot(c: Cell, cats: seq<string>)
    requires Distinct(cats)
    requires c.Some? && c.value.Text? && c.value.s in cats
    ensures exists k :: (
      && 0 <= k < |cats| && Flags(c, cats)[k] == Some(Num(1.0))
      && forall m :: 0 <= m < |cats| && m != k ==> Flags(c, cats)[m] == Some(Num(0.0)))
  {
    var k :| 0 <= k < |cats| && cats[k] == c.value.s;
    assert Flags(c, cats)[k] == Some(Num(1.0));
  }

  lemma FlagsMissing(cats: seq<string>)
    ensures forall m :: 0 <= m < |cats| ==> Flags(None, cats)[m] == Some(Num(0.0))
  {
  }

  /** One row holding the category `tag`: the encoded table is the other
      columns followed by the single column `<name>_<tag>`, set to 1. */
  lemma GetDummiesOneRow(t: Table, name: string, j: nat, tag: string)
    requires WellFormed(t) && TextColumn(t, name)
    requires j < |t.columns| && t.columns[j].name == name
    requires |t.rows| == 1 && t.rows[0].cells[j] == Some(Text(tag))
    ensures GetDummies(t, name).Success?
    ensures var u := GetDummies(t, name).value;
      var keep := Others(|t.columns|, j);
      && u.columns == Pick(t.columns, keep) + [Column(DummyName(name, tag), Numeric)]
      && |u.rows| == 1
      && u.rows[0].cells == Pick(t.rows[0].cells, keep) + [Some(Num(1.0))]
  {
    GetDummiesShape(t, name, j);
    var cats := Categories(t, j);
    forall y
      ensures y in cats <==> y in [tag]
    {
      if y in cats {
        var i :| 0 <= i < |t.rows| && t.rows[i].cells[j] == Some(Text(y));
      }
    }
    SortedUnique(cats, [tag]);
  }

  /** `t.drop(columns=[name])`; a `KeyError` when there is no such column. */
  function DropColumn(t: Table, name: string): (r: Result<Table, string>)
    requires Rectangular(t)
    ensures r.Success? <==> name in Names(t.columns)
    ensures r.Success? ==> Rectangular(r.value) && |r.value.rows| == |t.rows|
  {
    match ColumnIndex(t.columns, name)
    case None =>
      assert forall k :: 0 <= k < |t.columns| ==> Names(t.columns)[k] != name;
      Failure(name)
    case Some(j) =>
      assert Names(t.columns)[j] == name;
      Success(SelectColumns(t, Others(|t.columns|, j)))
  }

  /** Dropping a column of a well-formed table keeps every other column, in
      order, and removes the named one. */
  lemma DropColumnSpec(t: Table, name: string, j: nat)
    requires WellFormed(t)
    requires j < |t.columns| && t.columns[j].name == name
    ensures DropColumn(t, name).Success?
    ensures var u := DropColumn(t, name).value;
      && u == SelectColumns(t, Others(|t.columns|, j))
      && WellFormed(u)
      && Names(u.columns) == Pick(Names(t.columns), Others(|t.columns|, j))
      && name !in Names(u.columns)
  {
    var k :| ColumnIndex(t.columns, name) == Some(k);
    DistinctIndex(Names(t.columns), k, j);
    var keep := Others(|t.columns|, j);
    DropKeepsOthers(t, j);
    forall m | 0 <= m < |keep|
      ensures Pick(Names(t.columns), keep)[m] != name
    {
      assert keep[m] in keep && keep[m] < |t.columns|;
      DistinctIndex(Names(t.columns), keep[m], j);
      assert Pick(Names(t.columns), keep)[m] == Names(t.columns)[keep[m]];
    }
  }

  lemma DropKeepsOthers(t: Table, j: nat)
    requires WellFormed(t) && j < |t.columns|
    ensures var u := SelectColumns(t, Others(|t.columns|, j));
      WellFormed(u) && Names(u.columns) == Pick(Names(t.columns), Others(|t.columns|, j))
  {
    var keep := Others(|t.columns|, j);
    MaskedColumns(t, seq(|t.columns|, k requires 0 <= k < |t.columns| => k != j));
    assert Names(SelectColumns(t, keep).columns) == Pick(Names(t.columns), keep);
  }
}
