/** The dataset cleaner (`clean_dataset` in utils/preprocessor.py): four
    removal steps in a fixed order, each recording what it removed, and a
    final renumbering of the rows.  Modelled as a pure function from a table
    to (cleaned table, report); the caller's table is never changed. */
module Preprocessor {
  import opened Wrappers
  import opened Seqs
  import opened Tables

  /** One step-4 report entry: a numeric column and how many rows its check
      removed. */
  datatype NegativeEntry = NegativeEntry(column: string, count: nat)

  /** The report, one field per report key, in the order the keys are
      written. */
  datatype Report = Report(
    emptyColumns: seq<string>,
    nanRows: nat,
    constantColumns: seq<string>,
    negatives: seq<NegativeEntry>)

  /** A value of the report dictionary: a list of column names or a count. */
  datatype ReportValue = ColumnList(names: seq<string>) | RowCount(n: nat)

  const EmptyColumnsKey: string := "Columnas vacías eliminadas"
  const NanRowsKey: string := "Filas con NaN eliminadas"
  const ConstantColumnsKey: string := "Columnas irrelevantes eliminadas"
  const NegativesPrefix: string := "Valores negativos eliminados en '"

  /** The key of a step-4 entry for column `col`. */
  function NegativesKey(col: string): string {
    NegativesPrefix + col + "'"
  }

  /** The report as the dictionary the cleaner returns, in key insertion
      order. */
  function ReportEntries(r: Report): (d: seq<(string, ReportValue)>)
    ensures |d| == 3 + |r.negatives|
  {
    [(EmptyColumnsKey, ColumnList(r.emptyColumns)),
     (NanRowsKey, RowCount(r.nanRows)),
     (ConstantColumnsKey, ColumnList(r.constantColumns))]
    + seq(|r.negatives|, k requires 0 <= k < |r.negatives| =>
        (NegativesKey(r.negatives[k].column), RowCount(r.negatives[k].count)))
  }

  function Keys<V>(d: seq<(string, V)>): (ks: seq<string>)
    ensures |ks| == |d|
    ensures forall k :: 0 <= k < |d| ==> ks[k] == d[k].0
  {
    seq(|d|, k requires 0 <= k < |d| => d[k].0)
  }

  lemma NegativesKeyInjective(a: string, b: string)
    ensures NegativesKey(a) == NegativesKey(b) ==> a == b
  {
    var p := |NegativesPrefix|;
    assert a == NegativesKey(a)[p..p + |a|];
    assert b == NegativesKey(b)[p..p + |b|];
  }

  /** No step-4 key collides with the three fixed keys or with another
      step-4 key, so the report dictionary loses no entry when the reported
      columns are distinct. */
  lemma ReportKeysDistinct(r: Report)
    requires Distinct(EntryColumns(r.negatives))
    ensures Distinct(Keys(ReportEntries(r)))
  {
    var d := ReportEntries(r);
    var ks := Keys(d);
    forall a, b | 0 <= a < b < |ks|
      ensures ks[a] != ks[b]
    {
      if b >= 3 {
        var cb := r.negatives[b - 3].column;
        assert ks[b] == NegativesKey(cb);
        assert ks[b][0] == 'V';
        if a >= 3 {
          assert EntryColumns(r.negatives)[a - 3] != EntryColumns(r.negatives)[b - 3];
          NegativesKeyInjective(r.negatives[a - 3].column, cb);
        } else {
          assert ks[a][0] != 'V';
        }
      }
    }
  }

  function SumCounts(es: seq<NegativeEntry>): nat {
    if |es| == 0 then 0 else es[0].count + SumCounts(es[1..])
  }

  // ---------------------------------------------------------------------
  // Step 1: columns whose every cell is missing

  function NonEmptyMask(t: Table): (m: seq<bool>)
    requires Rectangular(t)
    ensures |m| == |t.columns|
    ensures forall j :: 0 <= j < |t.columns| ==> (m[j] <==> !AllMissing(t, j))
  {
    seq(|t.columns|, j requires 0 <= j < |t.columns| => !AllMissing(t, j))
  }

  /** Step 1: drops the all-missing columns and returns their names. */
  function DropEmptyColumns(t: Table): (r: (Table, seq<string>))
    requires WellFormed(t)
    ensures WellFormed(r.0) && Restriction(t, r.0)
    ensures Height(r.0) == Height(t)
    ensures forall j :: 0 <= j < Width(t) ==> (t.columns[j] in r.0.columns <==> !AllMissing(t, j))
    ensures forall k :: 0 <= k < Width(r.0) ==> !AllMissing(r.0, k)
    ensures SubsequenceOf(r.1, Names(t.columns))
    ensures forall j :: 0 <= j < Width(t) ==> (t.columns[j].name in r.1 <==> AllMissing(t, j))
    ensures Width(r.0) + |r.1| == Width(t)
  {
    var keep := NonEmptyMask(t);
    MaskedColumns(t, keep);
    SelectedColumnsKeepMask(t, keep);
    (SelectColumns(t, Where(keep)), Pick(Names(t.columns), Where(Not(keep))))
  }

  lemma SelectedColumnsKeepMask(t: Table, keep: seq<bool>)
    requires Rectangular(t)
    requires keep == NonEmptyMask(t)
    ensures forall k :: 0 <= k < |Where(keep)| ==> !AllMissing(SelectColumns(t, Where(keep)), k)
  {
    forall k | 0 <= k < |Where(keep)|
      ensures !AllMissing(SelectColumns(t, Where(keep)), k)
    {
      SelectedColumnCells(t, Where(keep), k);
    }
  }

  // ---------------------------------------------------------------------
  // Step 2: rows with a missing cell

  function CompleteMask(t: Table): (m: seq<bool>)
    ensures |m| == |t.rows|
    ensures forall i :: 0 <= i < |t.rows| ==> (m[i] <==> Complete(t.rows[i]))
  {
    seq(|t.rows|, i requires 0 <= i < |t.rows| => Complete(t.rows[i]))
  }

  /** The rows kept by the complete-row mask are exactly the complete rows. */
  lemma CompleteRowsKept(t: Table)
    requires WellFormed(t)
    ensures var u := SelectRows(t, Where(CompleteMask(t)));
      && NoMissing(u)
      && forall i :: 0 <= i < Height(t) ==> (t.rows[i] in u.rows <==> Complete(t.rows[i]))
  {
    var keep := CompleteMask(t);
    var w := Where(keep);
    var u := SelectRows(t, w);
    forall k | 0 <= k < |u.rows|
      ensures Complete(u.rows[k])
    {
      assert w[k] in w;
      assert u.rows[k] == t.rows[w[k]];
    }
    forall i | 0 <= i < Height(t)
      ensures t.rows[i] in u.rows <==> Complete(t.rows[i])
    {
      if Complete(t.rows[i]) {
        var k :| 0 <= k < |w| && w[k] == i;
        assert u.rows[k] == t.rows[i];
      }
    }
  }

  /** Step 2: drops every row with a missing cell and returns how many rows
      that removed. */
  function DropIncompleteRows(t: Table): (r: (Table, nat))
    requires WellFormed(t)
    ensures WellFormed(r.0) && Restriction(t, r.0)
    ensures r.0.columns == t.columns
    ensures forall i :: 0 <= i < Height(t) ==> (t.rows[i] in r.0.rows <==> Complete(t.rows[i]))
    ensures NoMissing(r.0)
    ensures r.1 == Height(t) - Height(r.0)
    ensures r.1 == CountTrue(Not(CompleteMask(t)))
  {
    var keep := CompleteMask(t);
    MaskedRows(t, keep);
    CountNot(keep);
    CompleteRowsKept(t);
    var u := SelectRows(t, Where(keep));
    (u, Height(t) - Height(u))
  }

  // ---------------------------------------------------------------------
  // Step 3: columns with at most one distinct value

  predicate Varied(t: Table, j: nat)
    requires Rectangular(t) && j < |t.columns|
  {
    Nunique(t, j) > 1
  }

  function VariedMask(t: Table): (m: seq<bool>)
    requires Rectangular(t)
    ensures |m| == |t.columns|
    ensures forall j :: 0 <= j < |t.columns| ==> (m[j] <==> Varied(t, j))
  {
    seq(|t.columns|, j requires 0 <= j < |t.columns| => Varied(t, j))
  }

  lemma SelectedColumnsVaried(t: Table, keep: seq<bool>)
    requires Rectangular(t)
    requires keep == VariedMask(t)
    ensures forall k :: 0 <= k < |Where(keep)| ==> Nunique(SelectColumns(t, Where(keep)), k) > 1
  {
    forall k | 0 <= k < |Where(keep)|
      ensures Nunique(SelectColumns(t, Where(keep)), k) > 1
    {
      var j := Where(keep)[k];
      assert j in Where(keep);
      assert Varied(t, j);
      SelectedColumnCells(t, Where(keep), k);
    }
  }

  /** Step 3: drops the columns with at most one distinct value and returns
      their names. */
  function DropConstantColumns(t: Table): (r: (Table, seq<string>))
    requires WellFormed(t)
    ensures WellFormed(r.0) && Restriction(t, r.0)
    ensures Height(r.0) == Height(t)
    ensures forall j :: 0 <= j < Width(t) ==> (t.columns[j] in r.0.columns <==> Nunique(t, j) > 1)
    ensures forall k :: 0 <= k < Width(r.0) ==> Nunique(r.0, k) > 1
    ensures SubsequenceOf(r.1, Names(t.columns))
    ensures forall j :: 0 <= j < Width(t) ==> (t.columns[j].name in r.1 <==> Nunique(t, j) <= 1)
    ensures Width(r.0) + |r.1| == Width(t)
  {
    var keep := VariedMask(t);
    MaskedColumns(t, keep);
    SelectedColumnsVaried(t, keep);
    (SelectColumns(t, Where(keep)), Pick(Names(t.columns), Where(Not(keep))))
  }

  // ---------------------------------------------------------------------
  // Step 4: rows with a negative value in a numeric column

  /** `df[col] < 0` for one cell: a missing cell is not negative. */
  predicate IsNegative(c: Cell) {
    c.Some? && c.value.Num? && c.value.x < 0.0
  }

  function NegativeMask(t: Table, j: nat): (m: seq<bool>)
    requires Rectangular(t) && j < |t.columns|
    ensures |m| == |t.rows|
    ensures forall i :: 0 <= i < |t.rows| ==> (m[i] <==> IsNegative(t.rows[i].cells[j]))
  {
    seq(|t.rows|, i requires 0 <= i < |t.rows| => IsNegative(t.rows[i].cells[j]))
  }

  /** `df[col] >= 0` for each row: a present cell that is not negative.  A
      missing cell compares false, so the filter drops its row. */
  function KeepMask(t: Table, j: nat): (m: seq<bool>)
    requires Rectangular(t) && j < |t.columns|
    ensures |m| == |t.rows|
    ensures forall i :: 0 <= i < |t.rows| ==>
      (m[i] <==> t.rows[i].cells[j].Some? && !IsNegative(t.rows[i].cells[j]))
  {
    seq(|t.rows|, i requires 0 <= i < |t.rows| =>
      t.rows[i].cells[j].Some? && !IsNegative(t.rows[i].cells[j]))
  }

  /** Without missing cells, `df[col] >= 0` is the negation of `df[col] < 0`. */
  lemma KeepMaskComplete(t: Table, j: nat)
    requires Rectangular(t) && NoMissing(t) && j < |t.columns|
    ensures KeepMask(t, j) == Not(NegativeMask(t, j))
  {
    forall i | 0 <= i < |t.rows|
      ensures KeepMask(t, j)[i] == Not(NegativeMask(t, j))[i]
    {
      assert Complete(t.rows[i]);
    }
  }

  /** One check of step 4: `n = (df[col] < 0).sum()`, and when `n > 0`,
      `df = df[df[col] >= 0]`.  Returns the filtered table and `n`. */
  function FilterColumn(t: Table, j: nat): (Table, nat)
    requires Rectangular(t) && j < |t.columns|
  {
    var n := CountTrue(NegativeMask(t, j));
    if n > 0 then (SelectRows(t, Where(KeepMask(t, j))), n) else (t, 0)
  }

  /** On any table, one check keeps a restriction made of the input's rows,
      with the same columns. */
  lemma FilterColumnRestricts(t: Table, j: nat)
    requires WellFormed(t) && j < |t.columns|
    ensures var u := FilterColumn(t, j).0;
      && WellFormed(u) && Restriction(t, u) && u.columns == t.columns
      && forall i :: 0 <= i < Height(u) ==> u.rows[i] in t.rows
  {
    if CountTrue(NegativeMask(t, j)) > 0 {
      FilterColumnFilters(t, j);
    } else {
      FilterColumnKeeps(t, j);
    }
  }

  /** On any table, one check counts the rows negative in column `j` and
      leaves none; when it filters, it also drops every row whose cell in
      `j` is missing. */
  lemma FilterColumnClears(t: Table, j: nat)
    requires WellFormed(t) && j < |t.columns|
    ensures var r := FilterColumn(t, j);
      && r.1 == CountTrue(NegativeMask(t, j))
      && (forall i :: 0 <= i < Height(r.0) ==> !IsNegative(r.0.rows[i].cells[j]))
      && (r.1 > 0 ==> forall i :: 0 <= i < Height(r.0) ==> r.0.rows[i].cells[j].Some?)
  {
    if CountTrue(NegativeMask(t, j)) > 0 {
      FilterColumnFilters(t, j);
    } else {
      FilterColumnKeeps(t, j);
    }
  }

  /** A check that finds a negative cell keeps the rows `df[col] >= 0`
      selects. */
  lemma FilterColumnFilters(t: Table, j: nat)
    requires WellFormed(t) && j < |t.columns|
    requires CountTrue(NegativeMask(t, j)) > 0
    ensures var u := SelectRows(t, Where(KeepMask(t, j)));
      && FilterColumn(t, j) == (u, CountTrue(NegativeMask(t, j)))
      && WellFormed(u) && Restriction(t, u)
      && u.columns == t.columns
      && (forall i :: 0 <= i < Height(u) ==> u.rows[i] in t.rows)
      && (forall i :: 0 <= i < Height(u) ==> u.rows[i].cells[j].Some? && !IsNegative(u.rows[i].cells[j]))
  {
    var keep := KeepMask(t, j);
    assert FilterColumn(t, j) == (SelectRows(t, Where(keep)), CountTrue(NegativeMask(t, j)));
    MaskedRows(t, keep);
    KeptCells(t, j);
  }

  /** Every row `df[col] >= 0` selects holds a present, non-negative cell
      in that column. */
  lemma KeptCells(t: Table, j: nat)
    requires Rectangular(t) && j < |t.columns|
    ensures var u := SelectRows(t, Where(KeepMask(t, j)));
      forall i :: 0 <= i < Height(u) ==> u.rows[i].cells[j].Some? && !IsNegative(u.rows[i].cells[j])
  {
    var keep := KeepMask(t, j);
    var w := Where(keep);
    var u := SelectRows(t, w);
    forall i | 0 <= i < Height(u)
      ensures u.rows[i].cells[j].Some? && !IsNegative(u.rows[i].cells[j])
    {
      assert keep[w[i]];
    }
  }

  /** A check that finds no negative cell changes nothing. */
  lemma FilterColumnKeeps(t: Table, j: nat)
    requires WellFormed(t) && j < |t.columns|
    requires CountTrue(NegativeMask(t, j)) == 0
    ensures FilterColumn(t, j) == (t, 0)
    ensures Restriction(t, t)
    ensures forall i :: 0 <= i < Height(t) ==> !IsNegative(t.rows[i].cells[j])
  {
    CountZero(NegativeMask(t, j));
    RestrictionReflexive(t);
  }

  /** On a table without missing cells (all that step 4 receives, after step
      2), one check removes exactly the rows negative in column `j`: it
      reports their number, and kept plus reported rows make the input. */
  lemma FilterColumnSpec(t: Table, j: nat)
    requires WellFormed(t) && NoMissing(t) && j < |t.columns|
    ensures var r := FilterColumn(t, j);
      && WellFormed(r.0) && Restriction(t, r.0) && NoMissing(r.0)
      && r.0.columns == t.columns
      && (forall i :: 0 <= i < Height(r.0) ==> r.0.rows[i] in t.rows)
      && (forall i :: 0 <= i < Height(r.0) ==> !IsNegative(r.0.rows[i].cells[j]))
      && r.1 == CountTrue(NegativeMask(t, j))
      && Height(r.0) + r.1 == Height(t)
  {
    FilterColumnRestricts(t, j);
    FilterColumnClears(t, j);
    RestrictionNoMissing(t, FilterColumn(t, j).0);
    var neg := NegativeMask(t, j);
    if CountTrue(neg) > 0 {
      KeepMaskComplete(t, j);
      MaskedRows(t, Not(neg));
      CountNot(neg);
    }
  }

  /** A missing cell in a checked column costs its row whenever the check
      finds a negative cell, although it is not counted. */
  lemma FilterColumnDropsMissing(t: Table, j: nat, i: nat)
    requires WellFormed(t) && j < |t.columns|
    requires i < |t.rows| && t.rows[i].cells[j].None?
    requires CountTrue(NegativeMask(t, j)) > 0
    ensures t.rows[i] !in FilterColumn(t, j).0.rows
    ensures Height(FilterColumn(t, j).0) + FilterColumn(t, j).1 < Height(t)
  {
    var neg := NegativeMask(t, j);
    var keep := KeepMask(t, j);
    FilterColumnFilters(t, j);
    assert !keep[i] && !neg[i];
    CountDisjoint(keep, neg, i);
    MaskedRows(t, keep);
  }

  /** Every report entry records a positive count. */
  ghost predicate PositiveCounts(es: seq<NegativeEntry>) {
    forall k :: 0 <= k < |es| ==> es[k].count > 0
  }

  lemma SumCountsCons(n: nat, name: string, es: seq<NegativeEntry>)
    requires PositiveCounts(es)
    ensures SumCounts((if n > 0 then [NegativeEntry(name, n)] else []) + es) == n + SumCounts(es)
    ensures PositiveCounts((if n > 0 then [NegativeEntry(name, n)] else []) + es)
  {
    var entries := (if n > 0 then [NegativeEntry(name, n)] else []) + es;
    if n > 0 {
      assert entries[1..] == es;
    } else {
      assert entries == es;
    }
  }

  function EntryColumns(es: seq<NegativeEntry>): (r: seq<string>)
    ensures |r| == |es|
    ensures forall k :: 0 <= k < |es| ==> r[k] == es[k].column
  {
    seq(|es|, k requires 0 <= k < |es| => es[k].column)
  }

  /** A name of the tail of a list is a name of the list, and differs from
      its head when the list has no repetition. */
  lemma InTail(names: seq<string>, x: string)
    requires |names| > 0 && x in names[1..]
    ensures x in names
    ensures Distinct(names) ==> x != names[0]
  {
    var q :| 0 <= q < |names| - 1 && names[1..][q] == x;
    assert names[q + 1] == x;
  }

  lemma EntryColumnsCons(names: seq<string>, n: nat, es: seq<NegativeEntry>)
    requires |names| > 0
    requires forall k :: 0 <= k < |es| ==> es[k].column in names[1..]
    requires Distinct(names[1..]) ==> Distinct(EntryColumns(es))
    ensures var all := (if n > 0 then [NegativeEntry(names[0], n)] else []) + es;
      && (forall k :: 0 <= k < |all| ==> all[k].column in names)
      && (Distinct(names) ==> Distinct(EntryColumns(all)))
  {
    var head := if n > 0 then [NegativeEntry(names[0], n)] else [];
    var all := head + es;
    forall k | 0 <= k < |all|
      ensures all[k].column in names
    {
      if k >= |head| {
        assert all[k] == es[k - |head|];
        InTail(names, es[k - |head|].column);
      }
    }
    if Distinct(names) {
      assert Distinct(names[1..]) by {
        forall a, b | 0 <= a < b < |names| - 1
          ensures names[1..][a] != names[1..][b]
        {
          assert names[1..][a] == names[a + 1] && names[1..][b] == names[b + 1];
        }
      }
      if n > 0 {
        var cs := EntryColumns(all);
        forall a, b | 0 <= a < b < |cs|
          ensures cs[a] != cs[b]
        {
          assert cs[b] == es[b - 1].column;
          if a == 0 {
            InTail(names, es[b - 1].column);
          } else {
            assert cs[a] == es[a - 1].column;
            assert EntryColumns(es)[a - 1] != EntryColumns(es)[b - 1];
          }
        }
      } else {
        assert all == es;
      }
    }
  }


  lemma NoNegativesCons(t: Table, t1: Table, t2: Table, js: seq<nat>)
    requires Rectangular(t) && Rectangular(t1) && Rectangular(t2)
    requires |js| > 0
    requires t1.columns == t.columns && t2.columns == t.columns
    requires forall k :: 0 <= k < |js| ==> js[k] < |t.columns|
    requires forall i :: 0 <= i < Height(t1) ==> !IsNegative(t1.rows[i].cells[js[0]])
    requires forall i :: 0 <= i < Height(t2) ==> t2.rows[i] in t1.rows
    requires forall i, k :: 0 <= i < Height(t2) && 0 <= k < |js[1..]| ==> !IsNegative(t2.rows[i].cells[js[1..][k]])
    ensures forall i, k :: 0 <= i < Height(t2) && 0 <= k < |js| ==> !IsNegative(t2.rows[i].cells[js[k]])
  {
    forall i, k | 0 <= i < Height(t2) && 0 <= k < |js|
      ensures !IsNegative(t2.rows[i].cells[js[k]])
    {
      if k == 0 {
        var i1 :| 0 <= i1 < |t1.rows| && t1.rows[i1] == t2.rows[i];
      } else {
        assert js[k] == js[1..][k - 1];
      }
    }
  }

  /** Step 4's loop over the numeric columns `js`, in order.  Each check
      runs on the table the earlier checks left, and a report entry is
      written only for a check that removed something. */
  function FilterNegatives(t: Table, js: seq<nat>): (r: (Table, seq<NegativeEntry>))
    requires WellFormed(t)
    requires forall k :: 0 <= k < |js| ==> js[k] < |t.columns|
    ensures WellFormed(r.0) && r.0.columns == t.columns
    decreases |js|
  {
    if |js| == 0 then (t, [])
    else
      FilterColumnRestricts(t, js[0]);
      var (t1, n) := FilterColumn(t, js[0]);
      var (t2, es) := FilterNegatives(t1, js[1..]);
      (t2, (if n > 0 then [NegativeEntry(t.columns[js[0]].name, n)] else []) + es)
  }

  /** Step 4 keeps a restriction of its input, made of rows of it. */
  lemma {:induction false} FilterNegativesRestricts(t: Table, js: seq<nat>)
    requires WellFormed(t)
    requires forall k :: 0 <= k < |js| ==> js[k] < |t.columns|
    ensures var r := FilterNegatives(t, js);
      && Restriction(t, r.0)
      && (forall i :: 0 <= i < Height(r.0) ==> r.0.rows[i] in t.rows)
    decreases |js|
  {
    if |js| == 0 {
      RestrictionReflexive(t);
    } else {
      FilterColumnRestricts(t, js[0]);
      var t1 := FilterColumn(t, js[0]).0;
      var t2 := FilterNegatives(t1, js[1..]).0;
      assert FilterNegatives(t, js).0 == t2;
      FilterNegativesRestricts(t1, js[1..]);
      RestrictionTransitive(t, t1, t2);
    }
  }

  /** No row step 4 keeps is negative in a checked column. */
  lemma {:induction false} FilterNegativesClears(t: Table, js: seq<nat>)
    requires WellFormed(t)
    requires forall k :: 0 <= k < |js| ==> js[k] < |t.columns|
    ensures var r := FilterNegatives(t, js);
      forall i, k :: 0 <= i < Height(r.0) && 0 <= k < |js| ==> !IsNegative(r.0.rows[i].cells[js[k]])
    decreases |js|
  {
    if |js| > 0 {
      FilterColumnRestricts(t, js[0]);
      FilterColumnClears(t, js[0]);
      var t1 := FilterColumn(t, js[0]).0;
      var t2 := FilterNegatives(t1, js[1..]).0;
      assert FilterNegatives(t, js).0 == t2;
      FilterNegativesClears(t1, js[1..]);
      FilterNegativesRestricts(t1, js[1..]);
      NoNegativesCons(t, t1, t2, js);
    }
  }

  /** The part of one check's contract that the counts depend on. */
  lemma FilterColumnShape(t: Table, j: nat)
    requires WellFormed(t) && NoMissing(t) && j < |t.columns|
    ensures var r := FilterColumn(t, j);
      && WellFormed(r.0) && NoMissing(r.0) && r.0.columns == t.columns
      && Height(r.0) + r.1 == Height(t)
  {
    FilterColumnSpec(t, j);
  }

  /** Step 4 reports only checks that removed rows, and on a table without
      missing cells its counts add up to the rows it removed. */
  lemma {:induction false} FilterNegativesCounts(t: Table, js: seq<nat>)
    requires WellFormed(t) && NoMissing(t)
    requires forall k :: 0 <= k < |js| ==> js[k] < |t.columns|
    ensures var r := FilterNegatives(t, js);
      && PositiveCounts(r.1)
      && Height(r.0) + SumCounts(r.1) == Height(t)
    decreases |js|
  {
    if |js| > 0 {
      FilterColumnShape(t, js[0]);
      var (t1, n) := FilterColumn(t, js[0]);
      var (t2, es) := FilterNegatives(t1, js[1..]);
      var head := if n > 0 then [NegativeEntry(t.columns[js[0]].name, n)] else [];
      assert FilterNegatives(t, js) == (t2, head + es);
      FilterNegativesCounts(t1, js[1..]);
      SumCountsCons(n, t.columns[js[0]].name, es);
    }
  }

  /** Rows of `t` with no negative cell in any of the columns `cols`. */
  function PassMask(t: Table, cols: seq<nat>): (m: seq<bool>)
    requires Rectangular(t)
    requires forall k :: 0 <= k < |cols| ==> cols[k] < |t.columns|
    ensures |m| == |t.rows|
    ensures forall i :: 0 <= i < |t.rows| ==>
      (m[i] <==> forall k :: 0 <= k < |cols| ==> !IsNegative(t.rows[i].cells[cols[k]]))
  {
    seq(|t.rows|, i requires 0 <= i < |t.rows| =>
      forall k :: 0 <= k < |cols| ==> !IsNegative(t.rows[i].cells[cols[k]]))
  }

  /** Reference definition of step 4's report, computed on the step-3 table
      itself: the check of column `js[k]` counts the rows that passed the
      checks of all columns before it (`done`) and are negative in
      `js[k]`. */
  function SequentialReport(t: Table, js: seq<nat>, done: seq<nat>): seq<NegativeEntry>
    requires Rectangular(t)
    requires forall k :: 0 <= k < |js| ==> js[k] < |t.columns|
    requires forall k :: 0 <= k < |done| ==> done[k] < |t.columns|
    decreases |js|
  {
    if |js| == 0 then []
    else
      var c := CountTrue(And(PassMask(t, done), NegativeMask(t, js[0])));
      (if c > 0 then [NegativeEntry(t.columns[js[0]].name, c)] else [])
        + SequentialReport(t, js[1..], done + [js[0]])
  }

  lemma NegativeMaskOfSelection(t: Table, w: seq<nat>, j: nat)
    requires Rectangular(t) && j < |t.columns|
    requires forall k :: 0 <= k < |w| ==> w[k] < |t.rows|
    ensures NegativeMask(SelectRows(t, w), j) == Pick(NegativeMask(t, j), w)
  {
  }

  lemma SelectRowsTwice(t: Table, a: seq<nat>, b: seq<nat>)
    requires forall k :: 0 <= k < |a| ==> a[k] < |t.rows|
    requires forall k :: 0 <= k < |b| ==> b[k] < |a|
    ensures SelectRows(SelectRows(t, a), b) == SelectRows(t, Pick(a, b))
  {
    PickPick(t.rows, a, b);
  }

  lemma PassMaskSnoc(t: Table, done: seq<nat>, j: nat)
    requires Rectangular(t) && j < |t.columns|
    requires forall k :: 0 <= k < |done| ==> done[k] < |t.columns|
    ensures PassMask(t, done + [j]) == And(PassMask(t, done), Not(NegativeMask(t, j)))
  {
    var cols := done + [j];
    forall i | 0 <= i < |t.rows|
      ensures PassMask(t, cols)[i] == And(PassMask(t, done), Not(NegativeMask(t, j)))[i]
    {
      if PassMask(t, done)[i] && !IsNegative(t.rows[i].cells[j]) {
        forall k | 0 <= k < |cols|
          ensures !IsNegative(t.rows[i].cells[cols[k]])
        {
          if k < |done| {
            assert cols[k] == done[k];
          }
        }
      }
      if PassMask(t, cols)[i] {
        assert cols[|done|] == j;
        forall k | 0 <= k < |done|
          ensures !IsNegative(t.rows[i].cells[done[k]])
        {
          assert cols[k] == done[k];
        }
      }
    }
  }

  lemma PassMaskEmpty(t: Table)
    requires Rectangular(t)
    ensures SelectRows(t, Where(PassMask(t, []))) == t
  {
    WhereAll(PassMask(t, []));
    assert Pick(t.rows, Identity(|t.rows|)) == t.rows;
  }

  /** One check of step 4 applied to the rows that passed the checks of
      `done`, when it finds negative rows: what is left is the rows that
      pass the checks of `done + [j]`. */
  lemma SequentialDrops(t: Table, done: seq<nat>, j: nat)
    requires WellFormed(t) && NoMissing(t) && j < |t.columns|
    requires forall k :: 0 <= k < |done| ==> done[k] < |t.columns|
    requires CountTrue(NegativeMask(SelectRows(t, Where(PassMask(t, done))), j)) > 0
    ensures FilterColumn(SelectRows(t, Where(PassMask(t, done))), j).0
      == SelectRows(t, Where(PassMask(t, done + [j])))
  {
    var pass := PassMask(t, done);
    var w := Where(pass);
    var s := SelectRows(t, w);
    var neg := NegativeMask(t, j);
    assert KeepMask(s, j) == Not(NegativeMask(s, j)) by {
      MaskedRows(t, pass);
      RestrictionNoMissing(t, s);
      KeepMaskComplete(s, j);
    }
    NegativeMaskOfSelection(t, w, j);
    PassMaskSnoc(t, done, j);
    assert Not(NegativeMask(s, j)) == Pick(Not(neg), w);
    SelectRowsTwice(t, w, Where(Pick(Not(neg), w)));
    WhereThenWhere(pass, Not(neg));
  }

  /** The same check when it finds no negative row among them: nothing is
      removed, and no row passing `done` fails the check of `j`. */
  lemma SequentialKeeps(t: Table, done: seq<nat>, j: nat)
    requires WellFormed(t) && j < |t.columns|
    requires forall k :: 0 <= k < |done| ==> done[k] < |t.columns|
    requires CountTrue(And(PassMask(t, done), NegativeMask(t, j))) == 0
    ensures PassMask(t, done + [j]) == PassMask(t, done)
  {
    var pass := PassMask(t, done);
    PassMaskSnoc(t, done, j);
    CountZero(And(pass, NegativeMask(t, j)));
  }

  /** One check of step 4 applied to the rows that passed the checks of
      `done`: its count is the reference count, and what is left is the
      rows that pass the checks of `done + [j]`. */
  lemma FilterColumnSequential(t: Table, done: seq<nat>, j: nat)
    requires WellFormed(t) && NoMissing(t) && j < |t.columns|
    requires forall k :: 0 <= k < |done| ==> done[k] < |t.columns|
    ensures var s := SelectRows(t, Where(PassMask(t, done)));
      && FilterColumn(s, j).0 == SelectRows(t, Where(PassMask(t, done + [j])))
      && FilterColumn(s, j).1 == CountTrue(And(PassMask(t, done), NegativeMask(t, j)))
  {
    var pass := PassMask(t, done);
    var w := Where(pass);
    var s := SelectRows(t, w);
    var n := CountTrue(NegativeMask(s, j));
    assert n == CountTrue(And(pass, NegativeMask(t, j))) by {
      NegativeMaskOfSelection(t, w, j);
      CountPicked(NegativeMask(t, j), pass);
    }
    if n > 0 {
      SequentialDrops(t, done, j);
    } else {
      SequentialKeeps(t, done, j);
    }
  }

  /** The reference report names checked columns only, each at most once
      when the checked columns' names are distinct. */
  lemma {:induction false} SequentialReportColumns(t: Table, js: seq<nat>, done: seq<nat>)
    requires Rectangular(t)
    requires forall k :: 0 <= k < |js| ==> js[k] < |t.columns|
    requires forall k :: 0 <= k < |done| ==> done[k] < |t.columns|
    ensures forall k :: 0 <= k < |SequentialReport(t, js, done)| ==>
      SequentialReport(t, js, done)[k].column in Pick(Names(t.columns), js)
    ensures Distinct(Pick(Names(t.columns), js)) ==> Distinct(EntryColumns(SequentialReport(t, js, done)))
    decreases |js|
  {
    if |js| > 0 {
      var names := Pick(Names(t.columns), js);
      SequentialReportColumns(t, js[1..], done + [js[0]]);
      assert names[1..] == Pick(Names(t.columns), js[1..]);
      var c := CountTrue(And(PassMask(t, done), NegativeMask(t, js[0])));
      var rest := SequentialReport(t, js[1..], done + [js[0]]);
      forall k | 0 <= k < |rest|
        ensures rest[k].column in names[1..]
      {
        assert rest[k].column in Pick(Names(t.columns), js[1..]);
      }
      EntryColumnsCons(names, c, rest);
    }
  }

  lemma ConcatFirst(done: seq<nat>, js: seq<nat>)
    requires |js| > 0
    ensures done + [js[0]] + js[1..] == done + js
  {
    assert js == [js[0]] + js[1..];
  }

  /** Step 4 is sequential in what it reports but not in what it keeps: the
      rows left are exactly those with no negative cell in any checked
      column (as one simultaneous filter would leave), while each column's
      count is taken among the rows earlier checks left. */
  lemma {:induction false} FilterNegativesSequential(t: Table, js: seq<nat>, done: seq<nat>)
    requires WellFormed(t) && NoMissing(t)
    requires forall k :: 0 <= k < |js| ==> js[k] < |t.columns|
    requires forall k :: 0 <= k < |done| ==> done[k] < |t.columns|
    ensures var r := FilterNegatives(SelectRows(t, Where(PassMask(t, done))), js);
      && r.0 == SelectRows(t, Where(PassMask(t, done + js)))
      && r.1 == SequentialReport(t, js, done)
    decreases |js|
  {
    var s := SelectRows(t, Where(PassMask(t, done)));
    assert WellFormed(s) && s.columns == t.columns by {
      MaskedRows(t, PassMask(t, done));
    }
    if |js| == 0 {
      assert done + js == done;
    } else {
      var j := js[0];
      var done': seq<nat> := done + [j];
      assert forall k :: 0 <= k < |done'| ==> done'[k] < |t.columns| by {
        forall k | 0 <= k < |done'|
          ensures done'[k] < |t.columns|
        {
          if k < |done| {
            assert done'[k] == done[k];
          }
        }
      }
      var t1 := FilterColumn(s, j).0;
      var n := FilterColumn(s, j).1;
      assert && t1 == SelectRows(t, Where(PassMask(t, done')))
             && n == CountTrue(And(PassMask(t, done), NegativeMask(t, j)))
             && WellFormed(t1)
      by {
        FilterColumnSequential(t, done, j);
        FilterColumnRestricts(s, j);
      }
      var rest := FilterNegatives(t1, js[1..]);
      var head := if n > 0 then [NegativeEntry(t.columns[j].name, n)] else [];
      assert FilterNegatives(s, js) == (rest.0, head + rest.1);
      FilterNegativesSequential(t, js[1..], done');
      ConcatFirst(done, js);
      assert SequentialReport(t, js, done) == head + SequentialReport(t, js[1..], done');
    }
  }

  /** Step 4 on the step-3 table `t`: the reference report, and the rows
      with no negative cell in any numeric column. */
  lemma FilterNegativesSpec(t: Table, js: seq<nat>)
    requires WellFormed(t) && NoMissing(t)
    requires forall k :: 0 <= k < |js| ==> js[k] < |t.columns|
    ensures FilterNegatives(t, js).0 == SelectRows(t, Where(PassMask(t, js)))
    ensures FilterNegatives(t, js).1 == SequentialReport(t, js, [])
  {
    var none: seq<nat> := [];
    assert none + js == js;
    assert SelectRows(t, Where(PassMask(t, none))) == t by {
      PassMaskEmpty(t);
    }
    FilterNegativesSequential(t, js, none);
  }

  // ---------------------------------------------------------------------
  // The whole cleaner

  /** `clean_dataset`: the four steps in order, then `reset_index`. */
  function CleanDataset(t: Table): (r: (Table, Report))
    requires WellFormed(t)
    ensures WellFormed(r.0)
    ensures exists u :: Restriction(t, u) && r.0 == ResetIndex(u)
    ensures SubsequenceOf(r.0.columns, t.columns)
    ensures Width(r.0) <= Width(t) && Height(r.0) <= Height(t)
    ensures forall i :: 0 <= i < Height(r.0) ==> r.0.rows[i].index == i
    ensures NoMissing(r.0)
    ensures forall i, j :: 0 <= i < Height(r.0) && 0 <= j < Width(r.0) && r.0.columns[j].kind == Numeric ==>
      !IsNegative(r.0.rows[i].cells[j])
    ensures PositiveCounts(r.1.negatives)
    ensures Height(r.0) == Height(t) - r.1.nanRows - SumCounts(r.1.negatives)
    ensures forall j :: 0 <= j < Width(t) ==> (t.columns[j].name in r.1.emptyColumns <==> AllMissing(t, j))
    ensures Distinct(Keys(ReportEntries(r.1)))
  {
    var (t1, empty) := DropEmptyColumns(t);
    var (t2, nanRows) := DropIncompleteRows(t1);
    var (t3, constant) := DropConstantColumns(t2);
    var js := NumericColumns(t3.columns);
    var (t4, negatives) := FilterNegatives(t3, js);
    assert NoMissing(t3) by {
      RestrictionNoMissing(t2, t3);
    }
    FilterNegativesRestricts(t3, js);
    FilterNegativesClears(t3, js);
    FilterNegativesCounts(t3, js);
    CleanRestriction(t, t1, t2, t3, t4);
    RestrictionNoMissing(t3, t4);
    ResetKeepsShape(t4);
    NumericNonNegative(t4, js);
    NegativeColumnsDistinct(t3, js);
    ReportKeysDistinct(Report(empty, nanRows, constant, negatives));
    (ResetIndex(t4), Report(empty, nanRows, constant, negatives))
  }

  lemma CleanRestriction(t: Table, t1: Table, t2: Table, t3: Table, t4: Table)
    requires Restriction(t, t1) && Restriction(t1, t2) && Restriction(t2, t3) && Restriction(t3, t4)
    ensures Restriction(t, t4)
    ensures exists u :: Restriction(t, u) && ResetIndex(t4) == ResetIndex(u)
    ensures SubsequenceOf(t4.columns, t.columns)
    ensures Width(t4) <= Width(t) && Height(t4) <= Height(t)
  {
    RestrictionTransitive(t, t1, t2);
    RestrictionTransitive(t, t2, t3);
    RestrictionTransitive(t, t3, t4);
    RestrictionShape(t, t4);
  }

  lemma NegativeColumnsDistinct(t3: Table, js: seq<nat>)
    requires WellFormed(t3) && NoMissing(t3) && js == NumericColumns(t3.columns)
    ensures Distinct(EntryColumns(FilterNegatives(t3, js).1))
  {
    FilterNegativesSpec(t3, js);
    PickDistinct(Names(t3.columns), js);
    SequentialReportColumns(t3, js, []);
  }

  lemma ResetKeepsShape(t4: Table)
    requires WellFormed(t4) && NoMissing(t4)
    ensures WellFormed(ResetIndex(t4)) && NoMissing(ResetIndex(t4))
  {
  }

  lemma NumericNonNegative(t4: Table, js: seq<nat>)
    requires Rectangular(t4)
    requires js == NumericColumns(t4.columns)
    requires forall i, k :: 0 <= i < Height(t4) && 0 <= k < |js| ==> !IsNegative(t4.rows[i].cells[js[k]])
    ensures var out := ResetIndex(t4);
      forall i, j :: 0 <= i < Height(out) && 0 <= j < Width(out) && out.columns[j].kind == Numeric ==>
        !IsNegative(out.rows[i].cells[j])
  {
    var out := ResetIndex(t4);
    forall i, j | 0 <= i < Height(out) && 0 <= j < Width(out) && out.columns[j].kind == Numeric
      ensures !IsNegative(out.rows[i].cells[j])
    {
      assert j in js;
      var k :| 0 <= k < |js| && js[k] == j;
      assert out.rows[i].cells == t4.rows[i].cells;
    }
  }
}
