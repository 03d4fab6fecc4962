/** A concrete run of the cleaner showing that cleaning twice can differ from
    cleaning once. */
module PreprocessorExamples {
  import opened Wrappers
  import opened Seqs
  import opened Tables
  import opened Preprocessor

  function N(x: real): Cell {
    Some(Num(x))
  }

  /** Columns `a` = [1, 2] and `b` = [-1, 5]. */
  const TwoByTwo: Table := Table(
    [Column("a", Numeric), Column("b", Numeric)],
    [Row(0, [N(1.0), N(-1.0)]), Row(1, [N(2.0), N(5.0)])])

  /** What cleaning `TwoByTwo` leaves: the second row alone, renumbered. */
  const TwoByTwoCleaned: Table := Table(
    [Column("a", Numeric), Column("b", Numeric)],
    [Row(0, [N(2.0), N(5.0)])])

  lemma TwoValues(s: set<Value>, a: Value, b: Value)
    requires a in s && b in s && a != b
    ensures |s| >= 2
  {
    var rest := s - {a};
    assert b in rest;
    assert s == rest + {a};
    assert |rest| >= 1;
  }

  /** In a one-row table a present cell is the only value of its column. */
  lemma SingleRowValues(t: Table, j: nat)
    requires Rectangular(t) && j < |t.columns|
    requires |t.rows| == 1 && t.rows[0].cells[j].Some?
    ensures ValuesOf(t, j) == {t.rows[0].cells[j].value}
  {
    assert t.rows[0].cells[j].value in ValuesOf(t, j);
    forall v | v in ValuesOf(t, j)
      ensures v == t.rows[0].cells[j].value
    {
      var i :| 0 <= i < |t.rows| && t.rows[i].cells[j].Some? && t.rows[i].cells[j].value == v;
    }
  }

  /** Selecting every column, in order, gives the table back. */
  lemma SelectAllColumns(t: Table)
    requires Rectangular(t)
    ensures SelectColumns(t, Identity(|t.columns|)) == t
  {
    var ci := Identity(|t.columns|);
    var u := SelectColumns(t, ci);
    assert Pick(t.columns, ci) == t.columns;
    forall i | 0 <= i < |t.rows|
      ensures u.rows[i] == t.rows[i]
    {
      assert Pick(t.rows[i].cells, ci) == t.rows[i].cells;
    }
  }

  /** A mask that keeps every column keeps the table and reports nothing. */
  lemma AllKept(t: Table, m: seq<bool>)
    requires Rectangular(t) && |m| == |t.columns|
    requires forall j :: 0 <= j < |m| ==> m[j]
    ensures SelectColumns(t, Where(m)) == t
    ensures Pick(Names(t.columns), Where(Not(m))) == []
  {
    assert Where(m) == Identity(|t.columns|) by {
      WhereAll(m);
    }
    SelectAllColumns(t);
    assert Where(Not(m)) == [] by {
      CountNot(m);
    }
  }

  /** A column with two distinct values is not all missing. */
  lemma NoEmptyColumn(t: Table)
    requires WellFormed(t)
    requires forall j :: 0 <= j < |t.columns| ==> Nunique(t, j) > 1
    ensures DropEmptyColumns(t) == (t, [])
  {
    var m1 := NonEmptyMask(t);
    forall j | 0 <= j < |t.columns|
      ensures m1[j]
    {
      assert Nunique(t, j) > 1;
      var v :| v in ValuesOf(t, j);
      var i :| 0 <= i < |t.rows| && t.rows[i].cells[j].Some? && t.rows[i].cells[j].value == v;
      assert !AllMissing(t, j);
    }
    AllKept(t, m1);
  }

  lemma NoIncompleteRow(t: Table)
    requires WellFormed(t)
    requires forall i, j :: 0 <= i < |t.rows| && 0 <= j < |t.columns| ==> t.rows[i].cells[j].Some?
    ensures DropIncompleteRows(t) == (t, 0)
  {
    var m2 := CompleteMask(t);
    WhereAll(m2);
    assert Pick(t.rows, Identity(|t.rows|)) == t.rows;
    assert SelectRows(t, Where(m2)) == t;
  }

  lemma NoConstantColumn(t: Table)
    requires WellFormed(t)
    requires forall j :: 0 <= j < |t.columns| ==> Nunique(t, j) > 1
    ensures DropConstantColumns(t) == (t, [])
  {
    AllKept(t, VariedMask(t));
  }

  /** Cleaning a table that steps 1 to 3 leave alone is step 4 followed by
      renumbering. */
  lemma CleanOfUntouched(t: Table)
    requires WellFormed(t)
    requires DropEmptyColumns(t).0 == t
    requires DropIncompleteRows(t).0 == t
    requires DropConstantColumns(t).0 == t
    ensures CleanDataset(t).0 == ResetIndex(FilterNegatives(t, NumericColumns(t.columns)).0)
  {
  }

  /** Step 4 never removes a column: the cleaner keeps the columns step 3 keeps. */
  lemma CleanColumns(t: Table)
    requires WellFormed(t)
    ensures CleanDataset(t).0.columns
      == DropConstantColumns(DropIncompleteRows(DropEmptyColumns(t).0).0).0.columns
  {
  }

  lemma TwoByTwoWellFormed()
    ensures WellFormed(TwoByTwo)
  {
    assert Names(TwoByTwo.columns) == ["a", "b"];
  }

  lemma TwoByTwoVaried()
    ensures Rectangular(TwoByTwo)
    ensures forall j :: 0 <= j < |TwoByTwo.columns| ==> Nunique(TwoByTwo, j) > 1
  {
    var t := TwoByTwo;
    assert t.rows[0].cells[0].value in ValuesOf(t, 0);
    assert t.rows[1].cells[0].value in ValuesOf(t, 0);
    assert t.rows[0].cells[1].value in ValuesOf(t, 1);
    assert t.rows[1].cells[1].value in ValuesOf(t, 1);
    TwoValues(ValuesOf(t, 0), Num(1.0), Num(2.0));
    TwoValues(ValuesOf(t, 1), Num(-1.0), Num(5.0));
  }

  lemma TwoByTwoStepOne()
    ensures WellFormed(TwoByTwo)
    ensures DropEmptyColumns(TwoByTwo).0 == TwoByTwo
  {
    TwoByTwoWellFormed();
    TwoByTwoVaried();
    NoEmptyColumn(TwoByTwo);
  }

  lemma TwoByTwoStepTwo()
    ensures WellFormed(TwoByTwo)
    ensures DropIncompleteRows(TwoByTwo).0 == TwoByTwo
  {
    TwoByTwoWellFormed();
    NoIncompleteRow(TwoByTwo);
  }

  lemma TwoByTwoStepThree()
    ensures WellFormed(TwoByTwo)
    ensures DropConstantColumns(TwoByTwo).0 == TwoByTwo
  {
    TwoByTwoWellFormed();
    TwoByTwoVaried();
    NoConstantColumn(TwoByTwo);
  }

  lemma TwoByTwoNumeric()
    ensures NumericColumns(TwoByTwo.columns) == [0, 1]
  {
    var js := NumericColumns(TwoByTwo.columns);
    assert 0 in js && 1 in js;
    forall x
      ensures x in js <==> x in [0, 1]
    {
      if x in js {
        var k :| 0 <= k < |js| && js[k] == x;
      }
    }
    IncreasingUnique(js, [0, 1], 2);
  }

  /** Only the second row has no negative number. */
  lemma TwoByTwoPass()
    ensures Rectangular(TwoByTwo)
    ensures Where(PassMask(TwoByTwo, [0, 1])) == [1]
  {
    var t := TwoByTwo;
    var pass := PassMask(t, [0, 1]);
    var cols: seq<nat> := [0, 1];
    assert !pass[0] by {
      assert IsNegative(t.rows[0].cells[cols[1]]);
    }
    assert pass[1];
    forall x
      ensures x in Where(pass) <==> x in [1]
    {
      if x in Where(pass) {
        var k :| 0 <= k < |Where(pass)| && Where(pass)[k] == x;
      }
    }
    IncreasingUnique(Where(pass), [1], 2);
  }

  lemma TwoByTwoFilter()
    ensures WellFormed(TwoByTwo)
    ensures FilterNegatives(TwoByTwo, [0, 1]).0 == SelectRows(TwoByTwo, [1])
  {
    TwoByTwoWellFormed();
    TwoByTwoPass();
    FilterNegativesSpec(TwoByTwo, [0, 1]);
  }

  lemma TwoByTwoRenumbered()
    ensures ResetIndex(SelectRows(TwoByTwo, [1])) == TwoByTwoCleaned
  {
    assert SelectRows(TwoByTwo, [1]).rows == [TwoByTwo.rows[1]];
  }

  lemma FirstCleaning()
    ensures WellFormed(TwoByTwo)
    ensures CleanDataset(TwoByTwo).0 == TwoByTwoCleaned
  {
    TwoByTwoStepOne();
    TwoByTwoStepTwo();
    TwoByTwoStepThree();
    TwoByTwoNumeric();
    CleanOfUntouched(TwoByTwo);
    TwoByTwoFilter();
    TwoByTwoRenumbered();
  }

  lemma CleanedWellFormed()
    ensures WellFormed(TwoByTwoCleaned)
  {
    assert Names(TwoByTwoCleaned.columns) == ["a", "b"];
  }

  lemma CleanedStepOne()
    ensures WellFormed(TwoByTwoCleaned)
    ensures DropEmptyColumns(TwoByTwoCleaned).0 == TwoByTwoCleaned
  {
    var u := TwoByTwoCleaned;
    CleanedWellFormed();
    var m1 := NonEmptyMask(u);
    assert m1[0] && m1[1] by {
      assert u.rows[0].cells[0].Some? && u.rows[0].cells[1].Some?;
    }
    AllKept(u, m1);
  }

  lemma CleanedStepTwo()
    ensures WellFormed(TwoByTwoCleaned)
    ensures DropIncompleteRows(TwoByTwoCleaned).0 == TwoByTwoCleaned
  {
    CleanedWellFormed();
    NoIncompleteRow(TwoByTwoCleaned);
  }

  /** With one row left every column holds a single value, so step 3 drops them all. */
  lemma CleanedStepThree()
    ensures WellFormed(TwoByTwoCleaned)
    ensures DropConstantColumns(TwoByTwoCleaned).0.columns == []
  {
    var u := TwoByTwoCleaned;
    CleanedWellFormed();
    var m3 := VariedMask(u);
    SingleRowValues(u, 0);
    SingleRowValues(u, 1);
    assert !m3[0] && !m3[1];
    assert CountTrue(m3) == 0;
  }

  lemma SecondCleaning()
    ensures WellFormed(TwoByTwoCleaned)
    ensures Width(CleanDataset(TwoByTwoCleaned).0) == 0
  {
    CleanedStepOne();
    CleanedStepTwo();
    CleanedStepThree();
    CleanColumns(TwoByTwoCleaned);
  }

  /** The cleaner is not idempotent: step 4 removes the row holding -1, which
      leaves both columns with a single value, so a second cleaning drops
      every column that the first one kept. */
  lemma CleanNotIdempotent()
    ensures WellFormed(TwoByTwo)
    ensures CleanDataset(TwoByTwo).0 == TwoByTwoCleaned
    ensures Width(CleanDataset(TwoByTwoCleaned).0) == 0
    ensures CleanDataset(CleanDataset(TwoByTwo).0).0 != CleanDataset(TwoByTwo).0
  {
    FirstCleaning();
    SecondCleaning();
  }
}
