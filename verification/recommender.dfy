/** The algorithm recommender (`RecomendadorAlgoritmo.recomendar`): the
    fingerprint of a table plus its problem type, one-hot encoded, aligned
    to the feature names the saved meta-model was fitted on, and handed to
    that model. */
module Recommender {
  import opened Wrappers
  import opened Seqs
  import opened Tables
  import opened MetaFeatures
  import opened Encoding

  const TipoProblema: string := "tipo_problema"

  /** The loaded meta-model: the feature names it was fitted on
      (`feature_names_in_`) and what it predicts for one input row laid out
      in that order.  Loading and the forest itself are not modelled. */
  datatype MetaModel = MetaModel(featureNames: seq<string>, predict: seq<Cell> -> string)

  /** Appends a column holding `c` in every row (`t[name] = 0`). */
  function AddColumn(t: Table, name: string, c: Cell): (r: Table)
    ensures r.columns == t.columns + [Column(name, Numeric)]
    ensures |r.rows| == |t.rows|
    ensures forall i :: 0 <= i < |t.rows| ==>
      r.rows[i].index == t.rows[i].index && r.rows[i].cells == t.rows[i].cells + [c]
  {
    Table(t.columns + [Column(name, Numeric)],
      seq(|t.rows|, i requires 0 <= i < |t.rows| => Row(t.rows[i].index, t.rows[i].cells + [c])))
  }

  /** The fill loop: every expected name that is not yet a column is
      appended as a column of zeros, in the order of `expected`. */
  function FillMissing(t: Table, expected: seq<string>): (r: Table)
    requires WellFormed(t)
    ensures WellFormed(r)
    ensures |r.rows| == |t.rows|
    ensures |t.columns| <= |r.columns| && r.columns[..|t.columns|] == t.columns
    ensures forall name :: name in Names(r.columns) <==> name in Names(t.columns) || name in expected
    ensures forall i :: 0 <= i < |t.rows| ==>
      && r.rows[i].index == t.rows[i].index
      && r.rows[i].cells[..|t.columns|] == t.rows[i].cells
      && forall p :: |t.columns| <= p < |r.columns| ==> r.rows[i].cells[p] == Some(Num(0.0))
    decreases |expected|
  {
    if |expected| == 0 then t
    else if expected[0] in Names(t.columns) then
      var r := FillMissing(t, expected[1..]);
      assert forall name :: name in expected <==> name == expected[0] || name in expected[1..];
      r
    else
      var u := AddColumn(t, expected[0], Some(Num(0.0)));
      assert Names(u.columns) == Names(t.columns) + [expected[0]];
      var r := FillMissing(u, expected[1..]);
      FillStep(t, u, r);
      assert forall name :: name in expected <==> name == expected[0] || name in expected[1..];
      r
  }

  lemma FillStep(t: Table, u: Table, r: Table)
    requires WellFormed(t) && WellFormed(u) && WellFormed(r)
    requires |u.columns| == |t.columns| + 1 && u.columns[..|t.columns|] == t.columns
    requires |u.rows| == |t.rows| && |r.rows| == |u.rows|
    requires |u.columns| <= |r.columns| && r.columns[..|u.columns|] == u.columns
    requires forall i :: 0 <= i < |t.rows| ==>
      u.rows[i].index == t.rows[i].index && u.rows[i].cells == t.rows[i].cells + [Some(Num(0.0))]
    requires forall i :: 0 <= i < |u.rows| ==>
      && r.rows[i].index == u.rows[i].index
      && r.rows[i].cells[..|u.columns|] == u.rows[i].cells
      && forall p :: |u.columns| <= p < |r.columns| ==> r.rows[i].cells[p] == Some(Num(0.0))
    ensures r.columns[..|t.columns|] == t.columns
    ensures forall i :: 0 <= i < |t.rows| ==>
      && r.rows[i].index == t.rows[i].index
      && r.rows[i].cells[..|t.columns|] == t.rows[i].cells
      && forall p :: |t.columns| <= p < |r.columns| ==> r.rows[i].cells[p] == Some(Num(0.0))
  {
    var n := |t.columns|;
    assert r.columns[..n] == r.columns[..|u.columns|][..n];
    forall i | 0 <= i < |t.rows|
      ensures r.rows[i].cells[..n] == t.rows[i].cells
      ensures r.rows[i].cells[n] == Some(Num(0.0))
    {
      assert r.rows[i].cells[..n] == r.rows[i].cells[..|u.columns|][..n];
      assert r.rows[i].cells[n] == r.rows[i].cells[..|u.columns|][n];
    }
  }

  /** The positions of the named columns, or the first name that is not a
      column. */
  function Positions(cols: seq<Column>, names: seq<string>): (r: Result<seq<nat>, string>)
    ensures r.Success? ==> |r.value| == |names|
    ensures r.Success? ==>
      forall k :: 0 <= k < |names| ==> r.value[k] < |cols| && cols[r.value[k]].name == names[k]
    ensures r.Success? <==> forall k :: 0 <= k < |names| ==> names[k] in Names(cols)
  {
    if |names| == 0 then Success([])
    else match ColumnIndex(cols, names[0])
      case None =>
        assert names[0] !in Names(cols);
        Failure(names[0])
      case Some(p) =>
        assert Names(cols)[p] == names[0];
        match Positions(cols, names[1..])
        case Failure(e) =>
          Failure(e)
        case Success(ps) =>
          Success([p] + ps)
  }

  /** `t[names]`: the named columns in the order given; a `KeyError` naming
      the first one that is not a column. */
  function Reindex(t: Table, names: seq<string>): (r: Result<Table, string>)
    requires Rectangular(t)
    ensures r.Success? <==> forall k :: 0 <= k < |names| ==> names[k] in Names(t.columns)
    ensures r.Success? ==> Names(r.value.columns) == names && |r.value.rows| == |t.rows|
  {
    match Positions(t.columns, names)
    case Failure(e) => Failure(e)
    case Success(ps) =>
      var u := SelectColumns(t, ps);
      assert Names(u.columns) == names;
      Success(u)
  }

  /** The alignment of lines 47-51: fill, then reindex. */
  function Align(t: Table, expected: seq<string>): Result<Table, string>
    requires WellFormed(t)
  {
    Reindex(FillMissing(t, expected), expected)
  }

  /** What the aligned input holds for one expected column: the table's own
      cell when it has such a column, 0 otherwise. */
  function AlignedCell(t: Table, i: nat, name: string): Cell
    requires Rectangular(t) && i < |t.rows|
  {
    match ColumnIndex(t.columns, name)
    case None => Some(Num(0.0))
    case Some(j) => t.rows[i].cells[j]
  }

  /** Alignment never fails; its columns are exactly the expected names, in
      their order (unexpected columns are dropped), and each cell is the
      table's value for that name, or 0 where the table had no such column. */
  lemma AlignSpec(t: Table, expected: seq<string>)
    requires WellFormed(t)
    ensures Align(t, expected).Success?
    ensures var u := Align(t, expected).value;
      && Names(u.columns) == expected
      && |u.rows| == |t.rows|
      && forall i, k :: 0 <= i < |t.rows| && 0 <= k < |expected| ==>
        u.rows[i].cells[k] == AlignedCell(t, i, expected[k])
  {
    var f := FillMissing(t, expected);
    var ps := Positions(f.columns, expected).value;
    var u := Align(t, expected).value;
    assert u == SelectColumns(f, ps);
    forall i, k | 0 <= i < |t.rows| && 0 <= k < |expected|
      ensures u.rows[i].cells[k] == AlignedCell(t, i, expected[k])
    {
      var p := ps[k];
      assert u.rows[i].cells[k] == f.rows[i].cells[p];
      FilledCell(t, expected, i, p);
    }
  }

  /** The cell of the filled table at column `p` is the aligned cell for
      that column's name. */
  lemma FilledCell(t: Table, expected: seq<string>, i: nat, p: nat)
    requires WellFormed(t) && i < |t.rows|
    requires p < |FillMissing(t, expected).columns|
    ensures var f := FillMissing(t, expected);
      f.rows[i].cells[p] == AlignedCell(t, i, f.columns[p].name)
  {
    var f := FillMissing(t, expected);
    var name := f.columns[p].name;
    var n := |t.columns|;
    if p < n {
      assert f.columns[p] == f.columns[..n][p];
      assert f.rows[i].cells[p] == f.rows[i].cells[..n][p];
      var j :| ColumnIndex(t.columns, name) == Some(j);
      DistinctIndex(Names(t.columns), j, p);
    } else {
      forall j | 0 <= j < n
        ensures t.columns[j].name != name
      {
        assert f.columns[j] == f.columns[..n][j];
        DistinctIndex(Names(f.columns), j, p);
      }
    }
  }

  // The recommender's input row

  /** `pd.DataFrame([meta])` once `meta["tipo_problema"] = tipo`: a single
      row, index 0. */
  function MetaFrame(m: Meta, tipo: string): Table {
    Table(MetaColumns() + [Column(TipoProblema, Categorical)],
          [Row(0, MetaCells(m) + [Some(Text(tipo))])])
  }

  /** Reference definition of the model's input: for each feature name, the
      fingerprint's value if it is a fingerprint key, 1 if it is the dummy
      of the given problem type, 0 otherwise. */
  function FeatureValue(m: Meta, tipo: string, name: string): Cell {
    match ColumnIndex(MetaColumns(), name)
    case Some(q) => MetaCells(m)[q]
    case None => Some(Num(if name == DummyName(TipoProblema, tipo) then 1.0 else 0.0))
  }

  function InputRow(m: Meta, tipo: string, names: seq<string>): (r: seq<Cell>)
    ensures |r| == |names|
    ensures forall k :: 0 <= k < |names| ==> r[k] == FeatureValue(m, tipo, names[k])
  {
    seq(|names|, k requires 0 <= k < |names| => FeatureValue(m, tipo, names[k]))
  }

  /** Lines 41-51: add the problem type, one-hot encode it, align to the
      model's feature names.  The single aligned row is the reference row. */
  function EncodedInput(m: Meta, tipo: string, names: seq<string>): (x: Table)
    ensures Names(x.columns) == names
    ensures |x.rows| == 1 && x.rows[0].cells == InputRow(m, tipo, names)
  {
    var frame := MetaFrame(m, tipo);
    EncodedFrame(m, tipo);
    var enc := GetDummies(frame, TipoProblema).value;
    AlignSpec(enc, names);
    var x := Align(enc, names).value;
    forall k | 0 <= k < |names|
      ensures x.rows[0].cells[k] == FeatureValue(m, tipo, names[k])
    {
      EncodedCell(m, tipo, names[k]);
    }
    x
  }

  /** `recomendar`: the meta-model's prediction for the reference row. */
  function Recommend(model: MetaModel, t: Table, tipo: string, aggregate: Table -> Aggregates): (r: string)
    requires Rectangular(t)
    ensures r == model.predict(InputRow(ExtractMeta(t, aggregate), tipo, model.featureNames))
  {
    var x := EncodedInput(ExtractMeta(t, aggregate), tipo, model.featureNames);
    model.predict(x.rows[0].cells)
  }

  lemma DummyNotMetaKey(tipo: string)
    ensures DummyName(TipoProblema, tipo) !in MetaKeys
    ensures TipoProblema !in MetaKeys
  {
    var d := DummyName(TipoProblema, tipo);
    assert d[0] == 't';
    forall k | 0 <= k < |MetaKeys|
      ensures MetaKeys[k][0] != 't'
    {
    }
  }

  lemma FrameFacts(m: Meta, tipo: string)
    ensures WellFormed(MetaFrame(m, tipo))
    ensures TextColumn(MetaFrame(m, tipo), TipoProblema)
  {
    var frame := MetaFrame(m, tipo);
    MetaKeysDistinct();
    DummyNotMetaKey(tipo);
    assert Names(frame.columns) == MetaKeys + [TipoProblema];
  }

  /** Every column but the last is the prefix of the positions. */
  lemma OthersLast(w: nat)
    requires w > 0
    ensures Others(w, w - 1) == Identity(w - 1)
  {
    var a := Others(w, w - 1);
    forall x
      ensures x in a <==> x in Identity(w - 1)
    {
      if x in a {
        var k :| 0 <= k < |a| && a[k] == x;
        assert x < w && x != w - 1;
        assert Identity(w - 1)[x] == x;
      }
      if x in Identity(w - 1) {
        var k :| 0 <= k < w - 1 && Identity(w - 1)[k] == x;
        assert x < w && x != w - 1;
      }
    }
    IncreasingUnique(a, Identity(w - 1), w);
  }

  /** The encoded single row: the fingerprint columns, then the one dummy
      column of the problem type, set to 1. */
  lemma EncodedFrame(m: Meta, tipo: string)
    ensures WellFormed(MetaFrame(m, tipo)) && TextColumn(MetaFrame(m, tipo), TipoProblema)
    ensures var enc := GetDummies(MetaFrame(m, tipo), TipoProblema);
      && enc.Success?
      && enc.value.columns == MetaColumns() + [Column(DummyName(TipoProblema, tipo), Numeric)]
      && |enc.value.rows| == 1
      && enc.value.rows[0].cells == MetaCells(m) + [Some(Num(1.0))]
      && WellFormed(enc.value)
  {
    var frame := MetaFrame(m, tipo);
    FrameFacts(m, tipo);
    var w := |frame.columns|;
    GetDummiesOneRow(frame, TipoProblema, w - 1, tipo);
    OthersLast(w);
    assert Pick(frame.columns, Identity(w - 1)) == MetaColumns();
    assert Pick(frame.rows[0].cells, Identity(w - 1)) == MetaCells(m);
    var enc := GetDummies(frame, TipoProblema).value;
    MetaKeysDistinct();
    DummyNotMetaKey(tipo);
    assert Names(enc.columns) == MetaKeys + [DummyName(TipoProblema, tipo)];
  }

  lemma EncodedCell(m: Meta, tipo: string, name: string)
    ensures WellFormed(MetaFrame(m, tipo)) && TextColumn(MetaFrame(m, tipo), TipoProblema)
    ensures GetDummies(MetaFrame(m, tipo), TipoProblema).Success?
    ensures var enc := GetDummies(MetaFrame(m, tipo), TipoProblema).value;
      Rectangular(enc) && |enc.rows| == 1 && AlignedCell(enc, 0, name) == FeatureValue(m, tipo, name)
  {
    EncodedFrame(m, tipo);
    var enc := GetDummies(MetaFrame(m, tipo), TipoProblema).value;
    var cols := MetaColumns();
    var dummy := DummyName(TipoProblema, tipo);
    DummyNotMetaKey(tipo);
    match ColumnIndex(cols, name)
    case Some(q) =>
      assert enc.columns[q] == cols[q];
      PrefixIndex(cols, [Column(dummy, Numeric)], name);
    case None =>
      PrefixIndex(cols, [Column(dummy, Numeric)], name);
  }

  /** Looking a name up in `a + b` finds it in `a` first. */
  lemma {:induction false} PrefixIndex(a: seq<Column>, b: seq<Column>, name: string)
    ensures ColumnIndex(a + b, name) ==
      match ColumnIndex(a, name)
      case Some(q) => Some(q)
      case None =>
        match ColumnIndex(b, name)
        case Some(q) => Some(|a| + q)
        case None => None
  {
    if |a| > 0 {
      assert (a + b)[1..] == a[1..] + b;
      PrefixIndex(a[1..], b, name);
    } else {
      assert a + b == b;
    }
  }

  /** The training tags are accented; a problem type spelled without the
      accent matches neither dummy column, so both of the model's type
      features are 0 and the model sees no problem type at all. */
  lemma UnaccentedTagMatchesNoDummy(m: Meta, names: seq<string>, k: nat)
    requires k < |names|
    requires names[k] == DummyName(TipoProblema, "clasificación") || names[k] == DummyName(TipoProblema, "regresión")
    ensures InputRow(m, "clasificacion", names)[k] == Some(Num(0.0))
    ensures InputRow(m, "regresion", names)[k] == Some(Num(0.0))
  {
    DummyNotMetaKey("clasificación");
    DummyNotMetaKey("regresión");
    assert "clasificación"[11] != "clasificacion"[11];
    assert "regresión"[7] != "regresion"[7];
    DummyNameInjective(TipoProblema, "clasificación", "clasificacion");
    DummyNameInjective(TipoProblema, "regresión", "clasificacion");
    DummyNameInjective(TipoProblema, "clasificación", "regresion");
    DummyNameInjective(TipoProblema, "regresión", "regresion");
  }
}
