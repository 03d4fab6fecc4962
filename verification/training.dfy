/** The offline construction of the meta-model's training set
    (Model/entrenamiento.py): simulated datasets with rule-based labels,
    problem-type tags derived from the labels, one fingerprint record per
    dataset, and the one-hot encoded features X with the labels y.  Fitting
    the forest and saving it are not modelled. */
module Training {
  import opened Wrappers
  import opened Seqs
  import opened Tables
  import opened MetaFeatures
  import opened Encoding
  import opened Recommender

  const MejorModelo: string := "mejor_modelo"
  const Clasificacion: string := "clasificación"
  const Regresion: string := "regresión"

  // Labels and tags

  /** The simulator's labelling rule for dataset number `i` with `nFilas`
      rows: a linear model below 1000 rows, a forest from 1000 on; a
      classifier for even `i`, a regressor for odd `i`. */
  function Label(nFilas: int, i: nat): string {
    if nFilas < 1000 then
      (if i % 2 == 0 then "LogisticRegression" else "LinearRegression")
    else
      (if i % 2 == 0 then "RandomForestClassifier" else "RandomForestRegressor")
  }

  /** `p` occurs in `s` starting at position `k`. */
  predicate OccursAt(s: string, p: string, k: nat) {
    k + |p| <= |s| && s[k..k + |p|] == p
  }

  /** `p in s` on strings: `p` occurs somewhere in `s`. */
  function Contains(s: string, p: string): (r: bool)
    ensures r <==> exists k: nat :: OccursAt(s, p, k)
    decreases |s|
  {
    if |p| > |s| then false
    else if s[..|p|] == p then
      assert OccursAt(s, p, 0);
      true
    else
      var r := Contains(s[1..], p);
      ContainsShift(s, p);
      r
  }

  lemma ContainsShift(s: string, p: string)
    requires |p| <= |s| && s[..|p|] != p
    ensures (exists k: nat :: OccursAt(s, p, k)) <==> (exists k: nat :: OccursAt(s[1..], p, k))
  {
    forall k: nat
      ensures OccursAt(s, p, k + 1) <==> OccursAt(s[1..], p, k)
    {
      if k + 1 + |p| <= |s| {
        assert s[1..][k..k + |p|] == s[k + 1..k + 1 + |p|];
      }
    }
    if exists k: nat :: OccursAt(s, p, k) {
      var k: nat :| OccursAt(s, p, k);
      assert k != 0;
      assert OccursAt(s[1..], p, k - 1);
    }
  }

  /** The problem type assumed for a label: classification exactly when the
      label mentions "Classifier". */
  function Tag(modelName: string): (r: string)
    ensures r == Clasificacion || r == Regresion
    ensures r == Clasificacion <==> Contains(modelName, "Classifier")
  {
    if Contains(modelName, "Classifier") then Clasificacion else Regresion
  }

  /** The tags of a list of labels, position by position. */
  function Tags(labels: seq<string>): (r: seq<string>)
    ensures |r| == |labels|
    ensures forall i :: 0 <= i < |labels| ==> r[i] == Tag(labels[i])
  {
    seq(|labels|, i requires 0 <= i < |labels| => Tag(labels[i]))
  }

  /** A label with no capital C anywhere cannot contain "Classifier", so it
      is tagged regression. */
  lemma RegressorTag(s: string)
    requires 'C' !in s
    ensures Tag(s) == Regresion
  {
    forall k: nat
      ensures !OccursAt(s, "Classifier", k)
    {
      if k + 10 <= |s| {
        assert s[k..k + 10][0] == s[k];
      }
    }
  }

  lemma ForestClassifierTag()
    ensures Tag("RandomForestClassifier") == Clasificacion
  {
    var s := "RandomForestClassifier";
    assert s[12..22] == "Classifier";
    assert OccursAt(s, "Classifier", 12);
  }

  /** Only the forest classifier is tagged as classification: the logistic
      regression, a classifier too, is tagged "regresión". */
  lemma LabelTag(nFilas: int, i: nat)
    ensures Tag(Label(nFilas, i)) == if nFilas >= 1000 && i % 2 == 0 then Clasificacion else Regresion
  {
    if nFilas < 1000 {
      if i % 2 == 0 {
        RegressorTag("LogisticRegression");
      } else {
        RegressorTag("LinearRegression");
      }
    } else if i % 2 == 0 {
      ForestClassifierTag();
    } else {
      RegressorTag("RandomForestRegressor");
    }
  }

  // The simulator

  /** The random draws for one simulated dataset: its row and column counts
      and its standard-normal noise, row by row. */
  datatype Draw = Draw(nFilas: int, nCols: int, noise: seq<seq<real>>)

  /** What `np.random.randint(50, 5000)`, `np.random.randint(3, 30)` and
      `np.random.randn(n_filas, n_cols)` can return. */
  ghost predicate ValidDraw(d: Draw) {
    && 50 <= d.nFilas < 5000
    && 3 <= d.nCols < 30
    && |d.noise| == d.nFilas
    && forall r :: 0 <= r < |d.noise| ==> |d.noise[r]| == d.nCols
  }

  function Digit(d: nat): char
    requires d < 10
  {
    "0123456789"[d]
  }

  /** Decimal notation of a natural number, as `f"{k}"` writes it. */
  function NatToString(n: nat): (r: string)
    ensures |r| > 0
    ensures n >= 10 ==> |r| >= 2
  {
    if n < 10 then [Digit(n)] else NatToString(n / 10) + [Digit(n % 10)]
  }

  /** Different numbers are written differently. */
  lemma {:induction false} NatToStringInjective(a: nat, b: nat)
    ensures NatToString(a) == NatToString(b) ==> a == b
  {
    if NatToString(a) == NatToString(b) {
      var s := NatToString(a);
      if a < 10 && b < 10 {
        assert Digit(a) == s[0] == Digit(b);
      } else if a >= 10 && b >= 10 {
        var n := |s| - 1;
        assert NatToString(a / 10) == s[..n] == NatToString(b / 10);
        assert Digit(a % 10) == s[n] == Digit(b % 10);
        NatToStringInjective(a / 10, b / 10);
      }
    }
  }

  /** The simulated column names `c0`, `c1`, ... */
  function ColumnName(k: nat): string {
    "c" + NatToString(k)
  }

  lemma ColumnNameInjective(a: nat, b: nat)
    ensures ColumnName(a) == ColumnName(b) ==> a == b
  {
    if ColumnName(a) == ColumnName(b) {
      assert ColumnName(a)[1..] == NatToString(a);
      assert ColumnName(b)[1..] == NatToString(b);
      NatToStringInjective(a, b);
    }
  }

  /** The dataset drawn from `d`: numeric columns `c0`, `c1`, ... and one
      row of noise per row, labelled 0, 1, ... */
  function SimulatedTable(d: Draw): (t: Table)
    requires ValidDraw(d)
    ensures WellFormed(t) && NoMissing(t)
    ensures Height(t) == d.nFilas && Width(t) == d.nCols
    ensures forall j :: 0 <= j < Width(t) ==> t.columns[j] == Column(ColumnName(j), Numeric)
  {
    var cols := seq(d.nCols, j requires 0 <= j < d.nCols => Column(ColumnName(j), Numeric));
    var t := Table(cols, seq(d.nFilas, i requires 0 <= i < d.nFilas =>
      Row(i, seq(d.nCols, j requires 0 <= j < d.nCols => Some(Num(d.noise[i][j]))))));
    forall a, b | 0 <= a < b < |cols|
      ensures Names(cols)[a] != Names(cols)[b]
    {
      ColumnNameInjective(a, b);
    }
    t
  }

  /** `simular_datasets`: exactly 100 datasets and 100 labels, aligned by
      position, each dataset numeric, complete, within the drawn bounds, and
      labelled by the rule from its row count and position. */
  method Simulate(draws: seq<Draw>) returns (datasets: seq<Table>, labels: seq<string>)
    requires |draws| == 100
    requires forall i :: 0 <= i < 100 ==> ValidDraw(draws[i])
    ensures |datasets| == 100 && |labels| == 100
    ensures forall i :: 0 <= i < 100 ==>
      && datasets[i] == SimulatedTable(draws[i])
      && WellFormed(datasets[i]) && NoMissing(datasets[i])
      && 50 <= Height(datasets[i]) < 5000 && 3 <= Width(datasets[i]) < 30
      && (forall j :: 0 <= j < Width(datasets[i]) ==> datasets[i].columns[j].kind == Numeric)
      && labels[i] == Label(Height(datasets[i]), i)
  {
    datasets := [];
    labels := [];
    var i := 0;
    while i < 100
      invariant 0 <= i <= 100
      invariant |datasets| == i && |labels| == i
      invariant forall k :: 0 <= k < i ==>
        datasets[k] == SimulatedTable(draws[k]) && labels[k] == Label(draws[k].nFilas, k)
    {
      var df := SimulatedTable(draws[i]);
      var etiqueta := Label(draws[i].nFilas, i);
      datasets := datasets + [df];
      labels := labels + [etiqueta];
      i := i + 1;
    }
  }

  // The meta-dataset

  function Min3(a: nat, b: nat, c: nat): (r: nat)
    ensures r <= a && r <= b && r <= c
    ensures r == a || r == b || r == c
  {
    if a <= b && a <= c then a else if b <= c then b else c
  }

  /** The columns of the meta-dataset: the fingerprint keys, then the
      problem type and the best model. */
  function RecordColumns(): (r: seq<Column>)
    ensures Names(r) == MetaKeys + [TipoProblema, MejorModelo]
  {
    var r := MetaColumns() + [Column(TipoProblema, Categorical), Column(MejorModelo, Categorical)];
    assert Names(r) == MetaKeys + [TipoProblema, MejorModelo];
    r
  }

  lemma RecordColumnsDistinct()
    ensures Distinct(Names(RecordColumns()))
  {
    MetaKeysDistinct();
    DummyNotMetaKey("");
    assert MejorModelo !in MetaKeys by {
      NotMejorModelo();
    }
    assert TipoProblema != MejorModelo;
  }

  /** No fingerprint key is called `mejor_modelo`: the keys of its length
      start with another letter. */
  lemma NotMejorModelo()
    ensures forall k :: 0 <= k < |MetaKeys| ==> MetaKeys[k] != MejorModelo
  {
    assert |MejorModelo| == 12 && MejorModelo[0] == 'm';
    assert MetaKeys[1][0] == 'n' && MetaKeys[8][0] == 'k';
    assert |MetaKeys[0]| != 12 && |MetaKeys[2]| != 12 && |MetaKeys[3]| != 12;
    assert |MetaKeys[4]| != 12 && |MetaKeys[5]| != 12 && |MetaKeys[6]| != 12;
    assert |MetaKeys[7]| != 12 && |MetaKeys[9]| != 12;
  }

  /** `preparar_datos_meta`: one record per zipped (dataset, label, type)
      triple, so as many as the shortest list; each record is the dataset's
      fingerprint followed by its type and label.  With no record at all the
      frame has no columns either. */
  function PrepareMeta(datasets: seq<Table>, labels: seq<string>, tipos: seq<string>,
                       aggregate: Table -> Aggregates): (r: Table)
    requires forall i :: 0 <= i < |datasets| ==> Rectangular(datasets[i])
    ensures |r.rows| == Min3(|datasets|, |labels|, |tipos|)
    ensures |r.rows| == 0 ==> r.columns == []
    ensures |r.rows| > 0 ==> r.columns == RecordColumns()
    ensures WellFormed(r) && TextColumn(r, TipoProblema)
    ensures forall i :: 0 <= i < |r.rows| ==>
      && r.rows[i].index == i
      && |r.rows[i].cells| == |MetaKeys| + 2
      && ReadMeta(r.rows[i].cells[..|MetaKeys|]) == Some(ExtractMeta(datasets[i], aggregate))
      && r.rows[i].cells[|MetaKeys|..] == [Some(Text(tipos[i])), Some(Text(labels[i]))]
  {
    var n := Min3(|datasets|, |labels|, |tipos|);
    if n == 0 then Table([], [])
    else
      var r := Table(RecordColumns(), seq(n, i requires 0 <= i < n =>
        Row(i, MetaCells(ExtractMeta(datasets[i], aggregate)) + [Some(Text(tipos[i])), Some(Text(labels[i]))])));
      RecordFacts(r, datasets, labels, tipos, aggregate);
      r
  }

  lemma RecordFacts(r: Table, datasets: seq<Table>, labels: seq<string>, tipos: seq<string>,
                    aggregate: Table -> Aggregates)
    requires forall i :: 0 <= i < |datasets| ==> Rectangular(datasets[i])
    requires |r.rows| <= |datasets| && |r.rows| <= |labels| && |r.rows| <= |tipos|
    requires r.columns == RecordColumns()
    requires forall i :: 0 <= i < |r.rows| ==>
      r.rows[i].cells == MetaCells(ExtractMeta(datasets[i], aggregate)) + [Some(Text(tipos[i])), Some(Text(labels[i]))]
    ensures WellFormed(r) && TextColumn(r, TipoProblema)
    ensures forall i :: 0 <= i < |r.rows| ==>
      && ReadMeta(r.rows[i].cells[..|MetaKeys|]) == Some(ExtractMeta(datasets[i], aggregate))
      && r.rows[i].cells[|MetaKeys|..] == [Some(Text(tipos[i])), Some(Text(labels[i]))]
  {
    RecordColumnsDistinct();
    forall i | 0 <= i < |r.rows|
      ensures ReadMeta(r.rows[i].cells[..|MetaKeys|]) == Some(ExtractMeta(datasets[i], aggregate))
      ensures r.rows[i].cells[|MetaKeys|..] == [Some(Text(tipos[i])), Some(Text(labels[i]))]
    {
      var m := ExtractMeta(datasets[i], aggregate);
      assert r.rows[i].cells[..|MetaKeys|] == MetaCells(m);
      MetaCellsRoundTrip(m);
    }
    forall j | 0 <= j < |r.columns| && r.columns[j].name == TipoProblema
      ensures j == |MetaKeys|
    {
      DistinctIndex(Names(r.columns), j, |MetaKeys|);
    }
  }

  /** Lines 76-79: one-hot encode the problem type, then X is every column
      but the best model and y is the best-model column.  A frame without
      either column is a `KeyError`. */
  function EncodeAndSplit(dfMeta: Table): (r: Result<(Table, seq<Cell>), string>)
    requires WellFormed(dfMeta) && TextColumn(dfMeta, TipoProblema)
    ensures TipoProblema !in Names(dfMeta.columns) ==> r.Failure?
    ensures r.Success? ==> |r.value.0.rows| == |dfMeta.rows| && |r.value.1| == |dfMeta.rows|
    ensures r.Success? ==> Rectangular(r.value.0)
  {
    var enc :- GetDummies(dfMeta, TipoProblema);
    var x :- DropColumn(enc, MejorModelo);
    match ColumnIndex(enc.columns, MejorModelo)
    case None => Failure(MejorModelo)
    case Some(j) => Success((x, ColumnCells(enc, j)))
  }

  /** No records, no columns: encoding the empty meta-dataset is a
      `KeyError`. */
  lemma EmptyMetaFails(aggregate: Table -> Aggregates)
    ensures EncodeAndSplit(PrepareMeta([], [], [], aggregate)).Failure?
  {
    assert PrepareMeta([], [], [], aggregate).columns == [];
  }

  /** The dummy columns of a list of categories. */
  function DummyNames(cats: seq<string>): (r: seq<string>)
    ensures |r| == |cats|
    ensures forall k :: 0 <= k < |cats| ==> r[k] == DummyName(TipoProblema, cats[k])
  {
    seq(|cats|, k requires 0 <= k < |cats| => DummyName(TipoProblema, cats[k]))
  }

  /** The columns after encoding the record table: the fingerprint keys, the
      best model, then one dummy per category; all names distinct. */
  lemma EncodedRecordNames(cats: seq<string>)
    requires Distinct(cats)
    ensures var cols := MetaColumns() + [Column(MejorModelo, Categorical)] + DummyColumns(TipoProblema, cats);
      Distinct(Names(cols)) && Names(cols)[|MetaKeys|] == MejorModelo
  {
    var cols := MetaColumns() + [Column(MejorModelo, Categorical)] + DummyColumns(TipoProblema, cats);
    var names := Names(cols);
    RecordColumnsDistinct();
    assert names == MetaKeys + [MejorModelo] + DummyNames(cats);
    forall a, b | 0 <= a < b < |names|
      ensures names[a] != names[b]
    {
      var w := |MetaKeys| + 1;
      if b < w {
        assert names[a] == Names(RecordColumns())[if a < |MetaKeys| then a else a + 1];
        assert names[b] == Names(RecordColumns())[if b < |MetaKeys| then b else b + 1];
      } else if a < w {
        DummyNotMetaKey(cats[b - w]);
        assert names[b][0] == 't';
        if a == |MetaKeys| {
          assert names[a][0] == 'm';
        } else {
          assert names[a] == MetaKeys[a];
        }
      } else {
        DummyNameInjective(TipoProblema, cats[a - w], cats[b - w]);
      }
    }
  }

  /** A record table: the record columns, rows of one cell per column. */
  ghost predicate RecordTable(p: Table) {
    p.columns == RecordColumns() && WellFormed(p) && TextColumn(p, TipoProblema)
  }

  /** Encoding a record table: the fingerprint columns, the best model, then
      one dummy per category; each row keeps its fingerprint and label and
      gets the flags of its type. */
  lemma RecordEncoding(p: Table)
    requires RecordTable(p)
    ensures GetDummies(p, TipoProblema).Success?
    ensures var enc := GetDummies(p, TipoProblema).value;
      var t := |MetaKeys|;
      var cats := Categories(p, t);
      && enc.columns == MetaColumns() + [Column(MejorModelo, Categorical)] + DummyColumns(TipoProblema, cats)
      && WellFormed(enc)
      && |enc.rows| == |p.rows|
      && forall i :: 0 <= i < |p.rows| ==>
        enc.rows[i].cells == p.rows[i].cells[..t] + [p.rows[i].cells[t + 1]] + Flags(p.rows[i].cells[t], cats)
  {
    var t := |MetaKeys|;
    var cats := Categories(p, t);
    assert Names(p.columns)[t] == TipoProblema;
    GetDummiesShape(p, TipoProblema, t);
    var enc := GetDummies(p, TipoProblema).value;
    PickOthers(p.columns, t);
    assert p.columns[..t] + p.columns[t + 1..] == MetaColumns() + [Column(MejorModelo, Categorical)];
    EncodedRecordNames(cats);
    forall i | 0 <= i < |p.rows|
      ensures enc.rows[i].cells == p.rows[i].cells[..t] + [p.rows[i].cells[t + 1]] + Flags(p.rows[i].cells[t], cats)
    {
      PickOthers(p.rows[i].cells, t);
      assert p.rows[i].cells[t + 1..] == [p.rows[i].cells[t + 1]];
    }
  }

  /** Dropping the best-model column from an encoded record table leaves the
      fingerprint columns and the dummies, each row without its label. */
  lemma DropBestModel(enc: Table, cats: seq<string>)
    requires Distinct(cats)
    requires enc.columns == MetaColumns() + [Column(MejorModelo, Categorical)] + DummyColumns(TipoProblema, cats)
    requires WellFormed(enc)
    ensures ColumnIndex(enc.columns, MejorModelo) == Some(|MetaKeys|)
    ensures DropColumn(enc, MejorModelo).Success?
    ensures var x := DropColumn(enc, MejorModelo).value;
      var t := |MetaKeys|;
      && x.columns == MetaColumns() + DummyColumns(TipoProblema, cats)
      && |x.rows| == |enc.rows|
      && forall i :: 0 <= i < |enc.rows| ==>
        x.rows[i].cells == enc.rows[i].cells[..t] + enc.rows[i].cells[t + 1..]
  {
    var t := |MetaKeys|;
    EncodedRecordNames(cats);
    assert enc.columns[t].name == MejorModelo;
    assert ColumnIndex(enc.columns, MejorModelo) == Some(t) by {
      var j :| ColumnIndex(enc.columns, MejorModelo) == Some(j);
      DistinctIndex(Names(enc.columns), j, t);
    }
    var keep := Others(|enc.columns|, t);
    var x := SelectColumns(enc, keep);
    assert DropColumn(enc, MejorModelo) == Success(x);
    assert x.columns == MetaColumns() + DummyColumns(TipoProblema, cats) by {
      var meta, dummies := MetaColumns(), DummyColumns(TipoProblema, cats);
      assert |meta| == t;
      assert enc.columns[..t] == meta;
      assert enc.columns[t + 1..] == dummies;
      PickOthers(enc.columns, t);
    }
    forall i | 0 <= i < |enc.rows|
      ensures x.rows[i].cells == enc.rows[i].cells[..t] + enc.rows[i].cells[t + 1..]
    {
      PickOthers(enc.rows[i].cells, t);
    }
  }

  /** Splitting the encoded record table: X is the fingerprint followed by
      the flags, y is the best-model column. */
  lemma RecordSplit(p: Table)
    requires RecordTable(p)
    ensures var t := |MetaKeys|;
      var cats := Categories(p, t);
      var r := EncodeAndSplit(p);
      && r.Success?
      && r.value.0.columns == MetaColumns() + DummyColumns(TipoProblema, cats)
      && |r.value.0.rows| == |p.rows|
      && (forall i :: 0 <= i < |p.rows| ==>
        r.value.0.rows[i].cells == p.rows[i].cells[..t] + Flags(p.rows[i].cells[t], cats))
      && |r.value.1| == |p.rows|
      && (forall i :: 0 <= i < |p.rows| ==> r.value.1[i] == p.rows[i].cells[t + 1])
  {
    RecordEncoding(p);
    var t := |MetaKeys|;
    var cats := Categories(p, t);
    var enc := GetDummies(p, TipoProblema).value;
    DropBestModel(enc, cats);
    var x := DropColumn(enc, MejorModelo).value;
    SplitSteps(p, enc, x, t);
    forall i | 0 <= i < |p.rows|
      ensures x.rows[i].cells == p.rows[i].cells[..t] + Flags(p.rows[i].cells[t], cats)
      ensures enc.rows[i].cells[t] == p.rows[i].cells[t + 1]
    {
      EncodedRow(p.rows[i].cells, enc.rows[i].cells, t, Flags(p.rows[i].cells[t], cats));
    }
  }

  /** The value `EncodeAndSplit` builds from its three steps. */
  lemma SplitSteps(p: Table, enc: Table, x: Table, j: nat)
    requires WellFormed(p) && TextColumn(p, TipoProblema)
    requires GetDummies(p, TipoProblema) == Success(enc)
    requires DropColumn(enc, MejorModelo) == Success(x)
    requires ColumnIndex(enc.columns, MejorModelo) == Some(j)
    ensures EncodeAndSplit(p) == Success((x, ColumnCells(enc, j)))
  {
  }

  lemma EncodedRow(cells: seq<Cell>, c: seq<Cell>, t: nat, flags: seq<Cell>)
    requires t + 1 < |cells|
    requires c == cells[..t] + [cells[t + 1]] + flags
    ensures c[t] == cells[t + 1]
    ensures c[..t] + c[t + 1..] == cells[..t] + flags
  {
    assert c[..t] == cells[..t];
    assert c[t + 1..] == flags;
  }

  /** The split of a record table whose rows end in the given types and
      labels: X names the fingerprint keys and the sorted dummies of the types
      that occur, each X row is the record's fingerprint followed by the
      one-hot flags of its type, and y lists the labels. */
  lemma SplitRecords(p: Table, x: Table, y: seq<Cell>, labels: seq<string>, tipos: seq<string>)
    requires RecordTable(p)
    requires |p.rows| <= |labels| && |p.rows| <= |tipos|
    requires forall i :: 0 <= i < |p.rows| ==>
      p.rows[i].cells[|MetaKeys|..] == [Some(Text(tipos[i])), Some(Text(labels[i]))]
    requires x.columns == MetaColumns() + DummyColumns(TipoProblema, Categories(p, |MetaKeys|))
    requires |x.rows| == |p.rows| && |y| == |p.rows|
    requires forall i :: 0 <= i < |p.rows| ==>
      x.rows[i].cells == p.rows[i].cells[..|MetaKeys|] + Flags(p.rows[i].cells[|MetaKeys|], Categories(p, |MetaKeys|))
    requires forall i :: 0 <= i < |p.rows| ==> y[i] == p.rows[i].cells[|MetaKeys| + 1]
    ensures var t := |MetaKeys|;
      var cats := Categories(p, t);
      && Names(x.columns) == MetaKeys + DummyNames(cats)
      && (forall c :: c in cats <==> exists i :: 0 <= i < |p.rows| && tipos[i] == c)
      && (forall i :: 0 <= i < |p.rows| ==>
        && x.rows[i].cells[..t] == p.rows[i].cells[..t]
        && x.rows[i].cells[t..] == Flags(Some(Text(tipos[i])), cats))
      && (forall i :: 0 <= i < |p.rows| ==> y[i] == Some(Text(labels[i])))
  {
    var cats := Categories(p, |MetaKeys|);
    RecordTail(p, labels, tipos);
    TypesOfRecords(p, tipos);
    FeatureNames(cats);
    FlagRows(x, p, tipos, cats);
  }

  /** The feature names: the fingerprint keys, then the dummies. */
  lemma FeatureNames(cats: seq<string>)
    ensures Names(MetaColumns() + DummyColumns(TipoProblema, cats)) == MetaKeys + DummyNames(cats)
  {
    var a := MetaColumns();
    var b := DummyColumns(TipoProblema, cats);
    var n := Names(a + b);
    assert |n| == |MetaKeys| + |cats|;
    forall k | 0 <= k < |n|
      ensures n[k] == (MetaKeys + DummyNames(cats))[k]
    {
      if k < |a| {
        assert (a + b)[k] == a[k];
        assert Names(a)[k] == a[k].name;
      } else {
        assert (a + b)[k] == b[k - |a|];
      }
    }
  }

  /** Each X row is its record's fingerprint followed by its type's flags. */
  lemma FlagRows(x: Table, p: Table, tipos: seq<string>, cats: seq<string>)
    requires |x.rows| == |p.rows| <= |tipos|
    requires forall i :: 0 <= i < |p.rows| ==>
      && |MetaKeys| < |p.rows[i].cells|
      && p.rows[i].cells[|MetaKeys|] == Some(Text(tipos[i]))
      && x.rows[i].cells == p.rows[i].cells[..|MetaKeys|] + Flags(p.rows[i].cells[|MetaKeys|], cats)
    ensures forall i :: 0 <= i < |p.rows| ==>
      && x.rows[i].cells[..|MetaKeys|] == p.rows[i].cells[..|MetaKeys|]
      && x.rows[i].cells[|MetaKeys|..] == Flags(Some(Text(tipos[i])), cats)
  {
  }

  /** The last two cells of each record: its type and its label. */
  lemma RecordTail(p: Table, labels: seq<string>, tipos: seq<string>)
    requires RecordTable(p)
    requires |p.rows| <= |labels| && |p.rows| <= |tipos|
    requires forall i :: 0 <= i < |p.rows| ==>
      p.rows[i].cells[|MetaKeys|..] == [Some(Text(tipos[i])), Some(Text(labels[i]))]
    ensures forall i :: 0 <= i < |p.rows| ==>
      && p.rows[i].cells[|MetaKeys|] == Some(Text(tipos[i]))
      && p.rows[i].cells[|MetaKeys| + 1] == Some(Text(labels[i]))
  {
    var t := |MetaKeys|;
    forall i | 0 <= i < |p.rows|
      ensures p.rows[i].cells[t] == Some(Text(tipos[i]))
      ensures p.rows[i].cells[t + 1] == Some(Text(labels[i]))
    {
      assert p.rows[i].cells[t..][0] == p.rows[i].cells[t];
      assert p.rows[i].cells[t..][1] == p.rows[i].cells[t + 1];
    }
  }

  /** The categories of the type column are the types of the records. */
  lemma TypesOfRecords(p: Table, tipos: seq<string>)
    requires RecordTable(p)
    requires |p.rows| <= |tipos|
    requires forall i :: 0 <= i < |p.rows| ==> p.rows[i].cells[|MetaKeys|] == Some(Text(tipos[i]))
    ensures forall y :: y in Categories(p, |MetaKeys|) <==> exists i :: 0 <= i < |p.rows| && tipos[i] == y
  {
    var t := |MetaKeys|;
    var n := |p.rows|;
    forall y
      ensures y in Categories(p, t) <==> exists i :: 0 <= i < n && tipos[i] == y
    {
      if y in Categories(p, t) {
        var i :| 0 <= i < n && p.rows[i].cells[t] == Some(Text(y));
      }
      if (exists i :: 0 <= i < n && tipos[i] == y) {
        var i :| 0 <= i < n && tipos[i] == y;
        assert p.rows[i].cells[t] == Some(Text(y));
      }
    }
  }

  /** Encoding and splitting a non-empty meta-dataset succeeds: X holds the
      fingerprint columns followed by one dummy per problem type (sorted),
      each row its dataset's fingerprint and its one-hot type flags, and y is
      the labels in record order. */
  lemma EncodeAndSplitSpec(datasets: seq<Table>, labels: seq<string>, tipos: seq<string>,
                           aggregate: Table -> Aggregates)
    requires forall i :: 0 <= i < |datasets| ==> Rectangular(datasets[i])
    requires Min3(|datasets|, |labels|, |tipos|) > 0
    ensures var p := PrepareMeta(datasets, labels, tipos, aggregate);
      var cats := Categories(p, |MetaKeys|);
      var r := EncodeAndSplit(p);
      && r.Success?
      && Names(r.value.0.columns) == MetaKeys + DummyNames(cats)
      && (forall y :: y in cats <==> exists i :: 0 <= i < |p.rows| && tipos[i] == y)
      && Sorted(cats)
      && |r.value.0.rows| == |p.rows|
      && (forall i :: 0 <= i < |p.rows| ==>
        && ReadMeta(r.value.0.rows[i].cells[..|MetaKeys|]) == Some(ExtractMeta(datasets[i], aggregate))
        && r.value.0.rows[i].cells[|MetaKeys|..] == Flags(Some(Text(tipos[i])), cats))
      && |r.value.1| == |p.rows|
      && (forall i :: 0 <= i < |p.rows| ==> r.value.1[i] == Some(Text(labels[i])))
  {
    var p := PrepareMeta(datasets, labels, tipos, aggregate);
    RecordSplit(p);
    var r := EncodeAndSplit(p).value;
    SplitRecords(p, r.0, r.1, labels, tipos);
  }

  // The training set built by `main`

  /** The tags of the simulated labels: each is "regresión" or
      "clasificación"; "regresión" always occurs (every odd dataset), and
      "clasificación" occurs exactly when some even dataset has at least 1000
      rows. */
  lemma SimulatedTags(draws: seq<Draw>, labels: seq<string>)
    requires |draws| == 100 && |labels| == 100
    requires forall i :: 0 <= i < 100 ==> labels[i] == Label(draws[i].nFilas, i)
    ensures forall i :: 0 <= i < 100 ==> Tags(labels)[i] == Regresion || Tags(labels)[i] == Clasificacion
    ensures Tags(labels)[1] == Regresion
    ensures (exists i :: 0 <= i < 100 && Tags(labels)[i] == Clasificacion) <==>
      exists i :: 0 <= i < 100 && i % 2 == 0 && draws[i].nFilas >= 1000
  {
    var tipos := Tags(labels);
    forall i | 0 <= i < 100
      ensures tipos[i] == if draws[i].nFilas >= 1000 && i % 2 == 0 then Clasificacion else Regresion
    {
      LabelTag(draws[i].nFilas, i);
    }
    assert Clasificacion != Regresion by {
      assert Clasificacion[0] != Regresion[0];
    }
  }

  /** A dummy column appears among the feature names exactly when its
      category does. */
  lemma DummyFeature(cats: seq<string>, c: string)
    ensures DummyName(TipoProblema, c) in MetaKeys + DummyNames(cats) <==> c in cats
  {
    DummyNotMetaKey(c);
    if c in cats {
      var k :| 0 <= k < |cats| && cats[k] == c;
      assert (MetaKeys + DummyNames(cats))[|MetaKeys| + k] == DummyName(TipoProblema, c);
    }
    if DummyName(TipoProblema, c) in MetaKeys + DummyNames(cats) {
      var k :| 0 <= k < |MetaKeys + DummyNames(cats)| && (MetaKeys + DummyNames(cats))[k] == DummyName(TipoProblema, c);
      assert k >= |MetaKeys|;
      DummyNameInjective(TipoProblema, c, cats[k - |MetaKeys|]);
    }
  }

  /** The feature names when the categories are among the two tags and
      "regresión" is one of them. */
  lemma TagFeatures(cats: seq<string>, clasificacionOccurs: bool)
    requires forall c :: c in cats ==> c == Regresion || c == Clasificacion
    requires Regresion in cats
    requires Clasificacion in cats <==> clasificacionOccurs
    ensures var names := MetaKeys + DummyNames(cats);
      && names[..|MetaKeys|] == MetaKeys
      && DummyName(TipoProblema, Regresion) in names
      && (DummyName(TipoProblema, Clasificacion) in names <==> clasificacionOccurs)
      && forall k :: |MetaKeys| <= k < |names| ==>
        names[k] == DummyName(TipoProblema, Regresion) || names[k] == DummyName(TipoProblema, Clasificacion)
  {
    var names := MetaKeys + DummyNames(cats);
    DummyFeature(cats, Regresion);
    DummyFeature(cats, Clasificacion);
    forall k | |MetaKeys| <= k < |names|
      ensures names[k] == DummyName(TipoProblema, Regresion) || names[k] == DummyName(TipoProblema, Clasificacion)
    {
      assert names[k] == DummyName(TipoProblema, cats[k - |MetaKeys|]);
      assert cats[k - |MetaKeys|] in cats;
    }
  }

  /** The categories of the simulated meta-dataset are the tags that occur. */
  lemma SimulatedCategories(draws: seq<Draw>, labels: seq<string>, cats: seq<string>)
    requires |draws| == 100 && |labels| == 100
    requires forall i :: 0 <= i < 100 ==> labels[i] == Label(draws[i].nFilas, i)
    requires forall c :: c in cats <==> exists i :: 0 <= i < 100 && Tags(labels)[i] == c
    ensures forall c :: c in cats ==> c == Regresion || c == Clasificacion
    ensures Regresion in cats
    ensures Clasificacion in cats <==> exists i :: 0 <= i < 100 && i % 2 == 0 && draws[i].nFilas >= 1000
  {
    SimulatedTags(draws, labels);
    assert Regresion in cats by {
      assert Tags(labels)[1] == Regresion;
    }
  }

  /** `main` up to the fit: simulate 100 datasets, tag their labels, build
      the meta-dataset, encode it and split it.  X has one row per dataset
      holding its fingerprint, its feature names are the fingerprint keys
      followed by the dummies of the tags that occur ("regresión" always,
      "clasificación" when some even dataset has 1000 rows or more), and y
      is the labels. */
  method TrainingSet(draws: seq<Draw>, aggregate: Table -> Aggregates) returns (x: Table, y: seq<Cell>)
    requires |draws| == 100
    requires forall i :: 0 <= i < 100 ==> ValidDraw(draws[i])
    ensures Rectangular(x) && |x.columns| >= |MetaKeys|
    ensures |x.rows| == 100 && |y| == 100
    ensures forall i :: 0 <= i < 100 ==>
      && ReadMeta(x.rows[i].cells[..|MetaKeys|]) == Some(ExtractMeta(SimulatedTable(draws[i]), aggregate))
      && y[i] == Some(Text(Label(draws[i].nFilas, i)))
    ensures Names(x.columns)[..|MetaKeys|] == MetaKeys
    ensures DummyName(TipoProblema, Regresion) in Names(x.columns)
    ensures DummyName(TipoProblema, Clasificacion) in Names(x.columns) <==>
      exists i :: 0 <= i < 100 && i % 2 == 0 && draws[i].nFilas >= 1000
    ensures forall k :: |MetaKeys| <= k < |x.columns| ==>
      Names(x.columns)[k] == DummyName(TipoProblema, Regresion) || Names(x.columns)[k] == DummyName(TipoProblema, Clasificacion)
  {
    var datasets, labels := Simulate(draws);
    SimulatedShapes(datasets);
    x, y := SplitSimulated(draws, datasets, labels, aggregate);
  }

  /** Lines 71-79 on the simulated datasets and labels. */
  method SplitSimulated(draws: seq<Draw>, datasets: seq<Table>, labels: seq<string>, aggregate: Table -> Aggregates)
    returns (x: Table, y: seq<Cell>)
    requires |draws| == 100 && |datasets| == 100 && |labels| == 100
    requires forall i :: 0 <= i < 100 ==> ValidDraw(draws[i])
    requires forall i :: 0 <= i < 100 ==>
      && datasets[i] == SimulatedTable(draws[i]) && Rectangular(datasets[i])
      && labels[i] == Label(Height(datasets[i]), i)
    ensures Rectangular(x) && |x.columns| >= |MetaKeys|
    ensures |x.rows| == 100 && |y| == 100
    ensures forall i :: 0 <= i < 100 ==>
      && ReadMeta(x.rows[i].cells[..|MetaKeys|]) == Some(ExtractMeta(SimulatedTable(draws[i]), aggregate))
      && y[i] == Some(Text(Label(draws[i].nFilas, i)))
    ensures Names(x.columns)[..|MetaKeys|] == MetaKeys
    ensures DummyName(TipoProblema, Regresion) in Names(x.columns)
    ensures DummyName(TipoProblema, Clasificacion) in Names(x.columns) <==>
      exists i :: 0 <= i < 100 && i % 2 == 0 && draws[i].nFilas >= 1000
    ensures forall k :: |MetaKeys| <= k < |x.columns| ==>
      Names(x.columns)[k] == DummyName(TipoProblema, Regresion) || Names(x.columns)[k] == DummyName(TipoProblema, Clasificacion)
  {
    var p := PrepareMeta(datasets, labels, Tags(labels), aggregate);
    var r := EncodeAndSplit(p);
    SimulatedSplitNames(datasets, labels, aggregate);
    SimulatedSplitRows(draws, datasets, labels, aggregate);
    x, y := r.value.0, r.value.1;
    SimulatedLabels(draws, datasets, labels);
    MainNames(draws, labels, Categories(p, |MetaKeys|), Names(x.columns));
  }

  /** Each simulated label follows the rule for its dataset's drawn row count. */
  lemma SimulatedLabels(draws: seq<Draw>, datasets: seq<Table>, labels: seq<string>)
    requires |draws| == 100 && |datasets| == 100 && |labels| == 100
    requires forall i :: 0 <= i < 100 ==> ValidDraw(draws[i])
    requires forall i :: 0 <= i < 100 ==>
      && datasets[i] == SimulatedTable(draws[i]) && Rectangular(datasets[i])
      && labels[i] == Label(Height(datasets[i]), i)
    ensures forall i :: 0 <= i < 100 ==> labels[i] == Label(draws[i].nFilas, i)
  {
  }

  /** The rows of the simulated training set and its labels. */
  lemma SimulatedSplitRows(draws: seq<Draw>, datasets: seq<Table>, labels: seq<string>, aggregate: Table -> Aggregates)
    requires |draws| == 100 && |datasets| == 100 && |labels| == 100
    requires forall i :: 0 <= i < 100 ==> ValidDraw(draws[i])
    requires forall i :: 0 <= i < 100 ==>
      && datasets[i] == SimulatedTable(draws[i]) && Rectangular(datasets[i])
      && labels[i] == Label(Height(datasets[i]), i)
    ensures var r := EncodeAndSplit(PrepareMeta(datasets, labels, Tags(labels), aggregate));
      && r.Success? && Rectangular(r.value.0) && |r.value.0.columns| >= |MetaKeys|
      && |r.value.0.rows| == 100 && |r.value.1| == 100
      && forall i :: 0 <= i < 100 ==>
        && ReadMeta(r.value.0.rows[i].cells[..|MetaKeys|]) == Some(ExtractMeta(SimulatedTable(draws[i]), aggregate))
        && r.value.1[i] == Some(Text(Label(draws[i].nFilas, i)))
  {
    var tipos := Tags(labels);
    assert Min3(|datasets|, |labels|, |tipos|) == 100;
    EncodeAndSplitSpec(datasets, labels, tipos, aggregate);
    var r := EncodeAndSplit(PrepareMeta(datasets, labels, tipos, aggregate));
    SimulatedRows(draws, datasets, labels, r.value.0, r.value.1, aggregate);
  }

  /** The feature names of the encoded simulated records: the fingerprint
      keys, then the dummies of the tags that occur. */
  lemma SimulatedSplitNames(datasets: seq<Table>, labels: seq<string>, aggregate: Table -> Aggregates)
    requires |datasets| == 100 && |labels| == 100
    requires forall i :: 0 <= i < 100 ==> Rectangular(datasets[i])
    ensures var p := PrepareMeta(datasets, labels, Tags(labels), aggregate);
      var cats := Categories(p, |MetaKeys|);
      && EncodeAndSplit(p).Success?
      && Names(EncodeAndSplit(p).value.0.columns) == MetaKeys + DummyNames(cats)
      && forall c :: c in cats <==> exists i :: 0 <= i < 100 && Tags(labels)[i] == c
  {
    var tipos := Tags(labels);
    assert Min3(|datasets|, |labels|, |tipos|) == 100;
    EncodeAndSplitSpec(datasets, labels, tipos, aggregate);
  }

  lemma SimulatedShapes(datasets: seq<Table>)
    requires forall i :: 0 <= i < |datasets| ==> WellFormed(datasets[i])
    ensures forall i :: 0 <= i < |datasets| ==> Rectangular(datasets[i])
  {
  }

  /** The feature names of the simulated training set. */
  lemma MainNames(draws: seq<Draw>, labels: seq<string>, cats: seq<string>, names: seq<string>)
    requires |draws| == 100 && |labels| == 100
    requires forall i :: 0 <= i < 100 ==> labels[i] == Label(draws[i].nFilas, i)
    requires forall c :: c in cats <==> exists i :: 0 <= i < 100 && Tags(labels)[i] == c
    requires names == MetaKeys + DummyNames(cats)
    ensures |names| >= |MetaKeys|
    ensures names[..|MetaKeys|] == MetaKeys
    ensures DummyName(TipoProblema, Regresion) in names
    ensures DummyName(TipoProblema, Clasificacion) in names <==>
      exists i :: 0 <= i < 100 && i % 2 == 0 && draws[i].nFilas >= 1000
    ensures forall k :: |MetaKeys| <= k < |names| ==>
      names[k] == DummyName(TipoProblema, Regresion) || names[k] == DummyName(TipoProblema, Clasificacion)
  {
    SimulatedCategories(draws, labels, cats);
    TagFeatures(cats, exists i :: 0 <= i < 100 && i % 2 == 0 && draws[i].nFilas >= 1000);
  }

  /** The rows of the simulated training set, restated over the draws. */
  lemma SimulatedRows(draws: seq<Draw>, datasets: seq<Table>, labels: seq<string>, x: Table, y: seq<Cell>,
                      aggregate: Table -> Aggregates)
    requires |draws| == 100 && |datasets| == 100 && |labels| == 100
    requires forall i :: 0 <= i < 100 ==> ValidDraw(draws[i])
    requires forall i :: 0 <= i < 100 ==>
      && datasets[i] == SimulatedTable(draws[i]) && Rectangular(datasets[i])
      && labels[i] == Label(Height(datasets[i]), i)
    requires |x.rows| == 100 && |y| == 100
    requires forall i :: 0 <= i < 100 ==>
      && |MetaKeys| <= |x.rows[i].cells|
      && ReadMeta(x.rows[i].cells[..|MetaKeys|]) == Some(ExtractMeta(datasets[i], aggregate))
      && y[i] == Some(Text(labels[i]))
    ensures forall i :: 0 <= i < 100 ==>
      && ReadMeta(x.rows[i].cells[..|MetaKeys|]) == Some(ExtractMeta(SimulatedTable(draws[i]), aggregate))
      && y[i] == Some(Text(Label(draws[i].nFilas, i)))
  {
  }
}
