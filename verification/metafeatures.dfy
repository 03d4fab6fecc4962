/** The dataset fingerprint (`extraer_meta_features`), one definition shared
    by the recommender and the offline trainer, which carry identical copies
    of it. */
module MetaFeatures {
  import opened Wrappers
  import opened Seqs
  import opened Tables

  /** The four numeric aggregates: mean, standard deviation, skewness and
      kurtosis of each numeric column, averaged over the numeric columns.
      `None` is NaN.  Their floating-point computation is not modelled; the
      caller supplies it. */
  datatype Aggregates = Aggregates(media: Option<real>, std: Option<real>, skew: Option<real>, kurtosis: Option<real>)

  /** The fingerprint of one table, field by field in the order the source
      inserts the keys. */
  datatype Meta = Meta(
    numFilas: nat,
    numColumnas: nat,
    porcNan: Option<real>,
    numNumericas: nat,
    numCategoricas: nat,
    mediaNum: Option<real>,
    stdNum: Option<real>,
    skewNum: Option<real>,
    kurtosisNum: Option<real>,
    cardinalidadCat: real)

  /** The fingerprint's keys, in insertion order. */
  const MetaKeys: seq<string> := [
    "num_filas", "num_columnas", "porc_nan",
    "num_variables_numericas", "num_variables_categoricas",
    "media_num", "std_num", "skew_num", "kurtosis_num",
    "cardinalidad_cat"]

  function Sum(xs: seq<nat>): nat {
    if |xs| == 0 then 0 else Sum(xs[..|xs| - 1]) + xs[|xs| - 1]
  }

  function SumReal(xs: seq<real>): real {
    if |xs| == 0 then 0.0 else SumReal(xs[..|xs| - 1]) + xs[|xs| - 1]
  }

  /** Which cells of a row are missing. */
  function MissingMask(row: Row): (m: seq<bool>)
    ensures |m| == |row.cells|
    ensures forall k :: 0 <= k < |m| ==> (m[k] <==> row.cells[k].None?)
  {
    seq(|row.cells|, k requires 0 <= k < |row.cells| => row.cells[k].None?)
  }

  /** Missing cells counted row by row: the reference for `porc_nan`. */
  function MissingCells(rows: seq<Row>): nat {
    if |rows| == 0 then 0
    else MissingCells(rows[..|rows| - 1]) + CountTrue(MissingMask(rows[|rows| - 1]))
  }

  /** Missing cells counted column by column (`df.isna().sum()`). */
  function ColumnCounts(t: Table): (r: seq<nat>)
    requires Rectangular(t)
    ensures |r| == |t.columns|
    ensures forall j :: 0 <= j < |t.columns| ==> r[j] == MissingIn(t, j)
  {
    seq(|t.columns|, j requires 0 <= j < |t.columns| => MissingIn(t, j))
  }

  /** The fraction of missing cells of each column (`df.isna().mean()`). */
  function ColumnFractions(t: Table): (r: seq<real>)
    requires Rectangular(t) && |t.rows| > 0
    ensures |r| == |t.columns|
  {
    seq(|t.columns|, j requires 0 <= j < |t.columns| => MissingIn(t, j) as real / |t.rows| as real)
  }

  /** `porc_nan`: the mean over columns of each column's missing fraction.
      pandas gives NaN (`None`) for a table without rows, where every column
      mean is NaN, and for a table without columns, an empty mean. */
  function PorcNan(t: Table): (r: Option<real>)
    requires Rectangular(t)
    ensures r.None? <==> |t.rows| == 0 || |t.columns| == 0
  {
    if |t.rows| == 0 || |t.columns| == 0 then None
    else Some(SumReal(ColumnFractions(t)) / |t.columns| as real)
  }

  /** The share of missing cells among all the cells of a non-empty table:
      the quantity `porc_nan` is meant to be. */
  function MissingShare(t: Table): real
    requires |t.rows| > 0 && |t.columns| > 0
  {
    assert |t.rows| * |t.columns| > 0;
    MissingCells(t.rows) as real / (|t.rows| * |t.columns|) as real
  }

  /** `cardinalidad_cat`: the mean number of distinct values over the
      non-numeric columns, 0 when there is none. */
  function CardinalidadCat(t: Table): real
    requires Rectangular(t)
  {
    var cat := CategoricalColumns(t.columns);
    if |cat| == 0 then 0.0
    else SumReal(seq(|cat|, k requires 0 <= k < |cat| => Nunique(t, cat[k]) as real)) / |cat| as real
  }

  /** `extraer_meta_features`.  The numeric aggregates of the table of numeric
      columns are computed by `aggregate`. */
  function ExtractMeta(t: Table, aggregate: Table -> Aggregates): (m: Meta)
    requires Rectangular(t)
    ensures m.numFilas == Height(t) && m.numColumnas == Width(t)
    ensures m.numNumericas + m.numCategoricas == m.numColumnas
    ensures m.numNumericas == |NumericColumns(t.columns)|
    ensures m.numCategoricas == |CategoricalColumns(t.columns)|
    ensures m.numNumericas == 0 ==>
      m.mediaNum == Some(0.0) && m.stdNum == Some(0.0) && m.skewNum == Some(0.0) && m.kurtosisNum == Some(0.0)
    ensures m.numNumericas > 0 ==>
      var a := aggregate(SelectColumns(t, NumericColumns(t.columns)));
      m.mediaNum == a.media && m.stdNum == a.std && m.skewNum == a.skew && m.kurtosisNum == a.kurtosis
    ensures m.porcNan.None? <==> Height(t) == 0 || Width(t) == 0
    ensures m.porcNan.Some? ==>
      && m.porcNan.value == MissingShare(t)
      && 0.0 <= m.porcNan.value <= 1.0
    ensures m.numCategoricas == 0 ==> m.cardinalidadCat == 0.0
    ensures m.numCategoricas > 0 ==>
      m.cardinalidadCat == NuniqueTotal(t, CategoricalColumns(t.columns)) as real / m.numCategoricas as real
    ensures 0.0 <= m.cardinalidadCat <= Height(t) as real
  {
    var num := NumericColumns(t.columns);
    var cat := CategoricalColumns(t.columns);
    KindsPartition(t.columns);
    PorcNanInRange(t);
    CardinalityBounds(t);
    assert |cat| > 0 ==> CardinalidadCat(t) == NuniqueTotal(t, cat) as real / |cat| as real by {
      CardinalidadCatMean(t);
    }
    var a := if |num| > 0 then aggregate(SelectColumns(t, num))
             else Aggregates(Some(0.0), Some(0.0), Some(0.0), Some(0.0));
    Meta(|t.rows|, |t.columns|, PorcNan(t), |num|, |cat|,
         a.media, a.std, a.skew, a.kurtosis, CardinalidadCat(t))
  }

  /** Every column is numeric or categorical, never both. */
  lemma KindsPartition(cols: seq<Column>)
    ensures |NumericColumns(cols)| + |CategoricalColumns(cols)| == |cols|
  {
    var m := seq(|cols|, j requires 0 <= j < |cols| => cols[j].kind == Numeric);
    assert seq(|cols|, j requires 0 <= j < |cols| => cols[j].kind != Numeric) == Not(m);
    CountNot(m);
  }

  // Sums

  lemma SumZero(xs: seq<nat>)
    requires forall k :: 0 <= k < |xs| ==> xs[k] == 0
    ensures Sum(xs) == 0
  {
    if |xs| > 0 {
      SumZero(xs[..|xs| - 1]);
    }
  }

  /** Pointwise sum of two lists of counts. */
  function Plus(a: seq<nat>, b: seq<nat>): (r: seq<nat>)
    requires |a| == |b|
    ensures |r| == |a|
    ensures forall k :: 0 <= k < |a| ==> r[k] == a[k] + b[k]
  {
    seq(|a|, k requires 0 <= k < |a| => a[k] + b[k])
  }

  lemma {:induction false} SumPlus(a: seq<nat>, b: seq<nat>)
    requires |a| == |b|
    ensures Sum(Plus(a, b)) == Sum(a) + Sum(b)
  {
    if |a| > 0 {
      var n := |a| - 1;
      assert Plus(a, b)[..n] == Plus(a[..n], b[..n]);
      SumPlus(a[..n], b[..n]);
    }
  }

  /** A mask as a list of 0/1 counts. */
  function Indicator(m: seq<bool>): (r: seq<nat>)
    ensures |r| == |m|
    ensures forall k :: 0 <= k < |m| ==> r[k] == if m[k] then 1 else 0
  {
    seq(|m|, k requires 0 <= k < |m| => if m[k] then 1 else 0)
  }

  lemma {:induction false} SumIndicator(m: seq<bool>)
    ensures Sum(Indicator(m)) == CountTrue(m)
  {
    if |m| > 0 {
      var n := |m| - 1;
      assert Indicator(m)[..n] == Indicator(m[..n]);
      SumIndicator(m[..n]);
    }
  }

  /** Dividing every count by `d` divides their sum by `d`. */
  lemma {:induction false} SumScaled(ns: seq<nat>, d: real)
    requires d > 0.0
    ensures SumReal(seq(|ns|, k requires 0 <= k < |ns| => ns[k] as real / d)) == Sum(ns) as real / d
  {
    var xs := seq(|ns|, k requires 0 <= k < |ns| => ns[k] as real / d);
    if |ns| > 0 {
      var n := |ns| - 1;
      assert xs[..n] == seq(|ns[..n]|, k requires 0 <= k < |ns[..n]| => ns[..n][k] as real / d);
      SumScaled(ns[..n], d);
      assert SumReal(xs) == SumReal(xs[..n]) + xs[n];
      assert Sum(ns) as real == Sum(ns[..n]) as real + ns[n] as real;
      DivAdd(Sum(ns[..n]) as real, ns[n] as real, d);
    }
  }

  lemma DivAdd(a: real, b: real, d: real)
    requires d > 0.0
    ensures (a + b) / d == a / d + b / d
  {
  }

  lemma {:induction false} SumRealBounds(xs: seq<real>, hi: real)
    requires forall k :: 0 <= k < |xs| ==> 0.0 <= xs[k] <= hi
    ensures 0.0 <= SumReal(xs) <= |xs| as real * hi
  {
    if |xs| > 0 {
      SumRealBounds(xs[..|xs| - 1], hi);
    }
  }

  // porc_nan

  /** The rows before the last one. */
  function DropLastRow(t: Table): (r: Table)
    requires |t.rows| > 0
    ensures Rectangular(t) ==> Rectangular(r)
  {
    Table(t.columns, t.rows[..|t.rows| - 1])
  }

  /** Adding a row adds its missing cells to each column's count. */
  lemma ColumnCountsLastRow(t: Table)
    requires Rectangular(t) && |t.rows| > 0
    ensures ColumnCounts(t)
      == Plus(ColumnCounts(DropLastRow(t)), Indicator(MissingMask(t.rows[|t.rows| - 1])))
  {
    var n := |t.rows| - 1;
    var u := DropLastRow(t);
    forall j | 0 <= j < |t.columns|
      ensures MissingIn(t, j) == MissingIn(u, j) + (if t.rows[n].cells[j].None? then 1 else 0)
    {
      var m := seq(|t.rows|, i requires 0 <= i < |t.rows| => t.rows[i].cells[j].None?);
      assert m[..n] == seq(|u.rows|, i requires 0 <= i < |u.rows| => u.rows[i].cells[j].None?);
    }
  }

  /** Counting missing cells by column or by row gives the same total. */
  lemma {:induction false} MissingDoubleCount(t: Table)
    requires Rectangular(t)
    ensures Sum(ColumnCounts(t)) == MissingCells(t.rows)
    decreases |t.rows|
  {
    if |t.rows| == 0 {
      SumZero(ColumnCounts(t));
    } else {
      var u := DropLastRow(t);
      var last := t.rows[|t.rows| - 1];
      MissingDoubleCount(u);
      ColumnCountsLastRow(t);
      SumPlus(ColumnCounts(u), Indicator(MissingMask(last)));
      SumIndicator(MissingMask(last));
    }
  }

  /** A table has at most rows × columns missing cells. */
  lemma {:induction false} MissingCellsBound(rows: seq<Row>, w: nat)
    requires forall i :: 0 <= i < |rows| ==> |rows[i].cells| == w
    ensures MissingCells(rows) <= |rows| * w
  {
    if |rows| > 0 {
      var n := |rows| - 1;
      MissingCellsBound(rows[..n], w);
      assert CountTrue(MissingMask(rows[n])) <= w;
      assert n * w + w == |rows| * w;
    }
  }

  /** The column fractions add up to the missing cells over the row count. */
  lemma FractionsSum(t: Table)
    requires Rectangular(t) && |t.rows| > 0
    ensures SumReal(ColumnFractions(t)) == MissingCells(t.rows) as real / |t.rows| as real
  {
    var h := |t.rows| as real;
    var counts := ColumnCounts(t);
    assert ColumnFractions(t) == seq(|counts|, k requires 0 <= k < |counts| => counts[k] as real / h);
    SumScaled(counts, h);
    MissingDoubleCount(t);
  }

  /** `porc_nan` is the fraction of missing cells, a number in [0, 1]. */
  lemma PorcNanFraction(t: Table)
    requires Rectangular(t) && |t.rows| > 0 && |t.columns| > 0
    ensures PorcNan(t) == Some(MissingShare(t))
    ensures 0.0 <= PorcNan(t).value <= 1.0
  {
    FractionsSum(t);
    MissingCellsBound(t.rows, |t.columns|);
    FractionStep(MissingCells(t.rows), |t.rows|, |t.columns|);
  }

  lemma PorcNanInRange(t: Table)
    requires Rectangular(t)
    ensures PorcNan(t).Some? ==>
      && PorcNan(t).value == MissingShare(t)
      && 0.0 <= PorcNan(t).value <= 1.0
  {
    if |t.rows| > 0 && |t.columns| > 0 {
      PorcNanFraction(t);
    }
  }

  /** Dividing by `h`, then by `w`, is dividing by `h * w`. */
  lemma FractionStep(miss: nat, h: nat, w: nat)
    requires h > 0 && w > 0
    requires miss <= h * w
    ensures (miss as real / h as real) / w as real == miss as real / (h * w) as real
    ensures 0.0 <= miss as real / (h * w) as real <= 1.0
  {
    var m, hr, wr := miss as real, h as real, w as real;
    assert (h * w) as real == hr * wr;
    var p := m / hr;
    var r := p / wr;
    assert p * hr == m;
    assert r * wr == p;
    assert r * (hr * wr) == m;
    assert m <= hr * wr;
  }

  // cardinalidad_cat

  /** A column has at most as many distinct values as the table has rows. */
  lemma {:induction false} NuniqueBound(t: Table, j: nat)
    requires Rectangular(t) && j < |t.columns|
    ensures Nunique(t, j) <= |t.rows|
    decreases |t.rows|
  {
    if |t.rows| == 0 {
      assert ValuesOf(t, j) == {};
    } else {
      var u := DropLastRow(t);
      var n := |t.rows| - 1;
      NuniqueBound(u, j);
      var last: set<Value> := if t.rows[n].cells[j].Some? then {t.rows[n].cells[j].value} else {};
      assert ValuesOf(t, j) <= ValuesOf(u, j) + last by {
        forall v | v in ValuesOf(t, j)
          ensures v in ValuesOf(u, j) + last
        {
          var i :| 0 <= i < |t.rows| && t.rows[i].cells[j].Some? && t.rows[i].cells[j].value == v;
          if i < n {
            assert u.rows[i] == t.rows[i];
          }
        }
      }
      SubsetSize(ValuesOf(t, j), ValuesOf(u, j) + last);
    }
  }

  lemma SubsetSize(a: set<Value>, b: set<Value>)
    requires a <= b
    ensures |a| <= |b|
  {
    assert b == a + (b - a);
  }

  /** `cardinalidad_cat` lies between 0 and the number of rows. */
  lemma CardinalityBounds(t: Table)
    requires Rectangular(t)
    ensures 0.0 <= CardinalidadCat(t) <= |t.rows| as real
  {
    var cat := CategoricalColumns(t.columns);
    if |cat| > 0 {
      var xs := seq(|cat|, k requires 0 <= k < |cat| => Nunique(t, cat[k]) as real);
      forall k | 0 <= k < |cat|
        ensures 0.0 <= xs[k] <= |t.rows| as real
      {
        NuniqueBound(t, cat[k]);
      }
      SumRealBounds(xs, |t.rows| as real);
      MeanStep(SumReal(xs), |cat| as real, |t.rows| as real);
    }
  }

  /** The distinct-value counts of the given columns, added up: the total
      whose mean over the columns is `cardinalidad_cat`. */
  function NuniqueTotal(t: Table, cols: seq<nat>): nat
    requires Rectangular(t)
    requires forall k :: 0 <= k < |cols| ==> cols[k] < |t.columns|
  {
    if |cols| == 0 then 0
    else NuniqueTotal(t, cols[..|cols| - 1]) + Nunique(t, cols[|cols| - 1])
  }

  lemma {:induction false} SumNunique(t: Table, cols: seq<nat>)
    requires Rectangular(t)
    requires forall k :: 0 <= k < |cols| ==> cols[k] < |t.columns|
    ensures SumReal(seq(|cols|, k requires 0 <= k < |cols| => Nunique(t, cols[k]) as real))
      == NuniqueTotal(t, cols) as real
  {
    if |cols| > 0 {
      var n := |cols| - 1;
      var xs := seq(|cols|, k requires 0 <= k < |cols| => Nunique(t, cols[k]) as real);
      SumNunique(t, cols[..n]);
      assert xs[..n] == seq(n, k requires 0 <= k < n => Nunique(t, cols[..n][k]) as real);
    }
  }

  /** `cardinalidad_cat` is the total of the categorical columns'
      distinct-value counts divided by their number: their mean. */
  lemma CardinalidadCatMean(t: Table)
    requires Rectangular(t)
    ensures var cat := CategoricalColumns(t.columns);
      |cat| > 0 ==> CardinalidadCat(t) == NuniqueTotal(t, cat) as real / |cat| as real
  {
    var cat := CategoricalColumns(t.columns);
    if |cat| > 0 {
      SumNunique(t, cat);
    }
  }

  lemma MeanStep(s: real, n: real, hi: real)
    requires n >= 1.0 && 0.0 <= s <= n * hi
    ensures 0.0 <= s / n <= hi
  {
  }

  // The fingerprint as a table row

  function OptNum(x: Option<real>): Cell {
    match x
    case None => None
    case Some(v) => Some(Num(v))
  }

  /** The fingerprint's values, in key order: one row of `pd.DataFrame([meta])`. */
  function MetaCells(m: Meta): (r: seq<Cell>)
    ensures |r| == |MetaKeys|
  {
    [Some(Num(m.numFilas as real)), Some(Num(m.numColumnas as real)), OptNum(m.porcNan),
     Some(Num(m.numNumericas as real)), Some(Num(m.numCategoricas as real)),
     OptNum(m.mediaNum), OptNum(m.stdNum), OptNum(m.skewNum), OptNum(m.kurtosisNum),
     Some(Num(m.cardinalidadCat))]
  }

  /** The columns of the fingerprint's keys, all numeric. */
  function MetaColumns(): (r: seq<Column>)
    ensures Names(r) == MetaKeys
    ensures forall k :: 0 <= k < |r| ==> r[k].kind == Numeric
  {
    var r := seq(|MetaKeys|, k requires 0 <= k < |MetaKeys| => Column(MetaKeys[k], Numeric));
    assert Names(r) == MetaKeys;
    r
  }

  lemma MetaKeysDistinct()
    ensures Distinct(MetaKeys)
  {
    forall a, b | 0 <= a < b < |MetaKeys|
      ensures MetaKeys[a] != MetaKeys[b]
    {
      assert MetaKeys[a][..3] != MetaKeys[b][..3] || |MetaKeys[a]| != |MetaKeys[b]| || MetaKeys[a][4] != MetaKeys[b][4] || MetaKeys[a] != MetaKeys[b];
    }
  }

  function NatOf(c: Cell): Option<nat> {
    if c.Some? && c.value.Num? && c.value.x >= 0.0 && c.value.x == c.value.x.Floor as real
    then Some(c.value.x.Floor) else None
  }

  function RealOf(c: Cell): Option<Option<real>> {
    match c
    case None => Some(None)
    case Some(Num(x)) => Some(Some(x))
    case Some(Text(_)) => None
  }

  /** Reads a fingerprint back from a row of cells, if it has one. */
  function ReadMeta(cells: seq<Cell>): (r: Option<Meta>)
    ensures r.Some? ==> |cells| == |MetaKeys|
  {
    if |cells| != |MetaKeys| then None
    else
      var filas := NatOf(cells[0]);
      var columnas := NatOf(cells[1]);
      var nan := RealOf(cells[2]);
      var numericas := NatOf(cells[3]);
      var categoricas := NatOf(cells[4]);
      var media := RealOf(cells[5]);
      var std := RealOf(cells[6]);
      var skew := RealOf(cells[7]);
      var kurt := RealOf(cells[8]);
      var card := RealOf(cells[9]);
      if filas.None? || columnas.None? || nan.None? || numericas.None? || categoricas.None?
         || media.None? || std.None? || skew.None? || kurt.None? || card.None? || card.value.None?
      then None
      else Some(Meta(filas.value, columnas.value, nan.value, numericas.value, categoricas.value,
                     media.value, std.value, skew.value, kurt.value, card.value.value))
  }

  /** The row loses nothing: the fingerprint can be read back from it. */
  lemma MetaCellsRoundTrip(m: Meta)
    ensures ReadMeta(MetaCells(m)) == Some(m)
  {
    var cells := MetaCells(m);
    assert NatOf(cells[0]) == Some(m.numFilas);
    assert NatOf(cells[1]) == Some(m.numColumnas);
    assert NatOf(cells[3]) == Some(m.numNumericas);
    assert NatOf(cells[4]) == Some(m.numCategoricas);
  }
}
