/** The training dispatcher of the web application (utils/ml_engine.py): the
    model catalog and the metric set of a problem type, and the training loop
    that fits every selected model, scores its test predictions and collects
    one result per model.  Fitting, predicting, scoring and rounding are
    scikit-learn and Python numerics; they are parameters here. */
module MlEngine {
  import opened Wrappers
  import opened Tables
  import Training

  /** The tags the dispatcher accepts (without accents). */
  const ClassificationTag: string := "clasificacion"
  const RegressionTag: string := "regresion"

  /** The two exceptions the dispatcher can raise. */
  datatype EngineError = ValueError(message: string) | KeyError(key: string)

  // The model catalog

  datatype Estimator =
    | LogisticRegression
    | RandomForestClassifier
    | LinearRegression
    | RandomForestRegressor

  /** The scikit-learn class name, which is also the catalog key. */
  function EstimatorName(e: Estimator): string {
    match e
    case LogisticRegression => "LogisticRegression"
    case RandomForestClassifier => "RandomForestClassifier"
    case LinearRegression => "LinearRegression"
    case RandomForestRegressor => "RandomForestRegressor"
  }

  /** Reading a catalog key back as an estimator. */
  function EstimatorOfName(name: string): (r: Option<Estimator>)
    ensures r.Some? ==> EstimatorName(r.value) == name
  {
    if name == "LogisticRegression" then Some(LogisticRegression)
    else if name == "RandomForestClassifier" then Some(RandomForestClassifier)
    else if name == "LinearRegression" then Some(LinearRegression)
    else if name == "RandomForestRegressor" then Some(RandomForestRegressor)
    else None
  }

  /** Every estimator's name reads back as that estimator. */
  lemma EstimatorNameRoundTrip(e: Estimator)
    ensures EstimatorOfName(EstimatorName(e)) == Some(e)
  {
    match e
    case LogisticRegression =>
    case RandomForestClassifier =>
      assert "RandomForestClassifier" != "LogisticRegression";
    case LinearRegression =>
      assert "LinearRegression"[1] != "LogisticRegression"[1];
      assert "LinearRegression" != "RandomForestClassifier";
    case RandomForestRegressor =>
      assert "RandomForestRegressor" != "LogisticRegression";
      assert "RandomForestRegressor"[12] != "RandomForestClassifier"[12];
      assert "RandomForestRegressor" != "LinearRegression";
  }

  lemma EstimatorNameInjective(a: Estimator, b: Estimator)
    ensures EstimatorName(a) == EstimatorName(b) ==> a == b
  {
    EstimatorNameRoundTrip(a);
    EstimatorNameRoundTrip(b);
  }

  /** `obtener_modelos_disponibles`: the two classifiers for
      "clasificacion", the two regressors for "regresion", and a
      `ValueError` naming the tag for anything else.  Each model sits under
      its own class name. */
  function AvailableModels(tipo: string): (r: Result<map<string, Estimator>, EngineError>)
    ensures r.Success? <==> tipo == ClassificationTag || tipo == RegressionTag
    ensures r.Failure? ==> r.error == ValueError("Tipo de modelo no soportado: " + tipo)
    ensures r.Success? ==> forall name :: name in r.value ==> EstimatorName(r.value[name]) == name
  {
    if tipo == ClassificationTag then
      Success(map[EstimatorName(LogisticRegression) := LogisticRegression,
                  EstimatorName(RandomForestClassifier) := RandomForestClassifier])
    else if tipo == RegressionTag then
      Success(map[EstimatorName(LinearRegression) := LinearRegression,
                  EstimatorName(RandomForestRegressor) := RandomForestRegressor])
    else
      Failure(ValueError("Tipo de modelo no soportado: " + tipo))
  }

  /** The catalog of a supported tag, as a set of estimators. */
  lemma CatalogContents(tipo: string)
    requires tipo == ClassificationTag || tipo == RegressionTag
    ensures var models := AvailableModels(tipo).value;
      && |models| == 2
      && models.Keys == (if tipo == ClassificationTag then {"LogisticRegression", "RandomForestClassifier"}
                         else {"LinearRegression", "RandomForestRegressor"})
      && forall e :: e in models.Values <==>
        if tipo == ClassificationTag then e == LogisticRegression || e == RandomForestClassifier
        else e == LinearRegression || e == RandomForestRegressor
  {
    var models := AvailableModels(tipo).value;
    if tipo == ClassificationTag {
      EstimatorNameInjective(LogisticRegression, RandomForestClassifier);
      assert models.Keys == {EstimatorName(LogisticRegression), EstimatorName(RandomForestClassifier)};
    } else {
      EstimatorNameInjective(LinearRegression, RandomForestRegressor);
      assert models.Keys == {EstimatorName(LinearRegression), EstimatorName(RandomForestRegressor)};
    }
    forall e | e in models.Values
      ensures if tipo == ClassificationTag then e == LogisticRegression || e == RandomForestClassifier
        else e == LinearRegression || e == RandomForestRegressor
    {
      var name :| name in models && models[name] == e;
    }
  }

  // The metric sets

  datatype Metric = Accuracy | Precision | Recall | F1Score | Mse | Mae | R2

  /** The key each metric is reported under. */
  function MetricName(m: Metric): string {
    match m
    case Accuracy => "Accuracy"
    case Precision => "Precision"
    case Recall => "Recall"
    case F1Score => "F1-Score"
    case Mse => "MSE"
    case Mae => "MAE"
    case R2 => "R2"
  }

  lemma MetricNameInjective(a: Metric, b: Metric)
    ensures MetricName(a) == MetricName(b) ==> a == b
  {
    if MetricName(a) == MetricName(b) {
      var s := MetricName(a);
      assert s[0] == MetricName(b)[0];
      if |s| == 3 {
        assert s[1] == MetricName(b)[1];
      }
    }
  }

  /** `obtener_metricas`: accuracy, precision, recall and F1 for
      "clasificacion", MSE, MAE and R² for "regresion", and a `ValueError`
      naming the tag for anything else. */
  function Metrics(tipo: string): (r: Result<seq<Metric>, EngineError>)
    ensures r.Success? <==> tipo == ClassificationTag || tipo == RegressionTag
    ensures r.Failure? ==> r.error == ValueError("Tipo de métrica no soportado: " + tipo)
  {
    if tipo == ClassificationTag then Success([Accuracy, Precision, Recall, F1Score])
    else if tipo == RegressionTag then Success([Mse, Mae, R2])
    else Failure(ValueError("Tipo de métrica no soportado: " + tipo))
  }

  /** The metrics of a tag are those of its kind of problem, each once. */
  lemma MetricsOfTag(tipo: string)
    requires tipo == ClassificationTag || tipo == RegressionTag
    ensures var ms := Metrics(tipo).value;
      && (forall a, b :: 0 <= a < b < |ms| ==> MetricName(ms[a]) != MetricName(ms[b]))
      && forall m :: m in ms <==>
        if tipo == ClassificationTag then m in {Accuracy, Precision, Recall, F1Score}
        else m in {Mse, Mae, R2}
  {
    var ms := Metrics(tipo).value;
    forall a, b | 0 <= a < b < |ms|
      ensures MetricName(ms[a]) != MetricName(ms[b])
    {
      MetricNameInjective(ms[a], ms[b]);
    }
  }

  /** The catalog and the metric table accept the same tags, and both reject
      the accented tags the training script attaches to its labels. */
  lemma SameTags(tipo: string)
    ensures AvailableModels(tipo).Success? <==> Metrics(tipo).Success?
    ensures AvailableModels(Training.Clasificacion).Failure? && Metrics(Training.Clasificacion).Failure?
    ensures AvailableModels(Training.Regresion).Failure? && Metrics(Training.Regresion).Failure?
  {
    assert Training.Clasificacion[11] != ClassificationTag[11];
    assert |Training.Clasificacion| != |RegressionTag|;
    assert Training.Regresion[7] != RegressionTag[7];
    assert |Training.Regresion| != |ClassificationTag|;
  }

  // The training loop

  /** What the loop needs from scikit-learn: fitting an estimator, predicting
      with a fitted model, scoring predictions (the flag asks for weighted
      averaging), and `round(x, 4)`. */
  datatype Learner<!M> = Learner(
    fit: (Estimator, Table, seq<Cell>) -> M,
    predict: (M, Table) -> seq<Cell>,
    score: (Metric, seq<Cell>, seq<Cell>, bool) -> real,
    round4: real -> real)

  /** One entry of the result map: the rounded metrics, the test targets
      and the predictions, and the fitted model. */
  datatype ModelResult<M> = ModelResult(metrics: map<string, real>, actual: seq<Cell>,
                                        predicted: seq<Cell>, model: M)

  /** Whether a metric is computed with `average="weighted"`: the
      precision, recall and F1 of a classification. */
  predicate Weighted(tipo: string, m: Metric) {
    tipo == ClassificationTag && MetricName(m) in ["Precision", "Recall", "F1-Score"]
  }

  /** Only the three class-averaged metrics, and only in classification. */
  lemma WeightedMetrics(tipo: string, m: Metric)
    ensures Weighted(tipo, m) <==> tipo == ClassificationTag && (m == Precision || m == Recall || m == F1Score)
  {
    if Weighted(tipo, m) {
      var names := ["Precision", "Recall", "F1-Score"];
      var k :| 0 <= k < 3 && names[k] == MetricName(m);
      MetricNameInjective(m, [Precision, Recall, F1Score][k]);
    }
  }

  /** The names of a list of metrics. */
  function MetricNames(ms: seq<Metric>): set<string> {
    set k | 0 <= k < |ms| :: MetricName(ms[k])
  }

  /** The inner loop: every metric scored on the predictions, rounded, under
      its own name. */
  function MetricValues<M>(ms: seq<Metric>, tipo: string, yTest: seq<Cell>, pred: seq<Cell>,
                           learner: Learner<M>): map<string, real>
  {
    if |ms| == 0 then map[]
    else
      var m := ms[|ms| - 1];
      MetricValues(ms[..|ms| - 1], tipo, yTest, pred, learner)[MetricName(m) := learner.round4(learner.score(m, yTest, pred, Weighted(tipo, m)))]
  }

  /** The map is keyed by exactly the metrics' names. */
  lemma {:induction false} MetricValuesKeys<M>(ms: seq<Metric>, tipo: string, yTest: seq<Cell>, pred: seq<Cell>,
                                               learner: Learner<M>)
    ensures MetricValues(ms, tipo, yTest, pred, learner).Keys == MetricNames(ms)
  {
    if |ms| > 0 {
      MetricValuesKeys(ms[..|ms| - 1], tipo, yTest, pred, learner);
      MetricNamesLast(ms);
    }
  }

  /** With distinct metric names, each name holds its own metric's rounded
      score: no later metric overwrites an earlier one. */
  lemma {:induction false} MetricValuesAt<M>(ms: seq<Metric>, tipo: string, yTest: seq<Cell>, pred: seq<Cell>,
                                             learner: Learner<M>, k: nat)
    requires forall a, b :: 0 <= a < b < |ms| ==> MetricName(ms[a]) != MetricName(ms[b])
    requires k < |ms|
    ensures MetricName(ms[k]) in MetricValues(ms, tipo, yTest, pred, learner)
    ensures MetricValues(ms, tipo, yTest, pred, learner)[MetricName(ms[k])]
      == learner.round4(learner.score(ms[k], yTest, pred, Weighted(tipo, ms[k])))
  {
    var n := |ms| - 1;
    if k < n {
      MetricValuesAt(ms[..n], tipo, yTest, pred, learner, k);
      assert ms[..n][k] == ms[k];
      assert MetricName(ms[k]) != MetricName(ms[n]);
    }
  }

  /** Both together: the map a model reports for a list of distinctly named
      metrics. */
  lemma MetricValuesSpec<M>(ms: seq<Metric>, tipo: string, yTest: seq<Cell>, pred: seq<Cell>,
                            learner: Learner<M>)
    requires forall a, b :: 0 <= a < b < |ms| ==> MetricName(ms[a]) != MetricName(ms[b])
    ensures var info := MetricValues(ms, tipo, yTest, pred, learner);
      && info.Keys == MetricNames(ms)
      && forall k :: 0 <= k < |ms| ==>
        && MetricName(ms[k]) in info
        && info[MetricName(ms[k])] == learner.round4(learner.score(ms[k], yTest, pred, Weighted(tipo, ms[k])))
  {
    MetricValuesKeys(ms, tipo, yTest, pred, learner);
    forall k | 0 <= k < |ms|
      ensures MetricName(ms[k]) in MetricValues(ms, tipo, yTest, pred, learner)
      ensures MetricValues(ms, tipo, yTest, pred, learner)[MetricName(ms[k])]
        == learner.round4(learner.score(ms[k], yTest, pred, Weighted(tipo, ms[k])))
    {
      MetricValuesAt(ms, tipo, yTest, pred, learner, k);
    }
  }

  lemma MetricNamesLast(ms: seq<Metric>)
    requires |ms| > 0
    ensures MetricNames(ms) == MetricNames(ms[..|ms| - 1]) + {MetricName(ms[|ms| - 1])}
  {
    var n := |ms| - 1;
    forall x | x in MetricNames(ms)
      ensures x in MetricNames(ms[..n]) + {MetricName(ms[n])}
    {
      var k :| 0 <= k < |ms| && MetricName(ms[k]) == x;
      if k < n {
        assert ms[..n][k] == ms[k];
      }
    }
    forall x | x in MetricNames(ms[..n])
      ensures x in MetricNames(ms)
    {
      var k :| 0 <= k < n && MetricName(ms[..n][k]) == x;
      assert ms[..n][k] == ms[k];
    }
  }

  /** The arguments the loop passes unchanged to every model: the split,
      the tag, its metrics and the scikit-learn operations. */
  datatype Job<!M> = Job(xTrain: Table, xTest: Table, yTrain: seq<Cell>, yTest: seq<Cell>,
                         tipo: string, ms: seq<Metric>, learner: Learner<M>)

  /** The metrics of a job are reported under distinct names. */
  ghost predicate ValidJob<M>(job: Job<M>) {
    forall a, b :: 0 <= a < b < |job.ms| ==> MetricName(job.ms[a]) != MetricName(job.ms[b])
  }

  /** Lines 54-73 for one model: fit the estimator, predict the test split,
      score every metric. */
  function Evaluate<M>(e: Estimator, job: Job<M>): (res: ModelResult<M>)
    requires ValidJob(job)
  {
    var modelo := job.learner.fit(e, job.xTrain, job.yTrain);
    var pred := job.learner.predict(modelo, job.xTest);
    ModelResult(MetricValues(job.ms, job.tipo, job.yTest, pred, job.learner), job.yTest, pred, modelo)
  }

  /** An evaluation keeps the fitted model, its predictions on the test
      split and the test targets in order, and reports every metric of the
      job under its name, scored on those predictions and rounded. */
  lemma EvaluateSpec<M>(e: Estimator, job: Job<M>)
    requires ValidJob(job)
    ensures var res := Evaluate(e, job);
      && res.model == job.learner.fit(e, job.xTrain, job.yTrain)
      && res.predicted == job.learner.predict(res.model, job.xTest)
      && res.actual == job.yTest
      && res.metrics.Keys == MetricNames(job.ms)
      && forall k :: 0 <= k < |job.ms| ==>
        && MetricName(job.ms[k]) in res.metrics
        && res.metrics[MetricName(job.ms[k])]
          == job.learner.round4(job.learner.score(job.ms[k], job.yTest, res.predicted, Weighted(job.tipo, job.ms[k])))
  {
    var modelo := job.learner.fit(e, job.xTrain, job.yTrain);
    MetricValuesSpec(job.ms, job.tipo, job.yTest, job.learner.predict(modelo, job.xTest), job.learner);
  }

  /** The position of the first selected name missing from the catalog, or
      the length of the selection when none is missing. */
  function MissingIndex(selected: seq<string>, catalog: map<string, Estimator>): (k: nat)
    ensures k <= |selected|
    ensures forall j :: 0 <= j < k ==> selected[j] in catalog
    ensures k < |selected| ==> selected[k] !in catalog
  {
    if |selected| == 0 then 0
    else if selected[0] !in catalog then 0
    else 1 + MissingIndex(selected[1..], catalog)
  }

  /** Every entry of the map is the evaluation of its catalog model. */
  ghost predicate Evaluated<M>(results: map<string, ModelResult<M>>, catalog: map<string, Estimator>, job: Job<M>)
    requires ValidJob(job)
  {
    forall name :: name in results ==> name in catalog && results[name] == Evaluate(catalog[name], job)
  }

  /** `entrenar_modelos`.  The metric lookup comes first, so an unsupported
      tag fails before any model is fit; then every selected name is looked up
      in the catalog in order, and the first missing one is a `KeyError`.
      On success the result holds exactly the selected names, each with the
      evaluation of its catalog model. */
  method TrainModels<M>(selected: seq<string>, catalog: map<string, Estimator>,
                        xTrain: Table, xTest: Table, yTrain: seq<Cell>, yTest: seq<Cell>,
                        tipo: string, learner: Learner<M>)
    returns (r: Result<map<string, ModelResult<M>>, EngineError>)
    ensures Metrics(tipo).Failure? ==> r == Failure(Metrics(tipo).error)
    ensures Metrics(tipo).Success? ==>
      var missing := MissingIndex(selected, catalog);
      && (r.Success? <==> missing == |selected|)
      && (r.Failure? ==> r.error == KeyError(selected[missing]))
    ensures r.Success? ==> r.value.Keys == NameSet(selected)
    ensures r.Success? ==> var job := Job(xTrain, xTest, yTrain, yTest, tipo, Metrics(tipo).value, learner);
      ValidJob(job) && Evaluated(r.value, catalog, job)
  {
    var metricas := Metrics(tipo);
    if metricas.Failure? {
      return Failure(metricas.error);
    }
    MetricsOfTag(tipo);
    var job := Job(xTrain, xTest, yTrain, yTest, tipo, metricas.value, learner);
    var resultados: map<string, ModelResult<M>> := map[];
    var i := 0;
    while i < |selected|
      invariant 0 <= i <= MissingIndex(selected, catalog)
      invariant resultados.Keys == NameSet(selected[..i])
      invariant Evaluated(resultados, catalog, job)
    {
      var nombre := selected[i];
      if nombre !in catalog {
        return Failure(KeyError(nombre));
      }
      var res := Evaluate(catalog[nombre], job);
      NamesStep(selected, i);
      PastMissing(selected, catalog, i);
      EvaluatedStep(resultados, catalog, job, nombre);
      resultados := resultados[nombre := res];
      i := i + 1;
    }
    assert selected[..i] == selected;
    return Success(resultados);
  }

  lemma EvaluatedStep<M>(results: map<string, ModelResult<M>>, catalog: map<string, Estimator>, job: Job<M>,
                         name: string)
    requires ValidJob(job) && Evaluated(results, catalog, job)
    requires name in catalog
    ensures Evaluated(results[name := Evaluate(catalog[name], job)], catalog, job)
  {
  }

  lemma PastMissing(selected: seq<string>, catalog: map<string, Estimator>, i: nat)
    requires i < |selected| && i <= MissingIndex(selected, catalog)
    requires selected[i] in catalog
    ensures i + 1 <= MissingIndex(selected, catalog)
  {
  }

  /** The names occurring in a selection. */
  function NameSet(s: seq<string>): set<string> {
    set name | name in s
  }

  lemma NamesStep(selected: seq<string>, i: nat)
    requires i < |selected|
    ensures NameSet(selected[..i + 1]) == NameSet(selected[..i]) + {selected[i]}
  {
    assert selected[..i + 1] == selected[..i] + [selected[i]];
  }

  lemma ClassificationNames()
    ensures MetricNames(Metrics(ClassificationTag).value) == {"Accuracy", "Precision", "Recall", "F1-Score"}
  {
    var ms := Metrics(ClassificationTag).value;
    assert ms == [Accuracy, Precision, Recall, F1Score];
    assert MetricName(ms[0]) == "Accuracy" && MetricName(ms[1]) == "Precision";
    assert MetricName(ms[2]) == "Recall" && MetricName(ms[3]) == "F1-Score";
  }

  lemma RegressionNames()
    ensures MetricNames(Metrics(RegressionTag).value) == {"MSE", "MAE", "R2"}
  {
    var ms := Metrics(RegressionTag).value;
    assert ms == [Mse, Mae, R2];
    assert MetricName(ms[0]) == "MSE" && MetricName(ms[1]) == "MAE" && MetricName(ms[2]) == "R2";
  }

  /** A classification result reports accuracy, precision, recall and F1,
      the last three with weighted averaging and accuracy without. */
  lemma ClassificationResult<M>(res: ModelResult<M>, e: Estimator, xTrain: Table, xTest: Table,
                                yTrain: seq<Cell>, yTest: seq<Cell>, learner: Learner<M>)
    requires res == Evaluate(e, Job(xTrain, xTest, yTrain, yTest, ClassificationTag, Metrics(ClassificationTag).value, learner))
    ensures res.metrics.Keys == {"Accuracy", "Precision", "Recall", "F1-Score"}
    ensures res.metrics["Accuracy"] == learner.round4(learner.score(Accuracy, yTest, res.predicted, false))
    ensures res.metrics["Precision"] == learner.round4(learner.score(Precision, yTest, res.predicted, true))
    ensures res.metrics["Recall"] == learner.round4(learner.score(Recall, yTest, res.predicted, true))
    ensures res.metrics["F1-Score"] == learner.round4(learner.score(F1Score, yTest, res.predicted, true))
  {
    var ms := Metrics(ClassificationTag).value;
    assert ms == [Accuracy, Precision, Recall, F1Score];
    MetricsOfTag(ClassificationTag);
    EvaluateSpec(e, Job(xTrain, xTest, yTrain, yTest, ClassificationTag, ms, learner));
    ClassificationNames();
    assert ms[0] == Accuracy && ms[1] == Precision && ms[2] == Recall && ms[3] == F1Score;
    WeightedMetrics(ClassificationTag, Accuracy);
    WeightedMetrics(ClassificationTag, Precision);
    WeightedMetrics(ClassificationTag, Recall);
    WeightedMetrics(ClassificationTag, F1Score);
  }

  /** A regression result reports MSE, MAE and R², none of them weighted. */
  lemma RegressionResult<M>(res: ModelResult<M>, e: Estimator, xTrain: Table, xTest: Table,
                            yTrain: seq<Cell>, yTest: seq<Cell>, learner: Learner<M>)
    requires res == Evaluate(e, Job(xTrain, xTest, yTrain, yTest, RegressionTag, Metrics(RegressionTag).value, learner))
    ensures res.metrics.Keys == {"MSE", "MAE", "R2"}
    ensures res.metrics["MSE"] == learner.round4(learner.score(Mse, yTest, res.predicted, false))
    ensures res.metrics["MAE"] == learner.round4(learner.score(Mae, yTest, res.predicted, false))
    ensures res.metrics["R2"] == learner.round4(learner.score(R2, yTest, res.predicted, false))
  {
    var ms := Metrics(RegressionTag).value;
    assert ms == [Mse, Mae, R2];
    MetricsOfTag(RegressionTag);
    EvaluateSpec(e, Job(xTrain, xTest, yTrain, yTest, RegressionTag, ms, learner));
    RegressionNames();
    assert ms[0] == Mse && ms[1] == Mae && ms[2] == R2;
    WeightedMetrics(RegressionTag, Mse);
    WeightedMetrics(RegressionTag, Mae);
    WeightedMetrics(RegressionTag, R2);
  }
}
