/**
 * `TemporalPreprocessor`: a median imputer over a fixed list of feature columns.
 *
 * `Fit` fixes the column list (the one given at construction, or else the input's
 * own columns) and stores, per column, the median of its non-missing values, or
 * no value (NaN) for a column without any. `Transform` builds a new table with
 * exactly those columns, each missing cell replaced by its column's median.
 */
module Preprocessing {
  import opened Wrappers
  import opened Tables
  import opened Statistics

  /** Why fitting or transforming raises. */
  datatype PrepError =
    | MissingColumns  // `X[self.feature_cols]` names a column `X` lacks
    | NotFitted       // the imputer is used before any successful fit
    | NonNumeric      // a selected cell is text, which a median cannot use
    | EmptyInput      // no rows, or no columns, to fit on or transform
    | ShapeMismatch   // a column was fitted without any value, so the imputer drops it and the
                      // output no longer has one column per configured name
    | NoStatistics    // a fit recorded the column names and then raised, so the imputer passes
                      // its fitted-check but finds no fitted dtype (an `AttributeError`)

  /** The numbers of a column, in order, missing cells skipped. */
  function Observed(col: seq<Cell>): (r: seq<real>)
    ensures |r| <= |col|
    ensures forall i | 0 <= i < |r| :: Num(r[i]) in col
    ensures forall k | 0 <= k < |col| && col[k].Num? :: col[k].value in r
    ensures forall v :: multiset(r)[v] == multiset(col)[Num(v)]
  {
    if col == [] then []
    else
      assert col == [col[0]] + col[1..];
      var rest := Observed(col[1..]);
      var r := (if col[0].Num? then [col[0].value] else []) + rest;
      assert multiset(r) == multiset(if col[0].Num? then [col[0].value] else []) + multiset(rest);
      assert multiset(col) == multiset{col[0]} + multiset(col[1..]);
      r
  }

  /** Some selected cell is text. */
  predicate HasText(x: Table, cols: seq<string>) {
    exists c, k | c in cols && c in x.cells && 0 <= k < |x.cells[c]| :: x.cells[c][k].Text?
  }

  /** The statistic the imputer keeps for a column: its median, or `None` (NaN) when it has no number. */
  function ColumnMedian(col: seq<Cell>): (r: Option<real>)
    ensures r.Some? <==> exists k | 0 <= k < |col| :: col[k].Num?
  {
    var obs := Observed(col);
    if |obs| > 0 then
      assert Num(obs[0]) in col;
      Some(Median(obs))
    else None
  }

  /** `SimpleImputer(strategy='median').fit(X[cols])`: the per-column statistics, or why it raises. */
  function FitMedians(x: Table, cols: seq<string>): (r: Result<map<string, Option<real>>, PrepError>)
    requires x.Valid()
    ensures r.Success? ==> r.value.Keys == set c | c in cols
  {
    if exists c | c in cols :: c !in x.cells then Failure(MissingColumns)
    else if |cols| == 0 || |x.index| == 0 then Failure(EmptyInput)
    else if HasText(x, cols) then Failure(NonNumeric)
    else Success(map c | c in cols :: ColumnMedian(x.cells[c]))
  }

  /**
   * The fit gets as far as the imputer, which records the input's column names
   * (`feature_names_in_`) before it checks rows and cells.
   */
  predicate ReachesImputer(x: Table, cols: seq<string>) {
    |cols| > 0 && forall c | c in cols :: c in x.cells
  }

  /** Every configured column has a statistic: none was fitted on missing values only. */
  predicate AllObserved(cols: seq<string>, medians: map<string, Option<real>>) {
    forall c | c in cols && c in medians :: medians[c].Some?
  }

  /** A column with each missing cell replaced by `m`. */
  function Fill(col: seq<Cell>, m: real): (r: seq<Cell>)
    ensures |r| == |col|
    ensures forall k | 0 <= k < |col| :: !r[k].Missing?
    ensures forall k | 0 <= k < |col| && !col[k].Missing? :: r[k] == col[k]
    ensures forall k | 0 <= k < |col| && col[k].Missing? :: r[k] == Num(m)
  {
    seq(|col|, k requires 0 <= k < |col| => if col[k].Missing? then Num(m) else col[k])
  }

  /** `pd.DataFrame(imputer.transform(X[cols]), columns=cols, index=X.index)`. */
  function Imputed(x: Table, cols: seq<string>, medians: map<string, Option<real>>): (r: Table)
    requires x.Valid() && Distinct(cols)
    requires forall c | c in cols :: c in x.cells && c in medians && medians[c].Some?
    ensures r.Valid() && r.columns == cols && r.index == x.index
  {
    Table(cols, map c | c in cols :: Fill(x.cells[c], medians[c].value), x.index)
  }

  class TemporalPreprocessor {
    /** `feature_cols`: `None` until given or inferred. */
    var featureCols: Option<seq<string>>
    /** Whether the imputer holds fitted medians. */
    var fitted: bool
    /** The imputer's per-column statistics; `None` is a NaN statistic. */
    var medians: map<string, Option<real>>
    /** Whether the imputer has recorded column names, which every fit that reaches it does, even one that raises. */
    var namesSeen: bool

    /**
     * Fitted medians exist for exactly the configured columns, of which there is
     * at least one, and a fitted imputer has seen the column names.
     */
    ghost predicate Valid()
      reads this
    {
      && (featureCols.Some? ==> Distinct(featureCols.value))
      && (fitted ==> featureCols.Some? && |featureCols.value| > 0 && medians.Keys == set c | c in featureCols.value)
      && (fitted ==> namesSeen)
      && (namesSeen ==> featureCols.Some? && |featureCols.value| > 0)
    }

    /** `TemporalPreprocessor(feature_cols)`: nothing fitted yet. */
    constructor (cols: Option<seq<string>>)
      requires cols.Some? ==> Distinct(cols.value)
      ensures Valid() && featureCols == cols && !fitted && !namesSeen
    {
      featureCols := cols;
      fitted := false;
      medians := map[];
      namesSeen := false;
    }

    /**
     * `fit(X)`: fix the columns if they are not fixed yet, then fit the imputer.
     * The column list is set even when the imputer then raises, and so are the
     * recorded column names once the imputer is reached; the medians and the
     * fitted flag change only on success. The result is the object itself.
     */
    method Fit(x: Table) returns (r: Result<TemporalPreprocessor, PrepError>)
      modifies this
      requires Valid() && x.Valid()
      ensures Valid()
      ensures featureCols == if old(featureCols).Some? then old(featureCols) else Some(x.columns)
      ensures r.Failure? <==> FitMedians(x, featureCols.value).Failure?
      ensures r.Failure? ==> r.error == FitMedians(x, featureCols.value).error
      ensures r.Failure? ==> fitted == old(fitted) && medians == old(medians)
      ensures r.Success? ==> r.value == this && fitted && medians == FitMedians(x, featureCols.value).value
      ensures namesSeen == (old(namesSeen) || ReachesImputer(x, featureCols.value))
    {
      if featureCols.None? {
        featureCols := Some(x.columns);
      }
      if ReachesImputer(x, featureCols.value) {
        namesSeen := true;
      }
      var m := FitMedians(x, featureCols.value);
      if m.Failure? {
        return Failure(m.error);
      }
      medians := m.value;
      fitted := true;
      return Success(this);
    }

    /**
     * `transform(X)`: select the configured columns, then impute. Selection fails
     * first; then an imputer that has never recorded column names; then one that
     * recorded names in a failed fit but holds no fitted dtype, whatever the rows
     * hold; then rows or cells it cannot use; and last the rebuilt table when the
     * imputer dropped a column it had no value for.
     */
    function Transform(x: Table): (r: Result<Table, PrepError>)
      reads this
      requires Valid() && x.Valid()
      ensures r.Success? ==> r.value.Valid() && featureCols.Some? && r.value.columns == featureCols.value && r.value.index == x.index
    {
      if featureCols.None? || exists c | c in featureCols.value :: c !in x.cells then Failure(MissingColumns)
      else if !fitted && !namesSeen then Failure(NotFitted)
      else if !fitted then Failure(NoStatistics)
      else if |x.index| == 0 then Failure(EmptyInput)
      else if HasText(x, featureCols.value) then Failure(NonNumeric)
      else if !AllObserved(featureCols.value, medians) then Failure(ShapeMismatch)
      else Success(Imputed(x, featureCols.value, medians))
    }

    /**
     * `fit_transform(X)`: fit on `X`, then transform `X`. It fails as the fit does,
     * or, after a successful fit, exactly when a column had no value to fit on.
     */
    method FitTransform(x: Table) returns (r: Result<Table, PrepError>)
      modifies this
      requires Valid() && x.Valid()
      ensures Valid()
      ensures featureCols == if old(featureCols).Some? then old(featureCols) else Some(x.columns)
      ensures namesSeen == (old(namesSeen) || ReachesImputer(x, featureCols.value))
      ensures FitMedians(x, featureCols.value).Failure? ==>
                r == Failure(FitMedians(x, featureCols.value).error) && fitted == old(fitted) && medians == old(medians)
      ensures FitMedians(x, featureCols.value).Success? ==>
                fitted && medians == FitMedians(x, featureCols.value).value && r == Transform(x)
      ensures FitMedians(x, featureCols.value).Success? ==>
                && (r.Success? <==> AllObserved(featureCols.value, medians))
                && (r.Failure? ==> r == Failure(ShapeMismatch))
      ensures r.Success? ==> r.value.Valid() && r.value.columns == featureCols.value && r.value.index == x.index
      ensures r.Success? ==> forall c, k | c in r.value.cells && 0 <= k < |r.value.index| :: !r.value.cells[c][k].Missing?
    {
      var fit := Fit(x);
      if fit.Failure? {
        FitOutcome(x, featureCols.value);
        return Failure(fit.error);
      }
      TransformAfterFit(this, x);
      r := Transform(x);
      if r.Success? {
        TransformFills(this, x);
      }
    }
  }

  /**
   * The imputer's failures: a configured column missing from the input, no rows
   * or no columns, or a text cell; otherwise one median per configured column.
   */
  lemma FitOutcome(x: Table, cols: seq<string>)
    requires x.Valid()
    ensures var r := FitMedians(x, cols);
      && (r == Failure(MissingColumns) <==> exists c | c in cols :: c !in x.cells)
      && (r == Failure(EmptyInput) <==> (forall c | c in cols :: c in x.cells) && (|cols| == 0 || |x.index| == 0))
      && (r == Failure(NonNumeric) <==> (forall c | c in cols :: c in x.cells) && |cols| > 0 && |x.index| > 0 && HasText(x, cols))
      && (r.Failure? ==> r.error != NotFitted && r.error != ShapeMismatch && r.error != NoStatistics)
      && (r.Success? ==> forall c | c in cols :: (r.value[c].Some? <==> exists k | 0 <= k < |x.cells[c]| :: x.cells[c][k].Num?))
  {
  }

  /**
   * Each fitted median is the median of its column's observed values, of which
   * there is at least one, and lies between two of them.
   */
  lemma {:induction false} FittedMedians(x: Table, cols: seq<string>, c: string)
    requires x.Valid() && FitMedians(x, cols).Success? && c in cols && FitMedians(x, cols).value[c].Some?
    ensures var obs := Observed(x.cells[c]);
      var m := FitMedians(x, cols).value[c].value;
      && |obs| > 0 && m == Median(obs)
      && exists i, j | 0 <= i < |obs| && 0 <= j < |obs| :: obs[i] <= m <= obs[j]
  {
    MedianBetween(Observed(x.cells[c]));
  }

  /** The observed values of a one-number column, a step of `ObservedExample`. */
  lemma ObservedOfLast()
    ensures Observed([Num(3.0)]) == [3.0]
  {
    assert [Num(3.0)][1..] == [];
  }

  /** The observed values of `[NaN, 3.0]`, a step of `ObservedExample`. */
  lemma ObservedOfTail()
    ensures Observed([Missing, Num(3.0)]) == [3.0]
  {
    ObservedOfLast();
    assert [Missing, Num(3.0)][1..] == [Num(3.0)];
  }

  /** The observed values of the column `[1.0, NaN, 3.0]` are 1.0 and 3.0. */
  lemma ObservedExample()
    ensures Observed([Num(1.0), Missing, Num(3.0)]) == [1.0, 3.0]
  {
    ObservedOfTail();
    assert [Num(1.0), Missing, Num(3.0)][1..] == [Missing, Num(3.0)];
  }

  /**
   * A successful transform: each configured column of the input, with non-missing
   * cells kept and missing cells replaced by that column's fitted median, so that
   * no missing cell remains.
   */
  lemma TransformFills(p: TemporalPreprocessor, x: Table)
    requires p.Valid() && x.Valid()
    requires p.Transform(x).Success?
    ensures var r := p.Transform(x).value;
      && p.featureCols.Some? && p.fitted
      && (forall c | c in p.featureCols.value ::
            && c in x.cells && c in r.cells && c in p.medians && p.medians[c].Some?
            && (forall k | 0 <= k < |r.index| && !x.cells[c][k].Missing? :: r.cells[c][k] == x.cells[c][k])
            && (forall k | 0 <= k < |r.index| && x.cells[c][k].Missing? :: r.cells[c][k] == Num(p.medians[c].value)))
      && forall c, k | c in r.cells && 0 <= k < |r.index| :: !r.cells[c][k].Missing?
  {
  }

  /** One cell of a successful transform: kept if present, the column's median if missing. */
  lemma TransformedCell(p: TemporalPreprocessor, x: Table, c: string, k: int)
    requires p.Valid() && x.Valid() && p.Transform(x).Success?
    requires p.featureCols.Some? && c in p.featureCols.value && 0 <= k < |x.index|
    ensures c in x.cells && c in p.medians && p.medians[c].Some? && c in p.Transform(x).value.cells
    ensures x.cells[c][k].Missing? ==> p.Transform(x).value.cells[c][k] == Num(p.medians[c].value)
    ensures !x.cells[c][k].Missing? ==> p.Transform(x).value.cells[c][k] == x.cells[c][k]
  {
  }

  /**
   * `transform` requires a successful fit. Before any fit has reached the imputer
   * it raises `NotFitted` (or `MissingColumns` when a column is absent). After a
   * fit that reached the imputer and raised, it fails on the missing fitted state
   * whatever the rows and cells hold.
   */
  lemma TransformNeedsFit(p: TemporalPreprocessor, x: Table)
    requires p.Valid() && x.Valid() && !p.fitted
    ensures p.Transform(x).Failure?
    ensures p.featureCols.Some? && (forall c | c in p.featureCols.value :: c in x.cells) ==>
              p.Transform(x) == if !p.namesSeen then Failure(NotFitted) else Failure(NoStatistics)
  {
  }

  /**
   * A fit on a text column raises inside the imputer; transforming afterwards
   * fails on the missing fitted state, not with a not-fitted error, both on the
   * same text table and on a numeric one.
   */
  method FailedFitThenTransform() returns (fit: Result<TemporalPreprocessor, PrepError>, after: Result<Table, PrepError>, numeric: Result<Table, PrepError>)
    ensures fit == Failure(NonNumeric) && after == Failure(NoStatistics) && numeric == Failure(NoStatistics)
  {
    var x := Table(["a"], map["a" := [Text("x")]], [0]);
    assert x.cells.Keys == set c | c in x.columns;
    assert HasText(x, ["a"]) by {
      assert x.cells["a"][0].Text?;
    }
    var p := new TemporalPreprocessor(Some(["a"]));
    fit := p.Fit(x);
    after := p.Transform(x);
    var y := Table(["a"], map["a" := [Num(1.0)]], [0]);
    assert y.cells.Keys == set c | c in y.columns;
    numeric := p.Transform(y);
  }

  /**
   * Transforming the table just fitted on succeeds, unless a column had no value
   * to fit on, and then it fails with `ShapeMismatch`.
   */
  lemma TransformAfterFit(p: TemporalPreprocessor, x: Table)
    requires p.Valid() && x.Valid() && p.fitted && p.featureCols.Some?
    requires FitMedians(x, p.featureCols.value) == Success(p.medians)
    ensures p.Transform(x).Success? <==> AllObserved(p.featureCols.value, p.medians)
    ensures p.Transform(x).Failure? ==> p.Transform(x) == Failure(ShapeMismatch)
  {
  }

  /** A preprocessor built without columns takes them from the first table it is fitted on. */
  method AutoColumns() returns (cols: Option<seq<string>>)
    ensures cols == Some(["col1", "col2"])
  {
    var x := Table(["col1", "col2"], map["col1" := [Num(1.0), Num(2.0)], "col2" := [Num(3.0), Num(4.0)]], [0, 1]);
    assert x.cells.Keys == set c | c in x.columns;
    var p := new TemporalPreprocessor(None);
    var fit := p.Fit(x);
    cols := p.featureCols;
  }

  /** Columns `[1.0, NaN, 3.0]` and `[NaN, 5.0, 6.0]`. */
  function ImputationTable(): (x: Table)
    ensures x.Valid() && x.columns == ["col1", "col2"] && x.index == [0, 1, 2]
    ensures x.cells["col1"] == [Num(1.0), Missing, Num(3.0)] && x.cells["col2"] == [Missing, Num(5.0), Num(6.0)]
  {
    var x := Table(["col1", "col2"], map["col1" := [Num(1.0), Missing, Num(3.0)], "col2" := [Missing, Num(5.0), Num(6.0)]], [0, 1, 2]);
    assert x.cells.Keys == set c | c in x.columns;
    x
  }

  /** Both columns hold numbers only, and each has one: the fit succeeds with a median for each. */
  lemma ImputationFits()
    ensures var x := ImputationTable();
      FitMedians(x, x.columns).Success? && AllObserved(x.columns, FitMedians(x, x.columns).value)
  {
    var x := ImputationTable();
    assert x.cells["col1"][0].Num? && x.cells["col2"][1].Num?;
    assert !HasText(x, x.columns);
  }

  /** Fitting on that table gives the first column the median 2.0. */
  lemma ImputationMedian()
    ensures "col1" in FitMedians(ImputationTable(), ["col1", "col2"]).value
    ensures FitMedians(ImputationTable(), ["col1", "col2"]).value["col1"] == Some(2.0)
  {
    var x := ImputationTable();
    ImputationFits();
    FittedStatistic(x, x.columns, "col1");
    ColumnMedianExample();
  }

  /** A successful fit stores, for each configured column, that column's statistic. */
  lemma FittedStatistic(x: Table, cols: seq<string>, c: string)
    requires x.Valid() && FitMedians(x, cols).Success? && c in cols
    ensures c in x.cells && c in FitMedians(x, cols).value
    ensures FitMedians(x, cols).value[c] == ColumnMedian(x.cells[c])
  {
  }

  /** The statistic of the column `[1.0, NaN, 3.0]` is the median 2.0. */
  lemma ColumnMedianExample()
    ensures ColumnMedian([Num(1.0), Missing, Num(3.0)]) == Some(2.0)
  {
    ObservedExample();
    MedianOfTwo();
  }

  /**
   * Both columns configured: after `fit_transform` nothing is missing and the gap
   * in the first column is filled with 2.0, the median of 1.0 and 3.0.
   */
  method ImputationExample() returns (r: Result<Table, PrepError>)
    ensures r.Success? && r.value.Valid() && r.value.columns == ["col1", "col2"] && r.value.index == [0, 1, 2]
    ensures forall c, k | c in r.value.cells && 0 <= k < |r.value.index| :: !r.value.cells[c][k].Missing?
    ensures r.value.cells["col1"][1] == Num(2.0)
  {
    var x := ImputationTable();
    ImputationFits();
    var p := new TemporalPreprocessor(Some(["col1", "col2"]));
    r := p.FitTransform(x);
    ImputationMedian();
    TransformedCell(p, x, "col1", 1);
  }

  /**
   * A column that is missing in every row gets no median, so `fit_transform`
   * fails when it rebuilds the table.
   */
  method EmptyColumnExample() returns (r: Result<Table, PrepError>)
    ensures r == Failure(ShapeMismatch)
  {
    var x := Table(["col1", "col2"], map["col1" := [Num(1.0)], "col2" := [Missing]], [0]);
    assert x.cells.Keys == set c | c in x.columns;
    assert !HasText(x, x.columns);
    assert FitMedians(x, x.columns).Success?;
    FittedStatistic(x, x.columns, "col2");
    assert ColumnMedian(x.cells["col2"]) == None;
    var p := new TemporalPreprocessor(None);
    r := p.FitTransform(x);
  }
}
