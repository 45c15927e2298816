/** The inference adapter (src/predictive_model.py, `make_prediction`):
    one-hot encode a single query, add every schema column the query did not
    produce with value 0, select the columns in schema order (which drops the
    query's own columns the schema does not know) and hand the row to the
    classifier. */
module Prediction {
  import opened Common
  import opened Encoding
  import Dataset
  import Training

  /** The record the dashboard submits: a district, a weekday name and the
      hour slider's integer. */
  datatype Query = Query(district: string, day: string, hour: int)

  /** The loaded classifier: the column names it was fitted on
      (`feature_names_in_`) and its decision function on one row. */
  datatype Classifier<L> = Classifier(featureNames: seq<string>, decide: seq<int> -> L)

  /** Columns of `get_dummies(DataFrame([query]))`, in order: HOUR is an
      integer and passes through first, then the two indicator columns. */
  function LocalColumns(q: Query): seq<string>
  {
    [HOUR, DummyName(DISTRICT, q.district), DummyName(DAY_OF_WEEK, q.day)]
  }

  /** Cells of that one-row frame. */
  function LocalFrame(q: Query): map<string, int>
  {
    map[HOUR := q.hour, DummyName(DISTRICT, q.district) := 1, DummyName(DAY_OF_WEEK, q.day) := 1]
  }

  /** The value column `c` holds after zero-filling. */
  function FilledValue(q: Query, c: string): int
  {
    if c in LocalFrame(q) then LocalFrame(q)[c] else 0
  }

  /** The reconciled row for schema `features`. */
  function Reconciled(q: Query, features: seq<string>): (row: seq<int>)
    ensures |row| == |features|
  {
    seq(|features|, i requires 0 <= i < |features| => FilledValue(q, features[i]))
  }

  /** Lines 8-15: expand the query, add each missing schema column as 0,
      then select the schema's columns in its order. */
  method Reconcile(q: Query, features: seq<string>) returns (columns: seq<string>, cells: seq<int>)
    ensures columns == features
    ensures cells == Reconciled(q, features)
  {
    var frame := LocalFrame(q);
    for i := 0 to |features|
      invariant forall c :: c in frame <==> c in LocalFrame(q) || c in features[..i]
      invariant forall c :: c in frame ==> frame[c] == FilledValue(q, c)
    {
      var col := features[i];
      if col !in frame {
        frame := frame[col := 0];
      }
      assert features[..i + 1] == features[..i] + [col];
    }
    assert features[..|features|] == features;
    columns := features;
    cells := seq(|features|, i requires 0 <= i < |features| => frame[features[i]]);
  }

  /** Line 17: the classifier's single output on the reconciled row. */
  method MakePrediction<L>(model: Classifier<L>, q: Query) returns (prediction: L)
    ensures prediction == model.decide(Reconciled(q, model.featureNames))
  {
    var columns, cells := Reconcile(q, model.featureNames);
    prediction := model.decide(cells);
  }

  // ---------------------------------------------------------------------
  // Properties of the reconciled row
  // ---------------------------------------------------------------------

  /** Filled cells follow the training-time cell rule: the hour in HOUR,
      1 in the query's own two indicator columns, 0 in every other column. */
  lemma FilledValueIsCell(q: Query, c: string)
    ensures FilledValue(q, c) == Training.Cell(c, q.district, q.day, q.hour)
  {
    DummyNameParts(DISTRICT, q.district);
    DummyNameParts(DAY_OF_WEEK, q.day);
    FeatureColumnsDisjoint(DummyName(DISTRICT, q.district));
    FeatureColumnsDisjoint(DummyName(DAY_OF_WEEK, q.day));
  }

  /** Zero-fill: a schema column the query's own encoding did not produce
      holds 0; a column it did produce keeps the query's value. */
  lemma ReconciledZeroFill(q: Query, features: seq<string>)
    ensures forall i :: 0 <= i < |features| && features[i] !in LocalColumns(q) ==> Reconciled(q, features)[i] == 0
    ensures forall i :: 0 <= i < |features| && features[i] in LocalColumns(q) ==>
              Reconciled(q, features)[i] == LocalFrame(q)[features[i]]
  {
    forall i | 0 <= i < |features| ensures features[i] in LocalColumns(q) <==> features[i] in LocalFrame(q) {
    }
  }

  /** The one-hot positions of a reconciled row: HOUR carries the query's
      hour; among the DISTRICT (DAY_OF_WEEK) indicator columns exactly the
      query's own value is 1, and all are 0 when that value has no column. */
  lemma ReconciledOneHot(q: Query, features: seq<string>)
    ensures forall i :: 0 <= i < |features| && features[i] == HOUR ==> Reconciled(q, features)[i] == q.hour
    ensures forall i :: 0 <= i < |features| && IsDummyOf(features[i], DISTRICT) ==>
              Reconciled(q, features)[i] == if features[i] == DummyName(DISTRICT, q.district) then 1 else 0
    ensures forall i :: 0 <= i < |features| && IsDummyOf(features[i], DAY_OF_WEEK) ==>
              Reconciled(q, features)[i] == if features[i] == DummyName(DAY_OF_WEEK, q.day) then 1 else 0
  {
    forall i | 0 <= i < |features|
      ensures Reconciled(q, features)[i] == Training.Cell(features[i], q.district, q.day, q.hour)
    {
      FilledValueIsCell(q, features[i]);
    }
    forall i | 0 <= i < |features| ensures
      IsDummyOf(features[i], DISTRICT) || IsDummyOf(features[i], DAY_OF_WEEK) ==> features[i] != HOUR
    {
      FeatureColumnsDisjoint(features[i]);
    }
    forall i | 0 <= i < |features| && IsDummyOf(features[i], DISTRICT)
      ensures features[i] != DummyName(DAY_OF_WEEK, q.day)
    {
      DummyNameParts(DAY_OF_WEEK, q.day);
      FeatureColumnsDisjoint(features[i]);
    }
    forall i | 0 <= i < |features| && IsDummyOf(features[i], DAY_OF_WEEK)
      ensures features[i] != DummyName(DISTRICT, q.district)
    {
      DummyNameParts(DISTRICT, q.district);
      FeatureColumnsDisjoint(features[i]);
      FeatureColumnsDisjoint(DummyName(DISTRICT, q.district));
    }
  }

  /** Unseen-category tolerance: a district the schema has no column for
      leaves every DISTRICT indicator at 0, and the same for a day. */
  lemma UnseenValuesAreAllZero(q: Query, features: seq<string>)
    ensures DummyName(DISTRICT, q.district) !in features ==>
      forall i :: 0 <= i < |features| && IsDummyOf(features[i], DISTRICT) ==> Reconciled(q, features)[i] == 0
    ensures DummyName(DAY_OF_WEEK, q.day) !in features ==>
      forall i :: 0 <= i < |features| && IsDummyOf(features[i], DAY_OF_WEEK) ==> Reconciled(q, features)[i] == 0
  {
    ReconciledOneHot(q, features);
  }

  /** Columns outside the schema are discarded: two queries that differ only
      in districts the schema does not know reconcile to the same row. */
  lemma UnknownColumnsDiscarded(q: Query, other: string, features: seq<string>)
    requires DummyName(DISTRICT, q.district) !in features
    requires DummyName(DISTRICT, other) !in features
    ensures Reconciled(q, features) == Reconciled(q.(district := other), features)
  {
    var q2 := q.(district := other);
    forall i | 0 <= i < |features| ensures Reconciled(q, features)[i] == Reconciled(q2, features)[i] {
      FilledValueIsCell(q, features[i]);
      FilledValueIsCell(q2, features[i]);
    }
  }

  // ---------------------------------------------------------------------
  // Agreement with the training-time encoding
  // ---------------------------------------------------------------------

  /** Against the schema training recorded, the reconciled row of any query is
      the row the training encoding gives an example with the query's
      district, day and hour. */
  lemma ReconciledMatchesTraining(rows: seq<Dataset.Incident>, q: Query, offense: string)
    ensures var t := Training.Complete(rows);
      Reconciled(q, Training.Prepare(rows).features)
        == Training.EncodeRow(Training.Categories(Training.DistrictValues(t)), Training.Categories(Training.DayValues(t)),
                              Training.Example(q.district, q.day, q.hour, offense))
  {
    var t := Training.Complete(rows);
    var ds, ws := Training.Categories(Training.DistrictValues(t)), Training.Categories(Training.DayValues(t));
    var features := Training.Prepare(rows).features;
    assert features == Training.Layout(ds, ws);
    var e := Training.Example(q.district, q.day, q.hour, offense);
    Training.EncodeRowCells(ds, ws, e);
    forall i | 0 <= i < |features| ensures Reconciled(q, features)[i] == Training.EncodeRow(ds, ws, e)[i] {
      FilledValueIsCell(q, features[i]);
    }
  }

  /** Replaying a training row's own district, day and hour as a query
      reproduces that row of X exactly. */
  lemma TrainingRowsReplay(rows: seq<Dataset.Incident>, i: nat)
    requires i < |Training.Complete(rows)|
    ensures var e := Training.Complete(rows)[i];
      Reconciled(Query(e.district, e.day, e.hour), Training.Prepare(rows).features) == Training.Prepare(rows).x[i]
  {
    var t := Training.Complete(rows);
    var e := t[i];
    ReconciledMatchesTraining(rows, Query(e.district, e.day, e.hour), e.offense);
  }

  /** A query whose district and day were both seen in training reconciles
      to a row with exactly one 1 in each indicator block: its own. */
  lemma SeenQueryIsOneHot(rows: seq<Dataset.Incident>, q: Query)
    requires var t := Training.Complete(rows); q.district in Training.DistrictValues(t) && q.day in Training.DayValues(t)
    ensures var t := Training.Complete(rows);
      var n := |Training.Categories(Training.DistrictValues(t))|;
      var row := Reconciled(q, Training.Prepare(rows).features);
      && Count(row[1..1 + n], 1) == 1
      && Count(row[1 + n..], 1) == 1
  {
    var t := Training.Complete(rows);
    var ds, ws := Training.Categories(Training.DistrictValues(t)), Training.Categories(Training.DayValues(t));
    Training.CategoriesSorted(Training.DistrictValues(t));
    Training.CategoriesSorted(Training.DayValues(t));
    var e := Training.Example(q.district, q.day, q.hour, "");
    ReconciledMatchesTraining(rows, q, "");
    Training.EncodeRowOneHot(ds, ws, e);
  }
}
