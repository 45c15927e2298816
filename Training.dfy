/** The offline training pipeline up to the classifier fit
    (train_model.py, lines 20-24): drop the rows with a missing feature or
    label, keep the four columns, one-hot encode the features into the
    design matrix X and take the label column y. The column list of X is
    the feature schema the classifier records and inference must honour. */
module Training {
  import opened Common
  import opened Dataset
  import opened Encoding

  /** A row that survived the missing-value drop: the three features and the
      label, nothing else. */
  datatype Example = Example(district: string, day: string, hour: int, offense: string)

  /** The design matrix, its column names and the label vector. */
  datatype TrainingSet = TrainingSet(features: seq<string>, x: seq<seq<int>>, y: seq<string>)

  predicate IsComplete(r: Incident)
  {
    r.district.Some? && r.day.Some? && r.hour.Some? && r.offense.Some?
  }

  function Project(r: Incident): (e: Example)
    requires IsComplete(r)
    ensures Some(e.district) == r.district && Some(e.day) == r.day
    ensures Some(e.hour) == r.hour && Some(e.offense) == r.offense
  {
    Example(r.district.value, r.day.value, r.hour.value, r.offense.value)
  }

  /** `df[[DISTRICT, DAY_OF_WEEK, HOUR, OFFENSE_CODE_GROUP]].dropna()`. */
  function Complete(rows: seq<Incident>): (t: seq<Example>)
  {
    var kept := Filter(rows, IsComplete);
    seq(|kept|, i requires 0 <= i < |kept| => Project(kept[i]))
  }

  function DistrictValues(t: seq<Example>): (c: seq<string>)
    ensures |c| == |t| && forall i :: 0 <= i < |t| ==> c[i] == t[i].district
  {
    seq(|t|, i requires 0 <= i < |t| => t[i].district)
  }

  function DayValues(t: seq<Example>): (c: seq<string>)
    ensures |c| == |t| && forall i :: 0 <= i < |t| ==> c[i] == t[i].day
  {
    seq(|t|, i requires 0 <= i < |t| => t[i].day)
  }

  /** The categories get_dummies derives for a string column: its distinct
      values in sorted order. */
  function Categories(column: seq<string>): (cats: seq<string>)
    ensures forall v :: v in column <==> v in cats
  {
    SortedSet(column, StrLess)
  }

  function DummyNames(field: string, values: seq<string>): (names: seq<string>)
    ensures |names| == |values|
    ensures forall j :: 0 <= j < |values| ==> names[j] == DummyName(field, values[j])
  {
    seq(|values|, j requires 0 <= j < |values| => DummyName(field, values[j]))
  }

  /** The indicator cells of one row for the categories `values`. */
  function Indicators(values: seq<string>, v: string): (cells: seq<int>)
    ensures |cells| == |values|
    ensures forall j :: 0 <= j < |values| ==> cells[j] == if values[j] == v then 1 else 0
  {
    seq(|values|, j requires 0 <= j < |values| => if values[j] == v then 1 else 0)
  }

  /** Columns of `get_dummies` over DISTRICT, DAY_OF_WEEK and HOUR with
      the given district and day categories: the integer column HOUR is not
      encoded and comes first, then one indicator column per district, then
      one per day. */
  function Layout(districts: seq<string>, days: seq<string>): (s: seq<string>)
    ensures |s| == 1 + |districts| + |days|
    ensures s[0] == HOUR
    ensures forall j :: 0 <= j < |districts| ==> s[1 + j] == DummyName(DISTRICT, districts[j])
    ensures forall j :: 0 <= j < |days| ==> s[1 + |districts| + j] == DummyName(DAY_OF_WEEK, days[j])
  {
    [HOUR] + DummyNames(DISTRICT, districts) + DummyNames(DAY_OF_WEEK, days)
  }

  /** The schema recorded at fit time: the layout for the sorted categories
      of the kept rows. */
  function Schema(t: seq<Example>): seq<string>
  {
    Layout(Categories(DistrictValues(t)), Categories(DayValues(t)))
  }

  /** Row of X for one example, given the district and day categories. */
  function EncodeRow(districts: seq<string>, days: seq<string>, e: Example): seq<int>
  {
    [e.hour] + Indicators(districts, e.district) + Indicators(days, e.day)
  }

  /** train_model.py, lines 20-24: the design matrix and the labels. */
  function Prepare(rows: seq<Incident>): TrainingSet
  {
    var t := Complete(rows);
    var districts := Categories(DistrictValues(t));
    var days := Categories(DayValues(t));
    TrainingSet(Schema(t),
                seq(|t|, i requires 0 <= i < |t| => EncodeRow(districts, days, t[i])),
                seq(|t|, i requires 0 <= i < |t| => t[i].offense))
  }

  // ---------------------------------------------------------------------
  // The missing-value drop
  // ---------------------------------------------------------------------

  /** The drop keeps exactly the rows with all four fields present, in their
      original order, reduced to those four fields. */
  lemma CompleteSelects(rows: seq<Incident>)
    ensures var t, idx := Complete(rows), KeptFrom(rows, IsComplete, 0);
      && |t| == |idx|
      && (forall k :: 0 <= k < |idx| ==> idx[k] < |rows| && IsComplete(rows[idx[k]]) && t[k] == Project(rows[idx[k]]))
      && (forall k, l :: 0 <= k < l < |idx| ==> idx[k] < idx[l])
      && (forall j :: 0 <= j < |rows| ==> (IsComplete(rows[j]) <==> j in idx))
  {
    FilterSelects(rows, IsComplete);
    var kept := Filter(rows, IsComplete);
    assert forall k :: 0 <= k < |kept| ==> kept[k] in kept;
  }

  /** If every row has the four fields, nothing is dropped. */
  lemma CompleteKeepsCompleteTable(rows: seq<Incident>)
    requires forall r :: r in rows ==> IsComplete(r)
    ensures |Complete(rows)| == |rows|
    ensures forall i :: 0 <= i < |rows| ==> Complete(rows)[i] == Project(rows[i])
  {
    FilterKeepsAll(rows, IsComplete);
  }

  // ---------------------------------------------------------------------
  // The schema
  // ---------------------------------------------------------------------

  lemma CategoriesSorted(column: seq<string>)
    ensures StrictlySorted(Categories(column), StrLess)
    ensures Distinct(Categories(column))
  {
    StrLessIsStrictTotal(Elems(column));
    SortedSetSorted(column, StrLess);
  }

  /** A layout has an indicator column for a district exactly when the
      district is one of its categories. */
  lemma LayoutDistrictColumns(ds: seq<string>, ws: seq<string>)
    ensures forall v :: DummyName(DISTRICT, v) in Layout(ds, ws) <==> v in ds
  {
    var s := Layout(ds, ws);
    forall v | DummyName(DISTRICT, v) in s ensures v in ds {
      var i :| 0 <= i < |s| && s[i] == DummyName(DISTRICT, v);
      DummyNameParts(DISTRICT, v);
      FeatureColumnsDisjoint(s[i]);
      if 1 + |ds| <= i {
        var w := ws[i - 1 - |ds|];
        assert s[i] == DummyName(DAY_OF_WEEK, w);
        DummyNameParts(DAY_OF_WEEK, w);
        assert false;
      } else if 1 <= i {
        DummyNameInjective(DISTRICT, v, ds[i - 1]);
      }
    }
    forall v | v in ds ensures DummyName(DISTRICT, v) in s {
      var j :| 0 <= j < |ds| && ds[j] == v;
      assert s[1 + j] == DummyName(DISTRICT, v);
    }
  }

  /** A layout has an indicator column for a day exactly when the day is one
      of its categories. */
  lemma LayoutDayColumns(ds: seq<string>, ws: seq<string>)
    ensures forall w :: DummyName(DAY_OF_WEEK, w) in Layout(ds, ws) <==> w in ws
  {
    var s := Layout(ds, ws);
    forall w ensures DummyName(DAY_OF_WEEK, w) in s <==> w in ws {
      if DummyName(DAY_OF_WEEK, w) in s {
        var i :| 0 <= i < |s| && s[i] == DummyName(DAY_OF_WEEK, w);
        DummyNameParts(DAY_OF_WEEK, w);
        FeatureColumnsDisjoint(s[i]);
        if 1 + |ds| <= i {
          DummyNameInjective(DAY_OF_WEEK, w, ws[i - 1 - |ds|]);
        } else if i > 0 {
          DummyNameParts(DISTRICT, ds[i - 1]);
        }
      }
      if w in ws {
        var j :| 0 <= j < |ws| && ws[j] == w;
        assert s[1 + |ds| + j] == DummyName(DAY_OF_WEEK, w);
      }
    }
  }

  /** Every column of a layout is HOUR or an indicator of one of its
      categories. */
  lemma LayoutOnlyFeatures(ds: seq<string>, ws: seq<string>)
    ensures forall c :: c in Layout(ds, ws) ==>
              || c == HOUR
              || (IsDummyOf(c, DISTRICT) && DummyValue(c, DISTRICT) in ds)
              || (IsDummyOf(c, DAY_OF_WEEK) && DummyValue(c, DAY_OF_WEEK) in ws)
  {
    var s := Layout(ds, ws);
    forall c | c in s ensures
      || c == HOUR
      || (IsDummyOf(c, DISTRICT) && DummyValue(c, DISTRICT) in ds)
      || (IsDummyOf(c, DAY_OF_WEEK) && DummyValue(c, DAY_OF_WEEK) in ws)
    {
      var i :| 0 <= i < |s| && s[i] == c;
      if 1 <= i < 1 + |ds| {
        DummyNameParts(DISTRICT, ds[i - 1]);
        DummyNameInjective(DISTRICT, DummyValue(c, DISTRICT), ds[i - 1]);
      } else if i > 0 {
        DummyNameParts(DAY_OF_WEEK, ws[i - 1 - |ds|]);
        DummyNameInjective(DAY_OF_WEEK, DummyValue(c, DAY_OF_WEEK), ws[i - 1 - |ds|]);
      }
    }
  }

  /** The schema holds HOUR once, one indicator column per district present
      in the kept rows and one per day present, and nothing else. */
  lemma SchemaColumns(t: seq<Example>)
    ensures HOUR in Schema(t)
    ensures forall v :: DummyName(DISTRICT, v) in Schema(t) <==> v in DistrictValues(t)
    ensures forall w :: DummyName(DAY_OF_WEEK, w) in Schema(t) <==> w in DayValues(t)
    ensures forall c :: c in Schema(t) ==>
              || c == HOUR
              || (IsDummyOf(c, DISTRICT) && DummyValue(c, DISTRICT) in DistrictValues(t))
              || (IsDummyOf(c, DAY_OF_WEEK) && DummyValue(c, DAY_OF_WEEK) in DayValues(t))
  {
    var ds, ws := Categories(DistrictValues(t)), Categories(DayValues(t));
    LayoutDistrictColumns(ds, ws);
    LayoutDayColumns(ds, ws);
    LayoutOnlyFeatures(ds, ws);
  }

  /** Distinct categories give distinct indicator names. */
  lemma DummyNamesDistinct(field: string, values: seq<string>)
    requires Distinct(values)
    ensures Distinct(DummyNames(field, values))
  {
    var names := DummyNames(field, values);
    forall a, b | 0 <= a < b < |names| ensures names[a] != names[b] {
      DummyNamesDiffer(field, values[a], values[b]);
    }
  }

  /** Every name of an indicator block is an indicator of its field. */
  lemma DummyNamesAreIndicators(field: string, values: seq<string>)
    ensures forall c :: c in DummyNames(field, values) ==> IsDummyOf(c, field)
  {
    var names := DummyNames(field, values);
    forall c | c in names ensures IsDummyOf(c, field) {
      var k :| 0 <= k < |names| && names[k] == c;
      DummyNameParts(field, values[k]);
    }
  }

  /** Over distinct categories the layout's names are pairwise distinct. */
  lemma LayoutDistinct(ds: seq<string>, ws: seq<string>)
    requires Distinct(ds) && Distinct(ws)
    ensures Distinct(Layout(ds, ws))
  {
    var dn, wn := DummyNames(DISTRICT, ds), DummyNames(DAY_OF_WEEK, ws);
    DummyNamesDistinct(DISTRICT, ds);
    DummyNamesDistinct(DAY_OF_WEEK, ws);
    DummyNamesAreIndicators(DISTRICT, ds);
    DummyNamesAreIndicators(DAY_OF_WEEK, ws);
    forall c | c in dn ensures c != HOUR && c !in wn {
      FeatureColumnsDisjoint(c);
    }
    forall c | c in wn ensures c != HOUR {
      FeatureColumnsDisjoint(c);
    }
    DistinctConcat([HOUR], dn);
    DistinctConcat([HOUR] + dn, wn);
    assert Layout(ds, ws) == [HOUR] + dn + wn;
  }

  /** The schema's column names are pairwise distinct. */
  lemma SchemaDistinct(t: seq<Example>)
    ensures Distinct(Schema(t))
  {
    CategoriesSorted(DistrictValues(t));
    CategoriesSorted(DayValues(t));
    LayoutDistinct(Categories(DistrictValues(t)), Categories(DayValues(t)));
  }

  // ---------------------------------------------------------------------
  // The design matrix
  // ---------------------------------------------------------------------

  /** Over distinct categories containing `v`, exactly one indicator is 1. */
  lemma {:induction false} IndicatorsOneHot(values: seq<string>, v: string)
    requires Distinct(values) && v in values
    ensures Count(Indicators(values, v), 1) == 1
  {
    var cells := Indicators(values, v);
    var rest := values[1..];
    assert cells[1..] == Indicators(rest, v);
    if values[0] == v {
      assert v !in rest by {
        forall k | 0 <= k < |rest| ensures rest[k] != v {
          assert rest[k] == values[k + 1];
        }
      }
      assert 1 !in Indicators(rest, v);
    } else {
      assert v in rest;
      IndicatorsOneHot(rest, v);
    }
  }

  /** What a design-matrix cell holds: the hour in the HOUR column, 1 in the
      indicator columns of the row's own district and day, 0 elsewhere. */
  function Cell(column: string, district: string, day: string, hour: int): int
  {
    if column == HOUR then hour
    else if column == DummyName(DISTRICT, district) then 1
    else if column == DummyName(DAY_OF_WEEK, day) then 1
    else 0
  }

  /** Every cell of an encoded row is the cell its column name calls for. */
  lemma EncodeRowCells(ds: seq<string>, ws: seq<string>, e: Example)
    ensures |EncodeRow(ds, ws, e)| == |Layout(ds, ws)|
    ensures forall c :: 0 <= c < |Layout(ds, ws)| ==>
              EncodeRow(ds, ws, e)[c] == Cell(Layout(ds, ws)[c], e.district, e.day, e.hour)
  {
    var row, names := EncodeRow(ds, ws, e), Layout(ds, ws);
    DummyNameParts(DISTRICT, e.district);
    DummyNameParts(DAY_OF_WEEK, e.day);
    FeatureColumnsDisjoint(DummyName(DISTRICT, e.district));
    FeatureColumnsDisjoint(DummyName(DAY_OF_WEEK, e.day));
    forall c | 0 <= c < |names| ensures row[c] == Cell(names[c], e.district, e.day, e.hour) {
      if 1 <= c < 1 + |ds| {
        var v := ds[c - 1];
        assert row[c] == if v == e.district then 1 else 0;
        DummyNameParts(DISTRICT, v);
        FeatureColumnsDisjoint(names[c]);
        if names[c] == DummyName(DISTRICT, e.district) {
          DummyNameInjective(DISTRICT, v, e.district);
        }
      } else if 1 + |ds| <= c {
        var w := ws[c - 1 - |ds|];
        assert row[c] == if w == e.day then 1 else 0;
        DummyNameParts(DAY_OF_WEEK, w);
        FeatureColumnsDisjoint(names[c]);
        if names[c] == DummyName(DAY_OF_WEEK, e.day) {
          DummyNameInjective(DAY_OF_WEEK, w, e.day);
        }
      }
    }
  }

  /** Over distinct categories holding the row's values, the district block
      and the day block of an encoded row each hold exactly one 1. */
  lemma EncodeRowOneHot(ds: seq<string>, ws: seq<string>, e: Example)
    requires Distinct(ds) && Distinct(ws) && e.district in ds && e.day in ws
    ensures Count(EncodeRow(ds, ws, e)[1..1 + |ds|], 1) == 1
    ensures Count(EncodeRow(ds, ws, e)[1 + |ds|..], 1) == 1
  {
    var row := EncodeRow(ds, ws, e);
    assert row[1..1 + |ds|] == Indicators(ds, e.district);
    assert row[1 + |ds|..] == Indicators(ws, e.day);
    IndicatorsOneHot(ds, e.district);
    IndicatorsOneHot(ws, e.day);
  }

  /** X and y have one row per kept example; row i of X encodes example i
      under the recorded schema and y[i] is its label. In each row exactly
      one DISTRICT and one DAY_OF_WEEK indicator is 1: the row's own. */
  lemma PrepareRows(rows: seq<Incident>)
    ensures var ts, t := Prepare(rows), Complete(rows);
      && |ts.x| == |ts.y| == |t|
      && ts.features == Schema(t)
      && forall i :: 0 <= i < |t| ==>
           && |ts.x[i]| == |ts.features|
           && ts.y[i] == t[i].offense
           && (forall c :: 0 <= c < |ts.features| ==>
                 ts.x[i][c] == Cell(ts.features[c], t[i].district, t[i].day, t[i].hour))
           && Count(ts.x[i][1..1 + |Categories(DistrictValues(t))|], 1) == 1
           && Count(ts.x[i][1 + |Categories(DistrictValues(t))|..], 1) == 1
  {
    var ts, t := Prepare(rows), Complete(rows);
    var ds := Categories(DistrictValues(t));
    var ws := Categories(DayValues(t));
    CategoriesSorted(DistrictValues(t));
    CategoriesSorted(DayValues(t));
    forall i | 0 <= i < |t|
      ensures |ts.x[i]| == |ts.features|
      ensures forall c :: 0 <= c < |ts.features| ==>
                 ts.x[i][c] == Cell(ts.features[c], t[i].district, t[i].day, t[i].hour)
      ensures Count(ts.x[i][1..1 + |ds|], 1) == 1
      ensures Count(ts.x[i][1 + |ds|..], 1) == 1
    {
      assert ts.x[i] == EncodeRow(ds, ws, t[i]);
      assert t[i].district in DistrictValues(t) && t[i].day in DayValues(t);
      EncodeRowCells(ds, ws, t[i]);
      EncodeRowOneHot(ds, ws, t[i]);
    }
  }
}
