/** The data logic of the dashboard script (app.py): the sidebar filters,
    the key statistics, the Lat/Long drop that every later section sees, the
    monthly trend counts, the day-by-hour crosstab with its peak cell and
    the top offense counts. */
module Dashboard {
  import opened Common
  import opened Dataset

  // ---------------------------------------------------------------------
  // Filters (lines 111-119)
  // ---------------------------------------------------------------------

  /** The four sidebar multiselects. */
  datatype Selection = Selection(districts: seq<string>, offenses: seq<string>, years: seq<int>, months: seq<int>)

  /** `column.isin(choice)` for one cell: a missing cell matches nothing. */
  predicate IsIn<T(==)>(cell: Option<T>, choice: seq<T>)
  {
    cell.Some? && cell.value in choice
  }

  /** An empty selection imposes no restriction. */
  predicate Allows<T(==)>(choice: seq<T>, cell: Option<T>)
  {
    |choice| == 0 || IsIn(cell, choice)
  }

  predicate Passes(sel: Selection, r: Incident)
  {
    && Allows(sel.districts, r.district)
    && Allows(sel.offenses, r.offense)
    && Allows(sel.years, r.year)
    && Allows(sel.months, r.month)
  }

  /** The filter chain: each non-empty selection narrows the table in turn;
      the result is the table filtered once by all selections together. */
  method ApplyFilters(data: seq<Incident>, sel: Selection) returns (filtered: seq<Incident>)
    ensures filtered == Filter(data, (r: Incident) => Passes(sel, r))
  {
    ghost var p0: Incident -> bool := (r: Incident) => true;
    ghost var p1: Incident -> bool := (r: Incident) => Allows(sel.districts, r.district);
    ghost var p2: Incident -> bool := (r: Incident) => p1(r) && Allows(sel.offenses, r.offense);
    ghost var p3: Incident -> bool := (r: Incident) => p2(r) && Allows(sel.years, r.year);
    ghost var p4: Incident -> bool := (r: Incident) => p3(r) && Allows(sel.months, r.month);
    filtered := data;
    FilterKeepsAll(data, p0);
    if |sel.districts| > 0 {
      filtered := Filter(filtered, (r: Incident) => IsIn(r.district, sel.districts));
      FilterFilter(data, p0, (r: Incident) => IsIn(r.district, sel.districts), p1);
    } else {
      FilterSameMask(data, p0, p1);
    }
    if |sel.offenses| > 0 {
      filtered := Filter(filtered, (r: Incident) => IsIn(r.offense, sel.offenses));
      FilterFilter(data, p1, (r: Incident) => IsIn(r.offense, sel.offenses), p2);
    } else {
      FilterSameMask(data, p1, p2);
    }
    if |sel.years| > 0 {
      filtered := Filter(filtered, (r: Incident) => IsIn(r.year, sel.years));
      FilterFilter(data, p2, (r: Incident) => IsIn(r.year, sel.years), p3);
    } else {
      FilterSameMask(data, p2, p3);
    }
    if |sel.months| > 0 {
      filtered := Filter(filtered, (r: Incident) => IsIn(r.month, sel.months));
      FilterFilter(data, p3, (r: Incident) => IsIn(r.month, sel.months), p4);
    } else {
      FilterSameMask(data, p3, p4);
    }
    FilterSameMask(data, p4, (r: Incident) => Passes(sel, r));
  }

  /** With every selection empty the table is unchanged. */
  lemma NoSelectionKeepsAll(data: seq<Incident>)
    ensures Filter(data, (r: Incident) => Passes(Selection([], [], [], []), r)) == data
  {
    FilterKeepsAll(data, (r: Incident) => Passes(Selection([], [], [], []), r));
  }

  /** The filtered table is an order-preserving subsequence of the data and
      every kept row lies in each non-empty selection. */
  lemma FilteredRowsSatisfySelection(data: seq<Incident>, sel: Selection)
    ensures var f, idx := Filter(data, (r: Incident) => Passes(sel, r)), KeptFrom(data, (r: Incident) => Passes(sel, r), 0);
      && |f| == |idx|
      && (forall k :: 0 <= k < |idx| ==> idx[k] < |data| && f[k] == data[idx[k]])
      && (forall k, l :: 0 <= k < l < |idx| ==> idx[k] < idx[l])
      && (forall j :: 0 <= j < |data| ==> (Passes(sel, data[j]) <==> j in idx))
    ensures forall r :: r in Filter(data, (r: Incident) => Passes(sel, r)) ==>
      && (|sel.districts| > 0 ==> r.district.Some? && r.district.value in sel.districts)
      && (|sel.offenses| > 0 ==> r.offense.Some? && r.offense.value in sel.offenses)
      && (|sel.years| > 0 ==> r.year.Some? && r.year.value in sel.years)
      && (|sel.months| > 0 ==> r.month.Some? && r.month.value in sel.months)
  {
    FilterSelects(data, (r: Incident) => Passes(sel, r));
  }

  // ---------------------------------------------------------------------
  // Key statistics (lines 127-133)
  // ---------------------------------------------------------------------

  /** What a "most common" metric shows: "No data" for an empty table, the
      value of `mode()[0]`, or the KeyError of the label lookup `[0]` when
      every cell of the column is missing and `mode()` is empty. */
  datatype Stat<T> = NoData | Value(value: T) | ModeKeyError

  function MostCommon<T(==)>(column: seq<Option<T>>, before: (T, T) -> bool): (r: Stat<T>)
    ensures r.NoData? <==> |column| == 0
    ensures r.ModeKeyError? <==> |column| > 0 && forall i :: 0 <= i < |column| ==> column[i].None?
  {
    if |column| == 0 then NoData
    else match Mode(Present(column), before)
      case None =>
        assert forall i :: 0 <= i < |column| ==> column[i].None?;
        ModeKeyError
      case Some(m) => Value(m)
  }

  function MostCommonCrime(rows: seq<Incident>): Stat<string>
  {
    MostCommon(Column(rows, (r: Incident) => r.offense), StrLess)
  }

  function BusiestMonth(rows: seq<Incident>): Stat<int>
  {
    MostCommon(Column(rows, (r: Incident) => r.month), IntLess)
  }

  /** "Most Common Crime" is an offense of maximal frequency among the
      filtered rows, the least such in string order. */
  lemma MostCommonCrimeIsMode(rows: seq<Incident>)
    ensures MostCommonCrime(rows).Value? ==>
      var m, vals := MostCommonCrime(rows).value, Present(Column(rows, (r: Incident) => r.offense));
      && m in vals
      && forall x :: x in vals ==>
           && Count(vals, x) <= Count(vals, m)
           && (Count(vals, x) == Count(vals, m) ==> x == m || StrLess(m, x))
  {
    var vals := Present(Column(rows, (r: Incident) => r.offense));
    StrLessIsStrictTotal(Elems(vals));
    ModeIsLeastMostFrequent(vals, StrLess);
  }

  /** "Busiest Month" is a month of maximal frequency, the smallest such. */
  lemma BusiestMonthIsMode(rows: seq<Incident>)
    ensures BusiestMonth(rows).Value? ==>
      var m, vals := BusiestMonth(rows).value, Present(Column(rows, (r: Incident) => r.month));
      && m in vals
      && forall x :: x in vals ==> Count(vals, x) <= Count(vals, m) && (Count(vals, x) == Count(vals, m) ==> m <= x)
  {
    var vals := Present(Column(rows, (r: Incident) => r.month));
    IntLessIsStrictTotal(Elems(vals));
    ModeIsLeastMostFrequent(vals, IntLess);
  }

  // ---------------------------------------------------------------------
  // Lat/Long drop (lines 148-149)
  // ---------------------------------------------------------------------

  predicate Located(r: Incident)
  {
    r.lat.Some? && r.long.Some?
  }

  /** The table the sections after the heatmap see: when it is non-empty and
      the data has Lat and Long columns, only rows with both present. */
  function AfterLocationDrop(filtered: seq<Incident>, hasLocationColumns: bool): seq<Incident>
  {
    if |filtered| > 0 && hasLocationColumns then Filter(filtered, Located) else filtered
  }

  lemma LocationDropSpec(filtered: seq<Incident>, hasLocationColumns: bool)
    ensures |filtered| > 0 && hasLocationColumns ==>
      forall r :: r in AfterLocationDrop(filtered, hasLocationColumns) ==> Located(r)
    ensures var after := AfterLocationDrop(filtered, hasLocationColumns);
      forall r :: r in after ==> r in filtered
    ensures !hasLocationColumns ==> AfterLocationDrop(filtered, hasLocationColumns) == filtered
    ensures |filtered| > 0 && hasLocationColumns && (forall r :: r in filtered ==> Located(r)) ==>
      AfterLocationDrop(filtered, hasLocationColumns) == filtered
  {
    if |filtered| > 0 && hasLocationColumns && (forall r :: r in filtered ==> Located(r)) {
      FilterKeepsAll(filtered, Located);
    }
  }

  /** With the columns present on a non-empty table, the drop keeps, in
      order, exactly the rows that have both Lat and Long. */
  lemma LocationDropSelects(filtered: seq<Incident>, hasLocationColumns: bool)
    ensures |filtered| > 0 && hasLocationColumns ==>
      var after, idx := AfterLocationDrop(filtered, hasLocationColumns), KeptFrom(filtered, Located, 0);
      && |after| == |idx|
      && (forall k :: 0 <= k < |idx| ==> idx[k] < |filtered| && after[k] == filtered[idx[k]])
      && (forall k, l :: 0 <= k < l < |idx| ==> idx[k] < idx[l])
      && (forall j :: 0 <= j < |filtered| ==> (Located(filtered[j]) <==> j in idx))
    ensures |filtered| > 0 && hasLocationColumns ==>
      forall r :: r in filtered && Located(r) ==> r in AfterLocationDrop(filtered, hasLocationColumns)
  {
    if |filtered| > 0 && hasLocationColumns {
      FilterSelects(filtered, Located);
      LocatedRowsSurvive(filtered);
    }
  }

  /** Every row with both Lat and Long is kept by the drop. */
  lemma LocatedRowsSurvive(filtered: seq<Incident>)
    ensures forall r :: r in filtered && Located(r) ==> r in Filter(filtered, Located)
  {
    var idx := KeptFrom(filtered, Located, 0);
    FilterSelects(filtered, Located);
    forall r | r in filtered && Located(r) ensures r in Filter(filtered, Located) {
      var j :| 0 <= j < |filtered| && filtered[j] == r;
      var k :| 0 <= k < |idx| && idx[k] == j;
      assert Filter(filtered, Located)[k] == r;
    }
  }

  // ---------------------------------------------------------------------
  // Trend counts (lines 179-181)
  // ---------------------------------------------------------------------

  datatype TrendPoint = TrendPoint(year: int, month: int, count: nat)

  /** The (YEAR, MONTH) group key of a row; groupby drops missing keys. */
  function YearMonth(r: Incident): Option<(int, int)>
  {
    if r.year.Some? && r.month.Some? then Some((r.year.value, r.month.value)) else None
  }

  predicate PairLess(a: (int, int), b: (int, int))
  {
    a.0 < b.0 || (a.0 == b.0 && a.1 < b.1)
  }

  function GroupKeys(rows: seq<Incident>): seq<(int, int)>
  {
    Present(Column(rows, YearMonth))
  }

  /** The groups of `groupby(["YEAR", "MONTH"])`, in key order. */
  function Groups(rows: seq<Incident>): seq<(int, int)>
  {
    SortedSet(GroupKeys(rows), PairLess)
  }

  function Points(keys: seq<(int, int)>, groups: seq<(int, int)>): (points: seq<TrendPoint>)
    ensures |points| == |groups|
    ensures forall i :: 0 <= i < |groups| ==>
              points[i] == TrendPoint(groups[i].0, groups[i].1, Count(keys, groups[i]))
  {
    if groups == [] then []
    else [TrendPoint(groups[0].0, groups[0].1, Count(keys, groups[0]))] + Points(keys, groups[1..])
  }

  /** `groupby(["YEAR", "MONTH"]).size()`. */
  function Trend(rows: seq<Incident>): seq<TrendPoint>
  {
    Points(GroupKeys(rows), Groups(rows))
  }

  function TotalCount(points: seq<TrendPoint>): nat
  {
    if points == [] then 0 else points[0].count + TotalCount(points[1..])
  }

  lemma {:induction false} TotalCountOfPoints(keys: seq<(int, int)>, groups: seq<(int, int)>)
    ensures TotalCount(Points(keys, groups)) == CountAll(keys, groups)
  {
    if groups != [] {
      TotalCountOfPoints(keys, groups[1..]);
      assert Points(keys, groups)[1..] == Points(keys, groups[1..]);
    }
  }

  /** One point per (year, month) present, in increasing key order, counting
      the rows with that pair; the counts add up to the number of rows with
      both YEAR and MONTH present. */
  lemma TrendSpec(rows: seq<Incident>)
    ensures var t, g := Trend(rows), Groups(rows);
      && |t| == |g|
      && StrictlySorted(g, PairLess)
      && (forall p :: p in g <==> Some(p) in Column(rows, YearMonth))
      && (forall i :: 0 <= i < |t| ==>
            && (t[i].year, t[i].month) == g[i]
            && t[i].count == |Filter(rows, (r: Incident) => YearMonth(r) == Some(g[i]))|
            && t[i].count > 0)
      && TotalCount(t) == |GroupKeys(rows)|
  {
    var keys, g := GroupKeys(rows), Groups(rows);
    SortedSetSorted(keys, PairLess);
    forall p ensures p in g <==> Some(p) in Column(rows, YearMonth) {
      var c := Column(rows, YearMonth);
      if Some(p) in c {
        var i :| 0 <= i < |c| && c[i] == Some(p);
        assert c[i].value in keys;
      }
    }
    forall i | 0 <= i < |g| ensures Count(keys, g[i]) == |Filter(rows, (r: Incident) => YearMonth(r) == Some(g[i]))| {
      CountPresentColumnMask(rows, YearMonth, g[i], (r: Incident) => YearMonth(r) == Some(g[i]));
    }
    TotalCountOfPoints(keys, g);
    CountAllCovers(keys, g);
  }

  /** Without missing YEAR or MONTH the trend counts add up to the number of
      rows. */
  lemma TrendCountsAllRows(rows: seq<Incident>)
    requires forall r :: r in rows ==> r.year.Some? && r.month.Some?
    ensures TotalCount(Trend(rows)) == |rows|
  {
    TrendSpec(rows);
    FilterKeepsAll(Column(rows, YearMonth), (c: Option<(int, int)>) => c.Some?);
    PresentOfFullColumn(Column(rows, YearMonth));
  }

  lemma {:induction false} PresentOfFullColumn<T>(c: seq<Option<T>>)
    requires forall i :: 0 <= i < |c| ==> c[i].Some?
    ensures |Present(c)| == |c|
  {
    if c != [] {
      PresentOfFullColumn(c[1..]);
    }
  }

  // ---------------------------------------------------------------------
  // Day-by-hour crosstab and its peak (lines 193-210)
  // ---------------------------------------------------------------------

  /** The reindexed crosstab: the hour columns in order and one row per
      weekday of DAY_ORDER; `None` is a row of NaN for a weekday absent from
      the data. */
  datatype Grid = Grid(hours: seq<int>, cells: seq<Option<seq<nat>>>)

  function DayHour(r: Incident): Option<(string, int)>
  {
    if r.day.Some? && r.hour.Some? then Some((r.day.value, r.hour.value)) else None
  }

  /** The (day, hour) pairs crosstab counts; rows missing either are dropped. */
  function Pairs(rows: seq<Incident>): seq<(string, int)>
  {
    Present(Column(rows, DayHour))
  }

  function HoursOf(pairs: seq<(string, int)>): (hs: seq<int>)
    ensures |hs| == |pairs| && forall k :: 0 <= k < |pairs| ==> hs[k] == pairs[k].1
  {
    seq(|pairs|, k requires 0 <= k < |pairs| => pairs[k].1)
  }

  function DaysOf(pairs: seq<(string, int)>): (ds: seq<string>)
    ensures |ds| == |pairs| && forall k :: 0 <= k < |pairs| ==> ds[k] == pairs[k].0
  {
    seq(|pairs|, k requires 0 <= k < |pairs| => pairs[k].0)
  }

  /** The crosstab row of one weekday after reindexing. */
  function DayRow(pairs: seq<(string, int)>, hours: seq<int>, day: string): (row: Option<seq<nat>>)
    ensures row.None? <==> day !in DaysOf(pairs)
    ensures row.Some? ==> |row.value| == |hours| && forall j :: 0 <= j < |hours| ==> row.value[j] == Count(pairs, (day, hours[j]))
  {
    if day in DaysOf(pairs)
    then Some(seq(|hours|, j requires 0 <= j < |hours| => Count(pairs, (day, hours[j]))))
    else None
  }

  /** `pd.crosstab(DAY_OF_WEEK, HOUR).reindex(DAY_ORDER)`. */
  function Crosstab(rows: seq<Incident>): (g: Grid)
    ensures |g.cells| == |DAY_ORDER|
    ensures forall i :: 0 <= i < |g.cells| && g.cells[i].Some? ==> |g.cells[i].value| == |g.hours|
  {
    var pairs := Pairs(rows);
    var hours := SortedSet(HoursOf(pairs), IntLess);
    Grid(hours, seq(|DAY_ORDER|, i requires 0 <= i < |DAY_ORDER| => DayRow(pairs, hours, DAY_ORDER[i])))
  }

  /** The hour columns are the hours that occur with a day, in increasing
      order, each once. */
  lemma CrosstabHours(rows: seq<Incident>)
    ensures var g := Crosstab(rows);
      && StrictlySorted(g.hours, IntLess)
      && (forall h :: h in g.hours <==> exists k :: 0 <= k < |Pairs(rows)| && Pairs(rows)[k].1 == h)
  {
    var pairs := Pairs(rows);
    IntLessIsStrictTotal(Elems(HoursOf(pairs)));
    SortedSetSorted(HoursOf(pairs), IntLess);
    forall h ensures h in Crosstab(rows).hours <==> exists k :: 0 <= k < |pairs| && pairs[k].1 == h {
      if exists k :: 0 <= k < |pairs| && pairs[k].1 == h {
        var k :| 0 <= k < |pairs| && pairs[k].1 == h;
        assert HoursOf(pairs)[k] == h;
      }
    }
  }

  /** Each crosstab cell counts the rows with that weekday and hour. */
  lemma CrosstabCounts(rows: seq<Incident>)
    ensures var g := Crosstab(rows);
      forall i, j :: 0 <= i < |DAY_ORDER| && 0 <= j < |g.hours| && g.cells[i].Some? ==>
        g.cells[i].value[j] == SlotCount(rows, DAY_ORDER[i], g.hours[j])
  {
    var g, pairs := Crosstab(rows), Pairs(rows);
    forall i, j | 0 <= i < |DAY_ORDER| && 0 <= j < |g.hours| && g.cells[i].Some?
      ensures g.cells[i].value[j] == SlotCount(rows, DAY_ORDER[i], g.hours[j])
    {
      assert g.cells[i] == DayRow(pairs, g.hours, DAY_ORDER[i]);
      CountPresentColumnMask(rows, DayHour, (DAY_ORDER[i], g.hours[j]),
                             (r: Incident) => DayHour(r) == Some((DAY_ORDER[i], g.hours[j])));
    }
  }

  /** Where the peak message comes from: the first cell in row-major order
      holding the maximum, or the two ways the source's expression fails. */
  datatype Peak =
    | Peak(row: nat, col: nat, day: string, hour: int, count: nat)
    | ZeroSizeMax     // `values.max()` on a crosstab without hour columns
    | NoMatchingCell  // a NaN row makes the maximum NaN and `[0]` finds nothing

  function RowMax(row: seq<nat>): (m: nat)
    requires row != []
    ensures forall j :: 0 <= j < |row| ==> row[j] <= m
    ensures m in row
  {
    if |row| == 1 then row[0]
    else
      var rest := RowMax(row[1..]);
      if row[0] >= rest then row[0] else rest
  }

  /** The largest entry of a matrix whose empty rows stand for NaN rows. */
  function GridMax(rows: seq<seq<nat>>): (m: nat)
    ensures forall i, j :: 0 <= i < |rows| && 0 <= j < |rows[i]| ==> rows[i][j] <= m
    ensures (exists i :: 0 <= i < |rows| && rows[i] != []) ==> exists i :: 0 <= i < |rows| && m in rows[i]
    ensures (forall i :: 0 <= i < |rows| ==> rows[i] == []) ==> m == 0
  {
    if rows == [] then 0
    else
      var rest := GridMax(rows[1..]);
      if rows[0] == [] then
        assert forall i :: 1 <= i < |rows| ==> rows[i] == rows[1..][i - 1];
        rest
      else
        var here := RowMax(rows[0]);
        if here >= rest then here
        else
          assert exists i :: 0 <= i < |rows[1..]| && rows[1..][i] != [];
          var i :| 0 <= i < |rows[1..]| && rest in rows[1..][i];
          assert rest in rows[i + 1];
          rest
  }

  /** The first row that holds `m`. */
  function FirstRowWith(rows: seq<seq<nat>>, m: nat): (i: nat)
    ensures i <= |rows|
    ensures i < |rows| ==> m in rows[i]
    ensures forall k :: 0 <= k < i ==> m !in rows[k]
    ensures (exists k :: 0 <= k < |rows| && m in rows[k]) ==> i < |rows|
  {
    if rows == [] then 0 else if m in rows[0] then 0 else 1 + FirstRowWith(rows[1..], m)
  }

  /** The crosstab's counts with each NaN row left empty. */
  function Masked(g: Grid): (m: seq<seq<nat>>)
    ensures |m| == |g.cells|
    ensures forall i :: 0 <= i < |g.cells| ==> m[i] == if g.cells[i].Some? then g.cells[i].value else []
  {
    seq(|g.cells|, i requires 0 <= i < |g.cells| => if g.cells[i].Some? then g.cells[i].value else [])
  }

  /** Some cell of the crosstab holds a count. */
  predicate HasCount(g: Grid)
  {
    |g.hours| > 0 && exists i :: 0 <= i < |g.cells| && g.cells[i].Some?
  }

  lemma MaskedHasCount(g: Grid)
    requires forall i :: 0 <= i < |g.cells| && g.cells[i].Some? ==> |g.cells[i].value| == |g.hours|
    ensures HasCount(g) <==> exists i :: 0 <= i < |Masked(g)| && Masked(g)[i] != []
  {
    var m := Masked(g);
    if HasCount(g) {
      var k :| 0 <= k < |g.cells| && g.cells[k].Some?;
      assert m[k] != [];
    }
  }

  /** The first maximum of a matrix in row-major order. */
  lemma FirstMaximum(m: seq<seq<nat>>)
    requires exists i :: 0 <= i < |m| && m[i] != []
    ensures var top := GridMax(m); var i := FirstRowWith(m, top); var j := FirstIndex(m[i], top);
      && i < |m| && j < |m[i]| && m[i][j] == top
      && (forall a, b :: 0 <= a < |m| && 0 <= b < |m[a]| ==> m[a][b] <= top)
      && (forall a, b :: 0 <= a < |m| && 0 <= b < |m[a]| && (a < i || (a == i && b < j)) ==> m[a][b] < top)
  {
    var top := GridMax(m);
    var i := FirstRowWith(m, top);
    var j := FirstIndex(m[i], top);
    forall a, b | 0 <= a < |m| && 0 <= b < |m[a]| && (a < i || (a == i && b < j)) ensures m[a][b] < top {
      if a < i {
        assert m[a][b] in m[a];
      }
    }
  }

  /** The peak among the cells that hold a count: the maximum ignoring NaN
      and its first occurrence in row-major order; `None` when no cell
      holds a count. */
  function FirstPeak(g: Grid): Option<Peak>
    requires |g.cells| == |DAY_ORDER|
    requires forall i :: 0 <= i < |g.cells| && g.cells[i].Some? ==> |g.cells[i].value| == |g.hours|
  {
    var m := Masked(g);
    if forall i :: 0 <= i < |m| ==> m[i] == [] then None
    else
      var top := GridMax(m);
      var i := FirstRowWith(m, top);
      var j := FirstIndex(m[i], top);
      Some(Peak(i, j, DAY_ORDER[i], g.hours[j], top))
  }

  /** Lines 207-210 on a reindexed crosstab: `max()` of a matrix without
      columns fails, a NaN row makes the maximum NaN so that the lookup of
      its first occurrence fails, and otherwise the first maximum. */
  function PeakOf(g: Grid): Peak
    requires |g.cells| == |DAY_ORDER|
    requires forall i :: 0 <= i < |g.cells| && g.cells[i].Some? ==> |g.cells[i].value| == |g.hours|
  {
    if |g.hours| == 0 then ZeroSizeMax
    else if exists i :: 0 <= i < |g.cells| && g.cells[i].None? then NoMatchingCell
    else
      assert Masked(g)[0] != [];
      FirstPeak(g).value
  }

  /** `p` is a present cell of maximal count, and every present cell before
      it in row-major order holds less. */
  predicate IsFirstMaximum(g: Grid, p: Peak)
    requires |g.cells| == |DAY_ORDER|
  {
    && p.Peak? && p.row < |DAY_ORDER| && p.col < |g.hours| && p.day == DAY_ORDER[p.row] && p.hour == g.hours[p.col]
    && g.cells[p.row].Some? && |g.cells[p.row].value| == |g.hours| && g.cells[p.row].value[p.col] == p.count
    && (forall a, b :: 0 <= a < |DAY_ORDER| && 0 <= b < |g.hours| && g.cells[a].Some? && b < |g.cells[a].value| ==>
          g.cells[a].value[b] <= p.count)
    && (forall a, b :: 0 <= a < p.row && 0 <= b < |g.hours| && g.cells[a].Some? && b < |g.cells[a].value| ==>
          g.cells[a].value[b] < p.count)
    && (forall b :: 0 <= b < p.col ==> g.cells[p.row].value[b] < p.count)
  }

  /** The peak among present cells exists exactly when some cell holds a
      count, and it is the first maximum. */
  lemma FirstPeakIsFirstMaximum(g: Grid)
    requires |g.cells| == |DAY_ORDER|
    requires forall i :: 0 <= i < |g.cells| && g.cells[i].Some? ==> |g.cells[i].value| == |g.hours|
    ensures FirstPeak(g).Some? <==> HasCount(g)
    ensures FirstPeak(g).Some? ==> IsFirstMaximum(g, FirstPeak(g).value)
  {
    MaskedHasCount(g);
    if HasCount(g) {
      var m := Masked(g);
      FirstMaximum(m);
      var top := GridMax(m);
      var i := FirstRowWith(m, top);
      var j := FirstIndex(m[i], top);
      assert FirstPeak(g) == Some(Peak(i, j, DAY_ORDER[i], g.hours[j], top));
      MaskedFirstMaximum(g, i, j, top);
    }
  }

  /** The first maximum of the masked counts, read back on the crosstab. */
  lemma MaskedFirstMaximum(g: Grid, i: nat, j: nat, top: nat)
    requires |g.cells| == |DAY_ORDER|
    requires forall a :: 0 <= a < |g.cells| && g.cells[a].Some? ==> |g.cells[a].value| == |g.hours|
    requires i < |Masked(g)| && j < |Masked(g)[i]| && Masked(g)[i][j] == top
    requires forall a, b :: 0 <= a < |Masked(g)| && 0 <= b < |Masked(g)[a]| ==> Masked(g)[a][b] <= top
    requires forall a, b :: 0 <= a < |Masked(g)| && 0 <= b < |Masked(g)[a]| && (a < i || (a == i && b < j)) ==>
      Masked(g)[a][b] < top
    ensures j < |g.hours| && IsFirstMaximum(g, Peak(i, j, DAY_ORDER[i], g.hours[j], top))
  {
    var m := Masked(g);
    assert g.cells[i].Some? && m[i] == g.cells[i].value;
    forall a, b | 0 <= a < |DAY_ORDER| && 0 <= b < |g.hours| && g.cells[a].Some? && b < |g.cells[a].value|
      ensures g.cells[a].value[b] <= top
    {
      assert m[a] == g.cells[a].value;
    }
    forall a, b | 0 <= a < i && 0 <= b < |g.hours| && g.cells[a].Some? && b < |g.cells[a].value|
      ensures g.cells[a].value[b] < top
    {
      assert m[a] == g.cells[a].value;
    }
  }

  /** The source's peak is the NaN-ignoring peak whenever it does not fail,
      and it fails only on a crosstab without columns or with a NaN row. */
  lemma PeakOfAgreesWhenComplete(g: Grid)
    requires |g.cells| == |DAY_ORDER|
    requires forall i :: 0 <= i < |g.cells| && g.cells[i].Some? ==> |g.cells[i].value| == |g.hours|
    ensures PeakOf(g).ZeroSizeMax? <==> |g.hours| == 0
    ensures PeakOf(g).NoMatchingCell? <==> |g.hours| > 0 && exists i :: 0 <= i < |g.cells| && g.cells[i].None?
    ensures PeakOf(g).Peak? ==> FirstPeak(g) == Some(PeakOf(g))
  {
    if |g.hours| > 0 && forall i :: 0 <= i < |g.cells| ==> g.cells[i].Some? {
      assert Masked(g)[0] != [];
      assert FirstPeak(g).Some?;
    }
  }

  /** The two failures of the peak expression on the dashboard's crosstab:
      the maximum fails on a table without day-and-hour rows, and the lookup
      fails exactly when such rows exist but some weekday has none. */
  lemma PeakFailures(rows: seq<Incident>)
    ensures PeakOf(Crosstab(rows)).ZeroSizeMax? <==> Pairs(rows) == []
    ensures PeakOf(Crosstab(rows)).NoMatchingCell? <==>
      Pairs(rows) != [] && exists i :: 0 <= i < |DAY_ORDER| && DAY_ORDER[i] !in DaysOf(Pairs(rows))
  {
    var g, pairs := Crosstab(rows), Pairs(rows);
    CrosstabHours(rows);
    PeakOfAgreesWhenComplete(g);
    if pairs != [] {
      assert pairs[0].1 in g.hours;
    }
    CrosstabRows(rows);
  }

  /** A weekday row of the crosstab is NaN exactly when that weekday does not
      occur among the (day, hour) pairs. */
  lemma CrosstabRows(rows: seq<Incident>)
    ensures forall i :: 0 <= i < |DAY_ORDER| ==> (Crosstab(rows).cells[i].None? <==> DAY_ORDER[i] !in DaysOf(Pairs(rows)))
  {
    var g, pairs := Crosstab(rows), Pairs(rows);
    forall i | 0 <= i < |DAY_ORDER| ensures g.cells[i].None? <==> DAY_ORDER[i] !in DaysOf(pairs) {
      assert g.cells[i] == DayRow(pairs, g.hours, DAY_ORDER[i]);
    }
  }

  /** The number of rows with weekday `day` and hour `hour`. */
  function SlotCount(rows: seq<Incident>, day: string, hour: int): nat
  {
    |Filter(rows, (r: Incident) => DayHour(r) == Some((day, hour)))|
  }

  /** A weekday absent from the pairs has no row at any hour. */
  lemma SlotCountOfMissingDay(rows: seq<Incident>, day: string, hour: int)
    requires day !in DaysOf(Pairs(rows))
    ensures SlotCount(rows, day, hour) == 0
  {
    var pairs := Pairs(rows);
    CountPresentColumnMask(rows, DayHour, (day, hour), (r: Incident) => DayHour(r) == Some((day, hour)));
    assert (day, hour) !in pairs;
  }

  /** The row of a weekday that occurs holds a positive count. */
  lemma PresentRowHasCount(rows: seq<Incident>, i: nat)
    requires i < |DAY_ORDER| && DAY_ORDER[i] in DaysOf(Pairs(rows))
    ensures var g := Crosstab(rows);
      g.cells[i].Some? && exists j :: 0 <= j < |g.hours| && g.cells[i].value[j] > 0
  {
    var g, pairs := Crosstab(rows), Pairs(rows);
    CrosstabHours(rows);
    assert g.cells[i] == DayRow(pairs, g.hours, DAY_ORDER[i]);
    var k :| 0 <= k < |pairs| && DaysOf(pairs)[k] == DAY_ORDER[i];
    assert pairs[k].1 in g.hours;
    var j :| 0 <= j < |g.hours| && g.hours[j] == pairs[k].1;
    assert pairs[k] == (DAY_ORDER[i], g.hours[j]);
    assert g.cells[i].value[j] == Count(pairs, pairs[k]) > 0;
  }

  /** The NaN-ignoring peak exists whenever some row has a DAY_ORDER weekday
      and an hour. */
  lemma PeakExists(rows: seq<Incident>)
    ensures FirstPeak(Crosstab(rows)).Some? <==> exists i :: 0 <= i < |DAY_ORDER| && DAY_ORDER[i] in DaysOf(Pairs(rows))
  {
    var g, pairs := Crosstab(rows), Pairs(rows);
    FirstPeakIsFirstMaximum(g);
    CrosstabRows(rows);
    if exists i :: 0 <= i < |DAY_ORDER| && DAY_ORDER[i] in DaysOf(pairs) {
      var i :| 0 <= i < |DAY_ORDER| && DAY_ORDER[i] in DaysOf(pairs);
      PresentRowHasCount(rows, i);
    }
  }

  /** The count a crosstab shows at a weekday and hour position, 0 for a
      NaN row. */
  function CellCount(g: Grid, a: nat, b: nat): nat
    requires a < |g.cells|
  {
    if g.cells[a].Some? && b < |g.cells[a].value| then g.cells[a].value[b] else 0
  }

  /** Every crosstab position counts the rows with that weekday and hour. */
  lemma CrosstabCellCounts(rows: seq<Incident>)
    ensures var g := Crosstab(rows);
      forall a, b :: 0 <= a < |DAY_ORDER| && 0 <= b < |g.hours| ==> CellCount(g, a, b) == SlotCount(rows, DAY_ORDER[a], g.hours[b])
  {
    var g := Crosstab(rows);
    CrosstabCounts(rows);
    CrosstabRows(rows);
    forall a, b | 0 <= a < |DAY_ORDER| && 0 <= b < |g.hours| && g.cells[a].None?
      ensures SlotCount(rows, DAY_ORDER[a], g.hours[b]) == 0
    {
      SlotCountOfMissingDay(rows, DAY_ORDER[a], g.hours[b]);
    }
  }

  /** A positive first maximum among present cells is also the first
      maximum when NaN rows count as 0. */
  lemma FirstMaximumOfCells(g: Grid, p: Peak)
    requires |g.cells| == |DAY_ORDER|
    requires forall i :: 0 <= i < |g.cells| && g.cells[i].Some? ==> |g.cells[i].value| == |g.hours|
    requires IsFirstMaximum(g, p) && p.count > 0
    ensures p.count == CellCount(g, p.row, p.col)
    ensures forall a, b :: 0 <= a < |DAY_ORDER| && 0 <= b < |g.hours| ==> CellCount(g, a, b) <= p.count
    ensures forall a, b :: 0 <= a < p.row && 0 <= b < |g.hours| ==> CellCount(g, a, b) < p.count
    ensures forall b :: 0 <= b < p.col ==> CellCount(g, p.row, b) < p.count
  {
  }

  /** The weekday of a present cell occurs among the pairs. */
  lemma PeakRowOccurs(rows: seq<Incident>, p: Peak)
    requires p.Peak? && p.row < |DAY_ORDER| && Crosstab(rows).cells[p.row].Some?
    ensures DAY_ORDER[p.row] in DaysOf(Pairs(rows))
  {
    CrosstabRows(rows);
  }

  /** `p` names the weekday and hour of DAY_ORDER and `hours` with the most
      rows, the first in weekday-then-hour order among ties. */
  predicate IsBusiestSlot(rows: seq<Incident>, hours: seq<int>, p: Peak)
  {
    && p.Peak? && p.row < |DAY_ORDER| && p.col < |hours| && p.day == DAY_ORDER[p.row] && p.hour == hours[p.col]
    && p.count == SlotCount(rows, p.day, p.hour) && p.count > 0
    && (forall a, b :: 0 <= a < |DAY_ORDER| && 0 <= b < |hours| ==> SlotCount(rows, DAY_ORDER[a], hours[b]) <= p.count)
    && (forall a, b :: 0 <= a < p.row && 0 <= b < |hours| ==> SlotCount(rows, DAY_ORDER[a], hours[b]) < p.count)
    && (forall b :: 0 <= b < p.col ==> SlotCount(rows, p.day, hours[b]) < p.count)
  }

  /** A positive first maximum of a grid whose positions count the rows
      of each slot is the busiest slot. */
  lemma FirstMaximumIsBusiestSlot(rows: seq<Incident>, g: Grid, p: Peak)
    requires |g.cells| == |DAY_ORDER|
    requires forall i :: 0 <= i < |g.cells| && g.cells[i].Some? ==> |g.cells[i].value| == |g.hours|
    requires forall a, b :: 0 <= a < |DAY_ORDER| && 0 <= b < |g.hours| ==> CellCount(g, a, b) == SlotCount(rows, DAY_ORDER[a], g.hours[b])
    requires IsFirstMaximum(g, p) && p.count > 0
    ensures IsBusiestSlot(rows, g.hours, p)
  {
    FirstMaximumOfCells(g, p);
    assert p.count == SlotCount(rows, p.day, p.hour);
    forall a, b | 0 <= a < |DAY_ORDER| && 0 <= b < |g.hours| ensures SlotCount(rows, DAY_ORDER[a], g.hours[b]) <= p.count {
      assert CellCount(g, a, b) <= p.count;
    }
    forall a, b | 0 <= a < p.row && 0 <= b < |g.hours| ensures SlotCount(rows, DAY_ORDER[a], g.hours[b]) < p.count {
      assert CellCount(g, a, b) < p.count;
    }
    forall b | 0 <= b < p.col ensures SlotCount(rows, p.day, g.hours[b]) < p.count {
      assert CellCount(g, p.row, b) < p.count;
    }
  }

  /** The NaN-ignoring peak of the dashboard's crosstab is its busiest slot. */
  lemma PeakIsBusiestSlot(rows: seq<Incident>)
    ensures FirstPeak(Crosstab(rows)).Some? ==> IsBusiestSlot(rows, Crosstab(rows).hours, FirstPeak(Crosstab(rows)).value)
  {
    var g := Crosstab(rows);
    FirstPeakIsFirstMaximum(g);
    if FirstPeak(g).Some? {
      var p := FirstPeak(g).value;
      PeakRowOccurs(rows, p);
      PresentRowHasCount(rows, p.row);
      CrosstabCellCounts(rows);
      FirstMaximumIsBusiestSlot(rows, g, p);
    }
  }

  /** An incident in district B2 on a Monday at midnight, with an offense
      group and a date, but without a location. */
  const OneMondayIncident := Incident(Some("B2"), Some("Monday"), Some(0), Some("Larceny"), Some(2017), Some(6), None, None)

  /** A table whose only incident falls on a Monday at midnight: the
      dashboard's peak expression fails, although the busiest slot is well
      defined. */
  lemma PeakFailsOnOneWeekday()
    ensures var rows := [OneMondayIncident];
      && PeakOf(Crosstab(rows)).NoMatchingCell?
      && FirstPeak(Crosstab(rows)) == Some(Peak(0, 0, "Monday", 0, 1))
  {
    var rows := [OneMondayIncident];
    var pairs := Pairs(rows);
    assert Column(rows, DayHour) == [Some(("Monday", 0))];
    assert pairs == [("Monday", 0)];
    assert DaysOf(pairs) == ["Monday"];
    assert DAY_ORDER[1] !in DaysOf(pairs);
    PeakFailures(rows);
    var g := Crosstab(rows);
    CrosstabHours(rows);
    assert 0 in g.hours;
    assert forall h :: h in g.hours ==> h == 0;
    assert |g.hours| > 0;
    var last := |g.hours| - 1;
    assert g.hours[0] in g.hours && g.hours[last] in g.hours;
    assert !IntLess(g.hours[0], g.hours[last]);
    assert |g.hours| == 1;
    assert g.hours == [0];
    assert Count(pairs, ("Monday", 0)) == 1;
    assert g.cells[0] == DayRow(pairs, g.hours, DAY_ORDER[0]);
    assert DAY_ORDER[0] == "Monday" && "Monday" in DaysOf(pairs);
    assert g.cells[0].Some? && |g.cells[0].value| == 1 && g.cells[0].value[0] == 1;
    var v := g.cells[0].value;
    assert v == [1];
    FirstPeakIsFirstMaximum(g);
    CrosstabRows(rows);
    var p := FirstPeak(g).value;
    assert p.row == 0;
  }

  // ---------------------------------------------------------------------
  // Top offense counts (lines 218, 226)
  // ---------------------------------------------------------------------

  /** The order `value_counts()` lists values in: by decreasing count, ties
      by first appearance. */
  function ByFrequency(vals: seq<string>): (string, string) -> bool
  {
    (a: string, b: string) =>
      Count(vals, a) > Count(vals, b) || (Count(vals, a) == Count(vals, b) && FirstIndex(vals, a) < FirstIndex(vals, b))
  }

  lemma ByFrequencyIsStrictTotal(vals: seq<string>)
    ensures StrictTotalOn(ByFrequency(vals), Elems(vals))
  {
    var before := ByFrequency(vals);
    forall x, y | x in Elems(vals) && y in Elems(vals) && x != y ensures before(x, y) || before(y, x) {
      assert FirstIndex(vals, x) != FirstIndex(vals, y);
    }
  }

  /** `value_counts()`: each present value with its count. */
  function ValueCounts(column: seq<Option<string>>): seq<(string, nat)>
  {
    var vals := Present(column);
    var order := SortedSet(vals, ByFrequency(vals));
    seq(|order|, i requires 0 <= i < |order| => (order[i], Count(vals, order[i])))
  }

  /** `value_counts().head(n)` — and `nlargest(n)`, which on counts already
      in decreasing order keeps the same first `n`. */
  function TopOffenses(rows: seq<Incident>, n: nat): seq<(string, nat)>
  {
    Take(ValueCounts(Column(rows, (r: Incident) => r.offense)), n)
  }

  /** At most `n` distinct offenses, each with its true count, in
      non-increasing count order; any offense left out is no more frequent
      than every listed one, and none is left out when fewer than `n` are
      listed. */
  lemma TopOffensesSpec(rows: seq<Incident>, n: nat)
    ensures var top, vals := TopOffenses(rows, n), Present(Column(rows, (r: Incident) => r.offense));
      && |top| <= n
      && (forall k :: 0 <= k < |top| ==> top[k].1 == Count(vals, top[k].0) && top[k].1 > 0)
      && (forall k, l :: 0 <= k < l < |top| ==> top[k].1 >= top[l].1 && top[k].0 != top[l].0)
      && (forall v :: v in vals ==>
            (exists k :: 0 <= k < |top| && top[k].0 == v) ||
            (|top| == n && forall k :: 0 <= k < |top| ==> Count(vals, v) <= top[k].1))
  {
    var vals := Present(Column(rows, (r: Incident) => r.offense));
    var before := ByFrequency(vals);
    var order := SortedSet(vals, before);
    ByFrequencyIsStrictTotal(vals);
    SortedSetSorted(vals, before);
    var top := TopOffenses(rows, n);
    forall k, l | 0 <= k < l < |top| ensures top[k].1 >= top[l].1 && top[k].0 != top[l].0 {
      assert before(order[k], order[l]);
    }
    forall v | v in vals ensures
      (exists k :: 0 <= k < |top| && top[k].0 == v) ||
      (|top| == n && forall k :: 0 <= k < |top| ==> Count(vals, v) <= top[k].1)
    {
      var p :| 0 <= p < |order| && order[p] == v;
      if p < |top| {
        assert top[p].0 == v;
      } else {
        forall k | 0 <= k < |top| ensures Count(vals, v) <= top[k].1 {
          assert before(order[k], order[p]);
        }
      }
    }
  }

  // ---------------------------------------------------------------------
  // The whole data pipeline of the page
  // ---------------------------------------------------------------------

  /** How far the script got with a section. An exception ends a Streamlit
      script, so every section after a failing line is never reached. */
  datatype Section<T> = Shown(value: T) | NoRows | NotReached

  /** Everything the page computes from the data, before rendering. A section
      is `NotReached` once an earlier line has raised; a section after the
      metrics is `NoRows` on an empty table (its info message). `formShown`
      says whether the script gets as far as the prediction form. */
  datatype Report = Report(
    total: nat,
    mostCommonCrime: Stat<string>,
    busiestMonth: Section<Stat<int>>,
    trend: Section<seq<TrendPoint>>,
    peak: Section<Peak>,
    topTen: Section<seq<(string, nat)>>,
    topFive: Section<seq<(string, nat)>>,
    formShown: bool)

  /** Lines 111-247: filter, compute the metrics, drop the unlocated rows
      (re-binding the table every later section reads), then the trend, the
      crosstab peak and the top offense lists. The script stops at the first
      line that raises: `mode()[0]` on an all-missing column (lines 129,
      132) or the peak expression (lines 207-208). */
  method BuildReport(data: seq<Incident>, sel: Selection, hasLocationColumns: bool) returns (report: Report)
    ensures var view := Filter(data, (r: Incident) => Passes(sel, r));
      && report.total == |view|
      && report.mostCommonCrime == MostCommonCrime(view)
      && report.busiestMonth == (if MostCommonCrime(view).ModeKeyError? then NotReached else Shown(BusiestMonth(view)))
    ensures var view := Filter(data, (r: Incident) => Passes(sel, r));
      var shown := AfterLocationDrop(view, hasLocationColumns);
      var metricsDone := !MostCommonCrime(view).ModeKeyError? && !BusiestMonth(view).ModeKeyError?;
      && report.trend == (if !metricsDone then NotReached else if |shown| == 0 then NoRows else Shown(Trend(shown)))
      && report.peak == (if !metricsDone then NotReached else if |shown| == 0 then NoRows else Shown(PeakOf(Crosstab(shown))))
    ensures var view := Filter(data, (r: Incident) => Passes(sel, r));
      var shown := AfterLocationDrop(view, hasLocationColumns);
      var peakDone := !MostCommonCrime(view).ModeKeyError? && !BusiestMonth(view).ModeKeyError? &&
                      (|shown| == 0 || PeakOf(Crosstab(shown)).Peak?);
      && report.topTen == (if !peakDone then NotReached else if |shown| == 0 then NoRows else Shown(TopOffenses(shown, 10)))
      && report.topFive == (if !peakDone then NotReached else if |shown| == 0 then NoRows else Shown(TopOffenses(shown, 5)))
      && report.formShown == peakDone
  {
    var filtered := ApplyFilters(data, sel);
    var crime := MostCommonCrime(filtered);
    report := Report(|filtered|, crime, NotReached, NotReached, NotReached, NotReached, NotReached, false);
    if crime.ModeKeyError? {
      return;
    }
    var month := BusiestMonth(filtered);
    report := report.(busiestMonth := Shown(month));
    if month.ModeKeyError? {
      return;
    }
    if |filtered| > 0 && hasLocationColumns {
      filtered := Filter(filtered, Located);
    }
    if |filtered| == 0 {
      report := report.(trend := NoRows, peak := NoRows, topTen := NoRows, topFive := NoRows, formShown := true);
      return;
    }
    var peak := PeakOf(Crosstab(filtered));
    report := report.(trend := Shown(Trend(filtered)), peak := Shown(peak));
    if !peak.Peak? {
      return;
    }
    report := report.(topTen := Shown(TopOffenses(filtered, 10)), topFive := Shown(TopOffenses(filtered, 5)), formShown := true);
  }

  /** On the single Monday incident, with no selection and no location
      columns, both metrics are shown, the peak lookup raises, and neither the
      top offense lists nor the prediction form are reached. */
  method OneWeekdayPageStops() returns (report: Report)
    ensures report.mostCommonCrime == Value("Larceny")
    ensures report.busiestMonth == Shown(Value(6))
    ensures report.trend.Shown?
    ensures report.peak == Shown(NoMatchingCell)
    ensures report.topTen == NotReached && report.topFive == NotReached
    ensures !report.formShown
  {
    var rows := [OneMondayIncident];
    NoSelectionKeepsAll(rows);
    PeakFailsOnOneWeekday();
    MostCommonCrimeIsMode(rows);
    BusiestMonthIsMode(rows);
    assert Column(rows, (r: Incident) => r.offense) == [Some("Larceny")];
    assert Column(rows, (r: Incident) => r.month) == [Some(6)];
    report := BuildReport(rows, Selection([], [], [], []), false);
  }
}
