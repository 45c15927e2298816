/** The one-hot naming convention shared by training and inference:
    `pandas.get_dummies` with its default arguments names the indicator
    column of value `v` in column `f` as `f + "_" + v`, and leaves integer
    columns as they are. */
module Encoding {

  const DISTRICT: string := "DISTRICT"
  const DAY_OF_WEEK: string := "DAY_OF_WEEK"
  const HOUR: string := "HOUR"

  /** Name of the indicator column for `value` of the string column `field`. */
  function DummyName(field: string, value: string): string
  {
    field + "_" + value
  }

  lemma DummyNameParts(field: string, value: string)
    ensures IsDummyOf(DummyName(field, value), field)
    ensures DummyName(field, value)[|field| + 1..] == value
  {
  }

  /** `c` is one of the indicator columns of `field`. */
  predicate IsDummyOf(c: string, field: string)
  {
    |field| + 1 <= |c| && c[..|field| + 1] == field + "_"
  }

  /** The value an indicator column of `field` stands for. */
  function DummyValue(c: string, field: string): (v: string)
    requires IsDummyOf(c, field)
    ensures DummyName(field, v) == c
  {
    assert c == c[..|field| + 1] + c[|field| + 1..];
    assert c[..|field| + 1] == field + "_";
    c[|field| + 1..]
  }

  /** Distinct values of one field get distinct column names. */
  lemma DummyNameInjective(field: string, v: string, w: string)
    requires DummyName(field, v) == DummyName(field, w)
    ensures v == w
  {
    DummyNameParts(field, v);
    DummyNameParts(field, w);
  }

  /** The same, stated for two different values. */
  lemma DummyNamesDiffer(field: string, v: string, w: string)
    requires v != w
    ensures DummyName(field, v) != DummyName(field, w)
  {
    if DummyName(field, v) == DummyName(field, w) {
      DummyNameInjective(field, v, w);
    }
  }

  /** The columns of the three features never collide: an indicator column of
      DISTRICT is neither an indicator of DAY_OF_WEEK nor the HOUR column,
      and an indicator of DAY_OF_WEEK is not the HOUR column. */
  lemma FeatureColumnsDisjoint(c: string)
    ensures IsDummyOf(c, DISTRICT) ==> !IsDummyOf(c, DAY_OF_WEEK) && c != HOUR
    ensures IsDummyOf(c, DAY_OF_WEEK) ==> c != HOUR
  {
    if IsDummyOf(c, DISTRICT) {
      assert c[1] == (DISTRICT + "_")[1] == 'I';
      assert |c| < |DAY_OF_WEEK| + 1 || c[..|DAY_OF_WEEK| + 1][1] == c[1] != (DAY_OF_WEEK + "_")[1];
      assert c[0] == 'D' != HOUR[0];
    }
    if IsDummyOf(c, DAY_OF_WEEK) {
      assert c[0] == (DAY_OF_WEEK + "_")[0] == 'D' != HOUR[0];
    }
  }
}
