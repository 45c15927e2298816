/** Sequence helpers shared by the training pipeline, the inference adapter
    and the dashboard: row filtering, counting, a sorted set of distinct
    values and the mode of a column. */
module Common {

  datatype Option<+T> = None | Some(value: T)

  /** The elements of a sequence, as a set. */
  ghost function Elems<T>(s: seq<T>): set<T>
  {
    set x | x in s
  }

  ghost predicate Distinct<T>(s: seq<T>)
  {
    forall i, j :: 0 <= i < j < |s| ==> s[i] != s[j]
  }

  /** Joining two distinct sequences without a common element keeps every
      element distinct. */
  lemma DistinctConcat<T>(a: seq<T>, b: seq<T>)
    requires Distinct(a) && Distinct(b)
    requires forall x :: x in a ==> x !in b
    ensures Distinct(a + b)
  {
    var s := a + b;
    forall i, j | 0 <= i < j < |s| ensures s[i] != s[j] {
      if j < |a| {
        assert s[i] == a[i] && s[j] == a[j];
      } else if |a| <= i {
        assert s[i] == b[i - |a|] && s[j] == b[j - |a|];
      } else {
        assert s[i] == a[i] && s[j] == b[j - |a|];
        assert a[i] in a && b[j - |a|] in b;
      }
    }
  }

  // ---------------------------------------------------------------------
  // Counting
  // ---------------------------------------------------------------------

  /** Number of occurrences of `x` in `s`. */
  function Count<T(==)>(s: seq<T>, x: T): (n: nat)
    ensures n <= |s|
    ensures n == 0 <==> x !in s
  {
    if s == [] then 0 else (if s[0] == x then 1 else 0) + Count(s[1..], x)
  }

  lemma {:induction false} CountAppend<T>(a: seq<T>, b: seq<T>, x: T)
    ensures Count(a + b, x) == Count(a, x) + Count(b, x)
  {
    if a == [] {
      assert a + b == b;
    } else {
      assert (a + b)[0] == a[0] && (a + b)[1..] == a[1..] + b;
      CountAppend(a[1..], b, x);
    }
  }

  /** Index of the first occurrence of `x` in `s`, or |s| when it is absent. */
  function FirstIndex<T(==)>(s: seq<T>, x: T): (k: nat)
    ensures k <= |s|
    ensures k < |s| <==> x in s
    ensures k < |s| ==> s[k] == x
    ensures forall j :: 0 <= j < k ==> s[j] != x
  {
    if s == [] then 0 else if s[0] == x then 0 else 1 + FirstIndex(s[1..], x)
  }

  /** The present values of a column (pandas' dropna on a Series). */
  function Present<T>(s: seq<Option<T>>): (r: seq<T>)
    ensures |r| <= |s|
    ensures forall x :: x in r ==> Some(x) in s
    ensures forall i :: 0 <= i < |s| && s[i].Some? ==> s[i].value in r
  {
    if s == [] then []
    else (if s[0].Some? then [s[0].value] else []) + Present(s[1..])
  }

  /** `dropna` keeps the present values in their order: it distributes over
      concatenation. */
  lemma {:induction false} PresentAppend<T>(a: seq<Option<T>>, b: seq<Option<T>>)
    ensures Present(a + b) == Present(a) + Present(b)
  {
    if a == [] {
      assert a + b == b;
    } else {
      var h := if a[0].Some? then [a[0].value] else [];
      assert (a + b)[0] == a[0] && (a + b)[1..] == a[1..] + b;
      assert Present(a + b) == h + Present(a[1..] + b);
      PresentAppend(a[1..], b);
      assert Present(a) == h + Present(a[1..]);
      assert h + (Present(a[1..]) + Present(b)) == (h + Present(a[1..])) + Present(b);
    }
  }

  /** Each value is kept as often as there are cells holding it. */
  lemma {:induction false} PresentCount<T>(s: seq<Option<T>>, x: T)
    ensures Count(Present(s), x) == Count(s, Some(x))
  {
    if s != [] {
      PresentCount(s[1..], x);
      CountAppend(if s[0].Some? then [s[0].value] else [], Present(s[1..]), x);
    }
  }

  /** Column `key` of a table, one cell per row. */
  function Column<R, K>(rows: seq<R>, key: R -> Option<K>): (c: seq<Option<K>>)
    ensures |c| == |rows|
    ensures forall i :: 0 <= i < |rows| ==> c[i] == key(rows[i])
  {
    seq(|rows|, i requires 0 <= i < |rows| => key(rows[i]))
  }

  // ---------------------------------------------------------------------
  // Filtering (a pandas boolean mask)
  // ---------------------------------------------------------------------

  /** The rows that satisfy `keep`, in their original order. */
  function Filter<T>(s: seq<T>, keep: T -> bool): (r: seq<T>)
    ensures |r| <= |s|
    ensures forall x :: x in r ==> x in s && keep(x)
  {
    if s == [] then [] else (if keep(s[0]) then [s[0]] else []) + Filter(s[1..], keep)
  }

  /** Indices of the rows of `s` from position `i` on that satisfy `keep`. */
  function KeptFrom<T>(s: seq<T>, keep: T -> bool, i: nat): seq<nat>
    requires i <= |s|
    decreases |s| - i
  {
    if i == |s| then [] else (if keep(s[i]) then [i] else []) + KeptFrom(s, keep, i + 1)
  }

  lemma {:induction false} FilterFromSelects<T>(s: seq<T>, keep: T -> bool, i: nat)
    requires i <= |s|
    ensures |Filter(s[i..], keep)| == |KeptFrom(s, keep, i)|
    ensures forall k :: 0 <= k < |KeptFrom(s, keep, i)| ==>
              i <= KeptFrom(s, keep, i)[k] < |s| && Filter(s[i..], keep)[k] == s[KeptFrom(s, keep, i)[k]]
    ensures forall k, l :: 0 <= k < l < |KeptFrom(s, keep, i)| ==> KeptFrom(s, keep, i)[k] < KeptFrom(s, keep, i)[l]
    ensures forall j :: i <= j < |s| ==> (keep(s[j]) <==> j in KeptFrom(s, keep, i))
    decreases |s| - i
  {
    if i < |s| {
      FilterFromSelects(s, keep, i + 1);
      assert s[i..][0] == s[i];
      assert s[i..][1..] == s[i + 1..];
    }
  }

  /** Filtering keeps exactly the rows that satisfy `keep`, at strictly
      increasing positions of the input: an order-preserving subsequence. */
  lemma FilterSelects<T>(s: seq<T>, keep: T -> bool)
    ensures var r, idx := Filter(s, keep), KeptFrom(s, keep, 0);
      && |r| == |idx|
      && (forall k :: 0 <= k < |idx| ==> idx[k] < |s| && r[k] == s[idx[k]])
      && (forall k, l :: 0 <= k < l < |idx| ==> idx[k] < idx[l])
      && (forall j :: 0 <= j < |s| ==> (keep(s[j]) <==> j in idx))
  {
    FilterFromSelects(s, keep, 0);
    assert s[0..] == s;
  }

  /** Two masks applied one after the other are the mask of their conjunction. */
  lemma {:induction false} FilterFilter<T>(s: seq<T>, p: T -> bool, q: T -> bool, pq: T -> bool)
    requires forall x :: pq(x) == (p(x) && q(x))
    ensures Filter(Filter(s, p), q) == Filter(s, pq)
  {
    if s != [] {
      FilterFilter(s[1..], p, q, pq);
      var rest := Filter(s[1..], p);
      if p(s[0]) {
        assert Filter(s, p) == [s[0]] + rest;
        assert ([s[0]] + rest)[1..] == rest;
      } else {
        assert Filter(s, p) == rest;
      }
    }
  }

  /** Masks with the same truth table select the same rows. */
  lemma {:induction false} FilterSameMask<T>(s: seq<T>, p: T -> bool, q: T -> bool)
    requires forall x :: p(x) == q(x)
    ensures Filter(s, p) == Filter(s, q)
  {
    if s != [] {
      FilterSameMask(s[1..], p, q);
    }
  }

  /** A mask every row passes keeps the table as it is. */
  lemma {:induction false} FilterKeepsAll<T>(s: seq<T>, keep: T -> bool)
    requires forall x :: x in s ==> keep(x)
    ensures Filter(s, keep) == s
  {
    if s != [] {
      assert forall x :: x in s[1..] ==> x in s;
      FilterKeepsAll(s[1..], keep);
      assert [s[0]] + s[1..] == s;
    }
  }

  /** Masks commute. */
  lemma FilterCommutes<T>(s: seq<T>, p: T -> bool, q: T -> bool)
    ensures Filter(Filter(s, p), q) == Filter(Filter(s, q), p)
  {
    var pq := x => p(x) && q(x);
    FilterFilter(s, p, q, pq);
    FilterFilter(s, q, p, pq);
  }

  /** The number of occurrences of `k` in the present values of a column is
      the number of rows whose cell holds `k`. */
  lemma {:induction false} CountPresentColumn<R, K>(rows: seq<R>, key: R -> Option<K>, k: K)
    ensures Count(Present(Column(rows, key)), k) == |Filter(rows, r => key(r) == Some(k))|
  {
    if rows != [] {
      CountPresentColumn(rows[1..], key, k);
      assert Column(rows, key)[1..] == Column(rows[1..], key);
      var c := Column(rows, key);
      var rest := Present(c[1..]);
      if c[0].Some? {
        assert Present(c) == [c[0].value] + rest;
        assert ([c[0].value] + rest)[1..] == rest;
      } else {
        assert Present(c) == rest;
      }
    }
  }

  /** The same count, for any mask that holds exactly on the rows whose cell
      holds `k`. */
  lemma CountPresentColumnMask<R, K>(rows: seq<R>, key: R -> Option<K>, k: K, mask: R -> bool)
    requires forall r :: mask(r) == (key(r) == Some(k))
    ensures Count(Present(Column(rows, key)), k) == |Filter(rows, mask)|
  {
    CountPresentColumn(rows, key, k);
    FilterSameMask(rows, r => key(r) == Some(k), mask);
  }

  // ---------------------------------------------------------------------
  // Strict orders, lexicographic string order and sorted sets
  // ---------------------------------------------------------------------

  /** `before` is irreflexive, transitive and total on `dom`. */
  ghost predicate StrictTotalOn<T>(before: (T, T) -> bool, dom: set<T>)
  {
    && (forall x :: x in dom ==> !before(x, x))
    && (forall x, y, z :: x in dom && y in dom && z in dom && before(x, y) && before(y, z) ==> before(x, z))
    && (forall x, y :: x in dom && y in dom && x != y ==> before(x, y) || before(y, x))
  }

  ghost predicate StrictlySorted<T>(s: seq<T>, before: (T, T) -> bool)
  {
    forall i, j :: 0 <= i < j < |s| ==> before(s[i], s[j])
  }

  /** Python's ordering of `str` values: lexicographic by code point, a
      proper prefix first. */
  predicate StrLess(a: string, b: string)
  {
    if |a| == 0 then |b| > 0
    else if |b| == 0 then false
    else if a[0] != b[0] then a[0] < b[0]
    else StrLess(a[1..], b[1..])
  }

  lemma {:induction false} StrLessIrreflexive(a: string)
    ensures !StrLess(a, a)
  {
    if |a| > 0 {
      StrLessIrreflexive(a[1..]);
    }
  }

  lemma {:induction false} StrLessTransitive(a: string, b: string, c: string)
    requires StrLess(a, b) && StrLess(b, c)
    ensures StrLess(a, c)
  {
    if |a| > 0 && a[0] == b[0] && b[0] == c[0] {
      StrLessTransitive(a[1..], b[1..], c[1..]);
    }
  }

  lemma {:induction false} StrLessTotal(a: string, b: string)
    requires a != b
    ensures StrLess(a, b) || StrLess(b, a)
  {
    if |a| > 0 && |b| > 0 && a[0] == b[0] {
      assert a == [a[0]] + a[1..] && b == [b[0]] + b[1..];
      StrLessTotal(a[1..], b[1..]);
    }
  }

  lemma StrLessIsStrictTotal(dom: set<string>)
    ensures StrictTotalOn(StrLess, dom)
  {
    forall x | x in dom ensures !StrLess(x, x) {
      StrLessIrreflexive(x);
    }
    forall x, y, z | x in dom && y in dom && z in dom && StrLess(x, y) && StrLess(y, z)
      ensures StrLess(x, z)
    {
      StrLessTransitive(x, y, z);
    }
    forall x, y | x in dom && y in dom && x != y ensures StrLess(x, y) || StrLess(y, x) {
      StrLessTotal(x, y);
    }
  }

  predicate IntLess(a: int, b: int)
  {
    a < b
  }

  lemma IntLessIsStrictTotal(dom: set<int>)
    ensures StrictTotalOn(IntLess, dom)
  {
  }

  /** `x` inserted into a sorted sequence, unless it is already there. */
  function Insert<T(==)>(x: T, s: seq<T>, before: (T, T) -> bool): (r: seq<T>)
    ensures x in r
    ensures forall y :: y in s ==> y in r
    ensures forall y :: y in r ==> y == x || y in s
  {
    if s == [] then [x]
    else if x == s[0] then s
    else if before(x, s[0]) then [x] + s
    else [s[0]] + Insert(x, s[1..], before)
  }

  /** The distinct values of `s` in increasing `before` order (the categories
      pandas derives for a column). */
  function SortedSet<T(==)>(s: seq<T>, before: (T, T) -> bool): (r: seq<T>)
    ensures forall y :: y in s ==> y in r
    ensures forall y :: y in r ==> y in s
  {
    if s == [] then [] else Insert(s[0], SortedSet(s[1..], before), before)
  }

  /** A head that comes before every element of a sorted sequence keeps it
      sorted. */
  lemma ConsSorted<T>(h: T, s: seq<T>, before: (T, T) -> bool)
    requires StrictlySorted(s, before)
    requires forall j :: 0 <= j < |s| ==> before(h, s[j])
    ensures StrictlySorted([h] + s, before)
  {
    var full := [h] + s;
    forall i, j | 0 <= i < j < |full| ensures before(full[i], full[j]) {
      assert full[j] == s[j - 1];
      if i > 0 {
        assert full[i] == s[i - 1];
      }
    }
  }

  lemma {:induction false} InsertSorted<T>(x: T, s: seq<T>, before: (T, T) -> bool)
    requires StrictTotalOn(before, Elems(s) + {x})
    requires StrictlySorted(s, before)
    ensures StrictlySorted(Insert(x, s, before), before)
  {
    if s != [] && x != s[0] && !before(x, s[0]) {
      assert before(s[0], x);
      var t := s[1..];
      assert Elems(t) + {x} <= Elems(s) + {x};
      InsertSorted(x, t, before);
      var r := Insert(x, t, before);
      forall j | 0 <= j < |r| ensures before(s[0], r[j]) {
        assert r[j] == x || r[j] in t;
        if r[j] != x {
          var k :| 0 <= k < |t| && t[k] == r[j];
          assert s[k + 1] == t[k];
        }
      }
      ConsSorted(s[0], r, before);
    } else if s != [] && x != s[0] {
      forall j | 0 <= j < |s| ensures before(x, s[j]) {
        if j > 0 {
          assert before(s[0], s[j]);
        }
      }
      ConsSorted(x, s, before);
    }
  }

  /** The sorted set of `s` holds exactly the values of `s`, each once, in
      increasing order. */
  lemma {:induction false} SortedSetSorted<T>(s: seq<T>, before: (T, T) -> bool)
    requires StrictTotalOn(before, Elems(s))
    ensures StrictlySorted(SortedSet(s, before), before)
    ensures Distinct(SortedSet(s, before))
  {
    if s != [] {
      assert Elems(s[1..]) <= Elems(s);
      SortedSetSorted(s[1..], before);
      var t := SortedSet(s[1..], before);
      assert Elems(t) + {s[0]} == Elems(s);
      InsertSorted(s[0], t, before);
    }
    var r := SortedSet(s, before);
    forall i, j | 0 <= i < j < |r| ensures r[i] != r[j] {
      assert r[i] in Elems(s);
      assert before(r[i], r[j]);
    }
  }

  // ---------------------------------------------------------------------
  // Mode of a column
  // ---------------------------------------------------------------------

  /** The most frequent value of `all` among `candidates`; of several equally
      frequent ones, the first in `before` order. */
  function ModeAmong<T(==)>(all: seq<T>, candidates: seq<T>, before: (T, T) -> bool): (m: T)
    requires |candidates| > 0
    ensures m in candidates
    ensures forall x :: x in candidates ==> Count(all, x) <= Count(all, m)
    decreases |candidates|
  {
    if |candidates| == 1 then candidates[0]
    else
      var best := ModeAmong(all, candidates[1..], before);
      var c := candidates[0];
      if Count(all, c) > Count(all, best) || (Count(all, c) == Count(all, best) && before(c, best))
      then c else best
  }

  /** pandas' `Series.mode()[0]` on a column without missing values: `None`
      stands for the empty result of `mode()`. */
  function Mode<T(==)>(s: seq<T>, before: (T, T) -> bool): (r: Option<T>)
    ensures r.None? <==> s == []
    ensures r.Some? ==> r.value in s
  {
    if s == [] then None else Some(ModeAmong(s, s, before))
  }

  lemma {:induction false} ModeAmongFirstOfTies<T>(all: seq<T>, candidates: seq<T>, before: (T, T) -> bool)
    requires |candidates| > 0
    requires StrictTotalOn(before, Elems(candidates))
    ensures forall x :: x in candidates && Count(all, x) == Count(all, ModeAmong(all, candidates, before)) ==>
              x == ModeAmong(all, candidates, before) || before(ModeAmong(all, candidates, before), x)
    decreases |candidates|
  {
    if |candidates| > 1 {
      var rest := candidates[1..];
      assert Elems(rest) <= Elems(candidates);
      ModeAmongFirstOfTies(all, rest, before);
      var best := ModeAmong(all, rest, before);
      var c := candidates[0];
      var m := ModeAmong(all, candidates, before);
      forall x | x in candidates && Count(all, x) == Count(all, m) ensures x == m || before(m, x) {
        if x != c && x != m {
          assert x in rest;
          if m == c && c != best {
            assert Count(all, x) <= Count(all, best);
            assert before(c, best);
            assert x == best || before(best, x);
          } else {
            assert m == best;
          }
        } else if x == c && x != m {
          assert m == best && !before(c, best);
        }
      }
    }
  }

  /** `Mode` returns a value of maximal frequency, and the least such value. */
  lemma ModeIsLeastMostFrequent<T>(s: seq<T>, before: (T, T) -> bool)
    requires StrictTotalOn(before, Elems(s))
    ensures Mode(s, before).Some? ==>
      forall x :: x in s ==>
        && Count(s, x) <= Count(s, Mode(s, before).value)
        && (Count(s, x) == Count(s, Mode(s, before).value) ==> x == Mode(s, before).value || before(Mode(s, before).value, x))
  {
    if s != [] {
      ModeAmongFirstOfTies(s, s, before);
    }
  }
  // ---------------------------------------------------------------------
  // Group counts
  // ---------------------------------------------------------------------

  /** Sum over `values` of the number of occurrences of each in `s`. */
  function CountAll<T(==)>(s: seq<T>, values: seq<T>): nat
  {
    if values == [] then 0 else Count(s, values[0]) + CountAll(s, values[1..])
  }

  lemma {:induction false} CountAllEmpty<T>(values: seq<T>)
    ensures CountAll([], values) == 0
  {
    if values != [] {
      CountAllEmpty(values[1..]);
    }
  }

  lemma {:induction false} CountAllAppend<T>(a: seq<T>, b: seq<T>, values: seq<T>)
    ensures CountAll(a + b, values) == CountAll(a, values) + CountAll(b, values)
  {
    if values != [] {
      CountAppend(a, b, values[0]);
      CountAllAppend(a, b, values[1..]);
    }
  }

  lemma {:induction false} CountAllSingle<T>(x: T, values: seq<T>)
    requires Distinct(values)
    ensures CountAll([x], values) == if x in values then 1 else 0
  {
    if values != [] {
      assert Distinct(values[1..]) by {
        forall i, j | 0 <= i < j < |values[1..]| ensures values[1..][i] != values[1..][j] {
          assert values[1..][i] == values[i + 1] && values[1..][j] == values[j + 1];
        }
      }
      CountAllSingle(x, values[1..]);
      assert [x][1..] == [];
      if values[0] == x {
        assert x !in values[1..] by {
          forall k | 0 <= k < |values[1..]| ensures values[1..][k] != x {
            assert values[1..][k] == values[k + 1];
          }
        }
      }
    }
  }

  /** Counting every element of `s` once per distinct group that covers it
      adds up to the length of `s`. */
  lemma {:induction false} CountAllCovers<T>(s: seq<T>, values: seq<T>)
    requires Distinct(values)
    requires forall x :: x in s ==> x in values
    ensures CountAll(s, values) == |s|
  {
    if s == [] {
      CountAllEmpty(values);
    } else {
      assert s == [s[0]] + s[1..];
      CountAllAppend([s[0]], s[1..], values);
      CountAllSingle(s[0], values);
      CountAllCovers(s[1..], values);
    }
  }

  /** The first `n` entries (pandas' `head(n)`). */
  function Take<T>(s: seq<T>, n: nat): (r: seq<T>)
    ensures |r| == if |s| < n then |s| else n
    ensures forall k :: 0 <= k < |r| ==> r[k] == s[k]
  {
    if |s| < n then s else s[..n]
  }
}
