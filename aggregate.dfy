/**
 * `processData` of both scripts: keep the rows whose year lies in a closed
 * range, summarise each (year, month) by its hottest maximum and coldest
 * minimum, list the distinct years in first-seen order and, in the trend
 * variant, group the kept rows by (year, month).
 */
module Aggregate {
  import opened Records

  /** The twelve month names, January first. */
  const MonthNames: seq<string> := ["January", "February", "March", "April", "May", "June",
    "July", "August", "September", "October", "November", "December"]

  /** `Array.prototype.filter`: the elements satisfying `p`, in their original order. */
  function Select(s: seq<DailyRecord>, p: DailyRecord -> bool): (r: seq<DailyRecord>)
    ensures forall x :: x in r <==> x in s && p(x)
    ensures |r| <= |s|
  {
    if s == [] then []
    else
      var rest := Select(s[1..], p);
      if p(s[0]) then [s[0]] + rest else rest
  }

  predicate InYearRange(d: DailyRecord, startYear: int, endYear: int) {
    d.year >= startYear && d.year <= endYear
  }

  /** The rows whose year lies in [startYear, endYear], both ends included. */
  function FilterYears(data: seq<DailyRecord>, startYear: int, endYear: int): seq<DailyRecord> {
    Select(data, d => InYearRange(d, startYear, endYear))
  }

  /** The rows of one (year, month): what the scripts call `monthEntries`. */
  function InMonth(s: seq<DailyRecord>, k: MonthKey): seq<DailyRecord> {
    Select(s, d => KeyOf(d) == k)
  }

  /** The (year, month) pairs that occur in `s`. */
  function KeySet(s: seq<DailyRecord>): set<MonthKey> {
    set d | d in s :: KeyOf(d)
  }

  /** The summary of a non-empty month, as `d3.max` / `d3.min` compute it. */
  function BucketOf(entries: seq<DailyRecord>): Bucket
    requires |entries| > 0
  {
    Bucket(SeqMax(MaxTemperatures(entries)), SeqMin(MinTemperatures(entries)))
  }

  lemma InMonthNonEmpty(s: seq<DailyRecord>, k: MonthKey)
    requires k in KeySet(s)
    ensures |InMonth(s, k)| > 0
  {
    var d :| d in s && KeyOf(d) == k;
    assert d in InMonth(s, k);
  }

  /** `monthlyData` as a value: one bucket per (year, month) present in `s`. */
  function MonthlyData(s: seq<DailyRecord>): (m: map<MonthKey, Bucket>)
    ensures m.Keys == KeySet(s)
  {
    map k | k in KeySet(s) :: (InMonthNonEmpty(s, k); BucketOf(InMonth(s, k)))
  }

  /** `d3.group(filteredData, d => `${d.year}-${d.month}`)`. */
  function GroupByMonth(s: seq<DailyRecord>): (g: map<MonthKey, seq<DailyRecord>>)
    ensures g.Keys == KeySet(s)
  {
    map k | k in KeySet(s) :: InMonth(s, k)
  }

  function YearsOf(s: seq<DailyRecord>): seq<int> {
    seq(|s|, i requires 0 <= i < |s| => s[i].year)
  }

  predicate NoDuplicates(s: seq<int>) {
    forall i, j :: 0 <= i < j < |s| ==> s[i] != s[j]
  }

  /** `[...new Set(s)]`: each value once, where it was first added. */
  function Distinct(s: seq<int>): (r: seq<int>)
    ensures forall x :: x in r <==> x in s
    ensures NoDuplicates(r)
  {
    if s == [] then []
    else
      var r0 := Distinct(s[..|s| - 1]);
      if s[|s| - 1] in r0 then r0 else r0 + [s[|s| - 1]]
  }

  /** The position where `x` first occurs in `s`. */
  function FirstIndex(s: seq<int>, x: int): (i: nat)
    requires x in s
    ensures i < |s| && s[i] == x && x !in s[..i]
  {
    if x in s[..|s| - 1] then FirstIndex(s[..|s| - 1], x) else |s| - 1
  }

  // ---------------------------------------------------------------------------
  // The aggregation loop and the two processData variants

  /**
   * The `has`/`set` loop: for each kept row, the first time its key is met
   * the bucket of the whole month is stored; a later row with that key
   * changes nothing.
   */
  method AggregateMonthly(filteredData: seq<DailyRecord>) returns (monthlyData: map<MonthKey, Bucket>)
    ensures monthlyData == MonthlyData(filteredData)
  {
    monthlyData := map[];
    StoredAfterStart(filteredData);
    var i := 0;
    while i < |filteredData|
      invariant 0 <= i <= |filteredData|
      invariant monthlyData == StoredAfter(filteredData, i)
    {
      var d := filteredData[i];
      var key := KeyOf(d);
      StoredAfterStep(filteredData, i);
      if key !in monthlyData {
        var monthEntries := InMonth(filteredData, key);
        monthlyData := monthlyData[key := Bucket(SeqMax(MaxTemperatures(monthEntries)),
                                                 SeqMin(MinTemperatures(monthEntries)))];
      }
      i := i + 1;
    }
    StoredAfterAll(filteredData);
  }

  /** What the loop has stored after the first `i` rows: the final bucket of every key met so far. */
  function StoredAfter(s: seq<DailyRecord>, i: nat): map<MonthKey, Bucket>
    requires i <= |s|
  {
    var m := MonthlyData(s);
    map k | k in KeySet(s[..i]) && k in m :: m[k]
  }

  lemma StoredAfterStart(s: seq<DailyRecord>)
    ensures StoredAfter(s, 0) == map[]
  {
    assert s[..0] == [];
  }

  lemma StoredAfterAll(s: seq<DailyRecord>)
    ensures StoredAfter(s, |s|) == MonthlyData(s)
  {
    assert s[..|s|] == s;
  }

  /**
   * One step of the loop: a row whose key was met before changes nothing; the
   * first row of a month stores the bucket of the whole month.
   */
  lemma StoredAfterStep(s: seq<DailyRecord>, i: nat)
    requires i < |s|
    ensures KeyOf(s[i]) in StoredAfter(s, i) ==> StoredAfter(s, i + 1) == StoredAfter(s, i)
    ensures KeyOf(s[i]) !in StoredAfter(s, i) ==>
      |InMonth(s, KeyOf(s[i]))| > 0 &&
      StoredAfter(s, i + 1) == StoredAfter(s, i)[KeyOf(s[i]) := BucketOf(InMonth(s, KeyOf(s[i])))]
  {
    KeySetSnoc(s, i);
    MonthlyDataAt(s, i);
  }

  /** The bucket stored for a row's key is the bucket of that row's whole month. */
  lemma MonthlyDataAt(s: seq<DailyRecord>, i: nat)
    requires i < |s|
    ensures KeyOf(s[i]) in MonthlyData(s)
    ensures |InMonth(s, KeyOf(s[i]))| > 0
    ensures MonthlyData(s)[KeyOf(s[i])] == BucketOf(InMonth(s, KeyOf(s[i])))
  {
    assert s[i] in InMonth(s, KeyOf(s[i]));
  }

  lemma KeySetSnoc(s: seq<DailyRecord>, i: nat)
    requires i < |s|
    ensures KeySet(s[..i + 1]) == KeySet(s[..i]) + {KeyOf(s[i])}
  {
    assert s[..i + 1] == s[..i] + [s[i]];
  }

  /** `processData` of the matrix view (level 1). */
  method ProcessData(data: seq<DailyRecord>, startYear: int, endYear: int)
    returns (years: seq<int>, months: seq<string>, monthlyData: map<MonthKey, Bucket>)
    ensures years == Distinct(YearsOf(FilterYears(data, startYear, endYear)))
    ensures forall y :: y in years <==> exists i :: 0 <= i < |data| && InYearRange(data[i], startYear, endYear) && data[i].year == y
    ensures months == MonthNames
    ensures monthlyData == MonthlyData(FilterYears(data, startYear, endYear))
    ensures forall k :: k in monthlyData <==> exists i :: 0 <= i < |data| && InYearRange(data[i], startYear, endYear) && KeyOf(data[i]) == k
  {
    var filteredData := FilterYears(data, startYear, endYear);
    monthlyData := AggregateMonthly(filteredData);
    years := Distinct(YearsOf(filteredData));
    months := MonthNames;
    YearsOfFiltered(data, startYear, endYear);
    KeysOfFiltered(data, startYear, endYear);
  }

  /** `processData` of the trend view (level 2): also groups the kept rows by month. */
  method ProcessDataDaily(data: seq<DailyRecord>, startYear: int, endYear: int)
    returns (years: seq<int>, months: seq<string>, monthlyData: map<MonthKey, Bucket>,
             groupedDataDaily: map<MonthKey, seq<DailyRecord>>)
    ensures years == Distinct(YearsOf(FilterYears(data, startYear, endYear)))
    ensures months == MonthNames
    ensures monthlyData == MonthlyData(FilterYears(data, startYear, endYear))
    ensures groupedDataDaily == GroupByMonth(FilterYears(data, startYear, endYear))
    ensures groupedDataDaily.Keys == monthlyData.Keys
  {
    var filteredData := FilterYears(data, startYear, endYear);
    monthlyData := AggregateMonthly(filteredData);
    groupedDataDaily := GroupByMonth(filteredData);
    years := Distinct(YearsOf(filteredData));
    months := MonthNames;
  }

  // ---------------------------------------------------------------------------
  // Properties of the specification functions

  /** A row survives the year filter iff its year lies in the closed range. */
  lemma FilterYearsKeeps(data: seq<DailyRecord>, startYear: int, endYear: int, d: DailyRecord)
    ensures d in FilterYears(data, startYear, endYear) <==> d in data && startYear <= d.year <= endYear
  {
  }

  /** The years listed are exactly the years of the kept rows. */
  lemma YearsOfFiltered(data: seq<DailyRecord>, startYear: int, endYear: int)
    ensures forall y :: y in Distinct(YearsOf(FilterYears(data, startYear, endYear))) <==>
      exists i :: 0 <= i < |data| && InYearRange(data[i], startYear, endYear) && data[i].year == y
  {
    var f := FilterYears(data, startYear, endYear);
    forall y ensures y in YearsOf(f) <==> exists i :: 0 <= i < |data| && InYearRange(data[i], startYear, endYear) && data[i].year == y {
      if y in YearsOf(f) {
        var j :| 0 <= j < |f| && YearsOf(f)[j] == y;
        assert f[j] in f;
        var i :| 0 <= i < |data| && data[i] == f[j];
      }
      if exists i :: 0 <= i < |data| && InYearRange(data[i], startYear, endYear) && data[i].year == y {
        var i :| 0 <= i < |data| && InYearRange(data[i], startYear, endYear) && data[i].year == y;
        assert data[i] in f;
        var j :| 0 <= j < |f| && f[j] == data[i];
        assert YearsOf(f)[j] == y;
      }
    }
  }

  /** A bucket exists for (year, month) iff some kept row has that year and month. */
  lemma KeysOfFiltered(data: seq<DailyRecord>, startYear: int, endYear: int)
    ensures forall k :: k in MonthlyData(FilterYears(data, startYear, endYear)) <==>
      exists i :: 0 <= i < |data| && InYearRange(data[i], startYear, endYear) && KeyOf(data[i]) == k
  {
    var f := FilterYears(data, startYear, endYear);
    forall k ensures k in KeySet(f) <==> exists i :: 0 <= i < |data| && InYearRange(data[i], startYear, endYear) && KeyOf(data[i]) == k {
      if k in KeySet(f) {
        var d :| d in f && KeyOf(d) == k;
        var i :| 0 <= i < |data| && data[i] == d;
      }
      if exists i :: 0 <= i < |data| && InYearRange(data[i], startYear, endYear) && KeyOf(data[i]) == k {
        var i :| 0 <= i < |data| && InYearRange(data[i], startYear, endYear) && KeyOf(data[i]) == k;
        assert data[i] in f;
      }
    }
  }

  /**
   * A bucket's maximum is at least every maximum of its month and is one of
   * them; its minimum is at most every minimum of its month and is one of them.
   */
  lemma BucketExtremes(s: seq<DailyRecord>, k: MonthKey)
    requires k in MonthlyData(s)
    ensures forall d :: d in s && KeyOf(d) == k ==>
      d.maxTemperature <= MonthlyData(s)[k].maxTemperature && MonthlyData(s)[k].minTemperature <= d.minTemperature
    ensures exists d :: d in s && KeyOf(d) == k && d.maxTemperature == MonthlyData(s)[k].maxTemperature
    ensures exists d :: d in s && KeyOf(d) == k && d.minTemperature == MonthlyData(s)[k].minTemperature
  {
    var e := InMonth(s, k);
    var b := MonthlyData(s)[k];
    forall d | d in s && KeyOf(d) == k
      ensures d.maxTemperature <= b.maxTemperature && b.minTemperature <= d.minTemperature
    {
      assert d in e;
      var j :| 0 <= j < |e| && e[j] == d;
      assert MaxTemperatures(e)[j] == d.maxTemperature;
      assert MinTemperatures(e)[j] == d.minTemperature;
    }
    var jx :| 0 <= jx < |e| && MaxTemperatures(e)[jx] == b.maxTemperature;
    assert e[jx] in e;
    var jn :| 0 <= jn < |e| && MinTemperatures(e)[jn] == b.minTemperature;
    assert e[jn] in e;
  }

  /** Rows of other months never enter a month's entries, and every row of the month does. */
  lemma {:induction false} SelectCount(s: seq<DailyRecord>, p: DailyRecord -> bool, x: DailyRecord)
    ensures multiset(Select(s, p))[x] == if p(x) then multiset(s)[x] else 0
  {
    if s != [] {
      SelectCount(s[1..], p, x);
      assert s == [s[0]] + s[1..];
    }
  }

  /** Filtering keeps relative order: it distributes over concatenation. */
  lemma {:induction false} SelectAppend(a: seq<DailyRecord>, b: seq<DailyRecord>, p: DailyRecord -> bool)
    ensures Select(a + b, p) == Select(a, p) + Select(b, p)
  {
    if a != [] {
      assert (a + b)[1..] == a[1..] + b;
      SelectAppend(a[1..], b, p);
    } else {
      assert a + b == b;
    }
  }

  /**
   * The daily groups partition the kept rows: a group holds only rows of its
   * key, each row of the kept data sits in the group of its key as often as
   * it occurs, and a group lists its rows in their original relative order.
   */
  lemma GroupsPartition(s: seq<DailyRecord>)
    ensures forall k, d :: k in GroupByMonth(s) && d in GroupByMonth(s)[k] ==> KeyOf(d) == k
    ensures forall d :: d in s ==>
      (KeyOf(d) in GroupByMonth(s) && multiset(GroupByMonth(s)[KeyOf(d)])[d] == multiset(s)[d])
    ensures forall a, b, k :: s == a + b && k in GroupByMonth(s) ==>
      GroupByMonth(s)[k] == InMonth(a, k) + InMonth(b, k)
  {
    forall d | d in s ensures multiset(GroupByMonth(s)[KeyOf(d)])[d] == multiset(s)[d] {
      SelectCount(s, x => KeyOf(x) == KeyOf(d), d);
    }
    forall a, b, k | s == a + b && k in GroupByMonth(s)
      ensures GroupByMonth(s)[k] == InMonth(a, k) + InMonth(b, k)
    {
      SelectAppend(a, b, x => KeyOf(x) == k);
    }
  }

  /** The daily groups and the buckets are keyed alike. */
  lemma GroupsMatchBuckets(s: seq<DailyRecord>)
    ensures GroupByMonth(s).Keys == MonthlyData(s).Keys
    ensures forall k :: k in GroupByMonth(s) ==>
      (|GroupByMonth(s)[k]| > 0 && MonthlyData(s)[k] == BucketOf(GroupByMonth(s)[k]))
  {
    forall k | k in GroupByMonth(s) ensures |GroupByMonth(s)[k]| > 0 {
      InMonthNonEmpty(s, k);
    }
  }

  /** Sequences with the same elements have the same largest maximum and smallest minimum. */
  lemma SameMembersSameBucket(a: seq<DailyRecord>, b: seq<DailyRecord>)
    requires |a| > 0
    requires forall x :: x in a <==> x in b
    ensures |b| > 0 && BucketOf(a) == BucketOf(b)
  {
    assert a[0] in b;
    var ma, mb := MaxTemperatures(a), MaxTemperatures(b);
    var ia :| 0 <= ia < |a| && ma[ia] == SeqMax(ma);
    assert a[ia] in b;
    var jb :| 0 <= jb < |b| && b[jb] == a[ia];
    assert mb[jb] == SeqMax(ma);
    var ib :| 0 <= ib < |b| && mb[ib] == SeqMax(mb);
    assert b[ib] in a;
    var ja :| 0 <= ja < |a| && a[ja] == b[ib];
    assert ma[ja] == SeqMax(mb);
    var na, nb := MinTemperatures(a), MinTemperatures(b);
    var ka :| 0 <= ka < |a| && na[ka] == SeqMin(na);
    assert a[ka] in b;
    var lb :| 0 <= lb < |b| && b[lb] == a[ka];
    assert nb[lb] == SeqMin(na);
    var kb :| 0 <= kb < |b| && nb[kb] == SeqMin(nb);
    assert b[kb] in a;
    var la :| 0 <= la < |a| && a[la] == b[kb];
    assert na[la] == SeqMin(nb);
  }

  /**
   * The buckets do not depend on the order of the rows, so it does not matter
   * which row of a month the loop meets first.
   */
  lemma MonthlyDataOrderIndependent(s: seq<DailyRecord>, t: seq<DailyRecord>)
    requires multiset(s) == multiset(t)
    ensures MonthlyData(s) == MonthlyData(t)
  {
    assert forall x :: x in s <==> x in t by {
      forall x ensures x in s <==> x in t {
        assert x in s <==> x in multiset(s);
        assert x in t <==> x in multiset(t);
      }
    }
    assert KeySet(s) == KeySet(t);
    forall k | k in KeySet(s) ensures MonthlyData(s)[k] == MonthlyData(t)[k] {
      InMonthNonEmpty(s, k);
      SameMembersSameBucket(InMonth(s, k), InMonth(t, k));
    }
  }

  /** `years` lists each year once, in the order of first occurrence. */
  lemma {:induction false} DistinctFirstSeenOrder(s: seq<int>)
    ensures forall i, j :: 0 <= i < j < |Distinct(s)| ==>
      FirstIndex(s, Distinct(s)[i]) < FirstIndex(s, Distinct(s)[j])
  {
    if s != [] {
      var p := s[..|s| - 1];
      var r0 := Distinct(p);
      DistinctFirstSeenOrder(p);
      forall x | x in p ensures FirstIndex(s, x) == FirstIndex(p, x) {
        assert s[..|s| - 1] == p;
      }
      var r := Distinct(s);
      forall i, j | 0 <= i < j < |r| ensures FirstIndex(s, r[i]) < FirstIndex(s, r[j]) {
        assert r[i] in r0;
        if j < |r0| {
          assert r[j] in r0;
        } else {
          assert r[j] == s[|s| - 1] && r[j] !in p;
          assert FirstIndex(p, r[i]) < |p|;
        }
      }
    }
  }

  /**
   * Two January-2016 rows give one bucket with the higher maximum and the
   * lower minimum; a row of 31 December 2007 is outside [2008, 2017] and
   * leaves no trace in the buckets or the years.
   */
  lemma ExampleJanuary2016()
    ensures var data := [DailyRecord(2016, 0, 1, 5.0, -2.0), DailyRecord(2016, 0, 15, 8.0, -5.0),
                         DailyRecord(2007, 11, 31, 9.0, 1.0)];
      && MonthlyData(FilterYears(data, 2008, 2017)) == map[MonthKey(2016, 0) := Bucket(8.0, -5.0)]
      && Distinct(YearsOf(FilterYears(data, 2008, 2017))) == [2016]
  {
    var a, b, c := DailyRecord(2016, 0, 1, 5.0, -2.0), DailyRecord(2016, 0, 15, 8.0, -5.0),
                   DailyRecord(2007, 11, 31, 9.0, 1.0);
    var kept := FilterYears([a, b, c], 2008, 2017);
    assert kept == [a, b];
    ExampleJanuaryBucket(a, b);
    assert YearsOf(kept) == [2016, 2016];
    assert [2016, 2016][..1] == [2016];
  }

  /** The two January 2016 rows of the example summarise to (8, -5). */
  lemma ExampleJanuaryBucket(a: DailyRecord, b: DailyRecord)
    requires a == DailyRecord(2016, 0, 1, 5.0, -2.0) && b == DailyRecord(2016, 0, 15, 8.0, -5.0)
    ensures MonthlyData([a, b]) == map[MonthKey(2016, 0) := Bucket(8.0, -5.0)]
  {
    var k := MonthKey(2016, 0);
    assert KeyOf(a) == k && KeyOf(b) == k;
    assert KeySet([a, b]) == {k};
    assert [a, b][1..] == [b] && [b][1..] == [];
    assert InMonth([b], k) == [b];
    assert InMonth([a, b], k) == [a, b];
    assert MaxTemperatures([a, b]) == [5.0, 8.0];
    assert MinTemperatures([a, b]) == [-2.0, -5.0];
  }
}
