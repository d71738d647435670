/**
 * What the matrix view computes before it touches the page: the list of
 * (year, month) cells, each cell's fill and tooltip, the colour domain, and
 * which cells receive the two daily trend paths.
 */
module Matrix {
  import opened Records
  import opened KeyText
  import opened Aggregate

  /** The datum bound to one `rect.cell`: a year, a month index and whether a bucket exists. */
  datatype Cell = Cell(year: int, month: int, hasData: bool)

  function CellKey(c: Cell): MonthKey {
    MonthKey(c.year, c.month)
  }

  /** One year's row of cells: one per month name, indexed from 0. */
  function MonthRow(year: int, months: seq<string>, monthlyData: map<MonthKey, Bucket>): seq<Cell> {
    seq(|months|, i => Cell(year, i, MonthKey(year, i) in monthlyData))
  }

  /** `years.flatMap(year => months.map((month, i) => …))`. */
  function Cells(years: seq<int>, months: seq<string>, monthlyData: map<MonthKey, Bucket>): (r: seq<Cell>)
    ensures |r| == |years| * |months|
  {
    if years == [] then []
    else MonthRow(years[0], months, monthlyData) + Cells(years[1..], months, monthlyData)
  }

  /**
   * The cells run year-major: the cell at position i * |months| + m is the
   * year years[i] and the month index m, and it has data iff that bucket exists.
   */
  lemma {:induction false} CellAt(years: seq<int>, months: seq<string>, monthlyData: map<MonthKey, Bucket>, i: nat, m: nat)
    requires i < |years| && m < |months|
    ensures i * |months| + m < |Cells(years, months, monthlyData)|
    ensures Cells(years, months, monthlyData)[i * |months| + m] ==
      Cell(years[i], m, MonthKey(years[i], m) in monthlyData)
  {
    if i > 0 {
      CellAt(years[1..], months, monthlyData, i - 1, m);
      assert i * |months| + m == |months| + ((i - 1) * |months| + m);
    }
  }

  /** Every cell belongs to a listed year and a month index, and is flagged truthfully. */
  lemma {:induction false} CellsCover(years: seq<int>, months: seq<string>, monthlyData: map<MonthKey, Bucket>)
    ensures forall c :: c in Cells(years, months, monthlyData) ==>
      (c.year in years && 0 <= c.month < |months| && (c.hasData <==> CellKey(c) in monthlyData))
  {
    if years != [] {
      CellsCover(years[1..], months, monthlyData);
    }
  }

  // ---------------------------------------------------------------------------
  // Fill, tooltip and colour domain

  /** `tempKey`: the field the toggle selects. */
  function RecordMetric(d: DailyRecord, showMinTemp: bool): real {
    if showMinTemp then d.minTemperature else d.maxTemperature
  }

  function BucketMetric(b: Bucket, showMinTemp: bool): real {
    if showMinTemp then b.minTemperature else b.maxTemperature
  }

  /** A cell's fill: `Shade(v)` stands for `colorScale(v)`; `White` marks a month without data. */
  datatype Fill = White | Shade(value: real)

  function CellFill(c: Cell, monthlyData: map<MonthKey, Bucket>, showMinTemp: bool): Fill {
    if CellKey(c) in monthlyData then Shade(BucketMetric(monthlyData[CellKey(c)], showMinTemp)) else White
  }

  /**
   * Over the processed data, a cell is white iff no kept row has its year and
   * month; otherwise its shade is the coldest minimum (min mode) or the hottest
   * maximum (max mode) of those rows, and is one of their values.
   */
  lemma FillFollowsRecords(data: seq<DailyRecord>, startYear: int, endYear: int, c: Cell, showMinTemp: bool)
    ensures var f := CellFill(c, MonthlyData(FilterYears(data, startYear, endYear)), showMinTemp);
      && (f == White <==> !exists i :: 0 <= i < |data| && InYearRange(data[i], startYear, endYear) && KeyOf(data[i]) == CellKey(c))
      && (f.Shade? ==> forall i :: 0 <= i < |data| && InYearRange(data[i], startYear, endYear) && KeyOf(data[i]) == CellKey(c) ==>
            (if showMinTemp then f.value <= data[i].minTemperature else data[i].maxTemperature <= f.value))
      && (f.Shade? ==> exists i :: (0 <= i < |data| && InYearRange(data[i], startYear, endYear) && KeyOf(data[i]) == CellKey(c) &&
            f.value == RecordMetric(data[i], showMinTemp)))
  {
    var s := FilterYears(data, startYear, endYear);
    var md := MonthlyData(s);
    var k := CellKey(c);
    KeysOfFiltered(data, startYear, endYear);
    if k in md {
      BucketExtremes(s, k);
      forall i | 0 <= i < |data| && InYearRange(data[i], startYear, endYear) && KeyOf(data[i]) == k
        ensures data[i] in s
      {
      }
      var d :| d in s && KeyOf(d) == k && d.maxTemperature == md[k].maxTemperature;
      var e :| e in s && KeyOf(e) == k && e.minTemperature == md[k].minTemperature;
      var w := if showMinTemp then e else d;
      var i :| 0 <= i < |data| && data[i] == w;
    }
  }

  datatype TooltipText = TooltipText(date: string, maxTemperature: real, minTemperature: real)

  /** The hover text of a cell, or nothing when the cell's month has no bucket. */
  function Tooltip(c: Cell, monthlyData: map<MonthKey, Bucket>): Option<TooltipText>
    requires 0 <= c.month <= 11
  {
    if CellKey(c) in monthlyData then
      var b := monthlyData[CellKey(c)];
      Some(TooltipText(DateLabel(c.year, c.month), b.maxTemperature, b.minTemperature))
    else None
  }

  /**
   * A tooltip appears only over a cell with a bucket; it shows that bucket's
   * extremes, and its date reads back as the cell's year and 1-based month
   * written with two digits.
   */
  lemma TooltipShowsBucket(c: Cell, monthlyData: map<MonthKey, Bucket>)
    requires 0 <= c.month <= 11
    ensures Tooltip(c, monthlyData).Some? <==> CellKey(c) in monthlyData
    ensures Tooltip(c, monthlyData).Some? ==>
      var t := Tooltip(c, monthlyData).value;
      && t.maxTemperature == monthlyData[CellKey(c)].maxTemperature
      && t.minTemperature == monthlyData[CellKey(c)].minTemperature
      && |t.date| >= 3 && t.date[|t.date| - 3] == '-'
      && t.date[..|t.date| - 3] == IntToString(c.year)
      && AllDigits(t.date[|t.date| - 2..]) && ParseNat(t.date[|t.date| - 2..]) == c.month + 1
  {
    DateLabelFields(c.year, c.month);
  }

  function Metrics(data: seq<DailyRecord>, showMinTemp: bool): seq<real> {
    seq(|data|, i requires 0 <= i < |data| => RecordMetric(data[i], showMinTemp))
  }

  /**
   * `d3.extent(data, d => d[tempKey])` over every row, kept or not:
   * (lowest, highest), or nothing for an empty file.
   */
  function ColourDomain(data: seq<DailyRecord>, showMinTemp: bool): (r: Option<(real, real)>)
    ensures r.None? <==> |data| == 0
    ensures r.Some? ==> forall i :: 0 <= i < |data| ==>
      r.value.0 <= RecordMetric(data[i], showMinTemp) <= r.value.1
    ensures r.Some? ==> exists i :: 0 <= i < |data| && RecordMetric(data[i], showMinTemp) == r.value.0
    ensures r.Some? ==> exists i :: 0 <= i < |data| && RecordMetric(data[i], showMinTemp) == r.value.1
  {
    if |data| == 0 then None
    else
      var m := Metrics(data, showMinTemp);
      var lo, hi := SeqMin(m), SeqMax(m);
      assert forall i :: 0 <= i < |data| ==> m[i] == RecordMetric(data[i], showMinTemp);
      Some((lo, hi))
  }

  /** Every shaded cell's value lies inside the colour domain. */
  lemma ShadesWithinDomain(data: seq<DailyRecord>, startYear: int, endYear: int, c: Cell, showMinTemp: bool)
    requires CellFill(c, MonthlyData(FilterYears(data, startYear, endYear)), showMinTemp).Shade?
    ensures ColourDomain(data, showMinTemp).Some?
    ensures var v := CellFill(c, MonthlyData(FilterYears(data, startYear, endYear)), showMinTemp).value;
      ColourDomain(data, showMinTemp).value.0 <= v <= ColourDomain(data, showMinTemp).value.1
  {
    FillFollowsRecords(data, startYear, endYear, c, showMinTemp);
  }

  // ---------------------------------------------------------------------------
  // Trend overlays (level 2)

  datatype Series = DailyMax | DailyMin

  /** One `path.trend-line`, drawn over the rows of a month. */
  datatype TrendPath = TrendPath(series: Series, datum: seq<DailyRecord>)

  /** One appended `<g>`, placed at the cell of (year, month), with its paths. */
  datatype OverlayGroup = OverlayGroup(year: int, month: int, paths: seq<TrendPath>)

  function GroupKey(g: OverlayGroup): MonthKey {
    MonthKey(g.year, g.month)
  }

  function OverlayFor(c: Cell, groupedDataDaily: map<MonthKey, seq<DailyRecord>>): seq<OverlayGroup> {
    if CellKey(c) in groupedDataDaily then
      var daily := groupedDataDaily[CellKey(c)];
      [OverlayGroup(c.year, c.month, [TrendPath(DailyMax, daily), TrendPath(DailyMin, daily)])]
    else []
  }

  /**
   * The groups `drawTrendLines` appends, cell by cell: a cell whose key has
   * no daily group gets none; any other gets one group with exactly two paths,
   * the daily maxima then the daily minima of that group.
   */
  function TrendGroups(cells: seq<Cell>, groupedDataDaily: map<MonthKey, seq<DailyRecord>>): (r: seq<OverlayGroup>)
    ensures |r| <= |cells|
    ensures forall g :: g in r ==> (GroupKey(g) in groupedDataDaily &&
      g.paths == [TrendPath(DailyMax, groupedDataDaily[GroupKey(g)]), TrendPath(DailyMin, groupedDataDaily[GroupKey(g)])])
  {
    if cells == [] then []
    else TrendGroups(cells[..|cells| - 1], groupedDataDaily) + OverlayFor(cells[|cells| - 1], groupedDataDaily)
  }

  /** The (year, month) of each group, in document order. */
  function GroupKeys(groups: seq<OverlayGroup>): seq<MonthKey> {
    seq(|groups|, i requires 0 <= i < |groups| => GroupKey(groups[i]))
  }

  /** The (year, month) of each cell, in document order. */
  function CellKeys(cells: seq<Cell>): seq<MonthKey> {
    seq(|cells|, i requires 0 <= i < |cells| => CellKey(cells[i]))
  }

  /**
   * One group per cell: a key with a daily group gets as many groups as there
   * are cells with that key, any other key gets none.
   */
  lemma {:induction false} TrendGroupsOnePerCell(cells: seq<Cell>, groupedDataDaily: map<MonthKey, seq<DailyRecord>>)
    ensures forall k :: (multiset(GroupKeys(TrendGroups(cells, groupedDataDaily)))[k] ==
      (if k in groupedDataDaily then multiset(CellKeys(cells))[k] else 0))
  {
    if cells != [] {
      var p, c := cells[..|cells| - 1], cells[|cells| - 1];
      TrendGroupsOnePerCell(p, groupedDataDaily);
      KeysSnoc(cells, groupedDataDaily);
    }
  }

  /** The keys of the cells and of their groups, one cell at a time. */
  lemma KeysSnoc(cells: seq<Cell>, groupedDataDaily: map<MonthKey, seq<DailyRecord>>)
    requires cells != []
    ensures var p, c := cells[..|cells| - 1], cells[|cells| - 1];
      && CellKeys(cells) == CellKeys(p) + [CellKey(c)]
      && GroupKeys(TrendGroups(cells, groupedDataDaily)) == GroupKeys(TrendGroups(p, groupedDataDaily)) +
           (if CellKey(c) in groupedDataDaily then [CellKey(c)] else [])
  {
    var p, c := cells[..|cells| - 1], cells[|cells| - 1];
    assert CellKeys(cells) == CellKeys(p) + [CellKey(c)];
    var o := OverlayFor(c, groupedDataDaily);
    assert GroupKeys(o) == (if CellKey(c) in groupedDataDaily then [CellKey(c)] else []);
    GroupKeysAppend(TrendGroups(p, groupedDataDaily), o);
  }

  lemma GroupKeysAppend(a: seq<OverlayGroup>, b: seq<OverlayGroup>)
    ensures GroupKeys(a + b) == GroupKeys(a) + GroupKeys(b)
  {
  }

  /** Every cell with a daily group gets its overlay. */
  lemma {:induction false} TrendGroupsCoverCells(cells: seq<Cell>, groupedDataDaily: map<MonthKey, seq<DailyRecord>>)
    ensures forall c :: c in cells && CellKey(c) in groupedDataDaily ==>
      exists g :: g in TrendGroups(cells, groupedDataDaily) && GroupKey(g) == CellKey(c)
  {
    if cells != [] {
      var p := cells[..|cells| - 1];
      TrendGroupsCoverCells(p, groupedDataDaily);
      forall c | c in cells && CellKey(c) in groupedDataDaily
        ensures exists g :: g in TrendGroups(cells, groupedDataDaily) && GroupKey(g) == CellKey(c)
      {
        if c in p {
          var g :| g in TrendGroups(p, groupedDataDaily) && GroupKey(g) == CellKey(c);
          assert g in TrendGroups(cells, groupedDataDaily);
        } else {
          assert c == cells[|cells| - 1];
          assert OverlayFor(c, groupedDataDaily)[0] in TrendGroups(cells, groupedDataDaily);
        }
      }
    }
  }

  /** `selectAll(".trend-line").remove()`: the groups stay, their paths go. */
  function Cleared(groups: seq<OverlayGroup>): seq<OverlayGroup> {
    seq(|groups|, i requires 0 <= i < |groups| => groups[i].(paths := []))
  }

  /** The groups that still show a path. */
  function Visible(groups: seq<OverlayGroup>): seq<OverlayGroup> {
    if groups == [] then []
    else Visible(groups[..|groups| - 1]) + (if groups[|groups| - 1].paths == [] then [] else [groups[|groups| - 1]])
  }

  lemma {:induction false} VisibleAppend(a: seq<OverlayGroup>, b: seq<OverlayGroup>)
    ensures Visible(a + b) == Visible(a) + Visible(b)
  {
    if b == [] {
      assert a + b == a;
    } else {
      assert (a + b)[..|a + b| - 1] == a + b[..|b| - 1];
      VisibleAppend(a, b[..|b| - 1]);
    }
  }

  lemma {:induction false} VisibleCleared(groups: seq<OverlayGroup>)
    ensures Visible(Cleared(groups)) == []
  {
    if groups != [] {
      assert Cleared(groups)[..|groups| - 1] == Cleared(groups[..|groups| - 1]);
      VisibleCleared(groups[..|groups| - 1]);
    }
  }

  lemma {:induction false} VisibleTrendGroups(cells: seq<Cell>, groupedDataDaily: map<MonthKey, seq<DailyRecord>>)
    ensures Visible(TrendGroups(cells, groupedDataDaily)) == TrendGroups(cells, groupedDataDaily)
  {
    if cells != [] {
      var p := cells[..|cells| - 1];
      VisibleTrendGroups(p, groupedDataDaily);
      VisibleAppend(TrendGroups(p, groupedDataDaily), OverlayFor(cells[|cells| - 1], groupedDataDaily));
      var o := OverlayFor(cells[|cells| - 1], groupedDataDaily);
      if o != [] {
        assert o == [] + o;
        assert Visible(o) == o;
      }
    }
  }

  /**
   * Redrawing the overlays leaves exactly the new trend paths visible, however
   * many earlier redraws there were: trend lines never accumulate.
   */
  lemma RedrawShowsOnlyNewPaths(earlier: seq<OverlayGroup>, cells: seq<Cell>, groupedDataDaily: map<MonthKey, seq<DailyRecord>>)
    ensures Visible(Cleared(earlier) + TrendGroups(cells, groupedDataDaily)) == TrendGroups(cells, groupedDataDaily)
  {
    VisibleAppend(Cleared(earlier), TrendGroups(cells, groupedDataDaily));
    VisibleCleared(earlier);
    VisibleTrendGroups(cells, groupedDataDaily);
  }
}
