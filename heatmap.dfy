/**
 * The state one page script keeps: the processed data (fixed after loading),
 * the max/min toggle with its button label, and what is drawn on the page —
 * the matrix cells, the trend-line groups of the level-2 view, and the tooltip.
 */
module Heatmap {
  import opened Records
  import opened Aggregate
  import opened Matrix

  const ShowMaxLabel: string := "Show Max Temperature"
  const ShowMinLabel: string := "Show Min Temperature"

  /** The button text after a click: it offers the mode the next click switches to. */
  function ButtonLabel(showMinTemp: bool): (r: string)
    ensures r == ShowMaxLabel <==> showMinTemp
    ensures r == ShowMinLabel <==> !showMinTemp
  {
    if showMinTemp then ShowMaxLabel else ShowMinLabel
  }

  /** One drawn `rect.cell`: its datum and its fill. */
  datatype CellRect = CellRect(cell: Cell, fill: Fill)

  function CellRects(cells: seq<Cell>, monthlyData: map<MonthKey, Bucket>, showMinTemp: bool): seq<CellRect> {
    seq(|cells|, i requires 0 <= i < |cells| => CellRect(cells[i], CellFill(cells[i], monthlyData, showMinTemp)))
  }

  function CellsOf(rects: seq<CellRect>): seq<Cell> {
    seq(|rects|, i requires 0 <= i < |rects| => rects[i].cell)
  }

  /** A drawn cell's datum has a month index of the month list. */
  lemma CellMonthInRange(years: seq<int>, months: seq<string>, monthlyData: map<MonthKey, Bucket>, showMinTemp: bool, i: nat)
    requires i < |CellRects(Cells(years, months, monthlyData), monthlyData, showMinTemp)|
    ensures 0 <= CellRects(Cells(years, months, monthlyData), monthlyData, showMinTemp)[i].cell.month < |months|
  {
    var cs := Cells(years, months, monthlyData);
    CellsCover(years, months, monthlyData);
    assert cs[i] in cs;
  }

  class HeatmapView {
    /** Every loaded row, before the year filter (the colour domain is taken over these). */
    const data: seq<DailyRecord>
    const startYear: int
    const endYear: int
    /** True for the level-2 view, which draws daily trend lines in the cells. */
    const withTrendLines: bool
    const years: seq<int>
    const months: seq<string>
    const monthlyData: map<MonthKey, Bucket>
    /** The daily groups of the level-2 view; empty in the level-1 view, which has none. */
    const groupedDataDaily: map<MonthKey, seq<DailyRecord>>

    var showMinTemp: bool
    var buttonLabel: string
    var colourDomain: Option<(real, real)>
    /** The `rect.cell` elements, in document order. */
    var cells: seq<CellRect>
    /** The `<g>` elements appended by `drawTrendLines`, in document order. */
    var overlays: seq<OverlayGroup>
    /** What the tooltip shows; `None` while it is transparent. */
    var tooltip: Option<TooltipText>

    /** The loaded data went through the script's `processData`. */
    ghost predicate Processed()
    {
      var kept := FilterYears(data, startYear, endYear);
      && years == Distinct(YearsOf(kept))
      && months == MonthNames
      && monthlyData == MonthlyData(kept)
      && groupedDataDaily == (if withTrendLines then GroupByMonth(kept) else map[])
    }

    /** The page shows what the current mode calls for. */
    ghost predicate Valid()
      reads this
    {
      && Processed()
      && colourDomain == ColourDomain(data, showMinTemp)
      && cells == CellRects(Cells(years, months, monthlyData), monthlyData, showMinTemp)
      && (withTrendLines ==> Visible(overlays) == TrendGroups(CellsOf(cells), groupedDataDaily))
      && (!withTrendLines ==> overlays == [])
    }

    /** The level-1 script: rows of 1997 to 2017, matrix only. */
    constructor Level1(rows: seq<DailyRecord>, initialLabel: string)
      ensures Valid()
      ensures data == rows && startYear == 1997 && endYear == 2017 && !withTrendLines
      ensures !showMinTemp && buttonLabel == initialLabel && tooltip == None
    {
      var y, m, md := ProcessData(rows, 1997, 2017);
      data, startYear, endYear, withTrendLines := rows, 1997, 2017, false;
      years, months, monthlyData, groupedDataDaily := y, m, md, map[];
      showMinTemp, buttonLabel, tooltip := false, initialLabel, None;
      colourDomain, cells, overlays := None, [], [];
      new;
      UpdateVisualization();
    }

    /** The level-2 script: rows of 2008 to 2017, matrix and daily trend lines. */
    constructor Level2(rows: seq<DailyRecord>, initialLabel: string)
      ensures Valid()
      ensures data == rows && startYear == 2008 && endYear == 2017 && withTrendLines
      ensures !showMinTemp && buttonLabel == initialLabel && tooltip == None
      ensures overlays == TrendGroups(CellsOf(cells), groupedDataDaily)
    {
      var y, m, md, g := ProcessDataDaily(rows, 2008, 2017);
      data, startYear, endYear, withTrendLines := rows, 2008, 2017, true;
      years, months, monthlyData, groupedDataDaily := y, m, md, g;
      showMinTemp, buttonLabel, tooltip := false, initialLabel, None;
      colourDomain, cells, overlays := None, [], [];
      new;
      assert Processed();
      UpdateVisualization();
      assert Cleared([]) == [];
    }

    /**
     * `updateVisualization`: pick the colour domain for the current mode over
     * all rows, redraw the matrix and, in the level-2 view, the trend lines.
     */
    method UpdateVisualization()
      requires Processed()
      requires !withTrendLines ==> overlays == []
      modifies this`colourDomain, this`cells, this`overlays
      ensures Valid()
      ensures withTrendLines ==> overlays == Cleared(old(overlays)) + TrendGroups(CellsOf(cells), groupedDataDaily)
      ensures !withTrendLines ==> overlays == []
    {
      colourDomain := ColourDomain(data, showMinTemp);
      DrawMatrix();
      if withTrendLines {
        ghost var before := overlays;
        DrawTrendLines();
        RedrawShowsOnlyNewPaths(before, CellsOf(cells), groupedDataDaily);
      }
    }

    /** `drawMatrix`: remove every cell, then append one per (year, month index). */
    method DrawMatrix()
      modifies this`cells
      ensures cells == CellRects(Cells(years, months, monthlyData), monthlyData, showMinTemp)
    {
      cells := CellRects(Cells(years, months, monthlyData), monthlyData, showMinTemp);
    }

    /**
     * `drawTrendLines`: strip the old trend paths (their groups stay), then
     * visit the cells in order; a cell without a daily group is skipped, any
     * other gets a new group with the max path and the min path.
     */
    method DrawTrendLines()
      modifies this`overlays
      ensures overlays == Cleared(old(overlays)) + TrendGroups(CellsOf(cells), groupedDataDaily)
    {
      overlays := Cleared(overlays);
      ghost var cleared := overlays;
      ghost var drawn := CellsOf(cells);
      var i := 0;
      while i < |cells|
        invariant 0 <= i <= |cells|
        invariant overlays == cleared + TrendGroups(drawn[..i], groupedDataDaily)
      {
        var c := cells[i].cell;
        assert drawn[..i + 1][..i] == drawn[..i] && drawn[..i + 1][i] == c;
        var key := CellKey(c);
        if key in groupedDataDaily {
          var dailyData := groupedDataDaily[key];
          overlays := overlays + [OverlayGroup(c.year, c.month,
                                  [TrendPath(DailyMax, dailyData), TrendPath(DailyMin, dailyData)])];
        }
        i := i + 1;
      }
      assert drawn[..i] == drawn;
    }

    /** The toggle button's click handler. */
    method OnToggleClick()
      requires Valid()
      modifies this
      ensures Valid()
      ensures showMinTemp == !old(showMinTemp)
      ensures buttonLabel == ButtonLabel(showMinTemp)
      ensures tooltip == old(tooltip)
      ensures withTrendLines ==> overlays == Cleared(old(overlays)) + TrendGroups(CellsOf(cells), groupedDataDaily)
    {
      showMinTemp := !showMinTemp;
      buttonLabel := ButtonLabel(showMinTemp);
      UpdateVisualization();
    }

    /** `mouseover` on the i-th cell: the tooltip shows only over a cell with a bucket. */
    method MouseOver(i: nat)
      requires Valid() && i < |cells|
      modifies this`tooltip
      ensures CellKey(cells[i].cell) in monthlyData ==>
        tooltip.Some? && tooltip.value.maxTemperature == monthlyData[CellKey(cells[i].cell)].maxTemperature &&
        tooltip.value.minTemperature == monthlyData[CellKey(cells[i].cell)].minTemperature
      ensures CellKey(cells[i].cell) in monthlyData ==>
        0 <= cells[i].cell.month <= 11 && tooltip == Tooltip(cells[i].cell, monthlyData)
      ensures CellKey(cells[i].cell) !in monthlyData ==> tooltip == old(tooltip)
    {
      var c := cells[i].cell;
      CellMonthInRange(years, months, monthlyData, showMinTemp, i);
      if CellKey(c) in monthlyData {
        tooltip := Tooltip(c, monthlyData);
      }
    }

    /** `mouseout`: the tooltip becomes transparent. */
    method MouseOut()
      modifies this`tooltip
      ensures tooltip == None
    {
      tooltip := None;
    }
  }

  /**
   * Two clicks on the toggle restore the mode, the fills and the colour
   * domain, and leave the same trend paths visible. The label then matches
   * the mode, so it is restored too when it matched before the clicks.
   */
  method ToggleTwice(v: HeatmapView)
    requires v.Valid()
    modifies v
    ensures v.Valid()
    ensures v.showMinTemp == old(v.showMinTemp)
    ensures v.buttonLabel == ButtonLabel(v.showMinTemp)
    ensures old(v.buttonLabel) == ButtonLabel(old(v.showMinTemp)) ==> v.buttonLabel == old(v.buttonLabel)
    ensures v.cells == old(v.cells) && v.colourDomain == old(v.colourDomain)
    ensures Visible(v.overlays) == old(Visible(v.overlays))
  {
    v.OnToggleClick();
    v.OnToggleClick();
  }
}
