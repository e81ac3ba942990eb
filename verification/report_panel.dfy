/** The report panel's chart-invalidation state machine. One tab per chart definition,
    one dirty bit per chart. Event handlers set bits; `UpdateChart` clears the bit of the
    selected chart when it regenerates it, and an "annotation" event clears that bit
    without regenerating anything (`ReportPanel.java:329-330`).
    Swing widgets are reduced to a tab count, the selected index and one enabled flag per
    chart panel; chart construction is recorded as a `Refresh` entry. */
module ReportPanel {
  import opened Outcomes
  import opened Definitions
  import opened DirtyBits

  type DataSetId = nat

  datatype MultiplexMode = NoMultiplex | ByType | ByField

  /** A regeneration of the selected chart: `createChart(index)` when data sets exist,
      otherwise clearing its panel. */
  datatype Refresh = Created(index: nat) | Cleared(index: nat)

  /** Answers of the report cache for the current data sets: whether the report defines
      any chart at all, its charts for the data sets, and its charts multiplexed across
      types and across fields of the single data set. */
  datatype Lookups = Lookups(
    reportDefined: bool,
    report: seq<ChartDefinition>,
    byType: seq<ChartDefinition>,
    byField: seq<ChartDefinition>)

  datatype Panel = Panel(
    dataSets: multiset<DataSetId>,   // the data set list, up to order
    immutableDataSets: bool,         // the list is the one-element list of the single-data-set constructor
    mode: Option<MultiplexMode>,     // None is null
    charts: seq<ChartDefinition>,    // chartsInUse
    dirty: Option<seq<bool>>,        // chartNeedsUpdate; None is null
    tabCount: nat,
    selected: int,                   // the selected tab, -1 for none
    enabled: bool,                   // the panel's own enabled flag
    panelEnabled: seq<bool>,         // enabled flag of each chart panel
    previousTab: int,
    buildingTabs: bool,
    refreshes: seq<Refresh>)         // every regeneration so far, oldest first

  /** With charts in use there is one tab, one dirty bit and one panel per chart; without
      charts there is at most the placeholder tab. The selection is -1 or a tab. */
  predicate Inv(p: Panel)
  {
    && -1 <= p.selected < p.tabCount
    && p.previousTab >= -1
    && (|p.charts| > 0 ==>
          && p.tabCount == |p.charts|
          && p.dirty.Some? && |p.dirty.value| == |p.charts|
          && |p.panelEnabled| == |p.charts|)
    && (|p.charts| == 0 ==> p.tabCount <= 1 && p.panelEnabled == [])
  }

  /** The dirty bit of chart `i`. */
  function Dirty(p: Panel, i: int): bool
    requires Inv(p) && 0 <= i < |p.charts|
  {
    p.dirty.value[i]
  }

  /** What regenerating chart `i` does: it is created, or cleared when there is no data. */
  function RefreshOf(p: Panel, i: nat): Refresh
  {
    if |p.dataSets| == 0 then Cleared(i) else Created(i)
  }

  /** `updateChart()`: when the panel is enabled, has tabs, a chart is selected and its
      bit is set, regenerate it and clear exactly that bit. Returns whether that happened. */
  function UpdateChart(p: Panel): (r: (Panel, bool))
    requires Inv(p)
    ensures Inv(r.0)
    ensures r.0.(dirty := p.dirty, refreshes := p.refreshes) == p
    ensures r.1 <==> p.enabled && 0 <= p.selected < |p.charts| && Dirty(p, p.selected)
    ensures forall i :: 0 <= i < |p.charts| ==> Dirty(r.0, i) == (Dirty(p, i) && !(r.1 && i == p.selected))
    ensures r.0.refreshes == p.refreshes + (if r.1 then [RefreshOf(p, p.selected)] else [])
    ensures |p.charts| == 0 ==> r.0 == p
  {
    if p.enabled && p.tabCount != 0 && p.selected >= 0 && |p.charts| > 0 && p.dirty.value[p.selected] then
      (p.(dirty := Some(Clear(p.dirty.value, p.selected)),
          refreshes := p.refreshes + [RefreshOf(p, p.selected)]), true)
    else (p, false)
  }

  /** What the `updateChart()` after a listener loop over `sensitive` charts records: a
      refresh of the selected chart of an enabled panel when that chart was dirty or
      became dirty. */
  function SelectedRefresh(p: Panel, sensitive: ChartDefinition -> bool): seq<Refresh>
    requires Inv(p)
  {
    if p.enabled && 0 <= p.selected < |p.charts| && (Dirty(p, p.selected) || sensitive(p.charts[p.selected]))
    then [RefreshOf(p, p.selected)] else []
  }

  /** A listener's loop over the charts followed by `updateChart()`: every chart for which
      `sensitive` holds becomes dirty, then the selected chart is regenerated if the panel
      is enabled. So a bit ends set iff it was set or its chart is sensitive, except the
      selected bit of an enabled panel, which ends clear. */
  function Invalidate(p: Panel, sensitive: ChartDefinition -> bool): (r: Panel)
    requires Inv(p)
    ensures Inv(r)
    ensures r.(dirty := p.dirty, refreshes := p.refreshes) == p
    ensures forall i :: 0 <= i < |p.charts| ==>
              Dirty(r, i) == ((Dirty(p, i) || sensitive(p.charts[i])) && !(i == p.selected && p.enabled))
    ensures r.refreshes == p.refreshes + SelectedRefresh(p, sensitive)
  {
    var marked := if |p.charts| > 0 then p.(dirty := Some(Mark(p.dirty.value, p.charts, sensitive))) else p;
    UpdateChart(marked).0
  }

  /** Charts a granularity change invalidates: interval and bar charts only when one of
      their data definitions uses granularity-maximum, every other kind always. */
  function GranularitySensitive(c: ChartDefinition): (b: bool)
    ensures b <==> (c.kind in {IntervalChart, BarChart} ==>
                    exists k :: 0 <= k < |c.data| && c.data[k].statistic == GranularityMaximum)
  {
    if c.kind == IntervalChart || c.kind == BarChart then UsesGranularityMaximum(c) else true
  }

  predicate IsIntervalChart(c: ChartDefinition)
  {
    c.kind == IntervalChart
  }

  predicate IsNotIntervalChart(c: ChartDefinition)
  {
    c.kind != IntervalChart
  }

  predicate IsLineChart(c: ChartDefinition)
  {
    c.kind == LineChart
  }

  /** `updateIntervalCharts()`: exactly the interval charts are invalidated. */
  function UpdateIntervalCharts(p: Panel): (r: Panel)
    requires Inv(p)
    ensures Inv(r)
    ensures r.(dirty := p.dirty, refreshes := p.refreshes) == p
    ensures forall i :: 0 <= i < |p.charts| ==>
              Dirty(r, i) == ((Dirty(p, i) || p.charts[i].kind == IntervalChart) && !(i == p.selected && p.enabled))
    ensures r.refreshes == p.refreshes +
              (if p.enabled && 0 <= p.selected < |p.charts| &&
                  (Dirty(p, p.selected) || p.charts[p.selected].kind == IntervalChart)
               then [RefreshOf(p, p.selected)] else [])
  {
    Invalidate(p, IsIntervalChart)
  }

  /** `resetReport()`: every bit is set (a null vector stays null), then the selected
      chart is refreshed. */
  function ResetReport(p: Panel): (r: Panel)
    requires Inv(p)
    ensures Inv(r)
    ensures r.(dirty := p.dirty, refreshes := p.refreshes) == p
    ensures forall i :: 0 <= i < |p.charts| ==> Dirty(r, i) == !(i == p.selected && p.enabled)
    ensures r.refreshes == p.refreshes +
              (if p.enabled && 0 <= p.selected < |p.charts| then [RefreshOf(p, p.selected)] else [])
    ensures p.dirty.None? ==> r == p
  {
    var all := if p.dirty.Some? then p.(dirty := Some(SetAll(p.dirty.value))) else p;
    UpdateChart(all).0
  }

  /** The "annotation" branch: every bit is set and the selected one flipped back, so
      only the selected chart stays clean; nothing is regenerated. With a dirty vector
      and no selection, `flip(-1)` throws. */
  function Annotate(p: Panel): (r: Result<Panel>)
    requires Inv(p)
    ensures r.Err? <==> p.dirty.Some? && p.selected < 0
    ensures r.Err? ==> r.error == IndexOutOfBounds
    ensures p.dirty.None? ==> r == Ok(p)
    ensures r.Ok? ==> Inv(r.value) && r.value.(dirty := p.dirty) == p
    ensures r.Ok? ==> forall i :: 0 <= i < |p.charts| ==> Dirty(r.value, i) == (i != p.selected)
  {
    if p.dirty.None? then Ok(p)
    else if p.selected < 0 then Err(IndexOutOfBounds)
    else Ok(p.(dirty := Some(Flip(SetAll(p.dirty.value), p.selected))))
  }

  predicate StartsWith(s: string, prefix: string)
  {
    |prefix| <= |s| && s[..|prefix|] == prefix
  }

  /** None of the handled names after "annotation" starts with "highlighted". */
  lemma HandledNamesNotHighlighted()
    ensures !StartsWith("timeZone", "highlighted")
    ensures !StartsWith("chartFormatter", "highlighted")
    ensures !StartsWith("lineChartLegend", "highlighted")
  {
    assert "chartFormatter"[0] != "highlighted"[0];
    assert "lineChartLegend"[0] != "highlighted"[0];
  }

  /** The property names that invalidate charts. */
  predicate Invalidating(name: string)
  {
    name == "granularity" || name == "annotation" || name == "timeZone" ||
    name == "chartFormatter" || name == "lineChartLegend"
  }

  /** `propertyChange(evt)`, dispatched on the property name. "chart" and "highlighted…"
      events are only forwarded; unknown names do nothing. No handler clears the bit of
      any chart but the selected one, and only "annotation" can throw. */
  function PropertyChange(p: Panel, name: string): (r: Result<Panel>)
    requires Inv(p)
    ensures r.Err? <==> name == "annotation" && p.dirty.Some? && p.selected < 0
    ensures r.Ok? ==> Inv(r.value) && r.value.(dirty := p.dirty, refreshes := p.refreshes) == p
    ensures r.Ok? ==> forall i :: 0 <= i < |p.charts| && i != p.selected && Dirty(p, i) ==> Dirty(r.value, i)
    ensures r.Ok? && p.enabled && 0 <= p.selected < |p.charts| &&
            Invalidating(name) ==>
              !Dirty(r.value, p.selected)
    ensures !Invalidating(name) ==> r == Ok(p)
    ensures r.Ok? ==>
              r.value.refreshes == p.refreshes +
                if name == "granularity" then SelectedRefresh(p, GranularitySensitive)
                else if name == "timeZone" then SelectedRefresh(p, IsIntervalChart)
                else if name == "lineChartLegend" then SelectedRefresh(p, IsLineChart)
                else if name == "chartFormatter" then
                  (if p.enabled && 0 <= p.selected < |p.charts| then [RefreshOf(p, p.selected)] else [])
                else []
  {
    HandledNamesNotHighlighted();
    if name == "chart" then Ok(p)
    else if name == "granularity" then Ok(Invalidate(p, GranularitySensitive))
    else if name == "annotation" then Annotate(p)
    else if StartsWith(name, "highlighted") then Ok(p)
    else if name == "timeZone" then Ok(UpdateIntervalCharts(p))
    else if name == "chartFormatter" then Ok(ResetReport(p))
    else if name == "lineChartLegend" then Ok(Invalidate(p, IsLineChart))
    else Ok(p)
  }

  /** The interval listener's callbacks. */
  datatype IntervalEvent = IntervalAdded | IntervalRemoved | IntervalsCleared | IntervalRenamed | CurrentIntervalChanged

  /** A change of the current interval invalidates exactly the non-interval charts; any
      other interval event invalidates exactly the interval charts. */
  function OnIntervalEvent(p: Panel, e: IntervalEvent): (r: Panel)
    requires Inv(p)
    ensures Inv(r)
    ensures r.(dirty := p.dirty, refreshes := p.refreshes) == p
    ensures forall i :: 0 <= i < |p.charts| ==>
              Dirty(r, i) ==
                ((Dirty(p, i) || (p.charts[i].kind == IntervalChart <==> e != CurrentIntervalChanged))
                 && !(i == p.selected && p.enabled))
    ensures r.refreshes == p.refreshes +
              SelectedRefresh(p, if e == CurrentIntervalChanged then IsNotIntervalChart else IsIntervalChart)
  {
    if e == CurrentIntervalChanged then Invalidate(p, IsNotIntervalChart) else UpdateIntervalCharts(p)
  }

  /** `setEnabled(e)`. Only a change of the flag does anything. With charts in use and a
      selection, enabling refreshes the selected chart, disabling marks it dirty so it is
      recreated when enabled again; either way the selected panel takes the new flag and
      becomes the previous tab. */
  function SetEnabled(p: Panel, e: bool): (r: Panel)
    requires Inv(p)
    ensures Inv(r)
    ensures r.enabled == e
    ensures e == p.enabled ==> r == p
    ensures r.(enabled := p.enabled, dirty := p.dirty, refreshes := p.refreshes,
               panelEnabled := p.panelEnabled, previousTab := p.previousTab) == p
    ensures |p.charts| == 0 || p.selected == -1 ==> r == p.(enabled := e)
    ensures e != p.enabled && 0 <= p.selected < |p.charts| ==>
              && r.previousTab == p.selected
              && r.panelEnabled == p.panelEnabled[p.selected := e]
              && (forall i :: 0 <= i < |p.charts| && i != p.selected ==> Dirty(r, i) == Dirty(p, i))
              && Dirty(r, p.selected) == !e
              && r.refreshes == p.refreshes + (if e && Dirty(p, p.selected) then [RefreshOf(p, p.selected)] else [])
    ensures !e ==> r.refreshes == p.refreshes
  {
    if e == p.enabled then p
    else
      var q := p.(enabled := e);
      if |q.charts| == 0 then q
      else
        var idx := q.selected;
        var q1 :=
          if e then (if idx != -1 then UpdateChart(q).0 else q)
          else (if idx != -1 then q.(dirty := Some(Set(q.dirty.value, idx))) else q);
        if idx != -1 then q1.(panelEnabled := q1.panelEnabled[idx := e], previousTab := idx) else q1
  }

  /** The tab change listener, after Swing selected tab `idx`. It does nothing while tabs
      are being built or when nothing is selected. Otherwise it refreshes the selected
      chart, disables the previous panel if that index is still a tab, enables the
      selected panel and remembers it as the previous tab. Selecting the placeholder tab
      (no charts) casts its label to a chart panel and throws. */
  function SelectTab(p: Panel, idx: int): (r: Result<Panel>)
    requires Inv(p) && -1 <= idx < p.tabCount
    ensures r.Err? <==> !p.buildingTabs && idx >= 0 && |p.charts| == 0
    ensures r.Err? ==> r.error == ClassCast
    ensures p.buildingTabs || idx == -1 ==> r == Ok(p.(selected := idx))
    ensures r.Ok? ==> Inv(r.value) && r.value.selected == idx
    ensures r.Ok? ==>
              r.value.(selected := p.selected, dirty := p.dirty, refreshes := p.refreshes,
                       panelEnabled := p.panelEnabled, previousTab := p.previousTab) == p
    ensures r.Ok? && !p.buildingTabs && idx >= 0 ==>
              var q := r.value;
              && q.previousTab == idx
              && q.panelEnabled[idx]
              && (forall k :: 0 <= k < |p.charts| && k != idx ==>
                    q.panelEnabled[k] == (p.panelEnabled[k] && k != p.previousTab))
              && (forall k :: 0 <= k < |p.charts| && k != idx ==> Dirty(q, k) == Dirty(p, k))
              && Dirty(q, idx) == (Dirty(p, idx) && !p.enabled)
              && q.refreshes == p.refreshes + (if p.enabled && Dirty(p, idx) then [RefreshOf(p, idx)] else [])
  {
    var q := p.(selected := idx);
    if q.buildingTabs || idx == -1 then Ok(q)
    else if |q.charts| == 0 then Err(ClassCast)
    else
      var q1 := UpdateChart(q).0;
      var q2 := if q1.previousTab != -1 && q1.previousTab < q1.tabCount
                then q1.(panelEnabled := q1.panelEnabled[q1.previousTab := false]) else q1;
      Ok(q2.(panelEnabled := q2.panelEnabled[idx := true], previousTab := idx))
  }

  /** The report-cache query `buildTabs` uses: multiplexing applies only with a single
      data set. A null mode with a single data set matches no branch, so the empty list
      `removeAll` left behind stays. */
  function ChooseCharts(mode: Option<MultiplexMode>, dataSetCount: nat, l: Lookups): (charts: seq<ChartDefinition>)
    ensures mode == Some(NoMultiplex) || dataSetCount > 1 ==> charts == l.report
    ensures dataSetCount <= 1 ==>
              && (mode == Some(ByType) ==> charts == l.byType)
              && (mode == Some(ByField) ==> charts == l.byField)
              && (mode == None ==> charts == [])
  {
    if mode == Some(NoMultiplex) || dataSetCount > 1 then l.report
    else if mode == Some(ByType) then l.byType
    else if mode == Some(ByField) then l.byField
    else []
  }

  /** The charts a successful `buildTabs` installs: none without a report or without
      data, otherwise the report cache's answer. */
  function InstalledCharts(dataSets: multiset<DataSetId>, mode: Option<MultiplexMode>, l: Lookups): seq<ChartDefinition>
  {
    if l.reportDefined && |dataSets| > 0 then ChooseCharts(mode, |dataSets|, l) else []
  }

  /** The end of `buildTabs`: forget a previous tab past the tab count, stop building. */
  function FinishBuild(p: Panel): (r: Panel)
    ensures !r.buildingTabs && r.previousTab <= r.tabCount
    ensures r.previousTab == p.previousTab || r.previousTab == -1
    ensures p.previousTab <= p.tabCount ==> r.previousTab == p.previousTab
    ensures r.(previousTab := p.previousTab, buildingTabs := p.buildingTabs) == p
  {
    p.(previousTab := if p.previousTab > p.tabCount then -1 else p.previousTab, buildingTabs := false)
  }

  /** `buildTabs()`. All tabs are removed. A report without charts, or no data sets, or
      no charts for the data sets, leaves only the placeholder tab (the last case also
      drops the dirty vector). Otherwise there is one tab and one enabled panel per
      chart and every chart is dirty. A chart of an unrecognised class throws after the
      error is logged, because no panel was created for it. The first tab ends selected. */
  function BuildTabs(p: Panel, l: Lookups): (r: Result<Panel>)
    requires Inv(p)
    ensures var charts := ChooseCharts(p.mode, |p.dataSets|, l);
            r.Err? <==> l.reportDefined && |p.dataSets| > 0 &&
                        exists k :: 0 <= k < |charts| && charts[k].kind == OtherChart
    ensures r.Err? ==> r.error == NullPointer
    ensures r.Ok? ==>
              var q := r.value;
              && Inv(q) && !q.buildingTabs && q.selected == 0 && q.tabCount >= 1
              && q.dataSets == p.dataSets && q.immutableDataSets == p.immutableDataSets
              && q.mode == p.mode && q.enabled == p.enabled && q.refreshes == p.refreshes
              && q.charts == InstalledCharts(p.dataSets, p.mode, l)
    ensures r.Ok? && |r.value.charts| > 0 ==>
              && |p.dataSets| > 0
              && (forall i :: 0 <= i < |r.value.charts| ==> Dirty(r.value, i) && r.value.panelEnabled[i])
    ensures r.Ok? && |r.value.charts| == 0 ==> r.value.tabCount == 1
    ensures r.Ok? && l.reportDefined && |p.dataSets| > 0 && ChooseCharts(p.mode, |p.dataSets|, l) == [] ==>
              r.value.dirty.None?
    ensures r.Ok? && (!l.reportDefined || |p.dataSets| > 0) ==>
              r.value.previousTab == (if p.previousTab > r.value.tabCount then -1 else p.previousTab)
    ensures r.Ok? && l.reportDefined && |p.dataSets| == 0 ==> r.value.previousTab == p.previousTab
  {
    // removeAll(): no tab, no chart, no selection
    var removed := p.(charts := [], tabCount := 0, selected := -1, panelEnabled := [], buildingTabs := true);
    var placeholder := removed.(tabCount := 1, selected := 0);
    if !l.reportDefined then Ok(FinishBuild(placeholder))
    else if |p.dataSets| == 0 then Ok(placeholder.(buildingTabs := false))
    else
      var charts := ChooseCharts(p.mode, |p.dataSets|, l);
      if |charts| == 0 then Ok(FinishBuild(placeholder.(dirty := None)))
      else if exists k :: 0 <= k < |charts| && charts[k].kind == OtherChart then Err(NullPointer)
      else
        Ok(FinishBuild(removed.(charts := charts, dirty := Some(SetAll(seq(|charts|, _ => false))),
                                tabCount := |charts|, selected := 0,
                                panelEnabled := seq(|charts|, _ => true))))
  }

  /** `buildTabs()` then `resetReport()`, as every data or multiplex change does. The
      charts become those the report cache chooses for the data sets; with charts in use,
      every chart but the selected first one of an enabled panel ends dirty, and that one
      has just been regenerated. */
  function Rebuild(p: Panel, l: Lookups): (r: Result<Panel>)
    requires Inv(p)
    ensures r.Err? <==> BuildTabs(p, l).Err?
    ensures r.Err? ==> r.error == NullPointer
    ensures r.Ok? ==> Inv(r.value) && r.value.selected == 0 && r.value.dataSets == p.dataSets
    ensures r.Ok? ==> r.value.mode == p.mode && r.value.immutableDataSets == p.immutableDataSets
    ensures r.Ok? ==> r.value.charts == InstalledCharts(p.dataSets, p.mode, l)
    ensures r.Ok? ==> !r.value.buildingTabs && r.value.enabled == p.enabled
    ensures r.Ok? && |r.value.charts| > 0 ==> |p.dataSets| > 0
    ensures r.Ok? ==> forall i :: 0 <= i < |r.value.charts| ==> Dirty(r.value, i) == !(i == 0 && p.enabled)
    ensures r.Ok? ==> r.value.refreshes == p.refreshes + (if p.enabled && |r.value.charts| > 0 then [Created(0)] else [])
    ensures r.Ok? ==>
              && r.value.tabCount == (if |r.value.charts| > 0 then |r.value.charts| else 1)
              && (forall i :: 0 <= i < |r.value.charts| ==> r.value.panelEnabled[i])
              && r.value.previousTab == (if l.reportDefined && |p.dataSets| == 0 then p.previousTab
                                         else if p.previousTab > r.value.tabCount then -1 else p.previousTab)
  {
    match BuildTabs(p, l)
    case Err(e) => Err(e)
    case Ok(q) => Ok(ResetReport(q))
  }

  /** What a data or multiplex change ends with after its rebuild: the given data sets
      and mode, the charts the report cache chooses for them, one enabled tab per chart
      (or the single placeholder tab), tab 0 selected, every chart dirty except the
      visible first one of an enabled panel, which alone has been regenerated, and the
      previous tab forgotten when it is out of range. */
  predicate Rebuilt(r: Panel, p: Panel, dataSets: multiset<DataSetId>, mode: Option<MultiplexMode>, l: Lookups)
  {
    && Inv(r) && r.dataSets == dataSets && r.mode == mode && r.selected == 0
    && r.immutableDataSets == p.immutableDataSets && r.enabled == p.enabled
    && r.charts == InstalledCharts(dataSets, mode, l)
    && (forall i :: 0 <= i < |r.charts| ==> Dirty(r, i) == !(i == 0 && p.enabled))
    && !r.buildingTabs
    && r.refreshes == p.refreshes + (if p.enabled && |r.charts| > 0 then [Created(0)] else [])
    && r.tabCount == (if |r.charts| > 0 then |r.charts| else 1)
    && (forall i :: 0 <= i < |r.charts| ==> r.panelEnabled[i])
    && r.previousTab == (if l.reportDefined && |dataSets| == 0 then p.previousTab
                         else if p.previousTab > r.tabCount then -1 else p.previousTab)
  }

  /** `setData(dataSets)`. The list of the single-data-set constructor cannot be
      cleared, so the call throws before anything changes. */
  function SetData(p: Panel, dataSets: multiset<DataSetId>, l: Lookups): (r: Result<Panel>)
    requires Inv(p)
    ensures p.immutableDataSets ==> r == Err(UnsupportedOperation)
    ensures !p.immutableDataSets && r.Err? ==> r.error == NullPointer
    ensures r.Ok? ==> Rebuilt(r.value, p, dataSets, p.mode, l)
  {
    if p.immutableDataSets then Err(UnsupportedOperation)
    else Rebuild(p.(dataSets := dataSets), l)
  }

  /** `addData(data)`: a data set already present changes nothing; adding to the list of
      the single-data-set constructor throws. */
  function AddData(p: Panel, d: DataSetId, l: Lookups): (r: Result<Panel>)
    requires Inv(p)
    ensures d in p.dataSets ==> r == Ok(p)
    ensures d !in p.dataSets && p.immutableDataSets ==> r == Err(UnsupportedOperation)
    ensures d !in p.dataSets && r.Ok? ==> Rebuilt(r.value, p, p.dataSets + multiset{d}, p.mode, l)
  {
    if d in p.dataSets then Ok(p)
    else if p.immutableDataSets then Err(UnsupportedOperation)
    else Rebuild(p.(dataSets := p.dataSets + multiset{d}), l)
  }

  /** `removeData(data)`: removes one occurrence; an absent data set changes nothing;
      removing from the list of the single-data-set constructor throws. */
  function RemoveData(p: Panel, d: DataSetId, l: Lookups): (r: Result<Panel>)
    requires Inv(p)
    ensures d !in p.dataSets ==> r == Ok(p)
    ensures d in p.dataSets && p.immutableDataSets ==> r == Err(UnsupportedOperation)
    ensures d in p.dataSets && r.Ok? ==>
              && Rebuilt(r.value, p, p.dataSets - multiset{d}, p.mode, l)
              && r.value.dataSets[d] == p.dataSets[d] - 1
  {
    if d !in p.dataSets then Ok(p)
    else if p.immutableDataSets then Err(UnsupportedOperation)
    else Rebuild(p.(dataSets := p.dataSets - multiset{d}), l)
  }

  /** `clearData()`: with no data sets only the placeholder tab remains and nothing is
      regenerated; the list of the single-data-set constructor cannot be cleared. */
  function ClearData(p: Panel, l: Lookups): (r: Result<Panel>)
    requires Inv(p)
    ensures p.immutableDataSets <==> r.Err?
    ensures r.Err? ==> r.error == UnsupportedOperation
    ensures r.Ok? ==> r.value.dataSets == multiset{} && r.value.charts == [] && r.value.tabCount == 1
    ensures r.Ok? ==> r.value.refreshes == p.refreshes
  {
    if p.immutableDataSets then Err(UnsupportedOperation)
    else Rebuild(p.(dataSets := multiset{}), l)
  }

  /** `setMultiplexMode(mode)`: a null mode means no multiplexing; an unchanged mode does
      nothing. */
  function SetMultiplexMode(p: Panel, mode: Option<MultiplexMode>, l: Lookups): (r: Result<Panel>)
    requires Inv(p)
    ensures var m := if mode.None? then NoMultiplex else mode.value;
            && (Some(m) == p.mode ==> r == Ok(p))
            && (r.Err? ==> r.error == NullPointer)
            && (Some(m) != p.mode && r.Ok? ==> Rebuilt(r.value, p, p.dataSets, Some(m), l))
  {
    var m := if mode.None? then NoMultiplex else mode.value;
    if Some(m) == p.mode then Ok(p) else Rebuild(p.(mode := Some(m)), l)
  }

  /** The panel before its constructor's first `buildTabs`: a Swing component starts
      enabled and without tabs. */
  function Initial(dataSets: multiset<DataSetId>, mode: Option<MultiplexMode>, immutable: bool): (p: Panel)
    ensures Inv(p) && p.dataSets == dataSets && p.mode == mode && p.immutableDataSets == immutable
    ensures p.enabled && p.charts == [] && p.tabCount == 0 && p.refreshes == []
  {
    Panel(dataSets, immutable, mode, [], None, 0, -1, true, [], -1, false, [])
  }

  /** The constructors: build the tabs, then disable the panel. The single-data-set
      constructor is `Create(multiset{data}, Some(NoMultiplex), true, l)`, the empty one
      `Create(multiset{}, Some(NoMultiplex), false, l)`, and the general one passes its
      list and mode, which may be null. A new panel is disabled, has regenerated nothing,
      shows the charts the report cache chooses, and with charts in use has every chart
      dirty and the first panel disabled as the previous tab. */
  function Create(dataSets: multiset<DataSetId>, mode: Option<MultiplexMode>, immutable: bool, l: Lookups): (r: Result<Panel>)
    ensures r.Err? <==> BuildTabs(Initial(dataSets, mode, immutable), l).Err?
    ensures r.Ok? ==> Inv(r.value) && !r.value.enabled && r.value.refreshes == [] && r.value.selected == 0
    ensures r.Ok? ==>
              && r.value.dataSets == dataSets && r.value.mode == mode && r.value.immutableDataSets == immutable
              && r.value.charts == InstalledCharts(dataSets, mode, l)
    ensures r.Ok? && |r.value.charts| > 0 ==>
              && (forall i :: 0 <= i < |r.value.charts| ==> Dirty(r.value, i))
              && !r.value.panelEnabled[0]
              && r.value.previousTab == 0
  {
    match BuildTabs(Initial(dataSets, mode, immutable), l)
    case Err(e) => Err(e)
    case Ok(q) => Ok(SetEnabled(q, false))
  }
}
