/** Properties of the report panel that relate several operations or whole sequences of
    events, and for each event the charts it leaves dirty. */
module ReportPanelProperties {
  import opened Outcomes
  import opened Definitions
  import opened ReportPanel

  /** Any event the panel listens to: a property change from the GUI or a chart panel, or
      an interval-manager callback. */
  datatype Event = PropertyEvent(name: string) | IntervalListenerEvent(event: IntervalEvent)

  function Dispatch(p: Panel, ev: Event): (r: Result<Panel>)
    requires Inv(p)
    ensures r.Ok? ==> Inv(r.value) && r.value.charts == p.charts && r.value.selected == p.selected
    ensures r.Ok? ==> r.value.enabled == p.enabled
  {
    match ev
    case PropertyEvent(name) => PropertyChange(p, name)
    case IntervalListenerEvent(e) => Ok(OnIntervalEvent(p, e))
  }

  /** Handles events in order, stopping at the first exception. */
  function Run(p: Panel, evs: seq<Event>): (r: Result<Panel>)
    requires Inv(p)
    ensures r.Ok? ==> Inv(r.value) && r.value.charts == p.charts && r.value.selected == p.selected
    ensures r.Ok? ==> r.value.enabled == p.enabled
    decreases |evs|
  {
    if evs == [] then Ok(p)
    else
      match Dispatch(p, evs[0])
      case Err(e) => Err(e)
      case Ok(q) => Run(q, evs[1..])
  }

  /** Event handlers only set bits: across any sequence of events, a chart other than the
      selected one that was dirty stays dirty. */
  lemma {:induction false} EventsOnlySetBits(p: Panel, evs: seq<Event>, i: nat)
    requires Inv(p) && i < |p.charts| && i != p.selected && Dirty(p, i)
    ensures Run(p, evs).Ok? ==> Dirty(Run(p, evs).value, i)
    decreases |evs|
  {
    if evs != [] {
      var d := Dispatch(p, evs[0]);
      if d.Ok? {
        assert Dirty(d.value, i) by {
          match evs[0]
          case PropertyEvent(name) =>
          case IntervalListenerEvent(e) =>
        }
        EventsOnlySetBits(d.value, evs[1..], i);
      }
    }
  }

  /** On an enabled panel the visible chart is never left stale: if it is clean before a
      sequence of events, it is clean after it. */
  lemma {:induction false} SelectedStaysClean(p: Panel, evs: seq<Event>)
    requires Inv(p) && p.enabled && 0 <= p.selected < |p.charts| && !Dirty(p, p.selected)
    ensures Run(p, evs).Ok? ==> !Dirty(Run(p, evs).value, p.selected)
    decreases |evs|
  {
    if evs != [] {
      var d := Dispatch(p, evs[0]);
      if d.Ok? {
        assert !Dirty(d.value, p.selected) by {
          match evs[0]
          case PropertyEvent(name) =>
          case IntervalListenerEvent(e) =>
        }
        SelectedStaysClean(d.value, evs[1..]);
      }
    }
  }

  /** A granularity change: interval and bar charts become dirty only when they use
      granularity-maximum, every other kind always; the visible chart is regenerated when
      it was dirty or is one of those. */
  lemma GranularityChange(p: Panel)
    requires Inv(p)
    ensures var r := PropertyChange(p, "granularity");
            && r.Ok?
            && r.value.refreshes == p.refreshes +
                 (if p.enabled && 0 <= p.selected < |p.charts| &&
                     (Dirty(p, p.selected) || GranularitySensitive(p.charts[p.selected]))
                  then [RefreshOf(p, p.selected)] else [])
            && forall i :: 0 <= i < |p.charts| && !(i == p.selected && p.enabled) ==>
                 Dirty(r.value, i) ==
                   (Dirty(p, i) ||
                    if p.charts[i].kind in {IntervalChart, BarChart} then UsesGranularityMaximum(p.charts[i]) else true)
  {
  }

  /** Without granularity-maximum anywhere, a granularity change leaves the bits of bar
      and interval charts as they were and marks every line and histogram chart. */
  lemma GranularityWithoutMaximum(p: Panel)
    requires Inv(p)
    requires forall k :: 0 <= k < |p.charts| ==> !UsesGranularityMaximum(p.charts[k])
    ensures var r := PropertyChange(p, "granularity").value;
            forall i :: 0 <= i < |p.charts| && !(i == p.selected && p.enabled) ==>
              && (p.charts[i].kind in {IntervalChart, BarChart} ==> Dirty(r, i) == Dirty(p, i))
              && (p.charts[i].kind in {LineChart, HistogramChart} ==> Dirty(r, i))
  {
  }

  /** A time-zone change dirties exactly the interval charts and regenerates the visible
      chart when it was dirty or is one. */
  lemma TimeZoneChange(p: Panel)
    requires Inv(p)
    ensures var r := PropertyChange(p, "timeZone");
            && r.Ok?
            && r.value.refreshes == p.refreshes +
                 (if p.enabled && 0 <= p.selected < |p.charts| &&
                     (Dirty(p, p.selected) || p.charts[p.selected].kind == IntervalChart)
                  then [RefreshOf(p, p.selected)] else [])
            && forall i :: 0 <= i < |p.charts| && !(i == p.selected && p.enabled) ==>
                 Dirty(r.value, i) == (Dirty(p, i) || p.charts[i].kind == IntervalChart)
  {
  }

  /** A legend toggle dirties exactly the line charts and regenerates the visible chart
      when it was dirty or is one; histogram charts are not among them although they are
      drawn on line-chart panels. */
  lemma LegendToggle(p: Panel)
    requires Inv(p)
    ensures var r := PropertyChange(p, "lineChartLegend");
            && r.Ok?
            && r.value.refreshes == p.refreshes +
                 (if p.enabled && 0 <= p.selected < |p.charts| &&
                     (Dirty(p, p.selected) || p.charts[p.selected].kind == LineChart)
                  then [RefreshOf(p, p.selected)] else [])
            && forall i :: 0 <= i < |p.charts| && !(i == p.selected && p.enabled) ==>
                 && Dirty(r.value, i) == (Dirty(p, i) || p.charts[i].kind == LineChart)
                 && (p.charts[i].kind == HistogramChart ==> Dirty(r.value, i) == Dirty(p, i))
  {
    HandledNamesNotHighlighted();
  }

  /** A formatter change dirties every chart and regenerates exactly the visible one. */
  lemma FormatterChange(p: Panel)
    requires Inv(p)
    ensures var r := PropertyChange(p, "chartFormatter");
            && r.Ok?
            && (forall i :: 0 <= i < |p.charts| ==> Dirty(r.value, i) == !(i == p.selected && p.enabled))
            && r.value.refreshes == p.refreshes +
                 (if p.enabled && 0 <= p.selected < |p.charts| then [RefreshOf(p, p.selected)] else [])
  {
    HandledNamesNotHighlighted();
  }

  /** After an annotation with a chart selected, every chart but the selected one is
      dirty and the selected one is clean. */
  lemma AnnotationChange(p: Panel)
    requires Inv(p) && 0 <= p.selected < |p.charts|
    ensures var r := PropertyChange(p, "annotation");
            && r.Ok?
            && forall i :: 0 <= i < |p.charts| ==> Dirty(r.value, i) == (i != p.selected)
  {
  }

  /** An annotation while nothing is selected throws from `flip(-1)`. */
  lemma AnnotationWithoutSelection(p: Panel)
    requires Inv(p) && p.selected == -1 && |p.charts| > 0
    ensures PropertyChange(p, "annotation") == Err(IndexOutOfBounds)
  {
  }

  /** Disabling and re-enabling a panel regenerates the selected chart exactly once and
      leaves every other bit as it was. */
  lemma DisableThenEnable(p: Panel)
    requires Inv(p) && p.enabled && 0 <= p.selected < |p.charts|
    ensures var r := SetEnabled(SetEnabled(p, false), true);
            && r.enabled
            && r.refreshes == p.refreshes + [RefreshOf(p, p.selected)]
            && !Dirty(r, p.selected)
            && forall i :: 0 <= i < |p.charts| && i != p.selected ==> Dirty(r, i) == Dirty(p, i)
  {
  }

  /** After a rebuild of an enabled panel with at least two charts, showing the second
      tab creates its chart and switching back to the first creates nothing more: only
      dirty tabs are regenerated. */
  lemma SwitchBackIsFree(p: Panel, l: Lookups)
    requires Inv(p) && p.enabled
    requires Rebuild(p, l).Ok? && |Rebuild(p, l).value.charts| >= 2
    ensures var q := Rebuild(p, l).value;
            var a := SelectTab(q, 1);
            && a.Ok?
            && var b := SelectTab(a.value, 0);
               && b.Ok?
               && b.value.refreshes == p.refreshes + [Created(0), Created(1)]
               && b.value.panelEnabled[0] && !b.value.panelEnabled[1]
  {
  }

  /** A fresh panel shows its first chart once it is enabled: exactly that chart is
      created and every other chart stays dirty. */
  lemma CreateThenEnable(dataSets: multiset<DataSetId>, mode: Option<MultiplexMode>, immutable: bool, l: Lookups)
    requires Create(dataSets, mode, immutable, l).Ok? && |Create(dataSets, mode, immutable, l).value.charts| > 0
    ensures var q := SetEnabled(Create(dataSets, mode, immutable, l).value, true);
            && q.refreshes == [Created(0)]
            && !Dirty(q, 0)
            && forall i :: 1 <= i < |q.charts| ==> Dirty(q, i)
  {
  }

  /** Adding a new data set and removing it again gives back the original data sets. */
  lemma AddThenRemove(p: Panel, d: DataSetId, l: Lookups)
    requires Inv(p) && d !in p.dataSets && AddData(p, d, l).Ok?
    ensures var q := AddData(p, d, l).value;
            && d in q.dataSets
            && (RemoveData(q, d, l).Ok? ==> RemoveData(q, d, l).value.dataSets == p.dataSets)
  {
  }

  /** Choosing the same multiplex mode twice does nothing the second time. */
  lemma SetMultiplexModeIdempotent(p: Panel, mode: Option<MultiplexMode>, l: Lookups)
    requires Inv(p) && SetMultiplexMode(p, mode, l).Ok?
    ensures SetMultiplexMode(SetMultiplexMode(p, mode, l).value, mode, l) == SetMultiplexMode(p, mode, l)
  {
  }

  /** An annotation that reaches a disabled panel leaves its selected chart clean,
      although disabling had cleared that chart's panel and marked it for re-creation;
      re-enabling then regenerates nothing, so the tab stays blank. */
  lemma AnnotationWhileDisabled(p: Panel)
    requires Inv(p) && p.enabled && 0 <= p.selected < |p.charts|
    ensures var a := SetEnabled(p, false);
            && Dirty(a, p.selected)
            && var b := PropertyChange(a, "annotation");
               && b.Ok?
               && var c := SetEnabled(b.value, true);
                  && !Dirty(c, p.selected)
                  && c.refreshes == p.refreshes
  {
  }
}
