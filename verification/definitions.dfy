/** The chart and data definitions both components read. They are supplied from outside
    (the report cache) and are never changed by the modelled code. */
module Definitions {

  /** The statistic a data definition applies. Only granularity-maximum is told apart by
      the modelled code; every other statistic is known by its name. */
  datatype Statistic = GranularityMaximum | OtherStatistic(name: string)

  /** One data clause of a chart definition. Host, type and field matching are not part
      of this model, so a definition is known by an identity and its statistic. */
  datatype DataDefinition = DataDefinition(id: nat, statistic: Statistic)

  /** The exact class of a chart definition: line, interval line, bar, histogram, or any
      other class (including subclasses of the four, since the panel compares classes
      for equality). */
  datatype ChartKind = LineChart | IntervalChart | BarChart | HistogramChart | OtherChart

  /** A chart definition as the report panel sees it. */
  datatype ChartDefinition = ChartDefinition(kind: ChartKind, data: seq<DataDefinition>)

  /** The bar-chart options the bar builder reads from its definition. */
  datatype BarChartDefinition = BarChartDefinition(
    data: seq<DataDefinition>,
    hasSecondaryYAxis: bool,
    subtractionNeeded: bool,
    usePercentYAxis: bool)

  /** True iff some data clause of `c` uses the granularity-maximum statistic. */
  predicate UsesGranularityMaximum(c: ChartDefinition)
  {
    exists k :: 0 <= k < |c.data| && c.data[k].statistic == GranularityMaximum
  }
}
