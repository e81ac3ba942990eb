# nmonvisualizer report panel and bar-chart builder, modelled in Dafny

This project models two parts of the NMON Visualizer GUI.

- **The report panel's chart-invalidation state machine** (`ReportPanel`). A report panel shows one tab per chart definition and keeps one "needs update" bit per chart. GUI property changes ("granularity", "timeZone", "chartFormatter", "lineChartLegend", "annotation") and interval-manager events set the bits of the charts they affect. Data-set and multiplex changes rebuild all tabs. Only the selected chart of an enabled panel is regenerated, and its bit is cleared when it is. Chart regeneration is recorded as a `Refresh` entry in the panel state, so that "only dirty, visible charts are regenerated" can be stated.
- **The bar-chart builder's `addBar`** (`BarChartBuilder`). It covers:
  - how one analysis record becomes (bar, category, value) cells of a category dataset, in the order of the three nested loops;
  - the "categories have different statistics" flag;
  - the choice of dataset 0 or 1 (secondary Y axis);
  - the subtraction pass, which turns cumulative columns into first differences;
  - the legend rule;
  - the tick-label shrink above 32 categories;
  - the fixed [0, 100] range of `setPercentYAxis`.

Files:

| file | module | content |
|---|---|---|
| `outcomes.dfy` | `Outcomes` | `Option`, `Result` and the Java exceptions the core can throw |
| `definitions.dfy` | `Definitions` | statistics, data definitions, chart kinds, bar-chart options |
| `category_dataset.dfy` | `CategoryDataset` | an abstract category dataset: ordered keys, optional cells, tuples, the mixed-statistics flag |
| `subtraction.dfy` | `Subtraction` | first differences, running sums, and the subtraction loops of `addBar` |
| `bar_chart_builder.dfy` | `BarChartBuilder` | cell enumeration, insertion, `addBar`, `setPercentYAxis` |
| `dirty_bits.dfy` | `DirtyBits` | the `BitSet` operations the panel uses |
| `report_panel.dfy` | `ReportPanel` | panel state, invariant and every event handler |
| `report_panel_properties.dfy` | `ReportPanelProperties` | event sequences and properties that relate several operations |

How the Java is represented:

- **Exceptions.** A Java exception becomes an `Err` result naming the exception class.
- **Null dirty vector.** A `null` dirty vector is `None`.
- **Swing widgets.** A panel is reduced to a tab count, the selected index and one enabled flag per chart panel. A new Swing component starts enabled, so `Initial` does too. The first tab added to an empty tabbed pane becomes the selected one, so a rebuild ends with tab 0 selected.
- **Report cache.** Its answers are the `Lookups` input.
- **Analysis record.** Host/type/field matching, the bar and category naming modes and the statistic values are the function-typed fields of `RecordView`.
- **Arithmetic.** Values are mathematical reals.

A chart definition of an unrecognised class is logged (`ReportPanel.java:507-510`), and then `chartPanel.addPropertyChangeListener(this)` is called on the still-`null` panel (`ReportPanel.java:514`). So `BuildTabs` returns `Err(NullPointer)` whenever the chosen charts contain such a definition; the model follows the code here, not the "logged and skipped" reading of the log message.

## Model

| member | source | states |
|---|---|---|
| ReportPanel.UpdateChart | src/com/ibm/nmon/gui/report/ReportPanel.java:245-270 | A chart is regenerated iff the panel is enabled, a chart is selected and its bit is set. Exactly that bit is cleared and one refresh (create, or clear without data) is recorded. Nothing else in the panel changes. |
| ReportPanel.Invalidate | src/com/ibm/nmon/gui/report/ReportPanel.java:306-323 | A listener loop followed by `updateChart`. A bit ends set iff it was set or its chart is sensitive, except the selected bit of an enabled panel, which ends clear. A refresh is recorded iff the selected chart was or became dirty on an enabled panel. |
| ReportPanel.GranularitySensitive | src/com/ibm/nmon/gui/report/ReportPanel.java:309-320 | A chart is invalidated by a granularity change iff it is not an interval or bar chart, or one of its data definitions uses granularity-maximum. |
| ReportPanel.UpdateIntervalCharts | src/com/ibm/nmon/gui/report/ReportPanel.java:427-436 | Exactly the interval charts are added to the dirty set; nothing but the bits and refreshes changes. One refresh of the visible chart is recorded iff the panel is enabled, a chart is selected, and that chart was dirty or is an interval chart. |
| ReportPanel.ResetReport | src/com/ibm/nmon/gui/report/ReportPanel.java:236-243 | Every chart becomes dirty except the selected one of an enabled panel, which is regenerated. A null vector stays null and changes nothing. |
| ReportPanel.Annotate | src/com/ibm/nmon/gui/report/ReportPanel.java:325-334 | Only the selected chart is made clean: every other bit is set and nothing is regenerated. It throws IndexOutOfBounds exactly when the vector exists and nothing is selected (`flip(-1)`). A null vector is a no-op. |
| ReportPanel.PropertyChange | src/com/ibm/nmon/gui/report/ReportPanel.java:291-363 | Only "annotation" can throw, and only without a selection. Only the bits and the refreshes can change. No handler clears the bit of a non-selected chart. After any invalidating event the selected chart of an enabled panel is clean. For "granularity", "timeZone" and "lineChartLegend" one refresh of the visible chart is recorded iff the panel is enabled, a chart is selected, and that chart was dirty or is one the handler invalidates. "chartFormatter" refreshes the visible chart whenever there is one on an enabled panel. "annotation", "chart", "highlighted…" and unknown names regenerate nothing, and the last three change nothing. |
| ReportPanel.OnIntervalEvent | src/com/ibm/nmon/gui/report/ReportPanel.java:365-397 | A current-interval change dirties exactly the non-interval charts. Added, removed, cleared and renamed intervals dirty exactly the interval charts. One refresh of the visible chart is recorded iff the panel is enabled, a chart is selected, and that chart was dirty or is one the event invalidates. |
| ReportPanel.SetEnabled | src/com/ibm/nmon/gui/report/ReportPanel.java:143-182 | An unchanged flag is a no-op, and so is any change without charts or without a selection apart from the flag itself. Enabling refreshes the selected chart if it is dirty. Disabling marks it dirty and regenerates nothing. The selected panel takes the flag and becomes the previous tab. Nothing else changes: data, charts, selection, tab count and other bits are kept. |
| ReportPanel.SelectTab | src/com/ibm/nmon/gui/report/ReportPanel.java:110-132 | While building, or with no selection, only the index changes. Selecting the placeholder tab throws ClassCast. Otherwise: the chart refreshes iff the panel is enabled and the chart is dirty; the previous panel is disabled; the new one is enabled and remembered. Only the selection, bits, refreshes, panel flags and previous tab can change. |
| ReportPanel.ChooseCharts | src/com/ibm/nmon/gui/report/ReportPanel.java:458-474 | Without multiplexing, or with several data sets, the report's charts are used. A single data set takes the by-type or by-field charts of its mode, and none under a null mode. |
| ReportPanel.BuildTabs | src/com/ibm/nmon/gui/report/ReportPanel.java:441-525 | Throws NullPointer iff a report exists, data exists and a chosen chart has an unknown class. Otherwise the charts become those the report cache chooses, or none without a report or data; data sets, mode, enabled flag and refreshes are kept. A non-empty build has one tab and one enabled panel per chart, every chart dirty, and tab 0 selected. Every empty outcome leaves only the placeholder tab. The no-data return keeps the previous tab; the other paths drop a previous tab past the count. |
| ReportPanel.FinishBuild | src/com/ibm/nmon/gui/report/ReportPanel.java:520-524 | Building stops, and a previous tab past the tab count becomes -1; one within it is kept. Nothing else changes. |
| ReportPanel.Rebuild | src/com/ibm/nmon/gui/report/ReportPanel.java:196-197 | Rebuild then reset. Fails iff the rebuild throws, and then with NullPointer. Data sets, mode and enabled flag are kept, and the charts are those chosen for them, with one enabled tab each or the single placeholder tab, tab 0 selected and building finished; every chart but the first of an enabled panel is dirty; chart 0 is the only one regenerated, and only with charts on an enabled panel; a previous tab past the new count is forgotten (kept when a report exists but the data is empty). With charts in use there is data. |
| ReportPanel.SetData | src/com/ibm/nmon/gui/report/ReportPanel.java:201-211 | On the single-data-set constructor's list it throws UnsupportedOperation and changes nothing. Otherwise the only possible error is NullPointer from the rebuild. On success the data sets become exactly the given ones and the charts are those chosen for them, with one enabled tab each or the single placeholder tab, tab 0 selected and building finished; every chart but the first of an enabled panel is dirty; chart 0 is the only one regenerated, and only with charts on an enabled panel; a previous tab past the new count is forgotten (kept when a report exists but the data is empty). |
| ReportPanel.AddData | src/com/ibm/nmon/gui/report/ReportPanel.java:213-220 | A data set already present changes nothing. Adding to the single-data-set constructor's list throws UnsupportedOperation. Otherwise it is added once and the charts are those chosen for them, with one enabled tab each or the single placeholder tab, tab 0 selected and building finished; every chart but the first of an enabled panel is dirty; chart 0 is the only one regenerated, and only with charts on an enabled panel; a previous tab past the new count is forgotten (kept when a report exists but the data is empty). |
| ReportPanel.RemoveData | src/com/ibm/nmon/gui/report/ReportPanel.java:222-228 | An absent data set changes nothing. Removing from the single-data-set constructor's list throws UnsupportedOperation. Otherwise exactly one occurrence is removed and the charts are those chosen for them, with one enabled tab each or the single placeholder tab, tab 0 selected and building finished; every chart but the first of an enabled panel is dirty; chart 0 is the only one regenerated, and only with charts on an enabled panel; a previous tab past the new count is forgotten (kept when a report exists but the data is empty). |
| ReportPanel.ClearData | src/com/ibm/nmon/gui/report/ReportPanel.java:230-234 | Throws UnsupportedOperation exactly on the single-data-set constructor's list. Otherwise it leaves no data, no charts, only the placeholder tab and no regeneration. |
| ReportPanel.SetMultiplexMode | src/com/ibm/nmon/gui/report/ReportPanel.java:188-199 | Null means no multiplexing. An unchanged mode changes nothing. The only possible error is NullPointer from the rebuild. Otherwise the mode is stored and the charts are those chosen under it, with one enabled tab each or the single placeholder tab, tab 0 selected and building finished; every chart but the first of an enabled panel is dirty; chart 0 is the only one regenerated, and only with charts on an enabled panel; a previous tab past the new count is forgotten (kept when a report exists but the data is empty). |
| ReportPanel.Create | src/com/ibm/nmon/gui/report/ReportPanel.java:92-141 | The three constructors, as data sets, a possibly null mode, and whether the list is immutable. Fails iff the first build throws. A new panel keeps those three, shows the charts the report cache chooses, is disabled and has regenerated nothing. With charts it has every chart dirty and the first panel disabled as the previous tab. |
| DirtyBits.SetAll | src/com/ibm/nmon/gui/report/ReportPanel.java:239 | Every bit is set. |
| DirtyBits.Set | src/com/ibm/nmon/gui/report/ReportPanel.java:313 | Only bit `i` can change, and it becomes set. |
| DirtyBits.Clear | src/com/ibm/nmon/gui/report/ReportPanel.java:263 | Only bit `i` can change, and it becomes clear. |
| DirtyBits.Flip | src/com/ibm/nmon/gui/report/ReportPanel.java:330 | Only bit `i` changes, to its negation. |
| DirtyBits.Mark | src/com/ibm/nmon/gui/report/ReportPanel.java:353-359 | After the loop a bit is set iff it was set or its chart is sensitive. |
| ReportPanelProperties.Run | src/com/ibm/nmon/gui/report/ReportPanel.java:291-397 | Any event sequence keeps the invariant, the charts, the selection and the enabled flag. |
| ReportPanelProperties.EventsOnlySetBits | src/com/ibm/nmon/gui/report/ReportPanel.java:291-397 | Across any sequence of events, a dirty chart other than the selected one stays dirty. |
| ReportPanelProperties.SelectedStaysClean | src/com/ibm/nmon/gui/report/ReportPanel.java:245-270 | On an enabled panel, a clean visible chart stays clean across any sequence of events. |
| ReportPanelProperties.GranularityChange | src/com/ibm/nmon/gui/report/ReportPanel.java:298-324 | Interval and bar charts become dirty only when they use granularity-maximum; every other chart becomes dirty. The visible chart of an enabled panel is regenerated once iff it was dirty or is one of those. |
| ReportPanelProperties.GranularityWithoutMaximum | src/com/ibm/nmon/gui/report/ReportPanel.java:303-321 | Without granularity-maximum, bar and interval bits are unchanged and line and histogram charts are dirty. |
| ReportPanelProperties.TimeZoneChange | src/com/ibm/nmon/gui/report/ReportPanel.java:340-345 | A time-zone change dirties exactly the interval charts, and regenerates the visible chart of an enabled panel once iff it was dirty or is an interval chart. |
| ReportPanelProperties.LegendToggle | src/com/ibm/nmon/gui/report/ReportPanel.java:350-362 | A legend toggle dirties exactly the line charts; histogram bits are unchanged. The visible chart of an enabled panel is regenerated once iff it was dirty or is a line chart. |
| ReportPanelProperties.FormatterChange | src/com/ibm/nmon/gui/report/ReportPanel.java:346-349 | Every chart is dirty except the visible one of an enabled panel. Exactly one refresh, of the visible chart, is recorded iff the panel is enabled and a chart is selected. |
| ReportPanelProperties.AnnotationChange | src/com/ibm/nmon/gui/report/ReportPanel.java:325-334 | With a selection, every chart but the selected one is dirty and the selected one is clean. |
| ReportPanelProperties.AnnotationWithoutSelection | src/com/ibm/nmon/gui/report/ReportPanel.java:328-330 | With charts and no selection, an annotation throws IndexOutOfBounds. |
| ReportPanelProperties.DisableThenEnable | src/com/ibm/nmon/gui/report/ReportPanel.java:163-169 | Disabling then enabling regenerates the selected chart exactly once and leaves every other bit as it was. |
| ReportPanelProperties.AnnotationWhileDisabled | src/com/ibm/nmon/gui/report/ReportPanel.java:155-170 | On a disabled panel, an annotation clears the selected bit without regenerating; re-enabling then regenerates nothing, so the visible chart is never redrawn for it. |
| ReportPanelProperties.SwitchBackIsFree | src/com/ibm/nmon/gui/report/ReportPanel.java:110-132 | After a rebuild, showing tab 1 and then tab 0 creates chart 1 and nothing more. The first panel ends enabled and the second disabled. |
| ReportPanelProperties.CreateThenEnable | src/com/ibm/nmon/gui/report/ReportPanel.java:108-134 | Enabling a new panel creates exactly chart 0; every other chart stays dirty. |
| ReportPanelProperties.AddThenRemove | src/com/ibm/nmon/gui/report/ReportPanel.java:213-228 | Adding a new data set and then removing it gives back the original data sets. |
| ReportPanelProperties.SetMultiplexModeIdempotent | src/com/ibm/nmon/gui/report/ReportPanel.java:188-199 | Setting the same multiplex mode a second time changes nothing. |
| BarChartBuilder.FieldCells | src/com/ibm/nmon/gui/chart/builder/BarChartBuilder.java:135-152 | One cell per matching field, in field order. |
| BarChartBuilder.MakeCell | src/com/ibm/nmon/gui/chart/builder/BarChartBuilder.java:136-151 | A cell carries its definition's statistic, the value that statistic gives for its own type and field, the bar and category names of the naming modes, and the tuple of the record's data set, type and field. |
| BarChartBuilder.TypeCells | src/com/ibm/nmon/gui/chart/builder/BarChartBuilder.java:134-153 | Soundness: every cell carries the definition's statistic, the record's data set and one of the matching types. Completeness and order are stated by `TypeCellsExactly` and `TypeCellsSplit`. |
| BarChartBuilder.DefinitionCells | src/com/ibm/nmon/gui/chart/builder/BarChartBuilder.java:133-154 | Soundness: a definition that does not match the host contributes no cell, and every cell carries its statistic and the record's data set. Completeness is stated by `DefinitionCellsExactly`, order by `DefinitionCellsSplit` and `DefinitionCellsAt`. |
| BarChartBuilder.Cells | src/com/ibm/nmon/gui/chart/builder/BarChartBuilder.java:132-155 | Soundness: every cell comes from a host-matching definition and carries its statistic; if no definition matches, there are no cells. Completeness is stated by `CellsExactly`, order by `CellsSplit` and `CellsAt`. |
| BarChartBuilder.TypeCellsExactly | src/com/ibm/nmon/gui/chart/builder/BarChartBuilder.java:134-153 | The type loop yields exactly one cell per (matching type, matching field) pair: every such cell is produced and no other. |
| BarChartBuilder.DefinitionCellsExactly | src/com/ibm/nmon/gui/chart/builder/BarChartBuilder.java:133-154 | A definition yields exactly the cells of its matching types and fields when it matches the host, and none otherwise. |
| BarChartBuilder.CellsExactly | src/com/ibm/nmon/gui/chart/builder/BarChartBuilder.java:132-155 | A cell is produced iff it comes from some host-matching definition, one of its matching types and one of that type's matching fields. |
| BarChartBuilder.TypeCellsAppend | src/com/ibm/nmon/gui/chart/builder/BarChartBuilder.java:134-153 | Cells of consecutive type lists concatenate: the type loop keeps the order of the matching types. |
| BarChartBuilder.CellsAppend | src/com/ibm/nmon/gui/chart/builder/BarChartBuilder.java:132-155 | Cells of consecutive definition lists concatenate: the definition loop keeps the definitions' order. |
| BarChartBuilder.CellsSplit | src/com/ibm/nmon/gui/chart/builder/BarChartBuilder.java:132-155 | The cells of definition `k` come after those of every earlier definition and before those of every later one. |
| BarChartBuilder.TypeCellsSplit | src/com/ibm/nmon/gui/chart/builder/BarChartBuilder.java:134-153 | The cells of type `k` are one per matching field, in field order, after those of earlier types and before those of later ones. |
| BarChartBuilder.DefinitionCellsSplit | src/com/ibm/nmon/gui/chart/builder/BarChartBuilder.java:133-154 | For a host-matching definition, the cells of its matching type `k` are one per matching field, in field order, after those of its earlier types and before those of its later ones. |
| BarChartBuilder.DefinitionCellsAt | src/com/ibm/nmon/gui/chart/builder/BarChartBuilder.java:134-153 | The cell of matching type `j` and field `i` sits at position (cells of types before `j`) + `i` of the definition's cells. |
| BarChartBuilder.CellsAt | src/com/ibm/nmon/gui/chart/builder/BarChartBuilder.java:132-155 | The nested-loop order position by position: the cell of definition `k`, type `j`, field `i` sits at position (cells of definitions before `k`) + (cells of types before `j`) + `i`. |
| BarChartBuilder.ConsecutiveStatsDifferIffMixed | src/com/ibm/nmon/gui/chart/builder/BarChartBuilder.java:144-148 | Comparing each cell's statistic with the previous one finds a difference iff not all statistics are equal. |
| BarChartBuilder.LastCell | src/com/ibm/nmon/gui/chart/builder/BarChartBuilder.java:150-151 | No cell is found iff no cell has the key pair; a found cell has the key pair and no later cell has it. |
| BarChartBuilder.FirstOccurrences | src/com/ibm/nmon/gui/chart/builder/BarChartBuilder.java:150 | The result holds exactly the names not already seen, each once. |
| BarChartBuilder.InsertCell | src/com/ibm/nmon/gui/chart/builder/BarChartBuilder.java:141-151 | An unknown bar or category is appended as a key. The cell's own tuple is associated with its keys and every other association is kept. The flag is raised iff it was raised or the previous statistic differs. |
| BarChartBuilder.InsertCellValue | src/com/ibm/nmon/gui/chart/builder/BarChartBuilder.java:150 | The new value is stored under its keys and every other value is kept. |
| BarChartBuilder.InsertCellTuple | src/com/ibm/nmon/gui/chart/builder/BarChartBuilder.java:151 | The cell's tuple is associated with its keys and every other key pair keeps its tuple or lack of one. |
| BarChartBuilder.InsertCells | src/com/ibm/nmon/gui/chart/builder/BarChartBuilder.java:130-155 | The loop keeps the dataset well-formed, keeps the old row and column keys in place as a prefix, never drops an association, and never lowers the flag. Exact contents are stated by the `InsertCells…` lemmas below. |
| BarChartBuilder.InsertCellsFlag | src/com/ibm/nmon/gui/chart/builder/BarChartBuilder.java:130-155 | The flag is raised iff it was raised, the first cell differs from the previous statistic, or two neighbouring cells differ. |
| BarChartBuilder.InsertCellsRowPrefix | src/com/ibm/nmon/gui/chart/builder/BarChartBuilder.java:150 | The bar keys afterwards are the old ones, in place, followed by the new bar names, each once, in the order of their first cell. |
| BarChartBuilder.InsertCellsColumnPrefix | src/com/ibm/nmon/gui/chart/builder/BarChartBuilder.java:150 | The category keys afterwards are the old ones, in place, followed by the new category names, each once, in the order of their first cell. |
| BarChartBuilder.InsertCellsRowKey | src/com/ibm/nmon/gui/chart/builder/BarChartBuilder.java:150 | A bar key exists afterwards iff it existed before or some cell names it. |
| BarChartBuilder.InsertCellsColumnKey | src/com/ibm/nmon/gui/chart/builder/BarChartBuilder.java:150 | A category key exists afterwards iff it existed before or some cell names it. |
| BarChartBuilder.InsertCellsValueAt | src/com/ibm/nmon/gui/chart/builder/BarChartBuilder.java:150 | Each (bar, category) cell holds the value of the last cell inserted for it, else its old value. |
| BarChartBuilder.InsertCellsTupleAt | src/com/ibm/nmon/gui/chart/builder/BarChartBuilder.java:151 | Each (bar, category) pair holds the tuple of the last cell inserted for it, else its old tuple or none. |
| BarChartBuilder.InsertCellsTuples | src/com/ibm/nmon/gui/chart/builder/BarChartBuilder.java:151 | Every inserted cell has a tuple, old associations stay, and each key pair holds the tuple of its last cell. |
| BarChartBuilder.Insert | src/com/ibm/nmon/gui/chart/builder/BarChartBuilder.java:130-155 | The whole loop from a fresh previous statistic. The flag is raised iff it was raised or the cells mix statistics. Values and tuples follow last-write-wins. The keys are the old ones followed by the new names in first-occurrence order. The dataset stays well-formed. |
| BarChartBuilder.CreateChart | src/com/ibm/nmon/gui/chart/builder/BarChartBuilder.java:38-71 | A new chart has an empty dataset 0, an empty dataset 1 exactly when there is a secondary Y axis, and no legend. |
| BarChartBuilder.CreatedChartTarget | src/com/ibm/nmon/gui/chart/builder/BarChartBuilder.java:51-55 | A chart made for a definition always has the dataset `addBar` writes for it, and that dataset starts empty. |
| BarChartBuilder.SetPercentYAxis | src/com/ibm/nmon/gui/chart/builder/BarChartBuilder.java:196-199 | The primary range becomes [0, 100]; nothing else changes. |
| BarChartBuilder.FormatRange | src/com/ibm/nmon/gui/chart/builder/BarChartBuilder.java:86-88 | The range is fixed to [0, 100] iff the definition asks for a percent axis; otherwise the chart is unchanged. |
| BarChartBuilder.TargetDataset | src/com/ibm/nmon/gui/chart/builder/BarChartBuilder.java:127-128 | Dataset 1 for a secondary-axis definition, dataset 0 otherwise; missing only when dataset 1 is asked for and absent. |
| BarChartBuilder.WithTarget | src/com/ibm/nmon/gui/chart/builder/BarChartBuilder.java:127-128 | Dataset 1 is written for a secondary axis and dataset 0 otherwise; the other dataset is untouched. |
| BarChartBuilder.LegendRowCount | src/com/ibm/nmon/gui/chart/builder/BarChartBuilder.java:175-180 | The counted rows are those of dataset 0, plus those of dataset 1 exactly when the definition has a secondary axis. |
| BarChartBuilder.AddBar | src/com/ibm/nmon/gui/chart/builder/BarChartBuilder.java:111-194 | Throws IllegalState without a chart and IllegalArgument without a definition, in that order. A missing dataset 1 throws NullPointer, and so does subtraction over an empty cell. Otherwise only the target dataset changes, and it becomes the inserted dataset. With subtraction, every column becomes its first differences. The legend appears once the counted rows exceed one. The tick scale is 0.9 iff there are more than 32 categories. |
| BarChartBuilder.MixedFlagExample | src/com/ibm/nmon/gui/chart/builder/BarChartBuilder.java:144-146 | An average followed by a maximum raises the flag. |
| BarChartBuilder.SameFlagExample | src/com/ibm/nmon/gui/chart/builder/BarChartBuilder.java:144-146 | Two averages leave the flag lowered. |
| CategoryDataset.AddRowKey | src/com/ibm/nmon/gui/chart/builder/BarChartBuilder.java:150 | An unknown bar key is appended as an empty row; no stored value changes. |
| CategoryDataset.AddColumnKey | src/com/ibm/nmon/gui/chart/builder/BarChartBuilder.java:150 | An unknown category key is appended as an empty column; no stored value changes. |
| CategoryDataset.PutValue | src/com/ibm/nmon/gui/chart/builder/BarChartBuilder.java:150 | The value is stored under existing keys; every other cell is kept. |
| CategoryDataset.AddValue | src/com/ibm/nmon/gui/chart/builder/BarChartBuilder.java:150 | After `addValue` the cell reads back the value, unknown keys are appended, and every other cell is kept. |
| CategoryDataset.AssociateTuple | src/com/ibm/nmon/gui/chart/builder/BarChartBuilder.java:151 | The tuple is associated with the cell, every other association is kept, and nothing else changes. |
| CategoryDataset.SetCell | src/com/ibm/nmon/gui/chart/builder/BarChartBuilder.java:169 | `setValue` on an existing cell changes only that cell. |
| CategoryDataset.Get | src/com/ibm/nmon/gui/chart/builder/BarChartBuilder.java:150 | Reads the cell `addValue` stores under a (bar, category) key pair. A value is found only under a row key and a column key that both exist. |
| CategoryDataset.GetAt | src/com/ibm/nmon/gui/chart/builder/BarChartBuilder.java:162-166 | Reading by position agrees with reading by key: the keys at row `j` and column `i` lead back to cell (`j`, `i`). |
| Subtraction.SubtractColumn | src/com/ibm/nmon/gui/chart/builder/BarChartBuilder.java:160-171 | The inner loop turns column `i` into its first differences, keeping its top value. Every other column is untouched. |
| Subtraction.SubtractionPass | src/com/ibm/nmon/gui/chart/builder/BarChartBuilder.java:157-173 | Row 0 is kept, each lower cell becomes its increase over the cell above, and every column is the first differences of the original. Each column's running sums give back the original values. |
| Subtraction.SumOfDelta | src/com/ibm/nmon/gui/chart/builder/BarChartBuilder.java:160-171 | The running total after row `n-1` equals the original value of that row. |
| Subtraction.PrefixSumsOfDelta | src/com/ibm/nmon/gui/chart/builder/BarChartBuilder.java:157-173 | Running sums undo the pass. |
| Subtraction.DeltaOfPrefixSums | src/com/ibm/nmon/gui/chart/builder/BarChartBuilder.java:157-173 | The pass undoes running sums, so the two are inverse bijections on columns. |
| Subtraction.DeltaExample | src/com/ibm/nmon/gui/chart/builder/BarChartBuilder.java:157-173 | The column 10, 15, 12 becomes 10, 5, -3, and its running sum ends at 12. |
| Subtraction.DeltaNotIdempotent | src/com/ibm/nmon/gui/chart/builder/BarChartBuilder.java:157-173 | A second pass over the same column gives 10, -5, -8, so repeating `addBar` changes values already differenced. |
| Subtraction.DeltaFixedPoints | src/com/ibm/nmon/gui/chart/builder/BarChartBuilder.java:157-173 | A second pass changes nothing iff every entry before the last is zero. |

## Left out

- `saveAllCharts` (`ReportPanel.java:539-626`): a progress dialog, a background thread and file output. It also selects every tab in turn and then the original tab again (`ReportPanel.java:589`, `:614`). Each selection fires the tab listener, so on the model's terms it is a chain of `SelectTab` calls: on an enabled panel it regenerates and clears every dirty chart it visits. That chain is not modelled as an operation of its own.
- Chart construction: chart-factory settings (granularity, formatter, legend visibility, interval) and `createChart` contents. A regeneration is recorded only as `Created(i)` or `Cleared(i)`.
- Event forwarding: `firePropertyChange` forwarding of "chart", "annotation" and "highlighted…" events, and the "chart" event the tab listener fires when nothing was regenerated. These are notifications to other listeners and do not change panel state.
- Listener bookkeeping: listener registration in the constructor, `dispose`, and the per-panel listener removal and `clearChart` in `removeAll`.
- `createNoReportsLabel` and the placeholder texts.
- Getters: `getChartPanel`, `getPreviousTab` and `getMultiplexMode`. They read state the model exposes directly.
- The "CPU Utilization by Process" special case in `buildTabs` (`ReportPanel.java:488-495`). It changes a chart definition's axis option, not the tab structure or any bit.
- Report-cache queries: these are inputs (`Lookups`). The report cache is not part of this model.
- Bar-chart presentation: renderer choice (stacked or not), axis labels, tool tips, margins and label angles in `createChart`/`formatChart`. Also `plot.configureRangeAxes()`. These are JFreeChart presentation with no effect on the datasets.
- `DataTupleCategoryDataset` is not part of this model. `CategoryDataset` assumes its keys keep insertion order and that `getValue`/`setValue` address cells by key and by position as shown.
- Statistic values, host/type/field matching and the naming modes are not part of this model. They are function parameters of `RecordView`.
- Floating point: values are reals. Neither the double rounding of the subtraction pass nor the `float` multiplication by 0.9 of the font size is modelled. The font is reduced to its scale factor.
- Data-set ordering: the data set list is a multiset. Sorting only affects the report-cache queries, which are inputs.
- `BitSet` capacity: the dirty vector has exactly one bit per chart. Bits past the chart count are never read, so `set`, `clear` and `flip` past the end are no-ops.
- Null arguments and casts on event values: a `null` property name, or a non-Integer granularity / non-Boolean legend value, would throw in the source.
- Thread confinement: all handlers run one at a time, as on the Swing event thread.
- ReportPanel.BuildTabs: the error result drops the partial state the source leaves behind. The tabs added before the failing definition stay, and `buildingTabs` stays true.
- ReportPanel.Annotate: the error result drops the bits that `set(0, size())` raised before `flip(-1)` threw.
- ReportPanel.SelectTab: the error result drops the selection change Swing already made before the listener threw.
- BarChartBuilder.AddBar: the error result for an empty cell under subtraction drops the insertions and the columns already differenced before the `NullPointerException`.
- ReportPanel.BuildTabs: previous-tab rule. `buildTabs` resets `previousTab` only when it is greater than the tab count (`ReportPanel.java:520-522`), so a previous tab equal to the count survives, and the no-data return keeps any previous tab. A later rebuild with more tabs can turn that surviving index into a valid one. The tab listener then disables that panel when the selection next changes (`ReportPanel.java:123-125`). The model keeps the rule as written and promises nothing about which panel that is.
- ReportPanel.Annotate: on a disabled panel an "annotation" event clears the selected chart's bit, so re-enabling regenerates nothing and the chart cleared by `setEnabled(false)` stays blank (`ReportPanelProperties.AnnotationWhileDisabled` exhibits it). It is not claimed as a defect. Annotations come from the panel's chart panels, and `setEnabled(false)` disables only the selected one (`ReportPanel.java:173-176`). That panel is also the only one on screen, so the sequence needs an annotation from a chart panel the user cannot see; the code does not rule this out.
- ReportPanel.Create: the general constructor keeps the caller's list by reference (`ReportPanel.java:103`). Changes the caller makes through that alias are not modelled, and neither is the `Cleared` refresh that only such a change could reach.
