# Support/resistance levels and trading signal of a stock dashboard

This project models the core of a single-stock dashboard in Dafny. The
dashboard finds swing support and resistance levels in intraday price bars,
groups nearby levels into bands, and turns them into a Buy/Sell/Hold signal.
Its raw-data page also shows a results table page by page.

The modules follow the program:

- `Levels` (levels.dfy) is the data model. It holds the OHLC `Bar`, the raw
  level `(index, price, kind)` and the grouped level
  `(anchor, price, kindLabel)`.
- `Fractal` (fractal.dfy) models `is_support_level`, `is_resistance_level`
  and `identify_levels`. Bar `i` is a support bar when the lows fall strictly
  over two bars into it and rise strictly over two bars out of it; a
  resistance bar is the mirror image on highs. The support test comes first.
- `StableSort` (stable_sort.dfy) models `sorted(levels, key=price)` as an
  insertion sort. It is specified as a sorted permutation that keeps the
  input order of equal prices, and it is proved to be the only such
  permutation.
- `Grouping` (grouping.dfy) models the sweep of `group_levels`. A level
  joins the open group when it is within `threshold` of the group's last
  member; otherwise it opens a new group. Each group becomes a grouped level
  carrying its first member's bar, its mean price and the `'-'`-joined sorted
  set of its kinds. The sweep is proved to be the only cut of the sorted
  levels into chained groups separated by gaps wider than `threshold`.
- `TradeSignal` (trade_signal.dfy) models the Buy/Sell/Hold rule of the main
  page as written. It also defines the rule with the evidently intended label
  test (see Findings).
- `Pagination` (pagination.dfy) models the page count and the row window of
  the raw-data page.

Prices are exact `real`s. The current price and the table's row count are
parameters.

## Model

| member | source | states |
|---|---|---|
| Levels.KindName | support_resistance.py:17-19 | the stored kind names are non-empty and begin with `S` for Support and `R` for Resistance, so the two names differ and neither is a lowercase word |
| Fractal.IsSupportLevel | support_resistance.py:2-4 | the strict two-bar chains of lows into and out of bar `i`; when they hold, bar `i`'s low is strictly below the low of every other bar from `i-2` to `i+2` |
| Fractal.IsResistanceLevel | support_resistance.py:7-9 | the strict two-bar chains of highs into and out of bar `i`; when they hold, bar `i`'s high is strictly above the high of every other bar from `i-2` to `i+2` |
| Fractal.LevelAt | support_resistance.py:16-19 | one bar yields at most one level; it yields one exactly when the bar is a support or a resistance bar; the level is a Support at the low when the support test holds, else a Resistance at the high |
| Fractal.ScanFrom | support_resistance.py:15-19 | the loop from bar `i` emits only bars at or after `i`, in strictly increasing bar order; each entry satisfies its kind's test and carries the matching price; an interior bar is emitted exactly when it is a support or resistance bar |
| Fractal.IdentifyLevels | support_resistance.py:13-20 | fewer than five bars give no level; every index lies in `2 .. n-3`; indices strictly increase, so there is at most one level per bar; Support entries carry the low of a support bar; Resistance entries carry the high of a bar that is a resistance bar and not a support bar; a bar is reported iff it is a support or resistance bar |
| Fractal.SameKindSpacing | support_resistance.py:2-9 | two support bars, or two resistance bars, are at least three bars apart |
| Fractal.DetectedSpacing | support_resistance.py:2-19 | two detected levels of the same kind are at least three indices apart |
| Fractal.RisingSeriesHasNoLevels | support_resistance.py:2-20 | strictly rising lows and highs yield no level |
| Fractal.FallingSeriesHasNoLevels | support_resistance.py:2-20 | strictly falling lows and highs yield no level |
| Fractal.ValleyFixture | support_resistance.py:13-20 | a V of lows 10, 9, 8, 7, 8, 9, 10 yields exactly one Support level, at bar 3 and price 7 |
| StableSort.Insert | support_resistance.py:26 | inserting into a sorted sequence keeps it sorted, adds exactly the new level, and places it ahead of equal prices that came after it in the input |
| StableSort.SortByPrice | support_resistance.py:26 | the result is sorted by price and is a permutation of the input that keeps the input order among equal prices |
| StableSort.SortedStableUnique | support_resistance.py:26 | two sorted sequences with the same levels in the same order at every price are equal, so the stable sort is unique |
| StableSort.SortByPriceIsTheStableSort | support_resistance.py:26 | any sorted, order-preserving permutation of the input is `SortByPrice` of it, Python's `sorted` included |
| Grouping.Sweep | support_resistance.py:28-43 | the groups laid end to end are the open group followed by the remaining levels; no group is empty; consecutive members of a group differ by at most `threshold`; each group starts more than `threshold` above the previous group's last member; the open group begins the first group; there are no more groups than levels |
| Grouping.SweepUnique | support_resistance.py:28-43 | any cut of the levels with those properties is the sweep's cut |
| Grouping.Groups | support_resistance.py:26-43 | the groups partition the stably sorted levels into chained groups with gaps wider than `threshold`; there are at most as many groups as levels; there are none iff the input is empty |
| Grouping.GroupsUnique | support_resistance.py:26-43 | the grouping is the only such partition of the sorted levels |
| Grouping.Average | support_resistance.py:33 | `sum / len` of a non-empty group: the mean times the group's size is the sum of its prices |
| Grouping.AverageWithinGroup | support_resistance.py:33 | a group's mean price lies between its lowest and highest price |
| Grouping.KindsOfGroup | support_resistance.py:34 | the kind set of a non-empty group holds exactly the kinds of its members, and it is one of the three non-empty sets |
| Grouping.LabelOf | support_resistance.py:35 | the joined sorted kind names are `Support`, `Resistance` and, for both kinds, `Resistance-Support` |
| Grouping.GroupLabel | support_resistance.py:34-35 | a non-empty group's label is one of the three labels; it is `Resistance-Support` iff both kinds are present, `Support` iff no member is a resistance, and `Resistance` iff no member is a support |
| Grouping.Summarize | support_resistance.py:33-36 | the grouped level is anchored at the first member's bar; its price is the group's mean (`Average`, whose product with the size is the sum) and lies between the group's lowest and highest price; its label names exactly the kinds present |
| Grouping.GroupLevels | support_resistance.py:24-45 | there is one grouped level per group, in group order, each summarising its group; empty input gives empty output; there are no more groups than levels; every label is one of the three labels |
| Grouping.GroupedLevelDescribesGroup | support_resistance.py:33-43 | the anchor is the bar of the group's cheapest, first-sorted member; the mean lies between the group's first and last sorted prices; the label names the kinds present |
| Grouping.NeighbourAveragesIncrease | support_resistance.py:30-43 | with a non-negative threshold, each grouped price is below the next one |
| Grouping.AveragesIncrease | support_resistance.py:30-43 | with a non-negative threshold, the grouped prices strictly increase along the output |
| Grouping.OneGroupPerSpreadLevel | support_resistance.py:30-37 | when every gap of the sorted prices exceeds the threshold, each level is its own group |
| Grouping.ZeroThresholdDistinctPrices | support_resistance.py:30 | with threshold 0 and distinct prices there is one group per level |
| Grouping.SingleGroup | support_resistance.py:28-43 | sorted levels whose consecutive gaps are within the threshold form a single group |
| Grouping.ChainedSpanExceedsThreshold | support_resistance.py:30 | levels at 10.0, 10.1 and 10.2 form one group under the default threshold 0.15, although the group spans 0.2 |
| Grouping.PairGroup | support_resistance.py:26-43 | two equally priced levels of different kinds form one `Resistance-Support` group anchored at the first of them in input order |
| Grouping.AnchorDependsOnInputOrder | support_resistance.py:26-36 | swapping two equally priced levels changes the anchor of their group, so the grouping depends on the order of its input |
| TradeSignal.PricesLabelled | Dashboard.py:116-117 | the list holds exactly the prices of the levels whose label equals the given label |
| TradeSignal.Decide | Dashboard.py:119-124 | Buy iff the resistance list is non-empty and the price is above every resistance; Sell iff not Buy, the support list is non-empty and the price is below every support; Hold otherwise |
| TradeSignal.Classify | Dashboard.py:115-124 | Buy iff some level is labelled exactly `resistance` and the price is above all of them; Sell iff not Buy, some level is labelled exactly `support` and the price is below all of them |
| TradeSignal.BoundaryPricesDoNotTrigger | Dashboard.py:119-121 | a price equal to the highest resistance is not a Buy, and a price equal to the lowest support is not a Sell |
| TradeSignal.DecideFixtures | Dashboard.py:119-124 | resistance 100 with price 101 gives Buy; support 50 with price 49 and no resistance gives Sell; price 75 between them gives Hold |
| TradeSignal.GroupLabelsAreCapitalised | Dashboard.py:116-117 | no label the grouper produces equals `support` or `resistance` |
| TradeSignal.PipelineAlwaysHolds | Dashboard.py:116-117 | whatever the levels, threshold and price, the signal computed on `group_levels` output is Hold |
| TradeSignal.PricesContaining | support_resistance.py:57 | the list holds exactly the prices of the levels whose label contains the given kind name |
| TradeSignal.ClassifyByKind | Dashboard.py:116-124 | the corrected rule: Buy iff some label contains `Resistance` and the price is above all such levels; Sell iff not Buy, some label contains `Support` and the price is below all such levels |
| TradeSignal.KindNamesInLabels | support_resistance.py:35 | `Resistance-Support` contains both kind names; `Support` and `Resistance` contain only their own |
| TradeSignal.LabelNamesGroupKinds | support_resistance.py:33-43 | a grouped level's label contains a kind name iff its group has a member of that kind |
| TradeSignal.AboveResistanceOnGroups | Dashboard.py:117-119 | on the grouper's output, the price is above every level whose label contains `Resistance` iff it is above the mean of every group that holds a resistance level, with at least one such group |
| TradeSignal.BelowSupportOnGroups | Dashboard.py:116-121 | on the grouper's output, the price is below every level whose label contains `Support` iff it is below the mean of every group that holds a support level, with at least one such group |
| TradeSignal.ClassifyByKindOnGroups | Dashboard.py:116-124 | on the grouper's output, the corrected rule buys iff some group holds a resistance and the price is above every such group's mean; it sells iff not Buy, some group holds a support and the price is below every such group's mean |
| TradeSignal.LowercaseFilterMissesBreakout | Dashboard.py:116-117 | one resistance level at 100 and a price of 101: the rule as written holds, the corrected rule buys |
| Pagination.TotalPages | Dashboard.py:233 | the page count is the ceiling of rows over page size: the pages hold every row, and one page fewer would not; it is zero iff the table is empty |
| Pagination.PageWindow | Dashboard.py:235-236 | page 1's window starts at row 0, and every window spans exactly one page size |
| Pagination.NextWindowStartsAtEnd | Dashboard.py:235-236 | each page's window starts where the previous page's ends; with `PageWindow`'s contract this fixes every window |
| Pagination.WindowOfRow | Dashboard.py:235-236 | row `k` is inside page `p`'s window iff `p == k / pageSize + 1` |
| Pagination.PageWithinTable | Dashboard.py:234-237 | every selectable page starts inside the table and shows between one and page-size rows |
| Pagination.RowOnExactlyOnePage | Dashboard.py:233-237 | every row is shown on a selectable page, and on no other page |
| Pagination.PagesCoverTable | Dashboard.py:233-237 | a row index is shown on some selectable page iff it is a row of the table |

## Left out

- `fetch_stock_data` and the yfinance download with its timezone conversion (Dashboard.py:10-12, 75-78) are network I/O; the bars are a parameter.
- `get_tradingview_recommendation` and the `more_page` that shows it are left out, because they call a third-party network service.
- `calculate_metrics` is left out. It aggregates floats from a CSV log, and its fallbacks depend on float truthiness and NaN.
- `plot_levels` and all Plotly and Streamlit rendering are left out. Only its `'Support' in label` test is reused, by `TradeSignal.PricesContaining`.
- Page routing through `st.session_state`, the sleep-and-rerun refresh loop, the CSV reads, and the table's filter and sort are UI state and library behaviour, so they are left out.
- IEEE floating-point rounding and NaN are not modelled, because prices are exact reals.
- Bar timestamps are not modelled. A bar is identified by its position, since `df['Low'][i]` is used as positional indexing on the bar frame.
- Pagination.TotalPages: for an empty table the page count is 0. The page widget is then asked for a page between 1 and 0. The widget's reaction belongs to Streamlit and is not modelled.
- TradeSignal.Classify: the code keeps a level only when its label equals lowercase `support` or `resistance`, which no `group_levels` label does. `TradeSignal.ClassifyByKind` is the containment test `plot_levels` uses (support_resistance.py:57); see Findings.
- Grouping.AnchorDependsOnInputOrder: the anchor comes from input order among equally priced levels, so the grouped output depends on the order of its input. That prices and labels alone do not depend on input order is not stated.

## Findings

| source | as written | input that shows it | evidently intended | confidence | as-written member | corrected member |
|---|---|---|---|---|---|---|
| Dashboard.py:116-117 | levels enter the support and resistance lists only when their label equals `'support'` or `'resistance'`, but `group_levels` labels are `Support`, `Resistance` or `Resistance-Support`, so both lists are always empty and the signal is always Hold | one Resistance level at 100 and a current price of 101: the signal is Hold | select a level when its label contains `Support` or `Resistance`, as `plot_levels` does at support_resistance.py:57; the same input then gives Buy | high, not executed | TradeSignal.LowercaseFilterMissesBreakout | TradeSignal.ClassifyByKind |
