# Linked-chart selection of the STA 313 D3 example

The script `teaching/utoronto_STA_313/T07_d3js/main.js` draws two linked charts from the
gapminder dataset. One is a bar chart of mean life expectancy per cluster (region). The
other is a scatter plot of population against life expectancy per country, for the year
2000. Clicking a bar or a point highlights that mark's cluster in both charts. Clicking the
highlighted cluster again clears the highlight.

This project models that shared interaction logic and the scatter plot's data step:

- `Interaction` holds the selection state (`NoSelection | Selected(c)`, the script's
  `selectedCluster`), the latch `Toggle` that every click runs, and the opacity rule
  `EmphasisOf`. Opacities 1 and 0.3 are the two values `Full` and `Dimmed`. Clusters are a
  generic type compared only for equality.
- `ClickHistory` replays a sequence of clicks. It proves an independent description of the
  result: from the initial state, cluster `c` is selected exactly when the history ends in
  an odd-length streak of clicks on `c`.
- `LinkedCharts` models the page. It holds the selection, the data bound to bars and points,
  and the opacity of every mark. It covers the first render (all marks at opacity 1), the
  click handler `updateSelection`, which toggles and then restyles both charts, and clicks
  on a bar or on a point. The invariant `Consistent` says every mark shows the opacity the
  rule gives for its cluster. `Session` applies a whole click history to the page and ties
  what the charts show to `ClickHistory`.
- `Gapminder` models `countries2000`: keep the rows whose `year` is 2000, in order, then
  project each onto `country`, `pop`, `life_expect` and `cluster`.

## Model

| member | source | states |
|---|---|---|
| `Interaction.Toggle` | teaching/utoronto_STA_313/T07_d3js/main.js:27-30 | the result is empty exactly when the clicked cluster was the selected one; otherwise it is the clicked cluster, so no other value is ever reachable |
| `Interaction.EmphasisOf` | teaching/utoronto_STA_313/T07_d3js/main.js:34-39 | with no selection every mark is full; with a selection a mark is full iff its cluster equals the selected one |
| `Interaction.ToggleTransitions` | teaching/utoronto_STA_313/T07_d3js/main.js:27-30 | the three transitions: from nothing a click selects; clicking the selected cluster clears; clicking a different cluster switches to it rather than clearing |
| `Interaction.ToggleTwice` | teaching/utoronto_STA_313/T07_d3js/main.js:30 | two clicks on `c` restore the state iff it was empty or `c` was selected; otherwise they end with nothing selected |
| `Interaction.ToggleTwiceFromInitial` | teaching/utoronto_STA_313/T07_d3js/main.js:25-30 | from the initial `null` state, two clicks on the same cluster return to `null` |
| `Interaction.EmphasisAfterToggle` | teaching/utoronto_STA_313/T07_d3js/main.js:30-39 | after a click on `c`, a mark is full iff the click cleared the selection or the mark belongs to `c` |
| `Interaction.AtMostOneClusterFull` | teaching/utoronto_STA_313/T07_d3js/main.js:34-39 | two different clusters are both full iff nothing is selected: at most one cluster is highlighted |
| `ClickHistory.Replay` | teaching/utoronto_STA_313/T07_d3js/main.js:25-30 | after a non-empty click history the selection is empty or the last clicked cluster |
| `ClickHistory.ReplayAppend` | teaching/utoronto_STA_313/T07_d3js/main.js:27-30 | the state after a concatenated history is the state after its second part, starting from the state after its first part |
| `ClickHistory.SelectedIffOddStreak` | teaching/utoronto_STA_313/T07_d3js/main.js:25-30 | from the initial state, `c` is selected iff the history ends in an odd number of consecutive clicks on `c` |
| `ClickHistory.ClearedIffEvenStreak` | teaching/utoronto_STA_313/T07_d3js/main.js:25-30 | from the initial state, a non-empty history clears the selection iff its final streak of equal clicks has even length |
| `LinkedCharts.Restyle` | teaching/utoronto_STA_313/T07_d3js/main.js:34-39 | restyling a chart gives each mark the emphasis the rule assigns to the cluster of its own bound datum, one per mark, in order |
| `LinkedCharts.Render` | teaching/utoronto_STA_313/T07_d3js/main.js:61-107 | the first drawing has nothing selected and every mark at opacity 1, and that already agrees with the rule |
| `LinkedCharts.InitialPage` | teaching/utoronto_STA_313/T07_d3js/main.js:99-107 | the script's first page binds the year-2000 countries as points, with nothing selected and every point at opacity 1, consistent with the rule |
| `LinkedCharts.UpdateSelection` | teaching/utoronto_STA_313/T07_d3js/main.js:27-40 | a click toggles the selection, keeps both datasets, and leaves every mark of both charts showing the rule's emphasis |
| `LinkedCharts.Session` | teaching/utoronto_STA_313/T07_d3js/main.js:27-40 | after a session of clicks the datasets are unchanged, the selection is the one the click history replays to, and after at least one click every mark follows the rule |
| `LinkedCharts.SessionOnInitialPage` | teaching/utoronto_STA_313/T07_d3js/main.js:25-40 | on the script's page, after any session every mark follows the rule, the points are the year-2000 countries, and `c` is highlighted iff the session ends in an odd-length streak of clicks on `c` |
| `LinkedCharts.ClickBar` | teaching/utoronto_STA_313/T07_d3js/main.js:72-74 | after a click on a bar that bar is full; the selection is cleared iff the bar's cluster was the selected one |
| `LinkedCharts.ClickPoint` | teaching/utoronto_STA_313/T07_d3js/main.js:108-110 | after a click on a point that point is full; the selection is cleared iff the point's cluster was the selected one |
| `LinkedCharts.BarAndPointClicksAgree` | teaching/utoronto_STA_313/T07_d3js/main.js:72-110 | a click on a bar and a click on a point of the same cluster give the same page |
| `LinkedCharts.ChartsAgree` | teaching/utoronto_STA_313/T07_d3js/main.js:34-39 | on a consistent page, any two marks of the same cluster, bars or points in any combination, have equal opacity |
| `LinkedCharts.NoSelectionAllFull` | teaching/utoronto_STA_313/T07_d3js/main.js:32-39 | with nothing selected every bar and every point is full, so the page equals its first drawing |
| `LinkedCharts.SelectedHighlightsOnlyItsCluster` | teaching/utoronto_STA_313/T07_d3js/main.js:33-39 | with `c` selected, a bar or point is full iff its cluster is `c`, and dimmed otherwise |
| `LinkedCharts.ClickTwiceRestores` | teaching/utoronto_STA_313/T07_d3js/main.js:25-40 | two clicks on the same cluster after the first drawing restore the page exactly |
| `Gapminder.FilterYear` | teaching/utoronto_STA_313/T07_d3js/main.js:16-17 | every kept row is a row of the input from the year 2000, and every year-2000 row of the input is kept; order and duplicates are kept by `FilterYearAppend` |
| `Gapminder.FilterYearAppend` | teaching/utoronto_STA_313/T07_d3js/main.js:17 | filtering two consecutive parts of the rows concatenates the two results, so order and duplicates are kept |
| `Gapminder.Project` | teaching/utoronto_STA_313/T07_d3js/main.js:18 | a point keeps the row's `country`, `pop`, `life_expect` and `cluster` unchanged |
| `Gapminder.ProjectAll` | teaching/utoronto_STA_313/T07_d3js/main.js:18 | one output per row, in order, each the row's `country`, `pop`, `life_expect` and `cluster` |
| `Gapminder.ProjectAllAppend` | teaching/utoronto_STA_313/T07_d3js/main.js:18 | projecting two consecutive parts of the rows concatenates the two results |
| `Gapminder.Countries2000` | teaching/utoronto_STA_313/T07_d3js/main.js:16-18 | no more points than rows; the projection of every year-2000 row is plotted, and every plotted point is the projection of some year-2000 row |
| `Gapminder.Countries2000Append` | teaching/utoronto_STA_313/T07_d3js/main.js:16-18 | the dataset's order is kept: the points of two consecutive parts of the dataset are concatenated |
| `Gapminder.Countries2000Single` | teaching/utoronto_STA_313/T07_d3js/main.js:16-18 | one row gives its projection if its year is 2000 and nothing otherwise |
| `Gapminder.Countries2000Cons` | teaching/utoronto_STA_313/T07_d3js/main.js:16-18 | row by row, in order: the first row contributes its projection in front if its year is 2000, and nothing otherwise, followed by the points of the remaining rows |
| `Gapminder.Countries2000Members` | teaching/utoronto_STA_313/T07_d3js/main.js:16-18 | a point is plotted iff it is the projection of a year-2000 row |

## Left out

- Loading the dataset from a CDN and logging it (main.js:1-7): network I/O. The rows are a parameter.
- The `d3.rollup` / `d3.mean` aggregation that builds the bar data (main.js:8-15): a library
  call with floating-point means. The bars are a parameter.
- Scales, axes, SVG and DOM construction, colours and labels (main.js:20-22, 44-133):
  rendering. Only each mark's bound datum and its opacity are kept.
- The concrete opacities 1 and 0.3: modelled as the two values `Full` and `Dimmed`.
- A listener registry with subscribe and unsubscribe: the script has none. It restyles both
  charts inline inside `updateSelection` (main.js:34-39), and `UpdateSelection` models exactly that.
- A `null` cluster: clusters are a type without a `null` value. In the script, clicking a
  datum whose cluster is `null` clears the selection from any state (main.js:30 assigns the
  clicked value, `null`, whenever it differs from the current one, and leaves `null` when it
  equals it). A missing cluster (`undefined`) is not equal to `null` under `===`, so it is
  selected like any other value; the generic cluster type already covers that case.
- `year` is an integer in the model. The script's strict `=== 2000` would also reject a year
  stored as a string, and such rows are not modelled.
