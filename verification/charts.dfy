/**
 The two linked charts as one page: the shared selection, the bars and the
 points with the data bound to them, and the opacity each mark currently
 has. A click on any mark runs the same update, which toggles the selection
 and restyles both charts with the same rule.
 */
module LinkedCharts {
  import opened Interaction
  import opened Gapminder
  import opened ClickHistory

  /** One bar of the bar chart: a cluster and its mean life expectancy. */
  datatype Bar<C> = Bar(cluster: C, lifeExpect: real)

  /** The page state: `barOpacity[i]` is the opacity of the mark bound to
      `bars[i]`, and likewise for the points. */
  datatype Page<C> = Page(
    selected: Selection<C>,
    bars: seq<Bar<C>>,
    points: seq<CountryPoint<C>>,
    barOpacity: seq<Emphasis>,
    pointOpacity: seq<Emphasis>)

  /** Styling a selection of marks: every mark gets the opacity the rule
      gives for the cluster of its own bound datum. */
  function Restyle<T, C(==)>(s: Selection<C>, marks: seq<T>, clusterOf: T -> C): (r: seq<Emphasis>)
    ensures |r| == |marks|
    ensures forall i :: 0 <= i < |r| ==> r[i] == EmphasisOf(s, clusterOf(marks[i]))
  {
    if |marks| == 0 then []
    else [EmphasisOf(s, clusterOf(marks[0]))] + Restyle(s, marks[1..], clusterOf)
  }

  /** A mark of either chart: the bar or the point at an index. */
  datatype Mark = BarMark(i: nat) | PointMark(j: nat)

  predicate IsMarkOf<C>(p: Page<C>, m: Mark)
  {
    match m
    case BarMark(i) => i < |p.bars|
    case PointMark(j) => j < |p.points|
  }

  /** The cluster of the datum bound to a mark. */
  function MarkCluster<C>(p: Page<C>, m: Mark): C
    requires IsMarkOf(p, m)
  {
    match m
    case BarMark(i) => p.bars[i].cluster
    case PointMark(j) => p.points[j].cluster
  }

  /** The opacity a mark currently shows. */
  function MarkOpacity<C>(p: Page<C>, m: Mark): Emphasis
    requires IsMarkOf(p, m)
    requires |p.barOpacity| == |p.bars| && |p.pointOpacity| == |p.points|
  {
    match m
    case BarMark(i) => p.barOpacity[i]
    case PointMark(j) => p.pointOpacity[j]
  }

  /** Every mark on the page shows the emphasis the current selection gives it. */
  ghost predicate Consistent<C>(p: Page<C>)
  {
    && |p.barOpacity| == |p.bars|
    && |p.pointOpacity| == |p.points|
    && (forall i :: 0 <= i < |p.bars| ==> p.barOpacity[i] == EmphasisOf(p.selected, p.bars[i].cluster))
    && (forall j :: 0 <= j < |p.points| ==> p.pointOpacity[j] == EmphasisOf(p.selected, p.points[j].cluster))
  }

  /** The page as first drawn: nothing selected, every mark at opacity 1. */
  function Render<C(==)>(bars: seq<Bar<C>>, points: seq<CountryPoint<C>>): (p: Page<C>)
    ensures p.selected == NoSelection && p.bars == bars && p.points == points
    ensures Consistent(p)
  {
    Page(NoSelection, bars, points, seq(|bars|, _ => Full), seq(|points|, _ => Full))
  }

  /** The page the script draws: the bars and, as points, the year-2000
      countries of the dataset, all at opacity 1 with nothing selected. */
  function InitialPage<C(==)>(bars: seq<Bar<C>>, rows: seq<Row<C>>): (p: Page<C>)
    ensures p.selected == NoSelection && p.bars == bars && p.points == Countries2000(rows)
    ensures |p.pointOpacity| == |p.points|
    ensures forall j :: 0 <= j < |p.pointOpacity| ==> p.pointOpacity[j] == Full
    ensures Consistent(p)
  {
    Render(bars, Countries2000(rows))
  }

  /** The click handler: toggle the selection, then restyle both charts.
      The page is consistent afterwards whatever it was before. */
  function UpdateSelection<C(==)>(p: Page<C>, c: C): (q: Page<C>)
    ensures q.selected == Toggle(p.selected, c)
    ensures q.bars == p.bars && q.points == p.points
    ensures Consistent(q)
  {
    var s := Toggle(p.selected, c);
    Page(s, p.bars, p.points, Restyle(s, p.bars, (b: Bar<C>) => b.cluster),
      Restyle(s, p.points, (pt: CountryPoint<C>) => pt.cluster))
  }

  /** The page after a session of clicks, oldest first, each passing the
      clicked datum's cluster to the click handler. */
  function Session<C(==)>(p: Page<C>, clicks: seq<C>): (q: Page<C>)
    ensures q.bars == p.bars && q.points == p.points
    ensures q.selected == Replay(p.selected, clicks)
    ensures |clicks| > 0 ==> Consistent(q)
    decreases |clicks|
  {
    if |clicks| == 0 then p
    else UpdateSelection(Session(p, clicks[..|clicks| - 1]), clicks[|clicks| - 1])
  }

  /** What the charts show after any session on the script's page: both
      datasets as drawn, every mark following the rule, and cluster `c`
      highlighted exactly when the session ends in an odd-length streak of
      clicks on `c`. */
  lemma SessionOnInitialPage<C>(bars: seq<Bar<C>>, rows: seq<Row<C>>, clicks: seq<C>, c: C)
    ensures var q := Session(InitialPage(bars, rows), clicks);
      && q.bars == bars && q.points == Countries2000(rows)
      && Consistent(q)
      && (q.selected == Selected(c) <==> Streak(clicks, c) % 2 == 1)
  {
    SelectedIffOddStreak(clicks, c);
  }

  /** A click on bar `i`: the clicked bar is at full opacity afterwards. */
  function ClickBar<C(==)>(p: Page<C>, i: nat): (q: Page<C>)
    requires i < |p.bars|
    ensures Consistent(q) && q.bars == p.bars && q.points == p.points
    ensures q.barOpacity[i] == Full
    ensures q.selected.NoSelection? <==> p.selected == Selected(p.bars[i].cluster)
  {
    UpdateSelection(p, p.bars[i].cluster)
  }

  /** A click on point `j`: the clicked point is at full opacity afterwards. */
  function ClickPoint<C(==)>(p: Page<C>, j: nat): (q: Page<C>)
    requires j < |p.points|
    ensures Consistent(q) && q.bars == p.bars && q.points == p.points
    ensures q.pointOpacity[j] == Full
    ensures q.selected.NoSelection? <==> p.selected == Selected(p.points[j].cluster)
  {
    UpdateSelection(p, p.points[j].cluster)
  }

  /** Both charts pass only the clicked datum's cluster, so a click on a bar
      and a click on a point of the same cluster have the same effect. */
  lemma BarAndPointClicksAgree<C>(p: Page<C>, i: nat, j: nat)
    requires i < |p.bars| && j < |p.points|
    requires p.bars[i].cluster == p.points[j].cluster
    ensures ClickBar(p, i) == ClickPoint(p, j)
  {}

  /** Marks never disagree: any two marks of the same cluster, in the same
      chart or in different charts, have the same opacity. */
  lemma ChartsAgree<C>(p: Page<C>, m1: Mark, m2: Mark)
    requires Consistent(p)
    requires IsMarkOf(p, m1) && IsMarkOf(p, m2)
    requires MarkCluster(p, m1) == MarkCluster(p, m2)
    ensures MarkOpacity(p, m1) == MarkOpacity(p, m2)
  {}

  /** With no selection every mark is at full opacity, which is the opacity
      the marks are first drawn with. */
  lemma NoSelectionAllFull<C>(p: Page<C>)
    requires Consistent(p) && p.selected.NoSelection?
    ensures forall i :: 0 <= i < |p.barOpacity| ==> p.barOpacity[i] == Full
    ensures forall j :: 0 <= j < |p.pointOpacity| ==> p.pointOpacity[j] == Full
    ensures p == Render(p.bars, p.points)
  {}

  /** With cluster `c` selected, a mark is at full opacity exactly when it
      belongs to `c`, in both charts. */
  lemma SelectedHighlightsOnlyItsCluster<C>(p: Page<C>, c: C)
    requires Consistent(p) && p.selected == Selected(c)
    ensures forall i :: 0 <= i < |p.bars| ==> (p.barOpacity[i] == Full <==> p.bars[i].cluster == c)
    ensures forall j :: 0 <= j < |p.points| ==> (p.pointOpacity[j] == Full <==> p.points[j].cluster == c)
  {}

  /** Clicking the same cluster twice on a freshly drawn page restores it.
      With `points` the year-2000 countries this is the script's own page,
      `InitialPage`. */
  lemma ClickTwiceRestores<C>(bars: seq<Bar<C>>, points: seq<CountryPoint<C>>, c: C)
    ensures UpdateSelection(UpdateSelection(Render(bars, points), c), c) == Render(bars, points)
  {}
}
