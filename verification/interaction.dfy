/**
 The shared interaction state of the two linked charts: which cluster, if any,
 is highlighted, how a click changes it, and how every mark's emphasis follows
 from it. Clusters are an abstract type compared only for equality, as the
 script compares them only with strict equality.
 */
module Interaction {

  /** The value of the script's `selectedCluster`: `null` is `NoSelection`. */
  datatype Selection<C> = NoSelection | Selected(cluster: C)

  /** The two opacities a mark is given: 1 is `Full`, 0.3 is `Dimmed`. */
  datatype Emphasis = Full | Dimmed

  /** The latch run by every click on a bar or a point: clicking the cluster
      that is already selected clears the selection, clicking any other
      cluster selects that one. */
  function Toggle<C(==)>(s: Selection<C>, c: C): (r: Selection<C>)
    ensures r.NoSelection? <==> s == Selected(c)
    ensures r.Selected? ==> r.cluster == c
  {
    if s == Selected(c) then NoSelection else Selected(c)
  }

  /** The opacity rule both charts apply to each of their marks. */
  function EmphasisOf<C(==)>(s: Selection<C>, markCluster: C): (e: Emphasis)
    ensures s.NoSelection? ==> e == Full
    ensures s.Selected? ==> (e == Full <==> markCluster == s.cluster)
  {
    if s.NoSelection? || markCluster == s.cluster then Full else Dimmed
  }

  /** The three transitions of the two-state machine. */
  lemma ToggleTransitions<C>(c: C, other: C)
    ensures Toggle(NoSelection, c) == Selected(c)
    ensures Toggle(Selected(c), c) == NoSelection
    ensures other != c ==> Toggle(Selected(other), c) == Selected(c)
  {}

  /** Clicking a cluster twice undoes the first click exactly when the first
      click did not switch away from a different selection. */
  lemma ToggleTwice<C>(s: Selection<C>, c: C)
    ensures Toggle(Toggle(s, c), c) == s <==> (s.NoSelection? || s == Selected(c))
    ensures Toggle(Toggle(s, c), c) == (if s == Selected(c) then s else NoSelection)
  {}

  /** From the page's initial state, two clicks on the same cluster clear it. */
  lemma ToggleTwiceFromInitial<C>(c: C)
    ensures Toggle(Toggle(NoSelection, c), c) == NoSelection
  {}

  /** After a click on `c`, a mark of cluster `m` is at full opacity exactly
      when the click cleared the selection or the mark belongs to `c`. */
  lemma EmphasisAfterToggle<C>(s: Selection<C>, c: C, m: C)
    ensures EmphasisOf(Toggle(s, c), m) == Full <==> (s == Selected(c) || m == c)
  {}

  /** At most one cluster is highlighted: two different clusters are both at
      full opacity only while nothing is selected. */
  lemma AtMostOneClusterFull<C>(s: Selection<C>, a: C, b: C)
    requires a != b
    ensures EmphasisOf(s, a) == Full && EmphasisOf(s, b) == Full <==> s.NoSelection?
  {}
}
