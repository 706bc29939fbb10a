/**
 A session as a sequence of clicks. The selection after any click history
 is characterised without replaying it: a cluster is selected exactly when
 the history ends in an odd-length streak of clicks on that cluster.
 */
module ClickHistory {
  import opened Interaction

  /** The selection after applying `clicks`, oldest first, to `s`. */
  function Replay<C(==)>(s: Selection<C>, clicks: seq<C>): (r: Selection<C>)
    ensures |clicks| == 0 ==> r == s
    ensures |clicks| > 0 ==> r.NoSelection? || r == Selected(clicks[|clicks| - 1])
    decreases |clicks|
  {
    if |clicks| == 0 then s
    else Toggle(Replay(s, clicks[..|clicks| - 1]), clicks[|clicks| - 1])
  }

  /** The length of the longest suffix of `clicks` made only of clicks on `c`. */
  function Streak<C(==)>(clicks: seq<C>, c: C): (n: nat)
    ensures n <= |clicks|
    ensures forall i :: |clicks| - n <= i < |clicks| ==> clicks[i] == c
    ensures n < |clicks| ==> clicks[|clicks| - 1 - n] != c
    decreases |clicks|
  {
    if |clicks| == 0 || clicks[|clicks| - 1] != c then 0
    else Streak(clicks[..|clicks| - 1], c) + 1
  }

  /** Replaying a concatenation is replaying its two parts one after the other. */
  lemma {:induction false} ReplayAppend<C>(s: Selection<C>, a: seq<C>, b: seq<C>)
    ensures Replay(s, a + b) == Replay(Replay(s, a), b)
    decreases |b|
  {
    if |b| == 0 {
      assert a + b == a;
    } else {
      var b' := b[..|b| - 1];
      assert (a + b)[..|a + b| - 1] == a + b';
      ReplayAppend(s, a, b');
    }
  }

  /** From the initial state, cluster `c` is selected after `clicks` exactly
      when the history ends in an odd number of consecutive clicks on `c`. */
  lemma {:induction false} SelectedIffOddStreak<C>(clicks: seq<C>, c: C)
    ensures Replay(NoSelection, clicks) == Selected(c) <==> Streak(clicks, c) % 2 == 1
    decreases |clicks|
  {
    if |clicks| > 0 {
      var prefix := clicks[..|clicks| - 1];
      SelectedIffOddStreak(prefix, c);
    }
  }

  /** From the initial state, a non-empty history leaves nothing selected
      exactly when its final streak of equal clicks has even length. */
  lemma ClearedIffEvenStreak<C>(clicks: seq<C>)
    requires |clicks| > 0
    ensures Replay(NoSelection, clicks).NoSelection?
        <==> Streak(clicks, clicks[|clicks| - 1]) % 2 == 0
  {
    SelectedIffOddStreak(clicks, clicks[|clicks| - 1]);
  }
}
