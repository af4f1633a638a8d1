/**
 * Graphs given as a `Map<Integer, Set<Integer>>` from a vertex id to the ids
 * of its successors. An id that is not a key has no recorded successors; it
 * may still occur as somebody's successor.
 */
module MapGraph {

  type Graph = map<int, set<int>>

  /** Every id the graph mentions: its keys and every successor of a key. */
  function Mentioned(g: Graph): set<int> {
    g.Keys + set k, x | k in g && x in g[k] :: x
  }

  /** p is a walk along recorded successor sets: only keys are ever left. */
  ghost predicate IsPath(g: Graph, p: seq<int>) {
    |p| > 0 && forall k :: 0 <= k < |p| - 1 ==> p[k] in g && p[k + 1] in g[p[k]]
  }

  ghost predicate Reachable(g: Graph, s: int, t: int) {
    exists p :: IsPath(g, p) && p[0] == s && p[|p| - 1] == t
  }

  /** t can be reached from s along a path whose every id is positive. */
  ghost predicate PositiveReachable(g: Graph, s: int, t: int) {
    exists p :: IsPath(g, p) && p[0] == s && p[|p| - 1] == t && forall k :: 0 <= k < |p| ==> p[k] > 0
  }

  /** t can be reached from s along a path of positive ids none of which is e. */
  ghost predicate PositiveReachableAvoiding(g: Graph, s: int, t: int, e: int) {
    exists p :: IsPath(g, p) && p[0] == s && p[|p| - 1] == t && forall k :: 0 <= k < |p| ==> p[k] > 0 && p[k] != e
  }

  /** Every key of D has all of its successors in S; ids of D that are not keys have none. */
  ghost predicate ExpandedWithin(g: Graph, D: set<int>, S: set<int>) {
    forall v :: v in D && v in g ==> g[v] <= S
  }

  /** Every id of D is positive and, if it is a key, has all its positive successors in S. */
  ghost predicate PositivelyExpandedWithin(g: Graph, D: set<int>, S: set<int>) {
    forall v :: v in D ==> v > 0 && (v in g ==> forall w :: w in g[v] && w > 0 ==> w in S)
  }

  lemma ReachableSelf(g: Graph, s: int)
    ensures Reachable(g, s, s)
  {
    assert IsPath(g, [s]);
  }

  lemma PositiveReachableSelf(g: Graph, s: int)
    requires s > 0
    ensures PositiveReachable(g, s, s)
  {
    assert IsPath(g, [s]);
  }

  /** A key reaches whatever its successors reach. */
  lemma ReachableStep(g: Graph, s: int, n: int, t: int)
    requires s in g && n in g[s]
    requires Reachable(g, n, t)
    ensures Reachable(g, s, t)
  {
    var p :| IsPath(g, p) && p[0] == n && p[|p| - 1] == t;
    assert IsPath(g, [s] + p);
  }

  /** A positive key reaches whatever its successors reach through positive ids. */
  lemma PositiveReachableStep(g: Graph, s: int, n: int, t: int)
    requires s > 0 && s in g && n in g[s]
    requires PositiveReachable(g, n, t)
    ensures PositiveReachable(g, s, t)
  {
    var p :| IsPath(g, p) && p[0] == n && p[|p| - 1] == t && forall k :: 0 <= k < |p| ==> p[k] > 0;
    var q := [s] + p;
    assert IsPath(g, q);
    assert forall k :: 0 <= k < |q| ==> q[k] > 0 by {
      forall k | 0 < k < |q| ensures q[k] > 0 {
        assert q[k] == p[k - 1];
      }
    }
  }

  /** A positive key other than e reaches whatever its successors reach through positive ids avoiding e. */
  lemma PositiveReachableAvoidingStep(g: Graph, s: int, n: int, t: int, e: int)
    requires s > 0 && s != e && s in g && n in g[s]
    requires PositiveReachableAvoiding(g, n, t, e)
    ensures PositiveReachableAvoiding(g, s, t, e)
  {
    var p :| IsPath(g, p) && p[0] == n && p[|p| - 1] == t && forall k :: 0 <= k < |p| ==> p[k] > 0 && p[k] != e;
    var q := [s] + p;
    assert IsPath(g, q);
    assert forall k :: 0 <= k < |q| ==> q[k] > 0 && q[k] != e by {
      forall k | 0 < k < |q| ensures q[k] > 0 && q[k] != e {
        assert q[k] == p[k - 1];
      }
    }
  }

  /** A positive path that avoids e is in particular a positive path. */
  lemma AvoidingIsPositive(g: Graph, s: int, t: int, e: int)
    requires PositiveReachableAvoiding(g, s, t, e)
    ensures PositiveReachable(g, s, t)
  {
    var p :| IsPath(g, p) && p[0] == s && p[|p| - 1] == t && forall k :: 0 <= k < |p| ==> p[k] > 0 && p[k] != e;
    assert forall k :: 0 <= k < |p| ==> p[k] > 0;
  }

  /** A path that starts in a set closed under recorded successors stays in it. */
  lemma {:induction false} PathStaysWithin(g: Graph, p: seq<int>, S: set<int>)
    requires IsPath(g, p) && p[0] in S
    requires ExpandedWithin(g, S, S)
    ensures p[|p| - 1] in S
  {
    if |p| > 1 {
      var q := p[..|p| - 1];
      assert IsPath(g, q);
      PathStaysWithin(g, q, S);
      var u := p[|p| - 2];
      assert u == q[|q| - 1] && u in g && p[|p| - 1] in g[u];
      assert g[u] <= S;
    }
  }

  /** A positive path that starts in a set closed under positive successors stays in it. */
  lemma {:induction false} PositivePathStaysWithin(g: Graph, p: seq<int>, S: set<int>)
    requires IsPath(g, p) && p[0] in S
    requires forall k :: 0 <= k < |p| ==> p[k] > 0
    requires PositivelyExpandedWithin(g, S, S)
    ensures p[|p| - 1] in S
  {
    if |p| > 1 {
      var q := p[..|p| - 1];
      assert IsPath(g, q);
      PositivePathStaysWithin(g, q, S);
      assert q[|q| - 1] in g && p[|p| - 1] in g[q[|q| - 1]] && p[|p| - 1] > 0;
    }
  }

  /** A set closed under the positive successors other than e of its keys. */
  ghost predicate ClosedAvoiding(g: Graph, S: set<int>, e: int) {
    forall v :: v in S && v in g ==> forall w :: w in g[v] && w > 0 && w != e ==> w in S
  }

  /** A positive path avoiding e that starts in a set closed under such steps stays in it. */
  lemma {:induction false} AvoidingPathStaysWithin(g: Graph, p: seq<int>, S: set<int>, e: int)
    requires IsPath(g, p) && p[0] in S
    requires forall k :: 0 <= k < |p| ==> p[k] > 0 && p[k] != e
    requires ClosedAvoiding(g, S, e)
    ensures p[|p| - 1] in S
  {
    if |p| > 1 {
      var q := p[..|p| - 1];
      assert IsPath(g, q);
      AvoidingPathStaysWithin(g, q, S, e);
      assert q[|q| - 1] in g && p[|p| - 1] in g[q[|q| - 1]] && p[|p| - 1] > 0 && p[|p| - 1] != e;
    }
  }

  /** Whatever s reaches along positive ids avoiding e lies in any such closed set holding s. */
  lemma AvoidingClosedHoldsReachable(g: Graph, S: set<int>, s: int, t: int, e: int)
    requires s in S && ClosedAvoiding(g, S, e)
    requires PositiveReachableAvoiding(g, s, t, e)
    ensures t in S
  {
    var p :| IsPath(g, p) && p[0] == s && p[|p| - 1] == t && forall k :: 0 <= k < |p| ==> p[k] > 0 && p[k] != e;
    AvoidingPathStaysWithin(g, p, S, e);
  }

  /** Completeness of the id search: a closed set holding s holds everything s reaches. */
  lemma ClosedHoldsReachable(g: Graph, S: set<int>, s: int, t: int)
    requires s in S && ExpandedWithin(g, S, S)
    requires Reachable(g, s, t)
    ensures t in S
  {
    var p :| IsPath(g, p) && p[0] == s && p[|p| - 1] == t;
    PathStaysWithin(g, p, S);
  }

  /** Completeness of the positive search: a positively closed set holding s holds every positive-path target. */
  lemma PositivelyClosedHoldsReachable(g: Graph, S: set<int>, s: int, t: int)
    requires s in S && PositivelyExpandedWithin(g, S, S)
    requires PositiveReachable(g, s, t)
    ensures t in S
  {
    var p :| IsPath(g, p) && p[0] == s && p[|p| - 1] == t && forall k :: 0 <= k < |p| ==> p[k] > 0;
    PositivePathStaysWithin(g, p, S);
  }

  /** Every id of D is reachable from s. */
  ghost predicate AllReachableFrom(g: Graph, s: int, D: set<int>) {
    forall t :: t in D ==> Reachable(g, s, t)
  }

  /**
   * What a finished walk from `current` leaves behind: the visited set grew
   * from `before` to `after`, `current` is in it, and every newly visited id
   * is reachable from `current` and, if it is a key, has all its successors
   * visited.
   */
  ghost predicate WalkDone(g: Graph, current: int, before: set<int>, after: set<int>) {
    && before + {current} <= after
    && AllReachableFrom(g, current, after - before)
    && ExpandedWithin(g, after - before, after)
  }

  /** The same while the key `current` is marked and the successors in `done` have been walked. */
  ghost predicate WalkUpTo(g: Graph, current: int, before: set<int>, now: set<int>, done: set<int>) {
    && before + {current} <= now
    && AllReachableFrom(g, current, now - before)
    && ExpandedWithin(g, now - before - {current}, now)
    && done <= now
  }

  lemma WalkStarts(g: Graph, current: int, before: set<int>)
    requires current !in before
    ensures WalkUpTo(g, current, before, before + {current}, {})
  {
    assert before + {current} - before == {current};
    ReachableSelf(g, current);
  }

  lemma WalkSkips(g: Graph, current: int, before: set<int>)
    requires current in before
    ensures WalkDone(g, current, before, before)
  {
    assert before - before == {};
  }

  lemma WalkAbsorbs(g: Graph, current: int, before: set<int>, now: set<int>, later: set<int>, done: set<int>, n: int)
    requires current in g && n in g[current]
    requires WalkUpTo(g, current, before, now, done)
    requires WalkDone(g, n, now, later)
    ensures WalkUpTo(g, current, before, later, done + {n})
  {
    forall t | t in later - before ensures Reachable(g, current, t) {
      if t !in now {
        ReachableStep(g, current, n, t);
      }
    }
  }

  /** A walk is done once every recorded successor of `current` has been walked (none, if it is not a key). */
  lemma WalkFinishes(g: Graph, current: int, before: set<int>, now: set<int>, done: set<int>)
    requires WalkUpTo(g, current, before, now, done)
    requires current in g ==> g[current] <= done
    ensures WalkDone(g, current, before, now)
  {
  }

  /** A whole walk from s, started with nothing visited, visits exactly the ids reachable from s. */
  lemma WalkVisitsReachable(g: Graph, s: int, visited: set<int>)
    requires WalkDone(g, s, {}, visited)
    ensures forall t :: t in visited <==> Reachable(g, s, t)
  {
    assert visited - {} == visited;
    forall t | Reachable(g, s, t) ensures t in visited {
      ClosedHoldsReachable(g, visited, s, t);
    }
  }

  /**
   * What an unsuccessful positive walk from `current` leaves behind: `current`
   * is visited, and every newly visited id is positive and, if it is a key,
   * has all its positive successors visited.
   */
  ghost predicate PositiveWalkDone(g: Graph, current: int, before: set<int>, after: set<int>) {
    && before + {current} <= after
    && PositivelyExpandedWithin(g, after - before, after)
  }

  /** The same while the positive key `current` is marked and the successors in `done` have been tried. */
  ghost predicate PositiveWalkUpTo(g: Graph, current: int, before: set<int>, now: set<int>, done: set<int>) {
    && current > 0 && current in g
    && before + {current} <= now
    && PositivelyExpandedWithin(g, now - before - {current}, now)
    && forall w :: w in done && w > 0 ==> w in now
  }

  lemma PositiveWalkSkips(g: Graph, current: int, before: set<int>)
    requires current in before
    ensures PositiveWalkDone(g, current, before, before)
  {
    assert before - before == {};
  }

  lemma PositiveWalkStarts(g: Graph, current: int, before: set<int>)
    requires current > 0 && current in g && current !in before
    ensures PositiveWalkUpTo(g, current, before, before + {current}, {})
  {
    assert before + {current} - before - {current} == {};
  }

  lemma PositiveWalkAbsorbs(g: Graph, current: int, before: set<int>, now: set<int>, later: set<int>, done: set<int>, n: int)
    requires PositiveWalkUpTo(g, current, before, now, done)
    requires n > 0 && PositiveWalkDone(g, n, now, later)
    ensures PositiveWalkUpTo(g, current, before, later, done + {n})
  {
    forall v | v in later - before - {current}
      ensures v > 0 && (v in g ==> forall w :: w in g[v] && w > 0 ==> w in later)
    {
      if v !in later - now {
        assert v in now - before - {current};
      }
    }
  }

  /** A successor that is not positive is never walked, and nothing is owed for it. */
  lemma PositiveWalkPasses(g: Graph, current: int, before: set<int>, now: set<int>, done: set<int>, n: int)
    requires PositiveWalkUpTo(g, current, before, now, done)
    requires n <= 0
    ensures PositiveWalkUpTo(g, current, before, now, done + {n})
  {
  }

  lemma PositiveWalkFinishes(g: Graph, current: int, before: set<int>, now: set<int>)
    requires current in g && PositiveWalkUpTo(g, current, before, now, g[current])
    ensures PositiveWalkDone(g, current, before, now)
  {
    forall v | v in now - before
      ensures v > 0 && (v in g ==> forall w :: w in g[v] && w > 0 ==> w in now)
    {
      if v != current {
        assert v in now - before - {current};
      }
    }
  }

  /** A positive id that is not a key has no successors: marking it finishes its walk. */
  lemma PositiveWalkStops(g: Graph, current: int, before: set<int>)
    requires current > 0 && current !in g && current !in before
    ensures PositiveWalkDone(g, current, before, before + {current})
  {
    assert before + {current} - before == {current};
  }

  /** A positive walk that only ever marked keys leaves no positive id it reaches outside the keys. */
  lemma PositiveWalkMetOnlyKeys(g: Graph, s: int, visited: set<int>)
    requires PositiveWalkDone(g, s, {}, visited) && visited <= g.Keys
    ensures forall t :: PositiveReachable(g, s, t) ==> t in g
  {
    assert visited - {} == visited;
    forall t | PositiveReachable(g, s, t) ensures t in g {
      PositivelyClosedHoldsReachable(g, visited, s, t);
    }
  }
}
