/**
 * Graphs whose vertices hold references to their successors (`Vertex` and
 * `Professional`). Objects live in an arena: a vertex is named by its index,
 * so two vertices with equal data are still two vertices, and a reference to
 * a successor is an index into the same arena. Reachability is defined once,
 * over the adjacency lists of an arena.
 */
module Arena {

  /** A `Vertex<T>`: its `data` and the ordered list of its `neighbors`. */
  datatype Vertex<T> = Vertex(data: T, neighbors: seq<nat>)

  /** A `Professional`: what `getCompany()` and `getConnections()` return. */
  datatype Professional = Professional(company: string, connections: seq<nat>)

  /** Successor lists, one per vertex of an arena. */
  type Adjacency = seq<seq<nat>>

  /** Every reference stored in the arena names a vertex of the arena. */
  predicate WellFormed(adj: Adjacency) {
    forall v, j :: 0 <= v < |adj| && 0 <= j < |adj[v]| ==> adj[v][j] < |adj|
  }

  function Edges<T>(g: seq<Vertex<T>>): Adjacency {
    seq(|g|, v requires 0 <= v < |g| => g[v].neighbors)
  }

  function Links(net: seq<Professional>): Adjacency {
    seq(|net|, v requires 0 <= v < |net| => net[v].connections)
  }

  /** The handles of an arena with n vertices. */
  function Handles(n: nat): (s: set<nat>)
    ensures forall v: nat :: v in s <==> v < n
  {
    if n == 0 then {} else Handles(n - 1) + {n - 1}
  }

  lemma {:induction false} HandlesCount(n: nat)
    ensures |Handles(n)| == n
  {
    if n > 0 {
      HandlesCount(n - 1);
    }
  }

  /** p is a walk along successor edges: each vertex after the first is a successor of the one before. */
  ghost predicate IsPath(adj: Adjacency, p: seq<nat>) {
    && |p| > 0
    && (forall k :: 0 <= k < |p| ==> p[k] < |adj|)
    && (forall k :: 0 < k < |p| ==> p[k] in adj[p[k - 1]])
  }

  /** t can be reached from s (every vertex reaches itself by the one-vertex path). */
  ghost predicate Reachable(adj: Adjacency, s: nat, t: nat) {
    exists p :: IsPath(adj, p) && p[0] == s && p[|p| - 1] == t
  }

  /** The vertices reachable from s. */
  ghost function ReachSet(adj: Adjacency, s: nat): set<nat> {
    set t: nat | t < |adj| && Reachable(adj, s, t)
  }

  /** Every vertex of D has all of its successors in S. */
  ghost predicate ExpandedWithin(adj: Adjacency, D: set<nat>, S: set<nat>) {
    forall v, j :: v in D && 0 <= v < |adj| && 0 <= j < |adj[v]| ==> adj[v][j] in S
  }

  lemma ReachableSelf(adj: Adjacency, s: nat)
    requires s < |adj|
    ensures Reachable(adj, s, s)
  {
    assert IsPath(adj, [s]);
  }

  /** A vertex reaches whatever its successors reach. */
  lemma ReachableStep(adj: Adjacency, s: nat, n: nat, t: nat)
    requires s < |adj| && n in adj[s]
    requires Reachable(adj, n, t)
    ensures Reachable(adj, s, t)
  {
    var p :| IsPath(adj, p) && p[0] == n && p[|p| - 1] == t;
    var q := [s] + p;
    assert IsPath(adj, q);
  }

  /** Reachability is transitive: paths concatenate. */
  lemma ReachableTransitive(adj: Adjacency, a: nat, b: nat, c: nat)
    requires Reachable(adj, a, b) && Reachable(adj, b, c)
    ensures Reachable(adj, a, c)
  {
    var p :| IsPath(adj, p) && p[0] == a && p[|p| - 1] == b;
    var q :| IsPath(adj, q) && q[0] == b && q[|q| - 1] == c;
    var r := p + q[1..];
    assert IsPath(adj, r) by {
      forall k | 0 < k < |r| ensures r[k] in adj[r[k - 1]] {
        if k >= |p| {
          assert r[k] == q[k - |p| + 1];
          assert r[k - 1] == q[k - |p|];
        }
      }
    }
    assert r[|r| - 1] == c;
  }

  /** A path that starts inside a successor-closed set never leaves it. */
  lemma {:induction false} PathStaysWithin(adj: Adjacency, p: seq<nat>, S: set<nat>)
    requires IsPath(adj, p) && p[0] in S
    requires ExpandedWithin(adj, S, S)
    ensures p[|p| - 1] in S
  {
    if |p| > 1 {
      var q := p[..|p| - 1];
      assert IsPath(adj, q);
      PathStaysWithin(adj, q, S);
      var u := p[|p| - 2];
      var k :| 0 <= k < |adj[u]| && adj[u][k] == p[|p| - 1];
    }
  }

  /** Completeness of a search: a successor-closed set holding s holds everything s reaches. */
  lemma ClosedHoldsReachable(adj: Adjacency, S: set<nat>, s: nat, t: nat)
    requires s in S && ExpandedWithin(adj, S, S)
    requires Reachable(adj, s, t)
    ensures t in S
  {
    var p :| IsPath(adj, p) && p[0] == s && p[|p| - 1] == t;
    PathStaysWithin(adj, p, S);
  }

  /**
   * The set a search ends with is exactly the reachable set when it holds the
   * start, holds only reachable vertices and is closed under successors.
   */
  lemma ClosedSoundSetIsReachSet(adj: Adjacency, S: set<nat>, s: nat)
    requires s in S && ExpandedWithin(adj, S, S)
    requires forall t :: t in S ==> t < |adj| && Reachable(adj, s, t)
    ensures S == ReachSet(adj, s)
  {
    forall t | t in ReachSet(adj, s) ensures t in S {
      ClosedHoldsReachable(adj, S, s, t);
    }
  }

  /** Mutual reachability, the relation `twoWay` decides. */
  ghost predicate MutuallyReachable(adj: Adjacency, a: nat, b: nat) {
    Reachable(adj, a, b) && Reachable(adj, b, a)
  }

  /** Mutual reachability is an equivalence on the vertices of an arena. */
  lemma MutualReachabilityIsEquivalence(adj: Adjacency, a: nat, b: nat, c: nat)
    requires a < |adj|
    ensures MutuallyReachable(adj, a, a)
    ensures MutuallyReachable(adj, a, b) <==> MutuallyReachable(adj, b, a)
    ensures MutuallyReachable(adj, a, b) && MutuallyReachable(adj, b, c) ==> MutuallyReachable(adj, a, c)
  {
    ReachableSelf(adj, a);
    if MutuallyReachable(adj, a, b) && MutuallyReachable(adj, b, c) {
      ReachableTransitive(adj, a, b, c);
      ReachableTransitive(adj, c, b, a);
    }
  }

  /** Every vertex of D is reachable from s. */
  ghost predicate AllReachableFrom(adj: Adjacency, s: nat, D: set<nat>) {
    forall t :: t in D ==> Reachable(adj, s, t)
  }

  /**
   * What a finished visited-guarded walk from `current` leaves behind: the
   * visited set grew from `before` to `after`, `current` is in it, and every
   * newly visited vertex is reachable from `current` and has all its
   * successors visited.
   */
  ghost predicate WalkDone(adj: Adjacency, current: nat, before: set<nat>, after: set<nat>) {
    && before + {current} <= after
    && AllReachableFrom(adj, current, after - before)
    && ExpandedWithin(adj, after - before, after)
  }

  /** The same while `current` is marked and its first i successors have been walked. */
  ghost predicate WalkUpTo(adj: Adjacency, current: nat, before: set<nat>, now: set<nat>, i: nat) {
    && current < |adj| && i <= |adj[current]|
    && before + {current} <= now
    && AllReachableFrom(adj, current, now - before)
    && ExpandedWithin(adj, now - before - {current}, now)
    && forall j :: 0 <= j < i ==> adj[current][j] in now
  }

  /** Marking an unvisited vertex starts its walk. */
  lemma WalkStarts(adj: Adjacency, current: nat, before: set<nat>)
    requires current < |adj| && current !in before
    ensures WalkUpTo(adj, current, before, before + {current}, 0)
  {
    assert before + {current} - before == {current};
    ReachableSelf(adj, current);
  }

  /** A walk from an already visited vertex does nothing and is done. */
  lemma WalkSkips(adj: Adjacency, current: nat, before: set<nat>)
    requires current in before
    ensures WalkDone(adj, current, before, before)
  {
    assert before - before == {};
  }

  /** The walk of the i-th successor extends the walk of `current` by one successor. */
  lemma WalkAbsorbs(adj: Adjacency, current: nat, before: set<nat>, now: set<nat>, later: set<nat>, i: nat)
    requires WalkUpTo(adj, current, before, now, i) && i < |adj[current]|
    requires WalkDone(adj, adj[current][i], now, later)
    ensures WalkUpTo(adj, current, before, later, i + 1)
  {
    var n := adj[current][i];
    forall t | t in later - before ensures Reachable(adj, current, t) {
      if t !in now {
        ReachableStep(adj, current, n, t);
      }
    }
  }

  /** Once every successor has been walked, the walk of `current` is done. */
  lemma WalkFinishes(adj: Adjacency, current: nat, before: set<nat>, now: set<nat>)
    requires current < |adj| && WalkUpTo(adj, current, before, now, |adj[current]|)
    ensures WalkDone(adj, current, before, now)
  {
  }

  /** A whole walk, started with nothing visited, visits exactly the vertices reachable from its start. */
  lemma WalkVisitsReachSet(adj: Adjacency, s: nat, visited: set<nat>)
    requires s < |adj| && visited <= Handles(|adj|)
    requires WalkDone(adj, s, {}, visited)
    ensures visited == ReachSet(adj, s)
  {
    assert visited - {} == visited;
    ClosedSoundSetIsReachSet(adj, visited, s);
  }
}
