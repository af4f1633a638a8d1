/**
 * The five reachability algorithms of class `Practice`. Each public entry
 * point allocates a fresh visited set and hands it to a recursive
 * visited-guarded depth-first walk, which marks a vertex before expanding its
 * successors, so every vertex is expanded at most once even on cyclic graphs.
 * The walks are methods that update the shared visited set in place; their
 * contracts relate the visited set before and after the call, and the entry
 * points state the result against the reachability definitions of `Arena`
 * and `MapGraph`.
 */
module Practice {
  import opened Wrappers
  import opened Sorting
  import opened Arena
  import opened Containers
  import MapGraph

  // ---------------------------------------------------------------------------
  // oddVertices

  /** Java's `%` on `int`: the remainder takes the sign of the dividend. */
  function JavaRem(a: int, b: int): int
    requires b > 0
  {
    if a >= 0 then a % b else -((-a) % b)
  }

  /** The source's odd test `data % 2 != 0`. */
  predicate IsOdd(x: int) {
    JavaRem(x, 2) != 0
  }

  /** The test is a correct parity test on negative values too: it holds exactly of x = 2k + 1. */
  lemma IsOddIsParity(x: int)
    ensures IsOdd(x) <==> exists k :: x == 2 * k + 1
  {
    if IsOdd(x) {
      var k := (x - 1) / 2;
      assert x == 2 * k + 1;
    }
  }

  /** The vertices of S that hold an odd value. */
  ghost function OddAmong(g: seq<Vertex<int>>, S: set<nat>): set<nat> {
    set v | v in S && v < |g| && IsOdd(g[v].data)
  }

  lemma OddAmongSplit(g: seq<Vertex<int>>, A: set<nat>, B: set<nat>)
    requires A !! B
    ensures |OddAmong(g, A + B)| == |OddAmong(g, A)| + |OddAmong(g, B)|
  {
    assert OddAmong(g, A + B) == OddAmong(g, A) + OddAmong(g, B);
    assert OddAmong(g, A) !! OddAmong(g, B);
  }

  lemma {:induction false} SubsetCount(A: set<nat>, B: set<nat>)
    requires A <= B
    ensures |A| <= |B|
    decreases A
  {
    if A != {} {
      var x :| x in A;
      SubsetCount(A - {x}, B - {x});
    }
  }

  /** Splits the vertices a loop step newly visited off those visited before it. */
  lemma NewlyVisitedSplit(before: set<nat>, now: set<nat>, later: set<nat>)
    requires before <= now <= later
    ensures later - before == (now - before) + (later - now)
    ensures (now - before) !! (later - now)
  {
  }

  /** `oddVertices(current, visited)`: counts the odd vertices it newly visits. */
  method OddWalk(g: seq<Vertex<int>>, current: nat, visited: VisitedSet<nat>) returns (count: nat)
    requires WellFormed(Edges(g)) && current < |g|
    requires visited.members <= Handles(|g|)
    requires visited.Valid()
    modifies visited
    decreases Handles(|g|) - visited.members
    ensures visited.Valid() && old(visited.expanded) <= visited.expanded
    ensures visited.members <= Handles(|g|)
    ensures WalkDone(Edges(g), current, old(visited.members), visited.members)
    ensures count == |OddAmong(g, visited.members - old(visited.members))|
  {
    ghost var adj := Edges(g);
    ghost var before := visited.members;
    if current in visited.members {
      WalkSkips(adj, current, before);
      assert OddAmong(g, {}) == {};
      return 0;
    }
    visited.members := visited.members + {current};
    visited.expanded := visited.expanded + [current];
    WalkStarts(adj, current, before);

    count := 0;
    if IsOdd(g[current].data) {
      count := count + 1;
    }
    assert visited.members - before == {current};
    assert OddAmong(g, {current}) == if IsOdd(g[current].data) then {current} else {};

    var neighbors := g[current].neighbors;
    var i := 0;
    while i < |neighbors|
      invariant visited.members <= Handles(|g|)
      invariant visited.Valid() && old(visited.expanded) <= visited.expanded
      invariant WalkUpTo(adj, current, before, visited.members, i)
      invariant count == |OddAmong(g, visited.members - before)|
    {
      ghost var now := visited.members;
      assert Handles(|g|) - now < Handles(|g|) - before by {
        assert current in Handles(|g|) - before;
      }
      var c := OddWalk(g, neighbors[i], visited);
      WalkAbsorbs(adj, current, before, now, visited.members, i);
      NewlyVisitedSplit(before, now, visited.members);
      OddAmongSplit(g, now - before, visited.members - now);
      count := count + c;
      i := i + 1;
    }
    WalkFinishes(adj, current, before, visited.members);
  }

  /** The vertices reachable from `starting` that hold an odd value. */
  ghost function OddReachable(g: seq<Vertex<int>>, starting: nat): set<nat> {
    OddAmong(g, ReachSet(Edges(g), starting))
  }

  /**
   * `oddVertices(starting)`: 0 for null; otherwise the number of distinct
   * vertices reachable from `starting`, itself included, whose value is odd.
   */
  method OddVertices(g: seq<Vertex<int>>, starting: Option<nat>) returns (count: nat)
    requires WellFormed(Edges(g))
    requires starting.Some? ==> starting.value < |g|
    ensures starting.None? ==> count == 0
    ensures starting.Some? ==> count == |OddReachable(g, starting.value)|
    ensures count <= |g|
  {
    if starting.None? {
      return 0;
    }
    var visited := new VisitedSet<nat>();
    count := OddWalk(g, starting.value, visited);
    WalkVisitsReachSet(Edges(g), starting.value, visited.members);
    assert visited.members - {} == visited.members;
    HandlesCount(|g|);
    var odd := OddReachable(g, starting.value);
    assert odd <= Handles(|g|) by {
      forall v | v in odd ensures v in Handles(|g|) {
        assert v < |g|;
      }
    }
    assert |odd| <= |Handles(|g|)| by {
      SubsetCount(odd, Handles(|g|));
    }
  }

  // ---------------------------------------------------------------------------
  // sortedReachable, node form

  /** The entry vertex v contributes to the bag of S. */
  function Entry(g: seq<Vertex<int>>, S: set<nat>, v: nat): multiset<int>
    requires v < |g|
  {
    if v in S then multiset{g[v].data} else multiset{}
  }

  /** The data of the vertices of S below index k, one entry per vertex. */
  function DataBagBelow(g: seq<Vertex<int>>, S: set<nat>, k: nat): multiset<int>
    requires k <= |g|
  {
    if k == 0 then multiset{} else DataBagBelow(g, S, k - 1) + Entry(g, S, k - 1)
  }

  /** The data of the vertices of S, one entry per vertex: equal values on distinct vertices all count. */
  function DataBag(g: seq<Vertex<int>>, S: set<nat>): multiset<int> {
    DataBagBelow(g, S, |g|)
  }

  lemma EntrySplit(g: seq<Vertex<int>>, A: set<nat>, B: set<nat>, v: nat)
    requires v < |g| && A !! B
    ensures Entry(g, A + B, v) == Entry(g, A, v) + Entry(g, B, v)
  {
  }

  lemma {:induction false} DataBagBelowSplit(g: seq<Vertex<int>>, A: set<nat>, B: set<nat>, k: nat)
    requires k <= |g| && A !! B
    ensures DataBagBelow(g, A + B, k) == DataBagBelow(g, A, k) + DataBagBelow(g, B, k)
  {
    if k > 0 {
      DataBagBelowSplit(g, A, B, k - 1);
      EntrySplit(g, A, B, k - 1);
    }
  }

  lemma {:induction false} DataBagBelowSingle(g: seq<Vertex<int>>, v: nat, k: nat)
    requires v < k <= |g|
    ensures DataBagBelow(g, {v}, k) == multiset{g[v].data}
  {
    if k - 1 != v {
      DataBagBelowSingle(g, v, k - 1);
      assert Entry(g, {v}, k - 1) == multiset{};
    } else {
      DataBagBelowNone(g, {v}, k - 1);
      assert Entry(g, {v}, k - 1) == multiset{g[v].data};
    }
  }

  lemma {:induction false} DataBagBelowNone(g: seq<Vertex<int>>, S: set<nat>, k: nat)
    requires k <= |g| && forall v :: v in S ==> v >= k
    ensures DataBagBelow(g, S, k) == multiset{}
  {
    if k > 0 {
      DataBagBelowNone(g, S, k - 1);
    }
  }

  /** The bag of a disjoint union is the sum of the bags. */
  lemma DataBagSplit(g: seq<Vertex<int>>, A: set<nat>, B: set<nat>)
    requires A !! B
    ensures DataBag(g, A + B) == DataBag(g, A) + DataBag(g, B)
  {
    DataBagBelowSplit(g, A, B, |g|);
  }

  lemma DataBagSingle(g: seq<Vertex<int>>, v: nat)
    requires v < |g|
    ensures DataBag(g, {v}) == multiset{g[v].data}
  {
    DataBagBelowSingle(g, v, |g|);
  }

  /** One entry per vertex: the bag of a set of vertices has as many entries as the set. */
  lemma {:induction false} DataBagSize(g: seq<Vertex<int>>, S: set<nat>)
    requires S <= Handles(|g|)
    ensures |DataBag(g, S)| == |S|
    decreases S
  {
    if S == {} {
      DataBagBelowNone(g, S, |g|);
    } else {
      var v :| v in S;
      var rest := S - {v};
      assert S == rest + {v};
      DataBagSplit(g, rest, {v});
      DataBagSingle(g, v);
      DataBagSize(g, rest);
    }
  }

  /** `sortedReachable(current, visited, result)`: appends the data of each newly visited vertex to `result`. */
  method CollectWalk(g: seq<Vertex<int>>, current: nat, visited: VisitedSet<nat>, result: ValueList)
    requires WellFormed(Edges(g)) && current < |g|
    requires visited.members <= Handles(|g|)
    requires visited.Valid()
    modifies visited, result
    decreases Handles(|g|) - visited.members
    ensures visited.Valid() && old(visited.expanded) <= visited.expanded
    ensures visited.members <= Handles(|g|)
    ensures WalkDone(Edges(g), current, old(visited.members), visited.members)
    ensures old(result.items) <= result.items
    ensures multiset(result.items) == multiset(old(result.items)) + DataBag(g, visited.members - old(visited.members))
  {
    ghost var adj := Edges(g);
    ghost var before := visited.members;
    ghost var items0 := result.items;
    if current in visited.members {
      WalkSkips(adj, current, before);
      assert visited.members - before == {};
      DataBagBelowNone(g, {}, |g|);
      return;
    }
    visited.members := visited.members + {current};
    visited.expanded := visited.expanded + [current];
    WalkStarts(adj, current, before);
    result.items := result.items + [g[current].data];
    assert visited.members - before == {current};
    DataBagSingle(g, current);

    var neighbors := g[current].neighbors;
    var i := 0;
    while i < |neighbors|
      invariant visited.members <= Handles(|g|)
      invariant visited.Valid() && old(visited.expanded) <= visited.expanded
      invariant WalkUpTo(adj, current, before, visited.members, i)
      invariant items0 <= result.items
      invariant multiset(result.items) == multiset(items0) + DataBag(g, visited.members - before)
    {
      ghost var now := visited.members;
      assert Handles(|g|) - now < Handles(|g|) - before by {
        assert current in Handles(|g|) - before;
      }
      CollectWalk(g, neighbors[i], visited, result);
      WalkAbsorbs(adj, current, before, now, visited.members, i);
      NewlyVisitedSplit(before, now, visited.members);
      DataBagSplit(g, now - before, visited.members - now);
      i := i + 1;
    }
    WalkFinishes(adj, current, before, visited.members);
  }

  /**
   * `sortedReachable(starting)`: empty for null; otherwise the data of the
   * distinct vertices reachable from `starting`, one entry per vertex, in
   * ascending order.
   */
  method SortedReachable(g: seq<Vertex<int>>, starting: Option<nat>) returns (values: seq<int>)
    requires WellFormed(Edges(g))
    requires starting.Some? ==> starting.value < |g|
    ensures starting.None? ==> values == []
    ensures starting.Some? ==> Ascending(values)
    ensures starting.Some? ==> multiset(values) == DataBag(g, ReachSet(Edges(g), starting.value))
    ensures starting.Some? ==> |values| == |ReachSet(Edges(g), starting.value)|
  {
    if starting.None? {
      return [];
    }
    var allValues := new ValueList();
    var visited := new VisitedSet<nat>();
    CollectWalk(g, starting.value, visited, allValues);
    WalkVisitsReachSet(Edges(g), starting.value, visited.members);
    assert visited.members - {} == visited.members;
    allValues.items := Sort(allValues.items);
    values := allValues.items;
    DataBagSize(g, visited.members);
  }

  // ---------------------------------------------------------------------------
  // twoWay, canReach, find

  /**
   * `find(current, target, visited)`: true as soon as `target` is met. When
   * it answers false the walk ran to completion without meeting `target`.
   */
  method Find<T>(g: seq<Vertex<T>>, current: nat, target: nat, visited: VisitedSet<nat>) returns (found: bool)
    requires WellFormed(Edges(g)) && current < |g| && target < |g|
    requires visited.members <= Handles(|g|) && target !in visited.members
    requires visited.Valid()
    modifies visited
    decreases Handles(|g|) - visited.members
    ensures visited.Valid() && old(visited.expanded) <= visited.expanded
    ensures old(visited.members) <= visited.members <= Handles(|g|)
    ensures found ==> Reachable(Edges(g), current, target)
    ensures !found ==> target !in visited.members
    ensures !found ==> WalkDone(Edges(g), current, old(visited.members), visited.members)
  {
    ghost var adj := Edges(g);
    ghost var before := visited.members;
    if current == target {
      ReachableSelf(adj, current);
      return true;
    }
    if current in visited.members {
      WalkSkips(adj, current, before);
      return false;
    }
    visited.members := visited.members + {current};
    visited.expanded := visited.expanded + [current];
    WalkStarts(adj, current, before);

    var neighbors := g[current].neighbors;
    var i := 0;
    while i < |neighbors|
      invariant visited.members <= Handles(|g|)
      invariant target !in visited.members
      invariant visited.Valid() && old(visited.expanded) <= visited.expanded
      invariant WalkUpTo(adj, current, before, visited.members, i)
    {
      ghost var now := visited.members;
      assert Handles(|g|) - now < Handles(|g|) - before by {
        assert current in Handles(|g|) - before;
      }
      var f := Find(g, neighbors[i], target, visited);
      if f {
        ReachableStep(adj, current, neighbors[i], target);
        return true;
      }
      WalkAbsorbs(adj, current, before, now, visited.members, i);
      i := i + 1;
    }
    WalkFinishes(adj, current, before, visited.members);
    return false;
  }

  /** `canReach(start, target)`: true exactly when `target` is reachable from `start`. */
  method CanReach<T>(g: seq<Vertex<T>>, start: nat, target: nat) returns (found: bool)
    requires WellFormed(Edges(g)) && start < |g| && target < |g|
    ensures found <==> Reachable(Edges(g), start, target)
  {
    var visited := new VisitedSet<nat>();
    found := Find(g, start, target, visited);
    if !found {
      WalkVisitsReachSet(Edges(g), start, visited.members);
    }
  }

  /**
   * `twoWay(v1, v2)`: false when either is null, true when they are the same
   * vertex, and otherwise true exactly when each reaches the other.
   */
  method TwoWay<T>(g: seq<Vertex<T>>, v1: Option<nat>, v2: Option<nat>) returns (both: bool)
    requires WellFormed(Edges(g))
    requires v1.Some? ==> v1.value < |g|
    requires v2.Some? ==> v2.value < |g|
    ensures both <==> v1.Some? && v2.Some? && MutuallyReachable(Edges(g), v1.value, v2.value)
    ensures v1.Some? && v2.Some? && v1.value == v2.value ==> both
  {
    if v1.None? || v2.None? {
      return false;
    }
    if v1.value == v2.value {
      ReachableSelf(Edges(g), v1.value);
      return true;
    }
    both := CanReach(g, v1.value, v2.value);
    if both {
      both := CanReach(g, v2.value, v1.value);
    }
  }

  // ---------------------------------------------------------------------------
  // hasExtendedConnectionAtCompany

  /** Somebody reachable from `person` through connections, `person` included, works at `company`. */
  ghost predicate ReachesCompany(net: seq<Professional>, person: nat, company: string) {
    exists v :: 0 <= v < |net| && Reachable(Links(net), person, v) && net[v].company == company
  }

  /** Nobody in S works at `company`. */
  ghost predicate NoneWorksAt(net: seq<Professional>, S: set<nat>, company: string) {
    forall v :: v in S && v < |net| ==> net[v].company != company
  }

  /**
   * `hasExtendedConnectionAtCompany(current, companyName, visited)`: tests the
   * company before the visited guard, then walks the connections. Every
   * professional it has marked was tested first, so the visited set never
   * holds a match.
   */
  method ConnectionWalk(net: seq<Professional>, current: nat, companyName: string, visited: VisitedSet<nat>)
    returns (found: bool)
    requires WellFormed(Links(net)) && current < |net|
    requires visited.members <= Handles(|net|)
    requires NoneWorksAt(net, visited.members, companyName)
    requires visited.Valid()
    modifies visited
    decreases Handles(|net|) - visited.members
    ensures visited.Valid() && old(visited.expanded) <= visited.expanded
    ensures old(visited.members) <= visited.members <= Handles(|net|)
    ensures found ==> ReachesCompany(net, current, companyName)
    ensures !found ==> NoneWorksAt(net, visited.members, companyName)
    ensures !found ==> WalkDone(Links(net), current, old(visited.members), visited.members)
  {
    ghost var adj := Links(net);
    ghost var before := visited.members;
    if net[current].company == companyName {
      ReachableSelf(adj, current);
      return true;
    }
    if current in visited.members {
      WalkSkips(adj, current, before);
      return false;
    }
    visited.members := visited.members + {current};
    visited.expanded := visited.expanded + [current];
    WalkStarts(adj, current, before);

    var connections := net[current].connections;
    var i := 0;
    while i < |connections|
      invariant visited.members <= Handles(|net|)
      invariant NoneWorksAt(net, visited.members, companyName)
      invariant visited.Valid() && old(visited.expanded) <= visited.expanded
      invariant WalkUpTo(adj, current, before, visited.members, i)
    {
      ghost var now := visited.members;
      assert Handles(|net|) - now < Handles(|net|) - before by {
        assert current in Handles(|net|) - before;
      }
      var f := ConnectionWalk(net, connections[i], companyName, visited);
      if f {
        ghost var w :| 0 <= w < |net| && Reachable(adj, connections[i], w) && net[w].company == companyName;
        ReachableStep(adj, current, connections[i], w);
        return true;
      }
      WalkAbsorbs(adj, current, before, now, visited.members, i);
      i := i + 1;
    }
    WalkFinishes(adj, current, before, visited.members);
    return false;
  }

  /**
   * `hasExtendedConnectionAtCompany(person, companyName)`: false for null;
   * otherwise true exactly when somebody in the extended network of `person`,
   * `person` included, works at `companyName`.
   */
  method HasExtendedConnectionAtCompany(net: seq<Professional>, person: Option<nat>, companyName: string)
    returns (found: bool)
    requires WellFormed(Links(net))
    requires person.Some? ==> person.value < |net|
    ensures found <==> person.Some? && ReachesCompany(net, person.value, companyName)
  {
    if person.None? {
      return false;
    }
    var visited := new VisitedSet<nat>();
    found := ConnectionWalk(net, person.value, companyName, visited);
    if !found {
      WalkVisitsReachSet(Links(net), person.value, visited.members);
    }
  }

  // ---------------------------------------------------------------------------
  // sortedReachable, map form

  /** A non-empty set has an element; iterating a `Set` picks its elements in an unspecified order. */
  lemma SomeElement<T>(s: set<T>) returns (x: T)
    requires s != {}
    ensures x in s
  {
    x :| x in s;
  }

  /** `sortedReachable(current, graph, visited)`: marks every id reachable from `current`; an id that is not a key has no successors to walk. */
  method MapCollectWalk(graph: MapGraph.Graph, current: int, visited: VisitedSet<int>)
    requires current in MapGraph.Mentioned(graph)
    requires visited.members <= MapGraph.Mentioned(graph)
    requires visited.Valid()
    modifies visited
    decreases MapGraph.Mentioned(graph) - visited.members
    ensures visited.Valid() && old(visited.expanded) <= visited.expanded
    ensures visited.members <= MapGraph.Mentioned(graph)
    ensures MapGraph.WalkDone(graph, current, old(visited.members), visited.members)
  {
    ghost var ids := MapGraph.Mentioned(graph);
    ghost var before := visited.members;
    if current in visited.members {
      MapGraph.WalkSkips(graph, current, before);
      return;
    }
    visited.members := visited.members + {current};
    visited.expanded := visited.expanded + [current];
    MapGraph.WalkStarts(graph, current, before);

    if current in graph {
      var neighbors := graph[current];
      var rest := neighbors;
      while rest != {}
        invariant rest <= neighbors
        invariant visited.members <= ids
        invariant visited.Valid() && old(visited.expanded) <= visited.expanded
        invariant MapGraph.WalkUpTo(graph, current, before, visited.members, neighbors - rest)
        decreases rest
      {
        ghost var some := SomeElement(rest);
        var neighbor :| neighbor in rest;
        ghost var now := visited.members;
        assert ids - now < ids - before by {
          assert current in ids - before;
        }
        MapCollectWalk(graph, neighbor, visited);
        MapGraph.WalkAbsorbs(graph, current, before, now, visited.members, neighbors - rest, neighbor);
        assert neighbors - (rest - {neighbor}) == (neighbors - rest) + {neighbor};
        rest := rest - {neighbor};
      }
      MapGraph.WalkFinishes(graph, current, before, visited.members, neighbors);
    } else {
      MapGraph.WalkFinishes(graph, current, before, visited.members, {});
    }
  }

  /** `new ArrayList<>(visited)`: the elements of a set, each once, in some order. */
  method ListOfSet(s: set<int>) returns (xs: seq<int>)
    ensures Distinct(xs)
    ensures forall x :: x in xs <==> x in s
  {
    xs := [];
    var rest := s;
    while rest != {}
      invariant rest <= s
      invariant Distinct(xs)
      invariant forall x :: x in xs <==> x in s - rest
      decreases rest
    {
      ghost var some := SomeElement(rest);
      var x :| x in rest;
      assert forall i :: 0 <= i < |xs| ==> xs[i] in xs;
      xs := xs + [x];
      rest := rest - {x};
    }
  }

  /**
   * `sortedReachable(graph, starting)`: empty when the graph is null or
   * `starting` is not a key; otherwise the ids reachable from `starting`,
   * each once, in strictly ascending order.
   */
  method SortedReachableMap(graph: Option<MapGraph.Graph>, starting: int) returns (ids: seq<int>)
    ensures graph.None? || starting !in graph.value ==> ids == []
    ensures graph.Some? && starting in graph.value ==> StrictlyAscending(ids)
    ensures graph.Some? && starting in graph.value ==>
      forall x :: x in ids <==> MapGraph.Reachable(graph.value, starting, x)
  {
    if graph.None? || starting !in graph.value {
      return [];
    }
    var visited := new VisitedSet<int>();
    MapCollectWalk(graph.value, starting, visited);
    MapGraph.WalkVisitsReachable(graph.value, starting, visited.members);
    var result := ListOfSet(visited.members);
    ids := Sort(result);
    SortDistinctIsStrict(result);
    assert forall x :: x in ids <==> x in result by {
      forall x ensures x in ids <==> x in result {
        assert x in ids <==> x in multiset(ids);
        assert x in result <==> x in multiset(result);
      }
    }
  }

  // ---------------------------------------------------------------------------
  // positivePathExists

  /**
   * What a call returns, or the `NullPointerException` its walk throws when
   * the unguarded successor lookup meets an id that is not a key.
   */
  datatype Outcome = Returns(found: bool) | NullPointer(id: int)

  /** The checks made before any traversal: a graph, both ids keys, both ids positive. */
  predicate ValidEndpoints(graph: Option<MapGraph.Graph>, starting: int, ending: int) {
    graph.Some? && starting in graph.value && ending in graph.value && starting > 0 && ending > 0
  }

  /**
   * `positivePathExists(graph, current, target, visited)`: expands only
   * positive successors. Reaching `target` answers true; expanding an id
   * that is not a key throws.
   */
  method PositiveWalk(graph: MapGraph.Graph, current: int, target: int, visited: VisitedSet<int>) returns (r: Outcome)
    requires current > 0 && current in MapGraph.Mentioned(graph)
    requires visited.members <= MapGraph.Mentioned(graph) && target !in visited.members
    requires visited.Valid()
    modifies visited
    decreases MapGraph.Mentioned(graph) - visited.members
    ensures visited.Valid() && old(visited.expanded) <= visited.expanded
    ensures old(visited.members) <= visited.members <= MapGraph.Mentioned(graph)
    ensures current == target ==> r == Returns(true)
    ensures r == Returns(true) ==> MapGraph.PositiveReachable(graph, current, target)
    ensures r == Returns(false) ==> target !in visited.members
    ensures r == Returns(false) ==> MapGraph.PositiveWalkDone(graph, current, old(visited.members), visited.members)
    ensures r == Returns(false) ==> visited.members - old(visited.members) <= graph.Keys
    ensures r.NullPointer? ==> r.id > 0 && r.id !in graph && MapGraph.PositiveReachableAvoiding(graph, current, r.id, target)
  {
    ghost var ids := MapGraph.Mentioned(graph);
    ghost var before := visited.members;
    if current == target {
      MapGraph.PositiveReachableSelf(graph, current);
      return Returns(true);
    }
    if current in visited.members {
      MapGraph.PositiveWalkSkips(graph, current, before);
      return Returns(false);
    }
    visited.members := visited.members + {current};
    visited.expanded := visited.expanded + [current];

    if current !in graph {
      assert MapGraph.IsPath(graph, [current]);
      return NullPointer(current);
    }
    MapGraph.PositiveWalkStarts(graph, current, before);
    var neighbors := graph[current];
    var rest := neighbors;
    while rest != {}
      invariant rest <= neighbors
      invariant before <= visited.members <= ids
      invariant target !in visited.members
      invariant visited.Valid() && old(visited.expanded) <= visited.expanded
      invariant MapGraph.PositiveWalkUpTo(graph, current, before, visited.members, neighbors - rest)
      invariant visited.members - before <= graph.Keys
      decreases rest
    {
      ghost var some := SomeElement(rest);
      var neighbor :| neighbor in rest;
      assert neighbors - (rest - {neighbor}) == (neighbors - rest) + {neighbor};
      if neighbor > 0 {
        ghost var now := visited.members;
        assert ids - now < ids - before by {
          assert current in ids - before;
        }
        var sub := PositiveWalk(graph, neighbor, target, visited);
        if sub == Returns(true) {
          MapGraph.PositiveReachableStep(graph, current, neighbor, target);
          return sub;
        }
        if sub.NullPointer? {
          MapGraph.PositiveReachableAvoidingStep(graph, current, neighbor, sub.id, target);
          return sub;
        }
        MapGraph.PositiveWalkAbsorbs(graph, current, before, now, visited.members, neighbors - rest, neighbor);
      } else {
        MapGraph.PositiveWalkPasses(graph, current, before, visited.members, neighbors - rest, neighbor);
      }
      rest := rest - {neighbor};
    }
    MapGraph.PositiveWalkFinishes(graph, current, before, visited.members);
    return Returns(false);
  }

  /**
   * `positivePathExists(graph, starting, ending)`: false without a walk unless
   * the graph exists and both ids are positive keys; then true exactly when a
   * path of positive ids leads from `starting` to `ending`, unless the walk
   * throws on a positive id it reached that is not a key.
   */
  method PositivePathExists(graph: Option<MapGraph.Graph>, starting: int, ending: int) returns (r: Outcome)
    ensures !ValidEndpoints(graph, starting, ending) ==> r == Returns(false)
    ensures ValidEndpoints(graph, starting, ending) && starting == ending ==> r == Returns(true)
    ensures ValidEndpoints(graph, starting, ending) && r.Returns? ==>
      (r.found <==> MapGraph.PositiveReachable(graph.value, starting, ending))
    ensures r.NullPointer? ==>
      graph.Some? && r.id > 0 && r.id !in graph.value && MapGraph.PositiveReachableAvoiding(graph.value, starting, r.id, ending)
    ensures ValidEndpoints(graph, starting, ending) && r == Returns(false) ==>
      forall t :: MapGraph.PositiveReachable(graph.value, starting, t) ==> t in graph.value
  {
    if graph.None? {
      return Returns(false);
    }
    if starting !in graph.value || ending !in graph.value {
      return Returns(false);
    }
    if starting <= 0 || ending <= 0 {
      return Returns(false);
    }
    var visited := new VisitedSet<int>();
    r := PositiveWalk(graph.value, starting, ending, visited);
    if r == Returns(false) {
      assert visited.members - {} == visited.members;
      if MapGraph.PositiveReachable(graph.value, starting, ending) {
        MapGraph.PositivelyClosedHoldsReachable(graph.value, visited.members, starting, ending);
      }
      MapGraph.PositiveWalkMetOnlyKeys(graph.value, starting, visited.members);
    }
  }

  /**
   * The walk of `positivePathExists` with the `neighbors != null` guard that
   * the map form of `sortedReachable` has: an id that is not a key has no
   * successors, and the walk never throws.
   */
  method GuardedPositiveWalk(graph: MapGraph.Graph, current: int, target: int, visited: VisitedSet<int>) returns (found: bool)
    requires current > 0 && current in MapGraph.Mentioned(graph)
    requires visited.members <= MapGraph.Mentioned(graph) && target !in visited.members
    requires visited.Valid()
    modifies visited
    decreases MapGraph.Mentioned(graph) - visited.members
    ensures visited.Valid() && old(visited.expanded) <= visited.expanded
    ensures old(visited.members) <= visited.members <= MapGraph.Mentioned(graph)
    ensures found ==> MapGraph.PositiveReachable(graph, current, target)
    ensures !found ==> target !in visited.members
    ensures !found ==> MapGraph.PositiveWalkDone(graph, current, old(visited.members), visited.members)
  {
    ghost var ids := MapGraph.Mentioned(graph);
    ghost var before := visited.members;
    if current == target {
      MapGraph.PositiveReachableSelf(graph, current);
      return true;
    }
    if current in visited.members {
      MapGraph.PositiveWalkSkips(graph, current, before);
      return false;
    }
    visited.members := visited.members + {current};
    visited.expanded := visited.expanded + [current];

    if current !in graph {
      MapGraph.PositiveWalkStops(graph, current, before);
      return false;
    }
    MapGraph.PositiveWalkStarts(graph, current, before);
    var neighbors := graph[current];
    var rest := neighbors;
    while rest != {}
      invariant rest <= neighbors
      invariant before <= visited.members <= ids
      invariant target !in visited.members
      invariant visited.Valid() && old(visited.expanded) <= visited.expanded
      invariant MapGraph.PositiveWalkUpTo(graph, current, before, visited.members, neighbors - rest)
      decreases rest
    {
      ghost var some := SomeElement(rest);
      var neighbor :| neighbor in rest;
      assert neighbors - (rest - {neighbor}) == (neighbors - rest) + {neighbor};
      if neighbor > 0 {
        ghost var now := visited.members;
        assert ids - now < ids - before by {
          assert current in ids - before;
        }
        var sub := GuardedPositiveWalk(graph, neighbor, target, visited);
        if sub {
          MapGraph.PositiveReachableStep(graph, current, neighbor, target);
          return true;
        }
        MapGraph.PositiveWalkAbsorbs(graph, current, before, now, visited.members, neighbors - rest, neighbor);
      } else {
        MapGraph.PositiveWalkPasses(graph, current, before, visited.members, neighbors - rest, neighbor);
      }
      rest := rest - {neighbor};
    }
    MapGraph.PositiveWalkFinishes(graph, current, before, visited.members);
    return false;
  }

  /**
   * `positivePathExists` with the missing-key guard: total, and true exactly
   * when the endpoints are valid and a path of positive ids joins them.
   */
  method GuardedPositivePathExists(graph: Option<MapGraph.Graph>, starting: int, ending: int) returns (found: bool)
    ensures found <==>
      ValidEndpoints(graph, starting, ending) && MapGraph.PositiveReachable(graph.value, starting, ending)
  {
    if graph.None? {
      return false;
    }
    if starting !in graph.value || ending !in graph.value {
      return false;
    }
    if starting <= 0 || ending <= 0 {
      return false;
    }
    var visited := new VisitedSet<int>();
    found := GuardedPositiveWalk(graph.value, starting, ending, visited);
    if !found {
      assert visited.members - {} == visited.members;
      if MapGraph.PositiveReachable(graph.value, starting, ending) {
        MapGraph.PositivelyClosedHoldsReachable(graph.value, visited.members, starting, ending);
      }
    }
  }
}
