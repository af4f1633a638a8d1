/**
 * Concrete graphs checked against the specifications, and clients that
 * obtain the answers from the entry points' contracts alone. The odd-count
 * and sorted graphs are the worked examples of the doc comments of
 * `oddVertices` and `sortedReachable`; the positive, chain, cycle, map
 * and dangling graphs are small illustrations of the rules those comments state.
 */
module Examples {
  import opened Wrappers
  import opened Sorting
  import opened Arena
  import opened Practice
  import MapGraph

  /**
   * The graph of the `oddVertices` example, one vertex per value:
   * 5 -> 4, 5 -> 8, 4 -> 7, 8 -> 7, 8 -> 9, 1 -> 7.
   */
  function OddExample(): seq<Vertex<int>> {
    [ Vertex(5, [1, 2]),  // 0
      Vertex(4, [3]),     // 1
      Vertex(8, [3, 4]),  // 2
      Vertex(7, []),      // 3
      Vertex(9, []),      // 4
      Vertex(1, [3]) ]    // 5
  }

  lemma OddExampleEdges()
    ensures Edges(OddExample()) == [[1, 2], [3], [3, 4], [], [], [3]]
    ensures WellFormed(Edges(OddExample()))
  {
    var adj := Edges(OddExample());
    assert adj[0] == [1, 2] && adj[1] == [3] && adj[2] == [3, 4];
    assert adj[3] == [] && adj[4] == [] && adj[5] == [3];
  }

  lemma OddExampleReachSet()
    ensures ReachSet(Edges(OddExample()), 0) == {0, 1, 2, 3, 4}
  {
    OddExampleEdges();
    var adj: Adjacency := [[1, 2], [3], [3, 4], [], [], [3]];
    var S: set<nat> := {0, 1, 2, 3, 4};
    assert IsPath(adj, [0]);
    assert IsPath(adj, [0, 1]);
    assert IsPath(adj, [0, 2]);
    assert IsPath(adj, [0, 1, 3]);
    assert IsPath(adj, [0, 2, 4]);
    OddExampleClosed();
    ClosedSoundSetIsReachSet(adj, S, 0);
  }

  lemma OddExampleClosed()
    ensures ExpandedWithin([[1, 2], [3], [3, 4], [], [], [3]], {0, 1, 2, 3, 4}, {0, 1, 2, 3, 4})
  {
    var adj: Adjacency := [[1, 2], [3], [3, 4], [], [], [3]];
    var S: set<nat> := {0, 1, 2, 3, 4};
    forall v, j | v in S && 0 <= v < |adj| && 0 <= j < |adj[v]| ensures adj[v][j] in S {
    }
  }

  /** Starting from 5, the odd vertices reached are 5, 7 and 9, but not the unreachable 1. */
  lemma OddExampleCount()
    ensures OddReachable(OddExample(), 0) == {0, 3, 4}
    ensures |OddReachable(OddExample(), 0)| == 3
  {
    OddExampleReachSet();
    var g := OddExample();
    assert OddReachable(g, 0) == OddAmong(g, {0, 1, 2, 3, 4});
    assert IsOdd(5) && !IsOdd(4) && !IsOdd(8) && IsOdd(7) && IsOdd(9);
    assert OddAmong(g, {0, 1, 2, 3, 4}) == {0, 3, 4};
  }

  method OddExampleClient() returns (count: nat)
    ensures count == 3
  {
    OddExampleEdges();
    count := OddVertices(OddExample(), Some(0));
    OddExampleCount();
  }

  /**
   * The graph of the `sortedReachable` example: 5 -> 8, 5 -> 8 (a second
   * vertex with the same value), both 8 -> 2, and 4 -> 2.
   */
  function SortedExample(): seq<Vertex<int>> {
    [ Vertex(5, [1, 2]),  // 0
      Vertex(8, [3]),     // 1
      Vertex(8, [3]),     // 2
      Vertex(2, []),      // 3
      Vertex(4, [3]) ]    // 4
  }

  lemma SortedExampleEdges()
    ensures Edges(SortedExample()) == [[1, 2], [3], [3], [], [3]]
    ensures WellFormed(Edges(SortedExample()))
  {
    var adj := Edges(SortedExample());
    assert adj[0] == [1, 2] && adj[1] == [3] && adj[2] == [3];
    assert adj[3] == [] && adj[4] == [3];
  }

  lemma SortedExampleReachSet()
    ensures ReachSet(Edges(SortedExample()), 0) == {0, 1, 2, 3}
  {
    SortedExampleEdges();
    var adj: Adjacency := [[1, 2], [3], [3], [], [3]];
    var S: set<nat> := {0, 1, 2, 3};
    assert IsPath(adj, [0]);
    assert IsPath(adj, [0, 1]);
    assert IsPath(adj, [0, 2]);
    assert IsPath(adj, [0, 1, 3]);
    SortedExampleClosed();
    ClosedSoundSetIsReachSet(adj, S, 0);
  }

  lemma SortedExampleClosed()
    ensures ExpandedWithin([[1, 2], [3], [3], [], [3]], {0, 1, 2, 3}, {0, 1, 2, 3})
  {
    var adj: Adjacency := [[1, 2], [3], [3], [], [3]];
    var S: set<nat> := {0, 1, 2, 3};
    forall v, j | v in S && 0 <= v < |adj| && 0 <= j < |adj[v]| ensures adj[v][j] in S {
    }
  }

  /** Starting from 5 the values collected are 5, 8, 8 and 2: both vertices valued 8 count. */
  lemma SortedExampleValues()
    ensures DataBag(SortedExample(), ReachSet(Edges(SortedExample()), 0)) == multiset{2, 5, 8, 8}
  {
    SortedExampleReachSet();
    var g := SortedExample();
    var S: set<nat> := {0, 1, 2, 3};
    assert DataBagBelow(g, S, 0) == multiset{};
    assert DataBagBelow(g, S, 1) == multiset{5};
    assert DataBagBelow(g, S, 2) == multiset{5, 8};
    assert DataBagBelow(g, S, 3) == multiset{5, 8, 8};
    assert DataBagBelow(g, S, 4) == multiset{5, 8, 8, 2};
    assert DataBagBelow(g, S, 5) == multiset{5, 8, 8, 2};
  }

  lemma ExpectedAscending()
    ensures Ascending([2, 5, 8, 8])
  {
    var e := [2, 5, 8, 8];
    forall i, j | 0 <= i < j < 4 ensures e[i] <= e[j] {
    }
  }

  /** Whatever satisfies the contract of `sortedReachable` on this graph is [2, 5, 8, 8]. */
  lemma SortedExampleOutput(values: seq<int>)
    requires Ascending(values)
    requires multiset(values) == DataBag(SortedExample(), ReachSet(Edges(SortedExample()), 0))
    ensures values == [2, 5, 8, 8]
  {
    SortedExampleValues();
    var expected := [2, 5, 8, 8];
    assert multiset(expected) == multiset{2, 5, 8, 8};
    ExpectedAscending();
    AscendingPermutationUnique(values, expected);
  }

  method SortedExampleClient() returns (values: seq<int>)
    ensures values == [2, 5, 8, 8]
  {
    SortedExampleEdges();
    values := SortedReachable(SortedExample(), Some(0));
    SortedExampleOutput(values);
  }

  /** A graph whose only route from 1 to 4 passes through the negative id -3. */
  function PositiveExample(): MapGraph.Graph {
    map[1 := {2}, 2 := {-3}, -3 := {4}, 4 := {}]
  }

  /** 4 is reachable from 1, but not along positive ids; 2 is. */
  lemma PositiveExampleReach()
    ensures MapGraph.Reachable(PositiveExample(), 1, 4)
    ensures !MapGraph.PositiveReachable(PositiveExample(), 1, 4)
    ensures MapGraph.PositiveReachable(PositiveExample(), 1, 2)
    ensures forall k :: MapGraph.PositiveReachable(PositiveExample(), 1, k) ==> k in {1, 2}
  {
    var g := PositiveExample();
    assert MapGraph.IsPath(g, [1, 2, -3, 4]);
    assert MapGraph.IsPath(g, [1, 2]);
    var S := {1, 2};
    assert MapGraph.PositivelyExpandedWithin(g, S, S);
    forall k | MapGraph.PositiveReachable(g, 1, k) ensures k in S {
      MapGraph.PositivelyClosedHoldsReachable(g, S, 1, k);
    }
  }

  /**
   * A path through a negative id does not count, a direct positive edge does,
   * an endpoint that is a key but not positive gives false, and so does an
   * endpoint that is not a key.
   */
  method PositiveExampleClient()
    returns (toFour: Practice.Outcome, toTwo: Practice.Outcome, toMinusFive: Practice.Outcome, toFive: Practice.Outcome)
    ensures toFour == Returns(false)
    ensures toTwo == Returns(true)
    ensures toMinusFive == Returns(false)
    ensures toFive == Returns(false)
  {
    PositiveExampleReach();
    toFour := PositivePathExists(Some(PositiveExample()), 1, 4);
    if toFour.NullPointer? {
      MapGraph.AvoidingIsPositive(PositiveExample(), 1, toFour.id, 4);
    }
    toTwo := PositivePathExists(Some(PositiveExample()), 1, 2);
    toMinusFive := PositivePathExists(Some(PositiveExample()[-5 := {}]), 1, -5);
    toFive := PositivePathExists(Some(PositiveExample()), 1, 5);
  }

  /** A cycle A -> B -> C -> A, and D reached from A with no way back. */
  function CycleExample(): seq<Vertex<string>> {
    [ Vertex("A", [1, 3]),  // 0
      Vertex("B", [2]),     // 1
      Vertex("C", [0]),     // 2
      Vertex("D", []) ]     // 3
  }

  lemma CycleExampleEdges()
    ensures Edges(CycleExample()) == [[1, 3], [2], [0], []]
    ensures WellFormed(Edges(CycleExample()))
  {
    var adj := Edges(CycleExample());
    assert adj[0] == [1, 3] && adj[1] == [2] && adj[2] == [0] && adj[3] == [];
  }

  /** A and C lie on one cycle; D is reached from A but does not reach back. */
  lemma CycleExampleReach()
    ensures MutuallyReachable(Edges(CycleExample()), 0, 2)
    ensures !MutuallyReachable(Edges(CycleExample()), 0, 3)
  {
    CycleExampleEdges();
    var adj: Adjacency := [[1, 3], [2], [0], []];
    assert IsPath(adj, [0, 1, 2]);
    assert IsPath(adj, [2, 0]);
    assert ExpandedWithin(adj, {3}, {3});
    if Reachable(adj, 3, 0) {
      ClosedHoldsReachable(adj, {3}, 3, 0);
    }
  }

  method CycleExampleClient() returns (ac: bool, ad: bool)
    ensures ac && !ad
  {
    CycleExampleEdges();
    CycleExampleReach();
    ac := TwoWay(CycleExample(), Some(0), Some(2));
    ad := TwoWay(CycleExample(), Some(0), Some(3));
  }

  /** A map graph: 1 -> 2, 1 -> 3, 3 -> 1, and 2 with no successors. */
  function MapExample(): MapGraph.Graph {
    map[1 := {2, 3}, 2 := {}, 3 := {1}]
  }

  lemma MapExampleReach()
    ensures forall x :: MapGraph.Reachable(MapExample(), 1, x) <==> x in {1, 2, 3}
  {
    var g := MapExample();
    assert MapGraph.IsPath(g, [1]);
    assert MapGraph.IsPath(g, [1, 2]);
    assert MapGraph.IsPath(g, [1, 3]);
    var S := {1, 2, 3};
    assert MapGraph.ExpandedWithin(g, S, S);
    forall x | MapGraph.Reachable(g, 1, x) ensures x in S {
      MapGraph.ClosedHoldsReachable(g, S, 1, x);
    }
  }

  method MapExampleClient() returns (fromOne: seq<int>, fromAbsent: seq<int>)
    ensures fromOne == [1, 2, 3]
    ensures fromAbsent == []
  {
    fromOne := SortedReachableMap(Some(MapExample()), 1);
    MapExampleReach();
    var expected := [1, 2, 3];
    assert StrictlyAscending(expected);
    StrictlyAscendingUnique(fromOne, expected);
    fromAbsent := SortedReachableMap(Some(MapExample()), 99);
  }

  /** 1 -> 2 where 2 is positive but not a key; 3 is a key nobody reaches. */
  function DanglingExample(): MapGraph.Graph {
    map[1 := {2}, 3 := {}]
  }

  lemma DanglingExampleReach()
    ensures !MapGraph.PositiveReachable(DanglingExample(), 1, 3)
    ensures MapGraph.PositiveReachable(DanglingExample(), 1, 2)
  {
    var g := DanglingExample();
    assert MapGraph.IsPath(g, [1, 2]);
    var S := {1, 2};
    assert MapGraph.PositivelyExpandedWithin(g, S, S);
    if MapGraph.PositiveReachable(g, 1, 3) {
      MapGraph.PositivelyClosedHoldsReachable(g, S, 1, 3);
    }
  }

  /**
   * As written, the walk from 1 towards 3 expands 2, looks up its successor
   * set, finds none and throws; with the guard it answers false.
   */
  method DanglingExampleClient() returns (asWritten: Practice.Outcome, guarded: bool)
    ensures asWritten == NullPointer(2)
    ensures !guarded
  {
    DanglingExampleReach();
    asWritten := PositivePathExists(Some(DanglingExample()), 1, 3);
    guarded := GuardedPositivePathExists(Some(DanglingExample()), 1, 3);
    if asWritten.NullPointer? {
      var id := asWritten.id;
      var g := DanglingExample();
      assert MapGraph.PositivelyExpandedWithin(g, {1, 2}, {1, 2});
      MapGraph.AvoidingIsPositive(g, 1, id, 3);
      MapGraph.PositivelyClosedHoldsReachable(g, {1, 2}, 1, id);
    }
  }

  /** 1 -> 2 -> 3 with 3 not a key: the walk stops at the target 2 and never looks 3 up. */
  function ChainExample(): MapGraph.Graph {
    map[1 := {2}, 2 := {3}]
  }

  method ChainExampleClient() returns (r: Practice.Outcome)
    ensures r == Returns(true)
  {
    var g := ChainExample();
    assert MapGraph.IsPath(g, [1, 2]);
    r := PositivePathExists(Some(g), 1, 2);
    if r.NullPointer? {
      ChainAvoidingTwo(r.id);
    }
  }

  /** Every positive path from 1 that avoids 2 stays at 1, which is a key. */
  lemma ChainAvoidingTwo(t: int)
    requires MapGraph.PositiveReachableAvoiding(ChainExample(), 1, t, 2)
    ensures t == 1
  {
    assert MapGraph.ClosedAvoiding(ChainExample(), {1}, 2);
    MapGraph.AvoidingClosedHoldsReachable(ChainExample(), {1}, 1, t, 2);
  }
}
