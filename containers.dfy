/** The mutable Java collections the walks share by reference. */
module Containers {

  /**
   * A `HashSet` of visited vertices: created empty by the entry point, then
   * grown in place by every call of the walk. The ghost log `expanded` lists
   * the vertices whose successors a walk has started to walk, in that order.
   */
  class VisitedSet<K(==,!new)> {
    var members: set<K>
    ghost var expanded: seq<K>

    /** Exactly the visited vertices have been expanded, and none of them twice. */
    ghost predicate Valid()
      reads this
    {
      && (forall x :: x in members <==> x in expanded)
      && (forall i, j :: 0 <= i < j < |expanded| ==> expanded[i] != expanded[j])
    }

    constructor ()
      ensures Valid() && members == {} && expanded == []
    {
      members := {};
      expanded := [];
    }
  }

  /** An `ArrayList<Integer>` that a walk appends to in place. */
  class ValueList {
    var items: seq<int>

    constructor ()
      ensures items == []
    {
      items := [];
    }
  }
}
