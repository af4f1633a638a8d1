# Graph reachability practice, in Dafny

This project models class `Practice`, a set of depth-first searches over two
kinds of directed graph:

- **node graphs.** Each `Vertex` holds a value and a list of neighbouring
  vertices. The `Professional` network has the same shape: a company name and
  a list of connections.
- **map graphs.** A `Map<Integer, Set<Integer>>` from a vertex id to the set
  of its successor ids.

Every public entry point handles its null or invalid inputs. It then allocates
a fresh `HashSet` of visited vertices and hands it to a recursive walk. The
walk marks a vertex before it expands the vertex's successors, so each vertex
is expanded at most once and the walk ends on cyclic graphs.

The six entry points are:

- `oddVertices` counts the reachable vertices that hold an odd value.
- `sortedReachable` (node form) returns the reachable values, sorted, with
  duplicates kept.
- `sortedReachable` (map form) returns the reachable ids, sorted.
- `twoWay` decides mutual reachability, using `canReach` and `find`.
- `positivePathExists` searches for a path of positive ids.
- `hasExtendedConnectionAtCompany` searches a professional's extended network
  for an employee of a company.

## How the model is built

- **`Arena` (arena.dfy).**
  - A node graph is a sequence of `Vertex(data, neighbors)` values. A vertex
    is its index, and neighbours are indices.
  - A professional network is a sequence of `Professional(company,
    connections)` values.
  - Both are reduced to an adjacency list (`Edges`, `Links`).
  - Reachability is defined once, by paths over that list (`IsPath`,
    `Reachable`, `ReachSet`).
  - The module proves the facts the walks need. The central one is
    `ClosedHoldsReachable`: a set that holds the start and is closed under
    successors holds everything reachable. The walk bookkeeping predicates
    (`WalkDone`, `WalkUpTo` and their lemmas) say what a visited-guarded walk
    leaves behind.
- **`MapGraph` (mapgraph.dfy).**
  - Paths over a `map<int, set<int>>`. A step leaves only from a key.
  - `PositiveReachable` restricts every id on the path to be positive.
  - The module has the matching closure lemmas and walk bookkeeping.
- **`Containers` (containers.dfy).**
  - The `HashSet` that each walk updates in place is the class `VisitedSet`.
    Its ghost log `expanded` records the order in which vertices were marked.
    Its invariant `Valid()` says that the log holds no vertex twice, which is
    the "expanded at most once" guarantee.
  - The `ArrayList` of the node-form `sortedReachable` is the class
    `ValueList`.
- **`Sorting` (sorting.dfy).** `Collections.sort` on integers is specified by
  `Sort`: the output is ascending and has the same multiset as the input. The
  uniqueness lemmas show that this contract fixes the output.
- **`Practice` (practice.dfy).**
  - Each recursive private helper is a `method` with the same branches in the
    same order, looping over the neighbours.
  - Each public entry point is a `method` whose contract compares its answer
    with the declarative definitions.
  - A null reference is `None`.
  - Iteration over a `HashSet` visits the elements in some order. The model
    picks an arbitrary element each time (`:|`), so every contract holds for
    every iteration order.
- **`Examples` (examples.dfy).** Concrete graphs checked against the
  definitions. Clients obtain the answers from the entry points' contracts
  alone.
  - The odd-count and sorted graphs are the worked examples in the doc
    comments of `oddVertices` and `sortedReachable`.
  - The positive, chain, cycle, map and dangling graphs are small illustrations of
    the rules those comments state.

## Model

| member | source | states |
|---|---|---|
| Practice.IsOddIsParity | src/Practice.java:43 | the test `data % 2 != 0`, with Java's sign-of-dividend remainder, holds exactly of the values 2k + 1, negative ones included |
| Practice.OddWalk | src/Practice.java:36-50 | the walk leaves every newly visited vertex expanded (its successors visited), all of them reachable from `current`, and returns the number of newly visited vertices holding an odd value; the visited log only grows and repeats no vertex |
| Practice.OddVertices | src/Practice.java:30-34 | null gives 0; otherwise the count equals the number of distinct vertices reachable from the start, the start included, whose value is odd; the count is at most the number of vertices |
| Practice.CollectWalk | src/Practice.java:81-91 | the walk appends to `result` (old items are a prefix) exactly one value per newly visited vertex, and leaves the newly visited set closed and reachable from `current` |
| Practice.DataBagSize | src/Practice.java:54 | the values of a set of vertices form a bag with one entry per vertex, so equal values at distinct vertices are all kept |
| Practice.SortedReachable | src/Practice.java:70-79 | null gives the empty list; otherwise the result is ascending, its multiset is the values of the vertices reachable from the start (one entry per vertex), and its length is the number of reachable vertices |
| Sorting.Sort | src/Practice.java:77 | `Collections.sort`: the output is ascending, has the same multiset and the same length as the input |
| Sorting.AscendingPermutationUnique | src/Practice.java:77 | two ascending sequences with the same multiset are equal, so the sorted node-form result is determined by its contract |
| Practice.MapCollectWalk | src/Practice.java:113-124 | the walk leaves every newly visited id reachable from `current`, and every newly visited key has all its successors visited; an id that is not a key is marked and not expanded |
| MapGraph.WalkVisitsReachable | src/Practice.java:105-106 | after the walk from `s`, the visited set holds exactly the ids reachable from `s` |
| Practice.ListOfSet | src/Practice.java:108 | `new ArrayList<>(visited)`: a duplicate-free list holding exactly the set's elements |
| Sorting.SortDistinctIsStrict | src/Practice.java:108-109 | sorting a duplicate-free list yields a strictly ascending list |
| Sorting.StrictlyAscendingUnique | src/Practice.java:109 | two strictly ascending lists with the same elements are equal, so the map-form result is determined by its contract |
| Practice.SortedReachableMap | src/Practice.java:102-111 | a null graph or a start that is not a key gives the empty list; otherwise the result is strictly ascending and holds x exactly when x is reachable from the start |
| Practice.Find | src/Practice.java:152-162 | true implies the target is reachable from `current`; false implies the target was never visited and the walk left every newly visited vertex expanded |
| Practice.CanReach | src/Practice.java:147-150 | true exactly when the target is reachable from the start |
| Practice.TwoWay | src/Practice.java:140-145 | true exactly when both are non-null and each reaches the other; the same vertex passed twice gives true directly |
| Arena.MutualReachabilityIsEquivalence | src/Practice.java:126-129 | mutual reachability is reflexive, symmetric and transitive, so `twoWay(v1, v2) == twoWay(v2, v1)` |
| Arena.ClosedHoldsReachable | src/Practice.java:36-40 | a vertex set that holds the start and contains every successor of its members holds every vertex reachable from the start; this is the completeness argument for all the node-graph walks |
| Practice.ConnectionWalk | src/Practice.java:215-225 | the company test comes before the visited guard; true implies someone reachable from `current` works at the company; false implies nobody visited works there and the newly visited set is closed |
| Practice.HasExtendedConnectionAtCompany | src/Practice.java:208-213 | true exactly when the person is non-null and someone reachable from them through connections, themself included, works at the company |
| MapGraph.PositivelyClosedHoldsReachable | src/Practice.java:185-197 | a set of positive ids that holds the start and contains every positive successor of its keys holds everything positively reachable from the start |
| Practice.PositiveWalk | src/Practice.java:185-197 | reaching the target answers true and implies a positive path exists; false implies the target was not visited, and every newly visited id is a positive key whose positive successors are visited; a throw names a positive id that is not a key and that `current` reaches along positive ids without passing through the target, since the target answers true before its successors are looked up |
| Practice.PositivePathExists | src/Practice.java:176-183 | false without a walk for a null graph, an endpoint that is not a key, or an endpoint that is not positive; `starting == ending` gives true; any boolean answer is true exactly when a path of positive ids joins them; a throw names a positive id missing from the keys that `starting` reaches along positive ids avoiding `ending`; a false answer implies no positively reachable id is missing from the keys |
| Practice.GuardedPositivePathExists | src/Practice.java:176-197 | with a missing id read as having no successors, the answer is true exactly when the endpoints pass the checks and a path of positive ids joins them |
| Examples.OddExampleCount | src/Practice.java:15-26 | in the documented graph, the odd vertices reachable from 5 are 5, 7 and 9 (not 1), three in all |
| Examples.OddExampleClient | src/Practice.java:15-26 | `oddVertices` of 5 in that graph returns 3 |
| Examples.SortedExampleClient | src/Practice.java:58-65 | `sortedReachable` of 5 in the documented graph returns [2, 5, 8, 8] |
| Examples.CycleExampleClient | src/Practice.java:131-133 | vertices on a common cycle are two-way connected; a vertex only reachable one way is not |
| Examples.MapExampleClient | src/Practice.java:92-100 | map `{1:{2,3}, 2:{}, 3:{1}}` from 1 gives [1, 2, 3]; from 99, not a key, gives [] |
| Examples.PositiveExampleClient | src/Practice.java:164-169 | a path through the negative id -3 does not count; a direct positive edge does; an endpoint that is a key but not positive gives false, and so does an endpoint that is not a key |
| Examples.ChainExampleClient | src/Practice.java:187-191 | on `{1:{2}, 2:{3}}` from 1 to 2 the answer is true: the non-key 3 lies only beyond the target, so it is never looked up |
| Examples.DanglingExampleClient | src/Practice.java:191 | on `{1:{2}, 3:{}}` from 1 to 3, the walk as written throws on id 2 and the guarded walk answers false |

## Left out

- Object identity and Java `equals`/`hashCode` are not modelled. A vertex is
  its index in the arena, so two distinct vertices holding equal values stay
  distinct, as with identity hashing. Graphs whose vertices override `equals`
  are not covered.
- The graph classes (`Vertex`, `Professional`) and how graphs are built are
  not part of this model. Neighbour lists are index sequences. A null entry
  in a neighbour or connection list, or a null company, is not modelled: each
  would throw in the source.
- `companyName == null` is not modelled: strings are values.
- `Collections.sort` is modelled by its contract (`Sorting.Sort`, an insertion
  sort), not by Java's merge sort. The immutability of
  `Collections.emptyList()` is not modelled.
- Java `int` is 32-bit, but the model's integers are unbounded. `OddWalk`
  does not model `count` overflowing `int`, because a graph would need more
  than 2^31 odd vertices for it to happen.
- The JVM's recursion depth is not modelled: deep graphs can overflow the
  stack in the source but not in the model.
- The order in which `HashSet` iteration visits neighbours is not fixed. Every
  contract holds for any order. `Practice.PositivePathExists` consequently
  does not say which missing id a throw names when several can be met
  before the target, nor whether a walk that could meet either the target
  or a missing id first answers true or throws.
- `Practice.CollectWalk` states the appended values as a bag, one per newly
  visited vertex. The order in which the depth-first walk appends them,
  which is the order of the list before sorting, is not modelled. Only the
  sorted result is returned.
- `Practice.ConnectionWalk` tests the company before the visited guard, as
  the source does, so an already-visited professional is tested again. The
  model does not count how many times a company is tested. `NoneWorksAt`
  shows that re-testing never changes the answer: a marked professional
  never works at the company.
- `positivePathExists` is documented to return a boolean, and `false` when
  no valid path exists (src/Practice.java:164-175). Lines 118-119 guard the
  same `graph.get` lookup in the map form of `sortedReachable`. Yet line 191
  dereferences `graph.get(current)` without a check. The model follows the
  code (`Outcome.NullPointer`). The intended behaviour is modelled
  separately as `GuardedPositivePathExists` (see Findings).
- Other Java nulls are not modelled either; each would throw in the source,
  and the model cannot represent any of them:
  - A key mapped to `null` in a map graph. Lines 118-119 skip it, and line
    191 throws on it even though it is a key. A throw of this kind is
    outside `Practice.PositivePathExists`'s statement that a throw names an
    id that is not a key.
  - A `null` element of a neighbour set, which throws on unboxing at
    lines 120 and 191.
  - A `null` `data` in a `Vertex<Integer>`. It throws at line 43. At
    line 86 it is stored, and `Collections.sort` at line 77 throws when it
    compares it.
- The walk contracts (`OddWalk`, `CollectWalk`, `Find`, `ConnectionWalk`,
  `MapCollectWalk`, `PositiveWalk`) say that the walk leaves the newly
  visited vertices reachable and closed. That pins the visited set exactly
  only when the walk starts from an empty visited set, as every entry point
  does. From a pre-filled set they allow a larger result than the walk
  produces.

## Findings

| source | as written | input that shows it | evidently intended | confidence | as-written member | corrected member |
|---|---|---|---|---|---|---|
| src/Practice.java:191 | `for (int neighbor : graph.get(current))` iterates the successor set without a null check, so expanding a positive id that is a neighbour but not a key throws `NullPointerException` | graph `{1:{2}, 3:{}}`, starting 1, ending 3: id 2 is positive, reachable and not a key | treat an id that is not a key as having no successors, as lines 118-119 do, and answer false | high (the Javadoc promises a boolean and the map form of `sortedReachable` guards the same lookup); not executed | Examples.DanglingExampleClient | Practice.GuardedPositivePathExists |
