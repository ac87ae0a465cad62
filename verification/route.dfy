/**
 * The time-expanded router: search nodes are `(location, time)` pairs, a
 * reservation structure blocks nodes used by droplets already routed, and the
 * resulting paths become a tick-by-tick schedule of actions.
 */
module Route {
  import opened Wrappers
  import opened Geometry
  import opened Gridview
  import MinHeap

  /** A path: the droplet's location at time 0, 1, 2, ... */
  type Path = seq<Location>

  type Cost = nat

  datatype Node = Node(location: Location, time: nat)

  type NextVec = seq<(Cost, Node)>

  function Locations(nodes: seq<Node>): (r: Path)
    ensures |r| == |nodes| && forall i | 0 <= i < |nodes| :: r[i] == nodes[i].location
  {
    seq(|nodes|, i requires 0 <= i < |nodes| => nodes[i].location)
  }

  /** `Vec::reverse`. */
  function Reverse<T>(s: seq<T>): (r: seq<T>)
    ensures |r| == |s| && forall i | 0 <= i < |s| :: r[i] == s[|s| - 1 - i]
  {
    seq(|s|, i requires 0 <= i < |s| => s[|s| - 1 - i])
  }

  // ---------------------------------------------------------------- build_path

  /**
   * The nodes `build_path` visits, root first: follow `cameFrom` from `end`,
   * consuming each entry used, until a node has no entry left.
   */
  function ChainNodes(cameFrom: map<Node, Node>, end: Node): seq<Node>
    decreases cameFrom.Keys
  {
    if end in cameFrom then ChainNodes(cameFrom - {end}, cameFrom[end]) + [end] else [end]
  }

  /**
   * The chain ends at `end`; each later node is a key whose recorded predecessor
   * is the node before it; those keys are distinct (each entry is used once); and
   * the chain starts at a root: a node with no entry, or one already consumed.
   */
  lemma {:induction false} ChainShape(cameFrom: map<Node, Node>, end: Node)
    ensures var c := ChainNodes(cameFrom, end);
      |c| >= 1 && c[|c| - 1] == end &&
      (forall i | 1 <= i < |c| :: c[i] in cameFrom && cameFrom[c[i]] == c[i - 1]) &&
      (forall i, j | 1 <= i < j < |c| :: c[i] != c[j]) &&
      (c[0] !in cameFrom || c[0] in c[1..])
    decreases cameFrom.Keys
  {
    if end in cameFrom {
      var rest := cameFrom - {end};
      ChainShape(rest, cameFrom[end]);
      var c' := ChainNodes(rest, cameFrom[end]);
      var c := ChainNodes(cameFrom, end);
      assert c == c' + [end];
      assert c[1..] == c'[1..] + [end];
      forall i | 1 <= i < |c|
        ensures c[i] in cameFrom && cameFrom[c[i]] == c[i - 1]
      {
        if i < |c'| {
          assert c[i] == c'[i] && c[i - 1] == c'[i - 1];
        }
      }
      forall i, j | 1 <= i < j < |c|
        ensures c[i] != c[j]
      {
        if j < |c'| {
          assert c[i] == c'[i] && c[j] == c'[j];
        } else {
          assert c[i] == c'[i] && c'[i] in rest;
        }
      }
    }
  }

  /** When every entry is one time step earlier than its key, times along the chain count up. */
  lemma {:induction false} ChainTimes(cameFrom: map<Node, Node>, end: Node)
    requires forall k | k in cameFrom :: cameFrom[k].time + 1 == k.time
    ensures var c := ChainNodes(cameFrom, end);
      forall i | 0 <= i < |c| :: c[i].time == c[0].time + i
    decreases cameFrom.Keys
  {
    if end in cameFrom {
      var rest := cameFrom - {end};
      ChainTimes(rest, cameFrom[end]);
      ChainShape(rest, cameFrom[end]);
    }
  }

  method BuildPath(cameFrom: map<Node, Node>, endNode: Node) returns (path: Path)
    ensures path == Locations(ChainNodes(cameFrom, endNode))
  {
    var links := cameFrom;
    var rev: seq<Location> := [];
    var current := endNode;
    while current in links
      invariant Locations(ChainNodes(cameFrom, endNode)) == Locations(ChainNodes(links, current)) + Reverse(rev)
      decreases links.Keys
    {
      var prev := links[current];
      ghost var before := ChainNodes(links - {current}, prev);
      assert ChainNodes(links, current) == before + [current];
      assert Locations(before + [current]) == Locations(before) + [current.location];
      assert Reverse(rev + [current.location]) == [current.location] + Reverse(rev);
      links := links - {current};
      rev := rev + [current.location];
      current := prev;
    }
    assert Reverse(rev + [current.location]) == [current.location] + Reverse(rev);
    rev := rev + [current.location];
    path := Reverse(rev);
  }

  // ---------------------------------------------------------- paths_to_actions

  /** `order` lists the keys of `paths` once each: the map's iteration order. */
  predicate Enumerates(paths: map<DropletId, Path>, order: seq<DropletId>)
  {
    (forall id | id in order :: id in paths) &&
    (forall id | id in paths :: id in order) &&
    (forall i, j | 0 <= i < j < |order| :: order[i] != order[j])
  }

  /** The length of the longest path, 0 for no paths. */
  function MaxLen(paths: map<DropletId, Path>, order: seq<DropletId>): (m: nat)
    requires forall id | id in order :: id in paths
    ensures forall id | id in order :: |paths[id]| <= m
    ensures order != [] ==> exists id | id in order :: |paths[id]| == m
    ensures order == [] ==> m == 0
  {
    if order == [] then 0
    else
      var m := MaxLen(paths, order[1..]);
      if |paths[order[0]]| > m then |paths[order[0]]| else m
  }

  /**
   * The moves emitted before tick `i` for the first `j` ids of `order`: one per
   * path still running, in `order`.
   */
  function Round(paths: map<DropletId, Path>, order: seq<DropletId>, j: nat, i: nat): seq<Action>
    requires j <= |order| && forall id | id in order :: id in paths
  {
    if j == 0 then []
    else
      var id := order[j - 1];
      Round(paths, order, j - 1, i) + (if i < |paths[id]| then [MoveDroplet(id, paths[id][i])] else [])
  }

  /** Rounds `0 .. n-1` over all of `order`, each followed by a `Tick`. */
  function Schedule(paths: map<DropletId, Path>, order: seq<DropletId>, n: nat): seq<Action>
    requires forall id | id in order :: id in paths
  {
    if n == 0 then [] else Schedule(paths, order, n - 1) + Round(paths, order, |order|, n - 1) + [Tick]
  }

  /** The number of `Tick`s in `acts`. */
  function TickCount(acts: seq<Action>): nat
  {
    if acts == [] then 0 else (if acts[0] == Tick then 1 else 0) + TickCount(acts[1..])
  }

  lemma {:induction false} TickCountAppend(a: seq<Action>, b: seq<Action>)
    ensures TickCount(a + b) == TickCount(a) + TickCount(b)
  {
    if a == [] {
      assert a + b == b;
    } else {
      TickCountAppend(a[1..], b);
      assert (a + b)[1..] == a[1..] + b;
    }
  }

  /** `a` moves one of the first `j` ids of `order`, whose path is longer than `i`, to its location at `i`. */
  predicate RoundMove(paths: map<DropletId, Path>, order: seq<DropletId>, j: nat, i: nat, a: Action)
    requires j <= |order|
  {
    a.MoveDroplet? && a.id in paths && i < |paths[a.id]| && a.location == paths[a.id][i] &&
    exists k | 0 <= k < j :: order[k] == a.id
  }

  /**
   * A round holds the moves `MoveDroplet(id, path[i])` of the listed paths
   * with `i < len`, and nothing else (in particular no `Tick`). That each
   * occurs once is `RoundNoRepeats`.
   */
  lemma {:induction false} RoundMoves(paths: map<DropletId, Path>, order: seq<DropletId>, j: nat, i: nat)
    requires j <= |order| && forall id | id in order :: id in paths
    ensures forall a | a in Round(paths, order, j, i) :: RoundMove(paths, order, j, i, a)
    ensures forall k | 0 <= k < j && i < |paths[order[k]]| ::
      MoveDroplet(order[k], paths[order[k]][i]) in Round(paths, order, j, i)
  {
    if j > 0 {
      RoundMoves(paths, order, j - 1, i);
      var id := order[j - 1];
      var front := Round(paths, order, j - 1, i);
      var tail: seq<Action> := if i < |paths[id]| then [MoveDroplet(id, paths[id][i])] else [];
      assert Round(paths, order, j, i) == front + tail;
      forall a | a in Round(paths, order, j, i)
        ensures RoundMove(paths, order, j, i, a)
      {
        if a in front {
          assert RoundMove(paths, order, j - 1, i, a);
        } else {
          assert a in tail;
        }
      }
    }
  }

  /** No element of `s` occurs twice. */
  predicate NoRepeats<T(==)>(s: seq<T>)
  {
    forall p, q | 0 <= p < q < |s| :: s[p] != s[q]
  }

  /** In a sequence without repeats each member occurs exactly once. */
  lemma {:induction false} NoRepeatsOnce<T>(s: seq<T>, x: T)
    requires NoRepeats(s) && x in s
    ensures multiset(s)[x] == 1
  {
    assert s == [s[0]] + s[1..];
    assert multiset(s) == multiset{s[0]} + multiset(s[1..]);
    assert NoRepeats(s[1..]) by {
      forall p, q | 0 <= p < q < |s[1..]|
        ensures s[1..][p] != s[1..][q]
      {
        assert s[1..][p] == s[p + 1] && s[1..][q] == s[q + 1];
      }
    }
    if x == s[0] {
      assert x !in s[1..] by {
        forall p | 0 <= p < |s[1..]|
          ensures s[1..][p] != x
        {
          assert s[1..][p] == s[p + 1];
        }
      }
    } else {
      NoRepeatsOnce(s[1..], x);
    }
  }

  /** With the first `j` ids distinct, no move occurs twice in the round. */
  lemma {:induction false} RoundNoRepeats(paths: map<DropletId, Path>, order: seq<DropletId>, j: nat, i: nat)
    requires j <= |order| && forall id | id in order :: id in paths
    requires forall a, b | 0 <= a < b < j :: order[a] != order[b]
    ensures NoRepeats(Round(paths, order, j, i))
  {
    if j > 0 {
      RoundNoRepeats(paths, order, j - 1, i);
      RoundMoves(paths, order, j - 1, i);
      var id := order[j - 1];
      var front := Round(paths, order, j - 1, i);
      var tail: seq<Action> := if i < |paths[id]| then [MoveDroplet(id, paths[id][i])] else [];
      var r := front + tail;
      assert Round(paths, order, j, i) == r;
      forall p, q | 0 <= p < q < |r|
        ensures r[p] != r[q]
      {
        if q >= |front| {
          assert p < |front| && r[p] == front[p] && r[q].id == id;
          assert front[p] in front;
          assert RoundMove(paths, order, j - 1, i, front[p]);
          var k :| 0 <= k < j - 1 && order[k] == front[p].id;
          assert order[k] != order[j - 1];
        } else {
          assert r[p] == front[p] && r[q] == front[q];
        }
      }
    }
  }

  /** With the ids of `order` distinct, the move of the `k`-th one occurs in the round exactly once. */
  lemma RoundMovesOnce(paths: map<DropletId, Path>, order: seq<DropletId>, i: nat, k: nat)
    requires forall id | id in order :: id in paths
    requires forall a, b | 0 <= a < b < |order| :: order[a] != order[b]
    requires k < |order| && i < |paths[order[k]]|
    ensures multiset(Round(paths, order, |order|, i))[MoveDroplet(order[k], paths[order[k]][i])] == 1
  {
    RoundMoves(paths, order, |order|, i);
    RoundNoRepeats(paths, order, |order|, i);
    NoRepeatsOnce(Round(paths, order, |order|, i), MoveDroplet(order[k], paths[order[k]][i]));
  }

  /** A round holds no `Tick`. */
  lemma {:induction false} RoundHasNoTick(paths: map<DropletId, Path>, order: seq<DropletId>, j: nat, i: nat)
    requires j <= |order| && forall id | id in order :: id in paths
    ensures TickCount(Round(paths, order, j, i)) == 0
  {
    if j > 0 {
      RoundHasNoTick(paths, order, j - 1, i);
      var id := order[j - 1];
      var tail: seq<Action> := if i < |paths[id]| then [MoveDroplet(id, paths[id][i])] else [];
      assert Round(paths, order, j, i) == Round(paths, order, j - 1, i) + tail;
      TickCountAppend(Round(paths, order, j - 1, i), tail);
      assert TickCount(tail) == 0 by {
        if tail != [] {
          assert tail[1..] == [];
        }
      }
    }
  }

  /** The schedule of `n` rounds has exactly `n` ticks. */
  lemma {:induction false} ScheduleTickCount(paths: map<DropletId, Path>, order: seq<DropletId>, n: nat)
    requires forall id | id in order :: id in paths
    ensures TickCount(Schedule(paths, order, n)) == n
  {
    if n > 0 {
      var prev := Schedule(paths, order, n - 1);
      var round := Round(paths, order, |order|, n - 1);
      ScheduleTickCount(paths, order, n - 1);
      RoundHasNoTick(paths, order, |order|, n - 1);
      TickCountAppend(prev, round);
      TickCountAppend(prev + round, [Tick]);
      TickCountOfTick();
    }
  }

  lemma TickCountOfTick()
    ensures TickCount([Tick]) == 1
  {
    assert [Tick][1..] == [];
  }

  /** Schedules grow by appending: fewer rounds give a prefix. */
  lemma {:induction false} SchedulePrefix(paths: map<DropletId, Path>, order: seq<DropletId>, i: nat, n: nat)
    requires forall id | id in order :: id in paths
    requires i <= n
    ensures Schedule(paths, order, i) <= Schedule(paths, order, n)
    decreases n
  {
    if i < n {
      SchedulePrefix(paths, order, i, n - 1);
    }
  }

  method PathsToActions(paths: map<DropletId, Path>, order: seq<DropletId>) returns (acts: seq<Action>)
    requires forall id | id in order :: id in paths
    ensures acts == Schedule(paths, order, MaxLen(paths, order))
  {
    var maxLen := MaxLen(paths, order);
    acts := [];
    for i := 0 to maxLen
      invariant acts == Schedule(paths, order, i)
    {
      ghost var before := acts;
      for j := 0 to |order|
        invariant acts == before + Round(paths, order, j, i)
      {
        var id := order[j];
        var path := paths[id];
        assert Round(paths, order, j + 1, i) ==
          Round(paths, order, j, i) + (if i < |path| then [MoveDroplet(id, path[i])] else []);
        if i < |path| {
          assert before + Round(paths, order, j, i) + [MoveDroplet(id, path[i])] ==
            before + (Round(paths, order, j, i) + [MoveDroplet(id, path[i])]);
          acts := acts + [MoveDroplet(id, path[i])];
        }
      }
      assert Schedule(paths, order, i + 1) == Schedule(paths, order, i) + Round(paths, order, |order|, i) + [Tick];
      acts := acts + [Tick];
    }
  }

  /**
   * The schedule of a set of paths has one tick per step of the longest path
   * (none for no paths); the part after tick `i - 1` and before tick `i` is round
   * `i`, which moves exactly the droplets whose path is longer than `i`, each to
   * its location at `i`.
   */
  lemma ScheduleMeaning(paths: map<DropletId, Path>, order: seq<DropletId>, i: nat, id: DropletId)
    requires Enumerates(paths, order)
    requires i < MaxLen(paths, order) && id in paths
    ensures TickCount(Schedule(paths, order, MaxLen(paths, order))) == MaxLen(paths, order)
    ensures Schedule(paths, order, i) + Round(paths, order, |order|, i) + [Tick] <=
      Schedule(paths, order, MaxLen(paths, order))
    ensures TickCount(Schedule(paths, order, i)) == i && TickCount(Round(paths, order, |order|, i)) == 0
    ensures i < |paths[id]| ==> MoveDroplet(id, paths[id][i]) in Round(paths, order, |order|, i)
    ensures NoRepeats(Round(paths, order, |order|, i))
    ensures i < |paths[id]| ==> multiset(Round(paths, order, |order|, i))[MoveDroplet(id, paths[id][i])] == 1
    ensures forall l | MoveDroplet(id, l) in Round(paths, order, |order|, i) :: i < |paths[id]| && l == paths[id][i]
  {
    ScheduleTickCount(paths, order, MaxLen(paths, order));
    ScheduleTickCount(paths, order, i);
    SchedulePrefix(paths, order, i + 1, MaxLen(paths, order));
    RoundMoves(paths, order, |order|, i);
    RoundHasNoTick(paths, order, |order|, i);
    RoundNoRepeats(paths, order, |order|, i);
    var k :| 0 <= k < |order| && order[k] == id;
    if i < |paths[id]| {
      RoundMovesOnce(paths, order, i, k);
    }
    forall l | MoveDroplet(id, l) in Round(paths, order, |order|, i)
      ensures i < |paths[id]| && l == paths[id][i]
    {
      assert RoundMove(paths, order, |order|, i, MoveDroplet(id, l));
    }
  }

  /** No paths, no actions. */
  lemma ScheduleEmpty(order: seq<DropletId>)
    requires Enumerates(map[], order)
    ensures Schedule(map[], order, MaxLen(map[], order)) == []
  {
    if order != [] {
      assert order[0] in order;
    }
  }

  // ------------------------------------------------------------------- expand

  function ExpandMoves(ls: seq<Location>, t: nat): (r: NextVec)
    ensures |r| == |ls| && forall k | 0 <= k < |ls| :: r[k] == (100, Node(ls[k], t))
  {
    seq(|ls|, k requires 0 <= k < |ls| => (100, Node(ls[k], t)))
  }

  /**
   * `Node::expand`: a step to each cardinal neighbour on the grid at cost 100,
   * then waiting in place at cost 1, all one time step later.
   */
  function Expand(grid: Grid, node: Node): (r: NextVec)
    ensures |r| >= 1 && r[|r| - 1] == (1, Node(node.location, node.time + 1))
    ensures forall k | 0 <= k < |r| :: r[k].1.time == node.time + 1
    ensures forall k | 0 <= k < |r| - 1 ::
      r[k].0 == 100 && r[k].1.location in grid.cells && DistanceTo(node.location, r[k].1.location) == 1
    ensures forall k | 0 <= k < |r| :: r[k].1.location == node.location <==> k == |r| - 1
    ensures forall l | l in grid.cells && DistanceTo(node.location, l) == 1 ::
      exists k | 0 <= k < |r| :: r[k] == (100, Node(l, node.time + 1))
  {
    var ns := Neighbors4(grid, node.location);
    var r := ExpandMoves(ns, node.time + 1) + [(1, Node(node.location, node.time + 1))];
    forall l | l in grid.cells && DistanceTo(node.location, l) == 1
      ensures exists k | 0 <= k < |r| :: r[k] == (100, Node(l, node.time + 1))
    {
      var k :| 0 <= k < |ns| && ns[k] == l;
      assert r[k] == (100, Node(l, node.time + 1));
    }
    r
  }

  // ------------------------------------------------------------- AvoidanceSet

  /** `m` lies on `locs` no more than one time step from `time`. */
  predicate Near(locs: set<Location>, time: nat, m: Node)
  {
    m.location in locs && time - 1 <= m.time <= time + 1
  }

  /** The nodes on `locs` one step before, at, and one step after `time`. */
  function Reservation(locs: set<Location>, time: nat): (r: set<Node>)
    ensures forall m :: m in r <==> Near(locs, time, m)
  {
    set l, t: nat | l in locs && time - 1 <= t <= time + 1 :: Node(l, t)
  }

  /** The nodes on `loc` from one step before `time` up to, not including, `time + t`. */
  function Times(loc: Location, time: nat, t: int): (r: set<Node>)
    ensures forall m :: m in r <==> m.location == loc && time - 1 <= m.time < time + t
  {
    set tt: nat | time - 1 <= tt < time + t :: Node(loc, tt)
  }

  /** The nodes `avoid_node` reserves: the droplet's neighbourhood one step before, at, and after. */
  function NodeReservation(grid: Grid, node: Node, dims: Location): (r: set<Node>)
  {
    Reservation(NeighborsDimensions(grid, node.location, dims), node.time)
  }

  lemma ReservationOfNone(time: nat)
    ensures Reservation({}, time) == {}
  {
  }

  /** Reserving one more location adds that location's three times. */
  lemma ReservationGrows(locs: set<Location>, loc: Location, time: nat)
    ensures Reservation(locs + {loc}, time) == Reservation(locs, time) + Times(loc, time, 2)
  {
  }

  /** One more pass of the inner loop of `avoid_node` adds the node at `time + t`, when that is not negative. */
  lemma TimesGrow(loc: Location, time: nat, t: int)
    requires -1 <= t
    ensures Times(loc, time, t + 1) == Times(loc, time, t) + (if time + t >= 0 then {Node(loc, time + t)} else {})
  {
    forall m | m in Times(loc, time, t + 1) && m.time == time + t
      ensures m == Node(loc, time + t)
    {
    }
  }

  lemma TimesOfNone(loc: Location, time: nat)
    ensures Times(loc, time, -1) == {}
  {
  }

  /** Every location of `locs` blocked from time `t` on. */
  function Block(locs: set<Location>, t: nat): (r: map<Location, nat>)
    ensures r.Keys == locs && forall l | l in r :: r[l] == t
  {
    map l | l in locs :: t
  }

  /** Inserting one more location into the block. */
  lemma BlockGrows(finals: map<Location, nat>, locs: set<Location>, loc: Location, t: nat)
    ensures (finals + Block(locs, t))[loc := t] == finals + Block(locs + {loc}, t)
  {
  }

  /** The nodes `avoid_path` reserves for the first `n` steps of `path`. */
  function PathReservation(grid: Grid, path: Path, dims: Location, n: nat): set<Node>
    requires n <= |path|
  {
    if n == 0 then {}
    else PathReservation(grid, path, dims, n - 1) + NodeReservation(grid, Node(path[n - 1], n - 1), dims)
  }

  /** A node is reserved for the first `n` steps iff some step `i < n` reserves it. */
  lemma {:induction false} PathReservationMeaning(grid: Grid, path: Path, dims: Location, n: nat, m: Node)
    requires n <= |path|
    ensures m in PathReservation(grid, path, dims, n) <==>
      exists i | 0 <= i < n :: m in NodeReservation(grid, Node(path[i], i), dims)
  {
    if n > 0 {
      PathReservationMeaning(grid, path, dims, n - 1, m);
    }
  }

  /** The `finals` entries `avoid_path` writes: the end neighbourhood, blocked from the last index. */
  function FinalsOf(grid: Grid, path: Path, dims: Location): (r: map<Location, nat>)
    requires |path| > 0
    ensures r.Keys == NeighborsDimensions(grid, path[|path| - 1], dims)
    ensures forall l | l in r :: r[l] == |path| - 1
  {
    Block(NeighborsDimensions(grid, path[|path| - 1], dims), |path| - 1)
  }

  /** A read-only view of an `AvoidanceSet`, what the search closures consult. */
  datatype Avoidance = Avoidance(maxTime: nat, present: set<Node>, finals: map<Location, nat>) {

    predicate Collides(node: Node)
    {
      node in present
    }

    predicate CollidesWithFinal(node: Node)
    {
      node.location in finals && node.time >= finals[node.location]
    }

    /** Some `(location, t)` with `time <= t < maxTime` is reserved, scanning upward from `t`. */
    predicate PresentFrom(location: Location, t: nat)
      decreases maxTime - t
    {
      t < maxTime && (Collides(Node(location, t)) || PresentFrom(location, t + 1))
    }

    /** `would_finally_collide`: staying at this location would meet a reservation. */
    predicate WouldFinallyCollide(node: Node)
    {
      PresentFrom(node.location, node.time)
    }

    /** The state after `avoid_path(path, grid, dims)`. */
    function AfterPath(grid: Grid, path: Path, dims: Location): Avoidance
      requires |path| > 0
    {
      Avoidance(if maxTime < |path| - 1 then |path| - 1 else maxTime,
                present + PathReservation(grid, path, dims, |path|),
                finals + FinalsOf(grid, path, dims))
    }

    /** `filter`'s test: the node is neither reserved nor in a blocked final area. */
    predicate Keeps(node: Node)
    {
      !Collides(node) && !CollidesWithFinal(node)
    }

    /** `filter`: keep the successors that are neither reserved nor in a blocked final area. */
    function Filter(vec: NextVec): (r: NextVec)
      ensures multiset(r) <= multiset(vec)
      ensures forall e | e in r :: e in vec && !Collides(e.1) && !CollidesWithFinal(e.1)
      ensures forall e | e in vec && !Collides(e.1) && !CollidesWithFinal(e.1) :: e in r
      ensures forall e :: multiset(r)[e] == if Keeps(e.1) then multiset(vec)[e] else 0
    {
      if vec == [] then []
      else
        var rest := Filter(vec[1..]);
        assert vec == [vec[0]] + vec[1..];
        if !Collides(vec[0].1) && !CollidesWithFinal(vec[0].1) then [vec[0]] + rest else rest
    }

    /** The positions from `i` on whose successors `filter` keeps, in increasing order. */
    ghost function KeptFrom(vec: NextVec, i: nat): (r: seq<nat>)
      ensures forall k | 0 <= k < |r| :: i <= r[k] < |vec| && Keeps(vec[r[k]].1)
      ensures forall p | i <= p < |vec| && Keeps(vec[p].1) :: p in r
      ensures forall a, b | 0 <= a < b < |r| :: r[a] < r[b]
      decreases |vec| - i
    {
      if i >= |vec| then []
      else
        var rest := KeptFrom(vec, i + 1);
        if Keeps(vec[i].1) then
          assert forall k | 1 <= k < |rest| + 1 :: ([i] + rest)[k] == rest[k - 1];
          [i] + rest
        else rest
    }

    /** `filter` keeps order: its result lists the kept positions of the suffix from `i`, in turn. */
    lemma {:induction false} FilterFrom(vec: NextVec, i: nat)
      requires i <= |vec|
      ensures |Filter(vec[i..])| == |KeptFrom(vec, i)|
      ensures forall k | 0 <= k < |KeptFrom(vec, i)| :: Filter(vec[i..])[k] == vec[KeptFrom(vec, i)[k]]
      decreases |vec| - i
    {
      if i < |vec| {
        FilterFrom(vec, i + 1);
        var rest := Filter(vec[i + 1..]);
        var keptRest := KeptFrom(vec, i + 1);
        assert vec[i..][1..] == vec[i + 1..];
        assert vec[i..][0] == vec[i];
        if Keeps(vec[i].1) {
          assert Filter(vec[i..]) == [vec[i]] + rest;
          assert KeptFrom(vec, i) == [i] + keptRest;
          forall k | 0 <= k < |keptRest| + 1
            ensures ([vec[i]] + rest)[k] == vec[([i] + keptRest)[k]]
          {
            if k > 0 {
              assert ([vec[i]] + rest)[k] == rest[k - 1];
              assert ([i] + keptRest)[k] == keptRest[k - 1];
            }
          }
        } else {
          assert Filter(vec[i..]) == rest;
          assert KeptFrom(vec, i) == keptRest;
        }
      }
    }

    /**
     * `filter` returns the kept successors in their original order: element `k`
     * of the result is the successor at the `k`-th kept position of `vec`.
     */
    lemma FilterInOrder(vec: NextVec)
      ensures |Filter(vec)| == |KeptFrom(vec, 0)|
      ensures forall k | 0 <= k < |Filter(vec)| :: Filter(vec)[k] == vec[KeptFrom(vec, 0)[k]]
    {
      FilterFrom(vec, 0);
      assert vec[0..] == vec;
    }
  }

  lemma {:induction false} PresentFromMeaning(av: Avoidance, location: Location, t: nat)
    ensures av.PresentFrom(location, t) <==>
      exists u: nat | t <= u < av.maxTime :: Node(location, u) in av.present
    decreases av.maxTime - t
  {
    if t < av.maxTime {
      PresentFromMeaning(av, location, t + 1);
    }
  }

  /** `would_finally_collide(node)` iff `(node.location, t)` is reserved for some `node.time <= t < maxTime`. */
  lemma WouldFinallyCollideMeaning(av: Avoidance, node: Node)
    ensures av.WouldFinallyCollide(node) <==>
      exists t: nat | node.time <= t < av.maxTime :: Node(node.location, t) in av.present
  {
    PresentFromMeaning(av, node.location, node.time);
  }

  /** The reservations made by the droplets routed so far (`AvoidanceSet`). */
  class AvoidanceSet {
    var maxTime: nat
    var present: set<Node>
    var finals: map<Location, nat>

    constructor ()
      ensures maxTime == 0 && present == {} && finals == map[]
    {
      maxTime := 0;
      present := {};
      finals := map[];
    }

    function View(): (v: Avoidance)
      reads this
      ensures v.maxTime == maxTime && v.present == present && v.finals == finals
    {
      Avoidance(maxTime, present, finals)
    }

    method AvoidNode(grid: Grid, node: Node, dims: Location)
      modifies this
      ensures present == old(present) + NodeReservation(grid, node, dims)
      ensures finals == old(finals) && maxTime == old(maxTime)
    {
      var locs := NeighborsDimensions(grid, node.location, dims);
      var todo := locs;
      ReservationOfNone(node.time);
      assert locs - todo == {};
      while todo != {}
        invariant todo <= locs
        invariant finals == old(finals) && maxTime == old(maxTime)
        invariant present == old(present) + Reservation(locs - todo, node.time)
        decreases todo
      {
        var loc :| loc in todo;
        ghost var before := present;
        TimesOfNone(loc, node.time);
        for t := -1 to 2
          invariant finals == old(finals) && maxTime == old(maxTime)
          invariant present == before + Times(loc, node.time, t)
        {
          var time := node.time + t;
          TimesGrow(loc, node.time, t);
          if time >= 0 {
            present := present + {Node(loc, time)};
          }
        }
        ReservationGrows(locs - todo, loc, node.time);
        assert (locs - todo) + {loc} == locs - (todo - {loc});
        todo := todo - {loc};
      }
      assert locs - todo == locs;
    }

    method AvoidPath(path: Path, grid: Grid, dims: Location)
      requires |path| > 0
      modifies this
      ensures present == old(present) + PathReservation(grid, path, dims, |path|)
      ensures finals == old(finals) + FinalsOf(grid, path, dims)
      ensures maxTime == if old(maxTime) < |path| - 1 then |path| - 1 else old(maxTime)
      ensures View() == old(View()).AfterPath(grid, path, dims)
    {
      for i := 0 to |path|
        invariant present == old(present) + PathReservation(grid, path, dims, i)
        invariant finals == old(finals) && maxTime == old(maxTime)
      {
        AvoidNode(grid, Node(path[i], i), dims);
      }

      var last := |path| - 1;
      var locs := NeighborsDimensions(grid, path[last], dims);
      var todo := locs;
      assert old(finals) + Block({}, last) == old(finals);
      assert locs - todo == {};
      while todo != {}
        invariant todo <= locs
        invariant present == old(present) + PathReservation(grid, path, dims, |path|)
        invariant maxTime == old(maxTime)
        invariant finals == old(finals) + Block(locs - todo, last)
        decreases todo
      {
        var loc :| loc in todo;
        BlockGrows(old(finals), locs - todo, loc, last);
        assert (locs - todo) + {loc} == locs - (todo - {loc});
        finals := finals[loc := last];
        todo := todo - {loc};
      }
      assert locs - todo == locs;

      maxTime := if maxTime < last then last else maxTime;
    }
  }

  /** `avoid_path` reserves each step of the path: with 1x1 dims, the node itself and its neighbours. */
  lemma PathReservesSteps(grid: Grid, path: Path, i: nat, l: Location, t: nat)
    requires i < |path| && l in grid.cells && Chebyshev(path[i], l) <= 1
    requires i - 1 <= t <= i + 1
    ensures Node(l, t) in PathReservation(grid, path, Unit, |path|)
  {
    UnitNeighbourhood(grid, path[i], l);
    assert Near(NeighborsDimensions(grid, path[i], Unit), i, Node(l, t));
    assert Node(l, t) in NodeReservation(grid, Node(path[i], i), Unit);
    PathReservationMeaning(grid, path, Unit, |path|, Node(l, t));
  }

  // ---------------------------------------------------------------- route_one

  /** `m` is among the successors `next` offers for `n`. */
  predicate Successor(next: Node -> NextVec, n: Node, m: Node)
  {
    exists k | 0 <= k < |next(n)| :: next(n)[k].1 == m
  }

  /** The nodes `next` offers for `n`. */
  function SuccessorSet(next: Node -> NextVec, n: Node): (r: set<Node>)
    ensures forall m :: m in r <==> Successor(next, n, m)
  {
    set k | 0 <= k < |next(n)| :: next(n)[k].1
  }

  /** `w` is a walk from `from` in the time-expanded graph that `next` describes. */
  ghost predicate Walk(next: Node -> NextVec, from: Node, w: seq<Node>)
  {
    |w| >= 1 && w[0] == from && forall i | 1 <= i < |w| :: Successor(next, w[i - 1], w[i])
  }

  /** A walk from `from` short enough for a search bounded by `maxTime` to follow. */
  ghost predicate ShortWalk(next: Node -> NextVec, from: Node, maxTime: nat, w: seq<Node>)
  {
    Walk(next, from, w) && |w| <= maxTime + 2
  }

  /** No walk a search bounded by `maxTime` could follow from `from` ends on a node `done` accepts. */
  ghost predicate NoWalkArrives(next: Node -> NextVec, done: Node -> bool, from: Node, maxTime: nat)
  {
    forall w | ShortWalk(next, from, maxTime, w) :: !done(LastNode(w))
  }

  /** Successors are one time step later, and on `cells` or in place. */
  ghost predicate StepsForward(next: Node -> NextVec, cells: set<Location>)
  {
    forall n: Node, k | 0 <= k < |next(n)| ::
      next(n)[k].1.time == n.time + 1 &&
      (next(n)[k].1.location in cells || next(n)[k].1.location == n.location)
  }

  /** Where a droplet is headed: its destination, or where it is. */
  function Dest(d: Droplet): Location
  {
    match d.destination
    case Some(x) => x
    case None => d.location
  }

  predicate InHorizon(cells: set<Location>, start: Location, maxTime: nat, n: Node)
  {
    (n.location in cells || n.location == start) && n.time <= maxTime + 1
  }

  /** The nodes the search can pop: on `cells` (or the start) and at most one step past the horizon. */
  ghost function Horizon(cells: set<Location>, start: Location, maxTime: nat): (h: set<Node>)
    ensures forall n :: n in h <==> InHorizon(cells, start, maxTime, n)
  {
    set l, t: nat | l in cells + {start} && t <= maxTime + 1 :: Node(l, t)
  }

  /**
   * In a search tree whose links go one time step back to an expanded node and
   * end at a start node at time 0, the chain from any tree node is a walk from
   * the start with node `i` at time `i`.
   */
  lemma SearchTreeChain(next: Node -> NextVec, cameFrom: map<Node, Node>, start: Node, node: Node)
    requires start.time == 0 && start !in cameFrom
    requires forall k | k in cameFrom ::
      cameFrom[k].time + 1 == k.time && Successor(next, cameFrom[k], k) &&
      (cameFrom[k] == start || cameFrom[k] in cameFrom)
    requires node == start || node in cameFrom
    ensures var c := ChainNodes(cameFrom, node);
      |c| == node.time + 1 && Walk(next, start, c) &&
      forall i | 0 <= i < |c| :: c[i].time == i
  {
    var c := ChainNodes(cameFrom, node);
    ChainShape(cameFrom, node);
    ChainTimes(cameFrom, node);
    assert c[0] !in cameFrom;
    assert c[0] == start by {
      if |c| > 1 {
        assert cameFrom[c[1]] == c[0];
      }
    }
  }

  /** A walk within the horizon never leaves a set closed under expansion below the horizon. */
  lemma {:induction false} WalkStaysIn(next: Node -> NextVec, cells: set<Location>, d: set<Node>, start: Node,
                                        maxTime: nat, w: seq<Node>, i: nat)
    requires StepsForward(next, cells)
    requires start.time == 0 && start in d
    requires forall n | Settled(d, maxTime, n) :: SuccessorSet(next, n) <= d
    requires Walk(next, start, w) && |w| <= maxTime + 2 && i < |w|
    ensures w[i] in d && w[i].time == i
  {
    if i > 0 {
      WalkStaysIn(next, cells, d, start, maxTime, w, i - 1);
      assert Successor(next, w[i - 1], w[i]);
      assert Settled(d, maxTime, w[i - 1]);
      assert w[i] in SuccessorSet(next, w[i - 1]);
    }
  }

  /**
   * The search tree of `route_one`: every node with a cost but the start has a
   * link back to a node with a cost, one time step earlier, that offered it as a
   * successor.
   */
  ghost predicate SearchTree(next: Node -> NextVec, start: Node, bestSoFar: map<Node, Cost>,
                             cameFrom: map<Node, Node>)
  {
    bestSoFar.Keys == cameFrom.Keys + {start} && start !in cameFrom &&
    forall k | k in cameFrom ::
      cameFrom[k] in bestSoFar && cameFrom[k].time + 1 == k.time && Successor(next, cameFrom[k], k)
  }

  /** Every successor of a settled node within the horizon is settled or queued. */
  ghost predicate Closed(next: Node -> NextVec, doneSet: set<Node>, queued: set<Node>, maxTime: nat)
  {
    forall n | Settled(doneSet, maxTime, n) :: SuccessorSet(next, n) <= doneSet + queued
  }

  /** `n` is done and within the horizon, so its successors have been expanded. */
  predicate Settled(doneSet: set<Node>, maxTime: nat, n: Node)
  {
    n in doneSet && n.time <= maxTime
  }

  /** Linking a new successor into the tree keeps it a tree. */
  lemma LinkKeepsTree(next: Node -> NextVec, start: Node, bestSoFar: map<Node, Cost>, cameFrom: map<Node, Node>,
                      node: Node, nxt: Node, cost: Cost)
    requires SearchTree(next, start, bestSoFar, cameFrom)
    requires start.time == 0 && node in bestSoFar && Successor(next, node, nxt) && nxt.time == node.time + 1
    ensures SearchTree(next, start, bestSoFar[nxt := cost], cameFrom[nxt := node])
  {
  }

  /** Settling a node of the horizon that was not done leaves fewer nodes to settle. */
  lemma SettlingShrinks(horizon: set<Node>, doneSet: set<Node>, node: Node)
    requires node in horizon && node !in doneSet
    ensures |horizon - (doneSet + {node})| == |horizon - doneSet| - 1
  {
    assert horizon - (doneSet + {node}) == (horizon - doneSet) - {node};
  }

  /** Settling `node` and expanding all its successors restores closure. */
  lemma SettleKeepsClosed(next: Node -> NextVec, doneSet: set<Node>, queued: set<Node>, queued': set<Node>,
                          maxTime: nat, node: Node)
    requires Closed(next, doneSet, queued + {node}, maxTime)
    requires queued <= queued'
    requires node.time <= maxTime ==> SuccessorSet(next, node) <= doneSet + {node} + queued'
    ensures Closed(next, doneSet + {node}, queued', maxTime)
  {
  }

  /**
   * The successor loop of `route_one`: each successor of `node` that is not done
   * gets a cost (and a link back to `node`) when it is new or the path through
   * `node` is cheaper, and is pushed with the Manhattan distance to `dest` as its
   * estimate.
   */
  method ExpandNode(next: Node -> NextVec, ghost cells: set<Location>, ghost maxTime: nat, startNode: Node,
                    dest: Location, node: Node, nodeCost: Cost, doneSet: set<Node>, todo: MinHeap.Heap<Node>,
                    bestSoFar: map<Node, Cost>, cameFrom: map<Node, Node>)
    returns (todo': MinHeap.Heap<Node>, bestSoFar': map<Node, Cost>, cameFrom': map<Node, Node>)
    requires StepsForward(next, cells) && startNode.time == 0
    requires SearchTree(next, startNode, bestSoFar, cameFrom)
    requires node in bestSoFar && node in Horizon(cells, startNode.location, maxTime) && node.time <= maxTime
    requires MinHeap.Items(todo) <= bestSoFar.Keys && MinHeap.Items(todo) <= Horizon(cells, startNode.location, maxTime)
    ensures SearchTree(next, startNode, bestSoFar', cameFrom')
    ensures bestSoFar.Keys <= bestSoFar'.Keys && MinHeap.Items(todo) <= MinHeap.Items(todo')
    ensures MinHeap.Items(todo') <= bestSoFar'.Keys && MinHeap.Items(todo') <= Horizon(cells, startNode.location, maxTime)
    ensures SuccessorSet(next, node) <= doneSet + MinHeap.Items(todo')
  {
    todo', bestSoFar', cameFrom' := todo, bestSoFar, cameFrom;
    ghost var horizon := Horizon(cells, startNode.location, maxTime);
    var succs := next(node);
    for i := 0 to |succs|
      invariant SearchTree(next, startNode, bestSoFar', cameFrom')
      invariant bestSoFar.Keys <= bestSoFar'.Keys && MinHeap.Items(todo) <= MinHeap.Items(todo')
      invariant MinHeap.Items(todo') <= bestSoFar'.Keys && MinHeap.Items(todo') <= horizon
      invariant forall k | 0 <= k < i :: succs[k].1 in doneSet || succs[k].1 in MinHeap.Items(todo')
    {
      var edgeCost, nxt := succs[i].0, succs[i].1;
      if nxt in doneSet {
        continue;
      }
      assert Successor(next, node, nxt);
      var nextCost := nodeCost + edgeCost;
      if nxt in bestSoFar' {
        var oldCost := bestSoFar'[nxt];
        if nextCost < oldCost {
          LinkKeepsTree(next, startNode, bestSoFar', cameFrom', node, nxt, nextCost);
          bestSoFar' := bestSoFar'[nxt := nextCost];
          cameFrom' := cameFrom'[nxt := node];
        } else {
          nextCost := oldCost;
        }
      } else {
        LinkKeepsTree(next, startNode, bestSoFar', cameFrom', node, nxt, nextCost);
        bestSoFar' := bestSoFar'[nxt := nextCost];
        cameFrom' := cameFrom'[nxt := node];
      }
      var nextCostEst := nextCost + DistanceTo(dest, nxt.location);
      todo' := MinHeap.Push(todo', nextCostEst, nxt);
    }
  }

  /** The loop invariant of `route_one`. */
  ghost predicate Searching(next: Node -> NextVec, done: Node -> bool, horizon: set<Node>, maxTime: nat,
                            startNode: Node, queued: set<Node>, bestSoFar: map<Node, Cost>,
                            cameFrom: map<Node, Node>, doneSet: set<Node>, expanded: seq<Node>)
  {
    SearchTree(next, startNode, bestSoFar, cameFrom) &&
    queued <= bestSoFar.Keys && queued <= horizon && doneSet <= bestSoFar.Keys &&
    (forall n | n in doneSet :: !done(n)) &&
    (forall i | 0 <= i < |expanded| :: Settled(doneSet, maxTime, expanded[i])) &&
    (forall i, j | 0 <= i < j < |expanded| :: expanded[i] != expanded[j]) &&
    (startNode in doneSet || startNode in queued) &&
    Closed(next, doneSet, queued, maxTime)
  }

  /** Expanding a node not settled before keeps the expanded nodes settled and distinct. */
  lemma ExpandedGrows(doneSet: set<Node>, maxTime: nat, expanded: seq<Node>, node: Node)
    requires forall i | 0 <= i < |expanded| :: Settled(doneSet, maxTime, expanded[i])
    requires forall i, j | 0 <= i < j < |expanded| :: expanded[i] != expanded[j]
    requires node !in doneSet && node.time <= maxTime
    ensures forall i | 0 <= i < |expanded + [node]| :: Settled(doneSet + {node}, maxTime, (expanded + [node])[i])
    ensures forall i, j | 0 <= i < j < |expanded + [node]| :: (expanded + [node])[i] != (expanded + [node])[j]
  {
    var e := expanded + [node];
    forall i | 0 <= i < |e|
      ensures Settled(doneSet + {node}, maxTime, e[i])
    {
      if i < |expanded| {
        assert Settled(doneSet, maxTime, expanded[i]);
      }
    }
    forall i, j | 0 <= i < j < |e|
      ensures e[i] != e[j]
    {
      if j == |expanded| {
        assert Settled(doneSet, maxTime, expanded[i]);
      }
    }
  }

  /** Popping a node that is done or past the horizon, and skipping it, keeps the invariant. */
  lemma SkipKeepsSearching(next: Node -> NextVec, done: Node -> bool, horizon: set<Node>, maxTime: nat,
                           startNode: Node, queued0: set<Node>, queued: set<Node>, bestSoFar: map<Node, Cost>,
                           cameFrom: map<Node, Node>, doneSet: set<Node>, expanded: seq<Node>, node: Node)
    requires Searching(next, done, horizon, maxTime, startNode, queued0, bestSoFar, cameFrom, doneSet, expanded)
    requires queued0 == queued + {node}
    requires !done(node) && (node in doneSet || node.time > maxTime)
    ensures Searching(next, done, horizon, maxTime, startNode, queued, bestSoFar, cameFrom, doneSet + {node}, expanded)
    ensures node in doneSet ==>
      Searching(next, done, horizon, maxTime, startNode, queued, bestSoFar, cameFrom, doneSet, expanded)
  {
    SettleKeepsClosed(next, doneSet, queued, queued, maxTime, node);
    if node in doneSet {
      assert doneSet + {node} == doneSet;
    }
  }

  /** Popping a new node within the horizon and expanding it keeps the invariant. */
  lemma ExpandKeepsSearching(next: Node -> NextVec, done: Node -> bool, horizon: set<Node>, maxTime: nat,
                             startNode: Node, queued0: set<Node>, queued: set<Node>, bestSoFar: map<Node, Cost>,
                             cameFrom: map<Node, Node>, doneSet: set<Node>, expanded: seq<Node>, node: Node,
                             queued': set<Node>, bestSoFar': map<Node, Cost>, cameFrom': map<Node, Node>)
    requires Searching(next, done, horizon, maxTime, startNode, queued0, bestSoFar, cameFrom, doneSet, expanded)
    requires queued0 == queued + {node}
    requires !done(node) && node !in doneSet && node.time <= maxTime
    requires SearchTree(next, startNode, bestSoFar', cameFrom')
    requires bestSoFar.Keys <= bestSoFar'.Keys && queued <= queued' && queued' <= bestSoFar'.Keys && queued' <= horizon
    requires SuccessorSet(next, node) <= doneSet + {node} + queued'
    ensures Searching(next, done, horizon, maxTime, startNode, queued', bestSoFar', cameFrom', doneSet + {node},
                      expanded + [node])
  {
    SettleKeepsClosed(next, doneSet, queued, queued', maxTime, node);
    ExpandedGrows(doneSet, maxTime, expanded, node);
  }

  /** The search starts with the start node queued at cost 0 and nothing done. */
  lemma SearchStarts(next: Node -> NextVec, done: Node -> bool, horizon: set<Node>, maxTime: nat, startNode: Node)
    requires startNode in horizon
    ensures Searching(next, done, horizon, maxTime, startNode, {startNode}, map[][startNode := 0], map[], {}, [])
  {
  }

  /** Once the queue is empty, no walk within the horizon reaches a node that satisfies `done`. */
  lemma SearchExhausted(next: Node -> NextVec, done: Node -> bool, cells: set<Location>, maxTime: nat,
                        horizon: set<Node>, startNode: Node, queued: set<Node>, bestSoFar: map<Node, Cost>,
                        cameFrom: map<Node, Node>, doneSet: set<Node>, expanded: seq<Node>)
    requires StepsForward(next, cells) && startNode.time == 0 && horizon == Horizon(cells, startNode.location, maxTime)
    requires Searching(next, done, horizon, maxTime, startNode, queued, bestSoFar, cameFrom, doneSet, expanded)
    requires queued == {}
    ensures NoWalkArrives(next, done, startNode, maxTime) && ExpandsOnce(expanded, maxTime)
  {
    SearchExpandsOnce(next, done, horizon, maxTime, startNode, queued, bestSoFar, cameFrom, doneSet, expanded);
    forall w | ShortWalk(next, startNode, maxTime, w)
      ensures !done(LastNode(w))
    {
      WalkStaysIn(next, cells, doneSet, startNode, maxTime, w, |w| - 1);
    }
  }

  /** The last node of a walk. */
  function LastNode(w: seq<Node>): Node
    requires |w| >= 1
  {
    w[|w| - 1]
  }

  /** Step `i` of path `p`, from time `i - 1` to time `i`, is one that `next` offers. */
  predicate StepAt(next: Node -> NextVec, p: Path, i: nat)
  {
    1 <= i < |p| && Successor(next, Node(p[i - 1], i - 1), Node(p[i], i))
  }

  /** `route_one`'s promise for a path it returns. */
  ghost predicate RoutedPath(next: Node -> NextVec, done: Node -> bool, from: Location, maxTime: nat, p: Path)
  {
    |p| >= 1 && p[0] == from && |p| <= maxTime + 2 &&
    done(Node(p[|p| - 1], |p| - 1)) &&
    forall i | 1 <= i < |p| :: StepAt(next, p, i)
  }

  /** Each expanded node was expanded once, and within the time limit. */
  ghost predicate ExpandsOnce(expanded: seq<Node>, maxTime: nat)
  {
    (forall i, j | 0 <= i < j < |expanded| :: expanded[i] != expanded[j]) &&
    forall i | 0 <= i < |expanded| :: expanded[i].time <= maxTime
  }

  lemma SearchExpandsOnce(next: Node -> NextVec, done: Node -> bool, horizon: set<Node>, maxTime: nat,
                          startNode: Node, queued: set<Node>, bestSoFar: map<Node, Cost>,
                          cameFrom: map<Node, Node>, doneSet: set<Node>, expanded: seq<Node>)
    requires Searching(next, done, horizon, maxTime, startNode, queued, bestSoFar, cameFrom, doneSet, expanded)
    ensures ExpandsOnce(expanded, maxTime)
  {
    forall i | 0 <= i < |expanded|
      ensures expanded[i].time <= maxTime
    {
      assert Settled(doneSet, maxTime, expanded[i]);
    }
  }

  /** The path rebuilt from a queued node that satisfies `done` meets `route_one`'s promise. */
  lemma FoundPath(next: Node -> NextVec, done: Node -> bool, cells: set<Location>, horizon: set<Node>,
                  maxTime: nat, start: Node, queued: set<Node>, bestSoFar: map<Node, Cost>,
                  cameFrom: map<Node, Node>, doneSet: set<Node>, expanded: seq<Node>, node: Node, path: Path)
    requires start.time == 0 && horizon == Horizon(cells, start.location, maxTime)
    requires Searching(next, done, horizon, maxTime, start, queued, bestSoFar, cameFrom, doneSet, expanded)
    requires node in queued && done(node)
    requires path == Locations(ChainNodes(cameFrom, node))
    ensures RoutedPath(next, done, start.location, maxTime, path) && ExpandsOnce(expanded, maxTime)
  {
    SearchExpandsOnce(next, done, horizon, maxTime, start, queued, bestSoFar, cameFrom, doneSet, expanded);
    assert InHorizon(cells, start.location, maxTime, node);
    SearchTreeChain(next, cameFrom, start, node);
    var c := ChainNodes(cameFrom, node);
    assert c[|c| - 1] == node by {
      ChainShape(cameFrom, node);
    }
    forall i | 1 <= i < |path|
      ensures StepAt(next, path, i)
    {
      assert Node(path[i - 1], i - 1) == c[i - 1] && Node(path[i], i) == c[i];
    }
    assert Node(path[|path| - 1], |path| - 1) == node;
  }

  /**
   * One popped node that is not accepted: `done.insert(node)`, then, unless it
   * was already done or lies past the horizon, the successor loop.
   */
  method Visit(next: Node -> NextVec, done: Node -> bool, ghost cells: set<Location>, ghost horizon: set<Node>,
               maxTime: nat, startNode: Node, dest: Location, node: Node, ghost queued0: set<Node>, todo: MinHeap.Heap<Node>,
               bestSoFar: map<Node, Cost>, cameFrom: map<Node, Node>, doneSet: set<Node>,
               ghost expanded: seq<Node>)
    returns (todo': MinHeap.Heap<Node>, bestSoFar': map<Node, Cost>, cameFrom': map<Node, Node>,
             doneSet': set<Node>, ghost expanded': seq<Node>)
    requires StepsForward(next, cells) && startNode.time == 0 && horizon == Horizon(cells, startNode.location, maxTime)
    requires Searching(next, done, horizon, maxTime, startNode, queued0, bestSoFar, cameFrom, doneSet, expanded)
    requires queued0 == MinHeap.Items(todo) + {node} && !done(node)
    ensures Searching(next, done, horizon, maxTime, startNode, MinHeap.Items(todo'), bestSoFar', cameFrom',
                      doneSet', expanded')
    ensures |horizon - doneSet'| < |horizon - doneSet| || (doneSet' == doneSet && todo' == todo)
  {
    todo', bestSoFar', cameFrom', doneSet', expanded' := todo, bestSoFar, cameFrom, doneSet, expanded;
    var isNew := node !in doneSet;
    if isNew {
      SettlingShrinks(horizon, doneSet, node);
      doneSet' := doneSet + {node};
    }
    if !isNew || node.time > maxTime {
      SkipKeepsSearching(next, done, horizon, maxTime, startNode, queued0, MinHeap.Items(todo), bestSoFar,
                         cameFrom, doneSet, expanded, node);
      return;
    }

    // the node has an entry: it was given one when it was pushed
    var nodeCost: Cost := bestSoFar[node];
    todo', bestSoFar', cameFrom' :=
      ExpandNode(next, cells, maxTime, startNode, dest, node, nodeCost, doneSet', todo, bestSoFar, cameFrom);
    ExpandKeepsSearching(next, done, horizon, maxTime, startNode, queued0, MinHeap.Items(todo), bestSoFar,
                         cameFrom, doneSet, expanded, node, MinHeap.Items(todo'), bestSoFar', cameFrom');
    expanded' := expanded + [node];
  }

  /**
   * `route_one`: best-first search over `(location, time)` nodes from the
   * droplet's location at time 0, using `next` for successors and accepting the
   * first popped node that satisfies `done`. `expanded` records the nodes
   * expanded, in order.
   */
  method RouteOne(droplet: Droplet, maxTime: nat, next: Node -> NextVec, done: Node -> bool,
                  ghost cells: set<Location>)
    returns (r: Option<Path>, ghost expanded: seq<Node>)
    requires StepsForward(next, cells)
    ensures r.Some? ==> RoutedPath(next, done, droplet.location, maxTime, r.value)
    ensures r.None? ==> NoWalkArrives(next, done, Node(droplet.location, 0), maxTime)
    ensures ExpandsOnce(expanded, maxTime)
  {
    var todo := MinHeap.Empty<Node>();
    var bestSoFar: map<Node, Cost> := map[];
    var cameFrom: map<Node, Node> := map[];
    var doneSet: set<Node> := {};

    var startNode := Node(droplet.location, 0);
    todo := MinHeap.Push(todo, 0, startNode);
    bestSoFar := bestSoFar[startNode := 0];

    var dest := Dest(droplet);
    expanded := [];
    ghost var horizon := Horizon(cells, startNode.location, maxTime);
    assert MinHeap.Items(todo) == {startNode} by {
      assert todo.entries == [(0, startNode)];
    }
    SearchStarts(next, done, horizon, maxTime, startNode);

    while true
      invariant Searching(next, done, horizon, maxTime, startNode, MinHeap.Items(todo), bestSoFar, cameFrom,
                          doneSet, expanded)
      decreases |horizon - doneSet|, |todo.entries|
    {
      var popped := MinHeap.Pop(todo);
      if popped.None? {
        break;
      }
      var node := popped.value.0.1;
      ghost var queuedBefore := MinHeap.Items(todo);
      todo := popped.value.1;

      if done(node) {
        var path := BuildPath(cameFrom, node);
        FoundPath(next, done, cells, horizon, maxTime, startNode, queuedBefore, bestSoFar, cameFrom, doneSet, expanded,
                  node, path);
        return Some(path), expanded;
      }
      todo, bestSoFar, cameFrom, doneSet, expanded :=
        Visit(next, done, cells, horizon, maxTime, startNode, dest, node, queuedBefore, todo, bestSoFar, cameFrom,
              doneSet, expanded);
    }

    assert MinHeap.Items(todo) == {} by {
      assert |todo.entries| == 0;
    }
    SearchExhausted(next, done, cells, maxTime, horizon, startNode, MinHeap.Items(todo), bestSoFar, cameFrom, doneSet,
                    expanded);
    return None, expanded;
  }

  // --------------------------------------------------------------- route_many

  /** The successors `route_many` offers the search: `filter(expand(node))` against `view`. */
  function Avoiding(grid: Grid, view: Avoidance): Node -> NextVec
  {
    (n: Node) => view.Filter(Expand(grid, n))
  }

  /** The acceptance test `route_many` gives the search: at `dest`, and not finally colliding. */
  function Arrived(view: Avoidance, dest: Location): Node -> bool
  {
    (n: Node) => n.location == dest && !view.WouldFinallyCollide(n)
  }

  /** A filtered step goes to a cardinal neighbour on the grid, or waits, and avoids `view`. */
  lemma AvoidingStep(grid: Grid, view: Avoidance, n: Node, m: Node)
    requires Successor(Avoiding(grid, view), n, m)
    ensures m.time == n.time + 1
    ensures m.location == n.location || (m.location in grid.cells && DistanceTo(n.location, m.location) == 1)
    ensures !view.Collides(m) && !view.CollidesWithFinal(m)
  {
    var vec := Expand(grid, n);
    var r := view.Filter(vec);
    var k :| 0 <= k < |r| && r[k].1 == m;
    assert r[k] in r;
    var e :| e in vec && e == r[k];
    var idx :| 0 <= idx < |vec| && vec[idx] == e;
  }

  lemma AvoidingStepsForward(grid: Grid, view: Avoidance)
    ensures StepsForward(Avoiding(grid, view), grid.cells)
  {
    forall n: Node, k | 0 <= k < |Avoiding(grid, view)(n)|
      ensures Avoiding(grid, view)(n)[k].1.time == n.time + 1 &&
              (Avoiding(grid, view)(n)[k].1.location in grid.cells ||
               Avoiding(grid, view)(n)[k].1.location == n.location)
    {
      AvoidingStep(grid, view, n, Avoiding(grid, view)(n)[k].1);
    }
  }

  /** The ids of the first `k` droplets. */
  function IdsOf(droplets: seq<(DropletId, Droplet)>, k: nat): set<DropletId>
    requires k <= |droplets|
  {
    if k == 0 then {} else IdsOf(droplets, k - 1) + {droplets[k - 1].0}
  }

  lemma {:induction false} IdsOfMeaning(droplets: seq<(DropletId, Droplet)>, k: nat, id: DropletId)
    requires k <= |droplets|
    ensures id in IdsOf(droplets, k) <==> exists j | 0 <= j < k :: droplets[j].0 == id
  {
    if k > 0 {
      IdsOfMeaning(droplets, k - 1, id);
    }
  }

  /** No two droplets in the list share an id. */
  predicate DistinctIds(droplets: seq<(DropletId, Droplet)>)
  {
    forall i, j | 0 <= i < j < |droplets| :: droplets[i].0 != droplets[j].0
  }

  /**
   * `paths` maps the id of each of the first `|routed|` droplets to its path in
   * `routed`, and holds no other id.
   */
  ghost predicate Keyed(droplets: seq<(DropletId, Droplet)>, routed: seq<Path>, paths: map<DropletId, Path>)
  {
    |routed| <= |droplets| && paths.Keys == IdsOf(droplets, |routed|) &&
    forall j | 0 <= j < |routed| :: droplets[j].0 in paths && paths[droplets[j].0] == routed[j]
  }

  /** Recording the next droplet's path keeps `paths` keyed by the routed droplets. */
  lemma KeyedGrows(droplets: seq<(DropletId, Droplet)>, routed: seq<Path>, paths: map<DropletId, Path>, p: Path)
    requires DistinctIds(droplets) && |routed| < |droplets| && Keyed(droplets, routed, paths)
    ensures Keyed(droplets, routed + [p], paths[droplets[|routed|].0 := p])
  {
    var k := |routed|;
    var id := droplets[k].0;
    IdsOfMeaning(droplets, k, id);
    assert id !in paths;
    var paths' := paths[id := p];
    forall j | 0 <= j < k + 1
      ensures droplets[j].0 in paths' && paths'[droplets[j].0] == (routed + [p])[j]
    {
      if j < k {
        assert droplets[j].0 != id;
      }
    }
  }

  /** Every path in `ps` has a first location. */
  predicate NonEmpty(ps: seq<Path>)
  {
    forall j | 0 <= j < |ps| :: |ps[j]| > 0
  }

  /**
   * The `AvoidanceSet` after `avoid_path` has run for the paths `ps` of the
   * first `|ps|` droplets, in order, starting from the default (empty) set.
   */
  function AvoidanceOf(grid: Grid, droplets: seq<(DropletId, Droplet)>, ps: seq<Path>): Avoidance
    requires |ps| <= |droplets| && NonEmpty(ps)
    decreases |ps|
  {
    if ps == [] then Avoidance(0, {}, map[])
    else
      var n := |ps| - 1;
      AvoidanceOf(grid, droplets, ps[..n]).AfterPath(grid, ps[n], droplets[n].1.dimensions)
  }

  /** `max_t` after routing the paths `ps`: the longest of them (0 for none). */
  function LongestOf(ps: seq<Path>): nat
    decreases |ps|
  {
    if ps == [] then 0
    else
      var m := LongestOf(ps[..|ps| - 1]);
      if m < |ps[|ps| - 1]| then |ps[|ps| - 1]| else m
  }

  /** `LongestOf` is the maximum of the path lengths. */
  lemma {:induction false} LongestOfIsMax(ps: seq<Path>)
    ensures forall j | 0 <= j < |ps| :: |ps[j]| <= LongestOf(ps)
    ensures ps == [] ==> LongestOf(ps) == 0
    ensures ps != [] ==> exists j | 0 <= j < |ps| :: |ps[j]| == LongestOf(ps)
    decreases |ps|
  {
    if ps != [] {
      var n := |ps| - 1;
      LongestOfIsMax(ps[..n]);
      assert forall j | 0 <= j < n :: ps[..n][j] == ps[j];
      if n > 0 && LongestOf(ps[..n]) >= |ps[n]| {
        var j :| 0 <= j < n && |ps[..n][j]| == LongestOf(ps[..n]);
        assert |ps[j]| == LongestOf(ps);
      }
    }
  }

  /** The avoidance set's `max_t` after routing `ps` is one below the longest path. */
  lemma {:induction false} AvoidanceMaxTime(grid: Grid, droplets: seq<(DropletId, Droplet)>, ps: seq<Path>)
    requires |ps| <= |droplets| && NonEmpty(ps)
    ensures AvoidanceOf(grid, droplets, ps).maxTime == if ps == [] then 0 else LongestOf(ps) - 1
    decreases |ps|
  {
    if ps != [] {
      var n := |ps| - 1;
      AvoidanceMaxTime(grid, droplets, ps[..n]);
    }
  }

  /** Every step the first `|ps|` droplets' paths reserved is in the avoidance set after them. */
  lemma {:induction false} ReservationsKept(grid: Grid, droplets: seq<(DropletId, Droplet)>, ps: seq<Path>, j: nat)
    requires |ps| <= |droplets| && NonEmpty(ps) && j < |ps|
    ensures PathReservation(grid, ps[j], droplets[j].1.dimensions, |ps[j]|) <= AvoidanceOf(grid, droplets, ps).present
    decreases |ps|
  {
    var n := |ps| - 1;
    if j < n {
      ReservationsKept(grid, droplets, ps[..n], j);
      assert ps[..n][j] == ps[j];
    }
  }

  /** The shape `route_many` promises of each path: start, destination, and one-cell steps or waits. */
  predicate PathFits(grid: Grid, d: Droplet, p: Path)
  {
    |p| >= 1 && p[0] == d.location && p[|p| - 1] == Dest(d) &&
    forall i | 1 <= i < |p| :: p[i] == p[i - 1] || (p[i] in grid.cells && DistanceTo(p[i - 1], p[i]) == 1)
  }

  /**
   * `p` keeps clear of `view`: no step after the start is reserved or in a blocked
   * final area, and staying at the end meets no later reservation.
   */
  predicate Avoids(view: Avoidance, p: Path)
  {
    |p| >= 1 &&
    (forall i | 1 <= i < |p| :: !view.Collides(Node(p[i], i)) && !view.CollidesWithFinal(Node(p[i], i))) &&
    !view.WouldFinallyCollide(Node(p[|p| - 1], |p| - 1))
  }

  /** `p`, routed after `before`, fits the next droplet and avoids the set `before` left. */
  predicate RoutedNext(grid: Grid, droplets: seq<(DropletId, Droplet)>, before: seq<Path>, p: Path)
  {
    |before| < |droplets| && NonEmpty(before) &&
    PathFits(grid, droplets[|before|].1, p) && Avoids(AvoidanceOf(grid, droplets, before), p)
  }

  /** The path `ps[j]` was routed after the ones before it. */
  predicate RoutedAt(grid: Grid, droplets: seq<(DropletId, Droplet)>, ps: seq<Path>, j: nat)
  {
    j < |ps| && RoutedNext(grid, droplets, ps[..j], ps[j])
  }

  /** Each path in `ps` was routed, in order, after the ones before it. */
  predicate RoutedSeq(grid: Grid, droplets: seq<(DropletId, Droplet)>, ps: seq<Path>)
  {
    |ps| <= |droplets| && forall j | 0 <= j < |ps| :: RoutedAt(grid, droplets, ps, j)
  }

  /** A path found by the search in `route_many` has the promised shape and avoids the view. */
  lemma RoutedFits(grid: Grid, view: Avoidance, d: Droplet, maxTime: nat, p: Path)
    requires RoutedPath(Avoiding(grid, view), Arrived(view, Dest(d)), d.location, maxTime, p)
    ensures PathFits(grid, d, p) && Avoids(view, p)
  {
    forall i | 1 <= i < |p|
      ensures (p[i] == p[i - 1] || (p[i] in grid.cells && DistanceTo(p[i - 1], p[i]) == 1)) &&
              !view.Collides(Node(p[i], i)) && !view.CollidesWithFinal(Node(p[i], i))
    {
      assert StepAt(Avoiding(grid, view), p, i);
      AvoidingStep(grid, view, Node(p[i - 1], i - 1), Node(p[i], i));
    }
    assert Arrived(view, Dest(d))(Node(p[|p| - 1], |p| - 1));
  }

  /**
   * One iteration of `route_many`: a path the search found for the next droplet
   * extends the routed sequence, and the avoidance set and `max_t` move on.
   */
  lemma RoutedGrows(grid: Grid, droplets: seq<(DropletId, Droplet)>, ps: seq<Path>, p: Path)
    requires |ps| < |droplets| && RoutedSeq(grid, droplets, ps) && NonEmpty(ps)
    requires PathFits(grid, droplets[|ps|].1, p) && Avoids(AvoidanceOf(grid, droplets, ps), p)
    ensures RoutedSeq(grid, droplets, ps + [p]) && NonEmpty(ps + [p])
    ensures AvoidanceOf(grid, droplets, ps + [p]) ==
      AvoidanceOf(grid, droplets, ps).AfterPath(grid, p, droplets[|ps|].1.dimensions)
    ensures LongestOf(ps + [p]) == if LongestOf(ps) < |p| then |p| else LongestOf(ps)
  {
    var ps' := ps + [p];
    forall j | 0 <= j < |ps'|
      ensures RoutedAt(grid, droplets, ps', j)
    {
      if j < |ps| {
        assert RoutedAt(grid, droplets, ps, j);
        assert ps'[..j] == ps[..j];
      } else {
        assert ps'[..j] == ps;
      }
    }
    assert ps'[..|ps|] == ps;
  }

  /**
   * One search of `route_many`: `route_one` from the droplet's location with
   * successors filtered through `view` and arrival at its destination once no
   * final position would collide.
   */
  method RouteAvoiding(grid: Grid, view: Avoidance, droplet: Droplet, maxTime: nat) returns (r: Option<Path>)
    ensures r.Some? ==> PathFits(grid, droplet, r.value) && Avoids(view, r.value) && |r.value| <= maxTime + 2
    ensures r.None? ==>
      NoWalkArrives(Avoiding(grid, view), Arrived(view, Dest(droplet)), Node(droplet.location, 0), maxTime)
  {
    AvoidingStepsForward(grid, view);
    ghost var expanded;
    r, expanded := RouteOne(droplet, maxTime, Avoiding(grid, view), Arrived(view, Dest(droplet)), grid.cells);
    if r.Some? {
      RoutedFits(grid, view, droplet, maxTime, r.value);
    }
  }

  /** Once every droplet is routed, `paths` holds a fitting path for each of them, under its id. */
  lemma KeyedFit(grid: Grid, droplets: seq<(DropletId, Droplet)>, routed: seq<Path>, paths: map<DropletId, Path>)
    requires RoutedSeq(grid, droplets, routed) && |routed| == |droplets| && Keyed(droplets, routed, paths)
    ensures paths.Keys == IdsOf(droplets, |droplets|)
    ensures forall j | 0 <= j < |droplets| :: PathFits(grid, droplets[j].1, paths[droplets[j].0])
  {
    forall j | 0 <= j < |droplets|
      ensures PathFits(grid, droplets[j].1, paths[droplets[j].0])
    {
      assert RoutedAt(grid, droplets, routed, j);
      assert |routed[..j]| == j;
    }
  }

  /**
   * `route_many`: route the droplets one by one in the given order, each avoiding
   * the reservations of those before it, with the horizon growing with the
   * longest path so far; `None` as soon as one droplet cannot be routed.
   * `routed` holds the paths found, in order: all of them, or those before the
   * droplet that could not be routed.
   */
  method RouteMany(droplets: seq<(DropletId, Droplet)>, grid: Grid)
    returns (r: Option<map<DropletId, Path>>, ghost routed: seq<Path>)
    requires DistinctIds(droplets)
    ensures RoutedSeq(grid, droplets, routed) && NonEmpty(routed) && |routed| <= |droplets|
    ensures r.Some? ==> |routed| == |droplets| && Keyed(droplets, routed, r.value)
    ensures r.Some? ==> r.value.Keys == IdsOf(droplets, |droplets|)
    ensures r.Some? ==> forall j | 0 <= j < |droplets| :: PathFits(grid, droplets[j].1, r.value[droplets[j].0])
    ensures r.None? ==>
      |routed| < |droplets| &&
      var view := AvoidanceOf(grid, droplets, routed);
      var d := droplets[|routed|].1;
      NoWalkArrives(Avoiding(grid, view), Arrived(view, Dest(d)), Node(d.location, 0), |grid.cells| + LongestOf(routed))
  {
    var avSet := new AvoidanceSet();
    var numCells := |grid.cells|;
    var paths: map<DropletId, Path> := map[];
    var maxT := 0;
    routed := [];

    for k := 0 to |droplets|
      invariant |routed| == k && RoutedSeq(grid, droplets, routed) && NonEmpty(routed)
      invariant Keyed(droplets, routed, paths)
      invariant avSet.View() == AvoidanceOf(grid, droplets, routed)
      invariant maxT == LongestOf(routed)
    {
      var (id, droplet) := droplets[k];
      var view := avSet.View();
      var result := RouteAvoiding(grid, view, droplet, numCells + maxT);
      if result.None? {
        return None, routed;
      }
      var path := result.value;
      RoutedGrows(grid, droplets, routed, path);

      maxT := if maxT < |path| then |path| else maxT;
      avSet.AvoidPath(path, grid, droplet.dimensions);
      KeyedGrows(droplets, routed, paths, path);
      paths := paths[id := path];
      routed := routed + [path];
    }
    KeyedFit(grid, droplets, routed, paths);
    return Some(paths), routed;
  }

  /**
   * Routed droplets keep apart: after its start, a droplet routed later never
   * stands, at any time, inside the collision zone an earlier droplet reserved
   * at any of its steps.
   */
  lemma Separation(grid: Grid, droplets: seq<(DropletId, Droplet)>, ps: seq<Path>, j: nat, k: nat, i: nat, t: nat)
    requires RoutedSeq(grid, droplets, ps)
    requires j < k < |ps| && 1 <= i < |ps[k]| && t < |ps[j]|
    ensures Node(ps[k][i], i) !in NodeReservation(grid, Node(ps[j][t], t), droplets[j].1.dimensions)
  {
    assert RoutedAt(grid, droplets, ps, k);
    var before := ps[..k];
    assert before[j] == ps[j];
    ReservationsKept(grid, droplets, before, j);
    var m := Node(ps[k][i], i);
    assert !AvoidanceOf(grid, droplets, before).Collides(m);
    PathReservationMeaning(grid, ps[j], droplets[j].1.dimensions, |ps[j]|, m);
  }
}
