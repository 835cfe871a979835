/** Edge storage and breadth-first orientation of undirected nets (`kernel/drivertools.cc`). */
module DriverTools {
  import opened Collections
  type Id = int

  // ----- Edge storage

  /** The edges of a source: the first, the second, and a pool of the others. */
  function ListOf(first: map<Id, Id>, second: map<Id, Id>, more: map<Id, seq<Id>>, src: Id): seq<Id> {
    (if src in first then [first[src]] else []) + (if src in second then [second[src]] else []) +
        (if src in more then more[src] else [])
  }

  predicate Distinct(s: seq<Id>) {
    forall i, j :: 0 <= i < j < |s| ==> s[i] != s[j]
  }

  /** The second edge is used only after the first, the pool only after the second. */
  ghost predicate Compact(first: map<Id, Id>, second: map<Id, Id>, more: map<Id, seq<Id>>) {
    && (forall s :: s in second ==> s in first)
    && (forall s :: s in more ==> s in second && more[s] != [])
    && (forall s :: Distinct(ListOf(first, second, more, s)))
  }

  lemma {:induction false} StoredElsewhere(first: map<Id, Id>, second: map<Id, Id>, more: map<Id, seq<Id>>,
                                           first': map<Id, Id>, second': map<Id, Id>, more': map<Id, seq<Id>>, src: Id)
    requires Compact(first, second, more)
    requires forall s :: s != src ==> (s in first' <==> s in first) && (s in first ==> first'[s] == first[s])
    requires forall s :: s != src ==> (s in second' <==> s in second) && (s in second ==> second'[s] == second[s])
    requires forall s :: s != src ==> (s in more' <==> s in more) && (s in more ==> more'[s] == more[s])
    requires (src in second' ==> src in first') && (src in more' ==> src in second' && more'[src] != [])
    requires Distinct(ListOf(first', second', more', src))
    ensures Compact(first', second', more')
    ensures forall s :: s != src ==> ListOf(first', second', more', s) == ListOf(first, second, more, s)
  {
    forall s | s != src ensures ListOf(first', second', more', s) == ListOf(first, second, more, s) {
    }
    forall s ensures Distinct(ListOf(first', second', more', s)) {
      if s != src {
        assert Distinct(ListOf(first, second, more, s));
      }
    }
  }

  class DriveBitGraph {
    var firstEdges: map<Id, Id>
    var secondEdges: map<Id, Id>
    var moreEdges: map<Id, seq<Id>>

    ghost predicate Valid()
      reads this
    {
      Compact(firstEdges, secondEdges, moreEdges)
    }

    /** The edges of `src`, without repetition. */
    function Edges(src: Id): seq<Id>
      reads this
    {
      ListOf(firstEdges, secondEdges, moreEdges, src)
    }

    /** The edge lists as a function of their source. */
    ghost function Stored(): (e: Adjacency)
      reads this
      ensures forall s :: e(s) == Edges(s)
    {
      var first, second, more := firstEdges, secondEdges, moreEdges;
      s => ListOf(first, second, more, s)
    }

    constructor ()
      ensures Valid() && forall s :: Edges(s) == []
    {
      firstEdges, secondEdges, moreEdges := map[], map[], map[];
    }

    method AddEdge(src: Id, dst: Id)
      requires Valid()
      modifies this
      ensures Valid()
      ensures Edges(src) == if dst in old(Edges(src)) then old(Edges(src)) else old(Edges(src)) + [dst]
      ensures forall s :: s != src ==> Edges(s) == old(Edges(s))
    {
      if src !in firstEdges {
        firstEdges := firstEdges[src := dst];
      }
      if firstEdges[src] == dst {
        StoredElsewhere(old(firstEdges), old(secondEdges), old(moreEdges), firstEdges, secondEdges, moreEdges, src);
        return;
      }
      if src !in secondEdges {
        secondEdges := secondEdges[src := dst];
      }
      if secondEdges[src] == dst {
        StoredElsewhere(old(firstEdges), old(secondEdges), old(moreEdges), firstEdges, secondEdges, moreEdges, src);
        return;
      }
      if src !in moreEdges {
        moreEdges := moreEdges[src := [dst]];
      } else if dst !in moreEdges[src] {
        moreEdges := moreEdges[src := moreEdges[src] + [dst]];
      }
      ghost var was := old(Edges(src));
      assert Edges(src) == if dst in was then was else was + [dst];
      assert Distinct(was);
      StoredElsewhere(old(firstEdges), old(secondEdges), old(moreEdges), firstEdges, secondEdges, moreEdges, src);
    }

    method Clear(src: Id)
      requires Valid()
      modifies this
      ensures Valid() && Edges(src) == [] && forall s :: s != src ==> Edges(s) == old(Edges(s))
    {
      firstEdges, secondEdges, moreEdges := firstEdges - {src}, secondEdges - {src}, moreEdges - {src};
      StoredElsewhere(old(firstEdges), old(secondEdges), old(moreEdges), firstEdges, secondEdges, moreEdges, src);
    }

    method Contains(src: Id) returns (r: bool)
      requires Valid()
      ensures r <==> Edges(src) != []
    {
      r := src in firstEdges;
    }

    method Count(src: Id) returns (n: nat)
      requires Valid()
      ensures n == |Edges(src)|
    {
      if src !in firstEdges {
        return 0;
      }
      if src !in secondEdges {
        return 1;
      }
      if src !in moreEdges {
        return 2;
      }
      return |moreEdges[src]| + 2;
    }

    /** Every edge is reached at exactly one index: the pool is read from its last entry. */
    method At(src: Id, index: nat) returns (dst: Id)
      requires Valid() && index < |Edges(src)|
      ensures dst == Edges(src)[if index < 2 then index else |Edges(src)| + 1 - index]
    {
      if index == 0 {
        dst := firstEdges[src];
      } else if index == 1 {
        dst := secondEdges[src];
      } else {
        dst := moreEdges[src][|moreEdges[src]| - 1 - (index - 2)];
      }
    }
  }

  // ----- Distances

  type Adjacency = Id -> seq<Id>

  /** There is a walk of `n` edges from `a` to `b`. */
  ghost predicate Walk(adj: Adjacency, a: Id, b: Id, n: nat)
    decreases n
  {
    if n == 0 then a == b else exists w :: Walk(adj, a, w, n - 1) && b in adj(w)
  }

  ghost predicate IsDistance(adj: Adjacency, a: Id, b: Id, d: nat) {
    Walk(adj, a, b, d) && forall n: nat :: n < d ==> !Walk(adj, a, b, n)
  }

  ghost predicate Reachable(adj: Adjacency, a: Id, b: Id) {
    exists n: nat :: Walk(adj, a, b, n)
  }

  lemma {:induction false} WalkStep(adj: Adjacency, a: Id, w: Id, b: Id, n: nat)
    requires Walk(adj, a, w, n) && b in adj(w)
    ensures Walk(adj, a, b, n + 1)
  {
  }

  /** The entries of an insertion-ordered dictionary of distances. */
  predicate Queue(order: seq<Id>, dist: map<Id, nat>) {
    Distinct(order) && (forall i :: 0 <= i < |order| ==> order[i] in dist) && (forall x :: x in dist ==> x in order)
  }

  /** Distances never fall along the queue and differ by at most one from position `pos` on. */
  predicate Layered(order: seq<Id>, dist: map<Id, nat>, pos: nat)
    requires Queue(order, dist)
  {
    && (forall i, j :: 0 <= i <= j < |order| ==> dist[order[i]] <= dist[order[j]])
    && (forall j :: 0 <= j < |order| && pos < |order| ==> dist[order[j]] <= dist[order[pos]] + 1)
  }

  /** `y` has been reached from `x`, at most one step further away. */
  predicate Reached(dist: map<Id, nat>, x: Id, y: Id) {
    x in dist && y in dist && dist[y] <= dist[x] + 1
  }

  /** Every neighbour of the first `pos` entries has been reached. */
  ghost predicate Explored(adj: Adjacency, order: seq<Id>, dist: map<Id, nat>, pos: nat) {
    forall k, y :: 0 <= k < pos && k < |order| && y in adj(order[k]) ==> Reached(dist, order[k], y)
  }

  ghost predicate Walked(adj: Adjacency, root: Id, dist: map<Id, nat>) {
    forall x :: x in dist ==> Walk(adj, root, x, dist[x])
  }

  ghost predicate Searching(adj: Adjacency, root: Id, order: seq<Id>, dist: map<Id, nat>, pos: nat) {
    && Queue(order, dist) && Layered(order, dist, pos) && Explored(adj, order, dist, pos) && Walked(adj, root, dist)
    && pos <= |order| && root in dist && dist[root] == 0
  }

  /** A finished search has reached everything reachable. */
  lemma {:induction false} SearchFinds(adj: Adjacency, root: Id, order: seq<Id>, dist: map<Id, nat>, x: Id, n: nat)
    requires Searching(adj, root, order, dist, |order|) && Walk(adj, root, x, n)
    ensures x in dist && dist[x] <= n
    decreases n
  {
    if n > 0 {
      var w :| Walk(adj, root, w, n - 1) && x in adj(w);
      SearchFinds(adj, root, order, dist, w, n - 1);
      var k :| 0 <= k < |order| && order[k] == w;
      assert Reached(dist, order[k], x);
    }
  }

  /** The recorded distances are the shortest ones, and exist exactly for what is reachable. */
  lemma {:induction false} SearchExact(adj: Adjacency, root: Id, order: seq<Id>, dist: map<Id, nat>, x: Id)
    requires Searching(adj, root, order, dist, |order|)
    ensures x in dist <==> Reachable(adj, root, x)
    ensures x in dist ==> IsDistance(adj, root, x, dist[x])
  {
    if Reachable(adj, root, x) {
      var n: nat :| Walk(adj, root, x, n);
      SearchFinds(adj, root, order, dist, x, n);
    }
    if x in dist {
      assert Walk(adj, root, x, dist[x]);
      forall n: nat | n < dist[x] ensures !Walk(adj, root, x, n) {
        if Walk(adj, root, x, n) {
          SearchFinds(adj, root, order, dist, x, n);
        }
      }
    }
  }

  /** The queue after `y` has been emplaced one step away from the entry at `pos`. */
  function Pushed(order: seq<Id>, dist: map<Id, nat>, y: Id): seq<Id> {
    if y in dist then order else order + [y]
  }

  function Emplaced(order: seq<Id>, dist: map<Id, nat>, pos: nat, y: Id): map<Id, nat>
    requires pos < |order| && order[pos] in dist
  {
    if y in dist then dist else dist[y := dist[order[pos]] + 1]
  }

  lemma {:induction false} EmplaceStep(adj: Adjacency, root: Id, order: seq<Id>, dist: map<Id, nat>, pos: nat, y: Id)
    requires Searching(adj, root, order, dist, pos) && pos < |order| && y in adj(order[pos])
    ensures Searching(adj, root, Pushed(order, dist, y), Emplaced(order, dist, pos, y), pos)
    ensures Reached(Emplaced(order, dist, pos, y), order[pos], y)
  {
    if y in dist {
      var j :| 0 <= j < |order| && order[j] == y;
    } else {
      AppendSearching(adj, root, order, dist, pos, y);
    }
  }

  lemma {:induction false} AppendSearching(adj: Adjacency, root: Id, order: seq<Id>, dist: map<Id, nat>, pos: nat,
                                           y: Id)
    requires Searching(adj, root, order, dist, pos) && pos < |order| && y in adj(order[pos]) && y !in dist
    ensures Searching(adj, root, order + [y], dist[y := dist[order[pos]] + 1], pos)
  {
    WalkStep(adj, root, order[pos], y, dist[order[pos]]);
    AppendLayered(order, dist, pos, y);
    AppendExplored(adj, order, dist, pos, y);
  }

  lemma {:induction false} AppendLayered(order: seq<Id>, dist: map<Id, nat>, pos: nat, y: Id)
    requires Queue(order, dist) && Layered(order, dist, pos) && pos < |order| && y !in dist
    ensures var order', dist' := order + [y], dist[y := dist[order[pos]] + 1];
            Queue(order', dist') && Layered(order', dist', pos)
  {
    var order', dist' := order + [y], dist[y := dist[order[pos]] + 1];
    assert forall k :: 0 <= k < |order| ==> order'[k] == order[k] && dist'[order[k]] == dist[order[k]];
  }

  lemma {:induction false} AppendExplored(adj: Adjacency, order: seq<Id>, dist: map<Id, nat>, pos: nat, y: Id)
    requires Explored(adj, order, dist, pos) && pos < |order| && order[pos] in dist && y !in dist
    ensures Explored(adj, order + [y], dist[y := dist[order[pos]] + 1], pos)
  {
    var order', dist' := order + [y], dist[y := dist[order[pos]] + 1];
    forall k, z | 0 <= k < pos && z in adj(order'[k]) ensures Reached(dist', order'[k], z) {
      assert Reached(dist, order[k], z);
    }
  }

  /** When all neighbours of the entry at `pos` have been reached, the search moves on. */
  lemma {:induction false} AdvanceStep(adj: Adjacency, root: Id, order: seq<Id>, dist: map<Id, nat>, pos: nat)
    requires Searching(adj, root, order, dist, pos) && pos < |order|
    requires forall y :: y in adj(order[pos]) ==> Reached(dist, order[pos], y)
    ensures Searching(adj, root, order, dist, pos + 1)
  {
    assert pos + 1 < |order| ==> dist[order[pos]] <= dist[order[pos + 1]];
  }

  lemma {:induction false} DistinctBound(order: seq<Id>, nodes: set<Id>)
    requires Distinct(order) && forall i :: 0 <= i < |order| ==> order[i] in nodes
    ensures |order| <= |nodes|
  {
    if |order| > 0 {
      var n := |order| - 1;
      DistinctBound(order[..n], nodes - {order[n]});
    }
  }

  // ----- Orientation

  /** `y` is one step further from the root than its neighbour `x`. */
  predicate Upward(adj: Adjacency, dist: map<Id, nat>, x: Id, y: Id) {
    y in adj(x) && x in dist && y in dist && dist[y] == dist[x] + 1
  }

  /** Where index `i` of an edge list of length `n` is stored. */
  function Slot(n: nat, i: nat): nat
    requires i < n
  {
    if i < 2 then i else n + 1 - i
  }

  class DriverMap {
    const undirected: DriveBitGraph
    const oriented: DriveBitGraph
    // the representative of a bit in the union-find, and whether it drives or has a directed driver
    const find: Id -> Id
    const drives: Id -> bool
    ghost const nodes: set<Id>
    // the bits whose orientation has been resolved
    var orientedPresent: set<Id>

    ghost predicate Valid()
      reads this, undirected, oriented
    {
      && undirected != oriented && undirected.Valid() && oriented.Valid()
      && forall u, y :: u in nodes && y in Adj()(u) ==> y in nodes
    }

    /** The neighbours of a representative, as representatives. */
    ghost function Adj(): Adjacency
      reads undirected
    {
      var first, second, more := undirected.firstEdges, undirected.secondEdges, undirected.moreEdges;
      u => MapIds(find, ListOf(first, second, more, u))
    }

    constructor (undirected: DriveBitGraph, oriented: DriveBitGraph, find: Id -> Id, drives: Id -> bool,
                 ghost nodes: set<Id>)
      requires undirected != oriented && undirected.Valid() && oriented.Valid()
      requires forall u, x :: u in nodes && x in undirected.Edges(u) ==> find(x) in nodes
      ensures Valid() && this.undirected == undirected && this.oriented == oriented && this.find == find
              && this.drives == drives
      ensures this.nodes == nodes && orientedPresent == {}
    {
      orientedPresent := {};
      this.undirected, this.oriented, this.find, this.drives := undirected, oriented, find, drives;
      this.nodes := nodes;
      new;
      forall u, y | u in nodes && y in Adj()(u) ensures y in nodes {
        var k :| 0 <= k < |Adj()(u)| && Adj()(u)[k] == y;
        assert undirected.Edges(u)[k] in undirected.Edges(u);
      }
    }

    method Neighbour(current: Id, i: nat) returns (next: Id)
      requires Valid() && i < |undirected.Edges(current)|
      ensures |Adj()(current)| == |undirected.Edges(current)|
              && next == Adj()(current)[Slot(|undirected.Edges(current)|, i)]
    {
      var x := undirected.At(current, i);
      next := find(x);
    }

    /** One neighbour: an edge is oriented if it leads one step further away. */
    method OrientNext(next: Id, current: Id, dist: map<Id, nat>)
      requires Valid() && next in dist && current in dist
      modifies oriented
      ensures Valid() && Adj() == old(Adj())
      ensures Extends(old(oriented.Stored()), oriented.Stored(), current, next, dist[next] == dist[current] + 1)
    {
      ghost var e := oriented.Stored();
      if dist[next] == dist[current] + 1 {
        oriented.AddEdge(next, current);
        forall x, y ensures x in oriented.Stored()(y) <==> x in e(y) || (x == current && y == next) {
          assert oriented.Stored()(y) == oriented.Edges(y);
        }
      }
    }

    /** One neighbour of the entry at `pos`. */
    method ExpandOne(ghost root: Id, was: seq<Id>, had: map<Id, nat>, pos: nat, n: nat, i: nat, ghost e: Adjacency)
        returns (order: seq<Id>, dist: map<Id, nat>)
      requires Valid() && pos < |was| && Searching(Adj(), root, was, had, pos)
      requires |undirected.Edges(was[pos])| == |Adj()(was[pos])| == n && i < n
      requires ReachedUpTo(Adj(), had, was[pos], n, i)
      requires OrientsPart(e, oriented.Stored(), Adj(), had, was[pos], n, i)
      modifies oriented
      ensures Valid() && Adj() == old(Adj()) && was <= order && Keeps(had, dist)
      ensures Searching(Adj(), root, order, dist, pos) && ReachedUpTo(Adj(), dist, was[pos], n, i + 1)
      ensures OrientsPart(e, oriented.Stored(), Adj(), dist, was[pos], n, i + 1)
    {
      ghost var adj, e' := Adj(), oriented.Stored();
      var next := Neighbour(was[pos], i);
      EmplaceStep(adj, root, was, had, pos, next);
      order, dist := Pushed(was, had, next), Emplaced(was, had, pos, next);
      OrientNext(next, was[pos], dist);
      OrientsMore(e, e', oriented.Stored(), adj, had, dist, was[pos], n, i);
      ReachedMore(adj, had, dist, was[pos], n, i);
    }

    /** All neighbours of the entry at `pos` are emplaced, and the edges to those one step further are oriented. */
    method Expand(ghost root: Id, was: seq<Id>, had: map<Id, nat>, pos: nat)
        returns (order: seq<Id>, dist: map<Id, nat>)
      requires Valid() && Searching(Adj(), root, was, had, pos) && pos < |was|
      modifies oriented
      ensures Valid() && Adj() == old(Adj()) && was <= order && Keeps(had, dist)
      ensures Searching(Adj(), root, order, dist, pos + 1)
      ensures OrientsFrom(old(oriented.Stored()), oriented.Stored(), Adj(), dist, was[pos])
    {
      order, dist := was, had;
      var current := order[pos];
      ghost var adj, e := Adj(), oriented.Stored();
      var n := undirected.Count(current);
      assert |adj(current)| == n;
      for i := 0 to n
        invariant Valid() && Adj() == adj && was <= order && Keeps(had, dist)
        invariant Searching(adj, root, order, dist, pos)
        invariant ReachedUpTo(adj, dist, current, n, i)
        invariant OrientsPart(e, oriented.Stored(), adj, dist, current, n, i)
      {
        order, dist := ExpandOne(root, order, dist, pos, n, i, e);
      }
      MarkedAll(adj, dist, current, n);
      AdvanceStep(adj, root, order, dist, pos);
    }

    /** Breadth-first search from one driver: shortest distances, and every edge oriented towards the driver. */
    method Search(root: Id) returns (ghost dist: map<Id, nat>)
      requires Valid() && root in nodes
      modifies oriented
      ensures Valid() && Adj() == old(Adj()) && Distances(Adj(), root, dist)
      ensures Orients(old(oriented.Stored()), oriented.Stored(), Adj(), dist)
    {
      var order, d := [root], map[root := 0];
      ghost var adj, e := Adj(), oriented.Stored();
      var pos := 0;
      while pos < |order|
        invariant Valid() && Adj() == adj && pos <= |order| && Searching(adj, root, order, d, pos)
        invariant forall i :: 0 <= i < |order| ==> order[i] in nodes
        invariant OrientsSome(e, oriented.Stored(), adj, d, order[..pos])
        decreases |nodes| - pos
      {
        DistinctBound(order, nodes);
        ghost var was, had, e' := order, d, oriented.Stored();
        order, d := Expand(root, order, d, pos);
        StaysInside(adj, root, order, d, pos + 1, nodes);
        OrientsNext(e, e', oriented.Stored(), adj, had, d, was, order, pos);
        pos := pos + 1;
      }
      dist := d;
      forall x ensures (x in dist <==> Reachable(adj, root, x)) && (x in dist ==> IsDistance(adj, root, x, dist[x])) {
        SearchExact(adj, root, order, d, x);
      }
      assert order[..pos] == order;
    }

    /** Everything connected to `id`, and the bits among it that drive. */
    method Collect(id: Id) returns (seen: seq<Id>, drivers: set<Id>)
      requires Valid() && id in nodes
      ensures Distinct(seen) && (forall x :: x in seen <==> Reachable(Adj(), id, x))
              && (forall x :: x in seen ==> x in nodes)
      ensures forall x :: x in drivers <==> x in seen && drives(x)
    {
      seen, drivers := [id], {};
      var pos := 0;
      assert Walk(Adj(), id, id, 0);
      while pos < |seen|
        invariant pos <= |seen| && Visited(Adj(), id, nodes, seen, pos)
        invariant forall x :: x in drivers <==> x in seen[..pos] && drives(x)
        decreases |nodes| - pos
      {
        DistinctBound(seen, nodes);
        var current := seen[pos];
        if drives(current) {
          drivers := drivers + {current};
        }
        ghost var was := seen;
        seen := VisitAll(id, seen, pos);
        assert seen[..pos + 1] == was[..pos] + [current];
        pos := pos + 1;
      }
      assert seen[..pos] == seen;
      forall x ensures x in seen <==> Reachable(Adj(), id, x) {
        VisitedExact(Adj(), id, nodes, seen, x);
      }
    }

    method VisitAll(ghost id: Id, was: seq<Id>, pos: nat) returns (seen: seq<Id>)
      requires Valid() && Visited(Adj(), id, nodes, was, pos) && pos < |was|
      ensures was <= seen && Visited(Adj(), id, nodes, seen, pos + 1)
    {
      seen := was;
      var current := was[pos];
      ghost var adj := Adj();
      var n := undirected.Count(current);
      for i := 0 to n
        invariant was <= seen && Visited(adj, id, nodes, seen, pos)
        invariant SeenUpTo(adj, current, n, i, seen)
      {
        var next := Neighbour(current, i);
        VisitStep(adj, id, nodes, seen, pos, next);
        SeenMore(adj, current, n, i, seen, if next in seen then seen else seen + [next]);
        if next !in seen {
          seen := seen + [next];
        }
      }
      AllSlots(adj, current, n, seen);
    }

    /** Every edge of the component is oriented towards each driver that it is one step away from;
        without a driver every bit counts as one. */
    method OrientUndirected(id: Id) returns (ghost drivers: set<Id>)
      requires Valid() && id in nodes
      modifies oriented, `orientedPresent
      ensures forall x :: x in orientedPresent <==> x in old(orientedPresent) || Reachable(Adj(), id, x)
      ensures Valid() && Adj() == old(Adj()) && IsDrivers(Adj(), id, drives, drivers)
      ensures OrientsTo(old(oriented.Stored()), oriented.Stored(), Adj(), drivers)
      ensures Oriented(Adj(), old(oriented.Stored()), old(orientedPresent)) ==>
              Oriented(Adj(), oriented.Stored(), orientedPresent)
      ensures Symmetric(Adj()) && Oriented(Adj(), old(oriented.Stored()), old(orientedPresent))
              && id !in old(orientedPresent) ==>
                Resolved(Adj(), id, drivers, oriented.Stored())
    {
      ghost var e, present := oriented.Stored(), orientedPresent;
      var seen, ds := Collect(id);
      if ds == {} {
        ds := set x | x in seen;
      }
      drivers := ds;
      NoDrivers(Adj(), id, drives, seen, drivers);
      OrientAll(ds);
      orientedPresent := orientedPresent + set x | x in seen;
      StaysOriented(Adj(), id, drives, drivers, e, oriented.Stored(), present, orientedPresent);
      BecomesResolved(Adj(), id, drives, drivers, e, oriented.Stored(), present);
    }

    method OrientAll(ds: set<Id>)
      requires Valid() && ds <= nodes
      modifies oriented
      ensures Valid() && Adj() == old(Adj()) && OrientsTo(old(oriented.Stored()), oriented.Stored(), Adj(), ds)
    {
      ghost var adj, e := Adj(), oriented.Stored();
      var left := ds;
      ghost var done: set<Id> := {};
      while left != {}
        invariant Valid() && Adj() == adj && left <= nodes && done + left == ds
        invariant OrientsTo(e, oriented.Stored(), adj, done)
        decreases |left|
      {
        ghost var some := AnElement(left);
        var driver :| driver in left;
        OrientMore(driver, e, done);
        left, done := left - {driver}, done + {driver};
      }
    }

    method OrientMore(driver: Id, ghost e: Adjacency, ghost done: set<Id>)
      requires Valid() && driver in nodes && OrientsTo(e, oriented.Stored(), Adj(), done)
      modifies oriented
      ensures Valid() && Adj() == old(Adj()) && OrientsTo(e, oriented.Stored(), Adj(), done + {driver})
    {
      ghost var adj, e' := Adj(), oriented.Stored();
      ghost var dist := Search(driver);
      OrientsOneMore(e, e', oriented.Stored(), adj, dist, done, driver);
    }
  }

  // ----- The component

  ghost predicate Visited(adj: Adjacency, id: Id, nodes: set<Id>, seen: seq<Id>, pos: nat) {
    && Distinct(seen) && id in seen && pos <= |seen|
    && (forall i :: 0 <= i < |seen| ==> seen[i] in nodes && Reachable(adj, id, seen[i]))
    && (forall k, y :: 0 <= k < pos && y in adj(seen[k]) ==> y in seen)
  }

  lemma {:induction false} VisitStep(adj: Adjacency, id: Id, nodes: set<Id>, seen: seq<Id>, pos: nat, next: Id)
    requires Visited(adj, id, nodes, seen, pos) && pos < |seen| && next in adj(seen[pos])
    requires forall u, y :: u in nodes && y in adj(u) ==> y in nodes
    ensures Visited(adj, id, nodes, if next in seen then seen else seen + [next], pos)
  {
    if next !in seen {
      assert Reachable(adj, id, seen[pos]);
      var n: nat :| Walk(adj, id, seen[pos], n);
      WalkStep(adj, id, seen[pos], next, n);
    }
  }

  predicate SeenUpTo(adj: Adjacency, x: Id, n: nat, i: nat, seen: seq<Id>)
    requires |adj(x)| == n && i <= n
  {
    forall j :: 0 <= j < i ==> adj(x)[Slot(n, j)] in seen
  }

  lemma {:induction false} SeenMore(adj: Adjacency, x: Id, n: nat, i: nat, seen: seq<Id>, more: seq<Id>)
    requires |adj(x)| == n && i < n && SeenUpTo(adj, x, n, i, seen) && seen <= more && adj(x)[Slot(n, i)] in more
    ensures SeenUpTo(adj, x, n, i + 1, more)
  {
    forall j | 0 <= j < i + 1 ensures adj(x)[Slot(n, j)] in more {
      if j < i {
        var k :| 0 <= k < |seen| && seen[k] == adj(x)[Slot(n, j)];
        assert more[k] == seen[k];
      }
    }
  }

  lemma {:induction false} AllSlots(adj: Adjacency, x: Id, n: nat, seen: seq<Id>)
    requires |adj(x)| == n && SeenUpTo(adj, x, n, n, seen)
    ensures forall y :: y in adj(x) ==> y in seen
  {
    forall y | y in adj(x) ensures y in seen {
      var k :| 0 <= k < n && adj(x)[k] == y;
      var j := if k < 2 then k else n + 1 - k;
      assert adj(x)[Slot(n, j)] in seen;
    }
  }

  lemma {:induction false} VisitedWalk(adj: Adjacency, id: Id, nodes: set<Id>, seen: seq<Id>, x: Id, n: nat)
    requires Visited(adj, id, nodes, seen, |seen|) && Walk(adj, id, x, n)
    ensures x in seen
    decreases n
  {
    if n > 0 {
      var w :| Walk(adj, id, w, n - 1) && x in adj(w);
      VisitedWalk(adj, id, nodes, seen, w, n - 1);
      var k :| 0 <= k < |seen| && seen[k] == w;
    }
  }

  lemma {:induction false} VisitedExact(adj: Adjacency, id: Id, nodes: set<Id>, seen: seq<Id>, x: Id)
    requires Visited(adj, id, nodes, seen, |seen|)
    ensures x in seen <==> Reachable(adj, id, x)
  {
    if Reachable(adj, id, x) {
      var n: nat :| Walk(adj, id, x, n);
      VisitedWalk(adj, id, nodes, seen, x, n);
    }
  }

  /** The bits of the component that drive, or all of it when none does. */
  ghost predicate IsDrivers(adj: Adjacency, id: Id, drives: Id -> bool, drivers: set<Id>) {
    && (forall x :: x in drivers ==> Reachable(adj, id, x))
    && if exists x :: Reachable(adj, id, x) && drives(x)
       then forall x :: x in drivers <==> Reachable(adj, id, x) && drives(x)
       else forall x :: x in drivers <==> Reachable(adj, id, x)
  }

  lemma {:induction false} NoDrivers(adj: Adjacency, id: Id, drives: Id -> bool, seen: seq<Id>, drivers: set<Id>)
    requires forall x :: x in seen <==> Reachable(adj, id, x)
    requires (drivers != {} && forall x :: x in drivers <==> x in seen && drives(x)) ||
             ((forall x :: x in seen ==> !drives(x)) && forall x :: x in drivers <==> x in seen)
    ensures IsDrivers(adj, id, drives, drivers)
  {
    ghost var some := AnElement(drivers);
  }

  /** The neighbour `x` of `y` is one step closer to `root`. */
  ghost predicate Closer(adj: Adjacency, root: Id, x: Id, y: Id) {
    y in adj(x) && exists d: nat :: IsDistance(adj, root, x, d) && IsDistance(adj, root, y, d + 1)
  }

  ghost predicate SomeCloser(adj: Adjacency, drivers: set<Id>, x: Id, y: Id) {
    exists r :: r in drivers && Closer(adj, r, x, y)
  }

  /** Exactly the edges that lead closer to some driver are added. */
  ghost predicate OrientsTo(e: Adjacency, e': Adjacency, adj: Adjacency, drivers: set<Id>) {
    forall x, y {:trigger x in e'(y)} :: x in e'(y) <==> x in e(y) || SomeCloser(adj, drivers, x, y)
  }

  lemma {:induction false} UniqueDistance(adj: Adjacency, a: Id, b: Id, d: nat, d': nat)
    requires IsDistance(adj, a, b, d) && IsDistance(adj, a, b, d')
    ensures d == d'
  {
  }

  lemma {:induction false} UpwardIsCloser(adj: Adjacency, root: Id, dist: map<Id, nat>, x: Id, y: Id)
    requires Distances(adj, root, dist)
    ensures Upward(adj, dist, x, y) <==> Closer(adj, root, x, y)
  {
    if Upward(adj, dist, x, y) {
      assert IsDistance(adj, root, x, dist[x]) && IsDistance(adj, root, y, dist[x] + 1);
    }
    if Closer(adj, root, x, y) {
      var d: nat :| IsDistance(adj, root, x, d) && IsDistance(adj, root, y, d + 1);
      assert Reachable(adj, root, x) && Reachable(adj, root, y);
      assert x in dist && y in dist;
      UniqueDistance(adj, root, x, d, dist[x]);
      UniqueDistance(adj, root, y, d + 1, dist[y]);
    }
  }

  lemma {:induction false} OrientsOneMore(e: Adjacency, e': Adjacency, e'': Adjacency, adj: Adjacency,
                                          dist: map<Id, nat>,
                                          done: set<Id>, driver: Id)
    requires OrientsTo(e, e', adj, done) && Orients(e', e'', adj, dist) && Distances(adj, driver, dist)
    ensures OrientsTo(e, e'', adj, done + {driver})
  {
    forall x, y ensures x in e''(y) <==> x in e(y) || SomeCloser(adj, done + {driver}, x, y) {
      UpwardIsCloser(adj, driver, dist, x, y);
      assert x in e'(y) <==> x in e(y) || SomeCloser(adj, done, x, y);
      SomeCloserMore(adj, done, driver, x, y);
    }
  }

  lemma {:induction false} SomeCloserMore(adj: Adjacency, done: set<Id>, driver: Id, x: Id, y: Id)
    ensures SomeCloser(adj, done + {driver}, x, y) <==> SomeCloser(adj, done, x, y) || Closer(adj, driver, x, y)
  {
    if SomeCloser(adj, done, x, y) {
      var r :| r in done && Closer(adj, r, x, y);
      assert r in done + {driver};
    }
    assert driver in done + {driver};
  }

  /** The recorded distances are exactly the shortest ones. */
  ghost predicate Distances(adj: Adjacency, root: Id, dist: map<Id, nat>) {
    forall x {:trigger x in dist} :: (x in dist <==> Reachable(adj, root, x))
        && (x in dist ==> IsDistance(adj, root, x, dist[x]))
  }

  /** Exactly the edges that lead one step closer to the root are added. */
  ghost predicate Orients(e: Adjacency, e': Adjacency, adj: Adjacency, dist: map<Id, nat>) {
    forall x, y {:trigger x in e'(y)} :: x in e'(y) <==> x in e(y) || Upward(adj, dist, x, y)
  }

  ghost predicate OrientsSome(e: Adjacency, e': Adjacency, adj: Adjacency, dist: map<Id, nat>, done: seq<Id>) {
    forall x, y {:trigger x in e'(y)} :: x in e'(y) <==> x in e(y) || (x in done && Upward(adj, dist, x, y))
  }

  lemma {:induction false} WalkInside(adj: Adjacency, root: Id, x: Id, n: nat, nodes: set<Id>)
    requires root in nodes && (forall u, y :: u in nodes && y in adj(u) ==> y in nodes) && Walk(adj, root, x, n)
    ensures x in nodes
    decreases n
  {
    if n > 0 {
      var w :| Walk(adj, root, w, n - 1) && x in adj(w);
      WalkInside(adj, root, w, n - 1, nodes);
    }
  }

  lemma {:induction false} StaysInside(adj: Adjacency, root: Id, order: seq<Id>, dist: map<Id, nat>, pos: nat,
                                       nodes: set<Id>)
    requires root in nodes && (forall u, y :: u in nodes && y in adj(u) ==> y in nodes)
             && Searching(adj, root, order, dist, pos)
    ensures forall i :: 0 <= i < |order| ==> order[i] in nodes
  {
    forall i | 0 <= i < |order| ensures order[i] in nodes {
      WalkInside(adj, root, order[i], dist[order[i]], nodes);
    }
  }

  lemma {:induction false} OrientsNext(e: Adjacency, e': Adjacency, e'': Adjacency, adj: Adjacency, had: map<Id, nat>,
                                       dist: map<Id, nat>,
                                       was: seq<Id>, order: seq<Id>, pos: nat)
    requires pos < |was| && was <= order && Keeps(had, dist) && Queue(was, had) && Explored(adj, was, had, pos)
    requires OrientsSome(e, e', adj, had, was[..pos]) && OrientsFrom(e', e'', adj, dist, was[pos])
    ensures OrientsSome(e, e'', adj, dist, order[..pos + 1])
  {
    assert order[..pos + 1] == was[..pos] + [was[pos]];
    forall x, y ensures x in e''(y) <==> x in e(y) || (x in order[..pos + 1] && Upward(adj, dist, x, y)) {
      assert x in e'(y) <==> x in e(y) || (x in was[..pos] && Upward(adj, had, x, y));
      if x in was[..pos] {
        SameUpward(adj, had, dist, was, pos, x, y);
      }
    }
  }

  lemma {:induction false} SameUpward(adj: Adjacency, had: map<Id, nat>, dist: map<Id, nat>, was: seq<Id>, pos: nat,
                                      x: Id, y: Id)
    requires pos < |was| && Keeps(had, dist) && Explored(adj, was, had, pos) && x in was[..pos] && x in had
    ensures Upward(adj, had, x, y) == Upward(adj, dist, x, y)
  {
    var k :| 0 <= k < |was[..pos]| && was[..pos][k] == x;
    assert was[k] == x;
    assert y in adj(x) ==> Reached(had, was[k], y);
  }

  /** The edge from `next` to `current` is added, or nothing is. */
  ghost predicate Extends(e: Adjacency, e': Adjacency, current: Id, next: Id, add: bool) {
    forall x, y {:trigger x in e'(y)} :: x in e'(y) <==> x in e(y) || (add && x == current && y == next)
  }

  ghost predicate OrientsPart(e: Adjacency, e': Adjacency, adj: Adjacency, dist: map<Id, nat>, x0: Id, n: nat, i: nat)
    requires |adj(x0)| == n && i <= n
  {
    forall x, y {:trigger x in e'(y)} :: x in e'(y) <==> x in e(y) || (x == x0 && MarkedUpTo(adj, dist, x0, n, i, y))
  }

  /** Exactly the edges from `x0`'s neighbours one step further away to `x0` are added. */
  ghost predicate OrientsFrom(e: Adjacency, e': Adjacency, adj: Adjacency, dist: map<Id, nat>, x0: Id) {
    forall x, y {:trigger x in e'(y)} :: x in e'(y) <==> x in e(y) || (x == x0 && Upward(adj, dist, x0, y))
  }

  lemma {:induction false} OrientsMore(e: Adjacency, e': Adjacency, e'': Adjacency, adj: Adjacency, d: map<Id, nat>,
                                       dist: map<Id, nat>,
                                       x0: Id, n: nat, i: nat)
    requires |adj(x0)| == n && i < n && Keeps(d, dist) && x0 in d
    requires ReachedUpTo(adj, d, x0, n, i)
    requires OrientsPart(e, e', adj, d, x0, n, i) && adj(x0)[Slot(n, i)] in dist
    requires Extends(e', e'', x0, adj(x0)[Slot(n, i)], dist[adj(x0)[Slot(n, i)]] == dist[x0] + 1)
    ensures OrientsPart(e, e'', adj, dist, x0, n, i + 1)
  {
    forall x, y ensures x in e''(y) <==> x in e(y) || (x == x0 && MarkedUpTo(adj, dist, x0, n, i + 1, y)) {
      MarkOne(adj, d, dist, x0, n, i, y);
      assert x in e'(y) <==> x in e(y) || (x == x0 && MarkedUpTo(adj, d, x0, n, i, y));
    }
  }

  /** Entries stay and keep their distances. */
  predicate Keeps(had: map<Id, nat>, dist: map<Id, nat>) {
    forall x :: x in had ==> x in dist && dist[x] == had[x]
  }

  predicate ReachedUpTo(adj: Adjacency, dist: map<Id, nat>, x: Id, n: nat, i: nat)
    requires |adj(x)| == n && i <= n
  {
    forall j :: 0 <= j < i ==> Reached(dist, x, adj(x)[Slot(n, j)])
  }

  lemma {:induction false} ReachedMore(adj: Adjacency, d: map<Id, nat>, dist: map<Id, nat>, x: Id, n: nat, i: nat)
    requires |adj(x)| == n && i < n && Keeps(d, dist) && ReachedUpTo(adj, d, x, n, i)
             && Reached(dist, x, adj(x)[Slot(n, i)])
    ensures ReachedUpTo(adj, dist, x, n, i + 1)
  {
    forall j | 0 <= j < i + 1 ensures Reached(dist, x, adj(x)[Slot(n, j)]) {
      if j < i {
        assert Reached(d, x, adj(x)[Slot(n, j)]);
      }
    }
  }

  /** Among the first `i` neighbours, `y` is one step further away than `x`. */
  predicate MarkedUpTo(adj: Adjacency, dist: map<Id, nat>, x: Id, n: nat, i: nat, y: Id)
    requires |adj(x)| == n && i <= n
  {
    x in dist && y in dist && dist[y] == dist[x] + 1 && exists j :: 0 <= j < i && adj(x)[Slot(n, j)] == y
  }

  lemma {:induction false} MarkOne(adj: Adjacency, d: map<Id, nat>, dist: map<Id, nat>, x: Id, n: nat, i: nat, y: Id)
    requires |adj(x)| == n && i < n && Keeps(d, dist) && x in d
    requires ReachedUpTo(adj, d, x, n, i)
    ensures MarkedUpTo(adj, dist, x, n, i + 1, y) <==>
            MarkedUpTo(adj, d, x, n, i, y) || (y == adj(x)[Slot(n, i)] && y in dist && dist[y] == dist[x] + 1)
  {
    if MarkedUpTo(adj, dist, x, n, i + 1, y) {
      var j :| 0 <= j < i + 1 && adj(x)[Slot(n, j)] == y;
    }
    if MarkedUpTo(adj, d, x, n, i, y) {
      var j :| 0 <= j < i && adj(x)[Slot(n, j)] == y;
    }
  }

  /** Every neighbour is visited. */
  lemma {:induction false} MarkedAll(adj: Adjacency, dist: map<Id, nat>, x: Id, n: nat)
    requires |adj(x)| == n && x in dist && ReachedUpTo(adj, dist, x, n, n)
    ensures forall y :: y in adj(x) ==> Reached(dist, x, y)
    ensures forall y :: MarkedUpTo(adj, dist, x, n, n, y) <==> Upward(adj, dist, x, y)
  {
    forall y | y in adj(x) ensures Reached(dist, x, y) && exists j :: 0 <= j < n && adj(x)[Slot(n, j)] == y {
      var k :| 0 <= k < n && adj(x)[k] == y;
      var j := if k < 2 then k else n + 1 - k;
      assert adj(x)[Slot(n, j)] == y;
    }
  }

  function MapIds(find: Id -> Id, s: seq<Id>): seq<Id> {
    seq(|s|, i requires 0 <= i < |s| => find(s[i]))
  }

  // ----- One driver

  ghost predicate Symmetric(adj: Adjacency) {
    forall x, y :: y in adj(x) ==> x in adj(y)
  }

  lemma {:induction false} WalkPrepend(adj: Adjacency, a: Id, b: Id, c: Id, n: nat)
    requires b in adj(a) && Walk(adj, b, c, n)
    ensures Walk(adj, a, c, n + 1)
    decreases n
  {
    if n == 0 {
      assert Walk(adj, a, a, 0);
    } else {
      var w :| Walk(adj, b, w, n - 1) && c in adj(w);
      WalkPrepend(adj, a, b, w, n - 1);
    }
  }

  lemma {:induction false} WalkBack(adj: Adjacency, a: Id, b: Id, n: nat)
    requires Symmetric(adj) && Walk(adj, a, b, n)
    ensures Walk(adj, b, a, n)
    decreases n
  {
    if n > 0 {
      var w :| Walk(adj, a, w, n - 1) && b in adj(w);
      WalkBack(adj, a, w, n - 1);
      WalkPrepend(adj, b, w, a, n - 1);
    }
  }

  lemma {:induction false} WalkJoin(adj: Adjacency, a: Id, b: Id, c: Id, m: nat, n: nat)
    requires Walk(adj, a, b, m) && Walk(adj, b, c, n)
    ensures Walk(adj, a, c, m + n)
    decreases n
  {
    if n > 0 {
      var w :| Walk(adj, b, w, n - 1) && c in adj(w);
      WalkJoin(adj, a, b, w, m, n - 1);
    }
  }

  lemma {:induction false} LeastWalk(adj: Adjacency, a: Id, b: Id, n: nat) returns (d: nat)
    requires Walk(adj, a, b, n)
    ensures IsDistance(adj, a, b, d)
  {
    d := 0;
    while !Walk(adj, a, b, d)
      invariant d <= n && forall m: nat :: m < d ==> !Walk(adj, a, b, m)
      decreases n - d
    {
      d := d + 1;
    }
  }

  /** A connection is oriented in one direction at most. */
  lemma {:induction false} OneDirection(adj: Adjacency, r: Id, x: Id, y: Id)
    requires Closer(adj, r, x, y)
    ensures !Closer(adj, r, y, x)
  {
    var d: nat :| IsDistance(adj, r, x, d) && IsDistance(adj, r, y, d + 1);
    forall d': nat ensures !(IsDistance(adj, r, y, d') && IsDistance(adj, r, x, d' + 1)) {
      if IsDistance(adj, r, y, d') {
        UniqueDistance(adj, r, y, d + 1, d');
        assert Walk(adj, r, x, d);
      }
    }
  }

  /** Every bit but the driver has a neighbour one step closer. */
  lemma {:induction false} StepCloser(adj: Adjacency, r: Id, u: Id, d: nat) returns (w: Id)
    requires d > 0 && IsDistance(adj, r, u, d)
    ensures IsDistance(adj, r, w, d - 1) && Closer(adj, r, w, u)
  {
    w :| Walk(adj, r, w, d - 1) && u in adj(w);
    forall n: nat | n < d - 1 ensures !Walk(adj, r, w, n) {
      if Walk(adj, r, w, n) {
        WalkStep(adj, r, w, u, n);
      }
    }
    var d' := d - 1;
    assert IsDistance(adj, r, w, d') && IsDistance(adj, r, u, d' + 1);
  }

  /** Oriented edges lead to the driver in as many steps as its distance. */
  lemma {:induction false} LeadsToDriver(adj: Adjacency, r: Id, e: Adjacency, u: Id, d: nat)
    requires IsDistance(adj, r, u, d) && forall x, y :: Closer(adj, r, x, y) ==> x in e(y)
    ensures Walk(e, u, r, d)
    decreases d
  {
    if d > 0 {
      var w := StepCloser(adj, r, u, d);
      LeadsToDriver(adj, r, e, w, d - 1);
      WalkPrepend(e, u, w, r, d - 1);
    }
  }

  /** The oriented edges lead from `u` to the driver `r` with falling distance, and none of them is also
      oriented back. */
  ghost predicate Leads(adj: Adjacency, r: Id, e: Adjacency, u: Id, d: nat) {
    && IsDistance(adj, r, u, d) && Walk(e, u, r, d)
    && forall v :: v in e(u) ==> d > 0 && IsDistance(adj, r, v, d - 1) && v in adj(u) && u !in e(v)
  }

  /** With a single driver every bit of the component is led to it. */
  ghost predicate Resolved(adj: Adjacency, id: Id, drivers: set<Id>, e: Adjacency) {
    forall r, u :: drivers == {r} && Reachable(adj, id, u) ==> exists d: nat :: Leads(adj, r, e, u, d)
  }

  /** Oriented edges are stored only in components that were oriented as a whole. */
  ghost predicate Oriented(adj: Adjacency, e: Adjacency, present: set<Id>) {
    && (forall x :: e(x) != [] ==> x in present)
    && (forall x, y :: x in present && y in adj(x) ==> y in present)
  }

  lemma {:induction false} PresentWalk(adj: Adjacency, e: Adjacency, present: set<Id>, x: Id, y: Id, n: nat)
    requires Oriented(adj, e, present) && x in present && Walk(adj, x, y, n)
    ensures y in present
    decreases n
  {
    if n > 0 {
      var w :| Walk(adj, x, w, n - 1) && y in adj(w);
      PresentWalk(adj, e, present, x, w, n - 1);
    }
  }

  /** A component without a present bit has no oriented edges yet. */
  lemma {:induction false} NotYetOriented(adj: Adjacency, e: Adjacency, present: set<Id>, id: Id, x: Id)
    requires Symmetric(adj) && Oriented(adj, e, present) && id !in present && Reachable(adj, id, x)
    ensures e(x) == []
  {
    var n: nat :| Walk(adj, id, x, n);
    WalkBack(adj, id, x, n);
    if x in present {
      PresentWalk(adj, e, present, x, id, n);
      assert false;
    }
  }

  lemma {:induction false} BecomesResolved(adj: Adjacency, id: Id, drives: Id -> bool, drivers: set<Id>, e: Adjacency,
                                           e': Adjacency,
                                           present: set<Id>)
    requires IsDrivers(adj, id, drives, drivers) && OrientsTo(e, e', adj, drivers)
    ensures Symmetric(adj) && Oriented(adj, e, present) && id !in present ==> Resolved(adj, id, drivers, e')
  {
    if Symmetric(adj) && Oriented(adj, e, present) && id !in present {
      forall x | Reachable(adj, id, x) ensures e(x) == [] {
        NotYetOriented(adj, e, present, id, x);
      }
      forall r, u | drivers == {r} && Reachable(adj, id, u) ensures exists d: nat :: Leads(adj, r, e', u, d) {
        var d := SingleDriver(adj, id, drives, r, e, e', u);
      }
    }
  }

  lemma {:induction false} StaysOriented(adj: Adjacency, id: Id, drives: Id -> bool, drivers: set<Id>, e: Adjacency,
                                         e': Adjacency,
                                         present: set<Id>, present': set<Id>)
    requires IsDrivers(adj, id, drives, drivers) && OrientsTo(e, e', adj, drivers)
    requires forall x :: x in present' <==> x in present || Reachable(adj, id, x)
    ensures Oriented(adj, e, present) ==> Oriented(adj, e', present')
  {
    if Oriented(adj, e, present) {
      forall y | e'(y) != [] ensures y in present' {
        NewEdgeReached(adj, id, drives, drivers, e, e', y);
      }
      forall x, y | x in present' && y in adj(x) ensures y in present' {
        if x !in present {
          var n: nat :| Walk(adj, id, x, n);
          WalkStep(adj, id, x, y, n);
        }
      }
    }
  }

  lemma {:induction false} NewEdgeReached(adj: Adjacency, id: Id, drives: Id -> bool, drivers: set<Id>, e: Adjacency,
                                          e': Adjacency, y: Id)
    requires IsDrivers(adj, id, drives, drivers) && OrientsTo(e, e', adj, drivers) && e'(y) != []
    ensures e(y) != [] || Reachable(adj, id, y)
  {
    var x := e'(y)[0];
    assert x in e'(y);
    if x !in e(y) {
      assert SomeCloser(adj, drivers, x, y);
      var r :| r in drivers && Closer(adj, r, x, y);
      var d: nat :| IsDistance(adj, r, x, d) && IsDistance(adj, r, y, d + 1);
      var n: nat :| Walk(adj, id, r, n);
      WalkJoin(adj, id, r, y, n, d + 1);
    }
  }

  /** In a component with one driver, from every bit the oriented edges lead to the driver with falling
      distance, and no connection is oriented both ways. */
  lemma {:induction false} SingleDriver(adj: Adjacency, id: Id, drives: Id -> bool, r: Id, e: Adjacency, e': Adjacency,
                                        u: Id)
      returns (d: nat)
    requires Symmetric(adj) && IsDrivers(adj, id, drives, {r}) && OrientsTo(e, e', adj, {r})
    requires Reachable(adj, id, u) && forall x :: Reachable(adj, id, x) ==> e(x) == []
    ensures Leads(adj, r, e', u, d)
  {
    d := DriverDistance(adj, id, r, u);
    forall x, y | Closer(adj, r, x, y) ensures x in e'(y) {
      assert SomeCloser(adj, {r}, x, y);
    }
    LeadsToDriver(adj, r, e', u, d);
    forall v | v in e'(u) ensures d > 0 && IsDistance(adj, r, v, d - 1) && v in adj(u) && u !in e'(v) {
      OrientedEdge(adj, id, r, e, e', u, v, d);
    }
  }

  lemma {:induction false} DriverDistance(adj: Adjacency, id: Id, r: Id, u: Id) returns (d: nat)
    requires Symmetric(adj) && Reachable(adj, id, r) && Reachable(adj, id, u)
    ensures IsDistance(adj, r, u, d)
  {
    var m: nat :| Walk(adj, id, r, m);
    var n: nat :| Walk(adj, id, u, n);
    WalkBack(adj, id, r, m);
    WalkJoin(adj, r, id, u, m, n);
    d := LeastWalk(adj, r, u, m + n);
  }

  lemma {:induction false} OrientedEdge(adj: Adjacency, id: Id, r: Id, e: Adjacency, e': Adjacency, u: Id, v: Id,
                                        d: nat)
    requires Symmetric(adj) && OrientsTo(e, e', adj, {r}) && Reachable(adj, id, u) && IsDistance(adj, r, u, d)
             && v in e'(u)
    requires forall x :: Reachable(adj, id, x) ==> e(x) == []
    ensures d > 0 && IsDistance(adj, r, v, d - 1) && v in adj(u) && u !in e'(v)
  {
    assert e(u) == [] && SomeCloser(adj, {r}, v, u);
    CloserStep(adj, r, v, u, d);
    var n: nat :| Walk(adj, id, u, n);
    WalkStep(adj, id, u, v, n);
    assert Reachable(adj, id, v) && e(v) == [];
    NotBack(adj, r, e, e', v, u);
  }

  lemma {:induction false} CloserStep(adj: Adjacency, r: Id, v: Id, u: Id, d: nat)
    requires Symmetric(adj) && Closer(adj, r, v, u) && IsDistance(adj, r, u, d)
    ensures d > 0 && IsDistance(adj, r, v, d - 1) && v in adj(u)
  {
    var d': nat :| IsDistance(adj, r, v, d') && IsDistance(adj, r, u, d' + 1);
    UniqueDistance(adj, r, u, d, d' + 1);
  }

  lemma {:induction false} NotBack(adj: Adjacency, r: Id, e: Adjacency, e': Adjacency, v: Id, u: Id)
    requires OrientsTo(e, e', adj, {r}) && Closer(adj, r, v, u) && e(v) == []
    ensures u !in e'(v)
  {
    OneDirection(adj, r, v, u);
    assert !SomeCloser(adj, {r}, u, v);
  }
}
