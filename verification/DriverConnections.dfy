/** How connections enter a driver map (`kernel/drivertools.cc`): undirected connections and merged bits. */
module DriverConnections {
  import opened DriverTools

  /** The representative of a bit after the bits that `driven` stands for joined `driver`. */
  function Merged(find: Id -> Id, driven: Id, driver: Id): Id -> Id {
    x => Renamed(driven, driver, find(x))
  }

  function Renamed(driven: Id, driver: Id, x: Id): Id {
    if x == driven then driver else x
  }

  /** Representatives stand for themselves, and only they have edges. */
  ghost predicate Representative(find: Id -> Id, e: Adjacency) {
    (forall x :: find(find(x)) == find(x)) && (forall u :: find(u) != u ==> e(u) == [])
  }

  /** The neighbours of a representative, as representatives. */
  function Neighbours(find: Id -> Id, e: Adjacency): Adjacency {
    u => MapIds(find, e(u))
  }

  lemma {:induction false} NeighbourOf(find: Id -> Id, e: Adjacency, x: Id, y: Id)
    ensures y in Neighbours(find, e)(x) <==> exists z :: z in e(x) && find(z) == y
  {
    var s := e(x);
    var t := MapIds(find, s);
    assert Neighbours(find, e)(x) == t;
    if y in t {
      var k :| 0 <= k < |t| && t[k] == y;
      var z := s[k];
      assert z in s && find(z) == y;
    }
    if z :| z in s && find(z) == y {
      var k :| 0 <= k < |s| && s[k] == z;
      assert t[k] == y;
    }
  }

  // ----- connect_undirected

  /** `a` and `b` become neighbours of each other, and nothing else changes. */
  ghost predicate Joined(e: Adjacency, e': Adjacency, a: Id, b: Id) {
    forall x, z {:trigger z in e'(x)} :: z in e'(x) <==> z in e(x) || (x == a && z == b) || (x == b && z == a)
  }

  lemma {:induction false} JoinedNeighbours(find: Id -> Id, e: Adjacency, e': Adjacency, a: Id, b: Id, x: Id, y: Id)
    requires find(a) == a && find(b) == b && Joined(e, e', a, b)
    ensures y in Neighbours(find, e')(x) <==> y in Neighbours(find, e)(x) || (x == a && y == b) || (x == b && y == a)
  {
    NeighbourOf(find, e, x, y);
    NeighbourOf(find, e', x, y);
    assert x == a && y == b ==> b in e'(a);
    assert x == b && y == a ==> a in e'(b);
  }

  lemma {:induction false} JoinedGraph(find: Id -> Id, e: Adjacency, e': Adjacency, a: Id, b: Id)
    requires Representative(find, e) && Symmetric(Neighbours(find, e)) && find(a) == a && find(b) == b
             && Joined(e, e', a, b)
    ensures Joined(Neighbours(find, e), Neighbours(find, e'), a, b)
    ensures Symmetric(Neighbours(find, e')) && Representative(find, e')
  {
    forall x, y ensures y in Neighbours(find, e')(x) <==>
        y in Neighbours(find, e)(x) || (x == a && y == b) || (x == b && y == a) {
      JoinedNeighbours(find, e, e', a, b, x, y);
    }
    forall u | e'(u) != [] ensures find(u) == u {
      var z := e'(u)[0];
      assert z in e'(u);
    }
  }

  // ----- connect_directed_merge

  /** The edges of `driven` have moved to `driver`. */
  ghost predicate Moved(e: Adjacency, e': Adjacency, driven: Id, driver: Id) {
    forall x, z {:trigger z in e'(x)} :: z in e'(x) <==> x != driven && (z in e(x) || (x == driver && z in e(driven)))
  }

  /** The merged graph is the old one with `driven` renamed to `driver`. */
  lemma {:induction false} MovedNeighbours(find: Id -> Id, e: Adjacency, e': Adjacency, driven: Id, driver: Id, x: Id,
                                           y: Id)
    requires driven != driver && Moved(e, e', driven, driver)
    ensures y in Neighbours(Merged(find, driven, driver), e')(x) <==>
            exists u, v :: v in Neighbours(find, e)(u) && Renamed(driven, driver, u) == x
                && Renamed(driven, driver, v) == y
  {
    var find' := Merged(find, driven, driver);
    NeighbourOf(find', e', x, y);
    if z :| z in e'(x) && find'(z) == y {
      var u := if z in e(x) then x else driven;
      NeighbourOf(find, e, u, find(z));
      assert find(z) in Neighbours(find, e)(u) && Renamed(driven, driver, u) == x;
    }
    forall u, v | v in Neighbours(find, e)(u) && Renamed(driven, driver, u) == x && Renamed(driven, driver, v) == y
      ensures y in Neighbours(find', e')(x)
    {
      NeighbourOf(find, e, u, v);
      var z :| z in e(u) && find(z) == v;
      assert z in e'(x);
    }
  }

  ghost predicate IsRenaming(adj: Adjacency, adj': Adjacency, driven: Id, driver: Id) {
    forall x, y {:trigger y in adj'(x)} ::
      y in adj'(x) <==> exists u, v :: v in adj(u) && Renamed(driven, driver, u) == x && Renamed(driven, driver, v) == y
  }

  lemma {:induction false} MovedRenames(find: Id -> Id, e: Adjacency, e': Adjacency, driven: Id, driver: Id)
    requires driven != driver && Moved(e, e', driven, driver)
    ensures IsRenaming(Neighbours(find, e), Neighbours(Merged(find, driven, driver), e'), driven, driver)
  {
    forall x, y ensures y in Neighbours(Merged(find, driven, driver), e')(x) <==>
              exists u, v :: v in Neighbours(find, e)(u) && Renamed(driven, driver, u) == x
                  && Renamed(driven, driver, v) == y {
      MovedNeighbours(find, e, e', driven, driver, x, y);
    }
  }

  lemma {:induction false} SelfRenaming(adj: Adjacency, d: Id)
    ensures IsRenaming(adj, adj, d, d)
  {
    forall x, y ensures y in adj(x) <==> exists u, v :: v in adj(u) && Renamed(d, d, u) == x && Renamed(d, d, v) == y {
      if y in adj(x) {
        assert Renamed(d, d, x) == x && Renamed(d, d, y) == y;
      }
    }
  }

  lemma {:induction false} MergedRepresentative(find: Id -> Id, e: Adjacency, e': Adjacency, driven: Id, driver: Id)
    requires Representative(find, e) && find(driven) == driven && find(driver) == driver && driven != driver
             && Moved(e, e', driven, driver)
    ensures Representative(Merged(find, driven, driver), e')
  {
    var find' := Merged(find, driven, driver);
    forall u | e'(u) != [] ensures find'(u) == u {
      var z := e'(u)[0];
      assert z in e'(u);
    }
  }

  lemma {:induction false} RenamingSymmetric(adj: Adjacency, adj': Adjacency, driven: Id, driver: Id)
    requires Symmetric(adj) && IsRenaming(adj, adj', driven, driver)
    ensures Symmetric(adj')
  {
    forall x, y | y in adj'(x) ensures x in adj'(y) {
      var u, v :| v in adj(u) && Renamed(driven, driver, u) == x && Renamed(driven, driver, v) == y;
      assert u in adj(v);
    }
  }

  /** The state in which connections are added. `find` is the lookup of `same_driver`. */
  class Connections {
    const drivers: DriveBitGraph
    const undirected: DriveBitGraph
    var find: Id -> Id

    ghost function Adj(): Adjacency
      reads this, undirected
    {
      Neighbours(find, undirected.Stored())
    }

    ghost predicate Valid()
      reads this, drivers, undirected
    {
      && drivers != undirected && drivers.Valid() && undirected.Valid()
      && Representative(find, undirected.Stored()) && Representative(find, drivers.Stored())
      && Symmetric(Adj())
    }

    constructor ()
      ensures Valid() && (forall x :: find(x) == x && Adj()(x) == [])
      ensures fresh(drivers) && fresh(undirected)
    {
      drivers := new DriveBitGraph();
      undirected := new DriveBitGraph();
      find := x => x;
    }

    /** The two bits become neighbours of each other, and nothing else changes. */
    method ConnectUndirected(a: Id, b: Id)
      requires Valid() && find(a) == a && find(b) == b
      modifies undirected
      ensures Valid()
      ensures Joined(old(Adj()), Adj(), a, b)
    {
      ghost var e := undirected.Stored();
      undirected.AddEdge(a, b);
      undirected.AddEdge(b, a);
      ghost var e' := undirected.Stored();
      JoinedGraph(find, e, e', a, b);
    }

    /** `driven` is merged into `driver`: every connection it had is now one of `driver`. */
    method ConnectDirectedMerge(driven: Id, driver: Id)
      requires Valid() && find(driven) == driven && find(driver) == driver
      modifies this, drivers, undirected
      ensures Valid()
      ensures forall x :: find(x) == Renamed(driven, driver, old(find)(x))
      ensures IsRenaming(old(Adj()), Adj(), driven, driver)
      ensures driven != driver ==> Moved(old(drivers.Stored()), drivers.Stored(), driven, driver)
    {
      ghost var e, adj, f := undirected.Stored(), Adj(), find;
      if driven == driver {
        SelfRenaming(adj, driven);
        return;
      }
      ghost var d := drivers.Stored();
      find := Merged(find, driven, driver);
      MoveEdges(drivers, driven, driver);
      MoveEdges(undirected, driven, driver);
      MergedRepresentative(f, d, drivers.Stored(), driven, driver);
      MergedRepresentative(f, e, undirected.Stored(), driven, driver);
      MovedRenames(f, e, undirected.Stored(), driven, driver);
      RenamingSymmetric(adj, Adj(), driven, driver);
    }
  }

  /** The map in which nets are then oriented: its neighbour relation is symmetric, and nothing is oriented yet. */
  method Resolve(c: Connections, drives: Id -> bool, ghost nodes: set<Id>) returns (m: DriverMap)
    requires c.Valid() && forall u, x :: u in nodes && x in c.undirected.Edges(u) ==> c.find(x) in nodes
    ensures m.Valid() && m.undirected == c.undirected && m.find == c.find && m.drives == drives && m.nodes == nodes
    ensures Symmetric(m.Adj()) && m.orientedPresent == {} && Oriented(m.Adj(), m.oriented.Stored(), m.orientedPresent)
  {
    var oriented := new DriveBitGraph();
    m := new DriverMap(c.undirected, oriented, c.find, drives, nodes);
    forall x ensures m.Adj()(x) == c.Adj()(x) {
      assert c.undirected.Stored()(x) == c.undirected.Edges(x);
    }
  }

  method MoveEdges(g: DriveBitGraph, driven: Id, driver: Id)
    requires g.Valid() && driven != driver
    modifies g
    ensures g.Valid() && Moved(old(g.Stored()), g.Stored(), driven, driver)
    ensures forall x :: x != driven && x != driver ==> g.Edges(x) == old(g.Edges(x))
    ensures g.Edges(driven) == []
  {
    var end := g.Count(driven);
    ghost var e := g.Stored();
    for i := 0 to end
      invariant g.Valid() && end == |e(driven)| && forall x :: x != driver ==> g.Edges(x) == e(x)
      invariant Copied(e(driver), e(driven), i, g.Edges(driver))
    {
      var z := g.At(driven, i);
      CopyOne(e(driver), e(driven), i, g.Edges(driver), z);
      g.AddEdge(driver, z);
    }
    assert Copied(e(driver), e(driven), end, g.Edges(driver));
    AllCopied(e(driver), e(driven), g.Edges(driver));
    g.Clear(driven);
  }

  /** `now` holds `before` and the first `i` entries of `s`, in the order in which they are read. */
  ghost predicate Copied(before: seq<Id>, s: seq<Id>, i: nat, now: seq<Id>)
    requires i <= |s|
  {
    forall z :: z in now <==> z in before || exists k :: 0 <= k < i && s[Slot(|s|, k)] == z
  }

  lemma {:induction false} CopyOne(before: seq<Id>, s: seq<Id>, i: nat, now: seq<Id>, z: Id)
    requires i < |s| && Copied(before, s, i, now) && z == s[Slot(|s|, i)]
    ensures Copied(before, s, i + 1, if z in now then now else now + [z])
  {
    var now' := if z in now then now else now + [z];
    forall x ensures x in now' <==> x in before || exists k :: 0 <= k < i + 1 && s[Slot(|s|, k)] == x {
      assert x in now' <==> x in now || x == z;
      if x in now && x !in before {
        var k :| 0 <= k < i && s[Slot(|s|, k)] == x;
      }
    }
  }

  lemma {:induction false} AllCopied(before: seq<Id>, s: seq<Id>, now: seq<Id>)
    requires Copied(before, s, |s|, now)
    ensures forall z :: z in now <==> z in before || z in s
  {
    forall k | 0 <= k < |s| ensures s[k] in now {
      var j := Slot(|s|, k);
      assert Slot(|s|, j) == k;
      assert exists i :: 0 <= i < |s| && s[Slot(|s|, i)] == s[k];
    }
  }
}
