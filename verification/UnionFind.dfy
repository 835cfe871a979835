/** The union-find structure `mfp` of `kernel/hashlib.h`: merge, find with path compression,
    and promotion of any element to representative of its set. */
module UnionFind {

  // ----- What merging means

  /** Consecutive elements of a path are merged pairs, in either order. */
  predicate Joined(merges: seq<(int, int)>, x: int, y: int) {
    (x, y) in merges || (y, x) in merges
  }

  predicate IsPath(merges: seq<(int, int)>, p: seq<int>) {
    |p| > 0 && forall k :: 0 <= k < |p| - 1 ==> Joined(merges, p[k], p[k + 1])
  }

  predicate PathBetween(merges: seq<(int, int)>, p: seq<int>, x: int, y: int) {
    IsPath(merges, p) && p[0] == x && p[|p| - 1] == y
  }

  ghost predicate Connected(merges: seq<(int, int)>, x: int, y: int) {
    exists p :: PathBetween(merges, p, x, y)
  }

  lemma {:induction false} ConnectedRefl(merges: seq<(int, int)>, x: int)
    ensures Connected(merges, x, x)
  {
    assert PathBetween(merges, [x], x, x);
  }

  lemma {:induction false} ReversePath(merges: seq<(int, int)>, p: seq<int>, x: int, y: int) returns (q: seq<int>)
    requires PathBetween(merges, p, x, y)
    ensures PathBetween(merges, q, y, x)
  {
    q := seq(|p|, k requires 0 <= k < |p| => p[|p| - 1 - k]);
    forall k | 0 <= k < |q| - 1
      ensures Joined(merges, q[k], q[k + 1])
    {
      assert Joined(merges, p[|p| - 2 - k], p[|p| - 2 - k + 1]);
    }
  }

  lemma {:induction false} ConnectedSym(merges: seq<(int, int)>, x: int, y: int)
    requires Connected(merges, x, y)
    ensures Connected(merges, y, x)
  {
    var p :| PathBetween(merges, p, x, y);
    var q := ReversePath(merges, p, x, y);
  }

  lemma {:induction false} ConnectedTrans(merges: seq<(int, int)>, x: int, y: int, z: int)
    requires Connected(merges, x, y) && Connected(merges, y, z)
    ensures Connected(merges, x, z)
  {
    var p :| PathBetween(merges, p, x, y);
    var q :| PathBetween(merges, q, y, z);
    var r := p + q[1..];
    forall k | 0 <= k < |r| - 1
      ensures Joined(merges, r[k], r[k + 1])
    {
      if k >= |p| - 1 {
        assert r[k] == q[k - (|p| - 1)];
        assert Joined(merges, q[k - (|p| - 1)], q[k - (|p| - 1) + 1]);
      }
    }
    assert PathBetween(merges, r, x, z);
  }

  /** The classes of the merges are equivalence classes. */
  lemma {:induction false} ConnectedEquivalence(merges: seq<(int, int)>, x: int, y: int, z: int)
    ensures Connected(merges, x, x)
    ensures Connected(merges, x, y) <==> Connected(merges, y, x)
    ensures Connected(merges, x, y) && Connected(merges, y, z) ==> Connected(merges, x, z)
  {
    ConnectedRefl(merges, x);
    if Connected(merges, x, y) {
      ConnectedSym(merges, x, y);
    }
    if Connected(merges, y, x) {
      ConnectedSym(merges, y, x);
    }
    if Connected(merges, x, y) && Connected(merges, y, z) {
      ConnectedTrans(merges, x, y, z);
    }
  }

  lemma {:induction false} ConnectedMore(merges: seq<(int, int)>, more: (int, int), x: int, y: int)
    requires Connected(merges, x, y)
    ensures Connected(merges + [more], x, y)
  {
    var p :| PathBetween(merges, p, x, y);
    forall k | 0 <= k < |p| - 1
      ensures Joined(merges + [more], p[k], p[k + 1])
    {
      assert Joined(merges, p[k], p[k + 1]);
    }
    assert PathBetween(merges + [more], p, x, y);
  }

  /** One more merge adds exactly the connections that run through it. */
  ghost predicate ConnectedThrough(merges: seq<(int, int)>, i: int, j: int, x: int, y: int) {
    || Connected(merges, x, y)
    || (Connected(merges, x, i) && Connected(merges, j, y))
    || (Connected(merges, x, j) && Connected(merges, i, y))
  }

  lemma {:induction false} PathThrough(merges: seq<(int, int)>, i: int, j: int, p: seq<int>, x: int, y: int)
    requires PathBetween(merges + [(i, j)], p, x, y)
    ensures ConnectedThrough(merges, i, j, x, y)
    decreases |p|
  {
    if |p| == 1 {
      ConnectedRefl(merges, x);
    } else {
      var q, z := p[..|p| - 1], p[|p| - 2];
      forall k | 0 <= k < |q| - 1
        ensures Joined(merges + [(i, j)], q[k], q[k + 1])
      {
        assert Joined(merges + [(i, j)], p[k], p[k + 1]);
      }
      PathThrough(merges, i, j, q, x, z);
      assert Joined(merges + [(i, j)], p[|p| - 2], p[|p| - 2 + 1]);
      LastStep(merges, i, j, x, z, y);
    }
  }

  lemma {:induction false} LastStep(merges: seq<(int, int)>, i: int, j: int, x: int, z: int, y: int)
    requires ConnectedThrough(merges, i, j, x, z) && Joined(merges + [(i, j)], z, y)
    ensures ConnectedThrough(merges, i, j, x, y)
  {
    ConnectedRefl(merges, y);
    if Joined(merges, z, y) {
      assert PathBetween(merges, [z, y], z, y);
      if Connected(merges, x, z) {
        ConnectedTrans(merges, x, z, y);
      } else if Connected(merges, x, i) && Connected(merges, j, z) {
        ConnectedTrans(merges, j, z, y);
      } else {
        ConnectedTrans(merges, i, z, y);
      }
    } else {
      assert (z, y) == (i, j) || (y, z) == (i, j);
    }
  }

  lemma {:induction false} ConnectedOneMore(merges: seq<(int, int)>, i: int, j: int, x: int, y: int)
    ensures Connected(merges + [(i, j)], x, y) <==> ConnectedThrough(merges, i, j, x, y)
  {
    var m := merges + [(i, j)];
    if Connected(m, x, y) {
      var p :| PathBetween(m, p, x, y);
      PathThrough(merges, i, j, p, x, y);
    }
    assert PathBetween(m, [i, j], i, j) && PathBetween(m, [j, i], j, i);
    if Connected(merges, x, y) {
      ConnectedMore(merges, (i, j), x, y);
    } else if Connected(merges, x, i) && Connected(merges, j, y) {
      ConnectedMore(merges, (i, j), x, i);
      ConnectedMore(merges, (i, j), j, y);
      ConnectedTrans(m, x, i, j);
      ConnectedTrans(m, x, j, y);
    } else if Connected(merges, x, j) && Connected(merges, i, y) {
      ConnectedMore(merges, (i, j), x, j);
      ConnectedMore(merges, (i, j), i, y);
      ConnectedTrans(m, x, j, i);
      ConnectedTrans(m, x, i, y);
    }
  }

  // ----- The forest

  /** `repr` gives the root of every element; `rank` falls along parent links. */
  ghost predicate Forest(parents: seq<int>, repr: seq<int>, rank: seq<nat>) {
    && |repr| == |rank| == |parents|
    && forall i :: 0 <= i < |parents| ==> Rooted(parents, repr, rank, i)
  }

  ghost predicate Rooted(parents: seq<int>, repr: seq<int>, rank: seq<nat>, i: int)
    requires |repr| == |rank| == |parents| && 0 <= i < |parents|
  {
    && 0 <= repr[i] < |parents| && parents[repr[i]] == -1
    && -1 <= parents[i] < |parents|
    && if parents[i] == -1 then repr[i] == i
       else rank[parents[i]] < rank[i] && rank[repr[i]] < rank[i] && repr[parents[i]] == repr[i]
  }

  /** The elements from `i` up to its root. */
  ghost function Path(parents: seq<int>, repr: seq<int>, rank: seq<nat>, i: int): (path: seq<int>)
    requires Forest(parents, repr, rank) && 0 <= i < |parents|
    ensures repr[i] in path && (parents[i] == -1 ==> path == [i])
    decreases rank[i]
  {
    assert Rooted(parents, repr, rank, i);
    if parents[i] == -1 then [i] else [i] + Path(parents, repr, rank, parents[i])
  }

  /** What was on a path now points at `p`, and nothing else has moved. */
  predicate Redirected(parents: seq<int>, parents': seq<int>, path: seq<int>, p: int) {
    |parents'| == |parents| && forall x :: 0 <= x < |parents| && x != p ==>
      parents'[x] == if x in path then p else parents[x]
  }

  /** Pointing an element straight at its root changes no root. */
  lemma {:induction false} CompressForest(parents: seq<int>, repr: seq<int>, rank: seq<nat>, k: int)
    requires Forest(parents, repr, rank) && 0 <= k < |parents| && repr[k] != k
    ensures Forest(parents[k := repr[k]], repr, rank)
  {
    var parents' := parents[k := repr[k]];
    assert Rooted(parents, repr, rank, k);
    assert Rooted(parents, repr, rank, repr[k]);
    forall i | 0 <= i < |parents'|
      ensures Rooted(parents', repr, rank, i)
    {
      assert Rooted(parents, repr, rank, i);
    }
  }

  function MergedRepr(repr: seq<int>, i: int, j: int): (r: seq<int>)
    ensures |r| == |repr|
  {
    seq(|repr|, x requires 0 <= x < |repr| => if repr[x] == i then j else repr[x])
  }

  function MergedRank(rank: seq<nat>, repr: seq<int>, i: int, j: int): (r: seq<nat>)
    requires |rank| == |repr| && 0 <= j < |rank|
    ensures |r| == |rank|
  {
    seq(|rank|, x requires 0 <= x < |rank| => if repr[x] == i then rank[x] + rank[j] + 1 else rank[x])
  }

  function PromotedRank(rank: seq<nat>, i: int): (r: seq<nat>)
    ensures |r| == |rank|
  {
    seq(|rank|, x requires 0 <= x < |rank| => if x == i then 0 else rank[x] + 1)
  }

  /** Hanging root `i` under root `j` gives every element of its set the root `j`. */
  lemma {:induction false} MergeForest(parents: seq<int>, repr: seq<int>, rank: seq<nat>, i: int, j: int)
    requires Forest(parents, repr, rank) && 0 <= i < |parents| && 0 <= j < |parents| && i != j
    requires parents[i] == -1 && parents[j] == -1
    ensures Forest(parents[i := j], MergedRepr(repr, i, j), MergedRank(rank, repr, i, j))
  {
    var parents', repr' := parents[i := j], MergedRepr(repr, i, j);
    var rank' := MergedRank(rank, repr, i, j);
    assert Rooted(parents, repr, rank, i) && Rooted(parents, repr, rank, j);
    forall x | 0 <= x < |parents'|
      ensures Rooted(parents', repr', rank', x)
    {
      assert Rooted(parents, repr, rank, x);
      assert Rooted(parents, repr, rank, repr[x]);
    }
  }

  /** A root moved to `i`: everything on the path from `i` up, and nothing else, points at `i`. */
  ghost predicate Repointed(parents: seq<int>, parents': seq<int>, repr: seq<int>, i: int)
    requires |parents| == |parents'| == |repr| && 0 <= i < |parents|
  {
    && parents'[i] == -1
    && (i != repr[i] && 0 <= repr[i] < |parents| ==> parents'[repr[i]] == i)
    && forall x :: 0 <= x < |parents| && x != i ==>
        parents'[x] == parents[x] || (parents'[x] == i && repr[x] == repr[i])
  }

  lemma {:induction false} PromoteForest(parents: seq<int>, parents': seq<int>, repr: seq<int>, rank: seq<nat>, i: int)
    requires Forest(parents, repr, rank) && |parents'| == |parents| && 0 <= i < |parents|
    requires Repointed(parents, parents', repr, i)
    ensures Forest(parents', MergedRepr(repr, repr[i], i), PromotedRank(rank, i))
  {
    var repr' := MergedRepr(repr, repr[i], i);
    var rank' := PromotedRank(rank, i);
    assert Rooted(parents, repr, rank, i);
    forall x | 0 <= x < |parents'|
      ensures Rooted(parents', repr', rank', x)
    {
      assert Rooted(parents, repr, rank, x);
      assert Rooted(parents, repr, rank, repr[x]);
    }
  }

  function IndexIn<K(==)>(s: seq<K>, key: K): (i: int)
    ensures -1 <= i < |s|
    ensures i >= 0 ==> s[i] == key
    ensures i < 0 ==> key !in s
  {
    if |s| == 0 then -1
    else if s[|s| - 1] == key then |s| - 1
    else IndexIn(s[..|s| - 1], key)
  }

  /** `mfp<K>`; the `idict` of keys appears as the list of keys in index order. */
  class Mfp<K(==)> {
    var database: seq<K>
    var parents: seq<int>
    ghost var repr: seq<int>
    ghost var rank: seq<nat>
    ghost var merges: seq<(int, int)>

    ghost predicate Valid()
      reads this
    {
      && |database| == |parents|
      && (forall i, j :: 0 <= i < j < |database| ==> database[i] != database[j])
      && Forest(parents, repr, rank)
      && (forall m :: m in merges ==> 0 <= m.0 < |parents| && 0 <= m.1 < |parents|)
      && forall x, y :: 0 <= x < |parents| && 0 <= y < |parents| ==> Agrees(repr, merges, x, y)
    }

    /** Two indices have one representative exactly when some merges connect them. */
    static ghost predicate Agrees(repr: seq<int>, merges: seq<(int, int)>, x: int, y: int)
      requires 0 <= x < |repr| && 0 <= y < |repr|
    {
      repr[x] == repr[y] <==> Connected(merges, x, y)
    }

    /** The key that stands for a key: itself if it was never seen, else the key of its representative. */
    static ghost function Leader(database: seq<K>, repr: seq<int>, k: K): K {
      var i := IndexIn(database, k);
      if 0 <= i < |repr| && 0 <= repr[i] < |database| then database[repr[i]] else k
    }

    /** The leader of `k` once `to` leads all that `a` led along with. */
    static ghost function Led(database: seq<K>, repr: seq<int>, a: K, to: K, k: K): K {
      var l := Leader(database, repr, k);
      if l == Leader(database, repr, a) then to else l
    }

    constructor ()
      ensures Valid() && database == [] && merges == []
    {
      database, parents, repr, rank, merges := [], [], [], [], [];
    }

    /** The index of a key, which becomes a set of its own if it is new. */
    method Index(key: K) returns (i: int)
      requires Valid()
      modifies this
      ensures Valid() && merges == old(merges)
      ensures 0 <= i < |database| && database[i] == key
      ensures database == if key in old(database) then old(database) else old(database) + [key]
      ensures old(repr) <= repr && forall k :: Leader(database, repr, k) == Leader(old(database), old(repr), k)
    {
      i := IndexIn(database, key);
      if i < 0 {
        forall k ensures Leader(database + [key], repr + [|database|], k) == Leader(database, repr, k) {
          LeaderAdded(database, parents, repr, rank, key, k);
        }
        i := |database|;
        database := database + [key];
        NewElement();
        repr, rank := repr + [i], rank + [0];
        parents := parents + [-1];
        forall x | 0 <= x < |parents|
          ensures Rooted(parents, repr, rank, x)
        {
          if x < i {
            assert Rooted(old(parents), old(repr), old(rank), x);
          }
        }
        forall x, y | 0 <= x < |parents| && 0 <= y < |parents|
          ensures Agrees(repr, merges, x, y)
        {
          if x < i && y < i {
            assert Agrees(old(repr), merges, x, y);
          } else if x < i {
            assert Rooted(old(parents), old(repr), old(rank), x);
          } else if y < i {
            assert Rooted(old(parents), old(repr), old(rank), y);
          }
        }
      }
    }

    static lemma {:induction false} LeaderAdded(database: seq<K>, parents: seq<int>, repr: seq<int>, rank: seq<nat>,
                                                key: K, k: K)
      requires Forest(parents, repr, rank) && |database| == |parents| && key !in database
      ensures Leader(database + [key], repr + [|database|], k) == Leader(database, repr, k)
    {
      assert (database + [key])[..|database|] == database;
      var x := IndexIn(database, k);
      if x >= 0 {
        assert Rooted(parents, repr, rank, x);
      }
    }

    lemma {:induction false} NewElement()
      requires forall m :: m in merges ==> 0 <= m.0 < |parents| && 0 <= m.1 < |parents|
      ensures forall x, y :: x == |parents| || y == |parents| ==> (Connected(merges, x, y) <==> x == y)
    {
      var n := |parents|;
      forall x, y | x == n || y == n
        ensures Connected(merges, x, y) <==> x == y
      {
        ConnectedRefl(merges, x);
        if Connected(merges, x, y) {
          var p :| PathBetween(merges, p, x, y);
          EndsMerged(p);
        }
      }
    }

    lemma {:induction false} EndsMerged(p: seq<int>)
      requires forall m :: m in merges ==> 0 <= m.0 < |parents| && 0 <= m.1 < |parents|
      requires IsPath(merges, p)
      ensures |p| > 1 ==> 0 <= p[0] < |parents| && 0 <= p[|p| - 1] < |parents|
    {
      if |p| > 1 {
        assert Joined(merges, p[0], p[0 + 1]);
        assert Joined(merges, p[|p| - 2], p[|p| - 2 + 1]);
      }
    }

    static lemma {:induction false} LeaderPromoted(database: seq<K>, parents: seq<int>, repr: seq<int>, rank: seq<nat>,
                                                   a: K, k: K)
      requires Forest(parents, repr, rank) && |database| == |parents|
      requires forall x, y :: 0 <= x < y < |database| ==> database[x] != database[y]
      ensures var i := IndexIn(database, a);
              Leader(database, if i < 0 then repr else MergedRepr(repr, repr[i], i), k) ==
              Led(database, repr, a, a, k)
    {
      var i, x := IndexIn(database, a), IndexIn(database, k);
      if i >= 0 {
        assert Rooted(parents, repr, rank, i);
      }
      if x >= 0 {
        assert Rooted(parents, repr, rank, x);
      }
    }

    /** Representative of `i`; path compression moves parents, not representatives. */
    method Ifind(i: int) returns (p: int)
      requires Valid() && 0 <= i < |parents|
      modifies this`parents
      ensures Valid() && 0 <= p < |parents| && p == repr[i] && parents[p] == -1
      ensures Redirected(old(parents), parents, old(Path(parents, repr, rank, i)), p)
    {
      ghost var parents0, done := parents, [];
      ghost var path := Path(parents, repr, rank, i);
      p := i;
      var k := i;
      while parents[p] != -1
        invariant 0 <= p < |parents| && repr[p] == repr[i]
        decreases rank[p]
      {
        assert Rooted(parents, repr, rank, p);
        p := parents[p];
      }
      assert Rooted(parents, repr, rank, p);
      while k != p
        invariant Forest(parents, repr, rank) && |parents| == |database|
        invariant 0 <= i < |parents| && 0 <= k < |parents| && repr[k] == p == repr[i]
        invariant path == done + Path(parents0, repr, rank, k) && parents0[p] == -1 && parents[p] == -1
        invariant Redirected(parents0, parents, done, p)
        invariant forall x :: x in done ==> 0 <= x < |rank| && rank[k] < rank[x]
        decreases rank[k]
      {
        assert Rooted(parents, repr, rank, k);
        var nextK := parents[k];
        CompressForest(parents, repr, rank, k);
        parents := parents[k := p];
        done := done + [k];
        k := nextK;
      }
      assert Rooted(parents, repr, rank, i);
    }

    /** Joins the sets of two indices. */
    method Imerge(i: int, j: int)
      requires Valid() && 0 <= i < |parents| && 0 <= j < |parents|
      modifies this
      ensures Valid() && database == old(database) && merges == old(merges) + [(i, j)]
      ensures repr == MergedRepr(old(repr), old(repr[i]), old(repr[j]))
    {
      var ri := Ifind(i);
      var rj := Ifind(j);
      assert Rooted(parents, repr, rank, i) && Rooted(parents, repr, rank, j);
      ghost var repr0, merges0 := repr, merges;
      if ri != rj {
        MergeForest(parents, repr, rank, ri, rj);
        rank := MergedRank(rank, repr, ri, rj);
        parents := parents[ri := rj];
      }
      repr := MergedRepr(repr, ri, rj);
      merges := merges + [(i, j)];
      assert ri == rj ==> repr == repr0;
      forall x, y | 0 <= x < |parents| && 0 <= y < |parents|
        ensures Agrees(repr, merges, x, y)
      {
        ConnectedOneMore(merges0, i, j, x, y);
        assert Agrees(repr0, merges0, x, y) && Agrees(repr0, merges0, x, i) && Agrees(repr0, merges0, x, j);
        assert Agrees(repr0, merges0, i, y) && Agrees(repr0, merges0, j, y);
      }
    }

    /** Makes `i` the representative of its set and changes no set. */
    method Ipromote(i: int)
      requires Valid() && 0 <= i < |parents|
      modifies this
      ensures Valid() && database == old(database) && merges == old(merges)
      ensures repr == MergedRepr(old(repr), old(repr[i]), i) && repr[i] == i && parents[i] == -1
      ensures Redirected(old(parents), parents, old(Path(parents, repr, rank, i)), i)
    {
      ghost var parents0, done := parents, [];
      ghost var path := Path(parents, repr, rank, i);
      var k := i;
      while k != -1
        invariant |parents| == |parents0| == |repr| == |rank| && -1 <= k < |parents|
        invariant forall x :: 0 <= x < |parents| ==>
                  parents[x] == parents0[x] || (parents[x] == i && repr[x] == repr[i])
        invariant k != -1 ==> repr[k] == repr[i]
        invariant k != -1 ==> forall x :: 0 <= x < |parents| && rank[x] <= rank[k] ==> parents[x] == parents0[x]
        invariant k == -1 ==> 0 <= repr[i] < |parents| && parents[repr[i]] == i
        invariant path == if k == -1 then done else done + Path(parents0, repr, rank, k)
        invariant Redirected(parents0, parents, done, i)
        decreases if k == -1 then 0 else rank[k] + 1
        modifies this`parents
      {
        assert Rooted(parents0, repr, rank, k);
        var nextK := parents[k];
        parents := parents[k := i];
        done := done + [k];
        k := nextK;
      }
      parents := parents[i := -1];
      PromoteForest(parents0, parents, repr, rank, i);
      ghost var repr0 := repr;
      assert Rooted(parents0, repr0, rank, i);
      rank := PromotedRank(rank, i);
      repr := MergedRepr(repr, repr[i], i);
      forall x, y | 0 <= x < |parents| && 0 <= y < |parents|
        ensures Agrees(repr, merges, x, y)
      {
        assert Agrees(repr0, merges, x, y);
        NotForeignRoot(parents0, repr0, old(rank), i, x);
        NotForeignRoot(parents0, repr0, old(rank), i, y);
      }
    }

    /** `i` can be the root of its own set only. */
    static lemma {:induction false} NotForeignRoot(parents: seq<int>, repr: seq<int>, rank: seq<nat>, i: int, x: int)
      requires Forest(parents, repr, rank) && 0 <= i < |parents| && 0 <= x < |parents|
      ensures repr[x] == i ==> repr[i] == i
    {
      assert Rooted(parents, repr, rank, x) && Rooted(parents, repr, rank, i);
    }

    /** The representative key, or the key itself if it was never seen. */
    method Find(a: K) returns (r: K)
      requires Valid()
      modifies this`parents
      ensures Valid()
      ensures r == Leader(database, repr, a) && (a !in database ==> r == a)
      ensures forall i :: 0 <= i < |database| && database[i] == a ==>
              0 <= repr[i] < |database| && r == database[repr[i]]
    {
      var i := IndexIn(database, a);
      if i < 0 {
        return a;
      }
      var p := Ifind(i);
      assert Rooted(parents, repr, rank, i);
      r := database[p];
    }

    method Merge(a: K, b: K)
      requires Valid()
      modifies this
      ensures Valid() && a in database && b in database && old(database) <= database
      ensures exists i, j :: 0 <= i < |database| && 0 <= j < |database| && database[i] == a && database[j] == b
                             && merges == old(merges) + [(i, j)]
      ensures forall k :: k in database <==> k in old(database) || k == a || k == b
      ensures forall k :: Leader(database, repr, k) ==
                          Led(old(database), old(repr), a, Leader(old(database), old(repr), b), k)
    {
      var i, j := Indices(a, b);
      ghost var parents0, repr0, rank0 := parents, repr, rank;
      Imerge(i, j);
      forall k ensures Leader(database, repr, k) == Led(database, repr0, a, Leader(database, repr0, b), k) {
        LeaderMerged(database, parents0, repr0, rank0, i, j, k);
      }
    }

    /** The indices of two keys, which are both entered. */
    method Indices(a: K, b: K) returns (i: int, j: int)
      requires Valid()
      modifies this
      ensures Valid() && merges == old(merges) && old(database) <= database
      ensures 0 <= i < |database| && 0 <= j < |database| && database[i] == a && database[j] == b
      ensures forall k :: k in database <==> k in old(database) || k == a || k == b
      ensures forall k :: Leader(database, repr, k) == Leader(old(database), old(repr), k)
    {
      i := Index(a);
      ghost var d := database;
      j := Index(b);
      assert d <= database;
    }

    /** A change of representatives, seen from the keys. */
    static lemma {:induction false} LeaderMerged(database: seq<K>, parents: seq<int>, repr: seq<int>, rank: seq<nat>,
                                                 i: int, j: int, k: K)
      requires Forest(parents, repr, rank) && |database| == |parents| && 0 <= i < |repr| && 0 <= j < |repr|
      requires forall x, y :: 0 <= x < y < |database| ==> database[x] != database[y]
      ensures Rooted(parents, repr, rank, j) && Rooted(parents, repr, rank, i)
      ensures Leader(database, MergedRepr(repr, repr[i], repr[j]), k) ==
              Led(database, repr, database[i], Leader(database, repr, database[j]), k)
    {
      assert Rooted(parents, repr, rank, i) && Rooted(parents, repr, rank, j);
      var x := IndexIn(database, k);
      if x >= 0 {
        assert Rooted(parents, repr, rank, x);
      }
    }

    method Promote(a: K)
      requires Valid()
      modifies this
      ensures Valid() && database == old(database) && merges == old(merges)
      ensures forall i :: 0 <= i < |database| && database[i] == a ==> repr[i] == i
      ensures a !in database ==> parents == old(parents) && repr == old(repr)
      ensures forall k :: Leader(database, repr, k) == Led(old(database), old(repr), a, a, k)
    {
      var i := IndexIn(database, a);
      if i >= 0 {
        Ipromote(i);
      }
      forall k ensures Leader(database, repr, k) == Led(old(database), old(repr), a, a, k) {
        LeaderPromoted(database, old(parents), old(repr), old(rank), a, k);
      }
    }
  }
}
