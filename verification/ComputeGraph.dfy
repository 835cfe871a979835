/** The shared argument vector, compaction and permutation of `kernel/compute_graph.h`, and buffer
    forwarding in `kernel/functional.cc`. */
module ComputeGraph {
  /** A node function: the buffer, or any other operation. */
  datatype Fn = Buf | Op(id: int)

  /** A node refers to its function by index and to its arguments by a slice of the argument vector. */
  datatype Node = Node(fnIndex: nat, argOffset: nat, argCount: nat, attr: int)

  // ----- What a graph means

  /** A node as a user sees it. */
  datatype Term = Term(fn: Fn, args: seq<nat>, attr: int)

  type Interp = (int, seq<int>) -> int

  predicate ArgsWithin(g: seq<Term>) {
    forall i :: 0 <= i < |g| ==> Within(g[i].args, |g|)
  }

  predicate Closed(g: seq<Term>) {
    forall i :: 0 <= i < |g| ==> Within(g[i].args, |g|) && (g[i].fn == Buf ==> |g[i].args| > 0)
  }

  predicate Within(args: seq<nat>, n: nat) {
    forall k :: 0 <= k < |args| ==> args[k] < n
  }

  function Pick(v: seq<int>, args: seq<nat>): seq<int>
    requires Within(args, |v|)
  {
    seq(|args|, k requires 0 <= k < |args| => v[args[k]])
  }

  /** The value of a node over the values of all nodes. */
  function Apply(f: Interp, t: Term, v: seq<int>): int
    requires Within(t.args, |v|) && (t.fn == Buf ==> |t.args| > 0)
  {
    if t.fn == Buf then v[t.args[0]] else f(t.fn.id, Pick(v, t.args))
  }

  /** Values for all nodes that agree with every node's function. */
  ghost predicate Solution(g: seq<Term>, f: Interp, v: seq<int>)
    requires Closed(g)
  {
    |v| == |g| && forall i :: 0 <= i < |g| ==> v[i] == Apply(f, g[i], v)
  }

  /** Values that agree with the functions of the selected nodes; the other nodes may have any value. */
  ghost predicate SolvesSelected(g: seq<Term>, perm: seq<nat>, f: Interp, v: seq<int>)
    requires Closed(g) && Within(perm, |g|)
  {
    |v| == |g| && forall j :: 0 <= j < |perm| ==> v[perm[j]] == Apply(f, g[perm[j]], v)
  }

  /** Arguments come before the nodes that use them. */
  predicate Ordered(g: seq<Term>) {
    forall i :: 0 <= i < |g| ==> Within(g[i].args, i)
  }

  /** An ordered graph determines the value of every node. */
  lemma {:induction false} UniqueAt(g: seq<Term>, f: Interp, v: seq<int>, w: seq<int>, i: nat)
    requires Closed(g) && Ordered(g) && Solution(g, f, v) && Solution(g, f, w) && i < |g|
    ensures v[i] == w[i]
    decreases i
  {
    var t := g[i];
    assert Within(t.args, i);
    forall k | 0 <= k < |t.args| ensures v[t.args[k]] == w[t.args[k]] {
      UniqueAt(g, f, v, w, t.args[k]);
    }
    assert Pick(v, t.args) == Pick(w, t.args);
    assert v[i] == Apply(f, t, v) && w[i] == Apply(f, t, w);
  }

  lemma {:induction false} OrderedUnique(g: seq<Term>, f: Interp, v: seq<int>, w: seq<int>)
    requires Closed(g) && Ordered(g) && Solution(g, f, v) && Solution(g, f, w)
    ensures v == w
  {
    forall i | 0 <= i < |g| ensures v[i] == w[i] {
      UniqueAt(g, f, v, w, i);
    }
  }

  /** An ordered graph has values: extend a solution node by node. */
  lemma {:induction false} OrderedExists(g: seq<Term>, f: Interp) returns (v: seq<int>)
    requires Closed(g) && Ordered(g)
    ensures Solution(g, f, v)
  {
    v := [];
    for i := 0 to |g|
      invariant |v| == i && forall j :: 0 <= j < i ==> Within(g[j].args, |v|) && v[j] == Apply(f, g[j], v)
    {
      assert Within(g[i].args, i);
      var w := v + [Apply(f, g[i], v)];
      forall j | 0 <= j <= i ensures Within(g[j].args, |w|) && w[j] == Apply(f, g[j], w) {
        assert Within(g[j].args, j);
        assert Pick(w, g[j].args) == Pick(v, g[j].args);
      }
      v := w;
    }
  }

  // ----- Renaming nodes

  function MapArgs(args: seq<nat>, ids: seq<int>): (r: seq<nat>)
    requires Within(args, |ids|) && forall k :: 0 <= k < |args| ==> ids[args[k]] >= 0
    ensures |r| == |args|
  {
    seq(|args|, k requires 0 <= k < |args| => ids[args[k]])
  }

  /** `ids` sends every argument of a selected node to a selected position. */
  predicate SelectsClosed(g: seq<Term>, perm: seq<nat>, ids: seq<int>) {
    && ArgsWithin(g) && |ids| == |g| && Within(perm, |g|)
    && (forall i :: 0 <= i < |ids| ==> -1 <= ids[i] < |perm|)
    && (forall j, k :: 0 <= j < |perm| && 0 <= k < |g[perm[j]].args| ==> ids[g[perm[j]].args[k]] >= 0)
  }

  function Permuted(g: seq<Term>, perm: seq<nat>, ids: seq<int>): (h: seq<Term>)
    requires SelectsClosed(g, perm, ids)
    ensures |h| == |perm| && ArgsWithin(h) && (Closed(g) ==> Closed(h))
  {
    seq(|perm|, j requires 0 <= j < |perm| => g[perm[j]].(args := MapArgs(g[perm[j]].args, ids)))
  }

  /** A node and the one it is sent to have one value. */
  predicate Agrees(v: seq<int>, perm: seq<nat>, ids: seq<int>) {
    |ids| == |v| && Within(perm, |v|) && forall i :: 0 <= i < |ids| && ids[i] >= 0 ==>
        ids[i] < |perm| && v[perm[ids[i]]] == v[i]
  }

  /** Renaming keeps every selected node's value. */
  lemma {:induction false} PermutedSolution(g: seq<Term>, perm: seq<nat>, ids: seq<int>, f: Interp, v: seq<int>)
    requires Closed(g) && SelectsClosed(g, perm, ids) && SolvesSelected(g, perm, f, v) && Agrees(v, perm, ids)
    ensures Solution(Permuted(g, perm, ids), f, Pick(v, perm))
  {
    var h, w := Permuted(g, perm, ids), Pick(v, perm);
    forall j | 0 <= j < |h| ensures w[j] == Apply(f, h[j], w) {
      var t := g[perm[j]];
      forall k | 0 <= k < |t.args| ensures w[h[j].args[k]] == v[t.args[k]] {
      }
      assert Pick(w, h[j].args) == Pick(v, t.args);
    }
  }

  /** Inverse of a selection without repetition. */
  predicate Inverse(perm: seq<nat>, ids: seq<int>) {
    && Within(perm, |ids|)
    && (forall j :: 0 <= j < |perm| ==> ids[perm[j]] == j)
    && (forall i :: 0 <= i < |ids| && ids[i] >= 0 ==> ids[i] < |perm| && perm[ids[i]] == i)
  }

  // ----- The graph object

  predicate Slots(functions: seq<Fn>, nodes: seq<Node>, args: seq<nat>) {
    forall i :: 0 <= i < |nodes| ==> nodes[i].fnIndex < |functions| && nodes[i].argOffset + nodes[i].argCount <= |args|
  }

  /** The arguments of a node. */
  function Slice(n: Node, args: seq<nat>): seq<nat>
    requires n.argOffset + n.argCount <= |args|
  {
    args[n.argOffset..n.argOffset + n.argCount]
  }

  function View(functions: seq<Fn>, nodes: seq<Node>, args: seq<nat>): (g: seq<Term>)
    requires Slots(functions, nodes, args)
    ensures |g| == |nodes|
  {
    seq(|nodes|, i requires 0 <= i < |nodes| => Term(functions[nodes[i].fnIndex], Slice(nodes[i], args), nodes[i].attr))
  }

  /** Pushing onto the argument vector disturbs no slice. */
  lemma {:induction false} SlicesKept(functions: seq<Fn>, nodes: seq<Node>, args: seq<nat>, more: seq<nat>)
    requires Slots(functions, nodes, args) && args <= more
    ensures Slots(functions, nodes, more) && View(functions, nodes, more) == View(functions, nodes, args)
  {
    forall i | 0 <= i < |nodes| ensures Slice(nodes[i], more) == Slice(nodes[i], args) {
    }
  }

  /** Node `i` has one more argument, and no other node changes. */
  function WithArg(g: seq<Term>, i: nat, arg: nat): (h: seq<Term>)
    requires i < |g|
    ensures |h| == |g| && (ArgsWithin(g) && arg < |g| ==> ArgsWithin(h))
  {
    g[i := g[i].(args := g[i].args + [arg])]
  }

  /** One more argument for the node whose slice is the last. */
  lemma {:induction false} AppendedView(functions: seq<Fn>, nodes: seq<Node>, args: seq<nat>, i: nat, arg: nat)
    requires Slots(functions, nodes, args) && i < |nodes| && nodes[i].argOffset + nodes[i].argCount == |args|
    ensures var more := nodes[i := nodes[i].(argCount := nodes[i].argCount + 1)];
            && Slots(functions, more, args + [arg])
            && View(functions, more, args + [arg]) == WithArg(View(functions, nodes, args), i, arg)
  {
    SlicesKept(functions, nodes, args, args + [arg]);
    var n := nodes[i].(argCount := nodes[i].argCount + 1);
    assert Slice(n, args + [arg]) == Slice(nodes[i], args) + [arg];
  }

  lemma {:induction false} ViewMore(functions: seq<Fn>, nodes: seq<Node>, args: seq<nat>, n: Node)
    requires Slots(functions, nodes, args) && n.fnIndex < |functions| && n.argOffset + n.argCount <= |args|
    ensures Slots(functions, nodes + [n], args)
    ensures View(functions, nodes + [n], args) ==
            View(functions, nodes, args) + [Term(functions[n.fnIndex], Slice(n, args), n.attr)]
  {
  }

  class Graph {
    var functions: seq<Fn>
    var nodes: seq<Node>
    var args: seq<nat>
    var keys: map<int, nat>
    var sparse: map<nat, string>

    ghost predicate Valid()
      reads this
    {
      && Slots(functions, nodes, args) && ArgsWithin(View(functions, nodes, args))
      && (forall i, j :: 0 <= i < j < |functions| ==> functions[i] != functions[j])
      && (forall k :: k in keys ==> keys[k] < |nodes|)
      && (forall i :: i in sparse ==> i < |nodes|)
    }

    ghost function Terms(): seq<Term>
      requires Slots(functions, nodes, args)
      reads this
    {
      View(functions, nodes, args)
    }

    constructor ()
      ensures Valid() && Terms() == [] && keys == map[] && sparse == map[]
    {
      functions, nodes, args, keys, sparse := [], [], [], map[], map[];
    }

    /** The index of a function, allocated on first use. */
    method FnIndex(fn: Fn) returns (i: nat)
      requires Valid()
      modifies `functions
      ensures Valid() && Terms() == old(Terms()) && i < |functions| && functions[i] == fn
    {
      if fn !in functions {
        functions := functions + [fn];
      }
      i :| 0 <= i < |functions| && functions[i] == fn;
      assert View(functions, nodes, args) == old(View(functions, nodes, args));
    }

    method Add(fn: Fn, attr: int) returns (index: nat)
      requires Valid()
      modifies `functions, `nodes
      ensures Valid() && index == |old(nodes)| && Terms() == old(Terms()) + [Term(fn, [], attr)]
    {
      index := |nodes|;
      var fnIndex := FnIndex(fn);
      ViewMore(functions, nodes, args, Node(fnIndex, |args|, 0, attr));
      nodes := nodes + [Node(fnIndex, |args|, 0, attr)];
    }

    method MoveArgs(i: nat)
      requires Valid() && i < |nodes|
      modifies `nodes, `args
      ensures Valid() && Terms() == old(Terms()) && nodes[i].argOffset + nodes[i].argCount == |args|
      ensures |nodes| == |old(nodes)|
    {
      ghost var was, node := args, nodes[i];
      var oldOffset := nodes[i].argOffset;
      nodes := nodes[i := nodes[i].(argOffset := |args|)];
      for k := 0 to nodes[i].argCount
        invariant nodes == old(nodes)[i := node.(argOffset := |was|)]
        invariant args == was + was[oldOffset..oldOffset + k]
      {
        args := args + [args[oldOffset + k]];
      }
      SlicesKept(functions, old(nodes), was, args);
      assert Slice(nodes[i], args) == Slice(node, was);
      assert View(functions, nodes, args) == View(functions, old(nodes), args);
    }

    method AppendArg(i: nat, arg: nat)
      requires Valid() && i < |nodes| && arg < |nodes|
      modifies `nodes, `args
      ensures Valid()
      ensures Terms() == WithArg(old(Terms()), i, arg)
    {
      if nodes[i].argOffset + nodes[i].argCount != |args| {
        MoveArgs(i);
      }
      ghost var was, before := args, nodes;
      var node := nodes[i];
      args := args + [arg];
      nodes := nodes[i := node.(argCount := node.argCount + 1)];
      AppendedView(functions, before, was, i, arg);
    }

    /** The argument vector rebuilt without gaps, in node order. */
    method CompactArgs()
      requires Slots(functions, nodes, args)
      modifies `nodes, `args
      ensures Slots(functions, nodes, args) && Terms() == old(Terms()) && args == Flat(old(Terms()))
    {
      var newArgs: seq<nat> := [];
      ghost var was, g := nodes, View(functions, nodes, args);
      for i := 0 to |nodes|
        invariant |nodes| == |was| && args == old(args) && nodes[i..] == was[i..]
        invariant Compacting(g, nodes[..i], was[..i], newArgs, args)
      {
        var node := nodes[i];
        assert node == was[i];
        CompactingStep(g, nodes, was, newArgs, args, functions, i);
        newArgs := CopyArgs(newArgs, node);
        nodes := nodes[i := node.(argOffset := |newArgs| - node.argCount)];
      }
      args := newArgs;
      assert nodes[..|nodes|] == nodes && was[..|was|] == was && g[..|g|] == g;
      CompactedView(functions, nodes, was, args, old(args));
    }

    method CopyArgs(newArgs: seq<nat>, node: Node) returns (r: seq<nat>)
      requires node.argOffset + node.argCount <= |args|
      ensures r == newArgs + Slice(node, args)
    {
      r := newArgs;
      for k := 0 to node.argCount
        invariant r == newArgs + args[node.argOffset..node.argOffset + k]
      {
        r := r + [args[node.argOffset + k]];
      }
    }

    /** The selected nodes in the order of `perm`, with arguments and keys renamed by `ids`. */
    method PermuteBy(perm: seq<nat>, ids: seq<int>)
      requires Valid() && SelectsClosed(Terms(), perm, ids) && (forall k :: k in keys ==> ids[keys[k]] >= 0)
      modifies `nodes, `args, `keys, `sparse
      ensures Valid() && Terms() == Permuted(old(Terms()), perm, ids)
      ensures keys == RenameKeys(old(keys), ids)
      ensures forall j :: 0 <= j < |perm| ==>
              (j in sparse <==> perm[j] in old(sparse)) && (j in sparse ==> sparse[j] == old(sparse)[perm[j]])
      ensures forall j :: j in sparse ==> j < |perm|
    {
      ghost var g := Terms();
      var newNodes, newSparse := SelectNodes(perm);
      keys := RenameKeys(keys, ids);
      nodes, sparse := newNodes, newSparse;
      assert Slots(functions, nodes, args) && View(functions, nodes, args) == Select(g, perm);
      CompactAndRename(g, perm, ids);
    }

    /** The argument vector of the selected nodes, compacted and renamed. */
    method CompactAndRename(ghost g: seq<Term>, ghost perm: seq<nat>, ids: seq<int>)
      requires SelectsClosed(g, perm, ids) && Slots(functions, nodes, args) && Terms() == Select(g, perm)
      modifies `nodes, `args
      ensures Slots(functions, nodes, args) && Terms() == Permuted(g, perm, ids)
    {
      CompactArgs();
      SelectedIds(g, perm, ids, |perm|);
      assert Select(g, perm)[..|perm|] == Select(g, perm);
      RenameArgs(ids);
    }

    method RenameArgs(ids: seq<int>)
      requires Slots(functions, nodes, args) && args == Flat(Terms()) && Renamable(args, ids)
      modifies `args
      ensures Slots(functions, nodes, args)
      ensures forall i :: 0 <= i < |nodes| ==>
                Renamable(old(Terms())[i].args, ids)
                    && Terms()[i] == old(Terms())[i].(args := MapArgs(old(Terms())[i].args, ids))
    {
      ghost var was := args;
      for k := 0 to |args|
        invariant |args| == |was| && forall l :: 0 <= l < |args| ==> args[l] == if l < k then ids[was[l]] else was[l]
      {
        args := args[k := ids[args[k]]];
      }
      RenamedView(functions, nodes, was, args, ids, old(Terms()));
    }

    method SelectNodes(perm: seq<nat>) returns (newNodes: seq<Node>, newSparse: map<nat, string>)
      requires Within(perm, |nodes|)
      ensures |newNodes| == |perm| && forall j :: 0 <= j < |perm| ==> newNodes[j] == nodes[perm[j]]
      ensures forall j :: j in newSparse ==> j < |perm|
      ensures forall j :: 0 <= j < |perm| ==>
                (j in newSparse <==> perm[j] in sparse) && (j in newSparse ==> newSparse[j] == sparse[perm[j]])
    {
      newNodes, newSparse := [], map[];
      for i := 0 to |perm|
        invariant |newNodes| == i && forall j :: 0 <= j < i ==> newNodes[j] == nodes[perm[j]]
        invariant forall j :: j in newSparse ==> j < i
        invariant forall j :: 0 <= j < i ==>
                    (j in newSparse <==> perm[j] in sparse) && (j in newSparse ==> newSparse[j] == sparse[perm[j]])
      {
        var j := |newNodes|;
        newNodes := newNodes + [nodes[perm[i]]];
        if perm[i] in sparse {
          newSparse := newSparse[j := sparse[perm[i]]];
        }
      }
    }

    /** Permutation by a selection without repetition that contains every argument and every keyed node. */
    method Permute(perm: seq<nat>) returns (ids: seq<int>)
      requires Valid() && Within(perm, |nodes|) && (forall i, j :: 0 <= i < j < |perm| ==> perm[i] != perm[j])
      requires forall j, k :: 0 <= j < |perm| && 0 <= k < |Terms()[perm[j]].args| ==> Terms()[perm[j]].args[k] in perm
      requires forall k :: k in keys ==> keys[k] in perm
      modifies `nodes, `args, `keys, `sparse
      ensures Valid() && Inverse(perm, ids) && SelectsClosed(old(Terms()), perm, ids)
              && Terms() == Permuted(old(Terms()), perm, ids)
      ensures keys == RenameKeys(old(keys), ids) && (NamesOk(old(sparse)) ==> NamesOk(sparse))
      ensures forall j :: 0 <= j < |perm| ==>
              (j in sparse <==> perm[j] in old(sparse)) && (j in sparse ==> sparse[j] == old(sparse)[perm[j]])
      ensures forall j :: j in sparse ==> j < |perm|
    {
      ids := InvertPerm(perm, |nodes|);
      PermuteBy(perm, ids);
    }

    /** Dead nodes dropped and the rest put in order, then buffers forwarded: every keyed node keeps its value. */
    method SortAndForward(perm: seq<nat>)
      requires Valid() && Closed(Terms()) && NamesOk(sparse)
      requires Within(perm, |nodes|) && (forall i, j :: 0 <= i < j < |perm| ==> perm[i] != perm[j])
      requires Sorted(Terms(), perm) && forall k :: k in keys ==> keys[k] in perm
      modifies `nodes, `args, `keys, `sparse
      ensures Valid() && Ordered(Terms()) && Closed(Terms()) && keys.Keys == old(keys).Keys
      ensures forall i :: 0 <= i < |nodes| ==> Terms()[i].fn != Buf
      ensures forall f, v :: SolvesSelected(old(Terms()), perm, f, v) ==> KeepsKeyed(old(keys), v, keys, Terms(), f)
    {
      ghost var g, ks := Terms(), keys;
      SortedClosed(g, perm);
      var ids := Permute(perm);
      ghost var h, ks' := Terms(), keys;
      SortedOrdered(g, perm, ids);
      ghost var sel, alias := ForwardBuf();
      ForwardOrdered(h, sel, alias);
      forall f, v | SolvesSelected(g, perm, f, v) ensures KeepsKeyed(ks, v, keys, Terms(), f) {
        PermutedSolution(g, perm, ids, f, v);
        var w := Pick(v, perm);
        ForwardSolution(h, sel, alias, f, w);
        assert Solution(Terms(), f, Pick(w, sel));
        KeyedValues(ks, v, perm, ids, sel, alias);
      }
    }

    /** Every buffer whose argument comes earlier is replaced by what it buffers. */
    method ForwardBuf() returns (ghost perm: seq<nat>, ghost alias: seq<nat>)
      requires Valid() && Closed(Terms()) && NamesOk(sparse)
      modifies `nodes, `args, `keys, `sparse
      ensures Valid() && Forwards(old(Terms()), perm, alias) && SelectsClosed(old(Terms()), perm, alias)
      ensures Terms() == Permuted(old(Terms()), perm, alias) && keys == RenameKeys(old(keys), alias)
      ensures KeepsNames(old(sparse), sparse, alias)
      ensures forall t :: 0 <= t < |perm| ==> Inherits(old(sparse), alias, |alias|, t, sparse, t)
    {
      ghost var g := Terms();
      var sel: seq<nat>, ids: seq<nat> := [], [];
      for i := 0 to |nodes|
        invariant Valid() && Terms() == g && keys == old(keys) && NamesOk(sparse)
        invariant Forwarding(g, sel, ids, i) && NamesSoFar(old(sparse), sparse, sel, ids, i)
      {
        sel, ids := ForwardNode(g, old(sparse), i, sel, ids);
      }
      ForwardClosed(g, sel, ids);
      ghost var names := sparse;
      PermuteBy(sel, ids);
      perm, alias := sel, ids;
      NamesDone(old(sparse), names, sparse, perm, alias);
    }

    /** One turn of the loop: node `i` is forwarded, its name handed on, or kept. */
    method ForwardNode(ghost g: seq<Term>, ghost was: map<nat, string>, i: nat, sel: seq<nat>, ids: seq<nat>)
        returns (sel': seq<nat>, ids': seq<nat>)
      requires Valid() && Terms() == g && i < |nodes| && NamesOk(sparse) && NamesOk(was)
      requires Forwarding(g, sel, ids, i) && NamesSoFar(was, sparse, sel, ids, i)
      modifies `sparse
      ensures Valid() && Terms() == g && NamesOk(sparse)
      ensures Forwarding(g, sel', ids', i + 1) && NamesSoFar(was, sparse, sel', ids', i + 1)
    {
      assert g[i].fn == functions[nodes[i].fnIndex];
      assert g[i].fn == Buf ==> g[i].args[0] == args[nodes[i].argOffset];
      if functions[nodes[i].fnIndex] == Buf && args[nodes[i].argOffset] < i {
        var targetIndex := ids[args[nodes[i].argOffset]];
        var target := sel[targetIndex];
        ForwardStep(g, sel, ids, i);
        NamesStep(was, sparse, sel, ids, i, targetIndex);
        sparse := PassName(sparse, i, target);
        sel', ids' := sel, ids + [targetIndex];
      } else {
        KeepStep(g, sel, ids, i);
        NamesKeep(was, sparse, sel, ids, i);
        sel', ids' := sel + [i], ids + [|sel|];
      }
    }
  }

  /** Every argument of a selected node is selected before it. */
  predicate Sorted(g: seq<Term>, perm: seq<nat>)
    requires Within(perm, |g|)
  {
    forall j, k :: 0 <= j < |perm| && 0 <= k < |g[perm[j]].args| ==> g[perm[j]].args[k] in perm[..j]
  }

  lemma {:induction false} SortedClosed(g: seq<Term>, perm: seq<nat>)
    requires Within(perm, |g|) && Sorted(g, perm)
    ensures forall j, k :: 0 <= j < |perm| && 0 <= k < |g[perm[j]].args| ==> g[perm[j]].args[k] in perm
  {
    forall j, k | 0 <= j < |perm| && 0 <= k < |g[perm[j]].args| ensures g[perm[j]].args[k] in perm {
      assert g[perm[j]].args[k] in perm[..j];
    }
  }

  lemma {:induction false} SortedOrdered(g: seq<Term>, perm: seq<nat>, ids: seq<int>)
    requires SelectsClosed(g, perm, ids) && Inverse(perm, ids) && Sorted(g, perm)
    ensures Ordered(Permuted(g, perm, ids))
  {
    var h := Permuted(g, perm, ids);
    forall j | 0 <= j < |h| ensures Within(h[j].args, j) {
      forall k | 0 <= k < |h[j].args| ensures h[j].args[k] < j {
        var a := g[perm[j]].args[k];
        var l :| 0 <= l < |perm[..j]| && perm[..j][l] == a;
        assert ids[perm[l]] == l;
      }
    }
  }

  /** The graph has values that give every key what it had. */
  ghost predicate KeepsKeyed(was: map<int, nat>, v: seq<int>, keys: map<int, nat>, h: seq<Term>, f: Interp)
    requires Closed(h) && forall k :: k in was ==> was[k] < |v|
  {
    exists w :: Solution(h, f, w) && SameKeyed(was, v, keys, w)
  }

  predicate SameKeyed(was: map<int, nat>, v: seq<int>, keys: map<int, nat>, w: seq<int>)
    requires forall k :: k in was ==> was[k] < |v|
  {
    forall k :: k in was ==> k in keys && keys[k] < |w| && w[keys[k]] == v[was[k]]
  }

  lemma {:induction false} KeyedValues(ks: map<int, nat>, v: seq<int>, perm: seq<nat>, ids: seq<int>, sel: seq<nat>,
                                       alias: seq<nat>)
    requires |ids| == |v| && Inverse(perm, ids) && |alias| == |perm| && Within(sel, |perm|) && Within(alias, |sel|)
    requires forall k :: k in ks ==> ks[k] < |v| && ids[ks[k]] >= 0
    requires forall i :: 0 <= i < |perm| ==> Pick(Pick(v, perm), sel)[alias[i]] == Pick(v, perm)[i]
    ensures SameKeyed(ks, v, RenameKeys(RenameKeys(ks, ids), alias), Pick(Pick(v, perm), sel))
  {
    forall k | k in ks ensures Pick(Pick(v, perm), sel)[alias[ids[ks[k]]]] == v[ks[k]] {
      assert perm[ids[ks[k]]] == ks[k];
    }
  }

  // ----- Forwarding buffers

  /** A buffer of an earlier node. */
  predicate Forwardable(g: seq<Term>, i: nat)
    requires i < |g|
  {
    g[i].fn == Buf && |g[i].args| > 0 && g[i].args[0] < i
  }

  predicate Increasing(perm: seq<nat>) {
    forall j, k :: 0 <= j < k < |perm| ==> perm[j] < perm[k]
  }

  /** Among the first `i` nodes, the others are kept in order and each buffer stands for its argument's node. */
  predicate Forwarding(g: seq<Term>, perm: seq<nat>, alias: seq<nat>, i: nat) {
    && Closed(g) && i <= |g| && |alias| == i && Increasing(perm)
    && (forall j :: 0 <= j < |perm| ==> perm[j] < i && !Forwardable(g, perm[j]) && alias[perm[j]] == j)
    && (forall l :: 0 <= l < i ==> StandsFor(g, perm, alias, l))
  }

  /** Node `l` is kept, or is a buffer that goes where its argument goes. */
  predicate StandsFor(g: seq<Term>, perm: seq<nat>, alias: seq<nat>, l: nat)
    requires l < |g|
  {
    && l < |alias| && alias[l] < |perm| && perm[alias[l]] <= l
    && if Forwardable(g, l) then g[l].args[0] < |alias| && alias[l] == alias[g[l].args[0]] else perm[alias[l]] == l
  }

  predicate Forwards(g: seq<Term>, perm: seq<nat>, alias: seq<nat>) {
    Forwarding(g, perm, alias, |g|)
  }

  lemma {:induction false} ForwardStep(g: seq<Term>, perm: seq<nat>, alias: seq<nat>, i: nat)
    requires Forwarding(g, perm, alias, i) && i < |g| && Forwardable(g, i)
    ensures Forwarding(g, perm, alias + [alias[g[i].args[0]]], i + 1)
  {
    assert StandsFor(g, perm, alias, g[i].args[0]);
    var more := alias + [alias[g[i].args[0]]];
    forall l | 0 <= l <= i ensures StandsFor(g, perm, more, l) {
      assert l < i ==> StandsFor(g, perm, alias, l);
    }
  }

  lemma {:induction false} KeepStep(g: seq<Term>, perm: seq<nat>, alias: seq<nat>, i: nat)
    requires Forwarding(g, perm, alias, i) && i < |g| && !Forwardable(g, i)
    ensures Forwarding(g, perm + [i], alias + [|perm|], i + 1)
  {
    var sel, more := perm + [i], alias + [|perm|];
    forall l | 0 <= l <= i ensures StandsFor(g, sel, more, l) {
      assert l < i ==> StandsFor(g, perm, alias, l);
    }
  }

  lemma {:induction false} ForwardClosed(g: seq<Term>, perm: seq<nat>, alias: seq<nat>)
    requires Forwards(g, perm, alias)
    ensures SelectsClosed(g, perm, alias)
  {
    forall l | 0 <= l < |alias| ensures alias[l] < |perm| {
      assert StandsFor(g, perm, alias, l);
    }
    forall j, k | 0 <= j < |perm| && 0 <= k < |g[perm[j]].args| ensures alias[g[perm[j]].args[k]] >= 0 {
      assert Within(g[perm[j]].args, |g|);
    }
  }

  /** A buffer has the value of the node it stands for. */
  lemma {:induction false} AliasValue(g: seq<Term>, perm: seq<nat>, alias: seq<nat>, f: Interp, v: seq<int>, i: nat)
    requires Forwards(g, perm, alias) && Solution(g, f, v) && i < |g|
    ensures StandsFor(g, perm, alias, i) && v[perm[alias[i]]] == v[i]
    decreases i
  {
    if Forwardable(g, i) {
      AliasValue(g, perm, alias, f, v, g[i].args[0]);
    }
  }

  /** Forwarding keeps the value of every node. */
  lemma {:induction false} ForwardSolution(g: seq<Term>, perm: seq<nat>, alias: seq<nat>, f: Interp, v: seq<int>)
    requires Forwards(g, perm, alias) && SelectsClosed(g, perm, alias) && Solution(g, f, v)
    ensures Solution(Permuted(g, perm, alias), f, Pick(v, perm))
    ensures forall i :: 0 <= i < |g| ==> Pick(v, perm)[alias[i]] == v[i]
  {
    forall i | 0 <= i < |g| ensures StandsFor(g, perm, alias, i) && v[perm[alias[i]]] == v[i] {
      AliasValue(g, perm, alias, f, v, i);
    }
    PermutedSolution(g, perm, alias, f, v);
  }

  /** On an ordered graph no buffer is left, and the result is ordered. */
  lemma {:induction false} ForwardOrdered(g: seq<Term>, perm: seq<nat>, alias: seq<nat>)
    requires Forwards(g, perm, alias) && SelectsClosed(g, perm, alias) && Ordered(g)
    ensures var h := Permuted(g, perm, alias); Ordered(h) && forall j :: 0 <= j < |h| ==> h[j].fn != Buf
  {
    var h := Permuted(g, perm, alias);
    forall j | 0 <= j < |h| ensures Within(h[j].args, j) && h[j].fn != Buf {
      var t := g[perm[j]];
      assert Within(t.args, perm[j]) && !Forwardable(g, perm[j]);
      forall k | 0 <= k < |t.args| ensures alias[t.args[k]] < j {
        AliasBefore(g, perm, alias, j, t.args[k]);
      }
    }
  }

  lemma {:induction false} AliasBefore(g: seq<Term>, perm: seq<nat>, alias: seq<nat>, j: nat, a: nat)
    requires Forwards(g, perm, alias) && j < |perm| && a < perm[j]
    ensures alias[a] < j
  {
    assert StandsFor(g, perm, alias, a);
  }

  // ----- Names

  predicate NameOk(name: string) {
    |name| > 0 && (name[0] == '$' || name[0] == '\\')
  }

  predicate IsPublic(name: string) {
    |name| > 0 && name[0] == '\\'
  }

  predicate NamesOk(sparse: map<nat, string>) {
    forall i :: i in sparse ==> NameOk(sparse[i])
  }

  /** The node's name, unless it is private and the target's is public. */
  function MergeName(a: string, b: string): (name: string)
    requires NameOk(a) && NameOk(b)
    ensures NameOk(name) && (IsPublic(name) <==> IsPublic(a) || IsPublic(b))
  {
    if a[0] == '$' && b[0] == '\\' then b else a
  }

  /** A named node leaves a name where it goes, and a public one leaves a public name. */
  predicate NamePasses(was: map<nat, string>, sparse: map<nat, string>, i: nat, target: nat) {
    i in was ==> target in sparse && (IsPublic(was[i]) ==> IsPublic(sparse[target]))
  }

  ghost predicate NamesKept(was: map<nat, string>, sparse: map<nat, string>, perm: seq<nat>, alias: seq<nat>, i: nat) {
    && |alias| == i
    && (forall l :: 0 <= l < i ==> alias[l] < |perm| && NamePasses(was, sparse, l, perm[alias[l]]))
    && (forall l :: l >= i ==> (l in sparse <==> l in was) && (l in was ==> sparse[l] == was[l]))
  }

  /** The name of node `i`, if any, handed to `target`. */
  function PassName(sparse: map<nat, string>, i: nat, target: nat): (r: map<nat, string>)
    requires NamesOk(sparse)
    ensures NamesOk(r) && NamePasses(sparse, r, i, target) && NamePasses(sparse, r, target, target)
    ensures forall l :: l != target ==> (l in r <==> l in sparse) && (l in r ==> r[l] == sparse[l])
  {
    if i !in sparse then sparse
    else if target in sparse then sparse[target := MergeName(sparse[i], sparse[target])]
    else sparse[target := sparse[i]]
  }

  lemma {:induction false} NameStep(was: map<nat, string>, sparse: map<nat, string>, perm: seq<nat>, alias: seq<nat>,
                                    i: nat, t: nat)
    requires NamesOk(sparse) && NamesKept(was, sparse, perm, alias, i) && t < |perm| && perm[t] < i
    ensures NamesKept(was, PassName(sparse, i, perm[t]), perm, alias + [t], i + 1)
  {
    var r, ids := PassName(sparse, i, perm[t]), alias + [t];
    forall l | 0 <= l <= i ensures ids[l] < |perm| && NamePasses(was, r, l, perm[ids[l]]) {
      if l < i {
        assert NamePasses(was, sparse, l, perm[alias[l]]);
      }
    }
  }

  lemma {:induction false} NameKeep(was: map<nat, string>, sparse: map<nat, string>, perm: seq<nat>, alias: seq<nat>,
                                    i: nat)
    requires NamesKept(was, sparse, perm, alias, i)
    ensures NamesKept(was, sparse, perm + [i], alias + [|perm|], i + 1)
  {
  }

  /** Of two named nodes with one target, the public one prevails, or the later one if both or neither are. */
  predicate Prevails(was: map<nat, string>, l: nat, m: nat)
    requires l in was && m in was
  {
    if IsPublic(was[l]) == IsPublic(was[m]) then l > m else IsPublic(was[l])
  }

  predicate Wins(was: map<nat, string>, alias: seq<nat>, n: nat, t: nat, l: nat)
    requires n <= |alias|
  {
    && l < n && alias[l] == t && l in was
    && forall m: nat :: m < n && alias[m] == t && m in was && m != l ==> Prevails(was, l, m)
  }

  /** The name at `at` is the one that prevails among the first `n` nodes with target `t`, if any has a name. */
  ghost predicate Inherits(was: map<nat, string>, alias: seq<nat>, n: nat, t: nat, sparse: map<nat, string>, at: nat)
    requires n <= |alias|
  {
    if at in sparse then exists l: nat :: Wins(was, alias, n, t, l) && sparse[at] == was[l]
    else forall l: nat :: l < n && alias[l] == t ==> l !in was
  }

  ghost predicate Inherited(was: map<nat, string>, sparse: map<nat, string>, perm: seq<nat>, alias: seq<nat>, i: nat) {
    |alias| == i && forall t :: 0 <= t < |perm| ==> Inherits(was, alias, i, t, sparse, perm[t])
  }

  /** A node with another target changes nothing. */
  lemma {:induction false} InheritOther(was: map<nat, string>, alias: seq<nat>, u: nat, t: nat,
                                        sparse: map<nat, string>, at: nat)
    requires Inherits(was, alias, |alias|, t, sparse, at) && (u != t || |alias| !in was)
    ensures Inherits(was, alias + [u], |alias| + 1, t, sparse, at)
  {
    if at in sparse {
      var l: nat :| Wins(was, alias, |alias|, t, l) && sparse[at] == was[l];
      assert Wins(was, alias + [u], |alias| + 1, t, l);
    }
  }

  /** A named buffer competes with the names that its target has inherited. */
  lemma {:induction false} InheritMerged(was: map<nat, string>, alias: seq<nat>, t: nat, sparse: map<nat, string>,
                                         at: nat)
    requires NamesOk(sparse) && NamesOk(was) && Inherits(was, alias, |alias|, t, sparse, at)
    requires |alias| in was && |alias| in sparse && sparse[|alias|] == was[|alias|]
    ensures Inherits(was, alias + [t], |alias| + 1, t, PassName(sparse, |alias|, at), at)
  {
    var i, more := |alias|, alias + [t];
    if at in sparse {
      var l: nat :| Wins(was, alias, i, t, l) && sparse[at] == was[l];
      if IsPublic(was[l]) && !IsPublic(was[i]) {
        assert Wins(was, more, i + 1, t, l);
      } else {
        assert Wins(was, more, i + 1, t, i);
      }
    } else {
      assert Wins(was, more, i + 1, t, i);
    }
  }

  lemma {:induction false} InheritStep(was: map<nat, string>, sparse: map<nat, string>, perm: seq<nat>, alias: seq<nat>,
                                       i: nat, t: nat)
    requires NamesOk(sparse) && NamesOk(was) && NamesKept(was, sparse, perm, alias, i) && t < |perm| && perm[t] < i
    requires Inherited(was, sparse, perm, alias, i) && Increasing(perm)
    ensures Inherited(was, PassName(sparse, i, perm[t]), perm, alias + [t], i + 1)
  {
    var r := PassName(sparse, i, perm[t]);
    forall u | 0 <= u < |perm| ensures Inherits(was, alias + [t], i + 1, u, r, perm[u]) {
      assert Inherits(was, alias, i, u, sparse, perm[u]);
      if u == t && i in was {
        InheritMerged(was, alias, t, sparse, perm[t]);
      } else {
        InheritOther(was, alias, t, u, sparse, perm[u]);
        assert u != t ==> perm[u] != perm[t];
      }
    }
  }

  lemma {:induction false} InheritKeep(was: map<nat, string>, sparse: map<nat, string>, perm: seq<nat>, alias: seq<nat>,
                                       i: nat)
    requires NamesKept(was, sparse, perm, alias, i) && Inherited(was, sparse, perm, alias, i)
    ensures Inherited(was, sparse, perm + [i], alias + [|perm|], i + 1)
  {
    var more := alias + [|perm|];
    forall u | 0 <= u <= |perm| ensures Inherits(was, more, i + 1, u, sparse, (perm + [i])[u]) {
      if u < |perm| {
        assert Inherits(was, alias, i, u, sparse, perm[u]);
        InheritOther(was, alias, |perm|, u, sparse, perm[u]);
      } else if i in was {
        assert Wins(was, more, i + 1, |perm|, i);
      }
    }
  }

  ghost predicate NamesSoFar(was: map<nat, string>, sparse: map<nat, string>, perm: seq<nat>, alias: seq<nat>, i: nat) {
    NamesKept(was, sparse, perm, alias, i) && Inherited(was, sparse, perm, alias, i)
  }

  lemma {:induction false} NamesStep(was: map<nat, string>, sparse: map<nat, string>, perm: seq<nat>, alias: seq<nat>,
                                     i: nat, t: nat)
    requires NamesOk(sparse) && NamesOk(was) && NamesSoFar(was, sparse, perm, alias, i)
    requires t < |perm| && perm[t] < i && Increasing(perm)
    ensures NamesSoFar(was, PassName(sparse, i, perm[t]), perm, alias + [t], i + 1)
  {
    NameStep(was, sparse, perm, alias, i, t);
    InheritStep(was, sparse, perm, alias, i, t);
  }

  lemma {:induction false} NamesKeep(was: map<nat, string>, sparse: map<nat, string>, perm: seq<nat>, alias: seq<nat>,
                                     i: nat)
    requires NamesSoFar(was, sparse, perm, alias, i)
    ensures NamesSoFar(was, sparse, perm + [i], alias + [|perm|], i + 1)
  {
    NameKeep(was, sparse, perm, alias, i);
    InheritKeep(was, sparse, perm, alias, i);
  }

  /** The names after the kept nodes have moved to their new places. */
  lemma {:induction false} NamesDone(was: map<nat, string>, names: map<nat, string>, sparse: map<nat, string>,
                                     perm: seq<nat>, alias: seq<nat>)
    requires NamesSoFar(was, names, perm, alias, |alias|)
    requires forall j :: 0 <= j < |perm| ==>
               (j in sparse <==> perm[j] in names) && (j in sparse ==> sparse[j] == names[perm[j]])
    ensures KeepsNames(was, sparse, alias)
    ensures forall t :: 0 <= t < |perm| ==> Inherits(was, alias, |alias|, t, sparse, t)
  {
    forall l | 0 <= l < |alias| ensures NamePasses(was, sparse, l, alias[l]) {
      assert NamePasses(was, names, l, perm[alias[l]]);
    }
    forall t | 0 <= t < |perm| ensures Inherits(was, alias, |alias|, t, sparse, t) {
      assert Inherits(was, alias, |alias|, t, names, perm[t]);
    }
  }

  ghost predicate KeepsNames(was: map<nat, string>, sparse: map<nat, string>, alias: seq<nat>) {
    forall l :: 0 <= l < |alias| ==> NamePasses(was, sparse, l, alias[l])
  }

  function RenameKeys(keys: map<int, nat>, ids: seq<int>): (r: map<int, nat>)
    requires forall k :: k in keys ==> keys[k] < |ids| && ids[keys[k]] >= 0
    ensures r.Keys == keys.Keys && forall k :: k in keys ==> r[k] == ids[keys[k]]
  {
    map k | k in keys :: (ids[keys[k]] as nat)
  }

  method InvertPerm(perm: seq<nat>, n: nat) returns (ids: seq<int>)
    requires Within(perm, n) && (forall i, j :: 0 <= i < j < |perm| ==> perm[i] != perm[j])
    ensures |ids| == n && Inverse(perm, ids)
    ensures forall i :: 0 <= i < n ==> -1 <= ids[i] < |perm| && (i in perm ==> ids[i] >= 0)
  {
    ids := seq(n, _ => -1);
    for i := 0 to |perm|
      invariant |ids| == n && forall l :: 0 <= l < n ==> -1 <= ids[l] < i && (ids[l] >= 0 ==> perm[ids[l]] == l)
      invariant forall j :: 0 <= j < i ==> ids[perm[j]] == j
    {
      var j := perm[i];
      assert ids[j] == -1;
      ids := ids[j := i];
    }
  }

  function Select(g: seq<Term>, perm: seq<nat>): (h: seq<Term>)
    requires Within(perm, |g|)
    ensures |h| == |perm|
  {
    seq(|perm|, j requires 0 <= j < |perm| => g[perm[j]])
  }

  /** Every argument of a selected node is renamed. */
  lemma {:induction false} SelectedIds(g: seq<Term>, perm: seq<nat>, ids: seq<int>, n: nat)
    requires SelectsClosed(g, perm, ids) && n <= |perm|
    ensures Renamable(Flat(Select(g, perm)[..n]), ids)
  {
    if n > 0 {
      var sel := Select(g, perm);
      SelectedIds(g, perm, ids, n - 1);
      assert sel[..n][..n - 1] == sel[..n - 1];
      assert sel[n - 1] == g[perm[n - 1]] && Within(sel[n - 1].args, |g|);
    }
  }

  predicate Renamable(args: seq<nat>, ids: seq<int>) {
    forall k :: 0 <= k < |args| ==> args[k] < |ids| && ids[args[k]] >= 0
  }

  lemma {:induction false} RenamedView(functions: seq<Fn>, nodes: seq<Node>, args: seq<nat>, renamed: seq<nat>,
                                       ids: seq<int>, g: seq<Term>)
    requires Slots(functions, nodes, args) && View(functions, nodes, args) == g
    requires Renamable(args, ids) && |renamed| == |args| && forall l :: 0 <= l < |args| ==> renamed[l] == ids[args[l]]
    ensures Slots(functions, nodes, renamed)
    ensures forall i :: 0 <= i < |g| ==>
            Renamable(g[i].args, ids) && View(functions, nodes, renamed)[i] == g[i].(args := MapArgs(g[i].args, ids))
  {
    forall i | 0 <= i < |g| ensures Renamable(g[i].args, ids)
        && View(functions, nodes, renamed)[i] == g[i].(args := MapArgs(g[i].args, ids)) {
      assert g[i].args == Slice(nodes[i], args);
      assert Slice(nodes[i], renamed) == MapArgs(g[i].args, ids);
    }
  }

  predicate AllCompacted(nodes: seq<Node>, was: seq<Node>, newArgs: seq<nat>, args: seq<nat>) {
    |nodes| == |was| && forall j :: 0 <= j < |nodes| ==> Compacted(nodes[j], was[j], newArgs, args)
  }

  /** The first nodes have their arguments at the front of the new vector. */
  ghost predicate Compacting(g: seq<Term>, nodes: seq<Node>, was: seq<Node>, newArgs: seq<nat>, args: seq<nat>) {
    |nodes| <= |g| && newArgs == Flat(g[..|nodes|]) && AllCompacted(nodes, was, newArgs, args)
  }

  lemma {:induction false} CompactingStep(g: seq<Term>, nodes: seq<Node>, was: seq<Node>, newArgs: seq<nat>,
                                          args: seq<nat>,
                                          functions: seq<Fn>, i: nat)
    requires Slots(functions, was, args) && g == View(functions, was, args) && i < |nodes| == |was|
             && nodes[i] == was[i]
    requires Compacting(g, nodes[..i], was[..i], newArgs, args)
    ensures var n := nodes[i];
            Compacting(g, nodes[i := n.(argOffset := |newArgs|)][..i + 1], was[..i + 1], newArgs + Slice(n, args), args)
  {
    var n := nodes[i];
    var more := nodes[i := n.(argOffset := |newArgs|)];
    CompactStep(nodes[..i], was[..i], newArgs, n, args);
    assert more[..i + 1] == nodes[..i] + [more[i]] && was[..i + 1] == was[..i] + [was[i]];
    assert g[..i + 1][..i] == g[..i] && g[..i + 1][i] == g[i];
  }

  lemma {:induction false} CompactStep(nodes: seq<Node>, was: seq<Node>, newArgs: seq<nat>, node: Node, args: seq<nat>)
    requires AllCompacted(nodes, was, newArgs, args) && node.argOffset + node.argCount <= |args|
    ensures AllCompacted(nodes + [node.(argOffset := |newArgs|)], was + [node], newArgs + Slice(node, args), args)
  {
    var more := newArgs + Slice(node, args);
    forall j | 0 <= j < |nodes| ensures Compacted(nodes[j], was[j], more, args) {
      assert Slice(nodes[j], more) == Slice(nodes[j], newArgs);
    }
    assert Slice(node.(argOffset := |newArgs|), more) == Slice(node, args);
  }

  lemma {:induction false} CompactedView(functions: seq<Fn>, nodes: seq<Node>, was: seq<Node>, newArgs: seq<nat>,
                                         args: seq<nat>)
    requires AllCompacted(nodes, was, newArgs, args) && Slots(functions, was, args)
    ensures Slots(functions, nodes, newArgs) && View(functions, nodes, newArgs) == View(functions, was, args)
  {
    assert forall j :: 0 <= j < |nodes| ==> Compacted(nodes[j], was[j], newArgs, args);
  }

  predicate Compacted(n: Node, was: Node, newArgs: seq<nat>, args: seq<nat>) {
    && n.fnIndex == was.fnIndex && n.attr == was.attr && n.argCount == was.argCount
    && n.argOffset + n.argCount <= |newArgs| && was.argOffset + was.argCount <= |args|
    && Slice(n, newArgs) == Slice(was, args)
  }

  /** All arguments in node order. */
  function Flat(g: seq<Term>): seq<nat> {
    if |g| == 0 then [] else Flat(g[..|g| - 1]) + g[|g| - 1].args
  }
}
