/** Hashed and-inverter graphs: the node table and the gates of `AigMaker` (`kernel/cellaigs.cc`). */
module Aig {
  import opened Bits
  import opened Calc
  import opened FunctionalAlu

  datatype Port = NoPort | PortA | PortB | PortS | PortCI | PortBI | PortY | PortX | PortCO

  /** The part of an `AigNode` that its equality and hash look at. */
  datatype Core = Core(port: Port, bit: int, inverter: bool, left: int, right: int)

  datatype AigNode = AigNode(core: Core, outports: seq<(Port, nat)>)

  /** The values on a cell's input ports. */
  datatype Inputs = Inputs(a: Const, b: Const, s: Const, ci: Const, bi: Const)

  function InputOf(env: Inputs, p: Port): Const {
    match p
    case PortA => env.a
    case PortB => env.b
    case PortS => env.s
    case PortCI => env.ci
    case PortBI => env.bi
    case _ => []
  }

  predicate IsInput(p: Port) {
    p.PortA? || p.PortB? || p.PortS? || p.PortCI? || p.PortBI?
  }

  /** The widths and signedness of a cell's ports. */
  datatype Cell = Cell(aWidth: nat, bWidth: nat, yWidth: nat, aSigned: bool, bSigned: bool) {
    function Size(p: Port): nat {
      match p
      case NoPort => 0
      case PortA => aWidth
      case PortB => bWidth
      case PortS => 1
      case PortCI => 1
      case PortBI => 1
      case _ => yWidth
    }

    predicate IsSigned(p: Port) {
      (p == PortA && aSigned) || (p == PortB && bSigned)
    }

    /** Fully defined inputs of the right widths. */
    predicate Fits(env: Inputs) {
      && |env.a| == aWidth && |env.b| == bWidth && |env.s| == 1 && |env.ci| == 1 && |env.bi| == 1
      && Defined(env.a) && Defined(env.b) && Defined(env.s) && Defined(env.ci) && Defined(env.bi)
    }
  }

  // ----- Graphs

  /** A constant, an input bit, or an and of two different earlier nodes in ascending order. */
  predicate WellFormedCore(c: Core, n: nat) {
    || (c.left == -1 && c.right == -1 && -1 <= c.bit && (c.bit == -1 ==> c.port == NoPort))
    || (c.bit == -1 && c.port == NoPort && 0 <= c.left < c.right < n)
  }

  /** Parents precede children, and no two nodes are structurally equal. */
  predicate Graph(g: seq<Core>) {
    && (forall i :: 0 <= i < |g| ==> WellFormedCore(g[i], i))
    && (forall i, j :: 0 <= i < j < |g| ==> g[i] != g[j])
  }

  predicate IsConstant(c: Core) {
    c.bit < 0 && c.left < 0 && c.right < 0
  }

  predicate Opposite(c: Core, d: Core) {
    c == d.(inverter := !d.inverter)
  }

  /** An and that no folding rule applies to. */
  predicate SimpleAnd(g: seq<Core>, c: Core) {
    0 <= c.left < |g| && 0 <= c.right < |g| ==>
      !IsConstant(g[c.left]) && !IsConstant(g[c.right]) && !Opposite(g[c.left], g[c.right])
  }

  predicate Simplified(g: seq<Core>) {
    forall i {:trigger SimpleAnd(g, g[i])} :: 0 <= i < |g| ==> SimpleAnd(g, g[i])
  }

  lemma {:induction false} SimpleMore(g: seq<Core>, c: Core)
    requires Graph(g) && Simplified(g) && SimpleAnd(g, c) && WellFormedCore(c, |g|)
    ensures Simplified(g + [c])
  {
    var h := g + [c];
    forall i | 0 <= i < |h| ensures SimpleAnd(h, h[i]) {
      if i < |g| {
        assert WellFormedCore(g[i], i) && SimpleAnd(g, g[i]);
      }
    }
  }

  predicate LeafVal(c: Core, env: Inputs) {
    0 <= c.bit < |InputOf(env, c.port)| && InputOf(env, c.port)[c.bit] == S1
  }

  /** The value of node `i`. */
  predicate Ev(g: seq<Core>, i: nat, env: Inputs)
    requires i < |g|
  {
    var c := g[i];
    if 0 <= c.left < i && 0 <= c.right < i then (Ev(g, c.left, env) && Ev(g, c.right, env)) != c.inverter
    else LeafVal(c, env) != c.inverter
  }

  /** The value a new node would have on top of `g`. */
  predicate CoreVal(g: seq<Core>, c: Core, env: Inputs) {
    if 0 <= c.left < |g| && 0 <= c.right < |g| then (Ev(g, c.left, env) && Ev(g, c.right, env)) != c.inverter
    else LeafVal(c, env) != c.inverter
  }

  /** `h` is `g` with more nodes on top, and the old nodes keep their values. */
  ghost predicate Grows(g: seq<Core>, h: seq<Core>) {
    g <= h && forall k: nat, env {:trigger Ev(h, k, env)} :: k < |g| ==> Ev(h, k, env) == Ev(g, k, env)
  }

  lemma {:induction false} EvPrefix(g: seq<Core>, h: seq<Core>, k: nat, env: Inputs)
    requires g <= h && k < |g|
    ensures Ev(h, k, env) == Ev(g, k, env)
    decreases k
  {
    var c := g[k];
    if 0 <= c.left < k && 0 <= c.right < k {
      EvPrefix(g, h, c.left, env);
      EvPrefix(g, h, c.right, env);
    }
  }

  lemma {:induction false} PrefixGrows(g: seq<Core>, h: seq<Core>)
    requires g <= h
    ensures Grows(g, h)
  {
    forall k: nat, env | k < |g| ensures Ev(h, k, env) == Ev(g, k, env) {
      EvPrefix(g, h, k, env);
    }
  }

  /** Two nodes that differ only in the inverter have opposite values. */
  lemma {:induction false} OppositeNodes(g: seq<Core>, i: nat, j: nat, env: Inputs)
    requires Graph(g) && i < |g| && j < |g| && g[i] == g[j].(inverter := !g[j].inverter)
    ensures Ev(g, i, env) == !Ev(g, j, env)
  {
    assert WellFormedCore(g[i], i) && WellFormedCore(g[j], j);
  }

  /** The node table orders the operands of an and. */
  function Normal(c: Core): Core {
    if c.left > c.right then c.(left := c.right, right := c.left) else c
  }

  lemma {:induction false} NodeValue(g: seq<Core>, i: nat, c: Core, env: Inputs)
    requires Graph(g) && i < |g| && g[i] == Normal(c)
    ensures Ev(g, i, env) == CoreVal(g, c, env)
  {
    assert WellFormedCore(g[i], i);
  }

  lemma {:induction false} FoundNode(g: seq<Core>, h: seq<Core>, r: nat, c: Core)
    requires g <= h && Graph(h) && r < |h| && h[r] == c && WellFormedCore(c, |g|)
    ensures Grows(g, h) && forall env :: Ev(h, r, env) == CoreVal(g, c, env)
  {
    PrefixGrows(g, h);
    forall env ensures Ev(h, r, env) == CoreVal(g, c, env) {
      NodeValue(h, r, c, env);
    }
  }

  // ----- AigMaker

  class AigMaker {
    const cell: Cell
    var nodes: seq<AigNode>
    // the keys of the index dictionary, in order of their indices
    var indices: seq<Core>
    // the node that drives each output bit
    ghost var outs: map<(Port, nat), nat>

    ghost predicate Valid()
      reads this
    {
      && Graph(indices) && Simplified(indices)
      && |nodes| == |indices| && (forall i :: 0 <= i < |nodes| ==> nodes[i].core == indices[i])
      && (forall k :: k in outs ==> outs[k] < |nodes|)
      && (forall i, k :: 0 <= i < |nodes| ==> (k in nodes[i].outports <==> k in outs && outs[k] == i))
    }

    constructor (cell: Cell)
      ensures Valid() && this.cell == cell && outs == map[] && indices == []
    {
      this.cell := cell;
      nodes, indices, outs := [], [], map[];
    }

    method Node2index(node: Core) returns (r: nat)
      requires Valid() && WellFormedCore(Normal(node), |indices|) && SimpleAnd(indices, node)
      modifies `nodes, `indices
      ensures Valid() && Grows(old(indices), indices) && r < |indices| && indices[r] == Normal(node)
      ensures forall env :: Ev(indices, r, env) == CoreVal(old(indices), node, env)
      decreases node.left > node.right
    {
      if node.left > node.right {
        r := Node2index(node.(left := node.right, right := node.left));
        return;
      }
      r := FindOrAdd(node);
    }

    method FindOrAdd(node: Core) returns (r: nat)
      requires Valid() && WellFormedCore(node, |indices|) && SimpleAnd(indices, node)
      modifies `nodes, `indices
      ensures Valid() && Grows(old(indices), indices) && r < |indices| && indices[r] == node
      ensures forall env :: Ev(indices, r, env) == CoreVal(old(indices), node, env)
    {
      if node !in indices {
        SimpleMore(indices, node);
        indices := indices + [node];
        nodes := nodes + [AigNode(node, [])];
      }
      r :| 0 <= r < |indices| && indices[r] == node;
      FoundNode(old(indices), indices, r, node);
    }

    method BoolNode(value: bool) returns (r: nat)
      requires Valid()
      modifies `nodes, `indices
      ensures Valid() && Grows(old(indices), indices) && r < |indices|
      ensures forall env :: Ev(indices, r, env) == value
    {
      r := Node2index(Core(NoPort, -1, value, -1, -1));
    }

    method Inport(port: Port, bit: nat, inverter: bool) returns (r: nat)
      requires Valid() && IsInput(port) && (cell.IsSigned(port) ==> cell.Size(port) > 0)
      modifies `nodes, `indices
      ensures Valid() && Grows(old(indices), indices) && r < |indices|
      ensures forall env :: cell.Fits(env) ==>
                Ev(indices, r, env) == ((ExtBit(InputOf(env, port), cell.IsSigned(port), bit) == S1) != inverter)
      decreases bit >= cell.Size(port)
    {
      if bit >= cell.Size(port) {
        if cell.IsSigned(port) {
          r := Inport(port, cell.Size(port) - 1, inverter);
          return;
        }
        r := BoolNode(inverter);
        return;
      }
      r := Node2index(Core(port, bit, inverter, -1, -1));
    }

    method NotGate(a: nat) returns (r: nat)
      requires Valid() && a < |indices|
      modifies `nodes, `indices
      ensures Valid() && Grows(old(indices), indices) && r < |indices|
      ensures forall env :: Ev(indices, r, env) == !Ev(old(indices), a, env)
    {
      var node := indices[a];
      node := node.(inverter := !node.inverter);
      assert WellFormedCore(indices[a], a) && SimpleAnd(indices, indices[a]);
      r := Node2index(node);
    }

    method AndGate(a: nat, b: nat, inverter: bool) returns (r: nat)
      requires Valid() && a < |indices| && b < |indices|
      modifies `nodes, `indices
      ensures Valid() && Grows(old(indices), indices) && r < |indices|
      ensures forall env :: Ev(indices, r, env) == ((Ev(old(indices), a, env) && Ev(old(indices), b, env)) != inverter)
    {
      if a == b {
        if inverter {
          r := NotGate(a);
        } else {
          r := a;
        }
        return;
      }
      var nA, nB := indices[a], indices[b];
      assert WellFormedCore(nA, a) && WellFormedCore(nB, b);
      if nA == nB.(inverter := !nB.inverter) {
        r := BoolNode(inverter);
        forall env ensures Ev(old(indices), a, env) == !Ev(old(indices), b, env) {
          OppositeNodes(old(indices), a, b, env);
        }
        return;
      }
      var aBool := nA.bit < 0 && nA.left < 0 && nA.right < 0;
      var bBool := nB.bit < 0 && nB.left < 0 && nB.right < 0;
      assert aBool ==> forall env :: Ev(indices, a, env) == nA.inverter;
      assert bBool ==> forall env :: Ev(indices, b, env) == nB.inverter;
      if aBool && bBool {
        // unreachable: two different constant nodes are opposite, which the test above caught
        assert false;
      } else if aBool {
        r := Gated(b, nA.inverter, inverter);
      } else if bBool {
        r := Gated(a, nB.inverter, inverter);
      } else {
        r := Node2index(Core(NoPort, -1, inverter, a, b));
      }
    }

    /** The and of a node with a constant. */
    method Gated(n: nat, value: bool, inverter: bool) returns (r: nat)
      requires Valid() && n < |indices|
      modifies `nodes, `indices
      ensures Valid() && Grows(old(indices), indices) && r < |indices|
      ensures forall env :: Ev(indices, r, env) == ((Ev(old(indices), n, env) && value) != inverter)
    {
      if inverter {
        if value {
          r := NotGate(n);
        } else {
          r := BoolNode(true);
        }
      } else if value {
        r := n;
      } else {
        r := BoolNode(false);
      }
    }

    method OrGate(a: nat, b: nat) returns (r: nat)
      requires Valid() && a < |indices| && b < |indices|
      modifies `nodes, `indices
      ensures Valid() && Grows(old(indices), indices) && r < |indices|
      ensures forall env :: Ev(indices, r, env) == (Ev(old(indices), a, env) || Ev(old(indices), b, env))
    {
      var p := NotGate(a);
      var q := NotGate(b);
      r := AndGate(p, q, true);
    }

    method NorGate(a: nat, b: nat) returns (r: nat)
      requires Valid() && a < |indices| && b < |indices|
      modifies `nodes, `indices
      ensures Valid() && Grows(old(indices), indices) && r < |indices|
      ensures forall env :: Ev(indices, r, env) == !(Ev(old(indices), a, env) || Ev(old(indices), b, env))
    {
      var p := NotGate(a);
      var q := NotGate(b);
      r := AndGate(p, q, false);
    }

    method XorGate(a: nat, b: nat) returns (r: nat)
      requires Valid() && a < |indices| && b < |indices|
      modifies `nodes, `indices
      ensures Valid() && Grows(old(indices), indices) && r < |indices|
      ensures forall env :: Ev(indices, r, env) == (Ev(old(indices), a, env) != Ev(old(indices), b, env))
    {
      var p := AndGate(a, b, false);
      var q := NorGate(a, b);
      r := NorGate(p, q);
    }

    method XnorGate(a: nat, b: nat) returns (r: nat)
      requires Valid() && a < |indices| && b < |indices|
      modifies `nodes, `indices
      ensures Valid() && Grows(old(indices), indices) && r < |indices|
      ensures forall env :: Ev(indices, r, env) == (Ev(old(indices), a, env) == Ev(old(indices), b, env))
    {
      var p := AndGate(a, b, false);
      var q := NorGate(a, b);
      r := OrGate(p, q);
    }

    method MuxGate(a: nat, b: nat, s: nat) returns (r: nat)
      requires Valid() && a < |indices| && b < |indices| && s < |indices|
      modifies `nodes, `indices
      ensures Valid() && Grows(old(indices), indices) && r < |indices|
      ensures forall env ::
                Ev(indices, r, env) == if Ev(old(indices), s, env)
                    then Ev(old(indices), b, env) else Ev(old(indices), a, env)
    {
      var t := NotGate(s);
      var p := AndGate(a, t, false);
      var q := AndGate(b, s, false);
      r := OrGate(p, q);
    }

    // ----- Words

    method InportVec(port: Port, width: nat) returns (vec: seq<nat>)
      requires Valid() && IsInput(port) && (cell.IsSigned(port) ==> cell.Size(port) > 0)
      modifies `nodes, `indices
      ensures Valid() && Grows(old(indices), indices) && |vec| == width && In(vec, indices)
      ensures forall env :: cell.Fits(env) ==>
                BitsOf(indices, vec, env) == Extend(InputOf(env, port), width, cell.IsSigned(port))
    {
      vec := [];
      for i := 0 to width
        invariant Valid() && Grows(old(indices), indices) && |vec| == i && In(vec, indices)
        invariant forall env, k :: cell.Fits(env) && 0 <= k < i ==>
                    Ev(indices, vec[k], env) == (ExtBit(InputOf(env, port), cell.IsSigned(port), k) == S1)
      {
        var n := Inport(port, i, false);
        vec := vec + [n];
      }
      forall env | cell.Fits(env)
        ensures BitsOf(indices, vec, env) == Extend(InputOf(env, port), width, cell.IsSigned(port))
      {
        assert Defined(Extend(InputOf(env, port), width, cell.IsSigned(port)));
      }
    }

    /** Every node of a vector inverted. */
    method NotVec(vec: seq<nat>) returns (r: seq<nat>)
      requires Valid() && In(vec, indices)
      modifies `nodes, `indices
      ensures Valid() && Grows(old(indices), indices) && |r| == |vec| && In(r, indices)
      ensures forall env, k :: 0 <= k < |vec| ==> Ev(indices, r[k], env) == !Ev(old(indices), vec[k], env)
    {
      r := [];
      for i := 0 to |vec|
        invariant Valid() && Grows(old(indices), indices) && |r| == i && In(r, indices)
        invariant forall env, k :: 0 <= k < i ==> Ev(indices, r[k], env) == !Ev(old(indices), vec[k], env)
      {
        var n := NotGate(vec[i]);
        r := r + [n];
      }
    }

    /** The full adder chain, with the carry out of every bit. */
    method Adder(a: seq<nat>, b: seq<nat>, carryIn: nat) returns (y: seq<nat>, co: seq<nat>)
      requires Valid() && |a| == |b| && In(a, indices) && In(b, indices) && carryIn < |indices|
      modifies `nodes, `indices
      ensures Valid() && Grows(old(indices), indices) && |y| == |co| == |a| && In(y, indices) && In(co, indices)
      ensures forall env ::
                BitsOf(indices, y, env) ==
                    RippleSum(BitsOf(old(indices), a, env), BitsOf(old(indices), b, env),
                        Ev(old(indices), carryIn, env))
      ensures forall env ::
                BitsOf(indices, co, env) ==
                    RippleCarries(BitsOf(old(indices), a, env), BitsOf(old(indices), b, env),
                        Ev(old(indices), carryIn, env))
    {
      y, co := [], [];
      var carry: nat := carryIn;
      ghost var g := indices;
      for i := 0 to |a|
        invariant Valid() && Grows(g, indices) && |y| == |co| == i && In(y, indices) && In(co, indices)
                  && carry < |indices|
        invariant CarryNode(g, a, b, carryIn, i, indices, carry)
        invariant SumNodes(g, a, b, carryIn, indices, y) && CarryNodes(g, a, b, carryIn, indices, co)
      {
        ghost var h, c := indices, carry;
        var n;
        n, carry := FullAdder(a[i], b[i], carry);
        SumStep(g, a, b, carryIn, h, c, y, indices, n);
        CarryStep(g, a, b, carryIn, h, c, co, indices, carry);
        y, co := y + [n], co + [carry];
      }
    }

    method FullAdder(a: nat, b: nat, c: nat) returns (y: nat, carry: nat)
      requires Valid() && a < |indices| && b < |indices| && c < |indices|
      modifies `nodes, `indices
      ensures Valid() && Grows(old(indices), indices) && y < |indices| && carry < |indices|
      ensures forall env ::
              Ev(indices, y, env) ==
                  ((Ev(old(indices), a, env) != Ev(old(indices), b, env)) != Ev(old(indices), c, env))
      ensures forall env ::
              Ev(indices, carry, env) ==
                  Majority(Ev(old(indices), a, env), Ev(old(indices), b, env), Ev(old(indices), c, env))
    {
      var half := XorGate(a, b);
      y := XorGate(half, c);
      carry := CarryGate(a, b, c);
    }

    method CarryGate(a: nat, b: nat, c: nat) returns (carry: nat)
      requires Valid() && a < |indices| && b < |indices| && c < |indices|
      modifies `nodes, `indices
      ensures Valid() && Grows(old(indices), indices) && carry < |indices|
      ensures forall env ::
              Ev(indices, carry, env) ==
                  Majority(Ev(old(indices), a, env), Ev(old(indices), b, env), Ev(old(indices), c, env))
    {
      var p := AndGate(a, b, false);
      var q := OrGate(a, b);
      q := AndGate(q, c, false);
      carry := OrGate(p, q);
    }

    // ----- Outputs

    method Outport(node: nat, port: Port, bit: nat)
      requires Valid() && node < |nodes| && (port, bit) !in outs
      modifies `nodes, `outs
      ensures Valid()
      ensures outs == if bit < cell.Size(port) then old(outs)[(port, bit) := node] else old(outs)
    {
      if bit < cell.Size(port) {
        nodes := nodes[node := nodes[node].(outports := nodes[node].outports + [(port, bit)])];
        outs := outs[(port, bit) := node];
      }
    }

    method OutportVec(vec: seq<nat>, port: Port)
      requires Valid() && In(vec, indices) && |vec| == cell.Size(port) && (forall b: nat :: (port, b) !in outs)
      modifies `nodes, `outs
      ensures Valid() && outs == Driven(old(outs), port, vec)
    {
      for i := 0 to |vec|
        invariant Valid() && outs == Driven(old(outs), port, vec[..i])
      {
        DrivenKeys(old(outs), port, vec[..i], port, i);
        Outport(vec[i], port, i);
        assert vec[..i + 1][..i] == vec[..i];
      }
      assert vec[..|vec|] == vec;
    }

    /** A one-bit result with zeros above it. */
    method OutportBool(node: nat, port: Port) returns (ghost vec: seq<nat>)
      requires Valid() && node < |indices| && cell.Size(port) > 0 && (forall b: nat :: (port, b) !in outs)
      modifies `nodes, `indices, `outs
      ensures Valid() && Grows(old(indices), indices) && In(vec, indices) && |vec| == cell.Size(port)
      ensures outs == Driven(old(outs), port, vec)
      ensures forall env :: BitsOf(indices, vec, env) == Flag(ToState(Ev(old(indices), node, env)), |vec|)
    {
      Outport(node, port, 0);
      vec := [node];
      assert vec[..0] == [];
      for i := 1 to cell.Size(port)
        invariant Valid() && Grows(old(indices), indices) && |vec| == i && In(vec, indices) && vec[0] == node
        invariant outs == Driven(old(outs), port, vec)
        invariant ZeroNodes(indices, vec)
      {
        ghost var h, v := indices, vec;
        vec := ZeroAbove(vec, port, old(outs), i);
        ZeroStep(h, v, indices, vec);
      }
      FlagBits(indices, vec);
    }

    method ZeroAbove(ghost vec: seq<nat>, port: Port, ghost was: map<(Port, nat), nat>, i: nat)
        returns (ghost r: seq<nat>)
      requires Valid() && In(vec, indices) && |vec| == i < cell.Size(port) && (forall b: nat :: (port, b) !in was)
      requires outs == Driven(was, port, vec)
      modifies `nodes, `indices, `outs
      ensures Valid() && Grows(old(indices), indices) && |r| == |vec| + 1 && r[..|vec|] == vec && In(r, indices)
      ensures outs == Driven(was, port, r) && forall env :: !Ev(indices, r[|vec|], env)
    {
      var zero := BoolNode(false);
      DrivenKeys(was, port, vec, port, i);
      Outport(zero, port, i);
      r := vec + [zero];
      DrivenMore(was, port, vec, zero);
    }
  }

  predicate In(vec: seq<nat>, g: seq<Core>) {
    forall i :: 0 <= i < |vec| ==> vec[i] < |g|
  }

  /** The value of a vector of nodes. */
  function BitsOf(g: seq<Core>, vec: seq<nat>, env: Inputs): (c: Const)
    requires In(vec, g)
    ensures |c| == |vec| && Defined(c)
  {
    seq(|vec|, i requires 0 <= i < |vec| => ToState(Ev(g, vec[i], env)))
  }

  predicate CarryInto(g: seq<Core>, a: seq<nat>, b: seq<nat>, c: nat, i: nat, env: Inputs)
    requires |a| == |b| && In(a, g) && In(b, g) && c < |g| && i <= |a|
  {
    Carry(BitsOf(g, a, env), BitsOf(g, b, env), Ev(g, c, env), i)
  }

  predicate SumAt(g: seq<Core>, a: seq<nat>, b: seq<nat>, c: nat, i: nat, env: Inputs)
    requires |a| == |b| && In(a, g) && In(b, g) && c < |g| && i < |a|
  {
    SumBit(BitsOf(g, a, env), BitsOf(g, b, env), Ev(g, c, env), i)
  }

  ghost predicate CarryNode(g: seq<Core>, a: seq<nat>, b: seq<nat>, c: nat, i: nat, h: seq<Core>, n: nat)
    requires |a| == |b| && In(a, g) && In(b, g) && c < |g| && i <= |a|
  {
    n < |h| && forall env :: Ev(h, n, env) == CarryInto(g, a, b, c, i, env)
  }

  ghost predicate SumNodes(g: seq<Core>, a: seq<nat>, b: seq<nat>, c: nat, h: seq<Core>, y: seq<nat>)
    requires |a| == |b| && In(a, g) && In(b, g) && c < |g| && |y| <= |a|
  {
    In(y, h) && forall env, k :: 0 <= k < |y| ==> Ev(h, y[k], env) == SumAt(g, a, b, c, k, env)
  }

  ghost predicate CarryNodes(g: seq<Core>, a: seq<nat>, b: seq<nat>, c: nat, h: seq<Core>, co: seq<nat>)
    requires |a| == |b| && In(a, g) && In(b, g) && c < |g| && |co| <= |a|
  {
    forall k :: 0 <= k < |co| ==> CarryNode(g, a, b, c, k + 1, h, co[k])
  }

  lemma {:induction false} SumStep(g: seq<Core>, a: seq<nat>, b: seq<nat>, c: nat, h: seq<Core>, carry: nat,
                                   y: seq<nat>,
                                   h': seq<Core>, n: nat)
    requires |a| == |b| && In(a, g) && In(b, g) && c < |g| && |y| < |a| && Grows(g, h) && Grows(h, h') && n < |h'|
    requires CarryNode(g, a, b, c, |y|, h, carry) && SumNodes(g, a, b, c, h, y)
    requires forall env :: Ev(h', n, env) == ((Ev(h, a[|y|], env) != Ev(h, b[|y|], env)) != Ev(h, carry, env))
    ensures SumNodes(g, a, b, c, h', y + [n])
  {
    forall env, k | 0 <= k <= |y| ensures Ev(h', (y + [n])[k], env) == SumAt(g, a, b, c, k, env) {
      if k < |y| {
        assert Ev(h', y[k], env) == Ev(h, y[k], env);
      } else {
        assert Ev(h, carry, env) == CarryInto(g, a, b, c, k, env);
      }
    }
  }

  lemma {:induction false} CarryStep(g: seq<Core>, a: seq<nat>, b: seq<nat>, c: nat, h: seq<Core>, carry: nat,
                                     co: seq<nat>,
                                     h': seq<Core>, n: nat)
    requires |a| == |b| && In(a, g) && In(b, g) && c < |g| && |co| < |a| && Grows(g, h) && Grows(h, h') && n < |h'|
    requires CarryNode(g, a, b, c, |co|, h, carry) && CarryNodes(g, a, b, c, h, co)
    requires forall env :: Ev(h', n, env) == Majority(Ev(h, a[|co|], env), Ev(h, b[|co|], env), Ev(h, carry, env))
    ensures CarryNode(g, a, b, c, |co| + 1, h', n) && CarryNodes(g, a, b, c, h', co + [n])
  {
    var i := |co|;
    forall env ensures Ev(h', n, env) == CarryInto(g, a, b, c, i + 1, env) {
      assert Ev(h, carry, env) == CarryInto(g, a, b, c, i, env);
    }
    forall k | 0 <= k <= i ensures CarryNode(g, a, b, c, k + 1, h', (co + [n])[k]) {
      if k < i {
        assert CarryNode(g, a, b, c, k + 1, h, co[k]);
      }
    }
  }

  ghost predicate ZeroNodes(h: seq<Core>, vec: seq<nat>) {
    In(vec, h) && forall env, k :: 0 < k < |vec| ==> !Ev(h, vec[k], env)
  }

  lemma {:induction false} ZeroStep(h: seq<Core>, vec: seq<nat>, h': seq<Core>, vec': seq<nat>)
    requires ZeroNodes(h, vec) && Grows(h, h') && |vec'| == |vec| + 1 && vec'[..|vec|] == vec && In(vec', h')
    requires forall env :: !Ev(h', vec'[|vec|], env)
    ensures ZeroNodes(h', vec')
  {
    forall env, k | 0 < k < |vec'| ensures !Ev(h', vec'[k], env) {
      if k < |vec| {
        assert vec'[k] == vec[k] && Ev(h', vec[k], env) == Ev(h, vec[k], env);
      }
    }
  }

  lemma {:induction false} FlagBits(h: seq<Core>, vec: seq<nat>)
    requires ZeroNodes(h, vec) && |vec| > 0
    ensures forall env :: BitsOf(h, vec, env) == Flag(ToState(Ev(h, vec[0], env)), |vec|)
  {
  }

  /** `outs`, with bit `i` of `port` driven by node `vec[i]`. */
  ghost function Driven(outs: map<(Port, nat), nat>, port: Port, vec: seq<nat>): map<(Port, nat), nat> {
    if |vec| == 0 then outs
    else Driven(outs, port, vec[..|vec| - 1])[(port, |vec| - 1) := vec[|vec| - 1]]
  }

  lemma {:induction false} DrivenMore(outs: map<(Port, nat), nat>, port: Port, vec: seq<nat>, node: nat)
    ensures (vec + [node])[..|vec|] == vec
    ensures Driven(outs, port, vec + [node]) == Driven(outs, port, vec)[(port, |vec|) := node]
  {
    assert (vec + [node])[..|vec|] == vec;
  }

  lemma {:induction false} DrivenKeys(outs: map<(Port, nat), nat>, port: Port, vec: seq<nat>, p: Port, b: nat)
    ensures (p, b) in Driven(outs, port, vec) <==> (p, b) in outs || (p == port && b < |vec|)
    ensures p == port && b < |vec| ==> Driven(outs, port, vec)[(p, b)] == vec[b]
    ensures !(p == port && b < |vec|) && (p, b) in outs ==> Driven(outs, port, vec)[(p, b)] == outs[(p, b)]
  {
    if |vec| > 0 {
      DrivenKeys(outs, port, vec[..|vec| - 1], p, b);
    }
  }
}
