/** Every edge that `arith_binary_op`, `arith_neg_op` and `bitwise_binary_op` record is real
    (`kernel/celledges.cc`), so that with the soundness of the edges they are exact. */
module ArithEdges {
  import opened Bits
  import opened Calc
  import opened CellEdges

  // ----- Adders, subtractors and negation

  /** A toggle of the named operand bit changes the named output bit for some operands. */
  ghost predicate Shows(c: ArithCell, e: Edge) {
    exists a, b :: Differs(c, e, a, b)
  }

  predicate Differs(c: ArithCell, e: Edge, a: Const, b: Const) {
    && |a| == c.aWidth && |b| == c.bWidth && Defined(a) && Defined(b) && 0 <= e.y < c.yWidth
    && match e.port
       case A => 0 <= e.bit < c.aWidth && ArithEval(c, a, b)[e.y] != ArithEval(c, a[e.bit := Invert(a[e.bit])], b)[e.y]
       case B => 0 <= e.bit < c.bWidth && ArithEval(c, a, b)[e.y] != ArithEval(c, a, b[e.bit := Invert(b[e.bit])])[e.y]
  }

  /** The width of the operand on `port`. */
  function Own(c: ArithCell, port: Port): nat {
    if port == A then c.aWidth else c.bWidth
  }

  function Other(c: ArithCell, port: Port): nat {
    if port == A then c.bWidth else c.aWidth
  }

  /** The integer result over the operand on `port` and the other one. */
  function Combined(op: ArithType, port: Port, own: int, other: int): int {
    match op
    case Add => own + other
    case Sub => if port == A then own - other else other - own
    case Neg => 0 - own
  }

  predicate InRange(n: int, w: nat, signed: bool) {
    if signed then w > 0 && -Pow2(w - 1) <= n < Pow2(w - 1) else 0 <= n < Pow2(w)
  }

  lemma {:induction false} VectorOf(n: int, w: nat, signed: bool) returns (x: Const)
    requires InRange(n, w, signed)
    ensures |x| == w && Defined(x) && Val(x, signed) == n && forall k :: 0 <= k < w ==> x[k] == ToState(Bit(n, k))
  {
    x := FromInt(n, w);
    if signed {
      SValFromInt(n, w);
    } else {
      UValFromInt(n, w);
      ModSmall(n, Pow2(w));
    }
  }

  /** How far a toggle of a clear bit `k` moves the value; the sign bit counts negatively. */
  function Step(w: nat, signed: bool, k: nat): int {
    if signed && k == w - 1 then -Pow2(k) else Pow2(k)
  }

  // ----- Bits of the numbers used

  lemma {:induction false} BitsAbove(k: nat, i: nat)
    requires k <= i
    ensures !Bit(0, i) && Bit(-1, i) && Bit(-Pow2(k), i) && !Bit(Pow2(k) - 1, i)
  {
    Pow2Mono(k, i);
    ModSmall(0, Pow2(i));
    ModNegative(-1, Pow2(i));
    ModNegative(-Pow2(k), Pow2(i));
    ModSmall(Pow2(k) - 1, Pow2(i));
  }

  lemma {:induction false} BitOfPower(i: nat)
    ensures Bit(Pow2(i), i)
  {
    DivModUnique(Pow2(i), Pow2(i), 1, 0);
  }

  lemma {:induction false} BitOfTwice(k: nat)
    ensures !Bit(Pow2(k + 1), k)
  {
    DivModUnique(2 * Pow2(k), Pow2(k), 2, 0);
  }

  lemma {:induction false} BitBelow(k: nat, i: nat)
    requires k < i
    ensures !Bit(Pow2(i) - Pow2(k), i) && Pow2(i) - Pow2(k) >= 0
  {
    Pow2Mono(k, i);
    ModSmall(Pow2(i) - Pow2(k), Pow2(i));
  }

  /** Bit `k` of numbers with that bit clear. */
  lemma {:induction false} ClearBits(k: nat)
    ensures !Bit(0, k) && !Bit(-1 - Pow2(k), k)
  {
    ModSmall(0, Pow2(k));
    DivModUnique(-1 - Pow2(k), Pow2(k), -2, Pow2(k) - 1);
  }

  lemma {:induction false} ClearInOnes(t: nat, k: nat)
    requires k < t
    ensures !Bit(Pow2(t) - 1 - Pow2(k), k)
  {
    var p, q := Pow2(k), Pow2(t - k - 1);
    Pow2Add(k, t - k - 1);
    assert Pow2(t) == 2 * Pow2(t - 1);
    OnesQuotient(p, q, Pow2(t));
    EvenQuotient(q - 1);
  }

  lemma {:induction false} OnesQuotient(p: nat, q: int, x: int)
    requires p > 0 && x == 2 * (p * q)
    ensures (x - 1 - p) / p == 2 * (q - 1)
  {
    assert (2 * (q - 1)) * p == 2 * (p * q) - 2 * p;
    DivModUnique(x - 1 - p, p, 2 * (q - 1), p - 1);
  }

  lemma {:induction false} EvenQuotient(n: int)
    ensures 2 * n % 2 != 1
  {
  }

  // ----- Witnesses

  /** Values of the two operands: toggling the clear bit `k` of the first changes bit `i` of the result. */
  predicate Witness(c: ArithCell, port: Port, k: nat, i: nat, own: int, other: int) {
    && InRange(own, Own(c, port), c.signed) && !Bit(own, k)
    && (c.op.Neg? || InRange(other, Other(c, port), c.signed))
    && Bit(Combined(c.op, port, own, other), i) !=
       Bit(Combined(c.op, port, own + Step(Own(c, port), c.signed, k), other), i)
  }

  lemma {:induction false} AddWitness(c: ArithCell, port: Port, k: nat, i: nat) returns (own: int, other: int)
    requires c.op.Add? && c.aWidth > 0 && c.bWidth > 0 && k < Own(c, port) && k <= i < EdgeWidth(c)
    ensures Witness(c, port, k, i, own, other)
  {
    if c.signed {
      own, other := AddSigned(c, port, k, i);
    } else if i <= Own(c, port) {
      own, other := AddOnes(c, port, k, i);
    } else {
      own, other := AddHigh(c, port, k, i);
    }
  }

  lemma {:induction false} AddSigned(c: ArithCell, port: Port, k: nat, i: nat) returns (own: int, other: int)
    requires c.op.Add? && c.signed && c.aWidth > 0 && c.bWidth > 0 && k < Own(c, port) && k <= i
    ensures Witness(c, port, k, i, own, other)
  {
    ClearBits(k);
    BitsAbove(k, i);
    BitsAbove(0, i);
    own, other := 0, if k == Own(c, port) - 1 then 0 else -1;
  }

  /** Ones below `i` and a one added. */
  lemma {:induction false} AddOnes(c: ArithCell, port: Port, k: nat, i: nat) returns (own: int, other: int)
    requires c.op.Add? && !c.signed && Other(c, port) > 0 && k < Own(c, port) && k <= i <= Own(c, port)
    ensures Witness(c, port, k, i, own, other)
  {
    var t := if i == k then k + 1 else i;
    own, other := Pow2(t) - 1 - Pow2(k), 1;
    OnesWitness(k, i, t, Own(c, port));
    Pow2Mono(1, Other(c, port));
    assert Combined(c.op, port, own, other) == Pow2(t) - Pow2(k);
    assert Combined(c.op, port, own + Pow2(k), other) == Pow2(t);
  }

  /** Ones from `k` up to `i` in the other, wider operand. */
  lemma {:induction false} AddHigh(c: ArithCell, port: Port, k: nat, i: nat) returns (own: int, other: int)
    requires c.op.Add? && !c.signed && k < Own(c, port) < i <= Other(c, port)
    ensures Witness(c, port, k, i, own, other)
  {
    ClearBits(k);
    own, other := 0, Pow2(i) - Pow2(k);
    BitBelow(k, i);
    BitOfPower(i);
    Pow2Mono(i, Other(c, port));
    assert Combined(c.op, port, own, other) == Pow2(i) - Pow2(k);
    assert Combined(c.op, port, own + Pow2(k), other) == Pow2(i);
  }

  /** A run of ones carries into bit `i` exactly when its bit `k` is set. */
  lemma {:induction false} OnesWitness(k: nat, i: nat, t: nat, w: nat)
    requires k <= i && k < w && t <= w && t == if i == k then k + 1 else i
    ensures 0 <= Pow2(t) - 1 - Pow2(k) < Pow2(w) && !Bit(Pow2(t) - 1 - Pow2(k), k)
    ensures Bit(Pow2(t) - Pow2(k), i) != Bit(Pow2(t), i)
  {
    ClearInOnes(t, k);
    Pow2Mono(k + 1, t);
    Pow2Mono(t, w);
    if i == k {
      BitOfPower(k);
      BitOfTwice(k);
    } else {
      BitBelow(k, i);
      BitOfPower(i);
    }
  }

  lemma {:induction false} SubWitness(c: ArithCell, port: Port, k: nat, i: nat) returns (own: int, other: int)
    requires c.op.Sub? && c.aWidth > 0 && c.bWidth > 0 && k < Own(c, port) && k <= i
    ensures Witness(c, port, k, i, own, other)
  {
    var w := Own(c, port);
    ClearBits(k);
    BitsAbove(k, i);
    BitsAbove(0, i);
    Pow2Mono(1, Other(c, port));
    if port == A {
      if !c.signed {
        own, other := 0, 1;
      } else if k == w - 1 {
        own, other := 0, 0;
      } else {
        own, other := -1 - Pow2(k), -1;
        Pow2Mono(k + 1, w - 1);
      }
    } else {
      own, other := 0, if c.signed && k == w - 1 then -1 else 0;
    }
  }

  lemma {:induction false} NegWitness(c: ArithCell, k: nat, i: nat) returns (own: int, other: int)
    requires c.op.Neg? && k < c.aWidth && k <= i < EdgeWidth(c)
    ensures Witness(c, A, k, i, own, other)
  {
    ClearBits(k);
    BitsAbove(k, i);
    BitsAbove(0, i);
    own, other := 0, 0;
    if c.signed && k == c.aWidth - 1 {
      if k == 0 {
        BitOfPower(0);
      } else {
        own := 1;
        Pow2Mono(1, k);
        ModSmall(1, Pow2(k));
      }
    }
  }

  lemma {:induction false} WitnessShows(c: ArithCell, port: Port, k: nat, i: nat, own: int, other: int)
    requires c.op.Neg? ==> port == A
    requires k < Own(c, port) && i < c.yWidth && Witness(c, port, k, i, own, other)
    ensures Shows(c, Edge(port, k, i))
  {
    var x := VectorOf(own, Own(c, port), c.signed);
    var y := ZeroVector(Other(c, port));
    if !c.op.Neg? {
      y := VectorOf(other, Other(c, port), c.signed);
    }
    assert x[k] == S0 && x[k := S0] == x;
    FlipVal(x, k, c.signed);
    VectorsShow(c, port, k, i, x, y);
  }

  lemma {:induction false} VectorsShow(c: ArithCell, port: Port, k: nat, i: nat, x: Const, y: Const)
    requires (c.op.Neg? ==> port == A) && k < Own(c, port) && i < c.yWidth
    requires |x| == Own(c, port) && |y| == Other(c, port) && Defined(x) && Defined(y) && x[k] == S0
    requires var own, own', other := Val(x, c.signed), Val(x[k := S1], c.signed), Val(y, c.signed);
             Bit(Combined(c.op, port, own, other), i) != Bit(Combined(c.op, port, own', other), i)
    ensures Shows(c, Edge(port, k, i))
  {
    var x' := x[k := S1];
    if port == A {
      ArithValue(c, x, y, i);
      ArithValue(c, x', y, i);
      assert Differs(c, Edge(port, k, i), x, y);
    } else {
      ArithValue(c, y, x, i);
      ArithValue(c, y, x', i);
      assert Differs(c, Edge(port, k, i), y, x);
    }
  }

  function ZeroVector(w: nat): (c: Const)
    ensures |c| == w && Defined(c)
  {
    seq(w, _ => S0)
  }

  lemma {:induction false} ArithEdgeShown(c: ArithCell, e: Edge)
    requires (c.op.Neg? || (c.aWidth > 0 && c.bWidth > 0)) && ArithEdge(c, e)
    ensures Shows(c, e)
  {
    var own, other;
    match c.op {
      case Add => own, other := AddWitness(c, e.port, e.bit, e.y);
      case Sub => own, other := SubWitness(c, e.port, e.bit, e.y);
      case Neg => own, other := NegWitness(c, e.bit, e.y);
    }
    WitnessShows(c, e.port, e.bit, e.y, own, other);
  }

  /** The recorded edges are exactly the dependencies of the output bits on the operand bits. */
  lemma {:induction false} ArithEdgesExact(c: ArithCell, e: Edge)
    requires c.op.Neg? || (c.aWidth > 0 && c.bWidth > 0)
    ensures ArithEdge(c, e) <==> Shows(c, e)
  {
    if ArithEdge(c, e) {
      ArithEdgeShown(c, e);
    } else {
      forall a, b ensures !Differs(c, e, a, b) {
        if |a| == c.aWidth && |b| == c.bWidth && Defined(a) && Defined(b) && 0 <= e.y < c.yWidth
            && 0 <= e.bit < Own(c, e.port) {
          ArithEdgesSound(c, a, b, e.port, e.bit, e.y);
        }
      }
    }
  }

  // ----- Bitwise operations

  datatype BitwiseType = AndOp | OrOp | XorOp | XnorOp

  /** A bitwise cell, both operands of one signedness. */
  datatype BitwiseCell = BitwiseCell(op: BitwiseType, signed: bool, aWidth: nat, bWidth: nat, yWidth: nat)

  function StateOp(op: BitwiseType): (State, State) -> State {
    match op
    case AndOp => LogicAnd
    case OrOp => LogicOr
    case XorOp => LogicXor
    case XnorOp => LogicXnor
  }

  function BitwiseEval(c: BitwiseCell, a: Const, b: Const): (y: Const)
    ensures |y| == c.yWidth
  {
    LogicWrapper(StateOp(c.op), a, b, c.signed, c.signed, c.yWidth)
  }

  /** Output bit `i` reads bit `i` of an operand of width `w`, or its sign. */
  predicate ReadsBit(w: nat, signed: bool, bit: int, i: int) {
    if i < w then bit == i else signed && w > 0 && bit == w - 1
  }

  /** The width up to which an operand counts: bits that an unsigned `$and` meets with a zero do not. */
  function Trimmed(c: BitwiseCell, port: Port): nat {
    var own, other := if port == A then c.aWidth else c.bWidth, if port == A then c.bWidth else c.aWidth;
    if c.op.AndOp? && !c.signed then Min(own, other) else own
  }

  predicate BitwiseEdge(c: BitwiseCell, e: Edge) {
    0 <= e.y < c.yWidth && ReadsBit(Trimmed(c, e.port), c.signed, e.bit, e.y)
  }

  /** `bitwise_binary_op`, with the edge database as a set. */
  method BitwiseBinaryOp(c: BitwiseCell) returns (edges: set<Edge>)
    ensures forall e :: e in edges <==> BitwiseEdge(c, e)
  {
    var aWidth, bWidth := c.aWidth, c.bWidth;
    if c.op.AndOp? && !c.signed {
      if aWidth > bWidth {
        aWidth := bWidth;
      } else {
        bWidth := aWidth;
      }
    }
    edges := {};
    for i := 0 to c.yWidth
      invariant forall e :: e in edges <==> BitwiseEdge(c, e) && e.y < i
    {
      var fromA := OperandEdge(A, aWidth, c.signed, i);
      var fromB := OperandEdge(B, bWidth, c.signed, i);
      edges := edges + fromA + fromB;
    }
  }

  method OperandEdge(port: Port, w: nat, signed: bool, i: nat) returns (edges: set<Edge>)
    ensures forall e :: e in edges <==> e.port == port && e.y == i && ReadsBit(w, signed, e.bit, i)
  {
    edges := {};
    if i < w {
      edges := {Edge(port, i, i)};
    } else if signed && w > 0 {
      edges := {Edge(port, w - 1, i)};
    }
  }

  predicate BitDiffers(c: BitwiseCell, e: Edge, a: Const, b: Const) {
    && |a| == c.aWidth && |b| == c.bWidth && Defined(a) && Defined(b) && 0 <= e.y < c.yWidth
    && match e.port
       case A =>
         && 0 <= e.bit < c.aWidth
         && BitwiseEval(c, a, b)[e.y] != BitwiseEval(c, a[e.bit := Invert(a[e.bit])], b)[e.y]
       case B =>
         && 0 <= e.bit < c.bWidth
         && BitwiseEval(c, a, b)[e.y] != BitwiseEval(c, a, b[e.bit := Invert(b[e.bit])])[e.y]
  }

  lemma {:induction false} BitwiseAt(c: BitwiseCell, a: Const, b: Const, i: nat)
    requires i < c.yWidth
    ensures BitwiseEval(c, a, b)[i] == StateOp(c.op)(ExtBit(a, c.signed, i), ExtBit(b, c.signed, i))
  {
  }

  lemma {:induction false} Toggled(x: Const, k: nat, signed: bool, i: nat)
    requires k < |x|
    ensures var x' := x[k := Invert(x[k])];
            ExtBit(x', signed, i) == if ReadsBit(|x|, signed, k, i)
                then Invert(ExtBit(x, signed, i)) else ExtBit(x, signed, i)
  {
  }

  /** Other operand bits that let a change through. */
  lemma {:induction false} BitwiseShown(c: BitwiseCell, e: Edge)
    requires c.aWidth > 0 && c.bWidth > 0 && BitwiseEdge(c, e)
    ensures exists a, b :: BitDiffers(c, e, a, b)
  {
    var one := if c.op.AndOp? then S1 else S0;
    var a, b := seq(c.aWidth, _ => one), seq(c.bWidth, _ => one);
    assert Defined(a) && Defined(b);
    BitwiseAt(c, a, b, e.y);
    if e.port == A {
      Toggled(a, e.bit, c.signed, e.y);
      BitwiseAt(c, a[e.bit := Invert(a[e.bit])], b, e.y);
    } else {
      Toggled(b, e.bit, c.signed, e.y);
      BitwiseAt(c, a, b[e.bit := Invert(b[e.bit])], e.y);
    }
    assert BitDiffers(c, e, a, b);
  }

  lemma {:induction false} BitwiseSilent(c: BitwiseCell, e: Edge, a: Const, b: Const)
    requires !BitwiseEdge(c, e)
    ensures !BitDiffers(c, e, a, b)
  {
    if |a| == c.aWidth && |b| == c.bWidth && 0 <= e.y < c.yWidth {
      BitwiseAt(c, a, b, e.y);
      if e.port == A && 0 <= e.bit < c.aWidth {
        Toggled(a, e.bit, c.signed, e.y);
        BitwiseAt(c, a[e.bit := Invert(a[e.bit])], b, e.y);
      } else if e.port == B && 0 <= e.bit < c.bWidth {
        Toggled(b, e.bit, c.signed, e.y);
        BitwiseAt(c, a, b[e.bit := Invert(b[e.bit])], e.y);
      }
    }
  }

  /** The recorded edges are exactly the dependencies, with the trimming of the unsigned `$and`. */
  lemma {:induction false} BitwiseEdgesExact(c: BitwiseCell, e: Edge)
    requires c.aWidth > 0 && c.bWidth > 0
    ensures BitwiseEdge(c, e) <==> exists a, b :: BitDiffers(c, e, a, b)
  {
    if BitwiseEdge(c, e) {
      BitwiseShown(c, e);
    } else {
      forall a, b ensures !BitDiffers(c, e, a, b) {
        BitwiseSilent(c, e, a, b);
      }
    }
  }
}
