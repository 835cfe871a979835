/** The `Aig` constructor of `kernel/cellaigs.cc`: one graph per cell type, against `kernel/calc.cc`. */
module AigCells {
  import opened Bits
  import opened Calc
  import opened FunctionalAlu
  import opened Aig

  datatype CellType =
    | NotCell | PosCell | AndCell | OrCell | XorCell | XnorCell | MuxCell
    | ReduceAnd | ReduceOr | ReduceXor | ReduceXnorCell | ReduceBool
    | LogicNotCell | LogicAndCell | LogicOrCell
    | AddCell | SubCell | LtCell | LeCell | GtCell | GeCell | EqCell | NeCell | AluCell

  /** Operands that the evaluator extends together have one signedness. */
  predicate Legal(t: CellType, c: Cell) {
    && c.aWidth > 0 && c.bWidth > 0 && c.yWidth > 0
    && (t.MuxCell? ==> c.aWidth == c.bWidth == c.yWidth)
    && (t.AddCell? || t.SubCell? || t.LtCell? || t.LeCell? || t.GtCell? || t.GeCell? || t.EqCell? || t.NeCell?
        || t.AluCell? ==>
          c.aSigned == c.bSigned)
  }

  function BitOp(t: CellType): (State, State) -> State {
    match t
    case AndCell => LogicAnd
    case OrCell => LogicOr
    case XorCell => LogicXor
    case _ => LogicXnor
  }

  /** What the evaluator computes for the output `Y`. */
  function CalcY(t: CellType, c: Cell, env: Inputs): Const
    requires Legal(t, c) && c.Fits(env)
  {
    match t
    case NotCell => ConstNot(env.a, c.aSigned, c.yWidth)
    case PosCell => Extend(env.a, c.yWidth, c.aSigned)
    case AndCell => LogicWrapper(BitOp(t), env.a, env.b, c.aSigned, c.bSigned, c.yWidth)
    case OrCell => LogicWrapper(BitOp(t), env.a, env.b, c.aSigned, c.bSigned, c.yWidth)
    case XorCell => LogicWrapper(BitOp(t), env.a, env.b, c.aSigned, c.bSigned, c.yWidth)
    case XnorCell => LogicWrapper(BitOp(t), env.a, env.b, c.aSigned, c.bSigned, c.yWidth)
    case MuxCell => ConstMux(env.a, env.b, env.s)
    case ReduceAnd => Flag(Fold(LogicAnd, S1, env.a), c.yWidth)
    case ReduceOr => Flag(Fold(LogicOr, S0, env.a), c.yWidth)
    case ReduceBool => Flag(Fold(LogicOr, S0, env.a), c.yWidth)
    case ReduceXor => Flag(Fold(LogicXor, S0, env.a), c.yWidth)
    case ReduceXnorCell => ReduceXnor(env.a, c.yWidth)
    case LogicNotCell => ConstLogicNot(env.a, c.aSigned, c.yWidth)
    case LogicAndCell => ConstLogicAnd(env.a, env.b, c.aSigned, c.bSigned, c.yWidth)
    case LogicOrCell => ConstLogicOr(env.a, env.b, c.aSigned, c.bSigned, c.yWidth)
    case AddCell => ConstAdd(env.a, env.b, c.aSigned, c.bSigned, c.yWidth)
    case SubCell => ConstSub(env.a, env.b, c.aSigned, c.bSigned, c.yWidth)
    case LtCell => ConstLt(env.a, env.b, c.aSigned, c.bSigned, c.yWidth)
    case LeCell => ConstLe(env.a, env.b, c.aSigned, c.bSigned, c.yWidth)
    case GtCell => ConstGt(env.a, env.b, c.aSigned, c.bSigned, c.yWidth)
    case GeCell => ConstGe(env.a, env.b, c.aSigned, c.bSigned, c.yWidth)
    case EqCell => ConstEq(env.a, env.b, c.aSigned, c.bSigned, c.yWidth)
    case NeCell => ConstNe(env.a, env.b, c.aSigned, c.bSigned, c.yWidth)
    case AluCell => AluSum(c, env)
  }

  function CalcBit(t: CellType, c: Cell, env: Inputs, i: nat): State
    requires Legal(t, c) && c.Fits(env)
  {
    var y := CalcY(t, c, env);
    if i < |y| then y[i] else Sx
  }

  // ----- $alu

  function AluA(c: Cell, env: Inputs): Const {
    Extend(env.a, c.yWidth, c.aSigned)
  }

  function AluB(c: Cell, env: Inputs): Const
    requires c.Fits(env)
  {
    NotIfB(Extend(env.b, c.yWidth, c.bSigned), env.bi[0] == S1)
  }

  function AluSum(c: Cell, env: Inputs): Const
    requires c.Fits(env)
  {
    RippleSum(AluA(c, env), AluB(c, env), env.ci[0] == S1)
  }

  // ----- Arithmetic on ripple sums

  /** The ripple sum is the integer sum, at its width. */
  lemma {:induction false} RippleIsSum(a: Const, b: Const, c: bool)
    requires |a| == |b|
    ensures RippleSum(a, b, c) == FromInt(UVal(a) + UVal(b) + B2I(c), |a|)
  {
    forall i | 0 <= i < |a| ensures RippleSum(a, b, c)[i] == FromInt(UVal(a) + UVal(b) + B2I(c), |a|)[i] {
      SumBitIsBit(a, b, c, i);
    }
  }

  /** Inverting every bit of a vector complements its value. */
  lemma {:induction false} InvertedValue(b: Const)
    requires Defined(b)
    ensures UVal(NotIfB(b, true)) == Pow2(|b|) - 1 - UVal(b)
  {
    var n := NotIfB(b, true);
    if |b| > 0 {
      InvertedValue(b[..|b| - 1]);
      assert n[..|b| - 1] == NotIfB(b[..|b| - 1], true);
    }
  }

  /** Adding extended operands adds their values. */
  lemma {:induction false} AddExtended(a: Const, b: Const, sa: bool, sb: bool, w: nat)
    requires Defined(a) && Defined(b)
    ensures RippleSum(Extend(a, w, sa), Extend(b, w, sb), false) == FromInt(Val(a, sa) + Val(b, sb), w)
  {
    var x, y := Extend(a, w, sa), Extend(b, w, sb);
    var u: int, v: int := UVal(x), UVal(y);
    RippleIsSum(x, y, false);
    ExtendMod(a, w, sa);
    ExtendMod(b, w, sb);
    ModIdempotent(Val(a, sa), Pow2(w));
    ModIdempotent(Val(b, sb), Pow2(w));
    SumMod(u, Val(a, sa), v, Val(b, sb), Pow2(w));
    FromIntCong(u + v, Val(a, sa) + Val(b, sb), w);
  }

  /** Adding the inverted operand subtracts, less one without the carry. */
  lemma {:induction false} SubExtended(a: Const, b: Const, sa: bool, sb: bool, c: bool, w: nat)
    requires Defined(a) && Defined(b)
    ensures RippleSum(Extend(a, w, sa), NotIfB(Extend(b, w, sb), true), c) ==
            FromInt(Val(a, sa) - Val(b, sb) - 1 + B2I(c), w)
  {
    var x, y := Extend(a, w, sa), Extend(b, w, sb);
    var n := NotIfB(y, true);
    var u: int, v: int, p := UVal(x), UVal(n), Pow2(w);
    RippleIsSum(x, n, c);
    InvertedValue(y);
    ExtendMod(a, w, sa);
    ExtendMod(b, w, sb);
    var k := ModEqDiffOf(Val(a, sa), u, p);
    var l := ModEqDiffOf(Val(b, sb), UVal(y), p);
    var d := Val(a, sa) - Val(b, sb) - 1 + B2I(c);
    assert u + v + B2I(c) == d + (1 - k + l) * p by { SubDistribute(u, Val(a, sa), k, UVal(y), Val(b, sb), l, p); }
    ModAddMultiple(d, p, 1 - k + l);
    FromIntCong(u + v + B2I(c), d, w);
  }

  lemma {:induction false} ModEqDiffOf(v: int, r: int, m: nat) returns (k: int)
    requires m > 0 && r == v % m
    ensures v == r + k * m
  {
    k := v / m;
  }

  lemma {:induction false} SubDistribute(u: int, va: int, k: int, y: int, vb: int, l: int, p: int)
    requires va == u + k * p && vb == y + l * p
    ensures u + (p - 1 - y) == va - vb - 1 + (1 - k + l) * p
  {
  }

  /** The top bit of a small enough number is its sign. */
  lemma {:induction false} SignBit(v: int, m: nat)
    requires -Pow2(m) <= v < Pow2(m)
    ensures Bit(v, m) == (v < 0)
  {
    if v < 0 {
      DivModUnique(v, Pow2(m), -1, v + Pow2(m));
    } else {
      DivModUnique(v, Pow2(m), 0, v);
    }
  }

  lemma {:induction false} ValRange(c: Const, signed: bool, m: nat)
    requires 0 < |c| <= m
    ensures signed ==> -Pow2(m) <= 2 * Val(c, signed) < Pow2(m)
    ensures !signed ==> 0 <= Val(c, signed) < Pow2(m)
  {
    Pow2Mono(|c|, m);
    SignFromUVal(c);
  }

  /** Comparison by the sign of a difference one bit wider than the operands. */
  lemma {:induction false} CompareBit(a: Const, b: Const, signed: bool, c: bool, m: nat)
    requires Defined(a) && Defined(b) && 0 < |a| <= m && 0 < |b| <= m
    ensures RippleSum(Extend(a, m + 1, signed), NotIfB(Extend(b, m + 1, signed), true), c)[m]
         == ToState(if c then Val(a, signed) < Val(b, signed) else Val(a, signed) <= Val(b, signed))
  {
    SubExtended(a, b, signed, signed, c, m + 1);
    ValRange(a, signed, m);
    ValRange(b, signed, m);
    SignBit(Val(a, signed) - Val(b, signed) - 1 + B2I(c), m);
  }

  // ----- Truth values

  lemma {:induction false} FoldOrIsAny(a: Const)
    requires Defined(a)
    ensures Fold(LogicOr, S0, a) == ToState(UVal(a) != 0)
  {
    if |a| > 0 {
      FoldOrIsAny(a[..|a| - 1]);
    }
  }

  lemma {:induction false} TruthIsAny(a: Const, signed: bool)
    requires Defined(a)
    ensures Truth(a, signed) == Fold(LogicOr, S0, a)
  {
    FoldOrIsAny(a);
    BigIsVal(a, signed);
  }

  // ----- Cells

  /** The graph drives `Y` with the nodes `y`, and nothing else. */
  ghost predicate Drives(mk: AigMaker, y: seq<nat>)
    reads mk
  {
    mk.Valid() && In(y, mk.indices) && |y| == mk.cell.yWidth && mk.outs == Driven(map[], PortY, y)
  }

  ghost predicate Shows(g: seq<Core>, y: seq<nat>, t: CellType, c: Cell)
    requires Legal(t, c)
  {
    forall k :: 0 <= k < |y| ==> ShowsBit(g, y[k], t, c, k)
  }

  ghost predicate ShowsBit(g: seq<Core>, n: nat, t: CellType, c: Cell, i: nat)
    requires Legal(t, c)
  {
    n < |g| && forall env :: c.Fits(env) ==> ToState(Ev(g, n, env)) == CalcBit(t, c, env, i)
  }

  lemma {:induction false} ShowsBitGrows(g: seq<Core>, h: seq<Core>, n: nat, t: CellType, c: Cell, i: nat)
    requires Legal(t, c) && Grows(g, h) && ShowsBit(g, n, t, c, i)
    ensures ShowsBit(h, n, t, c, i)
  {
    assert forall env :: Ev(h, n, env) == Ev(g, n, env);
  }

  lemma {:induction false} ShowsMore(g: seq<Core>, y: seq<nat>, h: seq<Core>, n: nat, t: CellType, c: Cell)
    requires Legal(t, c) && Shows(g, y, t, c) && Grows(g, h) && ShowsBit(h, n, t, c, |y|)
    ensures Shows(h, y + [n], t, c)
  {
    forall k | 0 <= k < |y| ensures ShowsBit(h, y[k], t, c, k) {
      ShowsBitGrows(g, h, y[k], t, c, k);
    }
  }

  /** One bit of a bitwise cell. */
  function BitwiseAt(t: CellType, c: Cell, env: Inputs, i: nat): State
    requires Legal(t, c) && c.Fits(env) && i < c.yWidth && Bitwise(t)
  {
    var a, b := ExtBit(env.a, c.aSigned, i), ExtBit(env.b, c.bSigned, i);
    if t.NotCell? then Invert(a)
    else if t.PosCell? then a
    else if t.MuxCell? then if env.s[0] == S1 then b else a
    else BitOp(t)(a, b)
  }

  predicate Bitwise(t: CellType) {
    t.NotCell? || t.PosCell? || t.AndCell? || t.OrCell? || t.XorCell? || t.XnorCell? || t.MuxCell?
  }

  lemma {:induction false} BitwiseIsCalc(t: CellType, c: Cell, env: Inputs, i: nat)
    requires Legal(t, c) && c.Fits(env) && i < c.yWidth && Bitwise(t)
    ensures CalcBit(t, c, env, i) == BitwiseAt(t, c, env, i)
  {
    assert IsDef(Extend(env.a, c.yWidth, c.aSigned)[i]);
  }

  predicate GateVal(t: CellType, a: bool, b: bool, s: bool) {
    match t
    case NotCell => !a
    case PosCell => a
    case AndCell => a && b
    case OrCell => a || b
    case XorCell => a != b
    case XnorCell => a == b
    case _ => if s then b else a
  }

  lemma {:induction false} GateIsBitwise(t: CellType, c: Cell, env: Inputs, i: nat)
    requires Legal(t, c) && i < c.yWidth && Bitwise(t) && c.Fits(env)
    ensures ToState(GateVal(t, ExtBit(env.a, c.aSigned, i) == S1, ExtBit(env.b, c.bSigned, i) == S1, env.s[0] == S1))
         == BitwiseAt(t, c, env, i)
  {
    assert IsDef(ExtBit(env.a, c.aSigned, i)) && IsDef(ExtBit(env.b, c.bSigned, i));
  }

  lemma {:induction false} BitwiseShown(t: CellType, c: Cell, i: nat, g: seq<Core>, n: nat)
    requires Legal(t, c) && i < c.yWidth && Bitwise(t) && n < |g|
    requires forall env :: c.Fits(env) ==>
               Ev(g, n, env) ==
                   GateVal(t, ExtBit(env.a, c.aSigned, i) == S1, ExtBit(env.b, c.bSigned, i) == S1, env.s[0] == S1)
    ensures ShowsBit(g, n, t, c, i)
  {
    forall env | c.Fits(env) ensures ToState(Ev(g, n, env)) == CalcBit(t, c, env, i) {
      GateIsBitwise(t, c, env, i);
      BitwiseIsCalc(t, c, env, i);
    }
  }

  method Gate(t: CellType, mk: AigMaker, a: nat, b: nat, s: nat) returns (n: nat)
    requires mk.Valid() && Bitwise(t) && a < |mk.indices| && b < |mk.indices| && s < |mk.indices|
    modifies mk`nodes, mk`indices
    ensures mk.Valid() && Grows(old(mk.indices), mk.indices) && n < |mk.indices|
    ensures forall env :: Ev(mk.indices, n, env) ==
                          GateVal(t, Ev(old(mk.indices), a, env), Ev(old(mk.indices), b, env),
                              Ev(old(mk.indices), s, env))
  {
    match t {
      case PosCell => n := a;
      case NotCell => n := mk.NotGate(a);
      case AndCell => n := mk.AndGate(a, b, false);
      case OrCell => n := mk.OrGate(a, b);
      case XorCell => n := mk.XorGate(a, b);
      case XnorCell => n := mk.XnorGate(a, b);
      case MuxCell => n := mk.MuxGate(a, b, s);
    }
  }

  ghost predicate IsSelect(g: seq<Core>, s: nat, c: Cell) {
    s < |g| && forall env :: c.Fits(env) ==> Ev(g, s, env) == (env.s[0] == S1)
  }

  method BitwiseInputs(t: CellType, mk: AigMaker, i: nat) returns (a: nat, b: nat)
    requires mk.Valid() && Legal(t, mk.cell) && Bitwise(t) && i < mk.cell.yWidth
    modifies mk`nodes, mk`indices
    ensures mk.Valid() && Grows(old(mk.indices), mk.indices) && a < |mk.indices| && b < |mk.indices|
    ensures forall env :: mk.cell.Fits(env) ==> Ev(mk.indices, a, env) == (ExtBit(env.a, mk.cell.aSigned, i) == S1)
    ensures !t.PosCell? && !t.NotCell? ==>
              forall env :: mk.cell.Fits(env) ==> Ev(mk.indices, b, env) == (ExtBit(env.b, mk.cell.bSigned, i) == S1)
  {
    a := mk.Inport(PortA, i, false);
    b := a;
    if !t.PosCell? && !t.NotCell? {
      b := mk.Inport(PortB, i, false);
    }
  }

  method BitwiseNode(t: CellType, mk: AigMaker, i: nat, s: nat) returns (n: nat)
    requires mk.Valid() && Legal(t, mk.cell) && Bitwise(t) && i < mk.cell.yWidth
    requires t.MuxCell? ==> IsSelect(mk.indices, s, mk.cell)
    modifies mk`nodes, mk`indices
    ensures mk.Valid() && Grows(old(mk.indices), mk.indices) && ShowsBit(mk.indices, n, t, mk.cell, i)
  {
    var a, b := BitwiseInputs(t, mk, i);
    n := Gate(t, mk, a, b, if t.MuxCell? then s else a);
    BitwiseShown(t, mk.cell, i, mk.indices, n);
  }

  /** `$not`, `$pos`, `$and`, `$or`, `$xor`, `$xnor` and `$mux`, bit by bit. */
  method BuildBitwise(t: CellType, mk: AigMaker) returns (ghost y: seq<nat>)
    requires mk.Valid() && mk.outs == map[] && Legal(t, mk.cell) && Bitwise(t)
    modifies mk
    ensures Drives(mk, y) && Shows(mk.indices, y, t, mk.cell)
  {
    var s := 0;
    if t.MuxCell? {
      s := mk.Inport(PortS, 0, false);
    }
    y := [];
    for i := 0 to mk.cell.yWidth
      invariant mk.Valid() && |y| == i && mk.outs == Driven(map[], PortY, y) && Shows(mk.indices, y, t, mk.cell)
      invariant t.MuxCell? ==> IsSelect(mk.indices, s, mk.cell)
    {
      ghost var g := mk.indices;
      var n := BitwiseNode(t, mk, i, s);
      ShowsMore(g, y, mk.indices, n, t, mk.cell);
      DrivenKeys(map[], PortY, y, PortY, i);
      mk.Outport(n, PortY, i);
      assert (y + [n])[..i] == y;
      y := y + [n];
    }
  }

  // ----- One-bit results

  predicate OneBitResult(t: CellType) {
    !Bitwise(t) && !t.AddCell? && !t.SubCell? && !t.AluCell?
  }

  function FlagAt(t: CellType, c: Cell, env: Inputs): State
    requires Legal(t, c) && c.Fits(env) && OneBitResult(t)
  {
    var a, b := env.a, env.b;
    match t
    case ReduceAnd => Fold(LogicAnd, S1, a)
    case ReduceOr => Fold(LogicOr, S0, a)
    case ReduceBool => Fold(LogicOr, S0, a)
    case ReduceXor => Fold(LogicXor, S0, a)
    case ReduceXnorCell => Invert(Fold(LogicXor, S0, a))
    case LogicNotCell => Invert(Fold(LogicOr, S0, a))
    case LogicAndCell => LogicAnd(Fold(LogicOr, S0, a), Fold(LogicOr, S0, b))
    case LogicOrCell => LogicOr(Fold(LogicOr, S0, a), Fold(LogicOr, S0, b))
    case LtCell => ToState(Val(a, c.aSigned) < Val(b, c.bSigned))
    case LeCell => ToState(Val(a, c.aSigned) <= Val(b, c.bSigned))
    case GtCell => ToState(Val(a, c.aSigned) > Val(b, c.bSigned))
    case GeCell => ToState(Val(a, c.aSigned) >= Val(b, c.bSigned))
    case EqCell => ToState(Operand(c, PortA, env) == Operand(c, PortB, env))
    case _ => ToState(Operand(c, PortA, env) != Operand(c, PortB, env))
  }

  /** An operand at the width both operands are compared at. */
  function Operand(c: Cell, p: Port, env: Inputs): Const {
    Extend(InputOf(env, p), Max(c.aWidth, c.bWidth), c.IsSigned(p))
  }

  lemma {:induction false} MatchedIsEqual(x: Const, y: Const)
    requires |x| == |y| && Defined(x) && Defined(y)
    ensures Matched(x, y) == ToState(x == y)
  {
    if x != y {
      var i :| 0 <= i < |x| && x[i] != y[i];
      assert Clash(x[i], y[i]);
    }
  }

  lemma {:induction false} FlagIsCalc(t: CellType, c: Cell, env: Inputs)
    requires Legal(t, c) && c.Fits(env) && OneBitResult(t)
    ensures CalcY(t, c, env) == Flag(FlagAt(t, c, env), c.yWidth)
  {
    if t.LogicNotCell? || t.LogicAndCell? || t.LogicOrCell? {
      TruthIsAny(env.a, c.aSigned);
      TruthIsAny(env.b, c.bSigned);
    } else if t.EqCell? || t.NeCell? {
      MatchedIsEqual(Operand(c, PortA, env), Operand(c, PortB, env));
    } else {
      BigIsVal(env.a, c.aSigned);
      BigIsVal(env.b, c.bSigned);
    }
  }

  ghost predicate ShowsFlag(g: seq<Core>, n: nat, t: CellType, c: Cell)
    requires Legal(t, c) && OneBitResult(t)
  {
    n < |g| && forall env :: c.Fits(env) ==> ToState(Ev(g, n, env)) == FlagAt(t, c, env)
  }

  lemma {:induction false} FlagShown(g: seq<Core>, n: nat, h: seq<Core>, y: seq<nat>, t: CellType, c: Cell)
    requires Legal(t, c) && OneBitResult(t) && ShowsFlag(g, n, t, c) && In(y, h) && |y| == c.yWidth
    requires forall env :: BitsOf(h, y, env) == Flag(ToState(Ev(g, n, env)), |y|)
    ensures Shows(h, y, t, c)
  {
    forall env, k | c.Fits(env) && 0 <= k < |y| ensures ToState(Ev(h, y[k], env)) == CalcBit(t, c, env, k) {
      FlagIsCalc(t, c, env);
      assert BitsOf(h, y, env)[k] == ToState(Ev(h, y[k], env));
    }
  }

  /** The result node, with zeros above it. */
  method EmitFlag(t: CellType, mk: AigMaker, n: nat) returns (ghost y: seq<nat>)
    requires mk.Valid() && mk.outs == map[] && Legal(t, mk.cell) && OneBitResult(t)
             && ShowsFlag(mk.indices, n, t, mk.cell)
    modifies mk
    ensures Drives(mk, y) && Shows(mk.indices, y, t, mk.cell)
  {
    ghost var g := mk.indices;
    y := mk.OutportBool(n, PortY);
    FlagShown(g, n, mk.indices, y, t, mk.cell);
  }

  // ----- Reductions

  datatype Op = OpAnd | OpOr | OpXor

  function FoldOp(op: Op, c: Const): State {
    match op
    case OpAnd => Fold(LogicAnd, S1, c)
    case OpOr => Fold(LogicOr, S0, c)
    case OpXor => Fold(LogicXor, S0, c)
  }

  predicate OpVal(op: Op, a: bool, b: bool) {
    match op
    case OpAnd => a && b
    case OpOr => a || b
    case OpXor => a != b
  }

  lemma {:induction false} FoldStep(op: Op, c: Const, i: nat)
    requires Defined(c) && i < |c|
    ensures IsDef(FoldOp(op, c[..i]))
    ensures FoldOp(op, c[..i + 1]) == ToState(OpVal(op, c[i] == S1, FoldOp(op, c[..i]) == S1))
    ensures i == 0 ==> FoldOp(op, c[..1]) == c[0]
    decreases i
  {
    assert c[..i + 1][..i] == c[..i];
    if i > 0 {
      FoldStep(op, c, i - 1);
    }
  }

  ghost predicate Folded(g: seq<Core>, n: nat, op: Op, c: Cell, p: Port, i: nat) {
    n < |g| && forall env :: c.Fits(env) && i <= |InputOf(env, p)| ==>
        ToState(Ev(g, n, env)) == FoldOp(op, InputOf(env, p)[..i])
  }

  method OpGate(op: Op, mk: AigMaker, a: nat, b: nat) returns (n: nat)
    requires mk.Valid() && a < |mk.indices| && b < |mk.indices|
    modifies mk`nodes, mk`indices
    ensures mk.Valid() && Grows(old(mk.indices), mk.indices) && n < |mk.indices|
    ensures forall env :: Ev(mk.indices, n, env) == OpVal(op, Ev(old(mk.indices), a, env), Ev(old(mk.indices), b, env))
  {
    match op {
      case OpAnd => n := mk.AndGate(a, b, false);
      case OpOr => n := mk.OrGate(a, b);
      case OpXor => n := mk.XorGate(a, b);
    }
  }

  /** One more bit folded in. */
  method FoldBit(op: Op, mk: AigMaker, p: Port, i: nat, acc: nat) returns (n: nat)
    requires mk.Valid() && (p.PortA? || p.PortB?) && i < mk.cell.Size(p) && Folded(mk.indices, acc, op, mk.cell, p, i)
    modifies mk`nodes, mk`indices
    ensures mk.Valid() && Grows(old(mk.indices), mk.indices) && Folded(mk.indices, n, op, mk.cell, p, i + 1)
  {
    var a := mk.Inport(p, i, false);
    n := OpGate(op, mk, a, acc);
    forall env | mk.cell.Fits(env) && i + 1 <= |InputOf(env, p)|
      ensures ToState(Ev(mk.indices, n, env)) == FoldOp(op, InputOf(env, p)[..i + 1])
    {
      FoldStep(op, InputOf(env, p), i);
    }
  }

  lemma {:induction false} FoldStart(g: seq<Core>, n: nat, op: Op, c: Cell, p: Port)
    requires (p.PortA? || p.PortB?) && c.Size(p) > 0 && n < |g|
    requires forall env :: c.Fits(env) ==> Ev(g, n, env) == (ExtBit(InputOf(env, p), c.IsSigned(p), 0) == S1)
    ensures Folded(g, n, op, c, p, 1)
  {
    forall env | c.Fits(env) ensures ToState(Ev(g, n, env)) == FoldOp(op, InputOf(env, p)[..1]) {
      FoldStep(op, InputOf(env, p), 0);
    }
  }

  lemma {:induction false} FoldEnd(g: seq<Core>, n: nat, op: Op, c: Cell, p: Port)
    requires (p.PortA? || p.PortB?) && Folded(g, n, op, c, p, c.Size(p))
    ensures forall env :: c.Fits(env) ==> ToState(Ev(g, n, env)) == FoldOp(op, InputOf(env, p))
  {
    forall env | c.Fits(env) ensures ToState(Ev(g, n, env)) == FoldOp(op, InputOf(env, p)) {
      assert InputOf(env, p)[..c.Size(p)] == InputOf(env, p);
    }
  }

  method ReducePort(op: Op, mk: AigMaker, p: Port) returns (n: nat)
    requires mk.Valid() && (p.PortA? || p.PortB?) && mk.cell.Size(p) > 0
    modifies mk`nodes, mk`indices
    ensures mk.Valid() && Grows(old(mk.indices), mk.indices) && n < |mk.indices|
    ensures forall env :: mk.cell.Fits(env) ==> ToState(Ev(mk.indices, n, env)) == FoldOp(op, InputOf(env, p))
  {
    n := mk.Inport(p, 0, false);
    FoldStart(mk.indices, n, op, mk.cell, p);
    for i := 1 to mk.cell.Size(p)
      invariant mk.Valid() && Grows(old(mk.indices), mk.indices) && Folded(mk.indices, n, op, mk.cell, p, i)
    {
      n := FoldBit(op, mk, p, i, n);
    }
    FoldEnd(mk.indices, n, op, mk.cell, p);
  }

  function ReduceOpOf(t: CellType): Op {
    if t.ReduceAnd? then OpAnd else if t.ReduceOr? || t.ReduceBool? then OpOr else OpXor
  }

  method BuildReduce(t: CellType, mk: AigMaker) returns (ghost y: seq<nat>)
    requires mk.Valid() && mk.outs == map[] && Legal(t, mk.cell)
    requires t.ReduceAnd? || t.ReduceOr? || t.ReduceBool? || t.ReduceXor? || t.ReduceXnorCell?
    modifies mk
    ensures Drives(mk, y) && Shows(mk.indices, y, t, mk.cell)
  {
    var n := ReducePort(ReduceOpOf(t), mk, PortA);
    if t.ReduceXnorCell? {
      n := mk.NotGate(n);
    }
    y := EmitFlag(t, mk, n);
  }

  ghost predicate IsTruth(g: seq<Core>, n: nat, c: Cell, p: Port) {
    n < |g| && forall env :: c.Fits(env) ==> ToState(Ev(g, n, env)) == FoldOp(OpOr, InputOf(env, p))
  }

  method LogicNode(t: CellType, mk: AigMaker, a: nat, b: nat) returns (n: nat)
    requires mk.Valid() && Legal(t, mk.cell) && (t.LogicAndCell? || t.LogicOrCell?)
    requires IsTruth(mk.indices, a, mk.cell, PortA) && IsTruth(mk.indices, b, mk.cell, PortB)
    modifies mk`nodes, mk`indices
    ensures mk.Valid() && ShowsFlag(mk.indices, n, t, mk.cell)
  {
    if t.LogicAndCell? {
      n := mk.AndGate(a, b, false);
    } else {
      n := mk.OrGate(a, b);
    }
  }

  method BuildLogic(t: CellType, mk: AigMaker) returns (ghost y: seq<nat>)
    requires mk.Valid() && mk.outs == map[] && Legal(t, mk.cell)
             && (t.LogicNotCell? || t.LogicAndCell? || t.LogicOrCell?)
    modifies mk
    ensures Drives(mk, y) && Shows(mk.indices, y, t, mk.cell)
  {
    var a := ReducePort(OpOr, mk, PortA);
    var n;
    if t.LogicNotCell? {
      n := mk.NotGate(a);
    } else {
      var b := ReducePort(OpOr, mk, PortB);
      n := LogicNode(t, mk, a, b);
    }
    y := EmitFlag(t, mk, n);
  }

  // ----- Sums and comparisons

  /** The nodes `vec` carry port `p` at width `w`, inverted or not. */
  ghost predicate IsWord(g: seq<Core>, vec: seq<nat>, c: Cell, p: Port, w: nat, inv: bool) {
    && In(vec, g) && |vec| == w
    && forall env :: c.Fits(env) ==> BitsOf(g, vec, env) == NotIfB(Extend(InputOf(env, p), w, c.IsSigned(p)), inv)
  }

  lemma {:induction false} WordGrows(g: seq<Core>, h: seq<Core>, vec: seq<nat>, c: Cell, p: Port, w: nat, inv: bool)
    requires Grows(g, h) && IsWord(g, vec, c, p, w, inv)
    ensures IsWord(h, vec, c, p, w, inv)
  {
    forall env | c.Fits(env) ensures BitsOf(h, vec, env) == BitsOf(g, vec, env) {
      forall k | 0 <= k < |vec| ensures BitsOf(h, vec, env)[k] == BitsOf(g, vec, env)[k] {
        assert Ev(h, vec[k], env) == Ev(g, vec[k], env);
      }
    }
  }

  method PortWord(mk: AigMaker, p: Port, w: nat) returns (vec: seq<nat>)
    requires mk.Valid() && (p.PortA? || p.PortB?) && mk.cell.Size(p) > 0
    modifies mk`nodes, mk`indices
    ensures mk.Valid() && Grows(old(mk.indices), mk.indices) && IsWord(mk.indices, vec, mk.cell, p, w, false)
  {
    vec := mk.InportVec(p, w);
  }

  method PortWords(mk: AigMaker, w: nat) returns (a: seq<nat>, b: seq<nat>)
    requires mk.Valid() && mk.cell.aWidth > 0 && mk.cell.bWidth > 0
    modifies mk`nodes, mk`indices
    ensures mk.Valid() && Grows(old(mk.indices), mk.indices)
    ensures IsWord(mk.indices, a, mk.cell, PortA, w, false) && IsWord(mk.indices, b, mk.cell, PortB, w, false)
  {
    a := PortWord(mk, PortA, w);
    ghost var g := mk.indices;
    b := PortWord(mk, PortB, w);
    WordGrows(g, mk.indices, a, mk.cell, PortA, w, false);
  }

  method InvertWord(mk: AigMaker, vec: seq<nat>, ghost p: Port) returns (r: seq<nat>)
    requires mk.Valid() && IsWord(mk.indices, vec, mk.cell, p, |vec|, false)
    modifies mk`nodes, mk`indices
    ensures mk.Valid() && Grows(old(mk.indices), mk.indices) && IsWord(mk.indices, r, mk.cell, p, |vec|, true)
  {
    ghost var g := mk.indices;
    r := mk.NotVec(vec);
    forall env | mk.cell.Fits(env) ensures BitsOf(mk.indices, r, env) == NotIfB(BitsOf(g, vec, env), true) {
      forall k | 0 <= k < |vec| ensures BitsOf(mk.indices, r, env)[k] == NotIfB(BitsOf(g, vec, env), true)[k] {
        assert Ev(mk.indices, r[k], env) == !Ev(g, vec[k], env);
      }
    }
  }

  /** The words of `A` and `B` added with a constant carry, `B` inverted or not. */
  ghost predicate IsSum(g: seq<Core>, y: seq<nat>, c: Cell, p: Port, q: Port, w: nat, inv: bool, carry: bool) {
    && In(y, g) && |y| == w
    && forall env :: c.Fits(env) ==>
         BitsOf(g, y, env) ==
             RippleSum(Extend(InputOf(env, p), w, c.IsSigned(p)),
                 NotIfB(Extend(InputOf(env, q), w, c.IsSigned(q)), inv), carry)
  }

  method AddWords(mk: AigMaker, a: seq<nat>, b: seq<nat>, carry: nat, ghost p: Port, ghost q: Port, ghost inv: bool,
                  ghost value: bool)
      returns (y: seq<nat>)
    requires mk.Valid() && IsWord(mk.indices, a, mk.cell, p, |a|, false) && IsWord(mk.indices, b, mk.cell, q, |a|, inv)
    requires carry < |mk.indices| && forall env :: Ev(mk.indices, carry, env) == value
    modifies mk`nodes, mk`indices
    ensures mk.Valid() && IsSum(mk.indices, y, mk.cell, p, q, |a|, inv, value)
  {
    ghost var g := mk.indices;
    var co;
    y, co := mk.Adder(a, b, carry);
    forall env | mk.cell.Fits(env)
      ensures BitsOf(mk.indices, y, env) == RippleSum(Extend(InputOf(env, p), |a|, mk.cell.IsSigned(p)),
                                                      NotIfB(Extend(InputOf(env, q), |a|, mk.cell.IsSigned(q)), inv),
                                                          value)
    {
      assert BitsOf(mk.indices, y, env) == RippleSum(BitsOf(g, a, env), BitsOf(g, b, env), Ev(g, carry, env));
    }
  }

  lemma {:induction false} SumIsCalc(t: CellType, c: Cell, env: Inputs)
    requires Legal(t, c) && c.Fits(env) && (t.AddCell? || t.SubCell?)
    ensures CalcY(t, c, env) == RippleSum(Extend(env.a, c.yWidth, c.aSigned),
                                          NotIfB(Extend(env.b, c.yWidth, c.bSigned), t.SubCell?), t.SubCell?)
  {
    if t.SubCell? {
      SubIsCalc(env.a, env.b, c.aSigned, c.bSigned, c.yWidth);
    } else {
      AddIsCalc(env.a, env.b, c.aSigned, c.bSigned, c.yWidth);
    }
  }

  lemma {:induction false} AddIsCalc(a: Const, b: Const, sa: bool, sb: bool, w: nat)
    requires Defined(a) && Defined(b)
    ensures ConstAdd(a, b, sa, sb, w) == RippleSum(Extend(a, w, sa), Extend(b, w, sb), false)
  {
    BigIsVal(a, sa);
    BigIsVal(b, sb);
    AddExtended(a, b, sa, sb, w);
  }

  lemma {:induction false} SubIsCalc(a: Const, b: Const, sa: bool, sb: bool, w: nat)
    requires Defined(a) && Defined(b)
    ensures ConstSub(a, b, sa, sb, w) == RippleSum(Extend(a, w, sa), NotIfB(Extend(b, w, sb), true), true)
  {
    BigIsVal(a, sa);
    BigIsVal(b, sb);
    SubExtended(a, b, sa, sb, true, w);
  }

  lemma {:induction false} SumShown(t: CellType, c: Cell, g: seq<Core>, y: seq<nat>)
    requires Legal(t, c) && (t.AddCell? || t.SubCell?)
    requires IsSum(g, y, c, PortA, PortB, c.yWidth, t.SubCell?, t.SubCell?)
    ensures Shows(g, y, t, c)
  {
    forall env, k | c.Fits(env) && 0 <= k < |y| ensures ToState(Ev(g, y[k], env)) == CalcBit(t, c, env, k) {
      SumIsCalc(t, c, env);
      assert BitsOf(g, y, env)[k] == ToState(Ev(g, y[k], env));
    }
  }

  /** Subtraction inverts `b` and adds one. */
  method Subtract(mk: AigMaker, a: seq<nat>, b: seq<nat>, carryValue: bool, ghost p: Port, ghost q: Port)
      returns (sum: seq<nat>)
    requires mk.Valid() && IsWord(mk.indices, a, mk.cell, p, |a|, false)
             && IsWord(mk.indices, b, mk.cell, q, |a|, false)
    modifies mk`nodes, mk`indices
    ensures mk.Valid() && IsSum(mk.indices, sum, mk.cell, p, q, |a|, true, carryValue)
  {
    ghost var g := mk.indices;
    var carry := mk.BoolNode(carryValue);
    WordGrows(g, mk.indices, b, mk.cell, q, |a|, false);
    var notB := InvertWord(mk, b, q);
    WordGrows(g, mk.indices, a, mk.cell, p, |a|, false);
    sum := AddWords(mk, a, notB, carry, p, q, true, carryValue);
  }

  method BuildAdd(mk: AigMaker) returns (ghost y: seq<nat>)
    requires mk.Valid() && mk.outs == map[] && Legal(AddCell, mk.cell)
    modifies mk
    ensures Drives(mk, y) && Shows(mk.indices, y, AddCell, mk.cell)
  {
    var width := mk.cell.yWidth;
    var a, b := PortWords(mk, width);
    ghost var g := mk.indices;
    var carry := mk.BoolNode(false);
    WordGrows(g, mk.indices, a, mk.cell, PortA, width, false);
    WordGrows(g, mk.indices, b, mk.cell, PortB, width, false);
    var sum := AddWords(mk, a, b, carry, PortA, PortB, false, false);
    SumShown(AddCell, mk.cell, mk.indices, sum);
    mk.OutportVec(sum, PortY);
    y := sum;
  }

  method BuildSub(mk: AigMaker) returns (ghost y: seq<nat>)
    requires mk.Valid() && mk.outs == map[] && Legal(SubCell, mk.cell)
    modifies mk
    ensures Drives(mk, y) && Shows(mk.indices, y, SubCell, mk.cell)
  {
    var a, b := PortWords(mk, mk.cell.yWidth);
    var sum := Subtract(mk, a, b, true, PortA, PortB);
    SumShown(SubCell, mk.cell, mk.indices, sum);
    mk.OutportVec(sum, PortY);
    y := sum;
  }

  predicate IsCompare(t: CellType) {
    t.LtCell? || t.LeCell? || t.GtCell? || t.GeCell?
  }

  predicate Swapped(t: CellType) {
    t.GtCell? || t.GeCell?
  }

  /** `$gt` and `$ge` swap their operands. */
  function Minuend(t: CellType): Port {
    if Swapped(t) then PortB else PortA
  }

  function Subtrahend(t: CellType): Port {
    if Swapped(t) then PortA else PortB
  }

  lemma {:induction false} CompareAt(t: CellType, c: Cell, env: Inputs, x: Const, y: Const, m: nat)
    requires Legal(t, c) && IsCompare(t) && c.Fits(env) && m == Max(c.aWidth, c.bWidth)
    requires x == (if Swapped(t) then env.b else env.a) && y == (if Swapped(t) then env.a else env.b)
    ensures RippleSum(Extend(x, m + 1, c.aSigned), NotIfB(Extend(y, m + 1, c.aSigned), true),
                      t.LtCell? || t.GtCell?)[m] == FlagAt(t, c, env)
  {
    CompareBit(x, y, c.aSigned, t.LtCell? || t.GtCell?, m);
    ComparedFlag(t, c, env);
  }

  /** All four comparisons as one of the swapped operands, strict or not. */
  lemma {:induction false} ComparedFlag(t: CellType, c: Cell, env: Inputs)
    requires Legal(t, c) && IsCompare(t) && c.Fits(env)
    ensures var x, y := if Swapped(t) then env.b else env.a, if Swapped(t) then env.a else env.b;
            FlagAt(t, c, env) == ToState(if t.LtCell? || t.GtCell? then Val(x, c.aSigned) < Val(y, c.aSigned)
                                         else Val(x, c.aSigned) <= Val(y, c.aSigned))
  {
  }

  lemma {:induction false} CompareShown(t: CellType, c: Cell, g: seq<Core>, y: seq<nat>, m: nat)
    requires Legal(t, c) && IsCompare(t) && m == Max(c.aWidth, c.bWidth)
    requires IsSum(g, y, c, Minuend(t), Subtrahend(t), m + 1, true, t.LtCell? || t.GtCell?)
    ensures ShowsFlag(g, y[m], t, c)
  {
    forall env | c.Fits(env) ensures ToState(Ev(g, y[m], env)) == FlagAt(t, c, env) {
      assert BitsOf(g, y, env)[m] == ToState(Ev(g, y[m], env));
      CompareAt(t, c, env, InputOf(env, Minuend(t)), InputOf(env, Subtrahend(t)), m);
    }
  }

  method CompareSum(t: CellType, mk: AigMaker, m: nat) returns (sum: seq<nat>)
    requires mk.Valid() && Legal(t, mk.cell) && IsCompare(t)
    modifies mk`nodes, mk`indices
    ensures mk.Valid()
            && IsSum(mk.indices, sum, mk.cell, Minuend(t), Subtrahend(t), m + 1, true, t.LtCell? || t.GtCell?)
  {
    var a, b := PortWords(mk, m + 1);
    var carry := !(t.LeCell? || t.GeCell?);
    if Swapped(t) {
      sum := Subtract(mk, b, a, carry, PortB, PortA);
    } else {
      sum := Subtract(mk, a, b, carry, PortA, PortB);
    }
  }

  method CompareNode(t: CellType, mk: AigMaker) returns (n: nat)
    requires mk.Valid() && Legal(t, mk.cell) && IsCompare(t)
    modifies mk`nodes, mk`indices
    ensures mk.Valid() && ShowsFlag(mk.indices, n, t, mk.cell)
  {
    var m := Max(mk.cell.aWidth, mk.cell.bWidth);
    var sum := CompareSum(t, mk, m);
    n := sum[m];
    CompareShown(t, mk.cell, mk.indices, sum, m);
  }

  method BuildCompare(t: CellType, mk: AigMaker) returns (ghost y: seq<nat>)
    requires mk.Valid() && mk.outs == map[] && Legal(t, mk.cell) && IsCompare(t)
    modifies mk
    ensures Drives(mk, y) && Shows(mk.indices, y, t, mk.cell)
  {
    var n := CompareNode(t, mk);
    y := EmitFlag(t, mk, n);
  }

  // ----- Equality

  ghost predicate IsDiffer(g: seq<Core>, a: seq<nat>, b: seq<nat>, i: nat, h: seq<Core>, n: nat)
    requires i <= |a| == |b| && In(a, g) && In(b, g)
  {
    n < |h| && forall env :: Ev(h, n, env) == (BitsOf(g, a, env)[..i] != BitsOf(g, b, env)[..i])
  }

  lemma {:induction false} DifferStep(x: Const, y: Const, i: nat)
    requires |x| == |y| && i < |x|
    ensures (x[..i + 1] != y[..i + 1]) == (x[..i] != y[..i] || x[i] != y[i])
  {
    assert x[..i + 1] == x[..i] + [x[i]] && y[..i + 1] == y[..i] + [y[i]];
  }

  method DifferBit(mk: AigMaker, a: seq<nat>, b: seq<nat>, i: nat, acc: nat, ghost g: seq<Core>) returns (n: nat)
    requires mk.Valid() && |a| == |b| && i < |a| && In(a, g) && In(b, g) && Grows(g, mk.indices)
    requires IsDiffer(g, a, b, i, mk.indices, acc)
    modifies mk`nodes, mk`indices
    ensures mk.Valid() && Grows(old(mk.indices), mk.indices) && IsDiffer(g, a, b, i + 1, mk.indices, n)
  {
    var x := mk.XorGate(a[i], b[i]);
    n := mk.OrGate(acc, x);
    forall env ensures Ev(mk.indices, n, env) == (BitsOf(g, a, env)[..i + 1] != BitsOf(g, b, env)[..i + 1]) {
      DifferStep(BitsOf(g, a, env), BitsOf(g, b, env), i);
    }
  }

  method DifferNode(mk: AigMaker) returns (n: nat)
    requires mk.Valid() && mk.cell.aWidth > 0 && mk.cell.bWidth > 0
    modifies mk`nodes, mk`indices
    ensures mk.Valid() && IsDifferNode(mk.indices, n, mk.cell, false)
  {
    var width := Max(mk.cell.aWidth, mk.cell.bWidth);
    var a, b := PortWords(mk, width);
    ghost var g := mk.indices;
    n := mk.BoolNode(false);
    for i := 0 to width
      invariant mk.Valid() && Grows(g, mk.indices) && IsDiffer(g, a, b, i, mk.indices, n)
    {
      n := DifferBit(mk, a, b, i, n, g);
    }
    DifferShown(mk.cell, g, a, b, mk.indices, n);
  }

  /** The node tells whether the operands differ, or are equal. */
  ghost predicate IsDifferNode(g: seq<Core>, n: nat, c: Cell, inv: bool) {
    n < |g| && forall env :: c.Fits(env) ==>
        Ev(g, n, env) == ((Operand(c, PortA, env) != Operand(c, PortB, env)) != inv)
  }

  lemma {:induction false} DifferShown(c: Cell, g: seq<Core>, a: seq<nat>, b: seq<nat>, h: seq<Core>, n: nat)
    requires |a| == |b| == Max(c.aWidth, c.bWidth) && In(a, g) && In(b, g)
    requires IsWord(g, a, c, PortA, |a|, false) && IsWord(g, b, c, PortB, |a|, false) && IsDiffer(g, a, b, |a|, h, n)
    ensures IsDifferNode(h, n, c, false)
  {
    forall env | c.Fits(env) ensures Ev(h, n, env) == (Operand(c, PortA, env) != Operand(c, PortB, env)) {
      var x, y := BitsOf(g, a, env), BitsOf(g, b, env);
      assert x[..|a|] == x && y[..|a|] == y;
    }
  }

  lemma {:induction false} EqualShown(t: CellType, c: Cell, g: seq<Core>, n: nat)
    requires Legal(t, c) && (t.EqCell? || t.NeCell?) && IsDifferNode(g, n, c, t.EqCell?)
    ensures ShowsFlag(g, n, t, c)
  {
    forall env | c.Fits(env) ensures ToState(Ev(g, n, env)) == FlagAt(t, c, env) {
      assert Ev(g, n, env) == ((Operand(c, PortA, env) != Operand(c, PortB, env)) != t.EqCell?);
    }
  }

  method BuildEqual(t: CellType, mk: AigMaker) returns (ghost y: seq<nat>)
    requires mk.Valid() && mk.outs == map[] && Legal(t, mk.cell) && (t.EqCell? || t.NeCell?)
    modifies mk
    ensures Drives(mk, y) && Shows(mk.indices, y, t, mk.cell)
  {
    var n := DifferNode(mk);
    if t.EqCell? {
      n := mk.NotGate(n);
    }
    EqualShown(t, mk.cell, mk.indices, n);
    y := EmitFlag(t, mk, n);
  }

  // ----- $alu

  function AluOut(p: Port, c: Cell, env: Inputs): Const
    requires c.Fits(env) && (p.PortY? || p.PortX? || p.PortCO?)
  {
    var a, b, ci := AluA(c, env), AluB(c, env), env.ci[0] == S1;
    match p
    case PortY => RippleSum(a, b, ci)
    case PortCO => RippleCarries(a, b, ci)
    case PortX => HalfBits(a, b)
  }

  /** Bit by bit, whether `a` and `b` differ. */
  function HalfBits(a: Const, b: Const): Const
    requires |a| == |b|
  {
    seq(|a|, i requires 0 <= i < |a| => ToState((a[i] == S1) != (b[i] == S1)))
  }

  ghost predicate ShowsAlu(g: seq<Core>, vec: seq<nat>, p: Port, c: Cell)
    requires p.PortY? || p.PortX? || p.PortCO?
  {
    In(vec, g) && |vec| == c.yWidth && forall env :: c.Fits(env) ==> BitsOf(g, vec, env) == AluOut(p, c, env)
  }

  method XorVec(mk: AigMaker, a: seq<nat>, b: seq<nat>) returns (r: seq<nat>)
    requires mk.Valid() && |a| == |b| && In(a, mk.indices) && In(b, mk.indices)
    modifies mk`nodes, mk`indices
    ensures mk.Valid() && Grows(old(mk.indices), mk.indices) && |r| == |a| && In(r, mk.indices)
    ensures Xors(old(mk.indices), a, b, mk.indices, r)
  {
    r := [];
    ghost var g := mk.indices;
    for i := 0 to |a|
      invariant mk.Valid() && Grows(g, mk.indices) && |r| == i && In(r, mk.indices) && Xors(g, a, b, mk.indices, r)
    {
      ghost var h := mk.indices;
      var n := mk.XorGate(a[i], b[i]);
      XorsMore(g, a, b, h, r, mk.indices, n);
      r := r + [n];
    }
  }

  /** The nodes `r` of `h` are the exclusive ors of the first bits of `a` and `b`. */
  ghost predicate Xors(g: seq<Core>, a: seq<nat>, b: seq<nat>, h: seq<Core>, r: seq<nat>)
    requires In(a, g) && In(b, g) && In(r, h) && |r| <= |a| == |b|
  {
    forall env, k :: 0 <= k < |r| ==> Ev(h, r[k], env) == (Ev(g, a[k], env) != Ev(g, b[k], env))
  }

  lemma {:induction false} XorsMore(g: seq<Core>, a: seq<nat>, b: seq<nat>, h: seq<Core>, r: seq<nat>, h': seq<Core>,
                                    n: nat)
    requires In(a, g) && In(b, g) && In(r, h) && |r| < |a| == |b| && Xors(g, a, b, h, r)
    requires Grows(g, h) && Grows(h, h') && n < |h'|
    requires forall env :: Ev(h', n, env) == (Ev(h, a[|r|], env) != Ev(h, b[|r|], env))
    ensures In(r + [n], h') && Xors(g, a, b, h', r + [n])
  {
  }

  /** The second operand: `B`, inverted when `BI` is set. */
  ghost predicate IsAluB(g: seq<Core>, b: seq<nat>, c: Cell) {
    In(b, g) && |b| == c.yWidth && forall env :: c.Fits(env) ==> BitsOf(g, b, env) == AluB(c, env)
  }

  method AluOperand(mk: AigMaker, b: seq<nat>, bi: nat) returns (r: seq<nat>)
    requires mk.Valid() && IsWord(mk.indices, b, mk.cell, PortB, mk.cell.yWidth, false) && bi < |mk.indices|
    requires forall env :: mk.cell.Fits(env) ==> Ev(mk.indices, bi, env) == (env.bi[0] == S1)
    modifies mk`nodes, mk`indices
    ensures mk.Valid() && Grows(old(mk.indices), mk.indices) && IsAluB(mk.indices, r, mk.cell)
  {
    ghost var g := mk.indices;
    r := XorVec(mk, b, seq(|b|, _ => bi));
    forall env | mk.cell.Fits(env) ensures BitsOf(mk.indices, r, env) == AluB(mk.cell, env) {
      XorWithBit(g, b, bi, mk.indices, r, env);
    }
  }

  lemma {:induction false} XorWithBit(g: seq<Core>, b: seq<nat>, bi: nat, h: seq<Core>, r: seq<nat>, env: Inputs)
    requires In(b, g) && bi < |g| && In(r, h) && |r| == |b|
    requires forall k :: 0 <= k < |b| ==> Ev(h, r[k], env) == (Ev(g, b[k], env) != Ev(g, bi, env))
    ensures BitsOf(h, r, env) == NotIfB(BitsOf(g, b, env), Ev(g, bi, env))
  {
  }

  lemma {:induction false} BitsGrow(g: seq<Core>, h: seq<Core>, vec: seq<nat>, env: Inputs)
    requires Grows(g, h) && In(vec, g)
    ensures BitsOf(h, vec, env) == BitsOf(g, vec, env)
  {
    forall k | 0 <= k < |vec| ensures BitsOf(h, vec, env)[k] == BitsOf(g, vec, env)[k] {
      assert Ev(h, vec[k], env) == Ev(g, vec[k], env);
    }
  }

  /** The two operand words and the carry in. */
  method AluInputs(mk: AigMaker) returns (a: seq<nat>, b: seq<nat>, carry: nat)
    requires mk.Valid() && Legal(AluCell, mk.cell)
    modifies mk`nodes, mk`indices
    ensures mk.Valid() && In(a, mk.indices) && |a| == mk.cell.yWidth && IsAluB(mk.indices, b, mk.cell)
            && carry < |mk.indices|
    ensures forall env :: mk.cell.Fits(env) ==> BitsOf(mk.indices, a, env) == AluA(mk.cell, env)
    ensures forall env :: mk.cell.Fits(env) ==> Ev(mk.indices, carry, env) == (env.ci[0] == S1)
  {
    var w := mk.cell.yWidth;
    var word;
    a, word := PortWords(mk, w);
    ghost var g := mk.indices;
    carry := mk.Inport(PortCI, 0, false);
    var bi := mk.Inport(PortBI, 0, false);
    WordGrows(g, mk.indices, word, mk.cell, PortB, w, false);
    b := AluOperand(mk, word, bi);
    WordGrows(g, mk.indices, a, mk.cell, PortA, w, false);
  }

  /** The sum, half sum and carry nodes. */
  method AluNodesOf(mk: AigMaker) returns (y: seq<nat>, x: seq<nat>, co: seq<nat>)
    requires mk.Valid() && Legal(AluCell, mk.cell)
    modifies mk`nodes, mk`indices
    ensures mk.Valid()
    ensures ShowsAlu(mk.indices, y, PortY, mk.cell) && ShowsAlu(mk.indices, x, PortX, mk.cell)
            && ShowsAlu(mk.indices, co, PortCO, mk.cell)
  {
    var a, b, carry := AluInputs(mk);
    ghost var g := mk.indices;
    y, co := mk.Adder(a, b, carry);
    ghost var h := mk.indices;
    x := XorVec(mk, a, b);
    forall env | mk.cell.Fits(env)
      ensures BitsOf(mk.indices, y, env) == AluOut(PortY, mk.cell, env)
      ensures BitsOf(mk.indices, co, env) == AluOut(PortCO, mk.cell, env)
      ensures BitsOf(mk.indices, x, env) == AluOut(PortX, mk.cell, env)
    {
      BitsGrow(h, mk.indices, y, env);
      BitsGrow(h, mk.indices, co, env);
      HalfSum(g, h, a, b, mk.indices, x, env);
    }
  }

  lemma {:induction false} HalfSum(g: seq<Core>, h: seq<Core>, a: seq<nat>, b: seq<nat>, h': seq<Core>, x: seq<nat>,
                                   env: Inputs)
    requires Grows(g, h) && |a| == |b| == |x| && In(a, g) && In(b, g) && In(x, h')
    requires forall k :: 0 <= k < |a| ==> Ev(h', x[k], env) == (Ev(h, a[k], env) != Ev(h, b[k], env))
    ensures BitsOf(h', x, env) == HalfBits(BitsOf(g, a, env), BitsOf(g, b, env))
  {
    forall k | 0 <= k < |a|
      ensures BitsOf(h', x, env)[k] == HalfBits(BitsOf(g, a, env), BitsOf(g, b, env))[k]
    {
      assert Ev(h, a[k], env) == Ev(g, a[k], env) && Ev(h, b[k], env) == Ev(g, b[k], env);
      assert BitsOf(g, a, env)[k] == ToState(Ev(g, a[k], env)) && BitsOf(g, b, env)[k] == ToState(Ev(g, b[k], env));
      assert BitsOf(h', x, env)[k] == ToState(Ev(h', x[k], env));
    }
  }

  ghost function AluOuts(y: seq<nat>, x: seq<nat>, co: seq<nat>): map<(Port, nat), nat> {
    Driven(Driven(Driven(map[], PortY, y), PortX, x), PortCO, co)
  }

  method BuildAlu(mk: AigMaker) returns (ghost y: seq<nat>, ghost x: seq<nat>, ghost co: seq<nat>)
    requires mk.Valid() && mk.outs == map[] && Legal(AluCell, mk.cell)
    modifies mk
    ensures mk.Valid() && mk.outs == AluOuts(y, x, co)
    ensures ShowsAlu(mk.indices, y, PortY, mk.cell) && ShowsAlu(mk.indices, x, PortX, mk.cell)
            && ShowsAlu(mk.indices, co, PortCO, mk.cell)
  {
    var sum, half, carries := AluNodesOf(mk);
    y, x, co := sum, half, carries;
    mk.OutportVec(sum, PortY);
    forall b: nat ensures (PortX, b) !in mk.outs {
      DrivenKeys(map[], PortY, y, PortX, b);
    }
    mk.OutportVec(half, PortX);
    forall b: nat ensures (PortCO, b) !in mk.outs {
      DrivenKeys(map[], PortY, y, PortCO, b);
      DrivenKeys(Driven(map[], PortY, y), PortX, x, PortCO, b);
    }
    mk.OutportVec(carries, PortCO);
  }

  // ----- Removing unused nodes

  function Cores(nodes: seq<AigNode>): (g: seq<Core>)
    ensures |g| == |nodes|
  {
    seq(|nodes|, i requires 0 <= i < |nodes| => nodes[i].core)
  }

  /** Node `j` drives an output or is a parent of a node in `ids` above it. */
  ghost predicate Needed(nodes: seq<AigNode>, ids: set<int>, j: int)
    requires 0 <= j < |nodes|
  {
    nodes[j].outports != [] || exists k :: j < k < |nodes| && k in ids && HasParent(nodes[k], j)
  }

  predicate HasParent(n: AigNode, j: int) {
    n.core.left == j || n.core.right == j
  }

  /** Node `j` drives an output or is a parent of a later node. */
  ghost predicate Live(nodes: seq<AigNode>, j: int)
    requires 0 <= j < |nodes|
  {
    nodes[j].outports != [] || exists k :: j < k < |nodes| && HasParent(nodes[k], j)
  }

  /** The ids from `i` up hold every node with outputs, with the parents of each. */
  ghost predicate UsedFrom(nodes: seq<AigNode>, ids: set<int>, i: int) {
    && (forall j :: j in ids ==> 0 <= j < |nodes| && Needed(nodes, ids, j))
    && (forall j :: i <= j < |nodes| && j >= 0 && nodes[j].outports != [] ==> j in ids)
    && (forall j :: j in ids && j >= i ==> ParentsIn(nodes[j].core, ids))
  }

  predicate ParentsIn(c: Core, ids: set<int>) {
    (c.left >= 0 ==> c.left in ids) && (c.right >= 0 ==> c.right in ids)
  }

  method MarkUsed(nodes: seq<AigNode>) returns (used: set<int>)
    requires Graph(Cores(nodes))
    ensures UsedFrom(nodes, used, 0)
  {
    used := {};
    var i := |nodes| - 1;
    while i >= 0
      invariant -1 <= i < |nodes| && UsedFrom(nodes, used, i + 1)
    {
      used := MarkNode(nodes, used, i);
      i := i - 1;
    }
  }

  method MarkNode(nodes: seq<AigNode>, was: set<int>, i: nat) returns (used: set<int>)
    requires Graph(Cores(nodes)) && i < |nodes| && UsedFrom(nodes, was, i + 1)
    ensures UsedFrom(nodes, used, i)
  {
    used := was;
    if nodes[i].outports != [] {
      used := used + {i};
    }
    if i !in used {
      return;
    }
    assert WellFormedCore(Cores(nodes)[i], i);
    if nodes[i].core.left >= 0 {
      used := used + {nodes[i].core.left};
    }
    if nodes[i].core.right >= 0 {
      used := used + {nodes[i].core.right};
    }
    forall j | j in used ensures 0 <= j < |nodes| && Needed(nodes, used, j) {
      if j in was {
        assert Needed(nodes, was, j);
      }
    }
  }

  /** Node `n` with its parents renamed. */
  function Moved(n: AigNode, ids: map<int, int>): AigNode
    requires n.core.left in ids && n.core.right in ids
  {
    n.(core := n.core.(left := ids[n.core.left], right := ids[n.core.right]))
  }

  /** `after` holds the nodes at the ascending positions `src`, renamed by `ids`. */
  predicate Renames(nodes: seq<AigNode>, after: seq<AigNode>, ids: map<int, int>, src: seq<int>) {
    && |src| == |after|
    && (-1 in ids && ids[-1] == -1)
    && (forall j :: j in ids && j != -1 ==> 0 <= ids[j] < |src| && src[ids[j]] == j)
    && (forall q :: 0 <= q < |src| ==> 0 <= src[q] < |nodes| && src[q] in ids && ids[src[q]] == q)
    && (forall q, r :: 0 <= q < r < |src| ==> src[q] < src[r])
    && (forall q :: 0 <= q < |src| ==>
          && nodes[src[q]].core.left in ids && nodes[src[q]].core.right in ids
          && after[q] == Moved(nodes[src[q]], ids))
  }

  lemma {:induction false} RenamedValue(nodes: seq<AigNode>, after: seq<AigNode>, ids: map<int, int>, src: seq<int>,
                                        q: nat, env: Inputs)
    requires Graph(Cores(nodes)) && Renames(nodes, after, ids, src) && q < |after|
    ensures Ev(Cores(after), q, env) == Ev(Cores(nodes), src[q], env)
    decreases q
  {
    var c := nodes[src[q]].core;
    assert WellFormedCore(Cores(nodes)[src[q]], src[q]);
    if c.left >= 0 {
      MovedParent(nodes, after, ids, src, q, c.left);
      MovedParent(nodes, after, ids, src, q, c.right);
      RenamedValue(nodes, after, ids, src, ids[c.left], env);
      RenamedValue(nodes, after, ids, src, ids[c.right], env);
    }
  }

  /** Renaming keeps order. */
  lemma {:induction false} MovedParent(nodes: seq<AigNode>, after: seq<AigNode>, ids: map<int, int>, src: seq<int>,
                                       q: nat, j: int)
    requires Renames(nodes, after, ids, src) && q < |after| && 0 <= j < src[q] && j in ids
    ensures 0 <= ids[j] < q && src[ids[j]] == j
  {
  }

  lemma {:induction false} RenamedGraph(nodes: seq<AigNode>, after: seq<AigNode>, ids: map<int, int>, src: seq<int>)
    requires Graph(Cores(nodes)) && Renames(nodes, after, ids, src)
    ensures Graph(Cores(after))
  {
    var g := Cores(after);
    forall q | 0 <= q < |g| ensures WellFormedCore(g[q], q) {
      var c := nodes[src[q]].core;
      assert WellFormedCore(Cores(nodes)[src[q]], src[q]);
      if c.left >= 0 {
        MovedParent(nodes, after, ids, src, q, c.right);
        MovedParent(nodes, after, ids, src, ids[c.right], c.left);
      }
    }
    forall q, r | 0 <= q < r < |g| ensures g[q] != g[r] {
      RenamedDistinct(nodes, after, ids, src, q, r);
    }
  }

  lemma {:induction false} RenamedDistinct(nodes: seq<AigNode>, after: seq<AigNode>, ids: map<int, int>, src: seq<int>,
                                           q: nat, r: nat)
    requires Graph(Cores(nodes)) && Renames(nodes, after, ids, src) && q < r < |after|
    ensures after[q].core != after[r].core
  {
    var c, d := nodes[src[q]].core, nodes[src[r]].core;
    assert Cores(nodes)[src[q]] != Cores(nodes)[src[r]];
    assert WellFormedCore(Cores(nodes)[src[q]], src[q]) && WellFormedCore(Cores(nodes)[src[r]], src[r]);
    if after[q].core == after[r].core {
      SameId(nodes, after, ids, src, c.left, d.left);
      SameId(nodes, after, ids, src, c.right, d.right);
    }
  }

  lemma {:induction false} RenamedSimple(nodes: seq<AigNode>, after: seq<AigNode>, ids: map<int, int>, src: seq<int>)
    requires Graph(Cores(nodes)) && Renames(nodes, after, ids, src)
    ensures Simplified(Cores(nodes)) ==> Simplified(Cores(after))
  {
    if Simplified(Cores(nodes)) {
      forall q | 0 <= q < |after| ensures SimpleAnd(Cores(after), Cores(after)[q]) {
        RenamedAnd(nodes, after, ids, src, q);
      }
    }
  }

  lemma {:induction false} RenamedAnd(nodes: seq<AigNode>, after: seq<AigNode>, ids: map<int, int>, src: seq<int>,
                                      q: nat)
    requires Graph(Cores(nodes)) && Renames(nodes, after, ids, src) && q < |after| && Simplified(Cores(nodes))
    ensures SimpleAnd(Cores(after), Cores(after)[q])
  {
    var c := nodes[src[q]].core;
    assert WellFormedCore(Cores(nodes)[src[q]], src[q]) && SimpleAnd(Cores(nodes), Cores(nodes)[src[q]]);
    if c.left >= 0 {
      MovedParent(nodes, after, ids, src, q, c.left);
      MovedParent(nodes, after, ids, src, q, c.right);
      RenamedPair(nodes, after, ids, src, c.left, c.right);
    }
  }

  lemma {:induction false} RenamedPair(nodes: seq<AigNode>, after: seq<AigNode>, ids: map<int, int>, src: seq<int>,
                                       j: nat, k: nat)
    requires Graph(Cores(nodes)) && Renames(nodes, after, ids, src) && j in ids && k in ids
    ensures ids[j] >= 0 && ids[k] >= 0
    ensures IsConstant(after[ids[j]].core) ==> IsConstant(nodes[j].core)
    ensures IsConstant(after[ids[k]].core) ==> IsConstant(nodes[k].core)
    ensures Opposite(after[ids[j]].core, after[ids[k]].core) ==> Opposite(nodes[j].core, nodes[k].core)
  {
    var c, d := nodes[j].core, nodes[k].core;
    assert WellFormedCore(Cores(nodes)[j], j) && WellFormedCore(Cores(nodes)[k], k);
    if Opposite(after[ids[j]].core, after[ids[k]].core) {
      SameId(nodes, after, ids, src, c.left, d.left);
      SameId(nodes, after, ids, src, c.right, d.right);
    }
  }

  lemma {:induction false} SameId(nodes: seq<AigNode>, after: seq<AigNode>, ids: map<int, int>, src: seq<int>, j: int,
                                  k: int)
    requires Renames(nodes, after, ids, src) && j in ids && k in ids && ids[j] == ids[k]
    ensures j == k
  {
  }

  /** The part after `optimize:`: unused nodes go, the rest keep their order, values and outputs. */
  method Optimize(nodes: seq<AigNode>) returns (after: seq<AigNode>, ghost ids: map<int, int>, ghost src: seq<int>)
    requires Graph(Cores(nodes))
    ensures Graph(Cores(after)) && Renames(nodes, after, ids, src)
    ensures Simplified(Cores(nodes)) ==> Simplified(Cores(after))
    ensures forall j :: 0 <= j < |nodes| && nodes[j].outports != [] ==> j in ids
    ensures forall q :: 0 <= q < |after| ==> Live(after, q)
    ensures forall q, env :: 0 <= q < |after| ==> Ev(Cores(after), q, env) == Ev(Cores(nodes), src[q], env)
  {
    var used := MarkUsed(nodes);
    after, ids, src := Renumber(nodes, used);
    RenamedGraph(nodes, after, ids, src);
    RenamedSimple(nodes, after, ids, src);
    forall q, env | 0 <= q < |after| ensures Ev(Cores(after), q, env) == Ev(Cores(nodes), src[q], env) {
      RenamedValue(nodes, after, ids, src, q, env);
    }
    forall q | 0 <= q < |after| ensures Live(after, q) {
      StillNeeded(nodes, after, ids, src, used, q);
    }
  }

  /** Exactly the used ids below `i` have been renamed. */
  ghost predicate KeysBelow(ids: map<int, int>, used: set<int>, i: int) {
    forall j :: j in ids && j != -1 <==> 0 <= j < i && j in used
  }

  lemma {:induction false} KeysMore(ids: map<int, int>, used: set<int>, i: nat, n: int)
    requires KeysBelow(ids, used, i) && i in used
    ensures KeysBelow(ids[i := n], used, i + 1)
  {
    forall j ensures j in ids[i := n] && j != -1 <==> 0 <= j < i + 1 && j in used {
      assert j in ids && j != -1 <==> 0 <= j < i && j in used;
    }
  }

  lemma {:induction false} KeysSkip(ids: map<int, int>, used: set<int>, i: nat)
    requires KeysBelow(ids, used, i) && i !in used
    ensures KeysBelow(ids, used, i + 1)
  {
    forall j ensures j in ids && j != -1 <==> 0 <= j < i + 1 && j in used {
      assert j in ids && j != -1 <==> 0 <= j < i && j in used;
    }
  }

  method Renumber(nodes: seq<AigNode>, used: set<int>)
      returns (after: seq<AigNode>, ghost ids: map<int, int>, ghost src: seq<int>)
    requires Graph(Cores(nodes)) && UsedFrom(nodes, used, 0)
    ensures Renames(nodes, after, ids, src) && KeysBelow(ids, used, |nodes|)
  {
    var oldToNew: map<int, int> := map[-1 := -1];
    after, src := [], [];
    for i := 0 to |nodes|
      invariant Renames(nodes, after, oldToNew, src) && KeysBelow(oldToNew, used, i)
    {
      if i in used {
        assert WellFormedCore(Cores(nodes)[i], i);
        assert ParentsIn(nodes[i].core, used);
        RenamesMore(nodes, after, oldToNew, src, i);
        KeysMore(oldToNew, used, i, |after|);
        var node := Moved(nodes[i], oldToNew);
        oldToNew := oldToNew[i := |after|];
        after, src := after + [node], src + [i];
      } else {
        KeysSkip(oldToNew, used, i);
      }
    }
    ids := oldToNew;
  }

  lemma {:induction false} RenamesMore(nodes: seq<AigNode>, after: seq<AigNode>, ids: map<int, int>, src: seq<int>,
                                       i: nat)
    requires Renames(nodes, after, ids, src) && i < |nodes| && i !in ids && (forall j :: j in ids ==> j < i)
    requires nodes[i].core.left in ids && nodes[i].core.right in ids
    ensures Renames(nodes, after + [Moved(nodes[i], ids)], ids[i := |after|], src + [i])
  {
  }

  lemma {:induction false} StillNeeded(nodes: seq<AigNode>, after: seq<AigNode>, ids: map<int, int>, src: seq<int>,
                                       used: set<int>, q: nat)
    requires Renames(nodes, after, ids, src) && UsedFrom(nodes, used, 0) && q < |after|
    requires KeysBelow(ids, used, |nodes|)
    ensures Live(after, q)
  {
    var j := src[q];
    assert Needed(nodes, used, j);
    if nodes[j].outports == [] {
      var k :| j < k < |nodes| && k in used && HasParent(nodes[k], j);
      MovedChild(nodes, after, ids, src, q, k);
    }
  }

  /** A renamed child has the renamed parent. */
  lemma {:induction false} MovedChild(nodes: seq<AigNode>, after: seq<AigNode>, ids: map<int, int>, src: seq<int>,
                                      q: nat, k: nat)
    requires Renames(nodes, after, ids, src) && q < |after| && src[q] < k < |nodes| && k in ids
    requires HasParent(nodes[k], src[q])
    ensures Live(after, q)
  {
    var r := ids[k];
    assert src[r] == k && after[r] == Moved(nodes[k], ids);
    assert q < r && HasParent(after[r], q);
  }

  // ----- The whole constructor

  /** On inputs `env`, the graph's outputs at `port` are exactly the bits of `want`. */
  ghost predicate Outputs(nodes: seq<AigNode>, port: Port, want: Const, env: Inputs) {
    && (forall i, b :: 0 <= i < |nodes| && (port, b) in nodes[i].outports ==>
          b < |want| && ToState(Ev(Cores(nodes), i, env)) == want[b])
    && (forall b: nat :: b < |want| ==> HasDriver(nodes, port, b))
  }

  predicate HasDriver(nodes: seq<AigNode>, port: Port, b: nat) {
    exists i :: 0 <= i < |nodes| && (port, b) in nodes[i].outports
  }

  /** A reference for every output port. */
  function Reference(t: CellType, c: Cell, port: Port, env: Inputs): Const
    requires Legal(t, c) && c.Fits(env)
  {
    if port.PortY? then CalcY(t, c, env)
    else if t.AluCell? && (port.PortX? || port.PortCO?) then AluOut(port, c, env)
    else []
  }

  lemma {:induction false} DrivenOutputs(mk: AigMaker, port: Port, vec: seq<nat>, want: Const, env: Inputs)
    requires mk.Valid() && In(vec, mk.indices) && |vec| == |want|
    requires forall b: nat :: (port, b) in mk.outs <==> b < |vec|
    requires forall b: nat :: b < |vec| ==>
             mk.outs[(port, b)] == vec[b] && ToState(Ev(mk.indices, vec[b], env)) == want[b]
    ensures Outputs(mk.nodes, port, want, env)
  {
    assert Cores(mk.nodes) == mk.indices;
    forall i, b: nat | 0 <= i < |mk.nodes| && (port, b) in mk.nodes[i].outports
      ensures b < |want| && ToState(Ev(Cores(mk.nodes), i, env)) == want[b]
    {
      assert (port, b) in mk.outs && mk.outs[(port, b)] == i;
    }
    forall b: nat | b < |want| ensures HasDriver(mk.nodes, port, b) {
      var i := mk.outs[(port, b)];
      assert 0 <= i < |mk.nodes| && (port, b) in mk.nodes[i].outports;
    }
  }

  /** A cell with the single output `Y`. */
  lemma {:induction false} SingleOutput(t: CellType, mk: AigMaker, y: seq<nat>, port: Port, env: Inputs)
    requires Legal(t, mk.cell) && !t.AluCell? && Drives(mk, y) && Shows(mk.indices, y, t, mk.cell) && mk.cell.Fits(env)
    requires |CalcY(t, mk.cell, env)| == mk.cell.yWidth
    ensures Outputs(mk.nodes, port, Reference(t, mk.cell, port, env), env)
  {
    forall b: nat
      ensures (port, b) in mk.outs <==> port.PortY? && b < |y|
      ensures port.PortY? && b < |y| ==> mk.outs[(port, b)] == y[b]
    {
      DrivenKeys(map[], PortY, y, port, b);
    }
    var vec := if port.PortY? then y else [];
    forall b: nat | b < |vec| ensures ToState(Ev(mk.indices, vec[b], env)) == Reference(t, mk.cell, port, env)[b] {
      assert ToState(Ev(mk.indices, y[b], env)) == CalcBit(t, mk.cell, env, b);
    }
    DrivenOutputs(mk, port, vec, Reference(t, mk.cell, port, env), env);
  }

  lemma {:induction false} ResultWidth(t: CellType, c: Cell, env: Inputs)
    requires Legal(t, c) && c.Fits(env)
    ensures |CalcY(t, c, env)| == c.yWidth
  {
    if OneBitResult(t) {
      FlagIsCalc(t, c, env);
    }
  }

  lemma {:induction false} AluOutput(mk: AigMaker, y: seq<nat>, x: seq<nat>, co: seq<nat>, port: Port, env: Inputs)
    requires mk.Valid() && Legal(AluCell, mk.cell) && mk.cell.Fits(env) && mk.outs == AluOuts(y, x, co)
    requires ShowsAlu(mk.indices, y, PortY, mk.cell) && ShowsAlu(mk.indices, x, PortX, mk.cell)
             && ShowsAlu(mk.indices, co, PortCO, mk.cell)
    ensures Outputs(mk.nodes, port, Reference(AluCell, mk.cell, port, env), env)
  {
    var vec := AluVec(y, x, co, port);
    forall b: nat
      ensures (port, b) in mk.outs <==> b < |vec|
      ensures b < |vec| ==> mk.outs[(port, b)] == vec[b]
    {
      AluKeys(y, x, co, port, b);
    }
    AluBits(mk.cell, mk.indices, y, x, co, port, env);
    DrivenOutputs(mk, port, vec, Reference(AluCell, mk.cell, port, env), env);
  }

  function AluVec(y: seq<nat>, x: seq<nat>, co: seq<nat>, port: Port): seq<nat> {
    match port
    case PortY => y
    case PortX => x
    case PortCO => co
    case _ => []
  }

  lemma {:induction false} AluKeys(y: seq<nat>, x: seq<nat>, co: seq<nat>, port: Port, b: nat)
    ensures (port, b) in AluOuts(y, x, co) <==> b < |AluVec(y, x, co, port)|
    ensures b < |AluVec(y, x, co, port)| ==> AluOuts(y, x, co)[(port, b)] == AluVec(y, x, co, port)[b]
  {
    DrivenKeys(map[], PortY, y, port, b);
    DrivenKeys(Driven(map[], PortY, y), PortX, x, port, b);
    DrivenKeys(Driven(Driven(map[], PortY, y), PortX, x), PortCO, co, port, b);
  }

  lemma {:induction false} AluBits(c: Cell, g: seq<Core>, y: seq<nat>, x: seq<nat>, co: seq<nat>, port: Port,
                                   env: Inputs)
    requires Legal(AluCell, c) && c.Fits(env) && ShowsAlu(g, y, PortY, c) && ShowsAlu(g, x, PortX, c)
             && ShowsAlu(g, co, PortCO, c)
    ensures var vec, want := AluVec(y, x, co, port), Reference(AluCell, c, port, env);
            && In(vec, g) && |vec| == |want| && forall b :: 0 <= b < |vec| ==> ToState(Ev(g, vec[b], env)) == want[b]
  {
    var vec := AluVec(y, x, co, port);
    assert Reference(AluCell, c, port, env) == BitsOf(g, vec, env);
  }

  /** Removing unused nodes keeps every output. */
  lemma {:induction false} OptimizedOutputs(nodes: seq<AigNode>, after: seq<AigNode>, ids: map<int, int>, src: seq<int>,
                                            port: Port, want: Const, env: Inputs)
    requires Renames(nodes, after, ids, src) && Outputs(nodes, port, want, env)
    requires forall j :: 0 <= j < |nodes| && nodes[j].outports != [] ==> j in ids
    requires forall q :: 0 <= q < |after| ==> Ev(Cores(after), q, env) == Ev(Cores(nodes), src[q], env)
    ensures Outputs(after, port, want, env)
  {
    forall q, b: nat | 0 <= q < |after| && (port, b) in after[q].outports
      ensures b < |want| && ToState(Ev(Cores(after), q, env)) == want[b]
    {
      KeptOutports(nodes, after, ids, src, q);
      assert (port, b) in nodes[src[q]].outports;
    }
    forall b: nat | b < |want| ensures HasDriver(after, port, b) {
      KeptDriver(nodes, after, ids, src, port, b);
    }
  }

  lemma {:induction false} KeptOutports(nodes: seq<AigNode>, after: seq<AigNode>, ids: map<int, int>, src: seq<int>,
                                        q: nat)
    requires Renames(nodes, after, ids, src) && q < |after|
    ensures after[q].outports == nodes[src[q]].outports
  {
    assert after[q] == Moved(nodes[src[q]], ids);
  }

  lemma {:induction false} KeptDriver(nodes: seq<AigNode>, after: seq<AigNode>, ids: map<int, int>, src: seq<int>,
                                      port: Port, b: nat)
    requires Renames(nodes, after, ids, src) && HasDriver(nodes, port, b)
    requires forall j :: 0 <= j < |nodes| && nodes[j].outports != [] ==> j in ids
    ensures HasDriver(after, port, b)
  {
    var i :| 0 <= i < |nodes| && (port, b) in nodes[i].outports;
    var q := ids[i];
    KeptOutports(nodes, after, ids, src, q);
  }

  method BuildCell(t: CellType, mk: AigMaker) returns (ghost y: seq<nat>)
    requires mk.Valid() && mk.outs == map[] && Legal(t, mk.cell) && !t.AluCell?
    modifies mk
    ensures Drives(mk, y) && Shows(mk.indices, y, t, mk.cell)
  {
    if Bitwise(t) {
      y := BuildBitwise(t, mk);
    } else if t.ReduceAnd? || t.ReduceOr? || t.ReduceBool? || t.ReduceXor? || t.ReduceXnorCell? {
      y := BuildReduce(t, mk);
    } else if t.LogicNotCell? || t.LogicAndCell? || t.LogicOrCell? {
      y := BuildLogic(t, mk);
    } else if t.AddCell? {
      y := BuildAdd(mk);
    } else if t.SubCell? {
      y := BuildSub(mk);
    } else if IsCompare(t) {
      y := BuildCompare(t, mk);
    } else {
      y := BuildEqual(t, mk);
    }
  }

  /** The finished graph of a cell computes what the evaluator computes, on every defined input. */
  method MakeAig(t: CellType, cell: Cell) returns (nodes: seq<AigNode>)
    requires Legal(t, cell)
    ensures Graph(Cores(nodes)) && Simplified(Cores(nodes))
    ensures forall q :: 0 <= q < |nodes| ==> Live(nodes, q)
    ensures forall env, port :: cell.Fits(env) ==> Outputs(nodes, port, Reference(t, cell, port, env), env)
  {
    var mk := new AigMaker(cell);
    if t.AluCell? {
      ghost var y, x, co := BuildAlu(mk);
      forall env, port | cell.Fits(env) ensures Outputs(mk.nodes, port, Reference(t, cell, port, env), env) {
        AluOutput(mk, y, x, co, port, env);
      }
    } else {
      ghost var y := BuildCell(t, mk);
      forall env, port | cell.Fits(env) ensures Outputs(mk.nodes, port, Reference(t, cell, port, env), env) {
        ResultWidth(t, cell, env);
        SingleOutput(t, mk, y, port, env);
      }
    }
    assert Cores(mk.nodes) == mk.indices;
    ghost var ids, src;
    nodes, ids, src := Optimize(mk.nodes);
    forall env, port | cell.Fits(env) ensures Outputs(nodes, port, Reference(t, cell, port, env), env) {
      OptimizedOutputs(mk.nodes, nodes, ids, src, port, Reference(t, cell, port, env), env);
    }
  }
}
