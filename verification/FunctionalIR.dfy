/** Nodes of the functional IR (`kernel/functional.h`) and their meaning on two-valued vectors. */
module FunctionalIR {
  import opened Bits
  import opened Calc

  datatype Fn1 = BitwiseNot | UnaryMinus | ReduceAnd | ReduceOr | ReduceXor

  datatype Fn2 =
    | Add | Sub | Mul | UnsignedDiv | UnsignedMod
    | BitwiseAnd | BitwiseOr | BitwiseXor
    | Equal | NotEqual | UnsignedGreaterThan | UnsignedGreaterEqual | SignedGreaterThan | SignedGreaterEqual
    | LogicalShiftLeft | LogicalShiftRight | ArithmeticShiftRight

  /** A node with its arguments. An input is named by a number. */
  datatype Node =
    | Input(name: nat, inWidth: nat)
    | Constant(value: Const)
    | SliceOf(a: Node, offset: nat, outWidth: nat)
    | ZeroExtend(a: Node, outWidth: nat)
    | SignExtend(a: Node, outWidth: nat)
    | Apply1(f1: Fn1, a: Node)
    | Apply2(f2: Fn2, a: Node, b: Node)
    | MuxOf(a: Node, b: Node, s: Node)

  function Width(n: Node): nat {
    match n
    case Input(_, w) => w
    case Constant(v) => |v|
    case SliceOf(_, _, w) => w
    case ZeroExtend(_, w) => w
    case SignExtend(_, w) => w
    case Apply1(f, a) => if f.BitwiseNot? || f.UnaryMinus? then Width(a) else 1
    case Apply2(f, a, b) => if IsComparison(f) then 1 else Width(a)
    case MuxOf(a, _, _) => Width(a)
  }

  predicate IsComparison(f: Fn2) {
    || f.Equal? || f.NotEqual?
    || f.UnsignedGreaterThan? || f.UnsignedGreaterEqual? || f.SignedGreaterThan? || f.SignedGreaterEqual?
  }

  predicate IsShift(f: Fn2) {
    f.LogicalShiftLeft? || f.LogicalShiftRight? || f.ArithmeticShiftRight?
  }

  /** What the assertions of `Factory` admit; constants must be defined to have a value here. */
  predicate Valid(n: Node) {
    Width(n) > 0
    && match n
       case Input(_, _) => true
       case Constant(v) => Defined(v)
       case SliceOf(a, offset, w) => Valid(a) && offset + w <= Width(a)
       case ZeroExtend(a, w) => Valid(a) && w > Width(a)
       case SignExtend(a, w) => Valid(a) && w > Width(a)
       case Apply1(_, a) => Valid(a)
       case Apply2(f, a, b) =>
         Valid(a) && Valid(b) && Width(b) == if IsShift(f) then CeilLog2(Width(a)) else Width(a)
       case MuxOf(a, b, s) => Valid(a) && Valid(b) && Valid(s) && Width(a) == Width(b) && Width(s) == 1
  }

  /** The values of the inputs; an input of width `w` reads the low `w` bits. */
  type Env = nat -> int

  function Flag1(b: bool): Const {
    [ToState(b)]
  }

  function Shifted(a: Const, offset: int, signExt: bool): (r: Const)
    ensures |r| == |a|
  {
    seq(|a|, i requires 0 <= i => ShiftBit(a, offset, signExt, S0, i))
  }

  function Meaning1(f: Fn1, x: Const): (r: Const)
    requires Defined(x)
    ensures Defined(r) && |r| == if f.BitwiseNot? || f.UnaryMinus? then |x| else 1
  {
    match f
    case BitwiseNot => FromInt(-1 - UVal(x), |x|)
    case UnaryMinus => FromInt(0 - UVal(x), |x|)
    case ReduceAnd => Flag1(forall i :: 0 <= i < |x| ==> x[i] == S1)
    case ReduceOr => Flag1(exists i :: 0 <= i < |x| && x[i] == S1)
    case ReduceXor => Flag1(Fold(LogicXor, S0, x) == S1)
  }

  /** Dividing by zero has no defined meaning; the model picks zero. */
  function Meaning2(f: Fn2, x: Const, y: Const): (r: Const)
    requires Defined(x) && Defined(y) && (!IsShift(f) ==> |x| == |y|)
    ensures Defined(r)
    ensures |r| == if IsComparison(f) then 1 else |x|
  {
    match f
    case Add => FromInt(UVal(x) + UVal(y), |x|)
    case Sub => FromInt(UVal(x) - UVal(y), |x|)
    case Mul => FromInt(UVal(x) * UVal(y), |x|)
    case UnsignedDiv => FromInt(if UVal(y) == 0 then 0 else UVal(x) / UVal(y), |x|)
    case UnsignedMod => FromInt(if UVal(y) == 0 then 0 else UVal(x) % UVal(y), |x|)
    case BitwiseAnd => seq(|x|, i requires 0 <= i < |x| => LogicAnd(x[i], y[i]))
    case BitwiseOr => seq(|x|, i requires 0 <= i < |x| => LogicOr(x[i], y[i]))
    case BitwiseXor => seq(|x|, i requires 0 <= i < |x| => LogicXor(x[i], y[i]))
    case Equal => Flag1(x == y)
    case NotEqual => Flag1(x != y)
    case UnsignedGreaterThan => Flag1(UVal(x) > UVal(y))
    case UnsignedGreaterEqual => Flag1(UVal(x) >= UVal(y))
    case SignedGreaterThan => Flag1(SVal(x) > SVal(y))
    case SignedGreaterEqual => Flag1(SVal(x) >= SVal(y))
    case LogicalShiftLeft => Shifted(x, 0 - UVal(y), false)
    case LogicalShiftRight => Shifted(x, UVal(y), false)
    case ArithmeticShiftRight => Shifted(x, UVal(y), true)
  }

  function Eval(n: Node, env: Env): (r: Const)
    requires Valid(n)
    ensures |r| == Width(n) && Defined(r)
  {
    match n
    case Input(name, w) => FromInt(env(name), w)
    case Constant(v) => v
    case SliceOf(a, offset, w) => Eval(a, env)[offset..offset + w]
    case ZeroExtend(a, w) => Extend(Eval(a, env), w, false)
    case SignExtend(a, w) => Extend(Eval(a, env), w, true)
    case Apply1(f, a) => Meaning1(f, Eval(a, env))
    case Apply2(f, a, b) => Meaning2(f, Eval(a, env), Eval(b, env))
    case MuxOf(a, b, s) => if Eval(s, env)[0] == S1 then Eval(b, env) else Eval(a, env)
  }

  // ----- The factory

  function Unary(f: Fn1, a: Node): (n: Node)
    requires Valid(a)
    ensures Valid(n) && Width(n) == if f.BitwiseNot? || f.UnaryMinus? then Width(a) else 1
    ensures forall env :: Eval(n, env) == Meaning1(f, Eval(a, env))
  {
    Apply1(f, a)
  }

  /** The operators on two vectors of one width. */
  function Binary(f: Fn2, a: Node, b: Node): (n: Node)
    requires Valid(a) && Valid(b) && !IsShift(f) && Width(a) == Width(b)
    ensures Valid(n)
    ensures Width(n) == if IsComparison(f) then 1 else Width(a)
    ensures forall env :: Eval(n, env) == Meaning2(f, Eval(a, env), Eval(b, env))
  {
    Apply2(f, a, b)
  }

  function Mux(a: Node, b: Node, s: Node): (n: Node)
    requires Valid(a) && Valid(b) && Valid(s) && Width(a) == Width(b) && Width(s) == 1
    ensures Valid(n) && Width(n) == Width(a)
    ensures forall env :: Eval(n, env) == if Eval(s, env)[0] == S1 then Eval(b, env) else Eval(a, env)
  {
    MuxOf(a, b, s)
  }

  function Slice(a: Node, offset: nat, outWidth: nat): (n: Node)
    requires Valid(a) && outWidth > 0 && offset + outWidth <= Width(a)
    ensures Valid(n) && Width(n) == outWidth
    ensures forall env :: Eval(n, env) == Eval(a, env)[offset..offset + outWidth]
  {
    if offset == 0 && outWidth == Width(a) then a else SliceOf(a, offset, outWidth)
  }

  /** `Factory::extend`: extends or truncates to any positive width. */
  function ExtendTo(a: Node, outWidth: nat, isSigned: bool): (n: Node)
    requires Valid(a) && outWidth > 0
    ensures Valid(n) && Width(n) == outWidth
    ensures forall env :: Eval(n, env) == Extend(Eval(a, env), outWidth, isSigned)
  {
    if Width(a) == outWidth then a
    else if Width(a) > outWidth then Slice(a, 0, outWidth)
    else if isSigned then SignExtend(a, outWidth)
    else ZeroExtend(a, outWidth)
  }

  function ReduceOr1(a: Node): (n: Node)
    requires Valid(a)
    ensures Valid(n) && Width(n) == 1
    ensures forall env :: Eval(n, env) == Flag1(UVal(Eval(a, env)) != 0)
  {
    ReduceOrIsNonzero(a);
    if Width(a) == 1 then a else Apply1(ReduceOr, a)
  }

  lemma {:induction false} ReduceOrIsNonzero(a: Node)
    requires Valid(a)
    ensures forall env :: Meaning1(ReduceOr, Eval(a, env)) == Flag1(UVal(Eval(a, env)) != 0)
    ensures Width(a) == 1 ==> forall env :: Eval(a, env) == Flag1(UVal(Eval(a, env)) != 0)
  {
    forall env ensures Meaning1(ReduceOr, Eval(a, env)) == Flag1(UVal(Eval(a, env)) != 0) {
      SomeBitSet(Eval(a, env));
    }
    forall env | Width(a) == 1 ensures Eval(a, env) == Flag1(UVal(Eval(a, env)) != 0) {
      OneBit(Eval(a, env));
    }
  }

  lemma {:induction false} SomeBitSet(x: Const)
    ensures (exists i :: 0 <= i < |x| && x[i] == S1) <==> UVal(x) != 0
  {
    if |x| > 0 {
      var n := |x| - 1;
      SomeBitSet(x[..n]);
      if i :| 0 <= i < |x| && x[i] == S1 {
        assert i < n ==> x[..n][i] == S1;
      }
      if UVal(x[..n]) != 0 {
        var i :| 0 <= i < n && x[..n][i] == S1;
        assert x[i] == S1;
      }
    }
  }

  lemma {:induction false} OneBit(x: Const)
    requires |x| == 1 && Defined(x)
    ensures x == Flag1(UVal(x) != 0) && UVal(x) == if x[0] == S1 then 1 else 0
  {
    assert x[..0] == [];
    assert x == [x[0]];
  }
}
