/** The lowering of arithmetic, bitwise, comparison, logical, reduction and `$pmux` cells (`CellSimplifier` in
    `kernel/functional.cc`), against the constant evaluator. */
module FunctionalWord {
  import opened Bits
  import opened Calc
  import opened FunctionalIR
  import opened FunctionalDiv
  import opened FunctionalAlu
  import FunctionalPow
  import X = XSound

  // ----- The lowerings

  /** An operator on operands brought to one width. */
  function LowerBinary(f: Fn2, a: Node, b: Node, w: nat, signed: bool): (n: Node)
    requires Valid(a) && Valid(b) && w > 0 && !IsShift(f)
    ensures Valid(n) && Width(n) == if IsComparison(f) then 1 else w
    ensures forall env :: Eval(n, env) == Meaning2(f, Extend(Eval(a, env), w, signed), Extend(Eval(b, env), w, signed))
  {
    Binary(f, ExtendTo(a, w, signed), ExtendTo(b, w, signed))
  }

  predicate IsArith(op: X.Operation) {
    op.Add? || op.Sub? || op.Mul? || op.And? || op.Or? || op.Xor?
  }

  function ArithFn(op: X.Operation): (f: Fn2)
    requires IsArith(op)
    ensures !IsShift(f) && !IsComparison(f)
  {
    match op
    case Add => Add
    case Sub => Sub
    case Mul => Mul
    case And => BitwiseAnd
    case Or => BitwiseOr
    case Xor => BitwiseXor
  }

  predicate IsCompare(op: X.Operation) {
    op.Eq? || op.Ne? || op.Lt? || op.Le? || op.Gt? || op.Ge?
  }

  /** The smaller-than cells are larger-than nodes with the operands exchanged. */
  predicate Exchanged(op: X.Operation) {
    op.Lt? || op.Le?
  }

  function CompareFn(op: X.Operation, signed: bool): (f: Fn2)
    requires IsCompare(op)
    ensures IsComparison(f)
  {
    match op
    case Eq => Equal
    case Ne => NotEqual
    case Lt => if signed then SignedGreaterThan else UnsignedGreaterThan
    case Gt => if signed then SignedGreaterThan else UnsignedGreaterThan
    case Le => if signed then SignedGreaterEqual else UnsignedGreaterEqual
    case Ge => if signed then SignedGreaterEqual else UnsignedGreaterEqual
  }

  function LowerCompare(op: X.Operation, a: Node, b: Node, signed: bool, yWidth: nat): (n: Node)
    requires Valid(a) && Valid(b) && yWidth > 0 && IsCompare(op)
    ensures Valid(n) && Width(n) == yWidth
    ensures forall env :: Eval(n, env) == CompareC(op, Eval(a, env), Eval(b, env), signed, yWidth)
  {
    var f, w := CompareFn(op, signed), Max(Width(a), Width(b));
    ExtendTo(if Exchanged(op) then LowerBinary(f, b, a, w, signed) else LowerBinary(f, a, b, w, signed), yWidth, false)
  }

  function CompareC(op: X.Operation, x: Const, y: Const, signed: bool, len: nat): Const
    requires IsCompare(op) && Defined(x) && Defined(y)
  {
    var f, w := CompareFn(op, signed), Max(|x|, |y|);
    var x', y' := Extend(x, w, signed), Extend(y, w, signed);
    Extend(if Exchanged(op) then Meaning2(f, y', x') else Meaning2(f, x', y'), len, false)
  }

  predicate IsOther(op: X.Operation) {
    op.Xnor? || op.Not? || op.Pos? || op.Neg?
  }

  function LowerOther(op: X.Operation, a: Node, b: Node, signed: bool, yWidth: nat): (n: Node)
    requires Valid(a) && Valid(b) && yWidth > 0 && IsOther(op)
    ensures Valid(n) && Width(n) == yWidth
    ensures forall env :: Eval(n, env) == OtherC(op, Eval(a, env), Eval(b, env), signed, yWidth)
  {
    match op
    case Xnor => Unary(BitwiseNot, LowerBinary(BitwiseXor, a, b, yWidth, signed))
    case Not => Unary(BitwiseNot, ExtendTo(a, yWidth, signed))
    case Pos => ExtendTo(a, yWidth, signed)
    case Neg => Unary(UnaryMinus, ExtendTo(a, yWidth, signed))
  }

  function OtherC(op: X.Operation, x: Const, y: Const, signed: bool, len: nat): Const
    requires IsOther(op) && Defined(x) && Defined(y)
  {
    match op
    case Xnor => Meaning1(BitwiseNot, Meaning2(BitwiseXor, Extend(x, len, signed), Extend(y, len, signed)))
    case Not => Meaning1(BitwiseNot, Extend(x, len, signed))
    case Pos => Extend(x, len, signed)
    case Neg => Meaning1(UnaryMinus, Extend(x, len, signed))
  }

  function ReduceAnd1(a: Node): (n: Node)
    requires Valid(a)
    ensures Valid(n) && Width(n) == 1
    ensures forall env :: Eval(n, env) == [Fold(LogicAnd, S1, Eval(a, env))]
  {
    AndFolds(a);
    if Width(a) == 1 then a else Apply1(ReduceAnd, a)
  }

  function ReduceXor1(a: Node): (n: Node)
    requires Valid(a)
    ensures Valid(n) && Width(n) == 1
    ensures forall env :: Eval(n, env) == [Fold(LogicXor, S0, Eval(a, env))]
  {
    XorFolds(a);
    if Width(a) == 1 then a else Apply1(ReduceXor, a)
  }

  predicate IsFlag(op: X.Operation) {
    || op.ReduceAnd? || op.ReduceOr? || op.ReduceBool? || op.ReduceXor? || op.ReduceXnorOp?
    || op.LogicNotOp? || op.LogicAndOp? || op.LogicOrOp?
  }

  function FlagNode(op: X.Operation, a: Node, b: Node): (n: Node)
    requires Valid(a) && Valid(b) && IsFlag(op)
    ensures Valid(n) && Width(n) == 1
    ensures forall env :: Eval(n, env) == FlagC(op, Eval(a, env), Eval(b, env))
  {
    match op
    case ReduceAnd => ReduceAnd1(a)
    case ReduceOr => ReduceOr1(a)
    case ReduceBool => ReduceOr1(a)
    case ReduceXor => ReduceXor1(a)
    case ReduceXnorOp => Unary(BitwiseNot, ReduceXor1(a))
    case LogicNotOp => Unary(BitwiseNot, ReduceOr1(a))
    case LogicAndOp => Binary(BitwiseAnd, ReduceOr1(a), ReduceOr1(b))
    case LogicOrOp => Binary(BitwiseOr, ReduceOr1(a), ReduceOr1(b))
  }

  function Nonzero(x: Const): (r: Const)
    ensures |r| == 1 && Defined(r)
  {
    Flag1(UVal(x) != 0)
  }

  function FlagC(op: X.Operation, x: Const, y: Const): Const
    requires IsFlag(op) && Defined(x) && Defined(y)
  {
    FoldDefined(x);
    match op
    case ReduceAnd => [Fold(LogicAnd, S1, x)]
    case ReduceOr => Nonzero(x)
    case ReduceBool => Nonzero(x)
    case ReduceXor => [Fold(LogicXor, S0, x)]
    case ReduceXnorOp => Meaning1(BitwiseNot, [Fold(LogicXor, S0, x)])
    case LogicNotOp => Meaning1(BitwiseNot, Nonzero(x))
    case LogicAndOp => Meaning2(BitwiseAnd, Nonzero(x), Nonzero(y))
    case LogicOrOp => Meaning2(BitwiseOr, Nonzero(x), Nonzero(y))
  }

  // ----- Folds over defined bits

  lemma {:induction false} FoldDefined(x: Const)
    requires Defined(x)
    ensures IsDef(Fold(LogicXor, S0, x))
    ensures Fold(LogicAnd, S1, x) == ToState(forall i :: 0 <= i < |x| ==> x[i] == S1)
    ensures Fold(LogicOr, S0, x) == ToState(UVal(x) != 0)
  {
    if |x| > 0 {
      FoldDefined(x[..|x| - 1]);
    }
  }

  lemma {:induction false} OneBitFolds(x: Const)
    requires |x| == 1 && Defined(x)
    ensures x == [Fold(LogicAnd, S1, x)] && x == [Fold(LogicXor, S0, x)]
  {
    assert x[..0] == [];
    assert Fold(LogicAnd, S1, x) == LogicAnd(Fold(LogicAnd, S1, x[..0]), x[0]);
    assert Fold(LogicXor, S0, x) == LogicXor(Fold(LogicXor, S0, x[..0]), x[0]);
  }

  lemma {:induction false} AndFolds(a: Node)
    requires Valid(a)
    ensures forall env :: Meaning1(ReduceAnd, Eval(a, env)) == [Fold(LogicAnd, S1, Eval(a, env))]
    ensures Width(a) == 1 ==> forall env :: Eval(a, env) == [Fold(LogicAnd, S1, Eval(a, env))]
  {
    forall env ensures Meaning1(ReduceAnd, Eval(a, env)) == [Fold(LogicAnd, S1, Eval(a, env))] {
      FoldDefined(Eval(a, env));
    }
    forall env | Width(a) == 1 ensures Eval(a, env) == [Fold(LogicAnd, S1, Eval(a, env))] {
      OneBitFolds(Eval(a, env));
    }
  }

  lemma {:induction false} XorFolds(a: Node)
    requires Valid(a)
    ensures forall env :: Meaning1(ReduceXor, Eval(a, env)) == [Fold(LogicXor, S0, Eval(a, env))]
    ensures Width(a) == 1 ==> forall env :: Eval(a, env) == [Fold(LogicXor, S0, Eval(a, env))]
  {
    forall env ensures Meaning1(ReduceXor, Eval(a, env)) == [Fold(LogicXor, S0, Eval(a, env))] {
      FoldDefined(Eval(a, env));
    }
    forall env | Width(a) == 1 ensures Eval(a, env) == [Fold(LogicXor, S0, Eval(a, env))] {
      OneBitFolds(Eval(a, env));
    }
  }

  // ----- Exactness, on vectors

  function Both(x: Const, y: Const, signed: bool, len: nat): X.Operands {
    X.Operands(x, y, [], signed, signed, len)
  }

  lemma {:induction false} ModOfExtended(x: Const, len: nat, signed: bool)
    ensures UVal(Extend(x, len, signed)) % Pow2(len) == Val(x, signed) % Pow2(len)
  {
    ExtendMod(x, len, signed);
    ModIdempotent(Val(x, signed), Pow2(len));
  }

  lemma {:induction false} SumExact(op: X.Operation, x: Const, y: Const, signed: bool, len: nat)
    requires (op.Add? || op.Sub? || op.Mul?) && Defined(x) && Defined(y)
    ensures Meaning2(ArithFn(op), Extend(x, len, signed), Extend(y, len, signed)) ==
            X.Value(op, Both(x, y, signed, len))
  {
    var u: int, v: int, p, q :=
        UVal(Extend(x, len, signed)), UVal(Extend(y, len, signed)), Val(x, signed), Val(y, signed);
    BigIsVal(x, signed);
    BigIsVal(y, signed);
    ModOfExtended(x, len, signed);
    ModOfExtended(y, len, signed);
    X.ArithValue(op, Both(x, y, signed, len));
    ResultMod(op, u, v, p, q, Pow2(len));
    FromIntCong(X.Result(op, u, v), X.Result(op, p, q), len);
    ArithMeaning(op, Extend(x, len, signed), Extend(y, len, signed));
  }

  lemma {:induction false} ResultMod(op: X.Operation, u: int, v: int, p: int, q: int, m: nat)
    requires (op.Add? || op.Sub? || op.Mul?) && m > 0 && u % m == p % m && v % m == q % m
    ensures X.Result(op, u, v) % m == X.Result(op, p, q) % m
  {
    if op.Mul? {
      FunctionalPow.ProductMod(u, p, v, q, m);
    } else {
      SumMod(u, p, v, q, m);
    }
  }

  lemma {:induction false} ArithMeaning(op: X.Operation, x: Const, y: Const)
    requires (op.Add? || op.Sub? || op.Mul?) && Defined(x) && Defined(y) && |x| == |y|
    ensures Meaning2(ArithFn(op), x, y) == FromInt(X.Result(op, UVal(x), UVal(y)), |x|)
  {
  }

  lemma {:induction false} BitwiseExact(op: X.Operation, x: Const, y: Const, signed: bool, len: nat)
    requires (op.And? || op.Or? || op.Xor?) && Defined(x) && Defined(y)
    ensures Meaning2(ArithFn(op), Extend(x, len, signed), Extend(y, len, signed)) ==
            X.Value(op, Both(x, y, signed, len))
  {
  }

  lemma {:induction false} NotExact(x: Const)
    requires Defined(x)
    ensures Meaning1(BitwiseNot, x) == seq(|x|, i requires 0 <= i < |x| => Invert(x[i]))
  {
    NotBitwise(x, true);
  }

  lemma {:induction false} XnorExact(x: Const, y: Const, signed: bool, len: nat)
    requires Defined(x) && Defined(y)
    ensures Meaning1(BitwiseNot, Meaning2(BitwiseXor, Extend(x, len, signed), Extend(y, len, signed))) ==
            X.Value(X.Xnor, Both(x, y, signed, len))
  {
    var x', y' := Extend(x, len, signed), Extend(y, len, signed);
    NotExact(Meaning2(BitwiseXor, x', y'));
    forall i | 0 <= i < len
        ensures Invert(LogicXor(x'[i], y'[i])) == LogicXnor(ExtBit(x, signed, i), ExtBit(y, signed, i)) {
      assert x'[i] == ExtBit(x, signed, i) && y'[i] == ExtBit(y, signed, i);
    }
  }

  lemma {:induction false} NotCellExact(x: Const, signed: bool, len: nat)
    requires Defined(x)
    ensures Meaning1(BitwiseNot, Extend(x, len, signed)) == ConstNot(x, signed, len)
  {
    NotExact(Extend(x, len, signed));
  }

  lemma {:induction false} NegExact(x: Const, signed: bool, len: nat)
    requires Defined(x)
    ensures Meaning1(UnaryMinus, Extend(x, len, signed)) == ConstNeg(x, signed, len)
  {
    var u: int, p := UVal(Extend(x, len, signed)), Val(x, signed);
    BigIsVal(x, signed);
    BigIsVal([S0], true);
    assert [S0][..0] == [];
    ModOfExtended(x, len, signed);
    SumMod(0, 0, u, p, Pow2(len));
    FromIntCong(0 - u, 0 - p, len);
  }

  lemma {:induction false} FlagExtended(s: State, len: nat)
    requires len > 0
    ensures Extend([s], len, false) == Flag(s, len)
  {
  }

  lemma {:induction false} MatchedDefined(x: Const, y: Const)
    requires Defined(x) && Defined(y) && |x| == |y|
    ensures Matched(x, y) == ToState(x == y)
  {
    if x != y {
      var i :| 0 <= i < |x| && x[i] != y[i];
      assert Clash(x[i], y[i]);
    }
  }

  lemma {:induction false} EqExact(op: X.Operation, x: Const, y: Const, signed: bool, len: nat)
    requires (op.Eq? || op.Ne?) && Defined(x) && Defined(y) && len > 0
    ensures CompareC(op, x, y, signed, len) == X.Value(op, Both(x, y, signed, len))
  {
    if op.Eq? {
      EqualExact(x, y, signed, len);
    } else {
      UnequalExact(x, y, signed, len);
    }
  }

  lemma {:induction false} EqualExact(x: Const, y: Const, signed: bool, len: nat)
    requires Defined(x) && Defined(y) && len > 0
    ensures CompareC(X.Eq, x, y, signed, len) == ConstEq(x, y, signed, signed, len)
  {
    var w := Max(|x|, |y|);
    var x', y' := Extend(x, w, signed), Extend(y, w, signed);
    MatchedDefined(x', y');
    FlagExtended(ToState(x' == y'), len);
  }

  lemma {:induction false} UnequalExact(x: Const, y: Const, signed: bool, len: nat)
    requires Defined(x) && Defined(y) && len > 0
    ensures CompareC(X.Ne, x, y, signed, len) == ConstNe(x, y, signed, signed, len)
  {
    var w := Max(|x|, |y|);
    var x', y' := Extend(x, w, signed), Extend(y, w, signed);
    MatchedDefined(x', y');
    FlagExtended(ToState(x' != y'), len);
    InvertedFlag(ToState(x' == y'), len);
  }

  lemma {:induction false} InvertedFlag(s: State, len: nat)
    requires len > 0
    ensures Flag(s, len)[0 := Invert(s)] == Flag(Invert(s), len)
  {
  }

  lemma {:induction false} OrderExact(op: X.Operation, x: Const, y: Const, signed: bool, len: nat)
    requires (op.Lt? || op.Le? || op.Gt? || op.Ge?) && Defined(x) && Defined(y) && len > 0
    ensures CompareC(op, x, y, signed, len) == X.Value(op, Both(x, y, signed, len))
  {
    var w := Max(|x|, |y|);
    ExtendVal(x, w, signed);
    ExtendVal(y, w, signed);
    BigIsVal(x, signed);
    BigIsVal(y, signed);
    X.CompareValue(op, Both(x, y, signed, len));
    OrderFlag(op, Extend(x, w, signed), Extend(y, w, signed), signed);
    FlagExtended(ToState(X.Holds(op, Val(x, signed), Val(y, signed))), len);
  }

  lemma {:induction false} OrderFlag(op: X.Operation, x: Const, y: Const, signed: bool)
    requires (op.Lt? || op.Le? || op.Gt? || op.Ge?) && Defined(x) && Defined(y) && |x| == |y|
    ensures var f := CompareFn(op, signed);
            (if Exchanged(op) then Meaning2(f, y, x) else Meaning2(f, x, y)) ==
                [ToState(X.Holds(op, Val(x, signed), Val(y, signed)))]
  {
  }

  lemma {:induction false} TruthDefined(x: Const, signed: bool)
    requires Defined(x)
    ensures Truth(x, signed) == ToState(UVal(x) != 0) && Nonzero(x) == [Truth(x, signed)]
  {
    BigIsVal(x, signed);
  }

  lemma {:induction false} NotOne(s: State)
    requires IsDef(s)
    ensures Meaning1(BitwiseNot, [s]) == [Invert(s)]
  {
    NotExact([s]);
  }

  lemma {:induction false} FlagExact(op: X.Operation, x: Const, y: Const, signed: bool, len: nat)
    requires IsFlag(op) && Defined(x) && Defined(y) && len > 0
    ensures Extend(FlagC(op, x, y), len, false) == X.Value(op, Both(x, y, signed, len))
  {
    if op.LogicNotOp? || op.LogicAndOp? || op.LogicOrOp? {
      LogicalExact(op, x, y, signed, len);
    } else {
      ReduceExact(op, x, y, signed, len);
    }
  }

  lemma {:induction false} ReduceExact(op: X.Operation, x: Const, y: Const, signed: bool, len: nat)
    requires op.ReduceAnd? || op.ReduceOr? || op.ReduceBool? || op.ReduceXor? || op.ReduceXnorOp?
    requires Defined(x) && Defined(y) && len > 0
    ensures Extend(FlagC(op, x, y), len, false) == X.Value(op, Both(x, y, signed, len))
  {
    FoldDefined(x);
    match op {
      case ReduceAnd => FlagExtended(Fold(LogicAnd, S1, x), len);
      case ReduceOr => FlagExtended(Fold(LogicOr, S0, x), len);
      case ReduceBool => FlagExtended(Fold(LogicOr, S0, x), len);
      case ReduceXor => FlagExtended(Fold(LogicXor, S0, x), len);
      case ReduceXnorOp =>
        NotOne(Fold(LogicXor, S0, x));
        FlagExtended(Invert(Fold(LogicXor, S0, x)), len);
    }
  }

  lemma {:induction false} LogicalExact(op: X.Operation, x: Const, y: Const, signed: bool, len: nat)
    requires (op.LogicNotOp? || op.LogicAndOp? || op.LogicOrOp?) && Defined(x) && Defined(y) && len > 0
    ensures Extend(FlagC(op, x, y), len, false) == X.Value(op, Both(x, y, signed, len))
  {
    TruthDefined(x, signed);
    TruthDefined(y, signed);
    var p, q := Truth(x, signed), Truth(y, signed);
    match op {
      case LogicNotOp =>
        NotOne(p);
        FlagExtended(Invert(p), len);
      case LogicAndOp =>
        assert Meaning2(BitwiseAnd, [p], [q]) == [LogicAnd(p, q)];
        FlagExtended(LogicAnd(p, q), len);
      case LogicOrOp =>
        assert Meaning2(BitwiseOr, [p], [q]) == [LogicOr(p, q)];
        FlagExtended(LogicOr(p, q), len);
    }
  }

  // ----- All cells

  predicate IsWord(op: X.Operation) {
    IsArith(op) || IsCompare(op) || IsFlag(op) || IsOther(op)
  }

  /** The node for a cell whose operands have one signedness; one-operand cells do not read `b`. */
  function LowerWord(op: X.Operation, a: Node, b: Node, signed: bool, yWidth: nat): (n: Node)
    requires Valid(a) && Valid(b) && yWidth > 0 && IsWord(op)
    ensures Valid(n) && Width(n) == yWidth
    ensures forall env :: Eval(n, env) == WordC(op, Eval(a, env), Eval(b, env), signed, yWidth)
  {
    if IsArith(op) then LowerBinary(ArithFn(op), a, b, yWidth, signed)
    else if IsCompare(op) then LowerCompare(op, a, b, signed, yWidth)
    else if IsFlag(op) then ExtendTo(FlagNode(op, a, b), yWidth, false)
    else LowerOther(op, a, b, signed, yWidth)
  }

  function WordC(op: X.Operation, x: Const, y: Const, signed: bool, len: nat): Const
    requires IsWord(op) && Defined(x) && Defined(y)
  {
    if IsArith(op) then Meaning2(ArithFn(op), Extend(x, len, signed), Extend(y, len, signed))
    else if IsCompare(op) then CompareC(op, x, y, signed, len)
    else if IsFlag(op) then Extend(FlagC(op, x, y), len, false)
    else OtherC(op, x, y, signed, len)
  }

  /** For every width and signedness the lowered cell computes the bits of the constant evaluator. */
  lemma {:induction false} LowerWordExact(op: X.Operation, a: Node, b: Node, signed: bool, yWidth: nat, env: Env)
    requires Valid(a) && Valid(b) && yWidth > 0 && IsWord(op)
    ensures Eval(LowerWord(op, a, b, signed, yWidth), env) ==
            X.Value(op, Both(Eval(a, env), Eval(b, env), signed, yWidth))
  {
    WordExact(op, Eval(a, env), Eval(b, env), signed, yWidth);
  }

  lemma {:induction false} WordExact(op: X.Operation, x: Const, y: Const, signed: bool, len: nat)
    requires IsWord(op) && Defined(x) && Defined(y) && len > 0
    ensures WordC(op, x, y, signed, len) == X.Value(op, Both(x, y, signed, len))
  {
    if IsArith(op) {
      ArithExact(op, x, y, signed, len);
    } else if IsCompare(op) {
      CompareExact(op, x, y, signed, len);
    } else if IsFlag(op) {
      FlagExact(op, x, y, signed, len);
    } else {
      OtherExact(op, x, y, signed, len);
    }
  }

  lemma {:induction false} ArithExact(op: X.Operation, x: Const, y: Const, signed: bool, len: nat)
    requires IsArith(op) && Defined(x) && Defined(y)
    ensures Meaning2(ArithFn(op), Extend(x, len, signed), Extend(y, len, signed)) ==
            X.Value(op, Both(x, y, signed, len))
  {
    if op.Add? || op.Sub? || op.Mul? {
      SumExact(op, x, y, signed, len);
    } else {
      BitwiseExact(op, x, y, signed, len);
    }
  }

  lemma {:induction false} CompareExact(op: X.Operation, x: Const, y: Const, signed: bool, len: nat)
    requires IsCompare(op) && Defined(x) && Defined(y) && len > 0
    ensures CompareC(op, x, y, signed, len) == X.Value(op, Both(x, y, signed, len))
  {
    if op.Eq? || op.Ne? {
      EqExact(op, x, y, signed, len);
    } else {
      OrderExact(op, x, y, signed, len);
    }
  }

  lemma {:induction false} OtherExact(op: X.Operation, x: Const, y: Const, signed: bool, len: nat)
    requires IsOther(op) && Defined(x) && Defined(y)
    ensures OtherC(op, x, y, signed, len) == X.Value(op, Both(x, y, signed, len))
  {
    match op {
      case Xnor => XnorExact(x, y, signed, len);
      case Not => NotCellExact(x, signed, len);
      case Pos =>
      case Neg => NegExact(x, signed, len);
    }
  }

  // ----- $pmux

  /** The multiplexer for the first `n` select bits. */
  function PmuxChain(a: Node, b: Node, s: Node, n: nat): (y: Node)
    requires Valid(a) && Valid(b) && Valid(s) && n <= Width(s) && Width(b) == Off(Width(a), Width(s))
    ensures Valid(y) && Width(y) == Width(a)
  {
    if n == 0 then a else PmuxStep(PmuxChain(a, b, s, n - 1), b, s, n - 1)
  }

  /** One turn of the loop: word `i` of `b` if select bit `i` is set. */
  function PmuxStep(y: Node, b: Node, s: Node, i: nat): (n: Node)
    requires Valid(y) && Valid(b) && Valid(s) && i < Width(s) && Width(b) == Off(Width(y), Width(s))
    ensures Valid(n) && Width(n) == Width(y)
    ensures forall env :: Eval(n, env) ==
                          if Eval(s, env)[i] == S1 then WordOf(Width(y), Eval(b, env), Width(s), i) else Eval(y, env)
  {
    PmuxRoom(Width(y), i + 1, Width(s));
    var word, sel := Slice(b, Off(Width(y), i), Width(y)), Slice(s, i, 1);
    assert forall env :: Eval(sel, env)[0] == Eval(s, env)[i];
    Mux(y, word, sel)
  }

  lemma {:induction false} PmuxRoom(w: nat, n: nat, count: nat)
    requires 0 < n <= count
    ensures 0 <= Off(w, n - 1) && Off(w, n - 1) + w <= Off(w, count)
  {
    OffMono(w, 0, n - 1);
    OffAdd(w, n - 1, 1);
    OffMono(w, n, count);
  }

  method HandlePmux(a: Node, b: Node, s: Node) returns (y: Node)
    requires Valid(a) && Valid(b) && Valid(s) && Width(b) == Off(Width(a), Width(s))
    ensures y == PmuxChain(a, b, s, Width(s))
  {
    y := a;
    for i := 0 to Width(s)
      invariant y == PmuxChain(a, b, s, i)
    {
      y := PmuxStep(y, b, s, i);
    }
  }

  function PmuxC(x: Const, y: Const, z: Const, n: nat): Const
    requires n <= |z| && |y| == Off(|x|, |z|)
  {
    if n == 0 then x else if z[n - 1] == S1 then WordOf(|x|, y, |z|, n - 1) else PmuxC(x, y, z, n - 1)
  }

  /** With at most one select bit set below `n`, the chain selects its word. */
  lemma {:induction false} PmuxCValue(x: Const, y: Const, z: Const, n: nat, k: nat)
    requires n <= |z| && |y| == Off(|x|, |z|) && k <= |z|
    requires (forall i :: 0 <= i < n && i != k ==> z[i] == S0) && (k < n ==> z[k] == S1)
    ensures PmuxC(x, y, z, n) == if k < n then WordOf(|x|, y, |z|, k) else x
  {
    if n > 0 {
      PmuxCValue(x, y, z, n - 1, k);
    }
  }

  predicate ChainSelects(a: Node, b: Node, s: Node, n: nat, env: Env)
    requires Valid(a) && Valid(b) && Valid(s) && n <= Width(s) && Width(b) == Off(Width(a), Width(s))
  {
    Eval(PmuxChain(a, b, s, n), env) == PmuxC(Eval(a, env), Eval(b, env), Eval(s, env), n)
  }

  lemma {:induction false} ChainMeaning(a: Node, b: Node, s: Node, n: nat, env: Env)
    requires Valid(a) && Valid(b) && Valid(s) && n <= Width(s) && Width(b) == Off(Width(a), Width(s))
    ensures ChainSelects(a, b, s, n, env)
  {
    if n > 0 {
      ChainMeaning(a, b, s, n - 1, env);
      ChainStep(a, b, s, n, env);
    }
  }

  lemma {:induction false} ChainStep(a: Node, b: Node, s: Node, n: nat, env: Env)
    requires Valid(a) && Valid(b) && Valid(s) && 0 < n <= Width(s) && Width(b) == Off(Width(a), Width(s))
    requires ChainSelects(a, b, s, n - 1, env)
    ensures ChainSelects(a, b, s, n, env)
  {
    ChainNext(PmuxChain(a, b, s, n - 1), Eval(a, env), b, s, n - 1, env);
  }

  lemma {:induction false} ChainNext(y: Node, x: Const, b: Node, s: Node, i: nat, env: Env)
    requires Valid(y) && Valid(b) && Valid(s) && i < Width(s) && |x| == Width(y) && Width(b) == Off(Width(y), Width(s))
    requires Eval(y, env) == PmuxC(x, Eval(b, env), Eval(s, env), i)
    ensures Eval(PmuxStep(y, b, s, i), env) == PmuxC(x, Eval(b, env), Eval(s, env), i + 1)
  {
  }

  /** `$pmux`: the chain computes the evaluator's output wherever that is defined. */
  lemma {:induction false} LowerPmuxExact(a: Node, b: Node, s: Node, env: Env)
    requires Valid(a) && Valid(b) && Valid(s) && Width(b) == Off(Width(a), Width(s))
    ensures var r := ConstPmux(Eval(a, env), Eval(b, env), Eval(s, env));
            forall i :: 0 <= i < Width(a) && IsDef(r[i]) ==> Eval(PmuxChain(a, b, s, Width(s)), env)[i] == r[i]
  {
    ChainMeaning(a, b, s, Width(s), env);
    PmuxCExact(Eval(a, env), Eval(b, env), Eval(s, env));
  }

  lemma {:induction false} PmuxCExact(x: Const, y: Const, z: Const)
    requires |y| == Off(|x|, |z|)
    ensures var r, r' := ConstPmux(x, y, z), PmuxC(x, y, z, |z|);
            |r'| == |x| && forall i :: 0 <= i < |x| && IsDef(r[i]) ==> r'[i] == r[i]
  {
    if FullyZero(z) {
      PmuxCValue(x, y, z, |z|, |z|);
    } else if OneHot(z) {
      var k :| 0 <= k < |z| && OneHotAt(z, k);
      assert HotIndex(z) == k;
      PmuxCValue(x, y, z, |z|, k);
    } else {
      PmuxCSize(x, y, z, |z|);
    }
  }

  lemma {:induction false} PmuxCSize(x: Const, y: Const, z: Const, n: nat)
    requires n <= |z| && |y| == Off(|x|, |z|)
    ensures |PmuxC(x, y, z, n)| == |x|
  {
    if n > 0 {
      PmuxCSize(x, y, z, n - 1);
    }
  }

  /** `$bwmux`: both data inputs, masked by the select bits and their inverse. */
  function LowerBwmux(a: Node, b: Node, s: Node): (n: Node)
    requires Valid(a) && Valid(b) && Valid(s) && Width(a) == Width(b) == Width(s)
    ensures Valid(n) && Width(n) == Width(a)
  {
    Binary(BitwiseOr, Binary(BitwiseAnd, a, Unary(BitwiseNot, s)), Binary(BitwiseAnd, b, s))
  }

  lemma {:induction false} LowerBwmuxExact(a: Node, b: Node, s: Node, env: Env)
    requires Valid(a) && Valid(b) && Valid(s) && Width(a) == Width(b) == Width(s)
    ensures Eval(LowerBwmux(a, b, s), env) == ConstBwmux(Eval(a, env), Eval(b, env), Eval(s, env))
  {
    BwmuxMasked(Eval(a, env), Eval(b, env), Eval(s, env));
  }

  lemma {:induction false} BwmuxMasked(x: Const, y: Const, z: Const)
    requires Defined(x) && Defined(y) && Defined(z) && |x| == |y| == |z|
    ensures var low, high := Meaning2(BitwiseAnd, x, Meaning1(BitwiseNot, z)), Meaning2(BitwiseAnd, y, z);
            Meaning2(BitwiseOr, low, high) == ConstBwmux(x, y, z)
  {
    NotExact(z);
    var n := Meaning1(BitwiseNot, z);
    var r := Meaning2(BitwiseOr, Meaning2(BitwiseAnd, x, n), Meaning2(BitwiseAnd, y, z));
    forall i | 0 <= i < |x| ensures r[i] == ConstBwmux(x, y, z)[i] {
      assert n[i] == Invert(z[i]);
    }
  }
}
