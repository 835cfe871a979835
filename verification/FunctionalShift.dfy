/** The lowering of the six shift cells (`handle_shift` and its callers in
    `kernel/functional.cc`): a truncated amount plus an overflow test is the unbounded shift. */
module FunctionalShift {
  import opened Bits
  import opened Calc
  import opened FunctionalIR
  import opened FunctionalDiv
  import CellEdges

  function ShiftFn(isRight: bool, isSigned: bool): Fn2 {
    if !isRight then LogicalShiftLeft else if !isSigned then LogicalShiftRight else ArithmeticShiftRight
  }

  function ShiftNode(f: Fn2, a: Node, b: Node): (n: Node)
    requires IsShift(f) && Valid(a) && Valid(b) && Width(b) == CeilLog2(Width(a))
    ensures Valid(n) && Width(n) == Width(a)
    ensures forall env :: Eval(n, env) == Meaning2(f, Eval(a, env), Eval(b, env))
  {
    Apply2(f, a, b)
  }

  function ConstantNode(v: Const): (n: Node)
    requires Defined(v) && |v| > 0
    ensures Valid(n) && Width(n) == |v|
    ensures forall env :: Eval(n, env) == v
  {
    Constant(v)
  }

  // ----- handle_shift

  /** What fills the result once everything is shifted out. */
  function Fill(x: Const, isSigned: bool): (r: Const)
    requires |x| > 0
    ensures |r| == |x| && (Defined(x) ==> Defined(r))
  {
    if isSigned then Extend(x[|x| - 1..], |x|, true) else seq(|x|, _ => S0)
  }

  function HandleShiftC(x: Const, y: Const, isRight: bool, isSigned: bool): (r: Const)
    requires Defined(x) && Defined(y) && |x| > 0
  {
    if |x| == 1 then
      if !isSigned then [LogicAnd(x[0], ToState(UVal(y) == 0))] else x
    else
      var newWidth := CeilLog2(|x|);
      var z := Meaning2(ShiftFn(isRight, isSigned), x, Extend(y, newWidth, false));
      if |y| <= newWidth then z
      else if UVal(y) >= UVal(FromInt(|x|, |y|)) then Fill(x, isSigned) else z
  }

  function HandleShift(a: Node, b: Node, isRight: bool, isSigned: bool): (n: Node)
    requires Valid(a) && Valid(b)
    ensures Valid(n) && Width(n) == Width(a)
    ensures forall env :: Eval(n, env) == HandleShiftC(Eval(a, env), Eval(b, env), isRight, isSigned)
  {
    if Width(a) == 1 then
      if !isSigned then ShiftOne(a, b) else a
    else
      var y := TruncatedShift(a, b, isRight, isSigned);
      if Width(b) <= CeilLog2(Width(a)) then y
      else Mux(y, FillNode(a, isSigned), Overflow(a, b))
  }

  function TruncatedShift(a: Node, b: Node, isRight: bool, isSigned: bool): (n: Node)
    requires Valid(a) && Valid(b) && Width(a) > 1
    ensures Valid(n) && Width(n) == Width(a)
    ensures forall env :: Eval(n, env) == Meaning2(ShiftFn(isRight, isSigned), Eval(a, env),
                                                   Extend(Eval(b, env), CeilLog2(Width(a)), false))
  {
    var bTruncated := ExtendTo(b, CeilLog2(Width(a)), false);
    ShiftNode(ShiftFn(isRight, isSigned), a, bTruncated)
  }

  function Overflow(a: Node, b: Node): (n: Node)
    requires Valid(a) && Valid(b)
    ensures Valid(n) && Width(n) == 1
    ensures forall env :: Eval(n, env)[0] == S1 <==> UVal(Eval(b, env)) >= UVal(FromInt(Width(a), Width(b)))
  {
    Binary(UnsignedGreaterEqual, b, ConstantNode(FromInt(Width(a), Width(b))))
  }

  function FillNode(a: Node, isSigned: bool): (n: Node)
    requires Valid(a)
    ensures Valid(n) && Width(n) == Width(a)
    ensures forall env :: Eval(n, env) == Fill(Eval(a, env), isSigned)
  {
    if isSigned then ExtendTo(Slice(a, Width(a) - 1, 1), Width(a), true)
    else ConstantNode(seq(Width(a), _ => S0))
  }

  function ShiftOne(a: Node, b: Node): (n: Node)
    requires Valid(a) && Valid(b) && Width(a) == 1
    ensures Valid(n) && Width(n) == 1
    ensures forall env :: Eval(n, env) == [LogicAnd(Eval(a, env)[0], ToState(UVal(Eval(b, env)) == 0))]
  {
    Binary(BitwiseAnd, a, Not1(ReduceOr1(b)))
  }

  function Not1(a: Node): (n: Node)
    requires Valid(a) && Width(a) == 1
    ensures Valid(n) && Width(n) == 1
    ensures forall env :: Eval(n, env) == [ToState(Eval(a, env)[0] != S1)]
  {
    NotOneBit();
    Unary(BitwiseNot, a)
  }

  lemma {:induction false} NotOneBit()
    ensures forall x: Const :: |x| == 1 && Defined(x) ==> Meaning1(BitwiseNot, x) == [ToState(x[0] != S1)]
  {
    forall x: Const | |x| == 1 && Defined(x)
      ensures Meaning1(BitwiseNot, x) == [ToState(x[0] != S1)]
    {
      OneBit(x);
      NotCValue(x);
      OneBit(NotC(x));
      assert Pow2(1) == 2;
    }
  }

  /** The amount, with the sign of the direction. */
  function Offset(y: Const, isRight: bool): int {
    if isRight then UVal(y) else 0 - UVal(y)
  }

  /** The lowered shift is the unbounded one, for every operand and amount width. */
  lemma {:induction false} HandleShiftExact(x: Const, y: Const, isRight: bool, isSigned: bool)
    requires Defined(x) && Defined(y) && |x| > 0 && (isSigned ==> isRight)
    ensures HandleShiftC(x, y, isRight, isSigned) == Shifted(x, Offset(y, isRight), isSigned)
  {
    if |x| == 1 {
      OneBitShift(x, y, isRight, isSigned);
    } else {
      WideShift(x, y, isRight, isSigned);
    }
  }

  lemma {:induction false} OneBitShift(x: Const, y: Const, isRight: bool, isSigned: bool)
    requires Defined(x) && Defined(y) && |x| == 1 && (isSigned ==> isRight)
    ensures HandleShiftC(x, y, isRight, isSigned) == Shifted(x, Offset(y, isRight), isSigned)
  {
    var s := Shifted(x, Offset(y, isRight), isSigned);
    assert s == [s[0]] && x == [x[0]];
  }

  /** An amount that fits is not changed by truncation. */
  lemma {:induction false} TruncatedExact(x: Const, y: Const, isRight: bool, isSigned: bool)
    requires Defined(x) && Defined(y) && |x| > 1 && (isSigned ==> isRight) && UVal(y) < Pow2(CeilLog2(|x|))
    ensures Meaning2(ShiftFn(isRight, isSigned), x, Extend(y, CeilLog2(|x|), false)) ==
            Shifted(x, Offset(y, isRight), isSigned)
  {
    var w := CeilLog2(|x|);
    ExtendMod(y, w, false);
    ModSmall(UVal(y), Pow2(w));
  }

  lemma {:induction false} WideShift(x: Const, y: Const, isRight: bool, isSigned: bool)
    requires Defined(x) && Defined(y) && |x| > 1 && (isSigned ==> isRight)
    ensures HandleShiftC(x, y, isRight, isSigned) == Shifted(x, Offset(y, isRight), isSigned)
  {
    var w := CeilLog2(|x|);
    if |y| <= w {
      Pow2Mono(|y|, w);
      TruncatedExact(x, y, isRight, isSigned);
    } else {
      OverflowTest(|x|, w, |y|);
      if UVal(y) < |x| {
        TruncatedExact(x, y, isRight, isSigned);
      } else {
        ShiftedOut(x, Offset(y, isRight), isSigned);
      }
    }
  }

  /** The width, as a constant of the amount's width, is not truncated. */
  lemma {:induction false} OverflowTest(n: nat, w: nat, bWidth: nat)
    requires n <= Pow2(w) && w < bWidth
    ensures UVal(FromInt(n, bWidth)) == n
  {
    Pow2Mono(w + 1, bWidth);
    UValFromInt(n, bWidth);
    ModSmall(n, Pow2(bWidth));
  }

  lemma {:induction false} ShiftedOut(x: Const, offset: int, isSigned: bool)
    requires |x| > 0 && (offset >= |x| || (offset <= -|x| && !isSigned))
    ensures Shifted(x, offset, isSigned) == Fill(x, isSigned)
  {
  }

  // ----- The cells

  function LowerShl(a: Node, b: Node, aSigned: bool, yWidth: nat): (n: Node)
    requires Valid(a) && Valid(b) && yWidth > 0
    ensures Valid(n) && Width(n) == yWidth
    ensures forall env :: Eval(n, env) ==
                          ShlC(Eval(a, env), Eval(b, env), aSigned, yWidth)
  {
    HandleShift(ExtendTo(a, yWidth, aSigned), b, false, false)
  }

  function LowerShr(a: Node, b: Node, aSigned: bool, arithmetic: bool, yWidth: nat): (n: Node)
    requires Valid(a) && Valid(b) && yWidth > 0
    ensures Valid(n) && Width(n) == yWidth
    ensures forall env :: Eval(n, env) ==
                          ShrC(Eval(a, env), Eval(b, env), aSigned, arithmetic, yWidth)
  {
    var width := Max(Width(a), yWidth);
    var y := HandleShift(ExtendTo(a, width, aSigned), b, true, aSigned && arithmetic);
    ExtendTo(y, yWidth, aSigned)
  }

  function IndexedShiftC(x: Const, y: Const, bSigned: bool): Const
    requires Defined(x) && Defined(y) && |x| > 0
  {
    if bSigned && IsNeg(y) then HandleShiftC(x, NegC(y), false, false) else HandleShiftC(x, y, true, false)
  }

  /** A right shift, or a left shift by the negated amount when that is negative. */
  function IndexedShift(a: Node, b: Node, bSigned: bool): (n: Node)
    requires Valid(a) && Valid(b)
    ensures Valid(n) && Width(n) == Width(a)
    ensures forall env :: Eval(n, env) == IndexedShiftC(Eval(a, env), Eval(b, env), bSigned)
  {
    var shr := HandleShift(a, b, true, false);
    if bSigned then Mux(shr, HandleShift(a, Unary(UnaryMinus, b), false, false), Sign(b)) else shr
  }

  function LowerIndexed(a: Node, b: Node, aSigned: bool, bSigned: bool, yWidth: nat): (n: Node)
    requires Valid(a) && Valid(b) && yWidth > 0
    ensures Valid(n) && Width(n) == yWidth
    ensures forall env :: Eval(n, env) ==
                          IndexedC(Eval(a, env), Eval(b, env), aSigned, bSigned, yWidth)
  {
    ExtendTo(IndexedShift(ExtendTo(a, Max(Width(a), yWidth), aSigned), b, bSigned), yWidth, false)
  }

  function ShlC(x: Const, y: Const, aSigned: bool, len: nat): Const
    requires Defined(x) && Defined(y) && len > 0
  {
    HandleShiftC(Extend(x, len, aSigned), y, false, false)
  }

  function ShrC(x: Const, y: Const, aSigned: bool, arithmetic: bool, len: nat): Const
    requires Defined(x) && Defined(y) && len > 0
  {
    Extend(HandleShiftC(Extend(x, Max(|x|, len), aSigned), y, true, aSigned && arithmetic), len, aSigned)
  }

  function IndexedC(x: Const, y: Const, aSigned: bool, bSigned: bool, len: nat): Const
    requires Defined(x) && Defined(y) && len > 0
  {
    Extend(IndexedShiftC(Extend(x, Max(|x|, len), aSigned), y, bSigned), len, false)
  }

  /** The evaluator's bit, with zero in the places it leaves undefined. */
  function ReadOrZero(c: CellEdges.Cell, x: Const, n: int, i: int): State {
    var s := CellEdges.Read(c, x, n, i);
    if s == Sx then S0 else s
  }

  lemma {:induction false} ShlBit(c: CellEdges.Cell, x: Const, y: Const, i: int)
    requires CellEdges.Legal(c) && CellEdges.IsLeft(c) && Defined(x) && Defined(y) && |x| == c.aWidth
             && 0 <= i < c.yWidth
    ensures ShlC(x, y, c.aSigned, c.yWidth)[i] == ReadOrZero(c, x, UVal(y), i)
  {
    HandleShiftExact(Extend(x, c.yWidth, c.aSigned), y, false, false);
  }

  lemma {:induction false} ShrBit(c: CellEdges.Cell, x: Const, y: Const, i: int)
    requires CellEdges.Legal(c) && (c.kind.Shr? || c.kind.Sshr?) && Defined(x) && Defined(y) && |x| == c.aWidth
             && 0 <= i < c.yWidth
    ensures ShrC(x, y, c.aSigned, c.kind.Sshr?, c.yWidth)[i] == ReadOrZero(c, x, UVal(y), i)
  {
    HandleShiftExact(Extend(x, Max(|x|, c.yWidth), c.aSigned), y, true, c.aSigned && c.kind.Sshr?);
    ShrRead(c, x, UVal(y), i);
  }

  /** A bit of the extended operand, moved right, is the evaluator's read. */
  lemma {:induction false} ShrRead(c: CellEdges.Cell, x: Const, n: nat, i: int)
    requires CellEdges.Legal(c) && (c.kind.Shr? || c.kind.Sshr?) && Defined(x) && |x| == c.aWidth && 0 <= i < c.yWidth
    ensures ShiftBit(Extend(x, Max(|x|, c.yWidth), c.aSigned), n, c.aSigned && c.kind.Sshr?, S0, i) ==
            ReadOrZero(c, x, n, i)
  {
  }

  lemma {:induction false} IndexedBit(c: CellEdges.Cell, x: Const, y: Const, i: int)
    requires CellEdges.Legal(c) && CellEdges.IsIndexed(c) && Defined(x) && Defined(y) && |x| == c.aWidth && |y| > 0
             && 0 <= i < c.yWidth
    ensures IndexedC(x, y, c.aSigned, c.bSigned, c.yWidth)[i] == ReadOrZero(c, x, Val(y, c.bSigned), i)
  {
    IndexedExact(Extend(x, Max(|x|, c.yWidth), c.aSigned), y, c.bSigned);
    IndexedRead(c, x, Val(y, c.bSigned), i);
  }

  lemma {:induction false} IndexedRead(c: CellEdges.Cell, x: Const, n: int, i: int)
    requires CellEdges.Legal(c) && CellEdges.IsIndexed(c) && Defined(x) && |x| == c.aWidth && 0 <= i < c.yWidth
    ensures ShiftBit(Extend(x, Max(|x|, c.yWidth), c.aSigned), n, false, S0, i) == ReadOrZero(c, x, n, i)
  {
  }

  /** A negative signed amount shifts left by its magnitude, even the most negative one. */
  lemma {:induction false} IndexedExact(x: Const, y: Const, bSigned: bool)
    requires Defined(x) && Defined(y) && |x| > 0 && |y| > 0
    ensures IndexedShiftC(x, y, bSigned) == Shifted(x, Val(y, bSigned), false)
  {
    HandleShiftExact(x, y, true, false);
    HandleShiftExact(x, NegC(y), false, false);
    NegCValue(y);
    SignFromUVal(y);
  }

  /** `$shl` and `$sshl`: the lowered node computes the evaluator's bits. */
  lemma {:induction false} LowerShlExact(c: CellEdges.Cell, a: Node, b: Node, env: Env)
    requires CellEdges.Legal(c) && CellEdges.IsLeft(c) && c.yWidth > 0
    requires Valid(a) && Valid(b) && Width(a) == c.aWidth && Width(b) == c.bWidth
    ensures Eval(LowerShl(a, b, c.aSigned, c.yWidth), env) == CellEdges.Eval(c, Eval(a, env), Eval(b, env))
  {
    var x, y := Eval(a, env), Eval(b, env);
    forall i | 0 <= i < c.yWidth
      ensures ShlC(x, y, c.aSigned, c.yWidth)[i] == CellEdges.Eval(c, x, y)[i]
    {
      ShlBit(c, x, y, i);
      CellEdges.EvalIsRead(c, x, y, i);
    }
  }

  /** `$shr` and `$sshr`, likewise. */
  lemma {:induction false} LowerShrExact(c: CellEdges.Cell, a: Node, b: Node, env: Env)
    requires CellEdges.Legal(c) && (c.kind.Shr? || c.kind.Sshr?) && c.yWidth > 0
    requires Valid(a) && Valid(b) && Width(a) == c.aWidth && Width(b) == c.bWidth
    ensures Eval(LowerShr(a, b, c.aSigned, c.kind.Sshr?, c.yWidth), env) ==
            CellEdges.Eval(c, Eval(a, env), Eval(b, env))
  {
    var x, y := Eval(a, env), Eval(b, env);
    forall i | 0 <= i < c.yWidth
      ensures ShrC(x, y, c.aSigned, c.kind.Sshr?, c.yWidth)[i] == CellEdges.Eval(c, x, y)[i]
    {
      ShrBit(c, x, y, i);
      CellEdges.EvalIsRead(c, x, y, i);
    }
  }

  /** The evaluator leaves a bit undefined exactly where `$shiftx` reads outside its operand. */
  lemma {:induction false} IndexedAgrees(c: CellEdges.Cell, x: Const, y: Const, i: int)
    requires CellEdges.Legal(c) && CellEdges.IsIndexed(c) && 0 <= i < c.yWidth
    requires Defined(x) && Defined(y) && |x| == c.aWidth && |y| == c.bWidth
    ensures var r := CellEdges.Eval(c, x, y)[i];
            && (IsDef(r) ==> IndexedC(x, y, c.aSigned, c.bSigned, c.yWidth)[i] == r)
            && (!IsDef(r) <==> c.kind.Shiftx? && !(0 <= i + Val(y, c.bSigned) < c.aWidth))
  {
    IndexedBit(c, x, y, i);
    CellEdges.EvalIsRead(c, x, y, i);
  }

  /** `$shift` and `$shiftx`: as above wherever the evaluator defines the bit. */
  lemma {:induction false} LowerIndexedExact(c: CellEdges.Cell, a: Node, b: Node, env: Env)
    requires CellEdges.Legal(c) && CellEdges.IsIndexed(c) && c.yWidth > 0
    requires Valid(a) && Valid(b) && Width(a) == c.aWidth && Width(b) == c.bWidth
    ensures forall i :: 0 <= i < c.yWidth && IsDef(CellEdges.Eval(c, Eval(a, env), Eval(b, env))[i]) ==>
              Eval(LowerIndexed(a, b, c.aSigned, c.bSigned, c.yWidth), env)[i] ==
                  CellEdges.Eval(c, Eval(a, env), Eval(b, env))[i]
  {
    var x, y := Eval(a, env), Eval(b, env);
    forall i | 0 <= i < c.yWidth && IsDef(CellEdges.Eval(c, x, y)[i])
      ensures IndexedC(x, y, c.aSigned, c.bSigned, c.yWidth)[i] == CellEdges.Eval(c, x, y)[i]
    {
      IndexedAgrees(c, x, y, i);
    }
  }
}
