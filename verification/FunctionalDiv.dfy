/** The lowering of `$div`, `$mod`, `$divfloor` and `$modfloor` to unsigned division
    (`CellSimplifier` in `kernel/functional.cc`) is exact at every width. */
module FunctionalDiv {
  import opened Bits
  import opened Calc
  import opened FunctionalIR

  // ----- Meanings of the building blocks, on vectors

  /** `-x` in as many bits. */
  function NegC(x: Const): (r: Const)
    ensures |r| == |x| && Defined(r)
  {
    FromInt(0 - UVal(x), |x|)
  }

  function NotC(x: Const): (r: Const)
    ensures |r| == |x| && Defined(r)
  {
    FromInt(-1 - UVal(x), |x|)
  }

  function NegIfC(x: Const, neg: bool): (r: Const)
    ensures |r| == |x| && (Defined(x) ==> Defined(r))
  {
    if neg then NegC(x) else x
  }

  function NotIfC(x: Const, inv: bool): (r: Const)
    ensures |r| == |x| && (Defined(x) ==> Defined(r))
  {
    if inv then NotC(x) else x
  }

  function AbsC(x: Const): (r: Const)
    ensures |r| == |x| && (Defined(x) ==> Defined(r))
  {
    NegIfC(x, IsNeg(x))
  }

  // ----- Building blocks, as nodes

  function Sign(a: Node): (n: Node)
    requires Valid(a)
    ensures Valid(n) && Width(n) == 1
    ensures forall env :: Eval(n, env)[0] == S1 <==> IsNeg(Eval(a, env))
  {
    SignBit(a);
    Slice(a, Width(a) - 1, 1)
  }

  lemma {:induction false} SignBit(a: Node)
    requires Valid(a)
    ensures forall env :: Eval(a, env)[Width(a) - 1..Width(a)][0] == S1 <==> IsNeg(Eval(a, env))
  {
  }

  function NegIfNode(a: Node, s: Node): (n: Node)
    requires Valid(a) && Valid(s) && Width(s) == 1
    ensures Valid(n) && Width(n) == Width(a)
    ensures forall env :: Eval(n, env) == NegIfC(Eval(a, env), Eval(s, env)[0] == S1)
  {
    Mux(a, Unary(UnaryMinus, a), s)
  }

  function NotIfNode(a: Node, s: Node): (n: Node)
    requires Valid(a) && Valid(s) && Width(s) == 1
    ensures Valid(n) && Width(n) == Width(a)
    ensures forall env :: Eval(n, env) == NotIfC(Eval(a, env), Eval(s, env)[0] == S1)
  {
    Mux(a, Unary(BitwiseNot, a), s)
  }

  function AbsNode(a: Node): (n: Node)
    requires Valid(a)
    ensures Valid(n) && Width(n) == Width(a)
    ensures forall env :: Eval(n, env) == AbsC(Eval(a, env))
  {
    NegIfNode(a, Sign(a))
  }

  /** Both signs, compared. */
  function SignsDiffer(a: Node, b: Node): (n: Node)
    requires Valid(a) && Valid(b)
    ensures Valid(n) && Width(n) == 1
    ensures forall env :: Eval(n, env)[0] == S1 <==> IsNeg(Eval(a, env)) != IsNeg(Eval(b, env))
  {
    SignsAsBits(Sign(a), Sign(b));
    Binary(NotEqual, Sign(a), Sign(b))
  }

  lemma {:induction false} SignsAsBits(s: Node, t: Node)
    requires Valid(s) && Valid(t) && Width(s) == 1 && Width(t) == 1
    ensures forall env :: Eval(s, env) == Eval(t, env) <==> (Eval(s, env)[0] == S1) == (Eval(t, env)[0] == S1)
  {
    forall env ensures Eval(s, env) == Eval(t, env) <==> (Eval(s, env)[0] == S1) == (Eval(t, env)[0] == S1) {
      OneBit(Eval(s, env));
      OneBit(Eval(t, env));
    }
  }

  /** Which of the four cells. */
  datatype DivOp = Div | Mod | DivFloor | ModFloor

  function IntDiv(op: DivOp, x: int, y: int): int
    requires y != 0
  {
    match op
    case Div => TruncDiv(x, y)
    case Mod => TruncMod(x, y)
    case DivFloor => FloorDiv(x, y)
    case ModFloor => FloorMod(x, y)
  }

  function ConstDivOp(op: DivOp, a: Const, b: Const, signed: bool, len: nat): Const {
    match op
    case Div => ConstDiv(a, b, signed, signed, len)
    case Mod => ConstMod(a, b, signed, signed, len)
    case DivFloor => ConstDivFloor(a, b, signed, signed, len)
    case ModFloor => ConstModFloor(a, b, signed, signed, len)
  }

  // ----- The four lowerings: the nodes, and what they mean

  function SignedDivC(x: Const, y: Const, len: nat): Const
    requires Defined(x) && Defined(y) && |x| == |y|
  {
    NegIfC(Extend(Meaning2(UnsignedDiv, AbsC(x), AbsC(y)), len, false), IsNeg(x) != IsNeg(y))
  }

  function LowerSignedDiv(a: Node, b: Node, yWidth: nat): (n: Node)
    requires Valid(a) && Valid(b) && Width(a) == Width(b) && yWidth > 0
    ensures Valid(n) && Width(n) == yWidth
    ensures forall env :: Eval(n, env) == SignedDivC(Eval(a, env), Eval(b, env), yWidth)
  {
    NegIfNode(ExtendTo(Magnitude(UnsignedDiv, a, b), yWidth, false), SignsDiffer(a, b))
  }

  /** The quotient or remainder of the absolute values. */
  function Magnitude(f: Fn2, a: Node, b: Node): (n: Node)
    requires (f.UnsignedDiv? || f.UnsignedMod?) && Valid(a) && Valid(b) && Width(a) == Width(b)
    ensures Valid(n) && Width(n) == Width(a)
    ensures forall env :: Eval(n, env) == Meaning2(f, AbsC(Eval(a, env)), AbsC(Eval(b, env)))
  {
    Binary(f, AbsNode(a), AbsNode(b))
  }

  function SignedModC(x: Const, y: Const, len: nat): Const
    requires Defined(x) && Defined(y) && |x| == |y|
  {
    NegIfC(Extend(Meaning2(UnsignedMod, AbsC(x), AbsC(y)), len, false), IsNeg(x))
  }

  function LowerSignedMod(a: Node, b: Node, yWidth: nat): (n: Node)
    requires Valid(a) && Valid(b) && Width(a) == Width(b) && yWidth > 0
    ensures Valid(n) && Width(n) == yWidth
    ensures forall env :: Eval(n, env) == SignedModC(Eval(a, env), Eval(b, env), yWidth)
  {
    NegIfNode(ExtendTo(Magnitude(UnsignedMod, a, b), yWidth, false), Sign(a))
  }

  function A1Sign(a: Node, b: Node): (n: Node)
    requires Valid(a) && Valid(b)
    ensures Valid(n) && Width(n) == 1
    ensures forall env :: Eval(n, env)[0] == S1 <==>
                          IsNeg(Eval(a, env)) != IsNeg(Eval(b, env)) && UVal(Eval(a, env)) != 0
  {
    And1(SignsDiffer(a, b), ReduceOr1(a))
  }

  predicate RoundsDown(x: Const, y: Const) {
    IsNeg(x) != IsNeg(y) && UVal(x) != 0
  }

  function SignedDivFloorC(x: Const, y: Const, len: nat): Const
    requires Defined(x) && Defined(y) && |x| == |y|
  {
    NotIfC(Extend(Meaning2(UnsignedDiv, DividendC(x, y), NegIfC(y, IsNeg(y))), len, false), RoundsDown(x, y))
  }

  /** The dividend with the divisor's sign taken off, complemented where the quotient is rounded down. */
  function DividendC(x: Const, y: Const): (r: Const)
    requires Defined(x) && Defined(y)
    ensures |r| == |x| && Defined(r)
  {
    NotIfC(NegIfC(x, IsNeg(y)), RoundsDown(x, y))
  }

  function Dividend(a: Node, b: Node): (n: Node)
    requires Valid(a) && Valid(b)
    ensures Valid(n) && Width(n) == Width(a)
    ensures forall env :: Eval(n, env) == DividendC(Eval(a, env), Eval(b, env))
  {
    NotIfNode(NegIfNode(a, Sign(b)), A1Sign(a, b))
  }

  function LowerSignedDivFloor(a: Node, b: Node, yWidth: nat): (n: Node)
    requires Valid(a) && Valid(b) && Width(a) == Width(b) && yWidth > 0
    ensures Valid(n) && Width(n) == yWidth
    ensures forall env :: Eval(n, env) == SignedDivFloorC(Eval(a, env), Eval(b, env), yWidth)
  {
    NotIfNode(ExtendTo(FloorQuotient(a, b), yWidth, false), A1Sign(a, b))
  }

  function FloorQuotient(a: Node, b: Node): (n: Node)
    requires Valid(a) && Valid(b) && Width(a) == Width(b)
    ensures Valid(n) && Width(n) == Width(a)
    ensures forall env :: Eval(n, env) ==
                          Meaning2(UnsignedDiv, DividendC(Eval(a, env), Eval(b, env)),
                                   NegIfC(Eval(b, env), IsNeg(Eval(b, env))))
  {
    Binary(UnsignedDiv, Dividend(a, b), NegIfNode(b, Sign(b)))
  }

  function SignedModFloorC(x: Const, y: Const, len: nat): Const
    requires Defined(x) && Defined(y) && |x| == |y|
  {
    Extend(NegIfC(FlippedC(x, y), IsNeg(y)), len, true)
  }

  /** The remainder of the absolute values, counted from the other end where the signs differ. */
  function FlippedC(x: Const, y: Const): (r: Const)
    requires Defined(x) && Defined(y) && |x| == |y|
    ensures |r| == |x| && Defined(r)
  {
    var absY := Meaning2(UnsignedMod, AbsC(x), AbsC(y));
    var flip := IsNeg(x) != IsNeg(y) && UVal(absY) != 0;
    if flip then Meaning2(Sub, AbsC(y), absY) else absY
  }

  function Flipped(a: Node, b: Node): (n: Node)
    requires Valid(a) && Valid(b) && Width(a) == Width(b)
    ensures Valid(n) && Width(n) == Width(a)
    ensures forall env :: Eval(n, env) == FlippedC(Eval(a, env), Eval(b, env))
  {
    var absY := Magnitude(UnsignedMod, a, b);
    Mux(absY, Binary(Sub, AbsNode(b), absY), FlipY(a, b, absY))
  }

  function LowerSignedModFloor(a: Node, b: Node, yWidth: nat): (n: Node)
    requires Valid(a) && Valid(b) && Width(a) == Width(b) && yWidth > 0
    ensures Valid(n) && Width(n) == yWidth
    ensures forall env :: Eval(n, env) == SignedModFloorC(Eval(a, env), Eval(b, env), yWidth)
  {
    ExtendTo(NegIfNode(Flipped(a, b), Sign(b)), yWidth, true)
  }

  function FlipY(a: Node, b: Node, absY: Node): (n: Node)
    requires Valid(a) && Valid(b) && Valid(absY)
    ensures Valid(n) && Width(n) == 1
    ensures forall env :: Eval(n, env)[0] == S1 <==>
                          IsNeg(Eval(a, env)) != IsNeg(Eval(b, env)) && UVal(Eval(absY, env)) != 0
  {
    And1(Xor1(Sign(a), Sign(b)), ReduceOr1(absY))
  }

  function Xor1(s: Node, t: Node): (n: Node)
    requires Valid(s) && Valid(t) && Width(s) == 1 && Width(t) == 1
    ensures Valid(n) && Width(n) == 1
    ensures forall env :: Eval(n, env)[0] == S1 <==> (Eval(s, env)[0] == S1) != (Eval(t, env)[0] == S1)
  {
    Binary(BitwiseXor, s, t)
  }

  function And1(s: Node, t: Node): (n: Node)
    requires Valid(s) && Valid(t) && Width(s) == 1 && Width(t) == 1
    ensures Valid(n) && Width(n) == 1
    ensures forall env :: Eval(n, env)[0] == S1 <==> Eval(s, env)[0] == S1 && Eval(t, env)[0] == S1
  {
    Binary(BitwiseAnd, s, t)
  }

  function UnsignedDivC(op: DivOp, x: Const, y: Const, len: nat): Const
    requires Defined(x) && Defined(y) && |x| == |y|
  {
    Extend(Meaning2(if op.Mod? || op.ModFloor? then UnsignedMod else UnsignedDiv, x, y), len, false)
  }

  /** What the lowered cell computes from operands of one width. */
  function LoweredC(op: DivOp, x: Const, y: Const, signed: bool, len: nat): Const
    requires Defined(x) && Defined(y) && |x| == |y|
  {
    if !signed then UnsignedDivC(op, x, y, len)
    else match op
         case Div => SignedDivC(x, y, len)
         case Mod => SignedModC(x, y, len)
         case DivFloor => SignedDivFloorC(x, y, len)
         case ModFloor => SignedModFloorC(x, y, len)
  }

  /** The node `handle` builds for a division cell with operands of one signedness. */
  function LowerDiv(op: DivOp, a: Node, b: Node, signed: bool, yWidth: nat): (n: Node)
    requires Valid(a) && Valid(b) && yWidth > 0
    ensures Valid(n) && Width(n) == yWidth
    ensures forall env :: Eval(n, env) ==
                          LoweredC(op, Extend(Eval(a, env), Max(Width(a), Width(b)), signed),
                                   Extend(Eval(b, env), Max(Width(a), Width(b)), signed), signed, yWidth)
  {
    var width := Max(Width(a), Width(b));
    var ax, bx := ExtendTo(a, width, signed), ExtendTo(b, width, signed);
    if signed then
      match op
      case Div => LowerSignedDiv(ax, bx, yWidth)
      case Mod => LowerSignedMod(ax, bx, yWidth)
      case DivFloor => LowerSignedDivFloor(ax, bx, yWidth)
      case ModFloor => LowerSignedModFloor(ax, bx, yWidth)
    else if op.Mod? || op.ModFloor? then ExtendTo(Binary(UnsignedMod, ax, bx), yWidth, false)
    else ExtendTo(Binary(UnsignedDiv, ax, bx), yWidth, false)
  }

  // ----- Exactness, on vectors

  lemma {:induction false} NegCValue(x: Const)
    ensures UVal(NegC(x)) == if UVal(x) == 0 then 0 else Pow2(|x|) - UVal(x)
  {
    UValFromInt(0 - UVal(x), |x|);
    NegMod(UVal(x), Pow2(|x|));
  }

  lemma {:induction false} NegMod(u: int, m: nat)
    requires 0 <= u < m
    ensures (0 - u) % m == if u == 0 then 0 else m - u
  {
    if u == 0 {
      ModSmall(0, m);
    } else {
      ModNegative(0 - u, m);
    }
  }

  lemma {:induction false} NotCValue(x: Const)
    ensures UVal(NotC(x)) == Pow2(|x|) - 1 - UVal(x)
  {
    UValFromInt(-1 - UVal(x), |x|);
    ModNegative(-1 - UVal(x), Pow2(|x|));
  }

  /** The absolute value fits unsigned, even that of the most negative operand. */
  lemma {:induction false} AbsCValue(x: Const)
    requires |x| > 0
    ensures UVal(AbsC(x)) == Abs(SVal(x)) <= Pow2(|x| - 1)
  {
    SignFromUVal(x);
    NegCValue(x);
  }

  lemma {:induction false} QuotientBounds(p: nat, m: nat)
    requires m > 0
    ensures 0 <= p / m <= p && 0 <= p % m < m && p % m <= p
  {
    assert p == p / m * m + p % m;
    if p / m >= 0 {
      MulMono(1, m, p / m);
    }
  }

  lemma {:induction false} ExtendedBits(n: nat, w: nat, len: nat)
    requires n < Pow2(w)
    ensures Extend(FromInt(n, w), len, false) == FromInt(n, len)
  {
    UValFromInt(n, w);
    ModSmall(n, Pow2(w));
    ExtendFromInt(FromInt(n, w), len, false);
  }

  lemma {:induction false} NegFromInt(n: int, len: nat)
    ensures NegC(FromInt(n, len)) == FromInt(0 - n, len)
  {
    var u: int, m := UVal(FromInt(n, len)), Pow2(len);
    UValFromInt(n, len);
    ModIdempotent(n, m);
    SumMod(0, 0, u, n, m);
    FromIntCong(0 - u, 0 - n, len);
  }

  lemma {:induction false} NotFromInt(n: int, len: nat)
    ensures NotC(FromInt(n, len)) == FromInt(-1 - n, len)
  {
    var u: int, m := UVal(FromInt(n, len)), Pow2(len);
    UValFromInt(n, len);
    ModIdempotent(n, m);
    SumMod(-1, -1, u, n, m);
    FromIntCong(-1 - u, -1 - n, len);
  }

  /** The unsigned divider on operands whose values are known. */
  lemma {:induction false} DividerBits(f: Fn2, x: Const, y: Const, p: nat, m: nat, q: nat, len: nat)
    requires (f.UnsignedDiv? || f.UnsignedMod?) && Defined(x) && Defined(y) && |x| == |y|
    requires UVal(x) == p && UVal(y) == m > 0 && q == if f.UnsignedDiv? then p / m else p % m
    ensures q <= p < Pow2(|x|) && (f.UnsignedMod? ==> q < m)
    ensures Meaning2(f, x, y) == FromInt(q, |x|)
    ensures Extend(Meaning2(f, x, y), len, false) == FromInt(q, len)
  {
    QuotientBounds(p, m);
    ExtendedBits(q, |x|, len);
  }

  lemma {:induction false} SignedDivExact(x: Const, y: Const, len: nat)
    requires Defined(x) && Defined(y) && |x| == |y| > 0 && SVal(y) != 0
    ensures SignedDivC(x, y, len) == FromInt(TruncDiv(SVal(x), SVal(y)), len)
  {
    AbsCValue(x);
    AbsCValue(y);
    var q := Abs(SVal(x)) / Abs(SVal(y));
    QuotientBounds(Abs(SVal(x)), Abs(SVal(y)));
    DividerBits(UnsignedDiv, AbsC(x), AbsC(y), Abs(SVal(x)), Abs(SVal(y)), q, len);
    NegFromInt(q, len);
  }

  lemma {:induction false} SignedModExact(x: Const, y: Const, len: nat)
    requires Defined(x) && Defined(y) && |x| == |y| > 0 && SVal(y) != 0
    ensures SignedModC(x, y, len) == FromInt(TruncMod(SVal(x), SVal(y)), len)
  {
    AbsCValue(x);
    AbsCValue(y);
    var r := Abs(SVal(x)) % Abs(SVal(y));
    QuotientBounds(Abs(SVal(x)), Abs(SVal(y)));
    DividerBits(UnsignedMod, AbsC(x), AbsC(y), Abs(SVal(x)), Abs(SVal(y)), r, len);
    NegFromInt(r, len);
  }

  /** Rounding a negative quotient down: one less than the quotient of one less, negated. */
  lemma {:induction false} FloorByComplement(p: nat, m: nat)
    requires p > 0 && m > 0
    ensures (p - 1) / m >= 0 && -1 - (p - 1) / m == -((p + m - 1) / m)
  {
    ModAddMultiple(p - 1, m, 1);
    QuotientBounds(p - 1, m);
  }

  /** The dividend of the flooring lowering: the magnitude, less one when rounding down. */
  lemma {:induction false} FloorDividend(x: Const, y: Const)
    requires |x| == |y| > 0
    ensures UVal(NotIfC(NegIfC(x, IsNeg(y)), RoundsDown(x, y))) ==
            if RoundsDown(x, y) then Abs(SVal(x)) - 1 else Abs(SVal(x))
  {
    SignFromUVal(x);
    NegCValue(x);
    NotCValue(NegIfC(x, IsNeg(y)));
  }

  lemma {:induction false} FloorRoundsDown(x: Const, y: Const, len: nat)
    requires Defined(x) && Defined(y) && |x| == |y| > 0 && SVal(y) != 0 && RoundsDown(x, y)
    ensures Abs(SVal(x)) > 0
    ensures SignedDivFloorC(x, y, len) == FromInt(-1 - (Abs(SVal(x)) - 1) / Abs(SVal(y)), len)
  {
    var p, m := Abs(SVal(x)), Abs(SVal(y));
    SignFromUVal(x);
    FloorDividend(x, y);
    AbsCValue(y);
    QuotientBounds(p - 1, m);
    var q := (p - 1) / m;
    DividerBits(UnsignedDiv, NotIfC(NegIfC(x, IsNeg(y)), true), AbsC(y), p - 1, m, q, len);
    NotFromInt(q, len);
  }

  lemma {:induction false} SignedDivFloorExact(x: Const, y: Const, len: nat)
    requires Defined(x) && Defined(y) && |x| == |y| > 0 && SVal(y) != 0
    ensures SignedDivFloorC(x, y, len) == FromInt(FloorDiv(SVal(x), SVal(y)), len)
  {
    var p, m := Abs(SVal(x)), Abs(SVal(y));
    FloorDividend(x, y);
    AbsCValue(y);
    var a2 := NotIfC(NegIfC(x, IsNeg(y)), RoundsDown(x, y));
    SignFromUVal(x);
    if RoundsDown(x, y) {
      FloorRoundsDown(x, y, len);
      FloorByComplement(p, m);
    } else {
      QuotientBounds(p, m);
      DividerBits(UnsignedDiv, a2, AbsC(y), p, m, p / m, len);
    }
  }

  lemma {:induction false} SignedModFloorExact(x: Const, y: Const, len: nat)
    requires Defined(x) && Defined(y) && |x| == |y| > 0 && SVal(y) != 0
    ensures SignedModFloorC(x, y, len) == FromInt(FloorMod(SVal(x), SVal(y)), len)
  {
    AbsCValue(x);
    AbsCValue(y);
    var p, m, w := Abs(SVal(x)), Abs(SVal(y)), |x|;
    QuotientBounds(p, m);
    var r := p % m;
    DividerBits(UnsignedMod, AbsC(x), AbsC(y), p, m, r, len);
    UValFromInt(r, w);
    ModSmall(r, Pow2(w));
    var flip := IsNeg(x) != IsNeg(y) && r != 0;
    var v := if flip then m - r else r;
    FlippedBits(v, w, IsNeg(y), len);
    FloorModByFlip(SVal(x), SVal(y), v, flip);
  }

  /** A magnitude below `2^(w-1)`, negated in `w` bits and sign-extended. */
  lemma {:induction false} FlippedBits(v: nat, w: nat, neg: bool, len: nat)
    requires w > 0 && v < Pow2(w - 1)
    ensures Extend(NegIfC(FromInt(v, w), neg), len, true) == FromInt(NegIf(v, neg), len)
  {
    NegFromInt(v, w);
    var n := NegIf(v, neg);
    SValFromInt(n, w);
    ExtendFromInt(FromInt(n, w), len, true);
  }

  lemma {:induction false} FloorModByFlip(x: int, y: int, v: nat, flip: bool)
    requires y != 0 && flip == ((x < 0) != (y < 0) && Abs(x) % Abs(y) != 0)
    requires v == if flip then Abs(y) - Abs(x) % Abs(y) else Abs(x) % Abs(y)
    ensures FloorMod(x, y) == NegIf(v, y < 0)
  {
  }

  /** For every width, signedness and nonzero divisor the lowered cell computes the bits of
      the constant evaluator. */
  lemma {:induction false} LowerDivExact(op: DivOp, a: Node, b: Node, signed: bool, yWidth: nat, env: Env)
    requires Valid(a) && Valid(b) && yWidth > 0 && Val(Eval(b, env), signed) != 0
    ensures Eval(LowerDiv(op, a, b, signed, yWidth), env) ==
            ConstDivOp(op, Eval(a, env), Eval(b, env), signed, yWidth)
  {
    var x, y, w := Eval(a, env), Eval(b, env), Max(Width(a), Width(b));
    BigIsVal(x, signed);
    BigIsVal(y, signed);
    ExtendVal(x, w, signed);
    ExtendVal(y, w, signed);
    LoweredExact(op, Extend(x, w, signed), Extend(y, w, signed), signed, yWidth);
  }

  lemma {:induction false} LoweredExact(op: DivOp, x: Const, y: Const, signed: bool, len: nat)
    requires Defined(x) && Defined(y) && |x| == |y| > 0 && Val(y, signed) != 0
    ensures LoweredC(op, x, y, signed, len) == FromInt(IntDiv(op, Val(x, signed), Val(y, signed)), len)
  {
    if signed {
      match op {
        case Div => SignedDivExact(x, y, len);
        case Mod => SignedModExact(x, y, len);
        case DivFloor => SignedDivFloorExact(x, y, len);
        case ModFloor => SignedModFloorExact(x, y, len);
      }
    } else {
      var p, m := UVal(x), UVal(y);
      QuotientBounds(p, m);
      var f := if op.Mod? || op.ModFloor? then UnsignedMod else UnsignedDiv;
      DividerBits(f, x, y, p, m, if f.UnsignedDiv? then p / m else p % m, len);
    }
  }
}
