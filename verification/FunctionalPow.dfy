/** Powers: the modular square-and-multiply of `const_pow` (`kernel/calc.cc`) and the
    multiplier chain of `handle_pow` (`kernel/functional.cc`). */
module FunctionalPow {
  import opened Bits
  import opened Calc
  import opened FunctionalIR
  import opened FunctionalDiv
  import opened FunctionalShift

  // ----- Powers and remainders

  function Exp(a: int, n: nat): int {
    if n == 0 then 1 else a * Exp(a, n - 1)
  }

  lemma {:induction false} ExpAdd(a: int, m: nat, n: nat)
    ensures Exp(a, m + n) == Exp(a, m) * Exp(a, n)
  {
    if m > 0 {
      ExpAdd(a, m - 1, n);
      Assoc(a, Exp(a, m - 1), Exp(a, n));
    }
  }

  lemma {:induction false} Assoc(a: int, b: int, c: int)
    ensures a * (b * c) == (a * b) * c
  {
  }

  lemma {:induction false} ExpProduct(a: int, b: int, n: nat)
    ensures Exp(a * b, n) == Exp(a, n) * Exp(b, n)
  {
    if n > 0 {
      ExpProduct(a, b, n - 1);
      Shuffle(a, b, Exp(a, n - 1), Exp(b, n - 1));
    }
  }

  lemma {:induction false} Shuffle(a: int, b: int, c: int, d: int)
    ensures (a * b) * (c * d) == (a * c) * (b * d)
  {
  }

  /** Halving the exponent squares the base. */
  lemma {:induction false} ExpHalf(a: int, n: nat)
    ensures Exp(a, n) == (if n % 2 == 1 then a else 1) * Exp(a * a, n / 2)
  {
    var h := n / 2;
    ExpAdd(a, h, h);
    ExpProduct(a, a, h);
  }

  lemma {:induction false} ExpUnit(n: nat)
    ensures Exp(1, n) == 1 && Exp(-1, n) == if n % 2 == 0 then 1 else -1
  {
    if n > 0 {
      ExpUnit(n - 1);
    }
  }

  lemma {:induction false} ExpNegated(a: int, n: nat)
    ensures Exp(-a, n) == if n % 2 == 0 then Exp(a, n) else -Exp(a, n)
  {
    ExpProduct(-1, a, n);
    ExpUnit(n);
    assert -1 * a == -a;
  }

  lemma {:induction false} ProductMod(x: int, x': int, y: int, y': int, m: nat)
    requires m > 0 && x % m == x' % m && y % m == y' % m
    ensures (x * y) % m == (x' * y') % m
  {
    ScaledMod(x, x', y, m);
    ScaledMod(y, y', x', m);
    assert y * x' == x' * y && y' * x' == x' * y';
  }

  lemma {:induction false} ScaledMod(x: int, x': int, y: int, m: nat)
    requires m > 0 && x % m == x' % m
    ensures (x * y) % m == (x' * y) % m
  {
    var p := ModEqDiff(x, x', m);
    Expand(x', y, p, m);
    ModAddMultiple(x' * y, m, p * y);
  }

  lemma {:induction false} Expand(x: int, y: int, p: int, m: int)
    ensures (x + p * m) * y == x * y + p * y * m
  {
  }

  lemma {:induction false} ExpMod(a: int, b: int, n: nat, m: nat)
    requires m > 0 && a % m == b % m
    ensures Exp(a, n) % m == Exp(b, n) % m
  {
    if n > 0 {
      ExpMod(a, b, n - 1, m);
      ProductMod(a, b, Exp(a, n - 1), Exp(b, n - 1), m);
    }
  }

  // ----- const_pow

  /** The power rules of section 11.4.3 of IEEE 1800-2017 for a defined result: a negative
      exponent gives 1, the sign, or 0. */
  function VerilogPow(a: int, b: int): int
    requires a != 0 || b >= 0
  {
    if b >= 0 then Exp(a, b)
    else if a == 1 then 1
    else if a == -1 then (if (-b) % 2 == 0 then 1 else -1)
    else 0
  }

  function ConstPow(a: Const, b: Const, signedA: bool, signedB: bool, len: nat): Const {
    var x, y := Big(a, signedA), Big(b, signedB);
    if x == 0 && y < 0 then AllX(len)
    else if x == 0 && y > 0 then seq(len, _ => S0)
    else Arith(a, b, VerilogPow(x, y), len)
  }

  /** One step of the modular loop keeps the value of the accumulator times the pending power. */
  lemma {:induction false} PowModStep(y: int, a: int, b: nat, m: nat)
    requires m > 0 && b > 0
    ensures var y' := if b % 2 == 1 then (y * a) % m else y;
            (y' * Exp((a * a) % m, b / 2)) % m == (y * Exp(a, b)) % m
  {
    var y1 := if b % 2 == 1 then y * a else y;
    var y' := if b % 2 == 1 then (y * a) % m else y;
    ModIdempotent(y * a, m);
    ModIdempotent(a * a, m);
    ExpMod((a * a) % m, a * a, b / 2, m);
    ProductMod(y', y1, Exp((a * a) % m, b / 2), Exp(a * a, b / 2), m);
    ExpHalf(a, b);
    if b % 2 == 1 {
      Assoc(y, a, Exp(a * a, b / 2));
    }
  }

  method ConstPowLoop(arg1: Const, arg2: Const, signed1: bool, signed2: bool, resultLen: nat) returns (r: Const)
    ensures r == ConstPow(arg1, arg2, signed1, signed2, resultLen)
  {
    var a, undef := Const2Big(arg1, signed1, -1);
    var b;
    b, undef := Const2Big(arg2, signed2, undef);
    var y := 1;
    if a == 0 && b < 0 {
      return AllX(resultLen);
    }
    if a == 0 && b > 0 {
      return seq(resultLen, _ => S0);
    }
    ghost var x, e := a, b;
    if b < 0 {
      if a < -1 || a > 1 {
        y := 0;
      }
      if a == -1 {
        y := if -b % 2 == 0 then 1 else -1;
      }
    }
    if b > 0 {
      y := PowMod(a, b, resultLen);
      FromIntCong(y, Exp(x, e), resultLen);
    }
    r := Big2Const(y, resultLen, Min(undef, 0));
  }

  /** The power modulo `2^len`, with the sign of the base taken out first and put back last. */
  method PowMod(base: int, exponent: nat, len: nat) returns (y: int)
    requires exponent > 0
    ensures y % Pow2(len) == Exp(base, exponent) % Pow2(len)
  {
    var modulus := 1;
    for i := 0 to len
      invariant modulus == Pow2(i)
    {
      modulus := modulus * 2;
    }
    var a, b := base, exponent;
    var flipResultSign := false;
    if a < 0 {
      a := a * -1;
      if b % 2 == 1 {
        flipResultSign := true;
      }
    }
    ghost var m := a;
    y := 1;
    while b > 0
      invariant b >= 0 && (y * Exp(a, b)) % modulus == Exp(m, exponent) % modulus
    {
      PowModStep(y, a, b, modulus);
      if b % 2 == 1 {
        y := (y * a) % modulus;
      }
      b := b / 2;
      a := (a * a) % modulus;
    }
    ExpNegated(m, exponent);
    if flipResultSign {
      SumMod(0, 0, y, Exp(m, exponent), modulus);
      y := y * -1;
    }
  }

  // ----- handle_pow

  /** The accumulator and the repeated square after `n` bits of the exponent. */
  function PowChain(a: Node, b: Node, n: nat): (p: (Node, Node))
    requires Valid(a) && Valid(b) && n <= Width(b)
    ensures Valid(p.0) && Valid(p.1) && Width(p.0) == Width(p.1) == Width(a)
  {
    if n == 0 then (ConstantNode(FromInt(1, Width(a))), a)
    else
      PowStep(PowChain(a, b, n - 1), b, n - 1)
  }

  /** One turn of the loop: multiply when bit `i` of the exponent is set, and square. */
  function PowStep(p: (Node, Node), b: Node, i: nat): (r: (Node, Node))
    requires Valid(p.0) && Valid(p.1) && Valid(b) && Width(p.0) == Width(p.1) && i < Width(b)
    ensures Valid(r.0) && Valid(r.1) && Width(r.0) == Width(r.1) == Width(p.0)
  {
    (Mux(p.0, Binary(Mul, p.0, p.1), Slice(b, i, 1)), Binary(Mul, p.1, p.1))
  }

  /** Whether the result of a signed power is forced to zero. */
  function ZeroResult(a0: Node, b: Node): (n: Node)
    requires Valid(a0) && Valid(b)
    ensures Valid(n) && Width(n) == 1
    ensures forall env :: Eval(n, env)[0] == S1 <==>
                          UVal(AbsC(Eval(a0, env))) > UVal(FromInt(1, Width(a0))) && IsNeg(Eval(b, env))
  {
    And1(AboveOne(a0), Sign(b))
  }

  function AboveOne(a0: Node): (n: Node)
    requires Valid(a0)
    ensures Valid(n) && Width(n) == 1
    ensures forall env :: Eval(n, env)[0] == S1 <==> UVal(AbsC(Eval(a0, env))) > UVal(FromInt(1, Width(a0)))
  {
    Binary(UnsignedGreaterThan, AbsNode(a0), ConstantNode(FromInt(1, Width(a0))))
  }

  function PowNode(a0: Node, b: Node, yWidth: nat, isSigned: bool): (n: Node)
    requires Valid(a0) && Valid(b) && yWidth > 0
    ensures Valid(n) && Width(n) == yWidth
  {
    var r := PowChain(ExtendTo(a0, yWidth, isSigned), b, Width(b)).0;
    if isSigned then Mux(r, ConstantNode(FromInt(0, yWidth)), ZeroResult(a0, b)) else r
  }

  method HandlePow(a0: Node, b: Node, yWidth: nat, isSigned: bool) returns (r: Node)
    requires Valid(a0) && Valid(b) && yWidth > 0
    ensures r == PowNode(a0, b, yWidth, isSigned)
  {
    var a := ExtendTo(a0, yWidth, isSigned);
    ghost var a1 := a;
    r := ConstantNode(FromInt(1, yWidth));
    for i := 0 to Width(b)
      invariant Valid(a) && Valid(r) && Width(a) == Width(r) == yWidth
      invariant (r, a) == PowChain(a1, b, i)
    {
      var step := PowStep((r, a), b, i);
      r, a := step.0, step.1;
    }
    if isSigned {
      r := Mux(r, ConstantNode(FromInt(0, yWidth)), ZeroResult(a0, b));
    }
  }

  /** What the chain computes, on vectors. */
  function PowChainC(x: Const, y: Const, n: nat): (p: (Const, Const))
    requires Defined(x) && n <= |y|
    ensures Defined(p.0) && Defined(p.1) && |p.0| == |p.1| == |x|
  {
    if n == 0 then (FromInt(1, |x|), x)
    else
      PowStepC(PowChainC(x, y, n - 1), y[n - 1])
  }

  function PowStepC(c: (Const, Const), s: State): (r: (Const, Const))
    requires Defined(c.0) && Defined(c.1) && |c.0| == |c.1|
    ensures Defined(r.0) && Defined(r.1) && |r.0| == |r.1| == |c.0|
  {
    (if s == S1 then Meaning2(Mul, c.0, c.1) else c.0, Meaning2(Mul, c.1, c.1))
  }

  /** The nodes `p` compute the vectors `c`. */
  predicate Computes(p: (Node, Node), env: Env, c: (Const, Const)) {
    Valid(p.0) && Valid(p.1) && Eval(p.0, env) == c.0 && Eval(p.1, env) == c.1
  }

  predicate ChainComputes(a: Node, b: Node, n: nat, env: Env)
    requires Valid(a) && Valid(b) && n <= Width(b)
  {
    Computes(PowChain(a, b, n), env, PowChainC(Eval(a, env), Eval(b, env), n))
  }

  lemma {:induction false} PowChainMeaning(a: Node, b: Node, n: nat, env: Env)
    requires Valid(a) && Valid(b) && n <= Width(b)
    ensures ChainComputes(a, b, n, env)
  {
    if n == 0 {
      PowChainStart(a, b, env);
    } else {
      PowChainMeaning(a, b, n - 1, env);
      PowChainStep(a, b, n, env);
    }
  }

  lemma {:induction false} PowChainStep(a: Node, b: Node, n: nat, env: Env)
    requires Valid(a) && Valid(b) && 0 < n <= Width(b)
    requires ChainComputes(a, b, n - 1, env)
    ensures ChainComputes(a, b, n, env)
  {
    var p, c := PowChain(a, b, n - 1), PowChainC(Eval(a, env), Eval(b, env), n - 1);
    PowStepMeaning(p, c, b, n - 1, env);
    assert PowChain(a, b, n) == PowStep(p, b, n - 1);
    assert PowChainC(Eval(a, env), Eval(b, env), n) == PowStepC(c, Eval(b, env)[n - 1]);
  }

  lemma {:induction false} PowChainStart(a: Node, b: Node, env: Env)
    requires Valid(a) && Valid(b)
    ensures ChainComputes(a, b, 0, env)
  {
  }

  lemma {:induction false} PowStepMeaning(p: (Node, Node), c: (Const, Const), b: Node, i: nat, env: Env)
    requires Computes(p, env, c) && Valid(b) && Width(p.0) == Width(p.1) && i < Width(b)
    ensures Computes(PowStep(p, b, i), env, PowStepC(c, Eval(b, env)[i]))
  {
  }

  /** The chain raises to the exponent bits seen so far, modulo the width. */
  lemma {:induction false} PowChainValue(x: Const, y: Const, n: nat)
    requires Defined(x) && n <= |y|
    ensures var (r, sq) := PowChainC(x, y, n);
            && UVal(r) == Exp(UVal(x), UVal(y[..n])) % Pow2(|x|)
            && UVal(sq) == Exp(UVal(x), Pow2(n)) % Pow2(|x|)
  {
    if n == 0 {
      UValFromInt(1, |x|);
      ModSmall(UVal(x), Pow2(|x|));
      assert Exp(UVal(x), 1) == UVal(x) * Exp(UVal(x), 0);
    } else {
      PowChainValue(x, y, n - 1);
      var (r, sq) := PowChainC(x, y, n - 1);
      PowStepValue(r, sq, y, n, UVal(x));
    }
  }

  lemma {:induction false} PowStepValue(r: Const, sq: Const, y: Const, n: nat, x: int)
    requires Defined(r) && Defined(sq) && |r| == |sq| && 0 < n <= |y|
    requires UVal(r) == Exp(x, UVal(y[..n - 1])) % Pow2(|r|) && UVal(sq) == Exp(x, Pow2(n - 1)) % Pow2(|r|)
    ensures UVal(if y[n - 1] == S1 then Meaning2(Mul, r, sq) else r) == Exp(x, UVal(y[..n])) % Pow2(|r|)
    ensures UVal(Meaning2(Mul, sq, sq)) == Exp(x, Pow2(n)) % Pow2(|r|)
  {
    var e := UVal(y[..n - 1]);
    assert y[..n][..n - 1] == y[..n - 1];
    MulValue(sq, sq, Exp(x, Pow2(n - 1)), Exp(x, Pow2(n - 1)));
    ExpAdd(x, Pow2(n - 1), Pow2(n - 1));
    MulValue(r, sq, Exp(x, e), Exp(x, Pow2(n - 1)));
    ExpAdd(x, e, Pow2(n - 1));
  }

  /** The truncating multiplier on operands known modulo the width. */
  lemma {:induction false} MulValue(s: Const, t: Const, p: int, q: int)
    requires Defined(s) && Defined(t) && |s| == |t| && UVal(s) == p % Pow2(|s|) && UVal(t) == q % Pow2(|s|)
    ensures UVal(Meaning2(Mul, s, t)) == (p * q) % Pow2(|s|)
  {
    UValFromInt(UVal(s) * UVal(t), |s|);
    ModIdempotent(p, Pow2(|s|));
    ModIdempotent(q, Pow2(|s|));
    ProductMod(UVal(s), p, UVal(t), q, Pow2(|s|));
  }

  /** The integer the lowered cell computes, modulo its output width. */
  function PowInt(x: Const, y: Const, isSigned: bool): int {
    if isSigned && IsNeg(y) && Abs(SVal(x)) > 1 then 0 else Exp(Val(x, isSigned), UVal(y))
  }

  lemma {:induction false} PowNodeValue(a0: Node, b: Node, yWidth: nat, isSigned: bool, env: Env)
    requires Valid(a0) && Valid(b) && yWidth > 0
    ensures Eval(PowNode(a0, b, yWidth, isSigned), env) ==
            FromInt(PowInt(Eval(a0, env), Eval(b, env), isSigned), yWidth)
  {
    var x, y := Eval(a0, env), Eval(b, env);
    var a := ExtendTo(a0, yWidth, isSigned);
    var m := Pow2(yWidth);
    PowChainMeaning(a, b, Width(b), env);
    PowChainValue(Eval(a, env), y, Width(b));
    assert y[..Width(b)] == y;
    ExtendMod(x, yWidth, isSigned);
    ModIdempotent(Val(x, isSigned), m);
    ExpMod(UVal(Eval(a, env)), Val(x, isSigned), UVal(y), m);
    var r := Eval(PowChain(a, b, Width(b)).0, env);
    FromIntUVal(r);
    ModIdempotent(Exp(Val(x, isSigned), UVal(y)), m);
    FromIntCong(UVal(r), Exp(Val(x, isSigned), UVal(y)), yWidth);
    OneConstant(Width(a0));
    AbsCValue(x);
  }

  lemma {:induction false} OneConstant(w: nat)
    requires w > 0
    ensures UVal(FromInt(1, w)) == 1
  {
    UValFromInt(1, w);
    Pow2Mono(1, w);
    assert Pow2(1) == 2;
    ModSmall(1, Pow2(w));
  }

  /** With one signedness, the chain and the zero test are the Verilog rules. */
  lemma {:induction false} PowIntIsVerilog(x: Const, y: Const, signed: bool)
    requires |x| > 0 && |y| > 0 && (Val(x, signed) != 0 || Val(y, signed) >= 0)
    ensures PowInt(x, y, signed) == VerilogPow(Val(x, signed), Val(y, signed))
  {
    SignFromUVal(y);
    if signed && IsNeg(y) {
      ExpUnit(UVal(y));
      assert Pow2(|y|) == 2 * Pow2(|y| - 1);
      assert SVal(y) == UVal(y) - Pow2(|y|);
    }
  }

  /** The lowered cell agrees with the evaluator on every operand pair of these widths whose
      result is defined. */
  ghost predicate PowAgrees(aWidth: nat, bWidth: nat, aSigned: bool, bSigned: bool, yWidth: nat)
    requires aWidth > 0 && bWidth > 0 && yWidth > 0
  {
    forall env :: PowAgreesAt(aWidth, bWidth, aSigned, bSigned, yWidth, env)
  }

  predicate PowAgreesAt(aWidth: nat, bWidth: nat, aSigned: bool, bSigned: bool, yWidth: nat, env: Env)
    requires aWidth > 0 && bWidth > 0 && yWidth > 0
  {
    var a, b := Input(0, aWidth), Input(1, bWidth);
    var x, y := Eval(a, env), Eval(b, env);
    Defined(ConstPow(x, y, aSigned, bSigned, yWidth)) ==>
      Eval(PowNode(a, b, yWidth, aSigned && bSigned), env) == ConstPow(x, y, aSigned, bSigned, yWidth)
  }

  /** `$pow` may have operands of different signedness, but the lowering treats such a cell as
      unsigned; it then agrees exactly when no extension of A shows, or A is a single bit. */
  predicate PowAgreesWhen(aWidth: nat, aSigned: bool, bSigned: bool, yWidth: nat) {
    || aSigned == bSigned
    || (aSigned && !bSigned && yWidth <= aWidth)
    || (!aSigned && bSigned && aWidth == 1)
  }

  lemma {:induction false} PowExactIff(aWidth: nat, bWidth: nat, aSigned: bool, bSigned: bool, yWidth: nat)
    requires aWidth > 0 && bWidth > 0 && yWidth > 0
    ensures PowAgrees(aWidth, bWidth, aSigned, bSigned, yWidth) <==> PowAgreesWhen(aWidth, aSigned, bSigned, yWidth)
  {
    if PowAgreesWhen(aWidth, aSigned, bSigned, yWidth) {
      forall env: Env ensures PowAgreesAt(aWidth, bWidth, aSigned, bSigned, yWidth, env) {
        PowExact(Input(0, aWidth), Input(1, bWidth), aSigned, bSigned, yWidth, env);
      }
    } else if aSigned {
      MixedBase(aWidth, bWidth, yWidth);
    } else {
      MixedExponent(aWidth, bWidth, yWidth);
    }
  }

  /** Agreement, for any operand nodes. */
  lemma {:induction false} PowExact(a: Node, b: Node, aSigned: bool, bSigned: bool, yWidth: nat, env: Env)
    requires Valid(a) && Valid(b) && yWidth > 0 && PowAgreesWhen(Width(a), aSigned, bSigned, yWidth)
    ensures var r := ConstPow(Eval(a, env), Eval(b, env), aSigned, bSigned, yWidth);
            Defined(r) ==> Eval(PowNode(a, b, yWidth, aSigned && bSigned), env) == r
  {
    PowNodeValue(a, b, yWidth, aSigned && bSigned, env);
    DefinedPower(Eval(a, env), Eval(b, env), aSigned, bSigned, yWidth);
  }

  /** A defined power of the evaluator is the integer that the nodes compute. */
  lemma {:induction false} DefinedPower(x: Const, y: Const, aSigned: bool, bSigned: bool, len: nat)
    requires Defined(x) && Defined(y) && |x| > 0 && |y| > 0 && len > 0 && PowAgreesWhen(|x|, aSigned, bSigned, len)
    ensures var r := ConstPow(x, y, aSigned, bSigned, len);
            Defined(r) ==> FromInt(PowInt(x, y, aSigned && bSigned), len) == r
  {
    BigIsVal(x, aSigned);
    BigIsVal(y, bSigned);
    if Val(x, aSigned) == 0 && Val(y, bSigned) < 0 {
      assert !IsDef(AllX(len)[0]);
    } else {
      PowBits(x, y, aSigned, bSigned, len);
    }
  }

  lemma {:induction false} PowBits(x: Const, y: Const, aSigned: bool, bSigned: bool, len: nat)
    requires Defined(x) && Defined(y) && |x| > 0 && |y| > 0 && PowAgreesWhen(|x|, aSigned, bSigned, len)
    requires Val(x, aSigned) != 0 || Val(y, bSigned) >= 0
    ensures FromInt(PowInt(x, y, aSigned && bSigned), len) == ConstPow(x, y, aSigned, bSigned, len)
  {
    BigIsVal(x, aSigned);
    BigIsVal(y, bSigned);
    var p, q := Val(x, aSigned), Val(y, bSigned);
    if p == 0 && q > 0 {
      FromIntZero(len);
      assert Exp(0, UVal(y)) == 0 * Exp(0, UVal(y) - 1);
    } else if aSigned == bSigned {
      PowIntIsVerilog(x, y, aSigned);
    } else if aSigned {
      Pow2Add(len, |x| - len);
      ModMod(UVal(x), Pow2(len), Pow2(|x| - len));
      ModMod(SVal(x), Pow2(len), Pow2(|x| - len));
      ValMod(x, true);
      ModSmall(UVal(x), Pow2(|x|));
      ExpMod(UVal(x), SVal(x), UVal(y), Pow2(len));
      FromIntCong(Exp(UVal(x), UVal(y)), Exp(SVal(x), UVal(y)), len);
    } else {
      OneBit(x);
      ExpUnit(UVal(y));
    }
  }

  /** `(-1) ** 1`, signed base and unsigned exponent, in more bits than the base has. */
  lemma {:induction false} MixedBase(aWidth: nat, bWidth: nat, yWidth: nat)
    requires 0 < aWidth < yWidth && bWidth > 0
    ensures !PowAgrees(aWidth, bWidth, true, false, yWidth)
  {
    var env: Env := name => if name == 0 then -1 else 1;
    PowNodeValue(Input(0, aWidth), Input(1, bWidth), yWidth, false, env);
    MixedBaseBits(aWidth, bWidth, yWidth);
    assert !PowAgreesAt(aWidth, bWidth, true, false, yWidth, env);
  }

  lemma {:induction false} MixedBaseBits(aWidth: nat, bWidth: nat, yWidth: nat)
    requires 0 < aWidth < yWidth && bWidth > 0
    ensures var x, y := FromInt(-1, aWidth), FromInt(1, bWidth);
            && Defined(ConstPow(x, y, true, false, yWidth))
            && FromInt(PowInt(x, y, false), yWidth) != ConstPow(x, y, true, false, yWidth)
  {
    var x, y := FromInt(-1, aWidth), FromInt(1, bWidth);
    SValFromInt(-1, aWidth);
    OneConstant(bWidth);
    BigIsVal(x, true);
    BigIsVal(y, false);
    assert Exp(-1, 1) == -1 * Exp(-1, 0) && Exp(UVal(x), 1) == UVal(x) * Exp(UVal(x), 0);
    var p := Pow2(aWidth);
    UValFromInt(-1, aWidth);
    ModNegative(-1, p);
    ModSmall(p - 1, p);
    Pow2Mono(aWidth + 1, yWidth);
    FromIntCong(p - 1, -1, yWidth);
    ModNegative(-1, Pow2(yWidth));
    ModSmall(p - 1, Pow2(yWidth));
  }

  lemma {:induction false} OddPower(n: nat)
    ensures Exp(3, n) % 2 == 1
  {
    ExpMod(3, 1, n, 2);
    ExpUnit(n);
  }

  /** `3 ** -1`, unsigned base and signed exponent. */
  lemma {:induction false} MixedExponent(aWidth: nat, bWidth: nat, yWidth: nat)
    requires aWidth > 1 && bWidth > 0 && yWidth > 0
    ensures !PowAgrees(aWidth, bWidth, false, true, yWidth)
  {
    var env: Env := name => if name == 0 then 3 else -1;
    PowNodeValue(Input(0, aWidth), Input(1, bWidth), yWidth, false, env);
    MixedExponentBits(aWidth, bWidth, yWidth);
    assert !PowAgreesAt(aWidth, bWidth, false, true, yWidth, env);
  }

  lemma {:induction false} MixedExponentBits(aWidth: nat, bWidth: nat, yWidth: nat)
    requires aWidth > 1 && bWidth > 0 && yWidth > 0
    ensures var x, y := FromInt(3, aWidth), FromInt(-1, bWidth);
            && Defined(ConstPow(x, y, false, true, yWidth))
            && FromInt(PowInt(x, y, false), yWidth) != ConstPow(x, y, false, true, yWidth)
  {
    var x, y := FromInt(3, aWidth), FromInt(-1, bWidth);
    UValFromInt(3, aWidth);
    Pow2Mono(2, aWidth);
    assert Pow2(2) == 4;
    ModSmall(3, Pow2(aWidth));
    SValFromInt(-1, bWidth);
    BigIsVal(x, false);
    BigIsVal(y, true);
    OddPower(UVal(y));
    assert Pow2(0) == 1;
    assert Bit(Exp(3, UVal(y)), 0) && !Bit(0, 0);
    assert FromInt(PowInt(x, y, false), yWidth)[0] == S1;
    assert ConstPow(x, y, false, true, yWidth) == FromInt(0, yWidth);
    assert FromInt(0, yWidth)[0] == S0;
  }
}
