/** Carries: the `(a+b+c)^a^b` lowering of `$alu` and `$lcu` (`kernel/functional.cc`) against
    the ripple loops of `ConstEval` (`kernel/consteval.h`). */
module FunctionalAlu {
  import opened Bits
  import opened Calc
  import opened FunctionalIR
  import opened FunctionalDiv
  import opened FunctionalShift

  // ----- Ripple carries

  predicate Majority(p: bool, q: bool, r: bool) {
    (p && q) || (p && r) || (q && r)
  }

  /** The carry into bit `i` of a sum. */
  predicate Carry(a: Const, b: Const, c: bool, i: nat)
    requires |a| == |b| && i <= |a|
  {
    if i == 0 then c else Majority(a[i - 1] == S1, b[i - 1] == S1, Carry(a, b, c, i - 1))
  }

  function SumBit(a: Const, b: Const, c: bool, i: nat): bool
    requires |a| == |b| && i < |a|
  {
    ((a[i] == S1) != (b[i] == S1)) != Carry(a, b, c, i)
  }

  function RippleSum(a: Const, b: Const, c: bool): (r: Const)
    requires |a| == |b|
    ensures |r| == |a| && Defined(r)
  {
    seq(|a|, i requires 0 <= i < |a| => ToState(SumBit(a, b, c, i)))
  }

  function RippleCarries(a: Const, b: Const, c: bool): (r: Const)
    requires |a| == |b|
    ensures |r| == |a| && Defined(r)
  {
    seq(|a|, i requires 0 <= i < |a| => ToState(Carry(a, b, c, i + 1)))
  }

  function B2I(b: bool): int {
    if b then 1 else 0
  }

  lemma {:induction false} TopBit(c: Const, n: nat)
    requires 0 < n <= |c|
    ensures UVal(c[..n]) == UVal(c[..n - 1]) + if c[n - 1] == S1 then Pow2(n - 1) else 0
    ensures Pow2(n) == 2 * Pow2(n - 1)
  {
    assert c[..n][..n - 1] == c[..n - 1];
  }

  /** The ripple loop adds: sum bits plus the pending carry are the integer sum. */
  lemma {:induction false} RippleAdds(a: Const, b: Const, c: bool, n: nat)
    requires |a| == |b| && n <= |a|
    ensures UVal(a[..n]) + UVal(b[..n]) + B2I(c) ==
            UVal(RippleSum(a, b, c)[..n]) + (if Carry(a, b, c, n) then Pow2(n) else 0)
  {
    if n > 0 {
      RippleAdds(a, b, c, n - 1);
      var s := RippleSum(a, b, c);
      TopBit(a, n);
      TopBit(b, n);
      TopBit(s, n);
      assert s[n - 1] == ToState(SumBit(a, b, c, n - 1));
    }
  }

  /** Any bit of an integer sum is the ripple sum bit. */
  lemma {:induction false} SumBitIsBit(a: Const, b: Const, c: bool, i: nat)
    requires |a| == |b| && i < |a|
    ensures Bit(UVal(a) + UVal(b) + B2I(c), i) == SumBit(a, b, c, i)
  {
    var s := RippleSum(a, b, c);
    RippleAdds(a, b, c, |a|);
    assert a[..|a|] == a && b[..|b|] == b && s[..|a|] == s;
    var n, p := UVal(a) + UVal(b) + B2I(c), Pow2(|a|);
    ModAddMultiple(UVal(s), p, 1);
    ModSmall(UVal(s), p);
    ModIdempotent(n, p);
    BitModEq(n, UVal(s), |a|, i);
    BitOfMag(s, S1, i);
  }

  // ----- ConstEval

  datatype AluResult = AluResult(x: Const, y: Const, co: Const)

  /** `SigSpec::extend_u0` on a constant: a signed signal without bits is padded with `x`. */
  function AluOperand(c: Const, width: nat, signed: bool): (r: Const)
    ensures |r| == width
  {
    if signed && |c| == 0 then AllX(width) else Extend(c, width, signed)
  }

  /** One bit of `X`: undefined as soon as one of its own inputs is. */
  function AluX(a: State, b: State, bi: State): State {
    if IsDef(a) && IsDef(b) && IsDef(bi) then ToState((a == S1) != ((b == S1) != (bi == S1))) else Sx
  }

  predicate XBits(a: Const, b: Const, bi: State, x: Const)
    requires |x| <= |a| == |b|
  {
    forall j :: 0 <= j < |x| ==> x[j] == AluX(a[j], b[j], bi)
  }

  lemma {:induction false} XBitsMore(a: Const, b: Const, bi: State, x: Const)
    requires |x| < |a| == |b| && XBits(a, b, bi, x)
    ensures XBits(a, b, bi, x + [AluX(a[|x|], b[|x|], bi)])
  {
  }

  /** The first bits of `Y` and `CO` are those of the ripple sum, and `carry` is pending. */
  predicate Rippled(a: Const, b: Const, c: bool, carry: bool, y: Const, co: Const)
    requires |a| == |b| && |y| == |co| <= |a|
  {
    && carry == Carry(a, b, c, |y|)
    && forall j :: 0 <= j < |y| ==> y[j] == ToState(SumBit(a, b, c, j)) && co[j] == ToState(Carry(a, b, c, j + 1))
  }

  /** `$alu` in `ConstEval::eval`. Whether `Y` and `CO` are defined depends on all the bits of the
      operands, also on those that the extension then cuts off. */
  method EvalAlu(a: Const, b: Const, ci: State, bi: State, aSigned: bool, bSigned: bool, width: nat)
      returns (r: AluResult)
    ensures |r.x| == |r.y| == |r.co| == width
    ensures forall i :: 0 <= i < width ==>
            r.x[i] == AluX(AluOperand(a, width, aSigned)[i], AluOperand(b, width, bSigned)[i], bi)
    ensures if Defined(a) && Defined(b) && IsDef(ci) && IsDef(bi)
            then
              var a', b' := Extend(a, width, aSigned), NotIfB(Extend(b, width, bSigned), bi == S1);
              r.y == RippleSum(a', b', ci == S1) && r.co == RippleCarries(a', b', ci == S1)
            else r.y == AllX(width) && r.co == AllX(width)
  {
    var anyInputUndef := !(Defined(a) && Defined(b) && IsDef(ci) && IsDef(bi));
    var sigA, sigB := AluOperand(a, width, aSigned), AluOperand(b, width, bSigned);
    ghost var a', b' := Extend(a, width, aSigned), NotIfB(Extend(b, width, bSigned), bi == S1);
    var carry := ci == S1;
    var bInv := bi == S1;
    var x, y, co: Const := [], [], [];
    for i := 0 to width
      invariant |x| == |y| == |co| == i && XBits(sigA, sigB, bi, x)
      invariant if anyInputUndef then y == AllX(i) && co == AllX(i) else Rippled(a', b', ci == S1, carry, y, co)
    {
      XBitsMore(sigA, sigB, bi, x);
      var bitA := sigA[i] == S1;
      var bitB := (sigB[i] == S1) != bInv;
      x := x + [if !(IsDef(sigA[i]) && IsDef(sigB[i]) && IsDef(bi)) then Sx else ToState(bitA != bitB)];
      if anyInputUndef {
        y, co := y + [Sx], co + [Sx];
      } else {
        y, co, carry := AluBit(a', b', ci == S1, bitA, bitB, carry, y, co);
      }
    }
    if !anyInputUndef {
      RippledAll(a', b', ci == S1, carry, y, co);
    }
    r := AluResult(x, y, co);
  }

  lemma {:induction false} RippledAll(a: Const, b: Const, c: bool, carry: bool, y: Const, co: Const)
    requires |a| == |b| == |y| == |co| && Rippled(a, b, c, carry, y, co)
    ensures y == RippleSum(a, b, c) && co == RippleCarries(a, b, c)
  {
  }

  method AluBit(ghost a: Const, ghost b: Const, ghost c: bool, bitA: bool, bitB: bool, carryIn: bool, yIn: Const,
                coIn: Const)
    returns (y: Const, co: Const, carry: bool)
    requires |a| == |b| && |yIn| == |coIn| < |a| && Rippled(a, b, c, carryIn, yIn, coIn)
    requires bitA == (a[|yIn|] == S1) && bitB == (b[|yIn|] == S1)
    ensures |y| == |co| == |yIn| + 1 && Rippled(a, b, c, carry, y, co)
  {
    var bitY := (bitA != bitB) != carryIn;
    carry := (bitA && bitB) || (bitA && carryIn) || (bitB && carryIn);
    y, co := yIn + [ToState(bitY)], coIn + [ToState(carry)];
  }

  /** Every defined bit inverted, or none. */
  function NotIfB(b: Const, inv: bool): (r: Const)
    ensures |r| == |b| && (Defined(b) ==> Defined(r))
  {
    if inv then seq(|b|, i requires 0 <= i < |b| => Invert(b[i])) else b
  }

  /** The lookahead carries of `$lcu`. */
  predicate LcuCarry(p: Const, g: Const, ci: bool, i: nat)
    requires |p| == |g| && i <= |p|
  {
    if i == 0 then ci else g[i - 1] == S1 || (p[i - 1] == S1 && LcuCarry(p, g, ci, i - 1))
  }

  method EvalLcu(p: Const, g: Const, ci: State) returns (co: Const)
    requires |p| == |g|
    ensures co == if Defined(p) && Defined(g) && IsDef(ci)
                  then seq(|p|, i requires 0 <= i < |p| => ToState(LcuCarry(p, g, ci == S1, i + 1))) else AllX(|p|)
  {
    if Defined(p) && Defined(g) && IsDef(ci) {
      co := AllX(|p|);
      var carry := ci == S1;
      for i := 0 to |p|
        invariant |co| == |p| && carry == LcuCarry(p, g, ci == S1, i)
        invariant forall j :: 0 <= j < i ==> co[j] == ToState(LcuCarry(p, g, ci == S1, j + 1))
      {
        carry := g[i] == S1 || (p[i] == S1 && carry);
        co := co[i := ToState(carry)];
      }
    } else {
      co := AllX(|p|);
    }
  }

  // ----- The lowering

  function Xor(x: Const, y: Const): (r: Const)
    requires Defined(x) && Defined(y) && |x| == |y|
    ensures Defined(r) && |r| == |x|
  {
    Meaning2(BitwiseXor, x, y)
  }

  /** `y_extra` of `handle_alu`: the sum, with room for the carry out. */
  function SumExtra(a: Const, b: Const, ci: Const): (r: Const)
    requires Defined(a) && Defined(b) && Defined(ci) && |a| == |b|
    ensures Defined(r) && |r| == |a| + 1
  {
    var w := |a| + 1;
    Meaning2(Add, Meaning2(Add, Extend(a, w, false), Extend(b, w, false)), Extend(ci, w, false))
  }

  function AluC(a: Const, b: Const, ci: Const): AluResult
    requires Defined(a) && Defined(b) && Defined(ci) && |a| == |b|
  {
    var w := |a|;
    AluResult(Xor(a, b), SumExtra(a, b, ci)[..w], CarriesExtra(a, b, ci)[1..w + 1])
  }

  datatype AluNodes = AluNodes(x: Node, y: Node, co: Node)

  function HandleAlu(aIn: Node, bIn: Node, yWidth: nat, isSigned: bool, ci: Node, bi: Node): (r: AluNodes)
    requires Valid(aIn) && Valid(bIn) && yWidth > 0 && Valid(ci) && Valid(bi) && Width(ci) == 1 && Width(bi) == 1
    ensures Valid(r.x) && Valid(r.y) && Valid(r.co) && Width(r.x) == Width(r.y) == Width(r.co) == yWidth
  {
    var a := ExtendTo(aIn, yWidth, isSigned);
    var b := NotIfNode(ExtendTo(bIn, yWidth, isSigned), bi);
    AdderNodes(a, b, ci)
  }

  function AdderNodes(a: Node, b: Node, ci: Node): (r: AluNodes)
    requires Valid(a) && Valid(b) && Valid(ci) && Width(a) == Width(b)
    ensures Valid(r.x) && Valid(r.y) && Valid(r.co) && Width(r.x) == Width(r.y) == Width(r.co) == Width(a)
    ensures forall env ::
            AluResult(Eval(r.x, env), Eval(r.y, env), Eval(r.co, env)) ==
                AluC(Eval(a, env), Eval(b, env), Eval(ci, env))
  {
    var w := Width(a);
    var aExtra, bExtra := ExtendTo(a, w + 1, false), ExtendTo(b, w + 1, false);
    var yExtra := SumNode(aExtra, bExtra, ci);
    var carries := Binary(BitwiseXor, yExtra, Binary(BitwiseXor, aExtra, bExtra));
    AluNodes(Binary(BitwiseXor, a, b), Slice(yExtra, 0, w), Slice(carries, 1, w))
  }

  function SumNode(a: Node, b: Node, ci: Node): (n: Node)
    requires Valid(a) && Valid(b) && Valid(ci) && Width(a) == Width(b)
    ensures Valid(n) && Width(n) == Width(a)
    ensures forall env :: Eval(n, env) ==
                          Meaning2(Add, Meaning2(Add, Eval(a, env), Eval(b, env)),
                              Extend(Eval(ci, env), Width(a), false))
  {
    Binary(Add, Binary(Add, a, b), ExtendTo(ci, Width(a), false))
  }

  // ----- Exactness

  lemma {:induction false} SumExtraValue(a: Const, b: Const, ci: Const)
    requires Defined(a) && Defined(b) && Defined(ci) && |a| == |b| && |ci| == 1
    ensures SumExtra(a, b, ci) == FromInt(UVal(a) + UVal(b) + B2I(ci[0] == S1), |a| + 1)
  {
    var w := |a| + 1;
    var m := Pow2(w);
    ExtendVal(a, w, false);
    ExtendVal(b, w, false);
    ExtendVal(ci, w, false);
    OneBit(ci);
    var s: int, t: int := UVal(a) + UVal(b), UVal(ci);
    UValFromInt(s, w);
    ModIdempotent(s, m);
    SumMod(s % m, s, t, t, m);
    FromIntCong(s % m + t, s + t, w);
  }

  /** The exclusive-or of a sum with its operands is the carry into each bit. */
  lemma {:induction false} AluExact(a: Const, b: Const, ci: Const)
    requires Defined(a) && Defined(b) && Defined(ci) && |a| == |b| && |ci| == 1
    ensures AluC(a, b, ci).y == RippleSum(a, b, ci[0] == S1)
    ensures AluC(a, b, ci).co == RippleCarries(a, b, ci[0] == S1)
  {
    var w, c := |a|, ci[0] == S1;
    var s, cs := SumExtra(a, b, ci), CarriesExtra(a, b, ci);
    forall i | 0 <= i < w ensures s[i] == RippleSum(a, b, c)[i] {
      ExtraBit(a, b, ci, i);
    }
    forall i | 0 <= i < w ensures cs[1..][i] == RippleCarries(a, b, c)[i] {
      ExtraBit(a, b, ci, i + 1);
    }
    assert s[..w] == RippleSum(a, b, c) && cs[1..w + 1] == RippleCarries(a, b, c);
  }

  /** `carries` of `handle_alu`: the sum without the operand bits. */
  function CarriesExtra(a: Const, b: Const, ci: Const): (r: Const)
    requires Defined(a) && Defined(b) && Defined(ci) && |a| == |b|
    ensures |r| == |a| + 1
  {
    Xor(SumExtra(a, b, ci), Xor(Extend(a, |a| + 1, false), Extend(b, |a| + 1, false)))
  }

  /** A bit of the widened sum: the sum bit, and without the operand bits the carry. */
  lemma {:induction false} ExtraBit(a: Const, b: Const, ci: Const, i: nat)
    requires Defined(a) && Defined(b) && Defined(ci) && |a| == |b| && |ci| == 1 && i <= |a|
    ensures i < |a| ==> SumExtra(a, b, ci)[i] == ToState(SumBit(a, b, ci[0] == S1, i))
    ensures CarriesExtra(a, b, ci)[i] == ToState(Carry(a, b, ci[0] == S1, i))
  {
    var w, c := |a|, ci[0] == S1;
    var ax, bx := Extend(a, w + 1, false), Extend(b, w + 1, false);
    SumExtraValue(a, b, ci);
    ExtendVal(a, w + 1, false);
    ExtendVal(b, w + 1, false);
    SumBitIsBit(ax, bx, c, i);
    CarryExtended(a, b, c, i);
  }

  lemma {:induction false} CarryExtended(a: Const, b: Const, c: bool, i: nat)
    requires |a| == |b| && i <= |a|
    ensures Carry(Extend(a, |a| + 1, false), Extend(b, |a| + 1, false), c, i) == Carry(a, b, c, i)
  {
    if i > 0 {
      CarryExtended(a, b, c, i - 1);
    }
  }

  lemma {:induction false} NotBitwise(x: Const, inv: bool)
    requires Defined(x)
    ensures NotIfC(x, inv) == NotIfB(x, inv)
  {
    if inv {
      forall i | 0 <= i < |x| ensures NotC(x)[i] == Invert(x[i]) {
        BitComplement(UVal(x), i);
        BitOfMag(x, S1, i);
      }
    }
  }

  /** The adder nodes over any operand nodes have the ripple sum and carries. */
  lemma {:induction false} AdderExact(a: Node, b: Node, ci: Node, env: Env)
    requires Valid(a) && Valid(b) && Valid(ci) && Width(a) == Width(b) && Width(ci) == 1
    ensures var r := AdderNodes(a, b, ci);
            var x, y, c := Eval(a, env), Eval(b, env), Eval(ci, env)[0] == S1;
            && Eval(r.y, env) == RippleSum(x, y, c)
            && Eval(r.co, env) == RippleCarries(x, y, c)
            && Eval(r.x, env) == Xor(x, y)
  {
    AluExact(Eval(a, env), Eval(b, env), Eval(ci, env));
    var r := AdderNodes(a, b, ci);
    assert AluResult(Eval(r.x, env), Eval(r.y, env), Eval(r.co, env)) ==
           AluC(Eval(a, env), Eval(b, env), Eval(ci, env));
  }

  lemma {:induction false} AluOperands(a: Node, b: Node, yWidth: nat, signed: bool, bi: Node, env: Env)
    requires Valid(a) && Valid(b) && yWidth > 0 && Valid(bi) && Width(bi) == 1
    ensures Eval(ExtendTo(a, yWidth, signed), env) == Extend(Eval(a, env), yWidth, signed)
    ensures Eval(NotIfNode(ExtendTo(b, yWidth, signed), bi), env) ==
            NotIfB(Extend(Eval(b, env), yWidth, signed), Eval(bi, env)[0] == S1)
  {
    NotBitwise(Extend(Eval(b, env), yWidth, signed), Eval(bi, env)[0] == S1);
  }

  lemma {:induction false} AluXBits(x: Const, y: Const, bi: State)
    requires Defined(x) && Defined(y) && IsDef(bi) && |x| == |y|
    ensures forall i :: 0 <= i < |x| ==> Xor(x, NotIfB(y, bi == S1))[i] == AluX(x[i], y[i], bi)
  {
    forall i | 0 <= i < |x| ensures Xor(x, NotIfB(y, bi == S1))[i] == AluX(x[i], y[i], bi) {
      assert IsDef(x[i]) && IsDef(y[i]);
    }
  }

  /** `$alu`: sum, carries and half sum agree with the ripple evaluation, at every width. */
  lemma {:induction false} HandleAluExact(a: Node, b: Node, yWidth: nat, signed: bool, ci: Node, bi: Node, env: Env)
    requires Valid(a) && Valid(b) && yWidth > 0 && Valid(ci) && Valid(bi) && Width(ci) == 1 && Width(bi) == 1
    ensures var r := HandleAlu(a, b, yWidth, signed, ci, bi);
            var x := Extend(Eval(a, env), yWidth, signed);
            var y := NotIfB(Extend(Eval(b, env), yWidth, signed), Eval(bi, env)[0] == S1);
            var c := Eval(ci, env)[0] == S1;
            && Eval(r.y, env) == RippleSum(x, y, c)
            && Eval(r.co, env) == RippleCarries(x, y, c)
            && Eval(r.x, env) == Xor(x, y)
            && forall i :: 0 <= i < yWidth ==>
                 Eval(r.x, env)[i] == AluX(x[i], Extend(Eval(b, env), yWidth, signed)[i], Eval(bi, env)[0])
  {
    AluXBits(Extend(Eval(a, env), yWidth, signed), Extend(Eval(b, env), yWidth, signed), Eval(bi, env)[0]);
    AluOperands(a, b, yWidth, signed, bi, env);
    AdderExact(ExtendTo(a, yWidth, signed), NotIfNode(ExtendTo(b, yWidth, signed), bi), ci, env);
  }

  function HandleLcu(p: Node, g: Node, ci: Node): (n: Node)
    requires Valid(p) && Valid(g) && Valid(ci) && Width(p) == Width(g) && Width(ci) == 1
    ensures Valid(n) && Width(n) == Width(g)
  {
    HandleAlu(g, Binary(BitwiseOr, p, g), Width(g), false, ci, ConstantNode([S0])).co
  }

  lemma {:induction false} LcuIsCarry(p: Const, g: Const, c: bool, i: nat)
    requires Defined(p) && Defined(g) && |p| == |g| && i <= |p|
    ensures Carry(g, Meaning2(BitwiseOr, p, g), c, i) == LcuCarry(p, g, c, i)
  {
    if i > 0 {
      LcuIsCarry(p, g, c, i - 1);
    }
  }

  /** `$lcu`: the adder of generate and propagate-or-generate has the lookahead carries. */
  lemma {:induction false} HandleLcuExact(p: Node, g: Node, ci: Node, env: Env)
    requires Valid(p) && Valid(g) && Valid(ci) && Width(p) == Width(g) && Width(ci) == 1
    ensures forall i :: 0 <= i < Width(p) ==>
              Eval(HandleLcu(p, g, ci), env)[i] ==
                  ToState(LcuCarry(Eval(p, env), Eval(g, env), Eval(ci, env)[0] == S1, i + 1))
  {
    HandleAluExact(g, Binary(BitwiseOr, p, g), Width(g), false, ci, ConstantNode([S0]), env);
    LcuCarries(Eval(p, env), Eval(g, env), Eval(ci, env)[0] == S1);
  }

  lemma {:induction false} LcuCarries(p: Const, g: Const, c: bool)
    requires Defined(p) && Defined(g) && |p| == |g|
    ensures var pg := Meaning2(BitwiseOr, p, g);
            && Extend(g, |g|, false) == g && NotIfB(Extend(pg, |g|, false), false) == pg
            && forall i :: 0 <= i < |p| ==> RippleCarries(g, pg, c)[i] == ToState(LcuCarry(p, g, c, i + 1))
  {
    var pg := Meaning2(BitwiseOr, p, g);
    forall i | 0 <= i < |p| ensures RippleCarries(g, pg, c)[i] == ToState(LcuCarry(p, g, c, i + 1)) {
      LcuIsCarry(p, g, c, i + 1);
    }
  }
}
