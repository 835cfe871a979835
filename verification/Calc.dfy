/** The constant evaluator of `kernel/calc.cc`: four-state vectors in, four-state vectors out.
    Functions give the value of each operation; the loops of the source appear as
    methods proved to compute those functions. */
module Calc {
  import opened Bits

  // ----- Conversions

  /** The integer `const2big` reads: undefined bits count as zero in the magnitude it builds. */
  function Big(c: Const, signed: bool): int {
    if signed && IsNeg(c) then -(Mag(c[..|c| - 1], S0) + 1) else Mag(c, S1)
  }

  lemma {:induction false} MagComplement(c: Const)
    requires Defined(c)
    ensures Mag(c, S0) + Mag(c, S1) == Pow2(|c|) - 1
  {
    if |c| > 0 {
      MagComplement(c[..|c| - 1]);
    }
  }

  /** On a defined vector `const2big` reads the two's complement or unsigned value. */
  lemma {:induction false} BigIsVal(c: Const, signed: bool)
    requires Defined(c)
    ensures Big(c, signed) == Val(c, signed)
  {
    if signed && IsNeg(c) {
      MagComplement(c[..|c| - 1]);
    }
  }

  method Const2Big(c: Const, asSigned: bool, undefIn: int) returns (v: int, undef: int)
    requires undefIn >= -1
    ensures v == Big(c, asSigned)
    ensures undefIn >= 0 ==> undef == undefIn
    ensures undefIn < 0 ==> if undef < 0 then undef == -1 && Defined(c)
                            else undef < |c| && !IsDef(c[undef]) && Defined(c[..undef])
  {
    var negative := asSigned && |c| > 0 && c[|c| - 1] == S1;
    var numBits := if negative then |c| - 1 else |c|;
    var invSignBit := if negative then S0 else S1;
    var mag := 0;
    undef := undefIn;
    for i := 0 to numBits
      invariant mag == Mag(c[..i], invSignBit)
      invariant undefIn >= 0 ==> undef == undefIn
      invariant undefIn < 0 ==> if undef < 0 then undef == -1 && Defined(c[..i])
                                else undef < i && !IsDef(c[undef]) && Defined(c[..undef])
    {
      assert c[..i + 1][..i] == c[..i];
      if IsDef(c[i]) {
        if c[i] == invSignBit {
          mag := mag + Pow2(i);
        }
      } else if undef < 0 {
        undef := i;
      }
    }
    assert !negative ==> c[..numBits] == c;
    v := if negative then -(mag + 1) else mag;
  }

  function AllX(n: nat): Const {
    seq(n, _ => Sx)
  }

  lemma {:induction false} BitComplement(n: int, i: nat)
    ensures Bit(-1 - n, i) == !Bit(n, i)
  {
    var p := Pow2(i);
    assert -1 - n == (-1 - n / p) * p + (p - 1 - n % p) by {
      assert (-1 - n / p) * p == -p - n / p * p;
    }
    DivModUnique(-1 - n, p, -1 - n / p, p - 1 - n % p);
  }

  method Big2Const(val: int, len: nat, undefPos: int) returns (r: Const)
    ensures r == if undefPos >= 0 then AllX(len) else FromInt(val, len)
  {
    if undefPos >= 0 {
      return AllX(len);
    }
    var mag := if val < 0 then -val else val;
    r := seq(len, _ => S0);
    if mag != 0 {
      if val < 0 {
        mag := mag - 1;
        for i := 0 to len
          invariant |r| == len
          invariant forall j :: 0 <= j < i ==> r[j] == FromInt(val, len)[j]
        {
          BitComplement(mag, i);
          r := r[i := if Bit(mag, i) then S0 else S1];
        }
      } else {
        for i := 0 to len
          invariant |r| == len
          invariant forall j :: 0 <= j < i ==> r[j] == FromInt(val, len)[j]
        {
          r := r[i := if Bit(mag, i) then S1 else S0];
        }
      }
    } else {
      forall i | 0 <= i < len
        ensures FromInt(0, len)[i] == S0
      {
        ModSmall(0, Pow2(i));
      }
    }
  }

  method ExtendU0(arg: Const, width: nat, isSigned: bool) returns (r: Const)
    ensures r == Extend(arg, width, isSigned)
  {
    var padding := S0;
    if |arg| > 0 && isSigned {
      padding := arg[|arg| - 1];
    }
    r := arg;
    while |r| < width
      invariant |r| <= Max(width, |arg|)
      invariant |r| >= |arg| && r == Extend(arg, |r|, isSigned)
    {
      r := r + [padding];
    }
    r := r[..width];
  }

  // ----- Bitwise and reduction operators

  function LogicAnd(a: State, b: State): State {
    if a == S0 then S0
    else if b == S0 then S0
    else if a != S1 then Sx
    else if b != S1 then Sx
    else S1
  }

  function LogicOr(a: State, b: State): State {
    if a == S1 then S1
    else if b == S1 then S1
    else if a != S0 then Sx
    else if b != S0 then Sx
    else S0
  }

  function LogicXor(a: State, b: State): State {
    if !IsDef(a) then Sx
    else if !IsDef(b) then Sx
    else if a != b then S1 else S0
  }

  function LogicXnor(a: State, b: State): State {
    if !IsDef(a) then Sx
    else if !IsDef(b) then Sx
    else if a == b then S1 else S0
  }

  function Invert(s: State): State {
    match s
    case S0 => S1
    case S1 => S0
    case _ => s
  }

  function ConstNot(a: Const, signedA: bool, len: nat): Const {
    var e := Extend(a, len, signedA);
    seq(len, i requires 0 <= i < len => if IsDef(e[i]) then Invert(e[i]) else Sx)
  }

  function LogicWrapper(f: (State, State) -> State, a: Const, b: Const, signedA: bool, signedB: bool, len: nat): Const {
    seq(len, i requires 0 <= i => f(ExtBit(a, signedA, i), ExtBit(b, signedB, i)))
  }

  function Fold(f: (State, State) -> State, init: State, a: Const): State {
    if |a| == 0 then init else f(Fold(f, init, a[..|a| - 1]), a[|a| - 1])
  }

  /** A one-bit result, padded with zeros up to the requested length. */
  function Flag(s: State, len: nat): (r: Const)
    ensures |r| == Max(1, len)
  {
    [s] + seq(Max(0, len - 1), _ => S0)
  }

  method PadFlag(s: State, len: nat) returns (r: Const)
    ensures r == Flag(s, len)
  {
    r := [s];
    while |r| < len
      invariant 1 <= |r| <= Max(1, len) && r == Flag(s, |r|)
    {
      r := r + [S0];
    }
  }

  method LogicReduceWrapper(init: State, f: (State, State) -> State, a: Const, len: nat) returns (r: Const)
    ensures r == Flag(Fold(f, init, a), len)
  {
    var temp := init;
    for i := 0 to |a|
      invariant temp == Fold(f, init, a[..i])
    {
      assert a[..i + 1][..i] == a[..i];
      temp := f(temp, a[i]);
    }
    assert a[..|a|] == a;
    r := PadFlag(temp, len);
  }

  function ReduceXnor(a: Const, len: nat): Const {
    var s := Fold(LogicXor, S0, a);
    Flag(Invert(s), len)
  }

  // ----- Logical operators

  /** The truth value of a vector: undefined unless some bit settles it. */
  function Truth(a: Const, signed: bool): State {
    if Big(a, signed) != 0 then S1 else if Defined(a) then S0 else Sx
  }

  function ConstLogicNot(a: Const, signedA: bool, len: nat): Const {
    Flag(Invert(Truth(a, signedA)), len)
  }

  function ConstLogicAnd(a: Const, b: Const, signedA: bool, signedB: bool, len: nat): Const {
    Flag(LogicAnd(Truth(a, signedA), Truth(b, signedB)), len)
  }

  function ConstLogicOr(a: Const, b: Const, signedA: bool, signedB: bool, len: nat): Const {
    Flag(LogicOr(Truth(a, signedA), Truth(b, signedB)), len)
  }

  // ----- Shifts

  /** Result bit `i` of a shift by `offset`: source position, sign fill or vacant bit. */
  function ShiftBit(a: Const, offset: int, signExt: bool, vacant: State, i: nat): State {
    var pos := i + offset;
    if pos < 0 then vacant
    else if pos >= |a| then (if signExt && |a| > 0 then a[|a| - 1] else vacant)
    else a[pos]
  }

  function ShiftWorker(a: Const, b: Const, signExt: bool, signedB: bool, direction: int, len: nat,
                       vacant: State): (r: Const)
    ensures |r| == len
  {
    if !Defined(b) then AllX(len)
    else seq(len, i requires 0 <= i => ShiftBit(a, Big(b, signedB) * direction, signExt, vacant, i))
  }

  /** `const_shift_worker`; reading the sign of an empty operand is undefined in the source. */
  method ConstShiftWorker(a: Const, b: Const, signExt: bool, signedB: bool, direction: int, resultLen: int,
                          vacant: State)
      returns (r: Const)
    requires signExt ==> |a| > 0
    ensures r == ShiftWorker(a, b, signExt, signedB, direction, if resultLen < 0 then |a| else resultLen, vacant)
  {
    var v, undef := Const2Big(b, signedB, -1);
    var offset := v * direction;
    var len: nat := if resultLen < 0 then |a| else resultLen;
    r := AllX(len);
    if undef >= 0 {
      return;
    }
    for i := 0 to len
      invariant |r| == len
      invariant forall j :: 0 <= j < i ==> r[j] == ShiftBit(a, offset, signExt, vacant, j)
    {
      var pos := i + offset;
      if pos < 0 {
        r := r[i := vacant];
      } else if pos >= |a| {
        r := r[i := if signExt then a[|a| - 1] else vacant];
      } else {
        r := r[i := a[pos]];
      }
    }
  }

  function ConstShl(a: Const, b: Const, signedA: bool, len: nat): (r: Const) ensures |r| == len {
    ShiftWorker(Extend(a, len, signedA), b, false, false, -1, len, S0)
  }

  function ConstShr(a: Const, b: Const, signedA: bool, len: nat): (r: Const) ensures |r| == len {
    ShiftWorker(Extend(a, Max(len, |a|), signedA), b, false, false, 1, len, S0)
  }

  function ConstSshl(a: Const, b: Const, signedA: bool, len: nat): (r: Const) ensures |r| == len {
    ShiftWorker(a, b, signedA, false, -1, len, S0)
  }

  function ConstSshr(a: Const, b: Const, signedA: bool, len: nat): (r: Const) ensures |r| == len {
    ShiftWorker(a, b, signedA, false, 1, len, S0)
  }

  function ConstShift(a: Const, b: Const, signedA: bool, signedB: bool, len: nat): (r: Const) ensures |r| == len {
    ShiftWorker(Extend(a, Max(len, |a|), signedA), b, false, signedB, 1, len, S0)
  }

  function ConstShiftx(a: Const, b: Const, signedB: bool, len: nat): (r: Const) ensures |r| == len {
    ShiftWorker(a, b, false, signedB, 1, len, Sx)
  }

  // ----- Comparisons

  function CompareFlag(a: Const, b: Const, holds: bool, len: nat): Const {
    Flag(if Defined(a) && Defined(b) then ToState(holds) else Sx, len)
  }

  function ConstLt(a: Const, b: Const, signedA: bool, signedB: bool, len: nat): Const {
    CompareFlag(a, b, Big(a, signedA) < Big(b, signedB), len)
  }

  function ConstLe(a: Const, b: Const, signedA: bool, signedB: bool, len: nat): Const {
    CompareFlag(a, b, Big(a, signedA) <= Big(b, signedB), len)
  }

  function ConstGe(a: Const, b: Const, signedA: bool, signedB: bool, len: nat): Const {
    CompareFlag(a, b, Big(a, signedA) >= Big(b, signedB), len)
  }

  function ConstGt(a: Const, b: Const, signedA: bool, signedB: bool, len: nat): Const {
    CompareFlag(a, b, Big(a, signedA) > Big(b, signedB), len)
  }

  predicate Clash(s: State, t: State) {
    (s == S0 && t == S1) || (s == S1 && t == S0)
  }

  /** Equality of two vectors of one width: settled by a clash, else undefined if any bit is. */
  function Matched(a: Const, b: Const): State
    requires |a| == |b|
  {
    if exists i :: 0 <= i < |a| && Clash(a[i], b[i]) then S0
    else if Defined(a) && Defined(b) then S1 else Sx
  }

  function ConstEq(a: Const, b: Const, signedA: bool, signedB: bool, len: nat): (r: Const)
    requires len > 0
    ensures |r| == len
  {
    var width := Max(|a|, |b|);
    Flag(Matched(Extend(a, width, signedA && signedB), Extend(b, width, signedA && signedB)), len)
  }

  method ConstEqLoop(a: Const, b: Const, signedA: bool, signedB: bool, len: nat) returns (r: Const)
    requires len > 0
    ensures r == ConstEq(a, b, signedA, signedB, len)
  {
    r := seq(len, _ => S0);
    var width := Max(|a|, |b|);
    var x := ExtendU0(a, width, signedA && signedB);
    var y := ExtendU0(b, width, signedA && signedB);
    var matched := S1;
    for i := 0 to |x|
      invariant forall j :: 0 <= j < i ==> !Clash(x[j], y[j])
      invariant matched == if Defined(x[..i]) && Defined(y[..i]) then S1 else Sx
    {
      if Clash(x[i], y[i]) {
        assert exists j :: 0 <= j < |x| && Clash(x[j], y[j]);
        return;
      }
      if !IsDef(x[i]) || !IsDef(y[i]) {
        matched := Sx;
      }
    }
    assert x[..|x|] == x && y[..|y|] == y;
    r := r[0 := matched];
  }

  function ConstNe(a: Const, b: Const, signedA: bool, signedB: bool, len: nat): Const
    requires len > 0
  {
    var r := ConstEq(a, b, signedA, signedB, len);
    r[0 := Invert(r[0])]
  }

  // ----- Arithmetic

  function Arith(a: Const, b: Const, y: int, len: nat): Const {
    if Defined(a) && Defined(b) then FromInt(y, len) else AllX(len)
  }

  function ConstAdd(a: Const, b: Const, signedA: bool, signedB: bool, len: nat): Const {
    Arith(a, b, Big(a, signedA) + Big(b, signedB), len)
  }

  function ConstSub(a: Const, b: Const, signedA: bool, signedB: bool, len: nat): Const {
    Arith(a, b, Big(a, signedA) - Big(b, signedB), len)
  }

  function ConstMul(a: Const, b: Const, signedA: bool, signedB: bool, len: nat): Const {
    Arith(a, b, Big(a, signedA) * Big(b, signedB), len)
  }

  function ConstNeg(a: Const, signedA: bool, len: nat): Const {
    ConstSub([S0], a, true, signedA, len)
  }

  function Abs(n: int): nat {
    if n < 0 then -n else n
  }

  function NegIf(n: int, neg: bool): int {
    if neg then -n else n
  }

  /** The quotient `const_div` builds from magnitudes. */
  function TruncDiv(a: int, b: int): int
    requires b != 0
  {
    NegIf(Abs(a) / Abs(b), (a < 0) != (b < 0))
  }

  function TruncMod(a: int, b: int): int
    requires b != 0
  {
    NegIf(Abs(a) % Abs(b), a < 0)
  }

  function FloorDiv(a: int, b: int): int
    requires b != 0
  {
    if (a < 0) == (b < 0) || a == 0 then Abs(a) / Abs(b) else -((Abs(a) + Abs(b) - 1) / Abs(b))
  }

  function FloorMod(a: int, b: int): int
    requires b != 0
  {
    var truncated := TruncMod(a, b);
    if truncated == 0 || (a < 0) == (b < 0) then truncated
    else if b < 0 then truncated - Abs(b) else truncated + Abs(b)
  }

  /** Section 11.4.3 of IEEE 1800-2017: the quotient truncates toward zero and the
      remainder takes the sign of the first operand. */
  lemma {:induction false} TruncDivMod(a: int, b: int)
    requires b != 0
    ensures a == TruncDiv(a, b) * b + TruncMod(a, b)
    ensures Abs(TruncMod(a, b)) < Abs(b)
    ensures TruncMod(a, b) == 0 || (TruncMod(a, b) < 0) == (a < 0)
  {
    var q, r := Abs(a) / Abs(b), Abs(a) % Abs(b);
    assert Abs(a) == q * Abs(b) + r;
    assert q * Abs(b) == NegIf(q * b, b < 0);
    assert TruncDiv(a, b) * b == NegIf(q * b, (a < 0) != (b < 0));
  }

  /** The flooring pair: the remainder takes the sign of the divisor. */
  lemma {:induction false} FloorDivMod(a: int, b: int)
    requires b != 0
    ensures a == FloorDiv(a, b) * b + FloorMod(a, b)
    ensures Abs(FloorMod(a, b)) < Abs(b)
    ensures FloorMod(a, b) == 0 || (FloorMod(a, b) < 0) == (b < 0)
  {
    TruncDivMod(a, b);
    if (a < 0) == (b < 0) || a == 0 {
      if a == 0 {
        ModSmall(0, Abs(b));
      }
    } else {
      RoundUp(Abs(a), Abs(b));
      if TruncMod(a, b) != 0 {
        assert FloorDiv(a, b) == TruncDiv(a, b) - 1;
        assert (TruncDiv(a, b) - 1) * b == TruncDiv(a, b) * b - b;
      }
    }
  }

  lemma {:induction false} RoundUp(p: nat, m: nat)
    requires m > 0
    ensures (p + m - 1) / m == p / m + if p % m == 0 then 0 else 1
  {
    var q, r := p / m, p % m;
    if r == 0 {
      DivModUnique(p + m - 1, m, q, m - 1);
    } else {
      assert (q + 1) * m == q * m + m;
      DivModUnique(p + m - 1, m, q + 1, r - 1);
    }
  }

  function DivResult(a: Const, b: Const, divisor: int, y: int, len: nat): Const {
    if divisor == 0 then AllX(len) else Arith(a, b, y, len)
  }

  function ConstDiv(a: Const, b: Const, signedA: bool, signedB: bool, len: nat): Const {
    var x, y := Big(a, signedA), Big(b, signedB);
    DivResult(a, b, y, if y == 0 then 0 else TruncDiv(x, y), len)
  }

  function ConstMod(a: Const, b: Const, signedA: bool, signedB: bool, len: nat): Const {
    var x, y := Big(a, signedA), Big(b, signedB);
    DivResult(a, b, y, if y == 0 then 0 else TruncMod(x, y), len)
  }

  function ConstDivFloor(a: Const, b: Const, signedA: bool, signedB: bool, len: nat): Const {
    var x, y := Big(a, signedA), Big(b, signedB);
    DivResult(a, b, y, if y == 0 then 0 else FloorDiv(x, y), len)
  }

  function ConstModFloor(a: Const, b: Const, signedA: bool, signedB: bool, len: nat): Const {
    var x, y := Big(a, signedA), Big(b, signedB);
    DivResult(a, b, y, if y == 0 then 0 else FloorMod(x, y), len)
  }

  // ----- Multiplexers

  function MuxBit(s: State, t: State): State {
    if s == t then s else Sx
  }

  function ConstMux(a: Const, b: Const, s: Const): Const
    requires |a| == |b| && |s| > 0
  {
    if s[0] == S0 then a
    else if s[0] == S1 then b
    else seq(|a|, i requires 0 <= i < |a| => MuxBit(a[i], b[i]))
  }

  /** One selection step of `const_bmux`, on the most significant select bit. */
  function BmuxStep(t: Const, sel: State): Const {
    var h := |t| / 2;
    if sel == S0 then t[..h]
    else if sel == S1 then t[h..]
    else seq(h, j requires 0 <= j < h => MuxBit(t[j], t[j + h]))
  }

  function ConstBmux(a: Const, s: Const): Const
    decreases |s|
  {
    if |s| == 0 then a else ConstBmux(BmuxStep(a, s[|s| - 1]), s[..|s| - 1])
  }

  method ConstBmuxLoop(a: Const, s: Const) returns (t: Const)
    ensures t == ConstBmux(a, s)
  {
    t := a;
    assert s[..|s|] == s;
    var i := |s| - 1;
    while i >= 0
      invariant -1 <= i < |s|
      invariant ConstBmux(t, s[..i + 1]) == ConstBmux(a, s)
    {
      assert s[..i + 1][..i] == s[..i];
      t := BmuxHalve(t, s[i]);
      i := i - 1;
    }
  }

  method BmuxHalve(t: Const, s: State) returns (newT: Const)
    ensures newT == BmuxStep(t, s)
  {
    var h := |t| / 2;
    newT := [];
    if s == S0 {
      newT := t[..h];
    } else if s == S1 {
      newT := t[h..];
    } else {
      for j := 0 to h
        invariant |newT| == j && forall k :: 0 <= k < j ==> newT[k] == MuxBit(t[k], t[k + h])
      {
        newT := newT + [if t[j] == t[j + h] then t[j] else Sx];
      }
    }
  }

  predicate SelectsNot(s: Const, n: nat) {
    exists j :: 0 <= j < |s| && s[j] == (if Bit(n, j) then S0 else S1)
  }

  function DemuxWord(a: Const, s: Const, n: nat): (r: Const)
    ensures |r| == |a|
  {
    if SelectsNot(s, n) then seq(|a|, _ => S0)
    else if !Defined(s) then seq(|a|, j requires 0 <= j < |a| => if a[j] == S0 then S0 else Sx)
    else a
  }

  function DemuxWords(a: Const, s: Const, n: nat): Const {
    if n == 0 then [] else DemuxWords(a, s, n - 1) + DemuxWord(a, s, n - 1)
  }

  function ConstDemux(a: Const, s: Const): Const {
    DemuxWords(a, s, Pow2(|s|))
  }

  method ConstDemuxLoop(a: Const, s: Const) returns (res: Const)
    ensures res == ConstDemux(a, s)
  {
    res := [];
    for i := 0 to Pow2(|s|)
      invariant res == DemuxWords(a, s, i)
    {
      var ne, x := false, false;
      for j := 0 to |s|
        invariant ne <==> exists k :: 0 <= k < j && s[k] == (if Bit(i, k) then S0 else S1)
        invariant ne || (x <==> !Defined(s[..j]))
      {
        if s[j] == (if Bit(i, j) then S0 else S1) {
          ne := true;
        } else if !IsDef(s[j]) {
          x := true;
        }
      }
      assert s[..|s|] == s;
      var word: Const := [];
      for j := 0 to |a|
        invariant |word| == j
        invariant forall k :: 0 <= k < j ==>
          word[k] == (if ne then S0 else if x then (if a[k] == S0 then S0 else Sx) else a[k])
      {
        word := word + [if ne then S0 else if x then (if a[j] == S0 then S0 else Sx) else a[j]];
      }
      assert word == DemuxWord(a, s, i);
      res := res + word;
    }
  }

  predicate FullyZero(s: Const) {
    forall i :: 0 <= i < |s| ==> s[i] == S0
  }

  predicate OneHotAt(s: Const, k: nat) {
    k < |s| && s[k] == S1 && forall i :: 0 <= i < |s| && i != k ==> s[i] == S0
  }

  predicate OneHot(s: Const) {
    exists k :: 0 <= k < |s| && OneHotAt(s, k)
  }

  method IsOneHot(s: Const) returns (found: bool)
    ensures found <==> OneHot(s)
  {
    found := false;
    ghost var k := 0;
    for i := 0 to |s|
      invariant if found then k < i && OneHotAt(s[..i], k) else FullyZero(s[..i])
    {
      if !IsDef(s[i]) || (s[i] == S1 && found) {
        NotOneHot(s, i);
        return false;
      }
      if s[i] == S1 {
        found, k := true, i;
      }
    }
    assert s[..|s|] == s;
  }

  /** An undefined bit, or a second one, after the bits seen so far. */
  lemma {:induction false} NotOneHot(s: Const, i: nat)
    requires i < |s| && (!IsDef(s[i]) || (s[i] == S1 && !FullyZero(s[..i])))
    ensures !OneHot(s)
  {
    if IsDef(s[i]) {
      var j :| 0 <= j < i && s[..i][j] != S0;
      assert s[j] != S0;
    }
  }

  /** The position of the lowest one. */
  function HotIndex(s: Const): (k: nat)
    ensures k <= |s| && (k < |s| ==> s[k] == S1) && forall i :: 0 <= i < k ==> s[i] != S1
  {
    if |s| == 0 then 0
    else if s[0] == S1 then 0
    else
      var k := HotIndex(s[1..]);
      assert forall i :: 0 < i < 1 + k ==> s[i] == s[1..][i - 1];
      1 + k
  }

  /** `b` holds one word per select bit. */
  function ConstPmux(a: Const, b: Const, s: Const): (r: Const)
    requires |b| == Off(|a|, |s|)
    ensures |r| == |a|
  {
    if FullyZero(s) then a
    else if OneHot(s) then HotWord(a, b, s)
    else AllX(|a|)
  }

  function HotWord(a: Const, b: Const, s: Const): (r: Const)
    requires |b| == Off(|a|, |s|) && OneHot(s)
    ensures |r| == |a|
  {
    WordOf(|a|, b, |s|, HotIndex(s))
  }

  method ConstPmuxLoop(a: Const, b: Const, s: Const) returns (r: Const)
    requires |b| == Off(|a|, |s|)
    ensures r == ConstPmux(a, b, s)
  {
    if FullyZero(s) {
      return a;
    }
    var oneHot := IsOneHot(s);
    if !oneHot {
      return AllX(|a|);
    }
    for i := 0 to |s|
      invariant forall j :: 0 <= j < i ==> s[j] != S1
    {
      if s[i] == S1 {
        return WordOf(|a|, b, |s|, i);
      }
    }
    assert false;
  }

  function BwmuxBit(a: State, b: State, s: State): State {
    if s != Sx || a == b then (if s == S1 then b else a) else Sx
  }

  function ConstBwmux(a: Const, b: Const, s: Const): Const
    requires |a| == |b| == |s|
  {
    seq(|a|, i requires 0 <= i < |a| => BwmuxBit(a[i], b[i], s[i]))
  }

  method ConstBwmuxLoop(a: Const, b: Const, s: Const) returns (r: Const)
    requires |a| == |b| == |s|
    ensures r == ConstBwmux(a, b, s)
  {
    r := AllX(|a|);
    for i := 0 to |a|
      invariant |r| == |a| && forall j :: 0 <= j < |a| ==> r[j] == if j < i then BwmuxBit(a[j], b[j], s[j]) else Sx
    {
      if s[i] != Sx || a[i] == b[i] {
        r := r[i := if s[i] == S1 then b[i] else a[i]];
      }
    }
  }
}
