/** Undefined bits in the constant evaluator (`kernel/calc.cc`): a result bit that is computed as 0 or 1
    has that value however the undefined operand bits are filled in. */
module XSound {
  import opened Bits
  import opened Calc
  import opened FunctionalPow

  // ----- Completions

  /** `d` is `c` with every undefined bit replaced by 0 or 1. */
  predicate Completes(c: Const, d: Const) {
    |d| == |c| && Defined(d) && forall i :: 0 <= i < |c| && IsDef(c[i]) ==> d[i] == c[i]
  }

  predicate KeepsBit(s: State, t: State) {
    IsDef(s) ==> t == s
  }

  /** Every defined bit of `r` has the same value in `r'`. */
  predicate Keeps(r: Const, r': Const) {
    |r'| == |r| && forall i :: 0 <= i < |r| ==> KeepsBit(r[i], r'[i])
  }

  /** A defined vector is its only completion. */
  lemma {:induction false} CompletesSelf(c: Const, d: Const)
    requires Completes(c, d) && Defined(c)
    ensures d == c
  {
  }

  lemma {:induction false} CompletesExtended(c: Const, d: Const, w: nat, signed: bool)
    requires Completes(c, d)
    ensures Completes(Extend(c, w, signed), Extend(d, w, signed))
  {
  }

  lemma {:induction false} KeepsAllX(n: nat, r: Const)
    requires |r| == n
    ensures Keeps(AllX(n), r)
  {
  }

  lemma {:induction false} KeepsFlag(s: State, t: State, len: nat)
    requires KeepsBit(s, t)
    ensures Keeps(Flag(s, len), Flag(t, len))
  {
  }

  // ----- Bitwise, reduction and logical operations

  ghost predicate Monotone(f: (State, State) -> State) {
    forall s, t, s', t' :: KeepsBit(s, s') && KeepsBit(t, t') ==> KeepsBit(f(s, t), f(s', t'))
  }

  lemma {:induction false} LogicMonotone()
    ensures Monotone(LogicAnd) && Monotone(LogicOr) && Monotone(LogicXor) && Monotone(LogicXnor)
  {
  }

  lemma {:induction false} BitwiseKeeps(f: (State, State) -> State, a: Const, b: Const, a': Const, b': Const, sa: bool,
                                        sb: bool, len: nat)
    requires Monotone(f) && Completes(a, a') && Completes(b, b')
    ensures Keeps(LogicWrapper(f, a, b, sa, sb, len), LogicWrapper(f, a', b', sa, sb, len))
  {
    CompletesExtended(a, a', len, sa);
    CompletesExtended(b, b', len, sb);
    forall i | 0 <= i < len
        ensures KeepsBit(LogicWrapper(f, a, b, sa, sb, len)[i], LogicWrapper(f, a', b', sa, sb, len)[i]) {
      assert Extend(a, len, sa)[i] == ExtBit(a, sa, i) && Extend(b, len, sb)[i] == ExtBit(b, sb, i);
      assert Extend(a', len, sa)[i] == ExtBit(a', sa, i) && Extend(b', len, sb)[i] == ExtBit(b', sb, i);
      assert KeepsBit(ExtBit(a, sa, i), ExtBit(a', sa, i)) && KeepsBit(ExtBit(b, sb, i), ExtBit(b', sb, i));
    }
  }

  lemma {:induction false} NotKeeps(a: Const, a': Const, sa: bool, len: nat)
    requires Completes(a, a')
    ensures Keeps(ConstNot(a, sa, len), ConstNot(a', sa, len))
  {
    CompletesExtended(a, a', len, sa);
  }

  lemma {:induction false} FoldKeeps(f: (State, State) -> State, init: State, a: Const, a': Const)
    requires Monotone(f) && Completes(a, a')
    ensures KeepsBit(Fold(f, init, a), Fold(f, init, a'))
  {
    if |a| > 0 {
      var n := |a| - 1;
      FoldKeeps(f, init, a[..n], a'[..n]);
      assert KeepsBit(a[n], a'[n]);
    }
  }

  lemma {:induction false} InvertKeeps(s: State, t: State)
    requires KeepsBit(s, t)
    ensures KeepsBit(Invert(s), Invert(t))
  {
  }

  /** Filling in bits never loses a one. */
  lemma {:induction false} MagGrows(c: Const, d: Const)
    requires Completes(c, d)
    ensures Mag(c, S1) <= Mag(d, S1)
  {
    if |c| > 0 {
      var n := |c| - 1;
      MagGrows(c[..n], d[..n]);
    }
  }

  /** A truth value that one defined bit settles stays settled. */
  lemma {:induction false} TruthKeeps(a: Const, a': Const, signed: bool)
    requires Completes(a, a')
    ensures KeepsBit(Truth(a, signed), Truth(a', signed))
  {
    MagGrows(a, a');
    if Defined(a) {
      CompletesSelf(a, a');
    }
  }

  // ----- Shifts

  lemma {:induction false} ShiftKeeps(a: Const, b: Const, a': Const, b': Const, signExt: bool, sb: bool, direction: int,
                                      len: nat, vacant: State)
    requires Completes(a, a') && Completes(b, b')
    ensures Keeps(ShiftWorker(a, b, signExt, sb, direction, len, vacant),
            ShiftWorker(a', b', signExt, sb, direction, len, vacant))
  {
    if Defined(b) {
      CompletesSelf(b, b');
      var offset := Big(b, sb) * direction;
      forall i | 0 <= i < len
          ensures KeepsBit(ShiftBit(a, offset, signExt, vacant, i), ShiftBit(a', offset, signExt, vacant, i)) {
        ShiftBitKeeps(a, a', offset, signExt, vacant, i);
      }
    } else {
      KeepsAllX(len, ShiftWorker(a', b', signExt, sb, direction, len, vacant));
    }
  }

  lemma {:induction false} ShiftBitKeeps(a: Const, a': Const, offset: int, signExt: bool, vacant: State, i: nat)
    requires Completes(a, a')
    ensures KeepsBit(ShiftBit(a, offset, signExt, vacant, i), ShiftBit(a', offset, signExt, vacant, i))
  {
  }

  // ----- Comparisons

  lemma {:induction false} CompareKeeps(a: Const, b: Const, a': Const, b': Const, p: bool, p': bool, len: nat)
    requires Completes(a, a') && Completes(b, b') && (a' == a && b' == b ==> p' == p)
    ensures Keeps(CompareFlag(a, b, p, len), CompareFlag(a', b', p', len))
  {
    if Defined(a) && Defined(b) {
      CompletesSelf(a, a');
      CompletesSelf(b, b');
    }
    KeepsFlag(if Defined(a) && Defined(b) then ToState(p) else Sx, ToState(p'), len);
  }

  /** A clash of two defined bits is a clash in every completion. */
  lemma {:induction false} MatchedKeeps(a: Const, b: Const, a': Const, b': Const)
    requires |a| == |b| && Completes(a, a') && Completes(b, b')
    ensures KeepsBit(Matched(a, b), Matched(a', b'))
  {
    if i :| 0 <= i < |a| && Clash(a[i], b[i]) {
      assert Clash(a'[i], b'[i]);
    } else if Defined(a) && Defined(b) {
      CompletesSelf(a, a');
      CompletesSelf(b, b');
    }
  }

  lemma {:induction false} EqKeeps(a: Const, b: Const, a': Const, b': Const, sa: bool, sb: bool, len: nat)
    requires len > 0 && Completes(a, a') && Completes(b, b')
    ensures Keeps(ConstEq(a, b, sa, sb, len), ConstEq(a', b', sa, sb, len))
    ensures Keeps(ConstNe(a, b, sa, sb, len), ConstNe(a', b', sa, sb, len))
  {
    var w, s := Max(|a|, |b|), sa && sb;
    CompletesExtended(a, a', w, s);
    CompletesExtended(b, b', w, s);
    MatchedKeeps(Extend(a, w, s), Extend(b, w, s), Extend(a', w, s), Extend(b', w, s));
    KeepsFlag(Matched(Extend(a, w, s), Extend(b, w, s)), Matched(Extend(a', w, s), Extend(b', w, s)), len);
    NeKeeps(ConstEq(a, b, sa, sb, len), ConstEq(a', b', sa, sb, len));
  }

  lemma {:induction false} NeKeeps(r: Const, r': Const)
    requires Keeps(r, r') && |r| > 0
    ensures Keeps(r[0 := Invert(r[0])], r'[0 := Invert(r'[0])])
  {
    InvertKeeps(r[0], r'[0]);
  }

  // ----- Arithmetic

  lemma {:induction false} ArithKeeps(a: Const, b: Const, a': Const, b': Const, y: int, y': int, len: nat)
    requires Completes(a, a') && Completes(b, b') && (a' == a && b' == b ==> y' == y)
    ensures Keeps(Arith(a, b, y, len), Arith(a', b', y', len))
  {
    if Defined(a) && Defined(b) {
      CompletesSelf(a, a');
      CompletesSelf(b, b');
    } else {
      KeepsAllX(len, Arith(a', b', y', len));
    }
  }

  /** Division by a divisor that reads as zero is undefined, and so is division of undefined operands. */
  lemma {:induction false} DivKeeps(a: Const, b: Const, a': Const, b': Const, m: int, m': int, y: int, y': int,
                                    len: nat)
    requires Completes(a, a') && Completes(b, b') && (a' == a && b' == b ==> m' == m && y' == y)
    ensures Keeps(DivResult(a, b, m, y, len), DivResult(a', b', m', y', len))
  {
    if Defined(a) && Defined(b) {
      CompletesSelf(a, a');
      CompletesSelf(b, b');
    } else {
      KeepsAllX(len, DivResult(a', b', m', y', len));
    }
  }

  // ----- Multiplexers

  lemma {:induction false} MuxKeeps(a: Const, b: Const, s: Const, a': Const, b': Const, s': Const)
    requires |a| == |b| && |s| > 0 && Completes(a, a') && Completes(b, b') && Completes(s, s')
    ensures Keeps(ConstMux(a, b, s), ConstMux(a', b', s'))
  {
    assert IsDef(s'[0]);
  }

  /** A select input that is not all zeros or one-hot gives nothing defined. */
  lemma {:induction false} PmuxKeeps(a: Const, b: Const, s: Const, a': Const, b': Const, s': Const)
    requires |b| == Off(|a|, |s|) && Completes(a, a') && Completes(b, b') && Completes(s, s')
    ensures |b'| == Off(|a'|, |s'|) && Keeps(ConstPmux(a, b, s), ConstPmux(a', b', s'))
  {
    if FullyZero(s) {
      CompletesSelf(s, s');
    } else if OneHot(s) {
      assert Defined(s);
      CompletesSelf(s, s');
      WordKeeps(|a|, b, b', |s|, HotIndex(s));
    } else {
      KeepsAllX(|a|, ConstPmux(a', b', s'));
    }
  }

  lemma {:induction false} WordKeeps(w: nat, b: Const, b': Const, n: nat, k: nat)
    requires |b| == Off(w, n) && k < n && Completes(b, b')
    ensures Keeps(WordOf(w, b, n, k), WordOf(w, b', n, k))
  {
    OffMono(w, 0, k);
    OffMono(w, k + 1, n);
    OffAdd(w, k, 1);
    var o := Off(w, k);
    SliceKeeps(b, b', o, o + w);
  }

  lemma {:induction false} SliceKeeps(b: Const, b': Const, lo: nat, hi: nat)
    requires Completes(b, b') && lo <= hi <= |b|
    ensures Keeps(b[lo..hi], b'[lo..hi])
  {
  }

  // ----- The bitwise multiplexer

  /** No computed bit depends on an undefined operand or select bit. */
  ghost predicate BwmuxSound(a: Const, b: Const, s: Const)
    requires |a| == |b| == |s|
  {
    forall a', b', s' {:trigger Completes(a, a'), Completes(b, b'), Completes(s, s')} ::
      Completes(a, a') && Completes(b, b') && Completes(s, s') ==> Keeps(ConstBwmux(a, b, s), ConstBwmux(a', b', s'))
  }

  /** A select bit that is undefined but not `x` counts as 0, which is right only if the data bits agree. */
  predicate BwmuxKept(a: Const, b: Const, s: Const)
    requires |a| == |b| == |s|
  {
    forall i :: 0 <= i < |a| ==> IsDef(s[i]) || s[i] == Sx || !IsDef(a[i]) || a[i] == b[i]
  }

  /** Defined bits are kept and the others are filled with `v`. */
  function FilledWith(c: Const, v: bool): (d: Const)
    ensures Completes(c, d)
  {
    seq(|c|, i requires 0 <= i < |c| => if IsDef(c[i]) then c[i] else ToState(v))
  }

  lemma {:induction false} BwmuxBreaks(a: Const, b: Const, s: Const, i: nat)
    requires |a| == |b| == |s| && i < |a| && !IsDef(s[i]) && s[i] != Sx && IsDef(a[i]) && a[i] != b[i]
    ensures !BwmuxSound(a, b, s)
  {
    var a', b', s' := FilledWith(a, true), FilledWith(b, a[i] == S0), FilledWith(s, true);
    assert a'[i] == a[i] && s'[i] == S1 && b'[i] != a[i];
    assert !KeepsBit(ConstBwmux(a, b, s)[i], ConstBwmux(a', b', s')[i]);
  }

  /** Exactly when no computed bit of the bitwise multiplexer depends on an undefined bit. */
  lemma {:induction false} BwmuxSoundIff(a: Const, b: Const, s: Const)
    requires |a| == |b| == |s|
    ensures BwmuxSound(a, b, s) <==> BwmuxKept(a, b, s)
  {
    if BwmuxKept(a, b, s) {
      forall a', b', s' | Completes(a, a') && Completes(b, b') && Completes(s, s')
        ensures Keeps(ConstBwmux(a, b, s), ConstBwmux(a', b', s')) {
        BwmuxKeeps(a, b, s, a', b', s');
      }
    } else {
      var i :| 0 <= i < |a| && !(IsDef(s[i]) || s[i] == Sx || !IsDef(a[i]) || a[i] == b[i]);
      BwmuxBreaks(a, b, s, i);
    }
  }

  lemma {:induction false} BwmuxKeeps(a: Const, b: Const, s: Const, a': Const, b': Const, s': Const)
    requires |a| == |b| == |s| && BwmuxKept(a, b, s) && Completes(a, a') && Completes(b, b') && Completes(s, s')
    ensures Keeps(ConstBwmux(a, b, s), ConstBwmux(a', b', s'))
  {
    forall i | 0 <= i < |a| ensures KeepsBit(BwmuxBit(a[i], b[i], s[i]), BwmuxBit(a'[i], b'[i], s'[i])) {
    }
  }

  // ----- The binary multiplexer and the demultiplexer

  /** One selection step takes completions to completions. */
  lemma {:induction false} BmuxStepCompletes(t: Const, t': Const, sel: State, sel': State)
    requires Completes(t, t') && IsDef(sel') && KeepsBit(sel, sel') && |t| % 2 == 0
    ensures Completes(BmuxStep(t, sel), BmuxStep(t', sel')) && |BmuxStep(t, sel)| == |t| / 2
  {
    var h := |t| / 2;
    var r, r' := BmuxStep(t, sel), BmuxStep(t', sel');
    forall j | 0 <= j < h && IsDef(r[j]) ensures r'[j] == r[j] {
      assert IsDef(t[j]) ==> t'[j] == t[j];
      assert IsDef(t[j + h]) ==> t'[j + h] == t[j + h];
    }
  }

  lemma {:induction false} BmuxKeeps(a: Const, s: Const, a': Const, s': Const)
    requires Completes(a, a') && Completes(s, s') && |a| % Pow2(|s|) == 0
    ensures Keeps(ConstBmux(a, s), ConstBmux(a', s'))
    decreases |s|
  {
    if |s| > 0 {
      var n := |s| - 1;
      HalfMultiple(|a|, n);
      BmuxStepCompletes(a, a', s[n], s'[n]);
      BmuxKeeps(BmuxStep(a, s[n]), s[..n], BmuxStep(a', s'[n]), s'[..n]);
    }
  }

  lemma {:induction false} HalfMultiple(x: nat, n: nat)
    requires x % Pow2(n + 1) == 0
    ensures x % 2 == 0 && (x / 2) % Pow2(n) == 0
  {
    var k, p := x / Pow2(n + 1), Pow2(n);
    assert x == k * (2 * p) == 2 * (k * p);
    DivModUnique(k * p, p, k, 0);
  }

  lemma {:induction false} DemuxWordKeeps(a: Const, s: Const, a': Const, s': Const, n: nat)
    requires Completes(a, a') && Completes(s, s')
    ensures Keeps(DemuxWord(a, s, n), DemuxWord(a', s', n))
  {
    if j :| 0 <= j < |s| && s[j] == (if Bit(n, j) then S0 else S1) {
      assert s'[j] == s[j];
      assert SelectsNot(s', n);
    } else if Defined(s) {
      CompletesSelf(s, s');
    }
  }

  lemma {:induction false} DemuxKeeps(a: Const, s: Const, a': Const, s': Const, n: nat)
    requires Completes(a, a') && Completes(s, s')
    ensures Keeps(DemuxWords(a, s, n), DemuxWords(a', s', n))
  {
    if n > 0 {
      DemuxKeeps(a, s, a', s', n - 1);
      DemuxWordKeeps(a, s, a', s', n - 1);
      KeepsConcat(DemuxWords(a, s, n - 1), DemuxWords(a', s', n - 1), DemuxWord(a, s, n - 1), DemuxWord(a', s', n - 1));
    }
  }

  lemma {:induction false} KeepsConcat(x: Const, x': Const, y: Const, y': Const)
    requires Keeps(x, x') && Keeps(y, y')
    ensures Keeps(x + y, x' + y')
  {
  }

  // ----- All operations

  datatype Operation =
    | Not | Pos | Neg | And | Or | Xor | Xnor
    | ReduceAnd | ReduceOr | ReduceBool | ReduceXor | ReduceXnorOp
    | LogicNotOp | LogicAndOp | LogicOrOp
    | Shl | Shr | Sshl | Sshr | Shift | Shiftx
    | Lt | Le | Eq | Ne | Ge | Gt
    | Add | Sub | Mul | Div | Mod | DivFloor | ModFloor
    | Mux | Pmux | Bmux | Demux

  /** Operands, a select input, their signedness and the result length. */
  datatype Operands = Operands(a: Const, b: Const, s: Const, signedA: bool, signedB: bool, len: nat)

  /** What the evaluator asserts, and for `$pmux` and `$bmux` the widths that the cell types prescribe. */
  predicate Legal(op: Operation, x: Operands) {
    && ((op.Eq? || op.Ne?) ==> x.len > 0)
    && (op.Mux? ==> |x.a| == |x.b| && |x.s| > 0)
    && (op.Pmux? ==> |x.b| == Off(|x.a|, |x.s|))
    && (op.Bmux? ==> |x.a| % Pow2(|x.s|) == 0)
  }

  function Value(op: Operation, x: Operands): Const
    requires Legal(op, x)
  {
    match op
    case Not => ConstNot(x.a, x.signedA, x.len)
    case Pos => Extend(x.a, x.len, x.signedA)
    case Neg => ConstNeg(x.a, x.signedA, x.len)
    case And => LogicWrapper(LogicAnd, x.a, x.b, x.signedA, x.signedB, x.len)
    case Or => LogicWrapper(LogicOr, x.a, x.b, x.signedA, x.signedB, x.len)
    case Xor => LogicWrapper(LogicXor, x.a, x.b, x.signedA, x.signedB, x.len)
    case Xnor => LogicWrapper(LogicXnor, x.a, x.b, x.signedA, x.signedB, x.len)
    case ReduceAnd => Flag(Fold(LogicAnd, S1, x.a), x.len)
    case ReduceOr => Flag(Fold(LogicOr, S0, x.a), x.len)
    case ReduceBool => Flag(Fold(LogicOr, S0, x.a), x.len)
    case ReduceXor => Flag(Fold(LogicXor, S0, x.a), x.len)
    case ReduceXnorOp => ReduceXnor(x.a, x.len)
    case LogicNotOp => ConstLogicNot(x.a, x.signedA, x.len)
    case LogicAndOp => ConstLogicAnd(x.a, x.b, x.signedA, x.signedB, x.len)
    case LogicOrOp => ConstLogicOr(x.a, x.b, x.signedA, x.signedB, x.len)
    case Shl => ConstShl(x.a, x.b, x.signedA, x.len)
    case Shr => ConstShr(x.a, x.b, x.signedA, x.len)
    case Sshl => ConstSshl(x.a, x.b, x.signedA, x.len)
    case Sshr => ConstSshr(x.a, x.b, x.signedA, x.len)
    case Shift => ConstShift(x.a, x.b, x.signedA, x.signedB, x.len)
    case Shiftx => ConstShiftx(x.a, x.b, x.signedB, x.len)
    case Lt => ConstLt(x.a, x.b, x.signedA, x.signedB, x.len)
    case Le => ConstLe(x.a, x.b, x.signedA, x.signedB, x.len)
    case Eq => ConstEq(x.a, x.b, x.signedA, x.signedB, x.len)
    case Ne => ConstNe(x.a, x.b, x.signedA, x.signedB, x.len)
    case Ge => ConstGe(x.a, x.b, x.signedA, x.signedB, x.len)
    case Gt => ConstGt(x.a, x.b, x.signedA, x.signedB, x.len)
    case Add => ConstAdd(x.a, x.b, x.signedA, x.signedB, x.len)
    case Sub => ConstSub(x.a, x.b, x.signedA, x.signedB, x.len)
    case Mul => ConstMul(x.a, x.b, x.signedA, x.signedB, x.len)
    case Div => ConstDiv(x.a, x.b, x.signedA, x.signedB, x.len)
    case Mod => ConstMod(x.a, x.b, x.signedA, x.signedB, x.len)
    case DivFloor => ConstDivFloor(x.a, x.b, x.signedA, x.signedB, x.len)
    case ModFloor => ConstModFloor(x.a, x.b, x.signedA, x.signedB, x.len)
    case Mux => ConstMux(x.a, x.b, x.s)
    case Pmux => ConstPmux(x.a, x.b, x.s)
    case Bmux => ConstBmux(x.a, x.s)
    case Demux => ConstDemux(x.a, x.s)
  }

  predicate CompletesAll(x: Operands, y: Operands) {
    && Completes(x.a, y.a) && Completes(x.b, y.b) && Completes(x.s, y.s)
    && y.signedA == x.signedA && y.signedB == x.signedB && y.len == x.len
  }

  /** No result bit that the evaluator computes as 0 or 1 depends on an undefined operand bit. */
  lemma {:induction false} Sound(op: Operation, x: Operands, y: Operands)
    requires Legal(op, x) && CompletesAll(x, y)
    ensures Legal(op, y) && Keeps(Value(op, x), Value(op, y))
  {
    match op {
      case Not | Pos | And | Or | Xor | Xnor => BitwiseSound(op, x, y);
      case ReduceAnd | ReduceOr | ReduceBool | ReduceXor | ReduceXnorOp => ReduceSound(op, x, y);
      case LogicNotOp | LogicAndOp | LogicOrOp => LogicalSound(op, x, y);
      case Shl | Shr | Sshl | Sshr | Shift | Shiftx => ShiftSound(op, x, y);
      case Lt | Le | Ge | Gt | Eq | Ne => CompareSound(op, x, y);
      case Neg | Add | Sub | Mul => ArithSound(op, x, y);
      case Div | Mod | DivFloor | ModFloor => DivisionSound(op, x, y);
      case Mux => MuxKeeps(x.a, x.b, x.s, y.a, y.b, y.s);
      case Pmux => PmuxKeeps(x.a, x.b, x.s, y.a, y.b, y.s);
      case Bmux => BmuxKeeps(x.a, x.s, y.a, y.s);
      case Demux => DemuxKeeps(x.a, x.s, y.a, y.s, Pow2(|x.s|));
    }
  }

  lemma {:induction false} BitwiseSound(op: Operation, x: Operands, y: Operands)
    requires op.Not? || op.Pos? || op.And? || op.Or? || op.Xor? || op.Xnor?
    requires CompletesAll(x, y)
    ensures Keeps(Value(op, x), Value(op, y))
  {
    LogicMonotone();
    match op {
      case Not => NotKeeps(x.a, y.a, x.signedA, x.len);
      case Pos => CompletesExtended(x.a, y.a, x.len, x.signedA);
      case And => BitwiseKeeps(LogicAnd, x.a, x.b, y.a, y.b, x.signedA, x.signedB, x.len);
      case Or => BitwiseKeeps(LogicOr, x.a, x.b, y.a, y.b, x.signedA, x.signedB, x.len);
      case Xor => BitwiseKeeps(LogicXor, x.a, x.b, y.a, y.b, x.signedA, x.signedB, x.len);
      case Xnor => BitwiseKeeps(LogicXnor, x.a, x.b, y.a, y.b, x.signedA, x.signedB, x.len);
    }
  }

  lemma {:induction false} ReduceSound(op: Operation, x: Operands, y: Operands)
    requires op.ReduceAnd? || op.ReduceOr? || op.ReduceBool? || op.ReduceXor? || op.ReduceXnorOp?
    requires CompletesAll(x, y)
    ensures Keeps(Value(op, x), Value(op, y))
  {
    LogicMonotone();
    FoldKeeps(LogicAnd, S1, x.a, y.a);
    FoldKeeps(LogicOr, S0, x.a, y.a);
    FoldKeeps(LogicXor, S0, x.a, y.a);
    match op {
      case ReduceAnd => KeepsFlag(Fold(LogicAnd, S1, x.a), Fold(LogicAnd, S1, y.a), x.len);
      case ReduceOr => KeepsFlag(Fold(LogicOr, S0, x.a), Fold(LogicOr, S0, y.a), x.len);
      case ReduceBool => KeepsFlag(Fold(LogicOr, S0, x.a), Fold(LogicOr, S0, y.a), x.len);
      case ReduceXor => KeepsFlag(Fold(LogicXor, S0, x.a), Fold(LogicXor, S0, y.a), x.len);
      case ReduceXnorOp =>
        InvertKeeps(Fold(LogicXor, S0, x.a), Fold(LogicXor, S0, y.a));
        KeepsFlag(Invert(Fold(LogicXor, S0, x.a)), Invert(Fold(LogicXor, S0, y.a)), x.len);
    }
  }

  lemma {:induction false} LogicalSound(op: Operation, x: Operands, y: Operands)
    requires op.LogicNotOp? || op.LogicAndOp? || op.LogicOrOp?
    requires CompletesAll(x, y)
    ensures Keeps(Value(op, x), Value(op, y))
  {
    TruthKeeps(x.a, y.a, x.signedA);
    TruthKeeps(x.b, y.b, x.signedB);
    var p, q, p', q' := Truth(x.a, x.signedA), Truth(x.b, x.signedB), Truth(y.a, x.signedA), Truth(y.b, x.signedB);
    LogicMonotone();
    match op {
      case LogicNotOp =>
        InvertKeeps(p, p');
        KeepsFlag(Invert(p), Invert(p'), x.len);
      case LogicAndOp => KeepsFlag(LogicAnd(p, q), LogicAnd(p', q'), x.len);
      case LogicOrOp => KeepsFlag(LogicOr(p, q), LogicOr(p', q'), x.len);
    }
  }

  lemma {:induction false} ShiftSound(op: Operation, x: Operands, y: Operands)
    requires op.Shl? || op.Shr? || op.Sshl? || op.Sshr? || op.Shift? || op.Shiftx?
    requires CompletesAll(x, y)
    ensures Keeps(Value(op, x), Value(op, y))
  {
    var m := Max(x.len, |x.a|);
    CompletesExtended(x.a, y.a, x.len, x.signedA);
    CompletesExtended(x.a, y.a, m, x.signedA);
    match op {
      case Shl => ShiftKeeps(Extend(x.a, x.len, x.signedA), x.b, Extend(y.a, x.len, x.signedA), y.b, false, false, -1,
          x.len, S0);
      case Shr => ShiftKeeps(Extend(x.a, m, x.signedA), x.b, Extend(y.a, m, x.signedA), y.b, false, false, 1, x.len,
          S0);
      case Sshl => ShiftKeeps(x.a, x.b, y.a, y.b, x.signedA, false, -1, x.len, S0);
      case Sshr => ShiftKeeps(x.a, x.b, y.a, y.b, x.signedA, false, 1, x.len, S0);
      case Shift => ShiftKeeps(Extend(x.a, m, x.signedA), x.b, Extend(y.a, m, x.signedA), y.b, false, x.signedB, 1,
          x.len, S0);
      case Shiftx => ShiftKeeps(x.a, x.b, y.a, y.b, false, x.signedB, 1, x.len, Sx);
    }
  }

  predicate Holds(op: Operation, p: int, q: int) {
    if op.Lt? then p < q else if op.Le? then p <= q else if op.Ge? then p >= q else p > q
  }

  lemma {:induction false} CompareValue(op: Operation, x: Operands)
    requires op.Lt? || op.Le? || op.Ge? || op.Gt?
    ensures Value(op, x) == CompareFlag(x.a, x.b, Holds(op, Big(x.a, x.signedA), Big(x.b, x.signedB)), x.len)
  {
  }

  lemma {:induction false} CompareSound(op: Operation, x: Operands, y: Operands)
    requires op.Lt? || op.Le? || op.Ge? || op.Gt? || op.Eq? || op.Ne?
    requires Legal(op, x) && CompletesAll(x, y)
    ensures Keeps(Value(op, x), Value(op, y))
  {
    if op.Eq? || op.Ne? {
      EqKeeps(x.a, x.b, y.a, y.b, x.signedA, x.signedB, x.len);
    } else {
      CompareValue(op, x);
      CompareValue(op, y);
      CompareKeeps(x.a, x.b, y.a, y.b, Holds(op, Big(x.a, x.signedA), Big(x.b, x.signedB)),
                   Holds(op, Big(y.a, y.signedA), Big(y.b, y.signedB)), x.len);
    }
  }

  function Result(op: Operation, p: int, q: int): int {
    if op.Add? then p + q else if op.Sub? then p - q else p * q
  }

  lemma {:induction false} ArithValue(op: Operation, x: Operands)
    requires op.Add? || op.Sub? || op.Mul?
    ensures Value(op, x) == Arith(x.a, x.b, Result(op, Big(x.a, x.signedA), Big(x.b, x.signedB)), x.len)
  {
    match op {
      case Add => assert Value(op, x) == ConstAdd(x.a, x.b, x.signedA, x.signedB, x.len);
      case Sub => assert Value(op, x) == ConstSub(x.a, x.b, x.signedA, x.signedB, x.len);
      case Mul => assert Value(op, x) == ConstMul(x.a, x.b, x.signedA, x.signedB, x.len);
    }
  }

  lemma {:induction false} ArithSound(op: Operation, x: Operands, y: Operands)
    requires op.Neg? || op.Add? || op.Sub? || op.Mul?
    requires CompletesAll(x, y)
    ensures Keeps(Value(op, x), Value(op, y))
  {
    if op.Neg? {
      ArithKeeps([S0], x.a, [S0], y.a, Big([S0], true) - Big(x.a, x.signedA), Big([S0], true) - Big(y.a, y.signedA),
          x.len);
    } else {
      ArithValue(op, x);
      ArithValue(op, y);
      ArithKeeps(x.a, x.b, y.a, y.b, Result(op, Big(x.a, x.signedA), Big(x.b, x.signedB)),
                 Result(op, Big(y.a, y.signedA), Big(y.b, y.signedB)), x.len);
    }
  }

  lemma {:induction false} DivisionSound(op: Operation, x: Operands, y: Operands)
    requires op.Div? || op.Mod? || op.DivFloor? || op.ModFloor?
    requires CompletesAll(x, y)
    ensures Keeps(Value(op, x), Value(op, y))
  {
    var p, q, p', q' := Big(x.a, x.signedA), Big(x.b, x.signedB), Big(y.a, x.signedA), Big(y.b, x.signedB);
    DivisionValue(op, x);
    DivisionValue(op, y);
    DivKeeps(x.a, x.b, y.a, y.b, q, q', Quotient(op, p, q), Quotient(op, p', q'), x.len);
  }

  lemma {:induction false} DivisionValue(op: Operation, x: Operands)
    requires op.Div? || op.Mod? || op.DivFloor? || op.ModFloor?
    ensures var p, q := Big(x.a, x.signedA), Big(x.b, x.signedB);
            Value(op, x) == DivResult(x.a, x.b, q, Quotient(op, p, q), x.len)
  {
  }

  function Quotient(op: Operation, p: int, q: int): int {
    if q == 0 then 0
    else if op.Div? then TruncDiv(p, q)
    else if op.Mod? then TruncMod(p, q)
    else if op.DivFloor? then FloorDiv(p, q)
    else FloorMod(p, q)
  }

  // ----- The power operation

  /** No computed bit of the power depends on an undefined operand bit. */
  ghost predicate PowSound(a: Const, b: Const, sa: bool, sb: bool, len: nat) {
    forall a', b' {:trigger ConstPow(a', b', sa, sb, len)} ::
      Completes(a, a') && Completes(b, b') ==> Keeps(ConstPow(a, b, sa, sb, len), ConstPow(a', b', sa, sb, len))
  }

  function LowestUndef(c: Const): (k: nat)
    requires !Defined(c)
    ensures k < |c| && !IsDef(c[k]) && Defined(c[..k])
  {
    var n := |c| - 1;
    if Defined(c[..n]) then n
    else
      var k := LowestUndef(c[..n]);
      assert c[..n][..k] == c[..k];
      k
  }

  predicate SignKnown(b: Const, signed: bool) {
    signed && |b| > 0 ==> IsDef(b[|b| - 1])
  }

  /** The shortcut for a base that reads as zero and a positive exponent answers zero without looking at
      undefined bits. It is right when the sign of the exponent is known and the base is zero, or so far
      aligned that its power vanishes within the result length. */
  predicate PowKept(a: Const, b: Const, sa: bool, sb: bool, len: nat) {
    || len == 0 || Big(a, sa) != 0 || Big(b, sb) <= 0
    || (SignKnown(b, sb) && (Defined(a) || LowestUndef(a) * Big(b, sb) >= len))
  }

  lemma {:induction false} MagZero(c: Const, i: nat)
    requires Mag(c, S1) == 0 && i < |c|
    ensures c[i] != S1
  {
    if i < |c| - 1 {
      MagZero(c[..|c| - 1], i);
    }
  }

  /** A vector whose low `k` bits are zero, as a multiple of `2^k`. */
  lemma {:induction false} AlignedVal(c: Const, k: nat, signed: bool) returns (u: int)
    requires k < |c| && forall i :: 0 <= i < k ==> c[i] == S0
    ensures Val(c, signed) == Pow2(k) * u
  {
    AlignedValue(c, k);
    var p, q := Pow2(k), Pow2(|c| - k);
    u := UVal(c) / p;
    Exactly(UVal(c), p);
    if signed && IsNeg(c) {
      Pow2Add(k, |c| - k);
      LessMultiple(p, u, q);
      u := u - q;
    }
  }

  lemma {:induction false} Exactly(v: int, p: nat)
    requires p > 0 && v % p == 0
    ensures v == p * (v / p)
  {
  }

  lemma {:induction false} LessMultiple(p: int, u: int, q: int)
    ensures p * (u - q) == p * u - p * q
  {
  }

  lemma {:induction false} ExpScaled(k: nat, u: int, n: nat)
    ensures k * n >= 0 && Exp(Pow2(k) * u, n) == Pow2(k * n) * Exp(u, n)
  {
    if n > 0 {
      ExpScaled(k, u, n - 1);
      assert k * n == k + k * (n - 1);
      Pow2Add(k, k * (n - 1));
      Regroup4(Pow2(k), u, Pow2(k * (n - 1)), Exp(u, n - 1));
    }
  }

  lemma {:induction false} Regroup4(p: int, u: int, q: int, e: int)
    ensures p * u * (q * e) == p * q * (u * e)
  {
    assert p * u * (q * e) == p * (u * (q * e)) == p * (q * (u * e));
  }

  lemma {:induction false} LowZeros(m: nat, x: int, len: nat)
    requires m >= len
    ensures FromInt(Pow2(m) * x, len) == seq(len, _ => S0)
  {
    Pow2Add(len, m - len);
    var p, q := Pow2(len), Pow2(m - len);
    assert p * q * x == 0 + (q * x) * p;
    ModAddMultiple(0, p, q * x);
    FromIntCong(Pow2(m) * x, 0, len);
    FromIntZero(len);
  }

  /** A completion of a positive exponent of known sign is at least as large. */
  lemma {:induction false} ExponentGrows(b: Const, b': Const, sb: bool)
    requires Completes(b, b') && SignKnown(b, sb) && Big(b, sb) > 0
    ensures Big(b', sb) >= Big(b, sb)
  {
    MagGrows(b, b');
  }

  lemma {:induction false} PowVanishes(a: Const, a': Const, b': Const, sa: bool, sb: bool, len: nat, y: int)
    requires Completes(a, a') && Defined(b') && Big(a, sa) == 0 && !Defined(a) && LowestUndef(a) * y >= len
             && 0 < y <= Big(b', sb)
    ensures ConstPow(a', b', sa, sb, len) == seq(len, _ => S0)
  {
    var k, n := LowestUndef(a), Big(b', sb);
    BigIsVal(a', sa);
    forall i | 0 <= i < k ensures a'[i] == S0 {
      assert a[..k][i] == a[i];
      MagZero(a, i);
    }
    var u := AlignedVal(a', k, sa);
    if Val(a', sa) != 0 {
      ExpScaled(k, u, n);
      MulMono(y, n, k);
      assert k * n == n * k && k * y == y * k;
      LowZeros(k * n, Exp(u, n), len);
    }
  }

  lemma {:induction false} PowSoundIf(a: Const, b: Const, a': Const, b': Const, sa: bool, sb: bool, len: nat)
    requires PowKept(a, b, sa, sb, len) && Completes(a, a') && Completes(b, b')
    ensures Keeps(ConstPow(a, b, sa, sb, len), ConstPow(a', b', sa, sb, len))
  {
    if Defined(a) && Defined(b) {
      CompletesSelf(a, a');
      CompletesSelf(b, b');
    } else if len == 0 || Big(a, sa) != 0 || Big(b, sb) <= 0 {
      KeepsAllX(len, ConstPow(a', b', sa, sb, len));
    } else {
      ExponentGrows(b, b', sb);
      if Defined(a) {
        CompletesSelf(a, a');
      } else {
        PowVanishes(a, a', b', sa, sb, len, Big(b, sb));
      }
    }
  }

  /** The completion with ones at the undefined position `k` only. */
  function Filled(c: Const, k: nat): (d: Const)
    ensures Completes(c, d)
  {
    seq(|c|, i requires 0 <= i < |c| => if IsDef(c[i]) then c[i] else ToState(i == k))
  }

  lemma {:induction false} FilledMag(c: Const, k: nat)
    ensures Mag(Filled(c, k), S1) == Mag(c, S1) + if k < |c| && !IsDef(c[k]) then Pow2(k) else 0
  {
    if |c| > 0 {
      var n := |c| - 1;
      FilledMag(c[..n], k);
      assert Filled(c, k)[..n] == Filled(c[..n], k);
    }
  }

  /** The base with a one at its lowest undefined bit. */
  lemma {:induction false} FilledBase(a: Const, sa: bool) returns (u: int)
    requires !Defined(a) && Big(a, sa) == 0
    ensures u == 1 || u == -1
    ensures Big(Filled(a, LowestUndef(a)), sa) == Pow2(LowestUndef(a)) * u
  {
    var k := LowestUndef(a);
    var d := Filled(a, k);
    FilledMag(a, k);
    BigIsVal(d, sa);
    u := if sa && IsNeg(d) then -1 else 1;
    if sa && IsNeg(d) {
      assert k == |a| - 1;
    }
  }

  lemma {:induction false} TopBitOfUnit(m: nat, u: int)
    requires u == 1 || u == -1
    ensures Bit(Pow2(m) * u, m)
  {
    DivModUnique(Pow2(m) * u, Pow2(m), u, 0);
  }

  lemma {:induction false} PowAligned(a: Const, b: Const, sa: bool, sb: bool, len: nat)
    requires Big(a, sa) == 0 && Big(b, sb) > 0 && SignKnown(b, sb) && !Defined(a) && LowestUndef(a) * Big(b, sb) < len
    ensures !PowSound(a, b, sa, sb, len)
  {
    var k, n := LowestUndef(a), Big(b, sb);
    var u := FilledBase(a, sa);
    var a', b' := Filled(a, k), Filled(b, |b|);
    FilledMag(b, |b|);
    ExpScaled(k, u, n);
    ExpUnit(n);
    TopBitOfUnit(k * n, Exp(u, n));
    assert Big(b', sb) == n;
    assert Pow2(k) * u != 0;
    assert ConstPow(a', b', sa, sb, len) == FromInt(Pow2(k * n) * Exp(u, n), len);
    assert !KeepsBit(ConstPow(a, b, sa, sb, len)[k * n], ConstPow(a', b', sa, sb, len)[k * n]);
  }

  lemma {:induction false} PowUnsigned(a: Const, b: Const, sa: bool, sb: bool, len: nat)
    requires len > 0 && Big(a, sa) == 0 && Big(b, sb) > 0 && !SignKnown(b, sb)
    ensures !PowSound(a, b, sa, sb, len)
  {
    var a', b' := Filled(a, |a|), Filled(b, |b| - 1);
    FilledMag(a, |a|);
    assert Big(a', sa) == 0 && Big(b', sb) < 0;
    assert !KeepsBit(ConstPow(a, b, sa, sb, len)[0], ConstPow(a', b', sa, sb, len)[0]);
  }

  /** Exactly when no computed bit of the power depends on an undefined operand bit. */
  lemma {:induction false} PowSoundIff(a: Const, b: Const, sa: bool, sb: bool, len: nat)
    ensures PowSound(a, b, sa, sb, len) <==> PowKept(a, b, sa, sb, len)
  {
    if PowKept(a, b, sa, sb, len) {
      forall a', b' | Completes(a, a')
          && Completes(b, b') ensures Keeps(ConstPow(a, b, sa, sb, len), ConstPow(a', b', sa, sb, len)) {
        PowSoundIf(a, b, a', b', sa, sb, len);
      }
    } else if SignKnown(b, sb) {
      PowAligned(a, b, sa, sb, len);
    } else {
      PowUnsigned(a, b, sa, sb, len);
    }
  }

  /** An undefined base to the power one is computed as 0, although it may be 1. */
  lemma {:induction false} UndefinedBase()
    ensures ConstPow([Sx], [S1], false, false, 1) == [S0] && Completes([Sx], [S1])
            && ConstPow([S1], [S1], false, false, 1) == [S1]
    ensures !PowSound([Sx], [S1], false, false, 1)
  {
    assert Big([Sx], false) == 0 && Big([S1], false) == 1;
    assert Exp(1, 1) == 1 * Exp(1, 0);
    assert Bit(1, 0);
    assert Defined([S1]) && ConstPow([S1], [S1], false, false, 1) == FromInt(1, 1);
    assert !KeepsBit([S0][0], [S1][0]);
  }
}
