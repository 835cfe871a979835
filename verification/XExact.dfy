/** How much the constant evaluator (`kernel/calc.cc`) leaves undefined: a result bit is computed as 0 or 1
    whenever every way of filling in the undefined operand bits gives that value. */
module XExact {
  import opened Bits
  import opened Calc
  import opened FunctionalPow
  import opened XSound

  // ----- Completions that differ

  function FillBit(s: State, p: bool): State {
    if IsDef(s) then s else ToState(p)
  }

  /** The completion that fills the undefined bits of the three inputs with one value each. */
  function Fill(x: Operands, p: bool, q: bool, r: bool): (y: Operands)
    ensures CompletesAll(x, y)
  {
    x.(a := FilledWith(x.a, p), b := FilledWith(x.b, q), s := FilledWith(x.s, r))
  }

  lemma {:induction false} FilledExtBit(c: Const, p: bool, signed: bool, i: nat)
    ensures ExtBit(FilledWith(c, p), signed, i) == FillBit(ExtBit(c, signed, i), p)
  {
  }

  lemma {:induction false} FilledExtend(c: Const, p: bool, signed: bool, w: nat)
    ensures Extend(FilledWith(c, p), w, signed) == FilledWith(Extend(c, w, signed), p)
  {
    var l, r := Extend(FilledWith(c, p), w, signed), FilledWith(Extend(c, w, signed), p);
    forall i | 0 <= i < w ensures l[i] == r[i] {
      FilledExtBit(c, p, signed, i);
    }
  }

  /** Result bit `i` is `v` in every completion of the operands. */
  ghost predicate Settled(op: Operation, x: Operands, i: nat, v: State) {
    forall y :: CompletesAll(x, y) ==> HasBit(op, y, i, v)
  }

  predicate HasBit(op: Operation, y: Operands, i: nat, v: State) {
    Legal(op, y) && i < |Value(op, y)| && Value(op, y)[i] == v
  }

  /** Two completions that disagree about result bit `i`, or one in which it is just as undefined. */
  predicate Unsettles(op: Operation, x: Operands, i: nat, y: Operands, z: Operands) {
    && CompletesAll(x, y) && CompletesAll(x, z)
    && forall v :: HasBit(op, y, i, v) && HasBit(op, z, i, v) ==> HasBit(op, x, i, v)
  }

  // ----- Bitwise operations

  lemma {:induction false} BitwiseUnsettled(op: Operation, x: Operands, i: nat) returns (y: Operands, z: Operands)
    requires op.Not? || op.Pos? || op.And? || op.Or? || op.Xor? || op.Xnor?
    requires i < x.len && !IsDef(Value(op, x)[i])
    ensures Unsettles(op, x, i, y, z)
  {
    if op.Not? || op.Pos? {
      y, z := Fill(x, false, false, false), Fill(x, true, true, true);
      FilledExtend(x.a, false, x.signedA, x.len);
      FilledExtend(x.a, true, x.signedA, x.len);
    } else {
      y, z := BinaryUnsettled(op, x, i);
    }
  }

  lemma {:induction false} BinaryUnsettled(op: Operation, x: Operands, i: nat) returns (y: Operands, z: Operands)
    requires op.And? || op.Or? || op.Xor? || op.Xnor?
    requires i < x.len && !IsDef(Value(op, x)[i])
    ensures Unsettles(op, x, i, y, z)
  {
    var exclusive := op.Xor? || op.Xnor?;
    var first := !IsDef(ExtBit(x.a, x.signedA, i));
    y := Fill(x, false, false, false);
    z := Fill(x, !exclusive || first, !exclusive || !first, false);
    FilledExtBit(x.a, false, x.signedA, i);
    FilledExtBit(x.b, false, x.signedB, i);
    FilledExtBit(x.a, !exclusive || first, x.signedA, i);
    FilledExtBit(x.b, !exclusive || !first, x.signedB, i);
    BinaryBit(op, x, i);
    BinaryBit(op, y, i);
    BinaryBit(op, z, i);
  }

  lemma {:induction false} BinaryBit(op: Operation, x: Operands, i: nat)
    requires (op.And? || op.Or? || op.Xor? || op.Xnor?) && i < x.len
    ensures |Value(op, x)| == x.len
    ensures var s, t := ExtBit(x.a, x.signedA, i), ExtBit(x.b, x.signedB, i);
            Value(op, x)[i] == match op
                               case And => LogicAnd(s, t)
                               case Or => LogicOr(s, t)
                               case Xor => LogicXor(s, t)
                               case _ => LogicXnor(s, t)
  {
  }

  // ----- Reductions

  lemma {:induction false} FoldFilled(a: Const, p: bool)
    ensures Fold(LogicAnd, S1, FilledWith(a, p)) == FillBit(Fold(LogicAnd, S1, a), p)
    ensures Fold(LogicOr, S0, FilledWith(a, p)) == FillBit(Fold(LogicOr, S0, a), p)
  {
    if |a| > 0 {
      var n := |a| - 1;
      FoldFilled(a[..n], p);
      assert FilledWith(a, p)[..n] == FilledWith(a[..n], p);
    }
  }

  /** Parity is undefined exactly if some bit is. */
  lemma {:induction false} ParityDefined(a: Const)
    ensures Fold(LogicXor, S0, a) == Sx || IsDef(Fold(LogicXor, S0, a))
    ensures IsDef(Fold(LogicXor, S0, a)) <==> Defined(a)
  {
    if |a| > 0 {
      var n := |a| - 1;
      ParityDefined(a[..n]);
      assert Defined(a) <==> Defined(a[..n]) && IsDef(a[n]);
    }
  }

  /** Filling in one bit with the other value flips the parity. */
  lemma {:induction false} ParityFlips(a: Const, k: nat)
    requires k < |a| && !IsDef(a[k])
    ensures Fold(LogicXor, S0, Filled(a, k)) != Fold(LogicXor, S0, Filled(a, |a|))
  {
    var n := |a| - 1;
    ParityDefined(Filled(a, k));
    ParityDefined(Filled(a, |a|));
    ParityDefined(Filled(a, k)[..n]);
    ParityDefined(Filled(a, |a|)[..n]);
    if k < n {
      ParityFlips(a[..n], k);
      assert Filled(a, k)[..n] == Filled(a[..n], k);
      assert Filled(a, |a|)[..n] == Filled(a[..n], n);
    } else {
      assert Filled(a, k)[..n] == Filled(a, |a|)[..n];
    }
  }

  predicate IsReduction(op: Operation) {
    op.ReduceAnd? || op.ReduceOr? || op.ReduceBool? || op.ReduceXor? || op.ReduceXnorOp?
  }

  predicate IsLogical(op: Operation) {
    op.LogicNotOp? || op.LogicAndOp? || op.LogicOrOp?
  }

  /** The truth bit of a reduction or a logical operation. */
  function Verdict(op: Operation, x: Operands): State
    requires IsReduction(op) || IsLogical(op)
  {
    match op
    case ReduceAnd => Fold(LogicAnd, S1, x.a)
    case ReduceOr | ReduceBool => Fold(LogicOr, S0, x.a)
    case ReduceXor => Fold(LogicXor, S0, x.a)
    case ReduceXnorOp => Invert(Fold(LogicXor, S0, x.a))
    case LogicNotOp => Invert(Truth(x.a, x.signedA))
    case LogicAndOp => LogicAnd(Truth(x.a, x.signedA), Truth(x.b, x.signedB))
    case LogicOrOp => LogicOr(Truth(x.a, x.signedA), Truth(x.b, x.signedB))
  }

  lemma {:induction false} VerdictValue(op: Operation, x: Operands)
    requires IsReduction(op) || IsLogical(op)
    ensures Value(op, x) == Flag(Verdict(op, x), x.len)
  {
  }

  lemma {:induction false} VerdictUnsettled(op: Operation, x: Operands, i: nat, y: Operands, z: Operands)
    requires (IsReduction(op) || IsLogical(op)) && CompletesAll(x, y) && CompletesAll(x, z)
    requires i < |Value(op, x)| && !IsDef(Value(op, x)[i])
    requires !IsDef(Verdict(op, x)) ==> Verdict(op, y) != Verdict(op, z)
    ensures Unsettles(op, x, i, y, z)
  {
    VerdictValue(op, x);
    VerdictValue(op, y);
    VerdictValue(op, z);
  }

  lemma {:induction false} ReductionUnsettled(op: Operation, x: Operands, i: nat) returns (y: Operands, z: Operands)
    requires IsReduction(op) && i < |Value(op, x)| && !IsDef(Value(op, x)[i])
    ensures Unsettles(op, x, i, y, z)
  {
    y, z := Fill(x, false, false, false), Fill(x, true, false, false);
    if op.ReduceXor? || op.ReduceXnorOp? {
      ParityDefined(x.a);
      VerdictValue(op, x);
      var k := LowestUndef(x.a);
      y, z := y.(a := Filled(x.a, |x.a|)), y.(a := Filled(x.a, k));
      ParityFlips(x.a, k);
    } else {
      FoldFilled(x.a, false);
      FoldFilled(x.a, true);
    }
    VerdictUnsettled(op, x, i, y, z);
  }

  // ----- Logical operations

  lemma {:induction false} MagFilled(a: Const)
    ensures Mag(FilledWith(a, false), S1) == Mag(a, S1)
    ensures !Defined(a) ==> Mag(FilledWith(a, true), S1) > 0
  {
    if |a| > 0 {
      var n := |a| - 1;
      MagFilled(a[..n]);
      assert FilledWith(a, false)[..n] == FilledWith(a[..n], false);
      assert FilledWith(a, true)[..n] == FilledWith(a[..n], true);
      assert Defined(a) <==> Defined(a[..n]) && IsDef(a[n]);
    }
  }

  /** The truth value of a vector whose undefined bits are all filled alike. */
  lemma {:induction false} TruthFilled(a: Const, p: bool, signed: bool)
    ensures Truth(FilledWith(a, p), signed) == FillBit(Truth(a, signed), p)
  {
    MagFilled(a);
    TruthKeeps(a, FilledWith(a, p), signed);
  }

  lemma {:induction false} LogicalUnsettled(op: Operation, x: Operands, i: nat) returns (y: Operands, z: Operands)
    requires IsLogical(op) && i < |Value(op, x)| && !IsDef(Value(op, x)[i])
    ensures Unsettles(op, x, i, y, z)
  {
    y, z := Fill(x, false, false, false), Fill(x, true, true, true);
    LogicalFilled(op, x);
    VerdictUnsettled(op, x, i, y, z);
  }

  lemma {:induction false} LogicalFilled(op: Operation, x: Operands)
    requires IsLogical(op)
    ensures !IsDef(Verdict(op, x)) ==>
              Verdict(op, Fill(x, false, false, false)) != Verdict(op, Fill(x, true, true, true))
  {
    TruthFilled(x.a, false, x.signedA);
    TruthFilled(x.a, true, x.signedA);
    TruthFilled(x.b, false, x.signedB);
    TruthFilled(x.b, true, x.signedB);
  }

  // ----- Shifts by a defined amount

  lemma {:induction false} ShiftFilled(a: Const, offset: int, signExt: bool, vacant: State, i: nat, p: bool)
    ensures var s, t := ShiftBit(a, offset, signExt, vacant, i), ShiftBit(FilledWith(a, p), offset, signExt, vacant, i);
            t == FillBit(s, p) || t == s == vacant
  {
  }

  predicate IsShift(op: Operation) {
    op.Shl? || op.Shr? || op.Sshl? || op.Sshr? || op.Shift? || op.Shiftx?
  }

  /** The operand `const_shift_worker` is given, and its sign extension, direction and vacant bit. */
  function Shifted(op: Operation, x: Operands): Const {
    match op
    case Shl => Extend(x.a, x.len, x.signedA)
    case Shr | Shift => Extend(x.a, Max(x.len, |x.a|), x.signedA)
    case _ => x.a
  }

  function ShiftedBit(op: Operation, x: Operands, i: nat): State {
    var n := Big(x.b, x.signedB && (op.Shift? || op.Shiftx?));
    ShiftBit(Shifted(op, x), if op.Shl? || op.Sshl? then -n else n, x.signedA && (op.Sshl? || op.Sshr?),
             if op.Shiftx? then Sx else S0, i)
  }

  lemma {:induction false} ShiftValue(op: Operation, x: Operands, i: nat)
    requires IsShift(op) && i < x.len
    ensures |Value(op, x)| == x.len
    ensures Value(op, x)[i] == if Defined(x.b) then ShiftedBit(op, x, i) else Sx
  {
    var n, m := Big(x.b, false), Big(x.b, x.signedB);
    assert n * 1 == n && m * 1 == m && n * -1 == -n;
  }

  lemma {:induction false} ShiftedFilled(op: Operation, x: Operands, i: nat, p: bool)
    requires IsShift(op) && i < x.len && Defined(x.b)
    ensures var y := Fill(x, p, false, false);
            Defined(y.b) && (ShiftedBit(op, y, i) == FillBit(ShiftedBit(op, x, i), p)
                             || ShiftedBit(op, y, i) == ShiftedBit(op, x, i))
  {
    var y := Fill(x, p, false, false);
    CompletesSelf(x.b, y.b);
    FilledExtend(x.a, p, x.signedA, x.len);
    FilledExtend(x.a, p, x.signedA, Max(x.len, |x.a|));
    assert Shifted(op, y) == FilledWith(Shifted(op, x), p);
    var n := Big(x.b, x.signedB && (op.Shift? || op.Shiftx?));
    ShiftFilled(Shifted(op, x), if op.Shl? || op.Sshl? then -n else n, x.signedA && (op.Sshl? || op.Sshr?),
                if op.Shiftx? then Sx else S0, i, p);
  }

  lemma {:induction false} ShiftUnsettled(op: Operation, x: Operands, i: nat) returns (y: Operands, z: Operands)
    requires IsShift(op) && Defined(x.b) && i < |Value(op, x)| && !IsDef(Value(op, x)[i])
    ensures Unsettles(op, x, i, y, z)
  {
    y, z := Fill(x, false, false, false), Fill(x, true, false, false);
    ShiftValue(op, x, if i < x.len then i else 0);
    ShiftValue(op, y, i);
    ShiftValue(op, z, i);
    ShiftedFilled(op, x, i, false);
    ShiftedFilled(op, x, i, true);
  }

  // ----- Multiplexers

  lemma {:induction false} MuxUnsettled(x: Operands, i: nat) returns (y: Operands, z: Operands)
    requires Legal(Mux, x) && i < |x.a| && !IsDef(ConstMux(x.a, x.b, x.s)[i])
    ensures Unsettles(Mux, x, i, y, z)
  {
    if x.s[0] == S0 || (!IsDef(x.s[0]) && !IsDef(x.a[i])) {
      y, z := Fill(x, false, false, false), Fill(x, true, false, false);
    } else if x.s[0] == S1 || !IsDef(x.b[i]) {
      y, z := Fill(x, false, false, true), Fill(x, false, true, true);
    } else {
      y, z := Fill(x, false, false, false), Fill(x, false, false, true);
    }
  }

  lemma {:induction false} FilledWord(b: Const, p: bool, w: nat, n: nat, k: nat)
    requires |b| == Off(w, n) && k < n
    ensures WordOf(w, FilledWith(b, p), n, k) == FilledWith(WordOf(w, b, n, k), p)
  {
    OffMono(w, 0, k);
    OffMono(w, k + 1, n);
    OffAdd(w, k, 1);
  }

  lemma {:induction false} PmuxUnsettled(x: Operands, i: nat) returns (y: Operands, z: Operands)
    requires Legal(Pmux, x) && Defined(x.s) && i < |x.a| && !IsDef(ConstPmux(x.a, x.b, x.s)[i])
    ensures Unsettles(Pmux, x, i, y, z)
  {
    y, z := Fill(x, false, false, false), Fill(x, true, true, false);
    CompletesSelf(x.s, y.s);
    if !FullyZero(x.s) && OneHot(x.s) {
      FilledWord(x.b, false, |x.a|, |x.s|, HotIndex(x.s));
      FilledWord(x.b, true, |x.a|, |x.s|, HotIndex(x.s));
    }
  }

  // ----- The demultiplexer

  lemma {:induction false} DemuxAt(a: Const, s: Const, m: nat, n: nat, j: nat)
    requires n < m && j < |a|
    ensures Off(|a|, n) >= 0 && Off(|a|, n) + j < |DemuxWords(a, s, m)| == Off(|a|, m)
    ensures DemuxWords(a, s, m)[Off(|a|, n) + j] == DemuxWord(a, s, n)[j]
  {
    DemuxWidth(a, s, m);
    DemuxWidth(a, s, m - 1);
    OffMono(|a|, 0, n);
    OffMono(|a|, n + 1, m);
    OffAdd(|a|, n, 1);
    if n < m - 1 {
      DemuxAt(a, s, m - 1, n, j);
    }
  }

  lemma {:induction false} WordIndex(w: nat, m: nat, i: nat) returns (n: nat, j: nat)
    requires i < Off(w, m)
    ensures n < m && j < w && i == Off(w, n) + j
  {
    if w == 0 {
      assert false;
    }
    n, j := i / w, i % w;
    if m <= n {
      OffMono(w, m, n);
      assert false;
    }
  }

  lemma {:induction false} DemuxWidth(a: Const, s: Const, m: nat)
    ensures |DemuxWords(a, s, m)| == Off(|a|, m)
  {
    if m > 0 {
      DemuxWidth(a, s, m - 1);
      OffAdd(|a|, m - 1, 1);
    }
  }

  /** The select input that addresses word `n`, and one next to it that does not. */
  lemma {:induction false} Addressed(s: Const, n: nat) returns (t: Const, u: Const)
    requires !Defined(s) && !SelectsNot(s, n)
    ensures Completes(s, t) && !SelectsNot(t, n)
    ensures Completes(s, u) && SelectsNot(u, n)
  {
    t := FromInt(n, |s|);
    var k := LowestUndef(s);
    u := t[k := Invert(t[k])];
    assert u[k] == if Bit(n, k) then S0 else S1;
  }

  lemma {:induction false} DemuxWordUnsettled(a: Const, s: Const, n: nat, j: nat)
      returns (a': Const, s': Const, a'': Const, s'': Const)
    requires j < |a| && !IsDef(DemuxWord(a, s, n)[j])
    ensures Completes(a, a') && Completes(s, s') && Completes(a, a'') && Completes(s, s'')
    ensures DemuxWord(a', s', n)[j] != DemuxWord(a'', s'', n)[j]
  {
    a', a'' := FilledWith(a, true), FilledWith(a, false);
    if Defined(s) {
      s', s'' := s, s;
    } else {
      s', s'' := Addressed(s, n);
    }
  }

  lemma {:induction false} DemuxUnsettled(x: Operands, i: nat) returns (y: Operands, z: Operands)
    requires i < |ConstDemux(x.a, x.s)| && !IsDef(ConstDemux(x.a, x.s)[i])
    ensures Unsettles(Demux, x, i, y, z)
  {
    var m := Pow2(|x.s|);
    DemuxWidth(x.a, x.s, m);
    var n, j := WordIndex(|x.a|, m, i);
    DemuxAt(x.a, x.s, m, n, j);
    var a', s', a'', s'' := DemuxWordUnsettled(x.a, x.s, n, j);
    var b := FilledWith(x.b, false);
    y, z := x.(a := a', b := b, s := s'), x.(a := a'', b := b, s := s'');
    forall v ensures !HasBit(Demux, y, i, v) || !HasBit(Demux, z, i, v) {
      DemuxBit(y, m, i, n, j, v);
      DemuxBit(z, m, i, n, j, v);
    }
  }

  lemma {:induction false} DemuxBit(x: Operands, m: nat, i: nat, n: nat, j: nat, v: State)
    requires m == Pow2(|x.s|) && n < m && j < |x.a| && i == Off(|x.a|, n) + j
    ensures HasBit(Demux, x, i, v) ==> DemuxWord(x.a, x.s, n)[j] == v
  {
    DemuxAt(x.a, x.s, m, n, j);
  }

  // ----- The binary multiplexer

  /** The position that a defined select input brings to bit `i`. */
  function SelectedAt(width: nat, s: Const, i: nat): nat
    decreases |s|
  {
    if |s| == 0 then i
    else
      var n := |s| - 1;
      SelectedAt(width / 2, s[..n], i) + if s[n] == S1 then width / 2 else 0
  }

  lemma {:induction false} BmuxAt(a: Const, s: Const, i: nat)
    requires |a| % Pow2(|s|) == 0 && Defined(s)
    ensures i < |ConstBmux(a, s)| ==> SelectedAt(|a|, s, i) < |a|
                                      && ConstBmux(a, s)[i] == a[SelectedAt(|a|, s, i)]
    decreases |s|
  {
    if |s| > 0 {
      var n := |s| - 1;
      HalfMultiple(|a|, n);
      var t := BmuxStep(a, s[n]);
      StepAt(a, s[n], SelectedAt(|a| / 2, s[..n], i));
      BmuxAt(t, s[..n], i);
      assert ConstBmux(a, s) == ConstBmux(t, s[..n]);
    }
  }

  lemma {:induction false} StepAt(a: Const, sel: State, p: nat)
    requires |a| % 2 == 0 && IsDef(sel)
    ensures |BmuxStep(a, sel)| == |a| / 2
    ensures p < |a| / 2 ==> BmuxStep(a, sel)[p] == a[p + if sel == S1 then |a| / 2 else 0]
  {
  }

  ghost predicate BmuxSettled(a: Const, s: Const, i: nat, v: State) {
    forall a', s' {:trigger BmuxHas(a', s', i, v)} :: Completes(a, a') && Completes(s, s') ==> BmuxHas(a', s', i, v)
  }

  predicate BmuxHas(a: Const, s: Const, i: nat, v: State) {
    i < |ConstBmux(a, s)| && ConstBmux(a, s)[i] == v
  }

  /** A completed outcome of one selection step comes from a completion of its input, as far as one
      position goes. */
  lemma {:induction false} StepLifts(a: Const, sel: State, t: Const, p: nat) returns (a': Const, sel': State)
    requires |a| % 2 == 0 && Completes(BmuxStep(a, sel), t) && p < |t|
    ensures Completes(a, a') && IsDef(sel') && KeepsBit(sel, sel')
    ensures |BmuxStep(a', sel')| == |t| && BmuxStep(a', sel')[p] == t[p]
  {
    var h := |a| / 2;
    a' := FilledWith(a, t[p] == S1);
    var low := sel == S0 || (sel != S1 && (!IsDef(a[p]) || a[p] == t[p]));
    sel' := if low then S0 else S1;
    assert a'[p] == FillBit(a[p], t[p] == S1) && a'[p + h] == FillBit(a[p + h], t[p] == S1);
  }

  lemma {:induction false} BmuxExact(a: Const, s: Const, i: nat, v: State)
    requires |a| % Pow2(|s|) == 0 && BmuxSettled(a, s, i, v) && i < |ConstBmux(a, s)|
    ensures ConstBmux(a, s)[i] == v
    decreases |s|
  {
    if |s| == 0 {
      var a0, a1 := FilledWith(a, false), FilledWith(a, true);
      assert BmuxHas(a0, s, i, v) && BmuxHas(a1, s, i, v);
    } else {
      var n := |s| - 1;
      HalfMultiple(|a|, n);
      BmuxSettledStep(a, s, i, v);
      BmuxExact(BmuxStep(a, s[n]), s[..n], i, v);
    }
  }

  lemma {:induction false} BmuxSettledStep(a: Const, s: Const, i: nat, v: State)
    requires |s| > 0 && |a| % Pow2(|s|) == 0 && BmuxSettled(a, s, i, v)
    ensures BmuxSettled(BmuxStep(a, s[|s| - 1]), s[..|s| - 1], i, v)
  {
    var n := |s| - 1;
    HalfMultiple(|a|, n);
    forall t, u | Completes(BmuxStep(a, s[n]), t) && Completes(s[..n], u)
      ensures BmuxHas(t, u, i, v)
    {
      BmuxLifted(a, s, i, v, t, u);
    }
  }

  lemma {:induction false} BmuxLifted(a: Const, s: Const, i: nat, v: State, t: Const, u: Const)
    requires |s| > 0 && |a| % Pow2(|s|) == 0 && BmuxSettled(a, s, i, v)
    requires Completes(BmuxStep(a, s[|s| - 1]), t) && Completes(s[..|s| - 1], u)
    ensures BmuxHas(t, u, i, v)
  {
    HalfMultiple(|a|, |s| - 1);
    BmuxLiftedSize(a, s, i, v, t, u);
    var a', s' := BmuxLift(a, s, i, t, u);
    assert BmuxHas(a', s', i, v);
  }

  lemma {:induction false} BmuxLiftedSize(a: Const, s: Const, i: nat, v: State, t: Const, u: Const)
    requires |s| > 0 && |a| % Pow2(|s|) == 0 && BmuxSettled(a, s, i, v)
    requires |t| == |a| / 2 && |u| == |s| - 1
    ensures |t| % Pow2(|u|) == 0 && i < |ConstBmux(t, u)|
  {
    HalfMultiple(|a|, |s| - 1);
    HalfQuotient(|a|, |s| - 1);
    BmuxSettledSize(a, s, i, v);
    BmuxSize(t, u);
  }

  lemma {:induction false} BmuxLift(a: Const, s: Const, i: nat, t: Const, u: Const) returns (a': Const, s': Const)
    requires |s| > 0 && |a| % Pow2(|s|) == 0
    requires Completes(BmuxStep(a, s[|s| - 1]), t) && Completes(s[..|s| - 1], u)
    requires |t| % Pow2(|u|) == 0 && i < |ConstBmux(t, u)|
    ensures Completes(a, a') && Completes(s, s')
    ensures i < |ConstBmux(a', s')| && ConstBmux(a', s')[i] == ConstBmux(t, u)[i]
  {
    var n := |s| - 1;
    HalfMultiple(|a|, n);
    BmuxAt(t, u, i);
    var sel;
    a', sel := StepLifts(a, s[n], t, SelectedAt(|t|, u, i));
    SameSelection(t, BmuxStep(a', sel), u, i);
    s' := u + [sel];
    assert s'[..n] == u;
    CompletesPrefix(s, s', n);
  }

  lemma {:induction false} CompletesPrefix(s: Const, s': Const, n: nat)
    requires |s| == |s'| == n + 1 && Completes(s[..n], s'[..n]) && IsDef(s'[n]) && KeepsBit(s[n], s'[n])
    ensures Completes(s, s')
  {
    forall i | 0 <= i < |s| ensures IsDef(s'[i]) && (IsDef(s[i]) ==> s'[i] == s[i]) {
      if i < n {
        assert s'[..n][i] == s'[i] && s[..n][i] == s[i];
      }
    }
  }

  lemma {:induction false} BmuxSettledSize(a: Const, s: Const, i: nat, v: State)
    requires |a| % Pow2(|s|) == 0 && BmuxSettled(a, s, i, v)
    ensures i < |a| / Pow2(|s|)
  {
    var a', s' := FilledWith(a, false), FilledWith(s, false);
    BmuxSize(a', s');
    assert BmuxHas(a', s', i, v);
  }

  lemma {:induction false} SameSelection(t: Const, t': Const, u: Const, i: nat)
    requires |t'| == |t| && |t| % Pow2(|u|) == 0 && Defined(u) && i < |ConstBmux(t, u)|
    requires SelectedAt(|t|, u, i) < |t| && t'[SelectedAt(|t|, u, i)] == t[SelectedAt(|t|, u, i)]
    ensures i < |ConstBmux(t', u)| && ConstBmux(t', u)[i] == ConstBmux(t, u)[i]
  {
    BmuxSize(t, u);
    BmuxSize(t', u);
    BmuxAt(t, u, i);
    BmuxAt(t', u, i);
  }

  /** The number of result bits depends on the widths only. */
  lemma {:induction false} BmuxSize(a: Const, s: Const)
    requires |a| % Pow2(|s|) == 0
    ensures |ConstBmux(a, s)| == |a| / Pow2(|s|)
    decreases |s|
  {
    if |s| > 0 {
      var n := |s| - 1;
      HalfMultiple(|a|, n);
      BmuxSize(BmuxStep(a, s[n]), s[..n]);
      HalfQuotient(|a|, n);
    }
  }

  lemma {:induction false} HalfQuotient(x: nat, n: nat)
    requires x % Pow2(n + 1) == 0
    ensures x / Pow2(n + 1) == (x / 2) / Pow2(n)
  {
    var k, p := x / Pow2(n + 1), Pow2(n);
    assert x == k * (2 * p) == 2 * (k * p);
    DivModUnique(k * p, p, k, 0);
  }

  // ----- Equality

  function Equality(a: Const, b: Const, signed: bool): State {
    var w := Max(|a|, |b|);
    Matched(Extend(a, w, signed), Extend(b, w, signed))
  }

  /** The undefined sign of the narrower operand is extended over both a 0 and a 1 of the wider one. */
  predicate Torn(narrow: Const, wide: Const, signed: bool) {
    && signed && 0 < |narrow| < |wide| && !IsDef(narrow[|narrow| - 1])
    && S0 in wide[|narrow| - 1..] && S1 in wide[|narrow| - 1..]
  }

  lemma {:induction false} EqualitySymmetric(a: Const, b: Const, signed: bool)
    ensures Equality(a, b, signed) == Equality(b, a, signed)
  {
    var w := Max(|a|, |b|);
    var e, f := Extend(a, w, signed), Extend(b, w, signed);
    assert forall i :: 0 <= i < w ==> (Clash(e[i], f[i]) <==> Clash(f[i], e[i]));
  }

  lemma {:induction false} CanDifferFirst(a: Const, b: Const, signed: bool) returns (a': Const, b': Const)
    requires !Defined(a)
    ensures Completes(a, a') && Completes(b, b') && Equality(a', b', signed) == S0
  {
    var k := LowestUndef(a);
    b' := FilledWith(b, false);
    a' := FilledWith(a, false)[k := Invert(ExtBit(b', signed, k))];
    var w := Max(|a|, |b|);
    assert Clash(Extend(a', w, signed)[k], Extend(b', w, signed)[k]);
  }

  lemma {:induction false} CanDiffer(a: Const, b: Const, signed: bool) returns (a': Const, b': Const)
    requires Equality(a, b, signed) == Sx
    ensures Completes(a, a') && Completes(b, b') && Equality(a', b', signed) == S0
  {
    if !Defined(a) {
      a', b' := CanDifferFirst(a, b, signed);
    } else {
      b', a' := CanDifferFirst(b, a, signed);
      EqualitySymmetric(a', b', signed);
    }
  }

  /** The narrower operand filled in so that it can equal the wider one. */
  function Agreeing(a: Const, b: Const, signed: bool): (r: Const)
    requires |a| <= |b|
    ensures Completes(a, r)
  {
    seq(|a|, i requires 0 <= i < |a| =>
      if IsDef(a[i]) then a[i]
      else if signed && i == |a| - 1 then ToState(S1 in b[i..])
      else ToState(b[i] == S1))
  }

  lemma {:induction false} AgreesAt(a: Const, b: Const, signed: bool, i: nat)
    requires |a| <= |b| && i < |b| && !Torn(a, b, signed) && IsDef(b[i]) && !Clash(ExtBit(a, signed, i), b[i])
    ensures ExtBit(Agreeing(a, b, signed), signed, i) == b[i]
  {
    var k := |a| - 1;
    if signed && k >= 0 && i >= k {
      assert b[k..][i - k] == b[i];
    }
  }

  lemma {:induction false} CanAgreeNarrow(a: Const, b: Const, signed: bool) returns (a': Const, b': Const)
    requires |a| <= |b| && Equality(a, b, signed) == Sx && !Torn(a, b, signed)
    ensures Completes(a, a') && Completes(b, b') && Equality(a', b', signed) == S1
  {
    a' := Agreeing(a, b, signed);
    var e := Extend(a', |b|, signed);
    b' := seq(|b|, i requires 0 <= i < |b| => if IsDef(b[i]) then b[i] else e[i]);
    forall i | 0 <= i < |b| ensures e[i] == b'[i] {
      if IsDef(b[i]) {
        assert !Clash(Extend(a, |b|, signed)[i], Extend(b, |b|, signed)[i]);
        AgreesAt(a, b, signed, i);
      }
    }
    assert Extend(b', |b|, signed) == b' == e;
  }

  lemma {:induction false} CanAgree(a: Const, b: Const, signed: bool) returns (a': Const, b': Const)
    requires Equality(a, b, signed) == Sx && !Torn(a, b, signed) && !Torn(b, a, signed)
    ensures Completes(a, a') && Completes(b, b') && Equality(a', b', signed) == S1
  {
    if |a| <= |b| {
      a', b' := CanAgreeNarrow(a, b, signed);
    } else {
      EqualitySymmetric(a, b, signed);
      b', a' := CanAgreeNarrow(b, a, signed);
      EqualitySymmetric(a', b', signed);
    }
  }

  /** A torn sign bit differs from the wider operand however it is filled in. */
  lemma {:induction false} TornDiffers(a: Const, b: Const, a': Const, b': Const, signed: bool)
    requires Torn(a, b, signed) && Completes(a, a') && Completes(b, b')
    ensures Equality(a', b', signed) == S0
  {
    var k := |a| - 1;
    var i :| 0 <= i < |b[k..]| && b[k..][i] == S0;
    var j :| 0 <= j < |b[k..]| && b[k..][j] == S1;
    var e := Extend(a', |b|, signed);
    assert e[k + i] == e[k + j] == a'[k] && b'[k + i] == S0 && b'[k + j] == S1;
    assert Extend(b', |b|, signed) == b';
    assert Clash(e[k + i], b'[k + i]) || Clash(e[k + j], b'[k + j]);
  }

  /** The sign extension of an undefined bit hides that the operands cannot be equal. */
  predicate HiddenClash(x: Operands) {
    var signed := x.signedA && x.signedB;
    Equality(x.a, x.b, signed) == Sx && (Torn(x.a, x.b, signed) || Torn(x.b, x.a, signed))
  }

  lemma {:induction false} EqualityBit(op: Operation, x: Operands, i: nat)
    requires (op.Eq? || op.Ne?) && Legal(op, x) && i < x.len
    ensures |Value(op, x)| == x.len
    ensures var e := Equality(x.a, x.b, x.signedA && x.signedB);
            Value(op, x)[i] == if i > 0 then S0 else if op.Eq? then e else Invert(e)
  {
  }

  lemma {:induction false} EqualityUnsettled(op: Operation, x: Operands, i: nat) returns (y: Operands, z: Operands)
    requires (op.Eq? || op.Ne?) && Legal(op, x) && !HiddenClash(x)
    requires i < |Value(op, x)| && !IsDef(Value(op, x)[i])
    ensures Unsettles(op, x, i, y, z)
  {
    var signed := x.signedA && x.signedB;
    EqualityBit(op, x, i);
    var a', b' := CanDiffer(x.a, x.b, signed);
    var a'', b'' := CanAgree(x.a, x.b, signed);
    y := x.(a := a', b := b', s := FilledWith(x.s, false));
    z := x.(a := a'', b := b'', s := FilledWith(x.s, false));
    EqualityBit(op, y, i);
    EqualityBit(op, z, i);
  }

  /** A hidden clash settles the comparison, which the evaluator leaves undefined. */
  lemma {:induction false} HiddenClashSettles(op: Operation, x: Operands)
    requires (op.Eq? || op.Ne?) && Legal(op, x) && HiddenClash(x)
    ensures Settled(op, x, 0, ToState(op.Ne?)) && |Value(op, x)| > 0 && Value(op, x)[0] == Sx
  {
    var signed := x.signedA && x.signedB;
    EqualityBit(op, x, 0);
    forall y | CompletesAll(x, y) ensures HasBit(op, y, 0, ToState(op.Ne?)) {
      EqualityBit(op, y, 0);
      if Torn(x.a, x.b, signed) {
        TornDiffers(x.a, x.b, y.a, y.b, signed);
      } else {
        TornDiffers(x.b, x.a, y.b, y.a, signed);
        EqualitySymmetric(y.a, y.b, signed);
      }
    }
  }

  // ----- All operations

  predicate IsOrder(op: Operation) {
    op.Lt? || op.Le? || op.Ge? || op.Gt?
  }

  predicate IsArithmetic(op: Operation) {
    op.Neg? || op.Add? || op.Sub? || op.Mul? || op.Div? || op.Mod? || op.DivFloor? || op.ModFloor?
  }

  /** Where the evaluator is exact: always, except that a sign extension can hide a clash from an equality, and
      that some operations do not look into an undefined operand. */
  predicate Precise(op: Operation, x: Operands) {
    match op
    case Eq | Ne => !HiddenClash(x)
    case Shl | Shr | Sshl | Sshr | Shift | Shiftx => Defined(x.b)
    case Lt | Le | Ge | Gt | Add | Sub | Mul | Div | Mod | DivFloor | ModFloor => Defined(x.a) && Defined(x.b)
    case Neg => Defined(x.a)
    case Pmux => Defined(x.s)
    case _ => true
  }

  /** Operations on defined operands: a completion changes nothing. */
  lemma {:induction false} StrictUnsettled(op: Operation, x: Operands, i: nat) returns (y: Operands, z: Operands)
    requires (IsOrder(op) || IsArithmetic(op)) && Precise(op, x) && i < |Value(op, x)|
    ensures Unsettles(op, x, i, y, z)
  {
    y := x.(b := FilledWith(x.b, false), s := FilledWith(x.s, false));
    z := y;
    SelectUnused(op, x, y);
    SameBits(op, x, i, y);
  }

  lemma {:induction false} SameBits(op: Operation, x: Operands, i: nat, y: Operands)
    requires Legal(op, x) && Legal(op, y) && CompletesAll(x, y) && Value(op, y) == Value(op, x)
    ensures Unsettles(op, x, i, y, y)
  {
  }

  lemma {:induction false} SelectUnused(op: Operation, x: Operands, y: Operands)
    requires IsOrder(op) || IsArithmetic(op)
    requires Precise(op, x) && y == x.(b := y.b, s := y.s) && CompletesAll(x, y)
    ensures Value(op, y) == Value(op, x)
  {
    if !op.Neg? {
      CompletesSelf(x.b, y.b);
    }
    if IsOrder(op) {
      CompareValue(op, x);
      CompareValue(op, y);
    } else if IsDivision(op) {
      DivisionValue(op, x);
      DivisionValue(op, y);
    } else if !op.Neg? {
      ArithValue(op, x);
      ArithValue(op, y);
    }
  }

  /** Two completions show that an undefined result bit could not have been computed. */
  lemma {:induction false} Unsettled(op: Operation, x: Operands, i: nat) returns (y: Operands, z: Operands)
    requires Legal(op, x) && Precise(op, x) && !op.Bmux? && i < |Value(op, x)| && !IsDef(Value(op, x)[i])
    ensures Unsettles(op, x, i, y, z)
  {
    if op.Mux? || op.Pmux? || op.Demux? {
      y, z := SelectionUnsettled(op, x, i);
    } else if IsOrder(op) || IsArithmetic(op) {
      y, z := StrictUnsettled(op, x, i);
    } else if IsReduction(op) {
      y, z := ReductionUnsettled(op, x, i);
    } else if IsLogical(op) {
      y, z := LogicalUnsettled(op, x, i);
    } else {
      y, z := BitsUnsettled(op, x, i);
    }
  }

  lemma {:induction false} BitsUnsettled(op: Operation, x: Operands, i: nat) returns (y: Operands, z: Operands)
    requires op.Not? || op.Pos? || op.And? || op.Or? || op.Xor? || op.Xnor? || IsShift(op) || op.Eq? || op.Ne?
    requires Legal(op, x) && Precise(op, x) && i < |Value(op, x)| && !IsDef(Value(op, x)[i])
    ensures Unsettles(op, x, i, y, z)
  {
    if IsShift(op) {
      y, z := ShiftUnsettled(op, x, i);
    } else if op.Eq? || op.Ne? {
      y, z := EqualityUnsettled(op, x, i);
    } else {
      y, z := BitwiseUnsettled(op, x, i);
    }
  }

  lemma {:induction false} SelectionUnsettled(op: Operation, x: Operands, i: nat) returns (y: Operands, z: Operands)
    requires op.Mux? || op.Pmux? || op.Demux?
    requires Legal(op, x) && Precise(op, x) && i < |Value(op, x)| && !IsDef(Value(op, x)[i])
    ensures Unsettles(op, x, i, y, z)
  {
    if op.Mux? {
      y, z := MuxUnsettled(x, i);
    } else if op.Pmux? {
      y, z := PmuxUnsettled(x, i);
    } else {
      y, z := DemuxUnsettled(x, i);
    }
  }

  lemma {:induction false} SettledBmux(x: Operands, i: nat, v: State)
    requires Legal(Bmux, x) && i < |ConstBmux(x.a, x.s)| && Settled(Bmux, x, i, v)
    ensures ConstBmux(x.a, x.s)[i] == v
  {
    forall a', s' | Completes(x.a, a') && Completes(x.s, s')
      ensures BmuxHas(a', s', i, v)
    {
      var y := x.(a := a', b := FilledWith(x.b, false), s := s');
      assert CompletesAll(x, y);
      BmuxBit(y, i, v);
    }
    BmuxExact(x.a, x.s, i, v);
  }

  lemma {:induction false} BmuxBit(y: Operands, i: nat, v: State)
    requires HasBit(Bmux, y, i, v)
    ensures i < |ConstBmux(y.a, y.s)| && ConstBmux(y.a, y.s)[i] == v
  {
  }

  /** A result bit is computed as `v` if and only if it is `v` however the undefined operand bits are filled in. */
  lemma {:induction false} Exact(op: Operation, x: Operands, i: nat, v: State)
    requires Legal(op, x) && Precise(op, x) && i < |Value(op, x)|
    ensures Settled(op, x, i, v) ==> Value(op, x)[i] == v
    ensures IsDef(v) && Value(op, x)[i] == v ==> Settled(op, x, i, v)
  {
    if IsDef(Value(op, x)[i]) {
      DefinedSettled(op, x, i);
    } else if Settled(op, x, i, v) {
      UndefinedSettled(op, x, i, v);
    }
  }

  lemma {:induction false} UndefinedSettled(op: Operation, x: Operands, i: nat, v: State)
    requires Legal(op, x) && Precise(op, x) && i < |Value(op, x)| && !IsDef(Value(op, x)[i]) && Settled(op, x, i, v)
    ensures Value(op, x)[i] == v
  {
    if op.Bmux? {
      SettledBmux(x, i, v);
    } else {
      var y, z := Unsettled(op, x, i);
      assert HasBit(op, y, i, v) && HasBit(op, z, i, v);
    }
  }

  lemma {:induction false} DefinedSettled(op: Operation, x: Operands, i: nat)
    requires Legal(op, x) && i < |Value(op, x)| && IsDef(Value(op, x)[i])
    ensures forall v :: Settled(op, x, i, v) <==> v == Value(op, x)[i]
  {
    var u := Value(op, x)[i];
    forall y | CompletesAll(x, y) ensures HasBit(op, y, i, u) {
      Sound(op, x, y);
      assert KeepsBit(Value(op, x)[i], Value(op, y)[i]);
    }
    var z := Fill(x, false, false, false);
    forall v | Settled(op, x, i, v) ensures v == u {
      assert HasBit(op, z, i, v) && HasBit(op, z, i, u);
    }
  }

  /** Every settled result bit is computed. */
  ghost predicate ExactOn(op: Operation, x: Operands)
    requires Legal(op, x)
  {
    forall i: nat, v :: i < |Value(op, x)| && Settled(op, x, i, v) ==> Value(op, x)[i] == v
  }

  lemma {:induction false} PreciseExact(op: Operation, x: Operands)
    requires Legal(op, x) && Precise(op, x)
    ensures ExactOn(op, x)
  {
    forall i: nat, v | i < |Value(op, x)| && Settled(op, x, i, v) ensures Value(op, x)[i] == v {
      Exact(op, x, i, v);
    }
  }

  /** Exactly when an equality is computed as soon as it is settled. */
  lemma {:induction false} EqualityExactIff(op: Operation, x: Operands)
    requires (op.Eq? || op.Ne?) && Legal(op, x)
    ensures ExactOn(op, x) <==> !HiddenClash(x)
  {
    if HiddenClash(x) {
      HiddenClashSettles(op, x);
    } else {
      PreciseExact(op, x);
    }
  }

  predicate IsDivision(op: Operation) {
    op.Div? || op.Mod? || op.DivFloor? || op.ModFloor?
  }

  /** Operands that an operation gives up on: an undefined operand, shift amount or select input, or a divisor
      that reads as zero. */
  predicate GivesUp(op: Operation, x: Operands) {
    match op
    case Shl | Shr | Sshl | Sshr | Shift | Shiftx => !Defined(x.b)
    case Lt | Le | Ge | Gt | Add | Sub | Mul => !Defined(x.a) || !Defined(x.b)
    case Div | Mod | DivFloor | ModFloor => !Defined(x.a) || !Defined(x.b) || Big(x.b, x.signedB) == 0
    case Neg => !Defined(x.a)
    case Pmux => !FullyZero(x.s) && !OneHot(x.s)
    case _ => false
  }

  /** What remains outside `Exact`: the operation answers `x` in every bit, or in the truth bit. */
  lemma {:induction false} Strict(op: Operation, x: Operands, i: nat)
    requires Legal(op, x) && i < |Value(op, x)|
    ensures GivesUp(op, x) ==> Value(op, x)[i] == if IsOrder(op) && i > 0 then S0 else Sx
    ensures Precise(op, x) || GivesUp(op, x) || op.Eq? || op.Ne?
  {
    if IsShift(op) {
      ShiftStrict(op, x, i);
    } else if IsOrder(op) {
      CompareValue(op, x);
    } else if IsArithmetic(op) {
      if GivesUp(op, x) {
        ArithmeticStrict(op, x, i);
      }
    }
  }

  lemma {:induction false} ArithmeticStrict(op: Operation, x: Operands, i: nat)
    requires IsArithmetic(op) && GivesUp(op, x) && i < |Value(op, x)|
    ensures Value(op, x)[i] == Sx
  {
    if IsDivision(op) {
      DivisionValue(op, x);
    } else if !op.Neg? {
      ArithValue(op, x);
    }
  }

  lemma {:induction false} ShiftStrict(op: Operation, x: Operands, i: nat)
    requires IsShift(op) && i < |Value(op, x)|
    ensures !Defined(x.b) ==> Value(op, x)[i] == Sx
  {
    ShiftValue(op, x, if i < x.len then i else 0);
  }

  /** Operations that hand operand bits on unchanged, of whatever state. */
  predicate PassesBits(op: Operation) {
    op.Pos? || IsShift(op) || op.Mux? || op.Pmux? || op.Bmux? || op.Demux?
  }

  lemma {:induction false} FoldedState(a: Const)
    ensures Fold(LogicAnd, S1, a) == Sx || IsDef(Fold(LogicAnd, S1, a))
    ensures Fold(LogicOr, S0, a) == Sx || IsDef(Fold(LogicOr, S0, a))
  {
    if |a| > 0 {
      FoldedState(a[..|a| - 1]);
    }
  }

  /** All other operations answer 0, 1 or `x`. */
  lemma {:induction false} ThreeStates(op: Operation, x: Operands, i: nat)
    requires Legal(op, x) && !PassesBits(op) && i < |Value(op, x)|
    ensures Value(op, x)[i] == Sx || IsDef(Value(op, x)[i])
  {
    if IsReduction(op) || IsLogical(op) {
      VerdictValue(op, x);
      FoldedState(x.a);
      ParityDefined(x.a);
    } else if IsOrder(op) {
      CompareValue(op, x);
    } else if op.Eq? || op.Ne? {
      EqualityBit(op, x, if i < x.len then i else 0);
    } else if IsDivision(op) {
      DivisionValue(op, x);
    } else if op.Add? || op.Sub? || op.Mul? {
      ArithValue(op, x);
    } else if op.And? || op.Or? || op.Xor? || op.Xnor? {
      BinaryBit(op, x, i);
    }
  }

  /** An undefined shift amount gives `x` even where every amount gives 0. */
  lemma {:induction false} UndefinedAmount()
    ensures var x := Operands([S0], [Sx], [], false, false, 1);
            Value(Shr, x) == [Sx] && Settled(Shr, x, 0, S0) && !Precise(Shr, x)
  {
    var x := Operands([S0], [Sx], [], false, false, 1);
    ShiftValue(Shr, x, 0);
    forall y | CompletesAll(x, y) ensures HasBit(Shr, y, 0, S0) {
      assert y.a == [S0] && Defined(y.b);
      ShiftValue(Shr, y, 0);
    }
  }

  /** The power with an undefined operand: 0 if the base reads as zero and the exponent as positive, else `x`. */
  lemma {:induction false} PowStrict(a: Const, b: Const, sa: bool, sb: bool, len: nat, i: nat)
    requires (!Defined(a) || !Defined(b)) && i < len
    ensures |ConstPow(a, b, sa, sb, len)| == len
    ensures ConstPow(a, b, sa, sb, len)[i] == if Big(a, sa) == 0 && Big(b, sb) > 0 then S0 else Sx
  {
  }

  // ----- The bitwise multiplexer

  /** Unless the select bit is undefined but not `x`, a bit is computed if every completion gives one value. */
  lemma {:induction false} BwmuxExact(a: Const, b: Const, s: Const, i: nat, v: State)
    requires |a| == |b| == |s| && i < |a| && (IsDef(s[i]) || s[i] == Sx)
    requires forall a', b', s' {:trigger ConstBwmux(a', b', s')} ::
               Completes(a, a') && Completes(b, b') && Completes(s, s') ==> ConstBwmux(a', b', s')[i] == v
    ensures ConstBwmux(a, b, s)[i] == v
  {
    var s0, s1 := FilledWith(s, false), FilledWith(s, true);
    var a0, a1, b0, b1 := FilledWith(a, false), FilledWith(a, true), FilledWith(b, false), FilledWith(b, true);
    assert ConstBwmux(a0, b0, s0)[i] == ConstBwmux(a1, b1, s0)[i];
    assert ConstBwmux(a0, b0, s1)[i] == ConstBwmux(a1, b1, s1)[i];
  }
}
