/** Exactly when the order comparisons and the parallel multiplexer of the constant evaluator (`kernel/calc.cc`)
    give up on a result bit that their undefined operand bits do not affect. */
module XBounds {
  import opened Bits
  import opened Calc
  import opened XSound
  import opened XExact

  // ----- Order comparisons

  /** The completion with the least or the greatest value: a sign bit counts the other way round. */
  function Extreme(c: Const, signed: bool, high: bool): (d: Const)
    ensures Completes(c, d)
  {
    seq(|c|, i requires 0 <= i < |c| =>
      if IsDef(c[i]) then c[i] else ToState((signed && i == |c| - 1) != high))
  }

  function Least(c: Const, signed: bool): int {
    Val(Extreme(c, signed, false), signed)
  }

  function Greatest(c: Const, signed: bool): int {
    Val(Extreme(c, signed, true), signed)
  }

  lemma {:induction false} UValGrows(c: Const, d: Const)
    requires |c| == |d| && forall i :: 0 <= i < |c| && c[i] == S1 ==> d[i] == S1
    ensures UVal(c) <= UVal(d)
  {
    if |c| > 0 {
      UValGrows(c[..|c| - 1], d[..|d| - 1]);
    }
  }

  /** The top bit of a signed value counts negatively. */
  lemma {:induction false} SValSplit(c: Const)
    requires |c| > 0
    ensures SVal(c) == UVal(c[..|c| - 1]) - if IsNeg(c) then Pow2(|c| - 1) else 0
  {
  }

  lemma {:induction false} ValGrows(c: Const, d: Const, signed: bool)
    requires |c| == |d|
    requires forall i :: 0 <= i < |c| && !(signed && i == |c| - 1) && c[i] == S1 ==> d[i] == S1
    requires signed && |c| > 0 && d[|c| - 1] == S1 ==> c[|c| - 1] == S1
    ensures Val(c, signed) <= Val(d, signed)
  {
    if signed && |c| > 0 {
      var n := |c| - 1;
      UValGrows(c[..n], d[..n]);
      SValSplit(c);
      SValSplit(d);
    } else {
      UValGrows(c, d);
    }
  }

  /** The two extremes bound every completion. */
  lemma {:induction false} Bounded(c: Const, d: Const, signed: bool)
    requires Completes(c, d)
    ensures Least(c, signed) <= Val(d, signed) <= Greatest(c, signed)
  {
    ValGrows(Extreme(c, signed, false), d, signed);
    ValGrows(d, Extreme(c, signed, true), signed);
  }

  /** The operand values for which the comparison is most, or least, likely to hold. */
  function Widest(op: Operation, x: Operands, holds: bool): (int, int) {
    if (op.Lt? || op.Le?) == holds then (Least(x.a, x.signedA), Greatest(x.b, x.signedB))
    else (Greatest(x.a, x.signedA), Least(x.b, x.signedB))
  }

  /** The ranges of the operands alone decide the comparison. */
  predicate Decided(op: Operation, x: Operands) {
    var least, most := Widest(op, x, false), Widest(op, x, true);
    Holds(op, least.0, least.1) || !Holds(op, most.0, most.1)
  }

  lemma {:induction false} OrderBit(op: Operation, y: Operands)
    requires IsOrder(op) && Defined(y.a) && Defined(y.b)
    ensures HasBit(op, y, 0, ToState(Holds(op, Val(y.a, y.signedA), Val(y.b, y.signedB))))
  {
    CompareValue(op, y);
    BigIsVal(y.a, y.signedA);
    BigIsVal(y.b, y.signedB);
  }

  lemma {:induction false} HoldsBetween(op: Operation, x: Operands, y: Operands)
    requires IsOrder(op) && CompletesAll(x, y)
    ensures var p, q := Val(y.a, y.signedA), Val(y.b, y.signedB);
            var least, most := Widest(op, x, false), Widest(op, x, true);
            (Holds(op, least.0, least.1) ==> Holds(op, p, q)) && (Holds(op, p, q) ==> Holds(op, most.0, most.1))
  {
    Bounded(x.a, y.a, x.signedA);
    Bounded(x.b, y.b, x.signedB);
  }

  /** A completion that attains the given pair of extremes. */
  function Outermost(op: Operation, x: Operands, holds: bool): (y: Operands)
    ensures CompletesAll(x, y)
    ensures (Val(y.a, y.signedA), Val(y.b, y.signedB)) == Widest(op, x, holds)
  {
    var low := (op.Lt? || op.Le?) == holds;
    x.(a := Extreme(x.a, x.signedA, !low), b := Extreme(x.b, x.signedB, low), s := FilledWith(x.s, false))
  }

  /** The truth bit of a comparison is settled exactly if the ranges of the operands decide it. */
  lemma {:induction false} OrderSettled(op: Operation, x: Operands)
    requires IsOrder(op)
    ensures (exists v :: Settled(op, x, 0, v)) <==> Decided(op, x)
  {
    if v :| Settled(op, x, 0, v) {
      SettledDecides(op, x, v);
    }
    if Decided(op, x) {
      var least := Widest(op, x, false);
      var v := ToState(Holds(op, least.0, least.1));
      forall u | CompletesAll(x, u) ensures HasBit(op, u, 0, v) {
        HoldsBetween(op, x, u);
        OrderBit(op, u);
      }
      assert Settled(op, x, 0, v);
    }
  }

  lemma {:induction false} SettledDecides(op: Operation, x: Operands, v: State)
    requires IsOrder(op) && Settled(op, x, 0, v)
    ensures Decided(op, x)
  {
    var y, z := Outermost(op, x, false), Outermost(op, x, true);
    OrderBit(op, y);
    OrderBit(op, z);
    assert HasBit(op, y, 0, v) && HasBit(op, z, 0, v);
  }

  /** Exactly when an order comparison is computed as soon as it is settled. */
  lemma {:induction false} OrderExactIff(op: Operation, x: Operands)
    requires IsOrder(op)
    ensures ExactOn(op, x) <==> (Defined(x.a) && Defined(x.b)) || !Decided(op, x)
  {
    if Defined(x.a) && Defined(x.b) {
      PreciseExact(op, x);
    } else {
      OrderSettled(op, x);
      OrderGivesUp(op, x);
    }
  }

  lemma {:induction false} OrderGivesUp(op: Operation, x: Operands)
    requires IsOrder(op) && !(Defined(x.a) && Defined(x.b))
    ensures ExactOn(op, x) <==> !exists v :: Settled(op, x, 0, v)
  {
    CompareValue(op, x);
    var r := Value(op, x);
    if v :| Settled(op, x, 0, v) {
      var y := Outermost(op, x, true);
      OrderBit(op, y);
      assert HasBit(op, y, 0, v);
      assert r[0] == Sx != v;
    } else {
      forall i: nat, v | i < |r| && Settled(op, x, i, v) ensures r[i] == v {
        DefinedSettled(op, x, i);
      }
    }
  }

  // ----- The parallel multiplexer

  /** One undefined select bit, and zeros elsewhere. */
  predicate OneUnknown(s: Const, k: nat) {
    k < |s| && !IsDef(s[k]) && forall i :: 0 <= i < |s| && i != k ==> s[i] == S0
  }

  /** Bit `i` is the same whether the one unknown select bit is set or not. */
  predicate Tied(x: Operands, k: nat, i: nat)
    requires Legal(Pmux, x)
  {
    OneUnknown(x.s, k) && i < |x.a| && IsDef(x.a[i]) && WordOf(|x.a|, x.b, |x.s|, k)[i] == x.a[i]
  }

  /** The completion that sets the undefined select bits `k` and `j` only. */
  function Setting(x: Operands, p: bool, q: bool, k: nat, j: nat): (y: Operands)
    ensures CompletesAll(x, y)
  {
    x.(a := FilledWith(x.a, p), b := FilledWith(x.b, q),
       s := seq(|x.s|, i requires 0 <= i < |x.s| => if IsDef(x.s[i]) then x.s[i] else ToState(i == k || i == j)))
  }

  lemma {:induction false} TwoOnes(s: Const, k: nat, j: nat)
    requires k < |s| && j < |s| && k != j && s[k] == s[j] == S1
    ensures !FullyZero(s) && !OneHot(s)
  {
  }

  /** With a second bit that is or may be set, some completion leaves the result undefined. */
  lemma {:induction false} Collides(x: Operands, k: nat, j: nat, i: nat, v: State)
    requires Legal(Pmux, x) && k < |x.s| && j < |x.s| && k != j && !IsDef(x.s[k]) && x.s[j] != S0
    requires i < |x.a| && Settled(Pmux, x, i, v)
    ensures v == Sx
  {
    var y := Setting(x, false, false, k, j);
    TwoOnes(y.s, k, j);
    assert HasBit(Pmux, y, i, v);
  }

  lemma {:induction false} HotBit(y: Operands, k: nat, i: nat, v: State)
    requires OneHotAt(y.s, k) && HasBit(Pmux, y, i, v)
    ensures v == WordOf(|y.a|, y.b, |y.s|, k)[i]
  {
    assert HotIndex(y.s) == k && !FullyZero(y.s);
  }

  /** With one unknown bit, a settled result bit is one that both choices agree on. */
  lemma {:induction false} SettledTies(x: Operands, k: nat, i: nat, v: State)
    requires Legal(Pmux, x) && OneUnknown(x.s, k) && i < |x.a| && Settled(Pmux, x, i, v)
    ensures Tied(x, k, i)
  {
    SettledDefault(x, k, i, v, false);
    SettledDefault(x, k, i, v, true);
    SettledWord(x, k, i, v, false);
    SettledWord(x, k, i, v, true);
  }

  lemma {:induction false} SettledDefault(x: Operands, k: nat, i: nat, v: State, p: bool)
    requires Legal(Pmux, x) && OneUnknown(x.s, k) && i < |x.a| && Settled(Pmux, x, i, v)
    ensures v == FillBit(x.a[i], p)
  {
    var y := Setting(x, p, false, |x.s|, |x.s|);
    assert FullyZero(y.s) && HasBit(Pmux, y, i, v);
  }

  lemma {:induction false} SettledWord(x: Operands, k: nat, i: nat, v: State, p: bool)
    requires Legal(Pmux, x) && OneUnknown(x.s, k) && i < |x.a| && Settled(Pmux, x, i, v)
    ensures v == FillBit(WordOf(|x.a|, x.b, |x.s|, k)[i], p)
  {
    var y := Setting(x, false, p, k, k);
    assert OneHotAt(y.s, k) && HasBit(Pmux, y, i, v);
    HotBit(y, k, i, v);
    FilledWord(x.b, p, |x.a|, |x.s|, k);
  }

  lemma {:induction false} TieSettles(x: Operands, k: nat, i: nat)
    requires Legal(Pmux, x) && Tied(x, k, i)
    ensures Settled(Pmux, x, i, x.a[i])
  {
    forall y | CompletesAll(x, y) ensures HasBit(Pmux, y, i, x.a[i]) {
      if y.s[k] == S0 {
        assert FullyZero(y.s);
      } else {
        assert OneHotAt(y.s, k) && HotIndex(y.s) == k && !FullyZero(y.s);
        WordKeeps(|x.a|, x.b, y.b, |x.s|, k);
        assert KeepsBit(WordOf(|x.a|, x.b, |x.s|, k)[i], WordOf(|x.a|, y.b, |x.s|, k)[i]);
      }
    }
  }

  /** Exactly when the parallel multiplexer computes every settled bit. */
  lemma {:induction false} PmuxExactIff(x: Operands)
    requires Legal(Pmux, x)
    ensures ExactOn(Pmux, x) <==> !exists k: nat, i: nat :: Tied(x, k, i)
  {
    if Defined(x.s) {
      PreciseExact(Pmux, x);
    } else {
      assert !FullyZero(x.s) && !OneHot(x.s);
      if k: nat, i: nat :| Tied(x, k, i) {
        TieSettles(x, k, i);
        assert Value(Pmux, x)[i] == Sx;
      } else {
        forall i: nat, v | i < |x.a| && Settled(Pmux, x, i, v) ensures v == Sx {
          UntiedUndefined(x, i, v);
        }
      }
    }
  }

  lemma {:induction false} UntiedUndefined(x: Operands, i: nat, v: State)
    requires Legal(Pmux, x) && !Defined(x.s) && i < |x.a| && Settled(Pmux, x, i, v)
    requires !exists k: nat, i: nat :: Tied(x, k, i)
    ensures v == Sx
  {
    var k := LowestUndef(x.s);
    if j: nat :| j < |x.s| && j != k && x.s[j] != S0 {
      Collides(x, k, j, i, v);
    } else {
      SettledTies(x, k, i, v);
    }
  }
}
