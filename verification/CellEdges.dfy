/** Combinational edges of the shift cells (`shift_op` in `kernel/celledges.cc`),
    judged against the values `kernel/calc.cc` computes. */
module CellEdges {
  import opened Bits
  import opened Calc

  datatype ShiftType = Shl | Shr | Sshl | Sshr | Shift | Shiftx

  datatype Cell = Cell(kind: ShiftType, aSigned: bool, bSigned: bool, aWidth: nat, bWidth: nat, yWidth: nat)

  datatype Port = A | B

  datatype Edge = Edge(port: Port, bit: int, y: int)

  predicate IsLeft(c: Cell) {
    c.kind.Shl? || c.kind.Sshl?
  }

  predicate IsIndexed(c: Cell) {
    c.kind.Shift? || c.kind.Shiftx?
  }

  predicate IsRight(c: Cell) {
    c.kind.Shr? || c.kind.Sshr? || (IsIndexed(c) && !c.bSigned)
  }

  /** The signedness the cell checker admits (`kernel/rtlil.cc`), on nonempty operands. */
  predicate Legal(c: Cell) {
    && c.aWidth >= 1 && c.bWidth >= 1
    && (c.bSigned ==> IsIndexed(c))
    && (c.aSigned ==> !c.kind.Shiftx?)
  }

  // ----- What shift_op records

  function CappedWidth(c: Cell): nat {
    Min(c.bWidth, 30)
  }

  function BHigh(c: Cell): int
    requires Legal(c)
  {
    if c.bSigned then Pow2(CappedWidth(c) - 1) - 1 else Pow2(CappedWidth(c)) - 1
  }

  function BLow(c: Cell): int
    requires Legal(c)
  {
    if c.bSigned then -Pow2(CappedWidth(c) - 1) else 0
  }

  /** `n & ((1 << m) - 1)`, for an integer of either sign. */
  function LowBits(n: int, m: nat): int {
    n % Pow2(m)
  }

  /** `n & ~(1 << k)` */
  function ClearBit(n: int, k: nat): int {
    if Bit(n, k) then n - Pow2(k) else n
  }

  /** `~n` */
  function Complement(n: int): int {
    -n - 1
  }

  function BRangeUpper(c: Cell): int
    requires Legal(c)
  {
    if IsLeft(c) then c.aWidth + BHigh(c) - (if c.aSigned then 1 else 0)
    else if IsRight(c) then c.aWidth
    else c.aWidth - BLow(c)
  }

  function ARangeLower(c: Cell, i: int): int
    requires Legal(c)
  {
    if IsLeft(c) then Max(0, i - BHigh(c))
    else if IsRight(c) then Min(i, c.aWidth - 1)
    else if c.aSigned then Min(Max(0, i + BLow(c)), c.aWidth - 1)
    else Max(0, i + BLow(c))
  }

  function ARangeUpper(c: Cell, i: int): int
    requires Legal(c)
  {
    if IsLeft(c) then Min(i + 1, c.aWidth) else Min(i + 1 + BHigh(c), c.aWidth)
  }

  predicate AEdge(c: Cell, k: int, i: int)
    requires Legal(c)
  {
    if i < BRangeUpper(c) then ARangeLower(c, i) <= k < ARangeUpper(c, i)
    else c.aSigned && k == c.aWidth - 1
  }

  /** Operands and results below `2^29` bits. */
  predicate Moderate(c: Cell) {
    c.aWidth < Pow2(29) && c.yWidth < Pow2(29)
  }

  predicate LeftBEdge(c: Cell, k: nat, i: int) {
    var limit := Pow2(CappedWidth(c));
    if c.aWidth == 1 && c.aSigned then
      LowBits(i, k + 1) != Pow2(k + 1) - 1 && i - c.aWidth + 2 < limit
    else if c.aSigned then i - c.aWidth + 2 < limit
    else i - c.aWidth + 1 < limit
  }

  predicate RightBEdge(c: Cell, k: nat, i: int) {
    if c.aSigned then
      var shiftInBulk := i < c.aWidth - 1;
      var zpadJump := LowBits(c.yWidth - i, k + 1) != 0
                      && ClearBit(c.yWidth - i, k) < Pow2(CappedWidth(c));
      shiftInBulk || (!c.kind.Sshr? && zpadJump)
    else i < c.aWidth
  }

  predicate BidirectionalBEdge(c: Cell, k: nat, i: int)
    requires Legal(c)
  {
    if !c.aSigned then c.aWidth - 1 - i >= BLow(c)
    else if k != CappedWidth(c) - 1 then
      var rShiftInBulk := i < c.aWidth - 1;
      var rZpadJump := LowBits(c.yWidth - i, k + 1) != 0 && ClearBit(c.yWidth - i, k) <= BHigh(c);
      var l := c.aWidth - 2 - i >= BLow(c)
               && (c.aWidth == 1 ==> LowBits(Complement(i - c.aWidth), k + 1) != 0);
      rShiftInBulk || rZpadJump || l
    else c.yWidth - i <= BHigh(c) || c.aWidth - 2 - i >= BLow(c)
  }

  predicate BEdge(c: Cell, k: int, i: int)
    requires Legal(c)
  {
    0 <= k < CappedWidth(c)
    && if IsLeft(c) then LeftBEdge(c, k, i)
       else if IsRight(c) then RightBEdge(c, k, i)
       else BidirectionalBEdge(c, k, i)
  }

  predicate HasEdge(c: Cell, e: Edge)
    requires Legal(c)
  {
    0 <= e.y < c.yWidth
    && match e.port
       case A => AEdge(c, e.bit, e.y)
       case B => BEdge(c, e.bit, e.y)
  }

  method Ranges(c: Cell, bHigh: int, bLow: int, i: nat) returns (bRangeUpper: int, aRangeLower: int, aRangeUpper: int)
    requires Legal(c) && bHigh == BHigh(c) && bLow == BLow(c)
    ensures bRangeUpper == BRangeUpper(c) && aRangeLower == ARangeLower(c, i) && aRangeUpper == ARangeUpper(c, i)
  {
    if c.kind.Shl? || c.kind.Sshl? {
      bRangeUpper := c.aWidth + bHigh;
      if c.aSigned {
        bRangeUpper := bRangeUpper - 1;
      }
      aRangeLower := Max(0, i - bHigh);
      aRangeUpper := Min(i + 1, c.aWidth);
    } else if c.kind.Shr? || c.kind.Sshr? || (IsIndexed(c) && !c.bSigned) {
      bRangeUpper := c.aWidth;
      aRangeLower := Min(i, c.aWidth - 1);
      aRangeUpper := Min(i + 1 + bHigh, c.aWidth);
    } else {
      bRangeUpper := c.aWidth - bLow;
      aRangeLower := Max(0, i + bLow);
      if c.aSigned {
        aRangeLower := Min(aRangeLower, c.aWidth - 1);
      }
      aRangeUpper := Min(i + 1 + bHigh, c.aWidth);
    }
  }

  /** The edges from `A` into Y[i]. */
  method AEdgesInto(c: Cell, bHigh: int, bLow: int, i: nat) returns (edges: set<Edge>)
    requires Legal(c) && bHigh == BHigh(c) && bLow == BLow(c) && i < c.yWidth
    ensures forall e :: e in edges <==> e.port == A && e.y == i && HasEdge(c, e)
  {
    var bRangeUpper, aRangeLower, aRangeUpper := Ranges(c, bHigh, bLow, i);
    edges := {};
    if i < bRangeUpper {
      var k := aRangeLower;
      while k < aRangeUpper
        invariant aRangeLower <= k <= Max(aRangeLower, aRangeUpper)
        invariant forall e :: e in edges <==> e.port == A && e.y == i && aRangeLower <= e.bit < k
      {
        edges := edges + {Edge(A, k, i)};
        k := k + 1;
      }
    } else if c.aSigned {
      edges := edges + {Edge(A, c.aWidth - 1, i)};
    }
  }

  /** The edges from `B` into Y[i]. */
  method BEdgesInto(c: Cell, cap: nat, i: nat) returns (edges: set<Edge>)
    requires Legal(c) && cap == CappedWidth(c) && i < c.yWidth
    ensures forall e :: e in edges <==> e.port == B && e.y == i && HasEdge(c, e)
  {
    edges := {};
    for k := 0 to cap
      invariant forall e :: e in edges <==> e.port == B && e.y == i && HasEdge(c, e) && e.bit < k
    {
      if c.kind.Shl? || c.kind.Sshl? {
        if LeftBEdge(c, k, i) {
          edges := edges + {Edge(B, k, i)};
        }
      } else if c.kind.Shr? || c.kind.Sshr? || (IsIndexed(c) && !c.bSigned) {
        if RightBEdge(c, k, i) {
          edges := edges + {Edge(B, k, i)};
        }
      } else {
        if BidirectionalBEdge(c, k, i) {
          edges := edges + {Edge(B, k, i)};
        }
      }
    }
  }

  /** `shift_op`, with the edge database as a set. */
  method ShiftOp(c: Cell) returns (edges: set<Edge>)
    requires Legal(c)
    ensures forall e :: e in edges <==> HasEdge(c, e)
  {
    var cap := CappedWidth(c);
    var bHigh, bLow;
    if !c.bSigned {
      bHigh := Pow2(cap) - 1;
      bLow := 0;
    } else {
      bHigh := Pow2(cap - 1) - 1;
      bLow := -Pow2(cap - 1);
    }
    edges := {};
    for i := 0 to c.yWidth
      invariant forall e :: e in edges <==> HasEdge(c, e) && e.y < i
    {
      var fromA := AEdgesInto(c, bHigh, bLow, i);
      var fromB := BEdgesInto(c, cap, i);
      edges := edges + fromA + fromB;
    }
  }

  // ----- What the cells compute

  function Eval(c: Cell, a: Const, b: Const): (y: Const)
    ensures |y| == c.yWidth
  {
    match c.kind
    case Shl => ConstShl(a, b, c.aSigned, c.yWidth)
    case Shr => ConstShr(a, b, c.aSigned, c.yWidth)
    case Sshl => ConstSshl(a, b, c.aSigned, c.yWidth)
    case Sshr => ConstSshr(a, b, c.aSigned, c.yWidth)
    case Shift => ConstShift(a, b, c.aSigned, c.bSigned, c.yWidth)
    case Shiftx => ConstShiftx(a, b, c.bSigned, c.yWidth)
  }

  function Vacant(c: Cell): State {
    if c.kind.Shiftx? then Sx else S0
  }

  /** Whether position `pos` of the extended operand exists for this cell. */
  predicate InOperand(c: Cell, pos: int) {
    0 <= pos && match c.kind
                case Shr => pos < Max(c.yWidth, c.aWidth)
                case Shift => pos < Max(c.yWidth, c.aWidth)
                case Shiftx => pos < c.aWidth
                case _ => true
  }

  /** Bit `i` of the result for shift amount `n`, as one read of the extended operand. */
  function Read(c: Cell, a: Const, n: int, i: int): State {
    var pos := if IsLeft(c) then i - n else i + n;
    if InOperand(c, pos) then ExtBit(a, c.aSigned, pos) else Vacant(c)
  }

  /** The evaluator's six shift functions are all one read at a moved position. */
  lemma {:induction false} EvalIsRead(c: Cell, a: Const, b: Const, i: int)
    requires Legal(c) && |a| == c.aWidth && |b| == c.bWidth && 0 <= i < c.yWidth
    ensures Defined(b) ==> Eval(c, a, b)[i] == Read(c, a, Val(b, c.bSigned), i)
    ensures Defined(b) && !c.bSigned ==> Val(b, false) >= 0
    ensures !Defined(b) ==> Eval(c, a, b)[i] == Sx
  {
    if Defined(b) {
      BigIsVal(b, c.bSigned);
    }
  }

  lemma {:induction false} AmountRange(c: Cell, b: Const)
    requires Legal(c) && |b| == c.bWidth <= 30
    ensures BLow(c) <= Val(b, c.bSigned) <= BHigh(c)
  {
    SignFromUVal(b);
  }

  // ----- Edges from A

  /** Without an edge from A[k], no amount in range makes Y[i] read A[k]. */
  lemma {:induction false} AReadUnaffected(c: Cell, a: Const, k: nat, v: State, n: int, i: int)
    requires Legal(c) && |a| == c.aWidth && k < c.aWidth && 0 <= i < c.yWidth
    requires BLow(c) <= n <= BHigh(c) && !AEdge(c, k, i)
    ensures Read(c, a, n, i) == Read(c, a[k := v], n, i)
  {
  }

  lemma {:induction false} AEdgesSound(c: Cell, a: Const, b: Const, k: nat, v: State, i: int)
    requires Legal(c) && c.bWidth <= 30
    requires |a| == c.aWidth && |b| == c.bWidth && k < c.aWidth && 0 <= i < c.yWidth
    requires !HasEdge(c, Edge(A, k, i))
    ensures Eval(c, a, b)[i] == Eval(c, a[k := v], b)[i]
  {
    EvalIsRead(c, a, b, i);
    EvalIsRead(c, a[k := v], b, i);
    if Defined(b) {
      AmountRange(c, b);
      AReadUnaffected(c, a, k, v, Val(b, c.bSigned), i);
    }
  }

  // ----- Edges from B

  /** Setting a clear bit `k` adds `2^k`, and crosses no multiple of `2^(k+1)`. */
  lemma {:induction false} NoJump(n: int, d: int, k: nat)
    requires n % Pow2(k + 1) < Pow2(k) && d % Pow2(k + 1) == 0
    ensures d <= n || d > n + Pow2(k)
  {
    var m := Pow2(k + 1);
    if n < d <= n + Pow2(k) {
      var q := d / m - n / m;
      assert d == d / m * m && n == n / m * m + n % m;
      assert q * m == d - n + n % m by {
        assert q * m == d / m * m - n / m * m;
      }
      assert 0 < q * m < m;
      if q >= 1 {
        ProductAtLeast(q, m);
      } else {
        MulMono(q, 0, m);
      }
      assert false;
    }
  }

  lemma {:induction false} FlipUVal(b: Const, k: nat)
    requires k < |b|
    ensures UVal(b[k := S1]) == UVal(b[k := S0]) + Pow2(k)
    ensures UVal(b[k := S0]) % Pow2(k + 1) < Pow2(k)
  {
    var n := |b| - 1;
    UValPrefix(b[k := S0], k + 1);
    assert b[k := S0][..k + 1][..k] == b[..k];
    if k < n {
      FlipUVal(b[..n], k);
      assert b[k := S0][..n] == b[..n][k := S0];
      assert b[k := S1][..n] == b[..n][k := S1];
    } else {
      assert b[k := S0][..n] == b[k := S1][..n] == b[..n];
    }
  }

  /** The effect of a toggle on the amount; the top bit of a signed amount counts negatively. */
  lemma {:induction false} FlipVal(b: Const, k: nat, signed: bool)
    requires k < |b|
    ensures signed && k == |b| - 1 ==> 0 <= Val(b[k := S0], signed)
                                       && Val(b[k := S1], signed) == Val(b[k := S0], signed) - Pow2(k)
    ensures !signed || k < |b| - 1 ==> Val(b[k := S1], signed) == Val(b[k := S0], signed) + Pow2(k)
                                       && Val(b[k := S0], signed) % Pow2(k + 1) < Pow2(k)
                                       && (Val(b[k := S0], signed) < 0 ==> Val(b[k := S1], signed) < 0)
  {
    FlipUVal(b, k);
    if signed && k < |b| - 1 {
      SignedRemainder(b[k := S0], k + 1);
    } else if signed {
      SignFromUVal(b[k := S0]);
    }
  }

  lemma {:induction false} SignedRemainder(b: Const, m: nat)
    requires m <= |b|
    ensures SVal(b) % Pow2(m) == UVal(b) % Pow2(m)
  {
    Pow2Add(|b| - m, m);
    ModAddMultiple(UVal(b), Pow2(m), -Pow2(|b| - m));
    assert -Pow2(|b| - m) * Pow2(m) == -(Pow2(|b| - m) * Pow2(m));
  }

  /** One step of the amount without an edge from B[k] leaves Y[i] alone. */
  lemma {:induction false} BReadUnaffected(c: Cell, a: Const, b: Const, k: nat, i: int)
    requires Legal(c) && c.bWidth <= 30
    requires |a| == c.aWidth && |b| == c.bWidth && k < c.bWidth && 0 <= i < c.yWidth
    requires !BEdge(c, k, i)
    ensures Read(c, a, Val(b[k := S0], c.bSigned), i) == Read(c, a, Val(b[k := S1], c.bSigned), i)
  {
    FlipVal(b, k, c.bSigned);
    AmountRange(c, b[k := S0]);
    AmountRange(c, b[k := S1]);
    var n, n' := Val(b[k := S0], c.bSigned), Val(b[k := S1], c.bSigned);
    if c.bSigned && k == c.bWidth - 1 {
      OuterUnaffected(c, a, n, n', k, i);
    } else {
      InnerStep(c, a, n, k, i);
    }
  }

  /** The rest of the indexed case: without sign extension, or for the sign bit of the amount. */
  lemma {:induction false} OuterUnaffected(c: Cell, a: Const, n: int, n': int, k: nat, i: int)
    requires Legal(c) && !IsLeft(c) && !IsRight(c) && |a| == c.aWidth && k < CappedWidth(c) && 0 <= i < c.yWidth
             && !BEdge(c, k, i)
    requires !c.aSigned || (k == CappedWidth(c) - 1 && 0 <= n && n' == n - Pow2(k))
    requires BLow(c) <= n <= BHigh(c) && BLow(c) <= n' <= BHigh(c)
    ensures Read(c, a, n, i) == Read(c, a, n', i)
  {
  }

  lemma {:induction false} RollOver(n: int, m: nat)
    requires m > 0 && n % m == m - 1
    ensures (n + 1) % m == 0
  {
    assert (n / m + 1) * m == n / m * m + m;
    DivModUnique(n + 1, m, n / m + 1, 0);
  }

  lemma {:induction false} LeftUnaffected(c: Cell, a: Const, n: int, k: nat, i: int)
    requires Legal(c) && IsLeft(c) && |a| == c.aWidth && 0 <= i < c.yWidth
    requires 0 <= n && n + Pow2(k) <= BHigh(c) && n % Pow2(k + 1) < Pow2(k)
    requires !LeftBEdge(c, k, i)
    ensures Read(c, a, n, i) == Read(c, a, n + Pow2(k), i)
  {
    if c.aWidth == 1 && c.aSigned && LowBits(i, k + 1) == Pow2(k + 1) - 1 {
      RollOver(i, Pow2(k + 1));
      NoJump(n, i + 1, k);
    }
  }

  /** The zero padding above the operand starts at distance `d`; no toggle jumps over that point. */
  lemma {:induction false} PaddingNotCrossed(d: int, n: int, k: nat, high: int)
    requires d >= 1 && n % Pow2(k + 1) < Pow2(k) && n + Pow2(k) <= high
    requires LowBits(d, k + 1) == 0 || ClearBit(d, k) > high
    ensures n < d <==> n + Pow2(k) < d
  {
    if LowBits(d, k + 1) == 0 {
      NoJump(n, d, k);
    }
  }

  lemma {:induction false} RightUnaffected(c: Cell, a: Const, n: int, k: nat, i: int)
    requires Legal(c) && IsRight(c) && |a| == c.aWidth && 0 <= i < c.yWidth
    requires 0 <= n && n + Pow2(k) <= BHigh(c) && n % Pow2(k + 1) < Pow2(k)
    requires !RightBEdge(c, k, i)
    ensures Read(c, a, n, i) == Read(c, a, n + Pow2(k), i)
  {
    if c.aSigned && !c.kind.Sshr? {
      PaddingNotCrossed(c.yWidth - i, n, k, BHigh(c));
    }
  }

  lemma {:induction false} BidirectionalUnaffected(c: Cell, a: Const, n: int, k: nat, i: int)
    requires Legal(c) && !IsLeft(c) && !IsRight(c) && c.aSigned && |a| == c.aWidth && 0 <= i < c.yWidth
    requires BLow(c) <= n && n + Pow2(k) <= BHigh(c) && n % Pow2(k + 1) < Pow2(k)
    requires n < 0 ==> n + Pow2(k) < 0
    requires k != CappedWidth(c) - 1 && !BidirectionalBEdge(c, k, i)
    ensures Read(c, a, n, i) == Read(c, a, n + Pow2(k), i)
  {
    if n >= 0 {
      PaddingNotCrossed(c.yWidth - i, n, k, BHigh(c));
    } else if c.aWidth - 2 - i >= BLow(c) {
      NoJump(n, -i, k);
    }
  }

  lemma {:induction false} BEdgesSound(c: Cell, a: Const, b: Const, k: nat, i: int)
    requires Legal(c) && c.bWidth <= 30
    requires |a| == c.aWidth && |b| == c.bWidth && k < c.bWidth && 0 <= i < c.yWidth
    requires IsDef(b[k]) && !HasEdge(c, Edge(B, k, i))
    ensures Eval(c, a, b)[i] == Eval(c, a, b[k := Invert(b[k])])[i]
  {
    EvalIsRead(c, a, b, i);
    EvalIsRead(c, a, b[k := Invert(b[k])], i);
    if Defined(b) {
      BReadUnaffected(c, a, b, k, i);
      assert b[k := b[k]] == b;
    } else {
      var j :| 0 <= j < |b| && !IsDef(b[j]);
      assert !IsDef(b[k := Invert(b[k])][j]);
    }
  }

  // ----- Every recorded edge is real

  lemma {:induction false} MultipleGap(x: int, y: int, m: nat)
    requires m > 0 && x % m == 0 && y % m == 0 && x < y
    ensures x + m <= y
  {
    var q := y / m - x / m;
    assert q * m == y / m * m - x / m * m;
    if q <= 0 {
      MulMono(q, 0, m);
    } else {
      ProductAtLeast(q, m);
    }
  }

  lemma {:induction false} Pow2Multiple(a: nat, b: nat)
    requires a <= b
    ensures Pow2(b) % Pow2(a) == 0 && -Pow2(b) % Pow2(a) == 0
  {
    var q := Pow2(b - a);
    Pow2Add(b - a, a);
    ModSmall(0, Pow2(a));
    ModAddMultiple(0, Pow2(a), q);
    ModAddMultiple(0, Pow2(a), -q);
    assert (-q) * Pow2(a) == -(q * Pow2(a));
  }

  /** If `d` is no multiple of `2^(k+1)`, some amount with bit `k` clear steps over it. */
  lemma {:induction false} CrossingPair(d: int, k: nat, low: int, high: int) returns (n: int)
    requires LowBits(d, k + 1) != 0 && ClearBit(d, k) <= high && low < d
    requires low % Pow2(k + 1) == 0 && (high + 1) % Pow2(k + 1) == 0
    ensures low <= n < d <= n + Pow2(k) <= high && n % Pow2(k + 1) < Pow2(k)
  {
    var m := Pow2(k + 1);
    var r := LowBits(d, k + 1);
    var f := d - r;
    assert d == d / m * m + r;
    DivModUnique(f, m, d / m, 0);
    ModStep(d, k);
    n := if r <= Pow2(k) then f else d - Pow2(k);
    DivModUnique(n, m, d / m, n - f);
    assert low <= f by {
      if f < low {
        MultipleGap(f, low, m);
        assert false;
      }
    }
    assert f < high + 1;
    MultipleGap(f, high + 1, m);
  }

  /** Inputs differing in one operand bit, whose results differ at Y[i]. */
  ghost predicate Observes(c: Cell, e: Edge)
    requires Legal(c)
  {
    && 0 <= e.y < c.yWidth
    && match e.port
       case A => 0 <= e.bit < c.aWidth && exists a, b, v | Fits(c, a, b, e.y) :: ASees(c, a, b, e.bit, v, e.y)
       case B => 0 <= e.bit < c.bWidth && exists a, b | Fits(c, a, b, e.y) :: BSees(c, a, b, e.bit, e.y)
  }

  predicate Fits(c: Cell, a: Const, b: Const, i: int) {
    |a| == c.aWidth && |b| == c.bWidth && 0 <= i < c.yWidth
  }

  predicate ASees(c: Cell, a: Const, b: Const, k: nat, v: State, i: int)
    requires Fits(c, a, b, i) && k < c.aWidth
  {
    Eval(c, a, b)[i] != Eval(c, a[k := v], b)[i]
  }

  predicate BSees(c: Cell, a: Const, b: Const, k: nat, i: int)
    requires Fits(c, a, b, i) && k < c.bWidth
  {
    IsDef(b[k]) && Eval(c, a, b)[i] != Eval(c, a, b[k := Invert(b[k])])[i]
  }

  /** An amount in range is the value of some vector. */
  lemma {:induction false} AmountVector(c: Cell, n: int) returns (b: Const)
    requires Legal(c) && BLow(c) <= n <= BHigh(c)
    ensures |b| == c.bWidth && Defined(b) && Val(b, c.bSigned) == n
    ensures forall k :: 0 <= k < |b| ==> (b[k] == S1 <==> Bit(n, k))
  {
    b := FromInt(n, c.bWidth);
    if c.bSigned {
      Pow2Mono(CappedWidth(c) - 1, c.bWidth - 1);
      SValFromInt(n, c.bWidth);
    } else {
      Pow2Mono(CappedWidth(c), c.bWidth);
      UValFromInt(n, c.bWidth);
      ModSmall(n, Pow2(c.bWidth));
    }
  }

  /** An amount that brings A[k] to Y[i]. */
  lemma {:induction false} AEdgeAmount(c: Cell, k: int, i: int, a: Const) returns (n: int)
    requires Legal(c) && 0 <= i < c.yWidth && AEdge(c, k, i) && a == seq(c.aWidth, _ => S0)
    ensures BLow(c) <= n <= BHigh(c) && 0 <= k < c.aWidth
    ensures Read(c, a, n, i) != Read(c, a[k := S1], n, i)
  {
    if IsLeft(c) {
      n := if i < BRangeUpper(c) then i - k else 0;
    } else {
      n := AEdgeRightAmount(c, k, i, a);
    }
  }

  lemma {:induction false} AEdgeRightAmount(c: Cell, k: int, i: int, a: Const) returns (n: int)
    requires Legal(c) && !IsLeft(c) && 0 <= i < c.yWidth && AEdge(c, k, i) && a == seq(c.aWidth, _ => S0)
    ensures BLow(c) <= n <= BHigh(c) && 0 <= k < c.aWidth
    ensures Read(c, a, n, i) != Read(c, a[k := S1], n, i)
  {
    n := if i < BRangeUpper(c) then k - i else 0;
  }

  lemma {:induction false} AEdgeReal(c: Cell, k: int, i: int)
    requires Legal(c) && 0 <= i < c.yWidth && AEdge(c, k, i)
    ensures Observes(c, Edge(A, k, i))
  {
    var a := seq(c.aWidth, _ => S0);
    var n := AEdgeAmount(c, k, i, a);
    var b := AmountVector(c, n);
    EvalIsRead(c, a, b, i);
    EvalIsRead(c, a[k := S1], b, i);
    assert Fits(c, a, b, i) && ASees(c, a, b, k, S1, i);
  }

  function OneHot(w: nat, p: nat): (r: Const)
    requires p < w
    ensures |r| == w
  {
    seq(w, j => if j == p then S1 else S0)
  }

  /** Two amounts that give different reads of `a`, the second one a toggle of bit `k` away. */
  lemma {:induction false} ToggleSeen(c: Cell, a: Const, n: int, k: nat, i: int)
    requires Legal(c) && |a| == c.aWidth && k < c.bWidth && 0 <= i < c.yWidth
    requires BLow(c) <= n <= BHigh(c)
    requires forall n' | n' == n + Pow2(k) || n' == n - Pow2(k) :: Read(c, a, n, i) != Read(c, a, n', i)
    ensures Observes(c, Edge(B, k, i))
  {
    var b := AmountVector(c, n);
    var b' := b[k := Invert(b[k])];
    FlipVal(b, k, c.bSigned);
    assert b[k := b[k]] == b;
    EvalIsRead(c, a, b, i);
    EvalIsRead(c, a, b', i);
    assert Fits(c, a, b, i) && BSees(c, a, b, k, i);
  }

  /** As above, for the amount whose bit `k` is known to be clear. */
  lemma {:induction false} StepSeen(c: Cell, a: Const, n: int, k: nat, i: int)
    requires Legal(c) && |a| == c.aWidth && k < c.bWidth && 0 <= i < c.yWidth
    requires BLow(c) <= n <= BHigh(c) && n % Pow2(k + 1) < Pow2(k)
    requires Read(c, a, n, i) !=
             Read(c, a, if c.bSigned && k == c.bWidth - 1 then n - Pow2(k) else n + Pow2(k), i)
    ensures Observes(c, Edge(B, k, i))
  {
    var b := AmountVector(c, n);
    ModStep(n, k);
    FlipVal(b, k, c.bSigned);
    assert b[k] == S0 && b[k := S0] == b;
    SetSeen(c, a, b, k, i);
  }

  lemma {:induction false} SetSeen(c: Cell, a: Const, b: Const, k: nat, i: int)
    requires Legal(c) && |a| == c.aWidth && |b| == c.bWidth && k < c.bWidth && 0 <= i < c.yWidth && Defined(b)
             && b[k] == S0
    requires Read(c, a, Val(b, c.bSigned), i) != Read(c, a, Val(b[k := S1], c.bSigned), i)
    ensures Observes(c, Edge(B, k, i))
  {
    EvalIsRead(c, a, b, i);
    EvalIsRead(c, a, b[k := S1], i);
    assert Fits(c, a, b, i) && BSees(c, a, b, k, i);
  }

  lemma {:induction false} LeftEdgeReal(c: Cell, k: nat, i: int)
    requires Legal(c) && IsLeft(c) && k < CappedWidth(c) && 0 <= i < c.yWidth
    requires LeftBEdge(c, k, i)
    ensures Observes(c, Edge(B, k, i))
  {
    if c.aSigned && c.aWidth == 1 {
      LeftSignReal(c, k, i);
    } else {
      var top := if c.aSigned then c.aWidth - 2 else c.aWidth - 1;
      var n := Max(0, i - top);
      ToggleSeen(c, OneHot(c.aWidth, i - n), n, k, i);
    }
  }

  lemma {:induction false} LeftSignReal(c: Cell, k: nat, i: int)
    requires Legal(c) && IsLeft(c) && k < CappedWidth(c) && 0 <= i < c.yWidth
    requires c.aSigned && c.aWidth == 1 && LeftBEdge(c, k, i)
    ensures Observes(c, Edge(B, k, i))
  {
    var d := i + 1;
    if LowBits(d, k + 1) == 0 {
      BeforeMultiple(d, Pow2(k + 1));
      assert false;
    }
    Pow2Multiple(k + 1, CappedWidth(c));
    var n := CrossingPair(d, k, 0, BHigh(c));
    SignSeen(c, n, k, i);
  }

  lemma {:induction false} SignSeen(c: Cell, n: int, k: nat, i: int)
    requires Legal(c) && IsLeft(c) && k < c.bWidth && 0 <= i < c.yWidth && c.aSigned && c.aWidth == 1
    requires 0 <= n <= i < n + Pow2(k) && n <= BHigh(c) && n % Pow2(k + 1) < Pow2(k)
    ensures Observes(c, Edge(B, k, i))
  {
    StepSeen(c, OneHot(1, 0), n, k, i);
  }

  lemma {:induction false} BeforeMultiple(d: int, m: nat)
    requires m > 0 && d % m == 0
    ensures (d - 1) % m == m - 1
  {
    assert (d / m - 1) * m == d / m * m - m;
    DivModUnique(d - 1, m, d / m - 1, m - 1);
  }

  lemma {:induction false} RightEdgeReal(c: Cell, k: nat, i: int)
    requires Legal(c) && IsRight(c) && k < CappedWidth(c) && 0 <= i < c.yWidth
    requires RightBEdge(c, k, i)
    ensures Observes(c, Edge(B, k, i))
  {
    if !c.aSigned || i < c.aWidth - 1 {
      ToggleSeen(c, OneHot(c.aWidth, i), 0, k, i);
    } else {
      RightSignReal(c, k, i);
    }
  }

  lemma {:induction false} RightSignReal(c: Cell, k: nat, i: int)
    requires Legal(c) && IsRight(c) && k < CappedWidth(c) && 0 <= i < c.yWidth
    requires c.aSigned && i >= c.aWidth - 1 && RightBEdge(c, k, i)
    ensures Observes(c, Edge(B, k, i))
  {
    Pow2Multiple(k + 1, CappedWidth(c));
    var n := CrossingPair(c.yWidth - i, k, 0, BHigh(c));
    PaddingSeen(c, n, k, i);
  }

  lemma {:induction false} PaddingSeen(c: Cell, n: int, k: nat, i: int)
    requires Legal(c) && IsRight(c) && !c.kind.Sshr? && k < c.bWidth && 0 <= i < c.yWidth
    requires c.aSigned && i >= c.aWidth - 1
    requires 0 <= n < c.yWidth - i <= n + Pow2(k) && n <= BHigh(c) && n % Pow2(k + 1) < Pow2(k)
    ensures Observes(c, Edge(B, k, i))
  {
    StepSeen(c, OneHot(c.aWidth, c.aWidth - 1), n, k, i);
  }

  lemma {:induction false} BidirectionalEdgeReal(c: Cell, k: nat, i: int)
    requires Legal(c) && !IsLeft(c) && !IsRight(c) && k < CappedWidth(c) && 0 <= i < c.yWidth
    requires (c.bWidth <= 30 || Moderate(c)) && BidirectionalBEdge(c, k, i)
    ensures Observes(c, Edge(B, k, i))
  {
    if !c.aSigned {
      UnsignedEdgeReal(c, k, i);
    } else if i < c.aWidth - 1 || (c.aWidth > 1 && c.aWidth - 2 - i >= BLow(c)) {
      BulkEdgeReal(c, k, i);
    } else if k < CappedWidth(c) - 1 {
      LowEdgeReal(c, k, i);
    } else if c.bWidth <= 30 {
      TopEdgeReal(c, k, i);
    } else {
      WideTopEdgeReal(c, k, i);
    }
  }

  lemma {:induction false} UnsignedEdgeReal(c: Cell, k: nat, i: int)
    requires Legal(c) && !IsLeft(c) && !IsRight(c) && k < CappedWidth(c) && 0 <= i < c.yWidth
    requires !c.aSigned && c.aWidth - 1 - i >= BLow(c)
    ensures Observes(c, Edge(B, k, i))
  {
    var n := Min(0, c.aWidth - 1 - i);
    ToggleSeen(c, OneHot(c.aWidth, i + n), n, k, i);
  }

  /** Some amount brings a bit other than the sign to Y[i]. */
  lemma {:induction false} BulkEdgeReal(c: Cell, k: nat, i: int)
    requires Legal(c) && !IsLeft(c) && !IsRight(c) && k < CappedWidth(c) && 0 <= i < c.yWidth && c.aSigned
    requires i < c.aWidth - 1 || (c.aWidth > 1 && c.aWidth - 2 - i >= BLow(c))
    ensures Observes(c, Edge(B, k, i))
  {
    var n := if i < c.aWidth - 1 then 0 else c.aWidth - 2 - i;
    ToggleSeen(c, OneHot(c.aWidth, i + n), n, k, i);
  }

  /** Bit 29 of a wider amount is no sign bit: it moves either way by more than any operand. */
  lemma {:induction false} WideTopEdgeReal(c: Cell, k: nat, i: int)
    requires Legal(c) && Moderate(c) && !IsLeft(c) && !IsRight(c) && k == 29 < c.bWidth && 0 <= i < c.yWidth
    requires c.aSigned && i >= c.aWidth - 1 && (c.aWidth > 1 ==> c.aWidth - 2 - i < BLow(c))
    ensures Observes(c, Edge(B, k, i))
  {
    ToggleSeen(c, OneHot(c.aWidth, c.aWidth - 1), 0, k, i);
  }

  lemma {:induction false} LowEdgeReal(c: Cell, k: nat, i: int)
    requires Legal(c) && !IsLeft(c) && !IsRight(c) && k < CappedWidth(c) - 1 && 0 <= i < c.yWidth
    requires c.aSigned && i >= c.aWidth - 1 && (c.aWidth > 1 ==> c.aWidth - 2 - i < BLow(c))
    requires BidirectionalBEdge(c, k, i)
    ensures Observes(c, Edge(B, k, i))
  {
    Pow2Multiple(k + 1, CappedWidth(c) - 1);
    var upward := LowBits(c.yWidth - i, k + 1) != 0 && ClearBit(c.yWidth - i, k) <= BHigh(c);
    if upward {
      var n := CrossingPair(c.yWidth - i, k, 0, BHigh(c));
      StepSeen(c, OneHot(c.aWidth, c.aWidth - 1), n, k, i);
    } else {
      DownwardReal(c, k, i);
    }
  }

  lemma {:induction false} DownwardReal(c: Cell, k: nat, i: int)
    requires Legal(c) && !IsLeft(c) && !IsRight(c) && k < CappedWidth(c) - 1 && 0 <= i < c.yWidth
    requires c.aSigned && c.aWidth == 1 && BLow(c) < -i && LowBits(-i, k + 1) != 0
    requires BLow(c) % Pow2(k + 1) == 0 && (BHigh(c) + 1) % Pow2(k + 1) == 0
    ensures Observes(c, Edge(B, k, i))
  {
    var n := CrossingPair(-i, k, BLow(c), BHigh(c));
    BelowZero(n, k);
    StepSeen(c, OneHot(c.aWidth, c.aWidth - 1), n, k, i);
  }

  /** Zero is a multiple of everything, so a step from below zero stays below it. */
  lemma {:induction false} BelowZero(n: int, k: nat)
    requires n < 0 && n % Pow2(k + 1) < Pow2(k)
    ensures n + Pow2(k) < 0
  {
    ModSmall(0, Pow2(k + 1));
    NoJump(n, 0, k);
  }

  lemma {:induction false} TopEdgeReal(c: Cell, k: nat, i: int)
    requires Legal(c) && c.bWidth <= 30 && !IsLeft(c) && !IsRight(c) && k == c.bWidth - 1 && 0 <= i < c.yWidth
    requires c.aSigned && i >= c.aWidth - 1 && (c.aWidth > 1 ==> c.aWidth - 2 - i < BLow(c))
    requires BidirectionalBEdge(c, k, i)
    ensures Observes(c, Edge(B, k, i))
  {
    var a := OneHot(c.aWidth, c.aWidth - 1);
    var n := if c.aWidth - 2 - i >= BLow(c) then 0 else c.yWidth - i;
    assert Pow2(k + 1) == 2 * Pow2(k);
    ModSmall(n, Pow2(k + 1));
    StepSeen(c, a, n, k, i);
  }

  lemma {:induction false} EdgeReal(c: Cell, e: Edge)
    requires Legal(c) && (c.bWidth <= 30 || Moderate(c)) && HasEdge(c, e)
    ensures Observes(c, e)
  {
    if e.port == A {
      AEdgeReal(c, e.bit, e.y);
    } else if IsLeft(c) {
      LeftEdgeReal(c, e.bit, e.y);
    } else if IsRight(c) {
      RightEdgeReal(c, e.bit, e.y);
    } else {
      BidirectionalEdgeReal(c, e.bit, e.y);
    }
  }

  /** `shift_op` is exact: an edge is recorded if and only if toggling that operand bit can
      change that output bit. */
  lemma {:induction false} EdgesExact(c: Cell, e: Edge)
    requires Legal(c) && c.bWidth <= 30
    ensures HasEdge(c, e) <==> Observes(c, e)
  {
    if HasEdge(c, e) {
      EdgeReal(c, e);
    } else if Observes(c, e) {
      if e.port == A {
        var a, b, v :| Fits(c, a, b, e.y) && ASees(c, a, b, e.bit, v, e.y);
        AEdgesSound(c, a, b, e.bit, v, e.y);
      } else {
        var a, b :| Fits(c, a, b, e.y) && BSees(c, a, b, e.bit, e.y);
        BEdgesSound(c, a, b, e.bit, e.y);
      }
    }
  }

  // ----- When the recorded edges are complete

  // ----- Amounts wider than the cap

  /** The edges of a cell with a wide amount are those its first 30 amount bits would have alone. */
  lemma {:induction false} CappedEdges(c: Cell, e: Edge)
    requires Legal(c) && c.bWidth > 30
    ensures HasEdge(c, e) <==> Observes(c.(bWidth := 30), e)
  {
    var d := c.(bWidth := 30);
    SameRanges(c, d);
    EdgesExact(d, e);
    if e.port == A {
      SameAEdge(c, d, e.bit, e.y);
    } else {
      SameBEdge(c, d, e.bit, e.y);
    }
  }

  lemma {:induction false} SameAEdge(c: Cell, d: Cell, k: int, i: int)
    requires Legal(c) && c.bWidth > 30 && d == c.(bWidth := 30)
    requires BLow(c) == BLow(d) && BHigh(c) == BHigh(d)
    ensures AEdge(c, k, i) <==> AEdge(d, k, i)
  {
  }

  lemma {:induction false} SameRanges(c: Cell, d: Cell)
    requires Legal(c) && c.bWidth > 30 && d == c.(bWidth := 30)
    ensures BLow(c) == BLow(d) && BHigh(c) == BHigh(d)
  {
  }

  lemma {:induction false} SameBEdge(c: Cell, d: Cell, k: int, i: int)
    requires Legal(c) && c.bWidth > 30 && d == c.(bWidth := 30)
    requires BLow(c) == BLow(d) && BHigh(c) == BHigh(d)
    ensures BEdge(c, k, i) <==> BEdge(d, k, i)
  {
    if 0 <= k {
      SameSidedEdge(c, d, k, i);
      SameBidirectionalEdge(c, d, k, i);
    }
  }

  lemma {:induction false} SameSidedEdge(c: Cell, d: Cell, k: nat, i: int)
    requires Legal(c) && c.bWidth > 30 && d == c.(bWidth := 30)
    ensures LeftBEdge(c, k, i) <==> LeftBEdge(d, k, i)
    ensures RightBEdge(c, k, i) <==> RightBEdge(d, k, i)
  {
  }

  lemma {:induction false} SameBidirectionalEdge(c: Cell, d: Cell, k: nat, i: int)
    requires Legal(c) && c.bWidth > 30 && d == c.(bWidth := 30)
    requires BLow(c) == BLow(d) && BHigh(c) == BHigh(d)
    ensures BidirectionalBEdge(c, k, i) <==> BidirectionalBEdge(d, k, i)
  {
  }

  function Clamp(c: Cell, n: int): int
    requires Legal(c)
  {
    Max(BLow(c), Min(n, BHigh(c)))
  }

  /** An amount beyond what 30 bits hold reads what the nearest such amount reads. */
  lemma {:induction false} ReadSaturates(c: Cell, a: Const, n: int, i: int)
    requires Legal(c) && c.bWidth > 30 && Moderate(c) && |a| == c.aWidth && 0 <= i < c.yWidth
    requires n >= 0 || c.bSigned
    ensures Read(c, a, n, i) == Read(c, a, Clamp(c, n), i)
  {
    BeyondOperand(c, a, n, Clamp(c, n), Pow2(29), i);
  }

  lemma {:induction false} BeyondOperand(c: Cell, a: Const, n: int, m: int, limit: int, i: int)
    requires |a| == c.aWidth < limit && 0 <= i < c.yWidth < limit
    requires n == m || n >= m >= limit - 1 || n <= m <= -limit
    requires n < 0 ==> !IsLeft(c)
    ensures Read(c, a, n, i) == Read(c, a, m, i)
  {
  }

  lemma {:induction false} WideAUnaffected(c: Cell, a: Const, b: Const, k: nat, v: State, i: int)
    requires Legal(c) && c.bWidth > 30 && Moderate(c) && Fits(c, a, b, i) && k < c.aWidth
    requires !AEdge(c, k, i)
    ensures !ASees(c, a, b, k, v, i)
  {
    EvalIsRead(c, a, b, i);
    EvalIsRead(c, a[k := v], b, i);
    if Defined(b) {
      var n := Val(b, c.bSigned);
      ReadSaturates(c, a, n, i);
      ReadSaturates(c, a[k := v], n, i);
      AReadUnaffected(c, a, k, v, Clamp(c, n), i);
    }
  }

  /** A step within the range of 30 bits. */
  lemma {:induction false} InnerStep(c: Cell, a: Const, n: int, k: nat, i: int)
    requires Legal(c) && |a| == c.aWidth && k < CappedWidth(c) && 0 <= i < c.yWidth && !BEdge(c, k, i)
    requires c.bSigned ==> k < CappedWidth(c) - 1
    requires BLow(c) <= n && n + Pow2(k) <= BHigh(c) && n % Pow2(k + 1) < Pow2(k)
    requires n < 0 ==> n + Pow2(k) < 0
    ensures Read(c, a, n, i) == Read(c, a, n + Pow2(k), i)
  {
    if IsLeft(c) {
      LeftUnaffected(c, a, n, k, i);
    } else if IsRight(c) {
      RightUnaffected(c, a, n, k, i);
    } else if c.aSigned {
      BidirectionalUnaffected(c, a, n, k, i);
    } else {
      OuterUnaffected(c, a, n, n + Pow2(k), k, i);
    }
  }

  /** A step either stays within the range of 30 bits or stays on one side of it. */
  lemma {:induction false} StepSide(c: Cell, n: int, k: nat)
    requires Legal(c) && k < CappedWidth(c) && (c.bSigned ==> k < CappedWidth(c) - 1)
    requires n % Pow2(k + 1) < Pow2(k)
    ensures n + Pow2(k) < BLow(c) || n > BHigh(c) || (BLow(c) <= n && n + Pow2(k) <= BHigh(c))
  {
    var m := if c.bSigned then CappedWidth(c) - 1 else CappedWidth(c);
    BetweenMultiples(n, k, m, BLow(c));
  }

  lemma {:induction false} BetweenMultiples(n: int, k: nat, m: nat, low: int)
    requires k < m && n % Pow2(k + 1) < Pow2(k) && (low == 0 || low == -Pow2(m))
    ensures n + Pow2(k) < low || n >= Pow2(m) || (low <= n && n + Pow2(k) < Pow2(m))
  {
    Pow2Multiple(k + 1, m);
    ModSmall(0, Pow2(k + 1));
    NoJump(n, low, k);
    NoJump(n, Pow2(m), k);
  }

  /** The top bit of a capped signed amount has an edge to every output bit. */
  lemma {:induction false} TopRecorded(c: Cell, i: int)
    requires Legal(c) && c.bWidth > 30 && Moderate(c) && c.bSigned && 0 <= i < c.yWidth
    ensures BEdge(c, 29, i)
  {
  }

  lemma {:induction false} WideStep(c: Cell, a: Const, n: int, k: nat, i: int)
    requires Legal(c) && c.bWidth > 30 && Moderate(c) && |a| == c.aWidth && k < 30 && 0 <= i < c.yWidth
             && !BEdge(c, k, i)
    requires n % Pow2(k + 1) < Pow2(k) && (n >= 0 || c.bSigned) && (n < 0 ==> n + Pow2(k) < 0)
    ensures Read(c, a, n, i) == Read(c, a, n + Pow2(k), i)
  {
    if c.bSigned {
      TopRecorded(c, i);
    }
    StepSide(c, n, k);
    ReadSaturates(c, a, n, i);
    ReadSaturates(c, a, n + Pow2(k), i);
    if BLow(c) <= n && n + Pow2(k) <= BHigh(c) {
      InnerStep(c, a, n, k, i);
    }
  }

  lemma {:induction false} WideBUnaffected(c: Cell, a: Const, b: Const, k: nat, i: int)
    requires Legal(c) && c.bWidth > 30 && Moderate(c) && Fits(c, a, b, i) && k < 30 && !BEdge(c, k, i)
    ensures !BSees(c, a, b, k, i)
  {
    if IsDef(b[k]) {
      var b' := b[k := Invert(b[k])];
      SameDefined(b, b', k);
      EvalIsRead(c, a, b, i);
      EvalIsRead(c, a, b', i);
      WideToggle(c, a, b, k, i);
      assert b[k := b[k]] == b;
    }
  }

  lemma {:induction false} WideToggle(c: Cell, a: Const, b: Const, k: nat, i: int)
    requires Legal(c) && c.bWidth > 30 && Moderate(c) && Fits(c, a, b, i) && k < 30 && !BEdge(c, k, i)
    ensures Read(c, a, Val(b[k := S0], c.bSigned), i) == Read(c, a, Val(b[k := S1], c.bSigned), i)
  {
    FlipVal(b, k, c.bSigned);
    WideStep(c, a, Val(b[k := S0], c.bSigned), k, i);
  }

  /** With a wide amount but moderate operands, `shift_op` records exactly the observable dependencies
      other than those on the amount bits it drops. */
  lemma {:induction false} WideEdgesExact(c: Cell, e: Edge)
    requires Legal(c) && c.bWidth > 30 && Moderate(c)
    ensures HasEdge(c, e) <==> Observes(c, e) && (e.port == B ==> e.bit < 30)
  {
    if HasEdge(c, e) {
      EdgeReal(c, e);
    } else if Observes(c, e) && (e.port == B ==> e.bit < 30) {
      if e.port == A {
        var a, b, v :| Fits(c, a, b, e.y) && ASees(c, a, b, e.bit, v, e.y);
        WideAUnaffected(c, a, b, e.bit, v, e.y);
      } else {
        var a, b :| Fits(c, a, b, e.y) && BSees(c, a, b, e.bit, e.y);
        WideBUnaffected(c, a, b, e.bit, e.y);
      }
    }
  }

  ghost predicate Sound(c: Cell)
    requires Legal(c)
  {
    forall e :: Observes(c, e) ==> HasEdge(c, e)
  }

  /** The one cell whose result no shift amount can change. */
  predicate CopiesSign(c: Cell) {
    c.kind.Sshr? && c.aSigned && c.aWidth == 1
  }

  /** The cap at 30 amount bits is exactly where the recorded edges stop being complete. */
  lemma {:induction false} SoundIff(c: Cell)
    requires Legal(c) && c.yWidth > 0
    ensures Sound(c) <==> c.bWidth <= 30 || CopiesSign(c)
  {
    if c.bWidth <= 30 {
      forall e ensures HasEdge(c, e) <==> Observes(c, e) {
        EdgesExact(c, e);
      }
    } else if CopiesSign(c) {
      SignCopySound(c);
    } else {
      MissingEdge(c, 30);
    }
  }

  lemma {:induction false} SignCopySound(c: Cell)
    requires Legal(c) && CopiesSign(c)
    ensures Sound(c)
  {
    forall e | Observes(c, e)
      ensures HasEdge(c, e)
    {
      if e.port == B {
        var a, b :| Fits(c, a, b, e.y) && BSees(c, a, b, e.bit, e.y);
        SignCopyBlind(c, a, b, e.bit, e.y);
      }
    }
  }

  lemma {:induction false} SignCopyBlind(c: Cell, a: Const, b: Const, k: nat, i: int)
    requires Legal(c) && CopiesSign(c) && Fits(c, a, b, i) && k < c.bWidth
    ensures !BSees(c, a, b, k, i)
  {
    if IsDef(b[k]) {
      var b' := b[k := Invert(b[k])];
      SameDefined(b, b', k);
      EvalIsRead(c, a, b, i);
      EvalIsRead(c, a, b', i);
    }
  }

  /** Beyond the cap, toggling the first dropped bit of a zero amount changes an output bit. */
  lemma {:induction false} MissingEdge(c: Cell, k: nat)
    requires Legal(c) && c.yWidth > 0 && k == CappedWidth(c) < c.bWidth && !CopiesSign(c)
    ensures !Sound(c)
  {
    var a := LowOne(c.aWidth);
    var b: Const := seq(c.bWidth, _ => S0);
    FirstSetBit(b, k, c.bSigned);
    var n := Val(b[k := S1], c.bSigned);
    var i := ProbeBit(c, n);
    ProbeDiffers(c, n);
    EvalIsRead(c, a, b, i);
    EvalIsRead(c, a, b[k := S1], i);
    assert Fits(c, a, b, i) && BSees(c, a, b, k, i);
    assert Observes(c, Edge(B, k, i));
  }

  lemma {:induction false} FirstSetBit(b: Const, k: nat, signed: bool)
    requires k < |b| && forall j :: 0 <= j < |b| ==> b[j] == S0
    ensures Val(b, signed) == 0 && Val(b[k := S1], signed) != 0
    ensures Val(b[k := S1], signed) < 0 ==> signed
  {
    ZeroVal(b);
    FlipVal(b, k, signed);
    assert b[k := S0] == b;
  }

  function LowOne(w: nat): Const
    requires w > 0
  {
    [S1] + seq(w - 1, _ => S0)
  }

  function ProbeBit(c: Cell, n: int): int {
    if c.aSigned && c.aWidth == 1 && !IsLeft(c) && n > 0 then c.yWidth - 1 else 0
  }

  lemma {:induction false} ProbeDiffers(c: Cell, n: int)
    requires Legal(c) && c.yWidth > 0 && !CopiesSign(c) && n != 0 && (n < 0 ==> c.bSigned)
    ensures Read(c, LowOne(c.aWidth), 0, ProbeBit(c, n)) == S1
    ensures Read(c, LowOne(c.aWidth), n, ProbeBit(c, n)) != S1
  {
  }

  lemma {:induction false} ZeroVal(b: Const)
    requires forall j :: 0 <= j < |b| ==> b[j] == S0
    ensures UVal(b) == 0 && SVal(b) == 0
  {
    if |b| > 0 {
      ZeroVal(b[..|b| - 1]);
    }
  }

  // ----- Adders, subtractors and negation

  datatype ArithType = Add | Sub | Neg

  /** `$add` and `$sub` (both operands of one signedness) and `$neg` (which ignores B). */
  datatype ArithCell = ArithCell(op: ArithType, signed: bool, aWidth: nat, bWidth: nat, yWidth: nat)

  function ArithEval(c: ArithCell, a: Const, b: Const): (y: Const) {
    match c.op
    case Add => ConstAdd(a, b, c.signed, c.signed, c.yWidth)
    case Sub => ConstSub(a, b, c.signed, c.signed, c.yWidth)
    case Neg => ConstNeg(a, c.signed, c.yWidth)
  }

  /** The output width `arith_binary_op` and `arith_neg_op` keep edges for. */
  function EdgeWidth(c: ArithCell): int {
    match c.op
    case Add => if c.signed then c.yWidth else Min(c.yWidth, Max(c.aWidth, c.bWidth) + 1)
    case Sub => c.yWidth
    case Neg => if c.signed && c.aWidth == 1 then Min(c.yWidth, 1) else c.yWidth
  }

  predicate ArithEdge(c: ArithCell, e: Edge) {
    && 0 <= e.y < EdgeWidth(c) && 0 <= e.bit <= e.y
    && match e.port
       case A => e.bit < c.aWidth
       case B => e.bit < c.bWidth && !c.op.Neg?
  }

  method ArithOp(c: ArithCell) returns (edges: set<Edge>)
    ensures forall e :: e in edges <==> ArithEdge(c, e)
  {
    edges := {};
    var yWidth := EdgeWidth(c);
    for i := 0 to yWidth
      invariant forall e :: e in edges <==> ArithEdge(c, e) && e.y < i
    {
      for k := 0 to i + 1
        invariant forall e :: e in edges <==> ArithEdge(c, e) && (e.y < i || (e.y == i && e.bit < k))
      {
        if k < c.aWidth {
          edges := edges + {Edge(A, k, i)};
        }
        if k < c.bWidth && !c.op.Neg? {
          edges := edges + {Edge(B, k, i)};
        }
      }
    }
  }

  lemma {:induction false} LowBitsKept(x: Const, k: nat, v: State, m: nat, signed: bool)
    requires m <= k < |x|
    ensures Val(x, signed) % Pow2(m) == Val(x[k := v], signed) % Pow2(m)
  {
    SignedRemainder(x, m);
    SignedRemainder(x[k := v], m);
    UValPrefix(x, m);
    UValPrefix(x[k := v], m);
    assert x[..m] == x[k := v][..m];
  }

  /** A toggle of an operand bit without an edge to Y[i] leaves Y[i] alone. */
  lemma {:induction false} ArithEdgesSound(c: ArithCell, a: Const, b: Const, port: Port, k: nat, i: int)
    requires |a| == c.aWidth && |b| == c.bWidth && 0 <= i < c.yWidth
    requires k < (if port == A then c.aWidth else c.bWidth)
    requires IsDef((if port == A then a else b)[k]) && !ArithEdge(c, Edge(port, k, i))
    ensures ArithEval(c, a, b)[i] ==
            (if port == A then ArithEval(c, a[k := Invert(a[k])], b)
             else ArithEval(c, a, b[k := Invert(b[k])]))[i]
  {
    var a' := if port == A then a[k := Invert(a[k])] else a;
    var b' := if port == B then b[k := Invert(b[k])] else b;
    if c.op.Neg? && port == B {
      return;
    }
    SameDefined(a, a', if port == A then k else 0);
    SameDefined(b, b', if port == B then k else 0);
    if Defined(a) && (c.op.Neg? || Defined(b)) {
      ArithValue(c, a, b, i);
      ArithValue(c, a', b', i);
      if k > i {
        if port == A {
          LowBitsKept(a, k, Invert(a[k]), i + 1, c.signed);
        } else {
          LowBitsKept(b, k, Invert(b[k]), i + 1, c.signed);
        }
        SumMod(0, 0, Val(a, c.signed), Val(a', c.signed), Pow2(i + 1));
        SumMod(Val(a, c.signed), Val(a', c.signed), Val(b, c.signed), Val(b', c.signed), Pow2(i + 1));
        BitModEq(ArithInt(c, a, b), ArithInt(c, a', b'), i + 1, i);
      } else {
        HighSumBit(c, a, b, i);
        HighSumBit(c, a', b', i);
      }
    }
  }

  lemma {:induction false} SameDefined(x: Const, x': Const, k: nat)
    requires |x| == |x'| && (x == x' || (k < |x| && x' == x[k := Invert(x[k])]))
    ensures Defined(x) <==> Defined(x')
  {
    if x != x' {
      assert x == x'[k := x[k]];
      assert IsDef(x[k]) <==> IsDef(x'[k]);
    }
  }

  function ArithInt(c: ArithCell, a: Const, b: Const): int {
    match c.op
    case Add => Val(a, c.signed) + Val(b, c.signed)
    case Sub => Val(a, c.signed) - Val(b, c.signed)
    case Neg => 0 - Val(a, c.signed)
  }

  lemma {:induction false} ArithValue(c: ArithCell, a: Const, b: Const, i: int)
    requires Defined(a) && (c.op.Neg? || Defined(b)) && 0 <= i < c.yWidth
    ensures ArithEval(c, a, b)[i] == ToState(Bit(ArithInt(c, a, b), i))
  {
    BigIsVal(a, c.signed);
    if !c.op.Neg? {
      BigIsVal(b, c.signed);
    } else {
      BigIsVal([S0], true);
      ZeroVal([S0]);
    }
  }

  /** Above the kept width the result bit is zero whatever the operands. */
  lemma {:induction false} HighSumBit(c: ArithCell, a: Const, b: Const, i: int)
    requires |a| == c.aWidth && |b| == c.bWidth && i >= EdgeWidth(c) && 0 <= i < c.yWidth
    ensures !Bit(ArithInt(c, a, b), i)
  {
    var n := ArithInt(c, a, b);
    match c.op {
      case Add =>
        var w := Max(c.aWidth, c.bWidth);
        Pow2Mono(c.aWidth, w);
        Pow2Mono(c.bWidth, w);
        Pow2Mono(w + 1, i);
        ModSmall(n, Pow2(i));
      case Neg =>
        assert a[..0] == [];
        assert Pow2(1) == 2;
        Pow2Mono(1, i);
        ModSmall(n, Pow2(i));
      case Sub =>
    }
  }
}
