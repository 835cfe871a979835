/** The lowering of `$bmux` to a tree of multiplexers and of `$demux` to a shift
    (`kernel/functional.cc`), against `const_bmux` and `const_demux`. */
module FunctionalMux {
  import opened Bits
  import opened Calc
  import opened FunctionalIR
  import opened FunctionalShift

  // ----- $bmux

  /** `w << n` */
  function Shl(w: nat, n: nat): (r: nat)
    ensures r >= w
  {
    if n == 0 then w else 2 * Shl(w, n - 1)
  }

  function HandleBmux(a: Node, s: Node, offset: nat, width: nat, sn: nat): (n: Node)
    requires Valid(a) && Valid(s) && width > 0 && sn <= Width(s) && offset + Shl(width, sn) <= Width(a)
    ensures Valid(n) && Width(n) == width
    decreases sn
  {
    if sn < 1 then Slice(a, offset, width)
    else
      var y0 := HandleBmux(a, s, offset, width, sn - 1);
      var y1 := HandleBmux(a, s, offset + Shl(width, sn - 1), width, sn - 1);
      Mux(y0, y1, Slice(s, sn - 1, 1))
  }

  lemma {:induction false} MuxMeaning(y0: Node, y1: Node, s: Node, sn: nat, env: Env)
    requires Valid(y0) && Valid(y1) && Valid(s) && Width(y0) == Width(y1) && 0 < sn <= Width(s)
    ensures Eval(Mux(y0, y1, Slice(s, sn - 1, 1)), env) == if Eval(s, env)[sn - 1] == S1
            then Eval(y1, env) else Eval(y0, env)
  {
  }

  /** What the tree computes, on vectors. */
  function BmuxTreeC(x: Const, s: Const, offset: nat, width: nat, sn: nat): Const
    requires sn <= |s| && offset + Shl(width, sn) <= |x|
    decreases sn
  {
    if sn < 1 then x[offset..offset + width]
    else if s[sn - 1] == S1 then BmuxTreeC(x, s, offset + Shl(width, sn - 1), width, sn - 1)
    else BmuxTreeC(x, s, offset, width, sn - 1)
  }

  predicate TreeMeans(a: Node, s: Node, offset: nat, width: nat, sn: nat, env: Env)
    requires Valid(a) && Valid(s) && width > 0 && sn <= Width(s) && offset + Shl(width, sn) <= Width(a)
  {
    Eval(HandleBmux(a, s, offset, width, sn), env) == BmuxTreeC(Eval(a, env), Eval(s, env), offset, width, sn)
  }

  lemma {:induction false} HandleBmuxMeaning(a: Node, s: Node, offset: nat, width: nat, sn: nat, env: Env)
    requires Valid(a) && Valid(s) && width > 0 && sn <= Width(s) && offset + Shl(width, sn) <= Width(a)
    ensures TreeMeans(a, s, offset, width, sn, env)
    decreases sn
  {
    if sn >= 1 {
      HandleBmuxMeaning(a, s, offset, width, sn - 1, env);
      HandleBmuxMeaning(a, s, offset + Shl(width, sn - 1), width, sn - 1, env);
      TreeMeansStep(a, s, offset, width, sn, env);
    }
  }

  lemma {:induction false} TreeMeansStep(a: Node, s: Node, offset: nat, width: nat, sn: nat, env: Env)
    requires Valid(a) && Valid(s) && width > 0 && 0 < sn <= Width(s) && offset + Shl(width, sn) <= Width(a)
    requires TreeMeans(a, s, offset, width, sn - 1, env)
    requires TreeMeans(a, s, offset + Shl(width, sn - 1), width, sn - 1, env)
    ensures TreeMeans(a, s, offset, width, sn, env)
  {
    MuxMeaning(HandleBmux(a, s, offset, width, sn - 1),
               HandleBmux(a, s, offset + Shl(width, sn - 1), width, sn - 1), s, sn, env);
  }

  predicate TreePicks(x: Const, s: Const, offset: nat, width: nat, sn: nat, part: Const, sel: Const)
    requires sn <= |s| && offset + Shl(width, sn) <= |x|
  {
    BmuxTreeC(x, s, offset, width, sn) == ConstBmux(part, sel)
  }

  /** `part` and `sel` are what the tree at `offset` over the low `sn` select bits works on. */
  predicate WorksOn(x: Const, s: Const, offset: nat, width: nat, sn: nat, part: Const, sel: Const) {
    && sn <= |s| && offset + Shl(width, sn) <= |x|
    && part == x[offset..offset + Shl(width, sn)] && sel == s[..sn]
  }

  /** The tree over the low select bits picks what the halving loop picks from that part. */
  lemma {:induction false} BmuxTreeExact(x: Const, s: Const, offset: nat, width: nat, sn: nat, part: Const, sel: Const)
    requires Defined(s) && WorksOn(x, s, offset, width, sn, part, sel)
    ensures TreePicks(x, s, offset, width, sn, part, sel)
    decreases sn
  {
    if sn == 0 {
      TreePicksNone(x, s, offset, width, part, sel);
    } else {
      var at, half, rest := TreePicksPart(x, s, offset, width, sn, part, sel);
      BmuxTreeExact(x, s, at, width, sn - 1, half, rest);
    }
  }

  lemma {:induction false} TreePicksPart(x: Const, s: Const, offset: nat, width: nat, sn: nat, part: Const, sel: Const)
      returns (at: nat, half: Const, rest: Const)
    requires Defined(s) && 0 < sn && WorksOn(x, s, offset, width, sn, part, sel)
    ensures WorksOn(x, s, at, width, sn - 1, half, rest)
    ensures TreePicks(x, s, at, width, sn - 1, half, rest) ==> TreePicks(x, s, offset, width, sn, part, sel)
  {
    var from;
    from, half, rest := BmuxTreeStep(x, s, offset, width, sn, part, sel);
    at := offset + from;
    if TreePicks(x, s, at, width, sn - 1, half, rest) {
      TreePicksStep(x, s, offset, width, sn, from, half, rest, part, sel);
    }
  }

  lemma {:induction false} TreePicksNone(x: Const, s: Const, offset: nat, width: nat, part: Const, sel: Const)
    requires WorksOn(x, s, offset, width, 0, part, sel)
    ensures TreePicks(x, s, offset, width, 0, part, sel)
  {
  }

  predicate SameBmux(part: Const, sel: Const, half: Const, rest: Const) {
    ConstBmux(part, sel) == ConstBmux(half, rest)
  }

  lemma {:induction false} TreePicksStep(x: Const, s: Const, offset: nat, width: nat, sn: nat, from: nat,
                                         half: Const, rest: Const, part: Const, sel: Const)
    requires 0 < sn <= |s| && offset + Shl(width, sn) <= |x|
    requires from == if s[sn - 1] == S1 then Shl(width, sn - 1) else 0
    requires TreePicks(x, s, offset + from, width, sn - 1, half, rest)
    requires SameBmux(part, sel, half, rest)
    ensures TreePicks(x, s, offset, width, sn, part, sel)
  {
    TreeStep(x, s, offset, width, sn, offset + from);
  }

  lemma {:induction false} BmuxTreeStep(x: Const, s: Const, offset: nat, width: nat, sn: nat, part: Const, sel: Const)
      returns (from: nat, half: Const, rest: Const)
    requires Defined(s) && 0 < sn && WorksOn(x, s, offset, width, sn, part, sel)
    ensures from == if s[sn - 1] == S1 then Shl(width, sn - 1) else 0
    ensures WorksOn(x, s, offset + from, width, sn - 1, half, rest)
    ensures SameBmux(part, sel, half, rest)
  {
    var h := Shl(width, sn - 1);
    from := if s[sn - 1] == S1 then h else 0;
    half := HalfOf(x, offset, h, from, part);
    rest := sel[..sn - 1];
    HalfSelect(part, half, from, sel, rest);
  }

  lemma {:induction false} HalfOf(x: Const, offset: nat, h: nat, from: nat, part: Const) returns (half: Const)
    requires offset + 2 * h <= |x| && from <= h && part == x[offset..offset + 2 * h]
    ensures |half| == h && half == part[from..from + h]
    ensures half == x[offset + from..offset + from + h]
  {
    half := part[from..from + h];
    assert forall k :: 0 <= k < h ==> half[k] == x[offset + from..offset + from + h][k];
  }

  lemma {:induction false} TreeStep(x: Const, s: Const, offset: nat, width: nat, sn: nat, at: nat)
    requires 0 < sn <= |s| && offset + Shl(width, sn) <= |x|
    requires at == if s[sn - 1] == S1 then offset + Shl(width, sn - 1) else offset
    ensures BmuxTreeC(x, s, offset, width, sn) == BmuxTreeC(x, s, at, width, sn - 1)
  {
  }

  lemma {:induction false} HalfSelect(part: Const, half: Const, from: nat, sel: Const, rest: Const)
    requires |sel| > 0 && IsDef(sel[|sel| - 1]) && rest == sel[..|sel| - 1] && |part| == 2 * |half|
    requires from == (if sel[|sel| - 1] == S1 then |half| else 0) && half == part[from..from + |half|]
    ensures SameBmux(part, sel, half, rest)
  {
    assert BmuxStep(part, sel[|sel| - 1]) == half;
  }

  /** `$bmux`: the multiplexer tree is the evaluator's selection. */
  lemma {:induction false} LowerBmuxExact(a: Node, s: Node, width: nat, env: Env)
    requires Valid(a) && Valid(s) && width > 0 && Width(a) == Shl(width, Width(s))
    ensures Eval(HandleBmux(a, s, 0, width, Width(s)), env) == ConstBmux(Eval(a, env), Eval(s, env))
  {
    HandleBmuxMeaning(a, s, 0, width, Width(s), env);
    BmuxTreeExact(Eval(a, env), Eval(s, env), 0, width, Width(s), Eval(a, env), Eval(s, env));
  }

  // ----- $demux

  /** The node `handle` builds for `$demux`: the word, shifted left by the select value times the width. */
  function LowerDemux(a: Node, s: Node): (n: Node)
    requires Valid(a) && Valid(s)
    ensures Valid(n) && Width(n) == Shl(Width(a), Width(s))
  {
    var yWidth := Shl(Width(a), Width(s));
    var bWidth := CeilLog2(yWidth);
    assert bWidth > 0;
    ShiftNode(LogicalShiftLeft, ExtendTo(a, yWidth, false), DemuxAmount(s, Width(a), bWidth))
  }

  function DemuxAmount(s: Node, width: nat, bWidth: nat): (n: Node)
    requires Valid(s) && bWidth > 0
    ensures Valid(n) && Width(n) == bWidth
    ensures forall env :: Eval(n, env) == AmountC(Eval(s, env), width, bWidth)
  {
    Binary(Mul, ExtendTo(s, bWidth, false), ConstantNode(FromInt(width, bWidth)))
  }

  function AmountC(s: Const, width: nat, bWidth: nat): (r: Const)
    requires Defined(s)
    ensures Defined(r) && |r| == bWidth
  {
    Meaning2(Mul, Extend(s, bWidth, false), FromInt(width, bWidth))
  }

  /** `n` words of `w` bits. */
  function Words(w: nat, n: nat): nat {
    if n == 0 then 0 else Words(w, n - 1) + w
  }

  lemma {:induction false} WordsFacts(w: nat, n: nat)
    ensures Words(w, n) == w * n
  {
    if n > 0 {
      WordsFacts(w, n - 1);
    }
  }

  lemma {:induction false} WordsMono(w: nat, m: nat, n: nat)
    requires m <= n
    ensures Words(w, m) <= Words(w, n)
    decreases n
  {
    if m < n {
      WordsMono(w, m, n - 1);
    }
  }

  lemma {:induction false} ShlIsWords(w: nat, n: nat)
    ensures Shl(w, n) == Words(w, Pow2(n))
  {
    WordsFacts(w, Pow2(n));
    if n > 0 {
      ShlIsWords(w, n - 1);
      WordsFacts(w, Pow2(n - 1));
    } else {
      assert Words(w, 1) == Words(w, 0) + w;
    }
  }

  /** The shift amount is not truncated: every select value lands inside the output. */
  lemma {:induction false} AmountValue(s: Const, width: nat, bWidth: nat)
    requires Defined(s) && width > 0 && Shl(width, |s|) <= Pow2(bWidth)
    ensures UVal(AmountC(s, width, bWidth)) == Words(width, UVal(s)) && Words(width, UVal(s)) + width <= Shl(width, |s|)
  {
    var u := UVal(s);
    ShlIsWords(width, |s|);
    WordsMono(width, u + 1, Pow2(|s|));
    WordsFacts(width, u);
    ExtendMod(s, bWidth, false);
    UValFromInt(width, bWidth);
    MulBits(Extend(s, bWidth, false), FromInt(width, bWidth), u, width);
  }

  /** The truncating multiplier, when the product fits. */
  lemma {:induction false} MulBits(p: Const, q: Const, u: nat, w: nat)
    requires Defined(p) && Defined(q) && |p| == |q| && w > 0 && w * u < Pow2(|p|)
    requires UVal(p) == u % Pow2(|p|) && UVal(q) == w % Pow2(|p|)
    ensures UVal(Meaning2(Mul, p, q)) == w * u
  {
    UValFromInt(UVal(p) * UVal(q), |p|);
    SmallProduct(u, w, UVal(p), UVal(q), Pow2(|p|));
  }

  lemma {:induction false} SmallProduct(u: nat, w: nat, ux: int, wx: int, k: nat)
    requires w > 0 && k > 0 && w * u < k && ux == u % k && wx == w % k
    ensures (ux * wx) % k == w * u
  {
    if u == 0 {
      ModSmall(0, k);
      assert 0 * wx == 0;
    } else {
      ProductAtLeast(w, u);
      ProductAtLeast(u, w);
      ModSmall(u, k);
      ModSmall(w, k);
      ModSmall(w * u, k);
    }
  }

  function Zeros(n: nat): Const {
    seq(n, _ => S0)
  }

  /** A defined select vector selects exactly the word of its value. */
  lemma {:induction false} SelectsValue(s: Const, n: nat)
    requires Defined(s) && n < Pow2(|s|)
    ensures SelectsNot(s, n) <==> n != UVal(s)
  {
    if n == UVal(s) {
      forall j | 0 <= j < |s| ensures s[j] != if Bit(n, j) then S0 else S1 {
        BitOfMag(s, S1, j);
      }
    } else if !SelectsNot(s, n) {
      forall j | 0 <= j < |s| ensures s[j] == FromInt(n, |s|)[j] {
        assert s[j] != if Bit(n, j) then S0 else S1;
      }
      assert s == FromInt(n, |s|);
      UValFromInt(n, |s|);
      ModSmall(n, Pow2(|s|));
    }
  }

  /** The evaluator's output words: zeros, the word, zeros. */
  lemma {:induction false} DemuxShape(x: Const, s: Const, count: nat)
    requires Defined(s) && count <= Pow2(|s|)
    ensures Words(|x|, count) >= 0 && (UVal(s) < count ==> Words(|x|, UVal(s)) + |x| <= Words(|x|, count))
    ensures DemuxWords(x, s, count) ==
            if UVal(s) < count
                then Zeros(Words(|x|, UVal(s))) + x + Zeros(Words(|x|, count) - Words(|x|, UVal(s)) - |x|)
            else Zeros(Words(|x|, count))
  {
    if count > 0 {
      var n, u, w := count - 1, UVal(s), |x|;
      DemuxShape(x, s, n);
      SelectsValue(s, n);
      if u < n {
        ZerosAdd(Words(w, n) - Words(w, u) - w, w);
        assert DemuxWords(x, s, count) == (Zeros(Words(w, u)) + x) + (Zeros(Words(w, n) - Words(w, u) - w) + Zeros(w));
      } else if u == n {
        assert Zeros(0) == [];
      } else {
        ZerosAdd(Words(w, n), w);
      }
    }
  }

  lemma {:induction false} ZerosAdd(m: nat, n: nat)
    ensures Zeros(m) + Zeros(n) == Zeros(m + n)
  {
  }

  lemma {:induction false} ShiftedWord(x: Const, k: nat, len: nat)
    requires Defined(x) && k + |x| <= len
    ensures Shifted(Extend(x, len, false), 0 - k, false) == Zeros(k) + x + Zeros(len - k - |x|)
  {
  }

  /** What the lowered `$demux` computes. */
  function DemuxC(x: Const, s: Const): Const
    requires Defined(x) && Defined(s)
  {
    var len := Shl(|x|, |s|);
    Shifted(Extend(x, len, false), 0 - UVal(AmountC(s, |x|, CeilLog2(len))), false)
  }

  lemma {:induction false} DemuxExact(x: Const, s: Const)
    requires Defined(x) && Defined(s) && |x| > 0
    ensures DemuxC(x, s) == ConstDemux(x, s)
  {
    var k := DemuxCValue(x, s);
    ConstDemuxValue(x, s);
    ShiftedWord(x, k, Shl(|x|, |s|));
  }

  lemma {:induction false} DemuxCValue(x: Const, s: Const) returns (k: nat)
    requires Defined(x) && Defined(s) && |x| > 0
    ensures k == Words(|x|, UVal(s)) && k + |x| <= Shl(|x|, |s|)
    ensures DemuxC(x, s) == Shifted(Extend(x, Shl(|x|, |s|), false), 0 - k, false)
  {
    AmountValue(s, |x|, CeilLog2(Shl(|x|, |s|)));
    k := Words(|x|, UVal(s));
  }

  lemma {:induction false} ConstDemuxValue(x: Const, s: Const)
    requires Defined(s) && Words(|x|, UVal(s)) + |x| <= Shl(|x|, |s|)
    ensures ConstDemux(x, s) ==
            Zeros(Words(|x|, UVal(s))) + x + Zeros(Shl(|x|, |s|) - Words(|x|, UVal(s)) - |x|)
  {
    ShlIsWords(|x|, |s|);
    DemuxShape(x, s, Pow2(|s|));
  }

  /** `$demux`: the shifted word is the evaluator's output. */
  lemma {:induction false} LowerDemuxExact(a: Node, s: Node, env: Env)
    requires Valid(a) && Valid(s)
    ensures Eval(LowerDemux(a, s), env) == ConstDemux(Eval(a, env), Eval(s, env))
  {
    DemuxMeaning(a, s, env);
    DemuxExact(Eval(a, env), Eval(s, env));
  }

  lemma {:induction false} DemuxMeaning(a: Node, s: Node, env: Env)
    requires Valid(a) && Valid(s)
    ensures Eval(LowerDemux(a, s), env) == DemuxC(Eval(a, env), Eval(s, env))
  {
    var len := Shl(Width(a), Width(s));
    DemuxWith(ExtendTo(a, len, false), DemuxAmount(s, Width(a), CeilLog2(len)), Eval(a, env), Eval(s, env), env);
  }

  lemma {:induction false} DemuxWith(wide: Node, amount: Node, x: Const, s: Const, env: Env)
    requires Valid(wide) && Valid(amount) && Width(amount) == CeilLog2(Width(wide)) && Defined(x) && Defined(s)
    requires Eval(wide, env) == Extend(x, Shl(|x|, |s|), false)
    requires Eval(amount, env) == AmountC(s, |x|, CeilLog2(Shl(|x|, |s|)))
    ensures Eval(ShiftNode(LogicalShiftLeft, wide, amount), env) == DemuxC(x, s)
  {
    ShiftMeaning(wide, amount, env);
  }

  lemma {:induction false} ShiftMeaning(a: Node, b: Node, env: Env)
    requires Valid(a) && Valid(b) && Width(b) == CeilLog2(Width(a))
    ensures Eval(ShiftNode(LogicalShiftLeft, a, b), env) == Shifted(Eval(a, env), 0 - UVal(Eval(b, env)), false)
  {
  }
}
