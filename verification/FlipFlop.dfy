/** Flip-flop and latch rewriting: `FfData` (`kernel/ff.cc`) against the priorities documented in `kernel/ff.h`. */
module FlipFlop {
  import opened Collections
  // ----- Signals

  /** One bit of a signal: a constant, a module input, the output wire, or a gate.
      `Q(g, i)` is bit `i` of the output wire after `g` inverters have been put behind the register. */
  datatype Wire =
    | K(value: bool)
    | In(id: nat)
    | Q(gen: nat, bit: nat)
    | Not(a: Wire)
    | And(a: Wire, b: Wire)
    | Or(a: Wire, b: Wire)
    | Xor(a: Wire, b: Wire)
    | Mux(a: Wire, b: Wire, s: Wire)

  /** The module inputs and the value of the original output wire. */
  datatype Env = Env(inputs: seq<bool>, q: seq<bool>)

  predicate At(s: seq<bool>, i: nat) {
    i < |s| && s[i]
  }

  /** Whether the first `g` inverters together invert bit `i`. */
  predicate Inverts(masks: seq<seq<bool>>, g: nat, i: nat) {
    if g == 0 || g > |masks| then false else Inverts(masks, g - 1, i) != At(masks[g - 1], i)
  }

  predicate Ev(masks: seq<seq<bool>>, w: Wire, e: Env) {
    match w
    case K(v) => v
    case In(n) => At(e.inputs, n)
    case Q(g, i) => At(e.q, i) != Inverts(masks, g, i)
    case Not(a) => !Ev(masks, a, e)
    case And(a, b) => Ev(masks, a, e) && Ev(masks, b, e)
    case Or(a, b) => Ev(masks, a, e) || Ev(masks, b, e)
    case Xor(a, b) => Ev(masks, a, e) != Ev(masks, b, e)
    case Mux(a, b, s) => if Ev(masks, s, e) then Ev(masks, b, e) else Ev(masks, a, e)
  }

  /** The wire mentions only existing output wires. */
  predicate Known(n: nat, w: Wire) {
    match w
    case K(_) => true
    case In(_) => true
    case Q(g, _) => g <= n
    case Not(a) => Known(n, a)
    case And(a, b) => Known(n, a) && Known(n, b)
    case Or(a, b) => Known(n, a) && Known(n, b)
    case Xor(a, b) => Known(n, a) && Known(n, b)
    case Mux(a, b, s) => Known(n, a) && Known(n, b) && Known(n, s)
  }

  lemma {:induction false} InvertsPrefix(masks: seq<seq<bool>>, m: seq<bool>, g: nat, i: nat)
    requires g <= |masks|
    ensures Inverts(masks + [m], g, i) == Inverts(masks, g, i)
  {
    if g > 0 {
      InvertsPrefix(masks, m, g - 1, i);
    }
  }

  /** A further inverter changes no wire that was there before. */
  lemma {:induction false} EvMoreMasks(masks: seq<seq<bool>>, m: seq<bool>, w: Wire, e: Env)
    requires Known(|masks|, w)
    ensures Ev(masks + [m], w, e) == Ev(masks, w, e)
  {
    match w
    case K(_) =>
    case In(_) =>
    case Q(g, i) => InvertsPrefix(masks, m, g, i);
    case Not(a) => EvMoreMasks(masks, m, a, e);
    case And(a, b) => EvMoreMasks(masks, m, a, e); EvMoreMasks(masks, m, b, e);
    case Or(a, b) => EvMoreMasks(masks, m, a, e); EvMoreMasks(masks, m, b, e);
    case Xor(a, b) => EvMoreMasks(masks, m, a, e); EvMoreMasks(masks, m, b, e);
    case Mux(a, b, s) => EvMoreMasks(masks, m, a, e); EvMoreMasks(masks, m, b, e); EvMoreMasks(masks, m, s, e);
  }

  // ----- What a flip-flop does

  /** A control: whether it is present, its signal and its active level. */
  datatype Control = Control(has: bool, sig: Wire, pol: bool)

  /** The fields of `FfData`; `masks` are the inverters put behind the register so far. */
  datatype Ff = Ff(
    width: nat, isFine: bool, hasGclk: bool, hasSr: bool, ceOverSrst: bool,
    clk: Control, ce: Control, srst: Control, aload: Control, arst: Control,
    sigD: seq<Wire>, sigAd: seq<Wire>, sigClr: seq<Wire>, polClr: bool, sigSet: seq<Wire>, polSet: bool,
    valArst: seq<bool>, valSrst: seq<bool>, valInit: seq<bool>,
    masks: seq<seq<bool>>)

  predicate KnownAll(n: nat, s: seq<Wire>) {
    forall i :: 0 <= i < |s| ==> Known(n, s[i])
  }

  /** Every wire mentions only existing output wires. */
  predicate KnownWires(f: Ff) {
    var n := |f.masks|;
    && KnownAll(n, f.sigD) && KnownAll(n, f.sigAd) && KnownAll(n, f.sigClr) && KnownAll(n, f.sigSet)
    && Known(n, f.clk.sig) && Known(n, f.ce.sig) && Known(n, f.srst.sig) && Known(n, f.aload.sig)
        && Known(n, f.arst.sig)
  }

  /** Signals and values have the register's width where they are used. */
  predicate Shaped(f: Ff) {
    && (f.clk.has || f.hasGclk ==> |f.sigD| == f.width)
    && (f.aload.has ==> |f.sigAd| == f.width)
    && (f.hasSr ==> |f.sigClr| == |f.sigSet| == f.width)
    && (f.arst.has ==> |f.valArst| == f.width) && (f.srst.has ==> |f.valSrst| == f.width) && |f.valInit| == f.width
    && (f.ce.has || f.srst.has ==> f.clk.has)
    && (f.isFine ==> f.width == 1)
  }

  /** The control is present and active. */
  predicate On(f: Ff, c: Control, e: Env) {
    c.has && Ev(f.masks, c.sig, e) == c.pol
  }

  /** Whether the wire seen from outside is the inverse of the register. */
  predicate Inverted(f: Ff, i: nat) {
    Inverts(f.masks, |f.masks|, i)
  }

  predicate Edge(f: Ff, prev: Env, cur: Env) {
    !On(f, f.clk, prev) && On(f, f.clk, cur)
  }

  /** A register bit after a clock edge. */
  predicate Clocked(ceOverSrst: bool, blocked: bool, srst: bool, val: bool, d: bool, reg: bool) {
    if ceOverSrst && blocked then reg
    else if srst then val
    else if blocked then reg
    else d
  }

  /** What bit `i` becomes at a clock edge, with the inputs before the edge. */
  predicate AtEdge(f: Ff, e: Env, i: nat, reg: bool)
    requires Shaped(f) && f.clk.has && i < f.width
  {
    Clocked(f.ceOverSrst, f.ce.has && !On(f, f.ce, e), On(f, f.srst, e), f.srst.has && f.valSrst[i],
            Ev(f.masks, f.sigD[i], e), reg)
  }

  /** Register bit `i` after a step, in the documented order of priority. */
  predicate NextReg(f: Ff, prev: Env, cur: Env, i: nat, reg: bool)
    requires Shaped(f) && i < f.width
  {
    if f.hasSr && Ev(f.masks, f.sigClr[i], cur) == f.polClr then false
    else if f.hasSr && Ev(f.masks, f.sigSet[i], cur) == f.polSet then true
    else if On(f, f.arst, cur) then f.valArst[i]
    else if On(f, f.aload, cur) then Ev(f.masks, f.sigAd[i], cur)
    else Synchronous(f, prev, cur, i, reg)
  }

  /** Without an asynchronous event: a step of the global clock, an edge, or nothing. */
  predicate Synchronous(f: Ff, prev: Env, cur: Env, i: nat, reg: bool)
    requires Shaped(f) && i < f.width
  {
    if f.hasGclk then Ev(f.masks, f.sigD[i], prev)
    else if Edge(f, prev, cur) then AtEdge(f, prev, i, reg)
    else reg
  }

  /** Bit `i` of the original output wire after a step. */
  predicate NextBit(f: Ff, prev: Env, cur: Env, i: nat)
    requires Shaped(f) && i < f.width
  {
    NextReg(f, prev, cur, i, At(prev.q, i) != Inverted(f, i)) != Inverted(f, i)
  }

  function Next(f: Ff, q: seq<bool>, before: seq<bool>, now: seq<bool>): (r: seq<bool>)
    requires Shaped(f)
    ensures |r| == f.width
  {
    seq(f.width, i requires 0 <= i < f.width => NextBit(f, Env(before, q), Env(now, q), i))
  }

  function Init(f: Ff): seq<bool>
    requires Shaped(f)
  {
    seq(f.width, i requires 0 <= i < f.width => f.valInit[i] != Inverted(f, i))
  }

  /** The output wire's value after each step of a run. */
  function Trace(f: Ff, run: seq<seq<bool>>): (t: seq<seq<bool>>)
    requires Shaped(f) && |run| > 0
    ensures |t| == |run|
  {
    if |run| == 1 then [Init(f)]
    else
      var t := Trace(f, run[..|run| - 1]);
      t + [Next(f, t[|t| - 1], run[|run| - 2], run[|run| - 1])]
  }

  /** Two descriptions take the same step from every state on every pair of input vectors. */
  ghost predicate Same(f: Ff, g: Ff) {
    && Shaped(f) && Shaped(g) && f.width == g.width
    && (forall prev, cur, i: nat {:trigger NextBit(g, prev, cur, i)} ::
          i < f.width ==> NextBit(f, prev, cur, i) == NextBit(g, prev, cur, i))
    && Init(f) == Init(g)
  }

  /** Descriptions that take the same steps have the same output trace on every run. */
  lemma {:induction false} SameTrace(f: Ff, g: Ff, run: seq<seq<bool>>)
    requires Same(f, g) && |run| > 0
    ensures Trace(f, run) == Trace(g, run)
  {
    if |run| > 1 {
      SameTrace(f, g, run[..|run| - 1]);
      var t := Trace(f, run[..|run| - 1]);
      var q, before, now := t[|t| - 1], run[|run| - 2], run[|run| - 1];
      forall i: nat | i < f.width ensures Next(f, q, before, now)[i] == Next(g, q, before, now)[i] {
        assert NextBit(g, Env(before, q), Env(now, q), i) == NextBit(f, Env(before, q), Env(now, q), i);
      }
      assert Next(f, q, before, now) == Next(g, q, before, now);
    }
  }

  lemma {:induction false} SameTrans(f: Ff, g: Ff, h: Ff)
    requires Same(f, g) && Same(g, h)
    ensures Same(f, h)
  {
    forall prev, cur, i: nat | i < f.width ensures NextBit(f, prev, cur, i) == NextBit(h, prev, cur, i) {
      assert NextBit(g, prev, cur, i) == NextBit(h, prev, cur, i);
    }
  }

  // ----- Rewrites, as changes of the description

  /** The control expressed active-high. */
  function High(w: Wire, pol: bool): Wire {
    if pol then w else Not(w)
  }

  /** A control computed by a gate, in the polarity `pol`, active when both or either of two controls are. */
  function Both(a: Wire, polA: bool, b: Wire, polB: bool): Wire {
    if polA then And(a, High(b, polB)) else Or(a, High(b, !polB))
  }

  function Either(a: Wire, polA: bool, b: Wire, polB: bool): Wire {
    if polA then Or(a, High(b, polB)) else And(a, High(b, !polB))
  }

  lemma {:induction false} HighEv(masks: seq<seq<bool>>, w: Wire, pol: bool, e: Env)
    ensures Ev(masks, High(w, pol), e) == (Ev(masks, w, e) == pol)
  {
  }

  lemma {:induction false} BothEv(masks: seq<seq<bool>>, a: Wire, polA: bool, b: Wire, polB: bool, e: Env)
    ensures (Ev(masks, Both(a, polA, b, polB), e) == polA) <==> Ev(masks, a, e) == polA && Ev(masks, b, e) == polB
    ensures (Ev(masks, Either(a, polA, b, polB), e) == polA) <==> Ev(masks, a, e) == polA || Ev(masks, b, e) == polB
  {
    HighEv(masks, b, polB, e);
    HighEv(masks, b, !polB, e);
  }

  function ConvertedCe(f: Ff, val: bool): Ff {
    if !f.ce.has || !f.srst.has || f.ceOverSrst == val then f
    else if val then f.(ceOverSrst := true, ce := f.ce.(sig := Either(f.ce.sig, f.ce.pol, f.srst.sig, f.srst.pol)))
    else f.(ceOverSrst := false, srst := f.srst.(sig := Both(f.srst.sig, f.srst.pol, f.ce.sig, f.ce.pol)))
  }

  /** `g` ranks the enable as asked and differs from `f` at most in the one signal that this takes. */
  predicate Reordered(f: Ff, g: Ff, val: bool) {
    && (f.ce.has && f.srst.has ==> g.ceOverSrst == val)
    && (!(f.ce.has && f.srst.has) || f.ceOverSrst == val ==> g == f)
    && (if val then g == f.(ceOverSrst := g.ceOverSrst, ce := f.ce.(sig := g.ce.sig))
        else g == f.(ceOverSrst := g.ceOverSrst, srst := f.srst.(sig := g.srst.sig)))
  }

  lemma {:induction false} ConvertedCeReorders(f: Ff, val: bool)
    ensures Reordered(f, ConvertedCe(f, val), val)
  {
  }

  /** `g` differs from `f` only in what happens at a clock edge. */
  predicate OnlyClocked(f: Ff, g: Ff) {
    && Shaped(f) && Shaped(g) && f.clk.has && !f.hasGclk
    && g == f.(ce := g.ce, srst := g.srst, ceOverSrst := g.ceOverSrst, sigD := g.sigD)
  }

  predicate SameEdge(f: Ff, g: Ff, e: Env, i: nat)
    requires OnlyClocked(f, g) && i < f.width
  {
    var reg := At(e.q, i) != Inverted(f, i);
    AtEdge(f, e, i, reg) == AtEdge(g, e, i, reg)
  }

  lemma {:induction false} SameAtEdge(f: Ff, g: Ff, prev: Env, cur: Env, i: nat)
    requires OnlyClocked(f, g) && i < f.width && SameEdge(f, g, prev, i)
    ensures NextBit(f, prev, cur, i) == NextBit(g, prev, cur, i)
  {
    assert Edge(f, prev, cur) == Edge(g, prev, cur);
    assert On(f, f.arst, cur) == On(g, g.arst, cur) && On(f, f.aload, cur) == On(g, g.aload, cur);
  }

  lemma {:induction false} SameIfAtEdge(f: Ff, g: Ff)
    requires OnlyClocked(f, g) && forall e: Env, i: nat :: i < f.width ==> SameEdge(f, g, e, i)
    ensures Same(f, g)
  {
    forall prev, cur, i: nat | i < f.width ensures NextBit(f, prev, cur, i) == NextBit(g, prev, cur, i) {
      SameAtEdge(f, g, prev, cur, i);
    }
  }

  /** Moving the enable above or below the synchronous reset keeps every step. */
  lemma {:induction false} ConvertedCeSame(f: Ff, val: bool)
    requires Shaped(f) && !(f.clk.has && f.hasGclk)
    ensures Same(f, ConvertedCe(f, val))
  {
    if f.ce.has && f.srst.has && f.ceOverSrst != val {
      var g := ConvertedCe(f, val);
      assert OnlyClocked(f, g);
      forall e: Env, i: nat | i < f.width ensures SameEdge(f, g, e, i) {
        ConvertedCeEdge(f, val, e, i);
      }
      SameIfAtEdge(f, g);
    } else {
      SameRefl(f);
    }
  }

  lemma {:induction false} ConvertedCeEdge(f: Ff, val: bool, e: Env, i: nat)
    requires f.ce.has && f.srst.has && f.ceOverSrst != val && OnlyClocked(f, ConvertedCe(f, val)) && i < f.width
    ensures SameEdge(f, ConvertedCe(f, val), e, i)
  {
    if val {
      BothEv(f.masks, f.ce.sig, f.ce.pol, f.srst.sig, f.srst.pol, e);
    } else {
      BothEv(f.masks, f.srst.sig, f.srst.pol, f.ce.sig, f.ce.pol, e);
    }
  }

  // ----- Removing the enable and the synchronous reset

  /** Bit `i` of the current output wire. */
  function QWire(f: Ff, i: nat): Wire {
    Q(|f.masks|, i)
  }

  function HeldD(f: Ff): seq<Wire> {
    seq(|f.sigD|, i requires 0 <= i < |f.sigD| =>
      if f.ce.pol then Mux(QWire(f, i), f.sigD[i], f.ce.sig) else Mux(f.sigD[i], QWire(f, i), f.ce.sig))
  }

  function ResetD(f: Ff): seq<Wire>
    requires |f.valSrst| == |f.sigD|
  {
    seq(|f.sigD|, i requires 0 <= i < |f.sigD| =>
      if f.srst.pol then Mux(f.sigD[i], K(f.valSrst[i]), f.srst.sig) else Mux(K(f.valSrst[i]), f.sigD[i], f.srst.sig))
  }

  /** An enable that is not above a reset becomes a multiplexer that holds the output. */
  function WithoutCe(f: Ff): Ff {
    f.(ce := f.ce.(has := false), sigD := HeldD(f))
  }

  function WithoutSrst(f: Ff): Ff
    requires |f.valSrst| == |f.sigD|
  {
    f.(srst := f.srst.(has := false), sigD := ResetD(f))
  }

  /** `g` has the controls of `f` except that an enable or a synchronous reset may have moved into the data. */
  predicate Unmapped(f: Ff, g: Ff) {
    && g == f.(ce := f.ce.(has := g.ce.has), srst := f.srst.(has := g.srst.has), sigD := g.sigD)
    && (g.ce.has ==> f.ce.has) && (g.srst.has ==> f.srst.has)
    && (g.ce.has == f.ce.has && g.srst.has == f.srst.has ==> g == f)
  }

  lemma {:induction false} WithoutUnmaps(f: Ff)
    ensures f.ce.has ==> Unmapped(f, WithoutCe(f))
    ensures f.srst.has && |f.valSrst| == |f.sigD| ==> Unmapped(f, WithoutSrst(f))
  {
  }

  lemma {:induction false} UnmappedTrans(f: Ff, g: Ff, h: Ff)
    requires Unmapped(f, g) && Unmapped(g, h)
    ensures Unmapped(f, h)
  {
  }

  lemma {:induction false} WithoutCeSame(f: Ff)
    requires Shaped(f) && f.ce.has && !f.hasGclk && !(f.srst.has && f.ceOverSrst)
    ensures Same(f, WithoutCe(f))
  {
    var g := WithoutCe(f);
    forall e: Env, i: nat | i < f.width ensures SameEdge(f, g, e, i) {
      HeldBit(f, e, i);
    }
    SameIfAtEdge(f, g);
  }

  lemma {:induction false} HeldBit(f: Ff, e: Env, i: nat)
    requires Shaped(f) && f.ce.has && i < f.width
    ensures Ev(f.masks, HeldD(f)[i], e) == if On(f, f.ce, e)
            then Ev(f.masks, f.sigD[i], e) else At(e.q, i) != Inverted(f, i)
  {
  }

  lemma {:induction false} WithoutSrstSame(f: Ff)
    requires Shaped(f) && f.srst.has && !f.hasGclk && !(f.ce.has && !f.ceOverSrst)
    ensures Same(f, WithoutSrst(f))
  {
    var g := WithoutSrst(f);
    forall e: Env, i: nat | i < f.width ensures SameEdge(f, g, e, i) {
      ResetBit(f, e, i);
    }
    SameIfAtEdge(f, g);
  }

  lemma {:induction false} ResetBit(f: Ff, e: Env, i: nat)
    requires Shaped(f) && f.srst.has && i < f.width
    ensures Ev(f.masks, ResetD(f)[i], e) == if On(f, f.srst, e) then f.valSrst[i] else Ev(f.masks, f.sigD[i], e)
  {
  }

  // ----- Asynchronous load and reset as set and clear

  function LoadClr(f: Ff): seq<Wire> {
    seq(|f.sigAd|, i requires 0 <= i < |f.sigAd| =>
      if !f.isFine
          then (if f.aload.pol then Mux(K(true), f.sigAd[i], f.aload.sig) else Mux(f.sigAd[i], K(true), f.aload.sig))
      else if f.aload.pol then And(f.aload.sig, Not(f.sigAd[i])) else Or(f.aload.sig, f.sigAd[i]))
  }

  function LoadSet(f: Ff): seq<Wire> {
    seq(|f.sigAd|, i requires 0 <= i < |f.sigAd| =>
      if !f.isFine
          then (if f.aload.pol then Mux(K(false), f.sigAd[i], f.aload.sig) else Mux(f.sigAd[i], K(false), f.aload.sig))
      else if f.aload.pol then And(f.aload.sig, f.sigAd[i]) else Or(f.aload.sig, Not(f.sigAd[i])))
  }

  function LoadToSr(f: Ff): Ff {
    f.(hasSr := true, aload := f.aload.(has := false), sigClr := LoadClr(f), sigSet := LoadSet(f),
       polClr := f.isFine && f.aload.pol, polSet := !f.isFine || f.aload.pol)
  }

  /** The set and clear wires are active exactly during a load, by the loaded bit. */
  lemma {:induction false} LoadBits(f: Ff, e: Env, i: nat)
    requires Shaped(f) && f.aload.has && i < f.width
    ensures (Ev(f.masks, LoadClr(f)[i], e) == LoadToSr(f).polClr) == (On(f, f.aload, e) && !Ev(f.masks, f.sigAd[i], e))
    ensures (Ev(f.masks, LoadSet(f)[i], e) == LoadToSr(f).polSet) == (On(f, f.aload, e) && Ev(f.masks, f.sigAd[i], e))
  {
    assert Ev(f.masks, Not(f.sigAd[i]), e) == !Ev(f.masks, f.sigAd[i], e);
  }

  /** A step is kept exactly unless an asynchronous reset is overridden by a load of another value. */
  lemma {:induction false} LoadToSrStep(f: Ff, prev: Env, cur: Env, i: nat)
    requires Shaped(f) && f.aload.has && !f.hasSr && i < f.width
    ensures NextBit(f, prev, cur, i) == NextBit(LoadToSr(f), prev, cur, i) <==>
            !(On(f, f.arst, cur) && On(f, f.aload, cur) && Ev(f.masks, f.sigAd[i], cur) != f.valArst[i])
  {
    var g := LoadToSr(f);
    LoadBits(f, cur, i);
    assert On(g, g.arst, cur) == On(f, f.arst, cur) && Edge(g, prev, cur) == Edge(f, prev, cur);
    assert f.clk.has ==>
           AtEdge(g, prev, i, At(prev.q, i) != Inverted(f, i)) == AtEdge(f, prev, i, At(prev.q, i) != Inverted(f, i));
  }

  /** Without an asynchronous reset the load may become set and clear. */
  lemma {:induction false} LoadToSrSame(f: Ff)
    requires Shaped(f) && f.aload.has && !f.hasSr && !f.arst.has
    ensures Same(f, LoadToSr(f))
  {
    forall prev, cur, i: nat | i < f.width ensures NextBit(f, prev, cur, i) == NextBit(LoadToSr(f), prev, cur, i) {
      LoadToSrStep(f, prev, cur, i);
    }
  }

  /** With an asynchronous reset on inputs of its own, some inputs tell the two apart in every state. */
  lemma {:induction false} LoadToSrBreaks(f: Ff, i: nat, r: nat, l: nat, d: nat) returns (now: seq<bool>)
    requires Shaped(f) && f.aload.has && !f.hasSr && f.arst.has && i < f.width
    requires r != l && l != d && r != d && f.arst.sig == In(r) && f.aload.sig == In(l) && f.sigAd[i] == In(d)
    ensures forall prev, q :: NextBit(f, prev, Env(now, q), i) != NextBit(LoadToSr(f), prev, Env(now, q), i)
  {
    now := seq(r + l + d + 1, k => if k == r then f.arst.pol else if k == l then f.aload.pol else !f.valArst[i]);
    forall prev, q ensures NextBit(f, prev, Env(now, q), i) != NextBit(LoadToSr(f), prev, Env(now, q), i) {
      LoadToSrStep(f, prev, Env(now, q), i);
    }
  }

  /** So on some run the outputs differ. */
  lemma {:induction false} LoadToSrDiffers(f: Ff, i: nat, r: nat, l: nat, d: nat) returns (run: seq<seq<bool>>)
    requires Shaped(f) && f.aload.has && !f.hasSr && f.arst.has && i < f.width
    requires r != l && l != d && r != d && f.arst.sig == In(r) && f.aload.sig == In(l) && f.sigAd[i] == In(d)
    ensures |run| > 0 && Shaped(LoadToSr(f)) && Trace(f, run) != Trace(LoadToSr(f), run)
  {
    var now := LoadToSrBreaks(f, i, r, l, d);
    var g := LoadToSr(f);
    run := [[], now];
    assert run[..1] == [[]];
    assert Trace(f, run)[1] == Next(f, Init(f), [], now) && Trace(g, run)[1] == Next(g, Init(g), [], now);
    assert Init(f) == Init(g);
    assert Next(f, Init(f), [], now)[i] != Next(g, Init(f), [], now)[i];
  }

  function ResetLane(f: Ff, on: bool): seq<Wire>
    requires |f.valArst| == f.width
  {
    seq(f.width, i requires 0 <= i < f.width => if f.valArst[i] == on then f.arst.sig else K(!f.arst.pol))
  }

  function ResetToSr(f: Ff): Ff
    requires |f.valArst| == f.width
  {
    f.(hasSr := true, arst := f.arst.(has := false), polClr := f.arst.pol, polSet := f.arst.pol,
       sigClr := ResetLane(f, false), sigSet := ResetLane(f, true))
  }

  /** An asynchronous reset may always become set and clear. */
  lemma {:induction false} ResetToSrSame(f: Ff)
    requires Shaped(f) && f.arst.has && !f.hasSr
    ensures Same(f, ResetToSr(f))
  {
    var g := ResetToSr(f);
    forall prev, cur, i: nat | i < f.width ensures NextBit(f, prev, cur, i) == NextBit(g, prev, cur, i) {
      assert On(g, g.aload, cur) == On(f, f.aload, cur) && Edge(g, prev, cur) == Edge(f, prev, cur);
      assert f.clk.has ==>
             AtEdge(g, prev, i, At(prev.q, i) != Inverted(f, i)) == AtEdge(f, prev, i, At(prev.q, i) != Inverted(f, i));
    }
  }

  function ResetToLoad(f: Ff): Ff {
    f.(arst := f.arst.(has := false), aload := Control(true, f.arst.sig, f.arst.pol),
       sigAd := seq(|f.valArst|, i requires 0 <= i < |f.valArst| => K(f.valArst[i])))
  }

  /** An asynchronous reset may become a load of constants when there is no load yet. */
  lemma {:induction false} ResetToLoadSame(f: Ff)
    requires Shaped(f) && f.arst.has && !f.aload.has
    ensures Same(f, ResetToLoad(f))
  {
    var g := ResetToLoad(f);
    forall prev, cur, i: nat | i < f.width ensures NextBit(f, prev, cur, i) == NextBit(g, prev, cur, i) {
      ResetToLoadClocked(f, prev, cur, i, At(prev.q, i) != Inverted(f, i));
    }
  }

  lemma {:induction false} ResetToLoadClocked(f: Ff, prev: Env, cur: Env, i: nat, reg: bool)
    requires Shaped(f) && f.arst.has && !f.aload.has && i < f.width
    ensures Shaped(ResetToLoad(f))
            && Synchronous(ResetToLoad(f), prev, cur, i, reg) == Synchronous(f, prev, cur, i, reg)
  {
    var g := ResetToLoad(f);
    assert Edge(g, prev, cur) == Edge(f, prev, cur);
    assert f.clk.has ==> AtEdge(g, prev, i, reg) == AtEdge(f, prev, i, reg);
  }

  // ----- Flipping bits

  function Mask(width: nat, bits: set<nat>): (m: seq<bool>)
    ensures |m| == width
  {
    seq(width, i => i in bits)
  }

  function FlipVal(val: seq<bool>, bits: set<nat>): (r: seq<bool>)
    ensures |r| == |val|
  {
    seq(|val|, i requires 0 <= i < |val| => val[i] != (i in bits))
  }

  /** Flipped data: an exclusive or with the mask, or an inverter for a fine cell. */
  function FlipData(isFine: bool, d: seq<Wire>, bits: set<nat>): seq<Wire> {
    seq(|d|, i requires 0 <= i < |d| => if isFine then Not(d[i]) else Xor(d[i], K(i in bits)))
  }

  /** Clear after flipping: the old set, masked by the old clear so that it keeps its priority. */
  function FlipClr(f: Ff, bits: set<nat>): seq<Wire>
    requires |f.sigClr| == |f.sigSet|
  {
    seq(|f.sigClr|, i requires 0 <= i < |f.sigClr| =>
      if f.isFine then Both(f.sigSet[i], f.polSet, f.sigClr[i], !f.polClr)
      else if i in bits then And(High(f.sigSet[i], f.polSet), High(f.sigClr[i], !f.polClr))
      else High(f.sigClr[i], f.polClr))
  }

  function FlipSet(f: Ff, bits: set<nat>): seq<Wire>
    requires |f.sigClr| == |f.sigSet|
  {
    seq(|f.sigSet|, i requires 0 <= i < |f.sigSet| =>
      if f.isFine then f.sigClr[i]
      else if i in bits then High(f.sigClr[i], f.polClr)
      else High(f.sigSet[i], f.polSet))
  }

  function FlippedSr(f: Ff, bits: set<nat>): Ff
    requires Shaped(f)
  {
    if !f.hasSr then f
    else f.(sigClr := FlipClr(f, bits), sigSet := FlipSet(f, bits),
            polClr := !f.isFine || f.polSet, polSet := !f.isFine || f.polClr)
  }

  function Flipped(f: Ff, bits: set<nat>): Ff
    requires Shaped(f)
  {
    FlippedSr(f, bits).(
      valArst := if f.arst.has then FlipVal(f.valArst, bits) else f.valArst,
      valSrst := if f.srst.has then FlipVal(f.valSrst, bits) else f.valSrst,
      valInit := FlipVal(f.valInit, bits),
      sigD := if f.clk.has || f.hasGclk then FlipData(f.isFine, f.sigD, bits) else f.sigD,
      sigAd := if f.aload.has then FlipData(f.isFine, f.sigAd, bits) else f.sigAd,
      masks := f.masks + [Mask(f.width, bits)])
  }

  /** `g` keeps the controls of `f`, and its register holds the inverse of that of `f` in `bits` from the start. */
  predicate FlippedStorage(f: Ff, g: Ff, bits: set<nat>) {
    && g == f.(sigD := g.sigD, sigAd := g.sigAd, sigClr := g.sigClr, polClr := g.polClr, sigSet := g.sigSet,
               polSet := g.polSet, valArst := g.valArst, valSrst := g.valSrst, valInit := g.valInit, masks := g.masks)
    && |g.valInit| == |f.valInit|
    && forall i: nat :: i < f.width ==> StoresFlipped(f, g, bits, i)
  }

  predicate StoresFlipped(f: Ff, g: Ff, bits: set<nat>, i: nat) {
    && Inverted(g, i) == (Inverted(f, i) != (i in bits))
    && At(g.valInit, i) == (At(f.valInit, i) != (i in bits))
  }

  lemma {:induction false} FlippedStores(f: Ff, bits: set<nat>)
    requires Flippable(f, bits)
    ensures FlippedStorage(f, Flipped(f, bits), bits)
  {
    forall i: nat | i < f.width ensures StoresFlipped(f, Flipped(f, bits), bits, i) {
      FlippedInverted(f, bits, i);
    }
  }

  /** Bits of a fine cell are flipped all or not at all. */
  predicate Flippable(f: Ff, bits: set<nat>) {
    Shaped(f) && KnownWires(f) && (forall i :: i in bits ==> i < f.width) && (f.isFine ==> 0 in bits)
  }

  lemma {:induction false} FlippedInverted(f: Ff, bits: set<nat>, i: nat)
    requires Flippable(f, bits) && i < f.width
    ensures Inverted(Flipped(f, bits), i) == (Inverted(f, i) != (i in bits))
  {
    InvertsPrefix(f.masks, Mask(f.width, bits), |f.masks|, i);
  }

  lemma {:induction false} FlippedControl(f: Ff, bits: set<nat>, c: Control, e: Env)
    requires Flippable(f, bits) && Known(|f.masks|, c.sig)
    ensures On(Flipped(f, bits), c, e) == On(f, c, e)
  {
    EvMoreMasks(f.masks, Mask(f.width, bits), c.sig, e);
  }

  lemma {:induction false} FlippedData(f: Ff, bits: set<nat>, d: seq<Wire>, i: nat, e: Env)
    requires Flippable(f, bits) && i < |d| == f.width && KnownAll(|f.masks|, d)
    ensures Ev(Flipped(f, bits).masks, FlipData(f.isFine, d, bits)[i], e) == (Ev(f.masks, d[i], e) != (i in bits))
  {
    EvMoreMasks(f.masks, Mask(f.width, bits), d[i], e);
    var masks := Flipped(f, bits).masks;
    assert Ev(masks, K(i in bits), e) == (i in bits);
  }

  /** After flipping, clear and set act on the flipped bit as before on the original. */
  lemma {:induction false} FlippedLanes(f: Ff, bits: set<nat>, i: nat, e: Env)
    requires Flippable(f, bits) && f.hasSr && i < f.width
    ensures var g := Flipped(f, bits);
            var clr, set_ := Ev(f.masks, f.sigClr[i], e) == f.polClr, Ev(f.masks, f.sigSet[i], e) == f.polSet;
            var clr', set' := Ev(g.masks, g.sigClr[i], e) == g.polClr, Ev(g.masks, g.sigSet[i], e) == g.polSet;
            if i in bits then clr' == (set_ && !clr) && set' == clr else clr' == clr && set' == set_
  {
    var m := Mask(f.width, bits);
    EvMoreMasks(f.masks, m, f.sigClr[i], e);
    EvMoreMasks(f.masks, m, f.sigSet[i], e);
    FlippedLaneEv(f, bits, i, e, Flipped(f, bits).masks);
  }

  /** The wires of the flipped lanes, over any masks. */
  lemma {:induction false} FlippedLaneEv(f: Ff, bits: set<nat>, i: nat, e: Env, masks: seq<seq<bool>>)
    requires Flippable(f, bits) && f.hasSr && i < f.width
    ensures var g := Flipped(f, bits);
            var clr, set_ := Ev(masks, f.sigClr[i], e) == f.polClr, Ev(masks, f.sigSet[i], e) == f.polSet;
            var clr', set' := Ev(masks, g.sigClr[i], e) == g.polClr, Ev(masks, g.sigSet[i], e) == g.polSet;
            if i in bits then clr' == (set_ && !clr) && set' == clr else clr' == clr && set' == set_
  {
    if f.isFine {
      BothEv(masks, f.sigSet[i], f.polSet, f.sigClr[i], !f.polClr, e);
    } else {
      HighEv(masks, f.sigSet[i], f.polSet, e);
      HighEv(masks, f.sigClr[i], f.polClr, e);
      HighEv(masks, f.sigClr[i], !f.polClr, e);
    }
  }

  lemma {:induction false} FlippedEdge(f: Ff, bits: set<nat>, i: nat, e: Env, reg: bool)
    requires Flippable(f, bits) && f.clk.has && i < f.width && Shaped(Flipped(f, bits))
    ensures AtEdge(Flipped(f, bits), e, i, reg != (i in bits)) == (AtEdge(f, e, i, reg) != (i in bits))
  {
    FlippedControl(f, bits, f.ce, e);
    FlippedControl(f, bits, f.srst, e);
    FlippedData(f, bits, f.sigD, i, e);
  }

  lemma {:induction false} FlippedReg(f: Ff, bits: set<nat>, prev: Env, cur: Env, i: nat, reg: bool)
    requires Flippable(f, bits) && i < f.width && Shaped(Flipped(f, bits))
    ensures NextReg(Flipped(f, bits), prev, cur, i, reg != (i in bits)) ==
            (NextReg(f, prev, cur, i, reg) != (i in bits))
  {
    FlippedControl(f, bits, f.arst, cur);
    FlippedControl(f, bits, f.aload, cur);
    if f.hasSr {
      FlippedLanes(f, bits, i, cur);
    }
    if f.aload.has {
      FlippedData(f, bits, f.sigAd, i, cur);
    }
    FlippedClocked(f, bits, prev, cur, i, reg);
  }

  lemma {:induction false} FlippedClocked(f: Ff, bits: set<nat>, prev: Env, cur: Env, i: nat, reg: bool)
    requires Flippable(f, bits) && i < f.width && Shaped(Flipped(f, bits))
    ensures Synchronous(Flipped(f, bits), prev, cur, i, reg != (i in bits)) ==
            (Synchronous(f, prev, cur, i, reg) != (i in bits))
  {
    FlippedControl(f, bits, f.clk, prev);
    FlippedControl(f, bits, f.clk, cur);
    if f.hasGclk {
      FlippedData(f, bits, f.sigD, i, prev);
    }
    if f.clk.has {
      FlippedEdge(f, bits, i, prev, reg);
    }
  }

  /** Flipping register bits behind inverters keeps the output. */
  lemma {:induction false} FlippedSame(f: Ff, bits: set<nat>)
    requires Flippable(f, bits)
    ensures Same(f, Flipped(f, bits))
  {
    var g := Flipped(f, bits);
    forall prev, cur, i: nat | i < f.width ensures NextBit(f, prev, cur, i) == NextBit(g, prev, cur, i) {
      FlippedInverted(f, bits, i);
      FlippedReg(f, bits, prev, cur, i, At(prev.q, i) != Inverted(f, i));
    }
    forall i | 0 <= i < f.width ensures Init(f)[i] == Init(g)[i] {
      FlippedInverted(f, bits, i);
    }
  }

  // ----- FfData

  lemma {:induction false} KnownGates(n: nat, a: Wire, polA: bool, b: Wire, polB: bool)
    requires Known(n, a) && Known(n, b)
    ensures Known(n, High(a, polA)) && Known(n, High(b, polB)) && Known(n, High(b, !polB))
    ensures Known(n, Both(a, polA, b, polB)) && Known(n, Either(a, polA, b, polB))
  {
    assert Known(n, High(b, polB)) && Known(n, High(b, !polB));
  }

  lemma {:induction false} KnownLater(n: nat, w: Wire)
    requires Known(n, w)
    ensures Known(n + 1, w)
  {
    match w
    case K(_) =>
    case In(_) =>
    case Q(_, _) =>
    case Not(a) => KnownLater(n, a);
    case And(a, b) => KnownLater(n, a); KnownLater(n, b);
    case Or(a, b) => KnownLater(n, a); KnownLater(n, b);
    case Xor(a, b) => KnownLater(n, a); KnownLater(n, b);
    case Mux(a, b, s) => KnownLater(n, a); KnownLater(n, b); KnownLater(n, s);
  }

  lemma {:induction false} ConvertedCeKnown(f: Ff, val: bool)
    requires KnownWires(f)
    ensures KnownWires(ConvertedCe(f, val))
  {
    KnownGates(|f.masks|, f.ce.sig, f.ce.pol, f.srst.sig, f.srst.pol);
    KnownGates(|f.masks|, f.srst.sig, f.srst.pol, f.ce.sig, f.ce.pol);
  }

  lemma {:induction false} LoadKnown(f: Ff)
    requires KnownWires(f)
    ensures KnownWires(LoadToSr(f))
  {
    var n := |f.masks|;
    forall i | 0 <= i < |f.sigAd| ensures Known(n, LoadClr(f)[i]) && Known(n, LoadSet(f)[i]) {
      assert Known(n, Not(f.sigAd[i])) && Known(n, K(true)) && Known(n, K(false));
    }
  }

  lemma {:induction false} FlippedKnown(f: Ff, bits: set<nat>)
    requires Flippable(f, bits)
    ensures KnownWires(Flipped(f, bits))
  {
    var n, g := |f.masks|, Flipped(f, bits);
    KnownLater(n, f.clk.sig);
    KnownLater(n, f.ce.sig);
    KnownLater(n, f.srst.sig);
    KnownLater(n, f.aload.sig);
    KnownLater(n, f.arst.sig);
    forall i | 0 <= i < |f.sigD| ensures Known(n + 1, g.sigD[i]) {
      FlippedKnownBit(f, f.sigD, bits, i);
    }
    forall i | 0 <= i < |f.sigAd| ensures Known(n + 1, g.sigAd[i]) {
      FlippedKnownBit(f, f.sigAd, bits, i);
    }
    FlippedKnownLanes(f, bits);
  }

  lemma {:induction false} FlippedKnownBit(f: Ff, d: seq<Wire>, bits: set<nat>, i: nat)
    requires i < |d| && KnownAll(|f.masks|, d)
    ensures Known(|f.masks| + 1, d[i]) && Known(|f.masks| + 1, FlipData(f.isFine, d, bits)[i])
  {
    KnownLater(|f.masks|, d[i]);
    assert Known(|f.masks| + 1, K(i in bits));
  }

  lemma {:induction false} FlippedKnownLanes(f: Ff, bits: set<nat>)
    requires Flippable(f, bits)
    ensures KnownAll(|f.masks| + 1, Flipped(f, bits).sigClr) && KnownAll(|f.masks| + 1, Flipped(f, bits).sigSet)
  {
    FlippedKnownClr(f, bits);
    FlippedKnownSet(f, bits);
  }

  lemma {:induction false} FlippedKnownClr(f: Ff, bits: set<nat>)
    requires Flippable(f, bits)
    ensures KnownAll(|f.masks| + 1, Flipped(f, bits).sigClr)
  {
    var n, g := |f.masks|, Flipped(f, bits);
    forall i | 0 <= i < |g.sigClr| ensures Known(n + 1, g.sigClr[i]) {
      KnownLater(n, f.sigClr[i]);
      if f.hasSr {
        KnownLater(n, f.sigSet[i]);
        KnownGates(n + 1, f.sigSet[i], f.polSet, f.sigClr[i], !f.polClr);
      }
    }
  }

  lemma {:induction false} FlippedKnownSet(f: Ff, bits: set<nat>)
    requires Flippable(f, bits)
    ensures KnownAll(|f.masks| + 1, Flipped(f, bits).sigSet)
  {
    var n, g := |f.masks|, Flipped(f, bits);
    forall i | 0 <= i < |g.sigSet| ensures Known(n + 1, g.sigSet[i]) {
      KnownLater(n, f.sigSet[i]);
      if f.hasSr {
        KnownLater(n, f.sigClr[i]);
        KnownGates(n + 1, f.sigSet[i], f.polSet, f.sigClr[i], f.polClr);
      }
    }
  }

  predicate Ok(f: Ff) {
    Shaped(f) && KnownWires(f) && !(f.clk.has && f.hasGclk)
  }

  /** A description that may stand in for another. */
  ghost predicate Replaces(g: Ff, f: Ff) {
    Ok(g) && Same(f, g)
  }

  /** On every run a replacement shows the output of what it replaces. */
  lemma {:induction false} ReplacesRun(g: Ff, f: Ff, run: seq<seq<bool>>)
    requires Replaces(g, f) && |run| > 0
    ensures Trace(g, run) == Trace(f, run)
  {
    SameTrace(f, g, run);
  }

  lemma {:induction false} ConvertedCeReplaces(f: Ff, val: bool)
    requires Ok(f)
    ensures Replaces(ConvertedCe(f, val), f) && Reordered(f, ConvertedCe(f, val), val)
  {
    ConvertedCeReorders(f, val);
    ConvertedCeSame(f, val);
    ConvertedCeKnown(f, val);
  }

  lemma {:induction false} WithoutCeReplaces(f: Ff)
    requires Ok(f) && f.ce.has && !(f.srst.has && f.ceOverSrst)
    ensures Replaces(WithoutCe(f), f)
  {
    WithoutCeSame(f);
    var n, d := |f.masks|, HeldD(f);
    forall i | 0 <= i < |d| ensures Known(n, d[i]) {
      assert Known(n, QWire(f, i)) && Known(n, f.sigD[i]);
    }
  }

  lemma {:induction false} WithoutSrstReplaces(f: Ff)
    requires Ok(f) && f.srst.has && !(f.ce.has && !f.ceOverSrst)
    ensures Replaces(WithoutSrst(f), f)
  {
    WithoutSrstSame(f);
    var n, d := |f.masks|, ResetD(f);
    forall i | 0 <= i < |d| ensures Known(n, d[i]) {
      assert Known(n, K(f.valSrst[i])) && Known(n, f.sigD[i]);
    }
  }

  lemma {:induction false} ResetToSrReplaces(f: Ff)
    requires Ok(f) && f.arst.has && !f.hasSr
    ensures Replaces(ResetToSr(f), f)
  {
    ResetToSrSame(f);
  }

  lemma {:induction false} ResetToLoadReplaces(f: Ff)
    requires Ok(f) && f.arst.has && !f.aload.has
    ensures Replaces(ResetToLoad(f), f)
  {
    ResetToLoadSame(f);
  }

  lemma {:induction false} FlippedReplaces(f: Ff, bits: set<nat>)
    requires Ok(f) && Flippable(f, bits)
    ensures Replaces(Flipped(f, bits), f)
  {
    FlippedSame(f, bits);
    FlippedKnown(f, bits);
  }

  lemma {:induction false} ReplacesTrans(f: Ff, g: Ff, h: Ff)
    requires Replaces(g, f) && Replaces(h, g)
    ensures Replaces(h, f)
  {
    SameTrans(f, g, h);
  }

  /** The last step of unmapping an enable, after what had to go before. */
  lemma {:induction false} WithoutCeStep(f: Ff, g: Ff)
    requires Replaces(g, f) && Unmapped(f, g) && g.ce.has && !(g.srst.has && g.ceOverSrst)
    ensures Replaces(WithoutCe(g), f) && Unmapped(f, WithoutCe(g))
  {
    WithoutCeReplaces(g);
    WithoutUnmaps(g);
    UnmappedTrans(f, g, WithoutCe(g));
    ReplacesTrans(f, g, WithoutCe(g));
  }

  lemma {:induction false} WithoutSrstStep(f: Ff, g: Ff)
    requires Replaces(g, f) && Unmapped(f, g) && g.srst.has && !(g.ce.has && !g.ceOverSrst)
    ensures |g.valSrst| == |g.sigD| && Replaces(WithoutSrst(g), f) && Unmapped(f, WithoutSrst(g))
  {
    WithoutSrstReplaces(g);
    WithoutUnmaps(g);
    UnmappedTrans(f, g, WithoutSrst(g));
    ReplacesTrans(f, g, WithoutSrst(g));
  }

  // ----- Whole runs

  /** Moving the enable above or below the synchronous reset changes no run. */
  lemma {:induction false} ConvertedCeRun(f: Ff, val: bool, run: seq<seq<bool>>)
    requires Ok(f) && |run| > 0
    ensures Reordered(f, ConvertedCe(f, val), val)
    ensures Shaped(ConvertedCe(f, val)) && Trace(ConvertedCe(f, val), run) == Trace(f, run)
  {
    ConvertedCeSame(f, val);
    ConvertedCeReorders(f, val);
    SameTrace(f, ConvertedCe(f, val), run);
  }

  /** Unmapping the enable changes no run. */
  lemma {:induction false} WithoutCeRun(f: Ff, run: seq<seq<bool>>)
    requires Ok(f) && f.ce.has && !(f.srst.has && f.ceOverSrst) && |run| > 0
    ensures !WithoutCe(f).ce.has && Shaped(WithoutCe(f)) && Trace(WithoutCe(f), run) == Trace(f, run)
  {
    WithoutCeSame(f);
    SameTrace(f, WithoutCe(f), run);
  }

  /** Unmapping the synchronous reset changes no run. */
  lemma {:induction false} WithoutSrstRun(f: Ff, run: seq<seq<bool>>)
    requires Ok(f) && f.srst.has && !(f.ce.has && !f.ceOverSrst) && |run| > 0
    ensures !WithoutSrst(f).srst.has && Shaped(WithoutSrst(f)) && Trace(WithoutSrst(f), run) == Trace(f, run)
  {
    WithoutSrstSame(f);
    SameTrace(f, WithoutSrst(f), run);
  }

  /** Without an asynchronous reset, turning the load into set and clear changes no run. */
  lemma {:induction false} LoadToSrRun(f: Ff, run: seq<seq<bool>>)
    requires Ok(f) && f.aload.has && !f.hasSr && !f.arst.has && |run| > 0
    ensures LoadToSr(f).hasSr && !LoadToSr(f).aload.has
    ensures Shaped(LoadToSr(f)) && Trace(LoadToSr(f), run) == Trace(f, run)
  {
    LoadToSrSame(f);
    SameTrace(f, LoadToSr(f), run);
  }

  /** Turning the asynchronous reset into set and clear changes no run. */
  lemma {:induction false} ResetToSrRun(f: Ff, run: seq<seq<bool>>)
    requires Ok(f) && f.arst.has && !f.hasSr && |run| > 0
    ensures ResetToSr(f).hasSr && !ResetToSr(f).arst.has
    ensures Shaped(ResetToSr(f)) && Trace(ResetToSr(f), run) == Trace(f, run)
  {
    ResetToSrSame(f);
    SameTrace(f, ResetToSr(f), run);
  }

  /** Turning the asynchronous reset into a load changes no run. */
  lemma {:induction false} ResetToLoadRun(f: Ff, run: seq<seq<bool>>)
    requires Ok(f) && f.arst.has && !f.aload.has && |run| > 0
    ensures ResetToLoad(f).aload.has && !ResetToLoad(f).arst.has
    ensures Shaped(ResetToLoad(f)) && Trace(ResetToLoad(f), run) == Trace(f, run)
  {
    ResetToLoadSame(f);
    SameTrace(f, ResetToLoad(f), run);
  }

  /** Storing bits inverted behind an inverter changes no run. */
  lemma {:induction false} FlippedRun(f: Ff, bits: set<nat>, run: seq<seq<bool>>)
    requires Ok(f) && Flippable(f, bits) && |run| > 0
    ensures FlippedStorage(f, Flipped(f, bits), bits)
    ensures Shaped(Flipped(f, bits)) && Trace(Flipped(f, bits), run) == Trace(f, run)
  {
    FlippedSame(f, bits);
    FlippedStores(f, bits);
    SameTrace(f, Flipped(f, bits), run);
  }

  /** The methods of `FfData`, each a sequence of assignments to fields of the record. */
  class FfData {
    var ff: Ff

    predicate Valid()
      reads this
    {
      Ok(ff)
    }

    constructor (f: Ff)
      requires Ok(f)
      ensures Valid() && ff == f
    {
      ff := f;
    }

    method ConvertCeOverSrst(val: bool)
      requires Valid()
      modifies this
      ensures ff == ConvertedCe(old(ff), val) && Replaces(ff, old(ff)) && Reordered(old(ff), ff, val)
    {
      ConvertedCeReplaces(ff, val);
      if !ff.ce.has || !ff.srst.has || ff.ceOverSrst == val {
        return;
      }
      if val {
        if ff.ce.pol {
          var tmp := if ff.srst.pol then ff.srst.sig else Not(ff.srst.sig);
          ff := ff.(ce := ff.ce.(sig := Or(ff.ce.sig, tmp)));
        } else {
          var tmp := if ff.srst.pol then Not(ff.srst.sig) else ff.srst.sig;
          ff := ff.(ce := ff.ce.(sig := And(ff.ce.sig, tmp)));
        }
      } else {
        if ff.srst.pol {
          var tmp := if ff.ce.pol then ff.ce.sig else Not(ff.ce.sig);
          ff := ff.(srst := ff.srst.(sig := And(ff.srst.sig, tmp)));
        } else {
          var tmp := if ff.ce.pol then Not(ff.ce.sig) else ff.ce.sig;
          ff := ff.(srst := ff.srst.(sig := Or(ff.srst.sig, tmp)));
        }
      }
      ff := ff.(ceOverSrst := val);
    }

    /** The enable becomes part of the data, after the reset if it ranks above it. */
    method UnmapCe()
      requires Valid()
      modifies this
      ensures Replaces(ff, old(ff)) && !ff.ce.has && Unmapped(old(ff), ff)
      ensures ff.srst.has == (old(ff).srst.has && !(old(ff).ce.has && ff.ceOverSrst))
      decreases if ff.ce.has && ff.srst.has && ff.ceOverSrst then 1 else 0
    {
      SameRefl(ff);
      if ff.ce.has {
        if ff.srst.has && ff.ceOverSrst {
          UnmapSrst();
        }
        HoldData(old(ff));
      }
    }

    /** The multiplexer that holds the output, in place of the enable. */
    method HoldData(ghost f: Ff)
      requires Replaces(ff, f) && Unmapped(f, ff) && ff.ce.has && !(ff.srst.has && ff.ceOverSrst)
      modifies this
      ensures Replaces(ff, f) && Unmapped(f, ff) && !ff.ce.has && ff.srst.has == old(ff).srst.has
    {
      WithoutCeStep(f, ff);
      var d := HoldMux(ff);
      ff := ff.(sigD := d);
      ff := ff.(ce := ff.ce.(has := false));
    }

    /** The reset becomes part of the data, after the enable if that ranks below it. */
    method UnmapSrst()
      requires Valid()
      modifies this
      ensures Replaces(ff, old(ff)) && !ff.srst.has && Unmapped(old(ff), ff)
      ensures ff.ce.has == (old(ff).ce.has && !(old(ff).srst.has && !ff.ceOverSrst))
      decreases if ff.ce.has && ff.srst.has && !ff.ceOverSrst then 1 else 0
    {
      SameRefl(ff);
      if ff.srst.has {
        if ff.ce.has && !ff.ceOverSrst {
          UnmapCe();
        }
        ResetData(old(ff));
      }
    }

    /** The multiplexer that selects the reset value, in place of the synchronous reset. */
    method ResetData(ghost f: Ff)
      requires Replaces(ff, f) && Unmapped(f, ff) && ff.srst.has && !(ff.ce.has && !ff.ceOverSrst)
      modifies this
      ensures Replaces(ff, f) && Unmapped(f, ff) && !ff.srst.has && ff.ce.has == old(ff).ce.has
    {
      WithoutSrstStep(f, ff);
      var d := ResetMux(ff);
      ff := ff.(sigD := d);
      ff := ff.(srst := ff.srst.(has := false));
    }

    /** The load becomes set and clear; the output is kept when there is no asynchronous reset. */
    method AloadToSr()
      requires Valid() && ff.aload.has && !ff.hasSr
      modifies this
      ensures ff == LoadToSr(old(ff)) && Valid() && (!ff.arst.has ==> Replaces(ff, old(ff)))
      ensures ff.hasSr && ff == old(ff).(hasSr := true, aload := old(ff).aload.(has := false), sigClr := ff.sigClr,
                                         sigSet := ff.sigSet, polClr := ff.polClr, polSet := ff.polSet)
    {
      LoadKnown(ff);
      if !ff.arst.has {
        LoadToSrSame(ff);
      }
      var clr, set_ := LoadLanes(ff);
      ff := ff.(hasSr := true, polClr := ff.isFine && ff.aload.pol, polSet := !ff.isFine || ff.aload.pol);
      ff := ff.(sigClr := clr, sigSet := set_);
      ff := ff.(aload := ff.aload.(has := false));
    }

    method ArstToSr()
      requires Valid() && ff.arst.has && !ff.hasSr
      modifies this
      ensures ff == ResetToSr(old(ff)) && Replaces(ff, old(ff))
      ensures ff.hasSr && ff == old(ff).(hasSr := true, arst := old(ff).arst.(has := false), sigClr := ff.sigClr,
                                         sigSet := ff.sigSet, polClr := ff.polClr, polSet := ff.polSet)
    {
      ResetToSrReplaces(ff);
      var clr, set_ := ResetLanes(ff);
      ff := ff.(polClr := ff.arst.pol, polSet := ff.arst.pol);
      ff := ff.(sigClr := clr, sigSet := set_);
      ff := ff.(hasSr := true);
      ff := ff.(arst := ff.arst.(has := false));
    }

    method ArstToAload()
      requires Valid() && ff.arst.has && !ff.aload.has
      modifies this
      ensures ff == ResetToLoad(old(ff)) && Replaces(ff, old(ff))
      ensures ff.aload.has && ff == old(ff).(aload := ff.aload, sigAd := ff.sigAd, arst := old(ff).arst.(has := false))
    {
      ResetToLoadReplaces(ff);
      var val := ff.valArst;
      ff := ff.(aload := Control(true, ff.arst.sig, ff.arst.pol));
      ff := ff.(sigAd := seq(|val|, i requires 0 <= i < |val| => K(val[i])));
      ff := ff.(arst := ff.arst.(has := false));
    }

    /** The register bits in `bits` are stored inverted, behind an inverter. */
    method FlipBits(bits: set<nat>)
      requires Valid() && (forall i :: i in bits ==> i < ff.width)
      modifies this
      ensures Replaces(ff, old(ff))
      ensures ff == if bits == {} then old(ff) else Flipped(old(ff), bits)
      ensures FlippedStorage(old(ff), ff, bits)
    {
      SameRefl(ff);
      if bits == {} {
        return;
      }
      ghost var some := AnElement(bits);
      FlippedReplaces(ff, bits);
      FlippedStores(ff, bits);
      FlipFields(bits);
    }

    method FlipFields(bits: set<nat>)
      requires Shaped(ff) && (forall i :: i in bits ==> i < ff.width)
      modifies this
      ensures ff == Flipped(old(ff), bits)
    {
      FlipRstBits(bits);
      if ff.hasSr {
        var clr, set_ := FlipLanes(ff, bits);
        var polClr, polSet := ff.polClr, ff.polSet;
        ff := ff.(sigClr := clr, sigSet := set_, polClr := !ff.isFine || polSet, polSet := !ff.isFine || polClr);
      }
      FlipInputs(bits);
    }

    /** The data inputs are inverted, and the output goes through an inverter. */
    method FlipInputs(bits: set<nat>)
      modifies this
      ensures ff == old(ff).(
                sigD := if ff.clk.has || ff.hasGclk then FlipData(ff.isFine, old(ff).sigD, bits) else old(ff).sigD,
                sigAd := if ff.aload.has then FlipData(ff.isFine, old(ff).sigAd, bits) else old(ff).sigAd,
                masks := old(ff).masks + [Mask(ff.width, bits)])
    {
      var d, ad := ff.sigD, ff.sigAd;
      if ff.clk.has || ff.hasGclk {
        d := FlipData(ff.isFine, d, bits);
      }
      if ff.aload.has {
        ad := FlipData(ff.isFine, ad, bits);
      }
      ff := ff.(sigD := d, sigAd := ad, masks := ff.masks + [Mask(ff.width, bits)]);
    }

    method FlipRstBits(bits: set<nat>)
      requires Shaped(ff) && (forall i :: i in bits ==> i < ff.width)
      modifies this
      ensures ff == old(ff).(valInit := FlipVal(old(ff).valInit, bits),
                             valArst := if ff.arst.has then FlipVal(old(ff).valArst, bits) else old(ff).valArst,
                             valSrst := if ff.srst.has then FlipVal(old(ff).valSrst, bits) else old(ff).valSrst)
    {
      if ff.arst.has {
        var val := InvertAt(ff.valArst, bits);
        ff := ff.(valArst := val);
      }
      if ff.srst.has {
        var val := InvertAt(ff.valSrst, bits);
        ff := ff.(valSrst := val);
      }
      var val := InvertAt(ff.valInit, bits);
      ff := ff.(valInit := val);
    }
  }

  method HoldMux(f: Ff) returns (d: seq<Wire>)
    ensures d == HeldD(f)
  {
    d := [];
    for i := 0 to |f.sigD|
      invariant |d| == i && forall j :: 0 <= j < i ==> d[j] == HeldD(f)[j]
    {
      var q := Q(|f.masks|, i);
      d := d + [if f.ce.pol then Mux(q, f.sigD[i], f.ce.sig) else Mux(f.sigD[i], q, f.ce.sig)];
    }
  }

  method ResetMux(f: Ff) returns (d: seq<Wire>)
    requires |f.valSrst| == |f.sigD|
    ensures d == ResetD(f)
  {
    d := [];
    for i := 0 to |f.sigD|
      invariant |d| == i && forall j :: 0 <= j < i ==> d[j] == ResetD(f)[j]
    {
      var v := K(f.valSrst[i]);
      d := d + [if f.srst.pol then Mux(f.sigD[i], v, f.srst.sig) else Mux(v, f.sigD[i], f.srst.sig)];
    }
  }

  method LoadLanes(f: Ff) returns (clr: seq<Wire>, set_: seq<Wire>)
    ensures clr == LoadClr(f) && set_ == LoadSet(f)
  {
    clr, set_ := [], [];
    var load := f.aload.sig;
    for i := 0 to |f.sigAd|
      invariant |clr| == |set_| == i
      invariant forall j :: 0 <= j < i ==> clr[j] == LoadClr(f)[j] && set_[j] == LoadSet(f)[j]
    {
      var ad := f.sigAd[i];
      if !f.isFine {
        if f.aload.pol {
          clr := clr + [Mux(K(true), ad, load)];
          set_ := set_ + [Mux(K(false), ad, load)];
        } else {
          clr := clr + [Mux(ad, K(true), load)];
          set_ := set_ + [Mux(ad, K(false), load)];
        }
      } else if f.aload.pol {
        clr := clr + [And(load, Not(ad))];
        set_ := set_ + [And(load, ad)];
      } else {
        clr := clr + [Or(load, ad)];
        set_ := set_ + [Or(load, Not(ad))];
      }
    }
  }

  method ResetLanes(f: Ff) returns (clr: seq<Wire>, set_: seq<Wire>)
    requires |f.valArst| == f.width
    ensures clr == ResetLane(f, false) && set_ == ResetLane(f, true)
  {
    var off := K(!f.arst.pol);
    clr, set_ := seq(f.width, _ => off), seq(f.width, _ => off);
    for i := 0 to f.width
      invariant |clr| == |set_| == f.width
      invariant forall j :: 0 <= j < f.width ==> set_[j] == if j < i then ResetLane(f, true)[j] else off
      invariant forall j :: 0 <= j < f.width ==> clr[j] == if j < i then ResetLane(f, false)[j] else off
    {
      if f.valArst[i] {
        set_ := set_[i := f.arst.sig];
      } else {
        clr := clr[i := f.arst.sig];
      }
    }
  }

  /** Set and clear change places for the flipped bits, with the priority of clear kept. */
  method FlipLanes(f: Ff, bits: set<nat>) returns (clr: seq<Wire>, set_: seq<Wire>)
    requires |f.sigClr| == |f.sigSet| == f.width && (forall i :: i in bits ==> i < f.width)
             && (f.isFine ==> f.width == 1)
    ensures clr == FlipClr(f, bits) && set_ == FlipSet(f, bits)
  {
    if f.isFine {
      var s, c := f.sigSet[0], f.sigClr[0];
      var newClr := if f.polSet then (if f.polClr then And(s, Not(c)) else And(s, c))
                    else (if f.polClr then Or(s, c) else Or(s, Not(c)));
      clr, set_ := [newClr], f.sigClr;
    } else {
      var notClr := Levels(f.sigClr, !f.polClr);
      clr, set_ := SwapLanes(f.width, Levels(f.sigClr, f.polClr), Levels(f.sigSet, f.polSet), bits, notClr);
      assert forall i :: 0 <= i < f.width ==> clr[i] == FlipClr(f, bits)[i] && set_[i] == FlipSet(f, bits)[i];
    }
  }

  method SwapLanes(width: nat, sigClr: seq<Wire>, sigSet: seq<Wire>, bits: set<nat>, notClr: seq<Wire>)
      returns (clr: seq<Wire>, set_: seq<Wire>)
    requires |sigClr| == |sigSet| == |notClr| == width && (forall i :: i in bits ==> i < width)
    ensures |clr| == |set_| == width
    ensures forall i :: 0 <= i < width ==> clr[i] == if i in bits then And(sigSet[i], notClr[i]) else sigClr[i]
    ensures forall i :: 0 <= i < width ==> set_[i] == if i in bits then sigClr[i] else sigSet[i]
  {
    var maskedSet := seq(width, i requires 0 <= i < width => And(sigSet[i], notClr[i]));
    clr, set_ := sigClr, sigSet;
    var left := bits;
    while left != {}
      invariant left <= bits && |clr| == |set_| == width
      invariant forall i :: 0 <= i < width ==> clr[i] == if i in bits && i !in left then maskedSet[i] else sigClr[i]
      invariant forall i :: 0 <= i < width ==> set_[i] == if i in bits && i !in left then sigClr[i] else sigSet[i]
      decreases |left|
    {
      ghost var some := AnElement(left);
      var bit :| bit in left;
      set_ := set_[bit := clr[bit]];
      clr := clr[bit := maskedSet[bit]];
      left := left - {bit};
    }
  }

  /** Every lane expressed active-high. */
  function Levels(s: seq<Wire>, pol: bool): (r: seq<Wire>)
    ensures |r| == |s|
  {
    seq(|s|, i requires 0 <= i < |s| => High(s[i], pol))
  }

  method InvertAt(val: seq<bool>, bits: set<nat>) returns (r: seq<bool>)
    requires forall i :: i in bits ==> i < |val|
    ensures r == FlipVal(val, bits)
  {
    r := val;
    var left := bits;
    while left != {}
      invariant left <= bits && |r| == |val|
      invariant forall i :: 0 <= i < |val| ==> r[i] == (val[i] != (i in bits && i !in left))
      decreases |left|
    {
      ghost var some := AnElement(left);
      var bit :| bit in left;
      r := r[bit := !r[bit]];
      left := left - {bit};
    }
  }

  lemma {:induction false} SameRefl(f: Ff)
    requires Shaped(f)
    ensures Same(f, f)
  {
  }
}
