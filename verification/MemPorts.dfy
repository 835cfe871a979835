/** Rewriting memory ports: `narrow`, `widen_wr_port`, `emulate_priority` and `emulate_read_first` (`kernel/mem.cc`). */
module MemPorts {
  import opened Bits
  import FlipFlop

  type Wire = FlipFlop.Wire
  type Env = FlipFlop.Env

  /** A write port: an address and, word by word, the data and the enables. */
  datatype WrPort = WrPort(wideLog2: nat, addr: seq<Wire>, data: seq<seq<Wire>>, en: seq<seq<Wire>>)

  predicate Ev(w: Wire, e: Env) {
    FlipFlop.Ev([], w, e)
  }

  // ----- Addresses

  function BitsOf(s: seq<Wire>, e: Env): (c: Const)
    ensures |c| == |s| && Defined(c)
  {
    seq(|s|, i requires 0 <= i < |s| => ToState(Ev(s[i], e)))
  }

  /** The value of an address. */
  function Addr(s: seq<Wire>, e: Env): nat {
    UVal(BitsOf(s, e))
  }

  /** The low `k` bits are the constant zero. */
  predicate Aligned(s: seq<Wire>, k: nat) {
    k <= |s| && forall i :: 0 <= i < k ==> s[i] == FlipFlop.K(false)
  }

  /** The address with its low `k` bits replaced by those of `sub`. */
  function SubAddr(s: seq<Wire>, k: nat, sub: nat): (r: seq<Wire>)
    requires k <= |s|
    ensures |r| == |s|
  {
    seq(|s|, i requires 0 <= i < |s| => if i < k then FlipFlop.K(Bit(sub, i)) else s[i])
  }

  method SubAddrLoop(s: seq<Wire>, k: nat, sub: nat) returns (r: seq<Wire>)
    requires k <= |s|
    ensures r == SubAddr(s, k, sub)
  {
    r := s;
    for i := 0 to k
      invariant |r| == |s| && forall j :: 0 <= j < |s| ==> r[j] == if j < i then FlipFlop.K(Bit(sub, j)) else s[j]
    {
      r := r[i := FlipFlop.K(Bit(sub, i))];
    }
  }

  /** Replacing zeros by the bits of `sub` adds `sub`. */
  lemma {:induction false} SubBits(c: Const, d: Const, k: nat, sub: nat)
    requires |c| == |d| && k <= |c| && sub < Pow2(k)
    requires forall i :: 0 <= i < k ==> c[i] == S0 && d[i] == ToState(Bit(sub, i))
    requires forall i :: k <= i < |c| ==> c[i] == d[i]
    ensures UVal(d) == UVal(c) + sub
  {
    if |c| == k {
      ZeroBits(c);
      assert d == FromInt(sub, k);
      UValFromInt(sub, k);
      ModSmall(sub, Pow2(k));
    } else {
      var n := |c| - 1;
      SubBits(c[..n], d[..n], k, sub);
    }
  }

  lemma {:induction false} SubAddrValue(s: seq<Wire>, k: nat, sub: nat, e: Env)
    requires Aligned(s, k) && sub < Pow2(k)
    ensures Addr(SubAddr(s, k, sub), e) == Addr(s, e) + sub
  {
    SubBits(BitsOf(s, e), BitsOf(SubAddr(s, k, sub), e), k, sub);
  }

  // ----- What write ports do at a clock edge

  predicate Shaped(width: nat, p: WrPort) {
    && Aligned(p.addr, p.wideLog2) && |p.data| == |p.en| == Pow2(p.wideLog2)
    && (forall s :: 0 <= s < |p.data| ==> |p.data[s]| == width)
    && (forall s :: 0 <= s < |p.en| ==> |p.en[s]| == width)
  }

  predicate AllShaped(width: nat, ports: seq<WrPort>) {
    forall i :: 0 <= i < |ports| ==> Shaped(width, ports[i])
  }

  /** The port writes bit `b` of word `a`. */
  predicate Hits(width: nat, p: WrPort, e: Env, a: int, b: nat)
    requires Shaped(width, p) && b < width
  {
    0 <= a - Addr(p.addr, e) < |p.en| && Ev(p.en[a - Addr(p.addr, e)][b], e)
  }

  predicate Written(width: nat, p: WrPort, e: Env, a: int, b: nat)
    requires Shaped(width, p) && b < width && Hits(width, p, e, a, b)
  {
    Ev(p.data[a - Addr(p.addr, e)][b], e)
  }

  /** Bit `b` of word `a`, which was `v`, after all ports have written in ascending order. */
  predicate After(width: nat, ports: seq<WrPort>, e: Env, v: bool, a: int, b: nat)
    requires AllShaped(width, ports) && b < width
  {
    if |ports| == 0 then v
    else
      var p := ports[|ports| - 1];
      if Hits(width, p, e, a, b) then Written(width, p, e, a, b) else After(width, ports[..|ports| - 1], e, v, a, b)
  }

  lemma {:induction false} AfterConcat(width: nat, x: seq<WrPort>, y: seq<WrPort>, e: Env, v: bool, a: int, b: nat)
    requires AllShaped(width, x) && AllShaped(width, y) && b < width
    ensures After(width, x + y, e, v, a, b) == After(width, y, e, After(width, x, e, v, a, b), a, b)
  {
    if |y| == 0 {
      assert x + y == x;
    } else {
      var z, p := y[..|y| - 1], y[|y| - 1];
      AfterConcat(width, x, z, e, v, a, b);
      assert y == z + [p] && x + y == (x + z) + [p];
      AfterAppend(width, x + z, p, e, v, a, b);
      AfterAppend(width, z, p, e, After(width, x, e, v, a, b), a, b);
    }
  }

  lemma {:induction false} AfterAppend(width: nat, x: seq<WrPort>, p: WrPort, e: Env, v: bool, a: int, b: nat)
    requires AllShaped(width, x) && Shaped(width, p) && b < width
    ensures AllShaped(width, x + [p])
    ensures After(width, x + [p], e, v, a, b) == if Hits(width, p, e, a, b)
            then Written(width, p, e, a, b) else After(width, x, e, v, a, b)
  {
    assert (x + [p])[..|x|] == x;
  }

  // ----- narrow

  /** The single-word port for word `sub` of `p`. */
  function NarrowOne(width: nat, p: WrPort, sub: nat): (q: WrPort)
    requires Shaped(width, p) && sub < Pow2(p.wideLog2)
    ensures Shaped(width, q) && q.wideLog2 == 0
  {
    WrPort(0, SubAddr(p.addr, p.wideLog2, sub), [p.data[sub]], [p.en[sub]])
  }

  function NarrowTo(width: nat, p: WrPort, n: nat): (r: seq<WrPort>)
    requires Shaped(width, p) && n <= Pow2(p.wideLog2)
    ensures AllShaped(width, r) && |r| == n && forall q | q in r :: q.wideLog2 == 0
  {
    if n == 0 then [] else NarrowTo(width, p, n - 1) + [NarrowOne(width, p, n - 1)]
  }

  /** The number of words the ports write in one edge. */
  function WordTotal(ports: seq<WrPort>): nat {
    if |ports| == 0 then 0 else WordTotal(ports[..|ports| - 1]) + Pow2(ports[|ports| - 1].wideLog2)
  }

  function NarrowAll(width: nat, ports: seq<WrPort>): (r: seq<WrPort>)
    requires AllShaped(width, ports)
    ensures AllShaped(width, r) && |r| == WordTotal(ports) && forall q | q in r :: q.wideLog2 == 0
  {
    if |ports| == 0 then []
    else
      var p := ports[|ports| - 1];
      NarrowAll(width, ports[..|ports| - 1]) + NarrowTo(width, p, Pow2(p.wideLog2))
  }

  lemma {:induction false} NarrowHits(width: nat, p: WrPort, sub: nat, e: Env, a: int, b: nat)
    requires Shaped(width, p) && sub < Pow2(p.wideLog2) && b < width
    ensures Hits(width, NarrowOne(width, p, sub), e, a, b) <==> a == Addr(p.addr, e) + sub && Ev(p.en[sub][b], e)
    ensures Hits(width, NarrowOne(width, p, sub), e, a, b) ==>
            Written(width, NarrowOne(width, p, sub), e, a, b) == Ev(p.data[sub][b], e)
  {
    SubAddrValue(p.addr, p.wideLog2, sub, e);
  }

  /** What the first `n` words of a port leave. */
  predicate FirstWords(width: nat, p: WrPort, n: nat, e: Env, v: bool, a: int, b: nat)
    requires Shaped(width, p) && b < width
  {
    if Hits(width, p, e, a, b) && a - Addr(p.addr, e) < n then Written(width, p, e, a, b) else v
  }

  lemma {:induction false} NextWord(width: nat, p: WrPort, n: nat, e: Env, v: bool, a: int, b: nat)
    requires Shaped(width, p) && n < Pow2(p.wideLog2) && b < width
    ensures FirstWords(width, p, n + 1, e, v, a, b) ==
            var q := NarrowOne(width, p, n);
            if Hits(width, q, e, a, b) then Written(width, q, e, a, b) else FirstWords(width, p, n, e, v, a, b)
  {
    NarrowHits(width, p, n, e, a, b);
  }

  /** The first `n` words of a port, written one by one. */
  lemma {:induction false} NarrowWrites(width: nat, p: WrPort, n: nat, e: Env, v: bool, a: int, b: nat)
    requires Shaped(width, p) && n <= Pow2(p.wideLog2) && b < width
    ensures After(width, NarrowTo(width, p, n), e, v, a, b) == FirstWords(width, p, n, e, v, a, b)
  {
    if n > 0 {
      var m := n - 1;
      NarrowWrites(width, p, m, e, v, a, b);
      AfterAppend(width, NarrowTo(width, p, m), NarrowOne(width, p, m), e, v, a, b);
      NextWord(width, p, m, e, v, a, b);
    }
  }

  /** Splitting every wide port into single-word ports keeps the contents after every edge. */
  lemma {:induction false} NarrowSame(width: nat, ports: seq<WrPort>, e: Env, v: bool, a: int, b: nat)
    requires AllShaped(width, ports) && b < width
    ensures After(width, NarrowAll(width, ports), e, v, a, b) == After(width, ports, e, v, a, b)
  {
    if |ports| > 0 {
      var n := |ports| - 1;
      var p := ports[n];
      NarrowSame(width, ports[..n], e, v, a, b);
      AfterConcat(width, NarrowAll(width, ports[..n]), NarrowTo(width, p, Pow2(p.wideLog2)), e, v, a, b);
      NarrowWrites(width, p, Pow2(p.wideLog2), e, After(width, ports[..n], e, v, a, b), a, b);
    }
  }

  method Narrow(width: nat, wrPorts: seq<WrPort>) returns (newPorts: seq<WrPort>)
    requires AllShaped(width, wrPorts)
    ensures newPorts == NarrowAll(width, wrPorts)
    ensures |newPorts| == WordTotal(wrPorts) && forall q | q in newPorts :: q.wideLog2 == 0 && |q.data| == |q.en| == 1
  {
    newPorts := [];
    for i := 0 to |wrPorts|
      invariant newPorts == NarrowAll(width, wrPorts[..i])
    {
      var orig := wrPorts[i];
      for sub := 0 to Pow2(orig.wideLog2)
        invariant newPorts == NarrowAll(width, wrPorts[..i]) + NarrowTo(width, orig, sub)
      {
        var port := orig;
        if port.wideLog2 != 0 {
          var addr := SubAddrLoop(port.addr, port.wideLog2, sub);
          port := port.(data := [port.data[sub]], en := [port.en[sub]]);
          port := port.(addr := addr, wideLog2 := 0);
        }
        assert port == NarrowOne(width, orig, sub);
        newPorts := newPorts + [port];
      }
      assert wrPorts[..i + 1][..i] == wrPorts[..i];
    }
    assert wrPorts[..|wrPorts|] == wrPorts;
  }

  // ----- Comparing addresses

  function WireAt(s: seq<Wire>, i: nat): Wire {
    if i < |s| then s[i] else FlipFlop.K(false)
  }

  /** The gates of an equality of the low `n` bits. */
  function EqChain(x: seq<Wire>, y: seq<Wire>, n: nat): Wire {
    if n == 0 then FlipFlop.K(true)
    else FlipFlop.And(EqChain(x, y, n - 1), FlipFlop.Not(FlipFlop.Xor(WireAt(x, n - 1), WireAt(y, n - 1))))
  }

  function EqGate(x: seq<Wire>, y: seq<Wire>): Wire {
    EqChain(x, y, if |x| < |y| then |y| else |x|)
  }

  lemma {:induction false} EqChainBits(x: seq<Wire>, y: seq<Wire>, n: nat, e: Env)
    ensures Ev(EqChain(x, y, n), e) <==> forall i: nat :: i < n ==> Ev(WireAt(x, i), e) == Ev(WireAt(y, i), e)
  {
    if n > 0 {
      EqChainBits(x, y, n - 1, e);
      var u, v := WireAt(x, n - 1), WireAt(y, n - 1);
      assert Ev(FlipFlop.Xor(u, v), e) == (Ev(u, e) != Ev(v, e));
      assert Ev(FlipFlop.Not(FlipFlop.Xor(u, v)), e) == (Ev(u, e) == Ev(v, e));
    }
  }

  /** The gates compare the values of the addresses. */
  lemma {:induction false} EqGateValue(x: seq<Wire>, y: seq<Wire>, e: Env)
    ensures Ev(EqGate(x, y), e) <==> Addr(x, e) == Addr(y, e)
  {
    var n := if |x| < |y| then |y| else |x|;
    EqChainBits(x, y, n, e);
    var c, d := Extend(BitsOf(x, e), n, false), Extend(BitsOf(y, e), n, false);
    ExtendVal(BitsOf(x, e), n, false);
    ExtendVal(BitsOf(y, e), n, false);
    FromIntUVal(c);
    FromIntUVal(d);
    forall i: nat | i < n ensures c[i] == ToState(Ev(WireAt(x, i), e)) && d[i] == ToState(Ev(WireAt(y, i), e)) {
      assert !Ev(FlipFlop.K(false), e);
    }
    if Addr(x, e) == Addr(y, e) {
      assert c == d;
    }
    if forall i: nat :: i < n ==> Ev(WireAt(x, i), e) == Ev(WireAt(y, i), e) {
      assert c == d;
    }
  }

  // ----- widen_wr_port

  function ConstWires(sub: nat, w: nat): seq<Wire> {
    seq(w, i requires 0 <= i < w => FlipFlop.K(Bit(sub, i)))
  }

  lemma {:induction false} ConstValue(sub: nat, w: nat, e: Env)
    requires sub < Pow2(w)
    ensures Addr(ConstWires(sub, w), e) == sub
  {
    assert BitsOf(ConstWires(sub, w), e) == FromInt(sub, w);
    UValFromInt(sub, w);
    ModSmall(sub, Pow2(w));
  }

  predicate FullyConst(s: seq<Wire>) {
    forall i :: 0 <= i < |s| ==> s[i].K?
  }

  /** A constant address is `sub` only if it is written that way. */
  lemma {:induction false} ConstSame(s: seq<Wire>, sub: nat, e: Env)
    requires FullyConst(s) && Addr(s, e) == sub
    ensures s == ConstWires(sub, |s|)
  {
    FromIntUVal(BitsOf(s, e));
    forall i | 0 <= i < |s| ensures s[i] == FlipFlop.K(Bit(sub, i)) {
      assert BitsOf(s, e)[i] == ToState(s[i].value) == ToState(Bit(sub, i));
    }
  }

  function Blank(width: nat): seq<Wire> {
    seq(width, _ => FlipFlop.K(false))
  }

  /** The enables of one word of the widened port, for the narrow port's address `sub`. */
  function WideEn(addrLo: seq<Wire>, sub: nat, en: seq<Wire>): seq<Wire> {
    if addrLo == ConstWires(sub, |addrLo|) then en
    else if FullyConst(addrLo) then Blank(|en|)
    else
      var eq := EqGate(addrLo, ConstWires(sub, |addrLo|));
      seq(|en|, b requires 0 <= b < |en| => FlipFlop.Mux(FlipFlop.K(false), en[b], eq))
  }

  function WideData(addrLo: seq<Wire>, sub: nat, data: seq<Wire>): seq<Wire> {
    if addrLo != ConstWires(sub, |addrLo|) && FullyConst(addrLo) then Blank(|data|) else data
  }

  /** A word of the widened port is written exactly when the narrow port addresses it. */
  lemma {:induction false} WideEnValue(addrLo: seq<Wire>, sub: nat, en: seq<Wire>, b: nat, e: Env)
    requires sub < Pow2(|addrLo|) && b < |en|
    ensures |WideEn(addrLo, sub, en)| == |en|
    ensures Ev(WideEn(addrLo, sub, en)[b], e) <==> Addr(addrLo, e) == sub && Ev(en[b], e)
  {
    var cur := ConstWires(sub, |addrLo|);
    ConstValue(sub, |addrLo|, e);
    if addrLo != cur {
      if FullyConst(addrLo) {
        if Addr(addrLo, e) == sub {
          ConstSame(addrLo, sub, e);
        }
        assert !Ev(FlipFlop.K(false), e);
      } else {
        EqGateValue(addrLo, cur, e);
        assert !Ev(FlipFlop.K(false), e);
      }
    }
  }

  lemma {:induction false} WideDataValue(addrLo: seq<Wire>, sub: nat, data: seq<Wire>, b: nat, e: Env)
    requires sub < Pow2(|addrLo|) && b < |data| && Addr(addrLo, e) == sub
    ensures WideData(addrLo, sub, data) == data
  {
    if FullyConst(addrLo) {
      ConstSame(addrLo, sub, e);
    }
  }

  /** The start of the block of `n` words that holds word `t`. */
  function BlockOf(t: nat, n: nat): nat
    requires n > 0
  {
    t / n * n
  }

  lemma {:induction false} BlockFacts(t: nat, n: nat)
    requires n > 0
    ensures 0 <= t - BlockOf(t, n) < n && BlockOf(t, n) <= t && t - BlockOf(t, n) == t % n && BlockOf(t, n) % n == 0
  {
    ModAddMultiple(0, n, t / n);
  }

  function Widened(width: nat, p: WrPort, w: nat): WrPort
    requires Shaped(width, p) && p.wideLog2 <= w <= |p.addr|
  {
    var n := Pow2(p.wideLog2);
    var lo := p.addr[..w];
    WrPort(w, seq(|p.addr|, i requires 0 <= i < |p.addr| => if i < w then FlipFlop.K(false) else p.addr[i]),
           seq(Pow2(w), t requires 0 <= t < Pow2(w) => WideData(lo, BlockOf(t, n), p.data[t % n])),
           seq(Pow2(w), t requires 0 <= t < Pow2(w) => WideEn(lo, BlockOf(t, n), p.en[t % n])))
  }

  lemma {:induction false} WidenedShaped(width: nat, p: WrPort, w: nat)
    requires Shaped(width, p) && p.wideLog2 <= w <= |p.addr|
    ensures Shaped(width, Widened(width, p, w)) && WidenedShape(p, Widened(width, p, w), w)
  {
  }

  /** `q` has `2^w` words and the address of `p` with its low `w` bits cleared. */
  predicate WidenedShape(p: WrPort, q: WrPort, w: nat) {
    && q.wideLog2 == w && |q.data| == |q.en| == Pow2(w) && |q.addr| == |p.addr|
    && forall i :: 0 <= i < |q.addr| ==> q.addr[i] == if i < w then FlipFlop.K(false) else p.addr[i]
  }

  lemma {:induction false} SplitValue(c: Const, d: Const, w: nat)
    requires w <= |c| == |d| && (forall i :: 0 <= i < w ==> d[i] == S0) && (forall i :: w <= i < |c| ==> d[i] == c[i])
    ensures UVal(c) == UVal(d) + UVal(c[..w])
  {
    if |c| == w {
      ZeroBits(d);
      assert c[..w] == c;
    } else {
      var n := |c| - 1;
      SplitValue(c[..n], d[..n], w);
      assert c[..n][..w] == c[..w];
    }
  }

  lemma {:induction false} WidenedAddr(width: nat, p: WrPort, w: nat, e: Env)
    requires Shaped(width, p) && p.wideLog2 <= w <= |p.addr|
    ensures Addr(p.addr, e) == Addr(Widened(width, p, w).addr, e) + Addr(p.addr[..w], e)
    ensures Addr(p.addr[..w], e) % Pow2(p.wideLog2) == 0 && Addr(p.addr[..w], e) < Pow2(w)
  {
    var c, d := BitsOf(p.addr, e), BitsOf(Widened(width, p, w).addr, e);
    SplitValue(c, d, w);
    assert BitsOf(p.addr[..w], e) == c[..w];
    AlignedValue(c[..w], p.wideLog2);
  }

  /** A multiple of `n` below a multiple of `n` leaves room for `n` more. */
  lemma {:induction false} RoomAbove(lo: nat, hi: nat, n: nat)
    requires n > 0 && lo % n == 0 && hi % n == 0 && lo < hi
    ensures lo + n <= hi
  {
    var x, y := lo / n, hi / n;
    assert lo == x * n && hi == y * n;
    if y <= x {
      MulMono(y, x, n);
    } else {
      MulMono(x + 1, y, n);
    }
  }

  lemma {:induction false} SameBlock(t: nat, lo: nat, n: nat)
    requires n > 0 && lo % n == 0
    ensures BlockOf(t, n) == lo <==> 0 <= t - lo < n
  {
    BlockFacts(t, n);
    if 0 <= t - lo < n {
      DivModUnique(t, n, lo / n, t - lo);
    }
  }

  /** The ports write bit `b` of word `a` alike. */
  predicate SameWrite(width: nat, p: WrPort, q: WrPort, e: Env, a: int, b: nat)
    requires Shaped(width, p) && Shaped(width, q) && b < width
  {
    && (Hits(width, q, e, a, b) <==> Hits(width, p, e, a, b))
    && (Hits(width, p, e, a, b) ==> Written(width, q, e, a, b) == Written(width, p, e, a, b))
  }

  /** The widened port writes the same bits. */
  lemma {:induction false} WidenedHits(width: nat, p: WrPort, w: nat, e: Env, a: int, b: nat)
    requires Shaped(width, p) && p.wideLog2 <= w <= |p.addr| && b < width && Shaped(width, Widened(width, p, w))
    ensures SameWrite(width, p, Widened(width, p, w), e, a, b)
  {
    var q, lo := Widened(width, p, w), Addr(p.addr[..w], e);
    WidenedAddr(width, p, w, e);
    var t := a - Addr(q.addr, e);
    if 0 <= t < Pow2(w) {
      WidenedInside(width, p, w, e, a, b, t);
    } else {
      OutsideBlock(t, lo, p.wideLog2, w);
    }
  }

  lemma {:induction false} WidenedInside(width: nat, p: WrPort, w: nat, e: Env, a: int, b: nat, t: nat)
    requires Shaped(width, p) && p.wideLog2 <= w <= |p.addr| && b < width && Shaped(width, Widened(width, p, w))
    requires t == a - Addr(Widened(width, p, w).addr, e) && t < Pow2(w)
    ensures SameWrite(width, p, Widened(width, p, w), e, a, b)
  {
    WidenedAddr(width, p, w, e);
    WidenedOffset(width, p, w, e, t, b, Addr(p.addr[..w], e));
    SameAt(width, p, Widened(width, p, w), e, a, b, t - Addr(p.addr[..w], e), t);
  }

  lemma {:induction false} WidenedOffset(width: nat, p: WrPort, w: nat, e: Env, t: nat, b: nat, lo: nat)
    requires Shaped(width, p) && p.wideLog2 <= w <= |p.addr| && b < width && t < Pow2(w)
             && Shaped(width, Widened(width, p, w))
    requires lo == Addr(p.addr[..w], e) && lo % Pow2(p.wideLog2) == 0
    ensures var q, s := Widened(width, p, w), t - lo;
            && (Ev(q.en[t][b], e) <==> 0 <= s < |p.en| && Ev(p.en[s][b], e))
            && (0 <= s < |p.en| ==> q.data[t] == p.data[s])
  {
    WidenedWord(width, p, w, e, t, b);
    InBlock(t, lo, Pow2(p.wideLog2));
  }

  lemma {:induction false} SameAt(width: nat, p: WrPort, q: WrPort, e: Env, a: int, b: nat, s: int, t: nat)
    requires Shaped(width, p) && Shaped(width, q) && b < width
    requires && s == a - Addr(p.addr, e) && t == a - Addr(q.addr, e) && t < |q.en|
             && (Ev(q.en[t][b], e) <==> 0 <= s < |p.en| && Ev(p.en[s][b], e))
             && (0 <= s < |p.en| ==> q.data[t] == p.data[s])
    ensures SameWrite(width, p, q, e, a, b)
  {
  }

  lemma {:induction false} InBlock(t: nat, lo: nat, n: nat)
    requires n > 0 && lo % n == 0
    ensures BlockOf(t, n) == lo <==> 0 <= t - lo < n
    ensures BlockOf(t, n) == lo ==> t % n == t - lo
  {
    SameBlock(t, lo, n);
    BlockFacts(t, n);
  }

  lemma {:induction false} OutsideBlock(t: int, lo: nat, k: nat, w: nat)
    requires k <= w && lo % Pow2(k) == 0 && lo < Pow2(w) && !(0 <= t < Pow2(w))
    ensures !(0 <= t - lo < Pow2(k))
  {
    Blocks(k, w);
    RoomAbove(lo, Pow2(w), Pow2(k));
  }

  lemma {:induction false} WidenedWord(width: nat, p: WrPort, w: nat, e: Env, t: nat, b: nat)
    requires Shaped(width, p) && p.wideLog2 <= w <= |p.addr| && b < width && t < Pow2(w)
             && Shaped(width, Widened(width, p, w))
    ensures var q, n := Widened(width, p, w), Pow2(p.wideLog2);
            var lo := Addr(p.addr[..w], e);
            && (Ev(q.en[t][b], e) <==> lo == BlockOf(t, n) && Ev(p.en[t % n][b], e))
            && (lo == BlockOf(t, n) ==> q.data[t] == p.data[t % n])
  {
    var n := Pow2(p.wideLog2);
    BlockFacts(t, n);
    WideEnValue(p.addr[..w], BlockOf(t, n), p.en[t % n], b, e);
    if Addr(p.addr[..w], e) == BlockOf(t, n) {
      WideDataValue(p.addr[..w], BlockOf(t, n), p.data[t % n], b, e);
    }
  }

  lemma {:induction false} AfterOne(width: nat, p: WrPort, e: Env, v: bool, a: int, b: nat)
    requires Shaped(width, p) && b < width
    ensures After(width, [p], e, v, a, b) == if Hits(width, p, e, a, b) then Written(width, p, e, a, b) else v
  {
    assert [p][..0] == [];
  }

  lemma {:induction false} AfterMiddle(width: nat, ports: seq<WrPort>, i: nat, e: Env, v: bool, a: int, b: nat)
    requires AllShaped(width, ports) && i < |ports| && b < width
    ensures After(width, ports, e, v, a, b) ==
            After(width, ports[i + 1..], e, After(width, [ports[i]], e, After(width, ports[..i], e, v, a, b), a, b), a,
                b)
  {
    assert ports == (ports[..i] + [ports[i]]) + ports[i + 1..];
    AfterConcat(width, ports[..i] + [ports[i]], ports[i + 1..], e, v, a, b);
    AfterConcat(width, ports[..i], [ports[i]], e, v, a, b);
  }

  /** Two ports that write the same bits are interchangeable. */
  lemma {:induction false} ReplaceSame(width: nat, ports: seq<WrPort>, i: nat, q: WrPort, e: Env, v: bool, a: int,
                                       b: nat)
    requires AllShaped(width, ports) && i < |ports| && Shaped(width, q) && b < width
             && SameWrite(width, ports[i], q, e, a, b)
    ensures AllShaped(width, ports[i := q])
            && After(width, ports[i := q], e, v, a, b) == After(width, ports, e, v, a, b)
  {
    var r := ports[i := q];
    assert r[..i] == ports[..i] && r[i + 1..] == ports[i + 1..];
    AfterMiddle(width, ports, i, e, v, a, b);
    AfterMiddle(width, r, i, e, v, a, b);
    var u := After(width, ports[..i], e, v, a, b);
    AfterOne(width, ports[i], e, u, a, b);
    AfterOne(width, q, e, u, a, b);
  }

  /** Widening a port keeps the contents after every edge. */
  lemma {:induction false} WidenSame(width: nat, ports: seq<WrPort>, i: nat, w: nat, e: Env, v: bool, a: int, b: nat)
    requires AllShaped(width, ports) && i < |ports| && ports[i].wideLog2 <= w <= |ports[i].addr| && b < width
    ensures var q := ports[i := Widened(width, ports[i], w)];
            && AllShaped(width, q) && WidenedShape(ports[i], q[i], w)
            && After(width, q, e, v, a, b) == After(width, ports, e, v, a, b)
  {
    WidenedShaped(width, ports[i], w);
    WidenedHits(width, ports[i], w, e, a, b);
    ReplaceSame(width, ports, i, Widened(width, ports[i], w), e, v, a, b);
  }

  lemma {:induction false} BlockWord(sub: nat, s: nat, n: nat)
    requires n > 0 && sub % n == 0 && s < n
    ensures BlockOf(sub + s, n) == sub && (sub + s) % n == s
  {
    DivModUnique(sub + s, n, sub / n, s);
  }

  /** The start and size of the memory rounded outwards to whole blocks of words. */
  method WidenPrep(startOffset: int, size: nat, wideLog2: nat) returns (start: int, newSize: nat)
    ensures start % Pow2(wideLog2) == 0 && newSize % Pow2(wideLog2) == 0
    ensures start <= startOffset < start + Pow2(wideLog2)
    ensures startOffset + size <= start + newSize < startOffset + size + Pow2(wideLog2)
  {
    var n := Pow2(wideLog2);
    var delta := startOffset % n;
    start, newSize := startOffset - delta, size + delta;
    Multiple(startOffset, n);
    if newSize % n != 0 {
      NextMultiple(newSize, n);
      newSize := newSize - newSize % n + n;
    }
  }

  lemma {:induction false} Multiple(x: int, n: nat)
    requires n > 0
    ensures (x - x % n) % n == 0
  {
    ModAddMultiple(0, n, x / n);
    assert x - x % n == x / n * n;
  }

  lemma {:induction false} NextMultiple(x: int, n: nat)
    requires n > 0
    ensures (x - x % n + n) % n == 0
  {
    Multiple(x, n);
    ModAddMultiple(x - x % n, n, 1);
  }

  /** The words of one block: always, never or sometimes the ones addressed. */
  method WideBlock(width: nat, p: WrPort, addrLo: seq<Wire>, sub: nat)
      returns (data: seq<seq<Wire>>, en: seq<seq<Wire>>)
    requires Shaped(width, p)
    ensures |data| == |en| == Pow2(p.wideLog2)
    ensures forall s :: 0 <= s < |data| ==>
            data[s] == WideData(addrLo, sub, p.data[s]) && en[s] == WideEn(addrLo, sub, p.en[s])
  {
    var curAddrLo := ConstWires(sub, |addrLo|);
    if addrLo == curAddrLo {
      data, en := p.data, p.en;
    } else if FullyConst(addrLo) {
      data := seq(|p.data|, _ => Blank(width));
      en := data;
    } else {
      data, en := p.data, [];
      var addrEq := EqGate(addrLo, curAddrLo);
      for s := 0 to |p.en|
        invariant |en| == s && forall j :: 0 <= j < s ==> en[j] == WideEn(addrLo, sub, p.en[j])
      {
        var word := p.en[s];
        en := en + [seq(|word|, b requires 0 <= b < |word| => FlipFlop.Mux(FlipFlop.K(false), word[b], addrEq))];
      }
    }
  }

  method WidenWrPort(width: nat, p: WrPort, w: nat) returns (q: WrPort)
    requires Shaped(width, p) && p.wideLog2 <= w <= |p.addr|
    ensures Shaped(width, q) && WidenedShape(p, q, w)
    ensures forall e: Env, a, b: nat :: b < width ==> SameWrite(width, p, q, e, a, b)
  {
    if p.wideLog2 == w {
      return p;
    }
    q := WideWords(width, p, w);
    WidenedShaped(width, p, w);
    forall e: Env, a, b: nat | b < width ensures SameWrite(width, p, q, e, a, b) {
      WidenedHits(width, p, w, e, a, b);
    }
  }

  method WideWords(width: nat, p: WrPort, w: nat) returns (q: WrPort)
    requires Shaped(width, p) && p.wideLog2 <= w <= |p.addr|
    ensures q == Widened(width, p, w)
  {
    var n, sub := Pow2(p.wideLog2), 0;
    var newData: seq<seq<Wire>>, newEn: seq<seq<Wire>> := [], [];
    var addrLo := p.addr[..w];
    ghost var want := Widened(width, p, w);
    Blocks(p.wideLog2, w);
    while sub < Pow2(w)
      invariant 0 <= sub <= Pow2(w) && sub % n == 0 && newData == want.data[..sub] && newEn == want.en[..sub]
    {
      var data, en := WideBlock(width, p, addrLo, sub);
      BlockFits(p.wideLog2, w, sub);
      NextBlock(width, p, w, sub, n, data, en, want);
      newData, newEn, sub := newData + data, newEn + en, sub + n;
    }
    assert want.data[..sub] == want.data && want.en[..sub] == want.en;
    var addr :=
        seq(|p.addr|, i requires 0 <= i < |p.addr| => if p.wideLog2 <= i < w then FlipFlop.K(false) else p.addr[i]);
    q := WrPort(w, addr, newData, newEn);
  }

  lemma {:induction false} Blocks(k: nat, w: nat)
    requires k <= w
    ensures Pow2(w) % Pow2(k) == 0
  {
    Pow2Add(k, w - k);
    AddProduct(0, Pow2(k), Pow2(w - k), Pow2(w));
  }

  lemma {:induction false} NextBlock(width: nat, p: WrPort, w: nat, sub: nat, n: nat, data: seq<seq<Wire>>,
                                     en: seq<seq<Wire>>, want: WrPort)
    requires Shaped(width, p) && p.wideLog2 <= w <= |p.addr| && want == Widened(width, p, w)
    requires |data| == |en| == n == Pow2(p.wideLog2) && sub % n == 0 && sub + n <= Pow2(w)
    requires forall s :: 0 <= s < n ==> data[s] == WideData(p.addr[..w], sub, p.data[s])
    requires forall s :: 0 <= s < n ==> en[s] == WideEn(p.addr[..w], sub, p.en[s])
    ensures want.data[..sub] + data == want.data[..sub + n]
    ensures want.en[..sub] + en == want.en[..sub + n]
  {
    forall s | 0 <= s < n ensures data[s] == want.data[sub + s] {
      WideAt(width, p, w, sub, s);
    }
    BlockAppended(want.data, sub, data);
    forall s | 0 <= s < n ensures en[s] == want.en[sub + s] {
      WideAt(width, p, w, sub, s);
    }
    BlockAppended(want.en, sub, en);
  }

  lemma {:induction false} BlockFits(k: nat, w: nat, sub: nat)
    requires k <= w && sub < Pow2(w) && sub % Pow2(k) == 0
    ensures sub + Pow2(k) <= Pow2(w) && (sub + Pow2(k)) % Pow2(k) == 0
  {
    Blocks(k, w);
    RoomAbove(sub, Pow2(w), Pow2(k));
    ModAddMultiple(sub, Pow2(k), 1);
  }

  lemma {:induction false} WideAt(width: nat, p: WrPort, w: nat, sub: nat, s: nat)
    requires Shaped(width, p) && p.wideLog2 <= w <= |p.addr| && s < Pow2(p.wideLog2) && sub + s < Pow2(w)
    requires sub % Pow2(p.wideLog2) == 0
    ensures Widened(width, p, w).data[sub + s] == WideData(p.addr[..w], sub, p.data[s])
    ensures Widened(width, p, w).en[sub + s] == WideEn(p.addr[..w], sub, p.en[s])
  {
    BlockWord(sub, s, Pow2(p.wideLog2));
  }

  lemma {:induction false} BlockAppended(words: seq<seq<Wire>>, sub: nat, more: seq<seq<Wire>>)
    requires sub + |more| <= |words| && forall s :: 0 <= s < |more| ==> more[s] == words[sub + s]
    ensures words[..sub] + more == words[..sub + |more|]
  {
  }

  // ----- emulate_priority

  /** `en1`, unless the other port is enabled at the same address. */
  function Gate(en1: Wire, en2: Wire, addrEq: Wire): Wire {
    FlipFlop.And(en1, FlipFlop.Not(FlipFlop.And(addrEq, en2)))
  }

  lemma {:induction false} GateValue(en1: Wire, en2: Wire, addrEq: Wire, e: Env)
    ensures Ev(Gate(en1, en2, addrEq), e) <==> Ev(en1, e) && !(Ev(addrEq, e) && Ev(en2, e))
  {
    assert Ev(FlipFlop.And(addrEq, en2), e) == (Ev(addrEq, e) && Ev(en2, e));
    assert Ev(FlipFlop.Not(FlipFlop.And(addrEq, en2)), e) == !(Ev(addrEq, e) && Ev(en2, e));
  }

  function GateWord(en1: seq<Wire>, en2: seq<Wire>, addrEq: Wire): (r: seq<Wire>)
    requires |en1| == |en2|
    ensures |r| == |en1|
  {
    seq(|en1|, b requires 0 <= b < |en1| => Gate(en1[b], en2[b], addrEq))
  }

  type Cache = map<(Wire, Wire), Wire>

  predicate CacheOk(cache: Cache, addrEq: Wire) {
    forall k :: k in cache ==> cache[k] == Gate(k.0, k.1, addrEq)
  }

  /** The enables of one word; equal pairs of enables share a gate. */
  method MaskWord(en1: seq<Wire>, en2: seq<Wire>, addrEq: Wire, cacheIn: Cache) returns (r: seq<Wire>, cache: Cache)
    requires |en1| == |en2| && CacheOk(cacheIn, addrEq)
    ensures CacheOk(cache, addrEq) && r == GateWord(en1, en2, addrEq)
  {
    r, cache := en1, cacheIn;
    for pos := 0 to |en1|
      invariant |r| == |en1| && CacheOk(cache, addrEq)
      invariant forall b :: 0 <= b < |r| ==> r[b] == if b < pos then Gate(en1[b], en2[b], addrEq) else en1[b]
    {
      var key := (r[pos], en2[pos]);
      if key in cache {
        r := r[pos := cache[key]];
      } else {
        var active2 := FlipFlop.And(addrEq, en2[pos]);
        var nactive2 := FlipFlop.Not(active2);
        cache := cache[key := FlipFlop.And(r[pos], nactive2)];
        r := r[pos := cache[key]];
      }
    }
  }

  /** `n` words of `en1` from `sub1` on, masked by those of `en2` from `sub2` on. */
  method MaskBlock(width: nat, en1: seq<seq<Wire>>, sub1: nat, en2: seq<seq<Wire>>, sub2: nat, n: nat, addrEq: Wire)
      returns (r: seq<seq<Wire>>)
    requires sub1 + n <= |en1| && sub2 + n <= |en2| && Words(width, en1) && Words(width, en2)
    ensures |r| == |en1| && Words(width, r)
    ensures forall t :: 0 <= t < |r| ==>
              r[t] == if sub1 <= t < sub1 + n then GateWord(en1[t], en2[t - sub1 + sub2], addrEq) else en1[t]
  {
    r := en1;
    var cache: Cache := map[];
    for w := 0 to n
      invariant |r| == |en1| && Words(width, r) && CacheOk(cache, addrEq)
      invariant forall t :: 0 <= t < |r| ==>
                  r[t] == if sub1 <= t < sub1 + w then GateWord(en1[t], en2[t - sub1 + sub2], addrEq) else en1[t]
    {
      var word;
      word, cache := MaskWord(r[sub1 + w], en2[sub2 + w], addrEq, cache);
      r := r[sub1 + w := word];
    }
  }

  predicate Words(width: nat, s: seq<seq<Wire>>) {
    forall t :: 0 <= t < |s| ==> |s[t]| == width
  }

  /** Port 1 is not narrower: block by block, its words are masked by the words of port 2 at the same address. */
  ghost predicate MaskedWide(width: nat, p1: WrPort, p2: WrPort, en: seq<seq<Wire>>, sub: nat)
    requires Shaped(width, p1) && Shaped(width, p2) && p2.wideLog2 <= p1.wideLog2
  {
    && |en| == |p1.en| && Words(width, en)
    && (forall t :: sub <= t < |en| ==> en[t] == p1.en[t])
    && (forall t :: 0 <= t < |en| && t < sub ==> en[t] == MaskedWord(width, p1, p2, t))
  }

  function MaskedWord(width: nat, p1: WrPort, p2: WrPort, t: nat): seq<Wire>
    requires Shaped(width, p1) && Shaped(width, p2) && p2.wideLog2 <= p1.wideLog2 && t < |p1.en|
  {
    var n := Pow2(p2.wideLog2);
    GateWord(p1.en[t], p2.en[t % n], EqGate(SubAddr(p1.addr, p1.wideLog2, BlockOf(t, n)), p2.addr))
  }

  method MaskWide(width: nat, p1: WrPort, p2: WrPort) returns (en: seq<seq<Wire>>)
    requires Shaped(width, p1) && Shaped(width, p2) && p2.wideLog2 <= p1.wideLog2
    ensures MaskedWide(width, p1, p2, en, |en|)
  {
    en := p1.en;
    var n, sub := Pow2(p2.wideLog2), 0;
    while sub < Pow2(p1.wideLog2)
      invariant 0 <= sub <= Pow2(p1.wideLog2) && sub % n == 0 && MaskedWide(width, p1, p2, en, sub)
    {
      BlockFits(p2.wideLog2, p1.wideLog2, sub);
      var addr1 := SubAddrLoop(p1.addr, p1.wideLog2, sub);
      var addrEq := EqGate(addr1, p2.addr);
      ghost var was := en;
      en := MaskBlock(width, en, sub, p2.en, 0, n, addrEq);
      forall t | 0 <= t < |en| && t < sub + n ensures en[t] == MaskedWord(width, p1, p2, t) {
        if t >= sub {
          BlockWord(sub, t - sub, n);
        }
      }
      sub := sub + n;
    }
  }

  /** Port 2 is wider: each of its blocks may mask the words of port 1. */
  ghost predicate MaskedNarrow(width: nat, p1: WrPort, p2: WrPort, en: seq<seq<Wire>>, sub: nat)
    requires Shaped(width, p1) && Shaped(width, p2) && p1.wideLog2 <= p2.wideLog2
  {
    && |en| == |p1.en| && Words(width, en)
    && forall e: Env, t, b :: 0 <= t < |en| && 0 <= b < width ==> MaskedBit(width, p1, p2, en, sub, e, t, b)
  }

  predicate MaskedBit(width: nat, p1: WrPort, p2: WrPort, en: seq<seq<Wire>>, sub: nat, e: Env, t: nat, b: nat)
    requires Shaped(width, p1) && Shaped(width, p2) && |en| == |p1.en| && Words(width, en) && t < |en| && b < width
  {
    var d := Addr(p1.addr, e) - Addr(p2.addr, e);
    Ev(en[t][b], e) <==> Ev(p1.en[t][b], e) && !(0 <= d < sub && d + t < |p2.en| && Ev(p2.en[d + t][b], e))
  }

  lemma {:induction false} MaskNext(width: nat, p1: WrPort, p2: WrPort, en: seq<seq<Wire>>, sub: nat, n: nat,
                                    next: seq<seq<Wire>>,
                                    e: Env, t: nat, b: nat)
    requires Shaped(width, p1) && Shaped(width, p2) && p1.wideLog2 <= p2.wideLog2 && n == Pow2(p1.wideLog2)
    requires sub % n == 0 && sub + n <= Pow2(p2.wideLog2) && t < |p1.en| && b < width
    requires |en| == |next| == |p1.en| && Words(width, en) && Words(width, next)
             && MaskedBit(width, p1, p2, en, sub, e, t, b)
    requires next[t][b] == Gate(en[t][b], p2.en[sub + t][b], EqGate(p1.addr, SubAddr(p2.addr, p2.wideLog2, sub)))
    ensures MaskedBit(width, p1, p2, next, sub + n, e, t, b)
  {
    var d := Addr(p1.addr, e) - Addr(p2.addr, e);
    EqGateValue(p1.addr, SubAddr(p2.addr, p2.wideLog2, sub), e);
    SubAddrValue(p2.addr, p2.wideLog2, sub, e);
    GateValue(en[t][b], p2.en[sub + t][b], EqGate(p1.addr, SubAddr(p2.addr, p2.wideLog2, sub)), e);
    AddrGap(width, p1, p2, n, e);
    if sub <= d < sub + n {
      OnlyMultiple(d, sub, n);
    }
  }

  /** Both addresses are multiples of the smaller number of words, and so is their difference. */
  lemma {:induction false} AddrGap(width: nat, p1: WrPort, p2: WrPort, n: nat, e: Env)
    requires Shaped(width, p1) && Shaped(width, p2) && n == Pow2(p1.wideLog2) && p1.wideLog2 <= p2.wideLog2
    ensures (Addr(p1.addr, e) - Addr(p2.addr, e)) % n == 0
  {
    AlignedValue(BitsOf(p1.addr, e), p1.wideLog2);
    AlignedValue(BitsOf(p2.addr, e), p1.wideLog2);
    var x: int, y: int := Addr(p1.addr, e), Addr(p2.addr, e);
    SumMod(x, 0, y, 0, n);
  }

  lemma {:induction false} OnlyMultiple(d: int, sub: nat, n: nat)
    requires n > 0 && d % n == 0 && sub % n == 0 && sub <= d < sub + n
    ensures d == sub
  {
    DivModUnique(d, n, sub / n, d - sub);
  }

  method MaskNarrow(width: nat, p1: WrPort, p2: WrPort) returns (en: seq<seq<Wire>>)
    requires Shaped(width, p1) && Shaped(width, p2) && p1.wideLog2 <= p2.wideLog2
    ensures MaskedNarrow(width, p1, p2, en, Pow2(p2.wideLog2))
  {
    en := p1.en;
    var n, sub := Pow2(p1.wideLog2), 0;
    Blocks(p1.wideLog2, p2.wideLog2);
    while sub < Pow2(p2.wideLog2)
      invariant 0 <= sub <= Pow2(p2.wideLog2) && sub % n == 0 && MaskedNarrow(width, p1, p2, en, sub)
    {
      BlockFits(p1.wideLog2, p2.wideLog2, sub);
      en := MaskByBlock(width, p1, p2, en, sub, n);
      sub := sub + n;
    }
  }

  /** One block of the wider port 2. */
  method MaskByBlock(width: nat, p1: WrPort, p2: WrPort, was: seq<seq<Wire>>, sub: nat, n: nat)
      returns (en: seq<seq<Wire>>)
    requires Shaped(width, p1) && Shaped(width, p2) && p1.wideLog2 <= p2.wideLog2 && n == Pow2(p1.wideLog2)
    requires sub % n == 0 && sub + n <= Pow2(p2.wideLog2) && MaskedNarrow(width, p1, p2, was, sub)
    ensures MaskedNarrow(width, p1, p2, en, sub + n)
  {
    var addr2 := SubAddrLoop(p2.addr, p2.wideLog2, sub);
    var addrEq := EqGate(p1.addr, addr2);
    en := MaskBlock(width, was, 0, p2.en, sub, n, addrEq);
    var next := sub + n;
    forall e: Env, t, b | 0 <= t < |en| && 0 <= b < width ensures MaskedBit(width, p1, p2, en, next, e, t, b) {
      assert MaskedBit(width, p1, p2, was, sub, e, t, b);
      MaskNext(width, p1, p2, was, sub, n, en, e, t, b);
    }
  }

  /** Port `q` writes what port `p1` does, except what port `p2` writes too. */
  predicate Yields(width: nat, p1: WrPort, p2: WrPort, q: WrPort, e: Env, a: int, b: nat)
    requires Shaped(width, p1) && Shaped(width, p2) && Shaped(width, q) && b < width
  {
    && (Hits(width, q, e, a, b) <==> Hits(width, p1, e, a, b) && !Hits(width, p2, e, a, b))
    && (Hits(width, q, e, a, b) ==> Written(width, q, e, a, b) == Written(width, p1, e, a, b))
  }

  lemma {:induction false} NarrowYields(width: nat, p1: WrPort, p2: WrPort, en: seq<seq<Wire>>, e: Env, a: int, b: nat)
    requires Shaped(width, p1) && Shaped(width, p2) && p1.wideLog2 <= p2.wideLog2 && b < width
    requires MaskedNarrow(width, p1, p2, en, Pow2(p2.wideLog2))
    ensures Shaped(width, p1.(en := en)) && Yields(width, p1, p2, p1.(en := en), e, a, b)
  {
    var t, d, n := a - Addr(p1.addr, e), Addr(p1.addr, e) - Addr(p2.addr, e), Pow2(p1.wideLog2);
    if 0 <= t < |en| {
      assert MaskedBit(width, p1, p2, en, Pow2(p2.wideLog2), e, t, b);
      AddrGap(width, p1, p2, n, e);
      Blocks(p1.wideLog2, p2.wideLog2);
      if d < 0 {
        BelowMultiple(d, n);
      }
    }
  }

  lemma {:induction false} BelowMultiple(d: int, n: nat)
    requires n > 0 && d % n == 0 && d < 0
    ensures d + n <= 0
  {
    if d + n > 0 {
      DivModUnique(d, n, -1, d + n);
    }
  }

  lemma {:induction false} WideYields(width: nat, p1: WrPort, p2: WrPort, en: seq<seq<Wire>>, e: Env, a: int, b: nat)
    requires Shaped(width, p1) && Shaped(width, p2) && p2.wideLog2 <= p1.wideLog2 && b < width
    requires MaskedWide(width, p1, p2, en, |en|)
    ensures Shaped(width, p1.(en := en)) && Yields(width, p1, p2, p1.(en := en), e, a, b)
  {
    var t := a - Addr(p1.addr, e);
    if 0 <= t < |en| {
      MaskedWideBit(width, p1, p2, e, t, b);
    }
  }

  lemma {:induction false} MaskedWideBit(width: nat, p1: WrPort, p2: WrPort, e: Env, t: nat, b: nat)
    requires Shaped(width, p1) && Shaped(width, p2) && p2.wideLog2 <= p1.wideLog2 && b < width && t < |p1.en|
    ensures Ev(MaskedWord(width, p1, p2, t)[b], e) <==>
            Ev(p1.en[t][b], e) && !Hits(width, p2, e, Addr(p1.addr, e) + t, b)
  {
    var n := Pow2(p2.wideLog2);
    BlockFacts(t, n);
    var sub := BlockOf(t, n);
    var addr1 := SubAddr(p1.addr, p1.wideLog2, sub);
    SubAddrValue(p1.addr, p1.wideLog2, sub, e);
    EqGateValue(addr1, p2.addr, e);
    GateValue(p1.en[t][b], p2.en[t % n][b], EqGate(addr1, p2.addr), e);
    SameOffset(width, p1, p2, n, t, e);
  }

  /** Port 2 writes word `t` of port 1 exactly when it addresses the block of that word. */
  lemma {:induction false} SameOffset(width: nat, p1: WrPort, p2: WrPort, n: nat, t: nat, e: Env)
    requires Shaped(width, p1) && Shaped(width, p2) && n == Pow2(p2.wideLog2) && p2.wideLog2 <= p1.wideLog2
    ensures var d := Addr(p1.addr, e) + t - Addr(p2.addr, e);
            && (0 <= d < n <==> Addr(p1.addr, e) + BlockOf(t, n) == Addr(p2.addr, e))
            && (0 <= d < n ==> d == t % n)
  {
    BlockFacts(t, n);
    AddrGap(width, p2, p1, n, e);
    var x: int, y: int, k: int := Addr(p1.addr, e), Addr(p2.addr, e), BlockOf(t, n);
    var d := x + t - y;
    SumMod(y - x, 0, k, 0, n);
    if 0 <= d < n {
      Congruent(y - x, k, t % n, n);
    }
  }

  /** Two multiples within `n` of each other below one number are equal. */
  lemma {:induction false} Congruent(g: int, k: int, r: int, n: nat)
    requires n > 0 && (g - k) % n == 0 && 0 <= r < n && 0 <= k + r - g < n
    ensures g == k
  {
    if g < k {
      DivModUnique(g - k, n, -1, g - k + n);
    } else {
      DivModUnique(g - k, n, 0, g - k);
    }
  }

  /** Port 1 gives way to port 2, so their order no longer matters. */
  method EmulatePriority(width: nat, p1: WrPort, p2: WrPort) returns (q: WrPort)
    requires Shaped(width, p1) && Shaped(width, p2)
    ensures q == p1.(en := q.en) && Shaped(width, q)
    ensures forall e: Env, a, b: nat :: b < width ==> Yields(width, p1, p2, q, e, a, b)
  {
    if p1.wideLog2 > p2.wideLog2 {
      var en := MaskWide(width, p1, p2);
      q := p1.(en := en);
      forall e: Env, a, b: nat | b < width ensures Yields(width, p1, p2, q, e, a, b) {
        WideYields(width, p1, p2, en, e, a, b);
      }
    } else {
      var en := MaskNarrow(width, p1, p2);
      q := p1.(en := en);
      forall e: Env, a, b: nat | b < width ensures Yields(width, p1, p2, q, e, a, b) {
        NarrowYields(width, p1, p2, en, e, a, b);
      }
    }
  }

  /** Where a port writes, the earlier ones do not matter. */
  lemma {:induction false} HiddenSame(width: nat, ports: seq<WrPort>, other: seq<WrPort>, j: nat, e: Env, v: bool,
                                      a: int, b: nat)
    requires AllShaped(width, ports) && AllShaped(width, other) && b < width && j < |ports| == |other|
    requires (forall k :: j <= k < |ports| ==> other[k] == ports[k]) && Hits(width, ports[j], e, a, b)
    ensures After(width, other, e, v, a, b) == After(width, ports, e, v, a, b)
    decreases |ports|
  {
    var n := |ports| - 1;
    assert other[n] == ports[n];
    if j < n {
      HiddenSame(width, ports[..n], other[..n], j, e, v, a, b);
    }
  }

  /** Emulating the priority of a later port keeps the contents after every edge. */
  lemma {:induction false} PrioritySame(width: nat, ports: seq<WrPort>, i: nat, j: nat, q: WrPort, e: Env, v: bool,
                                        a: int, b: nat)
    requires AllShaped(width, ports) && i < j < |ports| && Shaped(width, q) && b < width
    requires Yields(width, ports[i], ports[j], q, e, a, b)
    ensures AllShaped(width, ports[i := q])
            && After(width, ports[i := q], e, v, a, b) == After(width, ports, e, v, a, b)
  {
    if Hits(width, ports[j], e, a, b) {
      HiddenSame(width, ports, ports[i := q], j, e, v, a, b);
    } else {
      ReplaceSame(width, ports, i, q, e, v, a, b);
    }
  }

  /** After emulation either order of the two ports gives the same contents. */
  lemma {:induction false} PriorityFree(width: nat, p1: WrPort, p2: WrPort, q: WrPort, e: Env, v: bool, a: int, b: nat)
    requires Shaped(width, p1) && Shaped(width, p2) && Shaped(width, q) && b < width
             && Yields(width, p1, p2, q, e, a, b)
    ensures After(width, [q, p2], e, v, a, b) == After(width, [p2, q], e, v, a, b)
  {
    assert [q, p2] == [q] + [p2] && [p2, q] == [p2] + [q];
    AfterConcat(width, [q], [p2], e, v, a, b);
    AfterConcat(width, [p2], [q], e, v, a, b);
    AfterOne(width, q, e, v, a, b);
    AfterOne(width, p2, e, v, a, b);
    AfterOne(width, q, e, After(width, [p2], e, v, a, b), a, b);
    AfterOne(width, p2, e, After(width, [q], e, v, a, b), a, b);
  }

  // ----- emulate_read_first

  /** The enables without repetition of neighbours, and where each enable has gone. */
  method CompressEn(en: seq<Wire>) returns (sig: seq<Wire>, swizzle: seq<nat>)
    requires |en| > 0
    ensures |swizzle| == |en| && (forall i :: 0 <= i < |swizzle| ==> swizzle[i] < |sig|)
            && Decompress(swizzle, sig) == en
    ensures forall i :: 0 < i < |sig| ==> sig[i - 1] != sig[i]
    ensures swizzle[0] == 0 && swizzle[|en| - 1] == |sig| - 1
    ensures forall i :: 0 < i < |en| ==> swizzle[i] == swizzle[i - 1] + if en[i] == en[i - 1] then 0 else 1
  {
    sig, swizzle := [en[0]], [];
    var prevBit, idx := en[0], 0;
    for i := 0 to |en|
      invariant |swizzle| == i && idx + 1 == |sig| && sig[idx] == prevBit
      invariant forall j :: 0 <= j < i ==> swizzle[j] < |sig| && sig[swizzle[j]] == en[j]
      invariant forall j :: 0 < j < |sig| ==> sig[j - 1] != sig[j]
      invariant i == 0 ==> idx == 0 && prevBit == en[0]
      invariant i > 0 ==> swizzle[0] == 0 && swizzle[i - 1] == idx && prevBit == en[i - 1]
      invariant forall j :: 0 < j < i ==> swizzle[j] == swizzle[j - 1] + if en[j] == en[j - 1] then 0 else 1
    {
      if en[i] != prevBit {
        sig := sig + [en[i]];
        prevBit := en[i];
        idx := idx + 1;
      }
      swizzle := swizzle + [idx];
    }
  }

  function Decompress<T>(swizzle: seq<nat>, sig: seq<T>): seq<T>
    requires forall i :: 0 <= i < |swizzle| ==> swizzle[i] < |sig|
  {
    seq(|swizzle|, i requires 0 <= i < |swizzle| => sig[swizzle[i]])
  }

  /** What a port writes at one edge. */
  datatype Write = Write(addr: int, data: seq<seq<bool>>, en: seq<seq<bool>>)

  predicate IsWrite(width: nat, w: Write) {
    |w.data| == |w.en| && (forall s :: 0 <= s < |w.en| ==> |w.en[s]| == |w.data[s]| == width)
  }

  predicate AllWrites(width: nat, ws: seq<Write>) {
    forall i :: 0 <= i < |ws| ==> IsWrite(width, ws[i])
  }

  predicate Stores(width: nat, w: Write, a: int, b: nat)
    requires IsWrite(width, w) && b < width
  {
    0 <= a - w.addr < |w.en| && w.en[a - w.addr][b]
  }

  /** Bit `b` of word `a`, which was `v`, after the writes of one edge. */
  predicate Store(width: nat, ws: seq<Write>, v: bool, a: int, b: nat)
    requires AllWrites(width, ws) && b < width
  {
    if |ws| == 0 then v
    else
      var w := ws[|ws| - 1];
      if Stores(width, w, a, b) then w.data[a - w.addr][b] else Store(width, ws[..|ws| - 1], v, a, b)
  }

  function Values(s: seq<Wire>, e: Env): (r: seq<bool>)
    ensures |r| == |s|
  {
    seq(|s|, i requires 0 <= i < |s| => Ev(s[i], e))
  }

  /** The registers in front of a port hold its signals as they were at the last edge. */
  function Sample(width: nat, p: WrPort, e: Env): (w: Write)
    requires Shaped(width, p)
    ensures IsWrite(width, w)
  {
    Write(Addr(p.addr, e),
          seq(|p.data|, s requires 0 <= s < |p.data| => Values(p.data[s], e)),
          seq(|p.en|, s requires 0 <= s < |p.en| => Values(p.en[s], e)))
  }

  function SampleAll(width: nat, ports: seq<WrPort>, e: Env): (ws: seq<Write>)
    requires AllShaped(width, ports)
    ensures AllWrites(width, ws) && |ws| == |ports|
  {
    seq(|ports|, i requires 0 <= i < |ports| => Sample(width, ports[i], e))
  }

  lemma {:induction false} SampleHits(width: nat, p: WrPort, e: Env, a: int, b: nat)
    requires Shaped(width, p) && b < width
    ensures Stores(width, Sample(width, p, e), a, b) == Hits(width, p, e, a, b)
    ensures Hits(width, p, e, a, b) ==> Sample(width, p, e).data[a - Addr(p.addr, e)][b] == Written(width, p, e, a, b)
  {
  }

  lemma {:induction false} StoreLast(width: nat, ws: seq<Write>, w: Write, v: bool, a: int, b: nat)
    requires AllWrites(width, ws) && IsWrite(width, w) && b < width
    ensures Store(width, ws + [w], v, a, b) == if Stores(width, w, a, b)
            then w.data[a - w.addr][b] else Store(width, ws, v, a, b)
  {
    assert (ws + [w])[..|ws|] == ws;
  }

  lemma {:induction false} SampleSplit(width: nat, x: seq<WrPort>, p: WrPort, e: Env)
    requires AllShaped(width, x) && Shaped(width, p)
    ensures AllShaped(width, x + [p]) && SampleAll(width, x + [p], e) == SampleAll(width, x, e) + [Sample(width, p, e)]
  {
  }

  /** One more port, written directly or from its registers. */
  lemma {:induction false} SampleLast(width: nat, x: seq<WrPort>, p: WrPort, e: Env, v: bool, a: int, b: nat, u: bool)
    requires AllShaped(width, x) && Shaped(width, p) && b < width
    requires u == Store(width, SampleAll(width, x, e), v, a, b)
    ensures AllShaped(width, x + [p])
    ensures Store(width, SampleAll(width, x + [p], e), v, a, b) == if Hits(width, p, e, a, b)
            then Written(width, p, e, a, b) else u
  {
    SampleSplit(width, x, p, e);
    StoreLast(width, SampleAll(width, x, e), Sample(width, p, e), v, a, b);
    SampleHits(width, p, e, a, b);
  }

  lemma {:induction false} SampleAfter(width: nat, ports: seq<WrPort>, e: Env, v: bool, a: int, b: nat)
      returns (u: bool)
    requires AllShaped(width, ports) && b < width
    ensures u == Store(width, SampleAll(width, ports, e), v, a, b)
    ensures u == After(width, ports, e, v, a, b)
  {
    if |ports| == 0 {
      u := v;
    } else {
      var x, p := ports[..|ports| - 1], ports[|ports| - 1];
      assert ports == x + [p];
      u := SampleAfter(width, x, e, v, a, b);
      SampleLast(width, x, p, e, v, a, b, u);
      AfterAppend(width, x, p, e, v, a, b);
      u := if Hits(width, p, e, a, b) then Written(width, p, e, a, b) else u;
    }
  }

  // ----- The registers in front of the ports

  /** The words one after the other, as one signal. */
  function Flat<T>(ws: seq<seq<T>>): seq<T> {
    if |ws| == 0 then [] else Flat(ws[..|ws| - 1]) + ws[|ws| - 1]
  }

  predicate Wide<T>(width: nat, ws: seq<seq<T>>) {
    forall s :: 0 <= s < |ws| ==> |ws[s]| == width
  }

  lemma {:induction false} FlatSize<T>(width: nat, ws: seq<seq<T>>)
    requires Wide(width, ws)
    ensures |Flat(ws)| == Off(width, |ws|)
  {
    if |ws| > 0 {
      FlatSize(width, ws[..|ws| - 1]);
      OffAdd(width, |ws| - 1, 1);
    }
  }

  function SplitWords<T>(width: nat, flat: seq<T>, n: nat): (ws: seq<seq<T>>)
    requires |flat| == Off(width, n)
    ensures |ws| == n && Wide(width, ws)
  {
    seq(n, s requires 0 <= s < n => WordOf(width, flat, n, s))
  }

  lemma {:induction false} FlatWord<T>(width: nat, ws: seq<seq<T>>, s: nat)
    requires Wide(width, ws) && s < |ws| && |Flat(ws)| == Off(width, |ws|)
    ensures WordOf(width, Flat(ws), |ws|, s) == ws[s]
  {
    var n := |ws| - 1;
    FlatSize(width, ws[..n]);
    if s < n {
      FlatWord(width, ws[..n], s);
      OffMono(width, 0, s);
      OffAdd(width, s, 1);
      OffMono(width, s + 1, n);
    }
  }

  /** Splitting gives the words back. */
  lemma {:induction false} FlatSplit<T>(width: nat, ws: seq<seq<T>>)
    requires Wide(width, ws)
    ensures |Flat(ws)| == Off(width, |ws|) && SplitWords(width, Flat(ws), |ws|) == ws
  {
    FlatSize(width, ws);
    forall s | 0 <= s < |ws| ensures SplitWords(width, Flat(ws), |ws|)[s] == ws[s] {
      FlatWord(width, ws, s);
    }
  }

  function AllValues(ws: seq<seq<Wire>>, e: Env): (r: seq<seq<bool>>)
    ensures |r| == |ws|
  {
    seq(|ws|, s requires 0 <= s < |ws| => Values(ws[s], e))
  }

  lemma {:induction false} FlatValues(ws: seq<seq<Wire>>, e: Env)
    ensures Values(Flat(ws), e) == Flat(AllValues(ws, e))
  {
    if |ws| > 0 {
      var n := |ws| - 1;
      FlatValues(ws[..n], e);
      assert AllValues(ws, e)[..n] == AllValues(ws[..n], e);
    }
  }

  /** A write port behind registers, with its enables compressed. */
  datatype Buffered = Buffered(port: WrPort, sig: seq<Wire>, swizzle: seq<nat>)

  predicate IsBuffered(width: nat, m: Buffered) {
    && Shaped(width, m.port) && (forall i :: 0 <= i < |m.swizzle| ==> m.swizzle[i] < |m.sig|)
    && Decompress(m.swizzle, m.sig) == Flat(m.port.en)
  }

  predicate AllBuffered(width: nat, ms: seq<Buffered>) {
    forall i :: 0 <= i < |ms| ==> IsBuffered(width, ms[i])
  }

  function PortsOf(width: nat, ms: seq<Buffered>): (ports: seq<WrPort>)
    requires AllBuffered(width, ms)
    ensures |ports| == |ms| && AllShaped(width, ports)
  {
    seq(|ms|, i requires 0 <= i < |ms| => ms[i].port)
  }

  /** Every port of the memory gets registers; those of the enables are compressed. */
  method EmulateReadFirst(width: nat, ports: seq<WrPort>) returns (ms: seq<Buffered>)
    requires AllShaped(width, ports) && width > 0
    ensures AllBuffered(width, ms) && PortsOf(width, ms) == ports
    ensures forall i, k :: 0 <= i < |ms| && 0 < k < |ms[i].sig| ==> ms[i].sig[k - 1] != ms[i].sig[k]
  {
    ms := [];
    for i := 0 to |ports|
      invariant |ms| == i && AllBuffered(width, ms) && PortsOf(width, ms) == ports[..i]
      invariant forall j, k :: 0 <= j < |ms| && 0 < k < |ms[j].sig| ==> ms[j].sig[k - 1] != ms[j].sig[k]
    {
      assert Shaped(width, ports[i]);
      var sig, swizzle := CompressPort(width, ports[i]);
      ms := ms + [Buffered(ports[i], sig, swizzle)];
    }
    assert ports[..|ports|] == ports;
  }

  method CompressPort(width: nat, p: WrPort) returns (sig: seq<Wire>, swizzle: seq<nat>)
    requires Shaped(width, p) && width > 0
    ensures IsBuffered(width, Buffered(p, sig, swizzle)) && forall k :: 0 < k < |sig| ==> sig[k - 1] != sig[k]
  {
    FlatSize(width, p.en);
    OffMono(width, 1, |p.en|);
    sig, swizzle := CompressEn(Flat(p.en));
  }

  /** What the registers of a port hold; the enables are compressed. */
  datatype Regs = Regs(addr: int, data: seq<seq<bool>>, en: seq<bool>)

  predicate RegsOf(width: nat, m: Buffered, r: Regs)
    requires IsBuffered(width, m)
  {
    |r.data| == |m.port.en| && Wide(width, r.data) && |r.en| == |m.sig|
  }

  predicate AllRegsOf(width: nat, ms: seq<Buffered>, rs: seq<Regs>)
    requires AllBuffered(width, ms)
  {
    |rs| == |ms| && forall i :: 0 <= i < |ms| ==> RegsOf(width, ms[i], rs[i])
  }

  /** The registers after an edge. */
  function Latched(width: nat, m: Buffered, e: Env): (r: Regs)
    requires IsBuffered(width, m)
    ensures RegsOf(width, m, r)
  {
    Regs(Addr(m.port.addr, e), AllValues(m.port.data, e), Values(m.sig, e))
  }

  function AllLatched(width: nat, ms: seq<Buffered>, e: Env): (rs: seq<Regs>)
    requires AllBuffered(width, ms)
    ensures AllRegsOf(width, ms, rs)
  {
    seq(|ms|, i requires 0 <= i < |ms| => Latched(width, ms[i], e))
  }

  /** What the rewritten port writes: the enables are those of the register, decompressed. */
  function Presented(width: nat, m: Buffered, r: Regs): (w: Write)
    requires IsBuffered(width, m) && RegsOf(width, m, r)
    ensures IsWrite(width, w)
  {
    FlatSize(width, m.port.en);
    Write(r.addr, r.data, SplitWords(width, Decompress(m.swizzle, r.en), |r.data|))
  }

  function AllPresented(width: nat, ms: seq<Buffered>, rs: seq<Regs>): (ws: seq<Write>)
    requires AllBuffered(width, ms) && AllRegsOf(width, ms, rs)
    ensures AllWrites(width, ws) && |ws| == |ms|
  {
    seq(|ms|, i requires 0 <= i < |ms| => Presented(width, ms[i], rs[i]))
  }

  /** Decompressing registered enables gives the registered enables. */
  lemma {:induction false} RegisteredEn(en: seq<Wire>, sig: seq<Wire>, swizzle: seq<nat>, e: Env)
    requires (forall i :: 0 <= i < |swizzle| ==> swizzle[i] < |sig|) && Decompress(swizzle, sig) == en
    ensures Decompress(swizzle, Values(sig, e)) == Values(en, e)
  {
    assert forall i :: 0 <= i < |en| ==> en[i] == sig[swizzle[i]];
  }

  /** The registers present the writes of the last edge. */
  lemma {:induction false} LatchedSample(width: nat, m: Buffered, e: Env)
    requires IsBuffered(width, m)
    ensures Presented(width, m, Latched(width, m, e)) == Sample(width, m.port, e)
  {
    RegisteredEn(Flat(m.port.en), m.sig, m.swizzle, e);
    FlatValues(m.port.en, e);
    FlatSplit(width, AllValues(m.port.en, e));
  }

  lemma {:induction false} AllLatchedSample(width: nat, ms: seq<Buffered>, e: Env)
    requires AllBuffered(width, ms)
    ensures AllPresented(width, ms, AllLatched(width, ms, e)) == SampleAll(width, PortsOf(width, ms), e)
  {
    forall i | 0 <= i < |ms| ensures Presented(width, ms[i], Latched(width, ms[i], e)) == Sample(width, ms[i].port, e) {
      LatchedSample(width, ms[i], e);
    }
  }

  /** Bit `b` of word `a` of the original memory before edge `t` of a run. */
  predicate Original(width: nat, ports: seq<WrPort>, run: seq<Env>, v: bool, a: int, b: nat, t: nat)
    requires AllShaped(width, ports) && b < width && t <= |run|
  {
    if t == 0 then v else After(width, ports, run[t - 1], Original(width, ports, run, v, a, b, t - 1), a, b)
  }

  /** The registers before edge `t`. */
  function Registers(width: nat, ms: seq<Buffered>, run: seq<Env>, start: seq<Regs>, t: nat): (rs: seq<Regs>)
    requires AllBuffered(width, ms) && AllRegsOf(width, ms, start) && t <= |run|
    ensures AllRegsOf(width, ms, rs)
  {
    if t == 0 then start else AllLatched(width, ms, run[t - 1])
  }

  /** The writes waiting in the registers before edge `t`. */
  function Pending(width: nat, ms: seq<Buffered>, run: seq<Env>, start: seq<Regs>, t: nat): (ws: seq<Write>)
    requires AllBuffered(width, ms) && AllRegsOf(width, ms, start) && t <= |run|
    ensures AllWrites(width, ws)
  {
    AllPresented(width, ms, Registers(width, ms, run, start, t))
  }

  /** The memory with delayed writes, before edge `t`. */
  predicate Delayed(width: nat, ms: seq<Buffered>, run: seq<Env>, start: seq<Regs>, v: bool, a: int, b: nat, t: nat)
    requires AllBuffered(width, ms) && AllRegsOf(width, ms, start) && b < width && t <= |run|
  {
    if t == 0 then v
    else Store(width, Pending(width, ms, run, start, t - 1), Delayed(width, ms, run, start, v, a, b, t - 1), a, b)
  }

  /** What a read port that is transparent to all write ports sees at edge `t` of the rewritten memory. */
  predicate TransparentRead(width: nat, ms: seq<Buffered>, run: seq<Env>, start: seq<Regs>,
                            v: bool, a: int, b: nat, t: nat)
    requires AllBuffered(width, ms) && AllRegsOf(width, ms, start) && b < width && t <= |run|
  {
    Store(width, Pending(width, ms, run, start, t), Delayed(width, ms, run, start, v, a, b, t), a, b)
  }

  /** The rewritten memory with its pending writes applied is always the original memory, so a transparent
      read sees what a read of the old contents saw. */
  lemma {:induction false} ReadFirstSame(width: nat, ms: seq<Buffered>, run: seq<Env>, start: seq<Regs>,
                                         v: bool, a: int, b: nat, t: nat)
    requires AllBuffered(width, ms) && AllRegsOf(width, ms, start) && b < width && t <= |run|
    ensures TransparentRead(width, ms, run, start, v, a, b, t) ==
            Original(width, PortsOf(width, ms), run, Store(width, AllPresented(width, ms, start), v, a, b), a, b, t)
  {
    var first := Store(width, AllPresented(width, ms, start), v, a, b);
    ReadStart(width, ms, run, start, v, a, b);
    ReadsStep(width, ms, run, start, v, a, b);
    OriginalsStep(width, PortsOf(width, ms), run, first, a, b);
    SameSteps(width, PortsOf(width, ms), run, a, b, Reads(width, ms, run, start, v, a, b),
              Originals(width, PortsOf(width, ms), run, first, a, b), t);
  }

  /** What the transparent read sees before each edge of a run. */
  function Reads(width: nat, ms: seq<Buffered>, run: seq<Env>, start: seq<Regs>, v: bool, a: int,
                 b: nat): (r: seq<bool>)
    requires AllBuffered(width, ms) && AllRegsOf(width, ms, start) && b < width
    ensures |r| == |run| + 1
  {
    seq(|run| + 1, t requires 0 <= t <= |run| => TransparentRead(width, ms, run, start, v, a, b, t))
  }

  function Originals(width: nat, ports: seq<WrPort>, run: seq<Env>, v: bool, a: int, b: nat): (r: seq<bool>)
    requires AllShaped(width, ports) && b < width
    ensures |r| == |run| + 1
  {
    seq(|run| + 1, t requires 0 <= t <= |run| => Original(width, ports, run, v, a, b, t))
  }

  /** From each edge to the next the bit changes as the ports say. */
  predicate StepsBy(width: nat, ports: seq<WrPort>, run: seq<Env>, a: int, b: nat, x: seq<bool>)
    requires AllShaped(width, ports) && b < width
  {
    |x| == |run| + 1 && forall k :: 0 <= k < |run| ==> x[k + 1] == After(width, ports, run[k], x[k], a, b)
  }

  lemma {:induction false} SameSteps(width: nat, ports: seq<WrPort>, run: seq<Env>, a: int, b: nat, x: seq<bool>,
                                     y: seq<bool>, t: nat)
    requires AllShaped(width, ports) && b < width && t <= |run|
    requires StepsBy(width, ports, run, a, b, x) && StepsBy(width, ports, run, a, b, y) && x[0] == y[0]
    ensures x[t] == y[t]
    decreases t
  {
    if t > 0 {
      SameSteps(width, ports, run, a, b, x, y, t - 1);
      var k := t - 1;
      assert x[k + 1] == After(width, ports, run[k], x[k], a, b) && y[k + 1] == After(width, ports, run[k], y[k], a, b);
    }
  }

  lemma {:induction false} ReadsStep(width: nat, ms: seq<Buffered>, run: seq<Env>, start: seq<Regs>, v: bool, a: int,
                                     b: nat)
    requires AllBuffered(width, ms) && AllRegsOf(width, ms, start) && b < width
    ensures StepsBy(width, PortsOf(width, ms), run, a, b, Reads(width, ms, run, start, v, a, b))
  {
    var x := Reads(width, ms, run, start, v, a, b);
    forall k | 0 <= k < |run| ensures x[k + 1] == After(width, PortsOf(width, ms), run[k], x[k], a, b) {
      ReadsStepAt(width, ms, run, start, v, a, b, x, k);
    }
  }

  lemma {:induction false} ReadsStepAt(width: nat, ms: seq<Buffered>, run: seq<Env>, start: seq<Regs>, v: bool, a: int,
                                       b: nat,
                                       x: seq<bool>, t: nat)
    requires AllBuffered(width, ms) && AllRegsOf(width, ms, start) && b < width && t < |run|
    requires x == Reads(width, ms, run, start, v, a, b)
    ensures x[t + 1] == After(width, PortsOf(width, ms), run[t], x[t], a, b)
  {
    TransparentNext(width, ms, run, start, v, a, b, t, x[t]);
  }

  lemma {:induction false} OriginalsStep(width: nat, ports: seq<WrPort>, run: seq<Env>, v: bool, a: int, b: nat)
    requires AllShaped(width, ports) && b < width
    ensures StepsBy(width, ports, run, a, b, Originals(width, ports, run, v, a, b))
  {
    forall k | 0 <= k < |run|
      ensures Original(width, ports, run, v, a, b, k + 1) ==
              After(width, ports, run[k], Original(width, ports, run, v, a, b, k), a, b)
    {
      OriginalNext(width, ports, run, v, a, b, k + 1);
    }
  }

  lemma {:induction false} ReadStart(width: nat, ms: seq<Buffered>, run: seq<Env>, start: seq<Regs>, v: bool, a: int,
                                     b: nat)
    requires AllBuffered(width, ms) && AllRegsOf(width, ms, start) && b < width
    ensures var first := Store(width, AllPresented(width, ms, start), v, a, b);
            TransparentRead(width, ms, run, start, v, a, b, 0) == first
  {
  }

  lemma {:induction false} OriginalNext(width: nat, ports: seq<WrPort>, run: seq<Env>, v: bool, a: int, b: nat, t: nat)
    requires AllShaped(width, ports) && b < width && 0 < t <= |run|
    ensures Original(width, ports, run, v, a, b, t) ==
            After(width, ports, run[t - 1], Original(width, ports, run, v, a, b, t - 1), a, b)
  {
  }

  /** The transparent view takes the original memory's steps. */
  lemma {:induction false} TransparentNext(width: nat, ms: seq<Buffered>, run: seq<Env>, start: seq<Regs>,
                                           v: bool, a: int, b: nat, t: nat, u: bool)
    requires AllBuffered(width, ms) && AllRegsOf(width, ms, start) && b < width && t < |run|
    requires u == TransparentRead(width, ms, run, start, v, a, b, t)
    ensures TransparentRead(width, ms, run, start, v, a, b, t + 1) == After(width, PortsOf(width, ms), run[t], u, a, b)
  {
    AllLatchedSample(width, ms, run[t]);
    assert Delayed(width, ms, run, start, v, a, b, t + 1) == u;
    var _ := SampleAfter(width, PortsOf(width, ms), run[t], u, a, b);
  }

  predicate Disabled(ws: seq<Write>) {
    forall i, s, b :: 0 <= i < |ws| && 0 <= s < |ws[i].en| && 0 <= b < |ws[i].en[s]| ==> !ws[i].en[s][b]
  }

  lemma {:induction false} DisabledStores(width: nat, ws: seq<Write>, v: bool, a: int, b: nat)
    requires AllWrites(width, ws) && Disabled(ws) && b < width
    ensures Store(width, ws, v, a, b) == v
  {
    if |ws| > 0 {
      DisabledStores(width, ws[..|ws| - 1], v, a, b);
    }
  }

  /** All enable registers hold zero. */
  predicate Cleared(rs: seq<Regs>) {
    forall i, k :: 0 <= i < |rs| && 0 <= k < |rs[i].en| ==> !rs[i].en[k]
  }

  lemma {:induction false} PresentedOff(width: nat, m: Buffered, r: Regs, s: nat, b: nat)
    requires IsBuffered(width, m) && RegsOf(width, m, r) && s < |r.data| && b < width
    requires forall k :: 0 <= k < |r.en| ==> !r.en[k]
    ensures !Presented(width, m, r).en[s][b]
  {
    FlatSize(width, m.port.en);
    var k := WordIndex(width, Decompress(m.swizzle, r.en), |r.data|, s, b);
    assert Decompress(m.swizzle, r.en)[k] == r.en[m.swizzle[k]];
  }

  lemma {:induction false} WordIndex<T>(width: nat, flat: seq<T>, n: nat, s: nat, b: nat) returns (k: nat)
    requires |flat| == Off(width, n) && s < n && b < width
    ensures k < |flat| && SplitWords(width, flat, n)[s][b] == flat[k]
  {
    OffMono(width, 0, s);
    OffMono(width, s + 1, n);
    OffAdd(width, s, 1);
    k := Off(width, s) + b;
  }

  lemma {:induction false} ClearedDisabled(width: nat, ms: seq<Buffered>, rs: seq<Regs>)
    requires AllBuffered(width, ms) && AllRegsOf(width, ms, rs) && Cleared(rs)
    ensures Disabled(AllPresented(width, ms, rs))
  {
    var ws := AllPresented(width, ms, rs);
    forall i, s, b | 0 <= i < |ws| && 0 <= s < |ws[i].en| && 0 <= b < |ws[i].en[s]| ensures !ws[i].en[s][b] {
      PresentedOff(width, ms[i], rs[i], s, b);
    }
  }

  /** With the enable registers starting at zero the initial contents carry over. */
  lemma {:induction false} ReadFirstInitialised(width: nat, ms: seq<Buffered>, run: seq<Env>, start: seq<Regs>,
                                                v: bool, a: int, b: nat, t: nat)
    requires AllBuffered(width, ms) && AllRegsOf(width, ms, start) && Cleared(start) && b < width && t <= |run|
    ensures TransparentRead(width, ms, run, start, v, a, b, t) == Original(width, PortsOf(width, ms), run, v, a, b, t)
  {
    ReadFirstSame(width, ms, run, start, v, a, b, t);
    ClearedDisabled(width, ms, start);
    DisabledStores(width, AllPresented(width, ms, start), v, a, b);
  }

  /** Rewritten ports that leave every edge alike leave every run alike. */
  lemma {:induction false} RunSame(width: nat, ports: seq<WrPort>, other: seq<WrPort>, run: seq<Env>, v: bool, a: int,
                                   b: nat, t: nat)
    requires AllShaped(width, ports) && AllShaped(width, other) && b < width && t <= |run|
    requires forall e: Env, u :: After(width, other, e, u, a, b) == After(width, ports, e, u, a, b)
    ensures Original(width, other, run, v, a, b, t) == Original(width, ports, run, v, a, b, t)
  {
    if t > 0 {
      RunSame(width, ports, other, run, v, a, b, t - 1);
    }
  }

  /** Splitting every wide port keeps the contents through every run. */
  lemma {:induction false} NarrowRun(width: nat, ports: seq<WrPort>, run: seq<Env>, v: bool, a: int, b: nat, t: nat)
    requires AllShaped(width, ports) && b < width && t <= |run|
    ensures Original(width, NarrowAll(width, ports), run, v, a, b, t) == Original(width, ports, run, v, a, b, t)
  {
    forall e: Env, u ensures After(width, NarrowAll(width, ports), e, u, a, b) == After(width, ports, e, u, a, b) {
      NarrowSame(width, ports, e, u, a, b);
    }
    RunSame(width, ports, NarrowAll(width, ports), run, v, a, b, t);
  }

  /** Widening a port keeps the contents through every run. */
  lemma {:induction false} WidenRun(width: nat, ports: seq<WrPort>, i: nat, w: nat, run: seq<Env>, v: bool, a: int,
                                    b: nat, t: nat)
    requires AllShaped(width, ports) && i < |ports| && ports[i].wideLog2 <= w <= |ports[i].addr| && b < width
             && t <= |run|
    ensures var q := ports[i := Widened(width, ports[i], w)];
            AllShaped(width, q) && Original(width, q, run, v, a, b, t) == Original(width, ports, run, v, a, b, t)
  {
    var q := ports[i := Widened(width, ports[i], w)];
    WidenedShaped(width, ports[i], w);
    forall e: Env, u ensures After(width, q, e, u, a, b) == After(width, ports, e, u, a, b) {
      WidenSame(width, ports, i, w, e, u, a, b);
    }
    RunSame(width, ports, q, run, v, a, b, t);
  }

  /** Emulating the priority of a later port keeps the contents through every run. */
  lemma {:induction false} PriorityRun(width: nat, ports: seq<WrPort>, i: nat, j: nat, q: WrPort, run: seq<Env>,
                                       v: bool, a: int, b: nat, t: nat)
    requires AllShaped(width, ports) && i < j < |ports| && Shaped(width, q) && b < width && t <= |run|
    requires forall e :: Yields(width, ports[i], ports[j], q, e, a, b)
    ensures AllShaped(width, ports[i := q])
    ensures Original(width, ports[i := q], run, v, a, b, t) == Original(width, ports, run, v, a, b, t)
  {
    var r := ports[i := q];
    forall e: Env, u ensures After(width, r, e, u, a, b) == After(width, ports, e, u, a, b) {
      PrioritySame(width, ports, i, j, q, e, u, a, b);
    }
    RunSame(width, ports, r, run, v, a, b, t);
  }
}
