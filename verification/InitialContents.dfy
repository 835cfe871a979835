/** `MemContents` built from the initialisers of a memory (`kernel/mem.cc`), compared with `Mem::get_init_data`. */
module InitialContents {
  import opened Bits
  import opened Calc
  import C = CoalesceInits
  import M = MemContents

  /** The word at an address: the stored one, or the default. */
  ghost function WordIn(m: M.Memory, a: int): Const
    requires m.Valid()
    reads m
  {
    match m.At(a)
    case Some(w) => w
    case None => m.defaultValue
  }

  lemma {:induction false} StoredWidth(dw: nat, vs: seq<M.Range>, a: int)
    requires dw > 0 && M.Get(dw, vs, a).Some?
    ensures |M.Get(dw, vs, a).value| == dw
  {
    if !M.HasWord(dw, vs[0], a) {
      StoredWidth(dw, vs[1..], a);
    }
  }

  // ----- Initialisers with the flag `removed` left aside

  function Revived(inits: seq<C.Init>): (r: seq<C.Init>)
    ensures |r| == |inits|
  {
    seq(|inits|, i requires 0 <= i < |inits| => inits[i].(removed := false))
  }

  lemma {:induction false} RevivedOk(w: nat, inits: seq<C.Init>)
    requires C.AllOk(w, inits)
    ensures C.AllOk(w, Revived(inits))
  {
  }

  /** The words of an initialiser fit into the address space, if it sets anything. */
  predicate Fits(w: nat, limit: nat, init: C.Init)
    requires w > 0
  {
    FullyZero(init.en) || (|init.data| > 0 && 0 <= init.addr && C.End(w, init) <= limit)
  }

  predicate AllFit(w: nat, limit: nat, inits: seq<C.Init>)
    requires w > 0
  {
    forall i :: 0 <= i < |inits| ==> Fits(w, limit, inits[i])
  }

  /** Word `a` lies in the initialiser. */
  predicate InWords(w: nat, init: C.Init, a: int)
    requires w > 0
  {
    init.addr <= a < C.End(w, init)
  }

  /** The place of bit `j` of word `a` in the data of an initialiser. */
  lemma {:induction false} Place(w: nat, init: C.Init, a: int, j: nat)
    requires w > 0 && C.InitOk(w, init) && j < w
    ensures Off(w, a) + j - Off(w, init.addr) == Off(w, a - init.addr) + j
    ensures (Off(w, a) + j) % w == j
    ensures InWords(w, init, a) <==> 0 <= Off(w, a - init.addr) + j < |init.data|
  {
    OffAdd(w, init.addr, a - init.addr);
    C.OffMod(w, a, j);
    ModSmall(j, w);
    C.OffEnd(w, init);
    OffAdd(w, init.addr, C.End(w, init) - init.addr);
    WordBefore(w, a - init.addr, j, C.End(w, init) - init.addr);
  }

  lemma {:induction false} WordBefore(w: nat, k: int, j: nat, n: nat)
    requires w > 0 && j < w
    ensures 0 <= k < n <==> 0 <= Off(w, k) + j < Off(w, n)
  {
    OffAdd(w, k, 1);
    if k < 0 {
      OffMono(w, k + 1, 0);
    } else if k < n {
      OffMono(w, 0, k);
      OffMono(w, k + 1, n);
    } else {
      OffMono(w, n, k);
    }
  }

  /** One more initialiser sets the enabled bits of its words. */
  lemma {:induction false} BitStep(w: nat, inits: seq<C.Init>, init: C.Init, a: int, j: nat)
    requires C.AllOk(w, inits) && C.InitOk(w, init) && !init.removed && j < w
    ensures InWords(w, init, a) ==> 0 <= Off(w, a - init.addr) + j < |init.data|
    ensures C.BitAt(w, inits + [init], Off(w, a) + j) ==
            if InWords(w, init, a) && init.en[j] == S1 then init.data[Off(w, a - init.addr) + j]
            else C.BitAt(w, inits, Off(w, a) + j)
  {
    Place(w, init, a, j);
    assert (inits + [init])[..|inits|] == inits;
  }

  // ----- The constructor

  /** Bit by bit the memory holds what the initialisers set. */
  ghost predicate Holds(m: M.Memory, w: nat, inits: seq<C.Init>)
    requires m.Valid() && C.AllOk(w, inits)
    reads m
  {
    m.dataWidth == w && forall a, j :: 0 <= j < w ==> HoldsBit(m, w, inits, a, j)
  }

  ghost predicate HoldsBit(m: M.Memory, w: nat, inits: seq<C.Init>, a: int, j: nat)
    requires m.Valid() && C.AllOk(w, inits)
    reads m
  {
    |WordIn(m, a)| == w && (j < w ==> WordIn(m, a)[j] == C.BitAt(w, inits, Off(w, a) + j))
  }

  /** Word `a` lies in an initialiser that sets something. */
  predicate Touched(w: nat, inits: seq<C.Init>, a: int)
    requires w > 0
  {
    exists i :: 0 <= i < |inits| && !FullyZero(inits[i].en) && InWords(w, inits[i], a)
  }

  /** A word is stored exactly if an initialiser that sets something covers it. */
  ghost predicate Stores(m: M.Memory, inits: seq<C.Init>)
    requires m.Valid()
    reads m
  {
    forall a :: m.At(a).Some? <==> Touched(m.dataWidth, inits, a)
  }

  lemma {:induction false} TouchedStep(w: nat, inits: seq<C.Init>, init: C.Init, a: int)
    requires w > 0
    ensures Touched(w, inits + [init], a) <==> Touched(w, inits, a) || (!FullyZero(init.en) && InWords(w, init, a))
  {
    var more := inits + [init];
    if i :| 0 <= i < |inits| && !FullyZero(inits[i].en) && InWords(w, inits[i], a) {
      assert more[i] == inits[i];
    }
    assert more[|inits|] == init;
  }

  /** The data with the bits that are not enabled taken from the memory. */
  ghost predicate IsMerged(m: M.Memory, w: nat, init: C.Init, data: Const)
    requires m.Valid() && w > 0 && C.InitOk(w, init)
    reads m
  {
    |data| == |init.data| && forall a, j :: 0 <= j < w && InWords(w, init, a) ==> MergedBit(m, w, init, data, a, j)
  }

  ghost predicate MergedBit(m: M.Memory, w: nat, init: C.Init, data: Const, a: int, j: nat)
    requires m.Valid() && w > 0 && C.InitOk(w, init) && |data| == |init.data|
    reads m
  {
    var p := Off(w, a - init.addr) + j;
    && 0 <= p < |data| && j < |WordIn(m, a)| && j < w
    && data[p] == if init.en[j] == S1 then init.data[p] else WordIn(m, a)[j]
  }

  /** Bits of word `i` that are not enabled, from bit 0 to bit `j`. */
  method KeepPrevious(w: nat, init: C.Init, data: Const, i: nat, previous: Const) returns (r: Const)
    requires w > 0 && C.InitOk(w, init) && |data| == |init.data| && i < |data| / w && |previous| == w
    ensures |r| == |data| && 0 <= Off(w, i) && Off(w, i) + w <= |data|
    ensures forall p :: 0 <= p < |data| && !(Off(w, i) <= p < Off(w, i) + w) ==> r[p] == data[p]
    ensures forall j :: 0 <= j < w ==> r[Off(w, i) + j] == if init.en[j] == S1 then data[Off(w, i) + j] else previous[j]
  {
    r := data;
    var o := WordStart(w, |data|, i);
    for j := 0 to w
      invariant |r| == |data| && forall p :: 0 <= p < |data| && !(o <= p < o + j) ==> r[p] == data[p]
      invariant forall k :: 0 <= k < j ==> r[o + k] == if init.en[k] == S1 then data[o + k] else previous[k]
    {
      if init.en[j] != S1 {
        r := r[o + j := previous[j]];
      }
    }
  }

  method WordStart(w: nat, size: nat, i: nat) returns (o: nat)
    requires w > 0 && size % w == 0 && i < size / w
    ensures o == Off(w, i) && o + w <= size
  {
    o := w * i;
    OffMono(w, i + 1, size / w);
    OffAdd(w, i, 1);
  }

  /** The words of an initialiser with some enables, completed from the memory. */
  method MergeWords(m: M.Memory, init: C.Init) returns (data: Const)
    requires m.Valid() && C.InitOk(m.dataWidth, init) && 0 <= init.addr && C.End(m.dataWidth, init) <= m.Limit()
    ensures IsMerged(m, m.dataWidth, init, data)
  {
    var w := m.dataWidth;
    var words := |init.data| / w;
    data := init.data;
    for i := 0 to words
      invariant |data| == |init.data|
      invariant forall p :: 0 <= p < |data| && p >= Off(w, i) ==> data[p] == init.data[p]
      invariant forall a, j :: 0 <= j < w && init.addr <= a < init.addr + i ==> MergedBit(m, w, init, data, a, j)
    {
      data := MergeWord(m, init, data, i);
    }
  }

  method MergeWord(m: M.Memory, init: C.Init, was: Const, i: nat) returns (data: Const)
    requires m.Valid() && C.InitOk(m.dataWidth, init) && 0 <= init.addr && C.End(m.dataWidth, init) <= m.Limit()
    requires |was| == |init.data| && i < |was| / m.dataWidth
    requires forall p :: 0 <= p < |was| && p >= Off(m.dataWidth, i) ==> was[p] == init.data[p]
    requires forall a, j :: 0 <= j < m.dataWidth && init.addr <= a < init.addr + i ==>
             MergedBit(m, m.dataWidth, init, was, a, j)
    ensures |data| == |was|
    ensures forall p :: 0 <= p < |data| && p >= Off(m.dataWidth, i + 1) ==> data[p] == init.data[p]
    ensures forall a, j :: 0 <= j < m.dataWidth && init.addr <= a < init.addr + i + 1 ==>
            MergedBit(m, m.dataWidth, init, data, a, j)
  {
    var w := m.dataWidth;
    var previous := m.Read(init.addr + i);
    WordInWidth(m, init.addr + i);
    data := KeepPrevious(w, init, was, i, previous);
    OffAdd(w, i, 1);
    forall a, j | 0 <= j < w && init.addr <= a < init.addr + i + 1 ensures MergedBit(m, w, init, data, a, j) {
      MergedStep(m, init, was, data, i, a, j);
    }
  }

  lemma {:induction false} WordInWidth(m: M.Memory, a: int)
    requires m.Valid()
    ensures |WordIn(m, a)| == m.dataWidth
  {
    if m.At(a).Some? {
      StoredWidth(m.dataWidth, m.values, a);
    }
  }

  lemma {:induction false} MergedStep(m: M.Memory, init: C.Init, was: Const, data: Const, i: nat, a: int, j: nat)
    requires m.Valid() && C.InitOk(m.dataWidth, init) && |was| == |data| == |init.data|
    requires j < m.dataWidth && init.addr <= a < init.addr + i + 1
    requires a < init.addr + i ==> MergedBit(m, m.dataWidth, init, was, a, j)
    requires var w := m.dataWidth;
             && Off(w, i) + w <= |data| && 0 <= Off(w, i)
             && (forall p :: 0 <= p < |data| && p >= Off(w, i) ==> was[p] == init.data[p])
             && (forall p :: 0 <= p < |data| && !(Off(w, i) <= p < Off(w, i) + w) ==> data[p] == was[p])
             && |WordIn(m, init.addr + i)| == w
             && forall k :: 0 <= k < w ==>
                  data[Off(w, i) + k] == if init.en[k] == S1 then was[Off(w, i) + k] else WordIn(m, init.addr + i)[k]
    ensures MergedBit(m, m.dataWidth, init, data, a, j)
  {
    var w := m.dataWidth;
    if a < init.addr + i {
      OffAdd(w, a - init.addr, 1);
      OffMono(w, a - init.addr + 1, i);
    }
  }

  /** Inserting the merged data adds the initialiser. */
  method InsertInit(m: M.Memory, init: C.Init, data: Const, ghost inits: seq<C.Init>)
    requires m.Valid() && C.InitOk(m.dataWidth, init) && !init.removed && 0 <= init.addr
             && C.End(m.dataWidth, init) <= m.Limit()
    requires |init.data| > 0 && IsMerged(m, m.dataWidth, init, data)
    requires C.AllOk(m.dataWidth, inits) && Holds(m, m.dataWidth, inits)
    modifies m
    ensures m.Valid() && C.AllOk(m.dataWidth, inits + [init]) && Holds(m, m.dataWidth, inits + [init])
    ensures forall a :: m.At(a).Some? <==> old(m.At(a)).Some? || InWords(m.dataWidth, init, a)
  {
    ghost var w := m.dataWidth;
    WholeWords(w, data);
    m.InsertConcatenated(init.addr, data);
    forall a, j | 0 <= j < w ensures HoldsBit(m, w, inits + [init], a, j) {
      assert old(HoldsBit(m, w, inits, a, j));
      WordInWidth(m, a);
      BitStep(w, inits, init, a, j);
      if InWords(w, init, a) {
        assert old(MergedBit(m, w, init, data, a, j));
        InsertedBit(w, init.addr, data, |data| / w, a, j);
      }
    }
  }

  /** Data of whole words is not padded. */
  lemma {:induction false} WholeWords(w: nat, data: Const)
    requires w > 0 && |data| > 0 && |data| % w == 0
    ensures M.WordCount(w, data) == |data| / w > 0 && M.Padded(w, data) == data && |data| == Off(w, |data| / w)
  {
    var n := |data| / w;
    RoundUp(|data|, w);
    assert |data| == n * w;
  }

  lemma {:induction false} InsertedBit(w: nat, addr: nat, data: Const, n: nat, a: int, j: nat)
    requires w > 0 && |data| == Off(w, n) && addr <= a < addr + n && j < w
    ensures 0 <= Off(w, a - addr) + j < |data| && |M.WordAt(w, addr, data, n, a)| == w
    ensures M.WordAt(w, addr, data, n, a)[j] == data[Off(w, a - addr) + j]
  {
    WordBefore(w, a - addr, j, n);
    M.InsertedWord(w, addr, data, n, a);
  }

  /** The memory for the initialisers of `mem`. The flag `removed` is not consulted, addresses are not relative to
      the start offset, and what no initialiser sets is undefined. */
  method FromMem(mem: C.Mem) returns (m: M.Memory)
    requires mem.Valid() && 1 < mem.size && CeilLog2(mem.size) < 32
    requires AllFit(mem.width, Pow2(CeilLog2(mem.size)), mem.inits)
    ensures m.Valid() && m.addrWidth == CeilLog2(mem.size) && m.dataWidth == mem.width
    ensures C.AllOk(mem.width, Revived(mem.inits)) && Holds(m, mem.width, Revived(mem.inits))
    ensures Stores(m, Revived(mem.inits))
  {
    var w, inits := mem.width, mem.inits;
    m := new M.Memory(CeilLog2(mem.size), w, AllX(w));
    RevivedOk(w, inits);
    assert Revived(inits)[..0] == [];
    for k := 0 to |inits|
      invariant fresh(m) && m.Valid() && m.addrWidth == CeilLog2(mem.size) && m.dataWidth == w
      invariant C.AllOk(w, Revived(inits)[..k]) && Holds(m, w, Revived(inits)[..k]) && Stores(m, Revived(inits)[..k])
    {
      assert Revived(inits)[..k + 1] == Revived(inits)[..k] + [inits[k].(removed := false)];
      AddInit(m, inits[k].(removed := false), Revived(inits)[..k]);
    }
    assert Revived(inits)[..|inits|] == Revived(inits);
  }

  method AddInit(m: M.Memory, init: C.Init, ghost inits: seq<C.Init>)
    requires m.Valid() && C.InitOk(m.dataWidth, init) && !init.removed && Fits(m.dataWidth, m.Limit(), init)
    requires C.AllOk(m.dataWidth, inits) && Holds(m, m.dataWidth, inits) && Stores(m, inits)
    modifies m
    ensures m.Valid() && C.AllOk(m.dataWidth, inits + [init]) && Holds(m, m.dataWidth, inits + [init])
    ensures Stores(m, inits + [init])
  {
    ghost var w := m.dataWidth;
    forall a ensures Touched(w, inits + [init], a) <==>
                     Touched(w, inits, a) || (!FullyZero(init.en) && InWords(w, init, a)) {
      TouchedStep(w, inits, init, a);
    }
    if FullyZero(init.en) {
      forall a, j | 0 <= j < w ensures HoldsBit(m, w, inits + [init], a, j) {
        assert HoldsBit(m, w, inits, a, j);
        BitStep(w, inits, init, a, j);
      }
      return;
    }
    var data := init.data;
    if FullyOnes(init.en) {
      forall a, j | 0 <= j < w && InWords(w, init, a) ensures MergedBit(m, w, init, data, a, j) {
        Place(w, init, a, j);
        WordInWidth(m, a);
      }
    } else {
      data := MergeWords(m, init);
    }
    InsertInit(m, init, data, inits);
  }

  predicate FullyOnes(s: Const) {
    forall i :: 0 <= i < |s| ==> s[i] == S1
  }

  // ----- Comparison with `get_init_data`

  /** Initialiser `i`, removed or not, is the last one that sets the bit at `pos`. */
  predicate SetsLast(w: nat, inits: seq<C.Init>, i: nat, pos: int)
    requires C.AllOk(w, inits) && C.AllOk(w, Revived(inits)) && i < |inits|
  {
    C.Hits(w, Revived(inits)[i], pos) && forall j :: i < j < |inits| ==> !C.Hits(w, Revived(inits)[j], pos)
  }

  /** A removed initialiser decides the bit at `pos` and sets it otherwise than those in force do. */
  predicate RemovedShows(w: nat, inits: seq<C.Init>, i: nat, pos: int)
    requires C.AllOk(w, inits) && C.AllOk(w, Revived(inits)) && i < |inits|
  {
    && inits[i].removed && SetsLast(w, inits, i, pos)
    && inits[i].data[pos - Off(w, inits[i].addr)] != C.BitAt(w, inits, pos)
  }

  /** No removed initialiser shows at `pos`. */
  predicate Clear(w: nat, inits: seq<C.Init>, pos: int)
    requires C.AllOk(w, inits) && C.AllOk(w, Revived(inits))
  {
    forall i :: 0 <= i < |inits| ==> !RemovedShows(w, inits, i, pos)
  }

  lemma {:induction false} HitsRevived(w: nat, inits: seq<C.Init>, pos: int)
    requires C.AllOk(w, inits) && C.AllOk(w, Revived(inits))
    ensures forall i :: 0 <= i < |inits| ==>
              (C.Hits(w, inits[i], pos) <==> !inits[i].removed && C.Hits(w, Revived(inits)[i], pos))
  {
  }

  lemma {:induction false} NothingSets(w: nat, inits: seq<C.Init>, pos: int)
    requires C.AllOk(w, inits) && C.AllOk(w, Revived(inits))
    requires forall i :: 0 <= i < |inits| ==> !C.Hits(w, Revived(inits)[i], pos)
    ensures C.BitAt(w, Revived(inits), pos) == C.BitAt(w, inits, pos) && Clear(w, inits, pos)
  {
    HitsRevived(w, inits, pos);
    C.NoHit(w, Revived(inits), pos);
    C.NoHit(w, inits, pos);
  }

  lemma {:induction false} LastSetter(w: nat, inits: seq<C.Init>, pos: int, i: nat)
    requires C.AllOk(w, inits) && C.AllOk(w, Revived(inits)) && i < |inits| && SetsLast(w, inits, i, pos)
    ensures C.BitAt(w, Revived(inits), pos) == inits[i].data[pos - Off(w, inits[i].addr)]
    ensures !inits[i].removed ==> C.BitAt(w, inits, pos) == C.BitAt(w, Revived(inits), pos)
    ensures forall k :: 0 <= k < |inits| && k != i ==> !RemovedShows(w, inits, k, pos)
  {
    HitsRevived(w, inits, pos);
    C.LastHit(w, Revived(inits), pos, i);
    if !inits[i].removed {
      C.LastHit(w, inits, pos, i);
    }
  }

  lemma {:induction false} RevivedBit(w: nat, inits: seq<C.Init>, pos: int)
    requires C.AllOk(w, inits) && C.AllOk(w, Revived(inits))
    ensures C.BitAt(w, Revived(inits), pos) == C.BitAt(w, inits, pos) <==> Clear(w, inits, pos)
  {
    var i := C.FindLastHit(w, Revived(inits), pos);
    if i < 0 {
      NothingSets(w, inits, pos);
    } else {
      LastSetter(w, inits, pos, i);
      if C.BitAt(w, Revived(inits), pos) != C.BitAt(w, inits, pos) {
        assert RemovedShows(w, inits, i, pos);
      } else {
        assert !RemovedShows(w, inits, i, pos);
      }
    }
  }

  /** No removed initialiser shows in the words of the memory. */
  predicate NoneShows(w: nat, inits: seq<C.Init>, start: int, size: nat)
    requires C.AllOk(w, inits) && C.AllOk(w, Revived(inits))
  {
    forall pos :: Off(w, start) <= pos < Off(w, start + size) ==> Clear(w, inits, pos)
  }

  /** The two readings of the initialisers agree on all words of the memory. */
  ghost predicate SameInitial(m: M.Memory, w: nat, start: int, size: nat, r: Const)
    requires m.Valid() && |r| == Off(w, size)
    reads m
  {
    forall a, j :: start <= a < start + size && 0 <= j < w ==> SameBit(m, w, start, r, a, j)
  }

  ghost predicate SameBit(m: M.Memory, w: nat, start: int, r: Const, a: int, j: nat)
    requires m.Valid()
    reads m
  {
    var p := Off(w, a - start) + j;
    0 <= p < |r| && j < |WordIn(m, a)| && WordIn(m, a)[j] == r[p]
  }

  /** What `get_init_data` returns. */
  predicate IsInitData(w: nat, inits: seq<C.Init>, start: int, r: Const)
    requires C.AllOk(w, inits)
  {
    forall p :: 0 <= p < |r| ==> r[p] == C.BitAt(w, inits, Off(w, start) + p)
  }

  lemma {:induction false} BitAgrees(m: M.Memory, w: nat, inits: seq<C.Init>, start: int, size: nat, r: Const, a: int,
                                     j: nat)
    requires m.Valid() && C.AllOk(w, inits) && C.AllOk(w, Revived(inits)) && HoldsBit(m, w, Revived(inits), a, j)
    requires |r| == Off(w, size) && IsInitData(w, inits, start, r) && start <= a < start + size && j < w
    ensures Off(w, start) <= Off(w, a) + j < Off(w, start + size)
    ensures SameBit(m, w, start, r, a, j) <==> Clear(w, inits, Off(w, a) + j)
  {
    WordBefore(w, a - start, j, size);
    OffAdd(w, start, a - start);
    OffAdd(w, start, size);
    RevivedBit(w, inits, Off(w, a) + j);
    var p := Off(w, a - start) + j;
    assert r[p] == C.BitAt(w, inits, Off(w, start) + p);
  }

  /** Every bit position in the memory is a bit of one of its words. */
  lemma {:induction false} PositionOf(w: nat, start: int, size: nat, pos: int) returns (a: int, j: nat)
    requires w > 0 && Off(w, start) <= pos < Off(w, start + size)
    ensures start <= a < start + size && j < w && pos == Off(w, a) + j
  {
    a, j := pos / w, pos % w;
    assert pos == Off(w, a) + j;
    OffAdd(w, start, a - start);
    OffAdd(w, start, size);
    WordBefore(w, a - start, j, size);
  }

  /** The memory built from the initialisers agrees with `get_init_data` exactly when no removed initialiser shows. */
  lemma {:induction false} ContentsAgree(m: M.Memory, w: nat, inits: seq<C.Init>, start: int, size: nat, r: Const)
    requires m.Valid() && C.AllOk(w, inits) && C.AllOk(w, Revived(inits)) && Holds(m, w, Revived(inits))
    requires |r| == Off(w, size) && IsInitData(w, inits, start, r)
    ensures SameInitial(m, w, start, size, r) <==> NoneShows(w, inits, start, size)
  {
    forall a, j | start <= a < start + size && 0 <= j < w
      ensures HoldsBit(m, w, Revived(inits), a, j)
              && (SameBit(m, w, start, r, a, j) <==> Clear(w, inits, Off(w, a) + j))
      ensures Off(w, start) <= Off(w, a) + j < Off(w, start + size)
    {
      assert HoldsBit(m, w, Revived(inits), a, j);
      BitAgrees(m, w, inits, start, size, r, a, j);
    }
    if SameInitial(m, w, start, size, r) {
      forall pos | Off(w, start) <= pos < Off(w, start + size) ensures Clear(w, inits, pos) {
        var a, j := PositionOf(w, start, size, pos);
        assert SameBit(m, w, start, r, a, j);
      }
    }
  }

  /** In particular when nothing is removed. */
  lemma {:induction false} NoneRemoved(w: nat, inits: seq<C.Init>, start: int, size: nat)
    requires C.AllOk(w, inits) && C.AllOk(w, Revived(inits)) && forall i :: 0 <= i < |inits| ==> !inits[i].removed
    ensures NoneShows(w, inits, start, size)
  {
  }

  /** A single removed initialiser shows wherever it sets a bit that is not `x`. */
  lemma {:induction false} RemovedAlone(w: nat, init: C.Init, pos: int)
    requires w > 0 && C.InitOk(w, init) && init.removed && C.Hits(w, init.(removed := false), pos)
    requires init.data[pos - Off(w, init.addr)] != Sx
    ensures C.AllOk(w, [init]) && C.AllOk(w, Revived([init])) && RemovedShows(w, [init], 0, pos)
  {
    assert [init][..0] == [];
  }
}
