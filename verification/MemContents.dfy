/** `MemContents` of `kernel/mem.cc`: a sparse memory kept as sorted ranges that neither
    overlap nor touch, each storing the concatenation of its words. */
module MemContents {
  import opened Bits
  import opened Collections

  const ADDR_MODULUS := 0x1_0000_0000

  /** One element of the `std::map` from start address to concatenated words. */
  datatype Range = Range(base: nat, data: Const)

  datatype Option<T> = None | Some(value: T)

  // ----- Ranges

  function Size(dw: nat, r: Range): nat
    requires dw > 0
  {
    |r.data| / dw
  }

  function End(dw: nat, r: Range): nat
    requires dw > 0
  {
    r.base + Size(dw, r)
  }

  predicate RangeOk(dw: nat, limit: nat, r: Range)
    requires dw > 0
  {
    |r.data| > 0 && |r.data| % dw == 0 && End(dw, r) <= limit
  }

  predicate Contains(dw: nat, r: Range, addr: int)
    requires dw > 0
  {
    r.base <= addr < End(dw, r)
  }

  /** The representation invariant of `_values`: nonempty aligned ranges, in order, with gaps. */
  ghost predicate WellFormed(dw: nat, limit: nat, vs: seq<Range>) {
    && dw > 0
    && (forall i :: 0 <= i < |vs| ==> RangeOk(dw, limit, vs[i]))
    && forall i, j :: 0 <= i < j < |vs| ==> End(dw, vs[i]) < vs[j].base
  }

  lemma {:induction false} DataSize(dw: nat, r: Range)
    requires dw > 0 && |r.data| % dw == 0
    ensures |r.data| == Off(dw, Size(dw, r))
  {
  }

  /** Data of a whole number of words has that many words. */
  lemma {:induction false} SizeOf(dw: nat, r: Range, n: nat)
    requires dw > 0 && |r.data| == Off(dw, n)
    ensures Size(dw, r) == n && |r.data| % dw == 0
    ensures n > 0 ==> |r.data| > 0
  {
    DivModUnique(|r.data|, dw, n, 0);
    if n > 0 {
      ProductAtLeast(n, dw);
    }
  }

  predicate HasWord(dw: nat, r: Range, addr: int) {
    r.base <= addr && 0 <= Off(dw, addr - r.base) <= Off(dw, addr - r.base) + dw <= |r.data|
  }

  function Word(dw: nat, r: Range, addr: int): Const
    requires HasWord(dw, r, addr)
  {
    r.data[Off(dw, addr - r.base)..Off(dw, addr - r.base) + dw]
  }

  lemma {:induction false} WordExists(dw: nat, r: Range, addr: int)
    requires dw > 0 && |r.data| % dw == 0
    ensures Contains(dw, r, addr) <==> HasWord(dw, r, addr)
  {
    DataSize(dw, r);
    var n := addr - r.base;
    OffAdd(dw, n, 1);
    if n >= 0 {
      OffMono(dw, 0, n);
    }
    if n + 1 <= Size(dw, r) {
      OffMono(dw, n + 1, Size(dw, r));
    } else {
      OffMono(dw, Size(dw, r), n);
    }
  }

  // ----- The abstract value: a partial map from address to word

  ghost function Get(dw: nat, vs: seq<Range>, addr: int): Option<Const>
    requires dw > 0
  {
    if vs == [] then None
    else if HasWord(dw, vs[0], addr) then Some(Word(dw, vs[0], addr))
    else Get(dw, vs[1..], addr)
  }

  lemma {:induction false} GetConcat(dw: nat, a: seq<Range>, b: seq<Range>, addr: int)
    requires dw > 0
    ensures Get(dw, a + b, addr) == if Get(dw, a, addr).Some? then Get(dw, a, addr) else Get(dw, b, addr)
  {
    if a == [] {
      assert a + b == b;
    } else {
      assert (a + b)[1..] == a[1..] + b;
      GetConcat(dw, a[1..], b, addr);
    }
  }

  lemma {:induction false} GetNone(dw: nat, vs: seq<Range>, addr: int)
    requires dw > 0 && forall i :: 0 <= i < |vs| ==> !HasWord(dw, vs[i], addr)
    ensures Get(dw, vs, addr) == None
  {
    if vs != [] {
      GetNone(dw, vs[1..], addr);
    }
  }

  lemma {:induction false} GetOne(dw: nat, r: Range, addr: int)
    requires dw > 0
    ensures Get(dw, [r], addr) == if HasWord(dw, r, addr) then Some(Word(dw, r, addr)) else None
  {
    assert [r][1..] == [];
  }

  /** In a well-formed memory the range that contains an address decides its word. */
  lemma {:induction false} GetAt(dw: nat, limit: nat, vs: seq<Range>, i: int, addr: int)
    requires WellFormed(dw, limit, vs) && 0 <= i < |vs| && Contains(dw, vs[i], addr)
    ensures HasWord(dw, vs[i], addr) && Get(dw, vs, addr) == Some(Word(dw, vs[i], addr))
  {
    WordExists(dw, vs[i], addr);
    assert vs == vs[..i] + ([vs[i]] + vs[i + 1..]);
    GetConcat(dw, vs[..i], [vs[i]] + vs[i + 1..], addr);
    GetConcat(dw, [vs[i]], vs[i + 1..], addr);
    GetOne(dw, vs[i], addr);
    forall j | 0 <= j < i ensures !HasWord(dw, vs[..i][j], addr) {
      WordExists(dw, vs[j], addr);
    }
    GetNone(dw, vs[..i], addr);
  }

  lemma {:induction false} GetOutside(dw: nat, limit: nat, vs: seq<Range>, addr: int)
    requires WellFormed(dw, limit, vs) && forall i :: 0 <= i < |vs| ==> !Contains(dw, vs[i], addr)
    ensures Get(dw, vs, addr) == None
  {
    forall i | 0 <= i < |vs| ensures !HasWord(dw, vs[i], addr) {
      WordExists(dw, vs[i], addr);
    }
    GetNone(dw, vs, addr);
  }

  // ----- Replacing a run of ranges

  function Splice(vs: seq<Range>, lo: nat, hi: nat, mid: seq<Range>): seq<Range>
    requires lo <= hi <= |vs|
  {
    vs[..lo] + mid + vs[hi..]
  }

  lemma {:induction false} SpliceGet(dw: nat, vs: seq<Range>, lo: nat, hi: nat, mid: seq<Range>, addr: int)
    requires dw > 0 && lo <= hi <= |vs|
    requires Get(dw, mid, addr) == Get(dw, vs[lo..hi], addr)
    ensures Get(dw, Splice(vs, lo, hi, mid), addr) == Get(dw, vs, addr)
  {
    assert vs == vs[..lo] + vs[lo..hi] + vs[hi..];
    GetConcat(dw, vs[..lo] + vs[lo..hi], vs[hi..], addr);
    GetConcat(dw, vs[..lo], vs[lo..hi], addr);
    GetConcat(dw, vs[..lo] + mid, vs[hi..], addr);
    GetConcat(dw, vs[..lo], mid, addr);
  }

  lemma {:induction false} SpliceWellFormed(dw: nat, limit: nat, vs: seq<Range>, lo: nat, hi: nat, mid: seq<Range>)
    requires WellFormed(dw, limit, vs) && WellFormed(dw, limit, mid) && lo <= hi <= |vs|
    requires forall i, j :: 0 <= i < lo && 0 <= j < |mid| ==> End(dw, vs[i]) < mid[j].base
    requires forall i, j :: hi <= i < |vs| && 0 <= j < |mid| ==> End(dw, mid[j]) < vs[i].base
    ensures WellFormed(dw, limit, Splice(vs, lo, hi, mid))
  {
    var s := Splice(vs, lo, hi, mid);
    var up := hi - lo - |mid|;
    assert forall i :: 0 <= i < |s| ==>
      s[i] == if i < lo then vs[i] else if i < lo + |mid| then mid[i - lo] else vs[i + up];
  }

  // ----- Finding ranges

  /** The key of a range in the ordered map. */
  function Base(r: Range): int {
    r.base
  }

  /** Subtraction of two `uint32_t` addresses. */
  function Sub32(a: int, b: int): int {
    (a - b) % ADDR_MODULUS
  }

  /** `_range_contains` for one address: one unsigned comparison. */
  predicate RangeContains(dw: nat, vs: seq<Range>, it: nat, addr: int)
    requires dw > 0
  {
    it < |vs| && Sub32(addr, vs[it].base) < Size(dw, vs[it])
  }

  /** `_range_contains` for a half-open interval. */
  predicate RangeContainsAll(dw: nat, vs: seq<Range>, it: nat, begin: int, end: int)
    requires dw > 0
  {
    it < |vs| && vs[it].base <= begin && Sub32(end, vs[it].base) <= Size(dw, vs[it])
  }

  predicate RangeOverlaps(dw: nat, vs: seq<Range>, it: nat, begin: int, end: int)
    requires dw > 0
  {
    it < |vs| && begin < end && !(End(dw, vs[it]) - 1 < begin || end - 1 < vs[it].base)
  }

  /** The wrap-around of the unsigned subtraction does no harm below 2^31. */
  lemma {:induction false} UnsignedContains(dw: nat, limit: nat, vs: seq<Range>, it: nat, addr: int)
    requires WellFormed(dw, limit, vs) && 0 <= addr <= limit && 2 * limit <= ADDR_MODULUS
    ensures RangeContains(dw, vs, it, addr) <==> it < |vs| && Contains(dw, vs[it], addr)
  {
    if it < |vs| {
      assert RangeOk(dw, limit, vs[it]);
      var d := addr - vs[it].base;
      if d < 0 {
        assert d % ADDR_MODULUS == d + ADDR_MODULUS;
      }
    }
  }

  lemma {:induction false} UnsignedContainsAll(dw: nat, limit: nat, vs: seq<Range>, it: nat, begin: int, end: int)
    requires WellFormed(dw, limit, vs) && 0 <= begin <= end <= limit && 2 * limit <= ADDR_MODULUS
    ensures RangeContainsAll(dw, vs, it, begin, end) <==> it < |vs| && vs[it].base <= begin && end <= End(dw, vs[it])
  {
    if it < |vs| {
      assert RangeOk(dw, limit, vs[it]);
    }
  }

  /** `_range_at`: the range containing `addr`, or else the first one past it. */
  function RangeAt(dw: nat, limit: nat, vs: seq<Range>, addr: int): (i: nat)
    requires WellFormed(dw, limit, vs) && 0 <= addr <= limit && 2 * limit <= ADDR_MODULUS
    ensures i <= |vs|
    ensures forall j :: 0 <= j < i ==> End(dw, vs[j]) <= addr
    ensures forall j :: i <= j < |vs| ==> addr < End(dw, vs[j])
  {
    var it := UpperBound(vs, Base, addr);
    if it == 0 then it
    else
      UnsignedContains(dw, limit, vs, it - 1, addr);
      if RangeContains(dw, vs, it - 1, addr) then it - 1 else it
  }

  // ----- Cutting and growing ranges

  function Cut(dw: nat, r: Range, to: int): Range
    requires 0 <= Off(dw, to - r.base) <= |r.data|
  {
    Range(r.base, r.data[..Off(dw, to - r.base)])
  }

  function Tail(dw: nat, r: Range, from: nat): Range
    requires 0 <= Off(dw, from - r.base) <= |r.data|
  {
    Range(from, r.data[Off(dw, from - r.base)..])
  }

  lemma {:induction false} OffInside(dw: nat, r: Range, at: int)
    requires dw > 0 && |r.data| % dw == 0 && r.base <= at <= End(dw, r)
    ensures 0 <= Off(dw, at - r.base) <= |r.data|
  {
    DataSize(dw, r);
    OffMono(dw, 0, at - r.base);
    OffMono(dw, at - r.base, Size(dw, r));
  }

  lemma {:induction false} CutOk(dw: nat, limit: nat, r: Range, to: int)
    requires dw > 0 && RangeOk(dw, limit, r) && r.base < to <= End(dw, r)
    ensures 0 <= Off(dw, to - r.base) <= |r.data|
    ensures var c := Cut(dw, r, to); RangeOk(dw, limit, c) && End(dw, c) == to
    ensures forall addr :: r.base <= addr < to ==>
      HasWord(dw, Cut(dw, r, to), addr) && HasWord(dw, r, addr) && Word(dw, Cut(dw, r, to), addr) == Word(dw, r, addr)
  {
    OffInside(dw, r, to);
    var c := Cut(dw, r, to);
    SizeOf(dw, c, to - r.base);
    forall addr | r.base <= addr < to
      ensures HasWord(dw, c, addr) && HasWord(dw, r, addr) && Word(dw, c, addr) == Word(dw, r, addr)
    {
      WordExists(dw, c, addr);
      WordExists(dw, r, addr);
    }
  }

  lemma {:induction false} TailOk(dw: nat, limit: nat, r: Range, from: nat)
    requires dw > 0 && RangeOk(dw, limit, r) && r.base <= from < End(dw, r)
    ensures 0 <= Off(dw, from - r.base) <= |r.data|
    ensures var c := Tail(dw, r, from); RangeOk(dw, limit, c) && End(dw, c) == End(dw, r)
    ensures forall addr :: from <= addr < End(dw, r) ==>
      HasWord(dw, Tail(dw, r, from), addr) && HasWord(dw, r, addr)
          && Word(dw, Tail(dw, r, from), addr) == Word(dw, r, addr)
  {
    OffInside(dw, r, from);
    DataSize(dw, r);
    var c := Tail(dw, r, from);
    var n := from - r.base;
    OffAdd(dw, n, Size(dw, r) - n);
    SizeOf(dw, c, Size(dw, r) - n);
    forall addr | from <= addr < End(dw, r)
      ensures HasWord(dw, c, addr) && HasWord(dw, r, addr) && Word(dw, c, addr) == Word(dw, r, addr)
    {
      WordExists(dw, c, addr);
      WordExists(dw, r, addr);
      OffAdd(dw, n, addr - from);
    }
  }

  /** What a run of ranges holds, read off the range that contains the address. */
  lemma {:induction false} RunGet(dw: nat, limit: nat, vs: seq<Range>, lo: nat, hi: nat, i: int, addr: int)
    requires WellFormed(dw, limit, vs) && lo <= i < hi <= |vs| && Contains(dw, vs[i], addr)
    ensures HasWord(dw, vs[i], addr) && Get(dw, vs[lo..hi], addr) == Some(Word(dw, vs[i], addr))
  {
    assert vs[lo..hi][i - lo] == vs[i];
    GetAt(dw, limit, vs[lo..hi], i - lo, addr);
  }

  lemma {:induction false} RunGetNone(dw: nat, limit: nat, vs: seq<Range>, lo: nat, hi: nat, addr: int)
    requires WellFormed(dw, limit, vs) && lo <= hi <= |vs|
    requires forall i :: lo <= i < hi ==> !Contains(dw, vs[i], addr)
    ensures Get(dw, vs[lo..hi], addr) == None
  {
    GetOutside(dw, limit, vs[lo..hi], addr);
  }

  // ----- Clearing

  /** What `clear_range` puts in place of the ranges it affects: the part of the first one
      before `begin` and the part of the last one from `end` on, where there are any. */
  function ClearedRun(dw: nat, limit: nat, vs: seq<Range>, lo: nat, hi: nat, begin: nat, end: nat): (mid: seq<Range>)
    requires WellFormed(dw, limit, vs) && lo < hi <= |vs| && begin < end
    requires begin < End(dw, vs[lo]) && vs[hi - 1].base < end
  {
    assert RangeOk(dw, limit, vs[lo]) && RangeOk(dw, limit, vs[hi - 1]);
    KeptFront(dw, limit, vs[lo], begin) + KeptBack(dw, limit, vs[hi - 1], end)
  }

  function KeptFront(dw: nat, limit: nat, r: Range, begin: nat): seq<Range>
    requires dw > 0 && RangeOk(dw, limit, r) && begin < End(dw, r)
  {
    if r.base < begin then OffInside(dw, r, begin); [Cut(dw, r, begin)] else []
  }

  function KeptBack(dw: nat, limit: nat, r: Range, end: nat): seq<Range>
    requires dw > 0 && RangeOk(dw, limit, r) && r.base < end
  {
    if end < End(dw, r) then OffInside(dw, r, end); [Tail(dw, r, end)] else []
  }

  lemma {:induction false} ClearedRunOk(dw: nat, limit: nat, vs: seq<Range>, lo: nat, hi: nat, begin: nat, end: nat)
    requires WellFormed(dw, limit, vs) && lo < hi <= |vs| && begin < end
    requires begin < End(dw, vs[lo]) && vs[hi - 1].base < end
    ensures WellFormed(dw, limit, ClearedRun(dw, limit, vs, lo, hi, begin, end))
    ensures WellFormed(dw, limit, Splice(vs, lo, hi, ClearedRun(dw, limit, vs, lo, hi, begin, end)))
  {
    var first, last := vs[lo], vs[hi - 1];
    assert RangeOk(dw, limit, first) && RangeOk(dw, limit, last);
    if first.base < begin {
      CutOk(dw, limit, first, begin);
    }
    if end < End(dw, last) {
      TailOk(dw, limit, last, end);
    }
    SpliceWellFormed(dw, limit, vs, lo, hi, ClearedRun(dw, limit, vs, lo, hi, begin, end));
  }

  /** Outside the cleared interval the run reads as before; inside it nothing is left. */
  lemma {:induction false} ClearedRunGet(dw: nat, limit: nat, vs: seq<Range>, lo: nat, hi: nat, begin: nat, end: nat,
                                         addr: int)
    requires WellFormed(dw, limit, vs) && lo < hi <= |vs| && begin < end
    requires begin < End(dw, vs[lo]) && vs[hi - 1].base < end
    ensures Get(dw, ClearedRun(dw, limit, vs, lo, hi, begin, end), addr)
            == if begin <= addr < end then None else Get(dw, vs[lo..hi], addr)
  {
    ClearedRunOk(dw, limit, vs, lo, hi, begin, end);
    var mid := ClearedRun(dw, limit, vs, lo, hi, begin, end);
    var first, last := vs[lo], vs[hi - 1];
    assert RangeOk(dw, limit, first) && RangeOk(dw, limit, last);
    if first.base < begin {
      CutOk(dw, limit, first, begin);
    }
    if end < End(dw, last) {
      TailOk(dw, limit, last, end);
    }
    if first.base <= addr < begin {
      RunGet(dw, limit, vs, lo, hi, lo, addr);
      GetAt(dw, limit, mid, 0, addr);
    } else if end <= addr < End(dw, last) {
      RunGet(dw, limit, vs, lo, hi, hi - 1, addr);
      GetAt(dw, limit, mid, |mid| - 1, addr);
    } else {
      GetOutside(dw, limit, mid, addr);
      if addr < begin || addr >= end {
        RunGetNone(dw, limit, vs, lo, hi, addr);
      }
    }
  }

  lemma {:induction false} ClearedGet(dw: nat, limit: nat, vs: seq<Range>, lo: nat, hi: nat, begin: nat, end: nat,
                                      addr: int)
    requires WellFormed(dw, limit, vs) && lo < hi <= |vs| && begin < end
    requires begin < End(dw, vs[lo]) && vs[hi - 1].base < end
    requires (forall j :: 0 <= j < lo ==> End(dw, vs[j]) <= begin) && (forall j :: hi <= j < |vs| ==> end <= vs[j].base)
    ensures Get(dw, Splice(vs, lo, hi, ClearedRun(dw, limit, vs, lo, hi, begin, end)), addr)
            == if begin <= addr < end then None else Get(dw, vs, addr)
  {
    var mid := ClearedRun(dw, limit, vs, lo, hi, begin, end);
    ClearedRunGet(dw, limit, vs, lo, hi, begin, end, addr);
    if begin <= addr < end {
      GetConcat(dw, vs[..lo] + mid, vs[hi..], addr);
      GetConcat(dw, vs[..lo], mid, addr);
      RunGetNone(dw, limit, vs, 0, lo, addr);
      RunGetNone(dw, limit, vs, hi, |vs|, addr);
      assert vs[0..lo] == vs[..lo] && vs[hi..|vs|] == vs[hi..];
    } else {
      SpliceGet(dw, vs, lo, hi, mid, addr);
    }
  }

  // ----- Reserving

  function Resize(data: Const, n: nat): Const {
    if n <= |data| then data[..n] else data + seq(n - |data|, _ => Sx)
  }

  /** `r` can replace the run `lo..hi` for a reservation of `begin..end`: it covers the interval,
      and outside it holds what the run held, coming from at most two touching ranges. */
  ghost predicate Covers(dw: nat, limit: nat, vs: seq<Range>, lo: nat, hi: nat, r: Range, begin: int, end: int)
    requires WellFormed(dw, limit, vs) && lo <= hi <= |vs|
  {
    && RangeOk(dw, limit, r) && r.base <= begin < end <= End(dw, r)
    && (forall j :: 0 <= j < lo ==> End(dw, vs[j]) < r.base)
    && (forall j :: hi <= j < |vs| ==> End(dw, r) < vs[j].base)
    && forall addr :: !(begin <= addr < end) ==> SameOutside(dw, vs, lo, hi, r, addr)
  }

  ghost predicate SameOutside(dw: nat, vs: seq<Range>, lo: nat, hi: nat, r: Range, addr: int)
    requires dw > 0 && lo <= hi <= |vs|
  {
    if HasWord(dw, r, addr) then
      exists i :: lo <= i < hi && Contains(dw, vs[i], addr) && HasWord(dw, vs[i], addr)
          && Word(dw, vs[i], addr) == Word(dw, r, addr)
    else forall i :: lo <= i < hi ==> !Contains(dw, vs[i], addr)
  }

  lemma {:induction false} CoversGet(dw: nat, limit: nat, vs: seq<Range>, lo: nat, hi: nat, r: Range, begin: int,
                                     end: int, addr: int)
    requires WellFormed(dw, limit, vs) && lo <= hi <= |vs| && Covers(dw, limit, vs, lo, hi, r, begin, end)
    ensures WellFormed(dw, limit, Splice(vs, lo, hi, [r]))
    ensures !(begin <= addr < end) ==> Get(dw, Splice(vs, lo, hi, [r]), addr) == Get(dw, vs, addr)
  {
    SpliceWellFormed(dw, limit, vs, lo, hi, [r]);
    if !(begin <= addr < end) {
      assert SameOutside(dw, vs, lo, hi, r, addr);
      GetOne(dw, r, addr);
      if HasWord(dw, r, addr) {
        var i :| lo <= i < hi && Contains(dw, vs[i], addr) && HasWord(dw, vs[i], addr)
            && Word(dw, vs[i], addr) == Word(dw, r, addr);
        RunGet(dw, limit, vs, lo, hi, i, addr);
      } else {
        RunGetNone(dw, limit, vs, lo, hi, addr);
      }
      SpliceGet(dw, vs, lo, hi, [r], addr);
    }
  }

  /** A new range of undefined words, when neither neighbour touches the interval. */
  lemma {:induction false} FreshCovers(dw: nat, limit: nat, vs: seq<Range>, lo: nat, hi: nat, begin: nat, end: nat)
    requires WellFormed(dw, limit, vs) && lo <= hi <= |vs| && begin < end <= limit
    requires forall j :: 0 <= j < lo ==> End(dw, vs[j]) < begin
    requires forall j :: lo <= j < hi ==> begin <= vs[j].base && End(dw, vs[j]) <= end
    requires forall j :: hi <= j < |vs| ==> end < vs[j].base
    ensures Off(dw, end - begin) >= 0
    ensures Covers(dw, limit, vs, lo, hi, Range(begin, seq(Off(dw, end - begin), _ => Sx)), begin, end)
  {
    OffMono(dw, 0, end - begin);
    var r := Range(begin, seq(Off(dw, end - begin), _ => Sx));
    SizeOf(dw, r, end - begin);
    forall addr | !(begin <= addr < end) ensures SameOutside(dw, vs, lo, hi, r, addr) {
      WordExists(dw, r, addr);
    }
  }

  /** The range to the left of the interval, grown to its end. */
  lemma {:induction false} GrownCovers(dw: nat, limit: nat, vs: seq<Range>, lo: nat, hi: nat, begin: nat, end: nat)
    requires WellFormed(dw, limit, vs) && lo < hi <= |vs| && begin < end <= limit
    requires vs[lo].base <= begin <= End(dw, vs[lo]) < end
    requires forall j :: lo < j < hi ==> End(dw, vs[j]) <= end
    requires forall j :: hi <= j < |vs| ==> end < vs[j].base
    ensures Off(dw, end - vs[lo].base) >= 0
    ensures Covers(dw, limit, vs, lo, hi, Range(vs[lo].base, Resize(vs[lo].data, Off(dw, end - vs[lo].base))), begin,
            end)
  {
    var l := vs[lo];
    assert RangeOk(dw, limit, l);
    DataSize(dw, l);
    OffMono(dw, Size(dw, l), end - l.base);
    var r := Range(l.base, Resize(l.data, Off(dw, end - l.base)));
    SizeOf(dw, r, end - l.base);
    forall addr | !(begin <= addr < end) ensures SameOutside(dw, vs, lo, hi, r, addr) {
      WordExists(dw, r, addr);
      LeftPart(dw, limit, vs, lo, hi, r, addr, begin);
    }
  }

  /** Below the interval, a range that starts with the left neighbour's data reads like it. */
  lemma {:induction false} LeftPart(dw: nat, limit: nat, vs: seq<Range>, lo: nat, hi: nat, r: Range, addr: int,
                                    begin: int)
    requires WellFormed(dw, limit, vs) && lo < hi <= |vs|
    requires r.base == vs[lo].base && vs[lo].data[..] <= r.data && |r.data| % dw == 0
    requires begin <= End(dw, vs[lo])
    ensures addr < begin ==> SameOutside(dw, vs, lo, hi, r, addr)
  {
    WordExists(dw, r, addr);
    WordExists(dw, vs[lo], addr);
    assert RangeOk(dw, limit, vs[lo]);
    if addr < begin && vs[lo].base <= addr {
      assert Word(dw, r, addr) == Word(dw, vs[lo], addr);
    }
  }

  /** Words past a common suffix point agree. */
  lemma {:induction false} SuffixWord(dw: nat, r: Range, u: Range, end: int, addr: int)
    requires r.base <= end <= addr && u.base <= end && HasWord(dw, r, addr) && HasWord(dw, u, addr)
    requires SameSuffix(dw, r, u, end)
    ensures Word(dw, r, addr) == Word(dw, u, addr)
  {
    var p, q, o := Off(dw, end - r.base), Off(dw, end - u.base), Off(dw, addr - end);
    OffAdd(dw, end - r.base, addr - end);
    OffAdd(dw, end - u.base, addr - end);
    OffMono(dw, 0, addr - end);
    assert r.data[p..][o..o + dw] == r.data[p + o..p + o + dw];
    assert u.data[q..][o..o + dw] == u.data[q + o..q + o + dw];
  }

  predicate SameSuffix(dw: nat, r: Range, u: Range, end: int) {
    && 0 <= Off(dw, end - r.base) <= |r.data| && 0 <= Off(dw, end - u.base) <= |u.data|
    && r.data[Off(dw, end - r.base)..] == u.data[Off(dw, end - u.base)..]
  }

  /** From the end of the interval on, a range that ends with the right neighbour's data reads like it. */
  lemma {:induction false} RightPart(dw: nat, limit: nat, vs: seq<Range>, lo: nat, hi: nat, r: Range, addr: int,
                                     end: int)
    requires WellFormed(dw, limit, vs) && lo < hi <= |vs| && |r.data| % dw == 0
    requires r.base <= vs[hi - 1].base <= end && End(dw, r) == End(dw, vs[hi - 1])
    requires SameSuffix(dw, r, vs[hi - 1], end)
    ensures addr >= end ==> SameOutside(dw, vs, lo, hi, r, addr)
  {
    var u := vs[hi - 1];
    assert RangeOk(dw, limit, u);
    WordExists(dw, r, addr);
    WordExists(dw, u, addr);
    if end <= addr < End(dw, u) {
      SuffixWord(dw, r, u, end, addr);
      assert Contains(dw, vs[hi - 1], addr);
    }
  }

  function Prepended(dw: nat, u: Range, begin: nat): Range
    requires Off(dw, u.base - begin) >= 0
  {
    Range(begin, seq(Off(dw, u.base - begin), _ => Sx) + u.data)
  }

  lemma {:induction false} PrependedOk(dw: nat, limit: nat, u: Range, begin: nat, end: int)
    requires dw > 0 && RangeOk(dw, limit, u) && begin < u.base <= end < End(dw, u)
    ensures Off(dw, u.base - begin) >= 0
    ensures var r := Prepended(dw, u, begin);
            RangeOk(dw, limit, r) && End(dw, r) == End(dw, u) && SameSuffix(dw, r, u, end)
  {
    var n := u.base - begin;
    OffMono(dw, 0, n);
    DataSize(dw, u);
    OffAdd(dw, n, Size(dw, u));
    var r := Prepended(dw, u, begin);
    SizeOf(dw, r, n + Size(dw, u));
    OffInside(dw, r, end);
    OffInside(dw, u, end);
    OffAdd(dw, n, end - u.base);
  }

  /** The range to the right of the interval, extended down to its start. */
  lemma {:induction false} PrependedCovers(dw: nat, limit: nat, vs: seq<Range>, lo: nat, hi: nat, begin: nat, end: nat)
    requires WellFormed(dw, limit, vs) && lo < hi <= |vs| && begin < end <= limit
    requires forall j :: 0 <= j < lo ==> End(dw, vs[j]) < begin
    requires forall j :: lo <= j < hi ==> begin <= vs[j].base
    requires begin < vs[hi - 1].base <= end < End(dw, vs[hi - 1])
    ensures Off(dw, vs[hi - 1].base - begin) >= 0
    ensures Covers(dw, limit, vs, lo, hi, Prepended(dw, vs[hi - 1], begin), begin, end)
  {
    assert RangeOk(dw, limit, vs[hi - 1]);
    PrependedOk(dw, limit, vs[hi - 1], begin, end);
    var r := Prepended(dw, vs[hi - 1], begin);
    forall addr | !(begin <= addr < end) ensures SameOutside(dw, vs, lo, hi, r, addr) {
      WordExists(dw, r, addr);
      RightPart(dw, limit, vs, lo, hi, r, addr, end);
    }
  }

  /** Left neighbour, room for the interval, and the right neighbour's data past it. */
  function Bridged(dw: nat, l: Range, u: Range, end: int): Range
    requires 0 <= Off(dw, end - l.base) && 0 <= Off(dw, end - u.base) <= |u.data|
  {
    Range(l.base, Resize(l.data, Off(dw, end - l.base)) + u.data[Off(dw, end - u.base)..])
  }

  lemma {:induction false} BridgedOk(dw: nat, limit: nat, l: Range, u: Range, end: int)
    requires dw > 0 && RangeOk(dw, limit, l) && RangeOk(dw, limit, u)
    requires End(dw, l) < u.base <= end < End(dw, u)
    ensures 0 <= Off(dw, end - l.base) && 0 <= Off(dw, end - u.base) <= |u.data|
    ensures var r := Bridged(dw, l, u, end);
            && RangeOk(dw, limit, r) && End(dw, r) == End(dw, u)
            && l.data <= r.data && SameSuffix(dw, r, u, end)
  {
    OffInside(dw, u, end);
    DataSize(dw, l);
    DataSize(dw, u);
    OffMono(dw, Size(dw, l), end - l.base);
    OffAdd(dw, end - u.base, End(dw, u) - end);
    OffAdd(dw, end - l.base, End(dw, u) - end);
    var r := Bridged(dw, l, u, end);
    SizeOf(dw, r, End(dw, u) - l.base);
  }

  lemma {:induction false} BridgedCovers(dw: nat, limit: nat, vs: seq<Range>, lo: nat, hi: nat, begin: nat, end: nat)
    requires WellFormed(dw, limit, vs) && lo < hi - 1 < |vs| && begin < end <= limit
    requires vs[lo].base <= begin <= End(dw, vs[lo])
    requires vs[hi - 1].base <= end < End(dw, vs[hi - 1])
    ensures 0 <= Off(dw, end - vs[lo].base) && 0 <= Off(dw, end - vs[hi - 1].base) <= |vs[hi - 1].data|
    ensures Covers(dw, limit, vs, lo, hi, Bridged(dw, vs[lo], vs[hi - 1], end), begin, end)
  {
    assert RangeOk(dw, limit, vs[lo]) && RangeOk(dw, limit, vs[hi - 1]);
    BridgedOk(dw, limit, vs[lo], vs[hi - 1], end);
    var r := Bridged(dw, vs[lo], vs[hi - 1], end);
    assert vs[lo].data[..] == vs[lo].data;
    forall addr | !(begin <= addr < end) ensures SameOutside(dw, vs, lo, hi, r, addr) {
      LeftPart(dw, limit, vs, lo, hi, r, addr, begin);
      RightPart(dw, limit, vs, lo, hi, r, addr, end);
    }
  }

  /** The state in which `_reserve_range` chooses what to do: no single range covers the
      interval, and `lo` and `up` are the first ranges not entirely before its two ends. */
  ghost predicate ReserveCase(dw: nat, limit: nat, vs: seq<Range>, lo: nat, up: nat,
                              lowerTouch: bool, upperTouch: bool, begin: nat, end: nat)
  {
    && WellFormed(dw, limit, vs) && begin < end <= limit && lo <= up <= |vs|
    && (forall j :: 0 <= j < lo ==> End(dw, vs[j]) < begin)
    && (forall j :: lo <= j < |vs| ==> begin <= End(dw, vs[j]))
    && (forall j :: 0 <= j < up ==> End(dw, vs[j]) <= end)
    && (forall j :: up <= j < |vs| ==> end < End(dw, vs[j]))
    && (lowerTouch <==> begin > 0 && lo < |vs| && Contains(dw, vs[lo], begin - 1))
    && (upperTouch <==> up < |vs| && Contains(dw, vs[up], end))
    && !(lo < |vs| && vs[lo].base <= begin && end <= End(dw, vs[lo]))
  }

  function WordsOf(dw: nat, n: int): nat {
    if n <= 0 then 0 else (OffMono(dw, 0, n); Off(dw, n))
  }

  /** The range that takes the place of `lo..up`, or of `lo..up+1` if the upper one touches. */
  function ReservedRange(dw: nat, limit: nat, vs: seq<Range>, lo: nat, up: nat,
                         lowerTouch: bool, upperTouch: bool, begin: nat, end: nat): Range
    requires ReserveCase(dw, limit, vs, lo, up, lowerTouch, upperTouch, begin, end)
  {
    if lowerTouch && upperTouch then
      BridgedCovers(dw, limit, vs, lo, up + 1, begin, end);
      Bridged(dw, vs[lo], vs[up], end)
    else if lowerTouch then Range(vs[lo].base, Resize(vs[lo].data, WordsOf(dw, end - vs[lo].base)))
    else if upperTouch then
      PrependedCovers(dw, limit, vs, lo, up + 1, begin, end);
      Prepended(dw, vs[up], begin)
    else Range(begin, seq(WordsOf(dw, end - begin), _ => Sx))
  }

  lemma {:induction false} ReservedCovers(dw: nat, limit: nat, vs: seq<Range>, lo: nat, up: nat,
                       lowerTouch: bool, upperTouch: bool, begin: nat, end: nat)
    requires ReserveCase(dw, limit, vs, lo, up, lowerTouch, upperTouch, begin, end)
    ensures Covers(dw, limit, vs, lo, if upperTouch then up + 1 else up,
                   ReservedRange(dw, limit, vs, lo, up, lowerTouch, upperTouch, begin, end), begin, end)
  {
    if lowerTouch && upperTouch {
      BridgedCovers(dw, limit, vs, lo, up + 1, begin, end);
    } else if lowerTouch {
      GrownCovers(dw, limit, vs, lo, up, begin, end);
    } else if upperTouch {
      PrependedCovers(dw, limit, vs, lo, up + 1, begin, end);
    } else {
      FreshCovers(dw, limit, vs, lo, up, begin, end);
    }
  }

  // ----- Inserting

  /** `n` written over the bits of `data` from `at` on. */
  function Overwrite(data: Const, at: nat, n: Const): (r: Const)
    requires at + |n| <= |data|
    ensures |r| == |data|
  {
    data[..at] + n + data[at + |n|..]
  }

  function WordCount(dw: nat, values: Const): nat
    requires dw > 0
  {
    (|values| + dw - 1) / dw
  }

  /** The inserted bits, filled up with zeros to a whole number of words. */
  function Padded(dw: nat, values: Const): (r: Const)
    requires dw > 0
    ensures |r| == Off(dw, WordCount(dw, values)) && values <= r && |r| < |values| + dw
    ensures forall i :: |values| <= i < |r| ==> r[i] == S0
  {
    RoundsUp(|values|, dw);
    values + seq(Off(dw, WordCount(dw, values)) - |values|, _ => S0)
  }

  lemma {:induction false} RoundsUp(n: nat, m: nat)
    requires m > 0
    ensures n <= Off(m, (n + m - 1) / m) < n + m
  {
    var q, r := (n + m - 1) / m, (n + m - 1) % m;
    assert n + m - 1 == q * m + r;
  }

  /** The word for address `a` in `n` words of bits that start at `addr`. */
  function WordAt(dw: nat, addr: nat, bits: Const, n: nat, a: int): Const
    requires dw > 0 && |bits| == Off(dw, n) && addr <= a < addr + n
  {
    InsertedWord(dw, addr, bits, n, a);
    Word(dw, Range(addr, bits), a)
  }

  /** Bit `j` of a word inserted for address `a`: the given bit, or zero past the end of the given bits. */
  predicate HasInserted(dw: nat, addr: nat, bits: Const, word: Const, a: int, j: nat)
    requires j < |word|
  {
    var p := Off(dw, a - addr) + j;
    word[j] == if 0 <= p < |bits| then bits[p] else S0
  }

  lemma {:induction false} PaddedWord(dw: nat, addr: nat, bits: Const, a: int)
    requires dw > 0 && addr <= a < addr + WordCount(dw, bits)
    ensures var w := WordAt(dw, addr, Padded(dw, bits), WordCount(dw, bits), a);
            |w| == dw && forall j :: 0 <= j < dw ==> HasInserted(dw, addr, bits, w, a, j)
  {
    var r := Padded(dw, bits);
    InsertedWord(dw, addr, r, WordCount(dw, bits), a);
    var w := Word(dw, Range(addr, r), a);
    forall j | 0 <= j < dw ensures HasInserted(dw, addr, bits, w, a, j) {
      assert w[j] == r[Off(dw, a - addr) + j];
    }
  }

  lemma {:induction false} OverwrittenWords(dw: nat, limit: nat, vs: seq<Range>, it: nat, addr: nat, bits: Const,
                                            n: nat)
    requires WellFormed(dw, limit, vs) && it < |vs| && |bits| == Off(dw, n)
    requires vs[it].base <= addr && addr + n <= End(dw, vs[it])
    ensures 0 <= Off(dw, addr - vs[it].base) && Off(dw, addr - vs[it].base) + |bits| <= |vs[it].data|
    ensures var r := Range(vs[it].base, Overwrite(vs[it].data, Off(dw, addr - vs[it].base), bits));
            && WellFormed(dw, limit, vs[it := r])
            && forall a :: Get(dw, vs[it := r], a) ==
                             (if addr <= a < addr + n then Some(WordAt(dw, addr, bits, n, a)) else Get(dw, vs, a))
  {
    var l := vs[it];
    assert RangeOk(dw, limit, l);
    OffInside(dw, l, addr);
    OffInside(dw, l, addr + n);
    OffAdd(dw, addr - l.base, n);
    var o := Off(dw, addr - l.base);
    var r := Range(l.base, Overwrite(l.data, o, bits));
    var vs' := vs[it := r];
    assert Size(dw, r) == Size(dw, l);
    assert WellFormed(dw, limit, vs') by {
      assert forall j :: 0 <= j < |vs'| ==> vs'[j].base == vs[j].base && End(dw, vs'[j]) == End(dw, vs[j]);
      assert forall j :: 0 <= j < |vs'| ==> RangeOk(dw, limit, vs[j]);
    }
    forall a
      ensures Get(dw, vs', a) == (if addr <= a < addr + n then Some(WordAt(dw, addr, bits, n, a)) else Get(dw, vs, a))
    {
      if j :| 0 <= j < |vs| && Contains(dw, vs[j], a) {
        assert Contains(dw, vs'[j], a);
        GetAt(dw, limit, vs, j, a);
        GetAt(dw, limit, vs', j, a);
        if j == it {
          OverwrittenWord(dw, l, addr, bits, n, a);
        } else {
          assert !(addr <= a < addr + n);
        }
      } else {
        GetOutside(dw, limit, vs, a);
        assert forall j :: 0 <= j < |vs'| ==> End(dw, vs'[j]) == End(dw, vs[j]);
        GetOutside(dw, limit, vs', a);
      }
    }
  }

  lemma {:induction false} OverwrittenWord(dw: nat, l: Range, addr: nat, bits: Const, n: nat, a: int)
    requires dw > 0 && |l.data| % dw == 0 && l.base <= addr && |bits| == Off(dw, n)
    requires 0 <= Off(dw, addr - l.base) && Off(dw, addr - l.base) + |bits| <= |l.data|
    requires HasWord(dw, l, a)
    ensures var r := Range(l.base, Overwrite(l.data, Off(dw, addr - l.base), bits));
            && HasWord(dw, r, a)
            && (addr <= a < addr + n ==> Word(dw, r, a) == WordAt(dw, addr, bits, n, a))
            && (!(addr <= a < addr + n) ==> Word(dw, r, a) == Word(dw, l, a))
  {
    var o, p := Off(dw, addr - l.base), Off(dw, a - l.base);
    OffAdd(dw, addr - l.base, a - addr);
    WordOffset(dw, a - addr, n);
    OverwriteSlice(l.data, o, bits, p, p + dw);
  }

  /** Where word `k` lies in relation to the first `n` words. */
  lemma {:induction false} WordOffset(dw: nat, k: int, n: nat)
    ensures k < 0 ==> Off(dw, k) + dw <= 0
    ensures 0 <= k < n ==> 0 <= Off(dw, k) && Off(dw, k) + dw <= Off(dw, n)
    ensures n <= k ==> Off(dw, n) <= Off(dw, k)
  {
    OffAdd(dw, k, 1);
    if k < 0 {
      OffMono(dw, k + 1, 0);
    } else if k < n {
      OffMono(dw, 0, k);
      OffMono(dw, k + 1, n);
    } else {
      OffMono(dw, n, k);
    }
  }

  lemma {:induction false} OverwriteSlice(d: Const, o: nat, bits: Const, p: nat, q: nat)
    requires o + |bits| <= |d| && p <= q <= |d|
    ensures q <= o || o + |bits| <= p ==> Overwrite(d, o, bits)[p..q] == d[p..q]
    ensures o <= p && q <= o + |bits| ==> Overwrite(d, o, bits)[p..q] == bits[p - o..q - o]
  {
  }

  /** How many addresses of the interval have a word. */
  ghost function CountDefined(dw: nat, vs: seq<Range>, begin: int, end: int): nat
    requires dw > 0
    decreases end - begin
  {
    if begin >= end then 0
    else CountDefined(dw, vs, begin, end - 1) + if Get(dw, vs, end - 1).Some? then 1 else 0
  }

  lemma {:induction false} CountStretch(dw: nat, vs: seq<Range>, begin: int, mid: int, end: int, defined: bool)
    requires dw > 0 && begin <= mid <= end
    requires forall a :: mid <= a < end ==> Get(dw, vs, a).Some? == defined
    ensures CountDefined(dw, vs, begin, end) == CountDefined(dw, vs, begin, mid) + if defined then end - mid else 0
    decreases end - mid
  {
    if mid < end {
      CountStretch(dw, vs, begin, mid, end - 1, defined);
      assert Get(dw, vs, end - 1).Some? == defined;
    }
  }

  class Memory {
    const addrWidth: nat
    const dataWidth: nat
    const defaultValue: Const
    var values: seq<Range>

    ghost predicate Valid()
      reads this
    {
      && 0 < addrWidth < 32 && |defaultValue| == dataWidth
      && WellFormed(dataWidth, Limit(), values)
    }

    function Limit(): nat {
      Pow2(addrWidth)
    }

    /** The memory as a partial map from addresses to words. */
    ghost function At(addr: int): Option<Const>
      requires dataWidth > 0
      reads this
    {
      Get(dataWidth, values, addr)
    }

    lemma {:induction false} LimitBound()
      requires 0 < addrWidth < 32
      ensures 2 * Limit() <= ADDR_MODULUS
    {
      Pow2Mono(addrWidth, 31);
      assert Pow2(7) == 0x80 && Pow2(8) == 0x100;
      Pow2Add(8, 8);
      Pow2Add(16, 8);
      Pow2Add(24, 7);
    }

    constructor (addrWidth: nat, dataWidth: nat, defaultValue: Const)
      requires 0 < addrWidth < 32 && dataWidth > 0
      ensures Valid() && this.addrWidth == addrWidth && this.dataWidth == dataWidth
      ensures this.defaultValue == Extend(defaultValue, dataWidth, false)
      ensures forall a :: At(a) == None
    {
      this.addrWidth, this.dataWidth := addrWidth, dataWidth;
      this.defaultValue := Extend(defaultValue, dataWidth, false);
      values := [];
    }

    /** `operator[]`: the stored word, or the default value. */
    method Read(addr: nat) returns (word: Const)
      requires Valid() && addr <= Limit()
      ensures word == match At(addr) case Some(w) => w case None => defaultValue
    {
      LimitBound();
      var it := RangeAt(dataWidth, Limit(), values, addr);
      UnsignedContains(dataWidth, Limit(), values, it, addr);
      if RangeContains(dataWidth, values, it, addr) {
        GetAt(dataWidth, Limit(), values, it, addr);
        word := Word(dataWidth, values[it], addr);
      } else {
        GetOutside(dataWidth, Limit(), values, addr);
        word := defaultValue;
      }
    }

    method CountRange(begin: nat, end: nat) returns (count: nat)
      requires Valid() && begin <= Limit() && end <= Limit()
      ensures count == CountDefined(dataWidth, values, begin, end)
    {
      LimitBound();
      count := 0;
      var it := RangeAt(dataWidth, Limit(), values, begin);
      if begin >= end {
        return; // no range overlaps an empty interval
      }
      ghost var done: int := begin;
      while RangeOverlaps(dataWidth, values, it, begin, end)
        invariant it <= |values| && begin <= done <= end
        invariant forall j :: 0 <= j < it ==> End(dataWidth, values[j]) <= done || done == end
        invariant done == begin || forall j :: it <= j < |values| ==> done < values[j].base
        invariant forall j :: it <= j < |values| ==> begin < End(dataWidth, values[j])
        invariant count == CountDefined(dataWidth, values, begin, done)
        decreases |values| - it
      {
        var first := Max(values[it].base, begin);
        var last := Min(End(dataWidth, values[it]), end);
        CountOne(it, begin, done, first, last);
        count := count + (last - first);
        done := last;
        it := it + 1;
      }
      CountRest(it, begin, done, end);
    }

    lemma {:induction false} CountRest(it: nat, begin: int, done: int, end: int)
      requires Valid() && it <= |values| && begin <= done <= end && begin < end
      requires forall j :: 0 <= j < it ==> End(dataWidth, values[j]) <= done || done == end
      requires forall j :: it <= j < |values| ==> begin < End(dataWidth, values[j])
      requires !RangeOverlaps(dataWidth, values, it, begin, end)
      ensures CountDefined(dataWidth, values, begin, end) == CountDefined(dataWidth, values, begin, done)
    {
      forall a | done <= a < end ensures !Get(dataWidth, values, a).Some? {
        GetOutside(dataWidth, Limit(), values, a);
      }
      CountStretch(dataWidth, values, begin, done, end, false);
    }

    /** The gap before range `it` counts nothing, its part inside the interval counts fully. */
    lemma {:induction false} CountOne(it: nat, begin: int, done: int, first: int, last: int)
      requires Valid() && it < |values| && begin <= done <= first <= last
      requires first == Max(values[it].base, begin) && last <= End(dataWidth, values[it])
      requires forall j :: 0 <= j < it ==> End(dataWidth, values[j]) <= done
      ensures CountDefined(dataWidth, values, begin, last) ==
              CountDefined(dataWidth, values, begin, done) + (last - first)
    {
      forall a | done <= a < first ensures !Get(dataWidth, values, a).Some? {
        GetOutside(dataWidth, Limit(), values, a);
      }
      CountStretch(dataWidth, values, begin, done, first, false);
      forall a | first <= a < last ensures Get(dataWidth, values, a).Some? {
        GetAt(dataWidth, Limit(), values, it, a);
      }
      CountStretch(dataWidth, values, begin, first, last, true);
    }

    /** Undefines every word of the interval and no other. */
    method ClearRange(begin: nat, end: nat)
      requires Valid() && begin <= Limit() && end <= Limit()
      modifies this
      ensures Valid()
      ensures forall a :: At(a) == if begin <= a < end then None else old(At(a))
    {
      if begin >= end {
        return;
      }
      LimitBound();
      ghost var dw, limit, vs := dataWidth, Limit(), values;
      var beginIt := RangeAt(dataWidth, Limit(), values, begin);
      var endIt := UpperBound(values, Base, end - 1);
      if beginIt == endIt {
        forall a | begin <= a < end ensures At(a) == None {
          GetOutside(dw, limit, vs, a);
        }
        return;
      }
      ClearOverlapping(beginIt, endIt, begin, end);
      ClearedRunOk(dw, limit, vs, beginIt, endIt, begin, end);
      forall a ensures At(a) == if begin <= a < end then None else Get(dw, vs, a) {
        ClearedGet(dw, limit, vs, beginIt, endIt, begin, end, a);
      }
    }

    /** The cutting and erasing done once some range is known to be affected. */
    method ClearOverlapping(lo: nat, hi: nat, begin: nat, end: nat)
      requires Valid() && lo < hi <= |values| && begin < end <= Limit()
      requires begin < End(dataWidth, values[lo]) && values[hi - 1].base < end
      modifies this
      ensures values == Splice(old(values), lo, hi, ClearedRun(dataWidth, Limit(), old(values), lo, hi, begin, end))
    {
      ghost var vs := values;
      assert RangeOk(dataWidth, Limit(), vs[lo]) && RangeOk(dataWidth, Limit(), vs[hi - 1]);
      ghost var front := KeptFront(dataWidth, Limit(), vs[lo], begin);
      ghost var back := KeptBack(dataWidth, Limit(), vs[hi - 1], end);
      SplitLast(hi, end);
      assert values[lo] == vs[lo];
      var beginIt := TruncateFirst(lo, begin);
      values := values[..beginIt] + values[hi..];
      ClearSteps(vs, lo, hi, front, back);
    }

    /** Keeps what the last affected range holds past the interval, as a range of its own. */
    method SplitLast(endIt: nat, end: nat)
      requires Valid() && 0 < endIt <= |values| && 0 < end <= Limit() && values[endIt - 1].base < end
      requires RangeOk(dataWidth, Limit(), values[endIt - 1])
      modifies this
      ensures values ==
              old(values)[..endIt] + KeptBack(dataWidth, Limit(), old(values)[endIt - 1], end) + old(values)[endIt..]
    {
      LimitBound();
      var lastIt := endIt - 1;
      UnsignedContains(dataWidth, Limit(), values, lastIt, end - 1);
      if RangeContains(dataWidth, values, lastIt, end - 1) {
        if end != End(dataWidth, values[lastIt]) {
          OffInside(dataWidth, values[lastIt], end);
          values := values[..endIt] + [Tail(dataWidth, values[lastIt], end)] + values[endIt..];
        }
      }
    }

    /** Cuts the first affected range off at the interval, if it starts before it. */
    method TruncateFirst(lo: nat, begin: nat) returns (beginIt: nat)
      requires 0 < addrWidth < 32 && dataWidth > 0 && lo < |values| && begin <= Limit()
      requires RangeOk(dataWidth, Limit(), values[lo]) && begin < End(dataWidth, values[lo])
      modifies this
      ensures var front := KeptFront(dataWidth, Limit(), old(values)[lo], begin);
              beginIt == lo + |front| && values == if front == [] then old(values) else old(values)[lo := front[0]]
    {
      LimitBound();
      beginIt := lo;
      UnsignedContains(dataWidth, Limit(), [values[lo]], 0, begin);
      assert [values[lo]][0] == values[lo];
      if RangeContains(dataWidth, values, beginIt, begin) {
        if begin != values[beginIt].base {
          OffInside(dataWidth, values[lo], begin);
          values := values[beginIt := Cut(dataWidth, values[beginIt], begin)];
          beginIt := beginIt + 1;
        }
      }
    }

    /** `_reserve_range`: one range that covers the interval, merged with any that touch it.
        Words outside the interval keep their value; words inside are defined with any value. */
    method ReserveRange(begin: nat, end: nat) returns (it: nat)
      requires Valid() && begin <= Limit() && end <= Limit()
      modifies this
      ensures Valid()
      ensures forall a :: !(begin <= a < end) ==> At(a) == old(At(a))
      ensures begin < end ==> it < |values| && values[it].base <= begin && end <= End(dataWidth, values[it])
      ensures begin >= end ==> it == |values| && values == old(values)
    {
      if begin >= end {
        return |values|;
      }
      LimitBound();
      ghost var vs := values;
      var lowerIt := if begin == 0 then 0 else RangeAt(dataWidth, Limit(), values, begin - 1);
      UnsignedContainsAll(dataWidth, Limit(), vs, lowerIt, begin, end);
      if RangeContainsAll(dataWidth, values, lowerIt, begin, end) {
        return lowerIt;
      }
      MergeRange(lowerIt, begin, end);
      it := lowerIt;
    }

    /** One range for the interval, with what it touches on either side. */
    method MergeRange(lowerIt: nat, begin: nat, end: nat)
      requires Valid() && begin < end <= Limit() && 2 * Limit() <= ADDR_MODULUS && lowerIt <= |values|
      requires forall j :: 0 <= j < lowerIt ==> End(dataWidth, values[j]) < begin
      requires forall j :: lowerIt <= j < |values| ==> begin <= End(dataWidth, values[j])
      requires !(lowerIt < |values| && values[lowerIt].base <= begin && end <= End(dataWidth, values[lowerIt]))
      modifies this
      ensures Valid() && forall a :: !(begin <= a < end) ==> At(a) == old(At(a))
      ensures lowerIt < |values| && values[lowerIt].base <= begin && end <= End(dataWidth, values[lowerIt])
    {
      ghost var vs := values;
      var upperIt := RangeAt(dataWidth, Limit(), values, end);
      var lowerTouch := begin > 0 && RangeContains(dataWidth, values, lowerIt, begin - 1);
      var upperTouch := RangeContains(dataWidth, values, upperIt, end);
      if begin > 0 {
        UnsignedContains(dataWidth, Limit(), vs, lowerIt, begin - 1);
      }
      UnsignedContains(dataWidth, Limit(), vs, upperIt, end);
      assert lowerIt <= upperIt;
      InstallRange(lowerIt, upperIt, lowerTouch, upperTouch, begin, end);
    }

    method InstallRange(lowerIt: nat, upperIt: nat, lowerTouch: bool, upperTouch: bool, begin: nat, end: nat)
      requires Valid() && ReserveCase(dataWidth, Limit(), values, lowerIt, upperIt, lowerTouch, upperTouch, begin, end)
      modifies this
      ensures Valid() && forall a :: !(begin <= a < end) ==> At(a) == old(At(a))
      ensures lowerIt < |values| && values[lowerIt].base <= begin && end <= End(dataWidth, values[lowerIt])
    {
      ghost var vs := values;
      var hi := if upperTouch then upperIt + 1 else upperIt;
      var r := ReservedRange(dataWidth, Limit(), values, lowerIt, upperIt, lowerTouch, upperTouch, begin, end);
      ReservedCovers(dataWidth, Limit(), vs, lowerIt, upperIt, lowerTouch, upperTouch, begin, end);
      values := values[..lowerIt] + [r] + values[hi..];
      forall a ensures !(begin <= a < end) ==> At(a) == Get(dataWidth, vs, a) {
        CoversGet(dataWidth, Limit(), vs, lowerIt, hi, r, begin, end, a);
      }
      CoversGet(dataWidth, Limit(), vs, lowerIt, hi, r, begin, end, begin);
    }

    /** Writes the words of `bits`, zero-filled to a whole word, from `addr` on. The source
        dereferences the end iterator if there is no word to write. */
    method InsertConcatenated(addr: nat, bits: Const)
      requires Valid() && |bits| > 0 && addr < Limit() && WordCount(dataWidth, bits) <= Limit() - addr
      modifies this
      ensures Valid()
      ensures forall a :: At(a) == (if addr <= a < addr + WordCount(dataWidth, bits)
                                    then Some(
                                        WordAt(dataWidth, addr, Padded(dataWidth, bits), WordCount(dataWidth, bits), a))
                                    else old(At(a)))
      ensures forall a :: addr <= a < addr + WordCount(dataWidth, bits) ==>
                At(a).Some? && |At(a).value| == dataWidth
                && forall j :: 0 <= j < dataWidth ==> HasInserted(dataWidth, addr, bits, At(a).value, a, j)
    {
      forall a | addr <= a < addr + WordCount(dataWidth, bits)
        ensures var w := WordAt(dataWidth, addr, Padded(dataWidth, bits), WordCount(dataWidth, bits), a);
                |w| == dataWidth && forall j :: 0 <= j < dataWidth ==> HasInserted(dataWidth, addr, bits, w, a, j)
      {
        PaddedWord(dataWidth, addr, bits, a);
      }
      var words := WordCount(dataWidth, bits);
      assert words > 0 by {
        RoundsUp(|bits|, dataWidth);
        assert Off(dataWidth, 0) == 0;
      }
      var it := ReserveRange(addr, addr + words);
      var base := values[it].base;
      OverwrittenWords(dataWidth, Limit(), values, it, addr, Padded(dataWidth, bits), words);
      values :=
          values[it := Range(base, Overwrite(values[it].data, Off(dataWidth, addr - base), Padded(dataWidth, bits)))];
    }
  }

  /** Every address the insertion covers has a word in the inserted bits. */
  lemma {:induction false} InsertedWord(dw: nat, addr: nat, bits: Const, words: nat, a: int)
    requires dw > 0 && |bits| == Off(dw, words) && addr <= a < addr + words
    ensures HasWord(dw, Range(addr, bits), a)
  {
    var r := Range(addr, bits);
    SizeOf(dw, r, words);
    WordExists(dw, r, a);
  }

  lemma {:induction false} ClearSteps(vs: seq<Range>, lo: nat, hi: nat, front: seq<Range>, back: seq<Range>)
    requires lo < hi <= |vs| && |front| <= 1
    ensures var v := vs[..hi] + back + vs[hi..];
            var w := if front == [] then v else v[lo := front[0]];
            w[..lo + |front|] + w[hi..] == Splice(vs, lo, hi, front + back)
  {
  }
}
