/** Memory initialisers and `Mem::coalesce_inits` (`kernel/mem.cc`). */
module CoalesceInits {
  import opened Collections
  import opened Bits

  /** A `MemInit`: words of data from an address on, with one enable bit per bit of a word. */
  datatype Init = Init(addr: int, data: Const, en: Const, removed: bool)

  lemma {:induction false} OffMod(w: nat, n: int, i: int)
    requires w > 0
    ensures (Off(w, n) + i) % w == i % w
  {
    ModAddMultiple(i, w, n);
  }

  predicate InitOk(w: nat, init: Init)
    requires w > 0
  {
    |init.en| == w && |init.data| % w == 0
  }

  /** The address after the last word. */
  function End(w: nat, init: Init): int
    requires w > 0
  {
    init.addr + |init.data| / w
  }

  lemma {:induction false} OffEnd(w: nat, init: Init)
    requires w > 0 && InitOk(w, init)
    ensures Off(w, End(w, init)) == Off(w, init.addr) + |init.data| && init.addr <= End(w, init)
  {
    OffAdd(w, init.addr, |init.data| / w);
  }

  /** The initialiser sets the bit at `pos`. */
  predicate Hits(w: nat, init: Init, pos: int)
    requires w > 0 && InitOk(w, init)
  {
    !init.removed && Off(w, init.addr) <= pos < Off(w, init.addr) + |init.data| && init.en[pos % w] == S1
  }

  predicate AllOk(w: nat, inits: seq<Init>) {
    w > 0 && forall i :: 0 <= i < |inits| ==> InitOk(w, inits[i])
  }

  /** What a list of initialisers sets at `pos`: later ones overwrite earlier ones. */
  function BitAt(w: nat, inits: seq<Init>, pos: int): State
    requires AllOk(w, inits)
  {
    if |inits| == 0 then Sx
    else
      var n := |inits| - 1;
      if Hits(w, inits[n], pos) then inits[n].data[pos - Off(w, inits[n].addr)]
      else BitAt(w, inits[..n], pos)
  }

  /** The last initialiser that sets a bit decides it. */
  lemma {:induction false} LastHit(w: nat, inits: seq<Init>, pos: int, i: nat)
    requires AllOk(w, inits) && i < |inits| && Hits(w, inits[i], pos)
    requires forall j :: i < j < |inits| ==> !Hits(w, inits[j], pos)
    ensures BitAt(w, inits, pos) == inits[i].data[pos - Off(w, inits[i].addr)]
  {
    if i < |inits| - 1 {
      LastHit(w, inits[..|inits| - 1], pos, i);
    }
  }

  lemma {:induction false} NoHit(w: nat, inits: seq<Init>, pos: int)
    requires AllOk(w, inits) && forall j :: 0 <= j < |inits| ==> !Hits(w, inits[j], pos)
    ensures BitAt(w, inits, pos) == Sx
  {
    if |inits| > 0 {
      NoHit(w, inits[..|inits| - 1], pos);
    }
  }

  lemma {:induction false} FindLastHit(w: nat, inits: seq<Init>, pos: int) returns (i: int)
    requires AllOk(w, inits)
    ensures -1 <= i < |inits| && (i >= 0 ==> Hits(w, inits[i], pos))
    ensures forall j :: i < j < |inits| ==> !Hits(w, inits[j], pos)
  {
    i := |inits| - 1;
    while i >= 0 && !Hits(w, inits[i], pos)
      invariant -1 <= i < |inits| && forall j :: i < j < |inits| ==> !Hits(w, inits[j], pos)
    {
      i := i - 1;
    }
  }

  /** Two lists set a bit alike when the same entry is the last to hit it. */
  lemma {:induction false} SameBits(w: nat, inits: seq<Init>, other: seq<Init>, pos: int)
    requires AllOk(w, inits) && AllOk(w, other) && |inits| == |other|
    requires forall i :: 0 <= i < |inits| ==> Hits(w, inits[i], pos) == Hits(w, other[i], pos)
    requires forall i :: 0 <= i < |inits| && Hits(w, inits[i], pos) ==>
             inits[i].addr == other[i].addr && inits[i].data == other[i].data
    ensures BitAt(w, inits, pos) == BitAt(w, other, pos)
  {
    var i := FindLastHit(w, inits, pos);
    if i < 0 {
      NoHit(w, inits, pos);
      NoHit(w, other, pos);
    } else {
      LastHit(w, inits, pos, i);
      LastHit(w, other, pos, i);
    }
  }

  // ----- Chunks

  /** An address range `[start, end)`; the ordered map from start to end is the list of its entries. */
  datatype Chunk = Chunk(start: int, end: int)

  /** Ascending, with a gap between any two. */
  predicate Separated(cs: seq<Chunk>) {
    && (forall k :: 0 <= k < |cs| ==> cs[k].start <= cs[k].end)
    && (forall k, l :: 0 <= k < l < |cs| ==> cs[k].end < cs[l].start)
  }

  /** The key of a chunk in the ordered map. */
  function Start(c: Chunk): int {
    c.start
  }

  predicate InChunk(c: Chunk, a: int, e: int) {
    c.start <= a && e <= c.end
  }

  predicate Inside(cs: seq<Chunk>, a: int, e: int) {
    exists k :: 0 <= k < |cs| && InChunk(cs[k], a, e)
  }

  /** Address `x` lies in a chunk or at its end. */
  predicate Touched(cs: seq<Chunk>, x: int) {
    exists k :: 0 <= k < |cs| && cs[k].start <= x <= cs[k].end
  }

  /** `cs` with the entries from `lo` to `hi` replaced by one. */
  function Replace(cs: seq<Chunk>, lo: nat, hi: nat, c: Chunk): seq<Chunk>
    requires lo <= hi <= |cs|
  {
    cs[..lo] + [c] + cs[hi..]
  }

  /** The entries that overlap or touch `[a, e)`. */
  predicate Overlaps(cs: seq<Chunk>, lo: nat, hi: nat, a: int, e: int) {
    && lo <= hi <= |cs|
    && (forall k :: 0 <= k < lo ==> cs[k].end < a)
    && (forall k :: lo <= k < hi ==> cs[k].start <= e && a <= cs[k].end)
    && (forall k :: hi <= k < |cs| ==> e < cs[k].start)
  }

  function Merged(cs: seq<Chunk>, lo: nat, hi: nat, a: int, e: int): Chunk
    requires lo <= hi <= |cs|
  {
    if lo == hi then Chunk(a, e) else Chunk(Min(cs[lo].start, a), Max(cs[hi - 1].end, e))
  }

  lemma {:induction false} MergedSeparated(cs: seq<Chunk>, lo: nat, hi: nat, a: int, e: int)
    requires Separated(cs) && a <= e && Overlaps(cs, lo, hi, a, e)
    ensures Separated(Replace(cs, lo, hi, Merged(cs, lo, hi, a, e)))
  {
    var c := Merged(cs, lo, hi, a, e);
    var r := Replace(cs, lo, hi, c);
    assert forall k :: 0 <= k < lo ==> cs[k].end < c.start;
    assert forall k :: hi <= k < |cs| ==> c.end < cs[k].start;
    forall k, l | 0 <= k < l < |r| ensures r[k].end < r[l].start {
      var p := if k < lo then k else k - lo - 1 + hi;
      var q := if l < lo then l else l - lo - 1 + hi;
    }
  }

  lemma {:induction false} MergedInside(cs: seq<Chunk>, lo: nat, hi: nat, a: int, e: int, x: int, y: int)
    requires Separated(cs) && a <= e && Overlaps(cs, lo, hi, a, e)
    requires Inside(cs, x, y) || (a <= x && y <= e)
    ensures Inside(Replace(cs, lo, hi, Merged(cs, lo, hi, a, e)), x, y)
  {
    if a <= x && y <= e {
      var r := Replace(cs, lo, hi, Merged(cs, lo, hi, a, e));
      assert r[lo] == Merged(cs, lo, hi, a, e);
      assert InChunk(r[lo], x, y);
    } else {
      var k :| 0 <= k < |cs| && InChunk(cs[k], x, y);
      if lo <= k < hi {
        MergedHolds(cs, lo, hi, a, e, k);
      }
      ReplacedInside(cs, lo, hi, Merged(cs, lo, hi, a, e), k, x, y);
    }
  }

  lemma {:induction false} ReplacedInside(cs: seq<Chunk>, lo: nat, hi: nat, c: Chunk, k: nat, x: int, y: int)
    requires lo <= hi <= |cs| && k < |cs| && InChunk(cs[k], x, y)
    requires lo <= k < hi ==> InChunk(c, cs[k].start, cs[k].end)
    ensures Inside(Replace(cs, lo, hi, c), x, y)
  {
    var r := Replace(cs, lo, hi, c);
    var at := if k < lo then k else if k < hi then lo else k - hi + lo + 1;
    assert r[at] == if lo <= k < hi then c else cs[k];
    assert InChunk(r[at], x, y);
  }

  lemma {:induction false} MergedHolds(cs: seq<Chunk>, lo: nat, hi: nat, a: int, e: int, k: nat)
    requires Separated(cs) && a <= e && Overlaps(cs, lo, hi, a, e) && lo <= k < hi
    ensures InChunk(Merged(cs, lo, hi, a, e), cs[k].start, cs[k].end)
  {
    assert k == lo || cs[lo].end < cs[k].start;
    assert k == hi - 1 || cs[k].end < cs[hi - 1].start;
  }

  /** Merging loses no touched address. */
  lemma {:induction false} TouchedKept(cs: seq<Chunk>, lo: nat, hi: nat, a: int, e: int, x: int)
    requires Separated(cs) && a <= e && Overlaps(cs, lo, hi, a, e)
    requires Touched(cs, x) || a <= x <= e
    ensures Touched(Replace(cs, lo, hi, Merged(cs, lo, hi, a, e)), x)
  {
    if Touched(cs, x) {
      var k :| 0 <= k < |cs| && cs[k].start <= x <= cs[k].end;
      assert InChunk(cs[k], x, x);
    }
    MergedInside(cs, lo, hi, a, e, x, x);
    var r := Replace(cs, lo, hi, Merged(cs, lo, hi, a, e));
    var k :| 0 <= k < |r| && InChunk(r[k], x, x);
  }

  /** Merging adds no address that neither side touched. */
  lemma {:induction false} TouchedOnly(cs: seq<Chunk>, lo: nat, hi: nat, a: int, e: int, x: int)
    requires Separated(cs) && a <= e && Overlaps(cs, lo, hi, a, e)
    requires Touched(Replace(cs, lo, hi, Merged(cs, lo, hi, a, e)), x)
    ensures Touched(cs, x) || a <= x <= e
  {
    var c := Merged(cs, lo, hi, a, e);
    var r := Replace(cs, lo, hi, c);
    var k :| 0 <= k < |r| && r[k].start <= x <= r[k].end;
    if k == lo {
      MergedTouch(cs, lo, hi, a, e, x);
    } else {
      var j := if k < lo then k else k - lo - 1 + hi;
      assert r[k] == cs[j];
    }
  }

  lemma {:induction false} MergedTouch(cs: seq<Chunk>, lo: nat, hi: nat, a: int, e: int, x: int)
    requires Separated(cs) && a <= e && Overlaps(cs, lo, hi, a, e)
    requires Merged(cs, lo, hi, a, e).start <= x <= Merged(cs, lo, hi, a, e).end
    ensures Touched(cs, x) || a <= x <= e
  {
    if lo < hi {
      var first, last := cs[lo], cs[hi - 1];
      assert x < a ==> first.start <= x <= first.end;
      assert e < x ==> last.start <= x <= last.end;
    }
  }

  lemma {:induction false} AddedRange(cs: seq<Chunk>, lo: nat, hi: nat, a: int, e: int)
    requires Separated(cs) && a <= e && Overlaps(cs, lo, hi, a, e)
    ensures var r := Replace(cs, lo, hi, Merged(cs, lo, hi, a, e));
            && Separated(r) && Inside(r, a, e)
            && (forall x, y :: Inside(cs, x, y) ==> Inside(r, x, y))
            && (forall x :: Touched(r, x) <==> Touched(cs, x) || a <= x <= e)
  {
    var r := Replace(cs, lo, hi, Merged(cs, lo, hi, a, e));
    MergedSeparated(cs, lo, hi, a, e);
    forall x, y | Inside(cs, x, y) || (a <= x && y <= e) ensures Inside(r, x, y) {
      MergedInside(cs, lo, hi, a, e, x, y);
    }
    forall x ensures Touched(r, x) <==> Touched(cs, x) || a <= x <= e {
      if Touched(cs, x) || a <= x <= e {
        TouchedKept(cs, lo, hi, a, e, x);
      } else if Touched(r, x) {
        TouchedOnly(cs, lo, hi, a, e, x);
      }
    }
  }

  /** The chunks that `[addr, addrE]` touches, found by going down from the first one past it. */
  method TouchedChunks(cs: seq<Chunk>, addr: int, addrE: int) returns (it: nat, itE: nat)
    requires Separated(cs) && addr <= addrE
    ensures Overlaps(cs, it, itE, addr, addrE)
  {
    itE := UpperBound(cs, Start, addrE);
    it := itE;
    while it != 0
      invariant 0 <= it <= itE <= |cs| && forall k :: it <= k < itE ==> addr <= cs[k].end
      decreases it
    {
      it := it - 1;
      if cs[it].end < addr {
        it := it + 1;
        break;
      }
    }
  }

  /** One initialiser added to the chunk map. */
  method AddRange(cs: seq<Chunk>, addrIn: int, endIn: int) returns (r: seq<Chunk>)
    requires Separated(cs) && addrIn <= endIn
    ensures Separated(r) && Inside(r, addrIn, endIn)
    ensures forall x, y :: Inside(cs, x, y) ==> Inside(r, x, y)
    ensures forall x :: Touched(r, x) <==> Touched(cs, x) || addrIn <= x <= endIn
  {
    var addr, addrE := addrIn, endIn;
    var it, itE := TouchedChunks(cs, addr, addrE);
    AddedRange(cs, it, itE, addr, addrE);
    if it == itE {
      r := Replace(cs, it, it, Chunk(addr, addrE));
    } else {
      if cs[it].start < addr {
        addr := cs[it].start;
      }
      var itLast := itE - 1;
      if cs[itLast].end > addrE {
        addrE := cs[itLast].end;
      }
      r := Replace(cs, it, itE, Chunk(addr, addrE));
    }
  }

  // ----- Which chunk an initialiser belongs to

  /** The start of the last chunk that starts at or before `a`. */
  function OwnStart(cs: seq<Chunk>, a: int): int
    requires Separated(cs)
  {
    var it := UpperBound(cs, Start, a);
    if it == 0 then a else cs[it - 1].start
  }

  lemma {:induction false} OwnIs(cs: seq<Chunk>, a: int, e: int, k: nat)
    requires Separated(cs) && k < |cs| && InChunk(cs[k], a, e) && a <= e
    ensures UpperBound(cs, Start, a) == k + 1 && OwnStart(cs, a) == cs[k].start
  {
    assert k + 1 < |cs| ==> cs[k].end < cs[k + 1].start;
  }

  predicate Belongs(cs: seq<Chunk>, init: Init, c: int)
    requires Separated(cs)
  {
    !init.removed && OwnStart(cs, init.addr) == c
  }

  /** Every initialiser in force lies inside a chunk. */
  predicate Placed(w: nat, cs: seq<Chunk>, inits: seq<Init>) {
    && Separated(cs) && AllOk(w, inits)
    && forall i :: 0 <= i < |inits| && !inits[i].removed ==> Inside(cs, inits[i].addr, End(w, inits[i]))
  }

  /** An initialiser that sets a bit of a chunk belongs to it. */
  lemma {:induction false} HitsOwn(w: nat, cs: seq<Chunk>, init: Init, k: nat, pos: int)
    requires Separated(cs) && w > 0 && InitOk(w, init) && k < |cs| && Inside(cs, init.addr, End(w, init))
    requires Hits(w, init, pos) && Off(w, cs[k].start) <= pos < Off(w, cs[k].end)
    ensures Belongs(cs, init, cs[k].start)
  {
    var l :| 0 <= l < |cs| && InChunk(cs[l], init.addr, End(w, init));
    OffEnd(w, init);
    OwnIs(cs, init.addr, End(w, init), l);
    OffMono(w, cs[l].start, init.addr);
    OffMono(w, End(w, init), cs[l].end);
    if l < k {
      OffMono(w, cs[l].end, cs[k].start);
    } else if k < l {
      OffMono(w, cs[k].end, cs[l].start);
    }
  }

  /** An initialiser sets only bits of the chunk it belongs to. */
  lemma {:induction false} HitsInside(w: nat, cs: seq<Chunk>, init: Init, k: nat, pos: int)
    requires Separated(cs) && w > 0 && InitOk(w, init) && k < |cs| && Inside(cs, init.addr, End(w, init))
    requires Hits(w, init, pos) && Belongs(cs, init, cs[k].start)
    ensures Off(w, cs[k].start) <= pos < Off(w, cs[k].end)
  {
    OwnChunk(w, cs, init, k);
    OffEnd(w, init);
    OffMono(w, cs[k].start, init.addr);
    OffMono(w, End(w, init), cs[k].end);
  }

  lemma {:induction false} OwnChunk(w: nat, cs: seq<Chunk>, init: Init, k: nat)
    requires Separated(cs) && w > 0 && InitOk(w, init) && k < |cs| && Inside(cs, init.addr, End(w, init))
    requires Belongs(cs, init, cs[k].start)
    ensures InChunk(cs[k], init.addr, End(w, init))
  {
    var l :| 0 <= l < |cs| && InChunk(cs[l], init.addr, End(w, init));
    OffEnd(w, init);
    OwnIs(cs, init.addr, End(w, init), l);
    StartsDiffer(cs, k, l);
  }

  lemma {:induction false} StartsDiffer(cs: seq<Chunk>, k: nat, l: nat)
    requires Separated(cs) && k < |cs| && l < |cs|
    ensures cs[k].start == cs[l].start ==> k == l
  {
    assert k < l ==> cs[k].end < cs[l].start;
    assert l < k ==> cs[l].end < cs[k].start;
  }

  /** The indices, in order, of the initialisers that belong to the chunk at `c`. */
  function Members(cs: seq<Chunk>, inits: seq<Init>, c: int, n: nat): (l: seq<nat>)
    requires Separated(cs) && n <= |inits|
    ensures Ascending(l) && forall q :: 0 <= q < |l| ==> l[q] < n && Belongs(cs, inits[l[q]], c)
  {
    if n == 0 then []
    else Members(cs, inits, c, n - 1) + if Belongs(cs, inits[n - 1], c) then [n - 1] else []
  }

  predicate Ascending(l: seq<nat>) {
    forall a, b :: 0 <= a < b < |l| ==> l[a] < l[b]
  }

  lemma {:induction false} MembersAll(cs: seq<Chunk>, inits: seq<Init>, c: int, n: nat)
    requires Separated(cs) && n <= |inits|
    ensures forall i :: 0 <= i < n && Belongs(cs, inits[i], c) ==> i in Members(cs, inits, c, n)
  {
    if n > 0 {
      MembersAll(cs, inits, c, n - 1);
    }
  }

  lemma {:induction false} MembersSame(cs: seq<Chunk>, inits: seq<Init>, other: seq<Init>, c: int, n: nat)
    requires Separated(cs) && n <= |inits| && n <= |other|
    requires forall i :: 0 <= i < n ==> (Belongs(cs, inits[i], c) <==> Belongs(cs, other[i], c))
    ensures Members(cs, inits, c, n) == Members(cs, other, c, n)
  {
    if n > 0 {
      MembersSame(cs, inits, other, c, n - 1);
    }
  }

  // ----- Rewriting one chunk

  function Sub(inits: seq<Init>, l: seq<nat>): seq<Init>
    requires forall i :: 0 <= i < |l| ==> l[i] < |inits|
  {
    seq(|l|, i requires 0 <= i < |l| => inits[l[i]])
  }

  /** A sublist with every initialiser that sets a bit sets it like the whole list. */
  lemma {:induction false} SubBits(w: nat, inits: seq<Init>, l: seq<nat>, pos: int)
    requires AllOk(w, inits) && Ascending(l) && forall i :: 0 <= i < |l| ==> l[i] < |inits|
    requires forall i: nat :: i < |inits| && Hits(w, inits[i], pos) ==> i in l
    ensures BitAt(w, Sub(inits, l), pos) == BitAt(w, inits, pos)
  {
    var s := Sub(inits, l);
    var i := FindLastHit(w, inits, pos);
    if i < 0 {
      NoHit(w, inits, pos);
      NoHit(w, s, pos);
    } else {
      LastHit(w, inits, pos, i);
      var m :| 0 <= m < |l| && l[m] == i;
      LastHit(w, s, pos, m);
    }
  }

  /** Every member of a chunk marked as removed. */
  function Removed(cs: seq<Chunk>, inits: seq<Init>, c: int): (r: seq<Init>)
    requires Separated(cs)
    ensures |r| == |inits|
  {
    seq(|inits|, i requires 0 <= i < |inits| => if Belongs(cs, inits[i], c)
        then inits[i].(removed := true) else inits[i])
  }

  function Ones(w: nat): (c: Const)
    ensures |c| == w
  {
    seq(w, _ => S1)
  }

  /** One initialiser for a whole chunk. */
  predicate Combined(w: nat, cs: seq<Chunk>, inits: seq<Init>, k: nat, cdata: Const)
    requires Placed(w, cs, inits) && k < |cs|
  {
    && |cdata| == Off(w, cs[k].end - cs[k].start)
    && Holds(w, inits, Members(cs, inits, cs[k].start, |inits|), cs[k].start, cdata)
  }

  /** `cdata` is what the initialisers listed in `l` set from address `base` on. */
  predicate Holds(w: nat, inits: seq<Init>, l: seq<nat>, base: int, cdata: Const)
    requires AllOk(w, inits) && forall q :: 0 <= q < |l| ==> l[q] < |inits|
  {
    forall p :: 0 <= p < |cdata| ==> cdata[p] == BitAt(w, Sub(inits, l), Off(w, base) + p)
  }

  lemma {:induction false} CombineBits(w: nat, cs: seq<Chunk>, inits: seq<Init>, k: nat, cdata: Const, pos: int)
    requires Placed(w, cs, inits) && k < |cs| && Combined(w, cs, inits, k, cdata)
    ensures AllOk(w, Combine(w, cs, inits, k, cdata))
            && BitAt(w, Combine(w, cs, inits, k, cdata), pos) == BitAt(w, inits, pos)
  {
    var c := cs[k].start;
    var rest, whole := Removed(cs, inits, c), Init(c, cdata, Ones(w), false);
    OffAdd(w, c, cs[k].end - c);
    WholeEnd(w, cs[k], cdata);
    var next := Combine(w, cs, inits, k, cdata);
    assert next[..|rest|] == rest && next[|rest|] == whole;
    if Off(w, c) <= pos < Off(w, cs[k].end) {
      BitInChunk(w, cs, inits, k, cdata, pos);
      assert Hits(w, whole, pos);
    } else {
      BitOutside(w, cs, inits, k, pos);
    }
  }

  /** The list with the members of a chunk replaced by one initialiser at the end. */
  function Combine(w: nat, cs: seq<Chunk>, inits: seq<Init>, k: nat, cdata: Const): seq<Init>
    requires Separated(cs) && k < |cs|
  {
    Removed(cs, inits, cs[k].start) + [Init(cs[k].start, cdata, Ones(w), false)]
  }

  lemma {:induction false} WholeEnd(w: nat, c: Chunk, cdata: Const)
    requires w > 0 && |cdata| == Off(w, c.end - c.start)
    ensures |cdata| % w == 0 && |cdata| / w == c.end - c.start
  {
    DivModUnique(|cdata|, w, c.end - c.start, 0);
  }

  lemma {:induction false} BitInChunk(w: nat, cs: seq<Chunk>, inits: seq<Init>, k: nat, cdata: Const, pos: int)
    requires Placed(w, cs, inits) && k < |cs| && Combined(w, cs, inits, k, cdata)
    requires Off(w, cs[k].start) <= pos < Off(w, cs[k].end) && |cdata| == Off(w, cs[k].end) - Off(w, cs[k].start)
    ensures cdata[pos - Off(w, cs[k].start)] == BitAt(w, inits, pos)
  {
    var c := cs[k].start;
    var l := Members(cs, inits, c, |inits|);
    MembersAll(cs, inits, c, |inits|);
    forall i: nat | i < |inits| && Hits(w, inits[i], pos) ensures i in l {
      HitsOwn(w, cs, inits[i], k, pos);
    }
    SubBits(w, inits, l, pos);
    var p := pos - Off(w, c);
    assert cdata[p] == BitAt(w, Sub(inits, l), Off(w, c) + p);
  }

  lemma {:induction false} BitOutside(w: nat, cs: seq<Chunk>, inits: seq<Init>, k: nat, pos: int)
    requires Placed(w, cs, inits) && k < |cs| && !(Off(w, cs[k].start) <= pos < Off(w, cs[k].end))
    ensures AllOk(w, Removed(cs, inits, cs[k].start))
            && BitAt(w, Removed(cs, inits, cs[k].start), pos) == BitAt(w, inits, pos)
  {
    var rest := Removed(cs, inits, cs[k].start);
    forall i | 0 <= i < |inits| ensures Hits(w, inits[i], pos) == Hits(w, rest[i], pos) {
      if Hits(w, inits[i], pos) && Belongs(cs, inits[i], cs[k].start) {
        HitsInside(w, cs, inits[i], k, pos);
      }
    }
    SameBits(w, inits, rest, pos);
  }

  /** The data with every disabled bit undefined. */
  function Masked(w: nat, init: Init): (d: Const)
    requires w > 0 && InitOk(w, init)
    ensures |d| == |init.data|
  {
    seq(|init.data|, i requires 0 <= i < |init.data| => if init.en[i % w] == S1 then init.data[i] else Sx)
  }

  function Unmasked(w: nat, init: Init): Init
    requires w > 0 && InitOk(w, init)
  {
    init.(data := Masked(w, init), en := Ones(w))
  }

  /** A lone member of its chunk may be enabled throughout. */
  lemma {:induction false} SingleBits(w: nat, cs: seq<Chunk>, inits: seq<Init>, k: nat, i: nat, pos: int)
    requires Placed(w, cs, inits) && k < |cs| && i < |inits| && Members(cs, inits, cs[k].start, |inits|) == [i]
    ensures var next := inits[i := Unmasked(w, inits[i])];
            AllOk(w, next) && BitAt(w, next, pos) == BitAt(w, inits, pos)
  {
    var init, next := inits[i], inits[i := Unmasked(w, inits[i])];
    assert Members(cs, inits, cs[k].start, |inits|)[0] == i;
    if 0 <= pos - Off(w, init.addr) < |init.data| {
      forall j | 0 <= j < |inits| && j != i ensures !Hits(w, inits[j], pos) {
        OnlyMember(w, cs, inits, k, i, j, pos);
      }
      LoneBits(w, inits, i, pos);
    } else {
      SameBits(w, inits, next, pos);
    }
  }

  lemma {:induction false} LoneBits(w: nat, inits: seq<Init>, i: nat, pos: int)
    requires AllOk(w, inits) && i < |inits| && 0 <= pos - Off(w, inits[i].addr) < |inits[i].data| && !inits[i].removed
    requires forall j :: 0 <= j < |inits| && j != i ==> !Hits(w, inits[j], pos)
    ensures var next := inits[i := Unmasked(w, inits[i])];
            AllOk(w, next) && BitAt(w, next, pos) == BitAt(w, inits, pos)
  {
    var init, next := inits[i], inits[i := Unmasked(w, inits[i])];
    OffMod(w, init.addr, pos - Off(w, init.addr));
    LastHit(w, next, pos, i);
    if Hits(w, init, pos) {
      LastHit(w, inits, pos, i);
    } else {
      NoHit(w, inits, pos);
    }
  }

  /** No other initialiser sets a bit in the range of the only member of a chunk. */
  lemma {:induction false} OnlyMember(w: nat, cs: seq<Chunk>, inits: seq<Init>, k: nat, i: nat, j: nat, pos: int)
    requires Placed(w, cs, inits) && k < |cs| && i < |inits| && Members(cs, inits, cs[k].start, |inits|) == [i]
    requires j < |inits| && j != i && 0 <= pos - Off(w, inits[i].addr) < |inits[i].data|
    ensures !Hits(w, inits[j], pos)
  {
    var init, c := inits[i], cs[k].start;
    assert Members(cs, inits, c, |inits|)[0] == i;
    OwnChunk(w, cs, init, k);
    OffEnd(w, init);
    OffMono(w, c, init.addr);
    OffMono(w, End(w, init), cs[k].end);
    MembersAll(cs, inits, c, |inits|);
    if Hits(w, inits[j], pos) {
      HitsOwn(w, cs, inits[j], k, pos);
    }
  }

  // ----- All chunks

  /** The chunk at `c` has one initialiser left, enabled throughout. */
  ghost predicate Single(w: nat, cs: seq<Chunk>, inits: seq<Init>, c: int)
    requires Separated(cs)
  {
    exists i :: 0 <= i < |inits| && Members(cs, inits, c, |inits|) == [i] && inits[i].en == Ones(w)
  }

  predicate IsStart(cs: seq<Chunk>, c: int) {
    exists k :: 0 <= k < |cs| && cs[k].start == c
  }

  predicate Covered(w: nat, inits: seq<Init>, x: int)
    requires w > 0
  {
    exists i :: 0 <= i < |inits| && !inits[i].removed && inits[i].addr <= x <= End(w, inits[i])
  }

  /** The chunks in `left` still have their original members, the others are done. */
  ghost predicate Progress(w: nat, cs: seq<Chunk>, groups: map<int, seq<nat>>, left: set<int>, inits: seq<Init>)
    requires Separated(cs)
  {
    && left <= groups.Keys
    && (forall c :: c in left ==> Members(cs, inits, c, |inits|) == groups[c])
    && (forall c :: c in groups && c !in left ==> Single(w, cs, inits, c))
  }

  /** The keys are chunk starts, and every initialiser in force has one of them. */
  ghost predicate Owned(cs: seq<Chunk>, groups: map<int, seq<nat>>, inits: seq<Init>)
    requires Separated(cs)
  {
    && (forall c :: c in groups ==> IsStart(cs, c))
    && (forall i :: 0 <= i < |inits| && !inits[i].removed ==> OwnStart(cs, inits[i].addr) in groups)
  }

  ghost predicate Covers(w: nat, cs: seq<Chunk>, inits: seq<Init>)
    requires w > 0
  {
    forall x :: Covered(w, inits, x) <==> Touched(cs, x)
  }

  ghost predicate Rewritten(w: nat, cs: seq<Chunk>, groups: map<int, seq<nat>>, left: set<int>, inits: seq<Init>) {
    Placed(w, cs, inits) && Progress(w, cs, groups, left, inits) && Owned(cs, groups, inits) && Covers(w, cs, inits)
  }

  /** Disjoint and non-touching address ranges, with full enables. */
  predicate Coalesced(w: nat, inits: seq<Init>)
    requires w > 0
  {
    && (forall i :: 0 <= i < |inits| && !inits[i].removed ==> inits[i].en == Ones(w))
    && (forall i, j :: 0 <= i < j < |inits| && !inits[i].removed && !inits[j].removed ==>
          End(w, inits[i]) < inits[j].addr || End(w, inits[j]) < inits[i].addr)
  }

  lemma {:induction false} AllSingle(w: nat, cs: seq<Chunk>, groups: map<int, seq<nat>>, inits: seq<Init>)
    requires Rewritten(w, cs, groups, {}, inits)
    ensures Coalesced(w, inits)
  {
    forall i | 0 <= i < |inits| && !inits[i].removed ensures inits[i].en == Ones(w) {
      SingleOwn(w, cs, groups, inits, i);
    }
    forall i, j | 0 <= i < j < |inits| && !inits[i].removed && !inits[j].removed
      ensures End(w, inits[i]) < inits[j].addr || End(w, inits[j]) < inits[i].addr
    {
      SingleOwn(w, cs, groups, inits, i);
      SingleOwn(w, cs, groups, inits, j);
      var p :| 0 <= p < |cs| && InChunk(cs[p], inits[i].addr, End(w, inits[i]));
      var q :| 0 <= q < |cs| && InChunk(cs[q], inits[j].addr, End(w, inits[j]));
      OffEnd(w, inits[i]);
      OffEnd(w, inits[j]);
      OwnIs(cs, inits[i].addr, End(w, inits[i]), p);
      OwnIs(cs, inits[j].addr, End(w, inits[j]), q);
    }
  }

  lemma {:induction false} SingleOwn(w: nat, cs: seq<Chunk>, groups: map<int, seq<nat>>, inits: seq<Init>, i: nat)
    requires Rewritten(w, cs, groups, {}, inits) && i < |inits| && !inits[i].removed
    ensures Members(cs, inits, OwnStart(cs, inits[i].addr), |inits|) == [i] && inits[i].en == Ones(w)
  {
    var c := OwnStart(cs, inits[i].addr);
    MembersAll(cs, inits, c, |inits|);
    assert Single(w, cs, inits, c);
  }

  /** Finishing chunk `c` leaves the others as they are. */
  lemma {:induction false} ProgressStep(w: nat, cs: seq<Chunk>, groups: map<int, seq<nat>>, left: set<int>,
                                        inits: seq<Init>, next: seq<Init>, c: int)
    requires Separated(cs) && Progress(w, cs, groups, left, inits) && c in left && |inits| <= |next|
    requires Single(w, cs, next, c)
    requires forall d :: d in groups && d != c ==> Members(cs, next, d, |next|) == Members(cs, inits, d, |inits|)
    requires forall i :: 0 <= i < |inits| && !Belongs(cs, inits[i], c) ==> next[i] == inits[i]
    ensures Progress(w, cs, groups, left - {c}, next)
  {
    forall d | d in groups && d !in left - {c} ensures Single(w, cs, next, d) {
      if d != c {
        var j :| 0 <= j < |inits| && Members(cs, inits, d, |inits|) == [j] && inits[j].en == Ones(w);
        assert Members(cs, inits, d, |inits|)[0] == j;
        assert Members(cs, next, d, |next|) == [j];
      }
    }
  }

  lemma {:induction false} SingleStep(w: nat, cs: seq<Chunk>, groups: map<int, seq<nat>>, left: set<int>,
                                      inits: seq<Init>, c: int, i: nat)
    requires Rewritten(w, cs, groups, left, inits) && c in left && groups[c] == [i] && i < |inits|
    ensures AllOk(w, inits[i := Unmasked(w, inits[i])])
            && Rewritten(w, cs, groups, left - {c}, inits[i := Unmasked(w, inits[i])])
    ensures forall pos :: BitAt(w, inits[i := Unmasked(w, inits[i])], pos) == BitAt(w, inits, pos)
  {
    var next := inits[i := Unmasked(w, inits[i])];
    var k :| 0 <= k < |cs| && cs[k].start == c;
    assert Members(cs, inits, c, |inits|) == [i];
    SingleBits(w, cs, inits, k, i, 0);
    forall pos ensures BitAt(w, next, pos) == BitAt(w, inits, pos) {
      SingleBits(w, cs, inits, k, i, pos);
    }
    SingleProgress(w, cs, groups, left, inits, c, i);
    forall x ensures Covered(w, next, x) <==> Covered(w, inits, x) {
      CoveredSame(w, inits, next, x);
    }
  }

  lemma {:induction false} SingleProgress(w: nat, cs: seq<Chunk>, groups: map<int, seq<nat>>, left: set<int>,
                                          inits: seq<Init>, c: int, i: nat)
    requires Separated(cs) && AllOk(w, inits) && Progress(w, cs, groups, left, inits)
    requires c in left && groups[c] == [i] && i < |inits|
    ensures Progress(w, cs, groups, left - {c}, inits[i := Unmasked(w, inits[i])])
  {
    var next := inits[i := Unmasked(w, inits[i])];
    forall d ensures Members(cs, next, d, |next|) == Members(cs, inits, d, |inits|) {
      MembersSame(cs, inits, next, d, |inits|);
    }
    assert Members(cs, inits, c, |inits|)[0] == i;
    assert next[i].en == Ones(w);
    ProgressStep(w, cs, groups, left, inits, next, c);
  }

  lemma {:induction false} CoveredSame(w: nat, inits: seq<Init>, other: seq<Init>, x: int)
    requires w > 0 && |inits| == |other|
    requires forall i :: 0 <= i < |inits| ==>
               inits[i].removed == other[i].removed && inits[i].addr == other[i].addr
                   && End(w, inits[i]) == End(w, other[i])
    ensures Covered(w, other, x) <==> Covered(w, inits, x)
  {
    if Covered(w, inits, x) {
      var i :| 0 <= i < |inits| && !inits[i].removed && inits[i].addr <= x <= End(w, inits[i]);
      assert !other[i].removed && other[i].addr <= x <= End(w, other[i]);
    }
    if Covered(w, other, x) {
      var i :| 0 <= i < |other| && !other[i].removed && other[i].addr <= x <= End(w, other[i]);
      assert !inits[i].removed && inits[i].addr <= x <= End(w, inits[i]);
    }
  }

  lemma {:induction false} CombineProgress(w: nat, cs: seq<Chunk>, groups: map<int, seq<nat>>, left: set<int>,
                                           inits: seq<Init>, k: nat, cdata: Const)
    requires Separated(cs) && Progress(w, cs, groups, left, inits) && k < |cs| && cs[k].start in left
    ensures Progress(w, cs, groups, left - {cs[k].start}, Combine(w, cs, inits, k, cdata))
  {
    var c := cs[k].start;
    forall d | d != c
        ensures Members(cs, Combine(w, cs, inits, k, cdata), d, |inits| + 1) == Members(cs, inits, d, |inits|) {
      OtherMembers(w, cs, inits, k, cdata, d);
    }
    OwnMember(w, cs, inits, k, cdata);
    ProgressStep(w, cs, groups, left, inits, Combine(w, cs, inits, k, cdata), c);
  }

  lemma {:induction false} OtherMembers(w: nat, cs: seq<Chunk>, inits: seq<Init>, k: nat, cdata: Const, d: int)
    requires Separated(cs) && k < |cs| && d != cs[k].start
    ensures Members(cs, Combine(w, cs, inits, k, cdata), d, |inits| + 1) == Members(cs, inits, d, |inits|)
  {
    var next, n := Combine(w, cs, inits, k, cdata), |inits|;
    OwnIs(cs, cs[k].start, cs[k].start, k);
    MembersSame(cs, inits, next, d, n);
    assert !Belongs(cs, next[n], d);
  }

  lemma {:induction false} OwnMember(w: nat, cs: seq<Chunk>, inits: seq<Init>, k: nat, cdata: Const)
    requires Separated(cs) && k < |cs|
    ensures Single(w, cs, Combine(w, cs, inits, k, cdata), cs[k].start)
  {
    var next, n := Combine(w, cs, inits, k, cdata), |inits|;
    OwnIs(cs, cs[k].start, cs[k].start, k);
    NoMembers(cs, next, cs[k].start, n);
    assert Belongs(cs, next[n], cs[k].start);
    assert Members(cs, next, cs[k].start, n + 1) == [n];
  }

  lemma {:induction false} NoMembers(cs: seq<Chunk>, inits: seq<Init>, c: int, n: nat)
    requires Separated(cs) && n <= |inits| && forall i :: 0 <= i < n ==> !Belongs(cs, inits[i], c)
    ensures Members(cs, inits, c, n) == []
  {
    if n > 0 {
      NoMembers(cs, inits, c, n - 1);
    }
  }

  lemma {:induction false} CombineCovers(w: nat, cs: seq<Chunk>, inits: seq<Init>, k: nat, cdata: Const)
    requires Placed(w, cs, inits) && Covers(w, cs, inits) && k < |cs| && |cdata| == Off(w, cs[k].end - cs[k].start)
    ensures Covers(w, cs, Combine(w, cs, inits, k, cdata))
  {
    var next := Combine(w, cs, inits, k, cdata);
    WholeEnd(w, cs[k], cdata);
    assert End(w, next[|inits|]) == cs[k].end;
    forall x ensures Covered(w, next, x) <==> Touched(cs, x) {
      if Covered(w, next, x) {
        CoveredBack(w, cs, inits, k, cdata, x);
      }
      if Touched(cs, x) {
        CoveredStill(w, cs, inits, k, cdata, x);
      }
    }
  }

  lemma {:induction false} CoveredBack(w: nat, cs: seq<Chunk>, inits: seq<Init>, k: nat, cdata: Const, x: int)
    requires Placed(w, cs, inits) && Covers(w, cs, inits) && k < |cs|
    requires var next := Combine(w, cs, inits, k, cdata); End(w, next[|inits|]) == cs[k].end && Covered(w, next, x)
    ensures Touched(cs, x)
  {
    var next := Combine(w, cs, inits, k, cdata);
    var i :| 0 <= i < |next| && !next[i].removed && next[i].addr <= x <= End(w, next[i]);
    if i < |inits| {
      assert next[i] == inits[i];
      assert Covered(w, inits, x);
    }
  }

  lemma {:induction false} CoveredStill(w: nat, cs: seq<Chunk>, inits: seq<Init>, k: nat, cdata: Const, x: int)
    requires Placed(w, cs, inits) && Covers(w, cs, inits) && k < |cs| && Touched(cs, x)
    requires var next := Combine(w, cs, inits, k, cdata); End(w, next[|inits|]) == cs[k].end
    ensures Covered(w, Combine(w, cs, inits, k, cdata), x)
  {
    var next := Combine(w, cs, inits, k, cdata);
    if cs[k].start <= x <= cs[k].end {
      assert !next[|inits|].removed && next[|inits|].addr <= x <= End(w, next[|inits|]);
    } else {
      assert Covered(w, inits, x);
      var i :| 0 <= i < |inits| && !inits[i].removed && inits[i].addr <= x <= End(w, inits[i]);
      if Belongs(cs, inits[i], cs[k].start) {
        OwnChunk(w, cs, inits[i], k);
      }
      assert next[i] == inits[i];
    }
  }

  lemma {:induction false} CombineStep(w: nat, cs: seq<Chunk>, groups: map<int, seq<nat>>, left: set<int>,
                                       inits: seq<Init>, k: nat, cdata: Const)
    requires Rewritten(w, cs, groups, left, inits) && k < |cs| && cs[k].start in left
             && Combined(w, cs, inits, k, cdata)
    ensures AllOk(w, Combine(w, cs, inits, k, cdata))
            && Rewritten(w, cs, groups, left - {cs[k].start}, Combine(w, cs, inits, k, cdata))
    ensures forall pos :: BitAt(w, Combine(w, cs, inits, k, cdata), pos) == BitAt(w, inits, pos)
  {
    var next := Combine(w, cs, inits, k, cdata);
    CombineBits(w, cs, inits, k, cdata, 0);
    forall pos ensures BitAt(w, next, pos) == BitAt(w, inits, pos) {
      CombineBits(w, cs, inits, k, cdata, pos);
    }
    CombineProgress(w, cs, groups, left, inits, k, cdata);
    CombineCovers(w, cs, inits, k, cdata);
    CombinePlaced(w, cs, groups, inits, k, cdata);
  }

  lemma {:induction false} CombinePlaced(w: nat, cs: seq<Chunk>, groups: map<int, seq<nat>>, inits: seq<Init>, k: nat,
                                         cdata: Const)
    requires Placed(w, cs, inits) && Owned(cs, groups, inits) && k < |cs| && cs[k].start in groups
    requires |cdata| == Off(w, cs[k].end - cs[k].start)
    ensures var next := Combine(w, cs, inits, k, cdata); Placed(w, cs, next) && Owned(cs, groups, next)
  {
    var next, n := Combine(w, cs, inits, k, cdata), |inits|;
    WholeEnd(w, cs[k], cdata);
    OwnIs(cs, cs[k].start, cs[k].end, k);
    assert InChunk(cs[k], next[n].addr, End(w, next[n]));
    forall i | 0 <= i < |next| && !next[i].removed
      ensures Inside(cs, next[i].addr, End(w, next[i])) && OwnStart(cs, next[i].addr) in groups
    {
      if i < n {
        assert next[i] == inits[i];
      }
    }
  }

  // ----- Mem

  /** An initialiser that enables no bit is dropped. */
  function DropInert(inits: seq<Init>): (r: seq<Init>)
    ensures |r| == |inits|
  {
    seq(|inits|, i requires 0 <= i < |inits| => if S1 in inits[i].en then inits[i] else inits[i].(removed := true))
  }

  lemma {:induction false} DropInertStep(was: seq<Init>, k: nat, inits: seq<Init>)
    requires k < |was| && |inits| == |was| && inits[..k] == DropInert(was[..k]) && inits[k + 1..] == was[k + 1..]
    requires inits[k] == if S1 in was[k].en then was[k] else was[k].(removed := true)
    ensures DropInert(was[..k + 1]) == DropInert(was[..k]) + [inits[k]] == inits[..k + 1]
    ensures inits == DropInert(was[..k + 1]) + was[k + 1..]
  {
    assert inits == inits[..k + 1] + inits[k + 1..];
  }

  lemma {:induction false} DropInertBits(w: nat, inits: seq<Init>, pos: int)
    requires AllOk(w, inits)
    ensures AllOk(w, DropInert(inits)) && BitAt(w, DropInert(inits), pos) == BitAt(w, inits, pos)
  {
    SameBits(w, inits, DropInert(inits), pos);
  }

  /** The enabled bits of `init` written into `dst` from `offset` on. */
  function Overlaid(w: nat, dst: Const, init: Init, offset: int, p: int): State
    requires w > 0 && InitOk(w, init) && 0 <= p < |dst|
  {
    if 0 <= p - offset < |init.data| && init.en[(p - offset) % w] == S1 then init.data[p - offset] else dst[p]
  }

  method Overlay(w: nat, dst: Const, init: Init, offset: int) returns (r: Const)
    requires w > 0 && InitOk(w, init)
    ensures |r| == |dst| && forall p :: 0 <= p < |dst| ==> r[p] == Overlaid(w, dst, init, offset, p)
  {
    r := dst;
    for i := 0 to |init.data|
      invariant |r| == |dst|
      invariant forall p :: 0 <= p < |dst| ==>
                r[p] == if p - offset < i then Overlaid(w, dst, init, offset, p) else dst[p]
    {
      if 0 <= i + offset < |r| && init.en[i % w] == S1 {
        r := r[i + offset := init.data[i]];
      }
    }
  }

  /** Overlaying an initialiser in force is one more step of `BitAt`. */
  lemma {:induction false} OverlayBit(w: nat, dst: Const, inits: seq<Init>, base: int, p: int)
    requires AllOk(w, inits) && |inits| > 0 && !inits[|inits| - 1].removed && 0 <= p < |dst|
    requires dst[p] == BitAt(w, inits[..|inits| - 1], Off(w, base) + p)
    ensures Overlaid(w, dst, inits[|inits| - 1], Off(w, inits[|inits| - 1].addr - base), p) ==
            BitAt(w, inits, Off(w, base) + p)
  {
    var init := inits[|inits| - 1];
    var o := Off(w, init.addr - base);
    OffAdd(w, base, init.addr - base);
    if 0 <= p - o < |init.data| {
      OffMod(w, init.addr, p - o);
    }
  }

  method EnablesSome(en: Const) returns (valid: bool)
    ensures valid == (S1 in en)
  {
    valid := false;
    for j := 0 to |en|
      invariant valid == (S1 in en[..j])
    {
      if en[j] == S1 {
        valid := true;
      }
    }
    assert en[..|en|] == en;
  }

  /** Any element: the order in which a dictionary is walked is left open. */
  method AnyOf(s: set<int>) returns (c: int)
    requires s != {}
    ensures c in s
  {
    ghost var some := AnElement(s);
    c :| c in s;
  }

  class Mem {
    const width: nat
    const startOffset: int
    const size: nat
    var inits: seq<Init>

    predicate Valid()
      reads this
    {
      AllOk(width, inits)
    }

    constructor (width: nat, startOffset: int, size: nat, inits: seq<Init>)
      requires AllOk(width, inits)
      ensures Valid() && this.inits == inits && this.width == width && this.startOffset == startOffset
              && this.size == size
    {
      this.width, this.startOffset, this.size, this.inits := width, startOffset, size, inits;
    }

    method GetInitData() returns (r: Const)
      requires Valid()
      ensures |r| == Off(width, size)
      ensures forall p :: 0 <= p < |r| ==> r[p] == BitAt(width, inits, Off(width, startOffset) + p)
    {
      OffMono(width, 0, size);
      r := seq(Off(width, size), _ => Sx);
      for k := 0 to |inits|
        invariant |r| == Off(width, size)
        invariant forall p :: 0 <= p < |r| ==> r[p] == BitAt(width, inits[..k], Off(width, startOffset) + p)
      {
        assert inits[..k + 1][..k] == inits[..k];
        if !inits[k].removed {
          ghost var was := r;
          r := Overlay(width, r, inits[k], Off(width, inits[k].addr - startOffset));
          forall p | 0 <= p < |r| ensures r[p] == BitAt(width, inits[..k + 1], Off(width, startOffset) + p) {
            OverlayBit(width, was, inits[..k + 1], startOffset, p);
          }
        }
      }
      assert inits[..|inits|] == inits;
    }

    /** The chunk boundaries; initialisers without an enabled bit are removed on the way. */
    method FindChunks() returns (chunks: seq<Chunk>)
      requires Valid()
      modifies this
      ensures Valid() && inits == DropInert(old(inits))
      ensures Placed(width, chunks, inits) && Covers(width, chunks, inits)
    {
      chunks := [];
      ghost var was := inits;
      for k := 0 to |inits|
        invariant Valid() && |inits| == |was| && inits == DropInert(was[..k]) + was[k..]
        invariant Separated(chunks) && Placed(width, chunks, DropInert(was[..k]))
                  && Covers(width, chunks, DropInert(was[..k]))
      {
        assert inits[k] == was[k];
        ghost var before := DropInert(was[..k]);
        var valid := EnablesSome(inits[k].en);
        if !inits[k].removed {
          if !valid {
            inits := inits[k := inits[k].(removed := true)];
          } else {
            OffEnd(width, inits[k]);
            ghost var cs := chunks;
            chunks := AddRange(chunks, inits[k].addr, End(width, inits[k]));
            PlaceOne(width, cs, chunks, before, inits[k]);
          }
        }
        assert inits[..k] == before && inits[k + 1..] == was[k + 1..];
        DropInertStep(was, k, inits);
        if inits[k].removed {
          CoverNone(width, chunks, before, inits[k]);
        }
      }
      assert was[..|was|] == was;
    }

    /** The initialisers of each chunk, in order. */
    method GroupByChunk(chunks: seq<Chunk>) returns (groups: map<int, seq<nat>>)
      requires Valid() && Placed(width, chunks, inits)
      ensures Progress(width, chunks, groups, groups.Keys, inits) && Owned(chunks, groups, inits)
      ensures forall c :: c in groups ==> groups[c] != []
    {
      groups := map[];
      assert AllHold(chunks, inits, groups, 0);
      for i := 0 to |inits|
        invariant Grouped(chunks, inits, groups, i)
      {
        if inits[i].removed {
          GroupSkip(chunks, inits, groups, i);
        } else {
          OwnedStart(width, chunks, inits, i);
          var it := UpperBound(chunks, Start, inits[i].addr) - 1;
          var c := chunks[it].start;
          assert InChunk(chunks[it], inits[i].addr, End(width, inits[i]));
          GroupStep(chunks, inits, groups, i);
          groups := groups[c := Lookup(groups, c) + [i]];
        }
      }
      GroupsProgress(width, chunks, inits, groups);
    }

    /** All initialisers of one chunk combined into one. */
    method CombineChunk(chunks: seq<Chunk>, k: nat, chunkInits: seq<nat>)
      requires Valid() && Placed(width, chunks, inits) && k < |chunks|
      requires chunkInits == Members(chunks, inits, chunks[k].start, |inits|)
      modifies this
      ensures exists cdata ::
                && Combined(width, chunks, old(inits), k, cdata)
                && inits == Combine(width, chunks, old(inits), k, cdata)
    {
      var caddr, caddrE := chunks[k].start, chunks[k].end;
      ghost var was := inits;
      OffMono(width, 0, caddrE - caddr);
      var cdata: Const := seq(Off(width, caddrE - caddr), _ => Sx);
      for m := 0 to |chunkInits|
        invariant inits == Marked(was, chunkInits[..m]) && |cdata| == Off(width, caddrE - caddr)
        invariant Holds(width, was, chunkInits[..m], caddr, cdata)
      {
        var idx := chunkInits[m];
        MarkedStep(was, chunkInits, m);
        var init := inits[idx];
        InsideChunk(width, chunks, was, k, idx);
        cdata := OverlayMember(width, was, chunkInits, m, caddr, cdata, init);
        inits := inits[idx := init.(removed := true)];
      }
      assert chunkInits[..|chunkInits|] == chunkInits;
      MarkedAll(chunks, was, caddr);
      inits := inits + [Init(caddr, cdata, Ones(width), false)];
      assert Combined(width, chunks, was, k, cdata) && inits == Combine(width, chunks, was, k, cdata);
    }

    /** The only initialiser of a chunk gets a full enable mask. */
    method UnmaskSingle(idx: nat)
      requires Valid() && idx < |inits|
      modifies this
      ensures inits == old(inits)[idx := Unmasked(width, old(inits)[idx])]
    {
      var init := inits[idx];
      if exists j :: 0 <= j < |init.en| && init.en[j] != S1 {
        var data := init.data;
        for i := 0 to |init.data|
          invariant |data| == |init.data|
          invariant forall j :: 0 <= j < |data| ==>
                    data[j] == if j < i && init.en[j % width] != S1 then Sx else init.data[j]
        {
          if init.en[i % width] != S1 {
            data := data[i := Sx];
          }
        }
        assert data == Masked(width, init);
        inits := inits[idx := init.(data := data, en := Ones(width))];
      } else {
        assert init.en == Ones(width);
        assert Masked(width, init) == init.data;
      }
    }

    method RewriteChunk(chunks: seq<Chunk>, ghost groups: map<int, seq<nat>>, ghost left: set<int>, k: nat,
                        chunkInits: seq<nat>)
      requires Valid() && Rewritten(width, chunks, groups, left, inits) && k < |chunks| && chunks[k].start in left
      requires chunkInits == groups[chunks[k].start] && chunkInits != []
      modifies this
      ensures Valid() && Rewritten(width, chunks, groups, left - {chunks[k].start}, inits)
      ensures forall pos :: BitAt(width, inits, pos) == BitAt(width, old(inits), pos)
    {
      ghost var was, c := inits, chunks[k].start;
      assert chunkInits == Members(chunks, was, c, |was|);
      if |chunkInits| == 1 {
        assert chunkInits == [chunkInits[0]];
        SingleStep(width, chunks, groups, left, was, c, chunkInits[0]);
        UnmaskSingle(chunkInits[0]);
      } else {
        CombineChunk(chunks, k, chunkInits);
        ghost var cdata :| Combined(width, chunks, was, k, cdata) && inits == Combine(width, chunks, was, k, cdata);
        CombineStep(width, chunks, groups, left, was, k, cdata);
      }
    }

    /** Every bit keeps its initial value, and what is left is disjoint, non-touching, fully enabled,
        and covers exactly the addresses of the initialisers that enabled some bit. */
    method CoalesceInits()
      requires Valid()
      modifies this
      ensures Valid() && Coalesced(width, inits)
      ensures forall pos :: BitAt(width, inits, pos) == BitAt(width, old(inits), pos)
      ensures forall x :: Covered(width, inits, x) <==> Covered(width, DropInert(old(inits)), x)
    {
      ghost var was := inits;
      var chunks := FindChunks();
      forall pos ensures BitAt(width, inits, pos) == BitAt(width, was, pos) {
        DropInertBits(width, was, pos);
      }
      var groups := GroupByChunk(chunks);
      var left := groups.Keys;
      while left != {}
        invariant Valid() && Rewritten(width, chunks, groups, left, inits)
        invariant forall pos :: BitAt(width, inits, pos) == BitAt(width, was, pos)
        decreases |left|
      {
        var c := AnyOf(left);
        assert IsStart(chunks, c);
        var k :| 0 <= k < |chunks| && chunks[k].start == c;
        RewriteChunk(chunks, groups, left, k, groups[c]);
        left := left - {c};
      }
      AllSingle(width, chunks, groups, inits);
    }
  }

  function Lookup(groups: map<int, seq<nat>>, c: int): seq<nat> {
    if c in groups then groups[c] else []
  }

  /** The groups hold the members among the first `i` initialisers. */
  ghost predicate Grouped(cs: seq<Chunk>, inits: seq<Init>, groups: map<int, seq<nat>>, i: nat)
    requires Separated(cs) && i <= |inits|
  {
    GroupKeys(cs, groups) && OwnersIn(cs, inits, groups, i) && AllHold(cs, inits, groups, i)
  }

  ghost predicate GroupKeys(cs: seq<Chunk>, groups: map<int, seq<nat>>) {
    forall c :: c in groups ==> IsStart(cs, c) && groups[c] != []
  }

  ghost predicate OwnersIn(cs: seq<Chunk>, inits: seq<Init>, groups: map<int, seq<nat>>, i: nat)
    requires Separated(cs) && i <= |inits|
  {
    forall j :: 0 <= j < i && !inits[j].removed ==> OwnStart(cs, inits[j].addr) in groups
  }

  ghost predicate AllHold(cs: seq<Chunk>, inits: seq<Init>, groups: map<int, seq<nat>>, i: nat)
    requires Separated(cs) && i <= |inits|
  {
    forall c :: HoldsMembers(cs, inits, groups, i, c)
  }

  ghost predicate HoldsMembers(cs: seq<Chunk>, inits: seq<Init>, groups: map<int, seq<nat>>, i: nat, c: int)
    requires Separated(cs) && i <= |inits|
  {
    Lookup(groups, c) == Members(cs, inits, c, i)
  }

  lemma {:induction false} GroupStep(cs: seq<Chunk>, inits: seq<Init>, groups: map<int, seq<nat>>, i: nat)
    requires Separated(cs) && i < |inits| && Grouped(cs, inits, groups, i) && !inits[i].removed
    requires IsStart(cs, OwnStart(cs, inits[i].addr))
    ensures var c := OwnStart(cs, inits[i].addr);
            Grouped(cs, inits, groups[c := Lookup(groups, c) + [i]], i + 1)
  {
    var c := OwnStart(cs, inits[i].addr);
    KeysStep(cs, groups, c, Lookup(groups, c) + [i]);
    HoldStep(cs, inits, groups, i);
  }

  lemma {:induction false} GroupsProgress(w: nat, cs: seq<Chunk>, inits: seq<Init>, groups: map<int, seq<nat>>)
    requires Separated(cs) && Grouped(cs, inits, groups, |inits|)
    ensures Progress(w, cs, groups, groups.Keys, inits) && Owned(cs, groups, inits)
  {
    forall c | c in groups ensures groups[c] == Members(cs, inits, c, |inits|) {
      assert HoldsMembers(cs, inits, groups, |inits|, c);
    }
  }

  lemma {:induction false} KeysStep(cs: seq<Chunk>, groups: map<int, seq<nat>>, c: int, l: seq<nat>)
    requires GroupKeys(cs, groups) && IsStart(cs, c) && l != []
    ensures GroupKeys(cs, groups[c := l])
  {
  }

  lemma {:induction false} HoldOne(cs: seq<Chunk>, inits: seq<Init>, groups: map<int, seq<nat>>, i: nat, d: int)
    requires Separated(cs) && i < |inits| && HoldsMembers(cs, inits, groups, i, d) && !inits[i].removed
    ensures var c := OwnStart(cs, inits[i].addr);
            HoldsMembers(cs, inits, groups[c := Lookup(groups, c) + [i]], i + 1, d)
  {
    MembersNext(cs, inits, d, i);
  }

  lemma {:induction false} HoldStep(cs: seq<Chunk>, inits: seq<Init>, groups: map<int, seq<nat>>, i: nat)
    requires Separated(cs) && i < |inits| && AllHold(cs, inits, groups, i) && !inits[i].removed
    ensures var c := OwnStart(cs, inits[i].addr); AllHold(cs, inits, groups[c := Lookup(groups, c) + [i]], i + 1)
  {
    var c, n := OwnStart(cs, inits[i].addr), i + 1;
    var next := groups[c := Lookup(groups, c) + [i]];
    forall d ensures HoldsMembers(cs, inits, next, n, d) {
      HoldOne(cs, inits, groups, i, d);
    }
  }

  lemma {:induction false} MembersNext(cs: seq<Chunk>, inits: seq<Init>, c: int, i: nat)
    requires Separated(cs) && i < |inits|
    ensures Members(cs, inits, c, i + 1) == if Belongs(cs, inits[i], c)
            then Members(cs, inits, c, i) + [i] else Members(cs, inits, c, i)
  {
  }

  lemma {:induction false} GroupSkip(cs: seq<Chunk>, inits: seq<Init>, groups: map<int, seq<nat>>, i: nat)
    requires Separated(cs) && i < |inits| && Grouped(cs, inits, groups, i) && inits[i].removed
    ensures Grouped(cs, inits, groups, i + 1)
  {
    var n := i + 1;
    forall d ensures HoldsMembers(cs, inits, groups, n, d) {
      assert HoldsMembers(cs, inits, groups, i, d);
      MembersNext(cs, inits, d, i);
    }
  }

  /** The listed initialisers marked as removed. */
  function Marked(inits: seq<Init>, l: seq<nat>): (r: seq<Init>)
    ensures |r| == |inits|
  {
    seq(|inits|, i requires 0 <= i < |inits| => if i in l then inits[i].(removed := true) else inits[i])
  }

  lemma {:induction false} MarkedStep(inits: seq<Init>, l: seq<nat>, m: nat)
    requires Ascending(l) && m < |l| && l[m] < |inits|
    ensures l[m] !in l[..m]
    ensures Marked(inits, l[..m + 1]) == Marked(inits, l[..m])[l[m] := inits[l[m]].(removed := true)]
  {
    assert l[..m + 1] == l[..m] + [l[m]];
  }

  lemma {:induction false} MarkedAll(cs: seq<Chunk>, inits: seq<Init>, c: int)
    requires Separated(cs)
    ensures Marked(inits, Members(cs, inits, c, |inits|)) == Removed(cs, inits, c)
  {
    MembersAll(cs, inits, c, |inits|);
    var l := Members(cs, inits, c, |inits|);
    forall i | 0 <= i < |inits| ensures i in l <==> Belongs(cs, inits[i], c) {
      if i in l {
        var q :| 0 <= q < |l| && l[q] == i;
      }
    }
  }

  lemma {:induction false} OwnedStart(w: nat, cs: seq<Chunk>, inits: seq<Init>, i: nat)
    requires Placed(w, cs, inits) && i < |inits| && !inits[i].removed
    ensures UpperBound(cs, Start, inits[i].addr) > 0
    ensures var k := UpperBound(cs, Start, inits[i].addr) - 1;
            cs[k].start == OwnStart(cs, inits[i].addr) && InChunk(cs[k], inits[i].addr, End(w, inits[i]))
  {
    var k :| 0 <= k < |cs| && InChunk(cs[k], inits[i].addr, End(w, inits[i]));
    OffEnd(w, inits[i]);
    OwnIs(cs, inits[i].addr, End(w, inits[i]), k);
  }

  lemma {:induction false} InsideChunk(w: nat, cs: seq<Chunk>, inits: seq<Init>, k: nat, i: nat)
    requires Placed(w, cs, inits) && k < |cs| && i < |inits| && Belongs(cs, inits[i], cs[k].start)
    ensures 0 <= Off(w, inits[i].addr - cs[k].start)
    ensures Off(w, inits[i].addr - cs[k].start) + |inits[i].data| <= Off(w, cs[k].end - cs[k].start)
  {
    OwnChunk(w, cs, inits[i], k);
    OffEnd(w, inits[i]);
    OffMono(w, 0, inits[i].addr - cs[k].start);
    OffAdd(w, cs[k].start, inits[i].addr - cs[k].start);
    OffAdd(w, cs[k].start, cs[k].end - cs[k].start);
    OffMono(w, End(w, inits[i]), cs[k].end);
  }

  /** One member of a chunk written into the combined data. */
  method OverlayMember(w: nat, ghost was: seq<Init>, l: seq<nat>, m: nat, caddr: int, cdata: Const, init: Init)
      returns (r: Const)
    requires AllOk(w, was) && (forall q :: 0 <= q < |l| ==> l[q] < |was|) && m < |l| && init == was[l[m]]
             && !init.removed
    requires Holds(w, was, l[..m], caddr, cdata)
    ensures |r| == |cdata| && Holds(w, was, l[..m + 1], caddr, r)
  {
    r := Overlay(w, cdata, init, Off(w, init.addr - caddr));
    ghost var s := Sub(was, l[..m + 1]);
    assert s[..m] == Sub(was, l[..m]);
    forall p | 0 <= p < |r| ensures r[p] == BitAt(w, s, Off(w, caddr) + p) {
      OverlayBit(w, cdata, s, caddr, p);
    }
  }

  lemma {:induction false} PlaceOne(w: nat, cs: seq<Chunk>, chunks: seq<Chunk>, inits: seq<Init>, init: Init)
    requires Placed(w, cs, inits) && Covers(w, cs, inits) && InitOk(w, init) && !init.removed
    requires Separated(chunks) && Inside(chunks, init.addr, End(w, init))
    requires forall x, y :: Inside(cs, x, y) ==> Inside(chunks, x, y)
    requires forall x :: Touched(chunks, x) <==> Touched(cs, x) || init.addr <= x <= End(w, init)
    ensures Placed(w, chunks, inits + [init]) && Covers(w, chunks, inits + [init])
  {
    var next := inits + [init];
    forall x ensures Covered(w, next, x) <==> Touched(chunks, x) {
      CoveredOneMore(w, inits, init, x);
    }
  }

  lemma {:induction false} CoverNone(w: nat, cs: seq<Chunk>, inits: seq<Init>, init: Init)
    requires Placed(w, cs, inits) && Covers(w, cs, inits) && InitOk(w, init) && init.removed
    ensures Placed(w, cs, inits + [init]) && Covers(w, cs, inits + [init])
  {
    forall x ensures Covered(w, inits + [init], x) <==> Touched(cs, x) {
      CoveredOneMore(w, inits, init, x);
    }
  }

  lemma {:induction false} CoveredOneMore(w: nat, inits: seq<Init>, init: Init, x: int)
    requires w > 0
    ensures Covered(w, inits + [init], x) <==> Covered(w, inits, x) || (!init.removed && init.addr <= x <= End(w, init))
  {
    var next := inits + [init];
    assert next[|inits|] == init;
    if Covered(w, inits, x) {
      var i :| 0 <= i < |inits| && !inits[i].removed && inits[i].addr <= x <= End(w, inits[i]);
      assert next[i] == inits[i];
    }
  }
}
