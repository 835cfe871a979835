/** The chained hash table behind `dict`, `pool` and `idict` (`kernel/hashlib.h`):
    a vector of entries linked by index, and a vector of chain heads. */
module Hashlib {

  const SIZE_TRIGGER := 2
  const SIZE_FACTOR := 3

  datatype Entry<K, T> = Entry(key: K, value: T, next: int)

  // ----- The chains

  function Slot<K>(hash: K -> nat, size: nat, key: K): nat
    requires size > 0
  {
    hash(key) % size
  }

  /** A chain is stored tail first, so that new entries are appended to it. */
  function Head(chain: seq<int>): int {
    if |chain| == 0 then -1 else chain[|chain| - 1]
  }

  function After(chain: seq<int>, j: nat): int
    requires j < |chain|
  {
    if j == 0 then -1 else chain[j - 1]
  }

  /** Every slot heads a chain of entries of that slot, linked through `next`; every entry
      other than `hole` lies on exactly one chain, at the position `place` records. */
  ghost predicate LinkedExcept<K, T>(hash: K -> nat, table: seq<int>, es: seq<Entry<K, T>>,
                                     chains: seq<seq<int>>, place: seq<nat>, hole: int)
  {
    && |table| > 0 && |chains| == |table| && |place| == |es|
    && (forall h :: 0 <= h < |table| ==> table[h] == Head(chains[h]))
    && (forall h, j :: 0 <= h < |table| && 0 <= j < |chains[h]| ==>
        OnChain(hash, |table|, es, chains, place, hole, h, j))
    && (forall i :: 0 <= i < |es| && i != hole ==> Placed(hash, |table|, es, chains, place, i))
  }

  ghost predicate OnChain<K, T>(hash: K -> nat, size: nat, es: seq<Entry<K, T>>,
                                chains: seq<seq<int>>, place: seq<nat>, hole: int, h: int, j: int)
    requires size > 0 && |place| == |es| && 0 <= h < |chains| && 0 <= j < |chains[h]|
  {
    var i := chains[h][j];
    && 0 <= i < |es| && i != hole && place[i] == j
    && Slot(hash, size, es[i].key) == h
    && es[i].next == After(chains[h], j)
  }

  ghost predicate Placed<K, T>(hash: K -> nat, size: nat, es: seq<Entry<K, T>>,
                               chains: seq<seq<int>>, place: seq<nat>, i: int)
    requires size > 0 && |chains| == size && |place| == |es| && 0 <= i < |es|
  {
    var h := Slot(hash, size, es[i].key);
    place[i] < |chains[h]| && chains[h][place[i]] == i
  }

  ghost predicate Linked<K, T>(hash: K -> nat, table: seq<int>, es: seq<Entry<K, T>>,
                               chains: seq<seq<int>>, place: seq<nat>)
  {
    LinkedExcept(hash, table, es, chains, place, -1)
  }

  /** Pushing a new entry at the head of its chain. */
  lemma {:induction false} PushLinked<K, T>(hash: K -> nat, table: seq<int>, es: seq<Entry<K, T>>,
                         chains: seq<seq<int>>, place: seq<nat>, e: Entry<K, T>)
    requires Linked(hash, table, es, chains, place)
    requires e.next == table[Slot(hash, |table|, e.key)]
    ensures var h := Slot(hash, |table|, e.key);
            Linked(hash, table[h := |es|], es + [e], chains[h := chains[h] + [|es|]], place + [|chains[h]|])
  {
    var h := Slot(hash, |table|, e.key);
    var table', es' := table[h := |es|], es + [e];
    var chains', place' := chains[h := chains[h] + [|es|]], place + [|chains[h]|];
    forall g, j | 0 <= g < |table'| && 0 <= j < |chains'[g]|
      ensures OnChain(hash, |table'|, es', chains', place', -1, g, j)
    {
      if g != h || j < |chains[h]| {
        assert OnChain(hash, |table|, es, chains, place, -1, g, j);
      }
    }
    forall i | 0 <= i < |es'|
      ensures Placed(hash, |table'|, es', chains', place', i)
    {
      if i < |es| {
        assert Placed(hash, |table|, es, chains, place, i);
      }
    }
  }

  function Without(chain: seq<int>, p: nat): seq<int>
    requires p < |chain|
  {
    chain[..p] + chain[p + 1..]
  }

  /** Positions behind a removed one move down by one. */
  function ClosedUp<K, T>(hash: K -> nat, size: nat, es: seq<Entry<K, T>>, place: seq<nat>, h: int,
                          p: nat): (r: seq<nat>)
    requires size > 0 && |place| == |es|
    ensures |r| == |es|
  {
    seq(|es|, i requires 0 <= i < |es| =>
      if Slot(hash, size, es[i].key) == h && place[i] > p then place[i] - 1 else place[i])
  }

  /** The table and the entries after the link to `index` is redirected to `target`:
      the head of chain `h` if `index` heads it, else the entry before it. */
  function Redirect<K, T>(table: seq<int>, es: seq<Entry<K, T>>, chains: seq<seq<int>>, h: int, p: nat, target: int)
      : (r: (seq<int>, seq<Entry<K, T>>))
    requires 0 <= h < |table| == |chains| && p < |chains[h]|
    requires p + 1 < |chains[h]| ==> 0 <= chains[h][p + 1] < |es|
    ensures |r.0| == |table| && |r.1| == |es|
  {
    if p == |chains[h]| - 1 then (table[h := target], es)
    else
      var k := chains[h][p + 1];
      (table, es[k := es[k].(next := target)])
  }

  /** What the search along chain `h` relies on. */
  ghost predicate ChainOf<K, T>(table: seq<int>, es: seq<Entry<K, T>>, chains: seq<seq<int>>, place: seq<nat>, h: nat)
    requires h < |table| == |chains| && |place| == |es|
  {
    && table[h] == Head(chains[h])
    && forall j :: 0 <= j < |chains[h]| ==> LinkAt(es, chains[h], place, j)
  }

  ghost predicate LinkAt<K, T>(es: seq<Entry<K, T>>, chain: seq<int>, place: seq<nat>, j: int)
    requires |place| == |es| && 0 <= j < |chain|
  {
    0 <= chain[j] < |es| && place[chain[j]] == j && es[chain[j]].next == After(chain, j)
  }

  lemma {:induction false} ChainOfLinked<K, T>(hash: K -> nat, table: seq<int>, es: seq<Entry<K, T>>,
                            chains: seq<seq<int>>, place: seq<nat>, hole: int, index: int)
    requires LinkedExcept(hash, table, es, chains, place, hole) && 0 <= index < |es| && index != hole
    ensures var h := Slot(hash, |table|, es[index].key);
            && ChainOf(table, es, chains, place, h)
            && place[index] < |chains[h]| && chains[h][place[index]] == index
  {
    var h := Slot(hash, |table|, es[index].key);
    assert Placed(hash, |table|, es, chains, place, index);
    forall j | 0 <= j < |chains[h]|
      ensures LinkAt(es, chains[h], place, j)
    {
      assert OnChain(hash, |table|, es, chains, place, hole, h, j);
    }
  }

  /** Bypassing `index` takes it off its chain and keeps every other entry reachable. */
  lemma {:induction false} UnlinkLinked<K, T>(hash: K -> nat, table: seq<int>, es: seq<Entry<K, T>>,
                           chains: seq<seq<int>>, place: seq<nat>, index: int)
    requires Linked(hash, table, es, chains, place) && 0 <= index < |es|
    ensures var h := Slot(hash, |table|, es[index].key);
            var p := place[index];
            && p < |chains[h]|
            && (p + 1 < |chains[h]| ==> 0 <= chains[h][p + 1] < |es|)
            && var (table', es') := Redirect(table, es, chains, h, p, es[index].next);
            LinkedExcept(hash, table', es', chains[h := Without(chains[h], p)],
                         ClosedUp(hash, |table|, es, place, h, p), index)
  {
    var h := Slot(hash, |table|, es[index].key);
    assert Placed(hash, |table|, es, chains, place, index);
    var p, c := place[index], chains[h];
    assert OnChain(hash, |table|, es, chains, place, -1, h, p);
    assert p + 1 < |c| ==> OnChain(hash, |table|, es, chains, place, -1, h, p + 1);
    var (table', es') := Redirect(table, es, chains, h, p, es[index].next);
    var chains', place' := chains[h := Without(c, p)], ClosedUp(hash, |table|, es, place, h, p);
    forall g, j | 0 <= g < |table'| && 0 <= j < |chains'[g]|
      ensures OnChain(hash, |table'|, es', chains', place', index, g, j)
    {
      UnlinkStep(hash, table, es, chains, place, index, g, j);
    }
    forall i | 0 <= i < |es'| && i != index
      ensures Placed(hash, |table'|, es', chains', place', i)
    {
      assert Placed(hash, |table|, es, chains, place, i);
    }
  }

  lemma {:induction false} UnlinkStep<K, T>(hash: K -> nat, table: seq<int>, es: seq<Entry<K, T>>,
                         chains: seq<seq<int>>, place: seq<nat>, index: int, g: int, j: int)
    requires Linked(hash, table, es, chains, place) && 0 <= index < |es|
    requires Placed(hash, |table|, es, chains, place, index)
    requires var h, p := Slot(hash, |table|, es[index].key), place[index];
             p + 1 < |chains[h]| ==> OnChain(hash, |table|, es, chains, place, -1, h, p + 1)
    requires 0 <= g < |table|
    requires var h, p := Slot(hash, |table|, es[index].key), place[index];
             0 <= j < |chains[h := Without(chains[h], p)][g]|
    ensures var h, p := Slot(hash, |table|, es[index].key), place[index];
            var (table', es') := Redirect(table, es, chains, h, p, es[index].next);
            OnChain(hash, |table|, es', chains[h := Without(chains[h], p)],
                    ClosedUp(hash, |table|, es, place, h, p), index, g, j)
  {
    var h, p := Slot(hash, |table|, es[index].key), place[index];
    assert OnChain(hash, |table|, es, chains, place, -1, h, p);
    var j' := if g == h && j >= p then j + 1 else j;
    assert OnChain(hash, |table|, es, chains, place, -1, g, j');
    if j' > 0 {
      assert OnChain(hash, |table|, es, chains, place, -1, g, j' - 1);
    }
  }

  /** Moving the last entry into the hole, and redirecting the link to it. */
  lemma {:induction false} MoveLinked<K, T>(hash: K -> nat, table: seq<int>, es: seq<Entry<K, T>>,
                         chains: seq<seq<int>>, place: seq<nat>, index: int)
    requires LinkedExcept(hash, table, es, chains, place, index) && 0 <= index < |es| - 1
    ensures var back := |es| - 1;
            var h := Slot(hash, |table|, es[back].key);
            var p := place[back];
            && p < |chains[h]|
            && (p + 1 < |chains[h]| ==> 0 <= chains[h][p + 1] < |es|)
            && var (table', es') := Redirect(table, es, chains, h, p, index);
            es'[back] == es[back]
            && Linked(hash, table', es'[index := es'[back]][..back],
                      chains[h := chains[h][p := index]], place[index := p][..back])
  {
    var back := |es| - 1;
    var h := Slot(hash, |table|, es[back].key);
    assert Placed(hash, |table|, es, chains, place, back);
    var p, c := place[back], chains[h];
    assert OnChain(hash, |table|, es, chains, place, index, h, p);
    if p + 1 < |c| {
      assert OnChain(hash, |table|, es, chains, place, index, h, p + 1);
    }
    var (table', es1) := Redirect(table, es, chains, h, p, index);
    var es' := es1[index := es1[back]][..back];
    var chains', place' := chains[h := c[p := index]], place[index := p][..back];
    forall g, j | 0 <= g < |table'| && 0 <= j < |chains'[g]|
      ensures OnChain(hash, |table'|, es', chains', place', -1, g, j)
    {
      assert OnChain(hash, |table|, es, chains, place, index, g, j);
      if j > 0 {
        assert OnChain(hash, |table|, es, chains, place, index, g, j - 1);
      }
    }
    forall i | 0 <= i < |es'|
      ensures Placed(hash, |table'|, es', chains', place', i)
    {
      if i != index {
        assert Placed(hash, |table|, es, chains, place, i);
      }
    }
  }

  /** Dropping a last entry that no chain holds. */
  lemma {:induction false} DropLinked<K, T>(hash: K -> nat, table: seq<int>, es: seq<Entry<K, T>>,
                         chains: seq<seq<int>>, place: seq<nat>)
    requires |es| > 0 && LinkedExcept(hash, table, es, chains, place, |es| - 1)
    ensures Linked(hash, table, es[..|es| - 1], chains, place[..|es| - 1])
  {
    var es', place' := es[..|es| - 1], place[..|es| - 1];
    forall g, j | 0 <= g < |table| && 0 <= j < |chains[g]|
      ensures OnChain(hash, |table|, es', chains, place', -1, g, j)
    {
      assert OnChain(hash, |table|, es, chains, place, |es| - 1, g, j);
    }
    forall i | 0 <= i < |es'|
      ensures Placed(hash, |table|, es', chains, place', i)
    {
      assert Placed(hash, |table|, es, chains, place, i);
    }
  }

  // ----- The abstract value

  function ItemsOf<K, T>(es: seq<Entry<K, T>>): (items: seq<(K, T)>)
    ensures |items| == |es|
  {
    seq(|es|, i requires 0 <= i < |es| => (es[i].key, es[i].value))
  }

  ghost predicate DistinctKeys<K, T>(items: seq<(K, T)>) {
    forall i, j :: 0 <= i < j < |items| ==> items[i].0 != items[j].0
  }

  /** The finite map that a list of items stands for. */
  ghost function MapOf<K, T>(items: seq<(K, T)>): map<K, T> {
    if items == [] then map[]
    else
      var last := |items| - 1;
      MapOf(items[..last])[items[last].0 := items[last].1]
  }

  lemma {:induction false} InMap<K, T>(items: seq<(K, T)>, i: nat)
    requires DistinctKeys(items) && i < |items|
    ensures items[i].0 in MapOf(items) && MapOf(items)[items[i].0] == items[i].1
  {
    if i < |items| - 1 {
      InMap(items[..|items| - 1], i);
    }
  }

  lemma {:induction false} FindInMap<K, T>(items: seq<(K, T)>, key: K) returns (i: nat)
    requires DistinctKeys(items) && key in MapOf(items)
    ensures i < |items| && items[i] == (key, MapOf(items)[key])
  {
    var last := |items| - 1;
    if items[last].0 == key {
      i := last;
    } else {
      i := FindInMap(items[..last], key);
    }
  }

  lemma {:induction false} MapOfPush<K, T>(items: seq<(K, T)>, key: K, value: T)
    requires DistinctKeys(items) && forall i :: 0 <= i < |items| ==> items[i].0 != key
    ensures DistinctKeys(items + [(key, value)])
    ensures key !in MapOf(items)
    ensures MapOf(items + [(key, value)]) == MapOf(items)[key := value]
  {
    assert (items + [(key, value)])[..|items|] == items;
    if key in MapOf(items) {
      var i := FindInMap(items, key);
    }
  }

  /** Item `i` removed by moving the last item into the gap. */
  ghost predicate Removed<X>(s: seq<X>, s': seq<X>, i: int) {
    && 0 <= i < |s| && |s'| == |s| - 1
    && forall j :: 0 <= j < |s'| ==> s'[j] == s[if j == i then |s'| else j]
  }

  lemma {:induction false} MapOfRemoved<K, T>(items: seq<(K, T)>, items': seq<(K, T)>, i: nat)
    requires DistinctKeys(items) && Removed(items, items', i)
    ensures DistinctKeys(items')
    ensures MapOf(items') == MapOf(items) - {items[i].0}
  {
    var m, m' := MapOf(items), MapOf(items');
    forall k | k in m'
      ensures k in m && k != items[i].0 && m[k] == m'[k]
    {
      var j := FindInMap(items', k);
      InMap(items, if j == i then |items'| else j);
    }
    forall k | k in m && k != items[i].0
      ensures k in m'
    {
      var j := FindInMap(items, k);
      InMap(items', if j == |items'| then i else j);
    }
  }

  /** The contents of a table do not depend on the order of its entries. */
  lemma {:induction false} MapOfPermutation<K, T>(items: seq<(K, T)>, items': seq<(K, T)>)
    requires DistinctKeys(items) && multiset(items) == multiset(items')
    ensures DistinctKeys(items') && MapOf(items') == MapOf(items)
  {
    PermutationDistinct(items, items');
    MapOfSubset(items, items');
    MapOfSubset(items', items);
  }

  lemma {:induction false} MapOfSubset<K, T>(items: seq<(K, T)>, items': seq<(K, T)>)
    requires DistinctKeys(items) && DistinctKeys(items') && multiset(items) <= multiset(items')
    ensures forall k :: k in MapOf(items) ==> k in MapOf(items') && MapOf(items')[k] == MapOf(items)[k]
  {
    forall k | k in MapOf(items)
      ensures k in MapOf(items') && MapOf(items')[k] == MapOf(items)[k]
    {
      var i := FindInMap(items, k);
      assert items[i] in multiset(items');
      var j :| 0 <= j < |items'| && items'[j] == items[i];
      InMap(items', j);
    }
  }

  lemma {:induction false} PermutationDistinct<K, T>(items: seq<(K, T)>, items': seq<(K, T)>)
    requires DistinctKeys(items) && multiset(items) == multiset(items')
    ensures DistinctKeys(items')
  {
    forall i, j | 0 <= i < j < |items'|
      ensures items'[i].0 != items'[j].0
    {
      var x, y := items'[i], items'[j];
      assert items' == items'[..i] + [x] + items'[i + 1..j] + [y] + items'[j + 1..];
      assert x in multiset(items) && y in multiset(items);
      OnceOnly(items, x);
    }
  }

  lemma {:induction false} OnceOnly<K, T>(items: seq<(K, T)>, x: (K, T))
    requires DistinctKeys(items)
    ensures multiset(items)[x] <= 1
  {
    if |items| > 0 {
      var last := |items| - 1;
      assert items == items[..last] + [items[last]];
      OnceOnly(items[..last], x);
      if items[last] == x {
        assert forall i :: 0 <= i < last ==> items[i] != x;
        assert x !in items[..last];
      }
    }
  }

  lemma {:induction false} ItemsKept<K, T>(es: seq<Entry<K, T>>, i: nat, next: int)
    requires i < |es|
    ensures ItemsOf(es[i := es[i].(next := next)]) == ItemsOf(es)
  {
  }

  // ----- The table

  /** `dict<K, T>`; `pool<K>` is the same table with nothing stored beside the key. */
  class Dict<K(==), T(0)> {
    const hash: K -> nat
    var hashtable: seq<int>
    var entries: seq<Entry<K, T>>
    ghost var chains: seq<seq<int>>
    ghost var place: seq<nat>

    ghost predicate Valid()
      reads this
    {
      && DistinctKeys(Items())
      && (hashtable == [] ==> entries == [])
      && (hashtable != [] ==> Linked(hash, hashtable, entries, chains, place))
    }

    /** The entries in vector order; iteration visits them from the last to the first. */
    ghost function Items(): seq<(K, T)>
      reads this
    {
      ItemsOf(entries)
    }

    ghost function Contents(): map<K, T>
      requires Valid()
      reads this
    {
      MapOf(Items())
    }

    constructor (hash: K -> nat)
      ensures Valid() && this.hash == hash && Contents() == map[]
    {
      this.hash := hash;
      hashtable, entries := [], [];
      chains, place := [], [];
    }

    function DoHash(key: K): nat
      reads this
    {
      if hashtable == [] then 0 else hash(key) % |hashtable|
    }

    /** Rebuilds every chain. The table size follows the capacity of the entry vector,
        which is at least its length and otherwise up to the allocator. */
    method DoRehash()
      requires forall i :: 0 <= i < |entries| ==> -1 <= entries[i].next < |entries|
      requires DistinctKeys(Items())
      modifies this
      ensures Valid() && Items() == old(Items())
      ensures hashtable == [] ==> entries == []
      ensures |hashtable| >= |entries| * SIZE_FACTOR
    {
      var capacity: nat :| capacity >= |entries|;
      var size: nat :| size >= capacity * SIZE_FACTOR;
      hashtable := seq(size, _ => -1);
      if size == 0 {
        return;
      }
      chains, place := seq(size, _ => []), [];
      var i := 0;
      while i < |entries|
        invariant 0 <= i <= |entries| && |hashtable| == size
        invariant Linked(hash, hashtable, entries[..i], chains, place)
        invariant forall j :: i <= j < |entries| ==> -1 <= entries[j].next < |entries|
        invariant Items() == old(Items())
      {
        assert -1 <= entries[i].next < |entries|;
        LinkEntry(i);
        i := i + 1;
      }
      assert entries[..i] == entries;
    }

    /** Puts entry `i` at the head of its chain. */
    method LinkEntry(i: nat)
      requires i < |entries| && |hashtable| > 0 && Linked(hash, hashtable, entries[..i], chains, place)
      modifies this
      ensures |entries| == |old(entries)| && |hashtable| == |old(hashtable)| && Items() == old(Items())
      ensures Linked(hash, hashtable, entries[..i + 1], chains, place)
      ensures forall j :: i < j < |entries| ==> entries[j] == old(entries)[j]
    {
      var h := DoHash(entries[i].key);
      ghost var e, done := entries[i].(next := hashtable[h]), entries[..i];
      PushLinked(hash, hashtable, done, chains, place, e);
      ItemsKept(entries, i, hashtable[h]);
      entries := entries[i := entries[i].(next := hashtable[h])];
      hashtable := hashtable[h := i];
      place := place + [|chains[h]|];
      chains := chains[h := chains[h] + [i]];
      assert entries[..i + 1] == done + [e];
    }

    /** Position of `key`, or -1; may rehash first, and then refreshes the caller's hash. */
    method DoLookup(key: K, hashIn: nat) returns (index: int, hashOut: nat)
      requires Valid() && hashIn == DoHash(key)
      modifies this
      ensures Valid() && Items() == old(Items()) && hashOut == DoHash(key)
      ensures -1 <= index < |entries|
      ensures index >= 0 ==> entries[index].key == key
      ensures index < 0 ==> forall i :: 0 <= i < |entries| ==> entries[i].key != key
      ensures old(hashtable) == [] ==> hashtable == []
      ensures old(hashtable) != [] && entries != [] ==> hashtable != []
      ensures hashtable == [] || |entries| * SIZE_TRIGGER <= |hashtable|
      ensures old(|entries| * SIZE_TRIGGER <= |hashtable|) ==> hashtable == old(hashtable) && entries == old(entries)
    {
      hashOut := hashIn;
      if hashtable == [] {
        return -1, hashOut;
      }
      if |entries| * SIZE_TRIGGER > |hashtable| {
        forall i | 0 <= i < |entries|
          ensures -1 <= entries[i].next < |entries|
        {
          NextInRange(i);
        }
        DoRehash();
        hashOut := DoHash(key);
      }
      index := Walk(key, hashOut);
    }

    /** The search along one chain. */
    method Walk(key: K, h: nat) returns (index: int)
      requires Valid() && hashtable != [] && h == DoHash(key)
      ensures -1 <= index < |entries|
      ensures index >= 0 ==> entries[index].key == key
      ensures index < 0 ==> forall i :: 0 <= i < |entries| ==> entries[i].key != key
    {
      index := hashtable[h];
      ghost var chain := chains[h];
      ghost var j := |chain|;
      assert j > 0 ==> OnChain(hash, |hashtable|, entries, chains, place, -1, h, j - 1);
      while index >= 0 && entries[index].key != key
        invariant 0 <= j <= |chain| && index == (if j == 0 then -1 else chain[j - 1])
        invariant -1 <= index < |entries|
        invariant j > 0 ==> OnChain(hash, |hashtable|, entries, chains, place, -1, h, j - 1)
        invariant forall m :: j <= m < |chain| ==> 0 <= chain[m] < |entries| && entries[chain[m]].key != key
        decreases j
      {
        index := entries[index].next;
        j := j - 1;
        if j > 0 {
          assert OnChain(hash, |hashtable|, entries, chains, place, -1, h, j - 1);
        }
        assert -1 <= index < |entries|;
      }
      if index < 0 {
        forall i | 0 <= i < |entries|
          ensures entries[i].key != key
        {
          assert Placed(hash, |hashtable|, entries, chains, place, i);
        }
      }
    }

    lemma {:induction false} NextInRange(i: int)
      requires Valid() && hashtable != [] && 0 <= i < |entries|
      ensures -1 <= entries[i].next < |entries|
    {
      assert Placed(hash, |hashtable|, entries, chains, place, i);
      var h, p := Slot(hash, |hashtable|, entries[i].key), place[i];
      assert OnChain(hash, |hashtable|, entries, chains, place, -1, h, p);
      if p > 0 {
        assert OnChain(hash, |hashtable|, entries, chains, place, -1, h, p - 1);
      }
    }

    /** Points whatever links to `index` at `target` instead, searching its chain from the head. */
    method RedirectLink(h: nat, index: int, target: int)
      requires h < |hashtable| == |chains| && |place| == |entries| && 0 <= index < |entries|
      requires ChainOf(hashtable, entries, chains, place, h)
      requires place[index] < |chains[h]| && chains[h][place[index]] == index
      modifies this`hashtable, this`entries
      ensures place[index] + 1 < |chains[h]| ==> 0 <= chains[h][place[index] + 1] < |old(entries)|
      ensures (hashtable, entries) == Redirect(old(hashtable), old(entries), chains, h, place[index], target)
    {
      ghost var chain, p := chains[h], place[index];
      assert LinkAt(entries, chain, place, p);
      ghost var j := |chain| - 1;
      assert LinkAt(entries, chain, place, j);
      var k := hashtable[h];
      assert 0 <= k < |entries|;
      if k == index {
        hashtable := hashtable[h := target];
      } else {
        while entries[k].next != index
          invariant p < j < |chain| && k == chain[j] && LinkAt(entries, chain, place, j)
          decreases j
        {
          assert LinkAt(entries, chain, place, j - 1);
          k := entries[k].next;
          j := j - 1;
          assert 0 <= k < |entries|;
        }
        assert LinkAt(entries, chain, place, j - 1);
        entries := entries[k := entries[k].(next := target)];
      }
    }

    /** First half of an erase: entry `index` leaves its chain. */
    method Unlink(index: int, h: nat)
      requires Linked(hash, hashtable, entries, chains, place)
      requires 0 <= index < |entries| && h == DoHash(entries[index].key)
      modifies this
      ensures LinkedExcept(hash, hashtable, entries, chains, place, index) && Items() == old(Items())
    {
      UnlinkLinked(hash, hashtable, entries, chains, place, index);
      ghost var chains' := chains[h := Without(chains[h], place[index])];
      ghost var place' := ClosedUp(hash, |hashtable|, entries, place, h, place[index]);
      ChainOfLinked(hash, hashtable, entries, chains, place, -1, index);
      ghost var items := Items();
      RedirectLink(h, index, entries[index].next);
      chains, place := chains', place';
      assert Items() == items;
    }

    /** Second half: the last entry takes the place of entry `index`, which is on no chain. */
    method MoveLast(index: int)
      requires 0 <= index < |entries| - 1
      requires LinkedExcept(hash, hashtable, entries, chains, place, index)
      modifies this
      ensures Linked(hash, hashtable, entries, chains, place)
      ensures Removed(old(Items()), Items(), index)
    {
      ghost var items := Items();
      var backIdx := |entries| - 1;
      var backHash := DoHash(entries[backIdx].key);
      MoveLinked(hash, hashtable, entries, chains, place, index);
      ChainOfLinked(hash, hashtable, entries, chains, place, index, backIdx);
      ghost var p := place[backIdx];
      RedirectLink(backHash, backIdx, index);
      assert Items() == items;
      entries := entries[index := entries[backIdx]];
      entries := entries[..backIdx];
      chains := chains[backHash := chains[backHash][p := index]];
      place := place[index := p][..backIdx];
    }

    /** Unlinks entry `index` and moves the last entry into its slot. */
    method DoErase(index: int, h: nat) returns (removed: nat)
      requires Valid() && -1 <= index < |entries|
      requires index >= 0 ==> h == DoHash(entries[index].key)
      modifies this
      ensures Valid()
      ensures index < 0 ==> removed == 0 && Items() == old(Items())
      ensures index >= 0 ==> removed == 1 && Removed(old(Items()), Items(), index)
      ensures index >= 0 && entries == [] ==> hashtable == []
    {
      if hashtable == [] || index < 0 {
        return 0;
      }
      Unlink(index, h);
      if index != |entries| - 1 {
        MoveLast(index);
      } else {
        DropLinked(hash, hashtable, entries, chains, place);
        entries, place := entries[..index], place[..index];
      }
      MapOfRemoved(old(Items()), Items(), index);
      if entries == [] {
        hashtable := [];
      }
      return 1;
    }

    method DoInsert(key: K, value: T, h: nat) returns (index: int, hashOut: nat)
      requires Valid() && h == DoHash(key)
      requires forall i :: 0 <= i < |entries| ==> entries[i].key != key
      modifies this
      ensures Valid() && Items() == old(Items()) + [(key, value)]
      ensures index == |entries| - 1 && hashOut == DoHash(key)
    {
      MapOfPush(Items(), key, value);
      ghost var items := Items() + [(key, value)];
      if hashtable == [] {
        entries := entries + [Entry(key, value, -1)];
        assert Items() == items;
        DoRehash();
        hashOut := DoHash(key);
      } else {
        ghost var e := Entry(key, value, hashtable[h]);
        PushLinked(hash, hashtable, entries, chains, place, e);
        place := place + [|chains[h]|];
        chains := chains[h := chains[h] + [|entries|]];
        entries := entries + [Entry(key, value, hashtable[h])];
        hashtable := hashtable[h := |entries| - 1];
        hashOut := h;
        assert Items() == items;
      }
      index := |entries| - 1;
    }

    // ----- The public operations, against the finite map

    lemma {:induction false} EntryInMap(index: int)
      requires Valid() && 0 <= index < |entries|
      ensures entries[index].key in Contents() && Contents()[entries[index].key] == entries[index].value
    {
      InMap(Items(), index);
    }

    lemma {:induction false} AbsentFromMap(key: K)
      requires Valid() && forall i :: 0 <= i < |entries| ==> entries[i].key != key
      ensures key !in Contents()
    {
      if key in Contents() {
        var i := FindInMap(Items(), key);
      }
    }

    /** Inserts unless the key is present; either way reports where the key now is. */
    method Insert(key: K, value: T) returns (index: int, inserted: bool)
      requires Valid()
      modifies this
      ensures Valid()
      ensures inserted <==> key !in old(Contents())
      ensures Contents() == if inserted then old(Contents())[key := value] else old(Contents())
      ensures Items() == if inserted then old(Items()) + [(key, value)] else old(Items())
      ensures 0 <= index < |entries| && entries[index].key == key
    {
      var h := DoHash(key);
      index, h := DoLookup(key, h);
      if index >= 0 {
        EntryInMap(index);
        return index, false;
      }
      AbsentFromMap(key);
      MapOfPush(Items(), key, value);
      index, h := DoInsert(key, value, h);
      assert Items()[index] == (key, value);
      return index, true;
    }

    method Erase(key: K) returns (removed: nat)
      requires Valid()
      modifies this
      ensures Valid() && Contents() == old(Contents()) - {key}
      ensures removed == if key in old(Contents()) then 1 else 0
    {
      var h := DoHash(key);
      var index;
      index, h := DoLookup(key, h);
      if index >= 0 {
        EntryInMap(index);
      } else {
        AbsentFromMap(key);
      }
      ghost var items := Items();
      removed := DoErase(index, h);
      if index >= 0 {
        MapOfRemoved(items, Items(), index);
      }
    }

    /** Erases through an iterator; the result is the iterator to continue with. */
    method EraseAt(index: int) returns (following: int)
      requires Valid() && 0 <= index < |entries|
      modifies this
      ensures Valid() && following == index - 1
      ensures Removed(old(Items()), Items(), index)
      ensures Contents() == old(Contents()) - {old(entries[index].key)}
    {
      ghost var items := Items();
      assert items[index].0 == entries[index].key;
      var _ := DoErase(index, DoHash(entries[index].key));
      MapOfRemoved(items, Items(), index);
      following := index - 1;
    }

    method Count(key: K) returns (n: nat)
      requires Valid()
      modifies this
      ensures Valid() && Items() == old(Items())
      ensures n == if key in Contents() then 1 else 0
    {
      var index, _ := DoLookup(key, DoHash(key));
      if index >= 0 {
        EntryInMap(index);
      } else {
        AbsentFromMap(key);
      }
      n := if index < 0 then 0 else 1;
    }

    /** `at` with a default: the stored value, if there is one. */
    method At(key: K, default: T) returns (value: T)
      requires Valid()
      modifies this
      ensures Valid() && Items() == old(Items())
      ensures value == if key in Contents() then Contents()[key] else default
    {
      var index, _ := DoLookup(key, DoHash(key));
      if index >= 0 {
        EntryInMap(index);
        value := entries[index].value;
      } else {
        AbsentFromMap(key);
        value := default;
      }
    }

    /** Sorting puts the entry vector into descending order, so that iteration ascends, and relinks it. */
    method Sort(comp: (K, K) -> bool)
      requires Valid() && StrictOn(comp, Contents().Keys)
      modifies this
      ensures Valid() && Contents() == old(Contents()) && multiset(Items()) == multiset(old(Items()))
      ensures forall i, j :: 0 <= i < j < |Items()| ==> !comp(Items()[i].0, Items()[j].0)
    {
      forall i | 0 <= i < |entries| ensures entries[i].key in Contents() {
        EntryInMap(i);
      }
      var sorted := SortEntries(comp, entries, Contents().Keys);
      Reorder(sorted);
    }

    /** The entries in another order, relinked. */
    method Reorder(sorted: seq<Entry<K, T>>)
      requires Valid() && multiset(sorted) == multiset(entries)
      modifies this
      ensures Valid() && Contents() == old(Contents()) && Items() == ItemsOf(sorted)
      ensures multiset(Items()) == multiset(old(Items()))
    {
      ItemsPermuted(entries, sorted);
      MapOfPermutation(Items(), ItemsOf(sorted));
      assert |sorted| == |multiset(sorted)| == |entries|;
      forall i | 0 <= i < |sorted|
        ensures -1 <= sorted[i].next < |sorted|
      {
        assert sorted[i] in multiset(entries);
        var j :| 0 <= j < |entries| && entries[j] == sorted[i];
        NextInRange(j);
      }
      entries := sorted;
      DoRehash();
    }

    /** The loop `for (it = begin(); it != end();)` that erases where `drop` holds and steps
        otherwise: it meets every entry that was present exactly once. */
    method EraseWhere(drop: (K, T) -> bool) returns (ghost visited: seq<(K, T)>)
      requires Valid()
      modifies this
      ensures Valid()
      ensures multiset(visited) == multiset(old(Items()))
      ensures multiset(Items()) == multiset(Kept(old(Items()), drop))
      ensures forall k :: k in Contents() <==> k in old(Contents()) && !drop(k, old(Contents())[k])
      ensures forall k :: k in Contents() ==> Contents()[k] == old(Contents())[k]
    {
      visited := [];
      ghost var items := Items();
      assert items[..|entries|] == items;
      var it := |entries| - 1;
      while it != -1
        invariant Valid() && -1 <= it < |items|
        invariant Sweeping(items, Items(), visited, it, drop)
        decreases it
      {
        ghost var now := Items();
        assert now[..it + 1][it] == items[..it + 1][it];
        var dropped := drop(entries[it].key, entries[it].value);
        if dropped {
          it := EraseAt(it);
        } else {
          it := it - 1;
        }
        SweepStep(items, now, Items(), visited, it + 1, drop);
        visited := visited + [items[it + 1]];
      }
      SweepEnd(items, Items(), visited, drop);
    }
  }

  /** Between steps of an erasing loop: the part still to visit is untouched, the rest holds
      what was kept of the part visited, and that part was visited once. */
  ghost predicate Sweeping<K, T>(items: seq<(K, T)>, now: seq<(K, T)>, visited: seq<(K, T)>, it: int,
                                 drop: (K, T) -> bool)
    requires -1 <= it < |items|
  {
    && it < |now| && now[..it + 1] == items[..it + 1]
    && multiset(now) == multiset(items[..it + 1]) + multiset(Kept(items[it + 1..], drop))
    && multiset(visited) == multiset(items[it + 1..])
  }

  lemma {:induction false} SweepStep<K, T>(items: seq<(K, T)>, now: seq<(K, T)>, now': seq<(K, T)>,
                                           visited: seq<(K, T)>,
                        it: nat, drop: (K, T) -> bool)
    requires it < |items| && Sweeping(items, now, visited, it, drop)
    requires if drop(items[it].0, items[it].1) then Removed(now, now', it) else now' == now
    ensures Sweeping(items, now', visited + [items[it]], it - 1, drop)
  {
    assert now[it] == now[..it + 1][it];
    assert now[..it] == now[..it + 1][..it];
    SplitOff(items, it, drop);
    var x, k := multiset{items[it]}, multiset(Kept(items[it + 1..], drop));
    if drop(items[it].0, items[it].1) {
      RemovedMultiset(now, now', it);
      assert now'[..it] == now[..it];
      DropOne(multiset(now'), multiset(now), multiset(items[..it]), x, k);
    } else {
      KeepOne(multiset(items[..it]), x, k);
    }
  }

  lemma {:induction false} DropOne<X>(now': multiset<X>, now: multiset<X>, front: multiset<X>, x: multiset<X>,
                                      k: multiset<X>)
    requires now == now' + x && now == front + x + k
    ensures now' == front + k
  {
    assert front + x + k == front + k + x;
    Cancel(now', front + k, x);
  }

  lemma {:induction false} KeepOne<X>(front: multiset<X>, x: multiset<X>, k: multiset<X>)
    ensures front + x + k == front + (k + x)
  {
  }

  lemma {:induction false} SweepEnd<K, T>(items: seq<(K, T)>, now: seq<(K, T)>, visited: seq<(K, T)>,
                                          drop: (K, T) -> bool)
    requires Sweeping(items, now, visited, -1, drop) && DistinctKeys(items) && DistinctKeys(now)
    ensures multiset(visited) == multiset(items) && multiset(now) == multiset(Kept(items, drop))
    ensures forall k :: k in MapOf(now) <==> k in MapOf(items) && !drop(k, MapOf(items)[k])
    ensures forall k :: k in MapOf(now) ==> MapOf(now)[k] == MapOf(items)[k]
  {
    assert items[0..] == items && items[..0] == [];
    KeptContents(items, now, drop);
  }

  lemma {:induction false} Cancel<X>(a: multiset<X>, b: multiset<X>, x: multiset<X>)
    requires a + x == b + x
    ensures a == b
  {
    assert a == (a + x) - x;
    assert b == (b + x) - x;
  }

  lemma {:induction false} SplitOff<K, T>(items: seq<(K, T)>, it: nat, drop: (K, T) -> bool)
    requires it < |items|
    ensures multiset(items[it..]) == multiset(items[it + 1..]) + multiset{items[it]}
    ensures multiset(items[..it + 1]) == multiset(items[..it]) + multiset{items[it]}
    ensures items[..it + 1][..it] == items[..it]
    ensures multiset(Kept(items[it..], drop)) ==
            multiset(Kept(items[it + 1..], drop)) + if drop(items[it].0, items[it].1)
                then multiset{} else multiset{items[it]}
  {
    assert items[it..] == [items[it]] + items[it + 1..];
    assert items[..it + 1] == items[..it] + [items[it]];
  }

  /** The items an erasing loop leaves, in some order. */
  function Kept<K, T>(items: seq<(K, T)>, drop: (K, T) -> bool): seq<(K, T)> {
    if items == [] then []
    else (if drop(items[0].0, items[0].1) then [] else [items[0]]) + Kept(items[1..], drop)
  }

  lemma {:induction false} KeptMembers<K, T>(items: seq<(K, T)>, drop: (K, T) -> bool, x: (K, T))
    ensures x in Kept(items, drop) <==> x in items && !drop(x.0, x.1)
  {
    if items != [] {
      KeptMembers(items[1..], drop, x);
      assert items == [items[0]] + items[1..];
    }
  }

  lemma {:induction false} KeptContents<K, T>(items: seq<(K, T)>, items': seq<(K, T)>, drop: (K, T) -> bool)
    requires DistinctKeys(items) && DistinctKeys(items') && multiset(items') == multiset(Kept(items, drop))
    ensures forall k :: k in MapOf(items') <==> k in MapOf(items) && !drop(k, MapOf(items)[k])
    ensures forall k :: k in MapOf(items') ==> MapOf(items')[k] == MapOf(items)[k]
  {
    forall k | k in MapOf(items')
      ensures k in MapOf(items) && !drop(k, MapOf(items)[k]) && MapOf(items')[k] == MapOf(items)[k]
    {
      var i := FindInMap(items', k);
      assert items'[i] in multiset(Kept(items, drop));
      KeptMembers(items, drop, items'[i]);
      var j :| 0 <= j < |items| && items[j] == items'[i];
      InMap(items, j);
    }
    forall k | k in MapOf(items) && !drop(k, MapOf(items)[k])
      ensures k in MapOf(items')
    {
      var i := FindInMap(items, k);
      KeptMembers(items, drop, items[i]);
      assert items[i] in multiset(items');
      var j :| 0 <= j < |items'| && items'[j] == items[i];
      InMap(items', j);
    }
  }

  lemma {:induction false} RemovedMultiset<X>(s: seq<X>, s': seq<X>, i: nat)
    requires Removed(s, s', i)
    ensures multiset(s) == multiset(s') + multiset{s[i]}
  {
    var last := |s| - 1;
    assert s == s[..last] + [s[last]];
    if i == last {
      assert s' == s[..last];
    } else {
      assert s[..last] == s'[i := s[i]];
      UpdatedMultiset(s', i, s[i]);
    }
  }

  lemma {:induction false} UpdatedMultiset<X>(s: seq<X>, i: nat, x: X)
    requires i < |s|
    ensures multiset(s[i := x]) + multiset{s[i]} == multiset(s) + multiset{x}
  {
    assert s == s[..i] + [s[i]] + s[i + 1..];
    assert s[i := x] == s[..i] + [x] + s[i + 1..];
  }

  lemma {:induction false} ItemsPermuted<K, T>(es: seq<Entry<K, T>>, es': seq<Entry<K, T>>)
    requires multiset(es) == multiset(es')
    ensures multiset(ItemsOf(es)) == multiset(ItemsOf(es'))
    decreases |es|
  {
    assert |multiset(es)| == |es| && |multiset(es')| == |es'|;
    if |es| > 0 {
      var last := |es| - 1;
      assert es[last] in multiset(es');
      var j :| 0 <= j < |es'| && es'[j] == es[last];
      var rest := RemoveFrom(es, last);
      var rest' := RemoveFrom(es', j);
      Cancel(multiset(rest), multiset(rest'), multiset{es[last]});
      ItemsPermuted(rest, rest');
      RemovedMultiset(ItemsOf(es), ItemsOf(rest), last);
      RemovedMultiset(ItemsOf(es'), ItemsOf(rest'), j);
    }
  }

  lemma {:induction false} RemoveFrom<X>(s: seq<X>, i: nat) returns (s': seq<X>)
    requires i < |s|
    ensures Removed(s, s', i) && multiset(s) == multiset(s') + multiset{s[i]}
  {
    var last := |s| - 1;
    s' := if i == last then s[..last] else s[i := s[last]][..last];
    RemovedMultiset(s, s', i);
  }

  // ----- Sorting entries

  /** A strict order on the keys. */
  ghost predicate StrictOn<K>(comp: (K, K) -> bool, keys: set<K>) {
    && (forall x :: x in keys ==> !comp(x, x))
    && (forall x, y, z :: x in keys && y in keys && z in keys && comp(x, y) && comp(y, z) ==> comp(x, z))
  }

  ghost predicate KeysIn<K, T>(es: seq<Entry<K, T>>, keys: set<K>) {
    forall i :: 0 <= i < |es| ==> es[i].key in keys
  }

  /** No entry comes before one that is larger. */
  ghost predicate Descending<K, T>(comp: (K, K) -> bool, es: seq<Entry<K, T>>) {
    forall i, j :: 0 <= i < j < |es| ==> !comp(es[i].key, es[j].key)
  }

  lemma {:induction false} NoneLarger<K, T>(comp: (K, K) -> bool, s: seq<Entry<K, T>>, x: Entry<K, T>, p: nat,
                                            keys: set<K>)
    requires StrictOn(comp, keys) && KeysIn(s, keys) && x.key in keys && Descending(comp, s) && p <= |s|
    requires p < |s| ==> comp(s[p].key, x.key)
    ensures forall q :: p <= q < |s| ==> !comp(x.key, s[q].key)
  {
    forall q | p <= q < |s| ensures !comp(x.key, s[q].key) {
      assert s[p].key in keys && s[q].key in keys && !comp(s[p].key, s[q].key);
    }
  }

  lemma {:induction false} InsertedAt<X>(s: seq<X>, x: X, p: nat)
    requires p <= |s|
    ensures var r := s[..p] + [x] + s[p..];
            && multiset(r) == multiset(s) + multiset{x}
            && forall i :: 0 <= i < |r| ==> r[i] == if i < p then s[i] else if i == p then x else s[i - 1]
  {
    assert s == s[..p] + s[p..];
  }

  lemma {:induction false} Inserted<K, T>(comp: (K, K) -> bool, s: seq<Entry<K, T>>, x: Entry<K, T>, p: nat,
                                          keys: set<K>)
    requires StrictOn(comp, keys) && KeysIn(s, keys) && x.key in keys && Descending(comp, s) && p <= |s|
    requires (forall i :: 0 <= i < p ==> !comp(s[i].key, x.key)) && (p < |s| ==> comp(s[p].key, x.key))
    ensures var r := s[..p] + [x] + s[p..];
            Descending(comp, r) && KeysIn(r, keys) && multiset(r) == multiset(s) + multiset{x}
  {
    InsertedAt(s, x, p);
    NoneLarger(comp, s, x, p, keys);
    var r := s[..p] + [x] + s[p..];
    forall i, j | 0 <= i < j < |r| ensures !comp(r[i].key, r[j].key) {
      var i', j' := if i <= p then i else i - 1, if j <= p then j else j - 1;
      assert i != p && j != p ==> !comp(s[i'].key, s[j'].key);
    }
  }

  /** What `std::sort` promises. */
  method SortEntries<K, T>(comp: (K, K) -> bool, es: seq<Entry<K, T>>, ghost keys: set<K>)
      returns (sorted: seq<Entry<K, T>>)
    requires StrictOn(comp, keys) && KeysIn(es, keys)
    ensures multiset(sorted) == multiset(es) && Descending(comp, sorted)
  {
    sorted := [];
    for i := 0 to |es|
      invariant multiset(sorted) == multiset(es[..i]) && Descending(comp, sorted) && KeysIn(sorted, keys)
    {
      var p := 0;
      while p < |sorted| && !comp(sorted[p].key, es[i].key)
        invariant 0 <= p <= |sorted| && forall k :: 0 <= k < p ==> !comp(sorted[k].key, es[i].key)
      {
        p := p + 1;
      }
      Inserted(comp, sorted, es[i], p, keys);
      assert es[..i + 1] == es[..i] + [es[i]];
      sorted := sorted[..p] + [es[i]] + sorted[p..];
    }
    assert es[..|es|] == es;
  }
}
