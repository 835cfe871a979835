/** `pool` of `kernel/hashlib.h`: the hash table of a `dict` with nothing stored beside the key, read as a set. */
module Pools {
  import opened Hashlib

  /** A list of entries with distinct keys has as many keys as entries. */
  lemma {:induction false} SizeOfMap<K, T>(items: seq<(K, T)>)
    requires DistinctKeys(items)
    ensures |MapOf(items).Keys| == |items|
  {
    if items != [] {
      var last := |items| - 1;
      var front := items[..last];
      SizeOfMap(front);
      KeyInItems(front, items[last].0);
      assert MapOf(items).Keys == MapOf(front).Keys + {items[last].0};
    }
  }

  /** The keys of the map are the keys of the entries. */
  lemma {:induction false} KeyInItems<K, T>(items: seq<(K, T)>, k: K)
    ensures k in MapOf(items) <==> exists i :: 0 <= i < |items| && items[i].0 == k
  {
    if items != [] {
      var last := |items| - 1;
      KeyInItems(items[..last], k);
      if exists i :: 0 <= i < |items[..last]| && items[..last][i].0 == k {
        var i :| 0 <= i < |items[..last]| && items[..last][i].0 == k;
        assert items[i].0 == k;
      }
      if exists i :: 0 <= i < |items| && items[i].0 == k {
        var i :| 0 <= i < |items| && items[i].0 == k;
        assert i == last || items[..last][i].0 == k;
      }
    }
  }

  lemma {:induction false} SubsetOfSize<K>(s: set<K>, t: set<K>)
    requires s <= t && |s| == |t|
    ensures s == t
  {
    assert t == s + (t - s);
    assert |t - s| == 0;
  }

  class Pool<K(==)> {
    const table: Dict<K, ()>

    ghost predicate Valid()
      reads this, table
    {
      table.Valid()
    }

    ghost function Elements(): set<K>
      requires Valid()
      reads this, table
    {
      table.Contents().Keys
    }

    constructor (hash: K -> nat)
      ensures Valid() && Elements() == {} && fresh(table)
    {
      table := new Dict(hash);
    }

    method Insert(value: K) returns (inserted: bool)
      requires Valid()
      modifies table
      ensures Valid() && Elements() == old(Elements()) + {value} && (inserted <==> value !in old(Elements()))
    {
      var index;
      index, inserted := table.Insert(value, ());
    }

    method Erase(key: K) returns (removed: nat)
      requires Valid()
      modifies table
      ensures Valid() && Elements() == old(Elements()) - {key} && removed == if key in old(Elements()) then 1 else 0
    {
      removed := table.Erase(key);
    }

    method Count(key: K) returns (n: nat)
      requires Valid()
      modifies table
      ensures Valid() && table.Items() == old(table.Items()) && n == if key in Elements() then 1 else 0
    {
      n := table.Count(key);
    }

    method Size() returns (n: nat)
      requires Valid()
      ensures n == |Elements()|
    {
      SizeOfMap(table.Items());
      n := |table.entries|;
    }

    /** Takes out the element that iteration meets first: the one inserted last. */
    method Pop() returns (key: K)
      requires Valid() && Elements() != {}
      modifies table
      ensures Valid() && key in old(Elements()) && Elements() == old(Elements()) - {key}
      ensures var items := old(table.Items()); |items| > 0 && items[|items| - 1].0 == key
    {
      SizeOfMap(table.Items());
      var it := |table.entries| - 1;
      key := table.entries[it].key;
      assert table.Items()[it].0 == key;
      KeyInItems(table.Items(), key);
      var _ := table.EraseAt(it);
    }

    /** `operator==`: as many elements, all of them in the other. */
    method Equals(other: Pool<K>) returns (same: bool)
      requires Valid() && other.Valid()
      modifies other.table
      ensures Valid() && other.Valid() && table.Items() == old(table.Items())
              && other.table.Items() == old(other.table.Items())
      ensures same <==> Elements() == other.Elements()
    {
      var n := Size();
      var m := other.Size();
      if n != m {
        return false;
      }
      for i := 0 to |table.entries|
        invariant Valid() && other.Valid() && table.Items() == old(table.Items())
                  && other.table.Items() == old(other.table.Items())
        invariant forall j :: 0 <= j < i ==> table.Items()[j].0 in other.Elements()
      {
        var key := table.entries[i].key;
        assert table.Items()[i].0 == key;
        KeyInItems(table.Items(), key);
        var found := other.Count(key);
        if found == 0 {
          return false;
        }
      }
      forall k | k in Elements() ensures k in other.Elements() {
        KeyInItems(table.Items(), k);
      }
      SubsetOfSize(Elements(), other.Elements());
      same := true;
    }
  }
}
