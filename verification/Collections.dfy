/** Facts about collections that several modules share. */
module Collections {

  lemma {:induction false} AnElement<T(0,!new)>(s: set<T>) returns (x: T)
    ensures s == {} || x in s
  {
    if forall y :: y !in s {
      assert s == {};
      x := *;
    } else {
      x :| x in s;
    }
  }

  /** `std::map::upper_bound`: the first entry whose key is past `a`, of entries in ascending order. */
  function UpperBound<T>(s: seq<T>, key: T -> int, a: int): (i: nat)
    requires forall j, k :: 0 <= j < k < |s| ==> key(s[j]) < key(s[k])
    ensures i <= |s|
    ensures forall j :: 0 <= j < i ==> key(s[j]) <= a
    ensures forall j :: i <= j < |s| ==> a < key(s[j])
  {
    if |s| == 0 then 0
    else if key(s[|s| - 1]) <= a then |s|
    else UpperBound(s[..|s| - 1], key, a)
  }
}
