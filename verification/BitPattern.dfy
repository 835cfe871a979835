/** Cube subtraction: `BitPatternPool` (`kernel/bitpattern.h`). */
module BitPattern {
  import opened Bits

  /** Zeros, ones and don't-cares. */
  predicate IsPattern(p: Const) {
    forall i :: 0 <= i < |p| ==> IsDef(p[i]) || p[i] == Sa
  }

  /** The vector `v` is in the cube `p`. */
  predicate Matches(p: Const, v: Const) {
    |p| == |v| && forall i :: 0 <= i < |p| ==> IsDef(p[i]) ==> p[i] == v[i]
  }

  /** A fully defined vector of width `w`. */
  predicate Vector(w: nat, v: Const) {
    |v| == w && Defined(v)
  }

  predicate Compatible(a: Const, b: Const)
    requires |a| == |b|
  {
    forall i :: 0 <= i < |a| ==> IsDef(a[i]) && IsDef(b[i]) ==> a[i] == b[i]
  }

  /** Every vector of `q` is in `p`. */
  predicate Within(q: Const, p: Const) {
    |q| == |p| && forall i :: 0 <= i < |p| ==> IsDef(p[i]) ==> q[i] == p[i]
  }

  /** Some vector of a cube: don't-cares as in `like`, or zero. */
  function Sample(p: Const, like: Const): (v: Const)
    requires |p| == |like| && IsPattern(p)
    ensures Vector(|p|, v) && Matches(p, v)
  {
    seq(|p|, i requires 0 <= i < |p| => if IsDef(p[i]) then p[i] else if like[i] == S1 then S1 else S0)
  }

  /** Two cubes share a vector exactly when they are compatible. */
  lemma {:induction false} CommonVector(a: Const, b: Const)
    requires |a| == |b| && IsPattern(a) && IsPattern(b)
    ensures Compatible(a, b) <==> exists v :: Vector(|a|, v) && Matches(a, v) && Matches(b, v)
  {
    if Compatible(a, b) {
      var v := Sample(a, b);
      assert Matches(b, v);
    }
  }

  /** The database is the pool's entries, in the order of their indices. */
  predicate Database(w: nat, db: seq<Const>) {
    && (forall k :: 0 <= k < |db| ==> |db[k]| == w && IsPattern(db[k]))
    && (forall k, l :: 0 <= k < l < |db| ==> db[k] != db[l])
  }

  ghost predicate Denotes(db: seq<Const>, v: Const) {
    exists k :: 0 <= k < |db| && Matches(db[k], v)
  }

  // ----- Subtracting one cube

  predicate Splits(p: Const, bits: Const, i: nat)
    requires |p| == |bits| && i < |p|
  {
    p[i] == Sa && bits[i] != Sa
  }

  function Opposite(s: State): State {
    if s == S1 then S0 else S1
  }

  /** `p` restricted to the half that differs from `bits` at `i`. */
  function Split(p: Const, bits: Const, i: nat): Const
    requires |p| == |bits| && i < |p|
  {
    p[i := Opposite(bits[i])]
  }

  /** The half does not meet the subtracted cube. */
  lemma {:induction false} SplitApart(p: Const, bits: Const, i: nat)
    requires |p| == |bits| && i < |p| && IsPattern(bits) && IsPattern(p) && Splits(p, bits, i)
    ensures IsPattern(Split(p, bits, i)) && !Compatible(Split(p, bits, i), bits)
  {
    var q := Split(p, bits, i);
    assert IsDef(q[i]) && IsDef(bits[i]) && q[i] != bits[i];
  }

  /** A cube of `p` apart from `bits` lies in one of the halves. */
  lemma {:induction false} SplitHolds(p: Const, bits: Const, q: Const) returns (i: nat)
    requires |p| == |bits| == |q| && IsPattern(p) && IsPattern(bits) && IsPattern(q)
    requires Compatible(p, bits) && Within(q, p) && !Compatible(q, bits)
    ensures i < |p| && Splits(p, bits, i) && Within(q, Split(p, bits, i))
  {
    i :| 0 <= i < |q| && IsDef(q[i]) && IsDef(bits[i]) && q[i] != bits[i];
  }

  /** Every cube all of whose vectors are denoted lies in a single entry. */
  ghost predicate Saturated(w: nat, db: seq<Const>) {
    forall q {:trigger Covered(w, db, q)} {:trigger Contained(db, q)} ::
      |q| == w && IsPattern(q) && Covered(w, db, q) ==> Contained(db, q)
  }

  ghost predicate Covered(w: nat, db: seq<Const>, q: Const) {
    forall v {:trigger Denotes(db, v)} :: Vector(w, v) && Matches(q, v) ==> Denotes(db, v)
  }

  predicate Contained(db: seq<Const>, q: Const) {
    exists k :: 0 <= k < |db| && Within(q, db[k])
  }

  /** Saturation is needed: the two halves of any cube cover it, yet neither contains it. */
  lemma {:induction false} HalvesUnsaturated(q: Const, i: nat)
    requires IsPattern(q) && i < |q| && q[i] == Sa
    ensures var db := [q[i := S0], q[i := S1]];
            Covered(|q|, db, q) && !Contained(db, q) && !Saturated(|q|, db)
  {
    var db := [q[i := S0], q[i := S1]];
    forall v | Vector(|q|, v) && Matches(q, v) ensures Denotes(db, v) {
      assert Matches(db[0], v) || Matches(db[1], v);
    }
    assert db[0][i] == S0 && db[1][i] == S1;
  }

  lemma {:induction false} ContainedCovered(w: nat, db: seq<Const>, q: Const)
    requires Contained(db, q)
    ensures Covered(w, db, q)
  {
    var k :| 0 <= k < |db| && Within(q, db[k]);
    forall v | Vector(w, v) && Matches(q, v) ensures Denotes(db, v) {
      assert Matches(db[k], v);
    }
  }

  // ----- Subtraction from a whole database

  /** `after` is `db` without the vectors of `bits`, cube by cube. */
  ghost predicate Subtracted(w: nat, db: seq<Const>, bits: Const, after: seq<Const>) {
    && (forall k :: 0 <= k < |after| ==> Apart(w, after[k], bits) && Contained(db, after[k]))
    && (forall q {:trigger Contained(after, q)} :: Apart(w, q, bits) && Contained(db, q) ==> Contained(after, q))
  }

  predicate Apart(w: nat, q: Const, bits: Const) {
    |q| == |bits| == w && IsPattern(q) && !Compatible(q, bits)
  }

  /** The vectors left are those of `db` that `bits` does not match. */
  lemma {:induction false} SubtractedVectors(w: nat, db: seq<Const>, bits: Const, after: seq<Const>, v: Const)
    requires Database(w, db) && Database(w, after) && |bits| == w && IsPattern(bits) && Subtracted(w, db, bits, after)
             && Vector(w, v)
    ensures Denotes(after, v) <==> Denotes(db, v) && !Matches(bits, v)
  {
    if Denotes(after, v) {
      var k :| 0 <= k < |after| && Matches(after[k], v);
      assert Apart(w, after[k], bits) && Contained(db, after[k]);
      var l :| 0 <= l < |db| && Within(after[k], db[l]);
      assert Matches(db[l], v);
      if Matches(bits, v) {
        CommonVector(after[k], bits);
      }
    }
    if Denotes(db, v) && !Matches(bits, v) {
      var k :| 0 <= k < |db| && Matches(db[k], v);
      assert Within(v, db[k]);
      assert Apart(w, v, bits) by {
        var i :| 0 <= i < w && IsDef(bits[i]) && bits[i] != v[i];
      }
      assert Contained(after, v);
      var l :| 0 <= l < |after| && Within(v, after[l]);
      assert Matches(after[l], v);
    }
  }

  /** Subtraction keeps every maximal cube in one entry. */
  lemma {:induction false} SubtractedSaturated(w: nat, db: seq<Const>, bits: Const, after: seq<Const>)
    requires Database(w, db) && Database(w, after) && |bits| == w && IsPattern(bits) && Subtracted(w, db, bits, after)
    requires Saturated(w, db)
    ensures Saturated(w, after)
  {
    forall q | |q| == w && IsPattern(q) && Covered(w, after, q) ensures Contained(after, q) {
      forall v | Vector(w, v) && Matches(q, v) ensures Denotes(db, v) && !Matches(bits, v) {
        SubtractedVectors(w, db, bits, after, v);
      }
      CommonVector(q, bits);
      assert Covered(w, db, q);
      assert Apart(w, q, bits);
    }
  }

  /** Entry `it` taken out: the last entry moves into its place. */
  function EraseAt(db: seq<Const>, it: nat): (r: seq<Const>)
    requires it < |db|
    ensures |r| == |db| - 1
  {
    db[it := db[|db| - 1]][..|db| - 1]
  }

  lemma {:induction false} EraseKeeps(db: seq<Const>, it: nat, k: nat)
    requires it < |db| && k < |db| && k != it
    ensures exists l :: 0 <= l < |db| - 1 && EraseAt(db, it)[l] == db[k]
  {
    var l := if k == |db| - 1 then it else k;
    assert EraseAt(db, it)[l] == db[k];
  }

  lemma {:induction false} EraseDatabase(w: nat, db: seq<Const>, it: nat)
    requires Database(w, db) && it < |db|
    ensures Database(w, EraseAt(db, it))
  {
  }

  /** `after` is `db` with all halves of `p` added. */
  ghost predicate WithSplits(db: seq<Const>, p: Const, bits: Const, n: nat, after: seq<Const>)
    requires |p| == |bits| && n <= |p|
  {
    && db <= after
    && (forall k :: |db| <= k < |after| ==> IsHalf(p, bits, n, after[k]))
    && (forall i :: 0 <= i < n && Splits(p, bits, i) ==> Split(p, bits, i) in after)
  }

  predicate IsHalf(p: Const, bits: Const, n: nat, e: Const)
    requires |p| == |bits| && n <= |p|
  {
    exists i :: 0 <= i < n && Splits(p, bits, i) && e == Split(p, bits, i)
  }

  lemma {:induction false} SplitMore(db: seq<Const>, p: Const, bits: Const, i: nat, after: seq<Const>)
    requires |p| == |bits| && i < |p| && WithSplits(db, p, bits, i, after)
    ensures var h := Split(p, bits, i);
            WithSplits(db, p, bits, i + 1, if !Splits(p, bits, i) || h in after then after else after + [h])
  {
    var h := Split(p, bits, i);
    var more := if !Splits(p, bits, i) || h in after then after else after + [h];
    forall k | |db| <= k < |more| ensures IsHalf(p, bits, i + 1, more[k]) {
      if k < |after| {
        assert IsHalf(p, bits, i, after[k]);
        var j :| 0 <= j < i && Splits(p, bits, j) && after[k] == Split(p, bits, j);
      }
    }
  }

  /** While entries above `it` have been dealt with and those up to `it` are untouched. */
  ghost predicate Taking(w: nat, db0: seq<Const>, bits: Const, db: seq<Const>, it: int) {
    && Database(w, db) && it < |db| && it < |db0|
    && (forall k :: 0 <= k <= it ==> db[k] == db0[k])
    && (forall k :: 0 <= k < |db| && k > it ==> Apart(w, db[k], bits))
    && (forall k :: 0 <= k < |db| ==> Contained(db0, db[k]))
    && (forall q {:trigger Contained(db, q)} :: Apart(w, q, bits) && Contained(db0, q) ==> Contained(db, q))
  }

  /** An entry that does not meet `bits` stays. */
  lemma {:induction false} KeepStep(w: nat, db0: seq<Const>, bits: Const, db: seq<Const>, it: nat)
    requires |bits| == w && IsPattern(bits) && Taking(w, db0, bits, db, it) && !Compatible(db[it], bits)
    ensures Taking(w, db0, bits, db, it - 1)
  {
  }

  /** An entry that meets `bits` is replaced by its halves. */
  lemma {:induction false} TakeStep(w: nat, db0: seq<Const>, bits: Const, db: seq<Const>, it: nat, more: seq<Const>)
    requires |bits| == w && IsPattern(bits) && Taking(w, db0, bits, db, it) && Compatible(db[it], bits)
    requires Database(w, more) && WithSplits(db, db[it], bits, w, more)
    ensures Taking(w, db0, bits, EraseAt(more, it), it - 1)
  {
    var after := EraseAt(more, it);
    EraseDatabase(w, more, it);
    forall k | 0 <= k < |after| ensures Contained(db0, after[k]) && (k > it - 1 ==> Apart(w, after[k], bits)) {
      if k >= it {
        LaterEntry(w, db0, bits, db, it, more, if k == it then |more| - 1 else k);
      } else {
        assert after[k] == db[k];
      }
    }
    forall q | Apart(w, q, bits) && Contained(db0, q) ensures Contained(after, q) {
      assert Contained(db, q);
      StillContained(w, bits, db, it, more, q);
    }
  }

  lemma {:induction false} LaterEntry(w: nat, db0: seq<Const>, bits: Const, db: seq<Const>, it: nat, more: seq<Const>,
                                      m: nat)
    requires |bits| == w && IsPattern(bits) && Taking(w, db0, bits, db, it) && Compatible(db[it], bits)
    requires WithSplits(db, db[it], bits, w, more) && it < m < |more|
    ensures Apart(w, more[m], bits) && Contained(db0, more[m])
  {
    if m < |db| {
      assert more[m] == db[m];
    } else {
      var p := db[it];
      assert IsHalf(p, bits, w, more[m]);
      var i :| 0 <= i < w && Splits(p, bits, i) && more[m] == Split(p, bits, i);
      SplitApart(p, bits, i);
      assert Contained(db0, p);
      var k :| 0 <= k < |db0| && Within(p, db0[k]);
      assert Within(more[m], db0[k]);
    }
  }

  lemma {:induction false} StillContained(w: nat, bits: Const, db: seq<Const>, it: nat, more: seq<Const>, q: Const)
    requires |bits| == w && IsPattern(bits) && Database(w, db) && it < |db| && Compatible(db[it], bits)
    requires WithSplits(db, db[it], bits, w, more) && Apart(w, q, bits) && Contained(db, q)
    ensures Contained(EraseAt(more, it), q)
  {
    var k :| 0 <= k < |db| && Within(q, db[k]);
    var m := k;
    if k == it {
      var i := SplitHolds(db[it], bits, q);
      var h := Split(db[it], bits, i);
      SplitApart(db[it], bits, i);
      assert h in more;
      m :| 0 <= m < |more| && more[m] == h;
    }
    assert Within(q, more[m]) && m != it;
    EraseKeeps(more, it, m);
    var l :| 0 <= l < |more| - 1 && EraseAt(more, it)[l] == more[m];
  }

  // ----- The pool

  class BitPatternPool {
    const width: nat
    var database: seq<Const>
    // the pattern the pool started from and the patterns taken out since
    ghost var start: Const
    ghost var taken: seq<Const>

    ghost predicate Valid()
      reads this
    {
      && Database(width, database) && Saturated(width, database)
      && |start| == width && IsPattern(start) && AllPatterns(width, taken)
      && Remaining(width, database, start, taken)
    }

    /** The vectors that a signal can take: bits that are not constant are free. */
    constructor (sig: Const)
      ensures Valid() && width == |sig| && start == SigBits(sig) && taken == []
    {
      width := |sig|;
      start, taken := SigBits(sig), [];
      database := if |sig| > 0 then [SigBits(sig)] else [];
      new;
      SingleSaturated(width, start);
      forall v | Vector(width, v) ensures Denotes(database, v) <==> width > 0 && Matches(start, v) {
        assert width > 0 ==> database[0] == start;
      }
    }

    /** All vectors of a width. */
    constructor Full(w: nat)
      ensures Valid() && width == w && taken == [] && forall v :: Vector(w, v) ==> (Denotes(database, v) <==> w > 0)
    {
      width := w;
      var all := seq(w, _ => Sa);
      start, taken := all, [];
      database := if w > 0 then [all] else [];
      new;
      SingleSaturated(width, start);
      forall v | Vector(width, v) ensures Denotes(database, v) <==> width > 0 {
        assert width > 0 ==> database[0] == start && Matches(start, v);
      }
    }

    /** Whether some vector of the signal is left: exact. */
    method HasAny(sig: Const) returns (r: bool)
      requires Valid() && |sig| == width
      ensures r <==> Meets(width, database, SigBits(sig))
    {
      r := AnyMatch(width, database, SigBits(sig));
    }

    /** Whether every vector of the signal is left: exact, because the database stays saturated. */
    method HasAll(sig: Const) returns (r: bool)
      requires Valid() && |sig| == width
      ensures r <==> Covered(width, database, SigBits(sig))
    {
      var bits := SigBits(sig);
      r := AnyContains(width, database, bits);
      if r {
        ContainedCovered(width, database, bits);
      }
    }

    /** The vectors of the signal are taken out; tells whether there were any. */
    method Take(sig: Const) returns (status: bool)
      requires Valid() && |sig| == width
      modifies `database, `taken
      ensures Valid() && taken == old(taken) + [SigBits(sig)]
      ensures status <==> old(Meets(width, database, SigBits(sig)))
      ensures Without(width, old(database), SigBits(sig), database)
    {
      var bits := SigBits(sig);
      ghost var db0 := database;
      status := Subtract(bits);
      RemainingStep(width, db0, bits, database, start, taken);
      taken := taken + [bits];
    }

    /** The loop of `take`: it inserts while it walks from the last entry to the first. */
    method Subtract(bits: Const) returns (status: bool)
      requires Database(width, database) && Saturated(width, database) && |bits| == width && IsPattern(bits)
      modifies `database
      ensures Database(width, database) && Saturated(width, database)
      ensures status <==> old(Meets(width, database, bits))
      ensures Without(width, old(database), bits, database)
    {
      ghost var db0 := database;
      status := TakeEntries(bits);
      Finish(width, db0, bits, database);
      MeetsAny(width, db0, bits);
    }

    method TakeEntries(bits: Const) returns (status: bool)
      requires Database(width, database) && |bits| == width && IsPattern(bits)
      modifies `database
      ensures Taking(width, old(database), bits, database, -1)
      ensures status <==> MeetsAbove(old(database), bits, -1, width)
    {
      status := false;
      ghost var db0 := database;
      TakingStart(width, db0, bits);
      var it := |database| - 1;
      while it >= 0
        invariant -1 <= it < |database| && Taking(width, db0, bits, database, it)
        invariant status <==> MeetsAbove(db0, bits, it, width)
        decreases it
      {
        status := TakeNext(it, bits, status, db0);
        it := it - 1;
      }
    }

    method TakeNext(it: nat, bits: Const, before: bool, ghost db0: seq<Const>) returns (status: bool)
      requires |bits| == width && IsPattern(bits) && Database(width, db0) && Taking(width, db0, bits, database, it)
      requires before <==> MeetsAbove(db0, bits, it, width)
      modifies `database
      ensures Taking(width, db0, bits, database, it - 1)
      ensures status <==> MeetsAbove(db0, bits, it - 1, width)
    {
      MeetsStep(db0, bits, it, width);
      var m := TakeEntry(it, bits, db0);
      status := before || m;
    }

    /** One step of the walk: an entry that meets `bits` gives way to its halves. */
    method TakeEntry(it: nat, bits: Const, ghost db0: seq<Const>) returns (m: bool)
      requires |bits| == width && IsPattern(bits) && Taking(width, db0, bits, database, it) && |db0[it]| == width
      modifies `database
      ensures Taking(width, db0, bits, database, it - 1) && m == Compatible(db0[it], bits)
    {
      m := Match(width, database[it], bits);
      if m {
        ghost var db := database;
        InsertSplits(it, bits);
        TakeStep(width, db0, bits, db, it, database);
        database := EraseAt(database, it);
      } else {
        KeepStep(width, db0, bits, database, it);
      }
    }

    /** The halves of entry `it` that differ from `bits` somewhere are inserted. */
    method InsertSplits(it: nat, bits: Const)
      requires Database(width, database) && it < |database| && |bits| == width && IsPattern(bits)
      modifies `database
      ensures Database(width, database) && WithSplits(old(database), old(database[it]), bits, width, database)
    {
      ghost var db, p := database, database[it];
      for i := 0 to width
        invariant Database(width, database) && WithSplits(db, p, bits, i, database)
      {
        assert database[it] == p;
        SplitMore(db, p, bits, i, database);
        if database[it][i] == Sa && bits[i] != Sa {
          var newPattern := database[it][i := if bits[i] == S1 then S0 else S1];
          SplitApart(p, bits, i);
          if newPattern !in database {
            database := database + [newPattern];
          }
        }
      }
    }

    method TakeAll() returns (r: bool)
      requires Valid()
      modifies `database, `taken
      ensures Valid() && (r <==> old(Some(width, database))) && database == []
    {
      r := database != [];
      if r {
        Nonempty(width, database);
        EmptyRemaining(width, start, taken);
        taken := taken + [AllFree(width)];
        database := [];
      }
    }

    /** Nothing is left exactly when the taken patterns are exhaustive. */
    method Empty() returns (r: bool)
      requires Valid()
      ensures r <==> !Some(width, database)
      ensures width > 0 ==> (r <==> Exhaustive(width, start, taken))
    {
      r := database == [];
      if !r {
        Nonempty(width, database);
      }
    }
  }

  predicate AllPatterns(w: nat, taken: seq<Const>) {
    forall t :: t in taken ==> |t| == w && IsPattern(t)
  }

  /** The database denotes the vectors of `start` that no taken pattern matches. */
  ghost predicate Remaining(w: nat, db: seq<Const>, start: Const, taken: seq<Const>) {
    forall v {:trigger Denotes(db, v)} :: Vector(w, v) ==>
        (Denotes(db, v) <==> w > 0 && Matches(start, v) && !TakenBy(taken, v))
  }

  ghost predicate Exhaustive(w: nat, start: Const, taken: seq<Const>) {
    forall v {:trigger TakenBy(taken, v)} :: Vector(w, v) && Matches(start, v) ==> TakenBy(taken, v)
  }

  /** `after` denotes what `db` does, less the vectors of `bits`. */
  ghost predicate Without(w: nat, db: seq<Const>, bits: Const, after: seq<Const>) {
    forall v {:trigger Denotes(after, v)} :: Vector(w, v) ==>
        (Denotes(after, v) <==> Denotes(db, v) && !Matches(bits, v))
  }

  /** Some vector is left. */
  ghost predicate Some(w: nat, db: seq<Const>) {
    exists v :: Vector(w, v) && Denotes(db, v)
  }

  ghost predicate Meets(w: nat, db: seq<Const>, bits: Const) {
    exists v :: Vector(w, v) && Matches(bits, v) && Denotes(db, v)
  }

  lemma {:induction false} RemainingStep(w: nat, db: seq<Const>, bits: Const, after: seq<Const>, start: Const,
                                         taken: seq<Const>)
    requires Remaining(w, db, start, taken) && Without(w, db, bits, after)
    ensures Remaining(w, after, start, taken + [bits])
  {
    forall v | Vector(w, v) ensures Denotes(after, v) <==> w > 0 && Matches(start, v) && !TakenBy(taken + [bits], v) {
      TakenMore(taken, bits, v);
    }
  }

  lemma {:induction false} TakenMore(taken: seq<Const>, t: Const, v: Const)
    ensures TakenBy(taken + [t], v) <==> TakenBy(taken, v) || Matches(t, v)
  {
    if TakenBy(taken, v) {
      var u :| u in taken && Matches(u, v);
      assert u in taken + [t];
    }
    assert t in taken + [t];
  }

  function AllFree(w: nat): (p: Const)
    ensures |p| == w && IsPattern(p)
  {
    seq(w, _ => Sa)
  }

  lemma {:induction false} EmptyRemaining(w: nat, start: Const, taken: seq<Const>)
    ensures Remaining(w, [], start, taken + [AllFree(w)]) && Saturated(w, [])
  {
    forall v | Vector(w, v) ensures TakenBy(taken + [AllFree(w)], v) {
      TakenMore(taken, AllFree(w), v);
    }
    forall q | |q| == w && IsPattern(q) ensures !Covered(w, [], q) {
      NoneCovered(q);
    }
  }

  predicate MeetsAbove(db: seq<Const>, bits: Const, it: int, w: nat) {
    exists k :: 0 <= k < |db| && k > it && |db[k]| == |bits| == w && Compatible(db[k], bits)
  }

  lemma {:induction false} MeetsStep(db: seq<Const>, bits: Const, it: nat, w: nat)
    requires it < |db| && |bits| == w && |db[it]| == w
    ensures MeetsAbove(db, bits, it - 1, w) <==> MeetsAbove(db, bits, it, w) || Compatible(db[it], bits)
  {
  }

  method Match(w: nat, a: Const, b: Const) returns (r: bool)
    requires |a| == |b| == w
    ensures r == Compatible(a, b)
  {
    for i := 0 to w
      invariant forall j :: 0 <= j < i && IsDef(a[j]) && IsDef(b[j]) ==> a[j] == b[j]
    {
      if IsDef(a[i]) && IsDef(b[i]) && a[i] != b[i] {
        return false;
      }
    }
    r := true;
  }

  method AnyMatch(w: nat, db: seq<Const>, bits: Const) returns (r: bool)
    requires Database(w, db) && |bits| == w && IsPattern(bits)
    ensures r <==> Meets(w, db, bits)
  {
    r := false;
    for k := 0 to |db|
      invariant !r && forall l :: 0 <= l < k ==> !Compatible(db[l], bits)
    {
      var m := Match(w, db[k], bits);
      if m {
        r := true;
        break;
      }
    }
    MeetsAny(w, db, bits);
  }

  /** An entry that matches and is free wherever `bits` is contains it. */
  method AnyContains(w: nat, db: seq<Const>, bits: Const) returns (r: bool)
    requires Database(w, db) && |bits| == w && IsPattern(bits)
    ensures r <==> Contained(db, bits)
  {
    for k := 0 to |db|
      invariant forall l :: 0 <= l < k ==> !Within(bits, db[l])
    {
      var m := Match(w, db[k], bits);
      if m {
        var inside := FreeWhere(w, db[k], bits);
        if inside {
          assert Within(bits, db[k]);
          return true;
        }
      }
    }
    r := false;
  }

  method FreeWhere(w: nat, p: Const, bits: Const) returns (r: bool)
    requires |p| == |bits| == w
    ensures r <==> forall i :: 0 <= i < w && !IsDef(bits[i]) ==> !IsDef(p[i])
  {
    for i := 0 to w
      invariant forall j :: 0 <= j < i && !IsDef(bits[j]) ==> !IsDef(p[j])
    {
      if !IsDef(bits[i]) && IsDef(p[i]) {
        return false;
      }
    }
    r := true;
  }

  lemma {:induction false} NoneMeets(w: nat, db: seq<Const>, bits: Const, v: Const)
    requires Database(w, db) && |bits| == w && IsPattern(bits) && Vector(w, v) && Matches(bits, v)
    requires forall l :: 0 <= l < |db| ==> !Compatible(db[l], bits)
    ensures !Denotes(db, v)
  {
    forall k | 0 <= k < |db| ensures !Matches(db[k], v) {
      CommonVector(db[k], bits);
    }
  }

  lemma {:induction false} MeetsAny(w: nat, db: seq<Const>, bits: Const)
    requires Database(w, db) && |bits| == w && IsPattern(bits)
    ensures (exists k :: 0 <= k < |db| && Compatible(db[k], bits)) <==> Meets(w, db, bits)
    ensures MeetsAbove(db, bits, -1, w) <==> Meets(w, db, bits)
  {
    if k :| 0 <= k < |db| && Compatible(db[k], bits) {
      CommonVector(db[k], bits);
      var v :| Vector(w, v) && Matches(db[k], v) && Matches(bits, v);
      assert Denotes(db, v);
    } else {
      forall v | Vector(w, v) && Matches(bits, v) ensures !Denotes(db, v) {
        NoneMeets(w, db, bits, v);
      }
    }
  }

  lemma {:induction false} AllContained(w: nat, db: seq<Const>)
    requires Database(w, db)
    ensures forall k :: 0 <= k < |db| ==> Contained(db, db[k])
  {
    forall k | 0 <= k < |db| ensures Contained(db, db[k]) {
      assert Within(db[k], db[k]);
    }
  }

  lemma {:induction false} Nonempty(w: nat, db: seq<Const>)
    requires Database(w, db) && |db| > 0
    ensures Some(w, db)
  {
    var v := Sample(db[0], db[0]);
    assert Matches(db[0], v);
  }

  /** Before the first entry nothing has been dealt with. */
  lemma {:induction false} TakingStart(w: nat, db: seq<Const>, bits: Const)
    requires Database(w, db) && |bits| == w && IsPattern(bits)
    ensures Taking(w, db, bits, db, |db| - 1) && !MeetsAbove(db, bits, |db| - 1, w)
  {
    AllContained(w, db);
  }

  /** When every entry has been visited, `bits` has been subtracted. */
  lemma {:induction false} Finish(w: nat, db0: seq<Const>, bits: Const, db: seq<Const>)
    requires Database(w, db0) && |bits| == w && IsPattern(bits) && Taking(w, db0, bits, db, -1) && Saturated(w, db0)
    ensures Saturated(w, db)
    ensures Without(w, db0, bits, db)
  {
    SubtractedSaturated(w, db0, bits, db);
    forall v | Vector(w, v) ensures Denotes(db, v) <==> Denotes(db0, v) && !Matches(bits, v) {
      SubtractedVectors(w, db0, bits, db, v);
    }
  }

  /** Undefined bits of a signal are don't-cares. */
  function SigBits(sig: Const): (p: Const)
    ensures |p| == |sig| && IsPattern(p)
  {
    seq(|sig|, i requires 0 <= i < |sig| => if IsDef(sig[i]) then sig[i] else Sa)
  }

  predicate TakenBy(taken: seq<Const>, v: Const) {
    exists t :: t in taken && Matches(t, v)
  }

  lemma {:induction false} SingleSaturated(w: nat, p: Const)
    requires |p| == w && IsPattern(p)
    ensures Saturated(w, if w > 0 then [p] else [])
  {
    if w > 0 {
      forall q | |q| == w && IsPattern(q) && Covered(w, [p], q) ensures Contained([p], q) {
        forall i | 0 <= i < w && IsDef(p[i]) ensures q[i] == p[i] {
          OneCube(w, p, q, i);
        }
        assert Within(q, [p][0]);
      }
    } else {
      forall q | |q| == w && IsPattern(q) ensures !Covered(w, [], q) {
        NoneCovered(q);
      }
    }
  }

  /** A cube is never empty. */
  lemma {:induction false} NoneCovered(q: Const)
    requires IsPattern(q)
    ensures !Covered(|q|, [], q)
  {
    var v := Sample(q, q);
    assert Vector(|q|, v) && Matches(q, v) && !Denotes([], v);
  }

  lemma {:induction false} OneCube(w: nat, p: Const, q: Const, i: nat)
    requires |p| == |q| == w && IsPattern(p) && IsPattern(q) && i < w && IsDef(p[i]) && Covered(w, [p], q)
    ensures q[i] == p[i]
  {
    var v, u := Sample(q, q), Sample(q, q[i := if q[i] == Sa then S1 else q[i]]);
    assert Denotes([p], v) && Denotes([p], u);
    assert Matches([p][0], v) && Matches([p][0], u);
  }
}
