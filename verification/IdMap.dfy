/** The array `map` from type ids to more canonical type ids: its chains end, and every
    overwrite made by deduplication keeps it so. */
module IdMap {
  import opened BtfGraph

  const UNPROCESSED: nat := 0xffff_ffff
  const IN_PROGRESS: nat := 0xffff_fffe

  /** Each entry is one of the two markers or an id of the graph; void is canonical. */
  predicate InRange(m: seq<nat>) {
    0 < |m| <= MAX_NR_TYPES + 1 && m[0] == 0 &&
    forall i :: 0 <= i < |m| ==> m[i] < |m| || m[i] == UNPROCESSED || m[i] == IN_PROGRESS
  }

  predicate Mapped(m: seq<nat>, i: nat)
    requires i < |m|
  {
    m[i] <= MAX_NR_TYPES
  }

  /** Where the walk along the map stops. */
  predicate IsRoot(m: seq<nat>, i: nat)
    requires i < |m|
  {
    !Mapped(m, i) || m[i] == i
  }

  /** The walk from i stops within k hops. */
  ghost predicate Ends(m: seq<nat>, i: nat, k: nat)
    requires InRange(m) && i < |m|
    decreases k
  {
    IsRoot(m, i) || (k > 0 && Ends(m, m[i], k - 1))
  }

  ghost predicate Stops(m: seq<nat>, i: nat)
    requires InRange(m) && i < |m|
  {
    exists k: nat :: Ends(m, i, k)
  }

  /** There is no cycle other than self-loops. */
  ghost predicate Acyclic(m: seq<nat>)
    requires InRange(m)
  {
    forall i: nat :: i < |m| ==> Stops(m, i)
  }

  ghost function Walk(m: seq<nat>, i: nat, k: nat): (r: nat)
    requires InRange(m) && i < |m| && Ends(m, i, k)
    ensures r < |m| && IsRoot(m, r)
    decreases k
  {
    if IsRoot(m, i) then i else Walk(m, m[i], k - 1)
  }

  /** The id at which the walk from i stops. */
  ghost function Root(m: seq<nat>, i: nat): (r: nat)
    requires InRange(m) && i < |m| && Acyclic(m)
    ensures r < |m| && IsRoot(m, r)
  {
    assert Stops(m, i);
    var k: nat :| Ends(m, i, k);
    Walk(m, i, k)
  }

  lemma {:induction false} WalkIgnoresBound(m: seq<nat>, i: nat, k: nat, l: nat)
    requires InRange(m) && i < |m| && Ends(m, i, k) && Ends(m, i, l)
    ensures Walk(m, i, k) == Walk(m, i, l)
    decreases k
  {
    if !IsRoot(m, i) {
      WalkIgnoresBound(m, m[i], k - 1, l - 1);
    }
  }

  lemma RootWitness(m: seq<nat>, i: nat) returns (k: nat)
    requires InRange(m) && i < |m| && Acyclic(m)
    ensures Ends(m, i, k) && Root(m, i) == Walk(m, i, k)
  {
    assert Stops(m, i);
    k :| Ends(m, i, k);
    forall l: nat | Ends(m, i, l) ensures Walk(m, i, k) == Walk(m, i, l) {
      WalkIgnoresBound(m, i, k, l);
    }
  }

  lemma RootStep(m: seq<nat>, i: nat)
    requires InRange(m) && i < |m| && Acyclic(m)
    ensures Root(m, i) == if IsRoot(m, i) then i else Root(m, m[i])
  {
    var k := RootWitness(m, i);
    if !IsRoot(m, i) {
      var l := RootWitness(m, m[i]);
      WalkIgnoresBound(m, m[i], k - 1, l);
    }
  }

  /** Redirecting x to y keeps every walk finite, provided y's own walk does not come back to x. */
  lemma {:induction false} RedirectEnds(m: seq<nat>, x: nat, y: nat, l: nat, i: nat, k: nat)
    requires InRange(m) && x < |m| && y < |m| && i < |m|
    requires InRange(m[x := y])
    requires Ends(m[x := y], y, l)
    requires Ends(m, i, k)
    ensures Stops(m[x := y], i)
    decreases k
  {
    var m' := m[x := y];
    if i == x {
      assert Ends(m', i, l + 1);
    } else if IsRoot(m, i) {
      assert Ends(m', i, 0);
    } else {
      RedirectEnds(m, x, y, l, m[i], k - 1);
      var j: nat :| Ends(m', m[i], j);
      assert Ends(m', i, j + 1);
    }
  }

  /** The general update rule; y is a root other than x. */
  lemma RedirectKeepsAcyclic(m: seq<nat>, x: nat, y: nat)
    requires InRange(m) && 0 < x < |m| && y < |m| && Acyclic(m)
    requires IsRoot(m, y) || x == y
    ensures InRange(m[x := y]) && Acyclic(m[x := y])
  {
    var m' := m[x := y];
    assert InRange(m');
    assert Ends(m', y, 0);
    forall i: nat | i < |m'| ensures Stops(m', i) {
      assert Stops(m, i);
      var k: nat :| Ends(m, i, k);
      RedirectEnds(m, x, y, 0, i, k);
    }
  }

  lemma {:induction false} AvoidsRoot(m: seq<nat>, x: nat, y: nat, i: nat, k: nat)
    requires InRange(m) && x < |m| && y < |m| && i < |m| && InRange(m[x := y])
    requires IsRoot(m, x) && Ends(m, i, k) && Walk(m, i, k) != x
    ensures Ends(m[x := y], i, k)
    decreases k
  {
    if !IsRoot(m, i) {
      AvoidsRoot(m, x, y, m[i], k - 1);
    }
  }

  /** A root x may also be redirected to a non-root y that does not lead to x. */
  lemma RedirectRootKeepsAcyclic(m: seq<nat>, x: nat, y: nat)
    requires InRange(m) && 0 < x < |m| && y < |m| && Acyclic(m)
    requires IsRoot(m, x) && Root(m, y) != x
    ensures InRange(m[x := y]) && Acyclic(m[x := y])
  {
    var m' := m[x := y];
    assert InRange(m');
    var l := RootWitness(m, y);
    AvoidsRoot(m, x, y, y, l);
    forall i: nat | i < |m'| ensures Stops(m', i) {
      var k := RootWitness(m, i);
      RedirectEnds(m, x, y, l, i, k);
    }
  }

  /** Setting or clearing the in-progress mark of an unmapped id changes no walk. */
  lemma {:induction false} MarkKeepsEnds(m: seq<nat>, x: nat, v: nat, i: nat, k: nat)
    requires InRange(m) && 0 < x < |m| && i < |m| && (v == UNPROCESSED || v == IN_PROGRESS)
    requires Ends(m, i, k)
    ensures InRange(m[x := v]) && Ends(m[x := v], i, k)
    decreases k
  {
    if !IsRoot(m, i) && i != x {
      MarkKeepsEnds(m, x, v, m[i], k - 1);
    }
  }

  lemma MarkKeepsAcyclic(m: seq<nat>, x: nat, v: nat)
    requires InRange(m) && 0 < x < |m| && Acyclic(m) && (v == UNPROCESSED || v == IN_PROGRESS)
    ensures InRange(m[x := v]) && Acyclic(m[x := v])
  {
    var m' := m[x := v];
    forall i: nat | i < |m'| ensures Stops(m', i) {
      assert Stops(m, i);
      var k: nat :| Ends(m, i, k);
      MarkKeepsEnds(m, x, v, i, k);
    }
  }

  /** Every recorded hop leads to an alike type. */
  ghost predicate Sound(strict: bool, g: seq<BtfType>, m: seq<nat>)
    requires Closed(g) && InRange(m) && |m| == |g|
  {
    forall i: nat :: i < |m| && Mapped(m, i) ==> Alike(strict, g, i, m[i])
  }

  lemma {:induction false} WalkSound(strict: bool, g: seq<BtfType>, m: seq<nat>, i: nat, k: nat)
    requires Closed(g) && InRange(m) && |m| == |g| && Sound(strict, g, m)
    requires i < |m| && Ends(m, i, k)
    ensures Alike(strict, g, i, Walk(m, i, k))
    decreases k
  {
    if IsRoot(m, i) {
      AlikeReflexive(strict, g, i);
    } else {
      WalkSound(strict, g, m, m[i], k - 1);
      AlikeTransitive(strict, g, i, m[i], Walk(m, i, k));
    }
  }

  lemma RootSound(strict: bool, g: seq<BtfType>, m: seq<nat>, i: nat)
    requires Closed(g) && InRange(m) && |m| == |g| && Acyclic(m) && Sound(strict, g, m)
    requires i < |m|
    ensures Alike(strict, g, i, Root(m, i))
  {
    var k := RootWitness(m, i);
    WalkSound(strict, g, m, i, k);
  }

  /** Two ids with one root are alike. */
  lemma SameRootAlike(strict: bool, g: seq<BtfType>, m: seq<nat>, a: nat, b: nat)
    requires Closed(g) && InRange(m) && |m| == |g| && Acyclic(m) && Sound(strict, g, m)
    requires a < |m| && b < |m| && Root(m, a) == Root(m, b)
    ensures Alike(strict, g, a, b)
  {
    RootSound(strict, g, m, a);
    RootSound(strict, g, m, b);
    AlikeSymmetric(strict, g, b, Root(m, b));
    AlikeTransitive(strict, g, a, Root(m, a), b);
  }

  lemma RootsAlike(strict: bool, g: seq<BtfType>, m: seq<nat>, a: nat, b: nat)
    requires Closed(g) && InRange(m) && |m| == |g| && Acyclic(m) && Sound(strict, g, m)
    requires a < |m| && b < |m| && Alike(strict, g, a, b)
    ensures Alike(strict, g, Root(m, a), Root(m, b)) && Alike(strict, g, Root(m, b), Root(m, a))
  {
    RootSound(strict, g, m, a);
    RootSound(strict, g, m, b);
    AlikeSymmetric(strict, g, a, Root(m, a));
    AlikeTransitive(strict, g, Root(m, a), a, b);
    AlikeTransitive(strict, g, Root(m, a), b, Root(m, b));
    AlikeSymmetric(strict, g, Root(m, a), Root(m, b));
  }

  /** How one overwrite of an unmapped entry changes the walks: those that ended there go on. */
  lemma {:induction false} WalkAfterRedirect(m: seq<nat>, x: nat, y: nat, i: nat, k: nat)
    requires InRange(m) && x < |m| && y < |m| && i < |m| && !Mapped(m, x) && IsRoot(m, y) && InRange(m[x := y])
    requires Acyclic(m[x := y]) && Ends(m, i, k)
    ensures Root(m[x := y], i) == if Walk(m, i, k) == x then y else Walk(m, i, k)
    decreases k
  {
    var m' := m[x := y];
    RootStep(m', i);
    if i == x {
      RootStep(m', y);
    } else if !IsRoot(m, i) {
      WalkAfterRedirect(m, x, y, m[i], k - 1);
    }
  }

  lemma RootAfterRedirect(m: seq<nat>, x: nat, y: nat, i: nat)
    requires InRange(m) && Acyclic(m) && x < |m| && y < |m| && i < |m| && !Mapped(m, x) && IsRoot(m, y)
    requires InRange(m[x := y]) && Acyclic(m[x := y])
    ensures Root(m[x := y], i) == if Root(m, i) == x then y else Root(m, i)
  {
    var k := RootWitness(m, i);
    WalkAfterRedirect(m, x, y, i, k);
  }

  lemma {:induction false} WalkAfterMark(m: seq<nat>, x: nat, v: nat, i: nat, k: nat)
    requires InRange(m) && x < |m| && i < |m| && !Mapped(m, x) && (v == UNPROCESSED || v == IN_PROGRESS) && InRange(m[x := v])
    requires Acyclic(m[x := v]) && Ends(m, i, k)
    ensures Root(m[x := v], i) == Walk(m, i, k)
    decreases k
  {
    RootStep(m[x := v], i);
    if !IsRoot(m, i) {
      WalkAfterMark(m, x, v, m[i], k - 1);
    }
  }

  lemma RootAfterMark(m: seq<nat>, x: nat, v: nat, i: nat)
    requires InRange(m) && Acyclic(m) && x < |m| && i < |m| && !Mapped(m, x) && (v == UNPROCESSED || v == IN_PROGRESS)
    requires InRange(m[x := v]) && Acyclic(m[x := v])
    ensures Root(m[x := v], i) == Root(m, i)
  {
    var k := RootWitness(m, i);
    WalkAfterMark(m, x, v, i, k);
  }
}
