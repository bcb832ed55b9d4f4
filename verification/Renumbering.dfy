/** The final ids: canonical types are renumbered 1..n in their old order, every other type takes
    the number of its canonical type, and the output is the input graph seen through that. */
module Renumbering {
  import opened BtfGraph
  import opened IdMap
  import opened Contents
  import opened DedupState

  predicate Canonical(m: seq<nat>, i: nat)
    requires i < |m|
  {
    m[i] == i
  }

  /** How many of the ids 1..i-1 are canonical. */
  function CanonBelow(m: seq<nat>, i: nat): (n: nat)
    requires i <= |m|
    ensures n <= i && (i > 0 ==> n < i)
  {
    if i <= 1 then 0 else CanonBelow(m, i - 1) + if Canonical(m, i - 1) then 1 else 0
  }

  function NewId(m: seq<nat>, i: nat): nat
    requires i < |m|
  {
    if i == 0 then 0 else CanonBelow(m, i) + 1
  }

  lemma {:induction false} CanonBelowMonotone(m: seq<nat>, i: nat, j: nat)
    requires i <= j <= |m|
    ensures CanonBelow(m, i) <= CanonBelow(m, j)
    ensures 0 < i < j && Canonical(m, i) ==> CanonBelow(m, i) < CanonBelow(m, j)
    decreases j
  {
    if i < j {
      CanonBelowMonotone(m, i, j - 1);
    }
  }

  /** The renumbering keeps the order of canonical types, so no two share a number. */
  lemma NewIdOrder(m: seq<nat>, i: nat, j: nat)
    requires i < |m| && j < |m| && m[0] == 0 && Canonical(m, i) && Canonical(m, j)
    ensures i < j <==> NewId(m, i) < NewId(m, j)
    ensures NewId(m, i) <= CanonBelow(m, |m|)
  {
    if i <= j {
      CanonBelowMonotone(m, i, j);
    } else {
      CanonBelowMonotone(m, j, i);
    }
    CanonBelowMonotone(m, i, |m|);
  }

  /** Every number from 1 to n is taken. */
  lemma {:induction false} NewIdOnto(m: seq<nat>, n: nat, i: nat) returns (c: nat)
    requires i <= |m| && 1 <= n <= CanonBelow(m, i)
    ensures 0 < c < i && Canonical(m, c) && NewId(m, c) == n
    decreases i
  {
    if Canonical(m, i - 1) && NewId(m, i - 1) == n {
      c := i - 1;
    } else {
      c := NewIdOnto(m, n, i - 1);
    }
  }

  /** Resolve, then renumber. */
  ghost function Final(m: seq<nat>, i: nat): nat
    requires InRange(m) && Acyclic(m) && i < |m|
  {
    NewId(m, Root(m, i))
  }

  /** The output records: the canonical records with every reference replaced by its final id. */
  ghost predicate Rebuilt(g: seq<BtfType>, m: seq<nat>, out: seq<BtfType>)
    requires InRange(m) && Acyclic(m) && |m| == |g| && Closed(g)
  {
    |out| == CanonBelow(m, |m|) + 1 && out[0] == VOID &&
    forall c: nat :: 0 < c < |m| && Canonical(m, c) ==>
      0 < NewId(m, c) < |out| && RecordRebuilt(m, g[c], out[NewId(m, c)])
  }

  ghost predicate RecordRebuilt(m: seq<nat>, t: BtfType, u: BtfType)
    requires InRange(m) && Acyclic(m)
  {
    Shape(u) == Shape(t) && |Refs(u)| == |Refs(t)| &&
    forall k :: 0 <= k < |Refs(t)| ==> Refs(t)[k] < |m| && Refs(u)[k] == Final(m, Refs(t)[k])
  }

  lemma RootCanonical(m: seq<nat>, i: nat)
    requires InRange(m) && Acyclic(m) && AllMapped(m) && i < |m|
    ensures Canonical(m, Root(m, i)) && (Canonical(m, i) ==> Root(m, i) == i)
    ensures Final(m, i) <= CanonBelow(m, |m|) && Final(m, 0) == 0
    ensures Root(m, i) == 0 || Final(m, i) > 0
  {
    RootStep(m, i);
    RootStep(m, 0);
    assert Mapped(m, Root(m, i));
    CanonBelowMonotone(m, Root(m, i), |m|);
    NewIdOrder(m, Root(m, i), Root(m, i));
  }

  /** The output of deduplication. `f` takes each input id to its output id. */
  ghost predicate Deduplicated(strict: bool, g0: seq<BtfType>, out: seq<BtfType>, f: seq<nat>) {
    Closed(g0) && Closed(out) && |out| <= |g0| == |f| && f[0] == 0 &&
    (forall a :: 0 <= a < |f| ==> f[a] < |out|) &&
    (forall a :: 0 <= a < |f| ==> out[f[a]].nameOff == g0[a].nameOff && Class(out[f[a]]) == Class(g0[a])) &&
    (forall a :: 0 <= a < |f| ==> ContentsKept(g0, out, f, a)) &&
    (strict ==> forall a :: 0 <= a < |f| ==> Bisimilar(g0, a, out, f[a])) &&
    (!strict && Unambiguous(g0) ==> forall a :: 0 <= a < |f| ==> Similar(g0, a, out, f[a])) &&
    (forall b: nat :: b < |out| ==> IsImage(g0, out, f, b)) &&
    (forall a: nat, b: nat :: a < |out| && b < |out| && a != b && ComparedExactly(KindOf(out[a])) ==> out[a] != out[b])
  }

  ghost predicate IsImage(g0: seq<BtfType>, out: seq<BtfType>, f: seq<nat>, b: nat)
    requires b < |out| && |f| == |g0| && Closed(g0)
  {
    exists c: nat :: ImageOf(g0, out, f, c, b)
  }

  /** Output type b is input type c with every reference renamed. */
  ghost predicate ImageOf(g0: seq<BtfType>, out: seq<BtfType>, f: seq<nat>, c: nat, b: nat)
    requires b < |out| && |f| == |g0| && Closed(g0)
  {
    c < |g0| && f[c] == b && RefsRenamed(g0[c], out[b], f)
  }

  /** Kinds of which the output holds no two equal records. */
  predicate ComparedExactly(k: Kind) {
    k == Int || k == Enum || IsRefKind(k)
  }

  ghost function FinalIds(m: seq<nat>): (f: seq<nat>)
    requires InRange(m) && Acyclic(m)
    ensures |f| == |m| && forall i :: 0 <= i < |f| ==> f[i] == Final(m, i)
  {
    seq(|m|, i requires 0 <= i < |m| => Final(m, i))
  }

  /** Which fields of a rebuilt record hold final ids. */
  lemma RebuiltFields(m: seq<nat>, t: BtfType, u: BtfType)
    requires InRange(m) && Acyclic(m)
    ensures RecordRebuilt(m, t, u) <==> FieldsRenamed(t, u, FinalIds(m))
  {
    hide Acyclic, Shape, Refs, FieldsRenamed, Final;
    RenamedExactly(t, u, FinalIds(m));
  }

  lemma RebuiltClosed(g: seq<BtfType>, m: seq<nat>, out: seq<BtfType>)
    requires InRange(m) && Acyclic(m) && |m| == |g| && Closed(g) && AllMapped(m) && Rebuilt(g, m, out)
    ensures Closed(out) && |out| <= |g|
  {
    hide Acyclic, Shape;
    forall b, k | 0 <= b < |out| && 0 <= k < |Refs(out[b])| ensures Refs(out[b])[k] < |out| {
      if b > 0 {
        var c := NewIdOnto(m, b, |m|);
        assert RecordRebuilt(m, g[c], out[b]);
        RootCanonical(m, Refs(g[c])[k]);
      }
    }
  }

  /** The meaning of every type survives: unfolding the output from the final id of a type gives,
      to any depth, what unfolding the input from the type gave. */
  lemma {:induction false} RebuiltSame(n: nat, g0: seq<BtfType>, g: seq<BtfType>, m: seq<nat>, out: seq<BtfType>, a: nat)
    requires InRange(m) && Acyclic(m) && |m| == |g| == |g0| && Closed(g0) && Closed(g) && Closed(out) && AllMapped(m)
    requires Sound(true, g0, m) && RewrittenFrom(true, g0, g) && Rebuilt(g, m, out) && a < |m|
    ensures Final(m, a) < |out| && Same(n, g0, a, out, Final(m, a))
  {
    hide Acyclic, Sound, Shape, Rebuilt;
    var c, b := Root(m, a), Final(m, a);
    RootCanonical(m, a);
    RootSound(true, g0, m, a);
    RebuiltAt(g, m, out, c);
    if n > 0 {
      OriginAt(true, g0, g, c);
      forall k | 0 <= k < |Refs(g0[c])| ensures Same(n - 1, g0, Refs(g0[c])[k], out, Refs(out[b])[k]) {
        var r := Refs(g[c])[k];
        OriginRefAt(true, g0, g, c, k);
        SameSymmetric(n - 1, g0, r, g0, Refs(g0[c])[k]);
        RebuiltSame(n - 1, g0, g, m, out, r);
        SameTransitive(n - 1, g0, Refs(g0[c])[k], g0, r, out, Refs(out[b])[k]);
      }
      assert Same(n, g0, c, out, b);
      SameTransitive(n, g0, a, g0, c, out, b);
    }
  }

  /** The same when forward declarations are resolved: whatever is like a canonical type is like the type
      that is left of it. */
  lemma {:induction false} RebuiltLike(n: nat, g0: seq<BtfType>, g: seq<BtfType>, m: seq<nat>, out: seq<BtfType>, a: nat, c: nat)
    requires InRange(m) && Acyclic(m) && |m| == |g| == |g0| && Closed(g0) && Closed(g) && Closed(out) && AllMapped(m)
    requires Sound(false, g0, m) && RewrittenFrom(false, g0, g) && SameRoots(g0, g, m) && Rebuilt(g, m, out) && Unambiguous(g0)
    requires a < |m| && c < |m| && Canonical(m, c) && Like(n, g0, a, g0, c)
    ensures NewId(m, c) < |out| && Like(n, g0, a, out, NewId(m, c))
  {
    hide Acyclic, Sound, Shape, Rebuilt, RewrittenFrom, SameRoots, Unambiguous, Declares;
    var b := NewId(m, c);
    RebuiltImage(false, g0, g, m, out, c);
    if n > 0 {
      if Declares(g0[a], g0[c]) {
        DeclaresShape(g0[a], g0[c], out[b]);
      } else {
        forall k | 0 <= k < |Refs(g0[a])| ensures Like(n - 1, g0, Refs(g0[a])[k], out, Refs(out[b])[k]) {
          var x, y := Refs(g0[a])[k], Refs(g0[c])[k];
          RootCanonical(m, y);
          RootSound(false, g0, m, y);
          LikeTransitive(n - 1, g0, x, y, Root(m, y));
          RebuiltLike(n - 1, g0, g, m, out, x, Root(m, y));
        }
      }
    }
  }

  lemma RebuiltSimilar(g0: seq<BtfType>, g: seq<BtfType>, m: seq<nat>, out: seq<BtfType>, a: nat)
    requires InRange(m) && Acyclic(m) && |m| == |g| == |g0| && Closed(g0) && Closed(g) && Closed(out) && AllMapped(m)
    requires Sound(false, g0, m) && RewrittenFrom(false, g0, g) && SameRoots(g0, g, m) && Rebuilt(g, m, out) && Unambiguous(g0)
    requires a < |m|
    ensures Final(m, a) < |out| && Similar(g0, a, out, Final(m, a))
  {
    hide Acyclic, Sound, Shape, Rebuilt, RewrittenFrom, SameRoots, Unambiguous, Declares, Like;
    RootCanonical(m, a);
    RootSound(false, g0, m, a);
    RebuiltImage(false, g0, g, m, out, Root(m, a));
    forall n: nat ensures Like(n, g0, a, out, Final(m, a)) { RebuiltLike(n, g0, g, m, out, a, Root(m, a)); }
  }

  lemma RebuiltAt(g: seq<BtfType>, m: seq<nat>, out: seq<BtfType>, c: nat)
    requires InRange(m) && Acyclic(m) && |m| == |g| && Closed(g) && Rebuilt(g, m, out) && c < |m| && Canonical(m, c)
    ensures NewId(m, c) < |out| && RecordRebuilt(m, g[c], out[NewId(m, c)])
  {
  }

  lemma OriginAt(strict: bool, g0: seq<BtfType>, g: seq<BtfType>, c: nat)
    requires Closed(g0) && Closed(g) && RewrittenFrom(strict, g0, g) && c < |g|
    ensures Shape(g[c]) == Shape(g0[c]) && |Refs(g[c])| == |Refs(g0[c])|
  {
  }

  lemma OriginRefAt(strict: bool, g0: seq<BtfType>, g: seq<BtfType>, c: nat, k: nat)
    requires Closed(g0) && Closed(g) && RewrittenFrom(strict, g0, g) && c < |g| && k < |Refs(g[c])|
    ensures |Refs(g[c])| == |Refs(g0[c])| && Refs(g[c])[k] < |g0| && Alike(strict, g0, Refs(g[c])[k], Refs(g0[c])[k])
  {
  }

  lemma FinalInjective(m: seq<nat>, r: nat, s: nat)
    requires InRange(m) && Acyclic(m) && AllMapped(m) && r < |m| && s < |m|
    requires Canonical(m, r) && Canonical(m, s) && Final(m, r) == Final(m, s)
    ensures r == s
  {
    RootCanonical(m, r);
    RootCanonical(m, s);
    NewIdOrder(m, r, s);
    NewIdOrder(m, s, r);
  }

  /** Renumbering is one-to-one on records whose references are canonical. */
  lemma RenumberingInjective(m: seq<nat>, t: BtfType, t': BtfType, u: BtfType)
    requires InRange(m) && Acyclic(m) && AllMapped(m)
    requires RecordRebuilt(m, t, u) && RecordRebuilt(m, t', u)
    requires CanonicalRefs(m, t) && CanonicalRefs(m, t')
    ensures t == t'
  {
    hide Acyclic, Shape, Final;
    forall k | 0 <= k < |Refs(t)| ensures Refs(t)[k] == Refs(t')[k] {
      FinalInjective(m, Refs(t)[k], Refs(t')[k]);
    }
    assert Refs(t) == Refs(t');
    ShapeAndRefs(t, t');
  }

  /** No two canonical records that are compared exactly become equal by renumbering. */
  lemma RebuiltDistinct(g: seq<BtfType>, m: seq<nat>, tb: Table, out: seq<BtfType>, a: nat, b: nat)
    requires InRange(m) && Acyclic(m) && |m| == |g| && WellFormedGraph(g) && AllMapped(m) && Filed(g, m, tb) && Rebuilt(g, m, out)
    requires forall j: nat :: 0 < j < |g| && IsRefKind(KindOf(g[j])) ==> CanonicalRefs(m, g[j])
    requires |out| == CanonBelow(m, |m|) + 1
    requires 0 < a < |out| && 0 < b < |out| && a != b && ComparedExactly(KindOf(out[a]))
    ensures out[a] != out[b]
  {
    hide Acyclic, Rebuilt, Shape, Filed, Faithful, RecordRebuilt;
    if out[a] == out[b] {
      var c := NewIdOnto(m, a, |m|);
      var d := NewIdOnto(m, b, |m|);
      RebuiltAt(g, m, out, c);
      RebuiltAt(g, m, out, d);
      RebuiltKind(m, g[c], out[a]);
      RebuiltKind(m, g[d], out[b]);
      RefsCanonical(g, m, c);
      RefsCanonical(g, m, d);
      RenumberingInjective(m, g[c], g[d], out[a]);
      FiledDistinct(g, m, tb, c, d);
    }
  }

  lemma RebuiltKind(m: seq<nat>, t: BtfType, u: BtfType)
    requires InRange(m) && Acyclic(m) && RecordRebuilt(m, t, u)
    ensures KindOf(t) == KindOf(u)
  {
    ShapeFixesKind(t, u);
  }

  lemma RefsCanonical(g: seq<BtfType>, m: seq<nat>, c: nat)
    requires WellFormedGraph(g) && 0 < c < |g| && ComparedExactly(KindOf(g[c]))
    requires IsRefKind(KindOf(g[c])) ==> CanonicalRefs(m, g[c])
    ensures CanonicalRefs(m, g[c])
  {
  }

  lemma FiledDistinct(g: seq<BtfType>, m: seq<nat>, tb: Table, c: nat, d: nat)
    requires WellFormedGraph(g) && InRange(m) && |m| == |g| && Filed(g, m, tb)
    requires c < |g| && d < |g| && c != d && m[c] == c && m[d] == d && ExactKind(KindOf(g[c]))
    ensures g[c] != g[d]
  {
  }

  /** The output is the input graph with every id replaced by that of its canonical type. */
  lemma RebuiltImage(strict: bool, g0: seq<BtfType>, g: seq<BtfType>, m: seq<nat>, out: seq<BtfType>, c: nat)
    requires InRange(m) && Acyclic(m) && |m| == |g| == |g0| && Closed(g0) && Closed(g) && AllMapped(m)
    requires RewrittenFrom(strict, g0, g) && SameRoots(g0, g, m) && Rebuilt(g, m, out)
    requires c < |m| && Canonical(m, c)
    ensures NewId(m, c) < |out| && ImageOf(g0, out, FinalIds(m), c, NewId(m, c))
  {
    hide Acyclic, Rebuilt, RewrittenFrom, Shape;
    var b := NewId(m, c);
    RebuiltAt(g, m, out, c);
    OriginAt(strict, g0, g, c);
    RootCanonical(m, c);
    forall k | 0 <= k < |Refs(out[b])| ensures Refs(out[b])[k] == FinalIds(m)[Refs(g0[c])[k]] {
      assert Root(m, Refs(g[c])[k]) == Root(m, Refs(g0[c])[k]);
    }
  }

  /** Name and kind survive in either mode. */
  lemma RebuiltAlike(strict: bool, g0: seq<BtfType>, g: seq<BtfType>, m: seq<nat>, out: seq<BtfType>, a: nat)
    requires InRange(m) && Acyclic(m) && |m| == |g| == |g0| && Closed(g0) && Closed(g) && AllMapped(m)
    requires Sound(strict, g0, m) && RewrittenFrom(strict, g0, g) && Rebuilt(g, m, out) && a < |m|
    ensures Final(m, a) < |out| && out[Final(m, a)].nameOff == g0[a].nameOff && Class(out[Final(m, a)]) == Class(g0[a])
  {
    hide Acyclic, Sound, Shape, Rebuilt, RewrittenFrom;
    var c := Root(m, a);
    RootCanonical(m, a);
    RootSound(strict, g0, m, a);
    RebuiltAt(g, m, out, c);
    OriginAt(strict, g0, g, c);
    ShapeFixesKind(out[Final(m, a)], g0[c]);
  }

  /** So do the contents, as far as the pass over structs does not join different ones. */
  lemma RebuiltKept(strict: bool, g0: seq<BtfType>, g: seq<BtfType>, m: seq<nat>, tb: Table, fin: seq<nat>, clock: nat,
                    out: seq<BtfType>, a: nat)
    requires RefPhase(strict, g0, g, m, tb, fin, clock) && AllMapped(m) && Rebuilt(g, m, out) && a < |m|
    ensures Final(m, a) < |out| && ContentsKept(g0, out, FinalIds(m), a)
  {
    hide Acyclic, Sound, Shape, Rebuilt, RewrittenFrom, Faithful, Becomes, OneShape, Filed, SameRoots, RefEntries, WellFormed;
    var c := Root(m, a);
    RootCanonical(m, a);
    RootFaithful(g0, m, a);
    RebuiltAt(g, m, out, c);
    OriginAt(strict, g0, g, c);
    BecomesRebuilt(g0, g0[a], g0[c], out[Final(m, a)]);
    if IsRefKind(KindOf(g0[a])) || NeverDeduped(KindOf(g0[a])) { KeptRefs(strict, g0, g, m, tb, fin, clock, out, a); }
  }

  lemma KeptRefs(strict: bool, g0: seq<BtfType>, g: seq<BtfType>, m: seq<nat>, tb: Table, fin: seq<nat>, clock: nat,
                 out: seq<BtfType>, a: nat)
    requires RefPhase(strict, g0, g, m, tb, fin, clock) && AllMapped(m) && Rebuilt(g, m, out) && a < |m|
    requires IsRefKind(KindOf(g0[a])) || NeverDeduped(KindOf(g0[a]))
    ensures Final(m, a) < |out| && RefsRenamed(g0[a], out[Final(m, a)], FinalIds(m))
  {
    hide Acyclic, Sound, Shape, Rebuilt, RewrittenFrom, Filed, Faithful, WellFormed, Becomes, OneShape;
    var c, f := Root(m, a), FinalIds(m);
    RootCanonical(m, a);
    OwnRecord(g0, g, m, fin, clock, a);
    RebuiltAt(g, m, out, c);
    OriginAt(strict, g0, g, a);
    forall k | 0 <= k < |Refs(g0[a])| ensures Refs(g0[a])[k] < |f| && Refs(out[f[a]])[k] == f[Refs(g0[a])[k]] {
      assert Root(m, Refs(g[a])[k]) == Root(m, Refs(g0[a])[k]);
    }
  }

  lemma OwnRecord(g0: seq<BtfType>, g: seq<BtfType>, m: seq<nat>, fin: seq<nat>, clock: nat, a: nat)
    requires InRange(m) && Acyclic(m) && |m| == |g0| == |g| == |fin| && Closed(g0) && RefEntries(g0, g, m, fin, clock) && Faithful(g0, m)
    requires AllMapped(m) && a < |m| && (IsRefKind(KindOf(g0[a])) || NeverDeduped(KindOf(g0[a])))
    ensures g[Root(m, a)] == g[a]
  {
    hide Acyclic, Becomes, OneShape, CanonicalRefs, FinishedAfter;
    assert KindOf(VOID) == Unkn && Mapped(m, a);
    RootStep(m, a);
    RootStep(m, m[a]);
  }

  lemma RebuiltHasNoDuplicates(strict: bool, g0: seq<BtfType>, g: seq<BtfType>, m: seq<nat>, tb: Table, fin: seq<nat>, clock: nat,
                               out: seq<BtfType>, a: nat, b: nat)
    requires RefPhase(strict, g0, g, m, tb, fin, clock) && AllMapped(m) && Rebuilt(g, m, out)
    requires a < |out| && b < |out| && a != b && ComparedExactly(KindOf(out[a]))
    ensures out[a] != out[b]
  {
    hide Acyclic, Sound, RewrittenFrom, RefEntries, SameRoots, Filed, Faithful;
    if a > 0 && b > 0 {
      RefsAllCanonical(strict, g0, g, m, tb, fin, clock);
      RebuiltDistinct(g, m, tb, out, a, b);
    }
  }

  /** What the passes leave behind, renumbered, is a deduplicated graph. */
  lemma RebuiltIsDeduplicated(strict: bool, g0: seq<BtfType>, g: seq<BtfType>, m: seq<nat>, tb: Table, fin: seq<nat>, clock: nat,
                              out: seq<BtfType>)
    requires RefPhase(strict, g0, g, m, tb, fin, clock) && AllMapped(m) && Rebuilt(g, m, out)
    ensures Deduplicated(strict, g0, out, FinalIds(m))
  {
    hide Acyclic, Sound, Faithful, ContentsKept, RewrittenFrom, RefEntries, SameRoots, Filed, Shape, WellFormed, Rebuilt;
    var f := FinalIds(m);
    RebuiltSize(g, m, out);
    RebuiltClosed(g, m, out);
    RootCanonical(m, 0);
    forall a | 0 <= a < |f| ensures f[a] < |out| && out[f[a]].nameOff == g0[a].nameOff && Class(out[f[a]]) == Class(g0[a]) {
      RebuiltAlike(strict, g0, g, m, out, a);
    }
    forall a | 0 <= a < |f| ensures ContentsKept(g0, out, f, a) { RebuiltKept(strict, g0, g, m, tb, fin, clock, out, a); }
    if strict {
      forall a, n: nat | 0 <= a < |f| ensures Same(n, g0, a, out, f[a]) {
        RebuiltSame(n, g0, g, m, out, a);
      }
    } else if Unambiguous(g0) {
      forall a | 0 <= a < |f| ensures Similar(g0, a, out, f[a]) { RebuiltSimilar(g0, g, m, out, a); }
    }
    forall b: nat | b < |out| ensures IsImage(g0, out, f, b) {
      var c := 0;
      if b > 0 { c := NewIdOnto(m, b, |m|); }
      RebuiltImage(strict, g0, g, m, out, c);
    }
    forall a: nat, b: nat | a < |out| && b < |out| && a != b && ComparedExactly(KindOf(out[a])) ensures out[a] != out[b] {
      RebuiltHasNoDuplicates(strict, g0, g, m, tb, fin, clock, out, a, b);
    }
  }

  lemma RebuiltSize(g: seq<BtfType>, m: seq<nat>, out: seq<BtfType>)
    requires InRange(m) && Acyclic(m) && |m| == |g| && Closed(g) && Rebuilt(g, m, out)
    ensures |out| == CanonBelow(m, |m|) + 1
  {
  }

  /** After the last pass, every id stored in a reference type is canonical. */
  lemma RefsAllCanonical(strict: bool, g0: seq<BtfType>, g: seq<BtfType>, m: seq<nat>, tb: Table, fin: seq<nat>, clock: nat)
    requires RefPhase(strict, g0, g, m, tb, fin, clock) && AllMapped(m)
    ensures forall j: nat :: 0 < j < |g| && IsRefKind(KindOf(g[j])) ==> CanonicalRefs(m, g[j])
  {
    forall j: nat | 0 < j < |g| && IsRefKind(KindOf(g[j])) ensures CanonicalRefs(m, g[j]) {
      assert Mapped(m, j);
    }
  }

  /** Memory between compaction and remapping: record n is the n-th canonical record, and `renum`
      holds the new id of canonical types and the unprocessed mark for all others. */
  ghost predicate Compacted(g: seq<BtfType>, m: seq<nat>, mem: seq<BtfType>, renum: seq<nat>, n: nat)
    requires InRange(m) && |g| == |m|
  {
    |mem| == |renum| == |m| && n == CanonBelow(m, |m|) && mem[0] == VOID && renum[0] == 0 &&
    (forall c: nat :: 0 < c < |m| && Canonical(m, c) ==> 0 < NewId(m, c) <= n && mem[NewId(m, c)] == g[c] && renum[c] == NewId(m, c)) &&
    (forall c: nat :: 0 < c < |m| && !Canonical(m, c) ==> renum[c] == UNPROCESSED)
  }

  /** The same before type i is reached. */
  ghost predicate CompactedTo(g: seq<BtfType>, m: seq<nat>, i: nat, mem: seq<BtfType>, renum: seq<nat>)
    requires |g| == |m| && 1 <= i <= |m|
  {
    |mem| == |renum| == |m| && mem[0] == VOID && renum[0] == 0 &&
    (forall j :: i <= j < |m| ==> mem[j] == g[j]) &&
    forall c :: 1 <= c < |m| ==>
      if c < i && Canonical(m, c) then NewId(m, c) <= CanonBelow(m, i) && mem[NewId(m, c)] == g[c] && renum[c] == NewId(m, c)
      else renum[c] == UNPROCESSED
  }

  lemma CompactionStarts(g: seq<BtfType>, m: seq<nat>, mem: seq<BtfType>, renum: seq<nat>)
    requires |g| == |m| == |mem| == |renum| > 0 && mem == g && mem[0] == VOID && renum[0] == 0
    requires forall j :: 1 <= j < |m| ==> renum[j] == UNPROCESSED
    ensures CompactedTo(g, m, 1, mem, renum) && CanonBelow(m, 1) == 0
  {
  }

  lemma CompactionStep(g: seq<BtfType>, m: seq<nat>, i: nat, mem: seq<BtfType>, renum: seq<nat>)
    requires |g| == |m| && 1 <= i < |m| && CompactedTo(g, m, i, mem, renum)
    ensures |mem| == |renum| == |m| && CanonBelow(m, i) + 1 <= i && mem[i] == g[i]
    ensures CanonBelow(m, i + 1) == CanonBelow(m, i) + if Canonical(m, i) then 1 else 0
    ensures
      if Canonical(m, i) then CompactedTo(g, m, i + 1, mem[CanonBelow(m, i) + 1 := mem[i]], renum[i := CanonBelow(m, i) + 1])
      else CompactedTo(g, m, i + 1, mem, renum)
  {
    assert CanonBelow(m, i + 1) == CanonBelow(m, i) + if Canonical(m, i) then 1 else 0;
    hide CanonBelow;
  }

  lemma CompactionDone(g: seq<BtfType>, m: seq<nat>, mem: seq<BtfType>, renum: seq<nat>)
    requires InRange(m) && |g| == |m| > 0 && CompactedTo(g, m, |m|, mem, renum)
    ensures Compacted(g, m, mem, renum, CanonBelow(m, |m|))
  {
    hide CanonBelow;
  }

  /** The first k references of a record have been renumbered. */
  ghost predicate PartlyRebuilt(m: seq<nat>, t: BtfType, u: BtfType, k: nat)
    requires InRange(m) && Acyclic(m)
  {
    Shape(u) == Shape(t) && |Refs(u)| == |Refs(t)| && k <= |Refs(t)| &&
    (forall j :: 0 <= j < |Refs(t)| ==> Refs(t)[j] < |m|) &&
    (forall j :: 0 <= j < |Refs(t)| ==> Refs(u)[j] == if j < k then Final(m, Refs(t)[j]) else Refs(t)[j])
  }

  lemma RebuildStep(m: seq<nat>, t: BtfType, u: BtfType, k: nat, r: nat)
    requires InRange(m) && Acyclic(m) && PartlyRebuilt(m, t, u, k) && k < |Refs(t)|
    requires Refs(u)[k] == Refs(t)[k] < |m| ==> r == Final(m, Refs(t)[k])
    ensures PartlyRebuilt(m, t, SetRef(u, k, r), k + 1)
  {
  }

  lemma RebuildPending(m: seq<nat>, t: BtfType, u: BtfType, k: nat)
    requires InRange(m) && Acyclic(m) && PartlyRebuilt(m, t, u, k) && k < |Refs(t)|
    ensures k < |Refs(u)| && Refs(u)[k] == Refs(t)[k] < |m|
  {
  }

  ghost predicate IsRenumbering(m: seq<nat>, renum: seq<nat>) {
    |renum| == |m| && forall c: nat :: c < |m| && Canonical(m, c) ==> renum[c] == NewId(m, c)
  }

  lemma RebuildStart(m: seq<nat>, t: BtfType)
    requires InRange(m) && Acyclic(m) && forall j :: 0 <= j < |Refs(t)| ==> Refs(t)[j] < |m|
    ensures PartlyRebuilt(m, t, t, 0)
  {
  }

  lemma RebuildEnd(m: seq<nat>, t: BtfType, u: BtfType)
    requires InRange(m) && Acyclic(m) && PartlyRebuilt(m, t, u, |Refs(t)|)
    ensures RecordRebuilt(m, t, u)
  {
  }

  lemma CompactedRenumbers(g: seq<BtfType>, m: seq<nat>, mem: seq<BtfType>, renum: seq<nat>, n: nat)
    requires InRange(m) && |g| == |m| && Compacted(g, m, mem, renum, n)
    ensures IsRenumbering(m, renum) && n < |m| && mem[0] == VOID
  {
  }

  lemma CompactedAt(g: seq<BtfType>, m: seq<nat>, mem: seq<BtfType>, renum: seq<nat>, n: nat, b: nat)
    requires InRange(m) && |g| == |m| && Closed(g) && Compacted(g, m, mem, renum, n) && 0 < b <= n
    requires forall i: nat :: 0 < i < |g| ==> KindOf(g[i]) != Unkn
    ensures b < |mem| && KindOf(mem[b]) != Unkn && forall k :: 0 <= k < |Refs(mem[b])| ==> Refs(mem[b])[k] < |g|
  {
    var c := NewIdOnto(m, b, |m|);
  }

  lemma CompactedRebuilt(g: seq<BtfType>, m: seq<nat>, mem: seq<BtfType>, renum: seq<nat>, n: nat, out: seq<BtfType>)
    requires InRange(m) && Acyclic(m) && |g| == |m| && Closed(g) && Compacted(g, m, mem, renum, n)
    requires |out| == n + 1 <= |mem| && out[0] == VOID && forall b: nat :: 0 < b < |out| ==> RecordRebuilt(m, mem[b], out[b])
    ensures Rebuilt(g, m, out)
  {
  }
}
