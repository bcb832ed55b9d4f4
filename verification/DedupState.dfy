/** The state that the deduplication passes share, as predicates over its values, and the steps
    that keep it. g0 is the graph given to deduplication and g the graph as rewritten so far. */
module DedupState {
  import opened BtfGraph
  import opened BtfCompare
  import opened IdMap
  import opened Hypothesis
  import opened Contents

  /** Kinds whose records are compared for exact equality. */
  predicate ExactKind(k: Kind) {
    k == Int || k == Enum || k == Fwd || IsRefKind(k)
  }

  predicate PrimKind(k: Kind) {
    k == Int || k == Enum || k == Fwd
  }

  ghost function ExactHash(t: BtfType): nat
    requires WellFormed(t)
  {
    match KindOf(t)
    case Int => IntHash(t)
    case Enum => EnumHash(t)
    case _ => RefHash(t)
  }

  type Table = seq<(nat, nat)>

  /** Types that stay canonical once filed: all but FWDs and forward enums. */
  predicate StaysCanonical(t: BtfType) {
    KindOf(t) != Fwd && !IsEnumFwd(t)
  }

  /** The candidate table holds every canonical type under its hash, and no two canonical types
      of a kind compared exactly are equal. */
  ghost predicate Filed(g: seq<BtfType>, m: seq<nat>, tb: Table)
    requires WellFormedGraph(g) && InRange(m) && |m| == |g|
  {
    (forall e :: e in tb ==> 0 < e.1 < |g| && Mapped(m, e.1) && !NeverDeduped(KindOf(g[e.1]))) &&
    (forall e :: e in tb && StaysCanonical(g[e.1]) ==> m[e.1] == e.1) &&
    (forall i: nat :: 0 < i < |g| && m[i] == i && ExactKind(KindOf(g[i])) ==> (ExactHash(g[i]), i) in tb) &&
    (forall i: nat, j: nat :: i < |g| && j < |g| && i != j && m[i] == i && m[j] == j && ExactKind(KindOf(g[i])) ==> g[i] != g[j])
  }

  lemma CandidateIsType(g: seq<BtfType>, m: seq<nat>, tb: Table, h: nat, c: nat)
    requires WellFormedGraph(g) && InRange(m) && |m| == |g| && Filed(g, m, tb) && (h, c) in tb
    ensures 0 < c < |g| && Mapped(m, c) && !NeverDeduped(KindOf(g[c]))
    ensures StaysCanonical(g[c]) ==> m[c] == c
  {
  }

  ghost predicate Consistent(strict: bool, g0: seq<BtfType>, g: seq<BtfType>, m: seq<nat>, tb: Table) {
    WellFormedGraph(g0) && WellFormedGraph(g) && InRange(m) && |m| == |g0| == |g| &&
    Acyclic(m) && Sound(strict, g0, m) && Faithful(g0, m) && Filed(g, m, tb)
  }

  /** While primitive types are deduplicated: ids from `next` on are still to come, and a forward
      enum may already point at the definition `next` that is just being looked at. */
  ghost predicate PrimEntries(g: seq<BtfType>, m: seq<nat>, tb: Table, next: nat)
    requires |m| == |g| && forall e :: e in tb ==> e.1 < |g|
  {
    (forall j: nat :: 0 < j < |g| && !PrimKind(KindOf(g[j])) ==>
       m[j] == (if NeverDeduped(KindOf(g[j])) then j else UNPROCESSED) && (j < next ==> KindOf(g[j]) != Unkn)) &&
    (forall j: nat :: 0 < j < |g| && PrimKind(KindOf(g[j])) ==>
       if j < next then m[j] < |g| && (m[j] == next || Mapped(m, m[j])) else m[j] == UNPROCESSED) &&
    (forall e :: e in tb ==> PrimKind(KindOf(g[e.1])))
  }

  ghost predicate PrimLoop(strict: bool, g: seq<BtfType>, m: seq<nat>, tb: Table, next: nat) {
    Consistent(strict, g, g, m, tb) && PrimEntries(g, m, tb, next)
  }

  ghost predicate HopsStayMapped(m: seq<nat>)
    requires InRange(m)
  {
    forall j: nat :: j < |m| && Mapped(m, j) ==> Mapped(m, m[j])
  }

  ghost predicate PrimPhase(strict: bool, g: seq<BtfType>, m: seq<nat>, tb: Table, next: nat) {
    PrimLoop(strict, g, m, tb, next) &&
    HopsStayMapped(m)
  }

  /** While structs and unions are deduplicated. */
  ghost predicate StructEntries(g: seq<BtfType>, m: seq<nat>, next: nat)
    requires |m| == |g|
  {
    forall j: nat :: 0 < j < |g| ==>
      KindOf(g[j]) != Unkn &&
      if IsRefKind(KindOf(g[j])) then m[j] == UNPROCESSED
      else if IsComposite(KindOf(g[j])) then m[j] != IN_PROGRESS && (j < next ==> Mapped(m, j))
      else Mapped(m, j)
  }

  ghost predicate StructPhase(strict: bool, g: seq<BtfType>, m: seq<nat>, tb: Table, next: nat) {
    Consistent(strict, g, g, m, tb) && StructEntries(g, m, next)
  }

  /** Every reference of g is alike to the one it replaced. */
  ghost predicate RewrittenFrom(strict: bool, g0: seq<BtfType>, g: seq<BtfType>)
    requires Closed(g0) && Closed(g)
  {
    |g| == |g0| &&
    (forall i :: 0 <= i < |g| ==> Shape(g[i]) == Shape(g0[i]) && |Refs(g[i])| == |Refs(g0[i])|) &&
    (forall i, k :: 0 <= i < |g| && 0 <= k < |Refs(g[i])| ==> Alike(strict, g0, Refs(g[i])[k], Refs(g0[i])[k]))
  }

  ghost predicate CanonicalRefs(m: seq<nat>, t: BtfType) {
    forall k :: 0 <= k < |Refs(t)| ==> Refs(t)[k] < |m| && m[Refs(t)[k]] == Refs(t)[k]
  }

  /** While reference types are deduplicated. `fin` records when each type was finished: a type
      is finished only after every reference type it refers to. */
  ghost predicate RefEntries(g0: seq<BtfType>, g: seq<BtfType>, m: seq<nat>, fin: seq<nat>, clock: nat)
    requires InRange(m) && |m| == |g0| == |g| == |fin| && Closed(g0)
  {
    forall j: nat :: 0 < j < |g| ==>
      KindOf(g[j]) == KindOf(g0[j]) != Unkn &&
      (m[j] == UNPROCESSED ==> g[j] == g0[j]) &&
      if !IsRefKind(KindOf(g[j])) then Mapped(m, j) && g[j] == g0[j]
      else Mapped(m, j) ==> m[m[j]] == m[j] && g[m[j]] == g[j] && CanonicalRefs(m, g[j]) && FinishedAfter(g0, m, fin, j, fin[j]) && fin[j] < clock
  }

  ghost predicate FinishedAfter(g0: seq<BtfType>, m: seq<nat>, fin: seq<nat>, j: nat, now: nat)
    requires Closed(g0) && |m| == |g0| == |fin| && j < |g0|
  {
    RefsFinished(g0, m, fin, Refs(g0[j]), now)
  }

  ghost predicate RefsFinished(g0: seq<BtfType>, m: seq<nat>, fin: seq<nat>, rs: seq<nat>, now: nat)
    requires |m| == |g0| == |fin|
  {
    forall k :: 0 <= k < |rs| && rs[k] < |g0| && IsRefKind(KindOf(g0[rs[k]])) ==> Mapped(m, rs[k]) && fin[rs[k]] < now
  }

  /** Every reference of g resolves to what the one it replaced resolves to. */
  ghost predicate SameRoots(g0: seq<BtfType>, g: seq<BtfType>, m: seq<nat>)
    requires InRange(m) && Acyclic(m) && Closed(g0) && Closed(g) && |g0| == |g| == |m|
  {
    forall i, k :: 0 <= i < |g| && 0 <= k < |Refs(g[i])| && k < |Refs(g0[i])| ==>
      Root(m, Refs(g[i])[k]) == Root(m, Refs(g0[i])[k])
  }

  ghost predicate RefPhase(strict: bool, g0: seq<BtfType>, g: seq<BtfType>, m: seq<nat>, tb: Table, fin: seq<nat>, clock: nat) {
    Consistent(strict, g0, g, m, tb) && RewrittenFrom(strict, g0, g) && |fin| == |g0| && RefEntries(g0, g, m, fin, clock) &&
    SameRoots(g0, g, m)
  }

  /** An order in which reference types come after what they refer to; in a graph that has one,
      every cycle goes through a struct or union. */
  ghost predicate RefOrder(g: seq<BtfType>, rank: seq<nat>)
    requires Closed(g)
  {
    |rank| == |g| &&
    forall j, k :: 0 <= j < |g| && 0 <= k < |Refs(g[j])| && IsRefKind(KindOf(g[j])) && IsRefKind(KindOf(g[Refs(g[j])[k]])) ==>
      rank[Refs(g[j])[k]] < rank[j]
  }

  /** The recursion has only met types that come later in the order. */
  ghost predicate Descending(g: seq<BtfType>, rank: seq<nat>, m: seq<nat>, id: nat)
    requires Closed(g) && |m| == |g| && id < |g|
  {
    RefOrder(g, rank) && (IsRefKind(KindOf(g[id])) ==> forall j: nat :: j < |m| && m[j] == IN_PROGRESS ==> rank[id] < rank[j])
  }

  /** What a recursive call leaves alone: every type that had been reached before it. */
  ghost predicate Untouched(g: seq<BtfType>, m: seq<nat>, fin: seq<nat>, g': seq<BtfType>, m': seq<nat>, fin': seq<nat>) {
    |g| == |m| == |fin| == |g'| == |m'| == |fin'| &&
    forall j: nat :: j < |m| && m[j] != UNPROCESSED ==> g'[j] == g[j] && m'[j] == m[j] && fin'[j] == fin[j]
  }

  ghost predicate UntouchedBut(g: seq<BtfType>, m: seq<nat>, fin: seq<nat>, g': seq<BtfType>, m': seq<nat>, fin': seq<nat>, id: nat) {
    |g| == |m| == |fin| == |g'| == |m'| == |fin'| &&
    forall j: nat :: j < |m| && j != id && m[j] != UNPROCESSED ==> g'[j] == g[j] && m'[j] == m[j] && fin'[j] == fin[j]
  }

  ghost predicate DescendingTo(g: seq<BtfType>, rank: seq<nat>, m: seq<nat>, id: nat)
    requires Closed(g) && |m| == |g| && id < |g|
  {
    RefOrder(g, rank) && forall j: nat :: j < |m| && m[j] == IN_PROGRESS ==> rank[id] <= rank[j]
  }

  ghost predicate NoNewMarks(m: seq<nat>, m': seq<nat>) {
    |m| == |m'| && forall j: nat :: j < |m| && m'[j] == IN_PROGRESS ==> m[j] == IN_PROGRESS
  }

  ghost predicate AllMapped(m: seq<nat>) {
    forall j: nat :: j < |m| ==> Mapped(m, j)
  }

  ghost function Unprocessed(m: seq<nat>): set<nat> {
    set j: nat | j < |m| && m[j] == UNPROCESSED
  }

  /** Records of the rewritten graph that have become equal were alike all along. */
  lemma EqualRecordsAlike(strict: bool, g0: seq<BtfType>, g: seq<BtfType>, a: nat, b: nat)
    requires Closed(g0) && Closed(g) && RewrittenFrom(strict, g0, g)
    requires a < |g| && b < |g| && g[a] == g[b]
    ensures Alike(strict, g0, a, b)
  {
    ShapeFixesKind(g[a], g0[a]);
    ShapeFixesKind(g[b], g0[b]);
    if strict {
      forall n: nat ensures Same(n, g0, a, g0, b) {
        if n > 0 {
          forall k | 0 <= k < |Refs(g0[a])| ensures Same(n - 1, g0, Refs(g0[a])[k], g0, Refs(g0[b])[k]) {
            var r := Refs(g[a])[k];
            assert Alike(strict, g0, r, Refs(g0[a])[k]) && Alike(strict, g0, r, Refs(g0[b])[k]);
            SameSymmetric(n - 1, g0, r, g0, Refs(g0[a])[k]);
            SameTransitive(n - 1, g0, Refs(g0[a])[k], g0, r, g0, Refs(g0[b])[k]);
          }
        }
      }
    } else if Unambiguous(g0) {
      forall n: nat ensures Like(n, g0, a, g0, b) { EqualRecordsLike(n, g0, g, a, b); }
    }
  }

  lemma EqualRecordsLike(n: nat, g0: seq<BtfType>, g: seq<BtfType>, a: nat, b: nat)
    requires Closed(g0) && Closed(g) && RewrittenFrom(false, g0, g) && Unambiguous(g0)
    requires a < |g| && b < |g| && g[a] == g[b]
    ensures Like(n, g0, a, g0, b)
  {
    hide Shape, Unambiguous, Declares;
    if n > 0 {
      forall k | 0 <= k < |Refs(g0[a])| ensures Like(n - 1, g0, Refs(g0[a])[k], g0, Refs(g0[b])[k]) {
        var r := Refs(g[a])[k];
        assert Alike(false, g0, r, Refs(g0[a])[k]) && Alike(false, g0, r, Refs(g0[b])[k]);
        LikeSymmetric(n - 1, g0, r, g0, Refs(g0[a])[k]);
        LikeTransitive(n - 1, g0, Refs(g0[a])[k], r, Refs(g0[b])[k]);
      }
    }
  }

  lemma RewrittenFromItself(strict: bool, g: seq<BtfType>)
    requires Closed(g)
    ensures RewrittenFrom(strict, g, g)
  {
    forall i, k | 0 <= i < |g| && 0 <= k < |Refs(g[i])| ensures Alike(strict, g, Refs(g[i])[k], Refs(g[i])[k]) {
      AlikeReflexive(strict, g, Refs(g[i])[k]);
    }
  }

  // Steps of the primitive pass ------------------------------------------------------------

  /** When every hop leads to a mapped id, so does every walk. */
  lemma {:induction false} MappedWalk(m: seq<nat>, i: nat, k: nat)
    requires InRange(m) && i < |m| && Ends(m, i, k) && Mapped(m, i)
    requires HopsStayMapped(m)
    ensures Mapped(m, Walk(m, i, k))
    decreases k
  {
    if !IsRoot(m, i) {
      MappedWalk(m, m[i], k - 1);
    }
  }

  lemma MappedRoot(m: seq<nat>, i: nat)
    requires InRange(m) && Acyclic(m) && i < |m| && Mapped(m, i)
    requires HopsStayMapped(m)
    ensures Mapped(m, Root(m, i))
  {
    var k := RootWitness(m, i);
    MappedWalk(m, i, k);
  }

  lemma RedirectKeepsSound(strict: bool, g: seq<BtfType>, m: seq<nat>, x: nat, y: nat)
    requires Closed(g) && InRange(m) && |m| == |g| && Sound(strict, g, m)
    requires 0 < x < |m| && y < |m| && Alike(strict, g, x, y)
    ensures InRange(m[x := y]) && Sound(strict, g, m[x := y])
  {
  }

  /** Filing a type under a hash under which no equal type is filed. */
  lemma FileCanonical(g: seq<BtfType>, m: seq<nat>, tb: Table, id: nat, h: nat)
    requires WellFormedGraph(g) && InRange(m) && |m| == |g| && Filed(g, m, tb)
    requires 0 < id < |g| && !Mapped(m, id) && !NeverDeduped(KindOf(g[id]))
    requires ExactKind(KindOf(g[id])) ==> h == ExactHash(g[id]) && forall c: nat :: (h, c) in tb ==> g[c] != g[id]
    ensures InRange(m[id := id]) && Filed(g, m[id := id], tb + [(h, id)])
  {
    var m', tb' := m[id := id], tb + [(h, id)];
    assert forall e :: e in tb' <==> e in tb || e == (h, id) by { assert tb'[|tb|] == (h, id); }
    assert KindOf(VOID) == Unkn;
    forall o: nat | 0 < o < |g| && o != id && m[o] == o && ExactKind(KindOf(g[o]))
      ensures g[o] != g[id]
    {
      assert (ExactHash(g[o]), o) in tb;
    }
  }

  /** Joining another type leaves the set of canonical types as it was. */
  lemma FileJoined(g: seq<BtfType>, m: seq<nat>, tb: Table, id: nat, newId: nat)
    requires WellFormedGraph(g) && InRange(m) && |m| == |g| && Filed(g, m, tb)
    requires 0 < id < |g| && newId < |g| && newId != id
    requires forall e :: e in tb && e.1 == id ==> !StaysCanonical(g[id])
    ensures InRange(m[id := newId]) && Filed(g, m[id := newId], tb)
  {
  }

  lemma PrimEntriesOverwrite(g: seq<BtfType>, m: seq<nat>, tb: Table, next: nat, cand: nat)
    requires InRange(m) && |m| == |g| && forall e :: e in tb ==> e.1 < |g|
    requires PrimEntries(g, m, tb, next)
    requires 0 < next < |g| && 0 < cand < |g| && PrimKind(KindOf(g[cand])) && Mapped(m, cand)
    ensures PrimEntries(g, m[cand := next], tb, next)
  {
  }

  /** A canonical forward enum is redirected to the definition `next`. */
  lemma PrimOverwrite(g: seq<BtfType>, m: seq<nat>, tb: Table, next: nat, cand: nat)
    requires PrimLoop(false, g, m, tb, next)
    requires 0 < next < |g| && KindOf(g[next]) == Enum && !IsEnumFwd(g[next])
    requires (EnumHash(g[next]), cand) in tb
    requires CompatibleEnums(g[next], g[cand]) && g[next] != g[cand]
    ensures PrimLoop(false, g, m[cand := next], tb, next)
  {
    hide Faithful, Becomes, OneShape, WellFormed, Shape;
    CompatibleEnumsMeet(g[next], g[cand]);
    CompatibleDeclares(g[cand], g[next]);
    DeclaredAlike(g, cand, next);
    FileJoined(g, m, tb, cand, next);
    PrimEntriesOverwrite(g, m, tb, next, cand);
    RedirectKeepsAcyclic(m, cand, next);
    RedirectKeepsSound(false, g, m, cand, next);
    CompatibleBecomes(g, g[cand], g[next]);
    RedirectKeepsFaithful(g, m, cand, next);
  }

  lemma PrimEntriesFinish(g: seq<BtfType>, m: seq<nat>, tb: Table, tb': Table, id: nat, newId: nat)
    requires WellFormedGraph(g) && InRange(m) && |m| == |g| && forall e :: e in tb ==> e.1 < |g|
    requires PrimEntries(g, m, tb, id)
    requires 0 < id < |g| && newId < |g| && PrimKind(KindOf(g[id])) && (newId == id || Mapped(m, newId))
    requires forall e :: e in tb' ==> e in tb || e.1 == id
    ensures PrimEntries(g, m[id := newId], tb', id + 1)
    ensures HopsStayMapped(m[id := newId])
  {
    var m' := m[id := newId];
    forall j: nat | 0 < j < |g| && j != id && Mapped(m', j)
      ensures Mapped(m', m'[j])
    {
      if PrimKind(KindOf(g[j])) { assert j < id; }
    }
  }

  /** A type becomes canonical and is filed, or joins an alike type that does not lead back to it. */
  lemma PrimFinish(strict: bool, g: seq<BtfType>, m: seq<nat>, tb: Table, id: nat, newId: nat)
    requires PrimLoop(strict, g, m, tb, id)
    requires 0 < id < |g| && newId < |g| && PrimKind(KindOf(g[id]))
    requires newId == id ==> forall c: nat :: (ExactHash(g[id]), c) in tb ==> g[c] != g[id]
    requires newId == id || Joinable(strict, g, m, id, newId)
    ensures PrimPhase(strict, g, m[id := newId], if newId == id then tb + [(ExactHash(g[id]), id)] else tb, id + 1)
  {
    hide Faithful, Becomes, OneShape, WellFormed, Shape, Alike, Acyclic, Sound;
    if newId == id {
      RedirectKeepsAcyclic(m, id, id);
      AlikeReflexive(strict, g, id);
      BecomesItself(g, g[id]);
      FileCanonical(g, m, tb, id, ExactHash(g[id]));
      PrimEntriesFinish(g, m, tb, tb + [(ExactHash(g[id]), id)], id, newId);
    } else {
      RedirectRootKeepsAcyclic(m, id, newId);
      FileJoined(g, m, tb, id, newId);
      PrimEntriesFinish(g, m, tb, tb, id, newId);
    }
    RedirectKeepsSound(strict, g, m, id, newId);
    RedirectKeepsFaithful(g, m, id, newId);
  }

  /** What a type that joins a filed candidate needs to know about it. */
  ghost predicate Joinable(strict: bool, g: seq<BtfType>, m: seq<nat>, id: nat, cand: nat)
    requires Closed(g) && InRange(m) && |m| == |g| && Acyclic(m) && id < |g|
  {
    cand < |g| && cand != id && Mapped(m, cand) && Root(m, cand) != id && Alike(strict, g, id, cand) &&
    Becomes(g, g[id], g[cand])
  }

  lemma EqualIsJoinable(strict: bool, g: seq<BtfType>, m: seq<nat>, tb: Table, id: nat, cand: nat)
    requires PrimLoop(strict, g, m, tb, id) && 0 < id < |g| && PrimKind(KindOf(g[id]))
    requires (ExactHash(g[id]), cand) in tb && g[cand] == g[id]
    requires StaysCanonical(g[id]) || HopsStayMapped(m)
    ensures Joinable(strict, g, m, id, cand)
  {
    RootStep(m, cand);
    if !StaysCanonical(g[id]) { MappedRoot(m, cand); }
    RewrittenFromItself(strict, g);
    EqualRecordsAlike(strict, g, g, id, cand);
    BecomesItself(g, g[id]);
  }

  lemma DefinitionIsJoinable(g: seq<BtfType>, m: seq<nat>, tb: Table, id: nat, cand: nat)
    requires PrimPhase(false, g, m, tb, id) && 0 < id < |g| && IsEnumFwd(g[id])
    requires (EnumHash(g[id]), cand) in tb && CompatibleEnums(g[id], g[cand])
    ensures Joinable(false, g, m, id, cand)
  {
    CompatibleEnumsMeet(g[id], g[cand]);
    CompatibleDeclares(g[id], g[cand]);
    DeclaredAlike(g, id, cand);
    CompatibleBecomes(g, g[id], g[cand]);
    MappedRoot(m, cand);
  }

  lemma PrimPending(strict: bool, g: seq<BtfType>, m: seq<nat>, tb: Table, id: nat)
    requires PrimLoop(strict, g, m, tb, id) && 0 < id < |g| && PrimKind(KindOf(g[id]))
    ensures !Mapped(m, id)
  {
  }

  lemma PrimSkip(strict: bool, g: seq<BtfType>, m: seq<nat>, tb: Table, id: nat)
    requires PrimPhase(strict, g, m, tb, id) && 0 < id < |g|
    requires !PrimKind(KindOf(g[id])) && KindOf(g[id]) != Unkn
    ensures PrimPhase(strict, g, m, tb, id + 1)
  {
  }

  // Steps of the struct pass ---------------------------------------------------------------

  lemma StructStart(strict: bool, g: seq<BtfType>, m: seq<nat>, tb: Table)
    requires PrimPhase(strict, g, m, tb, |g|)
    ensures StructPhase(strict, g, m, tb, 1)
  {
    hide Faithful, Becomes, OneShape, Filed, Sound, Acyclic, WellFormed, Shape;
  }

  lemma StructEntriesLink(g: seq<BtfType>, m: seq<nat>, next: nat, x: nat, y: nat)
    requires InRange(m) && |m| == |g| && StructEntries(g, m, next)
    requires 0 < x < |m| && y < |m| && !IsRefKind(KindOf(g[x]))
    ensures StructEntries(g, m[x := y], next)
  {
  }

  /** A forward declaration is resolved to what it announces. */
  lemma LinkForward(strict: bool, g: seq<BtfType>, m: seq<nat>, tb: Table, next: nat, x: nat, y: nat)
    requires StructPhase(strict, g, m, tb, next)
    requires x < |m| && y < |m| && x != y && IsRoot(m, y) && KindOf(g[x]) == Fwd && KindOf(g[y]) != Fwd && Alike(strict, g, x, y)
    ensures StructPhase(strict, g, m[x := y], tb, next)
  {
    hide Faithful, Becomes, OneShape, WellFormed, Shape;
    assert x != 0;
    FwdBecomes(g, g[x], g[y]);
    RedirectKeepsAcyclic(m, x, y);
    RedirectKeepsSound(strict, g, m, x, y);
    RedirectKeepsFaithful(g, m, x, y);
    FileJoined(g, m, tb, x, y);
    StructEntriesLink(g, m, next, x, y);
  }

  /** A struct or union that is still open joins one that is settled. */
  lemma LinkComposite(strict: bool, g: seq<BtfType>, m: seq<nat>, tb: Table, next: nat, x: nat, y: nat)
    requires StructPhase(strict, g, m, tb, next)
    requires x < |m| && y < |m| && IsRoot(m, y) && Mapped(m, y) && !Mapped(m, x)
    requires IsComposite(KindOf(g[x])) && Alike(strict, g, x, y) && Becomes(g, g[x], g[y])
    ensures StructPhase(strict, g, m[x := y], tb, next)
  {
    hide Faithful, Becomes, OneShape, WellFormed, Shape;
    RedirectKeepsAcyclic(m, x, y);
    RedirectKeepsSound(strict, g, m, x, y);
    RedirectKeepsFaithful(g, m, x, y);
    FileJoined(g, m, tb, x, y);
    StructEntriesLink(g, m, next, x, y);
  }

  /** A finished hypothesis relates alike types. */
  lemma HypothesisAlike(strict: bool, g: seq<BtfType>, m: seq<nat>, tb: Table, next: nat, h: seq<nat>, list: seq<nat>, i: nat)
    requires StructPhase(strict, g, m, tb, next) && |h| == |g| && Complete(strict, m, g, h) && Listed(h, list) && i < |list|
    ensures list[i] < |g| && h[list[i]] < |g| && Alike(strict, g, h[list[i]], list[i]) && NodesAgree(strict, g[h[list[i]]], g[list[i]])
  {
    hide Alike, Acyclic, Sound, Filed, NodesAgree;
    assert IsSet(h, list[i]);
    CompleteAlike(strict, m, g, h, list[i]);
  }

  lemma StructSkip(strict: bool, g: seq<BtfType>, m: seq<nat>, tb: Table, id: nat)
    requires StructPhase(strict, g, m, tb, id) && 0 < id < |g|
    requires Mapped(m, id) || !IsComposite(KindOf(g[id]))
    ensures StructPhase(strict, g, m, tb, id + 1)
  {
  }

  lemma NotYetFiled(g: seq<BtfType>, m: seq<nat>, tb: Table, id: nat)
    requires WellFormedGraph(g) && InRange(m) && |m| == |g| && Filed(g, m, tb)
    requires id < |g| && !Mapped(m, id)
    ensures forall e :: e in tb ==> e.1 != id
  {
  }

  lemma StructFinish(strict: bool, g: seq<BtfType>, m: seq<nat>, tb: Table, id: nat, newId: nat, h: nat)
    requires StructPhase(strict, g, m, tb, id)
    requires 0 < id < |g| && newId < |g| && IsComposite(KindOf(g[id]))
    requires forall e :: e in tb ==> e.1 != id
    requires if newId == id then !Mapped(m, id) else m[newId] == newId && Alike(strict, g, id, newId) && Becomes(g, g[id], g[newId])
    ensures StructPhase(strict, g, m[id := newId], if newId == id then tb + [(h, id)] else tb, id + 1)
  {
    hide Faithful, Becomes, OneShape, WellFormed, Shape, Alike, Acyclic, Sound, Filed;
    RedirectKeepsAcyclic(m, id, newId);
    if newId == id {
      AlikeReflexive(strict, g, id);
      BecomesItself(g, g[id]);
      FileCanonical(g, m, tb, id, h);
    } else {
      FileJoined(g, m, tb, id, newId);
    }
    RedirectKeepsSound(strict, g, m, id, newId);
    RedirectKeepsFaithful(g, m, id, newId);
    StructEntriesLink(g, m, id, id, newId);
  }

  // Steps of the reference pass ------------------------------------------------------------

  lemma RefStart(strict: bool, g: seq<BtfType>, m: seq<nat>, tb: Table, fin: seq<nat>)
    requires StructPhase(strict, g, m, tb, |g|) && |fin| == |g|
    ensures RefPhase(strict, g, g, m, tb, fin, 0)
    ensures forall j: nat :: j < |m| ==> m[j] != IN_PROGRESS
  {
    hide Faithful, Becomes, OneShape, Filed, Sound, Acyclic, WellFormed, Shape;
    RewrittenFromItself(strict, g);
  }

  lemma RefMark(strict: bool, g0: seq<BtfType>, g: seq<BtfType>, m: seq<nat>, tb: Table, fin: seq<nat>, clock: nat, id: nat)
    requires RefPhase(strict, g0, g, m, tb, fin, clock) && id < |m| && m[id] == UNPROCESSED
    ensures RefPhase(strict, g0, g, m[id := IN_PROGRESS], tb, fin, clock)
  {
    hide RewrittenFrom, Alike, Acyclic, Faithful;
    MarkKeepsAcyclic(m, id, IN_PROGRESS);
    MarkKeepsFaithful(g0, m, id, IN_PROGRESS);
    MarkKeepsFiled(g, m, tb, id);
    MarkKeepsEntries(g0, g, m, fin, clock, id);
    forall i, k | 0 <= i < |g| && 0 <= k < |Refs(g[i])| && k < |Refs(g0[i])|
      ensures Root(m[id := IN_PROGRESS], Refs(g[i])[k]) == Root(m[id := IN_PROGRESS], Refs(g0[i])[k])
    {
      RootAfterMark(m, id, IN_PROGRESS, Refs(g[i])[k]);
      RootAfterMark(m, id, IN_PROGRESS, Refs(g0[i])[k]);
    }
  }

  lemma MarkKeepsFiled(g: seq<BtfType>, m: seq<nat>, tb: Table, id: nat)
    requires WellFormedGraph(g) && InRange(m) && |m| == |g| && Filed(g, m, tb)
    requires 0 < id < |g| && !Mapped(m, id)
    ensures InRange(m[id := IN_PROGRESS]) && Filed(g, m[id := IN_PROGRESS], tb)
  {
  }

  lemma MarkKeepsEntries(g0: seq<BtfType>, g: seq<BtfType>, m: seq<nat>, fin: seq<nat>, clock: nat, id: nat)
    requires InRange(m) && |m| == |g0| == |g| == |fin| && Closed(g0) && RefEntries(g0, g, m, fin, clock)
    requires 0 < id < |g| && !Mapped(m, id)
    ensures InRange(m[id := IN_PROGRESS]) && RefEntries(g0, g, m[id := IN_PROGRESS], fin, clock)
  {
    var m' := m[id := IN_PROGRESS];
    forall j: nat | 0 < j < |g| && IsRefKind(KindOf(g[j])) && Mapped(m', j)
      ensures m'[m'[j]] == m'[j] && g[m'[j]] == g[j] && CanonicalRefs(m', g[j]) && FinishedAfter(g0, m', fin, j, fin[j])
    {
      assert Mapped(m, j);
    }
  }

  /** One reference of the type in progress is replaced by its canonical type. */
  lemma RefRewrite(strict: bool, g0: seq<BtfType>, g: seq<BtfType>, m: seq<nat>, tb: Table, fin: seq<nat>, clock: nat,
                   id: nat, k: nat, r: nat)
    requires RefPhase(strict, g0, g, m, tb, fin, clock)
    requires id < |g| && m[id] == IN_PROGRESS && k < |Refs(g[id])| && r < |g|
    requires Alike(strict, g0, Refs(g[id])[k], r) && r == Root(m, Refs(g[id])[k])
    ensures RefPhase(strict, g0, g[id := SetRef(g[id], k, r)], m, tb, fin, clock)
  {
    hide Alike, RewrittenFrom, Acyclic, Sound, Shape, WellFormed, RefEntries, SameRoots, Filed;
    RootStep(m, r);
    RewriteKeepsRoots(g0, g, m, id, k, r);
    var u := SetRef(g[id], k, r);
    var g' := g[id := u];
    ShapeFixesKind(u, g[id]);
    RewriteKeepsEntries(g0, g, m, fin, clock, id, u);
    RewriteKeepsClosed(g, id, k, r);
    RewriteKeepsOrigin(strict, g0, g, id, k, r);
    RewriteKeepsFiled(g, g', m, tb, id);
  }

  lemma RewriteKeepsEntries(g0: seq<BtfType>, g: seq<BtfType>, m: seq<nat>, fin: seq<nat>, clock: nat, id: nat, u: BtfType)
    requires InRange(m) && |m| == |g0| == |g| == |fin| && Closed(g0) && RefEntries(g0, g, m, fin, clock)
    requires 0 < id < |g| && m[id] == IN_PROGRESS && KindOf(u) == KindOf(g[id])
    ensures RefEntries(g0, g[id := u], m, fin, clock)
  {
    hide FinishedAfter, CanonicalRefs, Closed;
  }

  lemma RewriteKeepsClosed(g: seq<BtfType>, id: nat, k: nat, r: nat)
    requires WellFormedGraph(g) && 0 < id < |g| && k < |Refs(g[id])| && r < |g|
    ensures WellFormedGraph(g[id := SetRef(g[id], k, r)])
  {
  }

  lemma RewriteKeepsOrigin(strict: bool, g0: seq<BtfType>, g: seq<BtfType>, id: nat, k: nat, r: nat)
    requires WellFormedGraph(g0) && WellFormedGraph(g) && RewrittenFrom(strict, g0, g)
    requires 0 < id < |g| && k < |Refs(g[id])| && r < |g| && Alike(strict, g0, Refs(g[id])[k], r)
    ensures WellFormedGraph(g[id := SetRef(g[id], k, r)]) && RewrittenFrom(strict, g0, g[id := SetRef(g[id], k, r)])
  {
    hide Alike, WellFormed, Shape, Refs, SetRef;
    RewriteKeepsClosed(g, id, k, r);
    RewrittenRefAlike(strict, g0, g, id, k, r);
    var u := SetRef(g[id], k, r);
    var g' := g[id := u];
    assert Refs(u) == Refs(g[id])[k := r];
    forall i, l | 0 <= i < |g'| && 0 <= l < |Refs(g'[i])| ensures Alike(strict, g0, Refs(g'[i])[l], Refs(g0[i])[l]) {
      assert Alike(strict, g0, Refs(g[i])[l], Refs(g0[i])[l]);
    }
  }

  lemma RewrittenRefAlike(strict: bool, g0: seq<BtfType>, g: seq<BtfType>, id: nat, k: nat, r: nat)
    requires Closed(g0) && Closed(g) && RewrittenFrom(strict, g0, g)
    requires id < |g| && k < |Refs(g[id])| && r < |g| && Alike(strict, g0, Refs(g[id])[k], r)
    ensures k < |Refs(g0[id])| && Refs(g0[id])[k] < |g0| && Alike(strict, g0, r, Refs(g0[id])[k])
  {
    hide Alike, Shape, Refs;
    AlikeSymmetric(strict, g0, Refs(g[id])[k], r);
    AlikeTransitive(strict, g0, r, Refs(g[id])[k], Refs(g0[id])[k]);
  }

  lemma RewriteKeepsRoots(g0: seq<BtfType>, g: seq<BtfType>, m: seq<nat>, id: nat, k: nat, r: nat)
    requires InRange(m) && Acyclic(m) && WellFormedGraph(g0) && WellFormedGraph(g) && |g0| == |g| == |m|
    requires SameRoots(g0, g, m) && 0 < id < |g| && k < |Refs(g[id])| && r == Root(m, Refs(g[id])[k]) && r == Root(m, r)
    ensures WellFormedGraph(g[id := SetRef(g[id], k, r)]) && SameRoots(g0, g[id := SetRef(g[id], k, r)], m)
  {
    hide Acyclic, WellFormed, Shape;
    RewriteKeepsClosed(g, id, k, r);
    var g' := g[id := SetRef(g[id], k, r)];
    forall i, l | 0 <= i < |g'| && 0 <= l < |Refs(g'[i])| && l < |Refs(g0[i])|
      ensures Root(m, Refs(g'[i])[l]) == Root(m, Refs(g0[i])[l])
    {
      assert Root(m, Refs(g[i])[l]) == Root(m, Refs(g0[i])[l]);
    }
  }

  lemma RewriteKeepsFiled(g: seq<BtfType>, g': seq<BtfType>, m: seq<nat>, tb: Table, id: nat)
    requires WellFormedGraph(g) && WellFormedGraph(g') && InRange(m) && |m| == |g| == |g'| && Filed(g, m, tb)
    requires id < |g| && !Mapped(m, id) && g' == g[id := g'[id]]
    ensures Filed(g', m, tb)
  {
  }

  /** The type in progress becomes canonical and is filed, or joins its equal. */
  lemma RefFinish(strict: bool, g0: seq<BtfType>, g: seq<BtfType>, m: seq<nat>, tb: Table, fin: seq<nat>, clock: nat,
                  id: nat, newId: nat)
    requires RefPhase(strict, g0, g, m, tb, fin, clock)
    requires id < |g| && m[id] == IN_PROGRESS && IsRefKind(KindOf(g[id])) && newId < |g|
    requires CanonicalRefs(m, g[id]) && FinishedAfter(g0, m, fin, id, clock)
    requires newId == id ==> forall c: nat :: (ExactHash(g[id]), c) in tb ==> g[c] != g[id]
    requires newId != id ==> (ExactHash(g[id]), newId) in tb && g[newId] == g[id]
    ensures RefPhase(strict, g0, g, m[id := newId], if newId == id then tb + [(ExactHash(g[id]), id)] else tb, fin[id := clock], clock + 1)
    ensures m[id := newId][newId] == newId && Alike(strict, g0, id, newId) && Root(m[id := newId], id) == newId
  {
    hide RewrittenFrom, Alike, Sound, WellFormed, Shape, RefEntries, Acyclic, Faithful;
    var m' := m[id := newId];
    RefBecomes(strict, g0, g, id, newId);
    if newId == id {
      FileCanonical(g, m, tb, id, ExactHash(g[id]));
      AlikeReflexive(strict, g0, id);
    } else {
      CandidateIsType(g, m, tb, ExactHash(g[id]), newId);
      FileJoined(g, m, tb, id, newId);
      EqualRecordsAlike(strict, g0, g, id, newId);
    }
    RedirectKeepsAcyclic(m, id, newId);
    RedirectKeepsSound(strict, g0, m, id, newId);
    RedirectKeepsFaithful(g0, m, id, newId);
    RefEntriesFinish(g0, g, m, fin, clock, id, newId);
    RootStep(m', id);
    RootStep(m', newId);
    FinishKeepsRoots(g0, g, m, id, newId);
  }

  lemma RefBecomes(strict: bool, g0: seq<BtfType>, g: seq<BtfType>, id: nat, newId: nat)
    requires Closed(g0) && Closed(g) && RewrittenFrom(strict, g0, g) && id < |g| && newId < |g| && g[newId] == g[id]
    requires IsRefKind(KindOf(g[id]))
    ensures Becomes(g0, g0[id], g0[newId]) && !NeverDeduped(KindOf(g0[id]))
  {
    hide Shape, OneShape, Alike;
    ShapeFixesKind(g[id], g0[id]);
  }

  lemma FinishKeepsRoots(g0: seq<BtfType>, g: seq<BtfType>, m: seq<nat>, id: nat, newId: nat)
    requires InRange(m) && Acyclic(m) && Closed(g0) && Closed(g) && |g0| == |g| == |m| && SameRoots(g0, g, m)
    requires id < |m| && newId < |m| && !Mapped(m, id) && IsRoot(m, newId) && InRange(m[id := newId]) && Acyclic(m[id := newId])
    ensures SameRoots(g0, g, m[id := newId])
  {
    hide Acyclic;
    forall i, k | 0 <= i < |g| && 0 <= k < |Refs(g[i])| && k < |Refs(g0[i])|
      ensures Root(m[id := newId], Refs(g[i])[k]) == Root(m[id := newId], Refs(g0[i])[k])
    {
      RootAfterRedirect(m, id, newId, Refs(g[i])[k]);
      RootAfterRedirect(m, id, newId, Refs(g0[i])[k]);
    }
  }

  lemma RefEntriesFinish(g0: seq<BtfType>, g: seq<BtfType>, m: seq<nat>, fin: seq<nat>, clock: nat, id: nat, newId: nat)
    requires InRange(m) && |m| == |g0| == |g| == |fin| && Closed(g0) && RefEntries(g0, g, m, fin, clock)
    requires 0 < id < |g| && !Mapped(m, id) && IsRefKind(KindOf(g[id])) && newId < |g|
    requires newId != id ==> m[newId] == newId && g[newId] == g[id]
    requires CanonicalRefs(m, g[id]) && FinishedAfter(g0, m, fin, id, clock)
    ensures InRange(m[id := newId]) && RefEntries(g0, g, m[id := newId], fin[id := clock], clock + 1)
  {
    hide CanonicalRefs, FinishedAfter, IsRefKind;
    var m', fin' := m[id := newId], fin[id := clock];
    forall j: nat | 0 < j < |g| && IsRefKind(KindOf(g[j])) && Mapped(m', j)
      ensures m'[m'[j]] == m'[j] && g[m'[j]] == g[j] && CanonicalRefs(m', g[j]) && FinishedAfter(g0, m', fin', j, fin'[j]) && fin'[j] < clock + 1
    {
      assert j != id ==> Mapped(m, j);
      FinishKeepsMarks(g0, m, fin, clock, id, newId, j, g[j]);
    }
  }

  lemma FinishKeepsMarks(g0: seq<BtfType>, m: seq<nat>, fin: seq<nat>, clock: nat, id: nat, newId: nat, j: nat, t: BtfType)
    requires InRange(m) && |m| == |g0| == |fin| && Closed(g0) && id < |m| && !Mapped(m, id) && newId < |m| && j < |m|
    requires CanonicalRefs(m, t) && FinishedAfter(g0, m, fin, j, if j == id then clock else fin[j])
    ensures InRange(m[id := newId]) && CanonicalRefs(m[id := newId], t)
    ensures FinishedAfter(g0, m[id := newId], fin[id := clock], j, if j == id then clock else fin[j])
  {
    hide IsRefKind, Refs, Closed, CanonicalRefs;
    FinishKeepsCanonical(m, id, newId, t);
  }

  lemma FinishKeepsCanonical(m: seq<nat>, id: nat, newId: nat, t: BtfType)
    requires InRange(m) && id < |m| && !Mapped(m, id) && newId < |m| && CanonicalRefs(m, t)
    ensures CanonicalRefs(m[id := newId], t)
  {
    hide Refs;
  }

  /** Once structs are done, every mapped id resolves to a canonical one. */
  lemma RefResolved(strict: bool, g0: seq<BtfType>, g: seq<BtfType>, m: seq<nat>, tb: Table, fin: seq<nat>, clock: nat, id: nat)
    requires RefPhase(strict, g0, g, m, tb, fin, clock) && id < |g| && Mapped(m, id)
    ensures m[Root(m, id)] == Root(m, id) && Alike(strict, g0, id, Root(m, id))
    ensures IsRefKind(KindOf(g0[id])) ==> fin[id] < clock
  {
    hide Faithful, Shape, Filed, WellFormed, RewrittenFrom;
    var r := Root(m, id);
    RootSound(strict, g0, m, id);
    if !Mapped(m, r) {
      assert IsRefKind(KindOf(g0[r])) && KindOf(g0[id]) != Fwd && Class(g0[id]) == Class(g0[r]);
      assert id != 0;
      RootStep(m, id);
      RootStep(m, m[id]);
    }
  }

  /** Finishing times are an order of the kind that rules out -ELOOP. */
  lemma FinishOrder(strict: bool, g0: seq<BtfType>, g: seq<BtfType>, m: seq<nat>, tb: Table, fin: seq<nat>, clock: nat)
    requires RefPhase(strict, g0, g, m, tb, fin, clock) && AllMapped(m)
    ensures RefOrder(g0, fin)
  {
    hide Faithful, Filed, Sound, WellFormed, Shape;
    assert KindOf(VOID) == Unkn;
    forall j, k | 0 <= j < |g0| && 0 <= k < |Refs(g0[j])| && IsRefKind(KindOf(g0[j])) && IsRefKind(KindOf(g0[Refs(g0[j])[k]]))
      ensures fin[Refs(g0[j])[k]] < fin[j]
    {
      assert Mapped(m, j) && FinishedAfter(g0, m, fin, j, fin[j]);
    }
  }

  /** On the way down such an order, a type in progress is not met again. */
  lemma LoopHasNoOrder(g: seq<BtfType>, rank: seq<nat>, m: seq<nat>, id: nat)
    requires Closed(g) && |m| == |g| && id < |g| && m[id] == IN_PROGRESS && IsRefKind(KindOf(g[id]))
    ensures !Descending(g, rank, m, id)
  {
  }

  lemma OnlyRefsInProgress(strict: bool, g0: seq<BtfType>, g: seq<BtfType>, m: seq<nat>, tb: Table, fin: seq<nat>, clock: nat, id: nat)
    requires RefPhase(strict, g0, g, m, tb, fin, clock) && id < |g| && !Mapped(m, id)
    ensures 0 < id && IsRefKind(KindOf(g[id])) && KindOf(g[id]) == KindOf(g0[id])
    ensures m[id] == UNPROCESSED ==> g[id] == g0[id]
  {
  }

  lemma DescendMark(g: seq<BtfType>, rank: seq<nat>, m: seq<nat>, id: nat)
    requires Closed(g) && |m| == |g| && id < |g| && IsRefKind(KindOf(g[id]))
    ensures Descending(g, rank, m, id) ==> DescendingTo(g, rank, m[id := IN_PROGRESS], id)
  {
  }

  /** Progress of the loop over the references of type id. */
  ghost predicate RefsDone(g0: seq<BtfType>, g: seq<BtfType>, m: seq<nat>, fin: seq<nat>, clock: nat, id: nat, k: nat)
    requires Closed(g0) && |g0| == |g| == |m| == |fin| && id < |g|
  {
    |Refs(g[id])| == |Refs(g0[id])| && k <= |Refs(g[id])| &&
    Refs(g[id])[k..] == Refs(g0[id])[k..] &&
    (forall j :: 0 <= j < k ==> Refs(g[id])[j] < |m| && m[Refs(g[id])[j]] == Refs(g[id])[j]) &&
    (forall j :: 0 <= j < k && IsRefKind(KindOf(g0[Refs(g0[id])[j]])) ==>
       Mapped(m, Refs(g0[id])[j]) && fin[Refs(g0[id])[j]] < clock)
  }

  lemma RefsDoneStep(g0: seq<BtfType>, g: seq<BtfType>, m: seq<nat>, fin: seq<nat>, clock: nat,
                     g': seq<BtfType>, m': seq<nat>, fin': seq<nat>, clock': nat, id: nat, k: nat, r: nat)
    requires Closed(g0) && |g0| == |g| && id < |g| && Untouched(g, m, fin, g', m', fin') && clock <= clock'
    requires RefsDone(g0, g, m, fin, clock, id, k) && k < |Refs(g[id])| && m[id] == IN_PROGRESS
    requires r < |m'| && m'[r] == r
    requires IsRefKind(KindOf(g0[Refs(g0[id])[k]])) ==> Mapped(m', Refs(g[id])[k]) && fin'[Refs(g[id])[k]] < clock'
    requires |g0| <= MAX_NR_TYPES + 1
    ensures RefsDone(g0, g'[id := SetRef(g'[id], k, r)], m', fin', clock', id, k + 1)
  {
    hide Shape, WellFormed, IsRefKind;
    assert Refs(g[id])[k] == Refs(g[id])[k..][0] == Refs(g0[id])[k..][0] == Refs(g0[id])[k];
    assert g'[id] == g[id];
    var u := SetRef(g'[id], k, r);
    assert Refs(u) == Refs(g[id])[k := r];
    hide Refs, SetRef;
    assert |Refs(u)| == |Refs(g0[id])|;
    forall j | 0 <= j < k ensures Refs(u)[j] < |m'| && m'[Refs(u)[j]] == Refs(u)[j] {
      assert Refs(u)[j] == Refs(g[id])[j];
    }
    forall j | 0 <= j <= k && IsRefKind(KindOf(g0[Refs(g0[id])[j]]))
      ensures Mapped(m', Refs(g0[id])[j]) && fin'[Refs(g0[id])[j]] < clock'
    {
      var s := Refs(g0[id])[j];
      if j < k { assert Mapped(m, s) && m[s] != UNPROCESSED; }
    }
    assert Refs(u)[k + 1..] == Refs(g[id])[k + 1..] == Refs(g[id])[k..][1..] == Refs(g0[id])[k + 1..];
  }

  lemma RefsDoneAll(g0: seq<BtfType>, g: seq<BtfType>, m: seq<nat>, fin: seq<nat>, clock: nat, id: nat)
    requires Closed(g0) && |g0| == |g| == |m| == |fin| && id < |g|
    requires RefsDone(g0, g, m, fin, clock, id, |Refs(g[id])|)
    ensures CanonicalRefs(m, g[id]) && FinishedAfter(g0, m, fin, id, clock)
  {
  }

  lemma UntouchedButChain(g: seq<BtfType>, m: seq<nat>, fin: seq<nat>, g1: seq<BtfType>, m1: seq<nat>, fin1: seq<nat>,
                          g2: seq<BtfType>, m2: seq<nat>, fin2: seq<nat>, id: nat)
    requires UntouchedBut(g, m, fin, g1, m1, fin1, id) && UntouchedBut(g1, m1, fin1, g2, m2, fin2, id)
    ensures UntouchedBut(g, m, fin, g2, m2, fin2, id)
  {
  }

  lemma DescendingStays(g: seq<BtfType>, rank: seq<nat>, m: seq<nat>, m': seq<nat>, id: nat)
    requires Closed(g) && |m| == |g| && id < |g| && NoNewMarks(m, m')
    ensures DescendingTo(g, rank, m, id) ==> DescendingTo(g, rank, m', id)
  {
  }

  lemma MarkShrinks(m: seq<nat>, id: nat, m': seq<nat>)
    requires id < |m| && m[id] == UNPROCESSED && m' == m[id := IN_PROGRESS]
    ensures Unprocessed(m') < Unprocessed(m)
  {
    assert id in Unprocessed(m) && id !in Unprocessed(m');
    assert Unprocessed(m') <= Unprocessed(m);
  }

  lemma UntouchedShrinks(g: seq<BtfType>, m: seq<nat>, fin: seq<nat>, g': seq<BtfType>, m': seq<nat>, fin': seq<nat>, id: nat)
    requires UntouchedBut(g, m, fin, g', m', fin', id) && id < |m| && m[id] == m'[id]
    ensures Unprocessed(m') <= Unprocessed(m)
  {
  }

  lemma RefsDoneStart(g0: seq<BtfType>, g: seq<BtfType>, m: seq<nat>, fin: seq<nat>, clock: nat, id: nat)
    requires Closed(g0) && |g0| == |g| == |m| == |fin| && id < |g| && g[id] == g0[id]
    ensures RefsDone(g0, g, m, fin, clock, id, 0)
  {
  }

  lemma RefsPending(g0: seq<BtfType>, g: seq<BtfType>, m: seq<nat>, fin: seq<nat>, clock: nat, id: nat, k: nat)
    requires Closed(g0) && |g0| == |g| == |m| == |fin| && id < |g| && RefsDone(g0, g, m, fin, clock, id, k) && k < |Refs(g[id])|
    ensures k < |Refs(g0[id])| && Refs(g[id])[k] == Refs(g0[id])[k] < |g0|
  {
    assert Refs(g[id])[k..][0] == Refs(g0[id])[k..][0];
  }

  lemma DescendAll(g: seq<BtfType>, rank: seq<nat>, m: seq<nat>, m': seq<nat>, id: nat, k: nat)
    requires Closed(g) && |m| == |g| && id < |g| && IsRefKind(KindOf(g[id])) && k < |Refs(g[id])| && NoNewMarks(m, m')
    ensures DescendingTo(g, rank, m, id) ==> Descending(g, rank, m', Refs(g[id])[k])
  {
  }

  // Before and after the passes ------------------------------------------------------------

  ghost predicate StartingMap(g: seq<BtfType>, m: seq<nat>) {
    |m| == |g| && |m| > 0 && m[0] == 0 &&
    forall j :: 0 < j < |g| ==> m[j] == if NeverDeduped(KindOf(g[j])) then j else UNPROCESSED
  }

  ghost predicate StartingMaps(g: seq<BtfType>, m: seq<nat>, h: seq<nat>) {
    StartingMap(g, m) && |h| == |g| && forall j :: 0 <= j < |h| ==> h[j] == UNPROCESSED
  }

  lemma StartIsFaithful(g: seq<BtfType>, m: seq<nat>)
    requires InRange(m) && StartingMap(g, m)
    ensures Faithful(g, m)
  {
    hide OneShape, Becomes;
    forall i: nat | i < |m| && Mapped(m, i) ensures Becomes(g, g[i], g[m[i]]) {
      BecomesItself(g, g[i]);
    }
  }

  lemma StartIsPrimPhase(strict: bool, g: seq<BtfType>, m: seq<nat>, h: seq<nat>)
    requires WellFormedGraph(g) && StartingMaps(g, m, h)
    ensures PrimPhase(strict, g, m, [], 1) && Listed(h, [])
  {
    hide Faithful, WellFormed, Acyclic, Sound, Alike;
    assert InRange(m);
    StartIsFaithful(g, m);
    StartIsAcyclic(g, m);
    StartIsSound(strict, g, m);
  }

  lemma StartIsAcyclic(g: seq<BtfType>, m: seq<nat>)
    requires InRange(m) && StartingMap(g, m)
    ensures Acyclic(m)
  {
    forall i: nat | i < |m| ensures Stops(m, i) {
      assert Ends(m, i, 0);
    }
  }

  lemma StartIsSound(strict: bool, g: seq<BtfType>, m: seq<nat>)
    requires Closed(g) && InRange(m) && StartingMap(g, m)
    ensures Sound(strict, g, m)
  {
    hide Alike;
    forall i: nat | i < |m| && Mapped(m, i) ensures Alike(strict, g, i, m[i]) {
      AlikeReflexive(strict, g, i);
    }
  }

  lemma KindsKnown(strict: bool, g0: seq<BtfType>, g: seq<BtfType>, m: seq<nat>, tb: Table, fin: seq<nat>, clock: nat)
    requires RefPhase(strict, g0, g, m, tb, fin, clock)
    ensures forall j: nat :: 0 < j < |g| ==> KindOf(g[j]) != Unkn
  {
  }
}
