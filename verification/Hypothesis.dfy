/** The hypothetical mapping of the type graph equivalence check, and why a check that finds no
    contradiction proves the two graphs equal: its pairs form a bisimulation up to `map`. */
module Hypothesis {
  import opened BtfGraph
  import opened BtfCompare
  import opened IdMap

  predicate IsSet(h: seq<nat>, c: nat)
    requires c < |h|
  {
    h[c] <= MAX_NR_TYPES
  }

  /** A set entry holds a type id and is listed exactly once. */
  ghost predicate Listed(h: seq<nat>, list: seq<nat>) {
    (forall c :: 0 <= c < |h| ==> h[c] < |h| || h[c] == UNPROCESSED) &&
    (forall i :: 0 <= i < |list| ==> list[i] < |h| && IsSet(h, list[i])) &&
    (forall c :: 0 <= c < |h| && IsSet(h, c) ==> c in list) &&
    (forall i, j :: 0 <= i < j < |list| ==> list[i] != list[j])
  }

  ghost function Unset(h: seq<nat>): set<nat> {
    set c: nat | c < |h| && !IsSet(h, c)
  }

  /** Entries are only ever added during one check. */
  ghost predicate Extends(h: seq<nat>, h': seq<nat>) {
    |h| == |h'| && forall c :: 0 <= c < |h| && IsSet(h, c) ==> h'[c] == h[c]
  }

  /** A FWD that is already resolved stands for what it was resolved to. */
  ghost function FwdTarget(m: seq<nat>, g: seq<BtfType>, c: nat): (r: nat)
    requires InRange(m) && |m| == |g| && Acyclic(m) && c < |m|
    ensures r < |m|
  {
    if KindOf(g[c]) == Fwd && KindOf(g[Root(m, c)]) != Fwd then Root(m, c) else c
  }

  /** The verdict "equivalent" on a pair: already one type, or assumed to be. */
  ghost predicate Related(m: seq<nat>, g: seq<BtfType>, h: seq<nat>, a: nat, c: nat)
    requires InRange(m) && |m| == |g| == |h| && Acyclic(m) && a < |m| && c < |m|
  {
    Root(m, a) == Root(m, c) || h[FwdTarget(m, g, c)] == a
  }

  /** Two records agree apart from their references; a FWD agrees with what it announces. */
  ghost predicate NodesAgree(strict: bool, t: BtfType, u: BtfType) {
    t.nameOff == u.nameOff &&
    if KindOf(t) != KindOf(u) then !strict && (KindOf(t) == Fwd || KindOf(u) == Fwd) && Class(t) == Class(u)
    else if KindOf(t) == Enum && !strict then CompatibleEnums(t, u)
    else if KindOf(t) == Fwd then t == u
    else Shape(t) == Shape(u)
  }

  ghost predicate ChildrenRelated(m: seq<nat>, g: seq<BtfType>, h: seq<nat>, ra: seq<nat>, rc: seq<nat>)
    requires InRange(m) && |m| == |g| == |h| && Acyclic(m)
    requires forall k :: 0 <= k < |ra| ==> ra[k] < |m|
    requires forall k :: 0 <= k < |rc| ==> rc[k] < |m|
  {
    |ra| == |rc| && forall k :: 0 <= k < |ra| ==> Related(m, g, h, ra[k], rc[k])
  }

  ghost predicate Checked(strict: bool, m: seq<nat>, g: seq<BtfType>, h: seq<nat>, a: nat, c: nat)
    requires Closed(g) && InRange(m) && |m| == |g| == |h| && Acyclic(m) && a < |m| && c < |m|
  {
    NodesAgree(strict, g[a], g[c]) &&
    (KindOf(g[a]) == KindOf(g[c]) ==> ChildrenRelated(m, g, h, Refs(g[a]), Refs(g[c])))
  }

  /** Every assumption has been discharged. */
  ghost predicate Complete(strict: bool, m: seq<nat>, g: seq<BtfType>, h: seq<nat>)
    requires Closed(g) && InRange(m) && |m| == |g| == |h| && Acyclic(m)
  {
    forall c: nat :: c < |h| && IsSet(h, c) ==> h[c] < |h| && Checked(strict, m, g, h, h[c], c)
  }

  lemma RelatedGrows(m: seq<nat>, g: seq<BtfType>, h: seq<nat>, h': seq<nat>, a: nat, c: nat)
    requires InRange(m) && |m| == |g| == |h| && Acyclic(m) && a < |m| && c < |m|
    requires Extends(h, h') && Related(m, g, h, a, c)
    ensures Related(m, g, h', a, c)
  {
    if Root(m, a) != Root(m, c) {
      assert IsSet(h, FwdTarget(m, g, c));
    }
  }

  lemma CheckedGrows(strict: bool, m: seq<nat>, g: seq<BtfType>, h: seq<nat>, h': seq<nat>, a: nat, c: nat)
    requires Closed(g) && InRange(m) && |m| == |g| == |h| && Acyclic(m) && a < |m| && c < |m|
    requires Extends(h, h') && Checked(strict, m, g, h, a, c)
    ensures Checked(strict, m, g, h', a, c)
  {
    if KindOf(g[a]) == KindOf(g[c]) {
      var ra, rc := Refs(g[a]), Refs(g[c]);
      forall k | 0 <= k < |ra| ensures Related(m, g, h', ra[k], rc[k]) {
        assert Related(m, g, h, ra[k], rc[k]);
        RelatedGrows(m, g, h, h', ra[k], rc[k]);
      }
    }
  }

  /** Without FWD resolution a FWD never leads to anything but a FWD. */
  lemma StrictFwdTarget(m: seq<nat>, g: seq<BtfType>, c: nat)
    requires Closed(g) && InRange(m) && |m| == |g| && Acyclic(m) && Sound(true, g, m) && c < |m|
    ensures FwdTarget(m, g, c) == c
  {
    RootSound(true, g, m, c);
    StrictAlikeKind(g, c, Root(m, c));
  }

  /** The central fact about the check: with every pair checked, related ids cannot be told apart
      at any depth. The induction is on the depth, so cycles in the graph need no care. */
  lemma {:induction false} CompleteBisimilar(m: seq<nat>, g: seq<BtfType>, h: seq<nat>, n: nat, a: nat, c: nat)
    requires Closed(g) && InRange(m) && |m| == |g| == |h| && Acyclic(m) && Sound(true, g, m)
    requires Complete(true, m, g, h)
    requires a < |m| && c < |m| && Related(m, g, h, a, c)
    ensures Same(n, g, a, g, c)
    decreases n
  {
    if Root(m, a) == Root(m, c) {
      SameRootAlike(true, g, m, a, c);
    } else if n > 0 {
      StrictFwdTarget(m, g, c);
      assert IsSet(h, c) && Checked(true, m, g, h, h[c], c);
      ShapeFixesKind(g[a], g[c]);
      var ra, rc := Refs(g[a]), Refs(g[c]);
      forall k | 0 <= k < |ra| ensures Same(n - 1, g, ra[k], g, rc[k]) {
        CompleteBisimilar(m, g, h, n - 1, ra[k], rc[k]);
      }
    }
  }

  /** The same when forward declarations are resolved, up to what they leave open. */
  lemma {:induction false} CompleteLike(m: seq<nat>, g: seq<BtfType>, h: seq<nat>, n: nat, a: nat, c: nat)
    requires Closed(g) && InRange(m) && |m| == |g| == |h| && Acyclic(m) && Sound(false, g, m) && Unambiguous(g)
    requires Complete(false, m, g, h)
    requires a < |m| && c < |m| && Related(m, g, h, a, c)
    ensures Like(n, g, a, g, c)
    decreases n
  {
    hide Shape, Declares, Sound, Unambiguous, Acyclic, NodesAgree;
    if Root(m, a) == Root(m, c) {
      SameRootAlike(false, g, m, a, c);
    } else if n > 0 {
      var f := FwdTarget(m, g, c);
      assert IsSet(h, f) && Checked(false, m, g, h, a, f);
      if f != c {
        RootSound(false, g, m, c);
        NodesAgreeClass(false, g[a], g[f]);
        ClassDeclares(g[a], g[c]);
      } else {
        var ra, rc := Refs(g[a]), Refs(g[c]);
        forall k | KindOf(g[a]) == KindOf(g[c]) && 0 <= k < |ra| ensures |ra| == |rc| && Like(n - 1, g, ra[k], g, rc[k]) {
          CompleteLike(m, g, h, n - 1, ra[k], rc[k]);
        }
        NodesLike(n, g, a, c);
      }
    }
  }

  lemma NodesLike(n: nat, g: seq<BtfType>, a: nat, c: nat)
    requires Closed(g) && a < |g| && c < |g| && n > 0 && NodesAgree(false, g[a], g[c])
    requires KindOf(g[a]) == KindOf(g[c]) ==>
      |Refs(g[a])| == |Refs(g[c])| && forall k :: 0 <= k < |Refs(g[a])| ==> Like(n - 1, g, Refs(g[a])[k], g, Refs(g[c])[k])
    ensures Like(n, g, a, g, c)
  {
    hide Shape, Declares;
    if KindOf(g[a]) != KindOf(g[c]) || KindOf(g[a]) == Fwd {
      NodesAgreeClass(false, g[a], g[c]);
      ClassDeclares(g[a], g[c]);
    } else if g[a] != g[c] && KindOf(g[a]) == Enum {
      CompatibleDeclares(g[a], g[c]);
    }
  }

  lemma ClassDeclares(t: BtfType, u: BtfType)
    requires t.nameOff == u.nameOff && Class(t) == Class(u) && (KindOf(t) == Fwd || KindOf(u) == Fwd)
    ensures Declares(t, u)
  {
  }

  lemma CompatibleDeclares(t: BtfType, u: BtfType)
    requires CompatibleEnums(t, u) && KindOf(t) == Enum && (t != u || IsEnumFwd(t))
    ensures Declares(t, u)
  {
    CompatibleEnumsMeet(t, u);
  }

  lemma NodesAgreeClass(strict: bool, t: BtfType, u: BtfType)
    requires NodesAgree(strict, t, u)
    ensures Class(t) == Class(u) && t.nameOff == u.nameOff
  {
    if KindOf(t) == KindOf(u) {
      if KindOf(t) == Enum && !strict {
        CompatibleEnumsMeet(t, u);
      } else {
        ShapeFixesKind(t, u);
      }
    }
  }

  lemma PairLike(m: seq<nat>, g: seq<BtfType>, h: seq<nat>, c: nat)
    requires Closed(g) && InRange(m) && |m| == |g| == |h| && Acyclic(m) && Sound(false, g, m) && Unambiguous(g)
    requires Complete(false, m, g, h) && c < |m| && IsSet(h, c)
    ensures h[c] < |h| && Similar(g, h[c], g, c)
  {
    var a := h[c];
    assert Checked(false, m, g, h, a, c);
    NodesAgreeClass(false, g[a], g[c]);
    if KindOf(g[a]) == Fwd || KindOf(g[c]) == Fwd {
      ClassDeclares(g[a], g[c]);
    } else {
      forall n: nat ensures Like(n, g, a, g, c) { CompleteLike(m, g, h, n, a, c); }
    }
  }

  /** What a finished check proves of the pairs it assumed ... */
  lemma CompleteAlike(strict: bool, m: seq<nat>, g: seq<BtfType>, h: seq<nat>, c: nat)
    requires Closed(g) && InRange(m) && |m| == |g| == |h| && Acyclic(m) && Sound(strict, g, m)
    requires Complete(strict, m, g, h)
    requires c < |m| && IsSet(h, c)
    ensures h[c] < |h| && Alike(strict, g, h[c], c)
  {
    assert Checked(strict, m, g, h, h[c], c);
    NodesAgreeClass(strict, g[h[c]], g[c]);
    if strict {
      StrictFwdTarget(m, g, c);
      forall n: nat ensures Same(n, g, h[c], g, c) {
        CompleteBisimilar(m, g, h, n, h[c], c);
      }
    } else if Unambiguous(g) {
      PairLike(m, g, h, c);
    }
  }

  /** ... and of every pair it declared equivalent. */
  lemma RelatedAlike(strict: bool, m: seq<nat>, g: seq<BtfType>, h: seq<nat>, a: nat, c: nat)
    requires Closed(g) && InRange(m) && |m| == |g| == |h| && Acyclic(m) && Sound(strict, g, m)
    requires Complete(strict, m, g, h)
    requires a < |m| && c < |m| && Related(m, g, h, a, c)
    ensures Alike(strict, g, a, c)
  {
    if Root(m, a) == Root(m, c) {
      SameRootAlike(strict, g, m, a, c);
    } else {
      var f := FwdTarget(m, g, c);
      CompleteAlike(strict, m, g, h, f);
      RootSound(strict, g, m, c);
      AlikeReflexive(strict, g, c);
      AlikeSymmetric(strict, g, c, f);
      AlikeTransitive(strict, g, a, f, c);
    }
  }

  /** The entries added between two moments of a check have been discharged. */
  ghost predicate NewChecked(strict: bool, m: seq<nat>, g: seq<BtfType>, h: seq<nat>, h': seq<nat>)
    requires Closed(g) && InRange(m) && |m| == |g| == |h| == |h'| && Acyclic(m)
  {
    forall c: nat :: c < |h| && IsSet(h', c) && !IsSet(h, c) ==> h'[c] < |h| && Checked(strict, m, g, h', h'[c], c)
  }

  lemma NewCheckedChain(strict: bool, m: seq<nat>, g: seq<BtfType>, h: seq<nat>, h1: seq<nat>, h2: seq<nat>)
    requires Closed(g) && InRange(m) && |m| == |g| == |h| == |h1| == |h2| && Acyclic(m)
    requires NewChecked(strict, m, g, h, h1) && NewChecked(strict, m, g, h1, h2) && Extends(h1, h2)
    ensures NewChecked(strict, m, g, h, h2)
  {
    forall c: nat | c < |h| && IsSet(h2, c) && !IsSet(h, c)
      ensures h2[c] < |h| && Checked(strict, m, g, h2, h2[c], c)
    {
      if IsSet(h1, c) {
        assert Checked(strict, m, g, h1, h1[c], c);
        CheckedGrows(strict, m, g, h1, h2, h1[c], c);
      }
    }
  }

  /** Discharging the pair (a, c) itself after its children. */
  lemma PairChecked(strict: bool, m: seq<nat>, g: seq<BtfType>, h: seq<nat>, h2: seq<nat>, a: nat, c: nat)
    requires Closed(g) && InRange(m) && |m| == |g| == |h| == |h2| && Acyclic(m) && a < |m| && c < |m|
    requires !IsSet(h, c) && Extends(h[c := a], h2) && NewChecked(strict, m, g, h[c := a], h2)
    requires Checked(strict, m, g, h2, a, c)
    ensures NewChecked(strict, m, g, h, h2) && Extends(h, h2) && h2[c] == a
  {
    assert IsSet(h[c := a], c) && h2[c] == a;
    forall d: nat | d < |h| && IsSet(h2, d) && !IsSet(h, d)
      ensures h2[d] < |h| && Checked(strict, m, g, h2, h2[d], d)
    {
      if d != c { assert !IsSet(h[c := a], d); }
    }
    forall d | 0 <= d < |h| && IsSet(h, d) ensures h2[d] == h[d] {
      assert IsSet(h[c := a], d);
    }
  }

  lemma UnsetShrinks(h: seq<nat>, h': seq<nat>)
    requires Extends(h, h')
    ensures Unset(h') <= Unset(h)
  {
  }

  lemma AddListed(h: seq<nat>, list: seq<nat>, c: nat, a: nat)
    requires Listed(h, list) && c < |h| && a < |h| <= MAX_NR_TYPES + 1 && !IsSet(h, c)
    ensures Listed(h[c := a], list + [c])
    ensures Unset(h[c := a]) < Unset(h)
  {
    var h', list' := h[c := a], list + [c];
    assert c !in list;
    assert list'[|list|] == c;
    forall d | 0 <= d < |h'| && IsSet(h', d) ensures d in list' {
      if d != c { assert IsSet(h, d) && d in list; }
    }
    assert c in Unset(h) && c !in Unset(h');
    assert Unset(h') <= Unset(h);
  }

  lemma NothingNew(strict: bool, m: seq<nat>, g: seq<BtfType>, h: seq<nat>)
    requires Closed(g) && InRange(m) && |m| == |g| == |h| && Acyclic(m)
    ensures NewChecked(strict, m, g, h, h) && Extends(h, h)
  {
  }

  lemma AddedEntry(h: seq<nat>, h2: seq<nat>, c: nat, a: nat)
    requires c < |h| && !IsSet(h, c) && a <= MAX_NR_TYPES && Extends(h[c := a], h2)
    ensures Extends(h, h2) && h2[c] == a
  {
    assert IsSet(h[c := a], c);
    forall d | 0 <= d < |h| && IsSet(h, d) ensures h2[d] == h[d] {
      assert IsSet(h[c := a], d);
    }
  }

  lemma SelfRelated(m: seq<nat>, g: seq<BtfType>, h: seq<nat>, xs: seq<nat>)
    requires InRange(m) && |m| == |g| == |h| && Acyclic(m)
    requires forall k :: 0 <= k < |xs| ==> xs[k] < |m|
    ensures ChildrenRelated(m, g, h, xs, xs)
  {
  }

  lemma ChildrenGrow(m: seq<nat>, g: seq<BtfType>, h: seq<nat>, h': seq<nat>, xs: seq<nat>, ys: seq<nat>)
    requires InRange(m) && |m| == |g| == |h| && Acyclic(m) && Extends(h, h')
    requires forall k :: 0 <= k < |xs| ==> xs[k] < |m|
    requires forall k :: 0 <= k < |ys| ==> ys[k] < |m|
    requires ChildrenRelated(m, g, h, xs, ys)
    ensures ChildrenRelated(m, g, h', xs, ys)
  {
    forall k | 0 <= k < |xs| ensures Related(m, g, h', xs[k], ys[k]) {
      RelatedGrows(m, g, h, h', xs[k], ys[k]);
    }
  }

  /** A check that started without assumptions has discharged all of its own. */
  lemma FreshCheckComplete(strict: bool, m: seq<nat>, g: seq<BtfType>, h: seq<nat>, h': seq<nat>)
    requires Closed(g) && InRange(m) && |m| == |g| == |h| == |h'| && Acyclic(m)
    requires forall c :: 0 <= c < |h| ==> h[c] == UNPROCESSED
    requires NewChecked(strict, m, g, h, h')
    ensures Complete(strict, m, g, h')
  {
  }

  // When the check cannot fail -------------------------------------------------------------

  predicate Plain(g: seq<BtfType>, x: nat) {
    x < |g| && KindOf(g[x]) != Var && KindOf(g[x]) != Datasec
  }

  /** Kinds are known, and variables and sections are referred to by sections only. */
  ghost predicate PlainGraph(g: seq<BtfType>) {
    (forall x: nat :: 0 < x < |g| ==> KindOf(g[x]) != Unkn) &&
    forall x: nat, k: nat :: x < |g| && k < |Refs(g[x])| && KindOf(g[x]) != Datasec ==> Plain(g, Refs(g[x])[k])
  }

  lemma PlainRefs(g: seq<BtfType>, x: nat)
    requires x < |g| && Plain(g, x)
    ensures PlainGraph(g) ==> forall k :: 0 <= k < |Refs(g[x])| ==> Plain(g, Refs(g[x])[k])
  {
  }

  // What the check does not miss -----------------------------------------------------------

  /** `goal` is a hypothesis without contradictions that goes on from the assumptions made so far. */
  ghost predicate Guides(strict: bool, m: seq<nat>, g: seq<BtfType>, goal: seq<nat>, h: seq<nat>)
    requires Closed(g) && InRange(m) && |m| == |g| == |h| && Acyclic(m)
  {
    |goal| == |g| && Complete(strict, m, g, goal) && Extends(h, goal)
  }

  /** ... and relates the pair; its nodes; or their references. */
  ghost predicate Expected(strict: bool, m: seq<nat>, g: seq<BtfType>, goal: seq<nat>, h: seq<nat>, a: nat, c: nat)
    requires Closed(g) && InRange(m) && |m| == |g| == |h| && Acyclic(m) && a < |m| && c < |m|
  {
    Guides(strict, m, g, goal, h) && Related(m, g, goal, a, c)
  }

  ghost predicate ExpectedNodes(strict: bool, m: seq<nat>, g: seq<BtfType>, goal: seq<nat>, h: seq<nat>, a: nat, c: nat)
    requires Closed(g) && InRange(m) && |m| == |g| == |h| && Acyclic(m) && a < |m| && c < |m|
  {
    Guides(strict, m, g, goal, h) && Checked(strict, m, g, goal, a, c)
  }

  ghost predicate ExpectedAll(strict: bool, m: seq<nat>, g: seq<BtfType>, goal: seq<nat>, h: seq<nat>, xs: seq<nat>, ys: seq<nat>)
    requires Closed(g) && InRange(m) && |m| == |g| == |h| && Acyclic(m)
    requires forall k :: 0 <= k < |xs| ==> xs[k] < |m|
    requires forall k :: 0 <= k < |ys| ==> ys[k] < |m|
  {
    Guides(strict, m, g, goal, h) && ChildrenRelated(m, g, goal, xs, ys)
  }

  /** Two types can be related without contradiction. */
  ghost predicate Matches(strict: bool, m: seq<nat>, g: seq<BtfType>, a: nat, c: nat)
    requires Closed(g) && InRange(m) && |m| == |g| && Acyclic(m) && a < |m| && c < |m|
  {
    exists goal: seq<nat> :: |goal| == |g| && Complete(strict, m, g, goal) && Related(m, g, goal, a, c)
  }

  /** The check of an expected pair: it is one type already, was assumed just so, or has nodes that
      are expected after the assumption. */
  lemma ExpectedPair(strict: bool, m: seq<nat>, g: seq<BtfType>, goal: seq<nat>, h: seq<nat>, a: nat, c: nat)
    requires Closed(g) && InRange(m) && |m| == |g| == |h| <= MAX_NR_TYPES + 1 && Acyclic(m) && a < |m| && c < |m|
    requires Expected(strict, m, g, goal, h, a, c) && Root(m, a) != Root(m, c)
    ensures var f := FwdTarget(m, g, c);
      if IsSet(h, f) then h[f] == a else ExpectedNodes(strict, m, g, goal, h[f := a], a, f)
  {
    hide Checked;
    var f := FwdTarget(m, g, c);
    assert goal[f] == a && IsSet(goal, f);
    assert Checked(strict, m, g, goal, goal[f], f);
    if !IsSet(h, f) {
      forall d | 0 <= d < |h| && IsSet(h[f := a], d) ensures goal[d] == h[f := a][d] {
        if d != f { assert IsSet(h, d); }
      }
    }
  }

  /** One of several expected pairs; the others stay so. */
  lemma ExpectedOne(strict: bool, m: seq<nat>, g: seq<BtfType>, goal: seq<nat>, h: seq<nat>, h1: seq<nat>, xs: seq<nat>, ys: seq<nat>, i: nat)
    requires Closed(g) && InRange(m) && |m| == |g| == |h| == |h1| && Acyclic(m)
    requires forall k :: 0 <= k < |xs| ==> xs[k] < |m|
    requires forall k :: 0 <= k < |ys| ==> ys[k] < |m|
    requires ExpectedAll(strict, m, g, goal, h, xs, ys) && Extends(h1, goal) && i < |xs| == |ys|
    ensures Expected(strict, m, g, goal, h1, xs[i], ys[i])
  {
    hide Complete;
  }

  /** Expected nodes pass the comparison of their kind. */
  lemma ExpectedAgree(strict: bool, m: seq<nat>, g: seq<BtfType>, goal: seq<nat>, h: seq<nat>, a: nat, c: nat)
    requires WellFormedGraph(g) && InRange(m) && |m| == |g| == |h| && Acyclic(m) && a < |m| && c < |m|
    requires ExpectedNodes(strict, m, g, goal, h, a, c)
    ensures NodesAgree(strict, g[a], g[c])
    ensures KindOf(g[a]) == KindOf(g[c]) ==> ExpectedAll(strict, m, g, goal, h, Refs(g[a]), Refs(g[c]))
    ensures KindOf(g[a]) == KindOf(g[c]) && (KindOf(g[a]) == Int || (KindOf(g[a]) == Enum && strict)) ==> g[a] == g[c]
  {
    hide Complete, Shape;
    if KindOf(g[a]) == KindOf(g[c]) && (KindOf(g[a]) == Int || KindOf(g[a]) == Enum) {
      ShapeAndRefs(g[a], g[c]);
      LeavesReferToNothing(g[a]);
      LeavesReferToNothing(g[c]);
    }
  }

  lemma LeavesReferToNothing(t: BtfType)
    requires WellFormed(t) && (KindOf(t) == Int || KindOf(t) == Enum)
    ensures Refs(t) == []
  {
  }

  /** A successful check from scratch is itself such a hypothesis. */
  lemma SuccessMatches(strict: bool, m: seq<nat>, g: seq<BtfType>, h: seq<nat>, a: nat, c: nat)
    requires Closed(g) && InRange(m) && |m| == |g| == |h| && Acyclic(m) && a < |m| && c < |m|
    requires Complete(strict, m, g, h) && Related(m, g, h, a, c)
    ensures Matches(strict, m, g, a, c)
  {
  }

  /** The hypothesis that is there to be found, if there is one. */
  ghost function Witness(strict: bool, m: seq<nat>, g: seq<BtfType>, a: nat, c: nat): (goal: seq<nat>)
    requires Closed(g) && InRange(m) && |m| == |g| && Acyclic(m) && a < |m| && c < |m|
    ensures Matches(strict, m, g, a, c) ==> |goal| == |g| && Complete(strict, m, g, goal) && Related(m, g, goal, a, c)
  {
    if Matches(strict, m, g, a, c) then
      var goal: seq<nat> :| |goal| == |g| && Complete(strict, m, g, goal) && Related(m, g, goal, a, c);
      goal
    else []
  }

  lemma NothingAssumed(strict: bool, m: seq<nat>, g: seq<BtfType>, h: seq<nat>, a: nat, c: nat)
    requires Closed(g) && InRange(m) && |m| == |g| == |h| && Acyclic(m) && a < |m| && c < |m|
    requires forall d :: 0 <= d < |h| ==> h[d] == UNPROCESSED
    ensures Matches(strict, m, g, a, c) ==> Expected(strict, m, g, Witness(strict, m, g, a, c), h, a, c)
  {
    hide Complete, Related;
  }

  lemma GoalSize(strict: bool, m: seq<nat>, g: seq<BtfType>, goal: seq<nat>, h: seq<nat>)
    requires Closed(g) && InRange(m) && |m| == |g| == |h| && Acyclic(m)
    ensures Guides(strict, m, g, goal, h) ==> |goal| == |g|
  {
  }

  /** The order in which the references of an array are checked does not matter. */
  lemma EitherOrder(m: seq<nat>, g: seq<BtfType>, h: seq<nat>, ra: seq<nat>, rc: seq<nat>)
    requires InRange(m) && |m| == |g| == |h| && Acyclic(m) && |ra| == |rc| == 2
    requires forall k :: 0 <= k < 2 ==> ra[k] < |m| && rc[k] < |m|
    ensures ChildrenRelated(m, g, h, [ra[1], ra[0]], [rc[1], rc[0]]) <==> ChildrenRelated(m, g, h, ra, rc)
  {
    hide Related;
    var xs, ys := [ra[1], ra[0]], [rc[1], rc[0]];
    assert xs[0] == ra[1] && xs[1] == ra[0] && ys[0] == rc[1] && ys[1] == rc[0];
  }

  lemma ArrayRefs(g: seq<BtfType>, a: nat)
    requires WellFormedGraph(g) && a < |g| && KindOf(g[a]) == Array
    ensures g[a].body.ArrayBody? && Refs(g[a]) == [g[a].body.elem, g[a].body.index]
    ensures g[a].body.elem < |g| && g[a].body.index < |g|
  {
    assert Refs(g[a])[0] == g[a].body.elem && Refs(g[a])[1] == g[a].body.index;
  }

  // What is recorded of a finished hypothesis ----------------------------------------------

  /** One pair, by its roots: a FWD is pointed at what it was related to, and a struct or union that
      is not settled at one that is. */
  ghost function MergedPair(m: seq<nat>, g: seq<BtfType>, t: nat, c: nat): (m': seq<nat>)
    requires |m| == |g| && t < |m| && c < |m|
    ensures |m'| == |m|
  {
    var tFwd, cFwd := KindOf(g[t]) == Fwd, KindOf(g[c]) == Fwd;
    if cFwd && !tFwd then m[c := t]
    else if tFwd && !cFwd then m[t := c]
    else if IsComposite(KindOf(g[t])) && Mapped(m, c) && !Mapped(m, t) then m[t := c]
    else m
  }

  ghost function MergedAll(m: seq<nat>, g: seq<BtfType>, h: seq<nat>, list: seq<nat>, n: nat): (m': seq<nat>)
    requires |m| == |g| == |h| && n <= |list|
    ensures |m'| == |m|
  {
    if n == 0 then m
    else
      var p, c := MergedAll(m, g, h, list, n - 1), list[n - 1];
      if InRange(p) && Acyclic(p) && c < |p| && h[c] < |p| then MergedPair(p, g, Root(p, h[c]), Root(p, c)) else p
  }

  /** A FWD and the definition it is related to resolve to that definition from then on. */
  lemma FwdJoinsDefinition(m: seq<nat>, g: seq<BtfType>, t: nat, c: nat)
    requires InRange(m) && Acyclic(m) && |m| == |g| && 0 < t < |m| && 0 < c < |m| && IsRoot(m, t) && IsRoot(m, c)
    requires (KindOf(g[t]) == Fwd) != (KindOf(g[c]) == Fwd)
    ensures
      var m', d := MergedPair(m, g, t, c), if KindOf(g[t]) == Fwd then c else t;
      InRange(m') && Acyclic(m') && Root(m', t) == Root(m', c) == d && KindOf(g[d]) != Fwd
  {
    var x, y := if KindOf(g[t]) == Fwd then t else c, if KindOf(g[t]) == Fwd then c else t;
    RedirectKeepsAcyclic(m, x, y);
    RootStep(m[x := y], x);
    RootStep(m[x := y], y);
  }
}
