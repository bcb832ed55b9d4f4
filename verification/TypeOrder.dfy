/** Ordering type definitions for C: what must be defined before what, and when a list of
    definitions respects that. */
module TypeOrder {
  import opened BtfGraph

  datatype OrderState = NotOrdered | Ordering | Ordered

  type States = seq<OrderState>

  /** A type and whether a pointer has been passed on the way to it. */
  datatype Link = Link(typ: nat, behind: bool)

  function Linked(rs: seq<nat>, behind: bool): (ls: seq<Link>)
    ensures |ls| == |rs| && forall k :: 0 <= k < |rs| ==> ls[k] == Link(rs[k], behind)
  {
    seq(|rs|, k requires 0 <= k < |rs| => Link(rs[k], behind))
  }

  /** Where the ordering goes on to from a type. Behind a pointer a struct or union with a name needs
      no definition, one without a name is defined in place. */
  function WalkLinks(t: BtfType, behind: bool): seq<Link> {
    match KindOf(t)
    case Struct => if behind && t.nameOff != 0 then [] else Linked(BodyRefs(t.body), false)
    case Union => if behind && t.nameOff != 0 then [] else Linked(BodyRefs(t.body), false)
    case Ptr => [Link(t.word, true)]
    case Array => if t.body.ArrayBody? then [Link(t.body.elem, behind)] else []
    case Typedef => [Link(t.word, behind)]
    case Volatile => [Link(t.word, behind)]
    case Const => [Link(t.word, behind)]
    case Restrict => [Link(t.word, behind)]
    case FuncProto => Linked(Refs(t), behind)
    case _ => []
  }

  /** What C needs: to a prototype, a type that is only declared is as good as behind a pointer. */
  function NeedLinks(t: BtfType, behind: bool): seq<Link> {
    WalkLinks(t, behind || KindOf(t) == FuncProto)
  }

  lemma LinkInRange(g: seq<BtfType>, x: nat, behind: bool, k: nat)
    requires WellFormedGraph(g) && x < |g| && k < |WalkLinks(g[x], behind)|
    ensures WalkLinks(g[x], behind)[k].typ < |g|
  {
    hide Linked;
    assert Refs(g[x])[k] == WalkLinks(g[x], behind)[k].typ;
  }

  /** Kinds that have definitions of their own. */
  predicate Tracked(k: Kind) {
    k == Struct || k == Union || k == Enum || k == Fwd || k == Typedef
  }

  /** Kinds that only lead on to others. */
  predicate Leading(k: Kind) {
    k == Array || k == Volatile || k == Const || k == Restrict || k == Typedef || k == Ptr || k == FuncProto
  }

  /** A type that must have been defined where it is used like this. */
  predicate Definite(t: BtfType, behind: bool) {
    match KindOf(t)
    case Struct => !behind || t.nameOff == 0
    case Union => !behind || t.nameOff == 0
    case Enum => true
    case Fwd => true
    case Typedef => !behind
    case _ => false
  }

  /** y is needed by x, n links away: embedded in it, or in what it defines in place behind pointers. */
  ghost predicate Needs(g: seq<BtfType>, x: Link, y: Link, n: nat)
    requires WellFormedGraph(g)
    decreases n
  {
    if n == 0 then x == y
    else x.typ < |g| && exists k :: 0 <= k < |NeedLinks(g[x.typ], x.behind)| && Needs(g, NeedLinks(g[x.typ], x.behind)[k], y, n - 1)
  }

  /** Nothing that x needs is left to define. */
  ghost predicate Covered(g: seq<BtfType>, st: States, x: Link)
    requires WellFormedGraph(g) && |st| == |g|
  {
    forall y: Link, n: nat :: Needs(g, x, y, n) && y.typ < |g| && Definite(g[y.typ], y.behind) ==> st[y.typ] == Ordered
  }

  ghost predicate AllCovered(g: seq<BtfType>, st: States, xs: seq<Link>)
    requires WellFormedGraph(g) && |st| == |g|
  {
    forall k :: 0 <= k < |xs| ==> Covered(g, st, xs[k])
  }

  ghost predicate Keeps(st: States, st': States) {
    |st| == |st'| && forall x :: 0 <= x < |st| && st[x] == Ordered ==> st'[x] == Ordered
  }

  lemma CoveredKept(g: seq<BtfType>, st: States, st': States, x: Link)
    requires WellFormedGraph(g) && |st| == |g| && Keeps(st, st') && Covered(g, st, x)
    ensures Covered(g, st', x)
  {
  }

  lemma AllCoveredKept(g: seq<BtfType>, st: States, st': States, xs: seq<Link>)
    requires WellFormedGraph(g) && |st| == |g| && Keeps(st, st') && AllCovered(g, st, xs)
    ensures AllCovered(g, st', xs)
  {
    hide Covered;
    forall k | 0 <= k < |xs| ensures Covered(g, st', xs[k]) { CoveredKept(g, st, st', xs[k]); }
  }

  /** A type is covered once it is defined, if it must be, and its links are. */
  lemma CoveredByLinks(g: seq<BtfType>, st: States, x: Link)
    requires WellFormedGraph(g) && |st| == |g| && x.typ < |g|
    requires Definite(g[x.typ], x.behind) ==> st[x.typ] == Ordered
    requires AllCovered(g, st, NeedLinks(g[x.typ], x.behind))
    ensures Covered(g, st, x)
  {
    hide WellFormedGraph, Definite, NeedLinks;
    forall y: Link, n: nat | Needs(g, x, y, n) && y.typ < |g| && Definite(g[y.typ], y.behind) ensures st[y.typ] == Ordered {
      if n > 0 {
        var k :| 0 <= k < |NeedLinks(g[x.typ], x.behind)| && Needs(g, NeedLinks(g[x.typ], x.behind)[k], y, n - 1);
        assert Covered(g, st, NeedLinks(g[x.typ], x.behind)[k]);
      }
    }
  }

  /** Behind a pointer, less is needed. */
  lemma {:induction false} NeedsLessBehind(g: seq<BtfType>, x: nat, y: Link, n: nat) returns (y': Link)
    requires WellFormedGraph(g) && Needs(g, Link(x, true), y, n)
    ensures Needs(g, Link(x, false), y', n) && y'.typ == y.typ && (y.typ < |g| && Definite(g[y.typ], y.behind) ==> Definite(g[y.typ], y'.behind))
    decreases n
  {
    y' := y.(behind := if n == 0 then false else y.behind);
    if n > 0 {
      var ls, ls' := NeedLinks(g[x], true), NeedLinks(g[x], false);
      var k :| 0 <= k < |ls| && Needs(g, ls[k], y, n - 1);
      LinksLessBehind(g[x], k);
      if ls'[k] != ls[k] { y' := NeedsLessBehind(g, ls[k].typ, y, n - 1); }
      assert Needs(g, ls'[k], y', n - 1);
    }
  }

  lemma LinksLessBehind(t: BtfType, k: nat)
    requires k < |NeedLinks(t, true)|
    ensures k < |NeedLinks(t, false)| && NeedLinks(t, false)[k].typ == NeedLinks(t, true)[k].typ
    ensures NeedLinks(t, false)[k].behind ==> NeedLinks(t, true)[k].behind
  {
  }

  lemma CoveredBehind(g: seq<BtfType>, st: States, x: nat, behind: bool)
    requires WellFormedGraph(g) && |st| == |g| && Covered(g, st, Link(x, behind))
    ensures Covered(g, st, Link(x, true))
  {
    hide WellFormedGraph, Definite, Needs;
    forall y: Link, n: nat | !behind && Needs(g, Link(x, true), y, n) && y.typ < |g| && Definite(g[y.typ], y.behind)
      ensures st[y.typ] == Ordered
    {
      var _ := NeedsLessBehind(g, x, y, n);
    }
  }

  /** An ordered type has all it needs ordered. */
  ghost predicate ClosedStates(g: seq<BtfType>, st: States)
    requires WellFormedGraph(g) && |st| == |g|
  {
    forall x: nat :: x < |g| && st[x] == Ordered ==> Covered(g, st, Link(x, false))
  }

  /** Every definition that an entry of the list needs comes before it. */
  ghost predicate Topological(g: seq<BtfType>, list: seq<nat>)
    requires WellFormedGraph(g)
  {
    forall p: nat, y: Link, n: nat ::
      p < |list| && n > 0 && Needs(g, Link(list[p], false), y, n) && y.typ < |g| && Definite(g[y.typ], y.behind) ==> y.typ in list[..p]
  }

  /** Only typedefs may be listed more than once. */
  ghost predicate ListedOnce(g: seq<BtfType>, list: seq<nat>) {
    forall p, q :: 0 <= p < q < |list| && list[p] == list[q] && list[q] < |g| ==> KindOf(g[list[q]]) == Typedef
  }

  /** `done` lists the ordered types in the order in which they became so. */
  ghost predicate History(g: seq<BtfType>, st: States, done: seq<nat>)
    requires |st| == |g|
  {
    (forall p :: 0 <= p < |done| ==> done[p] < |g| && Tracked(KindOf(g[done[p]])) && st[done[p]] == Ordered) &&
    (forall x: nat :: x < |g| && st[x] == Ordered && Tracked(KindOf(g[x])) ==> x in done)
  }

  ghost predicate Consistent(g: seq<BtfType>, st: States, done: seq<nat>) {
    WellFormedGraph(g) && |st| == |g| &&
    ClosedStates(g, st) && History(g, st, done) && Topological(g, done) && ListedOnce(g, done)
  }

  /** A type whose links are covered may be finished. */
  lemma FinishKeepsConsistent(g: seq<BtfType>, st: States, done: seq<nat>, x: nat)
    requires Consistent(g, st, done) && x < |g| && Tracked(KindOf(g[x]))
    requires AllCovered(g, st, NeedLinks(g[x], false))
    requires KindOf(g[x]) == Typedef || st[x] != Ordered
    ensures Consistent(g, st[x := Ordered], done + [x])
  {
    hide Covered, AllCovered, WellFormedGraph, Topological;
    FinishKeepsClosed(g, st, x);
    FinishKeepsHistory(g, st, done, x);
    FinishKeepsTopological(g, st, done, x);
  }

  lemma FinishKeepsClosed(g: seq<BtfType>, st: States, x: nat)
    requires WellFormedGraph(g) && |st| == |g| && ClosedStates(g, st) && x < |g| && AllCovered(g, st, NeedLinks(g[x], false))
    ensures ClosedStates(g, st[x := Ordered])
  {
    hide Covered, AllCovered, WellFormedGraph;
    var st' := st[x := Ordered];
    AllCoveredKept(g, st, st', NeedLinks(g[x], false));
    CoveredByLinks(g, st', Link(x, false));
    forall z: nat | z < |g| && z != x && st'[z] == Ordered ensures Covered(g, st', Link(z, false)) {
      CoveredKept(g, st, st', Link(z, false));
    }
  }

  lemma FinishKeepsTopological(g: seq<BtfType>, st: States, done: seq<nat>, x: nat)
    requires Consistent(g, st, done) && x < |g| && AllCovered(g, st, NeedLinks(g[x], false))
    ensures Topological(g, done + [x])
  {
    hide Covered, WellFormedGraph, ClosedStates, ListedOnce, Needs, AllCovered, Definite, NeedLinks;
    var done' := done + [x];
    forall p: nat, y: Link, n: nat | p < |done'| && n > 0 && Needs(g, Link(done'[p], false), y, n) && y.typ < |g| && Definite(g[y.typ], y.behind)
      ensures y.typ in done'[..p]
    {
      if p < |done| {
        assert done'[..p] == done[..p];
      } else {
        assert done'[..p] == done;
        NeededByListed(g, st, x, y, n);
        assert Tracked(KindOf(g[y.typ])) by { DefiniteIsTracked(g[y.typ], y.behind); }
      }
    }
  }

  lemma DefiniteIsTracked(t: BtfType, behind: bool)
    requires Definite(t, behind)
    ensures Tracked(KindOf(t))
  {
  }

  lemma NeededByListed(g: seq<BtfType>, st: States, x: nat, y: Link, n: nat)
    requires WellFormedGraph(g) && |st| == |g| && x < |g| && y.typ < |g| && Definite(g[y.typ], y.behind)
    requires AllCovered(g, st, NeedLinks(g[x], false)) && n > 0 && Needs(g, Link(x, false), y, n)
    ensures st[y.typ] == Ordered
  {
    hide NeedLinks, WellFormedGraph, Definite;
    var k :| 0 <= k < |NeedLinks(g[x], false)| && Needs(g, NeedLinks(g[x], false)[k], y, n - 1);
    assert Covered(g, st, NeedLinks(g[x], false)[k]);
  }

  lemma FinishKeepsHistory(g: seq<BtfType>, st: States, done: seq<nat>, x: nat)
    requires |st| == |g| && x < |g| && Tracked(KindOf(g[x])) && History(g, st, done) && ListedOnce(g, done)
    requires KindOf(g[x]) == Typedef || st[x] != Ordered
    ensures History(g, st[x := Ordered], done + [x]) && ListedOnce(g, done + [x])
  {
    var st', done' := st[x := Ordered], done + [x];
    assert done'[|done|] == x;
    forall z: nat | z < |g| && st'[z] == Ordered && Tracked(KindOf(g[z])) ensures z in done' {
      if z != x { assert z in done; }
    }
    forall p, q | 0 <= p < q < |done'| && done'[p] == done'[q] && done'[q] < |g| ensures KindOf(g[done'[q]]) == Typedef {
      if q == |done| { assert st[done[p]] == Ordered; }
    }
  }

  /** Starting a definition. */
  lemma EnterKeepsConsistent(g: seq<BtfType>, st: States, done: seq<nat>, x: nat)
    requires Consistent(g, st, done) && x < |g| && st[x] != Ordered
    ensures Consistent(g, st[x := Ordering], done)
  {
    hide WellFormedGraph, Topological, ListedOnce, Covered;
    forall z: nat | z < |g| && st[x := Ordering][z] == Ordered ensures Covered(g, st[x := Ordering], Link(z, false)) {
      CoveredKept(g, st, st[x := Ordering], Link(z, false));
    }
  }

  /** A type without a definition of its own, once its links are covered. */
  lemma MarkKeepsConsistent(g: seq<BtfType>, st: States, done: seq<nat>, x: nat)
    requires Consistent(g, st, done) && x < |g| && !Tracked(KindOf(g[x])) && AllCovered(g, st, NeedLinks(g[x], false))
    ensures Consistent(g, st[x := Ordered], done)
  {
    hide WellFormedGraph, Topological, ListedOnce, Covered, AllCovered, NeedLinks;
    FinishKeepsClosed(g, st, x);
  }

  /** A struct or union that needs itself is never ordered: its ordering must fail. */
  lemma NoSelfEmbedding(g: seq<BtfType>, st: States, done: seq<nat>, x: nat, behind: bool, n: nat)
    requires Consistent(g, st, done) && x < |g| && IsComposite(KindOf(g[x])) && st[x] == Ordered && n > 0 && Definite(g[x], behind)
    ensures !Needs(g, Link(x, false), Link(x, behind), n)
  {
    hide Needs, Covered, ClosedStates, WellFormedGraph;
    assert x in done;
    var p :| 0 <= p < |done| && done[p] == x;
    var before := done[..p];
    assert Needs(g, Link(done[p], false), Link(x, behind), n) ==> x in before;
    assert forall q :: 0 <= q < p ==> done[q] != x;
  }

  // The queue: the ordered types that are written out --------------------------------------

  /** Named types, and enums and FWDs that are not flagged as referred to. */
  predicate Emitted(g: seq<BtfType>, referenced: seq<bool>, x: nat) {
    x < |g| && x < |referenced| &&
    (g[x].nameOff != 0 || KindOf(g[x]) == Typedef || ((KindOf(g[x]) == Enum || KindOf(g[x]) == Fwd) && !referenced[x]))
  }

  function EmittedOf(g: seq<BtfType>, referenced: seq<bool>, done: seq<nat>): (q: seq<nat>)
    ensures forall x :: x in q <==> x in done && Emitted(g, referenced, x)
  {
    if done == [] then []
    else
      EmittedOf(g, referenced, done[..|done| - 1]) +
      if Emitted(g, referenced, done[|done| - 1]) then [done[|done| - 1]] else []
  }

  lemma {:induction false} QueuePosition(g: seq<BtfType>, referenced: seq<bool>, done: seq<nat>, i: nat) returns (p: nat)
    requires i < |EmittedOf(g, referenced, done)|
    ensures p < |done| && done[p] == EmittedOf(g, referenced, done)[i]
    ensures EmittedOf(g, referenced, done[..p]) == EmittedOf(g, referenced, done)[..i]
  {
    var last := |done| - 1;
    var q := EmittedOf(g, referenced, done[..last]);
    if i < |q| {
      p := QueuePosition(g, referenced, done[..last], i);
      assert done[..last][..p] == done[..p];
      assert EmittedOf(g, referenced, done)[..i] == q[..i];
    } else {
      p := last;
      assert EmittedOf(g, referenced, done)[..i] == q;
    }
  }

  /** Each queued type comes after every queued type it needs, also for what it defines in place behind
      pointers, and only typedefs are queued twice. */
  lemma QueueIsTopological(g: seq<BtfType>, st: States, referenced: seq<bool>, done: seq<nat>, i: nat, y: Link, n: nat)
    requires Consistent(g, st, done)
    requires i < |EmittedOf(g, referenced, done)| && n > 0 && Needs(g, Link(EmittedOf(g, referenced, done)[i], false), y, n)
    requires y.typ < |g| && Definite(g[y.typ], y.behind) && Emitted(g, referenced, y.typ)
    ensures y.typ in EmittedOf(g, referenced, done)[..i]
  {
    hide Needs, Definite, Emitted, ClosedStates, WellFormedGraph, ListedOnce, History;
    var p := QueuePosition(g, referenced, done, i);
    assert y.typ in done[..p];
  }

  lemma {:induction false} QueuedOnce(g: seq<BtfType>, referenced: seq<bool>, done: seq<nat>, i: nat, j: nat)
    requires ListedOnce(g, done) && (forall p :: 0 <= p < |done| ==> done[p] < |g|)
    requires i < j < |EmittedOf(g, referenced, done)| && EmittedOf(g, referenced, done)[i] == EmittedOf(g, referenced, done)[j]
    ensures EmittedOf(g, referenced, done)[j] < |g| && KindOf(g[EmittedOf(g, referenced, done)[j]]) == Typedef
  {
    var p := QueuePosition(g, referenced, done, j);
    var x := EmittedOf(g, referenced, done)[j];
    assert EmittedOf(g, referenced, done)[..j][i] == x;
    assert x in EmittedOf(g, referenced, done[..p]);
    var q :| 0 <= q < p && done[q] == x;
  }

  /** A pointer to a struct without a name that embeds a type: that type comes first. */
  lemma InPlaceBehindPointer(g: seq<BtfType>, x: nat, i: nat, k: nat)
    requires WellFormedGraph(g) && x < |g| && IsComposite(KindOf(g[x])) && i < |g[x].body.ms|
    requires var ptr := g[x].body.ms[i].typ; ptr < |g| && KindOf(g[ptr]) == Ptr && g[ptr].word < |g|
    requires var s := g[g[g[x].body.ms[i].typ].word]; IsComposite(KindOf(s)) && s.nameOff == 0 && k < |s.body.ms|
    ensures Needs(g, Link(x, false), Link(g[g[g[x].body.ms[i].typ].word].body.ms[k].typ, false), 3)
  {
    var ptr := g[x].body.ms[i].typ;
    var s := g[ptr].word;
    var y := Link(g[s].body.ms[k].typ, false);
    assert NeedLinks(g[s], true)[k] == y && Needs(g, y, y, 0);
    assert Needs(g, Link(s, true), y, 1);
    assert NeedLinks(g[ptr], false)[0] == Link(s, true);
    assert Needs(g, Link(ptr, false), y, 2);
    assert NeedLinks(g[x], false)[i] == Link(ptr, false);
  }

  /** What a queued struct or union has as a member, alone or as an array, comes before it in the queue; so
      does an enum or FWD that a member points at. */
  lemma MembersComeFirst(g: seq<BtfType>, st: States, referenced: seq<bool>, done: seq<nat>, i: nat, k: nat, y: nat)
    requires Consistent(g, st, done) && i < |EmittedOf(g, referenced, done)| && EmittedOf(g, referenced, done)[i] < |g|
    requires var t := g[EmittedOf(g, referenced, done)[i]]; IsComposite(KindOf(t)) && t.body.Members? && k < |t.body.ms| && t.body.ms[k].typ < |g|
    requires y < |g| && Emitted(g, referenced, y)
    requires
      var mt := g[EmittedOf(g, referenced, done)[i]].body.ms[k].typ;
      (mt == y && KindOf(g[y]) in {Struct, Union, Enum, Fwd, Typedef}) ||
      (KindOf(g[mt]) == Array && g[mt].body.ArrayBody? && g[mt].body.elem == y && KindOf(g[y]) in {Struct, Union, Enum, Fwd, Typedef}) ||
      (KindOf(g[mt]) == Ptr && g[mt].word == y && KindOf(g[y]) in {Enum, Fwd})
    ensures y in EmittedOf(g, referenced, done)[..i]
  {
    hide Consistent, Emitted, EmittedOf, WellFormedGraph;
    var x := EmittedOf(g, referenced, done)[i];
    var mt := g[x].body.ms[k].typ;
    assert WellFormedGraph(g) by { ConsistentGraph(g, st, done); }
    assert NeedLinks(g[x], false)[k] == Link(mt, false);
    if mt == y {
      assert Needs(g, Link(y, false), Link(y, false), 0);
      QueueIsTopological(g, st, referenced, done, i, Link(y, false), 1);
    } else {
      var z := Link(y, KindOf(g[mt]) == Ptr);
      assert NeedLinks(g[mt], false)[0] == z && Needs(g, z, z, 0);
      assert Needs(g, Link(mt, false), z, 1);
      QueueIsTopological(g, st, referenced, done, i, z, 2);
    }
  }

  lemma ConsistentGraph(g: seq<BtfType>, st: States, done: seq<nat>)
    requires Consistent(g, st, done)
    ensures WellFormedGraph(g)
  {
  }

  ghost function NotYet(st: States): set<nat> {
    set x: nat | x < |st| && st[x] == NotOrdered
  }

  /** What the ordering of one type does to the states of all: it finishes what it starts. */
  ghost predicate Advances(st: States, st': States) {
    Keeps(st, st') && forall x :: 0 <= x < |st| ==> (st'[x] == Ordering <==> st[x] == Ordering)
  }

  lemma AdvanceShrinks(st: States, st': States)
    requires Advances(st, st')
    ensures NotYet(st') <= NotYet(st)
  {
  }

  lemma EnterShrinks(st: States, x: nat)
    requires x < |st| && st[x] == NotOrdered
    ensures NotYet(st[x := Ordering]) < NotYet(st)
  {
    assert x in NotYet(st) && x !in NotYet(st[x := Ordering]);
    assert NotYet(st[x := Ordering]) <= NotYet(st);
  }

  lemma FinishQueue(g: seq<BtfType>, referenced: seq<bool>, done: seq<nat>, x: nat)
    ensures EmittedOf(g, referenced, done + [x]) == EmittedOf(g, referenced, done) + if Emitted(g, referenced, x) then [x] else []
  {
    assert (done + [x])[..|done|] == done;
  }

  /** The one type behind an array, a typedef, a qualifier or a pointer. */
  lemma OnlyLink(g: seq<BtfType>, x: nat, behind: bool)
    requires WellFormedGraph(g) && x < |g| && Leading(KindOf(g[x])) && KindOf(g[x]) != FuncProto
    ensures KindOf(g[x]) == Array ==> g[x].body.ArrayBody?
    ensures var r := if KindOf(g[x]) == Array then g[x].body.elem else g[x].word;
      r < |g| && WalkLinks(g[x], behind) == NeedLinks(g[x], behind) == [Link(r, KindOf(g[x]) == Ptr || behind)]
  {
    LinkInRange(g, x, behind, 0);
  }

  lemma MemberLinks(g: seq<BtfType>, x: nat, behind: bool)
    requires WellFormedGraph(g) && x < |g| && IsComposite(KindOf(g[x])) && (behind ==> g[x].nameOff == 0)
    ensures g[x].body.Members? && WalkLinks(g[x], behind) == NeedLinks(g[x], false) && |NeedLinks(g[x], false)| == |g[x].body.ms|
    ensures forall i :: 0 <= i < |g[x].body.ms| ==> NeedLinks(g[x], false)[i] == Link(g[x].body.ms[i].typ, false) && g[x].body.ms[i].typ < |g|
  {
    forall i | 0 <= i < |g[x].body.ms| ensures NeedLinks(g[x], false)[i] == Link(g[x].body.ms[i].typ, false) && g[x].body.ms[i].typ < |g| {
      LinkInRange(g, x, false, i);
    }
  }

  lemma ProtoLinks(g: seq<BtfType>, x: nat, behind: bool)
    requires WellFormedGraph(g) && x < |g| && KindOf(g[x]) == FuncProto
    ensures g[x].body.Params? && |WalkLinks(g[x], behind)| == |NeedLinks(g[x], behind)| == |g[x].body.ps| + 1
    ensures WalkLinks(g[x], behind)[0] == Link(g[x].word, behind) && g[x].word < |g| && NeedLinks(g[x], behind)[0] == Link(g[x].word, true)
    ensures forall i :: 0 <= i < |g[x].body.ps| ==>
      WalkLinks(g[x], behind)[i + 1] == Link(g[x].body.ps[i].typ, behind) && NeedLinks(g[x], behind)[i + 1] == Link(g[x].body.ps[i].typ, true)
    ensures forall i :: 0 <= i < |g[x].body.ps| ==> g[x].body.ps[i].typ < |g|
  {
    LinkInRange(g, x, behind, 0);
    forall i | 0 <= i < |g[x].body.ps| ensures Refs(g[x])[i + 1] == g[x].body.ps[i].typ < |g| {
      LinkInRange(g, x, behind, i + 1);
    }
  }

  lemma AllCoveredSnoc(g: seq<BtfType>, st: States, st': States, xs: seq<Link>, x: Link)
    requires WellFormedGraph(g) && |st| == |g| && Keeps(st, st') && AllCovered(g, st, xs) && Covered(g, st', x)
    ensures AllCovered(g, st', xs + [x])
  {
    hide Covered;
    AllCoveredKept(g, st, st', xs);
  }

  lemma NothingToCover(g: seq<BtfType>, st: States, xs: seq<Link>)
    requires WellFormedGraph(g) && |st| == |g| && xs == []
    ensures AllCovered(g, st, xs)
  {
  }

  // What is flagged as referred to ---------------------------------------------------------

  /** The types that a record flags: those it refers to, but for a FWD and for the return type of a
      prototype. */
  function Flags(t: BtfType): seq<nat> {
    match KindOf(t)
    case Int => []
    case Enum => []
    case Fwd => []
    case FuncProto => BodyRefs(t.body)
    case _ => Refs(t)
  }

  ghost predicate FlaggedBelow(g: seq<BtfType>, n: nat, x: nat)
    requires n <= |g|
  {
    exists i :: 1 <= i < n && x in Flags(g[i])
  }

  lemma FlaggedStep(g: seq<BtfType>, i: nat)
    requires 1 <= i < |g|
    ensures forall x :: FlaggedBelow(g, i + 1, x) <==> FlaggedBelow(g, i, x) || x in Flags(g[i])
  {
    hide Flags;
    forall x | FlaggedBelow(g, i + 1, x) ensures FlaggedBelow(g, i, x) || x in Flags(g[i]) {
      var j :| 1 <= j < i + 1 && x in Flags(g[j]);
    }
    forall x | FlaggedBelow(g, i, x) ensures FlaggedBelow(g, i + 1, x) {
      var j :| 1 <= j < i && x in Flags(g[j]);
    }
  }

  ghost predicate ReferredTo(g: seq<BtfType>, x: nat) {
    exists i :: 1 <= i < |g| && x in Refs(g[i])
  }

  /** A type that is referred to is not flagged exactly if only FWDs refer to it, and prototypes that
      return it without taking it. */
  lemma UnflaggedExactly(g: seq<BtfType>, x: nat)
    requires WellFormedGraph(g) && ReferredTo(g, x)
    ensures !FlaggedBelow(g, |g|, x) <==>
      forall i :: 1 <= i < |g| && x in Refs(g[i]) ==>
        KindOf(g[i]) == Fwd || (KindOf(g[i]) == FuncProto && x == g[i].word && x !in BodyRefs(g[i].body))
  {
    forall i | 1 <= i < |g|
      ensures x in Flags(g[i]) <==>
        x in Refs(g[i]) && !(KindOf(g[i]) == Fwd || (KindOf(g[i]) == FuncProto && x == g[i].word && x !in BodyRefs(g[i].body)))
    {
      hide BodyRefs;
      RefsSplit(g[i], x);
    }
  }

  /** Some record other than a FWD refers to x, not counting what prototypes return. */
  ghost predicate Used(g: seq<BtfType>, x: nat) {
    exists i :: 1 <= i < |g| && UsedBy(g[i], x)
  }

  predicate UsedBy(t: BtfType, x: nat) {
    KindOf(t) != Fwd && if KindOf(t) == FuncProto then x in BodyRefs(t.body) else x in Refs(t)
  }

  /** Types that are written out as declarations of their own: those with a name, typedefs, and enums
      and FWDs without a name that nothing uses. */
  ghost predicate WrittenOut(g: seq<BtfType>, x: nat)
    requires x < |g|
  {
    match KindOf(g[x])
    case Struct => g[x].nameOff != 0
    case Union => g[x].nameOff != 0
    case Typedef => true
    case Enum => g[x].nameOff != 0 || !Used(g, x)
    case Fwd => g[x].nameOff != 0 || !Used(g, x)
    case _ => false
  }

  lemma FlaggedIsUsed(g: seq<BtfType>, x: nat)
    requires WellFormedGraph(g)
    ensures FlaggedBelow(g, |g|, x) <==> Used(g, x)
  {
    forall i | 1 <= i < |g| ensures x in Flags(g[i]) <==> UsedBy(g[i], x) {
      hide BodyRefs;
      RefsSplit(g[i], x);
    }
  }

  lemma RefsSplit(t: BtfType, x: nat)
    requires WellFormed(t)
    ensures x in Refs(t) <==> (WordIsRef(KindOf(t)) && x == t.word) || x in BodyRefs(t.body)
    ensures KindOf(t) == Int || KindOf(t) == Enum || KindOf(t) == Fwd ==> BodyRefs(t.body) == []
  {
    var a := if WordIsRef(KindOf(t)) then [t.word] else [];
    assert x in a + BodyRefs(t.body) <==> x in a || x in BodyRefs(t.body);
  }

  lemma StartsConsistent(g: seq<BtfType>, st: States)
    requires WellFormedGraph(g) && |st| == |g|
    requires forall x :: 0 <= x < |st| ==> (st[x] == Ordered <==> x == 0)
    ensures Consistent(g, st, [])
  {
    assert NeedLinks(g[0], false) == [] && !Definite(g[0], false);
    CoveredByLinks(g, st, Link(0, false));
  }

  // What is walked, and when ordering cannot fail ---------------------------------------------

  /** A number for each type, by whether a pointer has been passed on the way to it. */
  datatype Ranks = Ranks(direct: seq<nat>, behind: seq<nat>) {
    predicate For(g: seq<BtfType>) { |direct| == |behind| == |g| }

    function At(x: Link): nat
      requires x.typ < |direct| == |behind|
    {
      if x.behind then behind[x.typ] else direct[x.typ]
    }
  }

  /** The ordering stays among types with a positive rank, and every cycle there leads through a struct
      or union that is defined on the way. */
  ghost predicate WalkOrder(g: seq<BtfType>, rank: Ranks)
    requires WellFormedGraph(g)
  {
    rank.For(g) && forall x: Link :: x.typ < |g| && rank.At(x) > 0 ==> LinksRanked(g, rank, x)
  }

  ghost predicate LinksRanked(g: seq<BtfType>, rank: Ranks, x: Link)
    requires WellFormedGraph(g) && rank.For(g) && x.typ < |g|
  {
    forall k :: 0 <= k < |WalkLinks(g[x.typ], x.behind)| ==>
      (LinkInRange(g, x.typ, x.behind, k);
       var y := WalkLinks(g[x.typ], x.behind)[k];
       rank.At(y) > 0 && (Leading(KindOf(g[x.typ])) && Leading(KindOf(g[y.typ])) ==> rank.At(y) < rank.At(x)))
  }

  function Level(g: seq<BtfType>, rank: Ranks, x: Link): nat
    requires rank.For(g) && x.typ < |g|
  {
    if Leading(KindOf(g[x.typ])) then rank.At(x) + 1 else 0
  }

  lemma LevelDrops(g: seq<BtfType>, rank: Ranks, x: Link, k: nat)
    requires WellFormedGraph(g) && WalkOrder(g, rank) && x.typ < |g| && rank.At(x) > 0 && k < |WalkLinks(g[x.typ], x.behind)|
    ensures
      var y := WalkLinks(g[x.typ], x.behind)[k];
      y.typ < |g| && rank.At(y) > 0 && (Leading(KindOf(g[x.typ])) ==> Level(g, rank, y) < Level(g, rank, x))
  {
    hide WellFormedGraph, WalkLinks;
    LinkInRange(g, x.typ, x.behind, k);
    assert LinksRanked(g, rank, x);
  }

  /** Weights that show that definitions can be ordered: among the types walked, every link leads to a
      lighter one, and a struct or union without a name weighs the same behind a pointer. */
  ghost predicate DefinitionOrder(g: seq<BtfType>, rank: Ranks, w: Ranks)
    requires WellFormedGraph(g)
  {
    rank.For(g) && w.For(g) && forall x: Link :: x.typ < |g| && rank.At(x) > 0 ==> Lighter(g, w, x)
  }

  ghost predicate Lighter(g: seq<BtfType>, w: Ranks, x: Link)
    requires WellFormedGraph(g) && w.For(g) && x.typ < |g|
  {
    (IsComposite(KindOf(g[x.typ])) && g[x.typ].nameOff == 0 ==> w.behind[x.typ] == w.direct[x.typ]) &&
    forall k :: 0 <= k < |WalkLinks(g[x.typ], x.behind)| ==>
      (LinkInRange(g, x.typ, x.behind, k); w.At(WalkLinks(g[x.typ], x.behind)[k]) < w.At(x))
  }

  /** All types being ordered are structs or unions heavier than v. */
  ghost predicate Above(g: seq<BtfType>, w: Ranks, st: States, v: nat)
    requires w.For(g) && |g| == |st|
  {
    forall x :: 0 <= x < |st| && st[x] == Ordering ==> IsComposite(KindOf(g[x])) && v < w.direct[x]
  }

  lemma AboveLower(g: seq<BtfType>, w: Ranks, st: States, st': States, v: nat, v': nat)
    requires w.For(g) && |g| == |st| == |st'| && v' <= v && forall x :: 0 <= x < |st| ==> (st'[x] == Ordering <==> st[x] == Ordering)
    ensures Above(g, w, st, v) ==> Above(g, w, st', v')
  {
  }

  lemma AboveEntered(g: seq<BtfType>, w: Ranks, st: States, x: nat, v: nat)
    requires w.For(g) && |g| == |st| && x < |st| && IsComposite(KindOf(g[x])) && v < w.direct[x]
    ensures Above(g, w, st, w.direct[x]) ==> Above(g, w, st[x := Ordering], v)
  {
  }

  /** A type that is being ordered is met again only where a forward declaration will do. */
  lemma OnlyBehindPointer(g: seq<BtfType>, rank: Ranks, w: Ranks, st: States, x: Link)
    requires WellFormedGraph(g) && DefinitionOrder(g, rank, w) && |st| == |g| && x.typ < |g| && st[x.typ] == Ordering && rank.At(x) > 0
    requires Above(g, w, st, w.At(x))
    ensures IsComposite(KindOf(g[x.typ])) && x.behind && g[x.typ].nameOff != 0
  {
    assert Lighter(g, w, x);
  }

  /** The weight drops along every link that the ordering follows. */
  lemma WeightDrops(g: seq<BtfType>, rank: Ranks, w: Ranks, x: Link, k: nat)
    requires WellFormedGraph(g) && DefinitionOrder(g, rank, w) && x.typ < |g| && rank.At(x) > 0 && k < |WalkLinks(g[x.typ], x.behind)|
    ensures WalkLinks(g[x.typ], x.behind)[k].typ < |g| && w.At(WalkLinks(g[x.typ], x.behind)[k]) < w.At(x)
    ensures IsComposite(KindOf(g[x.typ])) ==> w.At(x) == w.direct[x.typ]
  {
    LinkInRange(g, x.typ, x.behind, k);
    assert Lighter(g, w, x);
  }

  /** Every type but void is of a kind that the dumper knows. */
  predicate KnownKinds(g: seq<BtfType>) {
    forall x :: 0 < x < |g| ==> KindOf(g[x]) != Unkn
  }
}
