/** The ordering pass of the dumper: a depth-first search that queues type definitions. */
module DumpOrder {
  import opened Errors
  import opened BtfGraph
  import opened TypeOrder

  class Dumper {
    const types: seq<BtfType>
    const states: array<OrderState>
    const referenced: array<bool>
    var ready: bool                 // the states have been set up
    var emitQueue: seq<nat>
    ghost var done: seq<nat>        // types in the order in which they were finished, over all calls
    ghost var emitted: seq<nat>     // what earlier calls queued

    constructor (types: seq<BtfType>)
      requires WellFormedGraph(types)
      ensures this.types == types && Separate() && fresh(states) && fresh(referenced) && !ready && emitQueue == [] && done == [] && emitted == []
      ensures forall x :: 0 <= x < |types| ==> states[x] == NotOrdered && !referenced[x]
    {
      this.types := types;
      states := new OrderState[|types|](_ => NotOrdered);
      referenced := new bool[|types|](_ => false);
      ready, emitQueue, done, emitted := false, [], [], [];
    }

    ghost predicate Separate() {
      states.Length == |types| == referenced.Length && states as object != referenced
    }

    ghost predicate Valid()
      reads this, states, referenced
    {
      Separate() && TypeOrder.Consistent(types, states[..], done) && states[0] == Ordered &&
      emitted + emitQueue == EmittedOf(types, referenced[..], done)
    }

    /** Nothing is being ordered, as between calls. */
    ghost predicate Settled()
      reads states
    {
      forall x :: 0 <= x < states.Length ==> states[x] != Ordering
    }

    /** x is on a walk whose cycles all lead through a struct or union. */
    ghost predicate OnWalk(x: Link, rank: Ranks)
      requires WellFormedGraph(types)
    {
      x.typ < |types| && WalkOrder(types, rank) && rank.At(x) > 0
    }

    lemma WalkGoesOn(x: Link, k: nat, rank: Ranks)
      requires WellFormedGraph(types) && OnWalk(x, rank) && k < |WalkLinks(types[x.typ], x.behind)|
      ensures rank.For(types)
      ensures var y := WalkLinks(types[x.typ], x.behind)[k];
        OnWalk(y, rank) && (Leading(KindOf(types[x.typ])) ==> Level(types, rank, y) < Level(types, rank, x))
    {
      LevelDrops(types, rank, x, k);
    }

    /** Definitions can be ordered, and what is being ordered does not need x. */
    ghost predicate Orderly(st: States, x: Link, rank: Ranks, w: Ranks)
      requires WellFormedGraph(types) && |st| == |types|
    {
      OnWalk(x, rank) && DefinitionOrder(types, rank, w) && Above(types, w, st, w.At(x))
    }

    lemma OrderlyMeets(st: States, x: Link, rank: Ranks, w: Ranks)
      requires WellFormedGraph(types) && |st| == |types| && x.typ < |types| && st[x.typ] == Ordering
      ensures Orderly(st, x, rank, w) ==> IsComposite(KindOf(types[x.typ])) && x.behind && types[x.typ].nameOff != 0
    {
      if Orderly(st, x, rank, w) { OnlyBehindPointer(types, rank, w, st, x); }
    }

    lemma OrderlyBelow(st: States, st': States, x: Link, k: nat, rank: Ranks, w: Ranks)
      requires WellFormedGraph(types) && |st| == |st'| == |types| && OnWalk(x, rank) && k < |WalkLinks(types[x.typ], x.behind)|
      requires forall z :: 0 <= z < |st| ==> (st'[z] == Ordering <==> st[z] == Ordering)
      ensures Orderly(st, x, rank, w) ==> Orderly(st', WalkLinks(types[x.typ], x.behind)[k], rank, w)
    {
      if Orderly(st, x, rank, w) {
        WalkGoesOn(x, k, rank);
        WeightDrops(types, rank, w, x, k);
        AboveLower(types, w, st, st', w.At(x), w.At(WalkLinks(types[x.typ], x.behind)[k]));
      }
    }

    lemma OrderlyMember(st: States, st': States, x: Link, k: nat, rank: Ranks, w: Ranks)
      requires WellFormedGraph(types) && |st| == |st'| == |types| && OnWalk(x, rank) && IsComposite(KindOf(types[x.typ]))
      requires k < |WalkLinks(types[x.typ], x.behind)|
      requires forall z :: 0 <= z < |st| ==> (st'[z] == Ordering <==> st[z] == Ordering || z == x.typ)
      ensures Orderly(st, x, rank, w) ==> Orderly(st', WalkLinks(types[x.typ], x.behind)[k], rank, w)
    {
      if Orderly(st, x, rank, w) {
        WalkGoesOn(x, k, rank);
        WeightDrops(types, rank, w, x, k);
        var v := w.At(WalkLinks(types[x.typ], x.behind)[k]);
        AboveEntered(types, w, st, x.typ, v);
        AboveLower(types, w, st[x.typ := Ordering], st', v, v);
      }
    }

    method SetState(id: nat, s: OrderState)
      requires id < states.Length
      modifies states
      ensures states[..] == old(states[..])[id := s]
    {
      states[id] := s;
    }

    method AddEmitQueueId(id: nat) returns (err: int)
      modifies this`emitQueue
      ensures err == 0 || err == ENOMEM
      ensures emitQueue == old(emitQueue) + if err == 0 then [id] else []
    {
      var oom: bool := *;
      if oom { return ENOMEM; }
      emitQueue := emitQueue + [id];
      return 0;
    }

    /** Queues a type, if it is written out at all, and marks it as done with. */
    method Finish(id: nat) returns (err: int)
      requires Valid() && id < |types| && Tracked(KindOf(types[id])) && AllCovered(types, states[..], NeedLinks(types[id], false))
      requires KindOf(types[id]) == Typedef || states[id] != Ordered
      modifies this`emitQueue, this`done, states
      ensures err == 0 || err == ENOMEM
      ensures err == 0 ==> Valid() && states[..] == old(states[..])[id := Ordered]
      ensures err == 0 ==> Covered(types, states[..], Link(id, false)) && Covered(types, states[..], Link(id, true))
    {
      hide TypeOrder.Consistent, AllCovered, EmittedOf, Tracked, Covered;
      var t := types[id];
      var kind := KindOf(t);
      ghost var st, queue := states[..], emitQueue;
      FinishKeepsConsistent(types, st, done, id);
      FinishQueue(types, referenced[..], done, id);
      if t.nameOff != 0 || kind == Typedef || ((kind == Enum || kind == Fwd) && !referenced[..][id]) {
        err := AddEmitQueueId(id);
        if err != 0 { return; }
        assert emitted + emitQueue == emitted + queue + [id];
      }
      done := done + [id];
      SetState(id, Ordered);
      assert states[..][0] == Ordered;
      OrderedIsCovered(id);
      return 0;
    }

    lemma OrderedIsCovered(id: nat)
      requires Valid() && id < |types| && states[id] == Ordered
      ensures Covered(types, states[..], Link(id, false)) && Covered(types, states[..], Link(id, true))
    {
      hide Covered;
      CoveredBehind(types, states[..], id, false);
    }

    /** Behind a pointer, a struct or union with a name needs nothing. */
    lemma NamedBehind(id: nat)
      requires Valid() && id < |types| && IsComposite(KindOf(types[id])) && types[id].nameOff != 0
      ensures Covered(types, states[..], Link(id, true))
    {
      hide Covered;
      NothingToCover(types, states[..], NeedLinks(types[id], true));
      CoveredByLinks(types, states[..], Link(id, true));
    }

    /** Orders what `id` needs and then `id`. What `id` needs where it is used is defined by then; a
        positive result means that `id` could also be embedded there. */
    method OrderType(id: nat, throughPtr: bool, ghost rank: Ranks, ghost w: Ranks) returns (r: int)
      requires Valid() && OnWalk(Link(id, throughPtr), rank)
      modifies states, this`emitQueue, this`done
      ensures r >= 0 ==> Valid() && Advances(old(states[..]), states[..]) && Covered(types, states[..], Link(id, throughPtr))
      ensures r > 0 ==> Covered(types, states[..], Link(id, false))
      ensures r >= 0 || r == ENOMEM || r == EINVAL || r == ELOOP
      ensures Orderly(old(states[..]), Link(id, throughPtr), rank, w) ==> r != ELOOP
      ensures KnownKinds(types) ==> r != EINVAL
      decreases NotYet(states[..]), Level(types, rank, Link(id, throughPtr)), 2
    {
      hide WellFormedGraph, EmittedOf, ClosedStates, History, Topological, ListedOnce, AllCovered, WalkOrder, Covered, Orderly, NeedLinks;
      ghost var st, x := states[..], Link(id, throughPtr);
      if states[..][id] == Ordered {
        OrderedIsCovered(id);
        return 1;
      }
      var t := types[id];
      if states[..][id] == Ordering {
        OrderlyMeets(st, x, rank, w);
        if IsComposite(KindOf(t)) && throughPtr && t.nameOff != 0 {
          NamedBehind(id);
          return 0;
        }
        return ELOOP;
      }
      match KindOf(t) {
        case Int | Func | Var | Datasec =>
          MarkOrdered(id);
          return 0;

        case Ptr =>
          r := OrderPointer(id, throughPtr, rank, w);

        case Array | Volatile | Const | Restrict =>
          r := OrderPassing(id, throughPtr, rank, w);

        case Struct | Union =>
          if throughPtr && t.nameOff != 0 {
            NamedBehind(id);
            return 0;
          }
          r := OrderComposite(id, throughPtr, rank, w);

        case Enum | Fwd =>
          NoLinks(id);
          var err := Finish(id);
          if err != 0 { return err; }
          return 1;

        case Typedef =>
          r := OrderTypedef(id, throughPtr, rank, w);

        case FuncProto =>
          r := OrderProto(id, throughPtr, rank, w);

        case _ =>
          return EINVAL;
      }
    }

    lemma NoLinks(id: nat)
      requires Valid() && id < |types| && !Leading(KindOf(types[id])) && !IsComposite(KindOf(types[id]))
      ensures AllCovered(types, states[..], NeedLinks(types[id], false))
    {
      hide Covered;
      NothingToCover(types, states[..], NeedLinks(types[id], false));
    }

    method MarkOrdered(id: nat)
      requires Valid() && id < |types| && !Tracked(KindOf(types[id])) && !Leading(KindOf(types[id]))
      modifies states
      ensures Valid() && states[..] == old(states[..])[id := Ordered]
      ensures Covered(types, states[..], Link(id, false)) && Covered(types, states[..], Link(id, true))
    {
      hide ClosedStates, History, Topological, ListedOnce, WellFormed, Covered, AllCovered;
      NoLinks(id);
      MarkKeepsConsistent(types, states[..], done, id);
      SetState(id, Ordered);
      OrderedIsCovered(id);
    }

    method OrderPointer(id: nat, ghost throughPtr: bool, ghost rank: Ranks, ghost w: Ranks) returns (r: int)
      requires Valid() && OnWalk(Link(id, throughPtr), rank) && KindOf(types[id]) == Ptr && states[id] == NotOrdered
      modifies states, this`emitQueue, this`done
      ensures r >= 0 ==> Valid() && Advances(old(states[..]), states[..])
      ensures r >= 0 ==> Covered(types, states[..], Link(id, false)) && Covered(types, states[..], Link(id, true))
      ensures r >= 0 || r == ENOMEM || r == EINVAL || r == ELOOP
      ensures Orderly(old(states[..]), Link(id, throughPtr), rank, w) ==> r != ELOOP
      ensures KnownKinds(types) ==> r != EINVAL
      decreases NotYet(states[..]), Level(types, rank, Link(id, throughPtr)), 0
    {
      hide WellFormedGraph, EmittedOf, ClosedStates, History, Topological, ListedOnce, AllCovered, WalkOrder, Covered, Orderly, NeedLinks, WalkLinks;
      ghost var x := Link(id, throughPtr);
      OnlyLink(types, id, throughPtr);
      OnlyLink(types, id, false);
      WalkGoesOn(x, 0, rank);
      OrderlyBelow(states[..], states[..], x, 0, rank, w);
      r := OrderType(types[id].word, true, rank, w);
      if r >= 0 {
        OneCovered(types[id].word, true, NeedLinks(types[id], false));
        MarkKeepsConsistent(types, states[..], done, id);
        SetState(id, Ordered);
        OrderedIsCovered(id);
      } else {
        SetState(id, Ordered);
      }
    }

    lemma OneCovered(typ: nat, behind: bool, links: seq<Link>)
      requires Valid() && links == [Link(typ, behind)] && Covered(types, states[..], Link(typ, behind))
      ensures AllCovered(types, states[..], links)
    {
    }

    lemma PassingCovered(id: nat, behind: bool, r: nat)
      requires Valid() && id < |types| && Leading(KindOf(types[id])) && (KindOf(types[id]) == Typedef ==> behind)
      requires NeedLinks(types[id], behind) == [Link(r, behind)] && Covered(types, states[..], Link(r, behind))
      ensures Covered(types, states[..], Link(id, behind))
    {
      hide Covered;
      OneCovered(r, behind, NeedLinks(types[id], behind));
      CoveredByLinks(types, states[..], Link(id, behind));
    }

    method OrderPassing(id: nat, throughPtr: bool, ghost rank: Ranks, ghost w: Ranks) returns (r: int)
      requires Valid() && OnWalk(Link(id, throughPtr), rank) && KindOf(types[id]) in {Array, Volatile, Const, Restrict}
      modifies states, this`emitQueue, this`done
      ensures r >= 0 ==> Valid() && Advances(old(states[..]), states[..]) && Covered(types, states[..], Link(id, throughPtr))
      ensures r > 0 ==> Covered(types, states[..], Link(id, false))
      ensures r >= 0 || r == ENOMEM || r == EINVAL || r == ELOOP
      ensures Orderly(old(states[..]), Link(id, throughPtr), rank, w) ==> r != ELOOP
      ensures KnownKinds(types) ==> r != EINVAL
      decreases NotYet(states[..]), Level(types, rank, Link(id, throughPtr)), 0
    {
      hide WellFormedGraph, EmittedOf, ClosedStates, History, Topological, ListedOnce, AllCovered, WalkOrder, Covered, Orderly, NeedLinks, WalkLinks;
      OnlyLink(types, id, throughPtr);
      OnlyLink(types, id, false);
      WalkGoesOn(Link(id, throughPtr), 0, rank);
      OrderlyBelow(states[..], states[..], Link(id, throughPtr), 0, rank, w);
      var t := types[id];
      var next := if KindOf(t) == Array then t.body.elem else t.word;
      r := OrderType(next, throughPtr, rank, w);
      if r >= 0 { PassingCovered(id, throughPtr, next); }
      if r > 0 { PassingCovered(id, false, next); }
    }

    method OrderTypedef(id: nat, throughPtr: bool, ghost rank: Ranks, ghost w: Ranks) returns (r: int)
      requires Valid() && OnWalk(Link(id, throughPtr), rank) && KindOf(types[id]) == Typedef && states[id] == NotOrdered
      modifies states, this`emitQueue, this`done
      ensures r >= 0 ==> Valid() && Advances(old(states[..]), states[..]) && Covered(types, states[..], Link(id, throughPtr))
      ensures r > 0 ==> Covered(types, states[..], Link(id, false))
      ensures r >= 0 || r == ENOMEM || r == EINVAL || r == ELOOP
      ensures Orderly(old(states[..]), Link(id, throughPtr), rank, w) ==> r != ELOOP
      ensures KnownKinds(types) ==> r != EINVAL
      decreases NotYet(states[..]), Level(types, rank, Link(id, throughPtr)), 0
    {
      hide WellFormedGraph, EmittedOf, ClosedStates, History, Topological, ListedOnce, AllCovered, WalkOrder, Covered, Orderly, NeedLinks, WalkLinks;
      OnlyLink(types, id, throughPtr);
      OnlyLink(types, id, false);
      WalkGoesOn(Link(id, throughPtr), 0, rank);
      OrderlyBelow(states[..], states[..], Link(id, throughPtr), 0, rank, w);
      var t := types[id];
      var isStrong := OrderType(t.word, throughPtr, rank, w);
      if isStrong < 0 { return isStrong; }
      if throughPtr && isStrong == 0 {
        PassingCovered(id, true, t.word);
        return 0;
      }
      OneCovered(t.word, false, NeedLinks(types[id], false));
      var err := Finish(id);
      if err != 0 { return err; }
      return 1;
    }

    /** A struct or union after all its members. */
    method OrderComposite(id: nat, ghost throughPtr: bool, ghost rank: Ranks, ghost w: Ranks) returns (r: int)
      requires Valid() && OnWalk(Link(id, throughPtr), rank) && IsComposite(KindOf(types[id])) && states[id] == NotOrdered
      requires throughPtr ==> types[id].nameOff == 0
      modifies states, this`emitQueue, this`done
      ensures r >= 0 ==> Valid() && Advances(old(states[..]), states[..])
      ensures r >= 0 ==> Covered(types, states[..], Link(id, false)) && Covered(types, states[..], Link(id, true))
      ensures r > 0 || r == ENOMEM || r == EINVAL || r == ELOOP
      ensures Orderly(old(states[..]), Link(id, throughPtr), rank, w) ==> r != ELOOP
      ensures KnownKinds(types) ==> r != EINVAL
      decreases NotYet(states[..]), Level(types, rank, Link(id, throughPtr)), 0
    {
      hide WellFormedGraph, EmittedOf, ClosedStates, History, Topological, ListedOnce, AllCovered, WalkOrder, Covered, Orderly, Refs, BodyRefs, WalkLinks, NeedLinks;
      MemberLinks(types, id, throughPtr);
      ghost var x, st := Link(id, throughPtr), states[..];
      EnterKeepsConsistent(types, st, done, id);
      EnterShrinks(st, id);
      SetState(id, Ordering);
      ghost var st1, xs := states[..], NeedLinks(types[id], false);
      var ms := types[id].body.ms;
      NothingToCover(types, st1, xs[..0]);
      for i := 0 to |ms|
        invariant Valid() && Advances(st1, states[..]) && AllCovered(types, states[..], xs[..i])
      {
        ghost var st2 := states[..];
        AdvanceShrinks(st1, st2);
        r := OrderMember(x, i, st, ms[i].typ, rank, w);
        if r < 0 { return; }
        AllCoveredSnoc(types, st2, states[..], xs[..i], Link(ms[i].typ, false));
        assert xs[..i + 1] == xs[..i] + [Link(ms[i].typ, false)];
      }
      assert xs[..|ms|] == xs;
      ghost var st3 := states[..];
      var err := Finish(id);
      if err < 0 { return err; }
      return 1;
    }

    /** One member of a struct or union that was entered in the states st. */
    method OrderMember(ghost x: Link, ghost i: nat, ghost st: States, typ: nat, ghost rank: Ranks, ghost w: Ranks) returns (r: int)
      requires Valid() && OnWalk(x, rank) && IsComposite(KindOf(types[x.typ])) && i < |WalkLinks(types[x.typ], x.behind)|
      requires WalkLinks(types[x.typ], x.behind)[i] == Link(typ, false) && |st| == |types|
      requires forall z :: 0 <= z < |st| ==> (states[z] == Ordering <==> st[z] == Ordering || z == x.typ)
      modifies states, this`emitQueue, this`done
      ensures r >= 0 ==> Valid() && Advances(old(states[..]), states[..]) && Covered(types, states[..], Link(typ, false))
      ensures r >= 0 || r == ENOMEM || r == EINVAL || r == ELOOP
      ensures Orderly(st, x, rank, w) ==> r != ELOOP
      ensures KnownKinds(types) ==> r != EINVAL
      decreases NotYet(states[..]), if x.typ < |types| && typ < |types| && rank.For(types) then Level(types, rank, Link(typ, false)) else 0, 3
    {
      hide EmittedOf, ClosedStates, History, Topological, ListedOnce, WalkOrder, Orderly, Covered, WalkLinks;
      WalkGoesOn(x, i, rank);
      OrderlyMember(st, states[..], x, i, rank, w);
      r := OrderType(typ, false, rank, w);
    }

    /** The return type and the parameters of a prototype; strong if one of them is. */
    method OrderProto(id: nat, throughPtr: bool, ghost rank: Ranks, ghost w: Ranks) returns (r: int)
      requires Valid() && OnWalk(Link(id, throughPtr), rank) && KindOf(types[id]) == FuncProto
      modifies states, this`emitQueue, this`done
      ensures r >= 0 ==> Valid() && Advances(old(states[..]), states[..])
      ensures r >= 0 ==> Covered(types, states[..], Link(id, false)) && Covered(types, states[..], Link(id, true))
      ensures r >= 0 || r == ENOMEM || r == EINVAL || r == ELOOP
      ensures Orderly(old(states[..]), Link(id, throughPtr), rank, w) ==> r != ELOOP
      ensures KnownKinds(types) ==> r != EINVAL
      decreases NotYet(states[..]), Level(types, rank, Link(id, throughPtr)), 1
    {
      hide WellFormedGraph, EmittedOf, ClosedStates, History, Topological, ListedOnce, AllCovered, WalkOrder, Orderly, Covered, Refs, WalkLinks, NeedLinks;
      ghost var x, st := Link(id, throughPtr), states[..];
      ProtoLinks(types, id, throughPtr);
      ghost var xs := NeedLinks(types[id], throughPtr);
      var err := OrderUsed(x, 0, types[id].word, throughPtr, rank, w);
      if err < 0 { return err; }
      var isStrong := err > 0;
      OneCovered(types[id].word, true, xs[..1]);
      var ps := types[id].body.ps;
      for i := 0 to |ps|
        invariant Valid() && Advances(st, states[..]) && AllCovered(types, states[..], xs[..i + 1])
      {
        ghost var st2 := states[..];
        AdvanceShrinks(st, st2);
        OrderlyStays(st, st2, x, rank, w);
        err := OrderUsed(x, i + 1, ps[i].typ, throughPtr, rank, w);
        if err < 0 { return err; }
        if err > 0 { isStrong := true; }
        AllCoveredSnoc(types, st2, states[..], xs[..i + 1], Link(ps[i].typ, true));
        assert xs[..i + 2] == xs[..i + 1] + [Link(ps[i].typ, true)];
      }
      assert xs[..|ps| + 1] == xs;
      ProtoCovered(id, throughPtr);
      return if isStrong then 1 else 0;
    }

    lemma OrderlyStays(st: States, st': States, x: Link, rank: Ranks, w: Ranks)
      requires WellFormedGraph(types) && |st| == |types| && OnWalk(x, rank) && Advances(st, st')
      ensures Orderly(st, x, rank, w) ==> Orderly(st', x, rank, w)
    {
    }

    /** One type that a prototype uses. */
    method OrderUsed(ghost x: Link, ghost k: nat, typ: nat, throughPtr: bool, ghost rank: Ranks, ghost w: Ranks) returns (r: int)
      requires Valid() && OnWalk(x, rank) && Leading(KindOf(types[x.typ])) && k < |WalkLinks(types[x.typ], x.behind)|
      requires WalkLinks(types[x.typ], x.behind)[k] == Link(typ, throughPtr)
      modifies states, this`emitQueue, this`done
      ensures r >= 0 ==> Valid() && Advances(old(states[..]), states[..]) && Covered(types, states[..], Link(typ, true))
      ensures r >= 0 || r == ENOMEM || r == EINVAL || r == ELOOP
      ensures Orderly(old(states[..]), x, rank, w) ==> r != ELOOP
      ensures KnownKinds(types) ==> r != EINVAL
      decreases NotYet(states[..]), Level(types, rank, x), 0
    {
      hide WellFormedGraph, EmittedOf, ClosedStates, History, Topological, ListedOnce, WalkOrder, Orderly, Covered, WalkLinks;
      WalkGoesOn(x, k, rank);
      OrderlyBelow(states[..], states[..], x, k, rank, w);
      r := OrderType(typ, throughPtr, rank, w);
      if r >= 0 { CoveredBehind(types, states[..], typ, throughPtr); }
    }

    lemma ProtoCovered(id: nat, behind: bool)
      requires Valid() && id < |types| && KindOf(types[id]) == FuncProto && AllCovered(types, states[..], NeedLinks(types[id], behind))
      ensures Covered(types, states[..], Link(id, false)) && Covered(types, states[..], Link(id, true))
    {
      hide Covered, AllCovered;
      assert NeedLinks(types[id], true) == NeedLinks(types[id], false);
      CoveredByLinks(types, states[..], Link(id, false));
      CoveredByLinks(types, states[..], Link(id, true));
    }

    method MarkAll(refs: seq<nat>)
      requires forall k :: 0 <= k < |refs| ==> refs[k] < referenced.Length
      modifies referenced
      ensures forall x :: 0 <= x < referenced.Length ==> (referenced[x] <==> old(referenced[x]) || x in refs)
    {
      for k := 0 to |refs|
        invariant forall x :: 0 <= x < referenced.Length ==> (referenced[x] <==> old(referenced[x]) || x in refs[..k])
      {
        referenced[refs[k]] := true;
      }
      assert refs[..|refs|] == refs;
    }

    /** Flags the types that others refer to, except for the return types of prototypes and what a FWD
        refers to. */
    method MarkReferenced() returns (err: int)
      requires Separate() && WellFormedGraph(types) && forall x :: 0 <= x < referenced.Length ==> !referenced[x]
      modifies referenced
      ensures err == 0 || err == EINVAL
      ensures err == 0 ==> forall x: nat :: x < referenced.Length ==> (referenced[x] <==> FlaggedBelow(types, |types|, x))
      ensures KnownKinds(types) ==> err == 0
    {
      for i := 1 to |types|
        invariant forall x: nat :: x < referenced.Length ==> (referenced[x] <==> FlaggedBelow(types, i, x))
      {
        hide FlaggedBelow, Shape;
        var t := types[i];
        match KindOf(t) {
          case Int | Enum | Fwd =>
          case Unkn =>
            return EINVAL;
          case FuncProto =>
            ProtoLinks(types, i, true);
            MarkAll(BodyRefs(t.body));
          case _ =>
            MarkAll(Refs(t));
        }
        FlaggedStep(types, i);
      }
      return 0;
    }

    /** The states before the first call. */
    method SetUp() returns (err: int)
      requires WellFormedGraph(types) && Separate() && emitQueue == [] && done == [] && emitted == []
      requires forall x :: 0 <= x < |types| ==> states[x] == NotOrdered && !referenced[x]
      modifies this`ready, states, referenced
      ensures err == 0 ==> ready && Valid() && Settled() && Marked()
      ensures err == 0 || err == ENOMEM || err == EINVAL
      ensures KnownKinds(types) ==> err != EINVAL
    {
      hide Covered, AllCovered, ClosedStates, WellFormed;
      var oom: bool := *;
      if oom { return ENOMEM; }
      SetState(0, Ordered);
      ready := true;
      err := MarkReferenced();
      if err != 0 { return; }
      StartsConsistent(types, states[..]);
    }

    ghost predicate Marked()
      reads referenced
      requires WellFormedGraph(types)
    {
      referenced.Length == |types| && forall x: nat :: x < |types| ==> (referenced[x] <==> FlaggedBelow(types, |types|, x))
    }

    /** What must be defined and is written out has been queued, in this call or an earlier one. */
    lemma DefinedIsQueued(id: nat)
      requires Valid() && id < |types| && Covered(types, states[..], Link(id, false)) && Definite(types[id], false)
      requires Emitted(types, referenced[..], id)
      ensures id in emitted + emitQueue
    {
      hide ClosedStates, Topological, ListedOnce, Emitted;
      assert Needs(types, Link(id, false), Link(id, false), 0);
      DefiniteIsTracked(types[id], false);
    }

    lemma DefinedIsFinished(id: nat)
      requires Valid() && id < |types| && Covered(types, states[..], Link(id, false)) && Definite(types[id], false)
      ensures states[id] == Ordered
    {
      hide ClosedStates, Topological, ListedOnce, WellFormedGraph;
      assert Needs(types, Link(id, false), Link(id, false), 0);
    }

    lemma QueuedTwiceIsTypedef()
      requires Valid()
      ensures var q := emitted + emitQueue;
        forall i, j :: 0 <= i < j < |q| && q[i] == q[j] ==> q[j] < |types| && KindOf(types[q[j]]) == Typedef
    {
      hide ClosedStates, Topological, EmittedOf, WellFormedGraph;
      var q := emitted + emitQueue;
      forall i, j | 0 <= i < j < |q| && q[i] == q[j] ensures q[j] < |types| && KindOf(types[q[j]]) == Typedef {
        QueuedOnce(types, referenced[..], done, i, j);
      }
    }

    /** What has been queued so far, in this call or an earlier one, is exactly what has been finished and
        is written out. */
    ghost predicate QueueRight()
      reads this, states
    {
      states.Length == |types| && forall x: nat :: x in emitted + emitQueue <==> x < |types| && states[x] == Ordered && WrittenOut(types, x)
    }

    lemma QueueIsRight()
      requires Valid() && Marked()
      ensures QueueRight()
    {
      hide ClosedStates, Topological, ListedOnce, FlaggedBelow, Used, WellFormedGraph;
      forall x: nat ensures x in emitted + emitQueue <==> x < |types| && states[x] == Ordered && WrittenOut(types, x) {
        assert x in emitted + emitQueue <==> x in done && Emitted(types, referenced[..], x);
        if x < |types| { FlaggedIsUsed(types, x); }
      }
    }

    lemma SettledIsOrderly(id: nat, rank: Ranks, w: Ranks)
      requires WellFormedGraph(types) && states.Length == |types| && OnWalk(Link(id, false), rank) && Settled() && DefinitionOrder(types, rank, w)
      ensures Orderly(states[..], Link(id, false), rank, w)
    {
    }

    /** One call of the dumper, up to the point where it writes out its queue. After any number of
        successful calls all that was ever queued is in topological order. No call fails on a type
        whose definitions can be ordered. */
    method DumpType(id: nat, ghost rank: Ranks, ghost w: Ranks) returns (err: int)
      requires WellFormedGraph(types) && (id < |types| ==> OnWalk(Link(id, false), rank))
      requires if ready then Valid() && Marked() else
        Separate() && emitQueue == [] && done == [] && emitted == [] && forall x :: 0 <= x < |types| ==> states[x] == NotOrdered && !referenced[x]
      modifies this, states, referenced
      ensures err == 0 ==> ready && Valid() && Marked() && id < |types| && Covered(types, states[..], Link(id, false))
      ensures err == 0 ==> emitted == old(emitted + emitQueue) && QueueRight()
      ensures err == 0 || err == ENOMEM || err == EINVAL || err == ELOOP
      ensures old(Settled()) ==> (err == 0 ==> Settled()) && (DefinitionOrder(types, rank, w) ==> err != ELOOP)
      ensures KnownKinds(types) && id < |types| ==> err != EINVAL
    {
      hide Covered, AllCovered, ClosedStates, WellFormed, WellFormedGraph, WalkOrder, TypeOrder.Consistent, DefinitionOrder, FlaggedBelow;
      if id >= |types| { return EINVAL; }
      if !ready {
        err := SetUp();
        if err != 0 { return; }
      }
      emitted := emitted + emitQueue;
      emitQueue := [];
      if Settled() && DefinitionOrder(types, rank, w) { SettledIsOrderly(id, rank, w); }
      err := OrderType(id, false, rank, w);
      if err < 0 { return; }
      QueueIsRight();
      return 0;
    }
  }

  /** `struct s { enum { A } x; }`. */
  function EnumEmbedded(): seq<BtfType> {
    [VOID,
     BtfType(0, Info(1, Enum, false, 0), 4, Enumerators([Enumerator(1, 0)])),
     BtfType(2, Info(1, Struct, false, 0), 4, Members([Member(3, 1, 0)]))]
  }

  lemma EnumEmbeddedFacts()
    ensures WellFormedGraph(EnumEmbedded()) && KnownKinds(EnumEmbedded())
    ensures Used(EnumEmbedded(), 1) && !WrittenOut(EnumEmbedded(), 0) && !WrittenOut(EnumEmbedded(), 1)
  {
    hide WellFormedGraph, Refs;
    var g := EnumEmbedded();
    GraphOfRecords(g);
    assert BodyRefs(g[2].body)[0] == 1;
    RefsSplit(g[2], 1);
    assert UsedBy(g[2], 1);
  }

  lemma EnumEmbeddedWalk(walked: Ranks, w: Ranks)
    requires walked == Ranks([0, 1, 1], [0, 0, 0]) && w == Ranks([0, 0, 1], [0, 0, 0])
    ensures WellFormedGraph(EnumEmbedded()) && WalkOrder(EnumEmbedded(), walked) && DefinitionOrder(EnumEmbedded(), walked, w)
  {
    hide WellFormedGraph, Refs, Linked;
    EnumEmbeddedFacts();
    var g := EnumEmbedded();
    assert WalkLinks(g[1], false) == [];
    EmbeddedLinks();
  }

  lemma EmbeddedLinks()
    ensures WalkLinks(EnumEmbedded()[2], false) == [Link(1, false)]
  {
    assert BodyRefs(EnumEmbedded()[2].body) == [1];
  }

  /** Only the struct is queued: the enum is written out in its place. */
  method DumpEnumEmbedded() returns (d: Dumper, err: int)
    ensures err == 0 ==> d.types == EnumEmbedded() && d.emitQueue == [2]
    ensures err == 0 || err == ENOMEM
  {
    hide Covered, TypeOrder.Consistent, WellFormedGraph, FlaggedBelow, WalkOrder, DefinitionOrder, EmittedOf, WrittenOut, Used;
    EnumEmbeddedFacts();
    ghost var walked, w := Ranks([0, 1, 1], [0, 0, 0]), Ranks([0, 0, 1], [0, 0, 0]);
    EnumEmbeddedWalk(walked, w);
    d := new Dumper(EnumEmbedded());
    err := d.DumpType(2, walked, w);
    if err == 0 {
      d.DefinedIsFinished(2);
      d.QueuedTwiceIsTypedef();
      NamedIsWritten();
      StructAlone(d.types, d.emitted + d.emitQueue);
      assert d.emitted + d.emitQueue == d.emitQueue;
    }
  }

  lemma StructAlone(g: seq<BtfType>, q: seq<nat>)
    requires g == EnumEmbedded() && 2 in q && (forall x :: x in q ==> x < |g| && WrittenOut(g, x))
    requires forall i, j :: 0 <= i < j < |q| && q[i] == q[j] ==> q[j] < |g| && KindOf(g[q[j]]) == Typedef
    ensures q == [2]
  {
    hide WrittenOut;
    EnumEmbeddedFacts();
    NamedIsWritten();
    assert forall x :: x in q ==> x == 2;
    assert q != [] ==> q[0] in q && q[|q| - 1] in q;
    assert |q| == 1;
  }

  lemma NamedIsWritten()
    ensures WrittenOut(EnumEmbedded(), 2) && KindOf(EnumEmbedded()[2]) == Struct
  {
  }

  /** `enum { x } f(void)` as a prototype, with nothing else that refers to the enum. */
  function EnumReturned(): seq<BtfType> {
    [VOID,
     BtfType(0, Info(1, Enum, false, 0), 4, Enumerators([Enumerator(1, 0)])),
     BtfType(0, Info(0, FuncProto, false, 0), 1, Params([]))]
  }

  lemma EnumReturnedUnflagged()
    ensures WellFormedGraph(EnumReturned()) && ReferredTo(EnumReturned(), 1) && !FlaggedBelow(EnumReturned(), 3, 1)
    ensures KnownKinds(EnumReturned())
  {
    hide WellFormedGraph, Refs, Flags;
    var g := EnumReturned();
    GraphOfRecords(g);
    assert 1 in Refs(g[2]) by { RefsSplit(g[2], 1); }
    NothingFlagged(g[1]);
    NothingFlagged(g[2]);
  }

  lemma NothingFlagged(t: BtfType)
    requires KindOf(t) == Enum || (KindOf(t) == FuncProto && t.body == Params([]))
    ensures Flags(t) == []
  {
  }

  lemma EnumReturnedWalk(rank: Ranks)
    requires rank == Ranks([1, 1, 1], [1, 1, 1])
    ensures WellFormedGraph(EnumReturned()) && WalkOrder(EnumReturned(), Ranks([0, 1, 0], [0, 1, 0]))
    ensures DefinitionOrder(EnumReturned(), Ranks([0, 1, 0], [0, 1, 0]), rank)
  {
    hide WellFormedGraph, FlaggedBelow, Linked, Refs;
    EnumReturnedUnflagged();
    var g := EnumReturned();
    assert forall behind :: WalkLinks(g[1], behind) == [] && WalkLinks(g[0], behind) == [];
  }

  /** The enum is written out by itself although a prototype refers to it. */
  method DumpEnumReturned() returns (d: Dumper, err: int)
    ensures err == 0 ==> d.types == EnumReturned() && 1 in d.emitQueue
    ensures err == 0 || err == ENOMEM
  {
    hide Covered, TypeOrder.Consistent, WellFormedGraph, FlaggedBelow, WalkOrder, DefinitionOrder, EmittedOf;
    EnumReturnedUnflagged();
    ghost var rank, walked := Ranks([1, 1, 1], [1, 1, 1]), Ranks([0, 1, 0], [0, 1, 0]);
    EnumReturnedWalk(rank);
    d := new Dumper(EnumReturned());
    err := d.DumpType(1, walked, rank);
    if err == 0 { d.DefinedIsQueued(1); }
  }
}
