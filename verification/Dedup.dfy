/** The deduplicator: an object whose passes overwrite the type records and the id maps in place. */
module Dedup {
  import opened Errors
  import opened BtfGraph
  import opened BtfCompare
  import opened IdMap
  import opened Hypothesis
  import opened Contents
  import opened DedupState
  import opened Renumbering

  class Deduper {
    const strict: bool              // dont_resolve_fwds
    ghost const g0: seq<BtfType>    // the graph as it was given
    const types: array<BtfType>
    const idMap: array<nat>
    const hypotMap: array<nat>
    var hypotList: seq<nat>
    var table: Table
    var nrTypes: nat
    ghost var finish: seq<nat>      // when each reference type was finished, and the clock
    ghost var clock: nat

    /** Everything unmapped but void, and the types that are never deduplicated. */
    constructor (g: seq<BtfType>, strict: bool)
      requires WellFormedGraph(g)
      ensures this.strict == strict && g0 == g && types[..] == g && nrTypes == |g| - 1
      ensures Separate() && fresh(types) && fresh(idMap) && fresh(hypotMap)
      ensures StartingMaps(g, idMap[..], hypotMap[..]) && hypotList == [] && table == []
    {
      this.strict, g0 := strict, g;
      types := new BtfType[|g|](i requires 0 <= i < |g| => g[i]);
      idMap := new nat[|g|];
      hypotMap := new nat[|g|];
      hypotList, table, nrTypes := [], [], |g| - 1;
      finish, clock := [], 0;
      new;
      idMap[0] := 0;
      for i := 1 to |g|
        invariant types[..] == g && idMap[0] == 0 && hypotList == [] && table == [] && nrTypes == |g| - 1
        invariant forall j :: 0 < j < i ==> idMap[j] == if NeverDeduped(KindOf(g[j])) then j else UNPROCESSED
      {
        var kind := KindOf(types[i]);
        idMap[i] := if kind == Var || kind == Datasec then i else UNPROCESSED;
      }
      for i := 0 to |g|
        invariant types[..] == g && StartingMap(g, idMap[..]) && hypotList == [] && table == [] && nrTypes == |g| - 1
        invariant forall j :: 0 <= j < i ==> hypotMap[j] == UNPROCESSED
      {
        hypotMap[i] := UNPROCESSED;
      }
    }

    ghost predicate Separate()
    {
      types.Length == idMap.Length == hypotMap.Length == |g0| &&
      idMap != hypotMap && types as object != idMap && types as object != hypotMap
    }

    method SetMap(i: nat, v: nat)
      requires i < idMap.Length
      modifies idMap
      ensures idMap[..] == old(idMap[..])[i := v]
    {
      idMap[i] := v;
    }

    /** The candidates filed under a hash; callers rely on no particular order. */
    method Candidates(h: nat) returns (cs: seq<nat>)
      ensures forall c :: c in cs <==> (h, c) in table
    {
      cs := [];
      for i := 0 to |table|
        invariant forall c :: c in cs <==> (h, c) in table[..i]
      {
        assert table[..i + 1] == table[..i] + [table[i]];
        if table[i].0 == h {
          cs := [table[i].1] + cs;
        }
      }
      assert table[..|table|] == table;
    }

    method ResolveTypeId(id: nat) returns (r: nat)
      requires InRange(idMap[..]) && Acyclic(idMap[..]) && id < idMap.Length
      ensures r == Root(idMap[..], id)
    {
      r := id;
      ghost var m := idMap[..];
      ghost var k := RootWitness(m, id);
      while idMap[r] <= MAX_NR_TYPES && idMap[r] != r
        invariant r < idMap.Length && Ends(m, r, k) && Root(m, r) == Root(m, id)
        decreases k
      {
        RootStep(m, r);
        r := idMap[r];
        k := k - 1;
      }
      RootStep(m, r);
    }

    /** Exact equality, by the comparison that belongs to the kind. */
    method RecordsEqual(t: BtfType, u: BtfType) returns (eq: bool)
      requires WellFormed(t) && WellFormed(u) && ExactKind(KindOf(t))
      ensures eq <==> t == u
    {
      match KindOf(t) {
        case Int => eq := EqualInt(t, u);
        case Enum => eq := EqualEnum(t, u);
        case Array => eq := EqualArray(t, u);
        case FuncProto => eq := EqualFnproto(t, u);
        case _ =>
          eq := EqualCommon(t, u);
          EqualCommonIsEquality(t, u);
      }
    }

    /** The search loop that every pass runs over the candidates of a hash. */
    method FindEqual(id: nat, h: nat) returns (newId: nat)
      requires Separate() && 0 < id < |g0|
      requires WellFormedGraph(types[..]) && InRange(idMap[..]) && Filed(types[..], idMap[..], table)
      requires ExactKind(KindOf(types[..][id])) && h == ExactHash(types[..][id]) && !Mapped(idMap[..], id)
      ensures newId == id ==> forall c: nat :: (h, c) in table ==> types[..][c] != types[..][id]
      ensures newId != id ==> (h, newId) in table && types[..][newId] == types[..][id]
    {
      hide Filed, Faithful;
      newId := id;
      ghost var g := types[..];
      var cands := Candidates(h);
      for i := 0 to |cands|
        invariant newId == id
        invariant forall j :: 0 <= j < i ==> cands[j] < |g| && g[cands[j]] != g[id]
      {
        var cand := cands[i];
        assert cand in cands;
        CandidateIsType(g, idMap[..], table, h, cand);
        var eq := RecordsEqual(types[id], types[cand]);
        if eq {
          return cand;
        }
      }
    }

    /** When forward declarations are resolved, no forward enum filed under the hash is left beside
        this definition of it, and no definition beside this forward enum. */
    ghost predicate ForwardsLinked(m: seq<nat>, tb: Table, id: nat)
      requires |m| == |g0| && id < |g0|
    {
      !strict ==>
        forall c: nat :: c < |g0| && (EnumHash(g0[id]), c) in tb && CompatibleEnums(g0[id], g0[c]) ==> !IsEnumFwd(g0[id]) && m[c] == id
    }

    /** The enum search also links forward enums to definitions, in either order of arrival. */
    method FindEnum(id: nat, h: nat) returns (newId: nat)
      requires Separate() && 0 < id < |g0| && types[..] == g0
      requires PrimPhase(strict, g0, idMap[..], table, id)
      requires KindOf(g0[id]) == Enum && h == EnumHash(g0[id])
      modifies idMap
      ensures PrimLoop(strict, g0, idMap[..], table, id)
      ensures newId == id ==> forall c: nat :: (h, c) in table ==> g0[c] != g0[id]
      ensures newId != id ==> (h, newId) in table && Joinable(strict, g0, idMap[..], id, newId)
      ensures newId == id ==> ForwardsLinked(idMap[..], table, id)
      ensures OnlyForwards(old(idMap[..]), idMap[..], table, id)
    {
      hide Acyclic, Sound, Filed, Faithful, PrimEntries, CompatibleEnums, Scanned, OnlyForwards, ForwardsLinked;
      newId := id;
      ghost var m0 := idMap[..];
      NothingScanned(m0, table, id);
      var t := types[..][id];
      var cands := Candidates(h);
      for i := 0 to |cands|
        invariant newId == id
        invariant PrimLoop(strict, g0, idMap[..], table, id)
        invariant strict || IsEnumFwd(t) ==> idMap[..] == m0
        invariant Scanned(idMap[..], cands[..i], id) && OnlyForwards(m0, idMap[..], table, id)
      {
        var candId := cands[i];
        assert candId in cands;
        CandidateIsType(g0, idMap[..], table, h, candId);
        var cand := types[..][candId];
        var eq := EqualEnum(t, cand);
        if eq {
          EqualIsJoinable(strict, g0, idMap[..], table, id, candId);
          return candId;
        }
        ScanNext(idMap[..], cands, i, id);
        OneMoreForward(m0, idMap[..], table, id, candId);
        if strict {
          continue;
        }
        eq := CompatEnum(t, cand);
        if eq {
          if IsEnumFwd(t) {
            DefinitionIsJoinable(g0, m0, table, id, candId);
            return candId;
          }
          PrimOverwrite(g0, idMap[..], table, id, candId);
          SetMap(candId, id);
        }
      }
      assert cands[..|cands|] == cands;
      AllScanned(idMap[..], cands, table, id);
    }

    /** What the search has established of the candidates cs. */
    ghost predicate Scanned(m: seq<nat>, cs: seq<nat>, id: nat)
      requires |m| == |g0| && id < |g0|
    {
      forall j :: 0 <= j < |cs| ==>
        cs[j] < |g0| && g0[cs[j]] != g0[id] && (!strict && CompatibleEnums(g0[id], g0[cs[j]]) ==> !IsEnumFwd(g0[id]) && m[cs[j]] == id)
    }

    /** Nothing has been overwritten but forward enums, by the definition found for them. */
    ghost predicate OnlyForwards(m0: seq<nat>, m: seq<nat>, tb: Table, id: nat)
      requires |m0| == |m| == |g0| && id < |g0|
    {
      forall c: nat :: c < |g0| && m[c] != m0[c] ==> m[c] == id && (EnumHash(g0[id]), c) in tb && CompatibleEnums(g0[id], g0[c])
    }

    lemma NothingScanned(m: seq<nat>, tb: Table, id: nat)
      requires |m| == |g0| && id < |g0|
      ensures Scanned(m, [], id) && OnlyForwards(m, m, tb, id)
    {
    }

    lemma ScanNext(m: seq<nat>, cs: seq<nat>, i: nat, id: nat)
      requires |m| == |g0| && id < |g0| && i < |cs| && Scanned(m, cs[..i], id) && cs[i] < |g0| && g0[cs[i]] != g0[id]
      ensures strict || !CompatibleEnums(g0[id], g0[cs[i]]) ==> Scanned(m, cs[..i + 1], id)
      ensures !IsEnumFwd(g0[id]) ==> Scanned(m[cs[i] := id], cs[..i + 1], id)
    {
      hide CompatibleEnums, IsEnumFwd;
      assert cs[..i + 1] == cs[..i] + [cs[i]];
    }

    lemma OneMoreForward(m0: seq<nat>, m: seq<nat>, tb: Table, id: nat, c: nat)
      requires |m0| == |m| == |g0| && id < |g0| && c < |g0| && OnlyForwards(m0, m, tb, id) && (EnumHash(g0[id]), c) in tb
      ensures CompatibleEnums(g0[id], g0[c]) ==> OnlyForwards(m0, m[c := id], tb, id)
    {
      hide CompatibleEnums;
    }

    lemma AllScanned(m: seq<nat>, cs: seq<nat>, tb: Table, id: nat)
      requires |m| == |g0| && id < |g0| && Scanned(m, cs, id) && forall c :: c in cs <==> (EnumHash(g0[id]), c) in tb
      ensures ForwardsLinked(m, tb, id) && forall c: nat :: (EnumHash(g0[id]), c) in tb ==> c < |g0| && g0[c] != g0[id]
    {
      hide CompatibleEnums, IsEnumFwd;
      forall c: nat | (EnumHash(g0[id]), c) in tb
        ensures c < |g0| && g0[c] != g0[id] && (!strict && CompatibleEnums(g0[id], g0[c]) ==> !IsEnumFwd(g0[id]) && m[c] == id)
      {
        assert c in cs;
      }
    }

    method DedupPrimType(id: nat) returns (err: int)
      requires Separate() && 0 < id < |g0| && types[..] == g0
      requires PrimPhase(strict, g0, idMap[..], table, id)
      modifies idMap, this`table
      ensures InRange(idMap[..]) && Acyclic(idMap[..])
      ensures err == 0 ==> PrimPhase(strict, g0, idMap[..], table, id + 1)
      ensures err == 0 && KindOf(g0[id]) == Enum && idMap[id] == id ==> ForwardsLinked(idMap[..], old(table), id)
      ensures err == 0 || err == ENOMEM || err == EINVAL
      ensures PlainGraph(g0) ==> err != EINVAL
    {
      hide Acyclic, Sound, Filed, Faithful, PrimEntries, CompatibleEnums, Alike, Becomes, OneShape;
      var t := types[..][id];
      if PrimKind(KindOf(t)) { PrimPending(strict, g0, idMap[..], table, id); }
      var newId, h;
      match KindOf(t) {
        case Int =>
          h := IntHash(t);
          newId := FindEqual(id, h);
        case Enum =>
          h := EnumHash(t);
          newId := FindEnum(id, h);
        case Fwd =>
          h := CommonHash(t);
          newId := FindEqual(id, h);
        case Unkn =>
          return EINVAL;
        case _ =>
          PrimSkip(strict, g0, idMap[..], table, id);
          return 0;
      }
      ghost var m, tb := idMap[..], table;
      if newId != id && KindOf(t) != Enum {
        EqualIsJoinable(strict, g0, m, tb, id, newId);
      }
      SetMap(id, newId);
      PrimFinish(strict, g0, m, tb, id, newId);
      if id == newId {
        var oom: bool := *;
        if oom { return ENOMEM; }
        table := table + [(h, id)];
      }
      return 0;
    }

    method DedupPrimTypes() returns (err: int)
      requires Separate() && types[..] == g0
      requires PrimPhase(strict, g0, idMap[..], table, 1)
      modifies idMap, this`table
      ensures InRange(idMap[..]) && Acyclic(idMap[..])
      ensures err == 0 ==> PrimPhase(strict, g0, idMap[..], table, |g0|)
      ensures err == 0 || err == ENOMEM || err == EINVAL
      ensures PlainGraph(g0) ==> err != EINVAL
    {
      hide Acyclic, Sound, Filed, Faithful, PrimEntries;
      for i := 1 to types.Length
        invariant PrimPhase(strict, g0, idMap[..], table, i)
      {
        err := DedupPrimType(i);
        if err != 0 { return; }
      }
      return 0;
    }

    // Structs and unions -------------------------------------------------------------------

    /** What the equivalence check works on. */
    ghost predicate Checking()
      reads this, types, idMap, hypotMap
    {
      Separate() && types[..] == g0 && WellFormedGraph(g0) &&
      InRange(idMap[..]) && Acyclic(idMap[..]) && Listed(hypotMap[..], hypotList)
    }

    method ResolveFwdId(id: nat) returns (r: nat)
      requires Separate() && types[..] == g0
      requires InRange(idMap[..]) && Acyclic(idMap[..]) && id < |g0|
      ensures r == FwdTarget(idMap[..], g0, id)
    {
      if KindOf(types[..][id]) != Fwd { return id; }
      r := ResolveTypeId(id);
      if KindOf(types[..][r]) == Fwd { return id; }
    }

    method HypotMapAdd(fromId: nat, toId: nat) returns (err: int)
      requires Checking() && fromId < |g0| && toId < |g0| && !IsSet(hypotMap[..], fromId)
      modifies hypotMap, this`hypotList
      ensures Checking()
      ensures err == 0 || err == ENOMEM
      ensures err == 0 ==> hypotMap[..] == old(hypotMap[..])[fromId := toId] && hypotList == old(hypotList) + [fromId]
      ensures err == 0 ==> Unset(hypotMap[..]) < Unset(old(hypotMap[..]))
      ensures err != 0 ==> hypotMap[..] == old(hypotMap[..])
    {
      hide Acyclic, Listed;
      var oom: bool := *;
      if oom { return ENOMEM; }
      AddListed(hypotMap[..], hypotList, fromId, toId);
      hypotList := hypotList + [fromId];
      hypotMap[fromId] := toId;
      assert hypotMap[..] == old(hypotMap[..])[fromId := toId];
      return 0;
    }

    /** Forgets every assumption, by visiting the listed entries only. */
    method ClearHypotMap()
      requires Checking()
      modifies hypotMap, this`hypotList
      ensures Checking() && hypotList == []
      ensures forall c :: 0 <= c < |g0| ==> hypotMap[c] == UNPROCESSED
    {
      hide Acyclic;
      ghost var h := hypotMap[..];
      var list := hypotList;
      assert forall j :: 0 <= j < |list| ==> list[j] < |h|;
      for i := 0 to |list|
        invariant forall c :: 0 <= c < hypotMap.Length ==> hypotMap[c] == UNPROCESSED || hypotMap[c] == old(hypotMap[c])
        invariant forall j :: 0 <= j < i ==> hypotMap[list[j]] == UNPROCESSED
      {
        hypotMap[list[i]] := UNPROCESSED;
      }
      forall c | 0 <= c < hypotMap.Length ensures hypotMap[c] == UNPROCESSED {
        if h[c] != UNPROCESSED {
          assert IsSet(h, c) && c in list;
        }
      }
      hypotList := [];
    }

    /** Side-by-side traversal of two type graphs. A positive verdict on the pair stands once every
        assumption made on the way has been discharged, which `NewChecked` says of this call's own. */
    method IsEquiv(candId: nat, canonId0: nat, ghost goal: seq<nat>) returns (eq: int)
      requires Checking() && candId < |g0| && canonId0 < |g0|
      modifies hypotMap, this`hypotList
      ensures Checking() && Extends(old(hypotMap[..]), hypotMap[..])
      ensures eq > 0 ==> Related(idMap[..], g0, hypotMap[..], candId, canonId0)
      ensures Expected(strict, idMap[..], g0, goal, old(hypotMap[..]), candId, canonId0) ==> eq != 0 && (eq > 0 ==> Extends(hypotMap[..], goal))
      ensures eq > 0 ==> NewChecked(strict, idMap[..], g0, old(hypotMap[..]), hypotMap[..])
      ensures eq >= 0 || eq == ENOMEM || eq == EINVAL
      ensures PlainGraph(g0) && Plain(g0, candId) ==> eq != EINVAL
      decreases Unset(hypotMap[..]), 0
    {
      hide Acyclic, Listed, Checked, NewChecked, WellFormed;
      ghost var m, h := idMap[..], hypotMap[..];
      NothingNew(strict, m, g0, h);
      var candRoot := ResolveTypeId(candId);
      var canonRoot := ResolveTypeId(canonId0);
      if candRoot == canonRoot {
        assert Expected(strict, m, g0, goal, h, candId, canonId0) ==> Extends(h, goal);
        return 1;
      }
      if Expected(strict, m, g0, goal, h, candId, canonId0) { ExpectedPair(strict, m, g0, goal, h, candId, canonId0); }
      var canonId := ResolveFwdId(canonId0);
      if hypotMap[canonId] <= MAX_NR_TYPES {
        return if hypotMap[canonId] == candId then 1 else 0;
      }
      var err := HypotMapAdd(canonId, candId);
      if err != 0 { return ENOMEM; }
      eq := NodesEquiv(candId, canonId, goal);
      ghost var h2 := hypotMap[..];
      AddedEntry(h, h2, canonId, candId);
      if eq > 0 {
        PairChecked(strict, m, g0, h, h2, candId, canonId);
      }
    }

    /** The comparison of two records by kind, and of what they refer to. */
    method NodesEquiv(candId: nat, canonId: nat, ghost goal: seq<nat>) returns (eq: int)
      requires Checking() && candId < |g0| && canonId < |g0|
      modifies hypotMap, this`hypotList
      ensures Checking() && Extends(old(hypotMap[..]), hypotMap[..])
      ensures eq > 0 ==> Checked(strict, idMap[..], g0, hypotMap[..], candId, canonId)
      ensures ExpectedNodes(strict, idMap[..], g0, goal, old(hypotMap[..]), candId, canonId) ==> eq != 0 && (eq > 0 ==> Extends(hypotMap[..], goal))
      ensures eq > 0 ==> NewChecked(strict, idMap[..], g0, old(hypotMap[..]), hypotMap[..])
      ensures eq >= 0 || eq == ENOMEM || eq == EINVAL
      ensures PlainGraph(g0) && Plain(g0, candId) && (candId != 0 || canonId != 0) ==> eq != EINVAL
      decreases Unset(hypotMap[..]), 3
    {
      hide Acyclic, Listed, NewChecked, Related, Complete, Checked, ExpectedNodes;
      ghost var m, h := idMap[..], hypotMap[..];
      NothingNew(strict, m, g0, h);
      if ExpectedNodes(strict, m, g0, goal, h, candId, canonId) { ExpectedAgree(strict, m, g0, goal, h, candId, canonId); }
      var cand, canon := types[..][candId], types[..][canonId];
      var candKind, canonKind := KindOf(cand), KindOf(canon);

      if cand.nameOff != canon.nameOff { return 0; }
      if !strict && (candKind == Fwd || canonKind == Fwd) && candKind != canonKind {
        eq := FwdEquiv(candId, canonId, goal);
        return;
      }
      if candKind != canonKind { return 0; }
      eq := KindEquiv(candId, canonId, goal);
    }

    /** Two types of one kind and name. */
    method KindEquiv(candId: nat, canonId: nat, ghost goal: seq<nat>) returns (eq: int)
      requires Checking() && candId < |g0| && canonId < |g0|
      requires KindOf(g0[candId]) == KindOf(g0[canonId]) && g0[candId].nameOff == g0[canonId].nameOff
      modifies hypotMap, this`hypotList
      ensures Checking() && Extends(old(hypotMap[..]), hypotMap[..])
      ensures eq > 0 ==> Checked(strict, idMap[..], g0, hypotMap[..], candId, canonId)
      ensures ExpectedNodes(strict, idMap[..], g0, goal, old(hypotMap[..]), candId, canonId) ==> eq != 0 && (eq > 0 ==> Extends(hypotMap[..], goal))
      ensures eq > 0 ==> NewChecked(strict, idMap[..], g0, old(hypotMap[..]), hypotMap[..])
      ensures eq >= 0 || eq == ENOMEM || eq == EINVAL
      ensures PlainGraph(g0) && Plain(g0, candId) && (candId != 0 || canonId != 0) ==> eq != EINVAL
      decreases Unset(hypotMap[..]), 2
    {
      hide Acyclic, Listed, NewChecked, Related, Complete, Checked, ExpectedNodes;
      ghost var m, h := idMap[..], hypotMap[..];
      NothingNew(strict, m, g0, h);
      if ExpectedNodes(strict, m, g0, goal, h, candId, canonId) { ExpectedAgree(strict, m, g0, goal, h, candId, canonId); }
      match KindOf(types[..][candId]) {
        case Int | Enum | Fwd =>
          eq := LeavesEquiv(candId, canonId, goal);

        case Const | Volatile | Restrict | Ptr | Typedef | Func =>
          eq := ModifiersEquiv(candId, canonId, goal);

        case Array =>
          eq := ArraysEquiv(candId, canonId, goal);

        case Struct | Union =>
          eq := CompositesEquiv(candId, canonId, goal);

        case FuncProto =>
          eq := ProtosEquiv(candId, canonId, goal);

        case _ => return EINVAL;
      }
    }

    /** A FWD and a type that is none, of one name. */
    method FwdEquiv(candId: nat, canonId: nat, ghost goal: seq<nat>) returns (eq: int)
      requires Checking() && candId < |g0| && canonId < |g0| && !strict
      requires KindOf(g0[candId]) != KindOf(g0[canonId]) && (KindOf(g0[candId]) == Fwd || KindOf(g0[canonId]) == Fwd)
      requires g0[candId].nameOff == g0[canonId].nameOff
      ensures eq == 0 || eq == 1
      ensures eq > 0 ==> Checked(strict, idMap[..], g0, hypotMap[..], candId, canonId)
      ensures ExpectedNodes(strict, idMap[..], g0, goal, hypotMap[..], candId, canonId) ==> eq != 0 && Extends(hypotMap[..], goal)
    {
      hide Acyclic, Listed, NewChecked, Related, Complete;
      ghost var m, h := idMap[..], hypotMap[..];
      if ExpectedNodes(strict, m, g0, goal, h, candId, canonId) { ExpectedAgree(strict, m, g0, goal, h, candId, canonId); }
      var cand, canon := types[..][candId], types[..][canonId];
      var realKind, fwdKind;
      if KindOf(cand) == Fwd {
        realKind, fwdKind := KindOf(canon), FwdKind(cand);
      } else {
        realKind, fwdKind := KindOf(cand), FwdKind(canon);
      }
      return if fwdKind == realKind then 1 else 0;
    }

    /** Types that refer to nothing but, in a FWD, to themselves. */
    method LeavesEquiv(candId: nat, canonId: nat, ghost goal: seq<nat>) returns (eq: int)
      requires Checking() && candId < |g0| && canonId < |g0|
      requires KindOf(g0[candId]) == KindOf(g0[canonId]) && KindOf(g0[candId]) in {Int, Enum, Fwd}
      requires g0[candId].nameOff == g0[canonId].nameOff
      ensures eq == 0 || eq == 1
      ensures eq > 0 ==> Checked(strict, idMap[..], g0, hypotMap[..], candId, canonId)
      ensures ExpectedNodes(strict, idMap[..], g0, goal, hypotMap[..], candId, canonId) ==> eq != 0 && Extends(hypotMap[..], goal)
    {
      hide Acyclic, Listed, NewChecked, Related, Complete;
      ghost var m, h := idMap[..], hypotMap[..];
      if ExpectedNodes(strict, m, g0, goal, h, candId, canonId) { ExpectedAgree(strict, m, g0, goal, h, candId, canonId); }
      var cand, canon := types[..][candId], types[..][canonId];
      var same;
      match KindOf(cand) {
        case Int =>
          same := EqualInt(cand, canon);

        case Enum =>
          if strict {
            same := EqualEnum(cand, canon);
          } else {
            same := CompatEnum(cand, canon);
          }

        case Fwd =>
          EqualCommonIsEquality(cand, canon);
          SelfRelated(m, g0, h, Refs(cand));
          same := EqualCommon(cand, canon);
      }
      return if same then 1 else 0;
    }

    method ModifiersEquiv(candId: nat, canonId: nat, ghost goal: seq<nat>) returns (eq: int)
      requires Checking() && candId < |g0| && canonId < |g0|
      requires KindOf(g0[candId]) == KindOf(g0[canonId]) && KindOf(g0[candId]) in {Ptr, Typedef, Volatile, Const, Restrict, Func}
      requires g0[candId].nameOff == g0[canonId].nameOff
      modifies hypotMap, this`hypotList
      ensures Checking() && Extends(old(hypotMap[..]), hypotMap[..])
      ensures eq > 0 ==> Checked(strict, idMap[..], g0, hypotMap[..], candId, canonId)
      ensures ExpectedNodes(strict, idMap[..], g0, goal, old(hypotMap[..]), candId, canonId) ==> eq != 0 && (eq > 0 ==> Extends(hypotMap[..], goal))
      ensures eq > 0 ==> NewChecked(strict, idMap[..], g0, old(hypotMap[..]), hypotMap[..])
      ensures eq >= 0 || eq == ENOMEM || eq == EINVAL
      ensures PlainGraph(g0) ==> eq != EINVAL
      decreases Unset(hypotMap[..]), 1
    {
      hide Acyclic, Listed, NewChecked, Related, Complete;
      PlainRefs(g0, candId);
      if ExpectedNodes(strict, idMap[..], g0, goal, hypotMap[..], candId, canonId) { ExpectedAgree(strict, idMap[..], g0, goal, hypotMap[..], candId, canonId); }
      var cand, canon := types[..][candId], types[..][canonId];
      if cand.info != canon.info { return 0; }
      assert Refs(cand) == [cand.word] && Refs(canon) == [canon.word];
      assert Refs(cand)[0] < |g0| && Refs(canon)[0] < |g0|;
      eq := IsEquiv(cand.word, canon.word, goal);
    }

    method CompositesEquiv(candId: nat, canonId: nat, ghost goal: seq<nat>) returns (eq: int)
      requires Checking() && candId < |g0| && canonId < |g0|
      requires KindOf(g0[candId]) == KindOf(g0[canonId]) && IsComposite(KindOf(g0[candId]))
      modifies hypotMap, this`hypotList
      ensures Checking() && Extends(old(hypotMap[..]), hypotMap[..])
      ensures eq > 0 ==> Checked(strict, idMap[..], g0, hypotMap[..], candId, canonId)
      ensures ExpectedNodes(strict, idMap[..], g0, goal, old(hypotMap[..]), candId, canonId) ==> eq != 0 && (eq > 0 ==> Extends(hypotMap[..], goal))
      ensures eq > 0 ==> NewChecked(strict, idMap[..], g0, old(hypotMap[..]), hypotMap[..])
      ensures eq >= 0 || eq == ENOMEM || eq == EINVAL
      ensures PlainGraph(g0) ==> eq != EINVAL
      decreases Unset(hypotMap[..]), 1, 1
    {
      hide Acyclic, Listed, NewChecked, Related, Complete;
      PlainRefs(g0, candId);
      if ExpectedNodes(strict, idMap[..], g0, goal, hypotMap[..], candId, canonId) { ExpectedAgree(strict, idMap[..], g0, goal, hypotMap[..], candId, canonId); }
      var cand, canon := types[..][candId], types[..][canonId];
      var same := ShallowEqualStruct(cand, canon);
      if !same { return 0; }
      ShapeFixesKind(cand, canon);
      eq := AllEquiv(Refs(cand), Refs(canon), goal);
    }

    method ArraysEquiv(candId: nat, canonId: nat, ghost goal: seq<nat>) returns (eq: int)
      requires Checking() && candId < |g0| && canonId < |g0|
      requires KindOf(g0[candId]) == KindOf(g0[canonId]) == Array
      modifies hypotMap, this`hypotList
      ensures Checking() && Extends(old(hypotMap[..]), hypotMap[..])
      ensures eq > 0 ==> Checked(strict, idMap[..], g0, hypotMap[..], candId, canonId)
      ensures ExpectedNodes(strict, idMap[..], g0, goal, old(hypotMap[..]), candId, canonId) ==> eq != 0 && (eq > 0 ==> Extends(hypotMap[..], goal))
      ensures eq > 0 ==> NewChecked(strict, idMap[..], g0, old(hypotMap[..]), hypotMap[..])
      ensures eq >= 0 || eq == ENOMEM || eq == EINVAL
      ensures PlainGraph(g0) ==> eq != EINVAL
      decreases Unset(hypotMap[..]), 1, 1
    {
      hide Acyclic, Listed, NewChecked, Related, Complete, ChildrenRelated, Guides, WellFormed, Refs;
      ghost var m, h := idMap[..], hypotMap[..];
      PlainRefs(g0, candId);
      if ExpectedNodes(strict, m, g0, goal, h, candId, canonId) { ExpectedAgree(strict, m, g0, goal, h, candId, canonId); }
      ArrayRefs(g0, candId);
      ArrayRefs(g0, canonId);
      var cand, canon := types[..][candId], types[..][canonId];
      if !CompatArray(cand, canon) { return 0; }
      if |goal| == |g0| { EitherOrder(m, g0, goal, Refs(cand), Refs(canon)); }
      assert ExpectedNodes(strict, m, g0, goal, h, candId, canonId) ==> |goal| == |g0| by { GoalSize(strict, m, g0, goal, h); }
      eq := AllEquiv([cand.body.index, cand.body.elem], [canon.body.index, canon.body.elem], goal);
      EitherOrder(m, g0, hypotMap[..], Refs(cand), Refs(canon));
    }

    method ProtosEquiv(candId: nat, canonId: nat, ghost goal: seq<nat>) returns (eq: int)
      requires Checking() && candId < |g0| && canonId < |g0|
      requires KindOf(g0[candId]) == KindOf(g0[canonId]) == FuncProto
      modifies hypotMap, this`hypotList
      ensures Checking() && Extends(old(hypotMap[..]), hypotMap[..])
      ensures eq > 0 ==> Checked(strict, idMap[..], g0, hypotMap[..], candId, canonId)
      ensures ExpectedNodes(strict, idMap[..], g0, goal, old(hypotMap[..]), candId, canonId) ==> eq != 0 && (eq > 0 ==> Extends(hypotMap[..], goal))
      ensures eq > 0 ==> NewChecked(strict, idMap[..], g0, old(hypotMap[..]), hypotMap[..])
      ensures eq >= 0 || eq == ENOMEM || eq == EINVAL
      ensures PlainGraph(g0) ==> eq != EINVAL
      decreases Unset(hypotMap[..]), 1, 1
    {
      hide Acyclic, Listed, NewChecked, Related, Complete;
      PlainRefs(g0, candId);
      if ExpectedNodes(strict, idMap[..], g0, goal, hypotMap[..], candId, canonId) { ExpectedAgree(strict, idMap[..], g0, goal, hypotMap[..], candId, canonId); }
      var cand, canon := types[..][candId], types[..][canonId];
      var same := CompatFnproto(cand, canon);
      if !same { return 0; }
      ShapeFixesKind(cand, canon);
      eq := AllEquiv(Refs(cand), Refs(canon), goal);
    }

    /** The loop over the references of two records, in step. */
    method AllEquiv(xs: seq<nat>, ys: seq<nat>, ghost goal: seq<nat>) returns (eq: int)
      requires Checking() && |xs| == |ys|
      requires forall k :: 0 <= k < |xs| ==> xs[k] < |g0| && ys[k] < |g0|
      modifies hypotMap, this`hypotList
      ensures Checking() && Extends(old(hypotMap[..]), hypotMap[..])
      ensures eq > 0 ==> ChildrenRelated(idMap[..], g0, hypotMap[..], xs, ys)
      ensures ExpectedAll(strict, idMap[..], g0, goal, old(hypotMap[..]), xs, ys) ==> eq != 0 && (eq > 0 ==> Extends(hypotMap[..], goal))
      ensures eq > 0 ==> NewChecked(strict, idMap[..], g0, old(hypotMap[..]), hypotMap[..])
      ensures eq >= 0 || eq == ENOMEM || eq == EINVAL
      ensures PlainGraph(g0) && (forall k :: 0 <= k < |xs| ==> Plain(g0, xs[k])) ==> eq != EINVAL
      decreases Unset(hypotMap[..]), 1, 0
    {
      hide Acyclic, Listed, NewChecked, Related, Checked, Complete;
      ghost var m, h := idMap[..], hypotMap[..];
      NothingNew(strict, m, g0, h);
      for i := 0 to |xs|
        invariant Checking() && Extends(h, hypotMap[..])
        invariant ExpectedAll(strict, m, g0, goal, h, xs, ys) ==> Extends(hypotMap[..], goal)
        invariant NewChecked(strict, m, g0, h, hypotMap[..])
        invariant ChildrenRelated(m, g0, hypotMap[..], xs[..i], ys[..i])
      {
        ghost var h1 := hypotMap[..];
        UnsetShrinks(h, h1);
        if ExpectedAll(strict, m, g0, goal, h, xs, ys) { ExpectedOne(strict, m, g0, goal, h, h1, xs, ys, i); }
        eq := IsEquiv(xs[i], ys[i], goal);
        if eq <= 0 { return; }
        NewCheckedChain(strict, m, g0, h, h1, hypotMap[..]);
        ChildrenGrow(m, g0, h1, hypotMap[..], xs[..i], ys[..i]);
        assert xs[..i + 1] == xs[..i] + [xs[i]] && ys[..i + 1] == ys[..i] + [ys[i]];
      }
      assert xs[..|xs|] == xs && ys[..|xs|] == ys;
      return 1;
    }

    /** Makes the finished hypothesis permanent where that is safe, pair by pair. */
    method MergeHypotMap(next: nat)
      requires Checking() && StructPhase(strict, g0, idMap[..], table, next)
      requires Complete(strict, idMap[..], g0, hypotMap[..])
      modifies idMap
      ensures Checking() && StructPhase(strict, g0, idMap[..], table, next)
      ensures idMap[..] == MergedAll(old(idMap[..]), g0, hypotMap[..], hypotList, |hypotList|)
    {
      hide Acyclic, Sound, Filed, Faithful, Complete, StructPhase, MergedPair;
      ghost var m0, h := idMap[..], hypotMap[..];
      for i := 0 to |hypotList|
        invariant Checking() && StructPhase(strict, g0, idMap[..], table, next)
        invariant idMap[..] == MergedAll(m0, g0, h, hypotList, i)
      {
        HypothesisAlike(strict, g0, m0, table, next, h, hypotList, i);
        MergePair(hypotMap[hypotList[i]], hypotList[i], next);
      }
    }

    /** Two types that were found alike. */
    method MergePair(targTypeId: nat, candTypeId: nat, next: nat)
      requires Checking() && StructPhase(strict, g0, idMap[..], table, next)
      requires targTypeId < |g0| && candTypeId < |g0| && Alike(strict, g0, targTypeId, candTypeId)
      requires NodesAgree(strict, g0[targTypeId], g0[candTypeId])
      modifies idMap
      ensures Checking() && StructPhase(strict, g0, idMap[..], table, next)
      ensures idMap[..] == MergedPair(old(idMap[..]), g0, Root(old(idMap[..]), targTypeId), Root(old(idMap[..]), candTypeId))
    {
      hide Acyclic, Sound, Filed, Alike, StructEntries, Faithful, Becomes, OneShape, NodesAgree;
      var tId := ResolveTypeId(targTypeId);
      var cId := ResolveTypeId(candTypeId);
      RootsAlike(strict, g0, idMap[..], targTypeId, candTypeId);
      if IsComposite(KindOf(g0[tId])) && KindOf(g0[cId]) != Fwd { RootShapes(strict, g0, idMap[..], targTypeId, candTypeId); }
      var tKind := KindOf(types[..][tId]);
      var cKind := KindOf(types[..][cId]);

      if tKind != Fwd && cKind == Fwd {
        LinkForward(strict, g0, idMap[..], table, next, cId, tId);
        SetMap(cId, tId);
      } else if tKind == Fwd && cKind != Fwd {
        LinkForward(strict, g0, idMap[..], table, next, tId, cId);
        SetMap(tId, cId);
      }

      if IsComposite(tKind) && cKind != Fwd && idMap[cId] <= MAX_NR_TYPES && !(idMap[tId] <= MAX_NR_TYPES) {
        LinkComposite(strict, g0, idMap[..], table, next, tId, cId);
        SetMap(tId, cId);
      }
    }

    /** Runs the graph check against one candidate, which succeeds exactly if the two types can be
        related without contradiction, and then records what it found. */
    method TryCandidate(id: nat, candId: nat) returns (eq: int)
      requires Checking() && id < |g0| && candId < |g0| && StructPhase(strict, g0, idMap[..], table, id)
      modifies idMap, hypotMap, this`hypotList
      ensures Checking() && StructPhase(strict, g0, idMap[..], table, id)
      ensures eq > 0 ==> Alike(strict, g0, id, candId)
      ensures eq > 0 ==> Matches(strict, old(idMap[..]), g0, id, candId)
      ensures eq == 0 ==> !Matches(strict, old(idMap[..]), g0, id, candId)
      ensures eq <= 0 ==> idMap[..] == old(idMap[..])
      ensures eq >= 0 || eq == ENOMEM || eq == EINVAL
      ensures PlainGraph(g0) && Plain(g0, id) ==> eq != EINVAL
    {
      hide Acyclic, Sound, Filed, Faithful, StructEntries, Listed, Complete, NewChecked, Related, Matches, Expected;
      ghost var m := idMap[..];
      ClearHypotMap();
      ghost var h0 := hypotMap[..];
      NothingAssumed(strict, m, g0, h0, id, candId);
      eq := IsEquiv(id, candId, Witness(strict, m, g0, id, candId));
      if eq > 0 {
        FreshCheckComplete(strict, m, g0, h0, hypotMap[..]);
        SuccessMatches(strict, m, g0, hypotMap[..], id, candId);
        RelatedAlike(strict, m, g0, hypotMap[..], id, candId);
        MergeHypotMap(id);
      }
    }

    /** A candidate that the struct pass accepts: filed under the type's hash, of the same shape, and
        related to it without contradiction. */
    ghost predicate Accepts(m: seq<nat>, tb: Table, id: nat, c: nat)
      requires WellFormedGraph(g0) && InRange(m) && |m| == |g0| && Acyclic(m) && id < |g0| && IsComposite(KindOf(g0[id]))
    {
      c < |g0| && (StructHash(g0[id]), c) in tb && Shape(g0[id]) == Shape(g0[c]) && Matches(strict, m, g0, id, c)
    }

    /** A struct or union joins a candidate that it can be related to, and becomes canonical exactly if
        there is none. */
    method DedupStructType(id: nat) returns (err: int)
      requires Checking() && 0 < id < |g0| && StructPhase(strict, g0, idMap[..], table, id)
      modifies idMap, hypotMap, this`hypotList, this`table
      ensures Checking()
      ensures err == 0 ==> StructPhase(strict, g0, idMap[..], table, id + 1)
      ensures err == 0 && !Mapped(old(idMap[..]), id) && IsComposite(KindOf(g0[id])) ==>
        if idMap[id] == id then forall c: nat :: !Accepts(old(idMap[..]), old(table), id, c) else Accepts(old(idMap[..]), old(table), id, idMap[id])
      ensures err == 0 || err == ENOMEM || err == EINVAL
      ensures PlainGraph(g0) ==> err != EINVAL
    {
      hide Acyclic, Sound, Filed, Faithful, StructEntries, Listed, Complete, Matches;
      ghost var m, tb := idMap[..], table;
      if idMap[id] <= MAX_NR_TYPES {
        StructSkip(strict, g0, m, tb, id);
        return 0;
      }
      var t := types[..][id];
      if KindOf(t) != Struct && KindOf(t) != Union {
        StructSkip(strict, g0, m, tb, id);
        return 0;
      }
      NotYetFiled(g0, m, tb, id);

      var h := HashStruct(t);
      var newId;
      err, newId := FindStruct(id, h);
      if err != 0 { return; }
      StructFinish(strict, g0, idMap[..], tb, id, newId, h);
      SetMap(id, newId);
      if id == newId {
        var oom: bool := *;
        if oom { return ENOMEM; }
        table := table + [(h, id)];
      }
      return 0;
    }

    /** The search among the candidates of a struct. */
    method FindStruct(id: nat, h: nat) returns (err: int, newId: nat)
      requires Checking() && 0 < id < |g0| && StructPhase(strict, g0, idMap[..], table, id)
      requires !Mapped(idMap[..], id) && IsComposite(KindOf(g0[id])) && h == StructHash(g0[id])
      modifies idMap, hypotMap, this`hypotList
      ensures Checking()
      ensures err == 0 ==> StructPhase(strict, g0, idMap[..], table, id)
      ensures err == 0 && newId == id ==> idMap[..] == old(idMap[..]) && forall c: nat :: !Accepts(old(idMap[..]), table, id, c)
      ensures err == 0 && newId != id ==>
        newId < |g0| && idMap[newId] == newId && Alike(strict, g0, id, newId) && Accepts(old(idMap[..]), table, id, newId)
      ensures err == 0 || err == ENOMEM || err == EINVAL
      ensures PlainGraph(g0) ==> err != EINVAL
    {
      hide Acyclic, Sound, Filed, Faithful, StructEntries, Listed, Complete, Matches, Alike, WellFormed, Shape;
      ghost var m := idMap[..];
      newId := id;
      NotYetFiled(g0, m, table, id);
      var t := types[..][id];
      var cands := Candidates(h);
      for i := 0 to |cands|
        invariant Checking() && idMap[..] == m && newId == id
        invariant forall k :: 0 <= k < i ==> !Accepts(m, table, id, cands[k])
      {
        var candId := cands[i];
        assert candId in cands;
        CandidateIsType(g0, m, table, h, candId);
        var same := ShallowEqualStruct(t, types[..][candId]);
        if !same { continue; }
        ShapeFixesKind(t, g0[candId]);

        var eq := TryCandidate(id, candId);
        if eq < 0 { return eq, id; }
        if eq == 0 { continue; }
        CandidateIsType(g0, idMap[..], table, h, candId);
        return 0, candId;
      }
      assert forall c: nat :: Accepts(m, table, id, c) ==> c in cands;
      err := 0;
    }

    method DedupStructTypes() returns (err: int)
      requires Checking() && StructPhase(strict, g0, idMap[..], table, 1)
      modifies idMap, hypotMap, this`hypotList, this`table
      ensures Checking()
      ensures err == 0 ==> StructPhase(strict, g0, idMap[..], table, |g0|)
      ensures err == 0 || err == ENOMEM || err == EINVAL
      ensures PlainGraph(g0) ==> err != EINVAL
    {
      hide Acyclic, Sound, Filed, Faithful, StructEntries, Listed;
      for i := 1 to types.Length
        invariant Checking() && StructPhase(strict, g0, idMap[..], table, i)
      {
        err := DedupStructType(i);
        if err != 0 { return; }
      }
      return 0;
    }

    // Reference types ----------------------------------------------------------------------

    ghost predicate Rewriting()
      reads this, types, idMap
    {
      Separate() && RefPhase(strict, g0, types[..], idMap[..], table, finish, clock)
    }

    method SetReference(id: nat, k: nat, r: nat)
      requires id < types.Length && k < |Refs(types[id])|
      modifies types
      ensures types[..] == old(types[..])[id := SetRef(old(types[..])[id], k, r)]
    {
      types[id] := SetRef(types[id], k, r);
    }

    /** The canonical type of one type, after those of all it refers to. Types that are finished
        or in progress are left alone, so a result stays valid. */
    method DedupRefType(id: nat, ghost rank: seq<nat>) returns (r: int)
      requires Rewriting() && id < |g0|
      modifies types, idMap, this`table, this`finish, this`clock
      ensures Rewriting() && clock >= old(clock)
      ensures Untouched(old(types[..]), old(idMap[..]), old(finish), types[..], idMap[..], finish)
      ensures r >= 0 ==> r < |g0| && idMap[r] == r == Root(idMap[..], id) && Alike(strict, g0, id, r)
      ensures r >= 0 ==> NoNewMarks(old(idMap[..]), idMap[..]) && Mapped(idMap[..], id)
      ensures r >= 0 && IsRefKind(KindOf(g0[id])) ==> finish[id] < clock
      ensures r >= 0 || r == ENOMEM || r == ELOOP
      ensures Descending(g0, rank, old(idMap[..]), id) ==> r != ELOOP
      decreases Unprocessed(idMap[..]), 0
    {
      hide RewrittenFrom, RefEntries, Alike, Descending, DescendingTo, Acyclic, Sound, Filed, Faithful, CanonicalRefs, FinishedAfter;
      ghost var g, m, fin := types[..], idMap[..], finish;
      if idMap[id] == IN_PROGRESS {
        OnlyRefsInProgress(strict, g0, g, m, table, fin, clock, id);
        LoopHasNoOrder(g0, rank, m, id);
        return ELOOP;
      }
      if idMap[id] <= MAX_NR_TYPES {
        RefResolved(strict, g0, g, m, table, fin, clock, id);
        var root := ResolveTypeId(id);
        return root;
      }
      OnlyRefsInProgress(strict, g0, g, m, table, fin, clock, id);
      RefMark(strict, g0, g, m, table, fin, clock, id);
      DescendMark(g0, rank, m, id);
      SetMap(id, IN_PROGRESS);
      MarkShrinks(m, id, idMap[..]);

      var err := RewriteRefs(id, rank);
      if err != 0 { return err; }
      OnlyRefsInProgress(strict, g0, types[..], idMap[..], table, finish, clock, id);
      var newId := Settle(id);
      return newId;
    }

    /** Replaces each reference of the type in progress by its canonical type, in place. */
    method RewriteRefs(id: nat, ghost rank: seq<nat>) returns (err: int)
      requires Rewriting() && id < |g0| && idMap[id] == IN_PROGRESS && types[..][id] == g0[id] && IsRefKind(KindOf(g0[id]))
      modifies types, idMap, this`table, this`finish, this`clock
      ensures Rewriting() && clock >= old(clock)
      ensures UntouchedBut(old(types[..]), old(idMap[..]), old(finish), types[..], idMap[..], finish, id)
      ensures idMap[id] == IN_PROGRESS
      ensures err == 0 ==> NoNewMarks(old(idMap[..]), idMap[..])
      ensures err == 0 ==> CanonicalRefs(idMap[..], types[..][id]) && FinishedAfter(g0, idMap[..], finish, id, clock)
      ensures err == 0 || err == ENOMEM || err == ELOOP
      ensures DescendingTo(g0, rank, old(idMap[..]), id) ==> err != ELOOP
      decreases Unprocessed(idMap[..]), 2
    {
      hide RewrittenFrom, RefEntries, Alike, Descending, DescendingTo, RefsDone, WellFormed, Acyclic, Sound, Filed, Faithful, SameRoots;
      ghost var g, m, fin := types[..], idMap[..], finish;
      var n := |Refs(types[..][id])|;
      RefsDoneStart(g0, g, m, fin, clock, id);
      for k := 0 to n
        invariant Rewriting() && clock >= old(clock)
        invariant idMap[id] == IN_PROGRESS && |Refs(types[..][id])| == n
        invariant UntouchedBut(g, m, fin, types[..], idMap[..], finish, id)
        invariant NoNewMarks(m, idMap[..])
        invariant RefsDone(g0, types[..], idMap[..], finish, clock, id, k)
      {
        ghost var g1, m1, fin1 := types[..], idMap[..], finish;
        UntouchedShrinks(g, m, fin, g1, m1, fin1, id);
        err := RewriteRef(id, k, rank);
        UntouchedButChain(g, m, fin, g1, m1, fin1, types[..], idMap[..], finish, id);
        DescendingStays(g0, rank, m, m1, id);
        if err != 0 { return; }
      }
      RefsDoneAll(g0, types[..], idMap[..], finish, clock, id);
      return 0;
    }

    method RewriteRef(id: nat, k: nat, ghost rank: seq<nat>) returns (err: int)
      requires Rewriting() && id < |g0| && idMap[id] == IN_PROGRESS && IsRefKind(KindOf(g0[id]))
      requires k < |Refs(types[..][id])| && RefsDone(g0, types[..], idMap[..], finish, clock, id, k)
      modifies types, idMap, this`table, this`finish, this`clock
      ensures Rewriting() && clock >= old(clock)
      ensures UntouchedBut(old(types[..]), old(idMap[..]), old(finish), types[..], idMap[..], finish, id)
      ensures idMap[id] == IN_PROGRESS && |Refs(types[..][id])| == |Refs(old(types[..])[id])|
      ensures err == 0 ==> NoNewMarks(old(idMap[..]), idMap[..]) && RefsDone(g0, types[..], idMap[..], finish, clock, id, k + 1)
      ensures err == 0 || err == ENOMEM || err == ELOOP
      ensures DescendingTo(g0, rank, old(idMap[..]), id) ==> err != ELOOP
      decreases Unprocessed(idMap[..]), 1
    {
      hide RewrittenFrom, RefEntries, Alike, Descending, DescendingTo, RefsDone, WellFormed, Acyclic, Sound, Filed, Faithful, SameRoots;
      ghost var g1, m1, fin1, clock1 := types[..], idMap[..], finish, clock;
      RefsPending(g0, g1, m1, fin1, clock1, id, k);
      DescendAll(g0, rank, m1, m1, id, k);
      var r := DedupRefType(Refs(types[..][id])[k], rank);
      ghost var g2, m2, fin2 := types[..], idMap[..], finish;
      assert g2[id] == g1[id];
      if r < 0 { return r; }
      RefRewrite(strict, g0, g2, m2, table, fin2, clock, id, k, r);
      RefsDoneStep(g0, g1, m1, fin1, clock1, g2, m2, fin2, clock, id, k, r);
      SetReference(id, k, r);
      return 0;
    }

    method HashRef(t: BtfType) returns (h: nat)
      requires WellFormed(t) && IsRefKind(KindOf(t))
      ensures h == ExactHash(t)
    {
      match KindOf(t) {
        case Array => h := ArrayHash(t);
        case FuncProto => h := HashFnproto(t);
        case _ => h := CommonHash(t);
      }
    }

    /** Looks the rewritten type up among the candidates and ends its turn. */
    method Settle(id: nat) returns (r: int)
      requires Rewriting() && id < |g0| && idMap[id] == IN_PROGRESS && IsRefKind(KindOf(types[..][id]))
      requires CanonicalRefs(idMap[..], types[..][id]) && FinishedAfter(g0, idMap[..], finish, id, clock)
      modifies idMap, this`table, this`finish, this`clock
      ensures Rewriting() && clock >= old(clock)
      ensures UntouchedBut(types[..], old(idMap[..]), old(finish), types[..], idMap[..], finish, id)
      ensures r >= 0 ==> r < |g0| && idMap[r] == r == Root(idMap[..], id) && Alike(strict, g0, id, r)
      ensures r >= 0 ==> NoNewMarks(old(idMap[..]), idMap[..]) && Mapped(idMap[..], id) && finish[id] < clock
      ensures r >= 0 || r == ENOMEM
    {
      hide RewrittenFrom, RefEntries, Alike, Acyclic, Sound, Filed, Faithful, CanonicalRefs, FinishedAfter, WellFormed, ExactHash;
      var h := HashRef(types[..][id]);
      var newId := FindEqual(id, h);
      ghost var g, m, tb, fin := types[..], idMap[..], table, finish;
      if newId != id { CandidateIsType(g, m, tb, h, newId); }
      RefFinish(strict, g0, g, m, tb, fin, clock, id, newId);
      var oom: bool := *;
      if id == newId && oom {
        return ENOMEM;
      }
      SetMap(id, newId);
      finish := finish[id := clock];
      clock := clock + 1;
      if id == newId {
        table := table + [(h, id)];
      }
      return newId;
    }

    method DedupRefTypes(ghost rank: seq<nat>) returns (err: int)
      requires Rewriting() && forall j: nat :: j < idMap.Length ==> idMap[j] != IN_PROGRESS
      modifies types, idMap, this`table, this`finish, this`clock
      ensures Rewriting()
      ensures err == 0 ==> AllMapped(idMap[..]) && RefOrder(g0, finish)
      ensures err == 0 || err == ENOMEM || err == ELOOP
      ensures RefOrder(g0, rank) ==> err != ELOOP
    {
      hide RewrittenFrom, RefEntries, Alike, Acyclic, Sound, Filed, Faithful, RefOrder;
      for i := 1 to types.Length
        invariant Rewriting()
        invariant forall j: nat :: j < |idMap[..]| ==> idMap[..][j] != IN_PROGRESS
        invariant forall j: nat :: j < i ==> Mapped(idMap[..], j)
      {
        ghost var m := idMap[..];
        err := DedupRefType(i, rank);
        if err < 0 { return err; }
        forall j: nat | j < i ensures Mapped(idMap[..], j) {
          assert Mapped(m, j);
        }
      }
      FinishOrder(strict, g0, types[..], idMap[..], table, finish, clock);
      return 0;
    }

    // Compaction and remapping -------------------------------------------------------------

    /** Moves the canonical records down over the duplicates; hypotMap becomes the renumbering. */
    method CompactTypes() returns (err: int)
      requires Separate() && |g0| > 0 && InRange(idMap[..]) && types[0] == VOID
      requires nrTypes == |g0| - 1 && forall i: nat :: 0 < i < |g0| ==> KindOf(types[i]) != Unkn
      modifies types, hypotMap, this`nrTypes
      ensures err == 0 || err == ENOMEM
      ensures err == 0 ==> Compacted(old(types[..]), idMap[..], types[..], hypotMap[..], nrTypes)
    {
      hide CompactedTo, Compacted, CanonBelow;
      ghost var g, m := types[..], idMap[..];
      var n := nrTypes;
      hypotMap[0] := 0;
      for i := 1 to n + 1
        invariant types[..] == g && hypotMap[0] == 0
        invariant forall j :: 1 <= j < i ==> hypotMap[j] == UNPROCESSED
      {
        hypotMap[i] := UNPROCESSED;
      }
      var nextTypeId := 1;
      CompactionStarts(g, m, types[..], hypotMap[..]);
      for i := 1 to n + 1
        invariant i <= |m| == types.Length == n + 1
        invariant 1 <= nextTypeId == CanonBelow(m, i) + 1 <= i
        invariant CompactedTo(g, m, i, types[..], hypotMap[..])
      {
        ghost var mem, renum := types[..], hypotMap[..];
        CompactionStep(g, m, i, mem, renum);
        if idMap[i] == i {
          if KindOf(types[i]) == Unkn { return EINVAL; }
          types[nextTypeId] := types[i];
          hypotMap[i] := nextTypeId;
          assert types[..] == mem[nextTypeId := mem[i]] && hypotMap[..] == renum[i := nextTypeId];
          nextTypeId := nextTypeId + 1;
        }
      }
      CompactionDone(g, m, types[..], hypotMap[..]);
      nrTypes := nextTypeId - 1;
      var oom: bool := *;
      return if oom then ENOMEM else 0;
    }

    method RemapTypeId(typeId: nat) returns (r: int)
      requires Separate() && typeId < |g0| && InRange(idMap[..]) && Acyclic(idMap[..]) && AllMapped(idMap[..])
      requires IsRenumbering(idMap[..], hypotMap[..])
      ensures r == Final(idMap[..], typeId)
    {
      hide Acyclic, AllMapped;
      RootCanonical(idMap[..], typeId);
      var resolved := ResolveTypeId(typeId);
      var newTypeId := hypotMap[..][resolved];
      if newTypeId > MAX_NR_TYPES { return EINVAL; }
      return newTypeId;
    }

    method RemapType(id: nat) returns (err: int)
      requires Separate() && id < |g0| && InRange(idMap[..]) && Acyclic(idMap[..]) && AllMapped(idMap[..])
      requires IsRenumbering(idMap[..], hypotMap[..])
      requires KindOf(types[id]) != Unkn && forall k :: 0 <= k < |Refs(types[id])| ==> Refs(types[id])[k] < |g0|
      modifies types
      ensures err == 0
      ensures RecordRebuilt(idMap[..], old(types[id]), types[id])
      ensures FieldsRenamed(old(types[id]), types[id], FinalIds(idMap[..]))
      ensures types[..] == old(types[..])[id := types[id]]
    {
      hide Acyclic, AllMapped, Shape, PartlyRebuilt, IsRenumbering, Final, FieldsRenamed, FinalIds;
      if KindOf(types[id]) == Unkn { return EINVAL; }
      ghost var m, t := idMap[..], types[id];
      var n := |Refs(types[id])|;
      RebuildStart(m, t);
      for k := 0 to n
        invariant |Refs(types[id])| == n && PartlyRebuilt(m, t, types[id], k)
        invariant types[..] == old(types[..])[id := types[id]]
      {
        RebuildPending(m, t, types[id], k);
        var r := RemapTypeId(Refs(types[id])[k]);
        if r < 0 { return r; }
        RebuildStep(m, t, types[id], k, r);
        types[id] := SetRef(types[id], k, r);
      }
      RebuildEnd(m, t, types[id]);
      RebuiltFields(m, t, types[id]);
      return 0;
    }

    method RemapTypes(ghost g: seq<BtfType>) returns (err: int)
      requires Separate() && InRange(idMap[..]) && Acyclic(idMap[..]) && AllMapped(idMap[..])
      requires Closed(g) && |g| == |g0| && Compacted(g, idMap[..], types[..], hypotMap[..], nrTypes)
      requires forall i: nat :: 0 < i < |g| ==> KindOf(g[i]) != Unkn
      modifies types
      ensures err == 0
      ensures nrTypes < |g0| && Rebuilt(g, idMap[..], types[..nrTypes + 1])
    {
      hide Acyclic, AllMapped, Shape, RecordRebuilt, Compacted, CanonBelow, IsRenumbering;
      ghost var m, mem := idMap[..], types[..];
      CompactedRenumbers(g, m, mem, hypotMap[..], nrTypes);
      for i := 1 to nrTypes + 1
        invariant types[0] == VOID
        invariant forall b :: i <= b < types.Length ==> types[b] == mem[b]
        invariant forall b: nat :: 0 < b < i ==> RecordRebuilt(m, mem[b], types[b])
      {
        CompactedAt(g, m, mem, hypotMap[..], nrTypes, i);
        err := RemapType(i);
        if err < 0 { return; }
      }
      CompactedRebuilt(g, m, mem, hypotMap[..], nrTypes, types[..nrTypes + 1]);
      return 0;
    }

    /** The three passes that decide which types are canonical. */
    method DedupTypes(ghost rank: seq<nat>) returns (err: int)
      requires Separate() && WellFormedGraph(g0) && types[..] == g0
      requires StartingMaps(g0, idMap[..], hypotMap[..]) && hypotList == [] && table == []
      modifies types, idMap, hypotMap, this`hypotList, this`table, this`finish, this`clock
      ensures InRange(idMap[..]) && Acyclic(idMap[..])
      ensures err == 0 ==> Rewriting() && AllMapped(idMap[..]) && RefOrder(g0, finish)
      ensures RefOrder(g0, rank) ==> err != ELOOP
      ensures err == 0 || err == ENOMEM || err == EINVAL || err == ELOOP
      ensures PlainGraph(g0) ==> err != EINVAL
    {
      hide Acyclic, Sound, Filed, Faithful, PrimEntries, StructEntries, RewrittenFrom, RefEntries, SameRoots, Listed, RefOrder, AllMapped, HopsStayMapped;
      StartIsPrimPhase(strict, g0, idMap[..], hypotMap[..]);
      err := DedupPrimTypes();
      if err < 0 { return; }
      StructStart(strict, g0, idMap[..], table);
      err := DedupStructTypes();
      if err < 0 { return; }
      finish := seq(|g0|, _ => 0);
      clock := 0;
      RefStart(strict, g0, idMap[..], table, finish);
      err := DedupRefTypes(rank);
    }

    /** Deduplicates the graph in place; what comes out is described by `Deduplicated`. It fails with
        -ELOOP exactly when some type cycle consists of reference types only, so that these cannot be
        ordered, unless it fails earlier. */
    method Run() returns (err: int, ghost finalIds: seq<nat>)
      requires Separate() && WellFormedGraph(g0) && types[..] == g0 && nrTypes == |g0| - 1
      requires StartingMaps(g0, idMap[..], hypotMap[..]) && hypotList == [] && table == []
      modifies this, types, idMap, hypotMap
      ensures err == 0 ==> nrTypes < types.Length && Deduplicated(strict, g0, types[..nrTypes + 1], finalIds)
      ensures err == 0 ==> RefOrder(g0, finish)
      ensures err == ELOOP ==> forall rank :: !RefOrder(g0, rank)
      ensures InRange(idMap[..]) && Acyclic(idMap[..])
      ensures err == 0 || err == ENOMEM || err == EINVAL || err == ELOOP
      ensures PlainGraph(g0) ==> err != EINVAL
    {
      hide Acyclic, Sound, Filed, Faithful, RewrittenFrom, RefEntries, SameRoots, Rebuilt, Compacted, Shape, WellFormed, Deduplicated, RefOrder, AllMapped, StartingMaps;
      finalIds := [];
      ghost var rank: seq<nat> :| (exists r :: RefOrder(g0, r)) ==> RefOrder(g0, rank);
      err := DedupTypes(rank);
      if err < 0 { return; }
      ghost var g, m := types[..], idMap[..];
      KindsKnown(strict, g0, g, m, table, finish, clock);
      err := CompactTypes();
      if err < 0 { return; }
      err := RemapTypes(g);
      RebuiltIsDeduplicated(strict, g0, g, m, table, finish, clock, types[..nrTypes + 1]);
      finalIds := FinalIds(m);
    }
  }
}
