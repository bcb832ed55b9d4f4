/** The relocation spec of the loader, filled in place by parsing an access path and by matching
    the accessors of a local path against a target type. */
module CoreMatch {
  import opened Errors
  import opened Options
  import opened Seqs
  import opened Words
  import opened BtfGraph
  import opened CoreSpec
  import opened CoreSearch
  import opened CoreText

  // ---- The local accessors to be matched

  /** A named accessor says what its type says. */
  ghost predicate NamesMember(b: Btf, a: Accessor) {
    a.name.Some? ==>
      a.name.value != "" && a.typeId < |b.types| && Composite(b.types[a.typeId]) && a.idx < |b.types[a.typeId].body.ms| &&
      b.nameAt(b.types[a.typeId].body.ms[a.idx].nameOff) == a.name.value
  }

  ghost predicate IsPath(b: Btf, accs: seq<Accessor>) {
    accs != [] && accs[0].name.None? && forall j :: 0 <= j < |accs| ==> NamesMember(b, accs[j])
  }

  /** Each index adds at most one such accessor. */
  lemma StepIsPath(b: Btf, id: nat, accs: seq<Accessor>, off: nat, idx: nat)
    requires Valid(b) && id < |b.types| && IsPath(b, accs) && Step(b, id, accs, off, idx).At?
    ensures IsPath(b, Step(b, id, accs, off, idx).accs) && |Step(b, id, accs, off, idx).accs| <= |accs| + 1
  {
    hide Valid, WellFormedGraph;
  }

  /** What parsing produces are such accessors. */
  lemma {:induction false} AlongIsPath(b: Btf, id: nat, raw: seq<nat>)
    requires Valid(b) && id < |b.types| && raw != [] && Along(b, id, raw).At?
    ensures IsPath(b, Along(b, id, raw).accs) && |Along(b, id, raw).accs| <= |raw|
  {
    hide Valid, WellFormedGraph, Step;
    if |raw| > 1 {
      var n := |raw| - 1;
      AlongIsPath(b, id, raw[..n]);
      var w := Along(b, id, raw[..n]);
      StepIsPath(b, w.id, w.accs, w.off, raw[n]);
    }
  }

  /** Same names, and same indices where there is no name. */
  predicate Matching(a: Accessor, c: Accessor) {
    a.name == c.name && (a.name.None? ==> a.idx == c.idx)
  }

  predicate AllMatching(s: seq<Accessor>, t: seq<Accessor>) {
    |s| == |t| && forall j :: 0 <= j < |s| ==> Matching(s[j], t[j])
  }

  lemma NothingToMatch(s: seq<Accessor>, t: seq<Accessor>)
    requires s == [] && t == []
    ensures AllMatching(s, t)
  {
  }

  lemma MatchingGrows(local: seq<Accessor>, i: nat, before: seq<Accessor>, after: seq<Accessor>)
    requires i < |local| && AllMatching(local[..i], before) && |after| == i + 1 && after[..i] == before && Matching(local[i], after[i])
    ensures AllMatching(local[..i + 1], after)
  {
    forall j | 0 <= j < i ensures Matching(local[..i + 1][j], after[j]) { assert Matching(local[..i][j], before[j]); }
  }

  /** Whether a target member may stand for the local field of an accessor: the compatibility test
      on their types, 1 for yes. */
  ghost function Fits(l: Btf, a: Accessor, compat: (nat, nat) -> int): nat -> int
    requires NamesMember(l, a) && a.name.Some?
  {
    (x: nat) => compat(l.types[a.typeId].body.ms[a.idx].typ, x)
  }

  /** The accessors from number i on can be followed from the target type, in some way. */
  ghost predicate Followed(l: Btf, local: seq<Accessor>, compat: (nat, nat) -> int, b: Btf, id: nat, i: nat)
    requires Valid(b) && id < |b.types| && IsPath(l, local)
    decreases |local| - i
  {
    i >= |local| ||
    if local[i].name.Some? then
      exists q :: Spells(b, id, q, local[i].name.value) && Followed(l, local, compat, b, PlaceOf(b, id, q, local[i].name.value).typ, i + 1) &&
        Fits(l, local[i], compat)(PlaceOf(b, id, q, local[i].name.value).typ) == 1
    else if i == 0 then Followed(l, local, compat, b, Bare(b, id), 1)
    else
      var t := Bare(b, id);
      KindOf(b.types[t]) == Array &&
      (ElemTypeInRange(b, t);
       local[i].idx < b.types[t].body.nelems && Followed(l, local, compat, b, Bare(b, b.types[t].body.elem), i + 1))
  }

  /** The size of every type is known and fits an int, and the compatibility test never fails. */
  ghost predicate Answering(b: Btf, compat: (nat, nat) -> int) {
    (forall id :: 0 <= b.sizeOf(id) < 0x8000_0000) && forall x: nat, y: nat :: compat(x, y) >= 0
  }

  /** No composite has two members of one name, counting those of its unnamed members. */
  ghost predicate FlatNamesUnique(b: Btf)
    requires Valid(b)
  {
    forall id: nat, p, q, name :: id < |b.types| && name != "" && Spells(b, id, p, name) && Spells(b, id, q, name) ==> p == q
  }

  /** The first member of the name that the search meets is not one that it rejects. */
  ghost predicate FirstFits(b: Btf, id: nat, name: string, fits: nat -> int, depth: nat)
    requires Valid(b) && id < |b.types| && depth <= MAX_SPEC_LEN && name != ""
  {
    FindIsFirst(b, id, name, depth);
    var f := Find(b, id, name, depth);
    f.Here? ==> fits(PlaceOf(b, id, f.path, name).typ) != 0
  }

  /** ... at every level of a match. */
  ghost predicate AllFirstFit(l: Btf, local: seq<Accessor>, compat: (nat, nat) -> int, b: Btf, id: nat, i: nat, depth: nat)
    requires Valid(b) && id < |b.types| && IsPath(l, local)
    decreases |local| - i
  {
    i >= |local| ||
    if local[i].name.Some? then
      depth <= MAX_SPEC_LEN && FirstFits(b, id, local[i].name.value, Fits(l, local[i], compat), depth) &&
      var f := Find(b, id, local[i].name.value, depth);
      f.Here? ==>
        (FindIsFirst(b, id, local[i].name.value, depth);
         AllFirstFit(l, local, compat, b, PlaceOf(b, id, f.path, local[i].name.value).typ, i + 1, depth + |f.path|))
    else if i == 0 then AllFirstFit(l, local, compat, b, Bare(b, id), 1, depth + 1)
    else
      var t := Bare(b, id);
      KindOf(b.types[t]) == Array ==>
        (ElemTypeInRange(b, t);
         AllFirstFit(l, local, compat, b, Bare(b, b.types[t].body.elem), i + 1, depth + 1))
  }

  // ---- The way of a match

  /** Where the way q for accessor number n leads from a type, if it leads anywhere: through unnamed
      members to a member of the right name that fits, or to an element of an array. */
  ghost function OneWay(l: Btf, local: seq<Accessor>, compat: (nat, nat) -> int, b: Btf, id: nat, n: nat, q: seq<nat>): (end: Option<nat>)
    requires Valid(b) && id < |b.types| && IsPath(l, local) && n < |local|
    ensures end.Some? ==> end.value < |b.types|
  {
    var a := local[n];
    if a.name.Some? then
      if Spells(b, id, q, a.name.value) && Fits(l, a, compat)(PlaceOf(b, id, q, a.name.value).typ) == 1
      then Some(PlaceOf(b, id, q, a.name.value).typ) else None
    else if q != [a.idx] then None
    else if n == 0 then Some(Bare(b, id))
    else
      var t := Bare(b, id);
      if KindOf(b.types[t]) != Array then None
      else
        ElemTypeInRange(b, t);
        if a.idx < b.types[t].body.nelems then Some(Bare(b, b.types[t].body.elem)) else None
  }

  /** Where the ways for the first accessors lead, one after the other. */
  ghost function EndOf(l: Btf, local: seq<Accessor>, compat: (nat, nat) -> int, b: Btf, id: nat, ways: seq<seq<nat>>): (end: Option<nat>)
    requires Valid(b) && id < |b.types| && IsPath(l, local) && |ways| <= |local|
    ensures end.Some? ==> end.value < |b.types|
  {
    if ways == [] then Some(id)
    else
      var n := |ways| - 1;
      match EndOf(l, local, compat, b, id, ways[..n])
      case None => None
      case Some(c) => OneWay(l, local, compat, b, c, n, ways[n])
  }

  lemma OneWayBare(l: Btf, local: seq<Accessor>, compat: (nat, nat) -> int, b: Btf, c: nat, c': nat, n: nat, q: seq<nat>)
    requires Valid(b) && c < |b.types| && c' < |b.types| && IsPath(l, local) && n < |local| && Bare(b, c) == Bare(b, c')
    ensures OneWay(l, local, compat, b, c, n, q) == OneWay(l, local, compat, b, c', n, q)
  {
    hide Valid, WellFormedGraph, Spells, PlaceOf, Bare;
    if local[n].name.Some? {
      SpellsBare(b, c, q, local[n].name.value);
      SpellsBare(b, c', q, local[n].name.value);
    }
  }

  /** One more way. */
  lemma EndOfSnoc(l: Btf, local: seq<Accessor>, compat: (nat, nat) -> int, b: Btf, id: nat, ways: seq<seq<nat>>, cur: nat, q: seq<nat>)
    requires Valid(b) && id < |b.types| && cur < |b.types| && IsPath(l, local) && |ways| < |local|
    requires var e := EndOf(l, local, compat, b, id, ways); e.Some? && Bare(b, e.value) == Bare(b, cur)
    ensures EndOf(l, local, compat, b, id, ways + [q]) == OneWay(l, local, compat, b, cur, |ways|, q)
  {
    hide Valid, WellFormedGraph, OneWay, Bare;
    var e := EndOf(l, local, compat, b, id, ways).value;
    assert (ways + [q])[..|ways|] == ways && (ways + [q])[..|ways| + 1] == ways + [q];
    OneWayBare(l, local, compat, b, e, cur, |ways|, q);
  }

  /** Parsing the path leads to this type, by these accessors. */
  ghost predicate Names(b: Btf, root: nat, trail: seq<nat>, accs: seq<Accessor>, cur: nat)
    requires Valid(b) && root < |b.types| && cur < |b.types|
  {
    trail != [] && (var w := Along(b, root, trail); w.At? && w.accs == accs && Bare(b, w.id) == Bare(b, cur))
  }

  lemma NamesMore(b: Btf, root: nat, trail: seq<nat>, accs: seq<Accessor>, cur: nat, q: seq<nat>, name: string)
    requires Valid(b) && root < |b.types| && cur < |b.types| && name != "" && ProperNames(b)
    requires Names(b, root, trail, accs, cur) && Spells(b, cur, q, name)
    ensures var p := PlaceOf(b, cur, q, name); Names(b, root, trail + q, accs + [Accessor(p.whole, q[|q| - 1], Some(name))], p.typ)
  {
    hide Valid, WellFormedGraph, Spells, PlaceOf, Along, Bare;
    var w := Along(b, root, trail);
    SpellsBare(b, cur, q, name);
    SpellsBare(b, w.id, q, name);
    AlongSpelled(b, root, trail, q, name);
  }

  lemma NamesElem(b: Btf, root: nat, trail: seq<nat>, accs: seq<Accessor>, cur: nat, idx: nat)
    requires Valid(b) && root < |b.types| && cur < |b.types| && Names(b, root, trail, accs, cur)
    requires var a := b.types[Bare(b, cur)]; KindOf(a) == Array && a.body.ArrayBody? && a.body.elem < |b.types| && idx < a.body.nelems
    ensures
      var e := Bare(b, b.types[Bare(b, cur)].body.elem);
      b.sizeOf(e) >= 0 ==> Names(b, root, trail + [idx], accs + [Accessor(e, idx, None)], e)
  {
    hide Valid, WellFormedGraph;
    BareTwice(b, b.types[Bare(b, cur)].body.elem);
    AlongOne(b, root, trail, idx);
  }

  // ---- One level of the match

  /** The path leads to this type, with these accessors and this offset. */
  ghost predicate Follows(b: Btf, root: nat, d: Draft, cur: nat)
    requires Valid(b) && root < |b.types| && cur < |b.types|
  {
    Names(b, root, d.raw, d.accs, cur) && Along(b, root, d.raw).off == d.off
  }

  /** The search has met the member at q, which fits, and has recorded it; the path has grown by q
      alone exactly if the first member of the name was not rejected. */
  ghost predicate WayFound(b: Btf, root: nat, id: nat, name: string, fits: nat -> int, d: Draft, o: Outcome, q: seq<nat>)
    requires Valid(b) && root < |b.types| && id < |b.types| && name != "" && |d.raw| <= MAX_SPEC_LEN
  {
    Spells(b, id, q, name) && o.next == PlaceOf(b, id, q, name).typ && fits(o.next) == 1 && o.draft.off < WORD32 &&
    o.draft.accs == d.accs + [Accessor(PlaceOf(b, id, q, name).whole, q[|q| - 1], Some(name))] &&
    |o.draft.raw| >= |d.raw| + |q| &&
    (FirstFits(b, id, name, fits, |d.raw|) <==> |o.draft.raw| == |d.raw| + |q|) &&
    (FirstFits(b, id, name, fits, |d.raw|) ==> Find(b, id, name, |d.raw|) == Here(q) && o.draft.raw == d.raw + q) &&
    (FlatNamesUnique(b) ==> FirstFits(b, id, name, fits, |d.raw|)) &&
    (ProperNames(b) && Follows(b, root, d, id) && FirstFits(b, id, name, fits, |d.raw|) ==> Follows(b, root, o.draft, o.next))
  }

  /** A successful search has found a way. */
  lemma MemberFound(b: Btf, root: nat, id: nat, name: string, fits: nat -> int, d: Draft, next: nat) returns (q: seq<nat>)
    requires Valid(b) && root < |b.types| && id < |b.types| && name != "" && |d.raw| <= MAX_SPEC_LEN && d.off < WORD32
    requires (forall x :: fits(x) <= 1) && Search(b, name, fits, id, d, next).found == 1
    ensures WayFound(b, root, id, name, fits, d, Search(b, name, fits, id, d, next), q)
  {
    hide Valid, WellFormedGraph, Spells, PlaceOf, Along, Find, Search;
    SearchAgrees(b, name, fits, id, d, next);
    FindIsFirst(b, id, name, |d.raw|);
    var o := Search(b, name, fits, id, d, next);
    var f := Find(b, id, name, |d.raw|);
    if FirstFits(b, id, name, fits, |d.raw|) {
      q := f.path;
      if ProperNames(b) && Follows(b, root, d, id) {
        var w := Along(b, root, d.raw);
        SpellsBare(b, id, q, name);
        SpellsBare(b, w.id, q, name);
        AlongSpelled(b, root, d.raw, q, name);
      }
    } else {
      q :| LongHit(b, id, name, fits, d, o, q);
      assert q != f.path;
    }
  }

  /** When the search finds nothing and names are unique, nothing fits. */
  lemma MemberMissing(b: Btf, id: nat, name: string, fits: nat -> int, d: Draft, next: nat)
    requires Valid(b) && id < |b.types| && name != "" && |d.raw| <= MAX_SPEC_LEN && d.off < WORD32 && FlatNamesUnique(b)
    requires (forall x :: fits(x) <= 1) && Search(b, name, fits, id, d, next).found == 0
    ensures forall q :: Spells(b, id, q, name) ==> fits(PlaceOf(b, id, q, name).typ) == 0
  {
    hide Valid, WellFormedGraph, Spells, PlaceOf, Find, Search;
    SearchAgrees(b, name, fits, id, d, next);
    FindIsFirst(b, id, name, |d.raw|);
    var f := Find(b, id, name, |d.raw|);
    forall q | Spells(b, id, q, name) ensures fits(PlaceOf(b, id, q, name).typ) == 0 {
      assert q[0] >= 0 && f.Here? && q == f.path by { SpellsNonempty(b, id, q, name); }
    }
  }

  /** Following on from a type is following on from what its typedefs and qualifiers hide. */
  lemma FollowedBare(l: Btf, local: seq<Accessor>, compat: (nat, nat) -> int, b: Btf, id: nat, i: nat)
    requires Valid(b) && id < |b.types| && IsPath(l, local)
    ensures Followed(l, local, compat, b, Bare(b, id), i) <==> Followed(l, local, compat, b, id, i)
  {
    hide Valid, WellFormedGraph, Spells, PlaceOf;
    assert Bare(b, Bare(b, id)) == Bare(b, id) by { BareTwice(b, id); }
    if i < |local| && local[i].name.Some? {
      forall q | Spells(b, id, q, local[i].name.value) || Spells(b, Bare(b, id), q, local[i].name.value)
        ensures Spells(b, id, q, local[i].name.value) && Spells(b, Bare(b, id), q, local[i].name.value)
        ensures PlaceOf(b, id, q, local[i].name.value) == PlaceOf(b, Bare(b, id), q, local[i].name.value)
      {
        SpellsBare(b, id, q, local[i].name.value);
      }
    }
  }

  lemma BareTwice(b: Btf, id: nat)
    requires Valid(b) && id < |b.types|
    ensures Bare(b, Bare(b, id)) == Bare(b, id)
  {
  }

  lemma AllFirstFitBare(l: Btf, local: seq<Accessor>, compat: (nat, nat) -> int, b: Btf, id: nat, i: nat, depth: nat)
    requires Valid(b) && id < |b.types| && IsPath(l, local)
    ensures AllFirstFit(l, local, compat, b, Bare(b, id), i, depth) <==> AllFirstFit(l, local, compat, b, id, i, depth)
  {
    hide Valid, WellFormedGraph, Spells, PlaceOf;
    BareTwice(b, id);
    if i < |local| && local[i].name.Some? && depth <= MAX_SPEC_LEN {
      var name := local[i].name.value;
      FindIsFirst(b, id, name, depth);
      var f := Find(b, id, name, depth);
      if f.Here? { SpellsBare(b, id, f.path, name); }
    }
  }

  /** The path of the spec compared with the ways: it is never shorter, and it is as long exactly if
      nothing was rejected before and what is left can go on like that. */
  ghost predicate Clean(l: Btf, local: seq<Accessor>, compat: (nat, nat) -> int, b: Btf, id: nat, cur: nat, i: nat, raw: seq<nat>, trail: seq<nat>)
    requires Valid(b) && id < |b.types| && cur < |b.types| && IsPath(l, local)
  {
    |trail| <= |raw| && (|trail| == |raw| ==> raw == trail) && (FlatNamesUnique(b) ==> raw == trail) &&
    (AllFirstFit(l, local, compat, b, id, 0, 0) <==> |trail| == |raw| && AllFirstFit(l, local, compat, b, cur, i, |raw|))
  }

  /** The ways lead here and name the accessors; the path of the spec does so, with the right offset,
      if it is the same. */
  ghost predicate OnTheWay(l: Btf, local: seq<Accessor>, compat: (nat, nat) -> int, b: Btf, id: nat, cur: nat, d: Draft, ways: seq<seq<nat>>)
    requires Valid(b) && id < |b.types| && cur < |b.types| && IsPath(l, local) && |ways| <= |local|
  {
    (var e := EndOf(l, local, compat, b, id, ways); e.Some? && Bare(b, e.value) == Bare(b, cur)) &&
    (ProperNames(b) && ways != [] ==>
      Names(b, id, Flatten(ways), d.accs, cur) && (d.raw == Flatten(ways) ==> Follows(b, id, d, cur)))
  }

  /** The state of a match before accessor number i: what is left to be done from type cur. */
  ghost predicate Progress(l: Btf, local: seq<Accessor>, compat: (nat, nat) -> int, b: Btf, id: nat, cur: nat, i: nat, d: Draft, ways: seq<seq<nat>>)
    requires Valid(b) && id < |b.types| && cur < |b.types| && IsPath(l, local)
  {
    (Followed(l, local, compat, b, cur, i) ==> Followed(l, local, compat, b, id, 0)) &&
    (FlatNamesUnique(b) && Followed(l, local, compat, b, id, 0) ==> Followed(l, local, compat, b, cur, i)) &&
    |ways| == i <= |local| && Clean(l, local, compat, b, id, cur, i, d.raw, Flatten(ways)) && OnTheWay(l, local, compat, b, id, cur, d, ways) &&
    (i == 0 ==> d == Draft([], [], 0) && Bare(b, cur) == Bare(b, id))
  }

  lemma ProgressStart(l: Btf, local: seq<Accessor>, compat: (nat, nat) -> int, b: Btf, id: nat, d: Draft)
    requires Valid(b) && id < |b.types| && IsPath(l, local) && d == Draft([], [], 0)
    ensures Progress(l, local, compat, b, id, id, 0, d, [])
  {
    hide Followed, AllFirstFit;
  }

  /** The ways of a whole match: they fit the accessors one by one, parsing them names the accessors
      found, and the path of the spec is made of them exactly if nothing was rejected. */
  ghost predicate Matched(l: Btf, local: seq<Accessor>, compat: (nat, nat) -> int, b: Btf, id: nat, d: Draft, ways: seq<seq<nat>>)
    requires Valid(b) && id < |b.types| && IsPath(l, local)
  {
    |ways| == |local| && |Flatten(ways)| <= |d.raw| &&
    (d.raw == Flatten(ways) <==> AllFirstFit(l, local, compat, b, id, 0, 0)) &&
    (var e := EndOf(l, local, compat, b, id, ways);
     e.Some? && (ProperNames(b) ==> Names(b, id, Flatten(ways), d.accs, e.value) && (d.raw == Flatten(ways) ==> Follows(b, id, d, e.value))))
  }

  lemma ProgressEnd(l: Btf, local: seq<Accessor>, compat: (nat, nat) -> int, b: Btf, id: nat, cur: nat, d: Draft, ways: seq<seq<nat>>)
    requires Valid(b) && id < |b.types| && cur < |b.types| && IsPath(l, local) && Progress(l, local, compat, b, id, cur, |local|, d, ways)
    ensures Followed(l, local, compat, b, id, 0)
    ensures FlatNamesUnique(b) ==> AllFirstFit(l, local, compat, b, id, 0, 0)
    ensures Matched(l, local, compat, b, id, d, ways)
  {
    hide Valid, WellFormedGraph, EndOf, Flatten, FlatNamesUnique, ProperNames, Bare, Along;
  }

  lemma ProgressBare(l: Btf, local: seq<Accessor>, compat: (nat, nat) -> int, b: Btf, id: nat, cur: nat, i: nat, d: Draft, ways: seq<seq<nat>>)
    requires Valid(b) && id < |b.types| && cur < |b.types| && IsPath(l, local) && Progress(l, local, compat, b, id, cur, i, d, ways)
    ensures Progress(l, local, compat, b, id, Bare(b, cur), i, d, ways)
  {
    hide Valid, WellFormedGraph, Followed, AllFirstFit, EndOf, Flatten, Along;
    BareTwice(b, cur);
    FollowedBare(l, local, compat, b, cur, i);
    AllFirstFitBare(l, local, compat, b, cur, i, |d.raw|);
  }

  lemma ProgressMember(l: Btf, local: seq<Accessor>, compat: (nat, nat) -> int, b: Btf, id: nat, cur: nat, i: nat, d: Draft, next: nat, ways: seq<seq<nat>>)
    returns (q: seq<nat>)
    requires Valid(b) && id < |b.types| && cur < |b.types| && IsPath(l, local) && forall x: nat, y: nat :: compat(x, y) <= 1
    requires i < |local| && local[i].name.Some? && |d.raw| <= MAX_SPEC_LEN && d.off < WORD32
    requires Progress(l, local, compat, b, id, cur, i, d, ways)
    ensures
      var o := Search(b, local[i].name.value, Fits(l, local[i], compat), cur, d, next);
      o.found <= 1 &&
      (o.found == 1 ==>
        o.next < |b.types| && Progress(l, local, compat, b, id, o.next, i + 1, o.draft, ways + [q]) &&
        |o.draft.accs| == |d.accs| + 1 && o.draft.accs[..|d.accs|] == d.accs && o.draft.accs[|d.accs|].name == local[i].name) &&
      (o.found == 0 && FlatNamesUnique(b) ==> !Followed(l, local, compat, b, id, 0))
  {
    hide Valid, WellFormedGraph, Spells, PlaceOf, Find, Search, FlatNamesUnique, ProperNames, Clean, OnTheWay, EndOf, Flatten;
    var name, fits := local[i].name.value, Fits(l, local[i], compat);
    var o := Search(b, name, fits, cur, d, next);
    SearchAgrees(b, name, fits, cur, d, next);
    q := [];
    if o.found == 1 {
      q := MemberFound(b, id, cur, name, fits, d, next);
      if FlatNamesUnique(b) && Followed(l, local, compat, b, cur, i) {
        var p :| Spells(b, cur, p, name) && Followed(l, local, compat, b, PlaceOf(b, cur, p, name).typ, i + 1) && fits(PlaceOf(b, cur, p, name).typ) == 1;
        assert p == q by { UniquePath(b, cur, p, q, name); }
      }
      StaysClean(l, local, compat, b, id, cur, i, d, o, ways, q);
      FlattenAppend(ways, q);
      StaysOnTheWay(l, local, compat, b, id, cur, i, d, o, ways, q);
    } else if o.found == 0 && FlatNamesUnique(b) {
      MemberMissing(b, cur, name, fits, d, next);
    }
  }

  lemma FlattenAppend(ways: seq<seq<nat>>, q: seq<nat>)
    ensures Flatten(ways + [q]) == Flatten(ways) + q
  {
    FlattenSnoc(ways + [q], |ways|);
    assert (ways + [q])[..|ways|] == ways && (ways + [q])[..|ways| + 1] == ways + [q];
  }

  lemma StaysClean(l: Btf, local: seq<Accessor>, compat: (nat, nat) -> int, b: Btf, id: nat, cur: nat, i: nat, d: Draft, o: Outcome, ways: seq<seq<nat>>, q: seq<nat>)
    requires Valid(b) && id < |b.types| && cur < |b.types| && IsPath(l, local) && |d.raw| <= MAX_SPEC_LEN
    requires i < |local| && local[i].name.Some? && WayFound(b, id, cur, local[i].name.value, Fits(l, local[i], compat), d, o, q)
    requires Clean(l, local, compat, b, id, cur, i, d.raw, Flatten(ways))
    ensures Clean(l, local, compat, b, id, o.next, i + 1, o.draft.raw, Flatten(ways) + q)
  {
    hide Valid, WellFormedGraph, Spells, PlaceOf, Find, FlatNamesUnique, FirstFits, Flatten, Fits;
    MemberUnfolds(l, local, compat, b, cur, i, |d.raw|, q);
  }

  lemma MemberUnfolds(l: Btf, local: seq<Accessor>, compat: (nat, nat) -> int, b: Btf, cur: nat, i: nat, depth: nat, q: seq<nat>)
    requires Valid(b) && cur < |b.types| && IsPath(l, local) && i < |local| && local[i].name.Some? && depth <= MAX_SPEC_LEN
    requires Spells(b, cur, q, local[i].name.value)
    ensures !FirstFits(b, cur, local[i].name.value, Fits(l, local[i], compat), depth) ==> !AllFirstFit(l, local, compat, b, cur, i, depth)
    ensures FirstFits(b, cur, local[i].name.value, Fits(l, local[i], compat), depth) && Find(b, cur, local[i].name.value, depth) == Here(q) ==>
      (AllFirstFit(l, local, compat, b, cur, i, depth) <==> AllFirstFit(l, local, compat, b, PlaceOf(b, cur, q, local[i].name.value).typ, i + 1, depth + |q|))
  {
    hide Valid, WellFormedGraph, Spells, PlaceOf, Find, FirstFits, Fits;
  }

  lemma StaysOnTheWay(l: Btf, local: seq<Accessor>, compat: (nat, nat) -> int, b: Btf, id: nat, cur: nat, i: nat, d: Draft, o: Outcome, ways: seq<seq<nat>>, q: seq<nat>)
    requires Valid(b) && id < |b.types| && cur < |b.types| && IsPath(l, local) && |d.raw| <= MAX_SPEC_LEN
    requires i < |local| && local[i].name.Some? && WayFound(b, id, cur, local[i].name.value, Fits(l, local[i], compat), d, o, q)
    requires |ways| == i && OnTheWay(l, local, compat, b, id, cur, d, ways)
    requires Clean(l, local, compat, b, id, cur, i, d.raw, Flatten(ways))
    ensures o.next < |b.types| && OnTheWay(l, local, compat, b, id, o.next, o.draft, ways + [q])
  {
    hide Valid, WellFormedGraph, Spells, PlaceOf, Find, FlatNamesUnique, FirstFits, AllFirstFit, Flatten, Follows, Names, EndOf, ProperNames, Bare;
    EndOfSnoc(l, local, compat, b, id, ways, cur, q);
    FlattenAppend(ways, q);
    if ProperNames(b) { NamesMore(b, id, Flatten(ways), d.accs, cur, q, local[i].name.value); }
  }

  lemma UniquePath(b: Btf, id: nat, p: seq<nat>, q: seq<nat>, name: string)
    requires Valid(b) && id < |b.types| && FlatNamesUnique(b) && name != "" && Spells(b, id, p, name) && Spells(b, id, q, name)
    ensures p == q
  {
  }

  lemma ProgressFirst(l: Btf, local: seq<Accessor>, compat: (nat, nat) -> int, b: Btf, id: nat, cur: nat)
    requires Valid(b) && id < |b.types| && cur < |b.types| && IsPath(l, local) && b.sizeOf(Bare(b, cur)) >= 0
    requires Progress(l, local, compat, b, id, cur, 0, Draft([], [], 0), [])
    ensures
      var t, idx := Bare(b, cur), local[0].idx;
      Progress(l, local, compat, b, id, t, 1, Draft([idx], [Accessor(t, idx, None)], U32(idx * b.sizeOf(t) * 8)), [[idx]])
  {
    hide Valid, WellFormedGraph, FirstFits, FlatNamesUnique, ProperNames;
    BareTwice(b, cur);
    FollowedBare(l, local, compat, b, cur, 1);
    AllFirstFitBare(l, local, compat, b, cur, 1, 1);
    FlattenAppend([], [local[0].idx]);
    assert [] + [[local[0].idx]] == [[local[0].idx]];
  }

  lemma ProgressElem(l: Btf, local: seq<Accessor>, compat: (nat, nat) -> int, b: Btf, id: nat, cur: nat, i: nat, d: Draft, ways: seq<seq<nat>>)
    requires Valid(b) && id < |b.types| && cur < |b.types| && IsPath(l, local) && 0 < i < |local| && local[i].name.None?
    requires Progress(l, local, compat, b, id, cur, i, d, ways)
    ensures
      var t, idx := Bare(b, cur), local[i].idx;
      if KindOf(b.types[t]) != Array || (ElemTypeInRange(b, t); idx >= b.types[t].body.nelems) then
        FlatNamesUnique(b) ==> !Followed(l, local, compat, b, id, 0)
      else
        var e := Bare(b, b.types[t].body.elem);
        b.sizeOf(e) >= 0 ==>
          Progress(l, local, compat, b, id, e, i + 1, Draft(d.raw + [idx], d.accs + [Accessor(e, idx, None)], U32(d.off + idx * b.sizeOf(e) * 8)), ways + [[idx]])
  {
    hide Valid, WellFormedGraph, FlatNamesUnique, ProperNames, Followed, AllFirstFit, OnTheWay, EndOf, Bare, Flatten;
    var t := Bare(b, cur);
    ElemUnfolds(l, local, compat, b, cur, i, |d.raw|);
    if KindOf(b.types[t]) == Array {
      ElemTypeInRange(b, t);
      if local[i].idx < b.types[t].body.nelems {
        FlattenAppend(ways, [local[i].idx]);
        ElemOnTheWay(l, local, compat, b, id, cur, i, d, ways);
      }
    }
  }

  lemma ElemOnTheWay(l: Btf, local: seq<Accessor>, compat: (nat, nat) -> int, b: Btf, id: nat, cur: nat, i: nat, d: Draft, ways: seq<seq<nat>>)
    requires Valid(b) && id < |b.types| && cur < |b.types| && IsPath(l, local) && |ways| == i && 0 < i < |local| && local[i].name.None?
    requires OnTheWay(l, local, compat, b, id, cur, d, ways)
    requires var a := b.types[Bare(b, cur)]; KindOf(a) == Array && a.body.ArrayBody? && a.body.elem < |b.types| && local[i].idx < a.body.nelems
    ensures
      var e, idx := Bare(b, b.types[Bare(b, cur)].body.elem), local[i].idx;
      b.sizeOf(e) >= 0 ==>
        OnTheWay(l, local, compat, b, id, e, Draft(d.raw + [idx], d.accs + [Accessor(e, idx, None)], U32(d.off + idx * b.sizeOf(e) * 8)), ways + [[idx]])
  {
    hide Valid, WellFormedGraph, ProperNames, Follows, Names, EndOf, Bare, Flatten;
    var idx := local[i].idx;
    EndOfSnoc(l, local, compat, b, id, ways, cur, [idx]);
    FlattenAppend(ways, [idx]);
    BareTwice(b, b.types[Bare(b, cur)].body.elem);
    if ProperNames(b) {
      NamesElem(b, id, Flatten(ways), d.accs, cur, idx);
      if d.raw == Flatten(ways) { FollowsElem(b, id, d, cur, idx); }
    }
    DropLast(d.raw, Flatten(ways), idx);
  }

  lemma DropLast(s: seq<nat>, t: seq<nat>, x: nat)
    ensures s + [x] == t + [x] ==> s == t
  {
    if s + [x] == t + [x] { assert s == (s + [x])[..|s|] && t == (t + [x])[..|t|]; }
  }

  lemma ElemUnfolds(l: Btf, local: seq<Accessor>, compat: (nat, nat) -> int, b: Btf, cur: nat, i: nat, depth: nat)
    requires Valid(b) && cur < |b.types| && IsPath(l, local) && 0 < i < |local| && local[i].name.None?
    ensures
      var t := Bare(b, cur);
      if KindOf(b.types[t]) == Array then
        ElemTypeInRange(b, t);
        var e := Bare(b, b.types[t].body.elem);
        (Followed(l, local, compat, b, cur, i) <==> local[i].idx < b.types[t].body.nelems && Followed(l, local, compat, b, e, i + 1)) &&
        (AllFirstFit(l, local, compat, b, cur, i, depth) <==> AllFirstFit(l, local, compat, b, e, i + 1, depth + 1))
      else !Followed(l, local, compat, b, cur, i) && AllFirstFit(l, local, compat, b, cur, i, depth)
  {
  }

  lemma FollowsElem(b: Btf, root: nat, d: Draft, cur: nat, idx: nat)
    requires Valid(b) && root < |b.types| && cur < |b.types| && Follows(b, root, d, cur)
    requires var a := b.types[Bare(b, cur)]; KindOf(a) == Array && a.body.ArrayBody? && a.body.elem < |b.types| && idx < a.body.nelems
    ensures
      var e := Bare(b, b.types[Bare(b, cur)].body.elem);
      b.sizeOf(e) >= 0 ==> Follows(b, root, Draft(d.raw + [idx], d.accs + [Accessor(e, idx, None)], U32(d.off + idx * b.sizeOf(e) * 8)), e)
  {
    hide Valid, WellFormedGraph;
    BareTwice(b, b.types[Bare(b, cur)].body.elem);
    AlongOne(b, root, d.raw, idx);
  }

  /** A search of members fails only on a full path, if the compatibility test does not. */
  lemma MemberErrors(l: Btf, a: Accessor, compat: (nat, nat) -> int, b: Btf, id: nat, d: Draft)
    requires Valid(b) && id < |b.types| && |d.raw| <= MAX_SPEC_LEN && NamesMember(l, a) && a.name.Some?
    ensures var o := Search(b, a.name.value, Fits(l, a, compat), id, d, id);
      Answering(b, compat) && o.found < 0 ==> o.found == E2BIG && |o.draft.raw| == MAX_SPEC_LEN
  {
    hide Valid, Search;
    if Answering(b, compat) { SearchErrors(b, a.name.value, Fits(l, a, compat), id, d, id); }
  }

  lemma SizeInRange(b: Btf, id: nat)
    requires Valid(b)
    ensures -0x8000_0000 <= b.sizeOf(id) < WORD32
  {
  }

  // ---- The match on values

  /** An accessor without a name: the first one indexes the type itself, later ones an array. */
  ghost function IndexOne(b: Btf, t: nat, i: nat, idx: nat, d: Draft): (o: Outcome)
    requires Valid(b) && t < |b.types| && |d.raw| <= MAX_SPEC_LEN
    ensures o.next < |b.types| && |o.draft.raw| <= MAX_SPEC_LEN
  {
    if i > 0 && (KindOf(b.types[t]) != Array || (ElemTypeInRange(b, t); idx >= b.types[t].body.nelems)) then Outcome(0, d, t)
    else
      var e := if i > 0 then (ElemTypeInRange(b, t); Bare(b, b.types[t].body.elem)) else t;
      if |d.raw| == MAX_SPEC_LEN then Outcome(E2BIG, d, e)
      else
        SizeInRange(b, e);
        var sz := Int32(b.sizeOf(e));
        var d' := Draft(d.raw + [idx], d.accs + [Accessor(e, idx, None)], d.off);
        if sz < 0 then Outcome(sz, d', e) else Outcome(1, d'.(off := U32(d.off + idx * sz * 8)), e)
  }

  ghost function MatchOne(l: Btf, local: seq<Accessor>, compat: (nat, nat) -> int, b: Btf, t: nat, i: nat, d: Draft): (o: Outcome)
    requires Valid(b) && t < |b.types| && IsPath(l, local) && i < |local| && |d.raw| <= MAX_SPEC_LEN
    ensures o.next < |b.types| && |o.draft.raw| <= MAX_SPEC_LEN
  {
    if local[i].name.Some? then Search(b, local[i].name.value, Fits(l, local[i], compat), t, d, t)
    else IndexOne(b, t, i, local[i].idx, d)
  }

  /** The match of the accessors from number i on. */
  ghost function MatchFrom(l: Btf, local: seq<Accessor>, compat: (nat, nat) -> int, b: Btf, id: nat, i: nat, d: Draft): (o: Outcome)
    requires Valid(b) && id < |b.types| && IsPath(l, local) && |d.raw| <= MAX_SPEC_LEN
    decreases |local| - i
  {
    if i >= |local| then Outcome(1, d, id)
    else
      var o := MatchOne(l, local, compat, b, Bare(b, id), i, d);
      if o.found <= 0 then o else MatchFrom(l, local, compat, b, o.next, i + 1, o.draft)
  }

  lemma MatchUnfolds(l: Btf, local: seq<Accessor>, compat: (nat, nat) -> int, b: Btf, id: nat, i: nat, d: Draft)
    requires Valid(b) && id < |b.types| && IsPath(l, local) && |d.raw| <= MAX_SPEC_LEN
    ensures
      var o := MatchFrom(l, local, compat, b, id, i, d);
      if i >= |local| then o == Outcome(1, d, id)
      else
        var u := MatchOne(l, local, compat, b, Bare(b, id), i, d);
        o == if u.found <= 0 then u else MatchFrom(l, local, compat, b, u.next, i + 1, u.draft)
  {
  }

  // ---- The spec

  class Spec {
    const accs: array<Accessor>
    var len: nat
    const raw: array<nat>
    var rawLen: nat
    var bitOffset: nat

    constructor ()
      ensures Ok() && State() == Draft([], [], 0) && fresh(accs) && fresh(raw)
    {
      accs := new Accessor[MAX_SPEC_LEN](_ => Accessor(0, 0, None));
      raw := new nat[MAX_SPEC_LEN](_ => 0);
      len, rawLen, bitOffset := 0, 0, 0;
    }

    ghost predicate Ok()
      reads this
    {
      accs.Length == MAX_SPEC_LEN && raw.Length == MAX_SPEC_LEN && len <= rawLen <= MAX_SPEC_LEN && bitOffset < WORD32
    }

    ghost function State(): Draft
      reads this, accs, raw
      requires Ok()
    {
      Draft(raw[..rawLen], accs[..len], bitOffset)
    }

    /** Reads the indices of an access string. */
    method ReadText(text: string) returns (err: int)
      requires Ok() && '-' !in text
      modifies this`len, this`rawLen, this`bitOffset, raw
      ensures match ReadIndices(text)
        case Read(ns) => err == 0 && ns != [] && Ok() && State() == Draft(ns, [], 0)
        case Bad(e) => err == e && e < 0
    {
      hide Scan;
      if text == "" || text[0] == ':' { return EINVAL; }
      len, rawLen, bitOffset := 0, 0, 0;
      var s := text;
      while s != ""
        invariant Ok() && len == 0 && bitOffset == 0
        invariant After(raw[..rawLen], ReadFrom(s, rawLen)) == ReadFrom(text, 0) && (rawLen == 0 ==> s == text)
        decreases |s|
      {
        if s[0] == ':' { s := s[1..]; }
        var r := Scan(s);
        if r.None? { return EINVAL; }
        if rawLen == MAX_SPEC_LEN { return E2BIG; }
        AfterStep(raw[..rawLen], r.value.value, ReadFrom(s[r.value.len..], rawLen + 1));
        s := s[r.value.len..];
        raw[rawLen] := r.value.value;
        rawLen := rawLen + 1;
        assert raw[..rawLen] == raw[..rawLen - 1] + [r.value.value];
      }
      return if rawLen == 0 then EINVAL else 0;
    }

    /** The outcome of following a path. */
    ghost predicate Parsed(err: int, ns: seq<nat>, w: Walk)
      reads this, accs, raw
    {
      match w
      case At(_, s, off) => err == 0 && Ok() && State() == Draft(ns, s, off)
      case Failed(e) => err == e
    }

    /** Fills the spec from an access string. */
    method Parse(b: Btf, id: nat, text: string) returns (err: int)
      requires Ok() && Valid(b) && id < |b.types| && '-' !in text
      modifies this`len, this`rawLen, this`bitOffset, accs, raw
      ensures match ReadIndices(text)
        case Bad(e) => err == e && e < 0
        case Read(ns) => ns != [] && Parsed(err, ns, Along(b, id, ns))
    {
      hide ReadIndices, ReadFrom, Scan;
      err := ReadText(text);
      if err != 0 { return; }
      err := AccessAll(b, id, ReadIndices(text).ns);
    }

    /** Follows the indices. */
    method AccessAll(b: Btf, id: nat, ghost indices: seq<nat>) returns (err: int)
      requires Ok() && Valid(b) && id < |b.types| && indices != [] && State() == Draft(indices, [], 0)
      modifies this`len, this`bitOffset, accs
      ensures Parsed(err, indices, Along(b, id, indices))
    {
      hide Valid, WellFormedGraph, Step, Along, Bare;
      assert Along(b, id, indices[..1]) == Start(b, id, indices[0]) by { AlongFirst(b, id, indices); }
      var cur: nat := SkipModsAndTypedefs(b, id);
      accs[0] := Accessor(cur, raw[0], None);
      len := 1;
      var sz := b.sizeOf(cur);
      if sz < 0 {
        AlongFails(b, id, indices, 1);
        return sz;
      }
      bitOffset := U32(raw[0] * sz * 8);
      assert accs[..1] == [Accessor(cur, raw[0], None)];
      var i := 1;
      while i < rawLen
        invariant 1 <= i <= rawLen == |indices| <= MAX_SPEC_LEN && len <= i && Ok() && raw[..rawLen] == indices
        invariant cur < |b.types| && Along(b, id, indices[..i]) == At(cur, accs[..len], bitOffset)
      {
        assert raw[i] == indices[i];
        assert indices[..i + 1] == indices[..i] + [indices[i]];
        AlongOne(b, id, indices[..i], indices[i]);
        var next, e := ParseStep(b, cur, raw[i]);
        if e != 0 {
          AlongFails(b, id, indices, i + 1);
          return e;
        }
        cur := next;
        i := i + 1;
      }
      assert indices[..i] == indices;
      return 0;
    }

    /** One index of a path. */
    method ParseStep(b: Btf, id: nat, idx: nat) returns (next: nat, err: int)
      requires Ok() && Valid(b) && id < |b.types| && len < rawLen
      modifies this`len, this`bitOffset, accs
      ensures Ok() && len <= old(len) + 1
      ensures match Step(b, id, old(accs[..len]), old(bitOffset), idx)
        case At(n, s, off) => err == 0 && next == n && accs[..len] == s && bitOffset == off
        case Failed(e) => err == e && e < 0
    {
      hide Valid, WellFormedGraph;
      var t := SkipModsAndTypedefs(b, id);
      if IsComposite(KindOf(b.types[t])) {
        next, err := ParseMember(b, t, idx);
      } else if KindOf(b.types[t]) == Array {
        ElemTypeInRange(b, t);
        next, err := ParseElem(b, t, idx);
      } else {
        return t, EINVAL;
      }
    }

    method ParseMember(b: Btf, t: nat, idx: nat) returns (next: nat, err: int)
      requires Ok() && Valid(b) && t < |b.types| && len < rawLen && IsComposite(KindOf(b.types[t]))
      modifies this`len, this`bitOffset, accs
      ensures Ok() && len <= old(len) + 1 && Composite(b.types[t])
      ensures match StepMember(b, t, old(accs[..len]), old(bitOffset), idx)
        case At(n, s, off) => err == 0 && next == n && accs[..len] == s && bitOffset == off
        case Failed(e) => err == e && e < 0
    {
      if idx >= Vlen(b.types[t]) { return t, EINVAL; }
      MemberTypeInRange(b, t, idx);
      var m := b.types[t].body.ms[idx];
      if m.nameOff != 0 && b.nameAt(m.nameOff) == "" { return t, EINVAL; }
      bitOffset := U32(bitOffset + MemberBitOffset(b.types[t], idx));
      if m.nameOff != 0 { Access(t, idx, Some(b.nameAt(m.nameOff))); }
      return m.typ, 0;
    }

    method ParseElem(b: Btf, t: nat, idx: nat) returns (next: nat, err: int)
      requires Ok() && Valid(b) && t < |b.types| && len < rawLen
      requires var a := b.types[t]; a.body.ArrayBody? && a.body.elem < |b.types|
      modifies this`len, this`bitOffset, accs
      ensures Ok() && len <= old(len) + 1
      ensures match StepElem(b, t, old(accs[..len]), old(bitOffset), idx)
        case At(n, s, off) => err == 0 && next == n && accs[..len] == s && bitOffset == off
        case Failed(e) => err == e && e < 0
    {
      hide Valid, WellFormedGraph, Bare;
      next := SkipModsAndTypedefs(b, b.types[t].body.elem);
      if idx >= b.types[t].body.nelems { return next, EINVAL; }
      var sz := b.sizeOf(next);
      if sz < 0 { return next, sz; }
      Access(next, idx, None);
      bitOffset := U32(bitOffset + idx * sz * 8);
      return next, 0;
    }

    method Extend(i: nat, bits: nat)
      requires Ok() && rawLen < MAX_SPEC_LEN
      modifies this`rawLen, this`bitOffset, raw
      ensures Ok() && len < rawLen == old(rawLen) + 1 && State() == Push(old(State()), i, bits)
    {
      bitOffset := U32(bitOffset + bits);
      raw[rawLen] := i;
      rawLen := rawLen + 1;
      assert raw[..rawLen] == old(raw[..rawLen]) + [i];
    }

    method Retract(bits: nat)
      requires Ok() && len < rawLen
      modifies this`rawLen, this`bitOffset
      ensures Ok() && rawLen == old(rawLen) - 1 && State() == Pop(old(State()), bits)
    {
      bitOffset := U32(bitOffset - bits);
      rawLen := rawLen - 1;
      assert raw[..rawLen] == old(raw[..rawLen])[..rawLen];
    }

    method Access(typeId: nat, idx: nat, name: Option<string>)
      requires Ok() && len < rawLen
      modifies this`len, accs
      ensures Ok() && len == old(len) + 1
      ensures State() == old(State()).(accs := old(State()).accs + [Accessor(typeId, idx, name)])
    {
      accs[len] := Accessor(typeId, idx, name);
      len := len + 1;
      assert accs[..len] == old(accs[..len]) + [Accessor(typeId, idx, name)];
    }

    method Forget()
      requires Ok() && len > 0
      modifies this`len
      ensures Ok() && len == old(len) - 1
      ensures State() == old(State()).(accs := old(State()).accs[..len])
    {
      len := len - 1;
      assert accs[..len] == old(accs[..len])[..len];
    }

    /** Takes a member of the right name, and drops it again if it does not fit. */
    method TryNamed(l: Btf, a: Accessor, compat: (nat, nat) -> int, b: Btf, t: nat, i: nat, m: Member) returns (found: int)
      requires Ok() && len < rawLen && NamesMember(l, a) && a.name.Some? && b.nameAt(m.nameOff) == a.name.value
      modifies this`len, accs
      ensures Ok() && (found == 0 ==> len == old(len)) && found == Fits(l, a, compat)(m.typ)
      ensures State() == if found == 0 then old(State()) else old(State()).(accs := old(State()).accs + [Accessor(t, i, a.name)])
    {
      Access(t, i, Some(b.nameAt(m.nameOff)));
      found := compat(l.types[a.typeId].body.ms[a.idx].typ, m.typ);
      if found == 0 { Forget(); }
    }

    /** Looks for a member of the accessor's name, extending the path before it knows. */
    method MatchMember(l: Btf, a: Accessor, compat: (nat, nat) -> int, b: Btf, id: nat, next0: nat) returns (found: int, next: nat)
      requires Ok() && Valid(b) && id < |b.types| && NamesMember(l, a) && a.name.Some?
      modifies this`len, this`rawLen, this`bitOffset, accs, raw
      ensures Ok() && rawLen >= old(rawLen) && (found == 0 ==> len == old(len))
      ensures Outcome(found, State(), next) == Search(b, a.name.value, Fits(l, a, compat), id, old(State()), next0)
      decreases MAX_SPEC_LEN - rawLen
    {
      hide Valid, WellFormedGraph, Bare, U32, Search, SearchFrom, MemberBitOffset, Push, Pop, Extends, Fits, NamesMember;
      next := next0;
      var t := SkipModsAndTypedefs(b, id);
      ghost var fits, name := Fits(l, a, compat), a.name.value;
      SearchStarts(b, name, fits, id, State(), next);
      if !Composite(b.types[t]) { return 0, next; }
      var ms := b.types[t].body.ms;
      var i := 0;
      while i < |ms|
        invariant Ok() && i <= |ms| && len == old(len) && rawLen >= old(rawLen)
        invariant SearchFrom(b, name, fits, t, i, State(), next) == Search(b, name, fits, id, old(State()), next0)
      {
        SearchUnfolds(b, name, fits, t, i, State(), next);
        var bits := MemberBitOffset(b.types[t], i);
        if rawLen == MAX_SPEC_LEN { return E2BIG, next; }
        Extend(i, bits);
        if b.nameAt(ms[i].nameOff) == "" {
          found, next := MatchMember(l, a, compat, b, ms[i].typ, next);
          if found != 0 { return found, next; }
        } else if a.name.value == b.nameAt(ms[i].nameOff) {
          found := TryNamed(l, a, compat, b, t, i, ms[i]);
          return found, ms[i].typ;
        }
        Retract(bits);
        i := i + 1;
      }
      SearchUnfolds(b, name, fits, t, i, State(), next);
      return 0, next;
    }

    /** Matches a local path against a target type. */
    method Match(l: Btf, local: seq<Accessor>, compat: (nat, nat) -> int, b: Btf, id: nat) returns (r: int, ghost ways: seq<seq<nat>>)
      requires Ok() && Valid(b) && id < |b.types| && IsPath(l, local) && forall x: nat, y: nat :: compat(x, y) <= 1
      modifies this`len, this`rawLen, this`bitOffset, accs, raw
      ensures Ok() && r <= 1
      ensures var o := MatchFrom(l, local, compat, b, id, 0, Draft([], [], 0)); o.found == r && o.draft == State()
      ensures r == 1 ==> AllMatching(local, State().accs) && Followed(l, local, compat, b, id, 0)
      ensures r == 1 && FlatNamesUnique(b) ==> AllFirstFit(l, local, compat, b, id, 0, 0)
      ensures r == 1 ==> Matched(l, local, compat, b, id, State(), ways)
      ensures r == 0 && FlatNamesUnique(b) ==> !Followed(l, local, compat, b, id, 0)
      ensures r < 0 && Answering(b, compat) ==> r == E2BIG && rawLen == MAX_SPEC_LEN
    {
      hide Valid, WellFormedGraph, Bare, U32, Search, FlatNamesUnique, ProperNames, Progress, Followed, AllFirstFit, Follows, AllMatching, Matched,
        IndexOne, MatchFrom, Clean, OnTheWay, Names, NamesMember, Matching, Answering;
      len, rawLen, bitOffset := 0, 0, 0;
      var cur: nat, i := id, 0;
      ways := [];
      assert AllMatching(local[..0], accs[..0]) by { NothingToMatch(local[..0], accs[..0]); }
      assert Progress(l, local, compat, b, id, cur, 0, State(), []) by { ProgressStart(l, local, compat, b, id, State()); }
      while i < |local|
        invariant Ok() && i <= |local| && len == i == |ways| && cur < |b.types|
        invariant AllMatching(local[..i], accs[..len])
        invariant Progress(l, local, compat, b, id, cur, i, State(), ways)
        invariant MatchFrom(l, local, compat, b, cur, i, State()) == MatchFrom(l, local, compat, b, id, 0, Draft([], [], 0))
      {
        ghost var d := State();
        MatchUnfolds(l, local, compat, b, cur, i, d);
        ProgressBare(l, local, compat, b, id, cur, i, d, ways);
        BareTwice(b, cur);
        cur := SkipModsAndTypedefs(b, cur);
        if local[i].name.Some? {
          ghost var q := ProgressMember(l, local, compat, b, id, cur, i, d, cur, ways);
          MemberErrors(l, local[i], compat, b, cur, d);
          var found, next := MatchMember(l, local[i], compat, b, cur, cur);
          if found <= 0 { return found, ways; }
          cur := next;
          ways := ways + [q];
        } else {
          var more, next := MatchIndex(l, local, compat, b, id, cur, i, ways);
          if more <= 0 { return more, ways; }
          cur := next;
          ways := ways + [[local[i].idx]];
        }
        MatchingGrows(local, i, d.accs, State().accs);
        i := i + 1;
      }
      assert local[..i] == local;
      MatchUnfolds(l, local, compat, b, cur, i, State());
      ProgressEnd(l, local, compat, b, id, cur, State(), ways);
      return 1, ways;
    }

    /** An accessor without a name: the first one indexes the type itself, later ones an array. */
    method MatchIndex(ghost l: Btf, local: seq<Accessor>, ghost compat: (nat, nat) -> int, b: Btf, ghost id: nat, cur: nat, i: nat, ghost ways: seq<seq<nat>>)
      returns (r: int, next: nat)
      requires Ok() && Valid(b) && id < |b.types| && cur < |b.types| && IsPath(l, local)
      requires i == len < |local| && local[i].name.None? && Bare(b, cur) == cur && |ways| == i && Progress(l, local, compat, b, id, cur, i, State(), ways)
      modifies this`len, this`rawLen, this`bitOffset, accs, raw
      ensures Ok() && r <= 1 && Outcome(r, State(), next) == IndexOne(b, cur, i, local[i].idx, old(State()))
      ensures r < 0 && Answering(b, compat) ==> r == E2BIG && rawLen == MAX_SPEC_LEN
      ensures r == 1 ==> len == i + 1 && next < |b.types| && Progress(l, local, compat, b, id, next, i + 1, State(), ways + [[local[i].idx]])
      ensures r == 1 ==> State().accs == old(State()).accs + [Accessor(next, local[i].idx, None)]
      ensures r == 0 && FlatNamesUnique(b) ==> !Followed(l, local, compat, b, id, 0)
    {
      hide Valid, WellFormedGraph, Bare, U32, FlatNamesUnique, ProperNames, Followed, AllFirstFit, Follows, Clean, OnTheWay, EndOf, Flatten;
      next := cur;
      ghost var d := State();
      if i > 0 {
        ProgressElem(l, local, compat, b, id, cur, i, d, ways);
        if KindOf(b.types[cur]) != Array { return 0, next; }
        ElemTypeInRange(b, cur);
        if local[i].idx >= b.types[cur].body.nelems { return 0, next; }
        next := SkipModsAndTypedefs(b, b.types[cur].body.elem);
      }
      if rawLen == MAX_SPEC_LEN { return E2BIG, next; }
      Index(next, i, local[i].idx);
      assert -0x8000_0000 <= b.sizeOf(next) < WORD32 by { SizeInRange(b, next); }
      var sz := Int32(b.sizeOf(next));
      if sz < 0 { return sz, next; }
      bitOffset := U32(bitOffset + local[i].idx * sz * 8);
      if i == 0 {
        assert ways == [] && ways + [[local[0].idx]] == [[local[0].idx]];
        ProgressFirst(l, local, compat, b, id, cur);
        assert State() == Draft([local[0].idx], [Accessor(cur, local[0].idx, None)], U32(local[0].idx * b.sizeOf(cur) * 8));
      } else {
        assert State() == Draft(d.raw + [local[i].idx], d.accs + [Accessor(next, local[i].idx, None)], U32(d.off + local[i].idx * b.sizeOf(next) * 8));
      }
      return 1, next;
    }

    method Index(typeId: nat, i: nat, idx: nat)
      requires Ok() && i == len && rawLen < MAX_SPEC_LEN
      modifies this`len, this`rawLen, accs, raw
      ensures Ok() && len == old(len) + 1
      ensures State() == Draft(old(State()).raw + [idx], old(State()).accs + [Accessor(typeId, idx, None)], bitOffset)
    {
      accs[i] := Accessor(typeId, idx, None);
      len := len + 1;
      raw[rawLen] := idx;
      rawLen := rawLen + 1;
      assert accs[..len] == old(accs[..len]) + [Accessor(typeId, idx, None)];
      assert raw[..rawLen] == old(raw[..rawLen]) + [idx];
    }
  }

  /** A 64-bit number cut down to a signed 32-bit one. */
  function Int32(x: int): (r: int)
    ensures -0x8000_0000 <= x < WORD32 && r >= 0 ==> r == x
    ensures 0 <= x < 0x8000_0000 ==> r == x
  {
    if U32(x) < 0x8000_0000 then U32(x) else U32(x) - WORD32
  }

  // ---- A bit-field

  /** A struct with the kind flag whose member x has 3 bits from bit 32 on, after a member y. */
  function WithBitField(): Btf {
    Btf([VOID,
         BtfType(0, Info(0, Int, false, 0), 4, IntBody(0)),
         BtfType(0, Info(2, Struct, true, 0), 8, Members([Member(2, 1, 0), Member(1, 1, 0x300_0020)]))],
        off => if off == 0 then "" else if off == 1 then "x" else "y",
        id => 8)
  }

  lemma WithBitFieldValid()
    ensures Valid(WithBitField()) && |WithBitField().types| == 3 && Bare(WithBitField(), 2) == 2
    ensures Along(WithBitField(), 2, [0, 1]) == At(1, [Accessor(2, 0, None), Accessor(2, 1, Some("x"))], 32)
  {
    hide WellFormedGraph, Bare, Along;
    GraphOfRecords(WithBitField().types);
    WithoutModifiers(WithBitField());
    MemberOffset(WithBitField(), 2, 0, 1, 3, 32);
  }

  /** Its access string gives bit offset 32, whatever the width of the field. */
  method ParseBitField() returns (spec: Spec, err: int)
    ensures err == 0 && spec.bitOffset == 32
  {
    WithBitFieldValid();
    ReadIndicesSpelled([0, 1]);
    assert Spell([0, 1]) == "0:1" by { SpellZeroOne(); }
    hide Valid, Along, ReadIndices, ReadFrom;
    spec := new Spec();
    err := spec.Parse(WithBitField(), 2, "0:1");
  }

  lemma SpellZeroOne()
    ensures Spell([0, 1]) == "0:1"
  {
    assert Decimal(0) == "0" && Decimal(1) == "1" && [0, 1][1..] == [1];
  }

  // ---- When the first member of a name is rejected

  /** `struct { struct { T *x; }; T x; }`, as types 4, 3, 2 and 1. */
  function Sample(): Btf {
    Btf([VOID,
         BtfType(0, Info(0, Int, false, 0), 4, IntBody(0)),
         BtfType(0, Info(0, Ptr, false, 0), 1, NoBody),
         BtfType(0, Info(1, Struct, false, 0), 8, Members([Member(1, 2, 0)])),
         BtfType(0, Info(2, Struct, false, 0), 16, Members([Member(0, 3, 0), Member(1, 1, 64)]))],
        off => if off == 0 then "" else "x",
        id => 8)
  }

  /** Of the types of the members named x, only type 1 fits. */
  ghost predicate OnlyOne(fits: nat -> int) {
    fits(1) == 1 && fits(2) == 0
  }

  /** `union { union { T *x; union { T x; }; }; union { T x; }; }`, as types 5, 4, 3, 2 and 1. */
  function Twisted(): Btf {
    Btf([VOID,
         BtfType(0, Info(0, Int, false, 0), 4, IntBody(0)),
         BtfType(0, Info(0, Ptr, false, 0), 1, NoBody),
         BtfType(0, Info(1, Union, false, 0), 4, Members([Member(1, 1, 0)])),
         BtfType(0, Info(2, Union, false, 0), 8, Members([Member(1, 2, 0), Member(0, 3, 0)])),
         BtfType(0, Info(2, Union, false, 0), 8, Members([Member(0, 4, 0), Member(0, 3, 0)]))],
        off => if off == 0 then "" else "x",
        id => 8)
  }

  lemma WithoutModifiers(b: Btf)
    requires WellFormedGraph(b.types) && forall i :: 0 <= i < |b.types| ==> !IsModifier(b.types[i])
    requires forall id :: b.sizeOf(id) == 8
    ensures Valid(b) && forall id :: 0 <= id < |b.types| ==> Bare(b, id) == id
  {
    hide WellFormedGraph;
    assert ModifierOrder(b.types, seq(|b.types|, _ => 0));
  }

  lemma SampleValid()
    ensures Valid(Sample()) && ProperNames(Sample())
    ensures forall id :: 0 <= id <= 4 ==> Bare(Sample(), id) == id
  {
    hide WellFormedGraph, Bare;
    GraphOfRecords(Sample().types);
    WithoutModifiers(Sample());
  }

  lemma TwistedValid()
    ensures Valid(Twisted()) && ProperNames(Twisted())
    ensures forall id :: 0 <= id <= 5 ==> Bare(Twisted(), id) == id
  {
    hide WellFormedGraph, Bare;
    GraphOfRecords(Twisted().types);
    WithoutModifiers(Twisted());
  }

  /** In it the first x is rejected as well, and the path left behind is not the way to the second,
      but happens to be a way to another x of the same type, with the same accessors. */
  lemma RejectedMemberHides(fits: nat -> int)
    requires OnlyOne(fits)
    ensures Valid(Twisted()) && |Twisted().types| == 6
    ensures
      var d := Draft([0], [Accessor(5, 0, None)], 0);
      var o := Search(Twisted(), "x", fits, 5, d, 5);
      o == Outcome(1, Draft([0, 0, 1, 0], [Accessor(5, 0, None), Accessor(3, 0, Some("x"))], 0), 1) &&
      Follows(Twisted(), 5, o.draft, 1) && Spells(Twisted(), 5, [1, 0], "x")
  {
    TwistedValid();
    hide Valid, ProperNames, Bare;
    var b := Twisted();
    var d := Draft([0], [Accessor(5, 0, None)], 0);
    var e := Push(d, 0, 0);
    assert e.raw == [0, 0];
    assert SearchFrom(b, "x", fits, 4, 0, e, 5) == Outcome(0, Push(e, 0, 0), 2);
    var back := Pop(Push(e, 0, 0), 0);
    assert back.raw == [0, 0];
    var f := Push(back, 1, 0);
    assert f.raw == [0, 0, 1];
    assert SearchFrom(b, "x", fits, 3, 0, f, 2) == Outcome(1, Draft([0, 0, 1, 0], d.accs + [Accessor(3, 0, Some("x"))], 0), 1);
    assert SearchFrom(b, "x", fits, 5, 1, back, 2) == SearchFrom(b, "x", fits, 3, 0, f, 2);
    assert SearchFrom(b, "x", fits, 5, 0, d, 5) == SearchFrom(b, "x", fits, 5, 1, back, 2);
    TwistedPath();
    assert Spells(b, 3, [0], "x");
    assert [1, 0][1..] == [0];
  }

  lemma TwistedPath()
    ensures Valid(Twisted())
    ensures Along(Twisted(), 5, [0, 0, 1, 0]) == At(1, [Accessor(5, 0, None), Accessor(3, 0, Some("x"))], 0)
  {
    TwistedValid();
    hide Valid, ProperNames, Bare;
    var b := Twisted();
    assert [0, 0, 1, 0][..3] == [0, 0, 1] && [0, 0, 1][..2] == [0, 0] && [0, 0][..1] == [0];
    assert Along(b, 5, [0]) == At(5, [Accessor(5, 0, None)], 0);
    assert Along(b, 5, [0, 0]) == At(4, [Accessor(5, 0, None)], 0);
    assert Along(b, 5, [0, 0, 1]) == At(3, [Accessor(5, 0, None)], 0);
  }

  /** Looking for an x of type 1 in it rejects the first x, takes the second, and leaves a path
      that cannot be parsed. */
  lemma RejectedMemberStays(fits: nat -> int)
    requires OnlyOne(fits)
    ensures Valid(Sample()) && |Sample().types| == 5
    ensures
      var d := Draft([0], [Accessor(4, 0, None)], 0);
      var o := Search(Sample(), "x", fits, 4, d, 4);
      Follows(Sample(), 4, d, 4) && o == Outcome(1, Draft([0, 0, 1], [Accessor(4, 0, None), Accessor(4, 1, Some("x"))], 64), 1) &&
      Along(Sample(), 4, o.draft.raw) == Failed(EINVAL)
  {
    SampleValid();
    hide Valid, ProperNames, Bare;
    var b := Sample();
    var d := Draft([0], [Accessor(4, 0, None)], 0);
    assert Along(b, 4, [0]) == At(4, d.accs, 0);
    var e := Push(d, 0, 0);
    assert e.raw == [0, 0];
    var inner := Push(e, 0, 0);
    assert SearchFrom(b, "x", fits, 3, 0, e, 4) == Outcome(0, inner, 2);
    var back := Pop(inner, 0);
    assert back.raw == [0, 0];
    assert SearchFrom(b, "x", fits, 4, 1, back, 2) == Outcome(1, Draft([0, 0, 1], [Accessor(4, 0, None), Accessor(4, 1, Some("x"))], 64), 1);
    assert SearchFrom(b, "x", fits, 4, 0, d, 4) == SearchFrom(b, "x", fits, 4, 1, back, 2);
    assert [0, 0, 1][..2] == [0, 0] && [0, 0][..1] == [0];
    assert Along(b, 4, [0, 0]) == At(3, d.accs, 0);
  }

  /** Any type but a pointer to T fits. */
  function NoPointer(x: nat, y: nat): int {
    if y == 2 then 0 else 1
  }

  lemma NoPointerFits(b: Btf, acc: Accessor)
    requires NamesMember(b, acc) && acc.name.Some?
    ensures OnlyOne(Fits(b, acc, NoPointer))
  {
    var typ := b.types[acc.typeId].body.ms[acc.idx].typ;
    assert Fits(b, acc, NoPointer)(1) == NoPointer(typ, 1) && Fits(b, acc, NoPointer)(2) == NoPointer(typ, 2);
  }

  lemma MatchesTwo(b: Btf, id: nat, acc: Accessor, compat: (nat, nat) -> int)
    requires Valid(b) && id < |b.types| && Bare(b, id) == id && b.sizeOf(id) == 8 && acc.name.Some? && NamesMember(b, acc)
    ensures var local := [Accessor(id, 0, None), acc];
      IsPath(b, local) &&
      (var o := Search(b, acc.name.value, Fits(b, acc, compat), id, Draft([0], [Accessor(id, 0, None)], 0), id);
       MatchFrom(b, local, compat, b, id, 0, Draft([], [], 0)) == if o.found <= 0 then o else Outcome(1, o.draft, o.next))
  {
    hide Valid, Bare, Search;
    var local := [Accessor(id, 0, None), acc];
    var d := Draft([0], [Accessor(id, 0, None)], 0);
    assert IsPath(b, local);
    MatchUnfolds(b, local, compat, b, id, 0, Draft([], [], 0));
    assert IndexOne(b, id, 0, 0, Draft([], [], 0)) == Outcome(1, d, id);
    MatchUnfolds(b, local, compat, b, id, 1, d);
    var o := Search(b, acc.name.value, Fits(b, acc, compat), id, d, id);
    if o.found > 0 { MatchUnfolds(b, local, compat, b, o.next, 2, o.draft); }
  }

  /** The match of a whole path against the first sample, on values. */
  lemma SampleMatch(acc: Accessor)
    requires acc == Accessor(4, 1, Some("x"))
    ensures Valid(Sample()) && |Sample().types| == 5 && IsPath(Sample(), [Accessor(4, 0, None), acc])
    ensures MatchFrom(Sample(), [Accessor(4, 0, None), acc], NoPointer, Sample(), 4, 0, Draft([], [], 0)) ==
      Outcome(1, Draft([0, 0, 1], [Accessor(4, 0, None), acc], 64), 1)
    ensures Along(Sample(), 4, [0, 0, 1]) == Failed(EINVAL)
  {
    SampleValid();
    hide Valid, Bare, Search, Along, MatchFrom;
    NoPointerFits(Sample(), acc);
    RejectedMemberStays(Fits(Sample(), acc, NoPointer));
    MatchesTwo(Sample(), 4, acc, NoPointer);
  }

  lemma TwistedMatch(acc: Accessor, d: Draft)
    requires acc == Accessor(3, 0, Some("x")) && d == Draft([0, 0, 1, 0], [Accessor(5, 0, None), acc], 0)
    ensures Valid(Twisted()) && |Twisted().types| == 6 && IsPath(Twisted(), [Accessor(5, 0, None), acc])
    ensures MatchFrom(Twisted(), [Accessor(5, 0, None), acc], NoPointer, Twisted(), 5, 0, Draft([], [], 0)) == Outcome(1, d, 1)
    ensures Follows(Twisted(), 5, d, 1) && Spells(Twisted(), 5, [1, 0], "x")
  {
    TwistedValid();
    hide Valid, Bare, Search, Along, MatchFrom, Spells, Follows;
    NoPointerFits(Twisted(), acc);
    RejectedMemberHides(Fits(Twisted(), acc, NoPointer));
    MatchesTwo(Twisted(), 5, acc, NoPointer);
  }

  /** The match of a whole path against the first sample reports success, with indices that cannot be
      parsed. */
  method MatchSample() returns (spec: Spec, r: int)
    ensures Valid(Sample()) && r == 1 && spec.Ok() && spec.State().accs == [Accessor(4, 0, None), Accessor(4, 1, Some("x"))]
    ensures spec.State().raw == [0, 0, 1] && Along(Sample(), 4, spec.State().raw) == Failed(EINVAL)
  {
    hide Valid, Bare, Search, Along, MatchFrom, IsPath, Sample, Matched, Followed, AllMatching, AllFirstFit, FlatNamesUnique;
    var acc := Accessor(4, 1, Some("x"));
    SampleMatch(acc);
    spec := new Spec();
    ghost var ways;
    r, ways := spec.Match(Sample(), [Accessor(4, 0, None), acc], NoPointer, Sample(), 4);
  }

  /** Against the second one it reports success with indices that name the accessors found by another
      way than the one to them. */
  method MatchTwisted() returns (spec: Spec, r: int)
    ensures Valid(Twisted()) && |Twisted().types| == 6 && r == 1 && spec.Ok() && spec.State().raw == [0, 0, 1, 0]
    ensures Follows(Twisted(), 5, spec.State(), 1) && Spells(Twisted(), 5, [1, 0], "x")
  {
    hide Valid, Bare, Search, Along, MatchFrom, IsPath, Twisted, Spells, Follows, Matched, Followed, AllMatching, AllFirstFit, FlatNamesUnique;
    var acc := Accessor(3, 0, Some("x"));
    ghost var d := Draft([0, 0, 1, 0], [Accessor(5, 0, None), acc], 0);
    TwistedMatch(acc, d);
    spec := new Spec();
    ghost var ways;
    r, ways := spec.Match(Twisted(), [Accessor(5, 0, None), acc], NoPointer, Twisted(), 5);
  }
}
