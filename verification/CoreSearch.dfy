/** The search for a member by name. The code looks for it while extending and retracting one
    shared path; here that is compared with a search that only returns the path it finds. */
module CoreSearch {
  import opened Errors
  import opened Options
  import opened Words
  import opened BtfGraph
  import opened CoreSpec

  // ---- The first member of that name, depth first

  datatype First = Here(path: seq<nat>) | Absent | TooDeep

  function Joined(i: nat, f: First): First {
    if f.Here? then Here([i] + f.path) else f
  }

  ghost function Find(b: Btf, id: nat, name: string, depth: nat): First
    requires Valid(b) && id < |b.types| && depth <= MAX_SPEC_LEN
    decreases MAX_SPEC_LEN - depth, 1, 0
  {
    var t := Bare(b, id);
    if Composite(b.types[t]) then FindFrom(b, t, 0, name, depth) else Absent
  }

  ghost function FindFrom(b: Btf, t: nat, i: nat, name: string, depth: nat): First
    requires Valid(b) && t < |b.types| && Composite(b.types[t]) && depth <= MAX_SPEC_LEN
    decreases MAX_SPEC_LEN - depth, 0, |b.types[t].body.ms| - i
  {
    if i >= |b.types[t].body.ms| then Absent
    else if depth == MAX_SPEC_LEN then TooDeep
    else
      var m := b.types[t].body.ms[i];
      MemberTypeInRange(b, t, i);
      var f := if b.nameAt(m.nameOff) == "" then Find(b, m.typ, name, depth + 1)
               else if b.nameAt(m.nameOff) == name then Here([])
               else Absent;
      if f.Absent? then FindFrom(b, t, i + 1, name, depth) else Joined(i, f)
  }

  /** Paths in the order in which a depth-first search meets them. */
  predicate Before(p: seq<nat>, q: seq<nat>) {
    p != [] && q != [] && (p[0] < q[0] || (p[0] == q[0] && Before(p[1..], q[1..])))
  }

  /** f is the first of all paths to this name whose first index is at least i. */
  ghost predicate IsFirst(b: Btf, id: nat, i: nat, name: string, f: First)
    requires Valid(b) && id < |b.types|
  {
    match f
    case Here(p) =>
      Spells(b, id, p, name) && p[0] >= i &&
      forall q :: Spells(b, id, q, name) && q[0] >= i ==> q == p || Before(p, q)
    case Absent => forall q :: Spells(b, id, q, name) ==> q[0] < i
    case TooDeep => true
  }

  lemma SpellsBare(b: Btf, id: nat, p: seq<nat>, name: string)
    requires Valid(b) && id < |b.types|
    ensures Spells(b, Bare(b, id), p, name) <==> Spells(b, id, p, name)
    ensures Spells(b, id, p, name) ==> PlaceOf(b, Bare(b, id), p, name) == PlaceOf(b, id, p, name)
  {
    assert Bare(b, Bare(b, id)) == Bare(b, id);
  }

  lemma {:induction false} FindIsFirst(b: Btf, id: nat, name: string, depth: nat)
    requires Valid(b) && id < |b.types| && depth <= MAX_SPEC_LEN && name != ""
    ensures IsFirst(b, id, 0, name, Find(b, id, name, depth))
    decreases MAX_SPEC_LEN - depth, 1, 0
  {
    hide Valid, WellFormedGraph;
    var t := Bare(b, id);
    forall q ensures Spells(b, t, q, name) <==> Spells(b, id, q, name) { SpellsBare(b, id, q, name); }
    if Composite(b.types[t]) { FindFromIsFirst(b, t, 0, name, depth); }
  }

  lemma {:induction false} FindFromIsFirst(b: Btf, t: nat, i: nat, name: string, depth: nat)
    requires Valid(b) && t < |b.types| && Composite(b.types[t]) && Bare(b, t) == t && depth <= MAX_SPEC_LEN && name != ""
    ensures IsFirst(b, t, i, name, FindFrom(b, t, i, name, depth))
    decreases MAX_SPEC_LEN - depth, 0, |b.types[t].body.ms| - i
  {
    hide Valid, WellFormedGraph, Bare;
    if i < |b.types[t].body.ms| && depth < MAX_SPEC_LEN {
      var m := b.types[t].body.ms[i];
      MemberTypeInRange(b, t, i);
      FindFromIsFirst(b, t, i + 1, name, depth);
      if b.nameAt(m.nameOff) == "" {
        FindIsFirst(b, m.typ, name, depth + 1);
        var f := Find(b, m.typ, name, depth + 1);
        forall q | Spells(b, t, q, name) && q[0] == i ensures Spells(b, m.typ, q[1..], name) && q == [i] + q[1..] {}
        if f.Here? { assert ([i] + f.path)[1..] == f.path; }
      } else {
        forall q | Spells(b, t, q, name) && q[0] == i ensures q == [i] && b.nameAt(m.nameOff) == name {}
      }
    }
  }

  // ---- The search as the code runs it, on a path that is extended and retracted

  /** What has been built of the target path so far. */
  datatype Draft = Draft(raw: seq<nat>, accs: seq<Accessor>, off: nat)

  datatype Outcome = Outcome(found: int, draft: Draft, next: nat)

  function Push(d: Draft, i: nat, bits: nat): Draft {
    Draft(d.raw + [i], d.accs, U32(d.off + bits))
  }

  function Pop(d: Draft, bits: nat): Draft {
    Draft(if d.raw == [] then [] else d.raw[..|d.raw| - 1], d.accs, U32(d.off - bits))
  }

  ghost predicate Extends(d: Draft, e: Draft) {
    |d.raw| <= |e.raw| <= MAX_SPEC_LEN && e.raw[..|d.raw|] == d.raw
  }

  lemma ExtendsPushed(d: Draft, i: nat, bits: nat, e: Draft)
    requires Extends(Push(d, i, bits), e)
    ensures Extends(d, e) && Extends(d, Pop(e, bits)) && |e.raw| > 0
  {
    hide U32;
    assert e.raw[..|d.raw| + 1][..|d.raw|] == e.raw[..|d.raw|];
    assert e.raw[..|e.raw| - 1][..|d.raw|] == e.raw[..|d.raw|];
  }

  ghost function Search(b: Btf, name: string, fits: nat -> int, id: nat, d: Draft, next: nat): (o: Outcome)
    requires Valid(b) && id < |b.types| && |d.raw| <= MAX_SPEC_LEN
    ensures Extends(d, o.draft)
    ensures next < |b.types| ==> o.next < |b.types|
    decreases MAX_SPEC_LEN - |d.raw|, 1, 0
  {
    var t := Bare(b, id);
    if Composite(b.types[t]) then SearchFrom(b, name, fits, t, 0, d, next) else Outcome(0, d, next)
  }

  ghost function SearchFrom(b: Btf, name: string, fits: nat -> int, t: nat, i: nat, d: Draft, next: nat): (o: Outcome)
    requires Valid(b) && t < |b.types| && Composite(b.types[t]) && |d.raw| <= MAX_SPEC_LEN
    ensures Extends(d, o.draft)
    ensures next < |b.types| ==> o.next < |b.types|
    decreases MAX_SPEC_LEN - |d.raw|, 0, |b.types[t].body.ms| - i
  {
    if i >= |b.types[t].body.ms| then Outcome(0, d, next)
    else if |d.raw| == MAX_SPEC_LEN then Outcome(E2BIG, d, next)
    else
      var m := b.types[t].body.ms[i];
      MemberTypeInRange(b, t, i);
      var bits := MemberBitOffset(b.types[t], i);
      var e := Push(d, i, bits);
      if b.nameAt(m.nameOff) == "" then
        var o := Search(b, name, fits, m.typ, e, next);
        ExtendsPushed(d, i, bits, o.draft);
        if o.found != 0 then o else SearchFrom(b, name, fits, t, i + 1, Pop(o.draft, bits), o.next)
      else if name == b.nameAt(m.nameOff) then
        var f := fits(m.typ);
        Outcome(f, if f == 0 then e else e.(accs := e.accs + [Accessor(t, i, Some(name))]), m.typ)
      else SearchFrom(b, name, fits, t, i + 1, Pop(e, bits), next)
  }

  /** The search of the members of a composite, unfolded once. */
  lemma SearchUnfolds(b: Btf, name: string, fits: nat -> int, t: nat, i: nat, d: Draft, next: nat)
    requires Valid(b) && t < |b.types| && Composite(b.types[t]) && |d.raw| <= MAX_SPEC_LEN
    ensures
      var ms, o := b.types[t].body.ms, SearchFrom(b, name, fits, t, i, d, next);
      if i >= |ms| then o == Outcome(0, d, next)
      else if |d.raw| == MAX_SPEC_LEN then o == Outcome(E2BIG, d, next)
      else
        var e := Push(d, i, MemberBitOffset(b.types[t], i));
        if b.nameAt(ms[i].nameOff) == "" then
          ms[i].typ < |b.types| &&
          (var u := Search(b, name, fits, ms[i].typ, e, next);
           o == if u.found != 0 then u else SearchFrom(b, name, fits, t, i + 1, Pop(u.draft, MemberBitOffset(b.types[t], i)), u.next))
        else if name == b.nameAt(ms[i].nameOff) then
          var f := fits(ms[i].typ);
          o == Outcome(f, if f == 0 then e else e.(accs := e.accs + [Accessor(t, i, Some(name))]), ms[i].typ)
        else o == SearchFrom(b, name, fits, t, i + 1, Pop(e, MemberBitOffset(b.types[t], i)), next)
  {
    if i < |b.types[t].body.ms| { MemberTypeInRange(b, t, i); }
  }

  lemma FindUnfolds(b: Btf, t: nat, i: nat, name: string, depth: nat)
    requires Valid(b) && t < |b.types| && Composite(b.types[t]) && depth <= MAX_SPEC_LEN
    ensures
      var ms, r := b.types[t].body.ms, FindFrom(b, t, i, name, depth);
      if i >= |ms| then r == Absent
      else if depth == MAX_SPEC_LEN then r == TooDeep
      else
        ms[i].typ < |b.types| &&
        var f := if b.nameAt(ms[i].nameOff) == "" then Find(b, ms[i].typ, name, depth + 1)
                 else if b.nameAt(ms[i].nameOff) == name then Here([])
                 else Absent;
        r == if f.Absent? then FindFrom(b, t, i + 1, name, depth) else Joined(i, f)
  {
    if i < |b.types[t].body.ms| { MemberTypeInRange(b, t, i); }
  }

  lemma SearchStarts(b: Btf, name: string, fits: nat -> int, id: nat, d: Draft, next: nat)
    requires Valid(b) && id < |b.types| && |d.raw| <= MAX_SPEC_LEN
    ensures
      var t := Bare(b, id);
      Search(b, name, fits, id, d, next) == if Composite(b.types[t]) then SearchFrom(b, name, fits, t, 0, d, next) else Outcome(0, d, next)
  {
  }

  /** The draft has grown by the path p and its accessor, and by nothing else. */
  ghost predicate Hit(b: Btf, id: nat, name: string, fits: nat -> int, d: Draft, o: Outcome, p: seq<nat>)
    requires Valid(b) && id < |b.types| && Spells(b, id, p, name)
  {
    var pl := PlaceOf(b, id, p, name);
    o == Outcome(fits(pl.typ), Draft(d.raw + p, d.accs + [Accessor(pl.whole, p[|p| - 1], Some(name))], U32(d.off + pl.off)), pl.typ)
  }

  /** A member of that name that fits was found, but the path holds more than the way to it. */
  ghost predicate LongHit(b: Btf, id: nat, name: string, fits: nat -> int, d: Draft, o: Outcome, q: seq<nat>)
    requires Valid(b) && id < |b.types|
  {
    Spells(b, id, q, name) && |d.raw| + |q| < |o.draft.raw| &&
    (var pl := PlaceOf(b, id, q, name);
     fits(pl.typ) == 1 && o.next == pl.typ && o.draft.accs == d.accs + [Accessor(pl.whole, q[|q| - 1], Some(name))])
  }

  /** Indices of a rejected member are left on the path. */
  ghost predicate Leftover(b: Btf, id: nat, name: string, fits: nat -> int, d: Draft, o: Outcome)
    requires Valid(b) && id < |b.types|
  {
    Extends(d, o.draft) && |d.raw| < |o.draft.raw| && o.found <= 1 &&
    (o.found == 0 ==> o.draft.accs == d.accs) && (o.found >= 0 ==> o.draft.off < WORD32) &&
    (o.found == 1 ==> exists q :: LongHit(b, id, name, fits, d, o, q))
  }

  /** How the search relates to the first path f. */
  ghost predicate Agrees(b: Btf, id: nat, name: string, fits: nat -> int, d: Draft, next: nat, o: Outcome, f: First)
    requires Valid(b) && id < |b.types|
  {
    match f
    case Absent => o == Outcome(0, d, next)
    case TooDeep => o.found == E2BIG
    case Here(p) =>
      Spells(b, id, p, name) &&
      if fits(PlaceOf(b, id, p, name).typ) != 0 then Hit(b, id, name, fits, d, o, p) else Leftover(b, id, name, fits, d, o)
  }

  lemma PushPop(d: Draft, i: nat, bits: nat)
    requires d.off < WORD32
    ensures Pop(Push(d, i, bits), bits) == d
  {
    WrappedSum(d.off + bits, 0 - bits);
    U32Small(d.off);
  }

  /** A search that starts with something left over ends with something left over. */
  lemma AfterLeftover(b: Btf, t: nat, name: string, fits: nat -> int, d: Draft, e: Draft, next: nat, o: Outcome, f: First)
    requires Valid(b) && t < |b.types| && (forall x :: fits(x) <= 1)
    requires Extends(d, e) && |d.raw| < |e.raw| && e.accs == d.accs && e.off < WORD32
    requires Agrees(b, t, name, fits, e, next, o, f) && Extends(e, o.draft)
    ensures Leftover(b, t, name, fits, d, o)
  {
    hide Valid, WellFormedGraph, Spells, PlaceOf;
    assert o.draft.raw[..|e.raw|][..|d.raw|] == o.draft.raw[..|d.raw|];
    if o.found == 1 {
      if f.Here? && fits(PlaceOf(b, t, f.path, name).typ) != 0 {
        assert LongHit(b, t, name, fits, d, o, f.path);
      } else {
        var q :| LongHit(b, t, name, fits, e, o, q);
        assert LongHit(b, t, name, fits, d, o, q);
      }
    }
  }

  /** Going through an unnamed member. */
  lemma Through(b: Btf, t: nat, i: nat, name: string, q: seq<nat>)
    requires Valid(b) && t < |b.types| && Bare(b, t) == t && Composite(b.types[t]) && i < |b.types[t].body.ms|
    requires b.types[t].body.ms[i].typ < |b.types| && b.nameAt(b.types[t].body.ms[i].nameOff) == ""
    requires Spells(b, b.types[t].body.ms[i].typ, q, name)
    ensures Spells(b, t, [i] + q, name)
    ensures
      var pl := PlaceOf(b, b.types[t].body.ms[i].typ, q, name);
      PlaceOf(b, t, [i] + q, name) == pl.(off := pl.off + MemberBitOffset(b.types[t], i))
  {
    assert ([i] + q)[1..] == q;
  }

  lemma ThroughAgrees(b: Btf, t: nat, i: nat, name: string, fits: nat -> int, d: Draft, next: nat, o: Outcome, f: First)
    requires Valid(b) && t < |b.types| && Bare(b, t) == t && Composite(b.types[t]) && i < |b.types[t].body.ms| && d.off < WORD32
    requires b.types[t].body.ms[i].typ < |b.types| && b.nameAt(b.types[t].body.ms[i].nameOff) == ""
    requires |d.raw| < MAX_SPEC_LEN
    requires Agrees(b, b.types[t].body.ms[i].typ, name, fits, Push(d, i, MemberBitOffset(b.types[t], i)), next, o, f) && !f.Absent?
    ensures Agrees(b, t, name, fits, d, next, o, Joined(i, f))
  {
    hide Valid, WellFormedGraph, Spells, PlaceOf;
    var e := Push(d, i, MemberBitOffset(b.types[t], i));
    var mt := b.types[t].body.ms[i].typ;
    if f.Here? {
      var p := f.path;
      Through(b, t, i, name, p);
      var pl := PlaceOf(b, mt, p, name);
      if fits(pl.typ) != 0 {
        WrappedSum(d.off + MemberBitOffset(b.types[t], i), pl.off);
        assert d.raw + [i] + p == d.raw + ([i] + p);
        assert p != [] by { SpellsNonempty(b, mt, p, name); }
      } else {
        assert o.draft.raw[..|e.raw|][..|d.raw|] == d.raw;
        if o.found == 1 {
          var q :| LongHit(b, mt, name, fits, e, o, q);
          Through(b, t, i, name, q);
          SpellsNonempty(b, mt, q, name);
          assert LongHit(b, t, name, fits, d, o, [i] + q);
        }
      }
    }
  }

  lemma SpellsNonempty(b: Btf, id: nat, p: seq<nat>, name: string)
    requires Valid(b) && id < |b.types| && Spells(b, id, p, name)
    ensures p != []
  {
  }

  /** The extended-and-retracted path ends as the path to the first member of that name, if that
      member fits; nothing is left of the search if there is none; and if the first one does not
      fit, the search goes on, but its indices stay. */
  lemma {:induction false} SearchAgrees(b: Btf, name: string, fits: nat -> int, id: nat, d: Draft, next: nat)
    requires Valid(b) && id < |b.types| && |d.raw| <= MAX_SPEC_LEN && name != "" && d.off < WORD32 && (forall x :: fits(x) <= 1)
    ensures Agrees(b, id, name, fits, d, next, Search(b, name, fits, id, d, next), Find(b, id, name, |d.raw|))
    decreases MAX_SPEC_LEN - |d.raw|, 1, 0
  {
    hide Valid, WellFormedGraph, Agrees;
    var t := Bare(b, id);
    assert Bare(b, t) == t;
    if Composite(b.types[t]) {
      SearchFromAgrees(b, name, fits, t, 0, d, next);
      AgreesBare(b, name, fits, id, d, next, Search(b, name, fits, id, d, next), Find(b, id, name, |d.raw|));
    } else {
      AgreesNone(b, name, fits, id, d, next);
    }
  }

  lemma AgreesBare(b: Btf, name: string, fits: nat -> int, id: nat, d: Draft, next: nat, o: Outcome, f: First)
    requires Valid(b) && id < |b.types| && Agrees(b, Bare(b, id), name, fits, d, next, o, f)
    ensures Agrees(b, id, name, fits, d, next, o, f)
  {
    hide Valid, WellFormedGraph, Spells, PlaceOf;
    if f.Here? {
      var t := Bare(b, id);
      SpellsBare(b, id, f.path, name);
      if o.found == 1 && fits(PlaceOf(b, id, f.path, name).typ) == 0 {
        var q :| LongHit(b, t, name, fits, d, o, q);
        SpellsBare(b, id, q, name);
        assert LongHit(b, id, name, fits, d, o, q);
      }
    }
  }

  lemma NamedAgrees(b: Btf, name: string, fits: nat -> int, t: nat, i: nat, d: Draft, next: nat)
    requires Valid(b) && t < |b.types| && Composite(b.types[t]) && Bare(b, t) == t && |d.raw| < MAX_SPEC_LEN
    requires i < |b.types[t].body.ms| && b.nameAt(b.types[t].body.ms[i].nameOff) == name && name != "" && (forall x :: fits(x) <= 1)
    ensures Agrees(b, t, name, fits, d, next, SearchFrom(b, name, fits, t, i, d, next), FindFrom(b, t, i, name, |d.raw|))
  {
    assert Spells(b, t, [i], name);
  }

  /** What a rejected member below an unnamed one leaves for the rest of the search. */
  lemma RejectedLeaves(b: Btf, mt: nat, i: nat, bits: nat, name: string, fits: nat -> int, d: Draft, next: nat, o: Outcome, f: First)
    requires Valid(b) && mt < |b.types| && |d.raw| < MAX_SPEC_LEN
    requires Agrees(b, mt, name, fits, Push(d, i, bits), next, o, f) && o.found == 0 && !f.Absent?
    ensures f.Here?
    ensures
      var back := Pop(o.draft, bits);
      Extends(d, back) && |d.raw| < |back.raw| && back.accs == d.accs && back.off < WORD32
  {
    hide Valid, WellFormedGraph, Spells, PlaceOf, LongHit;
    var e := Push(d, i, bits);
    assert Leftover(b, mt, name, fits, e, o);
    assert o.draft.raw[..|e.raw|][..|d.raw|] == d.raw;
  }

  lemma {:induction false} SearchFromAgrees(b: Btf, name: string, fits: nat -> int, t: nat, i: nat, d: Draft, next: nat)
    requires Valid(b) && t < |b.types| && Composite(b.types[t]) && Bare(b, t) == t && |d.raw| <= MAX_SPEC_LEN
    requires name != "" && d.off < WORD32 && (forall x :: fits(x) <= 1)
    ensures Agrees(b, t, name, fits, d, next, SearchFrom(b, name, fits, t, i, d, next), FindFrom(b, t, i, name, |d.raw|))
    decreases MAX_SPEC_LEN - |d.raw|, 0, |b.types[t].body.ms| - i
  {
    hide Valid, WellFormedGraph, Agrees, Bare, U32, MemberBitOffset, SearchFrom, Search, FindFrom, Find, Leftover;
    SearchUnfolds(b, name, fits, t, i, d, next);
    FindUnfolds(b, t, i, name, |d.raw|);
    AgreesNone(b, name, fits, t, d, next);
    if i < |b.types[t].body.ms| && |d.raw| < MAX_SPEC_LEN {
      var m := b.types[t].body.ms[i];
      MemberTypeInRange(b, t, i);
      var bits := MemberBitOffset(b.types[t], i);
      var e := Push(d, i, bits);
      PushPop(d, i, bits);
      if b.nameAt(m.nameOff) == "" {
        var o := Search(b, name, fits, m.typ, e, next);
        var f := Find(b, m.typ, name, |e.raw|);
        SearchAgrees(b, name, fits, m.typ, e, next);
        if f.Absent? {
          AbsentIs(b, m.typ, name, fits, e, next, o);
          SearchFromAgrees(b, name, fits, t, i + 1, d, next);
        } else {
          ThroughAgrees(b, t, i, name, fits, d, next, o, f);
          if o.found == 0 {
            var back := Pop(o.draft, bits);
            RejectedLeaves(b, m.typ, i, bits, name, fits, d, next, o, f);
            SearchFromAgrees(b, name, fits, t, i + 1, back, o.next);
            var rest := SearchFrom(b, name, fits, t, i + 1, back, o.next);
            AfterLeftover(b, t, name, fits, d, back, o.next, rest, FindFrom(b, t, i + 1, name, |back.raw|));
            LeftoverAgrees(b, t, name, fits, d, next, o, rest, Joined(i, f));
          }
        }
      } else if b.nameAt(m.nameOff) == name {
        NamedAgrees(b, name, fits, t, i, d, next);
      } else {
        SearchFromAgrees(b, name, fits, t, i + 1, d, next);
      }
    }
  }

  lemma AgreesNone(b: Btf, name: string, fits: nat -> int, id: nat, d: Draft, next: nat)
    requires Valid(b) && id < |b.types|
    ensures Agrees(b, id, name, fits, d, next, Outcome(0, d, next), Absent)
    ensures Agrees(b, id, name, fits, d, next, Outcome(E2BIG, d, next), TooDeep)
  {
  }

  lemma AbsentIs(b: Btf, id: nat, name: string, fits: nat -> int, d: Draft, next: nat, o: Outcome)
    requires Valid(b) && id < |b.types| && Agrees(b, id, name, fits, d, next, o, Absent)
    ensures o == Outcome(0, d, next)
  {
  }

  /** After a rejection, whatever else is found. */
  lemma LeftoverAgrees(b: Btf, id: nat, name: string, fits: nat -> int, d: Draft, next: nat, o: Outcome, rest: Outcome, f: First)
    requires Valid(b) && id < |b.types| && Agrees(b, id, name, fits, d, next, o, f) && f.Here? && o.found == 0 && Leftover(b, id, name, fits, d, rest)
    ensures Agrees(b, id, name, fits, d, next, rest, f)
  {
    hide Valid, Spells, PlaceOf, Leftover;
  }

  /** The search fails only for lack of room, on a full path, or with an error of the compatibility test. */
  lemma {:induction false} SearchErrors(b: Btf, name: string, fits: nat -> int, id: nat, d: Draft, next: nat)
    requires Valid(b) && id < |b.types| && |d.raw| <= MAX_SPEC_LEN && forall x :: fits(x) >= 0
    ensures var o := Search(b, name, fits, id, d, next);
      o.found < 0 ==> o.found == E2BIG && |o.draft.raw| == MAX_SPEC_LEN
    decreases MAX_SPEC_LEN - |d.raw|, 1, 0
  {
    hide Valid, WellFormedGraph;
    var t := Bare(b, id);
    if Composite(b.types[t]) { SearchFromErrors(b, name, fits, t, 0, d, next); }
  }

  lemma {:induction false} SearchFromErrors(b: Btf, name: string, fits: nat -> int, t: nat, i: nat, d: Draft, next: nat)
    requires Valid(b) && t < |b.types| && Composite(b.types[t]) && |d.raw| <= MAX_SPEC_LEN && forall x :: fits(x) >= 0
    ensures var o := SearchFrom(b, name, fits, t, i, d, next);
      o.found < 0 ==> o.found == E2BIG && |o.draft.raw| == MAX_SPEC_LEN
    decreases MAX_SPEC_LEN - |d.raw|, 0, |b.types[t].body.ms| - i
  {
    hide Valid, WellFormedGraph, SearchFrom, Search, MemberBitOffset, U32;
    SearchUnfolds(b, name, fits, t, i, d, next);
    if i < |b.types[t].body.ms| && |d.raw| < MAX_SPEC_LEN {
      var m, bits := b.types[t].body.ms[i], MemberBitOffset(b.types[t], i);
      var e := Push(d, i, bits);
      if b.nameAt(m.nameOff) == "" {
        var o := Search(b, name, fits, m.typ, e, next);
        SearchErrors(b, name, fits, m.typ, e, next);
        ExtendsPushed(d, i, bits, o.draft);
        SearchFromErrors(b, name, fits, t, i + 1, Pop(o.draft, bits), o.next);
      } else if b.nameAt(m.nameOff) != name {
        SearchFromErrors(b, name, fits, t, i + 1, Pop(e, bits), next);
      }
    }
  }
}
