/** Field paths of relocations: the low-level list of indices, the named accessors it stands for,
    and the search for the same accessors in another type. */
module CoreSpec {
  import opened Errors
  import opened Options
  import opened Words
  import opened BtfGraph

  const MAX_SPEC_LEN: nat := 64

  /** Types, the text at a name offset, and the size of a type, negative for an error. */
  datatype Btf = Btf(types: seq<BtfType>, nameAt: nat -> string, sizeOf: nat -> int)

  // ---- Types

  predicate IsModifier(t: BtfType) {
    KindOf(t) in {Typedef, Volatile, Const, Restrict}
  }

  /** No typedef or qualifier leads back to itself. */
  ghost predicate ModifierOrder(g: seq<BtfType>, rank: seq<nat>)
    requires WellFormedGraph(g)
  {
    |rank| == |g| &&
    forall x :: 0 <= x < |g| && IsModifier(g[x]) ==> Target(g, x) < |g| && (IsModifier(g[Target(g, x)]) ==> rank[Target(g, x)] < rank[x])
  }

  function Target(g: seq<BtfType>, x: nat): nat
    requires x < |g|
  {
    g[x].word
  }

  ghost predicate Valid(b: Btf) {
    WellFormedGraph(b.types) && (exists rank :: ModifierOrder(b.types, rank)) && forall id :: -0x8000_0000 <= b.sizeOf(id) < WORD32
  }

  /** Only offset 0 denotes the empty name. */
  ghost predicate ProperNames(b: Btf) {
    forall off :: b.nameAt(off) == "" <==> off == 0
  }

  ghost function Rank(g: seq<BtfType>): (rank: seq<nat>)
    requires WellFormedGraph(g) && exists rank :: ModifierOrder(g, rank)
    ensures ModifierOrder(g, rank)
  {
    var rank :| ModifierOrder(g, rank);
    rank
  }

  /** The type behind all typedefs and qualifiers. */
  ghost function Bare(b: Btf, id: nat): (r: nat)
    requires Valid(b) && id < |b.types|
    ensures r < |b.types| && !IsModifier(b.types[r])
    decreases if IsModifier(b.types[id]) then Rank(b.types)[id] + 1 else 0
  {
    if IsModifier(b.types[id]) then
      assert Target(b.types, id) < |b.types|;
      Bare(b, Target(b.types, id))
    else id
  }

  predicate Composite(t: BtfType) {
    WellFormed(t) && IsComposite(KindOf(t))
  }

  function MemberBitOffset(t: BtfType, i: nat): nat
    requires Composite(t) && i < |t.body.ms|
  {
    if Kflag(t) then t.body.ms[i].offset % 0x100_0000 else t.body.ms[i].offset
  }

  /** The upper 8 bits of a member's offset, if its composite uses them for the width of bit-fields. */
  function BitfieldSize(t: BtfType, i: nat): (n: nat)
    requires Composite(t) && i < |t.body.ms|
    ensures n < 256
  {
    if Kflag(t) then t.body.ms[i].offset / 0x100_0000 % 0x100 else 0
  }

  /** A member's offset word is taken apart without loss: with the kind flag, 8 bits for the width of a
      bit-field above 24 bits for its place, and otherwise the place alone. */
  lemma OffsetWord(t: BtfType, i: nat)
    requires Composite(t) && i < |t.body.ms| && t.body.ms[i].offset < WORD32
    ensures Kflag(t) ==> t.body.ms[i].offset == BitfieldSize(t, i) * 0x100_0000 + MemberBitOffset(t, i) && MemberBitOffset(t, i) < 0x100_0000
    ensures !Kflag(t) ==> BitfieldSize(t, i) == 0 && MemberBitOffset(t, i) == t.body.ms[i].offset
  {
  }

  lemma MemberTypeInRange(b: Btf, id: nat, i: nat)
    requires Valid(b) && id < |b.types| && Composite(b.types[id]) && i < |b.types[id].body.ms|
    ensures b.types[id].body.ms[i].typ < |b.types|
  {
    assert Refs(b.types[id])[i] == b.types[id].body.ms[i].typ;
  }

  lemma ElemTypeInRange(b: Btf, id: nat)
    requires Valid(b) && id < |b.types| && KindOf(b.types[id]) == Array
    ensures b.types[id].body.ArrayBody? && b.types[id].body.elem < |b.types|
  {
    assert Refs(b.types[id])[0] == b.types[id].body.elem;
  }

  method SkipModsAndTypedefs(b: Btf, id: nat) returns (r: nat)
    requires Valid(b) && id < |b.types|
    ensures r == Bare(b, id)
  {
    r := id;
    while IsModifier(b.types[r])
      invariant r < |b.types| && Bare(b, r) == Bare(b, id)
      decreases if IsModifier(b.types[r]) then Rank(b.types)[r] + 1 else 0
    {
      assert Target(b.types, r) < |b.types|;
      r := b.types[r].word;
    }
  }

  // ---- Following a path

  /** One turning point of a path: a named member, or an array index. */
  datatype Accessor = Accessor(typeId: nat, idx: nat, name: Option<string>)

  /** Where a path leads, by which accessors, and at what bit offset. */
  datatype Walk = At(id: nat, accs: seq<Accessor>, off: nat) | Failed(err: int)

  ghost predicate Inside(b: Btf, w: Walk) {
    w.At? ==> w.id < |b.types|
  }

  ghost function Start(b: Btf, id: nat, idx: nat): (w: Walk)
    requires Valid(b) && id < |b.types|
    ensures Inside(b, w)
  {
    var t := Bare(b, id);
    if b.sizeOf(t) < 0 then Failed(b.sizeOf(t))
    else At(t, [Accessor(t, idx, None)], U32(idx * b.sizeOf(t) * 8))
  }

  ghost function Step(b: Btf, id: nat, accs: seq<Accessor>, off: nat, idx: nat): (w: Walk)
    requires Valid(b) && id < |b.types|
    ensures Inside(b, w)
  {
    var t := Bare(b, id);
    if Composite(b.types[t]) then StepMember(b, t, accs, off, idx)
    else if KindOf(b.types[t]) == Array then
      ElemTypeInRange(b, t);
      StepElem(b, t, accs, off, idx)
    else Failed(EINVAL)
  }

  ghost function StepMember(b: Btf, t: nat, accs: seq<Accessor>, off: nat, idx: nat): (w: Walk)
    requires Valid(b) && t < |b.types| && Composite(b.types[t])
    ensures Inside(b, w)
  {
    if idx >= |b.types[t].body.ms| then Failed(EINVAL)
    else
      MemberTypeInRange(b, t, idx);
      var m := b.types[t].body.ms[idx];
      var off' := U32(off + MemberBitOffset(b.types[t], idx));
      if m.nameOff == 0 then At(m.typ, accs, off')
      else if b.nameAt(m.nameOff) == "" then Failed(EINVAL)
      else At(m.typ, accs + [Accessor(t, idx, Some(b.nameAt(m.nameOff)))], off')
  }

  ghost function StepElem(b: Btf, t: nat, accs: seq<Accessor>, off: nat, idx: nat): (w: Walk)
    requires Valid(b) && t < |b.types| && b.types[t].body.ArrayBody? && b.types[t].body.elem < |b.types|
    ensures Inside(b, w)
  {
    var e := Bare(b, b.types[t].body.elem);
    if idx >= b.types[t].body.nelems then Failed(EINVAL)
    else if b.sizeOf(e) < 0 then Failed(b.sizeOf(e))
    else At(e, accs + [Accessor(e, idx, None)], U32(off + idx * b.sizeOf(e) * 8))
  }

  ghost function Along(b: Btf, id: nat, raw: seq<nat>): (w: Walk)
    requires Valid(b) && id < |b.types| && raw != []
    ensures Inside(b, w)
  {
    var n := |raw| - 1;
    if n == 0 then Start(b, id, raw[0])
    else match Along(b, id, raw[..n])
      case At(t, accs, off) => Step(b, t, accs, off, raw[n])
      case Failed(err) => Failed(err)
  }

  lemma AlongFirst(b: Btf, id: nat, raw: seq<nat>)
    requires Valid(b) && id < |b.types| && raw != []
    ensures Along(b, id, raw[..1]) == Start(b, id, raw[0])
  {
  }

  lemma AlongFails(b: Btf, id: nat, raw: seq<nat>, n: nat)
    requires Valid(b) && id < |b.types| && 0 < n <= |raw| && Along(b, id, raw[..n]).Failed?
    ensures Along(b, id, raw) == Along(b, id, raw[..n])
    decreases |raw|
  {
    if n == |raw| {
      assert raw[..n] == raw;
    } else {
      var l := |raw| - 1;
      assert raw[..l][..n] == raw[..n];
      AlongFails(b, id, raw[..l], n);
    }
  }

  /** A path to a named member: the start of the indexed type, and what the offset word says, width
      aside. */
  lemma MemberOffset(b: Btf, id: nat, idx: nat, i: nat, width: nat, place: nat)
    requires Valid(b) && id < |b.types|
    requires b.sizeOf(Bare(b, id)) >= 0 && Composite(b.types[Bare(b, id)]) && i < |b.types[Bare(b, id)].body.ms|
    requires var m := b.types[Bare(b, id)].body.ms[i]; m.nameOff != 0 && b.nameAt(m.nameOff) != ""
    requires var t := b.types[Bare(b, id)];
      if Kflag(t) then place < 0x100_0000 && t.body.ms[i].offset == width * 0x100_0000 + place else t.body.ms[i].offset == place
    ensures var t := Bare(b, id); var m := b.types[t].body.ms[i];
      Along(b, id, [idx, i]) ==
      At(m.typ, [Accessor(t, idx, None), Accessor(t, i, Some(b.nameAt(m.nameOff)))], U32(U32(idx * b.sizeOf(t) * 8) + place))
  {
    hide Valid, WellFormedGraph, U32;
    var t := Bare(b, id);
    assert [idx, i][..1] == [idx] && !IsModifier(b.types[t]) && Bare(b, t) == t;
    assert MemberBitOffset(b.types[t], i) == place;
  }

  /** A path to an element of an array: index times size further on. */
  lemma ElementOffset(b: Btf, id: nat, raw: seq<nat>, i: nat)
    requires Valid(b) && id < |b.types| && raw != [] && Along(b, id, raw).At?
    requires var t := b.types[Bare(b, Along(b, id, raw).id)];
      KindOf(t) == Array && t.body.ArrayBody? && t.body.elem < |b.types| && i < t.body.nelems && b.sizeOf(Bare(b, t.body.elem)) >= 0
    ensures var w := Along(b, id, raw); var e := Bare(b, b.types[Bare(b, w.id)].body.elem);
      Along(b, id, raw + [i]) == At(e, w.accs + [Accessor(e, i, None)], U32(w.off + i * b.sizeOf(e) * 8))
  {
    hide Valid, WellFormedGraph, U32;
    AlongOne(b, id, raw, i);
  }

  // ---- Members by name, looking through unnamed ones

  /** The path p leads from a composite through unnamed members to one with this name. */
  ghost predicate Spells(b: Btf, id: nat, p: seq<nat>, name: string)
    requires Valid(b) && id < |b.types|
    decreases |p|
  {
    var t := Bare(b, id);
    p != [] && Composite(b.types[t]) && p[0] < |b.types[t].body.ms| &&
    (var m := b.types[t].body.ms[p[0]];
     MemberTypeInRange(b, t, p[0]);
     if |p| == 1 then b.nameAt(m.nameOff) == name
     else b.nameAt(m.nameOff) == "" && Spells(b, m.typ, p[1..], name))
  }

  /** The composite the named member is in, the member's type, and its offset from the start. */
  datatype Place = Place(whole: nat, typ: nat, off: nat)

  ghost function PlaceOf(b: Btf, id: nat, p: seq<nat>, name: string): (r: Place)
    requires Valid(b) && id < |b.types| && Spells(b, id, p, name)
    ensures r.typ < |b.types|
    decreases |p|
  {
    var t := Bare(b, id);
    var m := b.types[t].body.ms[p[0]];
    MemberTypeInRange(b, t, p[0]);
    if |p| == 1 then Place(t, m.typ, MemberBitOffset(b.types[t], p[0]))
    else
      var r := PlaceOf(b, m.typ, p[1..], name);
      r.(off := r.off + MemberBitOffset(b.types[t], p[0]))
  }

  lemma AlongOne(b: Btf, root: nat, raw: seq<nat>, i: nat)
    requires Valid(b) && root < |b.types| && raw != [] && Along(b, root, raw).At?
    ensures
      var w := Along(b, root, raw);
      Along(b, root, raw + [i]) == Step(b, w.id, w.accs, w.off, i)
  {
    assert (raw + [i])[..|raw|] == raw;
  }

  /** Following such a path adds exactly one accessor. */
  lemma {:induction false} AlongSpelled(b: Btf, root: nat, raw: seq<nat>, p: seq<nat>, name: string)
    requires Valid(b) && root < |b.types| && raw != [] && Along(b, root, raw).At? && name != "" && ProperNames(b)
    requires Spells(b, Along(b, root, raw).id, p, name)
    ensures
      var w := Along(b, root, raw);
      var r := PlaceOf(b, w.id, p, name);
      Along(b, root, raw + p) == At(r.typ, w.accs + [Accessor(r.whole, p[|p| - 1], Some(name))], U32(w.off + r.off))
    decreases |p|
  {
    hide Along, U32, Bare, WellFormedGraph;
    var w := Along(b, root, raw);
    var t := Bare(b, w.id);
    AlongOne(b, root, raw, p[0]);
    MemberTypeInRange(b, t, p[0]);
    if |p| == 1 {
      assert p == [p[0]];
    } else {
      AlongSpelled(b, root, raw + [p[0]], p[1..], name);
      assert raw + [p[0]] + p[1..] == raw + p;
      WrappedSum(w.off + MemberBitOffset(b.types[t], p[0]), PlaceOf(b, b.types[t].body.ms[p[0]].typ, p[1..], name).off);
    }
  }
}
