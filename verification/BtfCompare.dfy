/** Hashing and comparing single records: what each helper of the deduplicator decides. */
module BtfCompare {
  import opened BtfGraph
  import opened Words

  /** One mixing step on a 64-bit `long`, held as its unsigned value. */
  function HashCombine(h: nat, v: nat): nat {
    (h * 31 + v) % WORD64
  }

  function KindCode(k: Kind): nat {
    match k
    case Unkn => 0
    case Int => 1
    case Ptr => 2
    case Array => 3
    case Struct => 4
    case Union => 5
    case Enum => 6
    case Fwd => 7
    case Typedef => 8
    case Volatile => 9
    case Const => 10
    case Restrict => 11
    case Func => 12
    case FuncProto => 13
    case Var => 14
    case Datasec => 15
  }

  /** The packed word again; `spare` holds bits 16-23 and 28-30. */
  function InfoWord(i: Info): nat {
    (if i.kflag then 0x8000_0000 else 0) + i.spare / 0x100 * 0x1000_0000 + KindCode(i.kind) * 0x100_0000 +
    i.spare % 0x100 * 0x1_0000 + i.vlen
  }

  function CommonHash(t: BtfType): nat {
    HashCombine(HashCombine(HashCombine(0, t.nameOff), InfoWord(t.info)), t.word)
  }

  function IntHash(t: BtfType): nat
    requires t.body.IntBody?
  {
    HashCombine(CommonHash(t), t.body.encoding)
  }

  /** Leaves out vlen and the enumerators, so that a forward enum meets its definition. */
  function EnumHash(t: BtfType): nat {
    HashCombine(HashCombine(HashCombine(0, t.nameOff), InfoWord(t.info.(vlen := 0))), t.word)
  }

  function MembersHash(h: nat, ms: seq<Member>, k: nat): nat
    requires k <= |ms|
  {
    if k == 0 then h
    else HashCombine(HashCombine(MembersHash(h, ms, k - 1), ms[k - 1].nameOff), ms[k - 1].offset)
  }

  ghost function StructHash(t: BtfType): nat
    requires t.body.Members?
  {
    MembersHash(CommonHash(t), t.body.ms, |t.body.ms|)
  }

  method HashStruct(t: BtfType) returns (h: nat)
    requires WellFormed(t) && IsComposite(KindOf(t))
    ensures h == StructHash(t)
  {
    h := CommonHash(t);
    for i := 0 to Vlen(t)
      invariant h == MembersHash(CommonHash(t), t.body.ms, i)
    {
      var m := t.body.ms[i];
      h := HashCombine(h, m.nameOff);
      h := HashCombine(h, m.offset);
    }
  }

  function ArrayHash(t: BtfType): nat
    requires t.body.ArrayBody?
  {
    HashCombine(HashCombine(HashCombine(CommonHash(t), t.body.elem), t.body.index), t.body.nelems)
  }

  function ParamsHash(h: nat, ps: seq<Param>, k: nat): nat
    requires k <= |ps|
  {
    if k == 0 then h
    else HashCombine(HashCombine(ParamsHash(h, ps, k - 1), ps[k - 1].nameOff), ps[k - 1].typ)
  }

  ghost function ProtoHash(t: BtfType): nat
    requires t.body.Params?
  {
    ParamsHash(CommonHash(t), t.body.ps, |t.body.ps|)
  }

  method HashFnproto(t: BtfType) returns (h: nat)
    requires WellFormed(t) && KindOf(t) == FuncProto
    ensures h == ProtoHash(t)
  {
    h := CommonHash(t);
    for i := 0 to Vlen(t)
      invariant h == ParamsHash(CommonHash(t), t.body.ps, i)
    {
      var p := t.body.ps[i];
      h := HashCombine(h, p.nameOff);
      h := HashCombine(h, p.typ);
    }
  }

  /** The hash under which a reference type is filed. */
  ghost function RefHash(t: BtfType): nat
    requires WellFormed(t)
  {
    match KindOf(t)
    case Array => ArrayHash(t)
    case FuncProto => ProtoHash(t)
    case _ => CommonHash(t)
  }

  predicate EqualCommon(t1: BtfType, t2: BtfType) {
    t1.nameOff == t2.nameOff && t1.info == t2.info && t1.word == t2.word
  }

  /** For the kinds without trailing data the common part is everything. */
  lemma EqualCommonIsEquality(t1: BtfType, t2: BtfType)
    requires WellFormed(t1) && WellFormed(t2) && t1.body.NoBody?
    ensures EqualCommon(t1, t2) <==> t1 == t2
  {
    if EqualCommon(t1, t2) {
      assert KindOf(t1) == KindOf(t2);
    }
  }

  predicate EqualInt(t1: BtfType, t2: BtfType)
    requires WellFormed(t1) && WellFormed(t2) && KindOf(t1) == Int
    ensures EqualInt(t1, t2) <==> t1 == t2
  {
    assert t1.info == t2.info ==> KindOf(t1) == KindOf(t2);
    EqualCommon(t1, t2) && t1.body.encoding == t2.body.encoding
  }

  method EqualEnum(t1: BtfType, t2: BtfType) returns (eq: bool)
    requires WellFormed(t1) && WellFormed(t2) && KindOf(t1) == Enum
    ensures eq <==> t1 == t2
  {
    if !EqualCommon(t1, t2) { return false; }
    assert KindOf(t1) == KindOf(t2) && Vlen(t1) == Vlen(t2);
    for i := 0 to Vlen(t1)
      invariant t1.body.es[..i] == t2.body.es[..i]
    {
      if t1.body.es[i].nameOff != t2.body.es[i].nameOff || t1.body.es[i].val != t2.body.es[i].val {
        return false;
      }
    }
    assert t1.body.es == t1.body.es[..Vlen(t1)] == t2.body.es[..Vlen(t1)] == t2.body.es;
    return true;
  }

  predicate IsEnumFwd(t: BtfType) {
    KindOf(t) == Enum && Vlen(t) == 0
  }

  /** Two enums agree when equal, or when one is a forward declaration of the other. */
  ghost predicate CompatibleEnums(t1: BtfType, t2: BtfType) {
    t1 == t2 ||
    ((IsEnumFwd(t1) || IsEnumFwd(t2)) && t1.nameOff == t2.nameOff && t1.word == t2.word &&
     t1.info.(vlen := 0) == t2.info.(vlen := 0))
  }

  method CompatEnum(t1: BtfType, t2: BtfType) returns (eq: bool)
    requires WellFormed(t1) && WellFormed(t2) && KindOf(t1) == Enum
    ensures eq <==> CompatibleEnums(t1, t2)
  {
    if !IsEnumFwd(t1) && !IsEnumFwd(t2) {
      eq := EqualEnum(t1, t2);
    } else {
      eq := t1.nameOff == t2.nameOff && t1.info.(vlen := 0) == t2.info.(vlen := 0) && t1.word == t2.word;
    }
  }

  /** Compatible enums are both enums, share their name, and are filed under one hash, so the
      candidate list of either holds the other. */
  lemma CompatibleEnumsMeet(t1: BtfType, t2: BtfType)
    requires KindOf(t1) == Enum && CompatibleEnums(t1, t2)
    ensures KindOf(t2) == Enum && t1.nameOff == t2.nameOff && EnumHash(t1) == EnumHash(t2)
  {
    assert t1.info.(vlen := 0) == t2.info.(vlen := 0);
  }

  method ShallowEqualStruct(t1: BtfType, t2: BtfType) returns (eq: bool)
    requires WellFormed(t1) && WellFormed(t2) && IsComposite(KindOf(t1))
    ensures eq <==> Shape(t1) == Shape(t2)
  {
    if !EqualCommon(t1, t2) { return false; }
    assert KindOf(t1) == KindOf(t2) && Vlen(t1) == Vlen(t2);
    ghost var s1, s2 := BodyShape(t1.body).ms, BodyShape(t2.body).ms;
    for i := 0 to Vlen(t1)
      invariant s1[..i] == s2[..i]
    {
      if t1.body.ms[i].nameOff != t2.body.ms[i].nameOff || t1.body.ms[i].offset != t2.body.ms[i].offset {
        assert s1[i] != s2[i];
        return false;
      }
    }
    assert s1 == s1[..Vlen(t1)] == s2[..Vlen(t1)] == s2;
    return true;
  }

  /** The hash of a composite ignores its references. */
  lemma {:induction false} MembersHashFromShape(h: nat, ms: seq<Member>, ns: seq<Member>, k: nat)
    requires k <= |ms| == |ns| && BodyShape(Members(ms)) == BodyShape(Members(ns))
    ensures MembersHash(h, ms, k) == MembersHash(h, ns, k)
  {
    if k > 0 {
      assert BodyShape(Members(ms)).ms[k - 1] == BodyShape(Members(ns)).ms[k - 1];
      MembersHashFromShape(h, ms, ns, k - 1);
    }
  }

  lemma EqualShapesShareHash(t1: BtfType, t2: BtfType)
    requires WellFormed(t1) && WellFormed(t2) && IsComposite(KindOf(t1)) && Shape(t1) == Shape(t2)
    ensures IsComposite(KindOf(t2)) && StructHash(t1) == StructHash(t2)
  {
    ShapeFixesKind(t1, t2);
    assert t1.word == t2.word;
    MembersHashFromShape(CommonHash(t1), t1.body.ms, t2.body.ms, |t1.body.ms|);
  }

  predicate EqualArray(t1: BtfType, t2: BtfType)
    requires WellFormed(t1) && WellFormed(t2) && KindOf(t1) == Array
    ensures EqualArray(t1, t2) <==> t1 == t2
  {
    assert t1.info == t2.info ==> KindOf(t1) == KindOf(t2);
    EqualCommon(t1, t2) && t1.body.elem == t2.body.elem && t1.body.index == t2.body.index &&
    t1.body.nelems == t2.body.nelems
  }

  predicate CompatArray(t1: BtfType, t2: BtfType)
    requires WellFormed(t1) && WellFormed(t2) && KindOf(t1) == Array
    ensures CompatArray(t1, t2) <==> Shape(t1) == Shape(t2)
  {
    assert t1.info == t2.info ==> KindOf(t1) == KindOf(t2);
    EqualCommon(t1, t2) && t1.body.nelems == t2.body.nelems
  }

  method EqualFnproto(t1: BtfType, t2: BtfType) returns (eq: bool)
    requires WellFormed(t1) && WellFormed(t2) && KindOf(t1) == FuncProto
    ensures eq <==> t1 == t2
  {
    if !EqualCommon(t1, t2) { return false; }
    assert KindOf(t1) == KindOf(t2) && Vlen(t1) == Vlen(t2);
    for i := 0 to Vlen(t1)
      invariant t1.body.ps[..i] == t2.body.ps[..i]
    {
      if t1.body.ps[i].nameOff != t2.body.ps[i].nameOff || t1.body.ps[i].typ != t2.body.ps[i].typ {
        return false;
      }
    }
    assert t1.body.ps == t1.body.ps[..Vlen(t1)] == t2.body.ps[..Vlen(t1)] == t2.body.ps;
    return true;
  }

  method CompatFnproto(t1: BtfType, t2: BtfType) returns (eq: bool)
    requires WellFormed(t1) && WellFormed(t2) && KindOf(t1) == FuncProto
    ensures eq <==> Shape(t1) == Shape(t2)
  {
    if t1.nameOff != t2.nameOff || t1.info != t2.info { return false; }
    assert KindOf(t1) == KindOf(t2) && Vlen(t1) == Vlen(t2);
    ghost var s1, s2 := BodyShape(t1.body).ps, BodyShape(t2.body).ps;
    for i := 0 to Vlen(t1)
      invariant s1[..i] == s2[..i]
    {
      if t1.body.ps[i].nameOff != t2.body.ps[i].nameOff {
        assert s1[i] != s2[i];
        return false;
      }
    }
    assert s1 == s1[..Vlen(t1)] == s2[..Vlen(t1)] == s2;
    return true;
  }
}
