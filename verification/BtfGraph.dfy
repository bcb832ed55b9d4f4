/** The BTF type graph: records, their references, and what it means for two
    records, possibly of two different graphs, to describe the same type. */
module BtfGraph {

  const MAX_NR_TYPES: nat := 0x7fff_ffff

  datatype Kind =
    | Unkn | Int | Ptr | Array | Struct | Union | Enum | Fwd
    | Typedef | Volatile | Const | Restrict | Func | FuncProto | Var | Datasec

  datatype Member = Member(nameOff: nat, typ: nat, offset: nat)
  datatype Enumerator = Enumerator(nameOff: nat, val: int)
  datatype Param = Param(nameOff: nat, typ: nat)
  datatype SecVar = SecVar(typ: nat, offset: nat, size: nat)

  /** The data that follows the fixed part of a record. */
  datatype Body =
    | NoBody
    | IntBody(encoding: nat)
    | ArrayBody(elem: nat, index: nat, nelems: nat)
    | Members(ms: seq<Member>)
    | Enumerators(es: seq<Enumerator>)
    | Params(ps: seq<Param>)
    | VarBody(linkage: nat)
    | SecVars(vs: seq<SecVar>)

  /** The packed `info` word, taken apart: bits 0-15, 24-27 and 31, and the unused rest. */
  datatype Info = Info(vlen: nat, kind: Kind, kflag: bool, spare: nat)

  /** `word` is the union of `size` and `type`. */
  datatype BtfType = BtfType(nameOff: nat, info: Info, word: nat, body: Body)

  const VOID := BtfType(0, Info(0, Unkn, false, 0), 0, NoBody)

  function KindOf(t: BtfType): Kind {
    t.info.kind
  }

  function Vlen(t: BtfType): nat {
    t.info.vlen
  }

  function Kflag(t: BtfType): bool {
    t.info.kflag
  }

  /** Kinds whose `word` is the id of another type. */
  predicate WordIsRef(k: Kind) {
    k in {Ptr, Fwd, Typedef, Volatile, Const, Restrict, Func, FuncProto, Var}
  }

  /** Kinds that the last deduplication pass handles. */
  predicate IsRefKind(k: Kind) {
    k in {Ptr, Typedef, Volatile, Const, Restrict, Func, FuncProto, Array}
  }

  predicate IsComposite(k: Kind) {
    k == Struct || k == Union
  }

  /** The trailing data is the one the kind announces, with `vlen` entries. */
  predicate WellFormed(t: BtfType) {
    match KindOf(t)
    case Int => t.body.IntBody?
    case Array => t.body.ArrayBody?
    case Struct => t.body.Members? && |t.body.ms| == Vlen(t)
    case Union => t.body.Members? && |t.body.ms| == Vlen(t)
    case Enum => t.body.Enumerators? && |t.body.es| == Vlen(t)
    case FuncProto => t.body.Params? && |t.body.ps| == Vlen(t)
    case Var => t.body.VarBody?
    case Datasec => t.body.SecVars? && |t.body.vs| == Vlen(t)
    case _ => t.body.NoBody?
  }

  /** The ids a record refers to, in the order in which the code rewrites them. */
  function Refs(t: BtfType): (rs: seq<nat>) {
    (if WordIsRef(KindOf(t)) then [t.word] else []) + BodyRefs(t.body)
  }

  function BodyRefs(b: Body): (rs: seq<nat>)
    ensures b.Members? ==> |rs| == |b.ms|
    ensures b.Params? ==> |rs| == |b.ps|
    ensures b.SecVars? ==> |rs| == |b.vs|
  {
    match b
    case ArrayBody(elem, index, _) => [elem, index]
    case Members(ms) => seq(|ms|, i requires 0 <= i < |ms| => ms[i].typ)
    case Params(ps) => seq(|ps|, i requires 0 <= i < |ps| => ps[i].typ)
    case SecVars(vs) => seq(|vs|, i requires 0 <= i < |vs| => vs[i].typ)
    case _ => []
  }

  /** Everything in a record except the ids it refers to. */
  function Shape(t: BtfType): BtfType {
    t.(word := if WordIsRef(KindOf(t)) then 0 else t.word, body := BodyShape(t.body))
  }

  function BodyShape(b: Body): Body {
    match b
    case ArrayBody(_, _, nelems) => ArrayBody(0, 0, nelems)
    case Members(ms) => Members(seq(|ms|, i requires 0 <= i < |ms| => ms[i].(typ := 0)))
    case Params(ps) => Params(seq(|ps|, i requires 0 <= i < |ps| => ps[i].(typ := 0)))
    case SecVars(vs) => SecVars(seq(|vs|, i requires 0 <= i < |vs| => vs[i].(typ := 0)))
    case _ => b
  }

  /** Overwrites reference number k in place. */
  function SetRef(t: BtfType, k: nat, r: nat): (u: BtfType)
    requires k < |Refs(t)|
    ensures Refs(u) == Refs(t)[k := r]
    ensures Shape(u) == Shape(t)
    ensures WellFormed(t) ==> WellFormed(u)
  {
    var first := if WordIsRef(KindOf(t)) then 1 else 0;
    if k < first then t.(word := r)
    else
      var u := t.(body := SetBodyRef(t.body, k - first, r));
      assert Refs(u) == Refs(t)[k := r];
      u
  }

  function SetBodyRef(b: Body, k: nat, r: nat): (c: Body)
    requires k < |BodyRefs(b)|
    ensures BodyRefs(c) == BodyRefs(b)[k := r]
    ensures BodyShape(c) == BodyShape(b)
    ensures b.Members? ==> c.Members? && |c.ms| == |b.ms|
    ensures b.Params? ==> c.Params? && |c.ps| == |b.ps|
    ensures b.SecVars? ==> c.SecVars? && |c.vs| == |b.vs|
    ensures b.ArrayBody? ==> c.ArrayBody?
    ensures BodyRefs(b)[k] == r ==> c == b
  {
    match b
    case ArrayBody(_, _, _) => if k == 0 then b.(elem := r) else b.(index := r)
    case Members(ms) =>
      var c := Members(ms[k := ms[k].(typ := r)]);
      assert BodyShape(c).ms == BodyShape(b).ms;
      c
    case Params(ps) =>
      var c := Params(ps[k := ps[k].(typ := r)]);
      assert BodyShape(c).ps == BodyShape(b).ps;
      c
    case SecVars(vs) =>
      var c := SecVars(vs[k := vs[k].(typ := r)]);
      assert BodyShape(c).vs == BodyShape(b).vs;
      c
    case _ => b
  }

  /** A record is determined by its shape and its references. */
  lemma ShapeAndRefs(t: BtfType, u: BtfType)
    ensures t == u <==> Shape(t) == Shape(u) && Refs(t) == Refs(u)
  {
    if Shape(t) == Shape(u) && Refs(t) == Refs(u) {
      assert KindOf(t) == KindOf(Shape(t)) == KindOf(Shape(u)) == KindOf(u);
      if WordIsRef(KindOf(t)) {
        assert Refs(t)[0] == t.word && Refs(u)[0] == u.word;
        assert BodyRefs(t.body) == Refs(t)[1..] == Refs(u)[1..] == BodyRefs(u.body);
      } else {
        assert BodyRefs(t.body) == Refs(t) == Refs(u) == BodyRefs(u.body);
      }
      BodyShapeAndRefs(t.body, u.body);
    }
  }

  lemma BodyShapeAndRefs(b: Body, c: Body)
    requires BodyShape(b) == BodyShape(c) && BodyRefs(b) == BodyRefs(c)
    ensures b == c
  {
    match b
    case Members(ms) =>
      assert c.Members? && |BodyShape(c).ms| == |BodyShape(b).ms|;
      forall i | 0 <= i < |ms| ensures ms[i] == c.ms[i] {
        assert BodyShape(b).ms[i] == BodyShape(c).ms[i] && BodyRefs(b)[i] == BodyRefs(c)[i];
      }
    case Params(ps) =>
      assert c.Params? && |BodyShape(c).ps| == |BodyShape(b).ps|;
      forall i | 0 <= i < |ps| ensures ps[i] == c.ps[i] {
        assert BodyShape(b).ps[i] == BodyShape(c).ps[i] && BodyRefs(b)[i] == BodyRefs(c)[i];
      }
    case SecVars(vs) =>
      assert c.SecVars? && |BodyShape(c).vs| == |BodyShape(b).vs|;
      forall i | 0 <= i < |vs| ensures vs[i] == c.vs[i] {
        assert BodyShape(b).vs[i] == BodyShape(c).vs[i] && BodyRefs(b)[i] == BodyRefs(c)[i];
      }
    case ArrayBody(e, x, n) => assert c.ArrayBody? && BodyRefs(b)[0] == e && BodyRefs(c)[0] == c.elem && BodyRefs(b)[1] == x;
    case _ =>
  }

  lemma ShapeFixesKind(t: BtfType, u: BtfType)
    requires Shape(t) == Shape(u)
    ensures KindOf(t) == KindOf(u) && t.nameOff == u.nameOff && t.info == u.info
    ensures |Refs(t)| == |Refs(u)|
  {
    assert t.info == Shape(t).info == Shape(u).info == u.info;
    assert BodyShape(t.body) == BodyShape(u.body);
    match t.body
    case Members(ms) => assert u.body.Members? && |BodyShape(t.body).ms| == |BodyShape(u.body).ms|;
    case Params(ps) => assert u.body.Params? && |BodyShape(t.body).ps| == |BodyShape(u.body).ps|;
    case SecVars(vs) => assert u.body.SecVars? && |BodyShape(t.body).vs| == |BodyShape(u.body).vs|;
    case _ =>
  }

  /** A graph whose id 0 is void and whose references stay inside it. */
  predicate Closed(g: seq<BtfType>) {
    0 < |g| <= MAX_NR_TYPES + 1 && g[0] == VOID &&
    forall i, k :: 0 <= i < |g| && 0 <= k < |Refs(g[i])| ==> Refs(g[i])[k] < |g|
  }

  predicate WellFormedGraph(g: seq<BtfType>) {
    Closed(g) && forall i :: 0 <= i < |g| ==> WellFormed(g[i])
  }

  /** The ids written in a record. */
  predicate IdsBelow(t: BtfType, n: nat) {
    (WordIsRef(KindOf(t)) ==> t.word < n) &&
    match t.body
    case ArrayBody(elem, index, _) => elem < n && index < n
    case Members(ms) => forall i :: 0 <= i < |ms| ==> ms[i].typ < n
    case Params(ps) => forall i :: 0 <= i < |ps| ==> ps[i].typ < n
    case SecVars(vs) => forall i :: 0 <= i < |vs| ==> vs[i].typ < n
    case _ => true
  }

  lemma GraphOfRecords(g: seq<BtfType>)
    requires 0 < |g| <= MAX_NR_TYPES + 1 && g[0] == VOID
    requires forall i :: 0 <= i < |g| ==> WellFormed(g[i]) && IdsBelow(g[i], |g|)
    ensures WellFormedGraph(g)
  {
    forall i, k | 0 <= i < |g| && 0 <= k < |Refs(g[i])| ensures Refs(g[i])[k] < |g| {
      RefsBelow(g[i], |g|, k);
    }
  }

  lemma RefsBelow(t: BtfType, n: nat, k: nat)
    requires IdsBelow(t, n) && k < |Refs(t)|
    ensures Refs(t)[k] < n
  {
  }

  /** Type a of graph g and type b of graph h look the same when unfolded to depth n. */
  ghost predicate Same(n: nat, g: seq<BtfType>, a: nat, h: seq<BtfType>, b: nat)
    requires Closed(g) && Closed(h) && a < |g| && b < |h|
  {
    n > 0 ==>
      Shape(g[a]) == Shape(h[b]) && |Refs(g[a])| == |Refs(h[b])| &&
      forall k :: 0 <= k < |Refs(g[a])| ==> Same(n - 1, g, Refs(g[a])[k], h, Refs(h[b])[k])
  }

  /** ... and at every depth: the two ids denote the same, possibly cyclic, type. */
  ghost predicate Bisimilar(g: seq<BtfType>, a: nat, h: seq<BtfType>, b: nat)
    requires Closed(g) && Closed(h) && a < |g| && b < |h|
  {
    forall n: nat :: Same(n, g, a, h, b)
  }

  lemma {:induction false} SameReflexive(n: nat, g: seq<BtfType>, a: nat)
    requires Closed(g) && a < |g|
    ensures Same(n, g, a, g, a)
  {
    if n > 0 {
      forall k | 0 <= k < |Refs(g[a])| ensures Same(n - 1, g, Refs(g[a])[k], g, Refs(g[a])[k]) {
        SameReflexive(n - 1, g, Refs(g[a])[k]);
      }
    }
  }

  lemma {:induction false} SameSymmetric(n: nat, g: seq<BtfType>, a: nat, h: seq<BtfType>, b: nat)
    requires Closed(g) && Closed(h) && a < |g| && b < |h|
    requires Same(n, g, a, h, b)
    ensures Same(n, h, b, g, a)
  {
    if n > 0 {
      forall k | 0 <= k < |Refs(h[b])| ensures Same(n - 1, h, Refs(h[b])[k], g, Refs(g[a])[k]) {
        SameSymmetric(n - 1, g, Refs(g[a])[k], h, Refs(h[b])[k]);
      }
    }
  }

  lemma {:induction false} SameTransitive(n: nat, g: seq<BtfType>, a: nat, h: seq<BtfType>, b: nat, i: seq<BtfType>, c: nat)
    requires Closed(g) && Closed(h) && Closed(i) && a < |g| && b < |h| && c < |i|
    requires Same(n, g, a, h, b) && Same(n, h, b, i, c)
    ensures Same(n, g, a, i, c)
  {
    if n > 0 {
      forall k | 0 <= k < |Refs(g[a])| ensures Same(n - 1, g, Refs(g[a])[k], i, Refs(i[c])[k]) {
        SameTransitive(n - 1, g, Refs(g[a])[k], h, Refs(h[b])[k], i, Refs(i[c])[k]);
      }
    }
  }

  /** FWDs stand for a struct or, with the kind flag set, for a union. */
  function FwdKind(t: BtfType): Kind {
    if Kflag(t) then Union else Struct
  }

  function Class(t: BtfType): Kind {
    if KindOf(t) == Fwd then FwdKind(t) else KindOf(t)
  }

  // ---- With forward declarations resolved

  /** A declaration without contents: a FWD, or an enum without enumerators. */
  predicate Forward(t: BtfType) {
    KindOf(t) == Fwd || (KindOf(t) == Enum && Vlen(t) == 0)
  }

  /** One of the records is a forward declaration of what the other is, or declares. */
  predicate Declares(t: BtfType, u: BtfType) {
    t.nameOff == u.nameOff && (Forward(t) || Forward(u)) &&
    if KindOf(t) == Fwd || KindOf(u) == Fwd then Class(t) == Class(u)
    else KindOf(t) == KindOf(u) && t.word == u.word && t.info.(vlen := 0) == u.info.(vlen := 0)
  }

  /** The two look the same when unfolded to depth n, where a forward declaration looks like whatever
      it declares. */
  ghost predicate Like(n: nat, g: seq<BtfType>, a: nat, h: seq<BtfType>, b: nat)
    requires Closed(g) && Closed(h) && a < |g| && b < |h|
  {
    n > 0 ==>
      Declares(g[a], h[b]) ||
      (Shape(g[a]) == Shape(h[b]) && |Refs(g[a])| == |Refs(h[b])| &&
       forall k :: 0 <= k < |Refs(g[a])| ==> Like(n - 1, g, Refs(g[a])[k], h, Refs(h[b])[k]))
  }

  ghost predicate Similar(g: seq<BtfType>, a: nat, h: seq<BtfType>, b: nat)
    requires Closed(g) && Closed(h) && a < |g| && b < |h|
  {
    forall n: nat :: Like(n, g, a, h, b)
  }

  /** All that one forward declaration declares is similar. */
  ghost predicate Unambiguous(g: seq<BtfType>)
    requires Closed(g)
  {
    forall f: nat, x: nat, y: nat ::
      f < |g| && x < |g| && y < |g| && Forward(g[f]) && Declares(g[f], g[x]) && Declares(g[f], g[y]) && !Forward(g[x]) && !Forward(g[y]) ==>
        Similar(g, x, g, y)
  }

  lemma {:induction false} LikeReflexive(n: nat, g: seq<BtfType>, a: nat)
    requires Closed(g) && a < |g|
    ensures Like(n, g, a, g, a)
  {
    if n > 0 {
      forall k | 0 <= k < |Refs(g[a])| ensures Like(n - 1, g, Refs(g[a])[k], g, Refs(g[a])[k]) {
        LikeReflexive(n - 1, g, Refs(g[a])[k]);
      }
    }
  }

  lemma {:induction false} LikeSymmetric(n: nat, g: seq<BtfType>, a: nat, h: seq<BtfType>, b: nat)
    requires Closed(g) && Closed(h) && a < |g| && b < |h|
    requires Like(n, g, a, h, b)
    ensures Like(n, h, b, g, a)
  {
    if n > 0 && !Declares(g[a], h[b]) {
      forall k | 0 <= k < |Refs(h[b])| ensures Like(n - 1, h, Refs(h[b])[k], g, Refs(g[a])[k]) {
        LikeSymmetric(n - 1, g, Refs(g[a])[k], h, Refs(h[b])[k]);
      }
    }
  }

  /** A record of the same shape is declared by the same declarations. */
  lemma DeclaresShape(t: BtfType, u: BtfType, v: BtfType)
    requires Declares(t, u) && Shape(u) == Shape(v)
    ensures Declares(t, v) && Declares(v, t)
  {
    ShapeFixesKind(u, v);
    assert u.word == v.word || WordIsRef(KindOf(u));
  }

  lemma DeclaresOn(t: BtfType, u: BtfType, v: BtfType)
    requires Declares(t, u) && Declares(u, v) && (Forward(t) || Forward(v))
    ensures Declares(t, v)
  {
    assert KindOf(t) != Fwd && KindOf(u) != Fwd ==> KindOf(t) == t.info.(vlen := 0).kind;
  }

  /** Without ambiguous declarations likeness is transitive. */
  lemma {:induction false} LikeTransitive(n: nat, g: seq<BtfType>, a: nat, b: nat, c: nat)
    requires Closed(g) && Unambiguous(g) && a < |g| && b < |g| && c < |g|
    requires Like(n, g, a, g, b) && Like(n, g, b, g, c)
    ensures Like(n, g, a, g, c)
  {
    hide Shape, Declares, Unambiguous;
    if n > 0 {
      if Declares(g[a], g[b]) && Declares(g[b], g[c]) {
        if Forward(g[a]) || Forward(g[c]) { DeclaresOn(g[a], g[b], g[c]); }
        else { OneDefinition(g, b, a, c); }
      } else if Declares(g[a], g[b]) {
        DeclaresShape(g[a], g[b], g[c]);
      } else if Declares(g[b], g[c]) {
        DeclaresTurned(g[b], g[c]);
        DeclaresShape(g[c], g[b], g[a]);
      } else {
        forall k | 0 <= k < |Refs(g[a])| ensures Like(n - 1, g, Refs(g[a])[k], g, Refs(g[c])[k]) {
          LikeTransitive(n - 1, g, Refs(g[a])[k], Refs(g[b])[k], Refs(g[c])[k]);
        }
      }
    }
  }

  lemma DeclaresTurned(t: BtfType, u: BtfType)
    requires Declares(t, u)
    ensures Declares(u, t) && (!Forward(t) ==> Forward(u))
  {
  }

  lemma OneDefinition(g: seq<BtfType>, f: nat, x: nat, y: nat)
    requires Closed(g) && Unambiguous(g) && f < |g| && x < |g| && y < |g|
    requires Declares(g[x], g[f]) && Declares(g[f], g[y]) && !Forward(g[x]) && !Forward(g[y])
    ensures Similar(g, x, g, y)
  {
    DeclaresTurned(g[x], g[f]);
  }

  /** In particular, no declaration is ambiguous if each is for one definition only. */
  lemma DefinedOnce(g: seq<BtfType>)
    requires Closed(g)
    requires forall f: nat, x: nat, y: nat ::
      f < |g| && x < |g| && y < |g| && Forward(g[f]) && Declares(g[f], g[x]) && Declares(g[f], g[y]) && !Forward(g[x]) && !Forward(g[y]) ==> x == y
    ensures Unambiguous(g)
  {
    hide Declares, Forward, Like;
    forall x: nat, n: nat | x < |g| ensures Like(n, g, x, g, x) { LikeReflexive(n, g, x); }
  }

  /** What deduplication keeps: always the name and the kind, where a FWD counts as the kind it
      announces; the whole unfolding when forward declarations are not resolved; and when they are, the
      unfolding up to forward declarations, if none is ambiguous. */
  ghost predicate Alike(strict: bool, g: seq<BtfType>, a: nat, b: nat)
    requires Closed(g) && a < |g| && b < |g|
  {
    g[a].nameOff == g[b].nameOff && Class(g[a]) == Class(g[b]) &&
    (strict ==> Bisimilar(g, a, g, b)) &&
    (!strict && Unambiguous(g) ==> Similar(g, a, g, b))
  }

  /** A forward declaration is alike to what it declares. */
  lemma DeclaredAlike(g: seq<BtfType>, a: nat, b: nat)
    requires Closed(g) && a < |g| && b < |g| && Declares(g[a], g[b])
    ensures Alike(false, g, a, b)
  {
  }

  lemma AlikeReflexive(strict: bool, g: seq<BtfType>, a: nat)
    requires Closed(g) && a < |g|
    ensures Alike(strict, g, a, a)
  {
    forall n: nat ensures Same(n, g, a, g, a) { SameReflexive(n, g, a); }
    forall n: nat ensures Like(n, g, a, g, a) { LikeReflexive(n, g, a); }
  }

  lemma AlikeSymmetric(strict: bool, g: seq<BtfType>, a: nat, b: nat)
    requires Closed(g) && a < |g| && b < |g| && Alike(strict, g, a, b)
    ensures Alike(strict, g, b, a)
  {
    if strict {
      forall n: nat ensures Same(n, g, b, g, a) { SameSymmetric(n, g, a, g, b); }
    } else if Unambiguous(g) {
      forall n: nat ensures Like(n, g, b, g, a) { LikeSymmetric(n, g, a, g, b); }
    }
  }

  lemma AlikeTransitive(strict: bool, g: seq<BtfType>, a: nat, b: nat, c: nat)
    requires Closed(g) && a < |g| && b < |g| && c < |g|
    requires Alike(strict, g, a, b) && Alike(strict, g, b, c)
    ensures Alike(strict, g, a, c)
  {
    if strict {
      forall n: nat ensures Same(n, g, a, g, c) { SameTransitive(n, g, a, g, b, g, c); }
    } else if Unambiguous(g) {
      forall n: nat ensures Like(n, g, a, g, c) { LikeTransitive(n, g, a, b, c); }
    }
  }

  /** Alike types of strict graphs agree on the FWD kind too. */
  lemma StrictAlikeKind(g: seq<BtfType>, a: nat, b: nat)
    requires Closed(g) && a < |g| && b < |g| && Alike(true, g, a, b)
    ensures KindOf(g[a]) == KindOf(g[b])
  {
    assert Same(1, g, a, g, b);
    ShapeFixesKind(g[a], g[b]);
  }
}
