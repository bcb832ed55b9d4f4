/** What a type's record becomes in deduplication: which record may stand for which, hop by hop
    along `map`. */
module Contents {
  import opened BtfGraph
  import opened BtfCompare
  import opened IdMap
  import opened Hypothesis

  /** Record u may stand for record t: an equal one for integers and enums, a definition also for a
      forward declaration, and otherwise one that differs in its references only. For structs and
      unions that last part holds if the graph has one shape only for what a FWD announces. */
  ghost predicate Becomes(g: seq<BtfType>, t: BtfType, u: BtfType) {
    match KindOf(t)
    case Int => u == t
    case Enum => if Vlen(t) == 0 then DeclaredBy(t, u) else u == t
    case Fwd => Shape(u) == Shape(t) || Announced(t, u)
    case Struct => SameComposite(g, t, u)
    case Union => SameComposite(g, t, u)
    case _ => Shape(u) == Shape(t)
  }

  /** An enum of the name, size and flags of a forward enum. */
  predicate DeclaredBy(t: BtfType, u: BtfType) {
    KindOf(u) == Enum && u.nameOff == t.nameOff && u.word == t.word && u.info.(vlen := 0) == t.info.(vlen := 0)
  }

  /** A struct or union of the name and kind that a FWD announces. */
  predicate Announced(t: BtfType, u: BtfType) {
    u.nameOff == t.nameOff && KindOf(u) == if Kflag(t) then Union else Struct
  }

  ghost predicate SameComposite(g: seq<BtfType>, t: BtfType, u: BtfType) {
    KindOf(u) == KindOf(t) && u.nameOff == t.nameOff && (OneShape(g, t) ==> Shape(u) == Shape(t))
  }

  /** No FWD of the graph announces t beside structs or unions of different shapes. */
  ghost predicate OneShape(g: seq<BtfType>, t: BtfType) {
    forall f: nat, x: nat, y: nat ::
      f < |g| && x < |g| && y < |g| && KindOf(g[f]) == Fwd && Announced(g[f], t) && Announced(g[f], g[x]) && Announced(g[f], g[y]) ==>
        Shape(g[x]) == Shape(g[y])
  }

  lemma BecomesItself(g: seq<BtfType>, t: BtfType)
    ensures Becomes(g, t, t)
  {
  }

  lemma BecomesTransitive(g: seq<BtfType>, t: BtfType, u: BtfType, v: BtfType)
    requires Becomes(g, t, u) && Becomes(g, u, v)
    ensures Becomes(g, t, v)
  {
    hide Shape, OneShape;
    if Shape(u) == Shape(t) { ShapeFixesKind(u, t); }
    SameDeclared(g, t, u);
  }

  /** Variables and sections. */
  predicate NeverDeduped(k: Kind) {
    k == Var || k == Datasec
  }

  /** Every recorded hop leads to a record that may stand for the one left; variables and sections
      stay where they are. */
  ghost predicate Faithful(g: seq<BtfType>, m: seq<nat>)
    requires InRange(m) && |m| == |g|
  {
    forall i: nat :: i < |m| && Mapped(m, i) ==>
      Becomes(g, g[i], g[m[i]]) && (NeverDeduped(KindOf(g[i])) ==> m[i] == i)
  }

  lemma {:induction false} WalkFaithful(g: seq<BtfType>, m: seq<nat>, i: nat, k: nat)
    requires InRange(m) && |m| == |g| && Faithful(g, m) && i < |m| && Ends(m, i, k)
    ensures Becomes(g, g[i], g[Walk(m, i, k)])
    decreases k
  {
    hide Becomes, OneShape;
    if IsRoot(m, i) {
      BecomesItself(g, g[i]);
    } else {
      WalkFaithful(g, m, m[i], k - 1);
      BecomesTransitive(g, g[i], g[m[i]], g[Walk(m, i, k)]);
    }
  }

  /** What a type resolves to may stand for it. */
  lemma RootFaithful(g: seq<BtfType>, m: seq<nat>, i: nat)
    requires InRange(m) && |m| == |g| && Acyclic(m) && Faithful(g, m) && i < |m|
    ensures Becomes(g, g[i], g[Root(m, i)])
  {
    var k := RootWitness(m, i);
    WalkFaithful(g, m, i, k);
  }

  lemma RedirectKeepsFaithful(g: seq<BtfType>, m: seq<nat>, x: nat, y: nat)
    requires InRange(m) && |m| == |g| && Faithful(g, m) && x < |m| && y < |m|
    requires Becomes(g, g[x], g[y]) && (x == y || !NeverDeduped(KindOf(g[x])))
    requires InRange(m[x := y])
    ensures Faithful(g, m[x := y])
  {
    hide Becomes, OneShape;
  }

  lemma MarkKeepsFaithful(g: seq<BtfType>, m: seq<nat>, x: nat, v: nat)
    requires InRange(m) && |m| == |g| && Faithful(g, m) && x < |m| && v > MAX_NR_TYPES
    requires InRange(m[x := v])
    ensures Faithful(g, m[x := v])
  {
    hide Becomes, OneShape;
  }

  /** A FWD may be replaced by what it was found alike to. */
  lemma FwdBecomes(g: seq<BtfType>, t: BtfType, u: BtfType)
    requires KindOf(t) == Fwd && KindOf(u) != Fwd && Class(t) == Class(u) && t.nameOff == u.nameOff
    ensures Becomes(g, t, u)
  {
  }

  lemma CompatibleBecomes(g: seq<BtfType>, t: BtfType, u: BtfType)
    requires IsEnumFwd(t) && CompatibleEnums(t, u)
    ensures Becomes(g, t, u)
  {
    assert t.info.(vlen := 0) == u.info.(vlen := 0);
    assert KindOf(t) == t.info.(vlen := 0).kind;
  }

  /** The roots of a pair of a finished hypothesis: composites that are to be joined have one shape,
      except where a FWD announces more than one. */
  lemma RootShapes(strict: bool, g: seq<BtfType>, m: seq<nat>, a: nat, c: nat)
    requires InRange(m) && |m| == |g| && Acyclic(m) && Faithful(g, m) && a < |m| && c < |m|
    requires NodesAgree(strict, g[a], g[c])
    requires IsComposite(KindOf(g[Root(m, a)])) && KindOf(g[Root(m, c)]) != Fwd
    ensures Becomes(g, g[Root(m, a)], g[Root(m, c)])
  {
    hide Shape, OneShape, Acyclic;
    var t, r := Root(m, a), Root(m, c);
    RootFaithful(g, m, a);
    RootFaithful(g, m, c);
    NodesAgreeClass(strict, g[a], g[c]);
    BecomesClass(g, g[a], g[t]);
    BecomesClass(g, g[c], g[r]);
    SameDeclared(g, g[a], g[t]);
    SameDeclared(g, g[c], g[r]);
    SameDeclared(g, g[t], g[r]);
    if OneShape(g, g[t]) && KindOf(g[a]) == Fwd {
      OneAnnounced(g, a, t, r);
    } else if OneShape(g, g[t]) && KindOf(g[c]) == Fwd {
      OneAnnounced(g, c, t, r);
    }
  }

  lemma SameDeclared(g: seq<BtfType>, t: BtfType, u: BtfType)
    ensures KindOf(t) == KindOf(u) && t.nameOff == u.nameOff ==> (OneShape(g, t) <==> OneShape(g, u))
  {
    hide Shape;
  }

  lemma BecomesClass(g: seq<BtfType>, t: BtfType, u: BtfType)
    requires Becomes(g, t, u)
    ensures Class(t) == Class(u)
    ensures KindOf(t) == Fwd || IsComposite(KindOf(t)) ==> u.nameOff == t.nameOff
  {
    hide Shape;
    if Shape(u) == Shape(t) { ShapeFixesKind(u, t); }
  }

  lemma OneAnnounced(g: seq<BtfType>, f: nat, x: nat, y: nat)
    requires f < |g| && x < |g| && y < |g| && OneShape(g, g[x]) && KindOf(g[f]) == Fwd && Announced(g[f], g[x]) && Announced(g[f], g[y])
    ensures Shape(g[x]) == Shape(g[y])
  {
  }

  /** Every mapped struct or union leads to one of its shape. */
  ghost predicate ShapesKept(g: seq<BtfType>, m: seq<nat>)
    requires InRange(m) && |m| == |g|
  {
    forall i: nat :: i < |m| && Mapped(m, i) && IsComposite(KindOf(g[i])) ==> Shape(g[m[i]]) == Shape(g[i])
  }

  /** Recording one pair of a hypothesis keeps that exactly if it does not join, to a settled struct or
      union, an open one of another shape. */
  lemma MergeKeepsShapesExactly(g: seq<BtfType>, m: seq<nat>, t: nat, c: nat)
    requires InRange(m) && |m| == |g| && t < |m| && c < |m| && ShapesKept(g, m)
    requires InRange(MergedPair(m, g, t, c))
    ensures ShapesKept(g, MergedPair(m, g, t, c)) <==>
      !(IsComposite(KindOf(g[t])) && KindOf(g[c]) != Fwd && Mapped(m, c) && !Mapped(m, t) && Shape(g[t]) != Shape(g[c]))
  {
    hide Shape;
    var m' := MergedPair(m, g, t, c);
    if IsComposite(KindOf(g[t])) && KindOf(g[c]) != Fwd && Mapped(m, c) && !Mapped(m, t) {
      assert m' == m[t := c] && Mapped(m', t);
    }
  }

  // The output ------------------------------------------------------------------------------

  /** Record u is record t with every reference renamed. */
  ghost predicate RefsRenamed(t: BtfType, u: BtfType, f: seq<nat>) {
    Shape(u) == Shape(t) && |Refs(u)| == |Refs(t)| &&
    forall k :: 0 <= k < |Refs(t)| ==> Refs(t)[k] < |f| && Refs(u)[k] == f[Refs(t)[k]]
  }

  /** The same, field by field: which numbers of a record are ids and are renamed. */
  ghost predicate FieldsRenamed(t: BtfType, u: BtfType, f: seq<nat>) {
    u.nameOff == t.nameOff && u.info == t.info && BodyRenamed(t.body, u.body, f) &&
    match t.info.kind
    case Unkn => u.word == t.word
    case Int => u.word == t.word
    case Array => u.word == t.word
    case Struct => u.word == t.word
    case Union => u.word == t.word
    case Enum => u.word == t.word
    case Datasec => u.word == t.word
    case _ => t.word < |f| && u.word == f[t.word]
  }

  ghost predicate BodyRenamed(b: Body, c: Body, f: seq<nat>) {
    match b
    case ArrayBody(elem, index, n) => elem < |f| && index < |f| && c == ArrayBody(f[elem], f[index], n)
    case Members(ms) =>
      c.Members? && |c.ms| == |ms| &&
      forall i :: 0 <= i < |ms| ==> ms[i].typ < |f| && c.ms[i] == Member(ms[i].nameOff, f[ms[i].typ], ms[i].offset)
    case Params(ps) =>
      c.Params? && |c.ps| == |ps| &&
      forall i :: 0 <= i < |ps| ==> ps[i].typ < |f| && c.ps[i] == Param(ps[i].nameOff, f[ps[i].typ])
    case SecVars(vs) =>
      c.SecVars? && |c.vs| == |vs| &&
      forall i :: 0 <= i < |vs| ==> vs[i].typ < |f| && c.vs[i] == SecVar(f[vs[i].typ], vs[i].offset, vs[i].size)
    case _ => c == b
  }

  ghost predicate BodyRefsRenamed(b: Body, c: Body, f: seq<nat>) {
    BodyShape(b) == BodyShape(c) && |BodyRefs(b)| == |BodyRefs(c)| &&
    forall k :: 0 <= k < |BodyRefs(b)| ==> BodyRefs(b)[k] < |f| && BodyRefs(c)[k] == f[BodyRefs(b)[k]]
  }

  lemma BodyFieldsAreRefs(b: Body, c: Body, f: seq<nat>)
    requires BodyRenamed(b, c, f)
    ensures BodyRefsRenamed(b, c, f)
  {
    if b.Members? {
      assert BodyShape(c).ms == BodyShape(b).ms;
    } else if b.Params? {
      assert BodyShape(c).ps == BodyShape(b).ps;
    } else if b.SecVars? {
      assert BodyShape(c).vs == BodyShape(b).vs;
    }
  }

  lemma BodyRefsAreFields(b: Body, c: Body, f: seq<nat>)
    requires BodyRefsRenamed(b, c, f)
    ensures BodyRenamed(b, c, f)
  {
    var x, y := BodyShape(b), BodyShape(c);
    match b
    case Members(ms) =>
      assert c.Members? && |y.ms| == |c.ms|;
      forall i | 0 <= i < |ms| ensures ms[i].typ < |f| && c.ms[i] == ms[i].(typ := f[ms[i].typ]) {
        assert x.ms[i] == y.ms[i] && BodyRefs(b)[i] == ms[i].typ && BodyRefs(c)[i] == c.ms[i].typ;
      }
    case Params(ps) =>
      assert c.Params? && |y.ps| == |c.ps|;
      forall i | 0 <= i < |ps| ensures ps[i].typ < |f| && c.ps[i] == ps[i].(typ := f[ps[i].typ]) {
        assert x.ps[i] == y.ps[i] && BodyRefs(b)[i] == ps[i].typ && BodyRefs(c)[i] == c.ps[i].typ;
      }
    case SecVars(vs) =>
      assert c.SecVars? && |y.vs| == |c.vs|;
      forall i | 0 <= i < |vs| ensures vs[i].typ < |f| && c.vs[i] == vs[i].(typ := f[vs[i].typ]) {
        assert x.vs[i] == y.vs[i] && BodyRefs(b)[i] == vs[i].typ && BodyRefs(c)[i] == c.vs[i].typ;
      }
    case ArrayBody(elem, index, _) =>
      assert BodyRefs(b)[0] == elem && BodyRefs(b)[1] == index;
      assert c.ArrayBody? && BodyRefs(c)[0] == c.elem && BodyRefs(c)[1] == c.index;
    case _ =>
  }

  lemma RefsFromBody(t: BtfType, u: BtfType, f: seq<nat>)
    requires u.info == t.info
    ensures RefsRenamed(t, u, f) <==>
      u.nameOff == t.nameOff && BodyRefsRenamed(t.body, u.body, f) &&
      if WordIsRef(KindOf(t)) then t.word < |f| && u.word == f[t.word] else u.word == t.word
  {
    hide BodyShape, BodyRefs;
    if WordIsRef(KindOf(t)) {
      assert Refs(t) == [t.word] + BodyRefs(t.body) && Refs(u) == [u.word] + BodyRefs(u.body);
      if RefsRenamed(t, u, f) {
        assert Refs(t)[0] == t.word && Refs(u)[0] == u.word;
        forall k | 0 <= k < |BodyRefs(t.body)| ensures BodyRefs(t.body)[k] < |f| && BodyRefs(u.body)[k] == f[BodyRefs(t.body)[k]] {
          assert Refs(t)[k + 1] == BodyRefs(t.body)[k] && Refs(u)[k + 1] == BodyRefs(u.body)[k];
        }
      }
    } else {
      assert Refs(t) == BodyRefs(t.body) && Refs(u) == BodyRefs(u.body);
    }
  }

  /** Renaming the references is renaming exactly those fields. */
  lemma RenamedExactly(t: BtfType, u: BtfType, f: seq<nat>)
    ensures RefsRenamed(t, u, f) <==> FieldsRenamed(t, u, f)
  {
    hide BodyRefsRenamed, BodyRenamed, RefsRenamed;
    if u.info == t.info {
      RefsFromBody(t, u, f);
      if BodyRenamed(t.body, u.body, f) { BodyFieldsAreRefs(t.body, u.body, f); }
      if BodyRefsRenamed(t.body, u.body, f) { BodyRefsAreFields(t.body, u.body, f); }
    } else {
      DifferentInfo(t, u, f);
    }
  }

  lemma DifferentInfo(t: BtfType, u: BtfType, f: seq<nat>)
    requires u.info != t.info
    ensures !RefsRenamed(t, u, f)
  {
    if Shape(u) == Shape(t) { ShapeFixesKind(u, t); }
  }

  /** What is left of type a: a record that may stand for it, and, of a reference type, a variable or a
      section, the record itself with its references renamed. */
  ghost predicate ContentsKept(g0: seq<BtfType>, out: seq<BtfType>, f: seq<nat>, a: nat)
    requires a < |g0| == |f| && f[a] < |out|
  {
    Becomes(g0, g0[a], out[f[a]]) &&
    (IsRefKind(KindOf(g0[a])) || NeverDeduped(KindOf(g0[a])) ==> RefsRenamed(g0[a], out[f[a]], f))
  }

  /** A record rebuilt from one that may stand for t, if that one refers to nothing or only its shape
      counts. */
  lemma BecomesRebuilt(g: seq<BtfType>, t: BtfType, u: BtfType, v: BtfType)
    requires Becomes(g, t, u) && WellFormed(u) && Shape(v) == Shape(u) && |Refs(v)| == |Refs(u)|
    ensures Becomes(g, t, v)
  {
    hide Shape, WellFormed;
    ShapeFixesKind(v, u);
    if KindOf(u) == Int || KindOf(u) == Enum {
      LeavesReferToNothing(u);
      ShapeAndRefs(v, u);
    }
  }
}
