/** How one forward declaration can join two different structs: the graph check relates a FWD to any
    struct of its name, and what the FWD was resolved to before is then joined to that struct. */
module AmbiguousForward {
  import opened BtfGraph
  import opened BtfCompare
  import opened IdMap
  import opened Hypothesis
  import opened Contents

  /** Two structs x with a pointer to a struct s: one that is only declared (1), and one with a member
      b (10). Two structs y likewise: with the declared one, and with one that has a member a (4). */
  function Graph(): seq<BtfType> {
    [VOID,
     BtfType(1, Info(0, Fwd, false, 0), 0, NoBody),
     Pointer(1),
     Holder(2, 2),
     Single(5, 11),
     Pointer(4),
     Holder(3, 5),
     Pointer(10),
     Holder(2, 7),
     Holder(3, 2),
     Single(6, 11),
     BtfType(7, Info(0, Int, false, 0), 4, IntBody(32))]
  }

  function Pointer(to: nat): BtfType {
    BtfType(0, Info(0, Ptr, false, 0), to, NoBody)
  }

  /** A struct with one member, at offset 0. */
  function StructOf(name: nat, size: nat, member: nat, typ: nat): BtfType {
    BtfType(name, Info(1, Struct, false, 0), size, Members([Member(member, typ, 0)]))
  }

  function Holder(name: nat, typ: nat): BtfType {
    StructOf(name, 8, 4, typ)
  }

  function Single(member: nat, typ: nat): BtfType {
    StructOf(1, 4, member, typ)
  }

  /** The map when the second struct x comes up: the declaration and the first three structs are
      canonical. */
  function Before(): seq<nat> {
    var u := UNPROCESSED;
    [0, 1, u, 3, 4, u, 6, u, u, u, u, 11]
  }

  lemma GraphIsWellFormed()
    ensures WellFormedGraph(Graph()) && |Graph()| == 12
  {
    GraphOfRecords(Graph());
  }

  /** Every walk takes one hop at most. */
  ghost predicate Flat(m: seq<nat>)
    requires InRange(m)
  {
    forall i: nat :: i < |m| && Mapped(m, i) ==> IsRoot(m, m[i])
  }

  lemma FlatRoots(m: seq<nat>)
    requires InRange(m) && Flat(m)
    ensures Acyclic(m) && forall i: nat :: i < |m| ==> Root(m, i) == if Mapped(m, i) then m[i] else i
  {
    forall i: nat | i < |m| ensures Stops(m, i) {
      assert Mapped(m, i) ==> Ends(m, m[i], 0);
      assert Ends(m, i, 1);
    }
    forall i: nat | i < |m| ensures Root(m, i) == if Mapped(m, i) then m[i] else i {
      RootStep(m, i);
      if Mapped(m, i) { RootStep(m, m[i]); }
    }
  }

  lemma PointerRecords(a: nat, b: nat)
    ensures NodesAgree(false, Pointer(a), Pointer(b)) && Refs(Pointer(a)) == [a]
  {
  }

  lemma HolderRecords(name: nat, a: nat, b: nat)
    ensures NodesAgree(false, Holder(name, a), Holder(name, b)) && Refs(Holder(name, a)) == [a]
  {
    assert BodyShape(Holder(name, a).body).ms == BodyShape(Holder(name, b).body).ms;
    assert BodyRefs(Holder(name, a).body) == [a];
  }

  lemma ForwardRecords(member: nat, typ: nat)
    ensures var f := Graph()[1]; NodesAgree(false, Single(member, typ), f) && NodesAgree(false, f, Single(member, typ))
    ensures KindOf(Single(member, typ)) == Struct && KindOf(Graph()[1]) == Fwd
  {
  }

  /** Three assumed pairs: two structs, their pointers, and what these point to. */
  function Assumed(c: nat, a: nat, pc: nat, pa: nat, sc: nat, sa: nat): (h: seq<nat>)
    requires c < 12 && pc < 12 && sc < 12
    ensures |h| == 12
  {
    seq(12, _ => UNPROCESSED)[c := a][pc := pa][sc := sa]
  }

  lemma AssumedComplete(m: seq<nat>, name: nat, c: nat, a: nat, pc: nat, pa: nat, sc: nat, sa: nat)
    requires InRange(m) && |m| == 12 && Flat(m)
    requires c < 12 && a < 12 && pc < 12 && pa < 12 && sc < 12 && sa < 12 && c != pc && c != sc && pc != sc
    requires Graph()[c] == Holder(name, pc) && Graph()[a] == Holder(name, pa)
    requires Graph()[pc] == Pointer(sc) && Graph()[pa] == Pointer(sa)
    requires NodesAgree(false, Graph()[sa], Graph()[sc]) && KindOf(Graph()[sa]) != KindOf(Graph()[sc])
    requires Acyclic(m) && FwdTarget(m, Graph(), sc) == sc
    ensures WellFormedGraph(Graph())
    ensures var h := Assumed(c, a, pc, pa, sc, sa); Complete(false, m, Graph(), h) && Related(m, Graph(), h, a, c)
  {
    GraphIsWellFormed();
    hide Graph, WellFormedGraph, Acyclic, NodesAgree, WellFormed, InRange, Flat;
    var g, h := Graph(), Assumed(c, a, pc, pa, sc, sa);
    HolderRecords(name, pa, pc);
    HolderRecords(name, pc, pa);
    PointerRecords(sa, sc);
    PointerRecords(sc, sa);
    assert KindOf(Holder(name, pc)) == Struct && KindOf(Pointer(sc)) == Ptr;
  }

  /** Recording one more pair, when every walk takes one hop at most. */
  lemma Recorded(m: seq<nat>, g: seq<BtfType>, h: seq<nat>, list: seq<nat>, n: nat, p: seq<nat>)
    requires |m| == |g| == |h| && n < |list| && MergedAll(m, g, h, list, n) == p && InRange(p) && Flat(p)
    requires list[n] < |p| && h[list[n]] < |p|
    ensures
      var c, a := list[n], h[list[n]];
      MergedAll(m, g, h, list, n + 1) == MergedPair(p, g, if Mapped(p, a) then p[a] else a, if Mapped(p, c) then p[c] else c)
  {
    FlatRoots(p);
  }

  lemma Kinds()
    ensures |Graph()| == 12 && KindOf(Graph()[1]) == Fwd
    ensures forall i :: i in {2, 5, 7} ==> KindOf(Graph()[i]) == Ptr
    ensures forall i :: i in {3, 4, 6, 8, 9, 10} ==> KindOf(Graph()[i]) == Struct
  {
  }

  lemma FirstPairs()
    ensures var g, m, h := Graph(), Before(), Assumed(3, 8, 2, 7, 1, 10);
      |g| == 12 && MergedAll(m, g, h, [3, 2, 1], 2) == m[8 := 3]
  {
    hide Graph, MergedAll, Root;
    Kinds();
    var g, m, h := Graph(), Before(), Assumed(3, 8, 2, 7, 1, 10);
    NothingRecorded(m, g, h, [3, 2, 1]);
    Recorded(m, g, h, [3, 2, 1], 0, m);
    assert MergedAll(m, g, h, [3, 2, 1], 1) == m[8 := 3];
    Recorded(m, g, h, [3, 2, 1], 1, m[8 := 3]);
  }

  lemma FirstMerge()
    ensures var g, m, h := Graph(), Before(), Assumed(3, 8, 2, 7, 1, 10);
      |g| == 12 && MergedAll(m, g, h, [3, 2, 1], 3) == m[8 := 3][1 := 10]
  {
    hide Graph, MergedAll, Root;
    Kinds();
    FirstPairs();
    Recorded(Before(), Graph(), Assumed(3, 8, 2, 7, 1, 10), [3, 2, 1], 2, Before()[8 := 3]);
  }

  lemma NothingRecorded(m: seq<nat>, g: seq<BtfType>, h: seq<nat>, list: seq<nat>)
    requires |m| == |g| == |h|
    ensures MergedAll(m, g, h, list, 0) == m
  {
  }

  lemma SecondPairs()
    ensures var g, m, h := Graph(), Before()[8 := 3][1 := 10], Assumed(6, 9, 5, 2, 4, 1);
      |g| == 12 && MergedAll(m, g, h, [6, 5, 4], 2) == m[9 := 6]
  {
    hide Graph, MergedAll, Root;
    Kinds();
    var g, m, h := Graph(), Before()[8 := 3][1 := 10], Assumed(6, 9, 5, 2, 4, 1);
    NothingRecorded(m, g, h, [6, 5, 4]);
    Recorded(m, g, h, [6, 5, 4], 0, m);
    assert MergedAll(m, g, h, [6, 5, 4], 1) == m[9 := 6];
    Recorded(m, g, h, [6, 5, 4], 1, m[9 := 6]);
  }

  lemma SecondMerge()
    ensures var g, m, h := Graph(), Before()[8 := 3][1 := 10], Assumed(6, 9, 5, 2, 4, 1);
      |g| == 12 && MergedAll(m, g, h, [6, 5, 4], 3) == m[9 := 6][10 := 4]
  {
    hide Graph, MergedAll, Root;
    Kinds();
    SecondPairs();
    var m := Before()[8 := 3][1 := 10];
    Recorded(m, Graph(), Assumed(6, 9, 5, 2, 4, 1), [6, 5, 4], 2, m[9 := 6]);
  }

  /** The check of the second x against the first relates the declaration to the struct with b ... */
  lemma FirstCheck()
    ensures var g, m, h := Graph(), Before(), Assumed(3, 8, 2, 7, 1, 10);
      WellFormedGraph(g) && InRange(m) && Acyclic(m) && |m| == |g| && Complete(false, m, g, h) && Related(m, g, h, 8, 3) &&
      MergedAll(m, g, h, [3, 2, 1], 3) == m[8 := 3][1 := 10]
  {
    hide Complete, Acyclic, Related, MergedAll, NodesAgree;
    FlatRoots(Before());
    ForwardRecords(6, 11);
    AssumedComplete(Before(), 2, 3, 8, 2, 7, 1, 10);
    FirstMerge();
  }

  /** ... and the check of the second y against the first then joins that struct to the one with a. */
  lemma SecondCheck()
    ensures var g, m, h := Graph(), Before()[8 := 3][1 := 10], Assumed(6, 9, 5, 2, 4, 1);
      WellFormedGraph(g) && InRange(m) && Acyclic(m) && |m| == |g| && Complete(false, m, g, h) && Related(m, g, h, 9, 6) &&
      MergedAll(m, g, h, [6, 5, 4], 3) == m[9 := 6][10 := 4]
    ensures Shape(Graph()[10]) != Shape(Graph()[4]) && Graph()[10].nameOff == Graph()[4].nameOff
    ensures !OneShape(Graph(), Graph()[10])
  {
    hide Complete, Acyclic, Related, MergedAll, NodesAgree, Shape;
    FlatRoots(Before()[8 := 3][1 := 10]);
    ForwardRecords(5, 11);
    AssumedComplete(Before()[8 := 3][1 := 10], 3, 6, 9, 5, 2, 4, 1);
    SecondMerge();
    DifferentShapes();
    assert Announced(Graph()[1], Graph()[4]) && Announced(Graph()[1], Graph()[10]);
  }

  /** What is joined does not look the same even at the surface; the graph is one with an ambiguous
      declaration. */
  lemma NotLike()
    ensures WellFormedGraph(Graph()) && !Like(1, Graph(), 10, Graph(), 4) && !Unambiguous(Graph())
  {
    GraphIsWellFormed();
    DifferentShapes();
    var g := Graph();
    BothDeclared();
    hide Graph, WellFormed, Shape, Declares, Forward;
    assert !Like(1, g, 10, g, 4);
    assert Unambiguous(g) ==> Similar(g, 10, g, 4);
  }

  lemma BothDeclared()
    ensures var g := Graph();
      |g| == 12 && Forward(g[1]) && Declares(g[1], g[4]) && Declares(g[1], g[10]) && !Forward(g[4]) && !Forward(g[10]) && !Declares(g[10], g[4])
  {
  }

  lemma DifferentShapes()
    ensures Shape(Graph()[10]) != Shape(Graph()[4])
  {
    assert BodyShape(Graph()[10].body).ms[0].nameOff == 6 && BodyShape(Graph()[4].body).ms[0].nameOff == 5;
  }
}
