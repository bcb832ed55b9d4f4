/** The declaration printer of the dumper: it walks a chain of BTF types onto a stack shared by all
    nested declarations, and prints while popping. Its output is that of `Declarator.EmitChain`. */
module DeclPrinter {
  import opened BtfGraph
  import opened Seqs
  import D = Declarator

  /** Types that end a chain. */
  predicate IsTerminal(t: BtfType) {
    KindOf(t) in {Int, Enum, Fwd, Struct, Union, Typedef}
  }

  /** The next type of a chain. */
  function Next(t: BtfType): nat
    requires WellFormed(t)
  {
    if KindOf(t) == Array then t.body.elem else t.word
  }

  class Printer {
    const types: seq<BtfType>
    const nameAt: nat -> string
    var declStack: seq<nat>
    var out: seq<D.Token>

    constructor (types: seq<BtfType>, nameAt: nat -> string)
      ensures this.types == types && this.nameAt == nameAt && declStack == [] && out == []
    {
      this.types, this.nameAt, declStack, out := types, nameAt, [], [];
    }

    /** Type id contributes the link l to a chain. */
    ghost predicate LinkOf(id: nat, l: D.Link)
      requires WellFormedGraph(types)
      decreases l, 0
    {
      id < |types| &&
      match l
      case Base(b) => b == id && (id == 0 || IsTerminal(types[id]))
      case Ptr => id != 0 && KindOf(types[id]) == Ptr
      case Qual(q) => id != 0 && KindOf(types[id]) == (match q case QConst => Const case QVolatile => Volatile case QRestrict => Restrict)
      case Arr(n) => id != 0 && KindOf(types[id]) == Array && types[id].body.nelems == n
      case Fn(ps) =>
        id != 0 && KindOf(types[id]) == FuncProto && |ps| == |types[id].body.ps| &&
        forall i :: 0 <= i < |ps| ==> ps[i].name == nameAt(types[id].body.ps[i].nameOff) && ChainFrom(types[id].body.ps[i].typ, ps[i].chain)
    }

    /** The ids on the stack stand for the chain c. */
    ghost predicate StackOf(ids: seq<nat>, c: D.Chain)
      requires WellFormedGraph(types)
      decreases c, 0
    {
      if c.Empty? then ids == []
      else ids != [] && LinkOf(ids[|ids| - 1], c.top) && StackOf(ids[..|ids| - 1], c.below)
    }

    /** The ids met on the way from a type to the end of its chain. */
    ghost predicate Path(id: nat, ids: seq<nat>)
      requires WellFormedGraph(types)
    {
      ids != [] && ids[0] == id &&
      forall i :: 0 <= i < |ids| - 1 ==>
        0 < ids[i] < |types| && KindOf(types[ids[i]]) in {Ptr, Volatile, Const, Restrict, FuncProto, Array} && ids[i + 1] == Next(types[ids[i]])
    }

    ghost predicate Ended(id: nat) {
      id < |types| && (id == 0 || IsTerminal(types[id]))
    }

    /** Type id, followed to its end, is the type that the chain c writes down. */
    ghost predicate ChainFrom(id: nat, c: D.Chain)
      requires WellFormedGraph(types)
      decreases c, 1
    {
      c.Push? && c.top.Base? && exists ids :: Path(id, ids) && StackOf(ids, c)
    }

    lemma PathOf(id: nat, c: D.Chain) returns (ids: seq<nat>)
      requires WellFormedGraph(types) && ChainFrom(id, c)
      ensures Path(id, ids) && StackOf(ids, c) && Ended(ids[|ids| - 1])
    {
      ids :| Path(id, ids) && StackOf(ids, c);
      assert LinkOf(ids[|ids| - 1], c.top);
    }

    /** Pushes the types from `id` to the end of its chain; without memory, pushes nothing. */
    method PushChain(id: nat, ghost ids: seq<nat>) returns (ok: bool)
      requires WellFormedGraph(types) && Path(id, ids) && Ended(ids[|ids| - 1])
      modifies this`declStack
      ensures declStack == old(declStack) + if ok then ids else []
    {
      var stackStart := |declStack|;
      var cur := id;
      ghost var k: nat := 0;
      while true
        invariant k < |ids| && |declStack| == stackStart + k && stackStart == |old(declStack)|
        invariant declStack == old(declStack) + ids[..k] && cur == ids[k]
        decreases |ids| - k
      {
        var oom: bool := *;
        if oom {
          declStack := declStack[..stackStart];
          return false;
        }
        declStack := declStack + [cur];
        assert ids[..k + 1] == ids[..k] + [ids[k]];
        if cur == 0 { break; }
        assert k + 1 < |ids| ==> 0 < ids[k] < |types|;
        var t := types[cur];
        match KindOf(t) {
          case Ptr | Volatile | Const | Restrict | FuncProto => cur := t.word;
          case Array => cur := t.body.elem;
          case _ => break;
        }
        k := k + 1;
      }
      assert ids[..|ids|] == ids;
      return true;
    }

    // That there is such a chain, and only one ----------------------------------------------

    /** Types with a positive rank can be printed: each is a specifier, or leads to types of lower ranks
        that can. */
    ghost predicate PrintOrder(rank: seq<nat>)
      requires WellFormedGraph(types)
    {
      |rank| == |types| && forall x :: 0 <= x < |types| && rank[x] > 0 && !Ended(x) ==> Descends(x, rank)
    }

    ghost predicate Descends(x: nat, rank: seq<nat>)
      requires WellFormedGraph(types) && |rank| == |types| && x < |types|
    {
      KindOf(types[x]) in {Ptr, Volatile, Const, Restrict, FuncProto, Array} &&
      Lower(x, if KindOf(types[x]) == Array then types[x].body.elem else types[x].word, rank) &&
      (KindOf(types[x]) == FuncProto ==> forall i :: 0 <= i < |types[x].body.ps| ==> Lower(x, types[x].body.ps[i].typ, rank))
    }

    ghost predicate Lower(x: nat, y: nat, rank: seq<nat>)
      requires |rank| == |types| && x < |types|
    {
      y < |types| && 0 < rank[y] < rank[x]
    }

    ghost predicate Ranked(x: nat, rank: seq<nat>)
      requires WellFormedGraph(types)
    {
      PrintOrder(rank) && x < |types| && rank[x] > 0
    }

    ghost function PathAt(id: nat, rank: seq<nat>): (ids: seq<nat>)
      requires WellFormedGraph(types) && Ranked(id, rank)
      ensures ids != [] && ids[0] == id
      ensures forall x :: x in ids ==> Ranked(x, rank) && rank[x] <= rank[id]
      decreases rank[id]
    {
      if Ended(id) then [id]
      else
        assert Descends(id, rank);
        [id] + PathAt(Next(types[id]), rank)
    }

    /** The chain of a type, put together from what the types on its path stand for. */
    ghost function ChainAt(id: nat, rank: seq<nat>): D.Chain
      requires WellFormedGraph(types) && Ranked(id, rank)
      decreases rank[id], 2, 0
    {
      Stacked(PathAt(id, rank), rank, rank[id])
    }

    ghost function Stacked(ids: seq<nat>, rank: seq<nat>, bound: nat): D.Chain
      requires WellFormedGraph(types) && forall x :: x in ids ==> Ranked(x, rank) && rank[x] <= bound
      decreases bound, 1, |ids|
    {
      if ids == [] then D.Empty
      else
        var n := |ids| - 1;
        assert ids[n] in ids;
        D.Push(Stacked(ids[..n], rank, bound), LinkAt(ids[n], rank))
    }

    ghost function LinkAt(id: nat, rank: seq<nat>): D.Link
      requires WellFormedGraph(types) && Ranked(id, rank)
      decreases rank[id], 0, 0
    {
      if Ended(id) then D.Base(id)
      else
        assert Descends(id, rank);
        var kind := KindOf(types[id]);
        if kind == Ptr then D.Ptr
        else if kind == Const then D.Qual(D.QConst)
        else if kind == Volatile then D.Qual(D.QVolatile)
        else if kind == Restrict then D.Qual(D.QRestrict)
        else if kind == Array then D.Arr(types[id].body.nelems)
        else
          var ps := types[id].body.ps;
          assert forall i :: 0 <= i < |ps| ==> Lower(id, ps[i].typ, rank);
          D.Fn(seq(|ps|, i requires 0 <= i < |ps| => D.Param(nameAt(ps[i].nameOff), ChainAt(ps[i].typ, rank))))
    }

    /** Every type that can be printed has a chain. */
    lemma {:induction false} ChainExists(id: nat, rank: seq<nat>)
      requires WellFormedGraph(types) && Ranked(id, rank)
      ensures ChainFrom(id, ChainAt(id, rank))
      decreases rank[id], 2, 0
    {
      hide WellFormedGraph, LinkOf, LinkAt, Descends;
      PathIsPath(id, rank);
      StackStands(PathAt(id, rank), rank, rank[id]);
      var ids := PathAt(id, rank);
      assert ids[|ids| - 1] in ids;
      EndedLink(ids[|ids| - 1], rank);
    }

    lemma EndedLink(id: nat, rank: seq<nat>)
      requires WellFormedGraph(types) && Ranked(id, rank) && Ended(id)
      ensures LinkAt(id, rank).Base?
    {
    }

    lemma {:induction false} PathIsPath(id: nat, rank: seq<nat>)
      requires WellFormedGraph(types) && Ranked(id, rank)
      ensures var ids := PathAt(id, rank); Path(id, ids) && Ended(ids[|ids| - 1])
      decreases rank[id]
    {
      hide WellFormedGraph, PrintOrder, Descends, Path, WellFormed;
      if Ended(id) { PathEnds(id); }
      if !Ended(id) {
        StepDown(id, rank);
        var rest := PathAt(Next(types[id]), rank);
        PathIsPath(Next(types[id]), rank);
        PathGrows(id, rest);
      }
    }

    lemma PathEnds(id: nat)
      requires WellFormedGraph(types)
      ensures Path(id, [id])
    {
    }

    lemma StepDown(id: nat, rank: seq<nat>)
      requires WellFormedGraph(types) && Ranked(id, rank) && !Ended(id)
      ensures 0 < id && WellFormed(types[id]) && KindOf(types[id]) in {Ptr, Volatile, Const, Restrict, FuncProto, Array}
      ensures Ranked(Next(types[id]), rank) && rank[Next(types[id])] < rank[id]
      ensures PathAt(id, rank) == [id] + PathAt(Next(types[id]), rank)
    {
      assert Descends(id, rank);
    }

    lemma PathGrows(id: nat, rest: seq<nat>)
      requires WellFormedGraph(types) && 0 < id < |types| && KindOf(types[id]) in {Ptr, Volatile, Const, Restrict, FuncProto, Array}
      requires rest != [] && Path(Next(types[id]), rest)
      ensures Path(id, [id] + rest)
    {
    }

    lemma {:induction false} StackStands(ids: seq<nat>, rank: seq<nat>, bound: nat)
      requires WellFormedGraph(types) && forall x :: x in ids ==> Ranked(x, rank) && rank[x] <= bound
      ensures StackOf(ids, Stacked(ids, rank, bound))
      decreases bound, 1, |ids|
    {
      hide WellFormedGraph, LinkOf, LinkAt, PrintOrder;
      if ids != [] {
        var n := |ids| - 1;
        assert ids[n] in ids;
        StackStands(ids[..n], rank, bound);
        LinkStands(ids[n], rank);
      }
    }

    lemma {:induction false} LinkStands(id: nat, rank: seq<nat>)
      requires WellFormedGraph(types) && Ranked(id, rank)
      ensures LinkOf(id, LinkAt(id, rank))
      decreases rank[id], 0, 0
    {
      hide ChainFrom, ChainAt;
      if !Ended(id) {
        assert Descends(id, rank);
        if KindOf(types[id]) == FuncProto {
          var ps := types[id].body.ps;
          forall i | 0 <= i < |ps| ensures ChainFrom(ps[i].typ, ChainAt(ps[i].typ, rank)) {
            assert Lower(id, ps[i].typ, rank);
            ChainExists(ps[i].typ, rank);
          }
        }
      }
    }

    /** A type has no two chains. */
    lemma {:induction false} OneChain(id: nat, c: D.Chain, c': D.Chain)
      requires WellFormedGraph(types) && ChainFrom(id, c) && ChainFrom(id, c')
      ensures c == c'
      decreases c, 1
    {
      hide WellFormedGraph, LinkOf, StackOf, Path;
      var ids := PathOf(id, c);
      var ids' := PathOf(id, c');
      SamePath(id, ids, ids');
      OneStack(ids, c, c');
    }

    lemma {:induction false} SamePath(id: nat, ids: seq<nat>, ids': seq<nat>)
      requires WellFormedGraph(types) && Path(id, ids) && Path(id, ids') && Ended(ids[|ids| - 1]) && Ended(ids'[|ids'| - 1])
      ensures ids == ids'
      decreases |ids|
    {
      hide WellFormedGraph;
      if |ids| > 1 && |ids'| > 1 {
        SamePath(ids[1], ids[1..], ids'[1..]);
        assert ids == [id] + ids[1..] && ids' == [id] + ids'[1..];
      }
    }

    lemma {:induction false} OneStack(ids: seq<nat>, c: D.Chain, c': D.Chain)
      requires WellFormedGraph(types) && StackOf(ids, c) && StackOf(ids, c')
      ensures c == c'
      decreases c, 0
    {
      hide WellFormedGraph, LinkOf;
      if c.Push? && c'.Push? {
        OneStack(ids[..|ids| - 1], c.below, c'.below);
        OneLink(ids[|ids| - 1], c.top, c'.top);
      }
    }

    lemma {:induction false} OneLink(id: nat, l: D.Link, l': D.Link)
      requires WellFormedGraph(types) && LinkOf(id, l) && LinkOf(id, l')
      ensures l == l'
      decreases l, 0
    {
      hide ChainFrom;
      if l.Fn? && l'.Fn? {
        forall i | 0 <= i < |l.params| ensures l.params[i] == l'.params[i] {
          OneChain(types[id].body.ps[i].typ, l.params[i].chain, l'.params[i].chain);
        }
      }
    }

    // The type that is written down ----------------------------------------------------------

    /** The C type of a record, kind by kind. Qualifiers are those of the type they are written for; an
        array or a function has none. */
    ghost function CTypeOf(id: nat, rank: seq<nat>): D.CType
      requires WellFormedGraph(types) && Ranked(id, rank)
      decreases rank[id], 1, 0
    {
      if id == 0 || KindOf(types[id]) in {Int, Enum, Fwd, Struct, Union, Typedef} then D.TBase({}, id)
      else
        assert Descends(id, rank);
        var t := types[id];
        if KindOf(t) == Ptr then D.TPtr({}, CTypeOf(t.word, rank))
        else if KindOf(t) == Const then D.AddQual(D.QConst, CTypeOf(t.word, rank))
        else if KindOf(t) == Volatile then D.AddQual(D.QVolatile, CTypeOf(t.word, rank))
        else if KindOf(t) == Restrict then D.AddQual(D.QRestrict, CTypeOf(t.word, rank))
        else if KindOf(t) == Array then D.TArr(t.body.nelems, CTypeOf(t.body.elem, rank))
        else
          var ps := t.body.ps;
          var variadic := |ps| > 1 && ps[|ps| - 1].typ == 0;
          var n := if |ps| == 1 && ps[0].typ == 0 then 0 else if variadic then |ps| - 1 else |ps|;
          D.TFn(CTypeOf(t.word, rank), ParamsOf(id, n, rank), variadic)
    }

    /** The first n parameters of a prototype. */
    ghost function ParamsOf(id: nat, n: nat, rank: seq<nat>): seq<D.CParam>
      requires WellFormedGraph(types) && Ranked(id, rank) && !Ended(id) && KindOf(types[id]) == FuncProto && n <= |types[id].body.ps|
      decreases rank[id], 0, n
    {
      if n == 0 then []
      else
        assert Descends(id, rank) && Lower(id, types[id].body.ps[n - 1].typ, rank);
        var p := types[id].body.ps[n - 1];
        ParamsOf(id, n - 1, rank) + [D.CParam(nameAt(p.nameOff), CTypeOf(p.typ, rank))]
    }

    /** A chain from a type is a chain that means the C type of its record. */
    lemma {:induction false} ChainMeansType(id: nat, c: D.Chain, rank: seq<nat>)
      requires WellFormedGraph(types) && Ranked(id, rank) && ChainFrom(id, c)
      ensures D.TypeOfChain(c) == CTypeOf(id, rank)
      decreases c, 3
    {
      hide WellFormedGraph, LinkOf, Path, D.Build, D.Wrap;
      var ids := PathOf(id, c);
      var n := |ids| - 1;
      PathRanked(id, ids, rank, n);
      BuildMeansType(id, ids, n, c.below, rank);
      D.PeelBase(c);
      BaseOf(ids[n], c.top);
    }

    lemma BaseOf(id: nat, l: D.Link)
      requires WellFormedGraph(types) && LinkOf(id, l) && Ended(id)
      ensures l == D.Base(id)
    {
    }

    lemma {:induction false} PathRanked(id: nat, ids: seq<nat>, rank: seq<nat>, n: nat)
      requires WellFormedGraph(types) && Ranked(id, rank) && Path(id, ids) && n < |ids|
      ensures Ranked(ids[n], rank)
    {
      if n > 0 {
        PathRanked(id, ids, rank, n - 1);
        assert !Ended(ids[n - 1]) && Descends(ids[n - 1], rank);
      }
    }

    lemma {:induction false} BuildMeansType(id: nat, ids: seq<nat>, n: nat, c: D.Chain, rank: seq<nat>)
      requires WellFormedGraph(types) && Ranked(id, rank) && Path(id, ids) && n < |ids| && StackOf(ids[..n], c) && Ranked(ids[n], rank)
      ensures D.Build(c, CTypeOf(ids[n], rank)) == CTypeOf(id, rank)
      decreases c, 2
    {
      hide WellFormedGraph, LinkOf, D.Wrap, CTypeOf;
      if n > 0 {
        assert ids[..n][..n - 1] == ids[..n - 1] && ids[..n][n - 1] == ids[n - 1];
        PathRanked(id, ids, rank, n - 1);
        NotEnded(id, ids, n - 1);
        StepDown(ids[n - 1], rank);
        WrapMeansType(ids[n - 1], c.top, rank);
        BuildMeansType(id, ids, n - 1, c.below, rank);
      }
    }

    lemma NotEnded(id: nat, ids: seq<nat>, n: nat)
      requires WellFormedGraph(types) && Path(id, ids) && n + 1 < |ids|
      ensures 0 < ids[n] < |types| && !Ended(ids[n]) && ids[n + 1] == Next(types[ids[n]])
    {
    }

    lemma {:induction false} WrapMeansType(id: nat, l: D.Link, rank: seq<nat>)
      requires WellFormedGraph(types) && Ranked(id, rank) && !Ended(id) && LinkOf(id, l)
      ensures Ranked(Next(types[id]), rank) && D.Wrap(l, CTypeOf(Next(types[id]), rank)) == CTypeOf(id, rank)
      decreases l, 1
    {
      hide ChainFrom, D.TypeOfChain, D.ParamTypes, ParamsOf, PrintOrder;
      StepDown(id, rank);
      if l.Fn? {
        FnMeansType(id, l.params, rank);
      } else {
        LinkIs(id, l);
        TypeUnfolds(id, rank);
      }
    }

    function QualifierOf(k: Kind): D.Qualifier {
      if k == Const then D.QConst else if k == Volatile then D.QVolatile else D.QRestrict
    }

    /** The link that a type contributes, if it is no prototype. */
    lemma LinkIs(id: nat, l: D.Link)
      requires WellFormedGraph(types) && LinkOf(id, l) && !Ended(id) && !l.Fn?
      ensures 0 < id < |types| && KindOf(types[id]) in {Ptr, Const, Volatile, Restrict, Array}
      ensures l ==
        if KindOf(types[id]) == Ptr then D.Ptr
        else if KindOf(types[id]) == Array then D.Arr(types[id].body.nelems)
        else D.Qual(QualifierOf(KindOf(types[id])))
    {
    }

    /** The C type of a record that is no prototype, unfolded once. */
    lemma TypeUnfolds(id: nat, rank: seq<nat>)
      requires WellFormedGraph(types) && Ranked(id, rank) && !Ended(id) && KindOf(types[id]) != FuncProto
      ensures Ranked(Next(types[id]), rank)
      ensures var u := CTypeOf(Next(types[id]), rank);
        CTypeOf(id, rank) ==
          if KindOf(types[id]) == Ptr then D.TPtr({}, u)
          else if KindOf(types[id]) == Array then D.TArr(types[id].body.nelems, u)
          else D.AddQual(QualifierOf(KindOf(types[id])), u)
    {
      StepDown(id, rank);
    }

    lemma {:induction false} FnMeansType(id: nat, ps: seq<D.Param>, rank: seq<nat>)
      requires WellFormedGraph(types) && Ranked(id, rank) && !Ended(id) && LinkOf(id, D.Fn(ps))
      ensures Ranked(Next(types[id]), rank) && D.Wrap(D.Fn(ps), CTypeOf(Next(types[id]), rank)) == CTypeOf(id, rank)
      decreases ps, |ps| + 1
    {
      hide ChainFrom, D.TypeOfChain, D.ParamTypes, ParamsOf, PrintOrder;
      StepDown(id, rank);
      ParamVoid(id, ps);
      var n := if D.IsVoidList(ps) then 0 else if D.IsVariadic(ps) then |ps| - 1 else |ps|;
      ParamsMeanTypes(id, ps, n, rank);
      D.ParamTypesAre(ps, 0);
      assert (if D.IsVoidList(ps) then [] else D.ParamTypes(ps, 0)) == ParamsOf(id, n, rank);
    }

    lemma {:induction false} ParamsMeanTypes(id: nat, ps: seq<D.Param>, n: nat, rank: seq<nat>)
      requires WellFormedGraph(types) && Ranked(id, rank) && !Ended(id) && LinkOf(id, D.Fn(ps)) && KindOf(types[id]) == FuncProto && n <= |ps|
      ensures |ParamsOf(id, n, rank)| == n
      ensures forall i :: 0 <= i < n ==> ParamsOf(id, n, rank)[i] == D.CParam(ps[i].name, D.TypeOfChain(ps[i].chain))
      decreases ps, n
    {
      hide ChainFrom, D.TypeOfChain, CTypeOf;
      if n > 0 {
        assert Descends(id, rank) && Lower(id, types[id].body.ps[n - 1].typ, rank);
        ChainMeansType(types[id].body.ps[n - 1].typ, ps[n - 1].chain, rank);
        ParamsMeanTypes(id, ps, n - 1, rank);
      }
    }

    /** What is printed for a type, parsed as C, declares the type of its record. */
    lemma PrintedDeclares(id: nat, name: string, c: D.Chain, rank: seq<nat>)
      requires WellFormedGraph(types) && NoQualifiedFunctions() && Ranked(id, rank) && ChainFrom(id, c)
      ensures D.ParseDeclaration(D.Bare(D.EmitChain(c, name, true))) == D.Ok(D.CParam(name, CTypeOf(id, rank)), [])
    {
      ChainIsLegal(id, c);
      D.PrintThenParse(c, name);
      ChainMeansType(id, c, rank);
    }

    /** Prints the type `id` as the type of `fname`. The shared stack is left as it was found. */
    method EmitTypeDecl(id: nat, fname: string, ghost c: D.Chain) returns (ok: bool)
      requires WellFormedGraph(types) && ChainFrom(id, c)
      modifies this
      ensures declStack == old(declStack)
      ensures ok ==> out == old(out) + D.EmitChain(c, fname, true)
      decreases c, 2
    {
      hide StackOf, LinkOf, D.EmitChain, WellFormed, Path;
      ghost var ids := PathOf(id, c);
      var stackStart := |declStack|;
      ok := PushChain(id, ids);
      if ok {
        assert declStack[stackStart..stackStart + (|declStack| - stackStart)] == ids;
        ok := EmitTypeChain(stackStart, |declStack| - stackStart, fname, c);
        declStack := declStack[..stackStart];
      }
    }

    /** The qualifiers on top of the frame, each followed by a space. */
    method EmitMods(start: nat, cnt0: nat, ghost c: D.Chain) returns (cnt: nat)
      requires WellFormedGraph(types) && start + cnt0 <= |declStack| && StackOf(declStack[start..start + cnt0], c)
      modifies this`out
      ensures cnt <= cnt0 && StackOf(declStack[start..start + cnt], D.DropMods(c))
      ensures out == old(out) + D.EmitMods(c)
    {
      hide WellFormed, WellFormedGraph, StackOf, LinkOf, D.EmitMods, D.DropMods;
      cnt := cnt0;
      ghost var rest := c;
      while cnt > 0
        invariant cnt <= cnt0 && StackOf(declStack[start..start + cnt], rest)
        invariant D.DropMods(rest) == D.DropMods(c)
        invariant out + D.EmitMods(rest) == old(out) + D.EmitMods(c)
      {
        FrameTop(start, cnt, rest);
        LinkKind(declStack[start + cnt - 1], rest.top);
        D.ModsStep(rest);
        var q;
        match KindOf(types[declStack[start + cnt - 1]]) {
          case Volatile => q := D.QVolatile;
          case Const => q := D.QConst;
          case Restrict => q := D.QRestrict;
          case _ => break;
        }
        Associative(out, [D.Quals(q), D.Space], D.EmitMods(rest.below));
        out := out + [D.Quals(q), D.Space];
        rest := rest.below;
        cnt := cnt - 1;
      }
      FrameEmpty(start, cnt, rest);
      D.ModsStep(rest);
    }

    lemma LinkKind(id: nat, l: D.Link)
      requires WellFormedGraph(types) && LinkOf(id, l)
      ensures id < |types|
      ensures l.Qual? <==> KindOf(types[id]) in {Volatile, Const, Restrict}
      ensures l.Qual? ==> KindOf(types[id]) == (match l.q case QConst => Const case QVolatile => Volatile case QRestrict => Restrict)
    {
    }

    lemma FrameTop(start: nat, cnt: nat, c: D.Chain)
      requires WellFormedGraph(types) && 0 < cnt && start + cnt <= |declStack| && StackOf(declStack[start..start + cnt], c)
      ensures c.Push? && LinkOf(declStack[start + cnt - 1], c.top) && StackOf(declStack[start..start + cnt - 1], c.below)
    {
      var ids := declStack[start..start + cnt];
      assert ids[|ids| - 1] == declStack[start + cnt - 1];
      assert ids[..|ids| - 1] == declStack[start..start + cnt - 1];
    }

    lemma FrameEmpty(start: nat, cnt: nat, c: D.Chain)
      requires WellFormedGraph(types) && start + cnt <= |declStack| && StackOf(declStack[start..start + cnt], c)
      ensures cnt == 0 <==> c.Empty?
    {
    }

    method Print(s: seq<D.Token>)
      modifies this`out
      ensures out == old(out) + s
    {
      out := out + s;
    }

    method EmitName(name: string, lastWasPtr: bool)
      modifies this`out
      ensures out == old(out) + D.EmitName(name, lastWasPtr)
    {
      var separate := name != "" && !lastWasPtr;
      if separate { Print([D.Space]); }
      if name != "" { Print([D.Ident(name)]); }
    }

    /** Pops the frame of `cnt0` ids at `start` and prints it. */
    method EmitTypeChain(start: nat, cnt0: nat, fname: string, ghost c: D.Chain) returns (ok: bool)
      requires WellFormedGraph(types) && start + cnt0 <= |declStack| && StackOf(declStack[start..start + cnt0], c)
      modifies this
      ensures declStack == old(declStack)
      ensures ok ==> out == old(out) + D.EmitChain(c, fname, true)
      decreases c, 1
    {
      hide StackOf, D.EmitChain;
      var lastWasPtr := true;
      var cnt: nat := cnt0;
      ghost var rest := c;
      while cnt > 0
        invariant cnt <= cnt0 && declStack == old(declStack) && StackOf(declStack[start..start + cnt], rest)
        invariant rest == c || rest < c
        invariant out + D.EmitChain(rest, fname, lastWasPtr) == old(out) + D.EmitChain(c, fname, true)
        decreases cnt
      {
        FrameTop(start, cnt, rest);
        cnt := cnt - 1;
        var id := declStack[start + cnt];
        var t := types[id];
        ghost var was, text := out, D.EmitChain(rest, fname, lastWasPtr);
        if id == 0 || IsTerminal(t) {
          ghost var below := rest.below;
          D.EmitBase(rest, fname, lastWasPtr);
          cnt := EmitMods(start, cnt, below);
          Print([D.Spec(id)]);
          assert text == D.EmitMods(below) + [D.Spec(id)] + D.EmitChain(D.DropMods(below), fname, false);
          rest := D.DropMods(below);
          lastWasPtr := false;
        } else {
          D.EmitOuter(rest, fname, lastWasPtr);
          match KindOf(t) {
            case Ptr =>
              Print(if lastWasPtr then [D.Star] else [D.Space, D.Star]);
              rest := rest.below;
              lastWasPtr := true;
            case Volatile =>
              Print([D.Space, D.Quals(D.QVolatile)]);
              rest := rest.below;
              lastWasPtr := false;
            case Const =>
              Print([D.Space, D.Quals(D.QConst)]);
              rest := rest.below;
              lastWasPtr := false;
            case Restrict =>
              Print([D.Space, D.Quals(D.QRestrict)]);
              rest := rest.below;
              lastWasPtr := false;
            case Array =>
              ok := EmitArray(start, cnt, t.body.nelems, fname, lastWasPtr, rest);
              assert ok ==> out == was + text;
              return;
            case FuncProto =>
              ok := EmitFuncProto(start, cnt, id, fname, lastWasPtr, rest);
              assert ok ==> out == was + text;
              return;
          }
          assert was + text == out + D.EmitChain(rest, fname, lastWasPtr);
        }
      }
      EmitName(fname, lastWasPtr);
      FrameEmpty(start, cnt, rest);
      D.EmitOuter(rest, fname, lastWasPtr);
      ok := true;
    }

    /** The rest of a frame from an array type outwards; qualifiers of the array itself are skipped. */
    method EmitArray(start: nat, cnt0: nat, nelems: nat, fname: string, lastWasPtr: bool, ghost c: D.Chain) returns (ok: bool)
      requires WellFormedGraph(types) && start + cnt0 <= |declStack|
      requires c.Push? && c.top == D.Arr(nelems) && StackOf(declStack[start..start + cnt0], c.below)
      modifies this
      ensures declStack == old(declStack)
      ensures ok ==> out == old(out) + D.EmitChain(c, fname, lastWasPtr)
      decreases c, 0
    {
      hide StackOf, D.EmitChain, WellFormed, WellFormedGraph, LinkOf, D.DropMods, D.EmitName;
      ghost var before := out;
      D.EmitArr(c, fname, lastWasPtr);
      var cnt := SkipMods(start, cnt0, c.below);
      ghost var rest := D.DropMods(c.below);
      FrameEmpty(start, cnt, rest);
      if cnt == 0 {
        EmitName(fname, lastWasPtr);
        Associative(before, D.EmitName(fname, lastWasPtr), D.Dim(nelems));
        Print([D.LBracket, D.Num(nelems), D.RBracket]);
        return true;
      }
      var multidim := TopIsArray(start, cnt, rest);
      ghost var space := if fname != "" && !lastWasPtr then [D.Space] else [];
      ghost var inner := D.EmitChain(rest, fname, true);
      if fname != "" && !lastWasPtr { Print([D.Space]); }
      assert out == before + space;
      if !multidim { Print([D.LParen]); }
      ok := EmitTypeChain(start, cnt, fname, rest);
      if !multidim { Print([D.RParen]); }
      D.Bracketed(before + space, [D.LParen], inner, [D.RParen]);
      ghost var nested := if multidim then inner else [D.LParen] + inner + [D.RParen];
      assert ok ==> out == before + space + nested;
      Associative(before, space, nested);
      Associative(before, space + nested, D.Dim(nelems));
      Print([D.LBracket, D.Num(nelems), D.RBracket]);
    }

    method TopIsArray(start: nat, cnt: nat, ghost c: D.Chain) returns (b: bool)
      requires WellFormedGraph(types) && 0 < cnt && start + cnt <= |declStack| && StackOf(declStack[start..start + cnt], c)
      ensures c.Push? && b == c.top.Arr?
    {
      FrameTop(start, cnt, c);
      b := KindOf(types[declStack[start + cnt - 1]]) == Array;
    }

    method SkipMods(start: nat, cnt0: nat, ghost c: D.Chain) returns (cnt: nat)
      requires WellFormedGraph(types) && start + cnt0 <= |declStack| && StackOf(declStack[start..start + cnt0], c)
      ensures cnt <= cnt0 && StackOf(declStack[start..start + cnt], D.DropMods(c))
    {
      hide WellFormed, WellFormedGraph, StackOf, LinkOf;
      cnt := cnt0;
      ghost var rest := c;
      while cnt > 0
        invariant cnt <= cnt0 && StackOf(declStack[start..start + cnt], rest) && D.DropMods(rest) == D.DropMods(c)
      {
        FrameTop(start, cnt, rest);
        LinkKind(declStack[start + cnt - 1], rest.top);
        var kind := KindOf(types[declStack[start + cnt - 1]]);
        if !(kind == Volatile || kind == Const || kind == Restrict) { break; }
        rest := rest.below;
        cnt := cnt - 1;
      }
      FrameEmpty(start, cnt, rest);
    }

    method EmitFuncProto(start: nat, cnt0: nat, id: nat, fname: string, lastWasPtr: bool, ghost c: D.Chain) returns (ok: bool)
      requires WellFormedGraph(types) && start + cnt0 <= |declStack|
      requires c.Push? && c.top.Fn? && LinkOf(id, c.top) && StackOf(declStack[start..start + cnt0], c.below)
      modifies this
      ensures declStack == old(declStack)
      ensures ok ==> out == old(out) + D.EmitChain(c, fname, lastWasPtr)
      decreases c, 0
    {
      hide StackOf, LinkOf, D.EmitChain, D.EmitParams, D.EmitMods, D.DropMods, D.EmitName, WellFormed, WellFormedGraph;
      ghost var before := out;
      D.EmitFn(c, fname, lastWasPtr);
      var cnt := EmitMods(start, cnt0, c.below);
      ghost var r := D.DropMods(c.below);
      FrameEmpty(start, cnt, r);
      ok := true;
      if cnt > 0 {
        Print([D.Space, D.LParen]);
        ok := EmitTypeChain(start, cnt, fname, r);
        Print([D.RParen]);
      } else {
        EmitName(fname, lastWasPtr);
      }
      ghost var inner := if r.Empty? then D.EmitName(fname, lastWasPtr) else [D.Space, D.LParen] + D.EmitChain(r, fname, true) + [D.RParen];
      D.CallText(before, D.EmitMods(c.below), inner, D.EmitParams(c.top.params));
      D.Bracketed(before + D.EmitMods(c.below), [D.Space, D.LParen], D.EmitChain(r, fname, true), [D.RParen]);
      Print([D.LParen]);
      var ok2 := EmitParams(id, c.top.params);
      Print([D.RParen]);
      ok := ok && ok2;
    }

    method EmitParams(id: nat, ghost ps: seq<D.Param>) returns (ok: bool)
      requires WellFormedGraph(types) && LinkOf(id, D.Fn(ps))
      modifies this
      ensures declStack == old(declStack)
      ensures ok ==> out == old(out) + D.EmitParams(ps)
      decreases ps, 0
    {
      hide StackOf, D.EmitChain, ChainFrom, D.EmitParamsFrom;
      var params := types[id].body.ps;
      ParamVoid(id, ps);
      if |params| == 1 && params[0].typ == 0 { return true; }
      ok := true;
      for i := 0 to |params|
        invariant declStack == old(declStack)
        invariant ok ==> out + D.EmitParamsFrom(ps, i) == old(out) + D.EmitParams(ps)
      {
        D.ParamsStep(ps, i);
        ghost var was, sep := out, if i > 0 then [D.Comma, D.Space] else [];
        ghost var rest := D.EmitParamsFrom(ps, i + 1);
        if i > 0 { Print([D.Comma, D.Space]); }
        assert out == was + sep;
        if i == |params| - 1 && params[i].typ == 0 {
          Print([D.Ellipsis]);
          Associative(was, sep, [D.Ellipsis]);
          return;
        }
        var name := nameAt(params[i].nameOff);
        var done := EmitTypeDecl(params[i].typ, name, ps[i].chain);
        ok := ok && done;
        D.ListText(was, sep, D.EmitChain(ps[i].chain, ps[i].name, true), rest);
      }
      D.ParamsStep(ps, |ps|);
    }

    /** A parameter of type 0 is the one whose chain is plain void. */
    lemma ParamVoid(id: nat, ps: seq<D.Param>)
      requires WellFormedGraph(types) && LinkOf(id, D.Fn(ps))
      ensures forall i :: 0 <= i < |ps| ==> (ps[i].chain == D.VOID_CHAIN <==> types[id].body.ps[i].typ == 0)
    {
      forall i | 0 <= i < |ps| ensures ps[i].chain == D.VOID_CHAIN <==> types[id].body.ps[i].typ == 0 {
        var typ, c := types[id].body.ps[i].typ, ps[i].chain;
        assert ChainFrom(typ, c);
        var ids :| Path(typ, ids) && StackOf(ids, c);
        assert LinkOf(ids[|ids| - 1], c.top) && StackOf(ids[..|ids| - 1], c.below);
        assert typ == 0 ==> |ids| == 1;
      }
    }

    /** No const, volatile or restrict applies to a function type, which C gives no meaning. */
    ghost predicate NoQualifiedFunctions()
      requires WellFormedGraph(types)
    {
      forall i :: 0 < i < |types| && KindOf(types[i]) in {Volatile, Const, Restrict} && types[i].word < |types| ==>
        KindOf(types[types[i].word]) != FuncProto
    }

    /** In such a graph everything that can be printed can be read back (`Declarator.PrintThenParse`). */
    lemma {:induction false} ChainIsLegal(id: nat, c: D.Chain)
      requires WellFormedGraph(types) && NoQualifiedFunctions() && ChainFrom(id, c)
      ensures D.LegalChain(c)
      decreases c, 1
    {
      var ids :| Path(id, ids) && StackOf(ids, c);
      assert ids[..|ids| - 1] == [] || Path(id, ids[..|ids| - 1]);
      LinksAreLegal(id, ids, |ids| - 1, c.below);
    }

    lemma {:induction false} LinksAreLegal(id: nat, ids: seq<nat>, n: nat, c: D.Chain)
      requires WellFormedGraph(types) && NoQualifiedFunctions() && Path(id, ids) && n < |ids| && StackOf(ids[..n], c)
      ensures D.LegalLinks(c)
      decreases c, 0
    {
      if n > 0 {
        assert ids[..n][..n - 1] == ids[..n - 1] && ids[..n][n - 1] == ids[n - 1];
        assert 0 < ids[n - 1] < |types|;
        LinksAreLegal(id, ids, n - 1, c.below);
        if c.top.Fn? {
          assert StackOf(ids[..n - 1], c.below) && KindOf(types[ids[n - 1]]) == FuncProto;
          if c.below.Push? {
            var q := ids[n - 2];
            assert ids[..n - 1][n - 2] == q && LinkOf(q, c.below.top);
            assert 0 < q < |types| && (KindOf(types[q]) == Array || types[q].word == ids[n - 1]);
          }
          forall i | 0 <= i < |c.top.params| ensures D.LegalChain(c.top.params[i].chain) {
            ChainIsLegal(types[ids[n - 1]].body.ps[i].typ, c.top.params[i].chain);
          }
        }
      }
    }
  }
}
