/** C declarators: what the dumper writes for a chain of BTF types, and what a C parser reads back. */
module Declarator {

  import opened Seqs

  datatype Qualifier = QConst | QVolatile | QRestrict

  datatype Link =
    | Base(id: nat)
    | Ptr
    | Qual(q: Qualifier)
    | Arr(nelems: nat)
    | Fn(params: seq<Param>)

  /** A declaration's type as BTF stores it and as the dumper stacks it: the type specifier, which
      is the only Base, on top, and the type of the declared name at the bottom. Specifier 0 is void. */
  datatype Chain = Empty | Push(below: Chain, top: Link)

  datatype Param = Param(name: string, chain: Chain)

  const VOID_CHAIN := Push(Empty, Base(0))

  /** What is printed. `Spec` stands for all the text of one type specifier. */
  datatype Token =
    | Space | Spec(id: nat) | Quals(q: Qualifier) | Ident(name: string) | Num(n: nat)
    | Star | LParen | RParen | LBracket | RBracket | Comma | Ellipsis

  // The printer ----------------------------------------------------------------------------

  /** The stack without the qualifiers on its top. */
  function DropMods(c: Chain): (r: Chain)
    ensures r == c || r < c
    ensures r.Push? ==> !r.top.Qual?
  {
    if c.Push? && c.top.Qual? then DropMods(c.below) else c
  }

  function EmitMods(c: Chain): seq<Token> {
    if c.Push? && c.top.Qual? then [Quals(c.top.q), Space] + EmitMods(c.below) else []
  }

  function EmitName(name: string, lastWasPtr: bool): seq<Token> {
    if name == "" then [] else if lastWasPtr then [Ident(name)] else [Space, Ident(name)]
  }

  function Dim(n: nat): seq<Token> {
    [LBracket, Num(n), RBracket]
  }

  /** The text for the stack c, whose top is popped first. */
  function EmitChain(c: Chain, name: string, lastWasPtr: bool): seq<Token>
    decreases c, 0
  {
    if c.Empty? then EmitName(name, lastWasPtr)
    else
      match c.top
      case Base(id) => EmitMods(c.below) + [Spec(id)] + EmitChain(DropMods(c.below), name, false)
      case Ptr => (if lastWasPtr then [Star] else [Space, Star]) + EmitChain(c.below, name, true)
      case Qual(q) => [Space, Quals(q)] + EmitChain(c.below, name, false)
      case Arr(n) =>
        var r := DropMods(c.below);
        if r.Empty? then EmitName(name, lastWasPtr) + Dim(n)
        else
          (if name != "" && !lastWasPtr then [Space] else []) +
          (if r.top.Arr? then EmitChain(r, name, true) else [LParen] + EmitChain(r, name, true) + [RParen]) +
          Dim(n)
      case Fn(ps) =>
        var r := DropMods(c.below);
        EmitMods(c.below) +
        (if r.Empty? then EmitName(name, lastWasPtr) else [Space, LParen] + EmitChain(r, name, true) + [RParen]) +
        [LParen] + EmitParams(ps) + [RParen]
  }

  /** A single void parameter is left out; a last one stands for `...`. */
  function EmitParams(ps: seq<Param>): seq<Token>
    decreases ps, 1
  {
    if IsVoidList(ps) then [] else EmitParamsFrom(ps, 0)
  }

  function EmitParamsFrom(ps: seq<Param>, i: nat): seq<Token>
    requires i <= |ps|
    decreases ps, 0, |ps| - i
  {
    if i == |ps| then []
    else
      (if i > 0 then [Comma, Space] else []) +
      if i == |ps| - 1 && ps[i].chain == VOID_CHAIN then [Ellipsis]
      else EmitChain(ps[i].chain, ps[i].name, true) + EmitParamsFrom(ps, i + 1)
  }

  lemma EmitBase(c: Chain, name: string, lastWasPtr: bool)
    requires c.Push? && c.top.Base?
    ensures EmitChain(c, name, lastWasPtr) == EmitMods(c.below) + [Spec(c.top.id)] + EmitChain(DropMods(c.below), name, false)
  {
  }

  lemma EmitOuter(c: Chain, name: string, lastWasPtr: bool)
    ensures c.Empty? ==> EmitChain(c, name, lastWasPtr) == EmitName(name, lastWasPtr)
    ensures c.Push? && c.top.Ptr? ==>
      EmitChain(c, name, lastWasPtr) == (if lastWasPtr then [Star] else [Space, Star]) + EmitChain(c.below, name, true)
    ensures c.Push? && c.top.Qual? ==>
      EmitChain(c, name, lastWasPtr) == [Space, Quals(c.top.q)] + EmitChain(c.below, name, false)
  {
  }

  lemma EmitArr(c: Chain, name: string, lastWasPtr: bool)
    requires c.Push? && c.top.Arr?
    ensures DropMods(c.below).Empty? ==>
      EmitChain(c, name, lastWasPtr) == EmitName(name, lastWasPtr) + Dim(c.top.nelems)
    ensures DropMods(c.below).Push? ==>
      EmitChain(c, name, lastWasPtr) ==
        (if name != "" && !lastWasPtr then [Space] else []) +
        (if DropMods(c.below).top.Arr? then EmitChain(DropMods(c.below), name, true)
         else [LParen] + EmitChain(DropMods(c.below), name, true) + [RParen]) +
        Dim(c.top.nelems)
  {
  }

  lemma EmitFn(c: Chain, name: string, lastWasPtr: bool)
    requires c.Push? && c.top.Fn?
    ensures EmitChain(c, name, lastWasPtr) ==
      EmitMods(c.below) +
      (if DropMods(c.below).Empty? then EmitName(name, lastWasPtr)
       else [Space, LParen] + EmitChain(DropMods(c.below), name, true) + [RParen]) +
      [LParen] + EmitParams(c.top.params) + [RParen]
  {
  }

  lemma ModsStep(c: Chain)
    ensures
      if c.Push? && c.top.Qual? then EmitMods(c) == [Quals(c.top.q), Space] + EmitMods(c.below) && DropMods(c) == DropMods(c.below)
      else EmitMods(c) == [] && DropMods(c) == c
  {
  }

  lemma ParamsStep(ps: seq<Param>, i: nat)
    requires i <= |ps|
    ensures
      var sep := if i > 0 then [Comma, Space] else [];
      EmitParamsFrom(ps, i) ==
        if i == |ps| then []
        else if i == |ps| - 1 && ps[i].chain == VOID_CHAIN then sep + [Ellipsis]
        else sep + (EmitChain(ps[i].chain, ps[i].name, true) + EmitParamsFrom(ps, i + 1))
  {
  }

  lemma ListText<T>(was: seq<T>, sep: seq<T>, item: seq<T>, rest: seq<T>)
    ensures was + (sep + (item + rest)) == was + sep + item + rest
  {
    Associative(was, sep, item + rest);
    Associative(was + sep, item, rest);
  }

  lemma Bracketed<T>(was: seq<T>, open: seq<T>, item: seq<T>, close: seq<T>)
    ensures was + (open + item + close) == was + open + item + close
  {
    Associative(open, item, close);
    ListText(was, open, item, close);
  }

  lemma CallText(was: seq<Token>, mods: seq<Token>, inner: seq<Token>, params: seq<Token>)
    ensures was + (mods + inner + [LParen] + params + [RParen]) == was + mods + inner + [LParen] + params + [RParen]
  {
    Associative(was, mods, inner);
    Associative(was, mods + inner, [LParen]);
    Associative(was, mods + inner + [LParen], params);
    Associative(was, mods + inner + [LParen] + params, [RParen]);
  }

  // The meaning of a chain -----------------------------------------------------------------

  /** Types as C has them: qualifiers form a set at each level. */
  datatype CType =
    | TBase(quals: set<Qualifier>, id: nat)
    | TPtr(quals: set<Qualifier>, to: CType)
    | TArr(nelems: nat, elem: CType)
    | TFn(ret: CType, params: seq<CParam>, variadic: bool)

  datatype CParam = CParam(name: string, typ: CType)

  function AddQual(q: Qualifier, t: CType): CType {
    match t
    case TBase(qs, id) => TBase(qs + {q}, id)
    case TPtr(qs, to) => TPtr(qs + {q}, to)
    case _ => t
  }

  function Wrap(l: Link, t: CType): CType
    decreases l
  {
    match l
    case Base(id) => TBase({}, id)
    case Ptr => TPtr({}, t)
    case Qual(q) => AddQual(q, t)
    case Arr(n) => TArr(n, t)
    case Fn(ps) => TFn(t, if IsVoidList(ps) then [] else ParamTypes(ps, 0), IsVariadic(ps))
  }

  predicate IsVoidList(ps: seq<Param>) {
    |ps| == 1 && ps[0].chain == VOID_CHAIN
  }

  predicate IsVariadic(ps: seq<Param>) {
    |ps| > 1 && ps[|ps| - 1].chain == VOID_CHAIN
  }

  function ParamTypes(ps: seq<Param>, i: nat): seq<CParam>
    requires i <= |ps|
    decreases ps, |ps| - i
  {
    if i == |ps| || (i == |ps| - 1 && IsVariadic(ps)) then []
    else [CParam(ps[i].name, TypeOfChain(ps[i].chain))] + ParamTypes(ps, i + 1)
  }

  /** Applies the links of the stack c, top first. */
  function Build(c: Chain, t: CType): CType
    decreases c, 0
  {
    if c.Empty? then t else Build(c.below, Wrap(c.top, t))
  }

  function TypeOfChain(c: Chain): CType
    decreases c, 1
  {
    Build(c, TBase({}, 0))
  }

  /** Chains with one specifier and no qualifier directly on a function type. */
  predicate LegalChain(c: Chain)
    decreases c, 1
  {
    c.Push? && c.top.Base? && LegalLinks(c.below)
  }

  predicate LegalLinks(c: Chain)
    decreases c, 0
  {
    c.Empty? ||
    (LegalLinks(c.below) && !c.top.Base? &&
     (c.top.Fn? ==> !(c.below.Push? && c.below.top.Qual?) && LegalParams(c.top.params)))
  }

  predicate LegalParams(ps: seq<Param>) {
    forall i :: 0 <= i < |ps| ==> LegalChain(ps[i].chain)
  }

  // The parser: declarations of section 6.7 and declarators of section 6.7.6 of the C11 standard ---

  /** Declarators; an abstract one has the empty name. */
  datatype Declarator =
    | DName(name: string)
    | DPtr(quals: set<Qualifier>, d: Declarator)
    | DArr(d: Declarator, n: nat)
    | DFn(d: Declarator, params: seq<CParam>, variadic: bool)

  /** The type a declarator gives its name, in a declaration whose specifiers say t. */
  function Declared(d: Declarator, t: CType): CParam {
    match d
    case DName(name) => CParam(name, t)
    case DPtr(qs, e) => Declared(e, TPtr(qs, t))
    case DArr(e, n) => Declared(e, TArr(n, t))
    case DFn(e, ps, v) => Declared(e, TFn(t, ps, v))
  }

  datatype Parse<T> = Ok(val: T, rest: seq<Token>) | Fail

  datatype ParamList = ParamList(params: seq<CParam>, variadic: bool)

  function ParseQuals(s: seq<Token>): (r: (set<Qualifier>, seq<Token>))
    ensures |r.1| <= |s|
  {
    if s != [] && s[0].Quals? then
      var r := ParseQuals(s[1..]);
      ({s[0].q} + r.0, r.1)
    else ({}, s)
  }

  /** After "(": does a parameter list follow, rather than a nested declarator? */
  predicate StartsParams(s: seq<Token>) {
    s != [] && (s[0].Quals? || s[0].Spec? || s[0].RParen?)
  }

  function ParseDeclarator(s: seq<Token>): (r: Parse<Declarator>)
    ensures r.Ok? ==> |r.rest| <= |s|
    decreases |s|, 3
  {
    if s != [] && s[0].Star? then
      var q := ParseQuals(s[1..]);
      match ParseDeclarator(q.1)
      case Ok(d, rest) => Ok(DPtr(q.0, d), rest)
      case Fail => Fail
    else ParseDirect(s)
  }

  function ParseDirect(s: seq<Token>): (r: Parse<Declarator>)
    ensures r.Ok? ==> |r.rest| <= |s|
    decreases |s|, 2
  {
    match ParsePrimary(s)
    case Ok(d, rest) => ParseSuffixes(d, rest)
    case Fail => Fail
  }

  function ParsePrimary(s: seq<Token>): (r: Parse<Declarator>)
    ensures r.Ok? ==> |r.rest| <= |s|
    decreases |s|, 1
  {
    if s != [] && s[0].Ident? then Ok(DName(s[0].name), s[1..])
    else if s != [] && s[0].LParen? && !StartsParams(s[1..]) then
      match ParseDeclarator(s[1..])
      case Ok(d, rest) => if rest != [] && rest[0].RParen? then Ok(d, rest[1..]) else Fail
      case Fail => Fail
    else Ok(DName(""), s)
  }

  function ParseSuffixes(d: Declarator, s: seq<Token>): (r: Parse<Declarator>)
    ensures r.Ok? ==> |r.rest| <= |s|
    decreases |s|, 0
  {
    if |s| >= 3 && s[0].LBracket? && s[1].Num? && s[2].RBracket? then ParseSuffixes(DArr(d, s[1].n), s[3..])
    else if s != [] && s[0].LParen? then
      match ParseParams(s[1..])
      case Ok(ps, rest) => ParseSuffixes(DFn(d, ps.params, ps.variadic), rest)
      case Fail => Fail
    else Ok(d, s)
  }

  /** What stands between the parentheses, and the closing one. A sole unnamed void means nothing. */
  function ParseParams(s: seq<Token>): (r: Parse<ParamList>)
    ensures r.Ok? ==> |r.rest| < |s|
    decreases |s|, 6
  {
    if s != [] && s[0].RParen? then Ok(ParamList([], false), s[1..])
    else
      match ParseParamList(s)
      case Ok(ps, rest) =>
        Ok(if ps == ParamList([CParam("", TBase({}, 0))], false) then ParamList([], false) else ps, rest)
      case Fail => Fail
  }

  function ParseParamList(s: seq<Token>): (r: Parse<ParamList>)
    ensures r.Ok? ==> |r.rest| < |s|
    decreases |s|, 5
  {
    match ParseDeclaration(s)
    case Ok(p, rest) =>
      if rest == [] then Fail
      else if rest[0].RParen? then Ok(ParamList([p], false), rest[1..])
      else if !rest[0].Comma? then Fail
      else if |rest| >= 3 && rest[1].Ellipsis? && rest[2].RParen? then Ok(ParamList([p], true), rest[3..])
      else (
        match ParseParamList(rest[1..])
        case Ok(more, rest2) => Ok(ParamList([p] + more.params, more.variadic), rest2)
        case Fail => Fail)
    case Fail => Fail
  }

  function ParseDeclaration(s: seq<Token>): (r: Parse<CParam>)
    ensures r.Ok? ==> |r.rest| < |s|
    decreases |s|, 4
  {
    var q := ParseQuals(s);
    if q.1 == [] || !q.1[0].Spec? then Fail
    else
      var q2 := ParseQuals(q.1[1..]);
      match ParseDeclarator(q2.1)
      case Ok(d, rest) => Ok(Declared(d, TBase(q.0 + q2.0, q.1[0].id)), rest)
      case Fail => Fail
  }

  // The printed tokens without the spaces --------------------------------------------------

  function Bare(s: seq<Token>): seq<Token> {
    if s == [] then []
    else (if s[0].Space? then [] else [s[0]]) + Bare(s[1..])
  }

  lemma BareStep(s: seq<Token>)
    ensures s == [] ==> Bare(s) == []
    ensures s != [] ==> Bare(s) == (if s[0].Space? then [] else [s[0]]) + Bare(s[1..])
  {
  }

  lemma {:induction false} BareConcat(a: seq<Token>, b: seq<Token>)
    ensures Bare(a + b) == Bare(a) + Bare(b)
  {
    hide Bare;
    BareStep(a);
    if a == [] {
      assert a + b == b;
    } else {
      BareConcat(a[1..], b);
      BareStep(a + b);
      assert (a + b)[1..] == a[1..] + b;
      Associative(if a[0].Space? then [] else [a[0]], Bare(a[1..]), Bare(b));
    }
  }

  function ModTokens(c: Chain): seq<Token> {
    if c.Push? && c.top.Qual? then [Quals(c.top.q)] + ModTokens(c.below) else []
  }

  function NameTokens(name: string): seq<Token> {
    if name == "" then [] else [Ident(name)]
  }

  function Nested(c: Chain, name: string): seq<Token>
    decreases c, 1
  {
    [LParen] + ChainTokens(c, name) + [RParen]
  }

  function ChainTokens(c: Chain, name: string): seq<Token>
    decreases c, 0
  {
    if c.Empty? then NameTokens(name)
    else
      match c.top
      case Base(id) => ModTokens(c.below) + [Spec(id)] + ChainTokens(DropMods(c.below), name)
      case Ptr => [Star] + ChainTokens(c.below, name)
      case Qual(q) => [Quals(q)] + ChainTokens(c.below, name)
      case Arr(n) =>
        var r := DropMods(c.below);
        (if r.Empty? || r.top.Arr? then ChainTokens(r, name) else Nested(r, name)) + Dim(n)
      case Fn(ps) =>
        var r := DropMods(c.below);
        ModTokens(c.below) + (if r.Empty? then ChainTokens(r, name) else Nested(r, name)) +
        [LParen] + ParamTokens(ps) + [RParen]
  }

  function ParamTokens(ps: seq<Param>): seq<Token>
    decreases ps, 1
  {
    if IsVoidList(ps) then [] else ParamTokensFrom(ps, 0)
  }

  function ParamTokensFrom(ps: seq<Param>, i: nat): seq<Token>
    requires i <= |ps|
    decreases ps, 0, |ps| - i
  {
    if i == |ps| then []
    else
      (if i > 0 then [Comma] else []) +
      if i == |ps| - 1 && ps[i].chain == VOID_CHAIN then [Ellipsis]
      else ChainTokens(ps[i].chain, ps[i].name) + ParamTokensFrom(ps, i + 1)
  }

  // Spaces ---------------------------------------------------------------------------------

  lemma {:induction false} BareMods(c: Chain)
    ensures Bare(EmitMods(c)) == ModTokens(c)
  {
    if c.Push? && c.top.Qual? {
      BareMods(c.below);
      BareConcat([Quals(c.top.q), Space], EmitMods(c.below));
      assert Bare([Quals(c.top.q), Space]) == [Quals(c.top.q)] + Bare([Space]);
    }
  }

  lemma BareName(name: string, lastWasPtr: bool)
    ensures Bare(EmitName(name, lastWasPtr)) == NameTokens(name)
  {
    assert Bare([Ident(name)]) == [Ident(name)] + Bare([]);
    assert Bare([Space, Ident(name)]) == Bare([Ident(name)]);
  }

  lemma {:induction false} BareKeeps(s: seq<Token>)
    requires forall i :: 0 <= i < |s| ==> !s[i].Space?
    ensures Bare(s) == s
  {
    if s != [] {
      BareKeeps(s[1..]);
    }
  }

  lemma BareSpace(s: seq<Token>)
    ensures Bare([Space] + s) == Bare(s)
  {
    assert ([Space] + s)[1..] == s;
  }

  /** Where the spaces go is the only thing that depends on what was written before. */
  lemma {:induction false} BareChain(c: Chain, name: string, lastWasPtr: bool)
    ensures Bare(EmitChain(c, name, lastWasPtr)) == ChainTokens(c, name)
    decreases c, 2
  {
    if c.Empty? {
      BareName(name, lastWasPtr);
    } else {
      match c.top
      case Base(id) =>
        BareChain(DropMods(c.below), name, false);
        BareMods(c.below);
        BareKeeps([Spec(id)]);
        BareConcat(EmitMods(c.below), [Spec(id)]);
        BareConcat(EmitMods(c.below) + [Spec(id)], EmitChain(DropMods(c.below), name, false));
      case Ptr =>
        BareChain(c.below, name, true);
        BareKeeps([Star]);
        BareSpace([Star]);
        assert [Space] + [Star] == [Space, Star];
        BareConcat(if lastWasPtr then [Star] else [Space, Star], EmitChain(c.below, name, true));
      case Qual(q) =>
        BareChain(c.below, name, false);
        BareKeeps([Quals(q)]);
        BareSpace([Quals(q)]);
        assert [Space] + [Quals(q)] == [Space, Quals(q)];
        BareConcat([Space, Quals(q)], EmitChain(c.below, name, false));
      case Arr(n) => BareArr(c, name, lastWasPtr);
      case Fn(ps) => BareFn(c, name, lastWasPtr);
    }
  }

  lemma {:induction false} BareArr(c: Chain, name: string, lastWasPtr: bool)
    requires c.Push? && c.top.Arr?
    ensures Bare(EmitChain(c, name, lastWasPtr)) == ChainTokens(c, name)
    decreases c, 1
  {
    hide Bare;
    var n, r := c.top.nelems, DropMods(c.below);
    BareKeeps(Dim(n));
    if r.Empty? {
      BareName(name, lastWasPtr);
      BareConcat(EmitName(name, lastWasPtr), Dim(n));
    } else {
      var e := EmitChain(r, name, true);
      BareChain(r, name, true);
      BareNested(e);
      var inner := if r.top.Arr? then e else [LParen] + e + [RParen];
      BareConcat(inner, Dim(n));
      BareSpace(inner + Dim(n));
      if name != "" && !lastWasPtr {
        assert EmitChain(c, name, lastWasPtr) == [Space] + (inner + Dim(n));
      } else {
        assert EmitChain(c, name, lastWasPtr) == inner + Dim(n);
      }
      assert ChainTokens(c, name) == Bare(inner) + Dim(n);
    }
  }

  lemma {:induction false} BareFn(c: Chain, name: string, lastWasPtr: bool)
    requires c.Push? && c.top.Fn?
    ensures Bare(EmitChain(c, name, lastWasPtr)) == ChainTokens(c, name)
    decreases c, 1
  {
    hide Bare, EmitChain, ChainTokens, EmitParams, ParamTokens, EmitMods, ModTokens;
    var ps, r := c.top.params, DropMods(c.below);
    EmitFn(c, name, lastWasPtr);
    TokensFn(c, name);
    BareMods(c.below);
    BareParams(ps);
    var inner := if r.Empty? then EmitName(name, lastWasPtr) else [Space, LParen] + EmitChain(r, name, true) + [RParen];
    if r.Empty? {
      BareName(name, lastWasPtr);
      assert ChainTokens(r, name) == NameTokens(name) by { TokensEmpty(r, name); }
    } else {
      BareChain(r, name, true);
      BareNested(EmitChain(r, name, true));
      var e := [LParen] + EmitChain(r, name, true) + [RParen];
      assert inner == [Space] + e;
      BareSpace(e);
    }
    BareCall(EmitMods(c.below), inner, EmitParams(ps));
  }

  lemma TokensFn(c: Chain, name: string)
    requires c.Push? && c.top.Fn?
    ensures
      var r := DropMods(c.below);
      ChainTokens(c, name) == ModTokens(c.below) + (if r.Empty? then ChainTokens(r, name) else Nested(r, name)) + [LParen] + ParamTokens(c.top.params) + [RParen]
  {
  }

  lemma TokensEmpty(c: Chain, name: string)
    requires c.Empty?
    ensures ChainTokens(c, name) == NameTokens(name)
  {
  }

  lemma BareCall(m: seq<Token>, inner: seq<Token>, p: seq<Token>)
    ensures Bare(m + inner + [LParen] + p + [RParen]) == Bare(m) + Bare(inner) + [LParen] + Bare(p) + [RParen]
  {
    hide Bare;
    BareKeeps([LParen]);
    BareKeeps([RParen]);
    BareConcat(m, inner);
    BareConcat(m + inner, [LParen]);
    BareConcat(m + inner + [LParen], p);
    BareConcat(m + inner + [LParen] + p, [RParen]);
  }

  lemma BareNested(s: seq<Token>)
    ensures Bare([LParen] + s + [RParen]) == [LParen] + Bare(s) + [RParen]
  {
    BareKeeps([LParen]);
    BareKeeps([RParen]);
    BareConcat([LParen], s);
    BareConcat([LParen] + s, [RParen]);
  }

  lemma {:induction false} BareParams(ps: seq<Param>)
    ensures Bare(EmitParams(ps)) == ParamTokens(ps)
    decreases ps, 1
  {
    if !IsVoidList(ps) {
      BareParamsFrom(ps, 0);
    }
  }

  lemma BareSeparator(b: bool)
    ensures Bare(if b then [Comma, Space] else []) == if b then [Comma] else []
  {
    assert [Comma, Space][1..] == [Space];
  }

  lemma {:induction false} BareParamsFrom(ps: seq<Param>, i: nat)
    requires i <= |ps|
    ensures Bare(EmitParamsFrom(ps, i)) == ParamTokensFrom(ps, i)
    decreases ps, 0, |ps| - i
  {
    hide EmitChain, ChainTokens, Bare;
    if i == |ps| {
      BareKeeps([]);
    } else {
      var sep := if i > 0 then [Comma, Space] else [];
      BareSeparator(i > 0);
      var item := [Ellipsis];
      if i == |ps| - 1 && ps[i].chain == VOID_CHAIN {
        BareKeeps([Ellipsis]);
      } else {
        var e := EmitChain(ps[i].chain, ps[i].name, true);
        BareChain(ps[i].chain, ps[i].name, true);
        BareParamsFrom(ps, i + 1);
        BareConcat(e, EmitParamsFrom(ps, i + 1));
        item := e + EmitParamsFrom(ps, i + 1);
      }
      BareConcat(sep, item);
      assert EmitParamsFrom(ps, i) == sep + item;
    }
  }

  // Reading back ---------------------------------------------------------------------------

  function ModSet(c: Chain): set<Qualifier> {
    if c.Push? && c.top.Qual? then {c.top.q} + ModSet(c.below) else {}
  }

  /** The declarator that the links of a chain amount to. */
  function DeclaratorOf(c: Chain, name: string): Declarator {
    if c.Empty? then DName(name)
    else
      match c.top
      case Ptr => DPtr(ModSet(c.below), DeclaratorOf(DropMods(c.below), name))
      case Arr(n) => DArr(DeclaratorOf(DropMods(c.below), name), n)
      case Fn(ps) =>
        DFn(DeclaratorOf(DropMods(c.below), name), if IsVoidList(ps) then [] else ParamTypes(ps, 0), IsVariadic(ps))
      case _ => DeclaratorOf(c.below, name)
  }

  function AddQuals(qs: set<Qualifier>, t: CType): CType {
    match t
    case TBase(ps, id) => TBase(ps + qs, id)
    case TPtr(ps, to) => TPtr(ps + qs, to)
    case _ => t
  }

  lemma {:induction false} BuildMods(c: Chain, t: CType)
    ensures Build(c, t) == Build(DropMods(c), AddQuals(ModSet(c), t))
  {
    if c.Push? && c.top.Qual? {
      BuildMods(c.below, AddQual(c.top.q, t));
      assert AddQuals(ModSet(c.below), AddQual(c.top.q, t)) == AddQuals(ModSet(c), t);
    } else {
      assert AddQuals({}, t) == t;
    }
  }

  /** The declarator declares what the chain says, whatever the specifiers say. */
  lemma {:induction false} DeclaratorDeclares(c: Chain, name: string, t: CType)
    requires LegalLinks(c) && (c.Push? ==> !c.top.Qual?)
    ensures Declared(DeclaratorOf(c, name), t) == CParam(name, Build(c, t))
  {
    if c.Push? {
      var u := Wrap(c.top, t);
      BuildMods(c.below, u);
      LegalBelow(c.below);
      assert {} + ModSet(c.below) == ModSet(c.below);
      assert c.top.Fn? ==> DropMods(c.below) == c.below;
      DeclaratorDeclares(DropMods(c.below), name, AddQuals(ModSet(c.below), u));
    }
  }

  lemma {:induction false} LegalBelow(c: Chain)
    requires LegalLinks(c)
    ensures LegalLinks(DropMods(c))
  {
    if c.Push? && c.top.Qual? {
      LegalBelow(c.below);
    }
  }

  /** What may follow a whole declaration. */
  predicate Ends(s: seq<Token>) {
    s == [] || s[0].RParen? || s[0].Comma?
  }

  /** What may follow a direct declarator. */
  predicate Continues(s: seq<Token>) {
    Ends(s) || s[0].LBracket? || (s[0].LParen? && StartsParams(s[1..]))
  }

  predicate IsDirect(c: Chain) {
    c.Empty? || c.top.Arr? || c.top.Fn?
  }

  /** How the tokens of a chain below its specifier begin. */
  lemma {:induction false} FirstToken(c: Chain, name: string)
    requires LegalLinks(c) && c.Push? && !c.top.Qual?
    ensures ChainTokens(c, name) != []
    ensures var t := ChainTokens(c, name)[0]; if c.top.Ptr? then t.Star? else t.Ident? || t.LBracket? || t.LParen?
  {
    LegalBelow(c.below);
    if c.top.Arr? && DropMods(c.below).Push? && DropMods(c.below).top.Arr? {
      FirstToken(DropMods(c.below), name);
    }
  }

  lemma {:induction false} ReadQuals(c: Chain, s: seq<Token>)
    requires s == [] || !s[0].Quals?
    ensures ParseQuals(ModTokens(c) + s) == (ModSet(c), s)
  {
    if c.Push? && c.top.Qual? {
      ReadQuals(c.below, s);
      assert (ModTokens(c) + s)[1..] == ModTokens(c.below) + s;
    } else {
      assert ModTokens(c) + s == s;
    }
  }

  lemma {:induction false} TokensSplitMods(c: Chain, name: string)
    ensures ChainTokens(c, name) == ModTokens(c) + ChainTokens(DropMods(c), name)
  {
    if c.Push? && c.top.Qual? {
      TokensSplitMods(c.below, name);
    }
  }

  lemma DeclaratorUnfolds(s: seq<Token>)
    ensures
      if s != [] && s[0].Star? then
        var q := ParseQuals(s[1..]);
        ParseDeclarator(s) == (match ParseDeclarator(q.1) case Ok(d, rest) => Ok(DPtr(q.0, d), rest) case Fail => Fail)
      else ParseDeclarator(s) == ParseDirect(s)
  {
  }

  /** Reading a declarator stops exactly at its end. */
  lemma {:induction false} ReadDeclarator(c: Chain, name: string, s: seq<Token>)
    requires LegalLinks(c) && (c.Push? ==> !c.top.Qual?) && Ends(s)
    ensures ParseDeclarator(ChainTokens(c, name) + s) == Ok(DeclaratorOf(c, name), s)
    decreases c, 3
  {
    hide ParseDeclarator, ParseDirect, ParseQuals;
    var toks := ChainTokens(c, name) + s;
    DeclaratorUnfolds(toks);
    if c.Push? && c.top.Ptr? {
      var r := DropMods(c.below);
      LegalBelow(c.below);
      TokensSplitMods(c.below, name);
      if r.Push? { FirstToken(r, name); }
      var after := ChainTokens(r, name) + s;
      assert toks[1..] == ModTokens(c.below) + after;
      ReadQuals(c.below, after);
      ReadDeclarator(r, name, s);
    } else {
      if c.Push? { FirstToken(c, name); }
      ReadDirect(c, name, s);
    }
  }

  /** Reading a direct declarator leaves its suffixes to be read. */
  lemma {:induction false} ReadDirect(c: Chain, name: string, s: seq<Token>)
    requires LegalLinks(c) && IsDirect(c) && Continues(s)
    ensures ParseDirect(ChainTokens(c, name) + s) == ParseSuffixes(DeclaratorOf(c, name), s)
    decreases c, 2
  {
    var toks := ChainTokens(c, name) + s;
    if c.Empty? {
      if name == "" {
        assert toks == s;
      } else {
        assert toks[1..] == s;
      }
    } else {
      ReadWrapped(c, name, s);
    }
  }

  lemma SuffixLast(c: Chain, name: string)
    requires LegalLinks(c) && c.Push? && (c.top.Arr? || c.top.Fn?)
    ensures var r := DropMods(c.below);
      ChainTokens(c, name) ==
        (if r.Empty? || (c.top.Arr? && r.top.Arr?) then ChainTokens(r, name) else Nested(r, name)) + SuffixTokens(c.top)
  {
    hide Nested, ParamTokens;
    if c.top.Fn? {
      assert ModTokens(c.below) == [];
    }
  }

  lemma {:induction false} ReadWrapped(c: Chain, name: string, s: seq<Token>)
    requires LegalLinks(c) && c.Push? && (c.top.Arr? || c.top.Fn?) && Continues(s)
    ensures ParseDirect(ChainTokens(c, name) + s) == ParseSuffixes(DeclaratorOf(c, name), s)
    decreases c, 1
  {
    hide ChainTokens, ParamTokens, ParseDirect, ParseDeclarator, ParseSuffixes, StartsParams;
    var r := DropMods(c.below);
    LegalBelow(c.below);
    SuffixLast(c, name);
    var d, suffix := DeclaratorOf(r, name), SuffixTokens(c.top);
    var toks := ChainTokens(c, name) + s;
    SuffixContinues(c, s);
    if r.Empty? || (c.top.Arr? && r.top.Arr?) {
      assert toks == ChainTokens(r, name) + (suffix + s);
      ReadDirect(r, name, suffix + s);
    } else {
      var after := [RParen] + (suffix + s);
      assert toks == [LParen] + (ChainTokens(r, name) + after);
      assert toks[1..] == ChainTokens(r, name) + after;
      NestedIsNoParams(r, name, after);
      ReadDeclarator(r, name, after);
      ReadNested(toks, d, after);
      assert after[1..] == suffix + s;
    }
    ReadSuffix(c, d, s);
  }

  lemma NestedIsNoParams(r: Chain, name: string, after: seq<Token>)
    requires LegalLinks(r) && r.Push? && !r.top.Qual?
    ensures !StartsParams(ChainTokens(r, name) + after)
  {
    FirstToken(r, name);
  }

  lemma ReadNested(toks: seq<Token>, d: Declarator, after: seq<Token>)
    requires toks != [] && toks[0].LParen? && !StartsParams(toks[1..])
    requires ParseDeclarator(toks[1..]) == Ok(d, after) && after != [] && after[0].RParen?
    ensures ParseDirect(toks) == ParseSuffixes(d, after[1..])
  {
  }

  function SuffixTokens(l: Link): seq<Token>
    requires l.Arr? || l.Fn?
  {
    if l.Arr? then Dim(l.nelems) else [LParen] + ParamTokens(l.params) + [RParen]
  }

  lemma {:induction false} ReadSuffix(c: Chain, d: Declarator, s: seq<Token>)
    requires LegalLinks(c) && c.Push? && (c.top.Arr? || c.top.Fn?)
    ensures ParseSuffixes(d, SuffixTokens(c.top) + s) == ParseSuffixes(
      match c.top
      case Arr(n) => DArr(d, n)
      case Fn(ps) => DFn(d, if IsVoidList(ps) then [] else ParamTypes(ps, 0), IsVariadic(ps)), s)
    decreases c, 0
  {
    hide ParseParams, ParamTokens, ParamTypes, IsVoidList, IsVariadic, ChainTokens;
    var suffix := SuffixTokens(c.top);
    if c.top.Arr? {
      assert (suffix + s)[3..] == s;
    } else {
      var ps := c.top.params;
      ReadParams(ps, s);
      assert (suffix + s)[1..] == ParamTokens(ps) + ([RParen] + s);
      assert (suffix + s)[0] == LParen;
    }
  }

  lemma {:induction false} SuffixContinues(c: Chain, s: seq<Token>)
    requires LegalLinks(c) && c.Push? && (c.top.Arr? || c.top.Fn?)
    ensures Continues(SuffixTokens(c.top) + s)
  {
    if c.top.Fn? {
      var ps := c.top.params;
      var t := [LParen] + ParamTokens(ps) + [RParen] + s;
      assert ps == [] ==> ParamTokens(ps) == ParamTokensFrom(ps, 0) == [];
      if ParamTokens(ps) != [] {
        assert ps != [] && LegalChain(ps[0].chain);
        DeclarationStarts(ps[0].chain, ps[0].name);
        assert ParamTokens(ps) == ItemTokens(ps, 0);
        assert t[1..][0] == ParamTokens(ps)[0];
      }
    }
  }

  lemma DeclarationStarts(c: Chain, name: string)
    requires LegalChain(c)
    ensures ChainTokens(c, name) != []
    ensures ChainTokens(c, name)[0].Quals? || ChainTokens(c, name)[0].Spec?
  {
  }

  lemma {:induction false} ReadParams(ps: seq<Param>, s: seq<Token>)
    requires LegalParams(ps)
    ensures ParseParams(ParamTokens(ps) + ([RParen] + s)) == Ok(ParamList(if IsVoidList(ps) then [] else ParamTypes(ps, 0), IsVariadic(ps)), s)
    decreases ps, 1
  {
    var toks := ParamTokens(ps) + ([RParen] + s);
    if IsVoidList(ps) || ps == [] {
      assert toks == [RParen] + s;
    } else {
      assert LegalChain(ps[0].chain);
      DeclarationStarts(ps[0].chain, ps[0].name);
      assert toks == ItemTokens(ps, 0) + ([RParen] + s);
      ReadParamList(ps, 0, s);
      NotPlainVoid(ps);
    }
  }

  function ItemTokens(ps: seq<Param>, i: nat): seq<Token>
    requires i < |ps|
  {
    ChainTokens(ps[i].chain, ps[i].name) + ParamTokensFrom(ps, i + 1)
  }

  /** What a parameter list does after a declaration. */
  lemma ListGoesOn(s: seq<Token>, p: CParam, rest: seq<Token>)
    requires ParseDeclaration(s) == Ok(p, rest) && rest != []
    ensures rest[0].RParen? ==> ParseParamList(s) == Ok(ParamList([p], false), rest[1..])
    ensures |rest| >= 3 && rest[0].Comma? && rest[1].Ellipsis? && rest[2].RParen? ==>
      ParseParamList(s) == Ok(ParamList([p], true), rest[3..])
    ensures rest[0].Comma? && (|rest| >= 2 ==> !rest[1].Ellipsis?) && ParseParamList(rest[1..]).Ok? ==>
      var more := ParseParamList(rest[1..]);
      ParseParamList(s) == Ok(ParamList([p] + more.val.params, more.val.variadic), more.rest)
  {
    hide ParseDeclaration;
  }

  lemma {:induction false} ReadParamList(ps: seq<Param>, i: nat, s: seq<Token>)
    requires LegalParams(ps) && i < |ps| && !(i == |ps| - 1 && ps[i].chain == VOID_CHAIN)
    ensures ParseParamList(ItemTokens(ps, i) + ([RParen] + s)) == Ok(ParamList(ParamTypes(ps, i), IsVariadic(ps)), s)
    decreases ps, 0, |ps| - i
  {
    hide ChainTokens, ParseDeclaration, ParseParamList, TypeOfChain;
    var p := ps[i];
    var after := ParamTokensFrom(ps, i + 1) + ([RParen] + s);
    assert ItemTokens(ps, i) + ([RParen] + s) == ChainTokens(p.chain, p.name) + after;
    assert LegalChain(p.chain);
    ReadDeclaration(p.chain, p.name, after);
    ListGoesOn(ItemTokens(ps, i) + ([RParen] + s), CParam(p.name, TypeOfChain(p.chain)), after);
    assert ParamTypes(ps, i) == [CParam(p.name, TypeOfChain(p.chain))] + ParamTypes(ps, i + 1);
    if i + 1 == |ps| {
      assert ParamTokensFrom(ps, i + 1) == [] && ParamTypes(ps, i + 1) == [];
      assert after == [RParen] + s && after[1..] == s;
      assert ParamTypes(ps, i) == [CParam(p.name, TypeOfChain(p.chain))] && !IsVariadic(ps);
    } else if i + 1 == |ps| - 1 && ps[i + 1].chain == VOID_CHAIN {
      assert ParamTokensFrom(ps, i + 1) == [Comma] + [Ellipsis] && ParamTypes(ps, i + 1) == [];
      assert after == [Comma, Ellipsis, RParen] + s && after[3..] == s;
      assert ParamTypes(ps, i) == [CParam(p.name, TypeOfChain(p.chain))] && IsVariadic(ps);
    } else {
      assert LegalChain(ps[i + 1].chain);
      DeclarationStarts(ps[i + 1].chain, ps[i + 1].name);
      assert after[1..] == ItemTokens(ps, i + 1) + ([RParen] + s);
      ReadParamList(ps, i + 1, s);
    }
  }

  lemma PeelBase(c: Chain)
    requires c.Push? && c.top.Base?
    ensures TypeOfChain(c) == Build(c.below, TBase({}, c.top.id))
  {
    assert Build(c, TBase({}, 0)) == Build(c.below, Wrap(c.top, TBase({}, 0)));
  }

  /** The types of the parameters, one by one; a last void one is not among them. */
  lemma {:induction false} ParamTypesAre(ps: seq<Param>, i: nat)
    requires i <= |ps|
    ensures |ParamTypes(ps, i)| == if i == |ps| then 0 else if IsVariadic(ps) then |ps| - 1 - i else |ps| - i
    ensures forall k :: 0 <= k < |ParamTypes(ps, i)| ==> ParamTypes(ps, i)[k] == CParam(ps[i + k].name, TypeOfChain(ps[i + k].chain))
    decreases |ps| - i
  {
    hide TypeOfChain;
    if i < |ps| && !(i == |ps| - 1 && IsVariadic(ps)) { ParamTypesAre(ps, i + 1); }
  }

  lemma {:induction false} ReadDeclaration(c: Chain, name: string, s: seq<Token>)
    requires LegalChain(c) && Ends(s)
    ensures ParseDeclaration(ChainTokens(c, name) + s) == Ok(CParam(name, TypeOfChain(c)), s)
    decreases c, 4
  {
    var r := DropMods(c.below);
    LegalBelow(c.below);
    var body := ChainTokens(r, name) + s;
    var toks := ChainTokens(c, name) + s;
    assert toks == ModTokens(c.below) + ([Spec(c.top.id)] + body);
    ReadQuals(c.below, [Spec(c.top.id)] + body);
    assert ([Spec(c.top.id)] + body)[1..] == body;
    if r.Push? { FirstToken(r, name); }
    assert ParseQuals(body) == ({}, body);
    ReadDeclarator(r, name, s);
    BuildMods(c.below, TBase({}, c.top.id));
    DeclaratorDeclares(r, name, TBase(ModSet(c.below), c.top.id));
    assert ModSet(c.below) + {} == ModSet(c.below) && {} + ModSet(c.below) == ModSet(c.below);
    PeelBase(c);
    assert Declared(DeclaratorOf(r, name), TBase(ModSet(c.below), c.top.id)) == CParam(name, TypeOfChain(c));
  }

  /** Only the void specifier by itself means plain void. */
  lemma {:induction false} BuildNotPlain(c: Chain, t: CType)
    requires LegalLinks(c) && (c.Push? || !t.TBase? || t.quals != {})
    ensures !Build(c, t).TBase? || Build(c, t).quals != {}
  {
    if c.Push? {
      BuildNotPlain(c.below, Wrap(c.top, t));
    }
  }

  lemma NotPlainVoid(ps: seq<Param>)
    requires LegalParams(ps) && ps != [] && !IsVoidList(ps)
    ensures ParamList(ParamTypes(ps, 0), IsVariadic(ps)) != ParamList([CParam("", TBase({}, 0))], false)
  {
    var c := ps[0].chain;
    assert LegalChain(c);
    assert ParamTypes(ps, 0) == [CParam(ps[0].name, TypeOfChain(c))] + ParamTypes(ps, 1);
    PeelBase(c);
    assert ParamTypes(ps, 0)[0].typ == TypeOfChain(c);
    if |ps| == 1 {
      if c.below.Push? {
        BuildNotPlain(c.below, TBase({}, c.top.id));
      }
    } else if !IsVariadic(ps) {
      assert ParamTypes(ps, 1) != [];
    }
  }

  /** Printing a declaration and parsing it back gives the same name and the same type, qualifier
      order aside, for a named or an unnamed declaration. */
  lemma PrintThenParse(c: Chain, name: string)
    requires LegalChain(c)
    ensures ParseDeclaration(Bare(EmitChain(c, name, true))) == Ok(CParam(name, TypeOfChain(c)), [])
  {
    BareChain(c, name, true);
    ReadDeclaration(c, name, []);
    assert ChainTokens(c, name) + [] == ChainTokens(c, name);
  }

  // Word boundaries ------------------------------------------------------------------------

  predicate IsWord(t: Token) {
    t.Spec? || t.Quals? || t.Ident? || t.Num?
  }

  /** No two words run together, so the printed characters split into these very tokens. */
  predicate Separated(s: seq<Token>) {
    forall i :: 0 <= i < |s| - 1 ==> !(IsWord(s[i]) && IsWord(s[i + 1]))
  }

  lemma SeparatedConcat(a: seq<Token>, b: seq<Token>)
    requires Separated(a) && Separated(b)
    requires a == [] || b == [] || !IsWord(a[|a| - 1]) || !IsWord(b[0])
    ensures Separated(a + b)
  {
    var s := a + b;
    forall i | 0 <= i < |s| - 1 ensures !(IsWord(s[i]) && IsWord(s[i + 1])) {
      if i + 1 < |a| { assert s[i] == a[i] && s[i + 1] == a[i + 1]; }
      else if i >= |a| { assert s[i] == b[i - |a|] && s[i + 1] == b[i + 1 - |a|]; }
    }
  }

  predicate StartsWord(s: seq<Token>) {
    s != [] && IsWord(s[0])
  }

  lemma {:induction false} ModsSeparated(c: Chain)
    ensures var s := EmitMods(c); Separated(s) && (s != [] ==> s[|s| - 1].Space?)
  {
    if c.Push? && c.top.Qual? {
      ModsSeparated(c.below);
      SeparatedConcat([Quals(c.top.q), Space], EmitMods(c.below));
    }
  }

  /** Text that follows a word is set off from it, and text for no name needs no setting off. */
  lemma {:induction false} LinksSeparated(c: Chain, name: string, lastWasPtr: bool)
    requires LegalLinks(c)
    ensures Separated(EmitChain(c, name, lastWasPtr))
    ensures !lastWasPtr || name == "" ==> !StartsWord(EmitChain(c, name, lastWasPtr))
    decreases c, 1
  {
    if c.Push? {
      var r := DropMods(c.below);
      LegalBelow(c.below);
      match c.top
      case Ptr =>
        LinksSeparated(c.below, name, true);
        SeparatedConcat(if lastWasPtr then [Star] else [Space, Star], EmitChain(c.below, name, true));
      case Qual(q) =>
        LinksSeparated(c.below, name, false);
        SeparatedConcat([Space, Quals(q)], EmitChain(c.below, name, false));
      case Arr(n) => ArrSeparated(c, name, lastWasPtr);
      case Fn(ps) => FnSeparated(c, name, lastWasPtr);
    }
  }

  lemma {:induction false} ArrSeparated(c: Chain, name: string, lastWasPtr: bool)
    requires LegalLinks(c) && c.Push? && c.top.Arr?
    ensures Separated(EmitChain(c, name, lastWasPtr))
    ensures !lastWasPtr || name == "" ==> !StartsWord(EmitChain(c, name, lastWasPtr))
    decreases c, 0
  {
    hide Separated, EmitChain;
    var n, r := c.top.nelems, DropMods(c.below);
    EmitArr(c, name, lastWasPtr);
    LegalBelow(c.below);
    SmallSeparated(name, lastWasPtr, n);
    if r.Empty? {
      SeparatedConcat(EmitName(name, lastWasPtr), Dim(n));
    } else {
      LinksSeparated(r, name, true);
      var e := EmitChain(r, name, true);
      NestedSeparated(e);
      var inner := if r.top.Arr? then e else [LParen] + e + [RParen];
      SeparatedConcat(inner, Dim(n));
      SeparatedConcat([Space], inner + Dim(n));
      Associative([Space], inner, Dim(n));
      assert [] + inner == inner;
    }
  }

  lemma SmallSeparated(name: string, lastWasPtr: bool, n: nat)
    ensures Separated(EmitName(name, lastWasPtr)) && Separated(Dim(n)) && Separated([Space])
  {
  }

  lemma {:induction false} FnSeparated(c: Chain, name: string, lastWasPtr: bool)
    requires LegalLinks(c) && c.Push? && c.top.Fn?
    ensures Separated(EmitChain(c, name, lastWasPtr))
    ensures !lastWasPtr || name == "" ==> !StartsWord(EmitChain(c, name, lastWasPtr))
    decreases c, 0
  {
    hide Separated;
    var ps, r := c.top.params, DropMods(c.below);
    LegalBelow(c.below);
    ParamsSeparated(ps);
    NestedSeparated(EmitParams(ps));
    SmallSeparated(name, lastWasPtr, 0);
    var tail := [LParen] + EmitParams(ps) + [RParen];
    var inner := EmitName(name, lastWasPtr);
    if r.Push? {
      LinksSeparated(r, name, true);
      var e := [LParen] + EmitChain(r, name, true) + [RParen];
      NestedSeparated(EmitChain(r, name, true));
      SeparatedConcat([Space], e);
      inner := [Space] + e;
    }
    SeparatedConcat(inner, tail);
    assert EmitMods(c.below) == [];
    assert EmitChain(c, name, lastWasPtr) == inner + tail;
  }

  lemma NestedSeparated(s: seq<Token>)
    requires Separated(s)
    ensures Separated([LParen] + s + [RParen])
  {
    SeparatedConcat([LParen], s);
    SeparatedConcat([LParen] + s, [RParen]);
  }

  lemma {:induction false} ParamsSeparated(ps: seq<Param>)
    requires LegalParams(ps)
    ensures Separated(EmitParams(ps))
    decreases ps, 1
  {
    if !IsVoidList(ps) {
      ParamsFromSeparated(ps, 0);
    }
  }

  lemma {:induction false} ParamsFromSeparated(ps: seq<Param>, i: nat)
    requires LegalParams(ps) && i <= |ps|
    ensures Separated(EmitParamsFrom(ps, i)) && (i > 0 ==> !StartsWord(EmitParamsFrom(ps, i)))
    decreases ps, 0, |ps| - i
  {
    if i < |ps| {
      var sep := if i > 0 then [Comma, Space] else [];
      if i == |ps| - 1 && ps[i].chain == VOID_CHAIN {
        SeparatedConcat(sep, [Ellipsis]);
      } else {
        assert LegalChain(ps[i].chain);
        DeclarationSeparated(ps[i].chain, ps[i].name);
        ParamsFromSeparated(ps, i + 1);
        var e := EmitChain(ps[i].chain, ps[i].name, true);
        SeparatedConcat(e, EmitParamsFrom(ps, i + 1));
        SeparatedConcat(sep, e + EmitParamsFrom(ps, i + 1));
      }
    }
  }

  /** The spaces the printer puts in are enough to keep its words apart. */
  lemma {:induction false} DeclarationSeparated(c: Chain, name: string)
    requires LegalChain(c)
    ensures Separated(EmitChain(c, name, true))
    decreases c, 2
  {
    var r := DropMods(c.below);
    LegalBelow(c.below);
    LinksSeparated(r, name, false);
    ModsSeparated(c.below);
    SeparatedConcat(EmitMods(c.below), [Spec(c.top.id)]);
    SeparatedConcat(EmitMods(c.below) + [Spec(c.top.id)], EmitChain(r, name, false));
  }
}
