/** The first deduplication pass: string sections lose their duplicates and their unused texts. */
module StringDedup {
  import opened Errors
  import opened BtfGraph
  import opened StringTable

  // ---- The places that hold string offsets

  function NameOffs(t: BtfType): (ns: seq<nat>)
    ensures |ns| > 0
  {
    [t.nameOff] + BodyNames(t.body)
  }

  function BodyNames(b: Body): (ns: seq<nat>)
    ensures b.Members? ==> |ns| == |b.ms|
    ensures b.Enumerators? ==> |ns| == |b.es|
    ensures b.Params? ==> |ns| == |b.ps|
  {
    match b
    case Members(ms) => seq(|ms|, i requires 0 <= i < |ms| => ms[i].nameOff)
    case Enumerators(es) => seq(|es|, i requires 0 <= i < |es| => es[i].nameOff)
    case Params(ps) => seq(|ps|, i requires 0 <= i < |ps| => ps[i].nameOff)
    case _ => []
  }

  /** A record without its names. */
  function Unnamed(t: BtfType): BtfType {
    t.(nameOff := 0, body := match t.body
      case Members(ms) => Members(seq(|ms|, i requires 0 <= i < |ms| => ms[i].(nameOff := 0)))
      case Enumerators(es) => Enumerators(seq(|es|, i requires 0 <= i < |es| => es[i].(nameOff := 0)))
      case Params(ps) => Params(seq(|ps|, i requires 0 <= i < |ps| => ps[i].(nameOff := 0)))
      case _ => t.body)
  }

  function SetName(t: BtfType, k: nat, v: nat): (u: BtfType)
    requires k < |NameOffs(t)|
    ensures NameOffs(u) == NameOffs(t)[k := v]
    ensures Unnamed(u) == Unnamed(t)
  {
    if k == 0 then t.(nameOff := v)
    else
      match t.body
      case Members(ms) =>
        var u := t.(body := Members(ms[k - 1 := ms[k - 1].(nameOff := v)]));
        assert Unnamed(u).body.ms == Unnamed(t).body.ms;
        u
      case Enumerators(es) =>
        var u := t.(body := Enumerators(es[k - 1 := es[k - 1].(nameOff := v)]));
        assert Unnamed(u).body.es == Unnamed(t).body.es;
        u
      case Params(ps) =>
        var u := t.(body := Params(ps[k - 1 := ps[k - 1].(nameOff := v)]));
        assert Unnamed(u).body.ps == Unnamed(t).body.ps;
        u
  }

  /** All string offsets of the first n types, in the order in which they are visited; id 0 has none. */
  function TypeOffs(types: seq<BtfType>, n: nat): seq<nat>
    requires n <= |types|
  {
    if n <= 1 then [] else TypeOffs(types, n - 1) + NameOffs(types[n - 1])
  }

  lemma {:induction false} TypeOffsHas(types: seq<BtfType>, n: nat, i: nat, r: nat)
    requires 1 <= i < n <= |types| && r in NameOffs(types[i])
    ensures r in TypeOffs(types, n)
    decreases n
  {
    if i < n - 1 { TypeOffsHas(types, n - 1, i, r); }
  }

  // ---- The index of a section

  /** The index as it is built, with some flags set. */
  predicate IsIndex(data: string, ps: seq<StrPtr>) {
    |ps| == |Starts(data, 0)| && forall i :: 0 <= i < |ps| ==> ps[i].off == Starts(data, 0)[i]
  }

  predicate SortedByOffset(ps: seq<StrPtr>) {
    forall i, j :: 0 <= i < j < |ps| ==> ps[i].off <= ps[j].off
  }

  lemma IndexFacts(data: string, ps: seq<StrPtr>)
    requires IsSection(data) && IsIndex(data, ps)
    ensures SortedByOffset(ps) && |ps| > 0 && ps[0].off == 0
    ensures forall i, j :: 0 <= i < j < |ps| ==> ps[i].off != ps[j].off
    ensures forall r: nat :: IsStart(data, r) <==> exists k :: 0 <= k < |ps| && ps[k].off == r
  {
    StartsAre(data, 0);
    forall r: nat | IsStart(data, r) ensures exists k :: 0 <= k < |ps| && ps[k].off == r {
      assert r in Starts(data, 0);
      var k :| 0 <= k < |ps| && Starts(data, 0)[k] == r;
      assert ps[k].off == r;
    }
    forall k | 0 <= k < |ps| ensures IsStart(data, ps[k].off) { assert ps[k].off in Starts(data, 0); }
  }

  /** The index grows in steps; each step may find no memory. */
  method BuildIndex(data: string) returns (err: int, ps: seq<StrPtr>)
    ensures err == 0 || err == ENOMEM
    ensures err == 0 ==> IsIndex(data, ps) && forall i :: 0 <= i < |ps| ==> !ps[i].used
    ensures err == 0 && IsSection(data) ==> Space(data, ps) == |data|
  {
    ps := [];
    var p, cap := 0, 0;
    while p < |data|
      invariant |ps| <= cap && |ps| <= |Starts(data, 0)| && Starts(data, 0)[|ps|..] == Starts(data, p)
      invariant forall i :: 0 <= i < |ps| ==> ps[i].off == Starts(data, 0)[i] && !ps[i].used
      invariant IsSection(data) ==> p <= |data| && Space(data, ps) == p
      decreases |data| - p
    {
      if |ps| + 1 > cap {
        cap := cap + if |ps| / 2 > 16 then |ps| / 2 else 16;
        var oom: bool := *;
        if oom { return ENOMEM, []; }
      }
      if IsSection(data) { TextEnds(data, p); }
      assert Starts(data, 0)[|ps| + 1..] == Starts(data, 0)[|ps|..][1..];
      assert (ps + [StrPtr(p, false, 0)])[..|ps|] == ps;
      ps := ps + [StrPtr(p, false, 0)];
      p := p + |TextAt(data, p)| + 1;
    }
    return 0, ps;
  }

  /** Binary search by offset. */
  method Lookup(ps: seq<StrPtr>, off: nat) returns (k: int)
    requires SortedByOffset(ps)
    ensures -1 <= k < |ps|
    ensures k >= 0 ==> ps[k].off == off
    ensures k < 0 ==> forall i :: 0 <= i < |ps| ==> ps[i].off != off
  {
    var lo, hi := 0, |ps|;
    while lo < hi
      invariant 0 <= lo <= hi <= |ps|
      invariant forall i :: 0 <= i < lo ==> ps[i].off < off
      invariant forall i :: hi <= i < |ps| ==> ps[i].off > off
    {
      var mid := (lo + hi) / 2;
      if ps[mid].off == off { return mid; }
      if ps[mid].off < off { lo := mid + 1; } else { hi := mid; }
    }
    return -1;
  }

  // ---- Marking

  /** Used are the empty text at 0 and what has been visited; and all that is in the index. */
  ghost predicate Marked(data: string, ps: seq<StrPtr>, visited: seq<nat>) {
    IsIndex(data, ps) &&
    (forall i :: 0 <= i < |ps| ==> (ps[i].used <==> ps[i].off == 0 || ps[i].off in visited)) &&
    forall r :: r in visited ==> IsStart(data, r)
  }

  method MarkAsUsed(ghost data: string, ps: seq<StrPtr>, off: nat, ghost visited: seq<nat>) returns (err: bool, us: seq<StrPtr>)
    requires IsSection(data) && Marked(data, ps, visited)
    ensures err <==> !IsStart(data, off)
    ensures !err ==> Marked(data, us, visited + [off]) && Space(data, us) == Space(data, ps)
  {
    IndexFacts(data, ps);
    if off == 0 { return false, ps; }
    var k := Lookup(ps, off);
    if k < 0 { return true, ps; }
    us := ps[k := ps[k].(used := true)];
    SpaceKept(data, ps, us);
    return false, us;
  }

  lemma {:induction false} SpaceKept(data: string, ps: seq<StrPtr>, qs: seq<StrPtr>)
    requires |ps| == |qs| && forall i :: 0 <= i < |ps| ==> ps[i].off == qs[i].off
    ensures Space(data, ps) == Space(data, qs)
  {
    if ps != [] { SpaceKept(data, ps[..|ps| - 1], qs[..|ps| - 1]); }
  }

  method MarkList(ghost data: string, rs: seq<nat>, ps: seq<StrPtr>, ghost visited: seq<nat>) returns (err: bool, us: seq<StrPtr>)
    requires IsSection(data) && Marked(data, ps, visited)
    ensures err <==> exists r :: r in rs && !IsStart(data, r)
    ensures !err ==> Marked(data, us, visited + rs) && Space(data, us) == Space(data, ps)
  {
    hide Marked;
    us := ps;
    var k := 0;
    assert visited + rs[..0] == visited;
    while k < |rs|
      invariant k <= |rs| && Marked(data, us, visited + rs[..k]) && Space(data, us) == Space(data, ps)
      invariant forall r :: r in rs[..k] ==> IsStart(data, r)
    {
      err, us := MarkAsUsed(data, us, rs[k], visited + rs[..k]);
      if err { return; }
      assert visited + rs[..k] + [rs[k]] == visited + rs[..k + 1];
      k := k + 1;
    }
    assert rs[..k] == rs;
    err := false;
  }

  method MarkAll(ghost data: string, types: seq<BtfType>, ext: seq<nat>, ps: seq<StrPtr>) returns (err: bool, us: seq<StrPtr>)
    requires IsSection(data) && |types| > 0 && Marked(data, ps, [])
    ensures err <==> exists r :: r in TypeOffs(types, |types|) + ext && !IsStart(data, r)
    ensures !err ==> Marked(data, us, TypeOffs(types, |types|) + ext) && Space(data, us) == Space(data, ps)
  {
    hide Marked;
    us := ps;
    var i := 1;
    while i < |types|
      invariant 1 <= i <= |types| && Marked(data, us, TypeOffs(types, i)) && Space(data, us) == Space(data, ps)
      invariant forall r :: r in TypeOffs(types, i) ==> IsStart(data, r)
    {
      err, us := MarkList(data, NameOffs(types[i]), us, TypeOffs(types, i));
      if err {
        ghost var r :| r in NameOffs(types[i]) && !IsStart(data, r);
        TypeOffsHas(types, |types|, i, r);
        assert r in TypeOffs(types, |types|) + ext;
        return;
      }
      i := i + 1;
    }
    err, us := MarkList(data, ext, us, TypeOffs(types, |types|));
  }

  // ---- Sorting and compacting

  /** The two comparison functions: by text and by offset. */
  predicate InOrder(data: string, byText: bool, p: StrPtr, q: StrPtr) {
    if byText then TextAt(data, p.off) == TextAt(data, q.off) || Before(TextAt(data, p.off), TextAt(data, q.off))
    else p.off <= q.off
  }

  lemma OrderIsTotal(data: string, byText: bool, p: StrPtr, q: StrPtr)
    ensures InOrder(data, byText, p, q) || InOrder(data, byText, q, p)
  {
    BeforeTotal(TextAt(data, p.off), TextAt(data, q.off));
  }

  lemma OrderIsTransitive(data: string, byText: bool, p: StrPtr, q: StrPtr, r: StrPtr)
    requires InOrder(data, byText, p, q) && InOrder(data, byText, q, r)
    ensures InOrder(data, byText, p, r)
  {
    if byText && TextAt(data, p.off) != TextAt(data, q.off) && TextAt(data, q.off) != TextAt(data, r.off) {
      BeforeTransitive(TextAt(data, p.off), TextAt(data, q.off), TextAt(data, r.off));
    }
  }

  predicate Sorted(data: string, byText: bool, ps: seq<StrPtr>) {
    forall i, j :: 0 <= i < j < |ps| ==> InOrder(data, byText, ps[i], ps[j])
  }

  /** qsort: nothing is known about the order of equal elements. */
  method Sort(data: string, byText: bool, ps: seq<StrPtr>) returns (qs: seq<StrPtr>)
    ensures multiset(qs) == multiset(ps) && Sorted(data, byText, qs)
  {
    qs := [];
    var i := 0;
    while i < |ps|
      invariant i <= |ps| && multiset(qs) == multiset(ps[..i]) && Sorted(data, byText, qs)
    {
      qs := Insert(data, byText, qs, ps[i]);
      assert ps[..i + 1] == ps[..i] + [ps[i]];
      i := i + 1;
    }
    assert ps[..i] == ps;
  }

  method Insert(data: string, byText: bool, qs: seq<StrPtr>, p: StrPtr) returns (rs: seq<StrPtr>)
    requires Sorted(data, byText, qs)
    ensures multiset(rs) == multiset(qs) + multiset{p} && Sorted(data, byText, rs)
  {
    hide InOrder;
    var k := 0;
    while k < |qs| && InOrder(data, byText, qs[k], p)
      invariant k <= |qs| && forall j :: 0 <= j < k ==> InOrder(data, byText, qs[j], p)
    {
      k := k + 1;
    }
    rs := qs[..k] + [p] + qs[k..];
    assert multiset(qs) == multiset(qs[..k]) + multiset(qs[k..]) by { assert qs == qs[..k] + qs[k..]; }
    InsertedSorted(data, byText, qs, k, p);
  }

  lemma InsertedSorted(data: string, byText: bool, qs: seq<StrPtr>, k: nat, p: StrPtr)
    requires Sorted(data, byText, qs) && k <= |qs|
    requires forall j :: 0 <= j < k ==> InOrder(data, byText, qs[j], p)
    requires k < |qs| ==> !InOrder(data, byText, qs[k], p)
    ensures Sorted(data, byText, qs[..k] + [p] + qs[k..])
  {
    hide InOrder;
    forall j | k <= j < |qs| ensures InOrder(data, byText, p, qs[j]) {
      OrderIsTotal(data, byText, qs[k], p);
      if j > k { OrderIsTransitive(data, byText, p, qs[k], qs[j]); }
    }
  }

  /** The same records, up to where their texts go. */
  predicate SameRecords(ps: seq<StrPtr>, qs: seq<StrPtr>) {
    |ps| == |qs| && forall i :: 0 <= i < |ps| ==> ps[i].off == qs[i].off && ps[i].used == qs[i].used
  }

  /** Texts with a used instance have their new place. */
  ghost predicate Placed(data: string, ps: seq<StrPtr>, n: nat, out: string)
    requires n <= |ps|
  {
    forall i, j :: 0 <= i < n && 0 <= j < n && ps[j].used && TextAt(data, ps[i].off) == TextAt(data, ps[j].off) ==>
      StandsAt(out, ps[i].newOff, TextAt(data, ps[i].off))
  }

  /** The output so far: one instance of each text with a used instance among the first n, sorted. */
  ghost predicate Kept(data: string, ps: seq<StrPtr>, n: nat, out: string, kept: seq<string>)
    requires n <= |ps|
  {
    out == Blob(kept) && StrictlySorted(kept) && |out| <= Space(data, ps[..n]) &&
    (forall t :: t in kept <==> exists j :: 0 <= j < n && ps[j].used && TextAt(data, ps[j].off) == t)
  }

  /** The records from g up to i have one text, and it comes after all before it. */
  ghost predicate IsGroup(data: string, ps: seq<StrPtr>, g: nat, i: nat)
    requires g < i <= |ps|
  {
    (forall a :: g <= a < i ==> TextAt(data, ps[a].off) == TextAt(data, ps[g].off)) &&
    (forall a :: 0 <= a < g ==> Before(TextAt(data, ps[a].off), TextAt(data, ps[g].off)))
  }

  lemma SpaceGrows(data: string, ps: seq<StrPtr>, g: nat, i: nat)
    requires g < i <= |ps|
    ensures Space(data, ps[..i]) >= Space(data, ps[..g]) + |TextAt(data, ps[g].off)| + 1
  {
    assert ps[..i] == ps[..g] + ([ps[g]] + ps[g + 1..i]);
    SpaceConcat(data, ps[..g], [ps[g]] + ps[g + 1..i]);
    SpaceConcat(data, [ps[g]], ps[g + 1..i]);
    assert [ps[g]][..0] == [];
  }

  lemma SkipGroup(data: string, ps: seq<StrPtr>, g: nat, i: nat, out: string, kept: seq<string>)
    requires g < i <= |ps| && IsGroup(data, ps, g, i) && Kept(data, ps, g, out, kept) && Placed(data, ps, g, out)
    requires forall a :: g <= a < i ==> !ps[a].used
    ensures Kept(data, ps, i, out, kept) && Placed(data, ps, i, out)
  {
    hide Before, StandsAt;
    SpaceGrows(data, ps, g, i);
    forall a | 0 <= a < g ensures TextAt(data, ps[a].off) != TextAt(data, ps[g].off) { BeforeTotal(TextAt(data, ps[a].off), TextAt(data, ps[g].off)); }
  }

  /** What emitting a group does to the records. */
  ghost predicate PlacedGroup(ps: seq<StrPtr>, qs: seq<StrPtr>, g: nat, i: nat, at: nat) {
    g < i <= |ps| == |qs| && SameRecords(ps, qs) &&
    (forall a :: g <= a < i ==> qs[a].newOff == at) && (forall a :: 0 <= a < g ==> qs[a] == ps[a])
  }

  lemma EmittedKept(data: string, ps: seq<StrPtr>, qs: seq<StrPtr>, g: nat, i: nat, u: nat, out: string, kept: seq<string>)
    requires g < i <= |ps| && IsGroup(data, ps, g, i) && Kept(data, ps, g, out, kept)
    requires g <= u < i && ps[u].used && PlacedGroup(ps, qs, g, i, |out|)
    ensures var t := TextAt(data, ps[g].off); Kept(data, qs, i, out + t + [NUL], kept + [t])
  {
    hide Before, TextAt, Space;
    var t := TextAt(data, ps[g].off);
    BlobSnoc(kept, t);
    SpaceGrows(data, ps, g, i);
    SpaceKept(data, ps[..i], qs[..i]);
    forall s | s in kept ensures Before(s, t) {
      var j :| 0 <= j < g && ps[j].used && TextAt(data, ps[j].off) == s;
    }
    forall s ensures s in kept + [t] <==> exists j :: 0 <= j < i && qs[j].used && TextAt(data, qs[j].off) == s {
      if s == t { assert qs[u].used && TextAt(data, qs[u].off) == s; }
      if s in kept {
        var j :| 0 <= j < g && ps[j].used && TextAt(data, ps[j].off) == s;
        assert qs[j].used;
      }
      if exists j :: 0 <= j < i && qs[j].used && TextAt(data, qs[j].off) == s {
        var j :| 0 <= j < i && qs[j].used && TextAt(data, qs[j].off) == s;
        assert ps[j].used && TextAt(data, ps[j].off) == s;
      }
    }
  }

  lemma EmittedPlaced(data: string, ps: seq<StrPtr>, qs: seq<StrPtr>, g: nat, i: nat, out: string)
    requires g < i <= |ps| && IsGroup(data, ps, g, i) && Placed(data, ps, g, out) && PlacedGroup(ps, qs, g, i, |out|)
    requires |out| == 0 || out[|out| - 1] == NUL
    ensures Placed(data, qs, i, out + TextAt(data, ps[g].off) + [NUL])
  {
    hide Before;
    var t := TextAt(data, ps[g].off);
    var out' := out + t + [NUL];
    assert out' == out + (t + [NUL]);
    assert StandsAt(out', |out|, t) by { assert out'[|out|..|out| + |t|] == t; }
    forall a, b | 0 <= a < i && 0 <= b < i && qs[b].used && TextAt(data, qs[a].off) == TextAt(data, qs[b].off)
      ensures StandsAt(out', qs[a].newOff, TextAt(data, qs[a].off))
    {
      if a < g {
        BeforeTotal(TextAt(data, ps[a].off), t);
        assert b < g;
        StandsLonger(out, t + [NUL], ps[a].newOff, TextAt(data, ps[a].off));
      }
    }
  }

  method EmitGroup(data: string, ps: seq<StrPtr>, g: nat, i: nat, out: string, ghost kept: seq<string>) returns (out': string, qs: seq<StrPtr>, ghost kept': seq<string>)
    requires g < i <= |ps| && IsGroup(data, ps, g, i) && Kept(data, ps, g, out, kept) && Placed(data, ps, g, out)
    requires exists u :: g <= u < i && ps[u].used
    ensures SameRecords(ps, qs) && Kept(data, qs, i, out', kept') && Placed(data, qs, i, out')
  {
    hide Kept, Placed, IsGroup;
    var t := TextAt(data, ps[g].off);
    qs := ps;
    var j := g;
    while j < i
      invariant g <= j <= i && SameRecords(ps, qs)
      invariant forall a :: g <= a < j ==> qs[a].newOff == |out|
      invariant forall a :: 0 <= a < g ==> qs[a] == ps[a]
    {
      qs := qs[j := qs[j].(newOff := |out|)];
      j := j + 1;
    }
    ghost var u :| g <= u < i && ps[u].used;
    EmittedKept(data, ps, qs, g, i, u, out, kept);
    assert |out| == 0 || out[|out| - 1] == NUL by { KeptEnds(data, ps, g, out, kept); }
    EmittedPlaced(data, ps, qs, g, i, out);
    out', kept' := out + t + [NUL], kept + [t];
  }

  lemma KeptEnds(data: string, ps: seq<StrPtr>, n: nat, out: string, kept: seq<string>)
    requires n <= |ps| && Kept(data, ps, n, out, kept)
    ensures |out| == 0 || out[|out| - 1] == NUL
  {
  }

  method Compact(data: string, ps: seq<StrPtr>) returns (out: string, qs: seq<StrPtr>, ghost kept: seq<string>)
    requires Sorted(data, true, ps) && |ps| > 0
    ensures SameRecords(ps, qs) && Kept(data, qs, |qs|, out, kept) && Placed(data, qs, |qs|, out)
  {
    hide Kept, Placed, IsGroup, Sorted, Before, TextAt;
    out, qs, kept := [], ps, [];
    var g, used := 0, ps[0].used;
    StartCompact(data, ps);
    var i := 1;
    while i <= |qs|
      invariant 1 <= i <= |qs| + 1 && SameRecords(ps, qs)
      invariant i <= |qs| ==> g < i && IsGroup(data, qs, g, i) && Kept(data, qs, g, out, kept) && Placed(data, qs, g, out)
      invariant i <= |qs| ==> (used <==> exists a :: g <= a < i && qs[a].used)
      invariant i == |qs| + 1 ==> Kept(data, qs, |qs|, out, kept) && Placed(data, qs, |qs|, out)
    {
      if i < |qs| && TextAt(data, qs[i].off) == TextAt(data, qs[g].off) {
        GroupGrows(data, qs, g, i);
        used := used || qs[i].used;
      } else {
        ghost var before := qs;
        if used {
          out, qs, kept := EmitGroup(data, qs, g, i, out, kept);
        } else {
          SkipGroup(data, qs, g, i, out, kept);
        }
        if i < |qs| {
          NextGroup(data, ps, before, qs, g, i);
          g := i;
          used := qs[i].used;
        }
      }
      i := i + 1;
    }
  }

  lemma StartCompact(data: string, ps: seq<StrPtr>)
    requires |ps| > 0
    ensures IsGroup(data, ps, 0, 1) && Kept(data, ps, 0, [], []) && Placed(data, ps, 0, [])
  {
  }

  lemma GroupGrows(data: string, ps: seq<StrPtr>, g: nat, i: nat)
    requires g < i < |ps| && IsGroup(data, ps, g, i) && TextAt(data, ps[i].off) == TextAt(data, ps[g].off)
    ensures IsGroup(data, ps, g, i + 1)
  {
  }

  lemma NextGroup(data: string, sorted: seq<StrPtr>, ps: seq<StrPtr>, qs: seq<StrPtr>, g: nat, i: nat)
    requires g < i < |ps| && IsGroup(data, ps, g, i) && SameRecords(ps, qs) && SameRecords(sorted, qs) && Sorted(data, true, sorted)
    requires TextAt(data, ps[i].off) != TextAt(data, ps[g].off)
    ensures IsGroup(data, qs, i, i + 1)
  {
    hide Before;
    forall a | 0 <= a < i ensures Before(TextAt(data, qs[a].off), TextAt(data, qs[i].off)) {
      assert TextAt(data, sorted[g].off) != TextAt(data, sorted[i].off);
      if a < g { BeforeTransitive(TextAt(data, ps[a].off), TextAt(data, ps[g].off), TextAt(data, ps[i].off)); }
    }
  }

  // ---- Remapping

  /** The same text, in the old section and in the new one. */
  predicate SameText(data: string, r: nat, out: string, r': nat) {
    IsStart(out, r') && TextAt(out, r') == TextAt(data, r)
  }

  /** The records lead from all visited offsets to the same texts. */
  ghost predicate Leads(data: string, ps: seq<StrPtr>, visited: seq<nat>, out: string) {
    SortedByOffset(ps) &&
    (forall r :: r in visited ==> exists k :: 0 <= k < |ps| && ps[k].off == r) &&
    (forall k :: 0 <= k < |ps| && ps[k].off in visited ==> SameText(data, ps[k].off, out, ps[k].newOff)) &&
    SameText(data, 0, out, 0)
  }

  method RemapOffset(ghost data: string, ps: seq<StrPtr>, ghost visited: seq<nat>, ghost out: string, r: nat) returns (err: bool, r': nat)
    requires Leads(data, ps, visited, out) && r in visited
    ensures !err && SameText(data, r, out, r')
  {
    if r == 0 { return false, 0; }
    var k := Lookup(ps, r);
    if k < 0 { return true, r; }
    return false, ps[k].newOff;
  }

  /** The same record with the same names. */
  ghost predicate SameNamed(data: string, t: BtfType, out: string, u: BtfType) {
    Unnamed(t) == Unnamed(u) && |NameOffs(t)| == |NameOffs(u)| &&
    forall k :: 0 <= k < |NameOffs(t)| ==> SameText(data, NameOffs(t)[k], out, NameOffs(u)[k])
  }

  /** The same, field by field: which numbers of a record are string offsets. */
  ghost predicate NamesKept(data: string, t: BtfType, out: string, u: BtfType) {
    SameText(data, t.nameOff, out, u.nameOff) && u.info == t.info && u.word == t.word &&
    match t.body
    case Members(ms) =>
      u.body.Members? && |u.body.ms| == |ms| &&
      forall i :: 0 <= i < |ms| ==> SameText(data, ms[i].nameOff, out, u.body.ms[i].nameOff) && u.body.ms[i] == ms[i].(nameOff := u.body.ms[i].nameOff)
    case Enumerators(es) =>
      u.body.Enumerators? && |u.body.es| == |es| &&
      forall i :: 0 <= i < |es| ==> SameText(data, es[i].nameOff, out, u.body.es[i].nameOff) && u.body.es[i].val == es[i].val
    case Params(ps) =>
      u.body.Params? && |u.body.ps| == |ps| &&
      forall i :: 0 <= i < |ps| ==> SameText(data, ps[i].nameOff, out, u.body.ps[i].nameOff) && u.body.ps[i].typ == ps[i].typ
    case _ => u.body == t.body
  }

  /** Nothing else is changed, and no name is left out. */
  lemma NamesExactly(data: string, t: BtfType, out: string, u: BtfType)
    requires SameNamed(data, t, out, u)
    ensures NamesKept(data, t, out, u)
  {
    hide SameText;
    var b, c := Unnamed(t).body, Unnamed(u).body;
    assert NameOffs(t)[0] == t.nameOff && NameOffs(u)[0] == u.nameOff;
    assert u.info == Unnamed(u).info && u.word == Unnamed(u).word;
    forall i | 0 <= i < |BodyNames(t.body)| ensures |BodyNames(u.body)| == |BodyNames(t.body)| && SameText(data, BodyNames(t.body)[i], out, BodyNames(u.body)[i]) {
      assert NameOffs(t)[i + 1] == BodyNames(t.body)[i] && NameOffs(u)[i + 1] == BodyNames(u.body)[i];
    }
    match t.body
    case Members(ms) =>
      assert u.body.Members? && |c.ms| == |u.body.ms|;
      forall i | 0 <= i < |ms| ensures u.body.ms[i] == ms[i].(nameOff := u.body.ms[i].nameOff) && SameText(data, ms[i].nameOff, out, u.body.ms[i].nameOff) {
        assert b.ms[i] == c.ms[i];
        assert BodyNames(t.body)[i] == ms[i].nameOff && BodyNames(u.body)[i] == u.body.ms[i].nameOff;
      }
    case Enumerators(es) =>
      assert u.body.Enumerators? && |c.es| == |u.body.es|;
      forall i | 0 <= i < |es| ensures u.body.es[i].val == es[i].val && SameText(data, es[i].nameOff, out, u.body.es[i].nameOff) {
        assert b.es[i] == c.es[i];
        assert BodyNames(t.body)[i] == es[i].nameOff && BodyNames(u.body)[i] == u.body.es[i].nameOff;
      }
    case Params(ps) =>
      assert u.body.Params? && |c.ps| == |u.body.ps|;
      forall i | 0 <= i < |ps| ensures u.body.ps[i].typ == ps[i].typ && SameText(data, ps[i].nameOff, out, u.body.ps[i].nameOff) {
        assert b.ps[i] == c.ps[i];
        assert BodyNames(t.body)[i] == ps[i].nameOff && BodyNames(u.body)[i] == u.body.ps[i].nameOff;
      }
    case _ => assert u.body == c;
  }

  method RemapNames(ghost data: string, ps: seq<StrPtr>, ghost visited: seq<nat>, ghost out: string, t: BtfType) returns (err: bool, u: BtfType)
    requires Leads(data, ps, visited, out) && forall k :: 0 <= k < |NameOffs(t)| ==> NameOffs(t)[k] in visited
    ensures !err && SameNamed(data, t, out, u)
  {
    hide Leads, SameText;
    u := t;
    var k := 0;
    while k < |NameOffs(u)|
      invariant |NameOffs(u)| == |NameOffs(t)| && k <= |NameOffs(t)| && Unnamed(u) == Unnamed(t)
      invariant forall j :: k <= j < |NameOffs(t)| ==> NameOffs(u)[j] == NameOffs(t)[j]
      invariant forall j :: 0 <= j < k ==> SameText(data, NameOffs(t)[j], out, NameOffs(u)[j])
      decreases |NameOffs(t)| - k
    {
      var r;
      err, r := RemapOffset(data, ps, visited, out, NameOffs(u)[k]);
      if err { return; }
      u := SetName(u, k, r);
      k := k + 1;
    }
    err := false;
  }

  lemma IndexLeads(data: string, us: seq<StrPtr>, sorted: seq<StrPtr>, qs: seq<StrPtr>, ps: seq<StrPtr>, visited: seq<nat>, out: string, kept: seq<string>)
    requires IsSection(data) && Marked(data, us, visited)
    requires multiset(sorted) == multiset(us) && SameRecords(sorted, qs) && multiset(ps) == multiset(qs)
    requires Kept(data, qs, |qs|, out, kept) && Placed(data, qs, |qs|, out) && SortedByOffset(ps)
    ensures Leads(data, ps, visited, out) && kept != [] && kept[0] == ""
  {
    hide StandsAt, Before, SortedByOffset, Starts;
    IndexFacts(data, us);
    forall k | 0 <= k < |sorted| ensures sorted[k].used <==> sorted[k].off == 0 || sorted[k].off in visited {
      assert sorted[k] in multiset(us);
    }
    forall r: nat | IsStart(data, r) ensures exists k :: 0 <= k < |qs| && qs[k].off == r {
      var k :| 0 <= k < |us| && us[k].off == r;
      assert us[k] in multiset(sorted);
      var l :| 0 <= l < |sorted| && sorted[l] == us[k];
      assert qs[l].off == r;
    }
    forall r | r in visited ensures exists k :: 0 <= k < |ps| && ps[k].off == r {
      var k :| 0 <= k < |qs| && qs[k].off == r;
      assert qs[k] in multiset(ps);
    }
    forall k | 0 <= k < |ps| && ps[k].off in visited ensures SameText(data, ps[k].off, out, ps[k].newOff) {
      assert ps[k] in multiset(qs);
      var l :| 0 <= l < |qs| && qs[l] == ps[k];
      assert sorted[l].used;
      StandingText(out, ps[k].newOff, TextAt(data, ps[k].off));
    }
    assert IsStart(data, 0);
    EmptyFirst(data, qs, out, kept);
  }

  lemma EmptyFirst(data: string, qs: seq<StrPtr>, out: string, kept: seq<string>)
    requires IsSection(data) && Kept(data, qs, |qs|, out, kept)
    requires exists k :: 0 <= k < |qs| && qs[k].off == 0
    requires forall k :: 0 <= k < |qs| && qs[k].off == 0 ==> qs[k].used
    ensures kept != [] && kept[0] == "" && SameText(data, 0, out, 0)
  {
    var k :| 0 <= k < |qs| && qs[k].off == 0;
    assert TextAt(data, 0) == "";
    assert "" in kept;
    var i :| 0 <= i < |kept| && kept[i] == "";
    assert !Before(kept[0], "");
    BlobHead(kept);
  }

  lemma {:induction false} BlobHead(ts: seq<string>)
    requires ts != [] && ts[0] == ""
    ensures Blob(ts) != [] && Blob(ts)[0] == NUL
  {
    if |ts| > 1 { BlobHead(ts[..|ts| - 1]); }
  }

  // ---- The pass

  class BtfData {
    var data: string
    var types: seq<BtfType>
    /** The string offsets in the line information. */
    var ext: seq<nat>

    constructor (data: string, types: seq<BtfType>, ext: seq<nat>)
      ensures this.data == data && this.types == types && this.ext == ext
    {
      this.data, this.types, this.ext := data, types, ext;
    }

    ghost function AllOffs(): seq<nat>
      reads this
    {
      TypeOffs(types, |types|) + ext
    }

    method Remap(ghost before: string, ps: seq<StrPtr>, ghost visited: seq<nat>) returns (err: bool)
      requires |types| > 0 && visited == AllOffs() && Leads(before, ps, visited, data)
      modifies this`types, this`ext
      ensures !err && |types| == |old(types)| && types[0] == old(types[0]) && |ext| == |old(ext)|
      ensures forall i :: 1 <= i < |types| ==> SameNamed(before, old(types)[i], data, types[i])
      ensures forall i :: 0 <= i < |ext| ==> SameText(before, old(ext)[i], data, ext[i])
    {
      hide Leads, SameNamed, SameText;
      ghost var g, e := types, ext;
      var i := 1;
      while i < |types|
        invariant 1 <= i <= |types| == |g| && types[0] == g[0] && ext == e
        invariant forall j :: i <= j < |g| ==> types[j] == g[j]
        invariant forall j :: 1 <= j < i ==> SameNamed(before, g[j], data, types[j])
      {
        forall k | 0 <= k < |NameOffs(g[i])| ensures NameOffs(g[i])[k] in visited { TypeOffsHas(g, |g|, i, NameOffs(g[i])[k]); }
        var u;
        err, u := RemapNames(before, ps, visited, data, types[i]);
        if err { return; }
        types := types[i := u];
        i := i + 1;
      }
      i := 0;
      ghost var g' := types;
      while i < |ext|
        invariant i <= |ext| == |e| && types == g'
        invariant forall j :: i <= j < |e| ==> ext[j] == e[j]
        invariant forall j :: 0 <= j < i ==> SameText(before, e[j], data, ext[j])
      {
        assert e[i] in visited;
        var r;
        err, r := RemapOffset(before, ps, visited, data, ext[i]);
        if err { return; }
        ext := ext[i := r];
        i := i + 1;
      }
      err := false;
    }

    /** Unless it finds no memory it fails exactly if some offset is not at the start of a text. A
        failure changes nothing. Otherwise all places keep their texts, the section has become the sorted
        list of the used texts and the empty one, without duplicates, and it has not grown. */
    method DedupStrings() returns (err: int)
      requires IsSection(data) && |types| > 0
      modifies this
      ensures err == 0 || err == ENOMEM || err == EINVAL
      ensures err != ENOMEM ==> (err == EINVAL <==> exists r :: r in old(AllOffs()) && !IsStart(old(data), r))
      ensures err != 0 ==> data == old(data) && types == old(types) && ext == old(ext)
      ensures err == 0 ==> |types| == |old(types)| && types[0] == old(types[0]) && |ext| == |old(ext)|
      ensures err == 0 ==> forall i :: 1 <= i < |types| ==> SameNamed(old(data), old(types)[i], data, types[i])
      ensures err == 0 ==> forall i :: 0 <= i < |ext| ==> SameText(old(data), old(ext)[i], data, ext[i])
      ensures err == 0 ==> SameText(old(data), 0, data, 0)
      ensures err == 0 ==> |data| <= |old(data)| && exists kept :: IsTidy(data, kept) && OnlyUsed(old(data), old(AllOffs()), kept)
    {
      hide Marked, Kept, Placed, Leads, IsIndex, Sorted, Space, SameNamed, SameText, IsTidy;
      ghost var visited, before := AllOffs(), data;
      var ps;
      err, ps := BuildIndex(data);
      if err != 0 { return; }
      var oom: bool := *;
      if oom { return ENOMEM; }
      assert |ps| > 0 by { IndexFacts(data, ps); }
      FirstUsed(data, ps);
      ps := ps[0 := ps[0].(used := true)];
      var bad, us := MarkAll(data, types, ext, ps);
      if bad { return EINVAL; }
      var sorted := Sort(data, true, us);
      SpacePermutes(data, sorted, us);
      assert |sorted| > 0 by { SortedNonempty(data, us, sorted, visited); }
      var out, qs, kept := Compact(data, sorted);
      SpaceKept(data, sorted, qs);
      ps := Sort(data, false, qs);
      assert SortedByOffset(ps) by { OffsetOrder(data, ps); }
      IndexLeads(data, us, sorted, qs, ps, visited, out, kept);
      KeptIsTidy(data, us, sorted, qs, visited, out, kept);
      assert SameText(before, 0, out, 0) by { LeadsFromEmpty(before, ps, visited, out); }
      data := out;
      bad := Remap(before, ps, visited);
      return if bad then EINVAL else 0;
    }
  }

  lemma LeadsFromEmpty(data: string, ps: seq<StrPtr>, visited: seq<nat>, out: string)
    requires Leads(data, ps, visited, out)
    ensures SameText(data, 0, out, 0)
  {
  }

  lemma FirstUsed(data: string, ps: seq<StrPtr>)
    requires IsSection(data) && IsIndex(data, ps) && |ps| > 0 && forall i :: 0 <= i < |ps| ==> !ps[i].used
    ensures var us := ps[0 := ps[0].(used := true)]; Marked(data, us, []) && Space(data, us) == Space(data, ps)
  {
    StartsAre(data, 0);
    SpaceKept(data, ps, ps[0 := ps[0].(used := true)]);
    assert Starts(data, 0)[0] == 0;
  }

  lemma SortedNonempty(data: string, us: seq<StrPtr>, sorted: seq<StrPtr>, visited: seq<nat>)
    requires IsSection(data) && Marked(data, us, visited) && multiset(sorted) == multiset(us)
    ensures |sorted| > 0
  {
    IndexFacts(data, us);
    assert us[0] in multiset(sorted);
  }

  lemma OffsetOrder(data: string, ps: seq<StrPtr>)
    requires Sorted(data, false, ps)
    ensures SortedByOffset(ps)
  {
  }

  /** Strictly sorted texts, the empty one first. */
  ghost predicate IsTidy(data: string, kept: seq<string>) {
    StrictlySorted(kept) && data == Blob(kept) && kept != [] && kept[0] == "" && forall t :: t in kept ==> NUL !in t
  }

  lemma KeptIsTidy(data: string, us: seq<StrPtr>, sorted: seq<StrPtr>, qs: seq<StrPtr>, visited: seq<nat>, out: string, kept: seq<string>)
    requires IsSection(data) && Marked(data, us, visited)
    requires multiset(sorted) == multiset(us) && SameRecords(sorted, qs)
    requires Kept(data, qs, |qs|, out, kept) && kept != [] && kept[0] == ""
    ensures IsTidy(out, kept) && OnlyUsed(data, visited, kept) && |out| <= Space(data, qs)
  {
    assert qs[..|qs|] == qs;
    forall t | t in kept ensures t == "" || exists r :: r in visited && TextAt(data, r) == t {
      var j :| 0 <= j < |qs| && qs[j].used && TextAt(data, qs[j].off) == t;
      assert sorted[j] in multiset(us);
      if qs[j].off != 0 { assert qs[j].off in visited; }
    }
  }

  /** All texts are used ones, except that the empty one is always there. */
  ghost predicate OnlyUsed(data: string, visited: seq<nat>, kept: seq<string>) {
    forall t :: t in kept ==> t == "" || exists r :: r in visited && TextAt(data, r) == t
  }
}
