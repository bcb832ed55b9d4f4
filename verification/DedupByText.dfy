/** What deduplication as a whole keeps, with names compared as texts: strings first, then types. */
module DedupByText {
  import opened Errors
  import opened BtfGraph
  import opened StringTable
  import opened StringDedup
  import opened BtfCompare
  import opened Contents
  import opened DedupState
  import opened Renumbering
  import opened Dedup

  /** The same record, up to references, with the same texts for names. */
  ghost predicate SameRecord(data: string, t: BtfType, out: string, u: BtfType) {
    SameNamed(data, Shape(t), out, Shape(u))
  }

  /** Types that look the same when unfolded to depth n, reading names in their own sections. */
  ghost predicate SameByText(n: nat, data: string, g: seq<BtfType>, a: nat, out: string, h: seq<BtfType>, b: nat)
    requires Closed(g) && Closed(h) && a < |g| && b < |h|
  {
    n > 0 ==>
      SameRecord(data, g[a], out, h[b]) && |Refs(g[a])| == |Refs(h[b])| &&
      forall k :: 0 <= k < |Refs(g[a])| ==> SameByText(n - 1, data, g, Refs(g[a])[k], out, h, Refs(h[b])[k])
  }

  /** The result of the string pass on types and section. */
  ghost predicate Renamed(data: string, g0: seq<BtfType>, out: string, g: seq<BtfType>) {
    |g0| == |g| > 0 && g0[0] == g[0] == VOID && SameText(data, 0, out, 0) &&
    forall i :: 1 <= i < |g| ==> SameNamed(data, g0[i], out, g[i])
  }

  lemma NamesOfShape(t: BtfType)
    ensures NameOffs(Shape(t)) == NameOffs(t)
    ensures Refs(Unnamed(t)) == Refs(t) && Shape(Unnamed(t)) == Unnamed(Shape(t))
  {
    match t.body
    case Members(_) =>
      assert BodyNames(BodyShape(t.body)) == BodyNames(t.body);
      assert BodyRefs(Unnamed(t).body) == BodyRefs(t.body);
      assert Shape(Unnamed(t)).body == Unnamed(Shape(t)).body;
    case Params(_) =>
      assert BodyNames(BodyShape(t.body)) == BodyNames(t.body);
      assert BodyRefs(Unnamed(t).body) == BodyRefs(t.body);
      assert Shape(Unnamed(t)).body == Unnamed(Shape(t)).body;
    case _ =>
  }

  /** A record is determined by its names and the rest. */
  lemma NamesAndRest(t: BtfType, u: BtfType)
    requires Unnamed(t) == Unnamed(u) && NameOffs(t) == NameOffs(u)
    ensures t == u
  {
    assert t.nameOff == NameOffs(t)[0] == NameOffs(u)[0] == u.nameOff;
    assert BodyNames(t.body) == NameOffs(t)[1..] == NameOffs(u)[1..] == BodyNames(u.body);
    var b, c := Unnamed(t).body, Unnamed(u).body;
    match t.body
    case Members(ms) =>
      forall i | 0 <= i < |ms| ensures ms[i] == u.body.ms[i] {
        assert b.ms[i] == c.ms[i] && BodyNames(t.body)[i] == BodyNames(u.body)[i];
      }
    case Enumerators(es) =>
      forall i | 0 <= i < |es| ensures es[i] == u.body.es[i] {
        assert b.es[i] == c.es[i] && BodyNames(t.body)[i] == BodyNames(u.body)[i];
      }
    case Params(ps) =>
      forall i | 0 <= i < |ps| ensures ps[i] == u.body.ps[i] {
        assert b.ps[i] == c.ps[i] && BodyNames(t.body)[i] == BodyNames(u.body)[i];
      }
    case _ =>
  }

  lemma RenamedRecord(data: string, g0: seq<BtfType>, out: string, g: seq<BtfType>, a: nat, u: BtfType)
    requires Renamed(data, g0, out, g) && a < |g| && Shape(g[a]) == Shape(u)
    ensures SameRecord(data, g0[a], out, u) && Refs(g0[a]) == Refs(g[a])
  {
    NamesOfShape(g0[a]);
    NamesOfShape(g[a]);
    NamesOfShape(u);
    if a == 0 { assert NameOffs(VOID) == [0]; }
  }

  lemma {:induction false} RenamedSame(n: nat, data: string, g0: seq<BtfType>, a: nat, out: string, g: seq<BtfType>, h: seq<BtfType>, b: nat)
    requires Closed(g0) && Closed(g) && Closed(h) && a < |g| && b < |h|
    requires Renamed(data, g0, out, g) && Same(n, g, a, h, b)
    ensures SameByText(n, data, g0, a, out, h, b)
  {
    hide SameRecord, SameNamed, SameText, Shape;
    if n > 0 {
      assert |g0| == |g|;
      RenamedRecord(data, g0, out, g, a, h[b]);
      forall k | 0 <= k < |Refs(g0[a])| ensures SameByText(n - 1, data, g0, Refs(g0[a])[k], out, h, Refs(h[b])[k]) {
        RenamedSame(n - 1, data, g0, Refs(g0[a])[k], out, g, h, Refs(h[b])[k]);
      }
    }
  }

  /** Names that stand at the starts of texts of a tidy section. */
  ghost predicate NamedIn(out: string, t: BtfType) {
    forall k :: 0 <= k < |NameOffs(t)| ==> IsStart(out, NameOffs(t)[k])
  }

  lemma RenamedNames(data: string, g0: seq<BtfType>, out: string, g: seq<BtfType>, h: seq<BtfType>, f: seq<nat>, b: nat)
    requires Renamed(data, g0, out, g) && Closed(g) && |f| == |g| && b < |h| && IsImage(g, h, f, b)
    ensures NamedIn(out, h[b])
  {
    var c: nat :| ImageOf(g, h, f, c, b);
    NamesOfShape(g[c]);
    NamesOfShape(h[b]);
    if c == 0 { assert NameOffs(VOID) == [0]; }
  }

  /** The output has no two equal records, of the kinds that are compared exactly, even if names are
      compared as texts. */
  lemma NoTwoAlike(data: string, g0: seq<BtfType>, out: string, kept: seq<string>, g: seq<BtfType>, strict: bool, h: seq<BtfType>, f: seq<nat>, a: nat, b: nat)
    requires Renamed(data, g0, out, g) && IsTidy(out, kept)
    requires Deduplicated(strict, g, h, f) && a < |h| && b < |h| && a != b && ComparedExactly(KindOf(h[a]))
    ensures !SameNamed(out, h[a], out, h[b])
  {
    RenamedNames(data, g0, out, g, h, f, a);
    RenamedNames(data, g0, out, g, h, f, b);
    if SameNamed(out, h[a], out, h[b]) {
      forall k | 0 <= k < |NameOffs(h[a])| ensures NameOffs(h[a])[k] == NameOffs(h[b])[k] {
        SortedBlobOffsets(kept, NameOffs(h[a])[k], NameOffs(h[b])[k]);
      }
      NamesAndRest(h[a], h[b]);
      assert false;
    }
  }

  /** Strings, then types: every type keeps its kind and name ... */
  lemma KeepsNames(data: string, g0: seq<BtfType>, out: string, g: seq<BtfType>, strict: bool, h: seq<BtfType>, f: seq<nat>, a: nat)
    requires Renamed(data, g0, out, g) && Closed(g0) && Deduplicated(strict, g, h, f) && a < |g0|
    ensures f[a] < |h| && TextAt(out, h[f[a]].nameOff) == TextAt(data, g0[a].nameOff) && Class(h[f[a]]) == Class(g0[a])
  {
    hide Bisimilar, IsImage, ComparedExactly, IsStart;
    if a > 0 {
      assert SameNamed(data, g0[a], out, g[a]);
      assert NameOffs(g0[a])[0] == g0[a].nameOff && NameOffs(g[a])[0] == g[a].nameOff;
      assert Unnamed(g0[a]).info == g0[a].info && Unnamed(g[a]).info == g[a].info;
    }
  }

  /** ... and, unless forward declarations are resolved, its whole unfolding. */
  lemma KeepsUnfoldings(data: string, g0: seq<BtfType>, out: string, g: seq<BtfType>, h: seq<BtfType>, f: seq<nat>, a: nat, n: nat)
    requires Renamed(data, g0, out, g) && Closed(g0) && Deduplicated(true, g, h, f) && a < |g0|
    ensures f[a] < |h| && SameByText(n, data, g0, a, out, h, f[a])
  {
    hide SameByText, Same, Renamed, IsImage, ComparedExactly;
    assert |g0| == |g| by { SameSize(data, g0, out, g); }
    assert Bisimilar(g, a, h, f[a]);
    RenamedSame(n, data, g0, a, out, g, h, f[a]);
  }

  /** ... and if they are resolved, its unfolding up to them. */
  lemma KeepsLikeness(data: string, g0: seq<BtfType>, out: string, kept: seq<string>, g: seq<BtfType>, h: seq<BtfType>, f: seq<nat>, a: nat, n: nat)
    requires Renamed(data, g0, out, g) && IsTidy(out, kept) && Closed(g0) && Deduplicated(false, g, h, f) && a < |g0|
    requires UnambiguousByText(data, g0)
    ensures f[a] < |h| && LikeByText(n, data, g0, a, out, h, f[a])
  {
    hide LikeByText, Like, Renamed, IsImage, ComparedExactly, UnambiguousByText, Unambiguous;
    assert |g0| == |g| by { SameSize(data, g0, out, g); }
    UnambiguousRenamed(data, g0, out, kept, g);
    assert Similar(g, a, h, f[a]);
    RenamedLike(n, data, g0, a, out, g, h, f[a]);
  }

  lemma SameSize(data: string, g0: seq<BtfType>, out: string, g: seq<BtfType>)
    requires Renamed(data, g0, out, g)
    ensures |g0| == |g|
  {
  }

  // Unfoldings up to forward declarations --------------------------------------------------

  /** One of the records is a forward declaration of what the other is, or declares, by the text of its
      name. */
  predicate DeclaresByText(data: string, t: BtfType, out: string, u: BtfType) {
    TextAt(data, t.nameOff) == TextAt(out, u.nameOff) && (Forward(t) || Forward(u)) &&
    if KindOf(t) == Fwd || KindOf(u) == Fwd then Class(t) == Class(u)
    else KindOf(t) == KindOf(u) && t.word == u.word && t.info.(vlen := 0) == u.info.(vlen := 0)
  }

  ghost predicate LikeByText(n: nat, data: string, g: seq<BtfType>, a: nat, out: string, h: seq<BtfType>, b: nat)
    requires Closed(g) && Closed(h) && a < |g| && b < |h|
  {
    n > 0 ==>
      DeclaresByText(data, g[a], out, h[b]) ||
      (RecordsByText(data, g[a], out, h[b]) && |Refs(g[a])| == |Refs(h[b])| &&
       forall k :: 0 <= k < |Refs(g[a])| ==> LikeByText(n - 1, data, g, Refs(g[a])[k], out, h, Refs(h[b])[k]))
  }

  /** Records that are equal up to references, with the same texts for names. */
  ghost predicate RecordsByText(data: string, t: BtfType, out: string, u: BtfType) {
    Unnamed(Shape(t)) == Unnamed(Shape(u)) && |NameOffs(t)| == |NameOffs(u)| &&
    forall k :: 0 <= k < |NameOffs(t)| ==> TextAt(data, NameOffs(t)[k]) == TextAt(out, NameOffs(u)[k])
  }

  /** All that one forward declaration declares is similar. */
  ghost predicate UnambiguousByText(data: string, g: seq<BtfType>)
    requires Closed(g)
  {
    forall f: nat, x: nat, y: nat, n: nat ::
      f < |g| && x < |g| && y < |g| && Forward(g[f]) && DeclaresByText(data, g[f], data, g[x]) && DeclaresByText(data, g[f], data, g[y]) &&
      !Forward(g[x]) && !Forward(g[y]) ==>
        LikeByText(n, data, g, x, data, g, y)
  }

  // Contents by text ------------------------------------------------------------------------

  /** A struct or union of the name, as text, and kind that a FWD announces. */
  ghost predicate AnnouncedByText(data: string, t: BtfType, u: BtfType) {
    TextAt(data, u.nameOff) == TextAt(data, t.nameOff) && KindOf(u) == if Kflag(t) then Union else Struct
  }

  ghost predicate OneShapeByText(data: string, g: seq<BtfType>, t: BtfType) {
    forall f: nat, x: nat, y: nat ::
      f < |g| && x < |g| && y < |g| && KindOf(g[f]) == Fwd &&
      AnnouncedByText(data, g[f], t) && AnnouncedByText(data, g[f], g[x]) && AnnouncedByText(data, g[f], g[y]) ==>
        RecordsByText(data, g[x], data, g[y])
  }

  /** What is left of type a, reading names in their own sections. */
  ghost predicate KeptByText(data: string, g0: seq<BtfType>, out: string, h: seq<BtfType>, f: seq<nat>, a: nat)
    requires a < |g0| == |f| && f[a] < |h|
  {
    var t, u := g0[a], h[f[a]];
    (match KindOf(t)
     case Int => SameNamed(data, t, out, u)
     case Enum => if Vlen(t) == 0 then KindOf(u) == Enum && u.word == t.word && u.info.(vlen := 0) == t.info.(vlen := 0) else SameNamed(data, t, out, u)
     case Fwd => SameRecord(data, t, out, u) || KindOf(u) == if Kflag(t) then Union else Struct
     case Struct => KindOf(u) == Struct && (OneShapeByText(data, g0, t) ==> SameRecord(data, t, out, u))
     case Union => KindOf(u) == Union && (OneShapeByText(data, g0, t) ==> SameRecord(data, t, out, u))
     case _ => SameRecord(data, t, out, u)) &&
    (IsRefKind(KindOf(t)) || NeverDeduped(KindOf(t)) ==>
       |Refs(u)| == |Refs(t)| && forall k :: 0 <= k < |Refs(t)| ==> Refs(t)[k] < |f| && Refs(u)[k] == f[Refs(t)[k]])
  }

  lemma RenamedAt(data: string, g0: seq<BtfType>, out: string, g: seq<BtfType>, a: nat)
    requires Renamed(data, g0, out, g) && a < |g|
    ensures KindOf(g[a]) == KindOf(g0[a]) && g[a].word == g0[a].word && g[a].info == g0[a].info && Refs(g[a]) == Refs(g0[a])
    ensures IsStart(out, g[a].nameOff) && TextAt(out, g[a].nameOff) == TextAt(data, g0[a].nameOff)
    ensures Unnamed(Shape(g[a])) == Unnamed(Shape(g0[a])) && |NameOffs(g[a])| == |NameOffs(g0[a])|
    ensures forall k :: 0 <= k < |NameOffs(g[a])| ==>
      IsStart(out, NameOffs(g[a])[k]) && TextAt(out, NameOffs(g[a])[k]) == TextAt(data, NameOffs(g0[a])[k])
  {
    NamesOfShape(g0[a]);
    NamesOfShape(g[a]);
    if a == 0 {
      assert NameOffs(VOID) == [0];
    } else {
      assert SameNamed(data, g0[a], out, g[a]);
      assert NameOffs(g0[a])[0] == g0[a].nameOff && NameOffs(g[a])[0] == g[a].nameOff;
      assert Unnamed(g0[a]).info == g0[a].info && Unnamed(g[a]).info == g[a].info;
    }
  }

  /** Records equal by text before the string pass have one shape after it. */
  lemma AlikeBecomesEqual(data: string, g0: seq<BtfType>, out: string, kept: seq<string>, g: seq<BtfType>, x: nat, y: nat)
    requires Renamed(data, g0, out, g) && IsTidy(out, kept) && x < |g| && y < |g| && RecordsByText(data, g0[x], data, g0[y])
    ensures Shape(g[x]) == Shape(g[y])
  {
    hide Renamed, IsStart, Shape;
    RenamedAt(data, g0, out, g, x);
    RenamedAt(data, g0, out, g, y);
    forall k | 0 <= k < |NameOffs(g[x])| ensures NameOffs(g[x])[k] == NameOffs(g[y])[k] {
      SortedBlobOffsets(kept, NameOffs(g[x])[k], NameOffs(g[y])[k]);
    }
    NamesOfShape(g[x]);
    NamesOfShape(g[y]);
    NamesAndRest(Shape(g[x]), Shape(g[y]));
  }

  lemma DeclaredRenamed(data: string, g0: seq<BtfType>, out: string, kept: seq<string>, g: seq<BtfType>, x: nat, y: nat)
    requires Renamed(data, g0, out, g) && IsTidy(out, kept) && x < |g| && y < |g|
    ensures Declares(g[x], g[y]) <==> DeclaresByText(data, g0[x], data, g0[y])
    ensures Forward(g[x]) <==> Forward(g0[x])
  {
    hide Renamed, IsStart, Shape;
    RenamedAt(data, g0, out, g, x);
    RenamedAt(data, g0, out, g, y);
    SortedBlobOffsets(kept, g[x].nameOff, g[y].nameOff);
  }

  lemma {:induction false} LikeRenamed(n: nat, data: string, g0: seq<BtfType>, out: string, kept: seq<string>, g: seq<BtfType>, x: nat, y: nat)
    requires Renamed(data, g0, out, g) && IsTidy(out, kept) && Closed(g0) && Closed(g) && x < |g| && y < |g|
    requires LikeByText(n, data, g0, x, data, g0, y)
    ensures Like(n, g, x, g, y)
  {
    hide Renamed, IsTidy, Shape, RecordsByText, Declares, DeclaresByText;
    SameSize(data, g0, out, g);
    DeclaredRenamed(data, g0, out, kept, g, x, y);
    if n > 0 && !Declares(g[x], g[y]) {
      AlikeBecomesEqual(data, g0, out, kept, g, x, y);
      RenamedAt(data, g0, out, g, x);
      RenamedAt(data, g0, out, g, y);
      forall k | 0 <= k < |Refs(g[x])| ensures Like(n - 1, g, Refs(g[x])[k], g, Refs(g[y])[k]) {
        LikeRenamed(n - 1, data, g0, out, kept, g, Refs(g[x])[k], Refs(g[y])[k]);
      }
    }
  }

  lemma UnambiguousRenamed(data: string, g0: seq<BtfType>, out: string, kept: seq<string>, g: seq<BtfType>)
    requires Renamed(data, g0, out, g) && IsTidy(out, kept) && Closed(g0) && Closed(g) && UnambiguousByText(data, g0)
    ensures Unambiguous(g)
  {
    hide Renamed, IsTidy, Declares, DeclaresByText, Forward, LikeByText, Like;
    SameSize(data, g0, out, g);
    forall f: nat, x: nat, y: nat, n: nat | f < |g| && x < |g| && y < |g| && Forward(g[f]) &&
      Declares(g[f], g[x]) && Declares(g[f], g[y]) && !Forward(g[x]) && !Forward(g[y])
      ensures Like(n, g, x, g, y)
    {
      DeclaredRenamed(data, g0, out, kept, g, f, x);
      DeclaredRenamed(data, g0, out, kept, g, f, y);
      DeclaredRenamed(data, g0, out, kept, g, x, x);
      DeclaredRenamed(data, g0, out, kept, g, y, y);
      LikeRenamed(n, data, g0, out, kept, g, x, y);
    }
  }

  lemma RecordRenamed(data: string, g0: seq<BtfType>, out: string, g: seq<BtfType>, a: nat, u: BtfType)
    requires Renamed(data, g0, out, g) && a < |g|
    ensures Shape(g[a]) == Shape(u) ==> RecordsByText(data, g0[a], out, u)
    ensures Declares(g[a], u) ==> DeclaresByText(data, g0[a], out, u)
  {
    hide Renamed, Shape;
    RenamedAt(data, g0, out, g, a);
    NamesOfShape(g[a]);
    NamesOfShape(u);
  }

  lemma {:induction false} RenamedLike(n: nat, data: string, g0: seq<BtfType>, a: nat, out: string, g: seq<BtfType>, h: seq<BtfType>, b: nat)
    requires Closed(g0) && Closed(g) && Closed(h) && a < |g| && b < |h|
    requires Renamed(data, g0, out, g) && Like(n, g, a, h, b)
    ensures |g0| == |g| && LikeByText(n, data, g0, a, out, h, b)
  {
    hide Renamed, Shape, RecordsByText, Declares, DeclaresByText;
    SameSize(data, g0, out, g);
    if n > 0 {
      RecordRenamed(data, g0, out, g, a, h[b]);
      if !Declares(g[a], h[b]) {
        RenamedAt(data, g0, out, g, a);
        forall k | 0 <= k < |Refs(g0[a])| ensures LikeByText(n - 1, data, g0, Refs(g0[a])[k], out, h, Refs(h[b])[k]) {
          RenamedLike(n - 1, data, g0, Refs(g0[a])[k], out, g, h, Refs(h[b])[k]);
        }
      }
    }
  }

  lemma OneShapeRenamed(data: string, g0: seq<BtfType>, out: string, kept: seq<string>, g: seq<BtfType>, a: nat)
    requires Renamed(data, g0, out, g) && IsTidy(out, kept) && a < |g| && OneShapeByText(data, g0, g0[a])
    ensures OneShape(g, g[a])
  {
    hide Renamed, IsTidy, Shape, RecordsByText;
    SameSize(data, g0, out, g);
    forall f: nat, x: nat, y: nat | f < |g| && x < |g| && y < |g| && KindOf(g[f]) == Fwd &&
      Announced(g[f], g[a]) && Announced(g[f], g[x]) && Announced(g[f], g[y])
      ensures Shape(g[x]) == Shape(g[y])
    {
      RenamedAt(data, g0, out, g, a);
      RenamedAt(data, g0, out, g, f);
      RenamedAt(data, g0, out, g, x);
      RenamedAt(data, g0, out, g, y);
      AlikeBecomesEqual(data, g0, out, kept, g, x, y);
    }
  }

  /** What is kept of each type by the type passes is kept by text by both. */
  lemma KeepsContents(data: string, g0: seq<BtfType>, out: string, kept: seq<string>, g: seq<BtfType>, strict: bool, h: seq<BtfType>, f: seq<nat>, a: nat)
    requires Renamed(data, g0, out, g) && IsTidy(out, kept) && Deduplicated(strict, g, h, f) && a < |g0|
    ensures |f| == |g0| && f[a] < |h| && KeptByText(data, g0, out, h, f, a)
  {
    hide Renamed, IsTidy, Bisimilar, IsImage, Shape, OneShape, OneShapeByText, SameRecord, SameNamed;
    SameSize(data, g0, out, g);
    var u := h[f[a]];
    assert ContentsKept(g, h, f, a);
    RenamedAt(data, g0, out, g, a);
    if OneShapeByText(data, g0, g0[a]) { OneShapeRenamed(data, g0, out, kept, g, a); }
    if Shape(u) == Shape(g[a]) { RenamedRecord(data, g0, out, g, a, u); }
    if u == g[a] { NamedAlike(data, g0, out, g, a); }
  }

  lemma NamedAlike(data: string, g0: seq<BtfType>, out: string, g: seq<BtfType>, a: nat)
    requires Renamed(data, g0, out, g) && a < |g|
    ensures KindOf(g0[a]) == Int || KindOf(g0[a]) == Enum ==> SameNamed(data, g0[a], out, g[a])
  {
  }

  // Both passes together --------------------------------------------------------------------

  lemma RenamedKeepsRefs(data: string, g0: seq<BtfType>, out: string, g: seq<BtfType>, a: nat)
    requires Renamed(data, g0, out, g) && a < |g|
    ensures Refs(g0[a]) == Refs(g[a]) && KindOf(g0[a]) == KindOf(g[a]) && (WellFormed(g0[a]) ==> WellFormed(g[a]))
  {
    hide NameOffs, WellFormed, Refs;
    NamesOfShape(g0[a]);
    NamesOfShape(g[a]);
    if a > 0 {
      assert Unnamed(g0[a]) == Unnamed(g[a]);
      UnnamedWellFormed(g0[a], g[a]);
    }
  }

  lemma UnnamedWellFormed(t: BtfType, u: BtfType)
    requires Unnamed(t) == Unnamed(u)
    ensures KindOf(t) == KindOf(u) && (WellFormed(t) ==> WellFormed(u))
  {
    assert t.info == Unnamed(t).info && u.info == Unnamed(u).info;
    var b, c := Unnamed(t).body, Unnamed(u).body;
    if t.body.Members? {
      assert u.body.Members? && |b.ms| == |c.ms| == |u.body.ms|;
    } else if t.body.Enumerators? {
      assert u.body.Enumerators? && |b.es| == |c.es| == |u.body.es|;
    } else if t.body.Params? {
      assert u.body.Params? && |b.ps| == |c.ps| == |u.body.ps|;
    }
  }

  /** What the string pass leaves is a graph with the same references. */
  lemma RenamedGraph(data: string, g0: seq<BtfType>, out: string, g: seq<BtfType>)
    requires Renamed(data, g0, out, g) && WellFormedGraph(g0)
    ensures WellFormedGraph(g) && forall rank :: RefOrder(g0, rank) <==> RefOrder(g, rank)
  {
    hide Renamed, Refs, WellFormed;
    SameSize(data, g0, out, g);
    assert g[0] == VOID by { VoidKept(data, g0, out, g); }
    forall a: nat | a < |g| ensures Refs(g0[a]) == Refs(g[a]) && KindOf(g0[a]) == KindOf(g[a]) && WellFormed(g[a]) {
      RenamedKeepsRefs(data, g0, out, g, a);
    }
  }

  lemma VoidKept(data: string, g0: seq<BtfType>, out: string, g: seq<BtfType>)
    requires Renamed(data, g0, out, g)
    ensures g[0] == VOID
  {
  }

  /** What deduplication makes of a section and its types: every type keeps the text of its name, its kind,
      what is said of its contents, and its unfolding, up to forward declarations if these are resolved
      and none is ambiguous; no two exactly compared records are equal by text; and the section has each
      text once. */
  ghost predicate DedupedByText(strict: bool, data: string, g0: seq<BtfType>, out: string, h: seq<BtfType>, f: seq<nat>) {
    Closed(g0) && Closed(h) && |h| <= |g0| == |f| && (exists kept :: IsTidy(out, kept)) &&
    (forall a: nat :: a < |g0| ==> f[a] < |h| && TextAt(out, h[f[a]].nameOff) == TextAt(data, g0[a].nameOff) && Class(h[f[a]]) == Class(g0[a])) &&
    (forall a: nat :: a < |g0| ==> f[a] < |h| && KeptByText(data, g0, out, h, f, a)) &&
    (strict ==> forall a: nat, n: nat :: a < |g0| ==> f[a] < |h| && SameByText(n, data, g0, a, out, h, f[a])) &&
    (!strict && UnambiguousByText(data, g0) ==> forall a: nat, n: nat :: a < |g0| ==> f[a] < |h| && LikeByText(n, data, g0, a, out, h, f[a])) &&
    forall a: nat, b: nat :: a < |h| && b < |h| && a != b && ComparedExactly(KindOf(h[a])) ==> !SameNamed(out, h[a], out, h[b])
  }

  lemma BothPasses(data: string, g0: seq<BtfType>, out: string, kept: seq<string>, g: seq<BtfType>, strict: bool, h: seq<BtfType>, f: seq<nat>)
    requires Renamed(data, g0, out, g) && WellFormedGraph(g0) && IsTidy(out, kept) && Deduplicated(strict, g, h, f)
    ensures DedupedByText(strict, data, g0, out, h, f)
  {
    hide Renamed, IsTidy, WellFormed, SameByText, SameNamed, ComparedExactly, Bisimilar, IsImage, Class, ContentsKept, KeptByText, LikeByText, UnambiguousByText, Unambiguous;
    SameSize(data, g0, out, g);
    forall a: nat | a < |g0|
      ensures f[a] < |h| && TextAt(out, h[f[a]].nameOff) == TextAt(data, g0[a].nameOff) && Class(h[f[a]]) == Class(g0[a])
    {
      KeepsNames(data, g0, out, g, strict, h, f, a);
    }
    forall a: nat | a < |g0| ensures f[a] < |h| && KeptByText(data, g0, out, h, f, a) {
      KeepsContents(data, g0, out, kept, g, strict, h, f, a);
    }
    forall a: nat, n: nat | strict && a < |g0| ensures f[a] < |h| && SameByText(n, data, g0, a, out, h, f[a]) {
      KeepsUnfoldings(data, g0, out, g, h, f, a, n);
    }
    forall a: nat, n: nat | !strict && UnambiguousByText(data, g0) && a < |g0| ensures f[a] < |h| && LikeByText(n, data, g0, a, out, h, f[a]) {
      KeepsLikeness(data, g0, out, kept, g, h, f, a, n);
    }
    forall a: nat, b: nat | a < |h| && b < |h| && a != b && ComparedExactly(KindOf(h[a])) ensures !SameNamed(out, h[a], out, h[b]) {
      NoTwoAlike(data, g0, out, kept, g, strict, h, f, a, b);
    }
  }

  /** The whole of deduplication. Without memory to start with it fails with -EINVAL. */
  method DedupAll(b: BtfData, strict: bool) returns (err: int, h: seq<BtfType>, ghost f: seq<nat>)
    requires IsSection(b.data) && WellFormedGraph(b.types)
    modifies b
    ensures err == 0 ==> DedupedByText(strict, old(b.data), old(b.types), b.data, h, f)
    ensures err == 0 ==> |b.ext| == |old(b.ext)| && forall i :: 0 <= i < |b.ext| ==> SameText(old(b.data), old(b.ext)[i], b.data, b.ext[i])
    ensures err == 0 ==> exists rank :: RefOrder(old(b.types), rank)
    ensures err == ELOOP ==> forall rank :: !RefOrder(old(b.types), rank)
    ensures err == 0 || err == ENOMEM || err == EINVAL || err == ELOOP
  {
    hide WellFormed, WellFormedGraph, Deduplicated, DedupedByText, RefOrder, IsTidy, SameNamed, SameText, StartingMaps;
    ghost var data, g0 := b.data, b.types;
    h, f := [], [];
    assert |g0| > 0 && g0[0] == VOID by { StartsWithVoid(g0); }
    var oom: bool := *;
    if oom { return EINVAL, h, f; }
    err := b.DedupStrings();
    if err != 0 { return; }
    RenamedGraph(data, g0, b.data, b.types);
    var d := new Deduper(b.types, strict);
    ghost var finalIds;
    err, finalIds := d.Run();
    if err != 0 { return; }
    h, f := d.types[..d.nrTypes + 1], finalIds;
    ghost var kept :| IsTidy(b.data, kept);
    BothPasses(data, g0, b.data, kept, b.types, strict, h, f);
  }

  lemma StartsWithVoid(g: seq<BtfType>)
    requires WellFormedGraph(g)
    ensures |g| > 0 && g[0] == VOID
  {
  }
}
