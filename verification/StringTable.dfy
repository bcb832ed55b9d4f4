/** String sections: texts, where they start, their order, and blobs of sorted texts. */
module StringTable {

  const NUL: char := '\0'

  /** The text at an offset: what follows up to the next zero. */
  function TextAt(data: string, off: nat): (s: string)
    ensures NUL !in s && (off < |data| ==> off + |s| <= |data|)
    decreases |data| - off
  {
    if off >= |data| || data[off] == NUL then [] else [data[off]] + TextAt(data, off + 1)
  }

  predicate IsStart(data: string, off: nat) {
    off < |data| && (off == 0 || data[off - 1] == NUL)
  }

  /** A section begins with the empty text and its last text is terminated. */
  predicate IsSection(data: string) {
    data != [] && data[0] == NUL && data[|data| - 1] == NUL
  }

  /** The offsets at which texts start, from p on. */
  function Starts(data: string, p: nat): seq<nat>
    decreases |data| - p
  {
    if p >= |data| then [] else [p] + Starts(data, p + |TextAt(data, p)| + 1)
  }

  predicate Ascending(s: seq<nat>) {
    forall i, j :: 0 <= i < j < |s| ==> s[i] < s[j]
  }

  lemma {:induction false} TextEnds(data: string, off: nat)
    requires IsSection(data) && off < |data|
    ensures var n := |TextAt(data, off)|; off + n < |data| && data[off + n] == NUL
    ensures forall i :: off <= i < off + |TextAt(data, off)| ==> data[i] != NUL
    decreases |data| - off
  {
    if data[off] != NUL { TextEnds(data, off + 1); }
  }

  /** Within a text nothing else starts, and behind it the next one does. */
  lemma NextStart(data: string, p: nat)
    requires IsSection(data) && p < |data|
    ensures var next := p + |TextAt(data, p)| + 1;
      (next >= |data| || IsStart(data, next)) && forall off: nat :: p < off < next ==> !IsStart(data, off)
  {
    hide TextAt;
    TextEnds(data, p);
  }

  /** They are all of them, in order. */
  lemma {:induction false} StartsAre(data: string, p: nat)
    requires IsSection(data) && (p >= |data| || IsStart(data, p))
    ensures Ascending(Starts(data, p)) && forall off: nat :: off in Starts(data, p) <==> p <= off && IsStart(data, off)
    decreases |data| - p
  {
    hide TextAt, IsSection;
    if p < |data| {
      NextStart(data, p);
      var next := p + |TextAt(data, p)| + 1;
      var rest := Starts(data, next);
      StartsAre(data, next);
      forall j | 0 <= j < |rest| ensures p < rest[j] { assert rest[j] in rest; }
      assert Starts(data, p) == [p] + rest;
      forall off: nat ensures off in Starts(data, p) <==> p <= off && IsStart(data, off) {
        assert off in Starts(data, p) <==> off == p || off in rest;
      }
    }
  }

  // ---- Order

  /** The order of strcmp. */
  predicate Before(s: string, t: string) {
    t != [] && (s == [] || s[0] < t[0] || (s[0] == t[0] && Before(s[1..], t[1..])))
  }

  lemma {:induction false} BeforeTransitive(s: string, t: string, u: string)
    requires Before(s, t) && Before(t, u)
    ensures Before(s, u)
  {
    if s != [] && s[0] == t[0] == u[0] { BeforeTransitive(s[1..], t[1..], u[1..]); }
  }

  lemma {:induction false} BeforeTotal(s: string, t: string)
    ensures s == t || Before(s, t) || Before(t, s)
    ensures !(Before(s, t) && Before(t, s)) && !Before(s, s)
  {
    if s != [] { BeforeTotal(s[1..], s[1..]); }
    if s != [] && t != [] && s[0] == t[0] {
      BeforeTotal(s[1..], t[1..]);
      if s[1..] == t[1..] { assert s == [s[0]] + s[1..] == t; }
    }
  }

  /** The two texts agree up to position k, where s ends or has the smaller character. */
  predicate FirstDiffers(s: string, t: string, k: nat) {
    k <= |s| && k < |t| && s[..k] == t[..k] && (k == |s| || s[k] < t[k])
  }

  /** The first difference decides, and a text comes before its extensions. */
  lemma {:induction false} BeforeExactly(s: string, t: string)
    ensures Before(s, t) <==> exists k: nat :: FirstDiffers(s, t, k)
  {
    if s != [] && t != [] && s[0] == t[0] {
      BeforeExactly(s[1..], t[1..]);
      if Before(s[1..], t[1..]) {
        var k: nat :| FirstDiffers(s[1..], t[1..], k);
        assert s[..k + 1] == [s[0]] + s[1..][..k] && t[..k + 1] == [t[0]] + t[1..][..k];
        assert FirstDiffers(s, t, k + 1);
      }
      if exists k: nat :: FirstDiffers(s, t, k) {
        var k: nat :| FirstDiffers(s, t, k);
        assert s[1..][..k - 1] == s[..k][1..] && t[1..][..k - 1] == t[..k][1..];
        assert FirstDiffers(s[1..], t[1..], k - 1);
      }
    } else {
      forall k: nat | FirstDiffers(s, t, k) ensures k == 0 {
        if k > 0 { DiffersLater(s, t, k); }
      }
      assert FirstDiffers(s, t, 0) <==> Before(s, t);
    }
  }

  lemma DiffersLater(s: string, t: string, k: nat)
    requires FirstDiffers(s, t, k) && k > 0
    ensures s != [] && t != [] && s[0] == t[0]
  {
    assert s[0] == s[..k][0] && t[0] == t[..k][0];
  }

  predicate StrictlySorted(ts: seq<string>) {
    forall i, j :: 0 <= i < j < |ts| ==> Before(ts[i], ts[j])
  }

  // ---- Blobs

  function Blob(ts: seq<string>): string {
    if ts == [] then [] else Blob(ts[..|ts| - 1]) + ts[|ts| - 1] + [NUL]
  }

  lemma BlobSnoc(ts: seq<string>, t: string)
    ensures Blob(ts + [t]) == Blob(ts) + t + [NUL]
  {
    assert (ts + [t])[..|ts|] == ts;
  }

  /** The text t stands at this offset, as a whole. */
  predicate StandsAt(data: string, off: nat, t: string) {
    off + |t| < |data| && data[off..off + |t|] == t && data[off + |t|] == NUL && (off == 0 || data[off - 1] == NUL)
  }

  lemma {:induction false} StandingText(data: string, off: nat, t: string)
    requires StandsAt(data, off, t) && NUL !in t
    ensures IsStart(data, off) && TextAt(data, off) == t
    decreases |t|
  {
    StandingTail(data, off, t);
  }

  lemma {:induction false} StandingTail(data: string, off: nat, t: string)
    requires off + |t| < |data| && data[off..off + |t|] == t && data[off + |t|] == NUL && NUL !in t
    ensures TextAt(data, off) == t
    decreases |t|
  {
    if t != [] {
      assert data[off] == t[0];
      assert data[off + 1..off + 1 + |t[1..]|] == t[1..];
      StandingTail(data, off + 1, t[1..]);
    }
  }

  lemma StandsLonger(data: string, more: string, off: nat, t: string)
    requires StandsAt(data, off, t)
    ensures StandsAt(data + more, off, t)
  {
    assert (data + more)[off..off + |t|] == t;
  }

  lemma {:induction false} TextPrefix(x: string, y: string, off: nat)
    requires x != [] && x[|x| - 1] == NUL && off < |x|
    ensures TextAt(x + y, off) == TextAt(x, off)
    decreases |x| - off
  {
    if x[off] != NUL { TextPrefix(x, y, off + 1); }
  }

  /** The texts of a blob start where they were put, and nowhere else. */
  lemma {:induction false} BlobStarts(ts: seq<string>, r: nat) returns (k: nat)
    requires IsStart(Blob(ts), r) && forall t :: t in ts ==> NUL !in t
    ensures k < |ts| && r == |Blob(ts[..k])| && TextAt(Blob(ts), r) == ts[k]
  {
    var n := |ts| - 1;
    var init, t := Blob(ts[..n]), ts[n];
    assert Blob(ts) == init + (t + [NUL]);
    if r < |init| {
      k := BlobStarts(ts[..n], r);
      assert init[|init| - 1] == NUL;
      TextPrefix(init, t + [NUL], r);
      assert ts[..n][..k] == ts[..k];
    } else {
      k := n;
      assert t in ts;
      assert forall i :: |init| <= i < |init| + |t| ==> Blob(ts)[i] in t;
      assert StandsAt(Blob(ts), r, t) by { assert Blob(ts)[r..r + |t|] == t; }
      StandingText(Blob(ts), r, t);
    }
  }

  /** In a blob of sorted texts an offset tells which text it is. */
  lemma SortedBlobOffsets(ts: seq<string>, r: nat, s: nat)
    requires StrictlySorted(ts) && (forall t :: t in ts ==> NUL !in t)
    requires IsStart(Blob(ts), r) && IsStart(Blob(ts), s)
    ensures r == s <==> TextAt(Blob(ts), r) == TextAt(Blob(ts), s)
  {
    var k := BlobStarts(ts, r);
    var l := BlobStarts(ts, s);
    BeforeTotal(ts[k], ts[k]);
  }

  // ---- Records for the pass over a section

  datatype StrPtr = StrPtr(off: nat, used: bool, newOff: nat)

  /** Space that the texts take up. */
  function Space(data: string, ps: seq<StrPtr>): nat {
    if ps == [] then 0 else Space(data, ps[..|ps| - 1]) + |TextAt(data, ps[|ps| - 1].off)| + 1
  }

  lemma {:induction false} SpaceConcat(data: string, ps: seq<StrPtr>, qs: seq<StrPtr>)
    ensures Space(data, ps + qs) == Space(data, ps) + Space(data, qs)
  {
    if qs == [] {
      assert ps + qs == ps;
    } else {
      var n := |qs| - 1;
      assert (ps + qs)[..|ps + qs| - 1] == ps + qs[..n];
      SpaceConcat(data, ps, qs[..n]);
    }
  }

  lemma {:induction false} SpacePermutes(data: string, ps: seq<StrPtr>, qs: seq<StrPtr>)
    requires multiset(ps) == multiset(qs)
    ensures Space(data, ps) == Space(data, qs)
    decreases |ps|
  {
    if ps == [] {
      assert |multiset(qs)| == 0;
    } else {
      var n := |ps| - 1;
      assert ps == ps[..n] + [ps[n]];
      assert ps[n] in multiset(qs);
      var k :| 0 <= k < |qs| && qs[k] == ps[n];
      var x, y := qs[..k], qs[k + 1..];
      TakenOut(ps[..n], x, ps[n], y, qs);
      SpacePermutes(data, ps[..n], x + y);
      SpaceConcat(data, x, [ps[n]] + y);
      SpaceConcat(data, [ps[n]], y);
      SpaceConcat(data, x, y);
      assert Space(data, [ps[n]]) == |TextAt(data, ps[n].off)| + 1 by { assert [ps[n]][..0] == []; }
    }
  }

  lemma Recut<T>(all: seq<T>, k: nat)
    requires k < |all|
    ensures all == all[..k] + ([all[k]] + all[k + 1..])
  {
  }

  lemma TakenOut<T>(init: seq<T>, x: seq<T>, e: T, y: seq<T>, all: seq<T>)
    requires |x| < |all| && x == all[..|x|] && all[|x|] == e && y == all[|x| + 1..] && multiset(init + [e]) == multiset(all)
    ensures all == x + ([e] + y) && multiset(init) == multiset(x + y)
  {
    Recut(all, |x|);
    SameRest(multiset(init), multiset(x + y), e);
  }

  lemma SameRest<T>(a: multiset<T>, b: multiset<T>, e: T)
    requires a + multiset{e} == b + multiset{e}
    ensures a == b
  {
    assert a == (a + multiset{e}) - multiset{e};
    assert b == (b + multiset{e}) - multiset{e};
  }
}
