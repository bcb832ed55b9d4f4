/** Line information of a compiled program: one list of records cut into functions, and the search
    for the record that covers an address. */
module LineInfo {
  import opened Errors
  import opened Options
  import opened Words

  /** The start addresses and lengths that the kernel reports for the functions. */
  datatype Func = Func(ksym: nat, len: nat)

  /** Start addresses of records, and functions, are 64-bit numbers. */
  predicate Addresses(addrs: seq<nat>, funcs: seq<Func>) {
    addrs != [] && funcs != [] &&
    (forall i :: 0 <= i < |addrs| ==> addrs[i] < WORD64) && forall f :: 0 <= f < |funcs| ==> funcs[f].ksym < WORD64
  }

  /** The distance of two 64-bit numbers, counting both ends. */
  function Span(first: nat, last: nat): nat {
    (last - first + 1) % WORD64
  }

  /** Record i may be in function f although it is not its first: addresses go up, and it is not
      where the next function starts. */
  predicate Inside(addrs: seq<nat>, funcs: seq<Func>, f: nat, i: nat)
    requires 0 < i < |addrs| && f + 1 < |funcs|
  {
    addrs[i - 1] < addrs[i] && addrs[i] != funcs[f + 1].ksym
  }

  predicate AllInside(addrs: seq<nat>, funcs: seq<Func>, f: nat, first: nat, end: nat)
    requires f + 1 < |funcs| && end <= |addrs|
  {
    forall i :: first < i < end ==> Inside(addrs, funcs, f, i)
  }

  /** Function f takes the records from its index up to the next function's. */
  predicate IsCut(addrs: seq<nat>, funcs: seq<Func>, idx: seq<nat>, f: int)
    requires |idx| == |funcs| && 0 <= f && f + 1 < |idx|
  {
    idx[f] < idx[f + 1] < |addrs| &&
    Span(funcs[f].ksym, addrs[idx[f + 1] - 1]) <= funcs[f].len &&
    AllInside(addrs, funcs, f, idx[f], idx[f + 1])
  }

  predicate StartsAt(addrs: seq<nat>, funcs: seq<Func>, idx: seq<nat>, f: int)
    requires 0 <= f < |idx| <= |funcs|
  {
    idx[f] < |addrs| && addrs[idx[f]] == funcs[f].ksym
  }

  /** idx cuts the records into functions, each starting at its address. */
  predicate IsDissection(addrs: seq<nat>, funcs: seq<Func>, idx: seq<nat>) {
    |idx| == |funcs| > 0 && idx[0] == 0 &&
    (forall f :: 0 <= f < |funcs| ==> StartsAt(addrs, funcs, idx, f)) &&
    (forall f :: 0 <= f < |idx| - 1 ==> IsCut(addrs, funcs, idx, f))
  }

  /** How many records each function has. */
  predicate Counts(idx: seq<nat>, n: nat, cnt: seq<nat>) {
    |cnt| == |idx| && forall f :: 0 <= f < |idx| ==> CountIs(idx, n, cnt, f)
  }

  predicate CountIs(idx: seq<nat>, n: nat, cnt: seq<nat>, f: int)
    requires 0 <= f < |idx| == |cnt|
  {
    cnt[f] + idx[f] == if f + 1 < |idx| then idx[f + 1] else n
  }

  function Sum(s: seq<nat>): nat {
    if s == [] then 0 else Sum(s[..|s| - 1]) + s[|s| - 1]
  }

  lemma CountAt(addrs: seq<nat>, funcs: seq<Func>, idx: seq<nat>, cnt: seq<nat>, g: nat)
    requires IsDissection(addrs, funcs, idx) && Counts(idx, |addrs|, cnt) && g < |idx|
    ensures cnt[g] + idx[g] == (if g + 1 < |idx| then idx[g + 1] else |addrs|) && cnt[g] > 0
  {
    assert StartsAt(addrs, funcs, idx, g) && CountIs(idx, |addrs|, cnt, g);
    if g + 1 < |idx| { assert IsCut(addrs, funcs, idx, g); }
  }

  /** The functions partition the records: every one has some, and together they have all. */
  lemma {:induction false} CountsSum(addrs: seq<nat>, funcs: seq<Func>, idx: seq<nat>, cnt: seq<nat>, f: nat)
    requires IsDissection(addrs, funcs, idx) && Counts(idx, |addrs|, cnt) && f <= |idx|
    ensures Sum(cnt[..f]) == if f < |idx| then idx[f] else |addrs|
    ensures forall g :: 0 <= g < |cnt| ==> cnt[g] > 0
  {
    forall g | 0 <= g < |cnt| ensures cnt[g] > 0 { CountAt(addrs, funcs, idx, cnt, g); }
    if f > 0 {
      CountsSum(addrs, funcs, idx, cnt, f - 1);
      CountAt(addrs, funcs, idx, cnt, f - 1);
      assert cnt[..f][..f - 1] == cnt[..f - 1];
    }
  }

  lemma {:induction false} IndexGrows(addrs: seq<nat>, funcs: seq<Func>, idx: seq<nat>, f: nat, g: nat)
    requires IsDissection(addrs, funcs, idx) && f < g < |idx|
    ensures idx[f] < idx[g]
  {
    assert IsCut(addrs, funcs, idx, g - 1);
    if f < g - 1 { IndexGrows(addrs, funcs, idx, f, g - 1); }
  }

  /** There is at most one way to cut. */
  lemma {:induction false} OneDissection(addrs: seq<nat>, funcs: seq<Func>, a: seq<nat>, b: seq<nat>, f: nat)
    requires IsDissection(addrs, funcs, a) && IsDissection(addrs, funcs, b) && f < |funcs|
    ensures a[f] == b[f]
  {
    if f > 0 {
      OneDissection(addrs, funcs, a, b, f - 1);
      assert IsCut(addrs, funcs, a, f - 1) && IsCut(addrs, funcs, b, f - 1);
      assert StartsAt(addrs, funcs, a, f) && StartsAt(addrs, funcs, b, f);
      NextStart(addrs, funcs, a, f);
      NextStart(addrs, funcs, b, f);
    }
  }

  /** A function starts at the first record with its address. */
  lemma NextStart(addrs: seq<nat>, funcs: seq<Func>, idx: seq<nat>, f: nat)
    requires IsDissection(addrs, funcs, idx) && 0 < f < |idx|
    ensures idx[f - 1] < idx[f] < |addrs| && addrs[idx[f]] == funcs[f].ksym
    ensures forall i :: idx[f - 1] < i < idx[f] ==> addrs[i] != funcs[f].ksym
  {
    assert IsCut(addrs, funcs, idx, f - 1) && StartsAt(addrs, funcs, idx, f);
    forall i | idx[f - 1] < i < idx[f] ensures addrs[i] != funcs[f].ksym { assert Inside(addrs, funcs, f - 1, i); }
  }

  // The same without the wrapped distance ------------------------------------------------------

  /** All records of function f lie in its code. The length is compared modulo 2^64, so that a function
      whose records span the whole address space passes as well. */
  predicate LiesWithin(addrs: seq<nat>, f: Func, first: nat, end: nat)
    requires first < end <= |addrs|
  {
    (forall i :: first <= i < end ==> f.ksym <= addrs[i] < f.ksym + f.len) || (f.ksym == 0 && addrs[end - 1] == WORD64 - 1)
  }

  /** Each function starts at its first record; in all but the last, addresses rise, no other record is
      where the next function starts, and all lie in the function's code. */
  predicate CutsByAddress(addrs: seq<nat>, funcs: seq<Func>, idx: seq<nat>) {
    |idx| == |funcs| > 0 && idx[0] == 0 &&
    (forall f :: 0 <= f < |idx| ==> idx[f] < |addrs| && addrs[idx[f]] == funcs[f].ksym) &&
    forall f :: 0 <= f < |idx| - 1 ==> FuncCut(addrs, funcs, idx, f)
  }

  predicate FuncCut(addrs: seq<nat>, funcs: seq<Func>, idx: seq<nat>, f: int)
    requires |idx| == |funcs| && 0 <= f && f + 1 < |idx|
  {
    idx[f] < idx[f + 1] < |addrs| && LiesWithin(addrs, funcs[f], idx[f], idx[f + 1]) && AllInside(addrs, funcs, f, idx[f], idx[f + 1])
  }

  /** Addresses go up from `first` on. */
  ghost predicate Rises(addrs: seq<nat>, first: nat, end: nat)
    requires end <= |addrs|
  {
    forall j, k :: first <= j < k < end ==> addrs[j] < addrs[k]
  }

  lemma {:induction false} InsideRises(addrs: seq<nat>, funcs: seq<Func>, f: nat, first: nat, end: nat)
    requires f + 1 < |funcs| && first < end <= |addrs| && AllInside(addrs, funcs, f, first, end)
    ensures Rises(addrs, first, end)
    decreases end
  {
    if first < end - 1 {
      InsideRises(addrs, funcs, f, first, end - 1);
      assert Inside(addrs, funcs, f, end - 1);
    }
  }

  /** Where addresses rise, the length check says that all records lie in the function's code. */
  lemma SpanIsWithin(addrs: seq<nat>, f: Func, first: nat, end: nat)
    requires first < end <= |addrs| && addrs[first] == f.ksym && addrs[end - 1] < WORD64
    requires Rises(addrs, first, end)
    ensures Span(f.ksym, addrs[end - 1]) <= f.len <==> LiesWithin(addrs, f, first, end)
  {
  }

  /** Both ways of saying it agree. */
  lemma SameCut(addrs: seq<nat>, funcs: seq<Func>, idx: seq<nat>)
    requires Addresses(addrs, funcs)
    ensures IsDissection(addrs, funcs, idx) <==> CutsByAddress(addrs, funcs, idx)
  {
    hide Span, LiesWithin, AllInside, IsCut;
    if |idx| == |funcs| && forall f :: 0 <= f < |idx| ==> StartsAt(addrs, funcs, idx, f) {
      forall f | 0 <= f < |idx| ensures idx[f] < |addrs| && addrs[idx[f]] == funcs[f].ksym { assert StartsAt(addrs, funcs, idx, f); }
      forall f | 0 <= f < |idx| - 1 ensures IsCut(addrs, funcs, idx, f) <==> FuncCut(addrs, funcs, idx, f) {
        assert StartsAt(addrs, funcs, idx, f) && StartsAt(addrs, funcs, idx, f + 1);
        SameFuncCut(addrs, funcs, idx, f);
      }
    } else if |idx| == |funcs| {
      var f :| 0 <= f < |idx| && !StartsAt(addrs, funcs, idx, f);
    }
  }

  lemma SameFuncCut(addrs: seq<nat>, funcs: seq<Func>, idx: seq<nat>, f: nat)
    requires Addresses(addrs, funcs) && |idx| == |funcs| && f + 1 < |idx|
    requires StartsAt(addrs, funcs, idx, f) && StartsAt(addrs, funcs, idx, f + 1)
    ensures IsCut(addrs, funcs, idx, f) <==> FuncCut(addrs, funcs, idx, f)
  {
    hide Span, LiesWithin, AllInside;
    if idx[f] < idx[f + 1] && AllInside(addrs, funcs, f, idx[f], idx[f + 1]) {
      InsideRises(addrs, funcs, f, idx[f], idx[f + 1]);
      SpanIsWithin(addrs, funcs[f], idx[f], idx[f + 1]);
    }
  }

  lemma PossibleAlike(addrs: seq<nat>, funcs: seq<Func>)
    requires Addresses(addrs, funcs)
    ensures (exists idx :: IsDissection(addrs, funcs, idx)) <==> (exists idx :: CutsByAddress(addrs, funcs, idx))
  {
    hide IsDissection, CutsByAddress;
    forall idx ensures IsDissection(addrs, funcs, idx) <==> CutsByAddress(addrs, funcs, idx) { SameCut(addrs, funcs, idx); }
  }

  class ProgLinfo {
    /** The address and the instruction offset of each record. */
    const addrs: seq<nat>
    const offs: seq<nat>
    const funcIdx: array<nat>
    const perFunc: array<nat>

    constructor (addrs: seq<nat>, offs: seq<nat>, nrFunc: nat)
      ensures this.addrs == addrs && this.offs == offs && funcIdx.Length == perFunc.Length == nrFunc
      ensures fresh(funcIdx) && fresh(perFunc) && funcIdx != perFunc
    {
      this.addrs, this.offs := addrs, offs;
      funcIdx := new nat[nrFunc];
      perFunc := new nat[nrFunc];
    }

    /** Cutting succeeds exactly if it is possible. */
    method DissectJitedFunc(funcs: seq<Func>) returns (err: int)
      requires Addresses(addrs, funcs) && |addrs| == |offs| && funcIdx.Length == perFunc.Length == |funcs| && funcIdx != perFunc
      modifies funcIdx, perFunc
      ensures err == 0 || err == EINVAL
      ensures err == 0 <==> exists idx :: CutsByAddress(addrs, funcs, idx)
      ensures err == 0 ==> CutsByAddress(addrs, funcs, funcIdx[..]) && Counts(funcIdx[..], |addrs|, perFunc[..])
    {
      hide IsDissection, CutsByAddress, Counts;
      PossibleAlike(addrs, funcs);
      err := Dissect(funcs);
      if err == 0 { SameCut(addrs, funcs, funcIdx[..]); }
    }

    method Dissect(funcs: seq<Func>) returns (err: int)
      requires Addresses(addrs, funcs) && |addrs| == |offs| && funcIdx.Length == perFunc.Length == |funcs| && funcIdx != perFunc
      modifies funcIdx, perFunc
      ensures err == 0 || err == EINVAL
      ensures err == 0 <==> exists idx :: IsDissection(addrs, funcs, idx)
      ensures err == 0 ==> IsDissection(addrs, funcs, funcIdx[..]) && Counts(funcIdx[..], |addrs|, perFunc[..])
    {
      hide IsDissection, Begun, AllAgree, AllInside, Counts, Span;
      BeginCutting(addrs, funcs);
      if funcs[0].ksym != addrs[0] { return EINVAL; }
      funcIdx[0] := 0;
      assert funcIdx[..1] == [0];
      var nrFunc, nrLinfo := |funcs|, |addrs|;
      var prev, i, f := 0, 1, 1;
      while i < nrLinfo && f < nrFunc
        invariant 1 <= i <= nrLinfo && 1 <= f <= nrFunc
        invariant Begun(addrs, funcs, funcIdx[..f], i) && prev == funcIdx[f - 1] < i
        invariant f < nrFunc ==> AllInside(addrs, funcs, f - 1, prev, i)
        invariant forall g :: 0 <= g < f - 1 ==> perFunc[g] + funcIdx[g] == funcIdx[g + 1]
        invariant AllAgree(addrs, funcs, funcIdx[..f], i)
      {
        var last := addrs[i - 1];
        ghost var begun := funcIdx[..f];
        CutOrGoOn(addrs, funcs, begun, i);
        if funcs[f].ksym == addrs[i] {
          funcIdx[f] := i;
          assert funcIdx[..f + 1] == begun + [i];
          if Span(funcs[f - 1].ksym, last) > funcs[f - 1].len { return EINVAL; }
          perFunc[f - 1] := i - prev;
          prev := i;
          f := f + 1;
        } else if addrs[i] <= last {
          return EINVAL;
        }
        i := i + 1;
      }
      AllCut(addrs, funcs, funcIdx[..f], i);
      if f != nrFunc { return EINVAL; }
      perFunc[nrFunc - 1] := nrLinfo - prev;
      assert funcIdx[..f] == funcIdx[..];
      assert Counts(funcIdx[..], |addrs|, perFunc[..]) by { CountsFound(funcIdx[..], |addrs|, perFunc[..]); }
      return 0;
    }

    /** Number of the record that covers an address in a function; the first nrSkip are passed over. */
    method LfindAddrFunc(addr: nat, funcIndex: nat, nrSkip: nat) returns (r: Option<nat>)
      requires funcIdx.Length == perFunc.Length
      requires forall f :: 0 <= f < funcIdx.Length ==> funcIdx[f] + perFunc[f] <= |addrs|
      ensures r.None? <==> funcIndex >= funcIdx.Length || nrSkip >= perFunc[funcIndex] || addr < addrs[funcIdx[funcIndex] + nrSkip]
      ensures r.Some? ==> IsLast(addrs, funcIdx[funcIndex] + nrSkip, funcIdx[funcIndex] + perFunc[funcIndex], addr, r.value)
    {
      if funcIndex >= funcIdx.Length { return None; }
      var n := perFunc[funcIndex];
      if nrSkip >= n { return None; }
      var start := funcIdx[funcIndex] + nrSkip;
      if addr < addrs[start] { return None; }
      var rec := ScanUpTo(addrs, start, n - nrSkip, addr);
      return Some(rec);
    }

    /** The same by instruction offset, over all records. */
    method Lfind(insnOff: nat, nrSkip: nat) returns (r: Option<nat>)
      ensures r.None? <==> nrSkip >= |offs| || insnOff < offs[nrSkip]
      ensures r.Some? ==> IsLast(offs, nrSkip, |offs|, insnOff, r.value)
    {
      if nrSkip >= |offs| { return None; }
      if insnOff < offs[nrSkip] { return None; }
      var rec := ScanUpTo(offs, nrSkip, |offs| - nrSkip, insnOff);
      return Some(rec);
    }
  }

  /** The last record of the longest run from start on that is not above x. */
  predicate IsLast(keys: seq<nat>, start: nat, end: nat, x: nat, r: nat) {
    start <= r < end <= |keys| && (forall i :: start <= i <= r ==> keys[i] <= x) && (r + 1 < end ==> keys[r + 1] > x)
  }

  method ScanUpTo(keys: seq<nat>, start: nat, n: nat, x: nat) returns (r: nat)
    requires 0 < n && start + n <= |keys| && keys[start] <= x
    ensures IsLast(keys, start, start + n, x, r)
  {
    var i := 0;
    while i < n
      invariant i <= n && forall j :: start <= j < start + i ==> keys[j] <= x
      invariant n > 0 && keys[start] <= x
    {
      if x < keys[start + i] { break; }
      i := i + 1;
    }
    return start + i - 1;
  }

  lemma {:induction false} RunIncreases(addrs: seq<nat>, funcs: seq<Func>, f: nat, first: nat, end: nat, i: nat, j: nat)
    requires f + 1 < |funcs| && end <= |addrs| && AllInside(addrs, funcs, f, first, end) && first <= i < j < end
    ensures addrs[i] < addrs[j]
  {
    assert Inside(addrs, funcs, f, j);
    if i < j - 1 { RunIncreases(addrs, funcs, f, first, end, i, j - 1); }
  }

  /** In every function but the last, that is the search for the predecessor of an address: all
      records up to it are at or below the address, all later ones above. */
  lemma LastIsPredecessor(addrs: seq<nat>, funcs: seq<Func>, idx: seq<nat>, f: nat, skip: nat, x: nat, r: nat)
    requires IsDissection(addrs, funcs, idx) && f + 1 < |idx| && IsLast(addrs, idx[f] + skip, idx[f + 1], x, r)
    ensures forall i :: idx[f] <= i < idx[f + 1] ==> (addrs[i] <= x <==> i <= r)
  {
    assert IsCut(addrs, funcs, idx, f);
    forall i | idx[f] <= i < idx[f + 1] ensures addrs[i] <= x <==> i <= r {
      if i < r { RunIncreases(addrs, funcs, f, idx[f], idx[f + 1], i, r); }
      if r + 1 < i { RunIncreases(addrs, funcs, f, idx[f], idx[f + 1], r + 1, i); }
    }
  }

  lemma CountsFound(idx: seq<nat>, n: nat, cnt: seq<nat>)
    requires 0 < |idx| == |cnt| && cnt[|cnt| - 1] + idx[|idx| - 1] == n
    requires forall g :: 0 <= g < |cnt| - 1 ==> cnt[g] + idx[g] == idx[g + 1]
    ensures Counts(idx, n, cnt)
  {
  }

  // ---- Cutting

  /** The first functions have been cut off. */
  predicate Begun(addrs: seq<nat>, funcs: seq<Func>, idx: seq<nat>, n: nat) {
    0 < |idx| <= |funcs| && n <= |addrs| && idx[0] == 0 &&
    (forall f :: 0 <= f < |idx| ==> idx[f] < n && StartsAt(addrs, funcs, idx, f)) &&
    (forall f :: 0 <= f < |idx| - 1 ==>
      idx[f] < idx[f + 1] && Span(funcs[f].ksym, addrs[idx[f + 1] - 1]) <= funcs[f].len && AllInside(addrs, funcs, f, idx[f], idx[f + 1]))
  }

  /** A dissection begins like this, and its next function does not start before record n. */
  predicate Agrees(idx: seq<nat>, begun: seq<nat>, n: nat) {
    |begun| <= |idx| && idx[..|begun|] == begun && (|begun| < |idx| ==> idx[|begun|] >= n)
  }

  /** Every dissection does. */
  ghost predicate AllAgree(addrs: seq<nat>, funcs: seq<Func>, begun: seq<nat>, n: nat) {
    forall idx :: IsDissection(addrs, funcs, idx) ==> Agrees(idx, begun, n)
  }

  lemma BeginCutting(addrs: seq<nat>, funcs: seq<Func>)
    requires Addresses(addrs, funcs)
    ensures funcs[0].ksym != addrs[0] ==> forall idx :: !IsDissection(addrs, funcs, idx)
    ensures funcs[0].ksym == addrs[0] ==> Begun(addrs, funcs, [0], 1)
    ensures AllAgree(addrs, funcs, [0], 1)
    ensures |funcs| > 1 ==> AllInside(addrs, funcs, 0, 0, 1)
  {
    forall idx | IsDissection(addrs, funcs, idx) ensures Agrees(idx, [0], 1) && funcs[0].ksym == addrs[0] {
      assert StartsAt(addrs, funcs, idx, 0);
      if |idx| > 1 { assert IsCut(addrs, funcs, idx, 0); }
    }
  }

  /** One more record: it starts the next function, or belongs to this one, or nothing will do. */
  lemma CutOrGoOn(addrs: seq<nat>, funcs: seq<Func>, begun: seq<nat>, i: nat)
    requires 0 < |begun| < |funcs| && 0 < i < |addrs| && Begun(addrs, funcs, begun, i)
    requires AllInside(addrs, funcs, |begun| - 1, begun[|begun| - 1], i)
    requires AllAgree(addrs, funcs, begun, i)
    ensures
      var f := |begun|;
      if funcs[f].ksym == addrs[i] then
        if Span(funcs[f - 1].ksym, addrs[i - 1]) > funcs[f - 1].len then forall idx :: !IsDissection(addrs, funcs, idx)
        else
          Begun(addrs, funcs, begun + [i], i + 1) && (f + 1 < |funcs| ==> AllInside(addrs, funcs, f, i, i + 1)) &&
          AllAgree(addrs, funcs, begun + [i], i + 1)
      else if addrs[i] <= addrs[i - 1] then forall idx :: !IsDissection(addrs, funcs, idx)
      else
        Begun(addrs, funcs, begun, i + 1) && AllInside(addrs, funcs, f - 1, begun[f - 1], i + 1) &&
        AllAgree(addrs, funcs, begun, i + 1)
  {
    hide Span;
    var f := |begun|;
    forall idx | IsDissection(addrs, funcs, idx)
      ensures if funcs[f].ksym == addrs[i] then Span(funcs[f - 1].ksym, addrs[i - 1]) <= funcs[f - 1].len && Agrees(idx, begun + [i], i + 1)
              else addrs[i] > addrs[i - 1] && Agrees(idx, begun, i + 1)
    {
      assert Agrees(idx, begun, i);
      assert idx[..f][f - 1] == begun[f - 1];
      assert IsCut(addrs, funcs, idx, f - 1) && StartsAt(addrs, funcs, idx, f);
      assert i < idx[f] ==> Inside(addrs, funcs, f - 1, i);
      if f + 1 < |idx| { assert IsCut(addrs, funcs, idx, f); }
      assert idx[f] == i ==> idx[..f + 1] == begun + [i];
    }
  }

  lemma AllCut(addrs: seq<nat>, funcs: seq<Func>, begun: seq<nat>, i: nat)
    requires Begun(addrs, funcs, begun, i)
    requires AllAgree(addrs, funcs, begun, i)
    ensures |begun| == |funcs| ==> IsDissection(addrs, funcs, begun)
    ensures |begun| < |funcs| && i == |addrs| ==> forall idx :: !IsDissection(addrs, funcs, idx)
  {
    forall idx | IsDissection(addrs, funcs, idx) && |begun| < |funcs| ensures i < |addrs| { assert StartsAt(addrs, funcs, idx, |begun|); }
  }
}
