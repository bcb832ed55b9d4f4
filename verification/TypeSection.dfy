/** Compaction at the level of bytes: canonical records slide down over the others, in place, and
    the string section follows. */
module TypeSection {
  import opened Errors
  import opened Seqs
  import opened Words
  import opened BtfGraph
  import opened BtfCompare
  import opened IdMap
  import opened Renumbering

  const HEADER_SIZE: nat := 12

  /** The size of a record of this kind number and length, or an error. */
  function SizeOf(kind: nat, vlen: nat): (n: int)
    ensures n >= 0 ==> n >= HEADER_SIZE
  {
    if kind in {2, 7, 8, 9, 10, 11, 12} then HEADER_SIZE
    else if kind == 1 || kind == 14 then HEADER_SIZE + 4
    else if kind == 3 then HEADER_SIZE + 12
    else if kind == 4 || kind == 5 || kind == 15 then HEADER_SIZE + vlen * 12
    else if kind == 6 || kind == 13 then HEADER_SIZE + vlen * 8
    else EINVAL
  }

  /** The record at an offset says how long it is, in the second word of its header. */
  function SizeAt(mem: seq<Byte>, off: nat): int
    requires off + HEADER_SIZE <= |mem|
  {
    var kind: nat, low: nat, high: nat := mem[off + 7], mem[off + 4], mem[off + 5];
    SizeOf(kind % 16, low + 256 * high)
  }

  // ---- Records as bytes

  /** A 32-bit word, lowest byte first. */
  function WordBytes(w: nat): (bs: seq<Byte>)
    ensures |bs| == 4
  {
    [w % 0x100, w / 0x100 % 0x100, w / 0x1_0000 % 0x100, w / 0x100_0000 % 0x100]
  }

  function Bytes(ws: seq<nat>): (bs: seq<Byte>)
    ensures |bs| == 4 * |ws|
  {
    if ws == [] then [] else WordBytes(ws[0]) + Bytes(ws[1..])
  }

  /** The words behind the header, entry by entry. */
  function BodyWords(b: Body): (ws: seq<nat>) {
    match b
    case NoBody => []
    case IntBody(encoding) => [encoding]
    case ArrayBody(elem, index, nelems) => [elem, index, nelems]
    case Members(ms) => Flatten(seq(|ms|, i requires 0 <= i < |ms| => [ms[i].nameOff, ms[i].typ, ms[i].offset]))
    case Enumerators(es) => Flatten(seq(|es|, i requires 0 <= i < |es| => [es[i].nameOff, U32(es[i].val)]))
    case Params(ps) => Flatten(seq(|ps|, i requires 0 <= i < |ps| => [ps[i].nameOff, ps[i].typ]))
    case VarBody(linkage) => [linkage]
    case SecVars(vs) => Flatten(seq(|vs|, i requires 0 <= i < |vs| => [vs[i].typ, vs[i].offset, vs[i].size]))
  }

  function RecordBytes(t: BtfType): seq<Byte> {
    Bytes([t.nameOff, InfoWord(t.info), t.word] + BodyWords(t.body))
  }

  lemma {:induction false} FlattenSize(m: seq<seq<nat>>, n: nat)
    requires forall i :: 0 <= i < |m| ==> |m[i]| == n
    ensures |Flatten(m)| == n * |m|
  {
    FlattenStep(m);
    if m != [] {
      FlattenSize(m[1..], n);
      assert n * |m| == n + n * (|m| - 1);
    }
  }

  lemma PackedBytes(top: nat, kind: nat, low: nat, vlen: nat)
    requires top < 16 && kind < 16 && low < 0x100 && vlen < 0x1_0000
    ensures var bs := WordBytes(top * 0x1000_0000 + kind * 0x100_0000 + low * 0x1_0000 + vlen);
      bs[0] as nat + 0x100 * bs[1] as nat == vlen && bs[3] as nat % 16 == kind
  {
    var w := top * 0x1000_0000 + kind * 0x100_0000 + low * 0x1_0000 + vlen;
    LowHalf(top * 0x1000 + kind * 0x100 + low, vlen);
    TopByte(top * 16 + kind, low * 0x1_0000 + vlen);
  }

  lemma LowHalf(high: nat, low: nat)
    requires low < 0x1_0000
    ensures var w := high * 0x1_0000 + low; w % 0x100 == low % 0x100 && w / 0x100 % 0x100 == low / 0x100
  {
    LastByte(0x100 * high + low / 0x100, low % 0x100);
    LastByte(high, low / 0x100);
  }

  lemma LastByte(q: nat, r: nat)
    requires r < 0x100
    ensures (0x100 * q + r) / 0x100 == q && (0x100 * q + r) % 0x100 == r
  {
  }

  lemma TopByte(high: nat, low: nat)
    requires high < 0x100 && low < 0x100_0000
    ensures var w := high * 0x100_0000 + low; w / 0x100_0000 % 0x100 == high
  {
  }

  lemma InfoBytes(i: Info)
    requires i.vlen < 0x1_0000 && i.spare < 0x800
    ensures var bs := WordBytes(InfoWord(i));
      bs[0] as nat + 0x100 * bs[1] as nat == i.vlen && bs[3] as nat % 16 == KindCode(i.kind)
  {
    hide WordBytes;
    PackedBytes((if i.kflag then 8 else 0) + i.spare / 0x100, KindCode(i.kind), i.spare % 0x100, i.vlen);
  }

  lemma BodySize(t: BtfType)
    requires WellFormed(t) && KindOf(t) != Unkn
    ensures SizeOf(KindCode(KindOf(t)), Vlen(t)) == 12 + 4 * |BodyWords(t.body)|
  {
    match t.body
    case Members(ms) => FlattenSize(seq(|ms|, i requires 0 <= i < |ms| => [ms[i].nameOff, ms[i].typ, ms[i].offset]), 3);
    case Enumerators(es) => FlattenSize(seq(|es|, i requires 0 <= i < |es| => [es[i].nameOff, U32(es[i].val)]), 2);
    case Params(ps) => FlattenSize(seq(|ps|, i requires 0 <= i < |ps| => [ps[i].nameOff, ps[i].typ]), 2);
    case SecVars(vs) => FlattenSize(seq(|vs|, i requires 0 <= i < |vs| => [vs[i].typ, vs[i].offset, vs[i].size]), 3);
    case _ =>
  }

  /** A record of the type section says how long it is. */
  lemma RecordMeasured(t: BtfType, mem: seq<Byte>, off: nat)
    requires WellFormed(t) && KindOf(t) != Unkn && Vlen(t) < 0x1_0000 && t.info.spare < 0x800
    requires off + |RecordBytes(t)| <= |mem| && mem[off..off + |RecordBytes(t)|] == RecordBytes(t)
    ensures |RecordBytes(t)| >= HEADER_SIZE && SizeAt(mem, off) == |RecordBytes(t)|
  {
    hide SizeOf, BodyWords, InfoWord, WellFormed, WordBytes;
    var ws := [t.nameOff, InfoWord(t.info), t.word] + BodyWords(t.body);
    var rs := RecordBytes(t);
    BodySize(t);
    InfoBytes(t.info);
    assert ws[1..][0] == InfoWord(t.info);
    assert Bytes(ws) == WordBytes(ws[0]) + (WordBytes(ws[1]) + Bytes(ws[1..][1..]));
    assert rs[4..8] == WordBytes(InfoWord(t.info));
    var held := mem[off..off + |rs|];
    assert held[4] == mem[off + 4] && held[5] == mem[off + 5] && held[7] == mem[off + 7];
    assert rs[4..8][0] == rs[4] && rs[4..8][1] == rs[5] && rs[4..8][3] == rs[7];
  }

  /** Records 1 to n lie end to end from at[1] to at[n + 1]. */
  ghost predicate LaidOut(mem: seq<Byte>, at: seq<nat>, n: nat) {
    |at| == n + 2 && at[n + 1] <= |mem| &&
    forall i :: 1 <= i <= n ==> at[i] + HEADER_SIZE <= |mem| && SizeAt(mem, at[i]) >= 0 && at[i + 1] == at[i] + SizeAt(mem, at[i])
  }

  lemma {:induction false} LaidOutBounds(mem: seq<Byte>, at: seq<nat>, n: nat, i: nat)
    requires LaidOut(mem, at, n) && 1 <= i <= n + 1
    ensures at[1] <= at[i] <= |mem|
    ensures i <= n ==> at[i] + HEADER_SIZE <= at[i + 1] <= |mem|
    decreases n + 1 - i
  {
    if i <= n { LaidOutBounds(mem, at, n, i + 1); }
    LaidOutFrom(mem, at, n, i);
  }

  lemma {:induction false} LaidOutFrom(mem: seq<Byte>, at: seq<nat>, n: nat, i: nat)
    requires LaidOut(mem, at, n) && 1 <= i <= n + 1
    ensures at[1] <= at[i]
  {
    if i > 1 {
      LaidOutFrom(mem, at, n, i - 1);
      assert SizeAt(mem, at[i - 1]) >= 0;
    }
  }

  function Record(mem: seq<Byte>, at: seq<nat>, i: nat): seq<Byte>
    requires i + 1 < |at| && at[i] <= at[i + 1] <= |mem|
  {
    mem[at[i]..at[i + 1]]
  }

  /** The canonical records before number i, end to end. */
  ghost function Survivors(mem: seq<Byte>, at: seq<nat>, n: nat, m: seq<nat>, i: nat): seq<Byte>
    requires LaidOut(mem, at, n) && |m| == n + 1 && 1 <= i <= n + 1
  {
    if i == 1 then []
    else
      LaidOutBounds(mem, at, n, i - 1);
      Survivors(mem, at, n, m, i - 1) + if Canonical(m, i - 1) then Record(mem, at, i - 1) else []
  }

  lemma {:induction false} SurvivorsShort(mem: seq<Byte>, at: seq<nat>, n: nat, m: seq<nat>, i: nat)
    requires LaidOut(mem, at, n) && |m| == n + 1 && 1 <= i <= n + 1
    ensures at[1] + |Survivors(mem, at, n, m, i)| <= at[i] <= |mem|
  {
    LaidOutBounds(mem, at, n, i);
    if i > 1 {
      LaidOutBounds(mem, at, n, i - 1);
      SurvivorsShort(mem, at, n, m, i - 1);
    }
  }

  function Moving(mem: seq<Byte>, dst: nat, src: nat, len: nat): (r: seq<Byte>)
    requires dst <= src && src + len <= |mem|
    ensures |r| == |mem|
    ensures forall k :: 0 <= k < |mem| ==> r[k] == if dst <= k < dst + len then mem[src - dst + k] else mem[k]
  {
    mem[..dst] + mem[src..src + len] + mem[dst + len..]
  }

  lemma MovedBytes(mem: seq<Byte>, mem0: seq<Byte>, dst: nat, src: nat, len: nat)
    requires dst <= src && src + len <= |mem0| == |mem|
    requires forall k :: 0 <= k < |mem| && !(dst <= k < dst + len) ==> mem[k] == mem0[k]
    requires forall k :: dst <= k < dst + len ==> mem[k] == mem0[src - dst + k]
    ensures mem == Moving(mem0, dst, src, len)
  {
  }

  lemma Slice(s: seq<Byte>, a: nat, b: nat, c: nat, d: nat)
    requires a <= b <= |s| && c <= d <= b - a
    ensures s[a..b][c..d] == s[a + c..a + d]
  {
    forall i | 0 <= i < d - c ensures s[a..b][c..d][i] == s[a + c..a + d][i] { assert s[a..b][c + i] == s[a + c + i]; }
  }

  lemma SliceTail(s: seq<Byte>, a: nat, c: nat, d: nat)
    requires a <= c <= d <= |s|
    ensures s[c..d] == s[a..][c - a..d - a]
  {
  }

  /** What a move brings, and what it leaves alone before. */
  lemma MovedParts(mem: seq<Byte>, dst: nat, src: nat, len: nat, a: nat)
    requires a <= dst <= src && src + len <= |mem|
    ensures Moving(mem, dst, src, len)[dst..dst + len] == mem[src..src + len]
    ensures Moving(mem, dst, src, len)[..a] == mem[..a]
    ensures Moving(mem, dst, src, len)[a..dst] == mem[a..dst]
  {
  }

  /** memmove within a buffer. */
  method MemMove(mem: array<Byte>, dst: nat, src: nat, len: nat)
    requires dst <= src && src + len <= mem.Length
    modifies mem
    ensures mem[..] == Moving(old(mem[..]), dst, src, len)
  {
    ghost var mem0 := mem[..];
    var i := 0;
    while i < len
      invariant i <= len
      invariant forall k :: 0 <= k < mem.Length && !(dst <= k < dst + i) ==> mem[k] == mem0[k]
      invariant forall k :: dst <= k < dst + i ==> mem[k] == mem0[src - dst + k]
    {
      mem[dst + i] := mem[src + i];
      i := i + 1;
    }
    MovedBytes(mem[..], mem0, dst, src, len);
  }

  /** The state of the copying loop before record i. */
  ghost predicate Copied(mem0: seq<Byte>, at: seq<nat>, n: nat, m: seq<nat>, i: nat, mem: seq<Byte>, p: nat)
    requires LaidOut(mem0, at, n) && |m| == n + 1 && 1 <= i <= n + 1
  {
    SurvivorsShort(mem0, at, n, m, i);
    var done := Survivors(mem0, at, n, m, i);
    |mem| == |mem0| && p == at[1] + |done| &&
    mem[..at[1]] == mem0[..at[1]] && mem[at[1]..p] == done && mem[at[i]..] == mem0[at[i]..]
  }

  lemma SlideOne(mem0: seq<Byte>, at: seq<nat>, n: nat, m: seq<nat>, i: nat, mem: seq<Byte>, p: nat, mem': seq<Byte>)
    requires LaidOut(mem0, at, n) && |m| == n + 1 && 1 <= i <= n && m[i] == i && Copied(mem0, at, n, m, i, mem, p)
    requires at[i] <= at[i + 1] <= |mem| && p <= at[i] && mem' == Moving(mem, p, at[i], at[i + 1] - at[i])
    ensures Copied(mem0, at, n, m, i + 1, mem', p + at[i + 1] - at[i])
  {
    hide LaidOut, Survivors;
    SurvivorsStep(mem0, at, n, m, i);
    assert mem[at[i]..at[i + 1]] == mem[at[i]..][..at[i + 1] - at[i]] == mem0[at[i]..at[i + 1]];
    var q := p + at[i + 1] - at[i];
    SurvivorsShort(mem0, at, n, m, i + 1);
    assert mem'[at[1]..q] == mem[at[1]..p] + mem[at[i]..at[i + 1]];
    assert mem'[at[i + 1]..] == mem[at[i + 1]..] == mem[at[i]..][at[i + 1] - at[i]..];
    assert mem0[at[i + 1]..] == mem0[at[i]..][at[i + 1] - at[i]..];
  }

  lemma SurvivorsStep(mem0: seq<Byte>, at: seq<nat>, n: nat, m: seq<nat>, i: nat)
    requires LaidOut(mem0, at, n) && |m| == n + 1 && 1 <= i <= n
    ensures |at| == n + 2 && at[1] <= at[i] <= at[i + 1] <= |mem0|
    ensures Survivors(mem0, at, n, m, i + 1) == Survivors(mem0, at, n, m, i) + if m[i] == i then mem0[at[i]..at[i + 1]] else []
  {
    LaidOutBounds(mem0, at, n, i);
  }

  lemma SkipOne(mem0: seq<Byte>, at: seq<nat>, n: nat, m: seq<nat>, i: nat, mem: seq<Byte>, p: nat)
    requires LaidOut(mem0, at, n) && |m| == n + 1 && 1 <= i <= n && m[i] != i && Copied(mem0, at, n, m, i, mem, p)
    ensures Copied(mem0, at, n, m, i + 1, mem, p)
  {
    hide LaidOut, Survivors;
    SurvivorsStep(mem0, at, n, m, i);
    SurvivorsShort(mem0, at, n, m, i + 1);
    assert mem[at[i + 1]..] == mem[at[i]..][at[i + 1] - at[i]..];
    assert mem0[at[i + 1]..] == mem0[at[i]..][at[i + 1] - at[i]..];
  }

  /** Where the copy of canonical record c begins. */
  ghost function NewOffset(mem0: seq<Byte>, at: seq<nat>, n: nat, m: seq<nat>, c: nat): nat
    requires LaidOut(mem0, at, n) && |m| == n + 1 && 1 <= c <= n
  {
    at[1] + |Survivors(mem0, at, n, m, c)|
  }

  lemma {:induction false} SurvivorsHold(mem0: seq<Byte>, at: seq<nat>, n: nat, m: seq<nat>, c: nat, i: nat)
    requires LaidOut(mem0, at, n) && |m| == n + 1 && 1 <= c < i <= n + 1 && m[c] == c && at[c] <= at[c + 1] <= |mem0|
    ensures
      var s, k := Survivors(mem0, at, n, m, i), |Survivors(mem0, at, n, m, c)|;
      k + at[c + 1] - at[c] <= |s| && s[k..k + at[c + 1] - at[c]] == mem0[at[c]..at[c + 1]]
    decreases i
  {
    hide LaidOut, Survivors;
    SurvivorsStep(mem0, at, n, m, i - 1);
    var s := Survivors(mem0, at, n, m, i - 1);
    var k, len := |Survivors(mem0, at, n, m, c)|, at[c + 1] - at[c];
    if c < i - 1 {
      SurvivorsHold(mem0, at, n, m, c, i - 1);
      assert Survivors(mem0, at, n, m, i)[k..k + len] == s[k..k + len];
    } else {
      assert Survivors(mem0, at, n, m, i)[k..] == mem0[at[c]..at[c + 1]];
    }
  }

  lemma IndexSize(mem0: seq<Byte>, at: seq<nat>, n: nat)
    requires LaidOut(mem0, at, n)
    ensures |at| == n + 2
  {
  }

  lemma StartCopying(mem0: seq<Byte>, at: seq<nat>, n: nat, m: seq<nat>)
    requires LaidOut(mem0, at, n) && |m| == n + 1
    ensures Copied(mem0, at, n, m, 1, mem0, at[1])
  {
    LaidOutBounds(mem0, at, n, 1);
  }

  lemma RecordSize(mem0: seq<Byte>, at: seq<nat>, n: nat, i: nat)
    requires LaidOut(mem0, at, n) && 1 <= i <= n
    ensures |at| == n + 2 && at[i] + HEADER_SIZE <= |mem0| && SizeAt(mem0, at[i]) == at[i + 1] - at[i]
  {
  }

  lemma CopiedAll(mem0: seq<Byte>, at: seq<nat>, n: nat, m: seq<nat>, mem: seq<Byte>, p: nat)
    requires LaidOut(mem0, at, n) && |m| == n + 1 && Copied(mem0, at, n, m, n + 1, mem, p)
    ensures |mem| == |mem0| && at[1] <= p <= at[n + 1] <= |mem| && p == at[1] + |Survivors(mem0, at, n, m, n + 1)|
    ensures mem[..at[1]] == mem0[..at[1]] && mem[at[1]..p] == Survivors(mem0, at, n, m, n + 1) && mem[at[n + 1]..] == mem0[at[n + 1]..]
  {
    SurvivorsShort(mem0, at, n, m, n + 1);
  }

  /** Both indexes before record i. */
  ghost predicate IndexSoFar(mem0: seq<Byte>, at: seq<nat>, n: nat, m: seq<nat>, i: nat, h: seq<nat>, ts: seq<nat>)
    requires LaidOut(mem0, at, n) && |m| == n + 1 && 1 <= i <= n + 1
  {
    |h| == |ts| == n + 1 && (forall j :: i <= j <= n ==> ts[j] == at[j]) &&
    forall c :: 1 <= c <= n ==>
      if c < i && m[c] == c then h[c] == NewId(m, c) <= CanonBelow(m, i) && ts[NewId(m, c)] == NewOffset(mem0, at, n, m, c)
      else h[c] == UNPROCESSED
  }

  lemma IndexGoesOn(mem0: seq<Byte>, at: seq<nat>, n: nat, m: seq<nat>, i: nat, h: seq<nat>, ts: seq<nat>)
    requires LaidOut(mem0, at, n) && |m| == n + 1 && 1 <= i <= n && IndexSoFar(mem0, at, n, m, i, h, ts)
    ensures |h| == |ts| == |at| - 1 == n + 1 && ts[i] == at[i] && CanonBelow(m, i) + 1 <= i
    ensures
      if m[i] == i then IndexSoFar(mem0, at, n, m, i + 1, h[i := CanonBelow(m, i) + 1], ts[CanonBelow(m, i) + 1 := NewOffset(mem0, at, n, m, i)])
      else IndexSoFar(mem0, at, n, m, i + 1, h, ts)
  {
    hide LaidOut, NewOffset;
    IndexSize(mem0, at, n);
    assert CanonBelow(m, i + 1) == CanonBelow(m, i) + if m[i] == i then 1 else 0;
    hide CanonBelow;
  }

  lemma IndexMade(mem0: seq<Byte>, at: seq<nat>, n: nat, m: seq<nat>, h: seq<nat>, ts: seq<nat>)
    requires LaidOut(mem0, at, n) && |m| == n + 1 && IndexSoFar(mem0, at, n, m, n + 1, h, ts)
    ensures Renumbered(m, h) && Located(mem0, at, n, m, ts)
  {
    hide LaidOut, NewOffset, CanonBelow;
  }

  /** The new numbers, as left in hypotMap. */
  ghost predicate Renumbered(m: seq<nat>, h: seq<nat>) {
    |h| == |m| && forall c :: 1 <= c < |m| ==> h[c] == if m[c] == c then NewId(m, c) else UNPROCESSED
  }

  /** The new index of records. */
  ghost predicate Located(mem0: seq<Byte>, at: seq<nat>, n: nat, m: seq<nat>, ts: seq<nat>)
    requires LaidOut(mem0, at, n) && |m| == n + 1
  {
    forall c :: 1 <= c <= n && m[c] == c ==> NewId(m, c) < |ts| && ts[NewId(m, c)] == NewOffset(mem0, at, n, m, c)
  }

  /** The new index and the new bytes have what the old ones had for record c. */
  ghost predicate Moved(mem: seq<Byte>, ts: seq<nat>, mem0: seq<Byte>, at: seq<nat>, n: nat, m: seq<nat>, c: nat)
    requires |m| == n + 1 && 1 <= c <= n && LaidOut(mem0, at, n)
  {
    LaidOutBounds(mem0, at, n, c);
    NewId(m, c) < |ts| &&
    (var q := ts[NewId(m, c)];
     q + at[c + 1] - at[c] <= |mem| && mem[q..q + at[c + 1] - at[c]] == mem0[at[c]..at[c + 1]])
  }

  lemma FoundThere(mem: seq<Byte>, ts: seq<nat>, mem0: seq<Byte>, at: seq<nat>, n: nat, m: seq<nat>, p: nat, c: nat)
    requires LaidOut(mem0, at, n) && |m| == n + 1 && Located(mem0, at, n, m, ts) && 1 <= c <= n && m[c] == c
    requires at[1] <= p <= |mem| && mem[at[1]..p] == Survivors(mem0, at, n, m, n + 1)
    ensures Moved(mem, ts, mem0, at, n, m, c)
  {
    hide LaidOut, Survivors, NewId;
    IndexSize(mem0, at, n);
    LaidOutBounds(mem0, at, n, c);
    SurvivorsHold(mem0, at, n, m, c, n + 1);
    var k, len := |Survivors(mem0, at, n, m, c)|, at[c + 1] - at[c];
    assert ts[NewId(m, c)] == at[1] + k;
    PartOfSlice(mem, at[1], p, Survivors(mem0, at, n, m, n + 1), k, len);
  }

  lemma PartOfSlice(mem: seq<Byte>, a: nat, p: nat, s: seq<Byte>, k: nat, len: nat)
    requires a <= p <= |mem| && mem[a..p] == s && k + len <= |s|
    ensures a + k + len <= |mem| && mem[a + k..a + k + len] == s[k..k + len]
  {
    Slice(mem, a, p, k, k + len);
  }

  /** The canonical records in order where the first one was, nothing changed before them, and an index
      that leads from the new number of each to its bytes. */
  ghost predicate RecordsMoved(mem: seq<Byte>, ts: seq<nat>, mem0: seq<Byte>, at: seq<nat>, n: nat, m: seq<nat>)
    requires LaidOut(mem0, at, n) && |m| == n + 1 && |at| == n + 2
  {
    var end := at[1] + |Survivors(mem0, at, n, m, n + 1)|;
    end <= |mem| && at[1] <= |mem0| && mem[..at[1]] == mem0[..at[1]] && mem[at[1]..end] == Survivors(mem0, at, n, m, n + 1) &&
    forall c :: 1 <= c <= n && m[c] == c ==> Moved(mem, ts, mem0, at, n, m, c)
  }

  lemma AllFoundThere(mem: seq<Byte>, ts: seq<nat>, mem0: seq<Byte>, at: seq<nat>, n: nat, m: seq<nat>)
    requires LaidOut(mem0, at, n) && |m| == n + 1 && Located(mem0, at, n, m, ts) && |at| == n + 2
    requires var end := at[1] + |Survivors(mem0, at, n, m, n + 1)|;
      end <= |mem| && at[1] <= |mem0| && mem[..at[1]] == mem0[..at[1]] && mem[at[1]..end] == Survivors(mem0, at, n, m, n + 1)
    ensures RecordsMoved(mem, ts, mem0, at, n, m)
  {
    hide LaidOut, Survivors, Moved, Located;
    forall c | 1 <= c <= n && m[c] == c ensures Moved(mem, ts, mem0, at, n, m, c) {
      FoundThere(mem, ts, mem0, at, n, m, at[1] + |Survivors(mem0, at, n, m, n + 1)|, c);
    }
  }

  class Section {
    const data: array<Byte>
    /** Offsets of the records. */
    const types: array<nat>
    const hypotMap: array<nat>
    var nrTypes: nat
    var strOff: nat
    var strLen: nat

    constructor (data: array<Byte>, types: array<nat>, hypotMap: array<nat>, strOff: nat, strLen: nat)
      requires types.Length > 0
      ensures this.data == data && this.types == types && this.hypotMap == hypotMap
      ensures nrTypes == types.Length - 1 && this.strOff == strOff && this.strLen == strLen
    {
      this.data, this.types, this.hypotMap, this.strOff, this.strLen := data, types, hypotMap, strOff, strLen;
      nrTypes := types.Length - 1;
    }

    /** All memory between the start of the first record and the end of the strings. */
    ghost predicate Indexed(at: seq<nat>)
      reads this, data, types, hypotMap
    {
      types != hypotMap && types.Length == hypotMap.Length == nrTypes + 1 &&
      LaidOut(data[..], at, nrTypes) && at[nrTypes + 1] <= strOff && strOff + strLen <= data.Length &&
      forall i :: 1 <= i <= nrTypes ==> types[i] == at[i]
    }

    /** Copies the canonical records down. */
    method CopyRecords(m: seq<nat>, ghost at: seq<nat>, typeOff: nat) returns (p: nat)
      requires Indexed(at) && |m| == nrTypes + 1 && typeOff == at[1]
      modifies this`nrTypes, data, types, hypotMap
      ensures nrTypes == CanonBelow(m, |m|) <= old(nrTypes)
      ensures LaidOut(old(data[..]), at, old(nrTypes)) && Copied(old(data[..]), at, old(nrTypes), m, |m|, data[..], p)
      ensures Renumbered(m, hypotMap[..]) && Located(old(data[..]), at, old(nrTypes), m, types[..])
    {
      hide LaidOut, Survivors, Copied, Renumbered, Located;
      ghost var mem0 := data[..];
      var n := nrTypes;
      assert |at| == n + 2 by { IndexSize(data[..], at, n); }
      hypotMap[0] := 0;
      for i := 1 to n + 1
        invariant nrTypes == n && data[..] == mem0 && types[..] == old(types[..]) && forall j :: 1 <= j < i ==> hypotMap[j] == UNPROCESSED
      {
        hypotMap[i] := UNPROCESSED;
      }
      var nextTypeId := 1;
      p := typeOff;
      StartCopying(mem0, at, n, m);
      assert IndexSoFar(mem0, at, n, m, 1, hypotMap[..], types[..]);
      hide IndexSoFar, NewOffset;
      for i := 1 to n + 1
        invariant nextTypeId == CanonBelow(m, i) + 1 <= i && nrTypes == n
        invariant Copied(mem0, at, n, m, i, data[..], p)
        invariant IndexSoFar(mem0, at, n, m, i, hypotMap[..], types[..])
      {
        ghost var h, ts := hypotMap[..], types[..];
        IndexGoesOn(mem0, at, n, m, i, h, ts);
        if m[i] == i {
          var len := CopyRecord(mem0, at, n, m, i, p);
          hypotMap[i] := nextTypeId;
          types[nextTypeId] := p;
          assert hypotMap[..] == h[i := nextTypeId] && types[..] == ts[nextTypeId := NewOffset(mem0, at, n, m, i)];
          p := p + len;
          nextTypeId := nextTypeId + 1;
        } else {
          SkipOne(mem0, at, n, m, i, data[..], p);
        }
      }
      nrTypes := nextTypeId - 1;
      IndexMade(mem0, at, n, m, hypotMap[..], types[..]);
    }

    /** The canonical records, unchanged and in order, then the strings, unchanged; and the index
        leads from the new number of each canonical record to its bytes. Without memory for the
        smaller index, the records have moved but the strings have stayed where they were. */
    method CompactTypes(m: seq<nat>, ghost at: seq<nat>, typeOff: nat) returns (err: int)
      requires Indexed(at) && |m| == nrTypes + 1 && typeOff == at[1]
      modifies this`nrTypes, this`strOff, data, types, hypotMap
      ensures err == 0 || err == ENOMEM
      ensures nrTypes == CanonBelow(m, |m|) <= old(nrTypes)
      ensures LaidOut(old(data[..]), at, old(nrTypes))
      ensures var end := typeOff + |Survivors(old(data[..]), at, old(nrTypes), m, |m|)|;
        end <= old(strOff) && strOff == if err == 0 then end else old(strOff)
      ensures |at| == |m| + 1 && RecordsMoved(data[..], types[..], old(data[..]), at, old(nrTypes), m)
      ensures strOff + strLen <= data.Length && data[..][strOff..strOff + strLen] == old(data[..])[old(strOff)..old(strOff) + strLen]
      ensures Renumbered(m, hypotMap[..])
    {
      hide LaidOut, Survivors, Copied, Renumbered, Located, Moved, Moving, CanonBelow, RecordsMoved;
      ghost var mem0, n := data[..], nrTypes;
      IndexSize(data[..], at, n);
      var p := CopyRecords(m, at, typeOff);
      CopiedAll(mem0, at, n, m, data[..], p);
      StringsStay(mem0, at[n + 1]);
      AllFoundThere(data[..], types[..], mem0, at, n, m);
      var oom: bool := *;
      if oom { return ENOMEM; }
      MoveStrings(typeOff, p);
      AllFoundThere(data[..], types[..], mem0, at, n, m);
      return 0;
    }

    lemma StringsStay(mem0: seq<Byte>, end: nat)
      requires end <= strOff && strOff + strLen <= data.Length == |mem0| && data[..][end..] == mem0[end..]
      ensures data[..][strOff..strOff + strLen] == mem0[strOff..strOff + strLen]
    {
      SliceTail(data[..], end, strOff, strOff + strLen);
      SliceTail(mem0, end, strOff, strOff + strLen);
    }

    /** The strings follow the records without a gap. */
    method MoveStrings(ghost typeOff: nat, p: nat)
      requires typeOff <= p <= strOff && strOff + strLen <= data.Length
      modifies this`strOff, data
      ensures strOff == p
      ensures data[..][..typeOff] == old(data[..])[..typeOff] && data[..][typeOff..p] == old(data[..])[typeOff..p]
      ensures data[..][p..p + strLen] == old(data[..])[old(strOff)..old(strOff) + strLen]
    {
      MovedParts(data[..], p, strOff, strLen, typeOff);
      MemMove(data, p, strOff, strLen);
      strOff := p;
    }

    /** Copies record i. Its size can still be read from its header, as it has not been overwritten. */
    method CopyRecord(ghost mem0: seq<Byte>, ghost at: seq<nat>, ghost n: nat, ghost m: seq<nat>, i: nat, p: nat) returns (len: nat)
      requires LaidOut(mem0, at, n) && 1 <= i <= n && |m| == n + 1 && m[i] == i && Copied(mem0, at, n, m, i, data[..], p)
      requires i < types.Length && types[i] == at[i]
      modifies data
      ensures Copied(mem0, at, n, m, i + 1, data[..], p + len) && p == NewOffset(mem0, at, n, m, i)
    {
      hide LaidOut, Survivors, Moving;
      LaidOutBounds(mem0, at, n, i);
      SurvivorsShort(mem0, at, n, m, i);
      RecordSize(mem0, at, n, i);
      var t := types[i];
      assert forall k :: 0 <= k < HEADER_SIZE ==> data[t + k] == data[..][at[i]..][k] == mem0[at[i]..][k] == mem0[t + k];
      assert SizeAt(data[..], t) == at[i + 1] - at[i];
      len := SizeAt(data[..], t);
      ghost var mem := data[..];
      MemMove(data, p, t, len);
      SlideOne(mem0, at, n, m, i, mem, p, data[..]);
    }
  }
}
