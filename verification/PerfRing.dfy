/** The perf ring reader: records of a byte stream that is laid around a power-of-two buffer. */
module PerfRing {
  import opened Words
  import opened XskRing

  const ERROR: int := -1
  const CONT: int := -2

  const HEADER_SIZE: nat := 8

  /** The size field of a record header. */
  function SizeField(bytes: seq<Byte>, off: nat): nat
    requires off + HEADER_SIZE <= |bytes|
  {
    var low: nat, high: nat := bytes[off + 6], bytes[off + 7];
    low + 256 * high
  }

  /** The header is a 32-bit type, 16 bits of flags and a 16-bit size, each with its lowest byte first. */
  lemma SizeSpelled(kind: seq<Byte>, misc: seq<Byte>, low: Byte, high: Byte, rest: seq<Byte>)
    requires |kind| == 4 && |misc| == 2
    ensures SizeField(kind + misc + [low, high] + rest, 0) == high as nat * 0x100 + low as nat
  {
  }

  function Concat(rs: seq<seq<Byte>>): seq<Byte> {
    if rs == [] then [] else Concat(rs[..|rs| - 1]) + rs[|rs| - 1]
  }

  lemma {:induction false} ConcatSplit(rs: seq<seq<Byte>>, n: nat)
    requires n <= |rs|
    ensures |Concat(rs[..n])| <= |Concat(rs)| && Concat(rs)[..|Concat(rs[..n])|] == Concat(rs[..n])
    ensures n == |rs| ==> rs[..n] == rs
    decreases |rs|
  {
    if n < |rs| {
      ConcatSplit(rs[..|rs| - 1], n);
      assert rs[..|rs| - 1][..n] == rs[..n];
    } else {
      assert rs[..n] == rs;
    }
  }

  /** The buffer holds the bytes s of the stream from position pos on. */
  ghost predicate Holds(base: seq<Byte>, pos: nat, s: seq<Byte>) {
    0 < |base| && |s| <= |base| && forall i {:trigger s[i]} :: 0 <= i < |s| ==> base[Slot(pos + i, |base|)] == s[i]
  }

  /** The stream is a run of records that say how long they are; no header is split. */
  ghost predicate IsRecords(size: nat, pos: nat, rs: seq<seq<Byte>>)
    requires size > 0
  {
    forall k :: 0 <= k < |rs| ==>
      |rs[k]| >= HEADER_SIZE && SizeField(rs[k], 0) == |rs[k]| && Slot(pos + |Concat(rs[..k])|, size) + HEADER_SIZE <= size
  }

  lemma {:induction false} SlotPlus(x: nat, i: nat, size: nat)
    requires 0 < size && i <= size
    ensures var o := Slot(x, size); Slot(x + i, size) == if o + i < size then o + i else o + i - size
  {
    if x >= size {
      SlotPlus(x - size, i, size);
    } else if x + i >= size {
      assert Slot(x + i, size) == Slot(x + i - size, size);
    }
  }

  /** The bytes of a record, as found in the buffer in one piece or in two. */
  function Piece(base: seq<Byte>, o: nat, n: nat): seq<Byte>
    requires o < |base| && n <= |base|
  {
    if o + n <= |base| then base[o..o + n] else base[o..] + base[..o + n - |base|]
  }

  lemma HeldPiece(base: seq<Byte>, pos: nat, s: seq<Byte>, a: nat, b: nat)
    requires Holds(base, pos, s) && a <= b <= |s|
    ensures Piece(base, Slot(pos + a, |base|), b - a) == s[a..b]
  {
    var o := Slot(pos + a, |base|);
    forall i | 0 <= i < b - a ensures Piece(base, o, b - a)[i] == s[a..b][i] {
      SlotPlus(pos + a, i, |base|);
      assert base[Slot(pos + (a + i), |base|)] == s[a + i];
    }
  }

  /** Where record k lies in the stream. */
  lemma RecordInStream(rs: seq<seq<Byte>>, k: nat)
    requires k < |rs|
    ensures
      var a := |Concat(rs[..k])|;
      a + |rs[k]| <= |Concat(rs)| && Concat(rs)[a..a + |rs[k]|] == rs[k]
    ensures Concat(rs[..k + 1]) == Concat(rs[..k]) + rs[k] && |Concat(rs[..k + 1])| <= |Concat(rs)|
  {
    assert rs[..k + 1][..k] == rs[..k];
    assert Concat(rs[..k + 1]) == Concat(rs[..k]) + rs[k];
    hide Concat;
    ConcatSplit(rs, k + 1);
    var a := |Concat(rs[..k])|;
    var b := a + |rs[k]|;
    assert Concat(rs)[a..b] == Concat(rs)[..b][a..];
  }

  /** Record k and its size, as seen from its offset in the buffer. */
  lemma RecordAt(base: seq<Byte>, pos: nat, rs: seq<seq<Byte>>, k: nat)
    requires Holds(base, pos, Concat(rs)) && IsRecords(|base|, pos, rs) && k < |rs|
    ensures
      var o := Slot(pos + |Concat(rs[..k])|, |base|);
      o + HEADER_SIZE <= |base| && HEADER_SIZE <= SizeField(base, o) == |rs[k]| <= |base| && Piece(base, o, |rs[k]|) == rs[k]
    ensures Concat(rs[..k + 1]) == Concat(rs[..k]) + rs[k] && |Concat(rs[..k + 1])| <= |Concat(rs)|
  {
    hide Holds, Concat, Slot;
    RecordInStream(rs, k);
    var a := |Concat(rs[..k])|;
    HoldsFits(base, pos, Concat(rs));
    HeldPiece(base, pos, Concat(rs), a, a + |rs[k]|);
    var o := Slot(pos + a, |base|);
    assert o + HEADER_SIZE <= |base|;
    SizeFromPiece(base, o, rs[k]);
  }

  lemma SizeFromPiece(base: seq<Byte>, o: nat, r: seq<Byte>)
    requires o + HEADER_SIZE <= |base| && HEADER_SIZE <= |r| <= |base| && Piece(base, o, |r|) == r
    ensures SizeField(base, o) == SizeField(r, 0)
  {
    assert forall i :: 0 <= i < HEADER_SIZE ==> base[o + i] == Piece(base, o, |r|)[i];
    assert base[o + 6] == r[6] && base[o + 7] == r[7];
  }

  lemma HoldsFits(base: seq<Byte>, pos: nat, s: seq<Byte>)
    requires Holds(base, pos, s)
    ensures 0 < |base| && |s| <= |base|
  {
  }

  /** What a reader got: the first n records, and why it stopped there. */
  ghost predicate Stopped(rs: seq<seq<Byte>>, answer: nat -> int, n: nat, ret: int) {
    n <= |rs| && (forall k :: 0 <= k < n - 1 ==> answer(k) == CONT) &&
    if ret == CONT then n == |rs| && (n > 0 ==> answer(n - 1) == CONT)
    else (n > 0 && ret == answer(n - 1)) || (ret == ERROR && n < |rs| && (n > 0 ==> answer(n - 1) == CONT))
  }

  class PerfPage {
    const base: array<Byte>
    var dataHead: nat
    var dataTail: nat
    /** Room for a record that wraps around, and its size. */
    var copyMem: array<Byte>
    /** The records passed to the callback. */
    ghost var delivered: seq<seq<Byte>>

    constructor (base: array<Byte>, head: nat, tail: nat)
      ensures this.base == base && dataHead == head && dataTail == tail && delivered == [] && fresh(copyMem)
    {
      this.base, dataHead, dataTail, delivered := base, head, tail, [];
      copyMem := new Byte[0];
    }

    /** Assembles a record that is split by the end of the buffer. */
    method CopySplit(o: nat, size: nat) returns (ok: bool)
      requires copyMem != base && o < base.Length < o + size && size <= base.Length
      modifies this`copyMem, copyMem
      ensures copyMem == old(copyMem) || fresh(copyMem)
      ensures ok ==> size <= copyMem.Length && copyMem[..size] == Piece(base[..], o, size)
    {
      var first := base.Length - o;
      if copyMem.Length < size {
        var oom: bool := *;
        if oom {
          copyMem := new Byte[0];
          return false;
        }
        copyMem := new Byte[size];
      }
      forall i | 0 <= i < first { copyMem[i] := base[o + i]; }
      forall i | 0 <= i < size - first { copyMem[first + i] := base[i]; }
      return true;
    }

    /** The next record, in one piece. */
    method Fetch(bits: nat, ghost rs: seq<seq<Byte>>, ghost pos: nat, ghost k: nat, tail: nat) returns (ok: bool, event: seq<Byte>)
      requires base.Length == Pow2(bits) && copyMem != base && k < |rs|
      requires Holds(base[..], pos, Concat(rs)) && IsRecords(base.Length, pos, rs) && tail == pos + |Concat(rs[..k])|
      modifies this`copyMem, copyMem
      ensures base[..] == old(base[..]) && (copyMem == old(copyMem) || fresh(copyMem))
      ensures ok ==> event == rs[k]
      ensures HEADER_SIZE <= |rs[k]| && Concat(rs[..k + 1]) == Concat(rs[..k]) + rs[k] && |Concat(rs[..k + 1])| <= |Concat(rs)|
    {
      hide Holds, IsRecords, And, Slot, Concat, Pow2;
      ghost var bytes := base[..];
      RecordAt(bytes, pos, rs, k);
      MaskPicksSlot(tail, bits);
      var o := And(tail, base.Length - 1);
      var size := SizeField(base[..], o);
      event := [];
      if o + size > base.Length {
        ok := CopySplit(o, size);
        if ok { event := copyMem[..size]; }
      } else {
        ok := true;
        event := base[o..o + size];
        assert event == bytes[o..o + size];
      }
    }

    /** The callback gets the records between tail and head, each in one piece and in order, up to
        the first one at which it does not want to go on or memory runs out; the tail moves by
        exactly what it got. */
    method ReadSimple(bits: nat, ghost rs: seq<seq<Byte>>, answer: nat -> int) returns (ret: int)
      requires base.Length == Pow2(bits) && copyMem != base && delivered == []
      requires Holds(base[..], dataTail, Concat(rs)) && IsRecords(base.Length, dataTail, rs) && dataHead == dataTail + |Concat(rs)|
      modifies this`dataTail, this`delivered, this`copyMem, copyMem
      ensures base[..] == old(base[..])
      ensures |delivered| <= |rs| && delivered == rs[..|delivered|]
      ensures dataTail == old(dataTail) + |Concat(delivered)|
      ensures Stopped(rs, answer, |delivered|, ret)
    {
      hide Holds, IsRecords;
      ghost var bytes := base[..];
      var head, tail, calls := dataHead, dataTail, 0;
      ret := CONT;
      while head != tail
        invariant base[..] == bytes && copyMem != base && (copyMem == old(copyMem) || fresh(copyMem))
        invariant calls == |delivered| <= |rs| && delivered == rs[..calls] && tail == old(dataTail) + |Concat(rs[..calls])| <= head
        invariant dataTail == old(dataTail) && ret == CONT
        invariant forall k :: 0 <= k < calls ==> answer(k) == CONT
        decreases head - tail
      {
        assert calls < |rs| by { ConcatSplit(rs, calls); }
        var ok, event := Fetch(bits, rs, old(dataTail), calls, tail);
        if !ok {
          ret := ERROR;
          break;
        }
        delivered := delivered + [event];
        ret := answer(calls);
        calls := calls + 1;
        tail := tail + |event|;
        if ret != CONT { break; }
      }
      if ret == CONT && calls < |rs| { RecordAt(bytes, old(dataTail), rs, calls); }
      dataTail := tail;
    }
  }
}
