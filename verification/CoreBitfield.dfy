/** Relocated bit-field access: the load window that the loader picks, and the load-and-shift
    sequence of the program that uses it. */
module CoreBitfield {
  import opened Words
  import opened Seqs

  datatype Order = Little | Big

  // ---- Numbers as bits, least significant first

  function Digits(v: nat, n: nat): (bits: seq<bool>)
    ensures |bits| == n
  {
    if n == 0 then [] else [v % 2 == 1] + Digits(v / 2, n - 1)
  }

  function Value(bits: seq<bool>): nat {
    if bits == [] then 0 else (if bits[0] then 1 else 0) + 2 * Value(bits[1..])
  }

  /** v times 2 to the n. */
  function Scaled(v: nat, n: nat): nat {
    if n == 0 then v else 2 * Scaled(v, n - 1)
  }

  function Repeat(b: bool, n: nat): (s: seq<bool>)
    ensures |s| == n && forall i :: 0 <= i < n ==> s[i] == b
  {
    if n == 0 then [] else [b] + Repeat(b, n - 1)
  }

  lemma {:induction false} ValueConcat(x: seq<bool>, y: seq<bool>)
    ensures Value(x + y) == Value(x) + Scaled(Value(y), |x|)
  {
    if x == [] {
      assert x + y == y;
    } else {
      ValueConcat(x[1..], y);
      assert (x + y)[1..] == x[1..] + y;
    }
  }

  lemma {:induction false} ScaledPow2(k: nat, n: nat)
    ensures Scaled(Pow2(k), n) == Pow2(n + k)
  {
    if n > 0 { ScaledPow2(k, n - 1); }
  }

  lemma {:induction false} ScaledMinus(a: nat, b: nat, n: nat)
    requires b <= a
    ensures Scaled(a - b, n) == Scaled(a, n) - Scaled(b, n)
  {
    if n > 0 { ScaledMinus(a, b, n - 1); }
  }

  lemma {:induction false} ScaledZero(n: nat)
    ensures Scaled(0, n) == 0
  {
    if n > 0 { ScaledZero(n - 1); }
  }

  lemma {:induction false} ValueBound(bits: seq<bool>)
    ensures Value(bits) < Pow2(|bits|)
  {
    if bits != [] { ValueBound(bits[1..]); }
  }

  lemma {:induction false} DigitsValue(v: nat, n: nat)
    requires v < Pow2(n)
    ensures Value(Digits(v, n)) == v
  {
    if n > 0 {
      DigitsValue(v / 2, n - 1);
      assert Digits(v, n)[1..] == Digits(v / 2, n - 1);
    }
  }

  lemma {:induction false} RepeatValue(b: bool, n: nat)
    ensures Value(Repeat(b, n)) == if b then Pow2(n) - 1 else 0
  {
    if n > 0 {
      RepeatValue(b, n - 1);
      assert Repeat(b, n)[1..] == Repeat(b, n - 1);
    }
  }

  // ---- Memory

  /** The bits of memory in the order in which BTF numbers them: from the least significant bit of
      each byte on a little-endian machine, from the most significant one on a big-endian one. */
  function ByteBits(o: Order, b: Byte): (bits: seq<bool>)
    ensures |bits| == 8
  {
    if o.Little? then Digits(b, 8) else Reverse(Digits(b, 8))
  }

  function Bits(o: Order, bytes: seq<Byte>): (bits: seq<bool>)
    ensures |bits| == 8 * |bytes|
  {
    if bytes == [] then [] else ByteBits(o, bytes[0]) + Bits(o, bytes[1..])
  }

  /** A run of memory bits with the least significant one first. */
  function LowFirst(o: Order, bits: seq<bool>): (r: seq<bool>)
    ensures |r| == |bits|
  {
    if o.Little? then bits else Reverse(bits)
  }

  /** What loading these bytes as one integer gives. */
  function Load(o: Order, bytes: seq<Byte>): nat {
    if bytes == [] then 0
    else match o
      case Little => bytes[0] + 256 * Load(o, bytes[1..])
      case Big => 256 * Load(o, bytes[..|bytes| - 1]) + bytes[|bytes| - 1]
  }

  lemma BitsStep(o: Order, s: seq<Byte>)
    ensures s == [] ==> Bits(o, s) == []
    ensures s != [] ==> Bits(o, s) == ByteBits(o, s[0]) + Bits(o, s[1..])
  {
  }

  lemma {:induction false} BitsConcat(o: Order, x: seq<Byte>, y: seq<Byte>)
    ensures Bits(o, x + y) == Bits(o, x) + Bits(o, y)
  {
    hide Bits, ByteBits;
    BitsStep(o, x);
    if x == [] {
      assert x + y == y;
    } else {
      BitsConcat(o, x[1..], y);
      BitsStep(o, x + y);
      assert (x + y)[1..] == x[1..] + y;
      Associative(ByteBits(o, x[0]), Bits(o, x[1..]), Bits(o, y));
    }
  }

  lemma ByteFirst(b: Byte, rest: seq<bool>)
    ensures Value(Digits(b, 8) + rest) == b + 256 * Value(rest)
  {
    assert Pow2(8) == 256;
    DigitsValue(b, 8);
    ValueConcat(Digits(b, 8), rest);
    var v := Value(rest);
    assert Scaled(v, 1) == 2 * v;
    assert Scaled(v, 3) == 8 * v;
    assert Scaled(v, 5) == 32 * v;
    assert Scaled(v, 7) == 128 * v;
    assert Scaled(v, 8) == 256 * v;
  }

  lemma LastBits(o: Order, init: seq<Byte>, last: Byte)
    ensures Bits(o, init + [last]) == Bits(o, init) + ByteBits(o, last)
  {
    hide Bits, ByteBits;
    BitsConcat(o, init, [last]);
    BitsStep(o, [last]);
    BitsStep(o, []);
  }

  /** An integer load spells the bits of its bytes. */
  lemma {:induction false} LoadIsValue(o: Order, bytes: seq<Byte>)
    ensures Load(o, bytes) == Value(LowFirst(o, Bits(o, bytes)))
  {
    hide Bits, Reverse, Digits, Value;
    if bytes == [] {
      BitsStep(o, bytes);
      assert LowFirst(o, Bits(o, bytes)) == [];
      assert Value([]) == 0 by { ValueBound([]); }
    } else if o.Little? {
      LoadIsValue(o, bytes[1..]);
      BitsStep(o, bytes);
      ByteFirst(bytes[0], Bits(o, bytes[1..]));
    } else {
      var n := |bytes| - 1;
      var init, last := bytes[..n], bytes[n];
      LoadIsValue(o, init);
      LastBits(o, init, last);
      assert init + [last] == bytes;
      ReverseConcat(Bits(o, init), ByteBits(o, last));
      ReverseConcat(Digits(last, 8), []);
      ByteFirst(last, Reverse(Bits(o, init)));
    }
  }

  // ---- The load window

  predicate IsLoadSize(sz: nat) {
    sz == 1 || sz == 2 || sz == 4 || sz == 8
  }

  function AlignDown(x: nat, sz: nat): nat
    requires sz > 0
  {
    x / sz * sz
  }

  lemma AlignDownAt(x: nat)
    ensures AlignDown(x, 1) == x && AlignDown(x, 2) == x / 2 * 2
    ensures AlignDown(x, 4) == x / 4 * 4 && AlignDown(x, 8) == x / 8 * 8
  {
  }

  lemma AlignHalves(x: nat)
    ensures x / 2 * 2 <= x <= x / 2 * 2 + 1
    ensures x / 4 * 4 <= x / 2 * 2 <= x / 4 * 4 + 2
    ensures x / 8 * 8 <= x / 4 * 4 <= x / 8 * 8 + 4
  {
    assert x / 4 == x / 2 / 2;
    assert x / 8 == x / 4 / 2;
  }

  lemma AlignedMod(x: nat, sz: nat)
    requires IsLoadSize(sz)
    ensures AlignDown(x, sz) % sz == 0
  {
    if sz == 8 {
      assert x / 8 * 8 % 8 == 0;
    } else if sz == 4 {
      assert x / 4 * 4 % 4 == 0;
    } else if sz == 2 {
      assert x / 2 * 2 % 2 == 0;
    }
  }

  lemma AlignDownIs(x: nat, sz: nat)
    requires IsLoadSize(sz)
    ensures AlignDown(x, sz) <= x < AlignDown(x, sz) + sz && AlignDown(x, sz) % sz == 0
    ensures sz <= 4 ==> AlignDown(x, 2 * sz) <= AlignDown(x, sz) <= AlignDown(x, 2 * sz) + sz
  {
    AlignedMod(x, sz);
    hide AlignDown;
    AlignDownAt(x);
    AlignHalves(x);
  }

  /** The naturally aligned window of sz bytes around the first bit holds the whole field. */
  predicate FitsAligned(bitOff: nat, bitSz: nat, sz: nat)
    requires sz > 0
  {
    bitOff + bitSz <= (AlignDown(bitOff / 8, sz) + sz) * 8
  }

  /** A window that holds the field. */
  predicate Contains(byteOff: nat, byteSz: nat, bitOff: nat, bitSz: nat) {
    byteOff * 8 <= bitOff && bitOff + bitSz <= (byteOff + byteSz) * 8
  }

  datatype Window = Window(byteOff: nat, byteSz: nat) | TooBig

  /** No smaller window would have done. */
  ghost predicate NoneFits(bitOff: nat, bitSz: nat, from: nat, below: nat) {
    forall sz: nat :: IsLoadSize(sz) && from <= sz < below ==> !FitsAligned(bitOff, bitSz, sz)
  }

  lemma NothingBefore(bitOff: nat, bitSz: nat, from: nat)
    ensures NoneFits(bitOff, bitSz, from, from)
  {
  }

  lemma NextFits(bitOff: nat, bitSz: nat, from: nat, sz: nat)
    requires IsLoadSize(sz) && NoneFits(bitOff, bitSz, from, sz) && !FitsAligned(bitOff, bitSz, sz)
    ensures NoneFits(bitOff, bitSz, from, 2 * sz)
  {
    hide FitsAligned;
  }

  /** The window is found exactly if an 8-byte one would do; it is the smallest that does, starting
      from the size of the declared type. */
  method LoadWindow(bitOff: nat, bitSz: nat, typeSz: nat) returns (w: Window)
    requires bitOff < WORD32 && 0 < bitSz < 256 && IsLoadSize(typeSz)
    ensures w.Window? <==> FitsAligned(bitOff, bitSz, 8)
    ensures w.Window? ==> IsLoadSize(w.byteSz) && w.byteSz >= typeSz && w.byteOff == AlignDown(bitOff / 8, w.byteSz) && w.byteOff % w.byteSz == 0
    ensures w.Window? ==> Contains(w.byteOff, w.byteSz, bitOff, bitSz)
    ensures w.Window? ==> NoneFits(bitOff, bitSz, typeSz, w.byteSz)
  {
    hide AlignDown, U32, NoneFits;
    var byteSz := typeSz;
    var byteOff := AlignDown(bitOff / 8, byteSz);
    AlignDownIs(bitOff / 8, byteSz);
    NothingBefore(bitOff, bitSz, typeSz);
    FitsWider(bitOff, bitSz, 1);
    FitsWider(bitOff, bitSz, 2);
    FitsWider(bitOff, bitSz, 4);
    WrappedDifference(bitOff + bitSz, byteOff * 8);
    while U32(U32(bitOff + bitSz) - U32(byteOff * 8)) > byteSz * 8
      invariant IsLoadSize(byteSz) && byteSz >= typeSz
      invariant byteOff == AlignDown(bitOff / 8, byteSz) && byteOff <= bitOff / 8 && byteOff % byteSz == 0
      invariant U32(U32(bitOff + bitSz) - U32(byteOff * 8)) == bitOff + bitSz - byteOff * 8
      invariant NoneFits(bitOff, bitSz, typeSz, byteSz)
      decreases 8 - byteSz
    {
      if byteSz >= 8 { return TooBig; }
      NextFits(bitOff, bitSz, typeSz, byteSz);
      AlignDownIs(bitOff / 8, 2 * byteSz);
      byteSz := byteSz * 2;
      byteOff := AlignDown(bitOff / 8, byteSz);
      WrappedDifference(bitOff + bitSz, byteOff * 8);
    }
    return Window(byteOff, byteSz);
  }

  lemma FitsWider(bitOff: nat, bitSz: nat, sz: nat)
    requires sz > 0
    ensures IsLoadSize(sz) && sz <= 4 && FitsAligned(bitOff, bitSz, sz) ==> FitsAligned(bitOff, bitSz, 2 * sz)
  {
    if IsLoadSize(sz) { AlignDownIs(bitOff / 8, sz); }
  }

  // ---- Shifting the field out

  /** 64-bit shifts, one position at a time. */
  function Shl(v: nat, n: nat): (r: nat)
    requires v < WORD64
    ensures r < WORD64
    decreases n
  {
    if n == 0 then v else Shl(2 * v % WORD64, n - 1)
  }

  function Shr(v: nat, n: nat): (r: nat)
    requires v < WORD64
    ensures r < WORD64
    decreases n
  {
    if n == 0 then v else Shr(v / 2, n - 1)
  }

  /** The right shift of a signed number repeats the sign bit. */
  function Sar(v: nat, n: nat): (r: nat)
    requires v < WORD64
    ensures r < WORD64
    decreases n
  {
    if n == 0 then v else Sar(v / 2 + (if v >= WORD64 / 2 then WORD64 / 2 else 0), n - 1)
  }

  /** An n-bit number widened to 64 bits. */
  function Extended(signed: bool, f: nat, n: nat): int {
    if signed && n > 0 && f >= Pow2(n - 1) then WORD64 - Pow2(n) + f else f
  }

  function Sign(signed: bool, bits: seq<bool>): bool {
    signed && bits != [] && bits[|bits| - 1]
  }

  /** What the last bit contributes. */
  lemma {:induction false} TopBit(w: seq<bool>)
    requires w != []
    ensures Value(w) == Value(w[..|w| - 1]) + if w[|w| - 1] then Pow2(|w| - 1) else 0
  {
    var n := |w| - 1;
    assert w == w[..n] + [w[n]];
    ValueConcat(w[..n], [w[n]]);
    ScaledPow2(0, n);
    ScaledZero(n);
    assert Value([w[n]]) == if w[n] then 1 else 0;
  }

  lemma {:induction false} ShlMovesUp(w: seq<bool>, n: nat)
    requires |w| == 64 && n <= 64 && Value(w) < WORD64
    ensures Shl(Value(w), n) == Value(Repeat(false, n) + w[..64 - n])
    decreases n
  {
    if n == 0 {
      assert Repeat(false, 0) + w[..64] == w;
    } else {
      var u := [false] + w[..63];
      Word64IsPow2();
      TopBit(w);
      ValueBound(w[..63]);
      assert u[1..] == w[..63];
      assert Pow2(64) == 2 * Pow2(63);
      assert Value(u) == 2 * Value(w) % WORD64;
      ShlMovesUp(u, n - 1);
      assert Repeat(false, n) + w[..64 - n] == Repeat(false, n - 1) + u[..64 - (n - 1)];
    }
  }

  lemma ShiftView(w: seq<bool>, n: nat, b: bool)
    requires 0 < n <= |w|
    ensures w[n..] + Repeat(b, n) == (w[1..] + [b])[n - 1..] + Repeat(b, n - 1)
  {
    hide Repeat;
    var x, y := w[n..] + Repeat(b, n), (w[1..] + [b])[n - 1..] + Repeat(b, n - 1);
    assert (w[1..] + [b])[n - 1..] == w[n..] + [b];
    forall i | 0 <= i < |w| ensures x[i] == y[i] {}
  }

  lemma {:induction false} ShrMovesDown(signed: bool, w: seq<bool>, n: nat)
    requires |w| == 64 && n <= 64 && Value(w) < WORD64
    ensures (if signed then Sar(Value(w), n) else Shr(Value(w), n)) == Value(w[n..] + Repeat(Sign(signed, w), n))
    decreases n
  {
    if n == 0 {
      assert w[0..] + Repeat(Sign(signed, w), 0) == w;
    } else {
      var u := w[1..] + [Sign(signed, w)];
      Word64IsPow2();
      TopBit(w);
      ValueBound(w[..63]);
      TopBit(u);
      assert u[..63] == w[1..];
      assert Pow2(64) == 2 * Pow2(63);
      ValueBound(u);
      ShrMovesDown(signed, u, n - 1);
      ShiftView(w, n, Sign(signed, w));
    }
  }

  /** Padding with the sign is widening. */
  lemma PaddedIsExtended(signed: bool, f: seq<bool>)
    requires 0 < |f| <= 64
    ensures Value(f + Repeat(Sign(signed, f), 64 - |f|)) == Extended(signed, Value(f), |f|)
  {
    hide Value, Scaled, Repeat, Pow2;
    var n, k := |f|, 64 - |f|;
    Pow2Zero();
    var pad := Repeat(Sign(signed, f), k);
    ValueConcat(f, pad);
    RepeatValue(Sign(signed, f), k);
    TopBit(f);
    ValueBound(f[..n - 1]);
    if Sign(signed, f) {
      ScaledMinus(Pow2(k), 1, n);
      ScaledPow2(k, n);
      ScaledPow2(0, n);
      Word64IsPow2();
    } else {
      ScaledZero(n);
    }
  }

  /** The bits at pos..pos+n of a word, brought to the top and then down again, are left alone and
      widened: bits above are pushed out, bits below fall off. */
  lemma ShiftsIsolate(signed: bool, w: seq<bool>, pos: nat, n: nat)
    requires |w| == 64 && 0 < n && pos + n <= 64 && Value(w) < WORD64
    ensures
      var v := Shl(Value(w), 64 - (pos + n));
      (if signed then Sar(v, 64 - n) else Shr(v, 64 - n)) == Extended(signed, Value(w[pos..pos + n]), n)
  {
    var f, l := w[pos..pos + n], 64 - (pos + n);
    var u := Repeat(false, l) + w[..64 - l];
    ShlMovesUp(w, l);
    ShrMovesDown(signed, u, 64 - n);
    assert u[64 - n..] == f;
    assert Sign(signed, u) == Sign(signed, f);
    PaddedIsExtended(signed, f);
  }

  /** The number in a bit-field. */
  function Field(o: Order, mem: seq<Byte>, bitOff: nat, bitSz: nat): nat
    requires bitOff + bitSz <= 8 * |mem|
  {
    Value(LowFirst(o, Bits(o, mem)[bitOff..bitOff + bitSz]))
  }

  /** The values the loader patches into the program. */
  datatype Relocs = Relocs(byteOff: nat, byteSz: nat, lshift: nat, rshift: nat, signed: bool)

  method CalcRelocs(o: Order, bitOff: nat, bitSz: nat, w: Window, signed: bool) returns (r: Relocs)
    requires bitOff < WORD32 && 0 < bitSz < 256
    requires w.Window? && IsLoadSize(w.byteSz) && Contains(w.byteOff, w.byteSz, bitOff, bitSz)
    ensures RelocsFor(o, r, bitOff, bitSz, signed) && r.byteOff == w.byteOff && r.byteSz == w.byteSz
  {
    hide U32;
    WrappedDifference(bitOff + bitSz, w.byteOff * 8);
    WrappedDifference(bitOff, w.byteOff * 8);
    U32Small(bitOff);
    U32Small(64 - (bitOff + bitSz - w.byteOff * 8));
    U32Small((8 - w.byteSz) * 8 + (bitOff - w.byteOff * 8));
    U32Small(64 - bitSz);
    var l;
    if o.Little? {
      l := U32(64 - U32(U32(bitOff + bitSz) - U32(w.byteOff * 8)));
    } else {
      l := U32((8 - w.byteSz) * 8 + U32(U32(bitOff) - U32(w.byteOff * 8)));
    }
    r := Relocs(w.byteOff, w.byteSz, l, U32(64 - bitSz), signed);
  }

  /** Where in the loaded word the field starts, counted from the least significant bit. */
  function PositionOf(o: Order, r: Relocs, bitOff: nat, bitSz: nat): int {
    match o
    case Little => bitOff - r.byteOff * 8
    case Big => (r.byteOff + r.byteSz) * 8 - (bitOff + bitSz)
  }

  predicate RelocsFor(o: Order, r: Relocs, bitOff: nat, bitSz: nat, signed: bool) {
    0 < bitSz && IsLoadSize(r.byteSz) && Contains(r.byteOff, r.byteSz, bitOff, bitSz) && r.signed == signed &&
    PositionOf(o, r, bitOff, bitSz) + bitSz + r.lshift == 64 && r.rshift == 64 - bitSz
  }

  lemma SubRun(x: seq<bool>, y: seq<bool>, z: seq<bool>, i: nat, n: nat)
    requires |x| <= i && i + n <= |x| + |y|
    ensures (x + (y + z))[i..i + n] == y[i - |x|..i - |x| + n]
  {
  }

  lemma RunLowFirst(o: Order, s: seq<bool>, i: nat, n: nat)
    requires i + n <= |s|
    ensures
      var pos := if o.Little? then i else |s| - (i + n);
      LowFirst(o, s)[pos..pos + n] == LowFirst(o, s[i..i + n])
  {
    hide Reverse;
  }

  lemma BitsOfWindow(o: Order, mem: seq<Byte>, a: nat, b: nat, i: nat, n: nat)
    requires a <= b <= |mem| && 8 * a <= i && i + n <= 8 * b
    ensures Bits(o, mem)[i..i + n] == Bits(o, mem[a..b])[i - 8 * a..i - 8 * a + n]
  {
    hide Bits;
    var x, y, z := mem[..a], mem[a..b], mem[b..];
    assert mem == x + (y + z);
    BitsConcat(o, x, y + z);
    BitsConcat(o, y, z);
    SubRun(Bits(o, x), Bits(o, y), Bits(o, z), i, n);
  }

  lemma SliceOfPrefix(w: seq<bool>, n: nat, i: nat, j: nat)
    requires i <= j <= n <= |w|
    ensures w[..n][i..j] == w[i..j]
  {
  }

  /** Copying the window into a zeroed 64-bit variable: to its first bytes on a little-endian
      machine, to its last ones on a big-endian one. */
  function ProbeBuffer(o: Order, window: seq<Byte>): (buf: seq<Byte>)
    requires |window| <= 8
    ensures |buf| == 8
  {
    var zeros := seq(8 - |window|, i requires 0 <= i < 8 - |window| => 0);
    if o.Little? then window + zeros else zeros + window
  }

  lemma BufferBits(o: Order, window: seq<Byte>)
    requires |window| <= 8
    ensures
      var w := LowFirst(o, Bits(o, ProbeBuffer(o, window)));
      w[..8 * |window|] == LowFirst(o, Bits(o, window))
  {
    hide Bits, ByteBits, Reverse;
    var buf := ProbeBuffer(o, window);
    var n := |window|;
    if o.Little? {
      assert buf == buf[..n] + buf[n..] && buf[..n] == window;
      BitsConcat(o, buf[..n], buf[n..]);
    } else {
      assert buf == buf[..8 - n] + buf[8 - n..] && buf[8 - n..] == window;
      BitsConcat(o, buf[..8 - n], buf[8 - n..]);
    }
  }

  lemma LoadBound(o: Order, bytes: seq<Byte>)
    requires |bytes| == 8
    ensures Load(o, bytes) < WORD64
  {
    LoadIsValue(o, bytes);
    ValueBound(LowFirst(o, Bits(o, bytes)));
    Word64IsPow2();
  }

  /** The two shifts at the end of both macros. */
  method Extract(word: nat, r: Relocs, ghost w: seq<bool>, ghost pos: nat, ghost n: nat) returns (val: nat)
    requires |w| == 64 && word == Value(w) < WORD64 && 0 < n && pos + n + r.lshift == 64 && r.rshift == 64 - n
    ensures val == Extended(r.signed, Value(w[pos..pos + n]), n)
  {
    hide Shl, Shr, Sar, Extended, Value;
    ShiftsIsolate(r.signed, w, pos, n);
    val := Shl(word, r.lshift);
    if r.signed {
      val := Sar(val, r.rshift);
    } else {
      val := Shr(val, r.rshift);
    }
  }

  /** The probing macro reads the field, widened to 64 bits, whichever window was relocated into it. */
  method ReadBitfieldProbed(o: Order, mem: seq<Byte>, r: Relocs, ghost bitOff: nat, ghost bitSz: nat) returns (val: nat)
    requires RelocsFor(o, r, bitOff, bitSz, r.signed) && r.byteOff + r.byteSz <= |mem|
    ensures val == Extended(r.signed, Field(o, mem, bitOff, bitSz), bitSz)
  {
    hide Bits, ByteBits, Reverse, ProbeBuffer, Load, Shl, Shr, Sar, Extended, Value;
    var buf := ProbeBuffer(o, mem[r.byteOff..r.byteOff + r.byteSz]);
    val := Load(o, buf);
    LoadBound(o, buf);
    LoadIsValue(o, buf);
    BufferBits(o, mem[r.byteOff..r.byteOff + r.byteSz]);
    BitsOfWindow(o, mem, r.byteOff, r.byteOff + r.byteSz, bitOff, bitSz);
    RunLowFirst(o, Bits(o, mem[r.byteOff..r.byteOff + r.byteSz]), bitOff - 8 * r.byteOff, bitSz);
    ghost var w, pos := LowFirst(o, Bits(o, buf)), PositionOf(o, r, bitOff, bitSz);
    SliceOfPrefix(w, 8 * r.byteSz, pos, pos + bitSz);
    val := Extract(val, r, w, pos, bitSz);
  }

  /** On a big-endian machine: the bits that lie 8 - byteSz bytes further on. */
  function DirectResult(o: Order, mem: seq<Byte>, r: Relocs, bitOff: nat, bitSz: nat): int
    requires RelocsFor(o, r, bitOff, bitSz, r.signed) && r.byteOff + 8 <= |mem|
  {
    Extended(r.signed, Field(o, mem, bitOff + if o.Little? then 0 else 8 * (8 - r.byteSz), bitSz), bitSz)
  }

  method SwitchLoad(o: Order, mem: seq<Byte>, off: nat, sz: nat) returns (val: nat)
    requires IsLoadSize(sz) && off + 8 <= |mem|
    ensures val == Load(o, mem[off..off + 8])
  {
    val := 0;
    if sz == 1 { val := Load(o, mem[off..off + 1]); }
    if sz <= 2 { val := Load(o, mem[off..off + 2]); }
    if sz <= 4 { val := Load(o, mem[off..off + 4]); }
    if sz <= 8 { val := Load(o, mem[off..off + 8]); }
  }

  /** The direct macro has no breaks in its switch, so it always ends with an 8-byte load. */
  method ReadBitfieldDirect(o: Order, mem: seq<Byte>, r: Relocs, ghost bitOff: nat, ghost bitSz: nat) returns (val: nat)
    requires RelocsFor(o, r, bitOff, bitSz, r.signed) && r.byteOff + 8 <= |mem|
    ensures val == DirectResult(o, mem, r, bitOff, bitSz)
  {
    hide Bits, ByteBits, Reverse, Load, Shl, Shr, Sar, Extended, Value;
    val := SwitchLoad(o, mem, r.byteOff, r.byteSz);
    ghost var buf := mem[r.byteOff..r.byteOff + 8];
    ghost var past := if o.Little? then 0 else 8 * (8 - r.byteSz);
    ghost var whole := r.(byteSz := 8);
    LoadBound(o, buf);
    LoadIsValue(o, buf);
    BitsOfWindow(o, mem, r.byteOff, r.byteOff + 8, bitOff + past, bitSz);
    RunLowFirst(o, Bits(o, buf), bitOff + past - 8 * r.byteOff, bitSz);
    val := Extract(val, r, LowFirst(o, Bits(o, buf)), PositionOf(o, whole, bitOff + past, bitSz), bitSz);
  }

  function Filled(n: nat, b: Byte): (s: seq<Byte>)
    ensures |s| == n
  {
    if n == 0 then [] else [b] + Filled(n - 1, b)
  }

  lemma {:induction false} ZeroDigits(n: nat)
    ensures Digits(0, n) == Repeat(false, n)
  {
    if n > 0 { ZeroDigits(n - 1); }
  }

  lemma {:induction false} OneDigits(n: nat)
    ensures Digits(Pow2(n) - 1, n) == Repeat(true, n)
  {
    if n > 0 {
      OneDigits(n - 1);
      HalfOfOnes(Pow2(n - 1));
      assert Pow2(n) == 2 * Pow2(n - 1);
    }
  }

  lemma {:induction false} BitsOfEqualBytes(n: nat, b: Byte)
    requires b == 0 || b == 255
    ensures Bits(Big, Filled(n, b)) == Repeat(b == 255, 8 * n)
  {
    hide Digits, Reverse, Repeat;
    if n > 0 {
      BitsOfEqualBytes(n - 1, b);
      ZeroDigits(8);
      OneDigits(8);
      assert Pow2(8) == 256;
      assert Filled(n, b)[1..] == Filled(n - 1, b);
    }
  }

  /** Runs of zeros followed by ones. */
  lemma RunsOfRepeats(k: nat, l: nat, i: nat, n: nat)
    requires i + n <= k + l
    ensures i + n <= k ==> Reverse((Repeat(false, k) + Repeat(true, l))[i..i + n]) == Repeat(false, n)
    ensures k <= i ==> Reverse((Repeat(false, k) + Repeat(true, l))[i..i + n]) == Repeat(true, n)
  {
    hide Reverse, Repeat;
  }

  lemma Telltale(r: Relocs, bitOff: nat, bitSz: nat) returns (mem: seq<Byte>)
    requires RelocsFor(Big, r, bitOff, bitSz, r.signed) && r.byteSz < 8
    ensures |mem| == r.byteOff + 8
    ensures Field(Big, mem, bitOff, bitSz) == 0 && Field(Big, mem, bitOff + 8 * (8 - r.byteSz), bitSz) == Pow2(bitSz) - 1
  {
    hide Bits, Reverse, Repeat, Value, Filled, Load;
    var k, l := r.byteOff + r.byteSz, 8 - r.byteSz;
    mem := Filled(k, 0) + Filled(l, 255);
    BitsOfEqualBytes(k, 0);
    BitsOfEqualBytes(l, 255);
    BitsConcat(Big, Filled(k, 0), Filled(l, 255));
    var bits := Bits(Big, mem);
    var past := bitOff + 8 * l;
    assert bits == Repeat(false, 8 * k) + Repeat(true, 8 * l);
    RunsOfRepeats(8 * k, 8 * l, bitOff, bitSz);
    RunsOfRepeats(8 * k, 8 * l, past, bitSz);
    RepeatValue(false, bitSz);
    RepeatValue(true, bitSz);
  }

  /** What the direct macro leaves is what the program wants, whatever the memory holds. */
  ghost predicate DirectReadRight(o: Order, r: Relocs, bitOff: nat, bitSz: nat)
    requires RelocsFor(o, r, bitOff, bitSz, r.signed)
  {
    forall mem: seq<Byte> :: |mem| >= r.byteOff + 8 ==> DirectResult(o, mem, r, bitOff, bitSz) == Extended(r.signed, Field(o, mem, bitOff, bitSz), bitSz)
  }

  lemma ExtremesDiffer(signed: bool, n: nat)
    requires 0 < n <= 64
    ensures Extended(signed, 0, n) == 0 && Extended(signed, Pow2(n) - 1, n) > 0
  {
    Pow2Monotone(n, 64);
    Word64IsPow2();
    assert Pow2(n) == 2 * Pow2(n - 1);
  }

  /** With a window below 8 bytes on a big-endian machine the direct macro reads a different field,
      and some memory content tells them apart. */
  lemma DirectReadRightExactly(o: Order, r: Relocs, bitOff: nat, bitSz: nat)
    requires RelocsFor(o, r, bitOff, bitSz, r.signed)
    ensures DirectReadRight(o, r, bitOff, bitSz) <==> o.Little? || r.byteSz == 8
  {
    hide Extended, Field, Pow2;
    if o.Big? && r.byteSz < 8 {
      var mem := Telltale(r, bitOff, bitSz);
      ExtremesDiffer(r.signed, bitSz);
      assert DirectResult(o, mem, r, bitOff, bitSz) != Extended(r.signed, Field(o, mem, bitOff, bitSz), bitSz);
    }
  }
}
