/** The value of one field relocation. A program gets the offset, size and shifts of a field by
    separate relocations; together they describe one load. */
module CoreField {
  import opened Errors
  import opened Options
  import opened Words
  import opened BtfGraph
  import opened CoreSpec
  import opened CoreMatch
  import opened CoreBitfield

  datatype FieldInfo = ByteOffset | ByteSize | Exists | IsSigned | LShiftU64 | RShiftU64

  /** A patched value and whether the value found in the program must be the expected one. */
  datatype FieldRelo = Value(val: nat, validate: bool) | Refused(err: int)

  /** What is accessed: element of an array, bit-field, or other member. `size` is what the size of
      the type resolves to, negative for an error. */
  datatype Access =
    | Element(size: int)
    | BitField(bitSz: nat, typeSz: nat, signed: bool)
    | Plain(size: int, signed: bool)

  predicate ValidAccess(a: Access) {
    match a
    case Element(size) => size < WORD32
    case BitField(bitSz, typeSz, _) => 0 < bitSz < 256 && IsLoadSize(typeSz)
    case Plain(size, _) => size < WORD32
  }

  /** The load that the relocations of a field describe. */
  ghost predicate IsLoad(o: Order, a: Access, bitOff: nat, r: Relocs) {
    match a
    case BitField(bitSz, typeSz, signed) =>
      RelocsFor(o, r, bitOff, bitSz, signed) && IsLoadSize(r.byteSz) && r.byteSz >= typeSz &&
      r.byteOff == AlignDown(bitOff / 8, r.byteSz) && NoneFits(bitOff, bitSz, typeSz, r.byteSz)
    case Plain(size, signed) =>
      r.byteOff == bitOff / 8 && r.byteSz == size && r.signed == signed &&
      (IsLoadSize(r.byteSz) && bitOff % 8 == 0 ==> RelocsFor(o, r, bitOff, 8 * r.byteSz, signed))
    case Element(size) => r.byteOff == bitOff / 8 && (size >= 0 ==> r.byteSz == size)
  }

  function Part(info: FieldInfo, r: Relocs): nat {
    match info
    case ByteOffset => r.byteOff
    case ByteSize => r.byteSz
    case IsSigned => if r.signed then 1 else 0
    case LShiftU64 => r.lshift
    case RShiftU64 => r.rshift
    case Exists => 0
  }

  /** Which relocations an access admits at all. */
  predicate Applies(info: FieldInfo, a: Access) {
    match a
    case Element(size) => info.ByteOffset? || (info.ByteSize? && size >= 0)
    case BitField(_, _, _) => !info.Exists?
    case Plain(size, _) => !info.Exists? && size >= 0
  }

  /** Two loads that describe one bit-field are the same load: the smallest window is unique. */
  lemma OneLoad(o: Order, a: Access, bitOff: nat, r: Relocs, s: Relocs)
    requires a.BitField? && ValidAccess(a) && IsLoad(o, a, bitOff, r) && IsLoad(o, a, bitOff, s)
    ensures r == s
  {
    hide AlignDown;
    assert FitsAligned(bitOff, a.bitSz, r.byteSz) && FitsAligned(bitOff, a.bitSz, s.byteSz);
  }

  /** Every relocation that succeeds gives its part of one and the same load. */
  method AccessRelo(o: Order, info: FieldInfo, a: Access, bitOff: nat) returns (v: FieldRelo, ghost r: Relocs)
    requires bitOff < WORD32 && ValidAccess(a)
    ensures v.Value? <==> Applies(info, a) && (a.BitField? ==> FitsAligned(bitOff, a.bitSz, 8))
    ensures v.Value? ==> IsLoad(o, a, bitOff, r) && v.val == Part(info, r)
    ensures v.Value? ==> (v.validate <==> !a.BitField? || info.IsSigned? || info.RShiftU64?)
    ensures v.Refused? ==> v.err == if a.BitField? && !FitsAligned(bitOff, a.bitSz, 8) then E2BIG else EINVAL
  {
    hide RelocsFor, FitsAligned, NoneFits, U32;
    r := Relocs(bitOff / 8, 0, 0, 0, false);
    match a
    case Element(size) =>
      r := r.(byteSz := if size < 0 then 0 else size);
      if info.ByteOffset? { return Value(bitOff / 8, true), r; }
      if info.ByteSize? {
        if size < 0 { return Refused(EINVAL), r; }
        return Value(size, true), r;
      }
      return Refused(EINVAL), r;
    case BitField(bitSz, typeSz, signed) =>
      var w := LoadWindow(bitOff, bitSz, typeSz);
      if w.TooBig? { return Refused(E2BIG), r; }
      var relocs := CalcRelocs(o, bitOff, bitSz, w, signed);
      r := relocs;
      if info.Exists? { return Refused(EINVAL), r; }
      return Value(Part(info, relocs), info.IsSigned? || info.RShiftU64?), r;
    case Plain(size, signed) =>
      if size < 0 { return Refused(EINVAL), r; }
      var relocs := PlainRelocs(o, bitOff, size, signed);
      r := relocs;
      if info.Exists? { return Refused(EINVAL), r; }
      return Value(Part(info, relocs), true), r;
  }

  /** A member that is no bit-field is treated as one that fills its own bytes; for integers at whole
      bytes that gives the right load. */
  method PlainRelocs(o: Order, bitOff: nat, size: nat, signed: bool) returns (r: Relocs)
    requires bitOff < WORD32 && size < WORD32
    ensures r.byteOff == bitOff / 8 && r.byteSz == size && r.signed == signed
    ensures IsLoadSize(size) && bitOff % 8 == 0 ==> RelocsFor(o, r, bitOff, 8 * size, signed)
  {
    hide U32;
    var byteOff: nat, bitSz: int := bitOff / 8, U32(size * 8);
    var l;
    if o.Little? {
      l := U32(64 - U32(U32(bitOff + bitSz) - U32(byteOff * 8)));
    } else {
      l := U32((8 - size) * 8 + U32(U32(bitOff) - U32(byteOff * 8)));
    }
    if IsLoadSize(size) && bitOff % 8 == 0 {
      U32Small(size * 8);
      WrappedDifference(bitOff + bitSz, byteOff * 8);
      WrappedDifference(bitOff, byteOff * 8);
      U32Small(64 - 8 * size);
      U32Small((8 - size) * 8);
    }
    r := Relocs(byteOff, size, l, U32(64 - bitSz), signed);
  }

  // ---- What the last accessor of a path accesses

  /** Whether a field of this type is taken to be signed. The word behind the record holds the encoding
      of an integer; for other kinds it is whatever follows in memory. */
  function TakenSigned(t: BtfType, following: nat): bool {
    KindOf(t) == Enum || (if t.body.IntBody? then t.body.encoding else following) / 0x100_0000 % 2 == 1
  }

  ghost function AccessOf(b: Btf, a: Accessor, following: nat -> nat): Access
    requires Valid(b) && NamesMember(b, a)
  {
    if a.name.None? then Element(b.sizeOf(a.typeId))
    else
      MemberTypeInRange(b, a.typeId, a.idx);
      var m := b.types[a.typeId].body.ms[a.idx];
      var mt := Bare(b, m.typ);
      var bits := BitfieldSize(b.types[a.typeId], a.idx);
      var signed := TakenSigned(b.types[mt], following(mt));
      if bits > 0 then BitField(bits, b.types[mt].word, signed) else Plain(b.sizeOf(m.typ), signed)
  }

  /** A relocation of the field that a path leads to. A bit-field is of a type of 1, 2, 4 or 8 bytes. */
  method CalcFieldRelo(o: Order, info: FieldInfo, b: Btf, accs: seq<Accessor>, bitOff: nat, following: nat -> nat)
    returns (v: FieldRelo, ghost r: Relocs)
    requires Valid(b) && IsPath(b, accs) && bitOff < WORD32 && ValidAccess(AccessOf(b, accs[|accs| - 1], following))
    ensures var a := AccessOf(b, accs[|accs| - 1], following);
      v.Value? <==> Applies(info, a) && (a.BitField? ==> FitsAligned(bitOff, a.bitSz, 8))
    ensures var a := AccessOf(b, accs[|accs| - 1], following);
      v.Value? ==> IsLoad(o, a, bitOff, r) && v.val == Part(info, r)
    ensures var a := AccessOf(b, accs[|accs| - 1], following);
      v.Value? ==> (v.validate <==> !a.BitField? || info.IsSigned? || info.RShiftU64?)
    ensures var a := AccessOf(b, accs[|accs| - 1], following);
      v.Refused? ==> v.err == if a.BitField? && !FitsAligned(bitOff, a.bitSz, 8) then E2BIG else EINVAL
  {
    hide Bare, IsLoad, FitsAligned;
    var acc := accs[|accs| - 1];
    if acc.name.None? {
      v, r := AccessRelo(o, info, Element(b.sizeOf(acc.typeId)), bitOff);
      return;
    }
    MemberTypeInRange(b, acc.typeId, acc.idx);
    var m := b.types[acc.typeId].body.ms[acc.idx];
    var mt := SkipModsAndTypedefs(b, m.typ);
    var bits := BitfieldSize(b.types[acc.typeId], acc.idx);
    var signed := TakenSigned(b.types[mt], following(mt));
    var a := if bits > 0 then BitField(bits, b.types[mt].word, signed) else Plain(b.sizeOf(m.typ), signed);
    v, r := AccessRelo(o, info, a, bitOff);
  }

  /** The word behind an integer holds four bits of encoding, an offset and a width; the lowest bit of
      the encoding is the sign. */
  lemma EncodedSign(t: BtfType, following: nat, flags: nat, offset: nat, width: nat)
    requires KindOf(t) == Int && t.body.IntBody? && flags < 16 && offset < 256 && width < 0x1_0000
    requires t.body.encoding == flags * 0x100_0000 + offset * 0x1_0000 + width
    ensures TakenSigned(t, following) <==> flags % 2 == 1
  {
    assert t.body.encoding / 0x100_0000 == flags;
  }

  /** An access that the macros are made for: a bit-field, or an integer at a whole byte. */
  predicate Readable(a: Access, bitOff: nat) {
    a.BitField? || (a.Plain? && a.size > 0 && IsLoadSize(a.size) && bitOff % 8 == 0)
  }

  function WidthOf(a: Access): nat
    requires a.BitField? || (a.Plain? && a.size >= 0)
  {
    if a.BitField? then a.bitSz else 8 * a.size
  }

  lemma ReadableLoad(o: Order, a: Access, bitOff: nat, r: Relocs, s: Relocs)
    requires ValidAccess(a) && Readable(a, bitOff) && IsLoad(o, a, bitOff, r) && IsLoad(o, a, bitOff, s)
    ensures r == s && RelocsFor(o, r, bitOff, WidthOf(a), a.signed) && r.byteOff + r.byteSz <= bitOff / 8 + 8
  {
    hide AlignDown, FitsAligned, NoneFits;
    if a.BitField? {
      OneLoad(o, a, bitOff, r, s);
      AlignDownIs(bitOff / 8, r.byteSz);
    }
  }

  /** A program that reads a field through five separately relocated values gets the field. */
  method ReadField(o: Order, b: Btf, accs: seq<Accessor>, bitOff: nat, following: nat -> nat, mem: seq<Byte>)
    returns (val: Option<nat>)
    requires Valid(b) && IsPath(b, accs) && bitOff < WORD32 && ValidAccess(AccessOf(b, accs[|accs| - 1], following))
    requires Readable(AccessOf(b, accs[|accs| - 1], following), bitOff) && bitOff / 8 + 8 <= |mem|
    ensures var a := AccessOf(b, accs[|accs| - 1], following);
      val.Some? <==> (a.BitField? ==> FitsAligned(bitOff, a.bitSz, 8))
    ensures var a := AccessOf(b, accs[|accs| - 1], following);
      val.Some? ==>
        bitOff + WidthOf(a) <= 8 * |mem| &&
        val.value == Extended(a.signed, Field(o, mem, bitOff, WidthOf(a)), WidthOf(a))
  {
    hide IsLoad, Extended, Field, FitsAligned;
    ghost var a := AccessOf(b, accs[|accs| - 1], following);
    var off, r := CalcFieldRelo(o, ByteOffset, b, accs, bitOff, following);
    var size, r1 := CalcFieldRelo(o, ByteSize, b, accs, bitOff, following);
    var sign, r2 := CalcFieldRelo(o, IsSigned, b, accs, bitOff, following);
    var left, r3 := CalcFieldRelo(o, LShiftU64, b, accs, bitOff, following);
    var right, r4 := CalcFieldRelo(o, RShiftU64, b, accs, bitOff, following);
    if off.Refused? || size.Refused? || sign.Refused? || left.Refused? || right.Refused? { return None; }
    ReadableLoad(o, a, bitOff, r, r1);
    ReadableLoad(o, a, bitOff, r, r2);
    ReadableLoad(o, a, bitOff, r, r3);
    ReadableLoad(o, a, bitOff, r, r4);
    var relocs := Relocs(off.val, size.val, left.val, right.val, sign.val == 1);
    var read := ReadBitfieldProbed(o, mem, relocs, bitOff, WidthOf(a));
    return Some(read);
  }

  /** The load of an enum is a signed one, whatever follows it. */
  lemma EnumsAreSigned(o: Order, b: Btf, acc: Accessor, following: nat -> nat, bitOff: nat, r: Relocs)
    requires Valid(b) && NamesMember(b, acc) && acc.name.Some? && ValidAccess(AccessOf(b, acc, following))
    requires IsLoad(o, AccessOf(b, acc, following), bitOff, r)
    requires (MemberTypeInRange(b, acc.typeId, acc.idx); KindOf(b.types[Bare(b, b.types[acc.typeId].body.ms[acc.idx].typ)]) == Enum)
    ensures r.signed && Part(IsSigned, r) == 1
  {
    hide Bare, AlignDown, FitsAligned, NoneFits;
  }
}
