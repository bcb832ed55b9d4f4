/** Linking a program with the functions in .text: the text is appended once, calls are redirected
    to the copy, and function and line information follows. */
module Linking {
  import opened Errors
  import opened Words

  datatype Insn = Insn(code: nat, dst: nat, src: nat, off: int, imm: int)

  const PSEUDO_MAP_FD: nat := 1
  const PSEUDO_MAP_VALUE: nat := 2

  const INSN_SIZE: nat := 8

  datatype RelocKind = Ld64 | Call | Data

  datatype Reloc = Reloc(kind: RelocKind, insnIdx: nat, mapFd: int, symOff: nat)

  /** A signed 32-bit field. */
  function Int32(x: int): (r: int)
    ensures -0x8000_0000 <= x < 0x8000_0000 ==> r == x
  {
    if U32(x) < 0x8000_0000 then U32(x) else U32(x) - WORD32
  }

  // ---- Function and line information

  datatype Info = Info(insnOff: nat, data: nat)

  /** The records of one section of the program, offsets in bytes. */
  datatype InfoSec = InfoSec(name: string, infos: seq<Info>)

  /** The records of the first section of that name. */
  function InfosOf(secs: seq<InfoSec>, name: string): (r: seq<Info>) {
    if secs == [] then [] else if secs[0].name == name then secs[0].infos else InfosOf(secs[1..], name)
  }

  predicate HasSec(secs: seq<InfoSec>, name: string) {
    exists k :: 0 <= k < |secs| && secs[k].name == name
  }

  /** Every section has records. */
  predicate NonemptySecs(secs: seq<InfoSec>) {
    forall k :: 0 <= k < |secs| ==> secs[k].infos != []
  }

  function Shifted(s: seq<Info>, shift: nat): (r: seq<Info>)
    ensures |r| == |s| && forall k :: 0 <= k < |s| ==> r[k] == Info(U32(s[k].insnOff / INSN_SIZE + shift), s[k].data)
  {
    seq(|s|, k requires 0 <= k < |s| => Info(U32(s[k].insnOff / INSN_SIZE + shift), s[k].data))
  }

  lemma {:induction false} InfosOfAt(secs: seq<InfoSec>, name: string, k: nat)
    requires k < |secs| && forall j :: 0 <= j < k ==> secs[j].name != name
    ensures secs[k].name == name ==> InfosOf(secs, name) == secs[k].infos
  {
    if k > 0 { InfosOfAt(secs[1..], name, k - 1); }
  }

  method AppendInfos(infos: seq<Info>, insnsCnt: nat, info: seq<Info>) returns (r: seq<Info>)
    ensures r == info + Shifted(infos, insnsCnt)
  {
    r := info + infos;
    var i := 0;
    while i < |infos|
      invariant i <= |infos| && |r| == |info| + |infos| && r[..|info|] == info
      invariant forall j :: 0 <= j < i ==> r[|info| + j] == Info(U32(infos[j].insnOff / INSN_SIZE + insnsCnt), infos[j].data)
      invariant forall j :: i <= j < |infos| ==> r[|info| + j] == infos[j]
    {
      var x := |info| + i;
      r := r[x := Info(U32(r[x].insnOff / INSN_SIZE + insnsCnt), r[x].data)];
      i := i + 1;
    }
  }

  /** Appends the records of a section, with offsets in instructions from the start of the program. */
  method RelocInfo(secs: seq<InfoSec>, name: string, insnsCnt: nat, info: seq<Info>) returns (err: int, r: seq<Info>)
    ensures err == ENOENT <==> !HasSec(secs, name)
    ensures err == 0 ==> r == info + Shifted(InfosOf(secs, name), insnsCnt)
    ensures err != 0 ==> r == info
    ensures err == 0 || err == ENOENT || err == ENOMEM
  {
    var k := 0;
    r := info;
    while k < |secs|
      invariant k <= |secs| && r == info && forall j :: 0 <= j < k ==> secs[j].name != name
    {
      if secs[k].name != name {
        k := k + 1;
        continue;
      }
      InfosOfAt(secs, name, k);
      var oom: bool := *;
      if oom { return ENOMEM, r; }
      r := AppendInfos(secs[k].infos, insnsCnt, info);
      return 0, r;
    }
    return ENOENT, r;
  }

  datatype Ext = NoExt | Ext(funcs: seq<InfoSec>, lines: seq<InfoSec>)

  // ---- Instructions

  /** The instructions a relocation may write to. */
  function Touches(r: Reloc): set<nat> {
    if r.kind.Data? then {r.insnIdx, r.insnIdx + 1} else {r.insnIdx}
  }

  /** All relocations are inside the program as it was, and none meets another. */
  ghost predicate Apart(relocs: seq<Reloc>, n: nat) {
    (forall k, j :: 0 <= k < |relocs| && j in Touches(relocs[k]) ==> j < n) &&
    (forall k, l :: 0 <= k < l < |relocs| ==> Touches(relocs[k]) !! Touches(relocs[l]))
  }

  /** The instruction that a call instruction at i goes to. */
  function CallTarget(i: nat, insn: Insn): int {
    i + insn.imm + 1
  }

  /** The .text instruction that a call names before linking: its symbol and an offset from it. */
  function Named(r: Reloc, insn: Insn): int {
    r.symOff / INSN_SIZE + insn.imm + 1
  }

  /** What has become of the instructions that relocation r touches. */
  ghost predicate Done(p0: seq<Insn>, p: seq<Insn>, r: Reloc, textAt: nat)
    requires |p0| <= |p| && forall j :: j in Touches(r) ==> j < |p0|
  {
    var i := r.insnIdx;
    assert i in Touches(r);
    assert r.kind.Data? ==> i + 1 in Touches(r);
    match r.kind
    case Call => p[i] == p0[i].(imm := Int32(p0[i].imm + r.symOff / INSN_SIZE + textAt - i))
    case Ld64 => p[i] == p0[i].(src := PSEUDO_MAP_FD, imm := r.mapFd)
    case Data => p[i] == p0[i].(src := PSEUDO_MAP_VALUE, imm := r.mapFd) && p[i + 1] == p0[i + 1].(imm := Int32(p0[i].imm + r.symOff))
  }

  ghost predicate LoadDone(p: seq<Insn>, q: seq<Insn>, r: Reloc)
    requires r.insnIdx + 1 < |p| <= |q| && !r.kind.Call?
  {
    Done(p, q, r, 0)
  }

  predicate HasCall(relocs: seq<Reloc>, n: nat)
    requires n <= |relocs|
  {
    exists k :: 0 <= k < n && relocs[k].kind.Call?
  }

  /** The first n relocations are done, and nothing else has changed in the program itself. */
  ghost predicate Patched(p0: seq<Insn>, relocs: seq<Reloc>, n: nat, p: seq<Insn>)
    requires n <= |relocs| && Apart(relocs, |p0|) && |p0| <= |p|
  {
    (forall k :: 0 <= k < n ==> Done(p0, p, relocs[k], |p0|)) &&
    (forall j :: 0 <= j < |p0| && (forall k :: 0 <= k < n ==> j !in Touches(relocs[k])) ==> p[j] == p0[j])
  }

  /** The program after the first n relocations. */
  ghost predicate Linked(p0: seq<Insn>, text: seq<Insn>, relocs: seq<Reloc>, n: nat, p: seq<Insn>, mainCnt: nat)
    requires n <= |relocs| && Apart(relocs, |p0|)
  {
    |p| == |p0| + (if HasCall(relocs, n) then |text| else 0) &&
    mainCnt == (if HasCall(relocs, n) then |p0| else 0) &&
    p[|p0|..] == (if HasCall(relocs, n) then text else []) &&
    Patched(p0, relocs, n, p)
  }

  /** A linked call goes to the copy of the instruction it named. */
  lemma CallsLandOnCopies(p0: seq<Insn>, text: seq<Insn>, relocs: seq<Reloc>, p: seq<Insn>, mainCnt: nat, k: nat)
    requires Apart(relocs, |p0|) && Linked(p0, text, relocs, |relocs|, p, mainCnt) && |p| < 0x8000_0000
    requires k < |relocs| && relocs[k].kind.Call?
    requires relocs[k].insnIdx < |p0|
    requires 0 <= Named(relocs[k], p0[relocs[k].insnIdx]) < |text|
    ensures
      var i, named := relocs[k].insnIdx, Named(relocs[k], p0[relocs[k].insnIdx]);
      CallTarget(i, p[i]) == |p0| + named < |p| && p[CallTarget(i, p[i])] == text[named]
  {
    assert HasCall(relocs, |relocs|);
    assert Done(p0, p, relocs[k], |p0|);
    assert p[|p0|..] == text;
  }

  /** A linked load names its map: source register field 1 and the map's descriptor. For data the field is
      2, and the second half holds the offset of the symbol plus what the first half held before. */
  lemma LoadsNameMaps(p0: seq<Insn>, text: seq<Insn>, relocs: seq<Reloc>, p: seq<Insn>, mainCnt: nat, k: nat)
    requires Apart(relocs, |p0|) && Linked(p0, text, relocs, |relocs|, p, mainCnt)
    requires k < |relocs| && !relocs[k].kind.Call?
    ensures relocs[k].insnIdx < |p0| <= |p| && (relocs[k].kind.Data? ==> relocs[k].insnIdx + 1 < |p0|)
    ensures
      var i, r := relocs[k].insnIdx, relocs[k];
      p[i] == Insn(p0[i].code, p0[i].dst, if r.kind.Data? then 2 else 1, p0[i].off, r.mapFd)
    ensures relocs[k].kind.Data? ==>
      var i, r := relocs[k].insnIdx, relocs[k];
      var address := p0[i].imm + r.symOff;
      p[i + 1] == p0[i + 1].(imm := p[i + 1].imm) && (p[i + 1].imm - address) % 0x1_0000_0000 == 0 &&
      (-0x8000_0000 <= address < 0x8000_0000 ==> p[i + 1].imm == address)
  {
    hide Int32;
    DoneAt(p0, text, relocs, p, mainCnt, k);
    Int32Wraps(p0[relocs[k].insnIdx].imm + relocs[k].symOff);
  }

  lemma DoneAt(p0: seq<Insn>, text: seq<Insn>, relocs: seq<Reloc>, p: seq<Insn>, mainCnt: nat, k: nat)
    requires Apart(relocs, |p0|) && Linked(p0, text, relocs, |relocs|, p, mainCnt) && k < |relocs|
    ensures relocs[k].insnIdx < |p0| <= |p| && (relocs[k].kind.Data? ==> relocs[k].insnIdx + 1 < |p0|)
    ensures Done(p0, p, relocs[k], |p0|)
  {
    hide Done;
    assert relocs[k].insnIdx in Touches(relocs[k]);
    if relocs[k].kind.Data? { assert relocs[k].insnIdx + 1 in Touches(relocs[k]); }
  }

  lemma Int32Wraps(x: int)
    ensures (Int32(x) - x) % WORD32 == 0
  {
    assert x == x / WORD32 * WORD32 + U32(x);
  }

  /** Operation codes are never changed. */
  lemma CodesStay(p0: seq<Insn>, text: seq<Insn>, relocs: seq<Reloc>, n: nat, p: seq<Insn>, mainCnt: nat, j: nat)
    requires n <= |relocs| && Apart(relocs, |p0|) && Linked(p0, text, relocs, n, p, mainCnt) && j < |p0|
    ensures p[j].code == p0[j].code && p[j].dst == p0[j].dst && p[j].off == p0[j].off
  {
    if exists k :: 0 <= k < n && j in Touches(relocs[k]) {
      var k :| 0 <= k < n && j in Touches(relocs[k]);
      assert Done(p0, p, relocs[k], |p0|);
    }
  }

  /** After the text has been appended. */
  ghost predicate Appended(p0: seq<Insn>, text: seq<Insn>, relocs: seq<Reloc>, n: nat, p: seq<Insn>)
    requires n <= |relocs| && Apart(relocs, |p0|)
  {
    |p| == |p0| + |text| && p[|p0|..] == text &&
    Patched(p0, relocs, n, p)
  }

  lemma AppendText(p0: seq<Insn>, text: seq<Insn>, relocs: seq<Reloc>, n: nat, p: seq<Insn>, mainCnt: nat)
    requires n < |relocs| && Apart(relocs, |p0|) && Linked(p0, text, relocs, n, p, mainCnt)
    ensures HasCall(relocs, n) ==> Appended(p0, text, relocs, n, p) && mainCnt == |p0|
    ensures !HasCall(relocs, n) ==> mainCnt == 0 && |p| == |p0| && Appended(p0, text, relocs, n, p + text)
  {
    if !HasCall(relocs, n) {
      assert p == p[..|p0|];
      forall k | 0 <= k < n ensures Done(p0, p + text, relocs[k], |p0|) { assert Done(p0, p, relocs[k], |p0|); }
    }
  }

  lemma PatchedMore(p0: seq<Insn>, relocs: seq<Reloc>, n: nat, p: seq<Insn>, q: seq<Insn>)
    requires n < |relocs| && Apart(relocs, |p0|) && |p0| <= |p| == |q| && Patched(p0, relocs, n, p)
    requires forall j :: 0 <= j < |p| && j !in Touches(relocs[n]) ==> q[j] == p[j]
    requires Done(p, q, relocs[n], |p0|)
    ensures Patched(p0, relocs, n + 1, q)
  {
    hide Int32;
    var r := relocs[n];
    forall k | 0 <= k < n ensures Done(p0, q, relocs[k], |p0|) { OthersDone(p0, p, q, relocs, k, n, |p0|); }
    forall j | j in Touches(r) ensures j < |p0| && p[j] == p0[j] {
      forall k | 0 <= k < n ensures j !in Touches(relocs[k]) { assert Touches(relocs[k]) !! Touches(r); }
    }
    assert r.insnIdx in Touches(r) && (r.kind.Data? ==> r.insnIdx + 1 in Touches(r));
  }

  lemma PatchCall(p0: seq<Insn>, text: seq<Insn>, relocs: seq<Reloc>, n: nat, p: seq<Insn>)
    requires n < |relocs| && Apart(relocs, |p0|) && Appended(p0, text, relocs, n, p) && relocs[n].kind.Call?
    ensures relocs[n].insnIdx < |p0| <= |p|
    ensures
      var i := relocs[n].insnIdx;
      var q := p[i := p[i].(imm := Int32(p[i].imm + relocs[n].symOff / INSN_SIZE + |p0| - i))];
      Linked(p0, text, relocs, n + 1, q, |p0|)
  {
    hide Int32, Patched;
    var r := relocs[n];
    var i := r.insnIdx;
    assert i in Touches(r);
    var q := p[i := p[i].(imm := Int32(p[i].imm + r.symOff / INSN_SIZE + |p0| - i))];
    PatchedMore(p0, relocs, n, p, q);
    assert HasCall(relocs, n + 1);
    assert q[|p0|..] == text;
  }

  /** A step leaves alone what other relocations touch. */
  lemma OthersDone(p0: seq<Insn>, p: seq<Insn>, q: seq<Insn>, relocs: seq<Reloc>, k: nat, n: nat, textAt: nat)
    requires k < n < |relocs| && |p0| <= |p| == |q| && Apart(relocs, |p0|) && Done(p0, p, relocs[k], textAt)
    requires forall j :: 0 <= j < |p| && j !in Touches(relocs[n]) ==> q[j] == p[j]
    ensures Done(p0, q, relocs[k], textAt)
  {
    hide Int32;
    assert Touches(relocs[k]) !! Touches(relocs[n]);
    var i := relocs[k].insnIdx;
    assert i in Touches(relocs[k]);
    if relocs[k].kind.Data? { assert i + 1 in Touches(relocs[k]); }
  }

  lemma PatchLoad(p0: seq<Insn>, text: seq<Insn>, relocs: seq<Reloc>, n: nat, p: seq<Insn>, mainCnt: nat, q: seq<Insn>)
    requires n < |relocs| && Apart(relocs, |p0|) && Linked(p0, text, relocs, n, p, mainCnt) && !relocs[n].kind.Call?
    requires |q| == |p| && forall j :: 0 <= j < |p| && j !in Touches(relocs[n]) ==> q[j] == p[j]
    requires relocs[n].insnIdx + 1 < |p| && LoadDone(p, q, relocs[n])
    ensures Linked(p0, text, relocs, n + 1, q, mainCnt)
  {
    hide Patched;
    PatchedMore(p0, relocs, n, p, q);
    NoNewCall(relocs, n);
    assert q[|p0|..] == p[|p0|..];
  }

  // ---- Programs

  /** The information of the main section and, if the text was appended and there is something to
      append to, that of the text, moved to where the text begins. */
  function WithText(secs: seq<InfoSec>, main: string, textName: string, textAt: nat, appended: bool): seq<Info> {
    Shifted(InfosOf(secs, main), 0) +
    if appended && InfosOf(secs, main) != [] then Shifted(InfosOf(secs, textName), textAt) else []
  }

  /** Lines are looked for only where functions are found. */
  ghost predicate InfosLinked(ext: Ext, main: string, textName: string, textAt: nat, appended: bool, funcs: seq<Info>, lines: seq<Info>) {
    if ext.NoExt? then funcs == [] && lines == []
    else
      funcs == WithText(ext.funcs, main, textName, textAt, appended) &&
      lines == if HasSec(ext.funcs, main) then WithText(ext.lines, main, textName, textAt, appended) else []
  }

  lemma {:induction false} MissingSec(secs: seq<InfoSec>, name: string)
    ensures !HasSec(secs, name) ==> InfosOf(secs, name) == []
    ensures HasSec(secs, name) && NonemptySecs(secs) ==> InfosOf(secs, name) != []
  {
    if secs != [] {
      MissingSec(secs[1..], name);
      if HasSec(secs, name) && secs[0].name != name {
        var k :| 0 <= k < |secs| && secs[k].name == name;
        assert secs[1..][k - 1].name == name;
      }
      if HasSec(secs[1..], name) {
        var k :| 0 <= k < |secs[1..]| && secs[1..][k].name == name;
        assert secs[k + 1].name == name;
      }
    }
  }

  class Program {
    const name: string
    const isText: bool
    var insns: seq<Insn>
    /** Where the text begins; 0 as long as it has not been appended. */
    var mainCnt: nat
    var funcInfo: seq<Info>
    var lineInfo: seq<Info>

    constructor (name: string, isText: bool, insns: seq<Insn>)
      ensures this.name == name && this.isText == isText && this.insns == insns
      ensures mainCnt == 0 && funcInfo == [] && lineInfo == []
    {
      this.name, this.isText, this.insns, mainCnt, funcInfo, lineInfo := name, isText, insns, 0, [], [];
    }

    /** A missing section is no error as long as nothing has been found. */
    method CheckErr(err: int, info: seq<Info>) returns (r: int)
      ensures r == if err == ENOENT && info == [] then 0 else err
    {
      if err != ENOENT { return err; }
      if info != [] { return err; }
      return 0;
    }

    method RelocExt(ext: Ext, secName: string, insnOffset: nat) returns (err: int)
      requires ext.Ext?
      modifies this`funcInfo, this`lineInfo
      ensures err == 0 || err == ENOMEM || err == ENOENT
      ensures err == ENOENT ==> (old(funcInfo) != [] && !HasSec(ext.funcs, secName)) || (old(lineInfo) != [] && !HasSec(ext.lines, secName))
      ensures err == 0 ==> Grown(ext.funcs, secName, insnOffset, true, old(funcInfo), funcInfo)
      ensures err == 0 ==> Grown(ext.lines, secName, insnOffset, !Searched(insnOffset, old(funcInfo)) || HasSec(ext.funcs, secName), old(lineInfo), lineInfo)
    {
      if insnOffset == 0 || funcInfo != [] {
        var e, info := RelocInfo(ext.funcs, secName, insnOffset, funcInfo);
        if e != 0 {
          err := CheckErr(e, funcInfo);
          return;
        }
        funcInfo := info;
      }
      if insnOffset == 0 || lineInfo != [] {
        var e, info := RelocInfo(ext.lines, secName, insnOffset, lineInfo);
        if e != 0 {
          err := CheckErr(e, lineInfo);
          return;
        }
        lineInfo := info;
      }
      return 0;
    }

    /** A map address: its file descriptor, and for data the offset in the second half. */
    method RelocLoad(relo: Reloc) returns (err: int)
      requires relo.insnIdx < |insns| && !relo.kind.Call?
      modifies this`insns
      ensures err == if relo.insnIdx + 1 >= |old(insns)| then ERELOC else 0
      ensures err == 0 ==> |insns| == |old(insns)| && forall j :: 0 <= j < |insns| && j !in Touches(relo) ==> insns[j] == old(insns)[j]
      ensures err == 0 ==> LoadDone(old(insns), insns, relo)
    {
      if relo.insnIdx + 1 >= |insns| { return ERELOC; }
      var k := relo.insnIdx;
      if !relo.kind.Data? {
        insns := insns[k := insns[k].(src := PSEUDO_MAP_FD)];
      } else {
        insns := insns[k := insns[k].(src := PSEUDO_MAP_VALUE)];
        insns := insns[k + 1 := insns[k + 1].(imm := Int32(insns[k].imm + relo.symOff))];
      }
      insns := insns[k := insns[k].(imm := relo.mapFd)];
      return 0;
    }

    method RelocText(relo: Reloc, textFound: bool, text: seq<Insn>, textName: string, ext: Ext) returns (err: int)
      requires relo.insnIdx < |insns|
      modifies this`insns, this`mainCnt, this`funcInfo, this`lineInfo
      ensures err == 0 ==> relo.kind.Call? && !isText
      ensures err == ERELOC <==> !relo.kind.Call? || isText || (old(mainCnt) == 0 && !textFound)
      ensures err == 0 || err == ENOMEM || err == ENOENT || err == ERELOC
      ensures err == ENOENT ==> old(mainCnt) == 0 && ext.Ext? && ((old(funcInfo) != [] && !HasSec(ext.funcs, textName)) || (old(lineInfo) != [] && !HasSec(ext.lines, textName)))
      ensures err == 0 && old(mainCnt) != 0 ==> mainCnt == old(mainCnt) && funcInfo == old(funcInfo) && lineInfo == old(lineInfo)
      ensures err == 0 && old(mainCnt) == 0 ==> textFound && mainCnt == |old(insns)|
      ensures err == 0 && old(mainCnt) == 0 && ext.NoExt? ==> funcInfo == old(funcInfo) && lineInfo == old(lineInfo)
      ensures err == 0 && old(mainCnt) == 0 && ext.Ext? ==>
        Grown(ext.funcs, textName, mainCnt, true, old(funcInfo), funcInfo) &&
        Grown(ext.lines, textName, mainCnt, !Searched(mainCnt, old(funcInfo)) || HasSec(ext.funcs, textName), old(lineInfo), lineInfo)
      ensures err == 0 ==>
        var p := if old(mainCnt) == 0 then old(insns) + text else old(insns);
        insns == p[relo.insnIdx := p[relo.insnIdx].(imm := Int32(p[relo.insnIdx].imm + relo.symOff / INSN_SIZE + mainCnt - relo.insnIdx))]
    {
      if !relo.kind.Call? { return ERELOC; }
      if isText { return ERELOC; }
      if mainCnt == 0 {
        if !textFound { return ERELOC; }
        var oom: bool := *;
        if oom { return ENOMEM; }
        if ext.Ext? {
          err := RelocExt(ext, textName, |insns|);
          if err != 0 { return err; }
        }
        mainCnt := |insns|;
        insns := insns + text;
      }
      var i := relo.insnIdx;
      insns := insns[i := insns[i].(imm := Int32(insns[i].imm + relo.symOff / INSN_SIZE + mainCnt - i))];
      return 0;
    }

    /** All relocations of a program. */
    method Relocate(relocs: seq<Reloc>, textFound: bool, text: seq<Insn>, textName: string, ext: Ext) returns (err: int)
      requires mainCnt == 0 && funcInfo == [] && lineInfo == [] && Apart(relocs, |insns|)
      requires ext.Ext? ==> NonemptySecs(ext.funcs) && NonemptySecs(ext.lines)
      modifies this`insns, this`mainCnt, this`funcInfo, this`lineInfo
      ensures err == 0 ==> Linked(old(insns), text, relocs, |relocs|, insns, mainCnt)
      ensures err == 0 ==> InfosLinked(ext, name, textName, |old(insns)|, HasCall(relocs, |relocs|), funcInfo, lineInfo)
      ensures err == 0 && HasCall(relocs, |relocs|) ==> textFound && !isText
      ensures Linkable(relocs, |old(insns)|, textFound && !isText) && TextDescribed(ext, name, textName) ==> err == 0 || err == ENOMEM
    {
      hide Linkable, TextDescribed;
      hide Linked, Apart, Appended, InfosLinked, Grown, HasSec, Done, HasCall, Touches;
      ghost var p0 := insns;
      if ext.Ext? {
        err := RelocExt(ext, name, 0);
        if err != 0 { return err; }
      }
      MainInfos(ext, name, textName, |p0|, funcInfo, lineInfo);
      NothingLinked(p0, text, relocs);
      var i := 0;
      while i < |relocs|
        invariant i <= |relocs| && Linked(p0, text, relocs, i, insns, mainCnt)
        invariant InfosLinked(ext, name, textName, |p0|, HasCall(relocs, i), funcInfo, lineInfo)
        invariant HasCall(relocs, i) ==> textFound && !isText
      {
        var relo := relocs[i];
        InRange(p0, text, relocs, i, insns, mainCnt);
        AppendText(p0, text, relocs, i, insns, mainCnt);
        ghost var p := insns;
        NextLinkable(relocs, |p0|, textFound && !isText, i);
        if relo.kind.Ld64? || relo.kind.Data? {
          err := RelocLoad(relo);
          if err != 0 { return err; }
          PatchLoad(p0, text, relocs, i, p, mainCnt, insns);
          NoNewCall(relocs, i);
        } else {
          ghost var cnt, f, l := mainCnt, funcInfo, lineInfo;
          if cnt == 0 && ext.Ext? { TextHasInfos(ext, name, textName, |p0|, f, l); }
          err := RelocText(relo, textFound, text, textName, ext);
          if err != 0 { return err; }
          PatchCall(p0, text, relocs, i, if cnt == 0 then p + text else p);
          NewCall(relocs, i);
          if cnt == 0 { TextInfos(ext, name, textName, |p0|, f, l, funcInfo, lineInfo); }
        }
        i := i + 1;
      }
      return 0;
    }
  }

  /** Whether information is looked for at all: for the main program, or if there is some already. */
  predicate Searched(insnOffset: nat, info: seq<Info>) {
    insnOffset == 0 || info != []
  }

  /** The information found under a name has been added, moved by an offset. */
  ghost predicate Grown(secs: seq<InfoSec>, secName: string, insnOffset: nat, reached: bool, before: seq<Info>, after: seq<Info>) {
    if !reached || !Searched(insnOffset, before) then after == before
    else if HasSec(secs, secName) then after == before + Shifted(InfosOf(secs, secName), insnOffset)
    else before == [] && after == []
  }

  lemma MainFound(secs: seq<InfoSec>, main: string, textName: string, textAt: nat, info: seq<Info>)
    requires Grown(secs, main, 0, true, [], info)
    ensures info == WithText(secs, main, textName, textAt, false)
  {
    MissingSec(secs, main);
    var s := Shifted(InfosOf(secs, main), 0);
    assert [] + s == s == s + [];
  }

  lemma MainInfos(ext: Ext, main: string, textName: string, textAt: nat, funcs: seq<Info>, lines: seq<Info>)
    requires ext.NoExt? ==> funcs == [] && lines == []
    requires ext.Ext? ==> Grown(ext.funcs, main, 0, true, [], funcs) && Grown(ext.lines, main, 0, HasSec(ext.funcs, main), [], lines)
    ensures InfosLinked(ext, main, textName, textAt, false, funcs, lines)
  {
    hide WithText, Shifted;
    if ext.Ext? {
      MainFound(ext.funcs, main, textName, textAt, funcs);
      if HasSec(ext.funcs, main) { MainFound(ext.lines, main, textName, textAt, lines); }
    }
  }

  lemma TextFound(secs: seq<InfoSec>, main: string, textName: string, textAt: nat, before: seq<Info>, after: seq<Info>)
    requires NonemptySecs(secs) && textAt > 0 && before == WithText(secs, main, textName, textAt, false)
    requires Grown(secs, textName, textAt, true, before, after)
    ensures after == WithText(secs, main, textName, textAt, true)
  {
    var s := Shifted(InfosOf(secs, main), 0);
    assert before == s;
    assert s + [] == s;
  }

  lemma TextInfos(ext: Ext, main: string, textName: string, textAt: nat, f: seq<Info>, l: seq<Info>, funcs: seq<Info>, lines: seq<Info>)
    requires InfosLinked(ext, main, textName, textAt, false, f, l) && textAt > 0
    requires ext.Ext? ==> NonemptySecs(ext.funcs) && NonemptySecs(ext.lines)
    requires ext.NoExt? ==> funcs == f && lines == l
    requires ext.Ext? ==> Grown(ext.funcs, textName, textAt, true, f, funcs) && Grown(ext.lines, textName, textAt, !Searched(textAt, f) || HasSec(ext.funcs, textName), l, lines)
    ensures InfosLinked(ext, main, textName, textAt, true, funcs, lines)
  {
    if ext.Ext? {
      TextFound(ext.funcs, main, textName, textAt, f, funcs);
      if HasSec(ext.funcs, main) { TextFound(ext.lines, main, textName, textAt, l, lines); }
    }
  }

  /** No relocation is out of place, and calls have a text to go to. */
  ghost predicate Linkable(relocs: seq<Reloc>, n: nat, hasText: bool) {
    forall k :: 0 <= k < |relocs| ==> if relocs[k].kind.Call? then hasText else relocs[k].insnIdx + 1 < n
  }

  /** If there is information about the program, there is about the text. */
  ghost predicate TextDescribed(ext: Ext, main: string, textName: string) {
    ext.Ext? ==>
      (HasSec(ext.funcs, main) ==> HasSec(ext.funcs, textName)) && (HasSec(ext.lines, main) ==> HasSec(ext.lines, textName))
  }

  lemma NextLinkable(relocs: seq<Reloc>, n: nat, hasText: bool, i: nat)
    requires i < |relocs|
    ensures Linkable(relocs, n, hasText) ==> if relocs[i].kind.Call? then hasText else relocs[i].insnIdx + 1 < n
  {
  }

  lemma TextHasInfos(ext: Ext, main: string, textName: string, textAt: nat, funcs: seq<Info>, lines: seq<Info>)
    requires ext.Ext? && InfosLinked(ext, main, textName, textAt, false, funcs, lines)
    ensures TextDescribed(ext, main, textName) ==> (funcs != [] ==> HasSec(ext.funcs, textName)) && (lines != [] ==> HasSec(ext.lines, textName))
  {
    MissingSec(ext.funcs, main);
    MissingSec(ext.lines, main);
  }

  lemma NothingLinked(p0: seq<Insn>, text: seq<Insn>, relocs: seq<Reloc>)
    requires Apart(relocs, |p0|)
    ensures Linked(p0, text, relocs, 0, p0, 0) && !HasCall(relocs, 0)
  {
  }

  lemma NewCall(relocs: seq<Reloc>, n: nat)
    requires n < |relocs| && relocs[n].kind.Call?
    ensures HasCall(relocs, n + 1)
  {
  }

  lemma NoNewCall(relocs: seq<Reloc>, n: nat)
    requires n < |relocs| && !relocs[n].kind.Call?
    ensures HasCall(relocs, n + 1) == HasCall(relocs, n)
  {
  }

  lemma InRange(p0: seq<Insn>, text: seq<Insn>, relocs: seq<Reloc>, n: nat, p: seq<Insn>, mainCnt: nat)
    requires n < |relocs| && Apart(relocs, |p0|) && Linked(p0, text, relocs, n, p, mainCnt)
    ensures relocs[n].insnIdx < |p0| <= |p|
    ensures relocs[n].kind.Data? ==> relocs[n].insnIdx + 1 < |p0|
  {
    assert relocs[n].insnIdx in Touches(relocs[n]);
    if relocs[n].kind.Data? { assert relocs[n].insnIdx + 1 in Touches(relocs[n]); }
  }
}
