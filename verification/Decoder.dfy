/** The byte-stream decoder: legacy prefixes, REX, REX2, VEX and EVEX heads,
    opcode lookup, ModRM/SIB, displacement and immediates. */
module Decoder {
  import opened Words
  import opened InstrTable

  type u2 = x: int | 0 <= x < 4
  type u3 = x: int | 0 <= x < 8
  type u5 = x: int | 0 <= x < 32

  /** The prefix-encoded fields of an instruction. */
  datatype Encoding = Encoding(
    rex: u8,
    hasVex: bool, vvvv: u5, vexL: u2, vexW: bool,
    hasEvex: bool, aaa: u3, z: bool, b: bool, rc: u2,
    hasRex2: bool, r4: bool, x4: bool, b4: bool)

  const PLAIN: Encoding := Encoding(0, false, 0, 0, false, false, 0, false, false, 0, false, false, false, false)

  datatype DecodedInstr = DecodedInstr(
    desc: InstrDesc,
    legacyPrefix: seq<u8>,
    enc: Encoding,
    modrm: u8,
    sib: u8,
    opcodeReg: u8,
    displacement: int,
    immediate: int,
    length: u8)

  /** A decoded instruction and the number of bytes it took. */
  datatype Decoded = Decoded(size: nat, instr: DecodedInstr)

  /** What the bytes up to and including the opcode say. `pp` is the mandatory
      prefix named by a VEX or EVEX prefix; `third` is 0xFF when there is no third
      opcode byte. */
  datatype Head = Head(enc: Encoding, opcode: u16, third: u8, pp: u8, next: nat)

  /** What follows the opcode. */
  datatype Tail = Tail(modrm: u8, sib: u8, disp: int, imm: int, next: nat)

  // ------------------------------------------------------------ small readers

  predicate IsLegacyPrefix(b: u8) {
    b in {0xF0, 0xF2, 0xF3, 0x2E, 0x36, 0x3E, 0x26, 0x64, 0x65, 0x66, 0x67}
  }

  function PrefixEnd(code: seq<u8>, pos: nat): (p: nat)
    requires pos <= |code|
    ensures pos <= p <= |code|
    ensures forall i :: pos <= i < p ==> IsLegacyPrefix(code[i])
    ensures p < |code| ==> !IsLegacyPrefix(code[p])
    decreases |code| - pos
  {
    if pos < |code| && IsLegacyPrefix(code[pos]) then PrefixEnd(code, pos + 1) else pos
  }

  function ModOf(modrm: u8): int { modrm / 64 }

  function RegOf(modrm: u8): int { modrm / 8 % 8 }

  function RmOf(modrm: u8): int { modrm % 8 }

  function ImmSize(sz: OpSize, has66: bool, rexW: bool): nat {
    match sz
    case Byte | ByteSignExt => 1
    case Word => 2
    case Dword => 4
    case Qword => 8
    case OpSz | OpSzDS => if has66 then 2 else 4
    case OpSzQ => if rexW then 8 else if has66 then 2 else 4
    case _ => 0
  }

  function DispSize(modrm: u8, sib: u8): nat {
    if ModOf(modrm) == 0 then
      if RmOf(modrm) == 5 || (RmOf(modrm) == 4 && sib % 8 == 5) then 4 else 0
    else if ModOf(modrm) == 1 then 1
    else if ModOf(modrm) == 2 then 4
    else 0
  }

  function PrefixOfPp(pp: int): u8 {
    if pp == 1 then 0x66 else if pp == 2 then 0xF3 else if pp == 3 then 0xF2 else 0
  }

  function ReadSigned(code: seq<u8>, pos: nat, n: nat): int
    requires pos + n <= |code|
  {
    Signed(FromLe(code[pos..pos + n]), n)
  }

  // ------------------------------------------------------------ head

  function TwoByte(b: u8): u16 {
    0x0F00 + b as int
  }

  /** Opcode byte `code[pos]` in opcode map `m`. */
  function MapOpcode(enc: Encoding, pp: u8, m: int, code: seq<u8>, pos: nat): Option<Head>
    requires pos < |code|
  {
    if m == 1 then Some(Head(enc, TwoByte(code[pos]), 0xFF, pp, pos + 1))
    else if m == 2 then Some(Head(enc, 0x0F38, code[pos], pp, pos + 1))
    else if m == 3 then Some(Head(enc, 0x0F3A, code[pos], pp, pos + 1))
    else None
  }

  function RexOf(r: bool, x: bool, b: bool, w: bool): u8 {
    0x40 + Flag(r, 4) + Flag(x, 2) + Flag(b, 1) + Flag(w, 8)
  }

  function EvexFields(p0: u8, p1: u8, p2: u8): Encoding {
    PLAIN.(
    rex := RexOf(!Bit(p0, 128), !Bit(p0, 64), !Bit(p0, 32), Bit(p1, 128)),
    hasVex := true,
    vvvv := 15 - p1 / 8 % 16 + Flag(!Bit(p2, 8), 16),
    vexL := p2 / 32 % 4,
    vexW := Bit(p1, 128),
    hasEvex := true,
    aaa := p2 % 8,
    z := Bit(p2, 128),
    b := Bit(p2, 16),
    rc := p2 / 32 % 4)
  }

  function Vex2Fields(b1: u8): Encoding {
    PLAIN.(
    rex := if Bit(b1, 128) then 0 else 0x44,
    hasVex := true,
    vvvv := 15 - b1 / 8 % 16,
    vexL := b1 / 4 % 2)
  }

  function Vex3Fields(b1: u8, b2: u8): Encoding {
    PLAIN.(
    rex := RexOf(!Bit(b1, 128), !Bit(b1, 64), !Bit(b1, 32), Bit(b2, 128)),
    hasVex := true,
    vvvv := 15 - b2 / 8 % 16,
    vexL := b2 / 4 % 2,
    vexW := Bit(b2, 128))
  }

  function Rex2Fields(payload: u8): Encoding {
    PLAIN.(
    rex := RexOf(Bit(payload, 4), Bit(payload, 2), Bit(payload, 1), Bit(payload, 8)),
    hasRex2 := true,
    r4 := Bit(payload, 16),
    x4 := Bit(payload, 32),
    b4 := Bit(payload, 64))
  }

  function ParseEvex(code: seq<u8>, pos: nat): Option<Head>
    requires pos < |code|
  {
    if pos + 4 >= |code| then None else
    var p0, p1, p2 := code[pos + 1], code[pos + 2], code[pos + 3];
    MapOpcode(EvexFields(p0, p1, p2), PrefixOfPp(p1 % 4), p0 % 8, code, pos + 4)
  }

  function ParseVex2(code: seq<u8>, pos: nat): Option<Head>
    requires pos < |code|
  {
    if pos + 2 >= |code| then None else
    MapOpcode(Vex2Fields(code[pos + 1]), PrefixOfPp(code[pos + 1] % 4), 1, code, pos + 2)
  }

  function ParseVex3(code: seq<u8>, pos: nat): Option<Head>
    requires pos < |code|
  {
    if pos + 3 >= |code| then None else
    var b1, b2 := code[pos + 1], code[pos + 2];
    MapOpcode(Vex3Fields(b1, b2), PrefixOfPp(b2 % 4), b1 % 32, code, pos + 3)
  }

  function ParseRex2(code: seq<u8>, pos: nat): Option<Head>
    requires pos < |code|
  {
    if pos + 2 >= |code| then None else
    var m0 := Bit(code[pos + 1], 128);
    Some(Head(Rex2Fields(code[pos + 1]), if m0 then TwoByte(code[pos + 2]) else code[pos + 2], 0xFF, 0, pos + 3))
  }

  predicate IsRex(b: u8) {
    b / 16 == 4
  }

  function ParseLegacy(code: seq<u8>, pos: nat): Option<Head>
    requires pos < |code|
  {
    var p := if IsRex(code[pos]) then pos + 1 else pos;
    var enc := PLAIN.(rex := if IsRex(code[pos]) then code[pos] else 0);
    if p >= |code| then None
    else if code[p] != 0x0F then Some(Head(enc, code[p], 0xFF, 0, p + 1))
    else if p + 1 >= |code| then None
    else if code[p + 1] != 0x38 && code[p + 1] != 0x3A then Some(Head(enc, TwoByte(code[p + 1]), 0xFF, 0, p + 2))
    else if p + 2 >= |code| then None
    else Some(Head(enc, TwoByte(code[p + 1]), code[p + 2], 0, p + 3))
  }

  function ParseHead(code: seq<u8>, pos: nat): (h: Option<Head>)
    requires pos < |code|
    ensures h.Some? ==> pos < h.value.next <= |code|
  {
    if code[pos] == 0x62 then ParseEvex(code, pos)
    else if code[pos] == 0xC5 then ParseVex2(code, pos)
    else if code[pos] == 0xC4 then ParseVex3(code, pos)
    else if code[pos] == 0xD5 then ParseRex2(code, pos)
    else ParseLegacy(code, pos)
  }

  // ------------------------------------------------------------ descriptor choice

  datatype Key = Key(opcode: u16, third: u8, mandatory: u8, isVex: bool, isEvex: bool, vexW: bool)

  function KeyOf(prefixes: seq<u8>, h: Head): Key {
    var mandatory :=
      if h.enc.hasVex then h.pp
      else if 0xF2 in prefixes then 0xF2
      else if 0xF3 in prefixes then 0xF3
      else if 0x66 in prefixes then 0x66
      else 0;
    Key(h.opcode, h.third, mandatory, h.enc.hasVex, h.enc.hasEvex, h.enc.vexW)
  }

  /** The byte after the opcode, which is looked at even when it is not part of
      the instruction; 0 at the end of the buffer. */
  function Peek(code: seq<u8>, pos: nat): u8 {
    if pos < |code| then code[pos] else 0
  }

  function SecOf(k: Key, peek: u8): u8 {
    if k.third != 0xFF then k.third else if ModOf(peek) == 3 then peek else 0xFF
  }

  function QueryOf(k: Key, prefix: u8, sec: u8, peek: u8): Query {
    Query(k.opcode, prefix, RegOf(peek), sec, ModOf(peek), k.isEvex, k.vexW, k.isVex)
  }

  function Choose(t: Table, k: Key, peek: u8): Option<InstrDesc> {
    OrElse(Lookup(t, QueryOf(k, k.mandatory, SecOf(k, peek), peek)),
           OrElse(Lookup(t, QueryOf(k, k.mandatory, 0xFF, peek)),
                  Lookup(t, QueryOf(k, 0, 0xFF, peek))))
  }

  // ------------------------------------------------------------ tail

  predicate HasSib(modrm: u8) {
    ModOf(modrm) != 3 && RmOf(modrm) == 4
  }

  function ParseModrm(d: InstrDesc, code: seq<u8>, pos: nat): (r: Option<Tail>)
    ensures r.Some? && pos <= |code| ==> pos <= r.value.next <= |code|
  {
    if !d.hasModrm then Some(Tail(0, 0, 0, 0, pos))
    else if pos >= |code| then None
    else
      var modrm := code[pos];
      if HasSib(modrm) && pos + 1 >= |code| then None else
      var sib := if HasSib(modrm) then code[pos + 1] else 0;
      var at := pos + 1 + (if HasSib(modrm) then 1 else 0);
      var n := DispSize(modrm, sib);
      if at + n > |code| then None
      else Some(Tail(modrm, sib, ReadSigned(code, at, n), 0, at + n))
  }

  predicate IsImm(o: OperandDesc) {
    o.addr == Immediate || o.addr == RelOffset
  }

  /** Reads the immediates of operands `k`.. ; a second one lands in `disp`. */
  function ParseImms(ops: seq<OperandDesc>, k: nat, count: nat, code: seq<u8>, tl: Tail, has66: bool,
                     rexW: bool): (r: Option<Tail>)
    requires k <= |ops| && tl.next <= |code|
    ensures r.Some? ==> tl.next <= r.value.next <= |code|
    decreases |ops| - k
  {
    if k == |ops| then Some(tl)
    else if !IsImm(ops[k]) then ParseImms(ops, k + 1, count, code, tl, has66, rexW)
    else
      var n := ImmSize(ops[k].size, has66, rexW);
      if tl.next + n > |code| then None else
      var v := ReadSigned(code, tl.next, n);
      var tl' := if count == 0 then tl.(imm := v, next := tl.next + n) else tl.(disp := v, next := tl.next + n);
      ParseImms(ops, k + 1, count + 1, code, tl', has66, rexW)
  }

  function ParseMoffset(d: InstrDesc, code: seq<u8>, tl: Tail): Option<Tail>
    requires tl.next <= |code|
  {
    if !HasAddr(d, Moffset) then Some(tl)
    else if tl.next + 8 > |code| then None
    else Some(tl.(disp := ReadSigned(code, tl.next, 8), next := tl.next + 8))
  }

  /** The immediate byte of a 0F3A entry that does not declare one. */
  function ParseImplicit(d: InstrDesc, opcode: u16, code: seq<u8>, tl: Tail): Tail {
    if opcode == 0x0F3A && tl.imm == 0 && !HasAddr(d, Immediate) && tl.next < |code| then
      tl.(imm := ReadSigned(code, tl.next, 1), next := tl.next + 1)
    else
      tl
  }

  function ParseTail(d: InstrDesc, h: Head, code: seq<u8>, has66: bool): (r: Option<Tail>)
    requires h.next <= |code|
    ensures r.Some? ==> h.next <= r.value.next <= |code|
  {
    var tl0 :- ParseModrm(d, code, h.next);
    var tl1 :- ParseImms(d.operands, 0, 0, code, tl0, has66, Bit(h.enc.rex, 8));
    var tl2 :- ParseMoffset(d, code, tl1);
    Some(ParseImplicit(d, h.opcode, code, tl2))
  }

  // ------------------------------------------------------------ the decoder

  function Min(a: nat, b: nat): nat {
    if a < b then a else b
  }

  function Assemble(d: InstrDesc, prefixes: seq<u8>, h: Head, tl: Tail): Decoded {
    Decoded(tl.next, DecodedInstr(
      d, prefixes[..Min(|prefixes|, 4)], h.enc, tl.modrm, tl.sib, h.opcode % 8, tl.disp, tl.imm, tl.next % 0x100))
  }

  function Decode(t: Table, code: seq<u8>): (r: Option<Decoded>)
    ensures r.Some? ==> 0 < r.value.size <= |code|
  {
    var p := PrefixEnd(code, 0);
    if p == |code| then None else
    var h :- ParseHead(code, p);
    var d :- Choose(t, KeyOf(code[..p], h), Peek(code, h.next));
    var tl :- ParseTail(d, h, code, 0x66 in code[..p] || h.pp == 0x66);
    Some(Assemble(d, code[..p], h, tl))
  }

  method ChooseEntry(om: OpcodeMap, k: Key, peek: u8) returns (d: Option<InstrDesc>)
    requires om.Valid()
    ensures d == Choose(om.table, k, peek)
  {
    d := om.Find(QueryOf(k, k.mandatory, SecOf(k, peek), peek));
    if d.None? {
      d := om.Find(QueryOf(k, k.mandatory, 0xFF, peek));
    }
    if d.None? {
      d := om.Find(QueryOf(k, 0, 0xFF, peek));
    }
  }

  /** Reads the immediates with a cursor. */
  method ReadImms(d: InstrDesc, code: seq<u8>, from: Tail, has66: bool, rexW: bool) returns (r: Option<Tail>)
    requires from.next <= |code|
    ensures r == ParseImms(d.operands, 0, 0, code, from, has66, rexW)
  {
    var tl, count := from, 0;
    for i := 0 to |d.operands|
      invariant from.next <= tl.next <= |code|
      invariant ParseImms(d.operands, 0, 0, code, from, has66, rexW)
                == ParseImms(d.operands, i, count, code, tl, has66, rexW)
    {
      if IsImm(d.operands[i]) {
        var n := ImmSize(d.operands[i].size, has66, rexW);
        if tl.next + n > |code| { return None; }
        var v := ReadSigned(code, tl.next, n);
        if count == 0 { tl := tl.(imm := v); } else { tl := tl.(disp := v); }
        tl := tl.(next := tl.next + n);
        count := count + 1;
      }
    }
    r := Some(tl);
  }

  method ReadTail(d: InstrDesc, h: Head, code: seq<u8>, has66: bool) returns (r: Option<Tail>)
    requires h.next <= |code|
    ensures r == ParseTail(d, h, code, has66)
  {
    hide ParseModrm, ParseImms, ReadSigned, ParseImplicit;
    var m := ParseModrm(d, code, h.next);
    if m.None? { return None; }
    var imms := ReadImms(d, code, m.value, has66, Bit(h.enc.rex, 8));
    if imms.None? { return None; }
    var tl := imms.value;
    for i := 0 to |d.operands|
      invariant forall j :: 0 <= j < i ==> d.operands[j].addr != Moffset
    {
      if d.operands[i].addr == Moffset {
        if tl.next + 8 > |code| { return None; }
        tl := tl.(disp := ReadSigned(code, tl.next, 8), next := tl.next + 8);
        return Some(ParseImplicit(d, h.opcode, code, tl));
      }
    }
    r := Some(ParseImplicit(d, h.opcode, code, tl));
  }

  /** Decodes one instruction from `code`; `None` is the source's result 0. */
  method DecodeOne(om: OpcodeMap, code: seq<u8>) returns (r: Option<Decoded>)
    requires om.Valid()
    ensures r == Decode(om.table, code)
  {
    hide ParseHead, ParseTail, Choose;
    if |code| == 0 { return None; }
    var pos, has66, hasF2, hasF3 := 0, false, false, false;
    var kept: seq<u8> := [];
    while true
      invariant 0 <= pos <= |code|
      invariant PrefixEnd(code, 0) == PrefixEnd(code, pos)
      invariant kept == code[..Min(pos, 4)]
      invariant has66 == (0x66 in code[..pos]) && hasF2 == (0xF2 in code[..pos]) && hasF3 == (0xF3 in code[..pos])
      decreases |code| - pos
    {
      if pos >= |code| { return None; }
      var b := code[pos];
      if !IsLegacyPrefix(b) { break; }
      if |kept| < 4 { kept := kept + [b]; }
      if b == 0x66 { has66 := true; }
      if b == 0xF2 { hasF2 := true; }
      if b == 0xF3 { hasF3 := true; }
      assert code[..pos + 1] == code[..pos] + [b];
      pos := pos + 1;
    }
    assert PrefixEnd(code, 0) == pos;
    var head := ParseHead(code, pos);
    if head.None? { return None; }
    var h := head.value;
    var mandatory := 0;
    if h.enc.hasVex { mandatory := h.pp; }
    else if hasF2 { mandatory := 0xF2; }
    else if hasF3 { mandatory := 0xF3; }
    else if has66 { mandatory := 0x66; }
    var key := Key(h.opcode, h.third, mandatory, h.enc.hasVex, h.enc.hasEvex, h.enc.vexW);
    var d := ChooseEntry(om, key, Peek(code, h.next));
    if d.None? { return None; }
    var tl := ReadTail(d.value, h, code, has66 || h.pp == 0x66);
    if tl.None? { return None; }
    assert code[..pos][..Min(pos, 4)] == kept;
    r := Some(Decoded(tl.value.next, DecodedInstr(
      d.value, kept, h.enc, tl.value.modrm, tl.value.sib, h.opcode % 8, tl.value.disp, tl.value.imm,
        tl.value.next % 0x100)));
  }
}
