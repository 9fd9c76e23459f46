/** How wide immediates are, and moves of every constant into every register. */
module Immediates {
  import opened Words
  import opened InstrTable
  import opened Decoder
  import opened RoundTrip
  import opened CodecCases
  import opened Operands
  import opened Machine
  import opened Branch

  // ------------------------------------------------------------ widths

  /** The operand-size attribute of an instruction. */
  function OperationWidth(has66: bool, rexW: bool): nat {
    if rexW then 8 else if has66 then 2 else 4
  }

  /** The width of an immediate by what the instruction does: a fixed one, or that of the
      operation, but four bytes at most unless the entry says that it takes all eight. */
  function Width(sz: OpSize, has66: bool, rexW: bool): nat {
    var n := OperationWidth(has66, rexW);
    match sz
    case Byte | ByteSignExt => 1
    case Word => 2
    case Dword => 4
    case Qword => 8
    case OpSz | OpSzDS => if n > 4 then 4 else n
    case OpSzQ => n
    case _ => 0
  }

  /** The decoder reads immediates of that width, except that behind 66 it takes two bytes
      where REX.W makes the operation 64 bits wide and the immediate four. */
  lemma ImmSizeIff(sz: OpSize, has66: bool, rexW: bool)
    ensures ImmSize(sz, has66, rexW) == Width(sz, has66, rexW)
            <==> !(has66 && rexW && (sz == OpSz || sz == OpSzDS))
    ensures has66 && rexW && (sz == OpSz || sz == OpSzDS) ==>
              ImmSize(sz, has66, rexW) == 2 && Width(sz, has66, rexW) == 4
  {
  }

  /** Of the operands of the machine only those of size OpSzDS are not changed by 66; the others
      have that width, cut to four bytes. */
  lemma WidthOfOperand(sz: OpSize, has66: bool, rexW: bool)
    ensures var n := OperandSize(sz, rexW, has66);
            if sz == OpSzDS && has66 && !rexW then n == 4 && Width(sz, has66, rexW) == 2
            else Width(sz, has66, rexW) == if sz == OpSzQ || sz == Qword || n <= 4 then n else 4
  {
  }

  // ------------------------------------------------------------ a constant into a register

  /** An entry of the shape of MOV B8. */
  const MOV_B8 := InstrDesc(MOV, 0xB8, 0xFF, 0, 0xFF, false, 0, 0,
                            [OperandDesc(OpcodeReg, OpSzQ, 0xFF), OperandDesc(Immediate, OpSzQ, 0xFF)], false, false)

  /** 64 bits with REX.W, else 16 bits with 66, else 32 bits. */
  function MovWidth(w: bool, half: bool): nat {
    if w then 8 else if half then 2 else 4
  }

  function MovRex(w: bool, r: RegId): u8 {
    RexByte(w, 0, 0, r)
  }

  function MovFront(w: bool, half: bool, r: RegId): seq<u8> {
    (if half then [0x66] else []) + RexBytes(MovRex(w, r), w) + [0xB8 + r % 8]
  }

  /** `mov r, v` at the width asked for. */
  function MovBytes(w: bool, half: bool, r: RegId, v: int): seq<u8> {
    MovFront(w, half, r) + Le(v, MovWidth(w, half))
  }

  lemma MovRexBits(w: bool, r: RegId)
    ensures var rex := MovRex(w, r); IsRex(rex) && Bit(rex, 8) == w && Bit(rex, 1) == (r >= 8)
    ensures MovRex(w, r) == 0x40 && !w ==> r < 8
  {
  }

  /** The REX byte of an encoding, 0 if it is left out. */
  function MovEnc(w: bool, r: RegId): u8 {
    if RexBytes(MovRex(w, r), w) == [] then 0 else MovRex(w, r)
  }

  lemma MovEncBits(w: bool, r: RegId)
    ensures Bit(MovEnc(w, r), 8) == w && Bit(MovEnc(w, r), 1) == (r >= 8)
  {
    hide RexByte;
    MovRexBits(w, r);
  }

  lemma MovHead(w: bool, half: bool, r: RegId, rest: seq<u8>)
    ensures var code, p := MovFront(w, half, r) + rest, if half then 1 else 0;
            var h := Head(PLAIN.(rex := MovEnc(w, r)), 0xB8 + r % 8, 0xFF, 0, |MovFront(w, half, r)|);
            && PrefixEnd(code, 0) == p < |code| && code[..p] == (if half then [0x66] else [])
            && ParseHead(code, p) == Some(h)
  {
    hide MovRex;
    MovRexBits(w, r);
    var code, p, rex := MovFront(w, half, r) + rest, if half then 1 else 0, RexBytes(MovRex(w, r), w);
    assert code == (if half then [0x66] else []) + (rex + [0xB8 + r % 8]) + rest;
    assert code[p..p + |rex| + 1] == rex + [0xB8 + r % 8];
    HeadRead(code, p, rex, [0xB8 + r % 8]);
    PrefixOnce(code, p);
  }

  /** The one entry is chosen by its opcode register. */
  lemma RegChosen(d: InstrDesc, k: Key, peek: u8)
    requires k.opcode <= 0xFF && d.opcode == k.opcode / 8 * 8 && d.prefix == 0 && HasOpcodeReg(d)
    ensures Choose([d], k, peek) == Some(d)
  {
    hide First, Accepts, HasOpcodeReg;
    var q := QueryOf(k, k.mandatory, SecOf(k, peek), peek);
    forall g: Goal
      ensures First([d], q, g, 0) == if Picks(d, q, g) then Some(d) else None
    {
      OneFirst(d, q, g);
    }
    assert MapOf(q.opcode) == 0 && ByteOf(q.opcode, q.sec) == k.opcode && InSlot(d, 0, k.opcode / 8 * 8);
  }

  lemma MovFieldsB8()
    ensures MOV_B8.operands[0].addr == OpcodeReg && MOV_B8.operands[1].addr == Immediate
    ensures HasOpcodeReg(MOV_B8) && !HasAddr(MOV_B8, Moffset) && HasAddr(MOV_B8, Immediate)
  {
    assert MOV_B8.operands[0] in MOV_B8.operands && MOV_B8.operands[1] in MOV_B8.operands;
  }

  lemma MovTail(h: Head, code: seq<u8>, has66: bool)
    requires h.next <= |code| && h.opcode != 0x0F3A
    ensures var n := ImmSize(OpSzQ, has66, Bit(h.enc.rex, 8));
            h.next + n <= |code| ==>
              ParseTail(MOV_B8, h, code, has66) == Some(Tail(0, 0, 0, ReadSigned(code, h.next, n), h.next + n))
  {
    hide ReadSigned, Bit, ImmSize, HasAddr;
    MovFieldsB8();
    var n, tl := ImmSize(OpSzQ, has66, Bit(h.enc.rex, 8)), Tail(0, 0, 0, 0, h.next);
    if h.next + n <= |code| {
      var r := tl.(imm := ReadSigned(code, h.next, n), next := h.next + n);
      assert ParseImms(MOV_B8.operands, 2, 1, code, r, has66, Bit(h.enc.rex, 8)) == Some(r);
      assert ParseImms(MOV_B8.operands, 1, 0, code, tl, has66, Bit(h.enc.rex, 8)) == Some(r);
    }
  }

  /** What the decoder makes of it, in front of anything. */
  function MovDecoded(w: bool, half: bool, r: RegId, v: int): Decoded {
    var size := |MovFront(w, half, r)| + MovWidth(w, half);
    Decoded(size, DecodedInstr(MOV_B8, if half then [0x66] else [], PLAIN.(rex := MovEnc(w, r)), 0, 0, r % 8, 0,
                               Signed(v, MovWidth(w, half)), size))
  }

  lemma SignedRead(v: int, n: nat)
    ensures Signed(FromLe(Le(v, n)), n) == Signed(v, n)
  {
    hide Le, FromLe;
    FromLeOfLe(v, n);
    ModSum(v, 0, Pow256(n));
  }

  lemma Behind(front: seq<u8>, mid: seq<u8>, rest: seq<u8>)
    ensures front + mid + rest == front + (mid + rest)
    ensures (front + mid + rest)[|front|..|front| + |mid|] == mid
  {
  }

  lemma MovParsed(w: bool, half: bool, r: RegId, v: int, rest: seq<u8>)
    ensures var code, p, n := MovBytes(w, half, r, v) + rest, if half then 1 else 0, MovWidth(w, half);
            var at := |MovFront(w, half, r)|;
            var h := Head(PLAIN.(rex := MovEnc(w, r)), 0xB8 + r % 8, 0xFF, 0, at);
            && p < |code| && code[..p] == (if half then [0x66] else []) && at + n <= |code|
            && Parsed([MOV_B8], code, p, h, MOV_B8, Tail(0, 0, 0, Signed(v, n), at + n))
  {
    hide MovFront, MovRex, Le, FromLe, Signed, ParseTail, ParseHead, Choose, RexBytes, Bit, KeyOf, HasAddr, MovEnc;
    var n, front := MovWidth(w, half), MovFront(w, half, r);
    var code := MovBytes(w, half, r, v) + rest;
    Behind(front, Le(v, n), rest);
    MovHead(w, half, r, Le(v, n) + rest);
    MovEncBits(w, r);
    var p, h := if half then 1 else 0, Head(PLAIN.(rex := MovEnc(w, r)), 0xB8 + r % 8, 0xFF, 0, |front|);
    KeyOpcode(code[..p], h);
    MovFieldsB8();
    RegChosen(MOV_B8, KeyOf(code[..p], h), Peek(code, |front|));
    MovTail(h, code, half);
    SignedRead(v, n);
  }

  lemma MovDecodes(w: bool, half: bool, r: RegId, v: int, rest: seq<u8>)
    ensures Decode([MOV_B8], MovBytes(w, half, r, v) + rest) == Some(MovDecoded(w, half, r, v))
  {
    hide Decode, MovFront, MovRex, Le, Signed, Parsed, MovEnc, MovBytes;
    MovParsed(w, half, r, v, rest);
    var code, p, n := MovBytes(w, half, r, v) + rest, if half then 1 else 0, MovWidth(w, half);
    var at := |MovFront(w, half, r)|;
    var h := Head(PLAIN.(rex := MovEnc(w, r)), 0xB8 + r % 8, 0xFF, 0, at);
    ParsedDecodes([MOV_B8], code, p, h, MOV_B8, Tail(0, 0, 0, Signed(v, n), at + n));
    assert code[..p][..Min(p, 4)] == code[..p];
  }

  lemma MovExecutes(w: bool, half: bool, r: RegId, v: int, s: State)
    ensures var d := MovDecoded(w, half, r, v);
            Exec(d, s) == Some(s.(regs := s.regs[r := WriteReg(s.regs[r], MovWidth(w, half), v)],
                                  rip := At(s.rip, d.size)))
  {
    hide MovFront, MovRex, Le, Signed, Load, Store, Effective, Bit, RexBytes;
    Pow256Values();
    MovEncBits(w, r);
    var d, n := MovDecoded(w, half, r, v), MovWidth(w, half);
    SignedCongruent(v, n);
    assert MOV_B8.operands[0].addr == OpcodeReg && MOV_B8.operands[1].addr == Immediate;
    assert OpcodeRegister(d.instr) == r;
    assert FirstSize(d.instr) == n;
  }

  lemma MovRecognized(w: bool, half: bool, r: RegId, v: int)
    requires w || !half
    ensures MovRegImm(MovDecoded(w, half, r, v).instr) == Some((r, v % (if w then W64 else W32)))
  {
    hide MovFront, MovRex, Le, Signed, Bit, RexBytes;
    Pow256Values();
    MovEncBits(w, r);
    SignedCongruent(v, MovWidth(w, half));
    assert MOV_B8.operands[0].addr == OpcodeReg && MOV_B8.operands[1].addr == Immediate;
  }

  /** `mov r, v`, for every register, every number and every width: the bytes decode whole,
      and executing them leaves the number in the register at that width. Between 32 and 64
      bits the recognizer takes the same register and value from them. */
  lemma MovConstant(w: bool, half: bool, r: RegId, v: int, rest: seq<u8>, s: State)
    ensures var bytes := MovBytes(w, half, r, v);
            var d := Decode([MOV_B8], bytes + rest);
            && d.Some? && d.value.size == |bytes|
            && Exec(d.value, s)
               == Some(s.(regs := s.regs[r := WriteReg(s.regs[r], MovWidth(w, half), v)], rip := At(s.rip, |bytes|)))
            && (w ==> MovRegImm(d.value.instr) == Some((r, v % W64)))
            && (!w && !half ==> MovRegImm(d.value.instr) == Some((r, v % W32)))
  {
    hide Decode, Exec, MovFront, MovRex, Le, Signed, Bit, RexBytes;
    MovDecodes(w, half, r, v, rest);
    MovExecutes(w, half, r, v, s);
    if w || !half {
      MovRecognized(w, half, r, v);
    }
  }

  /** `48 B8` and eight bytes: the whole quadword goes into RAX. */
  lemma MovRax(v: u64, rest: seq<u8>, s: State)
    ensures var d := Decode([MOV_B8], [0x48, 0xB8] + Le(v, 8) + rest);
            && d.Some? && d.value.size == 10 && MovRegImm(d.value.instr) == Some((0, v))
            && Exec(d.value, s) == Some(s.(regs := s.regs[0 := v], rip := At(s.rip, 10)))
  {
    hide Decode, Exec, Le;
    assert MovBytes(true, false, 0, v) == [0x48, 0xB8] + Le(v, 8) by {
      assert MovRex(true, 0) == 0x48;
    }
    MovConstant(true, false, 0, v, rest, s);
    ModUnique(v, W64, 0, v);
  }

  // ------------------------------------------------------------ two immediates

  lemma EnterAddrs()
    ensures forall o <- ENTER.operands :: o.addr in {NoAddr, AddrMode.Fixed, Immediate}
    ensures !HasOpcodeReg(ENTER) && !HasVexOperand(ENTER) && !HasAddr(ENTER, Moffset)
  {
  }

  lemma EnterFits(k: Key, peek: u8)
    requires k.opcode == 0xC8
    ensures Fits(ENTER, k, peek)
  {
    hide SecOf, ModOf, RegOf, HasOpcodeReg, HasVexOperand;
    EnterAddrs();
    var q := QueryOf(k, k.mandatory, SecOf(k, peek), peek);
    assert Accepts(ENTER, q);
    assert InSlot(ENTER, MapOf(q.opcode), ByteOf(q.opcode, q.sec));
  }

  lemma EnterTail(code: seq<u8>)
    requires |code| >= 4
    ensures ParseTail(ENTER, Head(PLAIN, 0xC8, 0xFF, 0, 1), code, false)
            == Some(Tail(0, 0, ReadSigned(code, 3, 1), ReadSigned(code, 1, 2), 4))
  {
    hide ReadSigned, HasAddr, Bit;
    EnterAddrs();
    var ops, tl := ENTER.operands, Tail(0, 0, 0, 0, 1);
    var one := tl.(imm := ReadSigned(code, 1, 2), next := 3);
    var two := one.(disp := ReadSigned(code, 3, 1), next := 4);
    assert ParseImms(ops, 4, 2, code, two, false, Bit(0, 8)) == Some(two);
    assert ParseImms(ops, 3, 1, code, one, false, Bit(0, 8)) == Some(two);
    assert ParseImms(ops, 2, 0, code, tl, false, Bit(0, 8)) == Some(two);
    assert ParseImms(ops, 1, 0, code, tl, false, Bit(0, 8)) == Some(two);
  }

  lemma OneByte(b: u8)
    ensures FromLe([b]) == b
  {
    assert [b][1..] == [];
  }

  /** `enter size, level`: the word is the immediate and the byte the displacement. */
  lemma EnterDecodes(size: int, level: u8, rest: seq<u8>)
    ensures Decode([ENTER], [0xC8] + Le(size, 2) + [level] + rest)
            == Some(Decoded(4, DecodedInstr(ENTER, [], PLAIN, 0, 0, 0, Signed(level, 1), Signed(size, 2), 4)))
  {
    hide Decode, Fits, ParseTail, Le, FromLe, Signed, Choose;
    var code, h := [0xC8] + Le(size, 2) + [level] + rest, Head(PLAIN, 0xC8, 0xFF, 0, 1);
    assert code[..0] == [] && code[1..3] == Le(size, 2) && code[3..4] == [level];
    SignedRead(size, 2);
    OneByte(level);
    EnterFits(KeyOf([], h), Peek(code, 1));
    EnterTail(code);
    DecodesAlone(ENTER, code, 0, h, Tail(0, 0, Signed(level, 1), Signed(size, 2), 4));
  }

  // ------------------------------------------------------------ absolute addresses

  /** An entry of the shape of MOV A1. */
  const MOV_A1 := InstrDesc(MOV, 0xA1, 0xFF, 0, 0xFF, false, 0, 0,
                            [OperandDesc(AddrMode.Fixed, NoSize, 0), OperandDesc(Moffset, OpSzQ, 0xFF)], false, false)

  lemma MoffsetFits(k: Key, peek: u8)
    requires k.opcode == 0xA1
    ensures Fits(MOV_A1, k, peek)
  {
    hide SecOf, ModOf, RegOf;
    assert forall o <- MOV_A1.operands :: o.addr in {AddrMode.Fixed, Moffset};
    var q := QueryOf(k, k.mandatory, SecOf(k, peek), peek);
    assert Accepts(MOV_A1, q);
    assert InSlot(MOV_A1, MapOf(q.opcode), ByteOf(q.opcode, q.sec));
  }

  lemma MoffsetTail(h: Head, code: seq<u8>, has66: bool)
    requires h.next + 8 <= |code| && h.opcode == 0xA1
    ensures ParseTail(MOV_A1, h, code, has66) == Some(Tail(0, 0, ReadSigned(code, h.next, 8), 0, h.next + 8))
  {
    hide ReadSigned, Bit;
    assert MOV_A1.operands[0].addr == AddrMode.Fixed && MOV_A1.operands[1].addr == Moffset;
    var tl := Tail(0, 0, 0, 0, h.next);
    assert ParseImms(MOV_A1.operands, 2, 0, code, tl, has66, Bit(h.enc.rex, 8)) == Some(tl);
    assert ParseImms(MOV_A1.operands, 1, 0, code, tl, has66, Bit(h.enc.rex, 8)) == Some(tl);
  }

  /** `mov eax, [a]` takes an address of eight bytes. */
  lemma MoffsetDecodes(a: int, rest: seq<u8>)
    ensures Decode([MOV_A1], [0xA1] + Le(a, 8) + rest)
            == Some(Decoded(9, DecodedInstr(MOV_A1, [], PLAIN, 0, 0, 1, Signed(a, 8), 0, 9)))
  {
    hide Decode, Fits, ParseTail, Le, FromLe, Signed, Choose;
    var code, h := [0xA1] + Le(a, 8) + rest, Head(PLAIN, 0xA1, 0xFF, 0, 1);
    assert code[..0] == [] && code[1..9] == Le(a, 8);
    SignedRead(a, 8);
    MoffsetFits(KeyOf([], h), Peek(code, 1));
    MoffsetTail(h, code, Has66(code, 0, h));
    DecodesAlone(MOV_A1, code, 0, h, Tail(0, 0, Signed(a, 8), 0, 9));
  }
}
