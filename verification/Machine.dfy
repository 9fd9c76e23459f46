/** A small machine: the instructions that branch idioms are made of, at every operand
    size, over sixteen registers and a flat writable memory. */
module Machine {
  import opened Words
  import opened InstrTable
  import opened Decoder
  import opened Operands
  import opened Flow

  type Bytes = u64 -> u8

  /** `rip` is the address of the instruction to execute. */
  datatype State = State(regs: Regs, rip: u64, mem: Bytes, bases: Bases)

  // ------------------------------------------------------------ memory

  function Load(mem: Bytes, a: u64, n: nat): (s: seq<u8>)
    ensures |s| == n
  {
    seq<u8>(n, i requires 0 <= i < n => mem(At(a, i)))
  }

  function Store(mem: Bytes, a: u64, s: seq<u8>): Bytes {
    (x: u64) => if Distance(a, x) < |s| then s[Distance(a, x)] else mem(x)
  }

  lemma LoadStored(mem: Bytes, a: u64, s: seq<u8>)
    requires |s| <= W64
    ensures Load(Store(mem, a, s), a, |s|) == s
  {
    forall i | 0 <= i < |s|
      ensures Load(Store(mem, a, s), a, |s|)[i] == s[i]
    {
      DistanceOf(a, i);
    }
  }

  /** Where the bytes of a quadword lie relative to its upper half. */
  lemma UpperHalf(a: u64, i: nat)
    requires i < 8
    ensures Distance(At(a, 4), At(a, i)) == if i >= 4 then i - 4 else W64 + i - 4
  {
    if i >= 4 {
      ModSum(a + 4, i - 4, W64);
      DistanceOf(At(a, 4), i - 4);
    } else {
      ModSum(a + 4, W64 + i - 4, W64);
      ModShift(a + i, W64, 1);
      DistanceOf(At(a, 4), W64 + i - 4);
    }
  }

  /** Storing four or more bytes into the upper half of a quadword. */
  lemma LoadPatched(mem: Bytes, a: u64, s: seq<u8>)
    requires 4 <= |s| <= 8
    ensures Load(Store(mem, At(a, 4), s), a, 8) == Load(mem, a, 8)[..4] + s[..4]
  {
    hide Distance, At;
    forall i | 0 <= i < 8
      ensures Load(Store(mem, At(a, 4), s), a, 8)[i] == (Load(mem, a, 8)[..4] + s[..4])[i]
    {
      UpperHalf(a, i);
    }
  }

  // ------------------------------------------------------------ operands

  /** The operand size in bytes; 0 for sizes that no instruction here has. */
  function OperandSize(sz: OpSize, rexW: bool, has66: bool): nat {
    match sz
    case Byte | ByteSignExt => 1
    case Word => 2
    case Dword => 4
    case Qword => 8
    case OpSz | OpSzQ => if rexW then 8 else if has66 then 2 else 4
    case OpSzDS => if rexW then 8 else 4
    case _ => 0
  }

  function RexW(i: DecodedInstr): bool {
    Bit(i.enc.rex, 8)
  }

  function SizeAt(i: DecodedInstr, k: nat): nat
    requires k < |i.desc.operands|
  {
    OperandSize(i.desc.operands[k].size, RexW(i), 0x66 in i.legacyPrefix)
  }

  function AddrAt(d: InstrDesc, k: nat): AddrMode {
    if k < |d.operands| then d.operands[k].addr else NoAddr
  }

  function OpcodeRegister(i: DecodedInstr): RegId {
    Extended(i.opcodeReg % 8, Bit(i.enc.rex, 1))
  }

  function RmRegister(i: DecodedInstr): RegId {
    Extended(RmOf(i.modrm), Bit(i.enc.rex, 1))
  }

  function RegRegister(i: DecodedInstr): RegId {
    Extended(RegOf(i.modrm), Bit(i.enc.rex, 4))
  }

  /** The register named by operand 0, if it is one. */
  function Destination(i: DecodedInstr): Option<RegId> {
    match AddrAt(i.desc, 0)
    case OpcodeReg => Some(OpcodeRegister(i))
    case ModRM_RM => if ModOf(i.modrm) == 3 then Some(RmRegister(i)) else None
    case ModRM_Reg => Some(RegRegister(i))
    case _ => None
  }

  /** Where the memory operand lies. */
  function Effective(i: DecodedInstr, s: State): u64 {
    Linear(i, i.legacyPrefix, s.rip, s.regs, s.bases)
  }

  /** What LEA computes: the offset, without the segment. */
  function OffsetOnly(i: DecodedInstr, s: State): u64 {
    AddressSized(i.legacyPrefix, Offset(i, s.rip + i.length, s.regs))
  }

  /** Writes a register: 32-bit results are zero-extended, narrower ones leave the rest of
      the register alone. */
  function WriteReg(old_: u64, size: nat, v: int): u64 {
    if size == 8 then v % W64
    else if size == 4 then v % W32
    else if size == 2 then old_ / 0x1_0000 * 0x1_0000 + v % 0x1_0000
    else old_ / 0x100 * 0x100 + v % 0x100
  }

  // ------------------------------------------------------------ arithmetic

  function BitOp(m: Mnemonic, a: bool, b: bool): bool {
    match m
    case AND => a && b
    case OR => a || b
    case _ => a != b
  }

  /** A bitwise operation on the low `n` bits. */
  function Bitwise(m: Mnemonic, a: nat, b: nat, n: nat): (r: nat)
    decreases n
  {
    if n == 0 then 0
    else Flag(BitOp(m, a % 2 == 1, b % 2 == 1), 1) + 2 * Bitwise(m, a / 2, b / 2, n - 1)
  }

  function Pow2(n: nat): (p: nat)
    ensures p > 0
  {
    if n == 0 then 1 else 2 * Pow2(n - 1)
  }

  predicate IsArith(m: Mnemonic) {
    m in {ADD, SUB, OR, XOR, AND, SHL, SHR, SAR}
  }

  /** The processor's result at an operand size: operands and result are cut to the size,
      shift counts to five or, for 64-bit operands, six bits. */
  function Alu(m: Mnemonic, size: nat, a: u64, imm: int): int
    requires size > 0
  {
    var p := Pow256(size);
    var x, y, count := a % p, imm % p, imm % (if size == 8 then 64 else 32);
    match m
    case ADD => (x + y) % p
    case SUB => (x - y) % p
    case SHL => x * Pow2(count) % p
    case SHR => x / Pow2(count)
    case SAR => Signed(x, size) / Pow2(count) % p
    case AND | OR | XOR => Bitwise(m, x, y, 8 * size)
    case _ => x
  }

  // ------------------------------------------------------------ instructions

  /** An encoding without VEX, without the upper sixteen registers of REX2, and without
      prefixes the decoder has forgotten. */
  predicate Plain(i: DecodedInstr) {
    !i.enc.hasVex && (i.enc.hasRex2 ==> !i.enc.r4 && !i.enc.x4 && !i.enc.b4) && |i.legacyPrefix| < 4
  }

  predicate HasIndirect(d: InstrDesc) {
    HasAddr(d, ModRM_RM) || HasAddr(d, MemOnly) || HasAddr(d, RegOnly)
  }

  function Push(s: State, next: u64, v: int): State {
    var rsp := (s.regs[RSP] - 8) % W64;
    State(s.regs[RSP := rsp], next, Store(s.mem, rsp, Le(v, 8)), s.bases)
  }

  function Pop(s: State, extra: nat): State {
    State(s.regs[RSP := (s.regs[RSP] + 8 + extra) % W64], FromLe(Load(s.mem, s.regs[RSP], 8)) % W64, s.mem, s.bases)
  }

  function SetReg(s: State, next: u64, r: RegId, size: nat, v: int): State {
    State(s.regs[r := WriteReg(s.regs[r], size, v)], next, s.mem, s.bases)
  }

  function ExecPush(r: Decoded, s: State): Option<State> {
    var i, d, next := r.instr, r.instr.desc, At(s.rip, r.size);
    if HasAddr(d, Immediate) == HasAddr(d, OpcodeReg) then None
    else Some(Push(s, next, if HasAddr(d, Immediate) then i.immediate else s.regs[OpcodeRegister(i)]))
  }

  /** Where a near jump or call through a register or memory leads. */
  function IndirectTarget(i: DecodedInstr, s: State): u64 {
    if ModOf(i.modrm) == 3 then s.regs[RmRegister(i)] else FromLe(Load(s.mem, Effective(i, s), 8)) % W64
  }

  /** A near jump or call, relative or indirect. */
  function ExecNear(r: Decoded, s: State): Option<State> {
    var i, d, next := r.instr, r.instr.desc, At(s.rip, r.size);
    if HasAddr(d, RelOffset) == HasIndirect(d) then None
    else
      var to: u64 := if HasAddr(d, RelOffset) then (next + i.immediate) % W64 else IndirectTarget(i, s);
      Some(if d.mnemonic == CALL then Push(s, to, next) else s.(rip := to))
  }

  function ExecReturn(r: Decoded, s: State): State {
    Pop(s, if HasAddr(r.instr.desc, Immediate) then r.instr.immediate % 0x1_0000 else 0)
  }

  /** The size of operand 0 in bytes, 0 if it has none. */
  function FirstSize(i: DecodedInstr): nat {
    if i.desc.operands == [] then 0 else SizeAt(i, 0)
  }

  /** The register an instruction writes and its width; the byte registers that share
      their numbers with AH to BH are left out. */
  function Written(i: DecodedInstr): Option<(RegId, nat)> {
    var r :- Destination(i);
    if FirstSize(i) == 0 || (FirstSize(i) == 1 && r >= 4) then None else Some((r, FirstSize(i)))
  }

  predicate StoresToMemory(i: DecodedInstr) {
    AddrAt(i.desc, 0) == ModRM_RM && ModOf(i.modrm) != 3 && HasAddr(i.desc, Immediate)
  }

  predicate LoadsFromMemory(i: DecodedInstr) {
    && AddrAt(i.desc, 0) == ModRM_Reg && AddrAt(i.desc, 1) == ModRM_RM && ModOf(i.modrm) != 3
    && !HasAddr(i.desc, Immediate)
  }

  /** A move of an immediate to a register or to memory, or from memory to a register. */
  function ExecMov(r: Decoded, s: State): Option<State> {
    var i, next := r.instr, At(s.rip, r.size);
    if FirstSize(i) == 0 then None
    else if StoresToMemory(i) then
      Some(State(s.regs, next, Store(s.mem, Effective(i, s), Le(i.immediate, FirstSize(i))), s.bases))
    else if LoadsFromMemory(i) then
      var (reg, size) :- Written(i);
      Some(SetReg(s, next, reg, size, FromLe(Load(s.mem, Effective(i, s), size))))
    else if HasAddr(i.desc, Immediate) then
      var (reg, size) :- Written(i);
      Some(SetReg(s, next, reg, size, i.immediate))
    else None
  }

  function ExecLea(r: Decoded, s: State): Option<State> {
    var (reg, size) :- Written(r.instr);
    if ModOf(r.instr.modrm) == 3 then None else Some(SetReg(s, At(s.rip, r.size), reg, size, OffsetOnly(r.instr, s)))
  }

  function ExecArith(r: Decoded, s: State): Option<State> {
    var (reg, size) :- Written(r.instr);
    if !HasAddr(r.instr.desc, Immediate) then None
    else Some(SetReg(s, At(s.rip, r.size), reg, size, Alu(r.instr.desc.mnemonic, size, s.regs[reg], r.instr.immediate)))
  }

  /** Instructions that use the stack or change the flow, whose size is that of an address
      unless there is an operand-size prefix. */
  predicate HasAddressSize(m: Mnemonic) {
    m in {RETN, PUSH, JMP, CALL}
  }

  /** One decoded instruction; `None` where the machine does not say. */
  function Exec(r: Decoded, s: State): Option<State> {
    if !Plain(r.instr) || (HasAddressSize(r.instr.desc.mnemonic) && 0x66 in r.instr.legacyPrefix) then None
    else
      match r.instr.desc.mnemonic
      case RETN => Some(ExecReturn(r, s))
      case PUSH => ExecPush(r, s)
      case JMP | CALL => ExecNear(r, s)
      case MOV => ExecMov(r, s)
      case LEA => ExecLea(r, s)
      case ADD | SUB | OR | XOR | AND | SHL | SHR | SAR => ExecArith(r, s)
      case _ => None
  }

  // ------------------------------------------------------------ running

  /** The instruction at an address, decoded from up to fifteen readable bytes. */
  function Fetch(t: Table, img: Image, addr: u64): Option<Decoded> {
    Decode(t, Window(img, addr, MAX_LENGTH))
  }

  /** That is, from exactly the bytes that can be read there, fifteen at most. */
  lemma FetchIs(t: Table, img: Image, addr: u64, bytes: seq<u8>)
    requires |bytes| <= 15 && forall k: nat :: k < |bytes| ==> At(addr, k) in img && img[At(addr, k)] == bytes[k]
    requires |bytes| == 15 || At(addr, |bytes|) !in img
    ensures Fetch(t, img, addr) == Decode(t, bytes) && FetchFlow(t, img, addr) == FlowAt(t, bytes, addr)
  {
    hide Window, Decode, FlowAt;
    WindowIs(img, addr, 15);
    var w := Window(img, addr, 15);
    var a, b := At(addr, |w|), At(addr, |bytes|);
    assert |w| == |bytes|;
    assert w == bytes;
  }

  function Run(t: Table, img: Image, s: State, n: nat): Option<State>
    decreases n
  {
    if n == 0 then Some(s) else
    var r :- Fetch(t, img, s.rip);
    var s1 :- Exec(r, s);
    Run(t, img, s1, n - 1)
  }

  lemma RunOne(t: Table, img: Image, s: State, r: Decoded, s1: State, n: nat)
    requires Fetch(t, img, s.rip) == Some(r) && Exec(r, s) == Some(s1)
    ensures Run(t, img, s, n + 1) == Run(t, img, s1, n)
  {
    hide Fetch, Exec;
  }
}
