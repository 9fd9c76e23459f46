/** The branch idiom recognizer: constant folding over short instruction sequences,
    resolution of targets through memory, and chains of forwarding jumps. */
module Branch {
  import opened Words
  import opened InstrTable
  import opened Decoder
  import opened Operands
  import opened Flow
  import opened Machine

  datatype Effect = NoEffect | Jump | ConditionalJump | CallEffect | ReturnEffect | Interrupt | SysTransfer

  datatype Form =
    | NoForm | RelNear | CountConditional | IndirectReg | IndirectMem | FarDirect | FarIndirect
    | ReturnNear | ReturnFar | ReturnInterrupt | InterruptForm | Syscall
    | PushImmRet | PushRegRet | PushSplitImm64Ret | MovRegBranch | LeaRegBranch
    | MovLeaPushRet | LoadMemBranch | ComputedRegBranch

  datatype Resolution = Concrete | MemoryPointer | RegisterDynamic | FarPointer | StackDynamic | Unresolved

  const NOWHERE := MemRef(None, None, 1, 0, false, None, false, 0)

  /** `lengths` are the lengths of all instructions of the idiom; the source keeps the
      first six. */
  datatype Pattern = Pattern(
    effect: Effect, form: Form, resolution: Resolution, address: u64, lengths: seq<nat>,
    isConditional: bool, isFar: bool, pushesReturn: bool, hasFallthrough: bool,
    target: u64, selector: u16, reg: Option<u5>, slot: MemRef, ptrSize: u8,
    isJumpTable: bool, tableAddr: u64, entrySize: int,
    resolved: bool, finalTarget: u64, chainDepth: nat)

  function Blank(addr: u64): Pattern {
    Pattern(NoEffect, NoForm, Unresolved, addr, [], false, false, false, true, 0, 0, None, NOWHERE, 8, false, 0, 0,
            false, 0, 0)
  }

  datatype Options = Options(maxIdiomInsns: u8, foldArith: bool, followMemory: bool, followChains: bool,
                             maxChainDepth: u8)

  /** What the recognizer works on: the table, the readable code, the readable data if
      there is a reader for it, and what a variable holds before it is assigned. */
  datatype Env = Env(table: Table, code: Image, data: Option<Image>, junk: u64)

  function SumOf(lengths: seq<nat>): nat {
    if lengths == [] then 0 else SumOf(lengths[..|lengths| - 1]) + lengths[|lengths| - 1]
  }

  function TotalLength(p: Pattern): nat {
    SumOf(p.lengths)
  }

  // ------------------------------------------------------------ detectors

  /** Register numbers with the extension bits of REX and REX2. */
  function RegFromOpcode(i: DecodedInstr): u5 {
    OpcodeRegister(i) + Flag(i.enc.hasRex2 && i.enc.b4, 16)
  }

  function RegFromRm(i: DecodedInstr): u5 {
    RmRegister(i) + Flag(i.enc.hasRex2 && i.enc.b4, 16)
  }

  function RegFromReg(i: DecodedInstr): u5 {
    RegRegister(i) + Flag(i.enc.hasRex2 && i.enc.r4, 16)
  }

  /** `mov reg, imm`: the register and the folded value. */
  function MovRegImm(i: DecodedInstr): Option<(u5, u64)> {
    if i.desc.mnemonic != MOV || !HasAddr(i.desc, Immediate) then None
    else
      var val := if RexW(i) then i.immediate % W64 else i.immediate % W32;
      if AddrAt(i.desc, 0) == OpcodeReg then Some((RegFromOpcode(i), val))
      else if AddrAt(i.desc, 0) == ModRM_RM && ModOf(i.modrm) == 3 then Some((RegFromRm(i), val))
      else None
  }

  /** `lea reg, [rip + disp]`. */
  function LeaRip(i: DecodedInstr, addr: u64): Option<(u5, u64)> {
    if i.desc.mnemonic != LEA || ModOf(i.modrm) != 0 || RmOf(i.modrm) != 5 then None
    else Some((RegFromReg(i), (addr + i.length + i.displacement) % W64))
  }

  /** `mov reg, [mem]`: the register, the slot and the pointer size. */
  function MovRegMem(i: DecodedInstr, addr: u64): Option<(u5, MemRef, u8)> {
    if i.desc.mnemonic == MOV && AddrAt(i.desc, 0) == ModRM_Reg && AddrAt(i.desc, 1) == ModRM_RM
      && ModOf(i.modrm) != 3 then
      Some((RegFromReg(i), BuildMemRef(i, addr), if RexW(i) then 8 else 4))
    else None
  }

  function PushImm(i: DecodedInstr): Option<int> {
    if i.desc.mnemonic == PUSH && HasAddr(i.desc, Immediate) then Some(i.immediate) else None
  }

  function PushReg(i: DecodedInstr): Option<u5> {
    if i.desc.mnemonic == PUSH && HasAddr(i.desc, OpcodeReg) then Some(RegFromOpcode(i)) else None
  }

  /** `mov dword [rsp + 4], imm`: the low 32 bits of the immediate. */
  function MovRsp4Imm(i: DecodedInstr): (r: Option<int>)
    ensures r.Some? ==> 0 <= r.value < W32
  {
    if i.desc.mnemonic == MOV && AddrAt(i.desc, 0) == ModRM_RM && ModOf(i.modrm) != 3 && HasAddr(i.desc, Immediate) then
      var m := BuildMemRef(i, 0);
      if m.base == Some(RSP) && m.index.None? && m.disp == 4 then Some(i.immediate % W32) else None
    else None
  }

  /** Arithmetic with an immediate on a register. */
  function ArithImm(i: DecodedInstr): Option<(u5, Mnemonic, int)> {
    if IsArith(i.desc.mnemonic) && AddrAt(i.desc, 0) == ModRM_RM && ModOf(i.modrm) == 3
      && HasAddr(i.desc, Immediate) then
      Some((RegFromRm(i), i.desc.mnemonic, i.immediate))
    else None
  }

  /** The folding step, always on 64 bits. */
  function ApplyArith(m: Mnemonic, v: u64, imm: int): u64 {
    match m
    case ADD => (v + imm) % W64
    case SUB => (v - imm) % W64
    case SHL => v * Pow2(imm % 64) % W64
    case SHR => v / Pow2(imm % 64) % W64
    case SAR => Signed(v, 8) / Pow2(imm % 64) % W64
    case AND | OR | XOR => Bitwise(m, v, imm % W64, 64) % W64
    case _ => v
  }

  predicate IsCall(m: Mnemonic) {
    m == CALL || m == CALLF
  }

  predicate IsJump(m: Mnemonic) {
    m == JMP || m == JMPF
  }

  predicate IsIndirectBranch(d: InstrDesc) {
    (IsCall(d.mnemonic) || IsJump(d.mnemonic)) && HasIndirect(d)
  }

  /** A near jump or call through a register, whose REX2 bit is not looked at. */
  function BranchReg(i: DecodedInstr): Option<u5> {
    if (i.desc.mnemonic == JMP || i.desc.mnemonic == CALL) && IsIndirectBranch(i.desc) && ModOf(i.modrm) == 3 then
      Some(RmRegister(i))
    else None
  }

  function RelativeTarget(i: DecodedInstr, addr: u64): Option<u64> {
    if (IsJump(i.desc.mnemonic) || i.desc.mnemonic.Jcc? || IsCall(i.desc.mnemonic)) && HasAddr(i.desc, RelOffset) then
      Some((addr + i.length + i.immediate) % W64)
    else None
  }

  // ------------------------------------------------------------ idioms

  function FetchAt(env: Env, addr: int): Option<Decoded> {
    Fetch(env.table, env.code, addr % W64)
  }

  predicate IsRetn(r: Option<Decoded>) {
    r.Some? && r.value.instr.desc.mnemonic == RETN
  }

  /** A jump whose target is known. */
  function Known(addr: u64, form: Form, lengths: seq<nat>, target: u64): Pattern {
    Blank(addr).(effect := Jump, form := form, resolution := Concrete, lengths := lengths, hasFallthrough := false,
                 target := target)
  }

  /** A quadword from two halves. */
  function Join(low: int, high: int): u64
    requires 0 <= low < W32 && 0 <= high < W32
  {
    low + W32 * high
  }

  /** `push imm ; ret` and `push imm ; mov [rsp+4], imm ; ret`. */
  function PushImmIdiom(env: Env, addr: u64, d0: Decoded): Option<Pattern> {
    var imm :- PushImm(d0.instr);
    var d1 :- FetchAt(env, addr + d0.size);
    if IsRetn(Some(d1)) then Some(Known(addr, PushImmRet, [d0.size, d1.size], imm % W64))
    else
      var high :- MovRsp4Imm(d1.instr);
      var d2 := FetchAt(env, addr + d0.size + d1.size);
      if IsRetn(d2) then
        Some(Known(addr, PushSplitImm64Ret, [d0.size, d1.size, d2.value.size], Join(imm % W32, high)))
      else None
  }

  function PushRegIdiom(env: Env, addr: u64, d0: Decoded): Option<Pattern> {
    var r :- PushReg(d0.instr);
    var d1 := FetchAt(env, addr + d0.size);
    if IsRetn(d1) then
      Some(Blank(addr).(effect := Jump, form := PushRegRet, resolution := RegisterDynamic, reg := Some(r),
                        hasFallthrough := false, lengths := [d0.size, d1.value.size]))
    else None
  }

  datatype LoadKind = ConstLoad | LeaLoad | MemLoad

  /** The first instruction of a load-and-branch idiom: what the register then holds, or
      where it was loaded from. */
  datatype LoadOp = LoadOp(kind: LoadKind, reg: u5, val: u64, slot: MemRef, size: u8)

  function LoadOf(i: DecodedInstr, addr: u64): Option<LoadOp> {
    var c, l, m := MovRegImm(i), LeaRip(i, addr), MovRegMem(i, addr);
    if c.Some? then Some(LoadOp(ConstLoad, c.value.0, c.value.1, NOWHERE, 8))
    else if l.Some? then Some(LoadOp(LeaLoad, l.value.0, l.value.1, NOWHERE, 8))
    else if m.Some? then Some(LoadOp(MemLoad, m.value.0, 0, m.value.1, m.value.2))
    else None
  }

  /** The destination of an idiom that loaded its register. */
  function WithLoad(p: Pattern, ld: LoadOp): Pattern {
    if ld.kind == MemLoad then p.(resolution := MemoryPointer, slot := ld.slot, ptrSize := ld.size)
    else p.(resolution := Concrete, target := ld.val)
  }

  function BranchPattern(addr: u64, ld: LoadOp, arith: bool, isCall: bool, lengths: seq<nat>): Pattern {
    var form :=
      if ld.kind == MemLoad then LoadMemBranch
      else if ld.kind == LeaLoad then LeaRegBranch
      else if arith then ComputedRegBranch else MovRegBranch;
    WithLoad(Blank(addr).(effect := if isCall then CallEffect else Jump, form := form, pushesReturn := isCall,
                          hasFallthrough := isCall, lengths := lengths), ld)
  }

  function PushRetPattern(addr: u64, ld: LoadOp, lengths: seq<nat>): Pattern {
    WithLoad(Blank(addr).(effect := Jump, form := MovLeaPushRet, hasFallthrough := false, lengths := lengths), ld)
  }

  /** What the register holds after one more instruction, if that only computes. */
  function Folded(opt: Options, ld: LoadOp, i: DecodedInstr): Option<LoadOp> {
    var a := ArithImm(i);
    if opt.foldArith && ld.kind == ConstLoad && a.Some? && a.value.0 == ld.reg then
      Some(ld.(val := ApplyArith(a.value.1, ld.val, a.value.2)))
    else None
  }

  /** The scan from the i-th instruction on, `lengths` being those before it. */
  function Scan(env: Env, opt: Options, addr: u64, ld: LoadOp, arith: bool, lengths: seq<nat>): Option<Pattern>
    decreases 6 - |lengths|
  {
    if |lengths| >= opt.maxIdiomInsns || |lengths| >= 6 then None else
    var off := SumOf(lengths);
    var d :- FetchAt(env, addr + off);
    var more := lengths + [d.size];
    if BranchReg(d.instr) == Some(ld.reg) then Some(BranchPattern(addr, ld, arith, d.instr.desc.mnemonic == CALL, more))
    else if PushReg(d.instr) == Some(ld.reg) then
      var ret := FetchAt(env, addr + off + d.size);
      if IsRetn(ret) then Some(PushRetPattern(addr, ld, more + [ret.value.size])) else None
    else
      var next :- Folded(opt, ld, d.instr);
      Scan(env, opt, addr, next, true, more)
  }

  function LoadIdiom(env: Env, opt: Options, addr: u64, d0: Decoded): Option<Pattern> {
    var ld :- LoadOf(d0.instr, addr);
    Scan(env, opt, addr, ld, false, [d0.size])
  }

  // ------------------------------------------------------------ single instructions

  predicate IsTrap(m: Mnemonic) {
    m in {INT, INT1, INTO, UD, UD2}
  }

  predicate IsSyscall(m: Mnemonic) {
    m in {SYSCALL, SYSRET, SYSENTER, SYSEXIT}
  }

  function WithTable(p: Pattern): Pattern {
    if p.slot.index.None? then p
    else
      p.(isJumpTable := true, entrySize := p.slot.scale,
         tableAddr := if p.slot.base.Some? then 0 else if p.slot.ripRelative then p.slot.absAddr else p.slot.disp % W64)
  }

  function RelativeForm(p: Pattern, m: Mnemonic, target: u64): Pattern {
    p.(form := RelNear, resolution := Concrete, target := target,
       effect := if IsCall(m) then CallEffect else if m.Jcc? then ConditionalJump else Jump,
       pushesReturn := IsCall(m), isConditional := !IsCall(m) && m.Jcc?, hasFallthrough := IsCall(m) || m.Jcc?)
  }

  function FarForm(p: Pattern, i: DecodedInstr, addr: u64): Pattern {
    var m := i.desc.mnemonic;
    var q := p.(isFar := true, effect := if m == CALLF then CallEffect else Jump, pushesReturn := m == CALLF,
                hasFallthrough := m == CALLF);
    if i.desc.hasModrm then
      q.(form := FarIndirect, resolution := MemoryPointer, slot := BuildMemRef(i, addr), ptrSize := 8)
    else
      q.(form := FarDirect, resolution := FarPointer, target := i.immediate % W32,
         selector := i.displacement % 0x1_0000)
  }

  function IndirectForm(p: Pattern, i: DecodedInstr, addr: u64): Pattern {
    var call := IsCall(i.desc.mnemonic);
    var q := p.(effect := if call then CallEffect else Jump, pushesReturn := call, hasFallthrough := call);
    if ModOf(i.modrm) != 3 then
      WithTable(q.(form := IndirectMem, resolution := MemoryPointer, slot := BuildMemRef(i, addr), ptrSize := 8))
    else q.(form := IndirectReg, resolution := RegisterDynamic, reg := Some(RmRegister(i)))
  }

  function ReturnForm(p: Pattern, m: Mnemonic): Pattern {
    p.(effect := ReturnEffect, hasFallthrough := false, resolution := StackDynamic, isFar := m == RETF,
       form := if m == RETN then ReturnNear else if m == RETF then ReturnFar else ReturnInterrupt)
  }

  /** One instruction that transfers control by itself. */
  function SingleForm(addr: u64, d: Decoded): Option<Pattern> {
    var i, m := d.instr, d.instr.desc.mnemonic;
    var p, rel := Blank(addr).(lengths := [d.size]), RelativeTarget(d.instr, addr);
    if m.CountJcc? then
      Some(p.(form := CountConditional, effect := ConditionalJump, isConditional := true, resolution := Concrete,
              target := (addr + d.size + i.immediate) % W64))
    else if rel.Some? then Some(RelativeForm(p, m, rel.value))
    else if m == JMPF || m == CALLF then Some(FarForm(p, i, addr))
    else if IsIndirectBranch(i.desc) then Some(IndirectForm(p, i, addr))
    else if IsReturn(m) then Some(ReturnForm(p, m))
    else if IsTrap(m) then Some(p.(form := InterruptForm, effect := Interrupt, hasFallthrough := m != UD && m != UD2))
    else if IsSyscall(m) then Some(p.(form := Syscall, effect := SysTransfer))
    else None
  }

  // ------------------------------------------------------------ recognition and resolution

  /** The pattern at `addr` before its target is looked up in memory. */
  function Shape(env: Env, opt: Options, addr: u64): Option<Pattern> {
    var d :- Fetch(env.table, env.code, addr);
    OrElse(PushImmIdiom(env, addr, d),
           OrElse(PushRegIdiom(env, addr, d), OrElse(LoadIdiom(env, opt, addr, d), SingleForm(addr, d))))
  }

  /** `n` bytes of data, or nothing if one of them is not readable. */
  function ReadData(env: Env, addr: u64, n: nat): Option<seq<u8>> {
    if env.data.Some? && |Window(env.data.value, addr, n)| == n then Some(Window(env.data.value, addr, n)) else None
  }

  /** A pointer of `n` bytes copied over the low bytes of an unassigned variable. */
  function OverJunk(env: Env, s: seq<u8>): u64 {
    FromLe(s + (if |s| < 8 then Le(env.junk, 8)[|s|..] else [])) % W64
  }

  /** The first destination of a pattern, if it can be computed. */
  function FirstHop(env: Env, p: Pattern): Option<u64> {
    if p.resolution == MemoryPointer && p.slot.staticAddr && env.data.Some? then
      var s :- ReadData(env, p.slot.absAddr, Min(if p.ptrSize != 0 then p.ptrSize else 8, 8));
      Some(OverJunk(env, s))
    else if p.resolution == Concrete then Some(p.target)
    else None
  }

  function NoChains(opt: Options): Options {
    opt.(followChains := false)
  }

  function Resolve(env: Env, opt: Options, p: Pattern): Pattern
    decreases opt.followChains, 1, 0
  {
    if !opt.followMemory then p else
    var first := FirstHop(env, p);
    if first.None? then p
    else
      var q := p.(finalTarget := first.value, resolved := true, chainDepth := 0);
      if opt.followChains then Follow(env, opt, q, 0) else q
  }

  /** The chain from the d-th hop on. */
  function Follow(env: Env, opt: Options, p: Pattern, d: nat): Pattern
    requires opt.followChains
    decreases opt.followChains, 0, opt.maxChainDepth - d
  {
    if d >= opt.maxChainDepth then p else
    var next := Hop(env, NoChains(opt), p.finalTarget);
    if next.None? || next.value == p.finalTarget then p
    else Follow(env, opt, p.(finalTarget := next.value, chainDepth := d + 1), d + 1)
  }

  /** Where a plain forwarding jump at `addr` leads. */
  function Hop(env: Env, opt: Options, addr: u64): Option<u64>
    requires !opt.followChains
    decreases opt.followChains, 3, 0
  {
    var n :- Recognize(env, opt, addr);
    if n.effect != Jump then None
    else if n.resolution == Concrete then Some(n.target)
    else if n.resolved then Some(n.finalTarget)
    else None
  }

  /** The transfer that starts at `addr`. */
  function Recognize(env: Env, opt: Options, addr: u64): Option<Pattern>
    decreases opt.followChains, 2, 0
  {
    var p :- Shape(env, opt, addr);
    Some(if p.resolution == MemoryPointer then Resolve(env, opt, p) else p)
  }

  // ------------------------------------------------------------ the code

  lemma {:induction false} WindowGrows(img: Image, a: u64, n: nat)
    ensures Window(img, a, n) <= Window(img, a, n + 1)
    ensures |Window(img, a, n)| < n ==> Window(img, a, n + 1) == Window(img, a, n)
    decreases n
  {
    if n > 0 && a in img {
      WindowGrows(img, (a + 1) % W64, n - 1);
    }
  }

  /** All `n` bytes, or nothing. */
  method ReadCode(img: Image, addr: u64, n: nat) returns (s: Option<seq<u8>>)
    ensures s == if |Window(img, addr, n)| == n then Some(Window(img, addr, n)) else None
  {
    hide Window;
    var bytes: seq<u8>, a: u64 := [], addr;
    for j := 0 to n
      invariant |bytes| == j && Window(img, addr, n) == bytes + Window(img, a, n - j)
    {
      WindowStep(img, a, n - j);
      if a !in img {
        assert |Window(img, addr, n)| == j;
        return None;
      }
      bytes, a := bytes + [img[a]], (a + 1) % W64;
    }
    assert Window(img, addr, n) == bytes;
    s := Some(bytes);
  }

  lemma NoBytes(img: Image, addr: u64)
    requires |Window(img, addr, 1)| == 0
    ensures Window(img, addr, 1) == []
    ensures forall t :: Decode(t, []) == None
  {
  }

  /** Decodes from as many of fifteen bytes as can be read. */
  method FillDecode(om: OpcodeMap, img: Image, addr: u64) returns (r: Option<Decoded>)
    requires om.Valid()
    ensures r == Fetch(om.table, img, addr)
  {
    hide Window, Decode;
    var n := MAX_LENGTH;
    while n >= 1
      invariant 0 <= n <= MAX_LENGTH && (n < MAX_LENGTH ==> |Window(img, addr, n + 1)| <= n)
      invariant Window(img, addr, MAX_LENGTH) == Window(img, addr, if n < MAX_LENGTH then n + 1 else n)
    {
      WindowGrows(img, addr, n);
      var buf := ReadCode(img, addr, n);
      if buf.Some? {
        assert buf.value == Window(img, addr, MAX_LENGTH);
        r := DecodeOne(om, buf.value);
        return;
      }
      n := n - 1;
    }
    NoBytes(img, addr);
    r := None;
  }

  lemma SumMore(lengths: seq<nat>, n: nat)
    ensures SumOf(lengths + [n]) == SumOf(lengths) + n
  {
    assert (lengths + [n])[..|lengths|] == lengths;
  }

  lemma SumOne(n: nat)
    ensures SumOf([n]) == n
  {
    SumMore([], n);
    assert [] + [n] == [n];
  }

  method ScanIdiom(om: OpcodeMap, env: Env, opt: Options, addr: u64, first: nat, load: LoadOp)
    returns (p: Option<Pattern>)
    requires om.Valid() && om.table == env.table
    ensures p == Scan(env, opt, addr, load, false, [first])
  {
    hide Fetch, Folded, BranchPattern, PushRetPattern, BranchReg, PushReg, SumOf;
    SumOne(first);
    var ld, arith, lengths, off := load, false, [first], first;
    while |lengths| < opt.maxIdiomInsns && |lengths| < 6
      invariant 1 <= |lengths| <= 6 && off == SumOf(lengths)
      invariant Scan(env, opt, addr, load, false, [first]) == Scan(env, opt, addr, ld, arith, lengths)
      decreases 6 - |lengths|
    {
      var d := FillDecode(om, env.code, (addr + off) % W64);
      if d.None? { return None; }
      var more := lengths + [d.value.size];
      SumMore(lengths, d.value.size);
      if BranchReg(d.value.instr) == Some(ld.reg) {
        return Some(BranchPattern(addr, ld, arith, d.value.instr.desc.mnemonic == CALL, more));
      }
      if PushReg(d.value.instr) == Some(ld.reg) {
        var ret := FillDecode(om, env.code, (addr + off + d.value.size) % W64);
        if IsRetn(ret) { return Some(PushRetPattern(addr, ld, more + [ret.value.size])); }
        return None;
      }
      var next := Folded(opt, ld, d.value.instr);
      if next.None? { return None; }
      ld, arith, lengths, off := next.value, true, more, off + d.value.size;
    }
    p := None;
  }

  method FindPushImm(om: OpcodeMap, env: Env, addr: u64, d: Decoded) returns (p: Option<Pattern>)
    requires om.Valid() && om.table == env.table
    ensures p == PushImmIdiom(env, addr, d)
  {
    hide Fetch, MovRsp4Imm, PushImm, Known;
    var imm := PushImm(d.instr);
    if imm.None? { return None; }
    var d1 := FillDecode(om, env.code, (addr + d.size) % W64);
    if d1.None? { return None; }
    if IsRetn(d1) { return Some(Known(addr, PushImmRet, [d.size, d1.value.size], imm.value % W64)); }
    var high := MovRsp4Imm(d1.value.instr);
    if high.None? { return None; }
    var d2 := FillDecode(om, env.code, (addr + d.size + d1.value.size) % W64);
    if !IsRetn(d2) { return None; }
    p := Some(Known(addr, PushSplitImm64Ret, [d.size, d1.value.size, d2.value.size],
                    imm.value % W32 + W32 * high.value));
  }

  method FindPushReg(om: OpcodeMap, env: Env, addr: u64, d: Decoded) returns (p: Option<Pattern>)
    requires om.Valid() && om.table == env.table
    ensures p == PushRegIdiom(env, addr, d)
  {
    hide Fetch, PushReg;
    var r := PushReg(d.instr);
    if r.None? { return None; }
    var d1 := FillDecode(om, env.code, (addr + d.size) % W64);
    if !IsRetn(d1) { return None; }
    p := Some(Blank(addr).(effect := Jump, form := PushRegRet, resolution := RegisterDynamic, reg := r,
                           hasFallthrough := false, lengths := [d.size, d1.value.size]));
  }

  /** The idioms first, in the order of the code, then the single instruction. */
  method FindShape(om: OpcodeMap, env: Env, opt: Options, addr: u64) returns (p: Option<Pattern>)
    requires om.Valid() && om.table == env.table
    ensures p == Shape(env, opt, addr)
  {
    hide Fetch, Scan, SingleForm, LoadOf, PushImmIdiom, PushRegIdiom;
    var d0 := FillDecode(om, env.code, addr);
    if d0.None? { return None; }
    p := FindPushImm(om, env, addr, d0.value);
    if p.Some? { return; }
    p := FindPushReg(om, env, addr, d0.value);
    if p.Some? { return; }
    var ld := LoadOf(d0.value.instr, addr);
    if ld.Some? {
      p := ScanIdiom(om, env, opt, addr, d0.value.size, ld.value);
      if p.Some? { return; }
    }
    p := SingleForm(addr, d0.value);
  }

  method RecognizeAt(om: OpcodeMap, env: Env, opt: Options, addr: u64) returns (p: Option<Pattern>)
    requires om.Valid() && om.table == env.table
    ensures p == Recognize(env, opt, addr)
    decreases opt.followChains, 2
  {
    hide Shape, FirstHop;
    p := FindShape(om, env, opt, addr);
    if p.Some? && p.value.resolution == MemoryPointer {
      var q := ResolveTarget(om, env, opt, p.value);
      p := Some(q);
    }
  }

  /** Looks the destination up and chases forwarding jumps from it, one hop at a time. */
  method ResolveTarget(om: OpcodeMap, env: Env, opt: Options, p: Pattern) returns (q: Pattern)
    requires om.Valid() && om.table == env.table
    ensures q == Resolve(env, opt, p)
    decreases opt.followChains, 1
  {
    hide FirstHop, Recognize;
    q := p;
    if !opt.followMemory { return; }
    var first := FirstHop(env, p);
    if first.None? { return; }
    q := q.(finalTarget := first.value, resolved := true, chainDepth := 0);
    if !opt.followChains { return; }
    var sub := NoChains(opt);
    for d := 0 to opt.maxChainDepth
      invariant Resolve(env, opt, p) == Follow(env, opt, q, d)
    {
      var n := RecognizeAt(om, env, sub, q.finalTarget);
      if n.None? || n.value.effect != Jump { return; }
      var next: u64;
      if n.value.resolution == Concrete { next := n.value.target; }
      else if n.value.resolved { next := n.value.finalTarget; }
      else { return; }
      if next == q.finalTarget { return; }
      q := q.(finalTarget := next, chainDepth := d + 1);
    }
  }
}
