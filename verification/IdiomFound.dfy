/** Idioms are found: whatever consecutive instructions make one up, the recognizer reports it
    with all of them, and single transfers by what they are. */
module IdiomFound {
  import opened Words
  import opened InstrTable
  import opened TableOrder
  import opened Decoder
  import opened Flow
  import opened Operands
  import opened Machine
  import opened Branch
  import opened Transfers
  import opened IdiomSound

  // ------------------------------------------------------------ instructions by their fields

  /** A register number from three bits, a bit of REX or REX2 and one of REX2 alone. */
  function Number(low: nat, i: DecodedInstr, w: BitWeight, upper: bool): nat {
    low % 8 + (if Bit(i.enc.rex, w) then 8 else 0) + (if i.enc.hasRex2 && upper then 16 else 0)
  }

  predicate FirstIs(d: InstrDesc, a: AddrMode) {
    d.operands != [] && d.operands[0].addr == a
  }

  /** The register `r` is operand 0, from the opcode byte or as ModRM.rm. */
  predicate WritesFirst(i: DecodedInstr, r: u5) {
    || (FirstIs(i.desc, OpcodeReg) && r == Number(i.opcodeReg, i, 1, i.enc.b4))
    || (FirstIs(i.desc, ModRM_RM) && i.modrm >= 0xC0 && r == Number(i.modrm, i, 1, i.enc.b4))
  }

  /** `mov r, v`: 64 bits with REX.W, else 32. */
  predicate MovesConstant(i: DecodedInstr, r: u5, v: u64) {
    && i.desc.mnemonic == MOV && HasOperand(i.desc, Immediate) && WritesFirst(i, r)
    && v == i.immediate % (if Bit(i.enc.rex, 8) then W64 else W32)
  }

  /** `lea r, [rip + disp]` at `addr` with the address `v`. */
  predicate TakesAddress(i: DecodedInstr, addr: u64, r: u5, v: u64) {
    && i.desc.mnemonic == LEA && i.modrm < 0x40 && i.modrm % 8 == 5 && r == Number(i.modrm / 8, i, 4, i.enc.r4)
    && v == (addr + i.length + i.displacement) % W64
  }

  /** `mov r, [mem]`. */
  predicate LoadsSlot(i: DecodedInstr, r: u5) {
    && i.desc.mnemonic == MOV && |i.desc.operands| >= 2 && FirstIs(i.desc, ModRM_Reg)
    && i.desc.operands[1].addr == ModRM_RM && i.modrm < 0xC0 && r == Number(i.modrm / 8, i, 4, i.enc.r4)
  }

  /** Arithmetic with an immediate on `r`. */
  predicate Computes(i: DecodedInstr, r: u5) {
    var m := i.desc.mnemonic;
    && (m == ADD || m == SUB || m == OR || m == XOR || m == AND || m == SHL || m == SHR || m == SAR)
    && FirstIs(i.desc, ModRM_RM) && i.modrm >= 0xC0 && HasOperand(i.desc, Immediate)
    && r == Number(i.modrm, i, 1, i.enc.b4)
  }

  /** A near jump or call through `r`; the upper bit of REX2 is not looked at. */
  predicate BranchesThrough(i: DecodedInstr, r: u5) {
    && (i.desc.mnemonic == JMP || i.desc.mnemonic == CALL) && i.modrm >= 0xC0 && r == Number(i.modrm, i, 1, false)
    && (HasOperand(i.desc, ModRM_RM) || HasOperand(i.desc, MemOnly) || HasOperand(i.desc, RegOnly))
  }

  predicate PushesRegister(i: DecodedInstr, r: u5) {
    i.desc.mnemonic == PUSH && HasOperand(i.desc, OpcodeReg) && r == Number(i.opcodeReg, i, 1, i.enc.b4)
  }

  predicate PushesConstant(i: DecodedInstr) {
    i.desc.mnemonic == PUSH && HasOperand(i.desc, Immediate)
  }

  /** `mov dword [rsp + 4], imm`. */
  predicate StoresAboveTop(i: DecodedInstr) {
    && i.desc.mnemonic == MOV && FirstIs(i.desc, ModRM_RM) && HasOperand(i.desc, Immediate)
    && i.modrm < 0xC0 && i.modrm % 8 == 4 && i.sib % 64 == 0x24 && i.displacement == 4
    && !Bit(i.enc.rex, 1) && !Bit(i.enc.rex, 2)
  }

  lemma Fields(i: DecodedInstr)
    ensures ModOf(i.modrm) == 3 <==> i.modrm >= 0xC0
    ensures ModOf(i.modrm) == 0 <==> i.modrm < 0x40
    ensures RmOf(i.modrm) == i.modrm % 8 && RegOf(i.modrm) == i.modrm / 8 % 8
    ensures i.sib % 64 == 0x24 <==> i.sib % 8 == 4 && i.sib / 8 % 8 == 4
    ensures RegFromOpcode(i) == Number(i.opcodeReg, i, 1, i.enc.b4)
    ensures RegFromRm(i) == Number(i.modrm, i, 1, i.enc.b4) && RmRegister(i) == Number(i.modrm, i, 1, false)
    ensures RegFromReg(i) == Number(i.modrm / 8, i, 4, i.enc.r4)
    ensures RexW(i) == Bit(i.enc.rex, 8)
  {
    hide Bit;
  }

  /** The detectors accept those instructions and no others. */
  lemma LoadsDetected(i: DecodedInstr, addr: u64, r: u5, v: u64)
    ensures MovRegImm(i) == Some((r, v)) <==> MovesConstant(i, r, v)
    ensures LeaRip(i, addr) == Some((r, v)) <==> TakesAddress(i, addr, r, v)
    ensures (MovRegMem(i, addr).Some? && MovRegMem(i, addr).value.0 == r) <==> LoadsSlot(i, r)
    ensures LoadsSlot(i, r) ==>
              MovRegMem(i, addr) == Some((r, BuildMemRef(i, addr), if Bit(i.enc.rex, 8) then 8 else 4))
  {
    hide Bit, BuildMemRef, RegFromOpcode, RegFromRm, RegFromReg, HasAddr, HasOperand, RexW, ModOf, RmOf, RegOf, Number;
    Fields(i);
    OperandIs(i.desc, Immediate);
  }

  lemma ArithDetected(i: DecodedInstr, r: u5)
    ensures ArithImm(i) == Some((r, i.desc.mnemonic, i.immediate)) <==> Computes(i, r)
    ensures (ArithImm(i).Some? && ArithImm(i).value.0 == r) <==> Computes(i, r)
  {
    hide Bit, RegFromRm, HasAddr, HasOperand, ModOf, Number;
    Fields(i);
    OperandIs(i.desc, Immediate);
  }

  lemma BranchDetected(i: DecodedInstr, r: u5)
    ensures BranchReg(i) == Some(r) <==> BranchesThrough(i, r)
  {
    hide Bit, HasAddr, HasOperand, ModOf, RmRegister, Number;
    Fields(i);
    OperandIs(i.desc, ModRM_RM);
    OperandIs(i.desc, MemOnly);
    OperandIs(i.desc, RegOnly);
  }

  lemma PushRegDetected(i: DecodedInstr, r: u5)
    ensures PushReg(i) == Some(r) <==> PushesRegister(i, r)
  {
    hide Bit, RegFromOpcode, HasAddr, HasOperand, Number;
    Fields(i);
    OperandIs(i.desc, OpcodeReg);
  }

  lemma PushImmDetected(i: DecodedInstr)
    ensures PushImm(i) == if PushesConstant(i) then Some(i.immediate) else None
  {
    hide HasAddr, HasOperand;
    OperandIs(i.desc, Immediate);
  }

  lemma StoreDetected(i: DecodedInstr)
    ensures MovRsp4Imm(i) == Some(i.immediate % W32) <==> StoresAboveTop(i)
    ensures MovRsp4Imm(i).Some? <==> StoresAboveTop(i)
  {
    hide Bit, HasAddr, HasOperand, ModOf, RmOf, SegmentOf;
    Fields(i);
    OperandIs(i.desc, Immediate);
  }

  // ------------------------------------------------------------ consecutive instructions

  function Sizes(ins: seq<Decoded>): (s: seq<nat>)
    ensures |s| == |ins|
  {
    seq(|ins|, k requires 0 <= k < |ins| => ins[k].size)
  }

  /** `ins` are the instructions from `addr` on, each where the one before ends. */
  predicate Stand(env: Env, addr: u64, ins: seq<Decoded>) {
    forall k :: 0 <= k < |ins| ==> FetchAt(env, addr + SumOf(Sizes(ins[..k]))) == Some(ins[k])
  }

  /** What a register that holds `v` holds after arithmetic with 64-bit operands. */
  function Computed(v: u64, ins: seq<Decoded>): u64
  {
    if ins == [] then v
    else
      var last := ins[|ins| - 1].instr;
      WriteReg(0, 8, Alu(last.desc.mnemonic, 8, Computed(v, ins[..|ins| - 1]), last.immediate))
  }

  /** A branch through `r` as the last instruction, or a push of `r` and a return. */
  predicate Ends(ins: seq<Decoded>, m: nat, r: u5)
    requires m < |ins|
  {
    || (|ins| == m + 1 && BranchesThrough(ins[m].instr, r))
    || (|ins| == m + 2 && PushesRegister(ins[m].instr, r) && ins[m + 1].instr.desc.mnemonic == RETN)
  }

  lemma StandAt(env: Env, addr: u64, ins: seq<Decoded>, k: nat)
    requires Stand(env, addr, ins) && k < |ins|
    ensures FetchAt(env, addr + SumOf(Sizes(ins[..k]))) == Some(ins[k])
  {
    hide FetchAt, SumOf, Sizes;
  }

  lemma EndsWhere(ins: seq<Decoded>, m: nat, r: u5)
    requires m < |ins| && Ends(ins, m, r)
    ensures |ins| == m + 1 || |ins| == m + 2
  {
    hide BranchesThrough, PushesRegister;
  }

  lemma SizesMore(ins: seq<Decoded>, k: nat)
    requires k < |ins|
    ensures Sizes(ins[..k + 1]) == Sizes(ins[..k]) + [ins[k].size]
    ensures SumOf(Sizes(ins[..k + 1])) == SumOf(Sizes(ins[..k])) + ins[k].size
  {
    SumMore(Sizes(ins[..k]), ins[k].size);
  }

  lemma ComputesArith(i: DecodedInstr, r: u5)
    requires Computes(i, r)
    ensures IsArith(i.desc.mnemonic)
  {
  }

  lemma ComputedMore(v: u64, ins: seq<Decoded>, k: nat)
    requires 0 < k < |ins| && IsArith(ins[k].instr.desc.mnemonic)
    ensures Computed(v, ins[1..k + 1])
            == ApplyArith(ins[k].instr.desc.mnemonic, Computed(v, ins[1..k]), ins[k].instr.immediate)
  {
    hide Alu, ApplyArith, IsArith;
    var run, i := ins[1..k + 1], ins[k].instr;
    assert run[..k - 1] == ins[1..k] && run[k - 1] == ins[k];
    FoldIsAlu(i.desc.mnemonic, Computed(v, ins[1..k]), i.immediate);
  }

  /** The pattern of a load-and-branch idiom whose branch or push is instruction `m`. */
  function LoadPattern(addr: u64, ld: LoadOp, ins: seq<Decoded>, m: nat): Pattern
    requires 0 < m < |ins|
  {
    if |ins| == m + 1 then BranchPattern(addr, ld, m > 1, ins[m].instr.desc.mnemonic == CALL, Sizes(ins))
    else PushRetPattern(addr, ld, Sizes(ins))
  }

  lemma NoBranch(i: DecodedInstr, r: u5)
    requires PushesRegister(i, r) || Computes(i, r)
    ensures BranchReg(i).None? && (Computes(i, r) ==> PushReg(i).None?)
  {
    hide HasIndirect, HasAddr, HasOperand;
  }

  lemma ScanAtBranch(env: Env, opt: Options, addr: u64, ld: LoadOp, arith: bool, lengths: seq<nat>, d: Decoded)
    requires FetchAt(env, addr + SumOf(lengths)) == Some(d) && BranchesThrough(d.instr, ld.reg)
    requires |lengths| < opt.maxIdiomInsns && |lengths| < 6
    ensures Scan(env, opt, addr, ld, arith, lengths)
            == Some(BranchPattern(addr, ld, arith, d.instr.desc.mnemonic == CALL, lengths + [d.size]))
  {
    hide FetchAt, SumOf, BranchReg, PushReg, Folded, BranchPattern, PushRetPattern, BranchesThrough;
    BranchDetected(d.instr, ld.reg);
  }

  lemma ScanAtPush(env: Env, opt: Options, addr: u64, ld: LoadOp, arith: bool, lengths: seq<nat>, d: Decoded,
                   ret: Decoded)
    requires FetchAt(env, addr + SumOf(lengths)) == Some(d) && PushesRegister(d.instr, ld.reg)
    requires FetchAt(env, addr + SumOf(lengths) + d.size) == Some(ret) && ret.instr.desc.mnemonic == RETN
    requires |lengths| < opt.maxIdiomInsns && |lengths| < 6
    ensures Scan(env, opt, addr, ld, arith, lengths)
            == Some(PushRetPattern(addr, ld, lengths + [d.size] + [ret.size]))
  {
    hide FetchAt, SumOf, BranchReg, PushReg, Folded, BranchPattern, PushRetPattern, PushesRegister, Computes;
    PushRegDetected(d.instr, ld.reg);
    NoBranch(d.instr, ld.reg);
  }

  lemma ScanEnds(env: Env, opt: Options, addr: u64, ld: LoadOp, ins: seq<Decoded>, m: nat)
    requires Stand(env, addr, ins) && 0 < m < |ins| && m < opt.maxIdiomInsns && m < 6 && Ends(ins, m, ld.reg)
    ensures Scan(env, opt, addr, ld, m > 1, Sizes(ins[..m])) == Some(LoadPattern(addr, ld, ins, m))
  {
    hide FetchAt, SumOf, Scan, BranchPattern, PushRetPattern, BranchesThrough, PushesRegister, Stand, Sizes;
    SizesMore(ins, m);
    StandAt(env, addr, ins, m);
    if |ins| == m + 1 {
      assert ins[..m + 1] == ins;
      ScanAtBranch(env, opt, addr, ld, m > 1, Sizes(ins[..m]), ins[m]);
    } else {
      SizesMore(ins, m + 1);
      assert ins[..m + 2] == ins;
      StandAt(env, addr, ins, m + 1);
      ScanAtPush(env, opt, addr, ld, m > 1, Sizes(ins[..m]), ins[m], ins[m + 1]);
    }
  }

  lemma ScanSteps(env: Env, opt: Options, addr: u64, ld: LoadOp, arith: bool, lengths: seq<nat>, d: Decoded)
    requires FetchAt(env, addr + SumOf(lengths)) == Some(d) && Computes(d.instr, ld.reg)
    requires |lengths| < opt.maxIdiomInsns && |lengths| < 6 && opt.foldArith && ld.kind == ConstLoad
    ensures Scan(env, opt, addr, ld, arith, lengths)
            == Scan(env, opt, addr, ld.(val := ApplyArith(d.instr.desc.mnemonic, ld.val, d.instr.immediate)), true,
                    lengths + [d.size])
  {
    hide FetchAt, SumOf, BranchReg, PushReg, ApplyArith, Computes, ArithImm;
    ArithDetected(d.instr, ld.reg);
    NoBranch(d.instr, ld.reg);
  }

  lemma {:induction false} ScanFinds(env: Env, opt: Options, addr: u64, ld: LoadOp, ins: seq<Decoded>, m: nat, k: nat)
    requires Stand(env, addr, ins) && 0 < k <= m < |ins| && m < opt.maxIdiomInsns && m < 6 && Ends(ins, m, ld.reg)
    requires k < m ==> opt.foldArith && ld.kind == ConstLoad
    requires forall j :: 0 < j < m ==> Computes(ins[j].instr, ld.reg)
    ensures Scan(env, opt, addr, ld.(val := Computed(ld.val, ins[1..k])), k > 1, Sizes(ins[..k]))
            == Some(LoadPattern(addr, ld.(val := Computed(ld.val, ins[1..m])), ins, m))
    decreases m - k
  {
    hide FetchAt, SumOf, LoadPattern, ApplyArith, Computes, Ends, IsArith, Computed, Stand, Sizes, Scan;
    var now := ld.(val := Computed(ld.val, ins[1..k]));
    if k == m {
      ScanEnds(env, opt, addr, now, ins, m);
    } else {
      SizesMore(ins, k);
      ComputesArith(ins[k].instr, ld.reg);
      ComputedMore(ld.val, ins, k);
      StandAt(env, addr, ins, k);
      ScanSteps(env, opt, addr, now, k > 1, Sizes(ins[..k]), ins[k]);
      ScanFinds(env, opt, addr, ld, ins, m, k + 1);
    }
  }

  lemma NoSizes()
    ensures Sizes([]) == [] && SumOf([]) == 0
  {
  }

  /** One instruction first, then the rest. */
  lemma StandFirst(env: Env, addr: u64, ins: seq<Decoded>)
    requires Stand(env, addr, ins) && ins != []
    ensures Fetch(env.table, env.code, addr) == Some(ins[0]) && Sizes(ins[..1]) == [ins[0].size]
    ensures |ins| > 1 ==> FetchAt(env, addr + ins[0].size) == Some(ins[1])
    ensures |ins| > 2 ==> FetchAt(env, addr + ins[0].size + ins[1].size) == Some(ins[2])
  {
    hide Fetch, Stand, SumOf;
    assert ins[..0] == [] && SumOf(Sizes(ins[..0])) == 0 by {
      NoSizes();
    }
    StandAt(env, addr, ins, 0);
    SizesMore(ins, 0);
    if |ins| > 1 {
      StandAt(env, addr, ins, 1);
      SizesMore(ins, 1);
    }
    if |ins| > 2 {
      StandAt(env, addr, ins, 2);
    }
  }

  lemma LoadFound(env: Env, opt: Options, addr: u64, ld: LoadOp, ins: seq<Decoded>, m: nat)
    requires Stand(env, addr, ins) && 0 < m < |ins| && m < opt.maxIdiomInsns && m < 6 && Ends(ins, m, ld.reg)
    requires LoadOf(ins[0].instr, addr) == Some(ld) && ins[0].instr.desc.mnemonic in {MOV, LEA}
    requires m > 1 ==> opt.foldArith && ld.kind == ConstLoad
    requires forall j :: 0 < j < m ==> Computes(ins[j].instr, ld.reg)
    ensures Shape(env, opt, addr) == Some(LoadPattern(addr, ld.(val := Computed(ld.val, ins[1..m])), ins, m))
  {
    hide FetchAt, Fetch, Stand, Ends, Scan, SumOf, LoadOf, LoadPattern, Computes, IsArith, SingleForm, HasAddr;
    StandFirst(env, addr, ins);
    assert ins[1..1] == [] && Computed(ld.val, []) == ld.val;
    ScanFinds(env, opt, addr, ld, ins, m, 1);
  }

  predicate IsCallThrough(ins: seq<Decoded>, m: nat)
    requires m < |ins|
  {
    |ins| == m + 1 && ins[m].instr.desc.mnemonic == CALL
  }

  /** The pattern of an idiom with these instructions, whatever its form and destination. */
  function Reported(addr: u64, ins: seq<Decoded>, m: nat): Pattern
    requires m < |ins|
  {
    var call := IsCallThrough(ins, m);
    Blank(addr).(effect := if call then CallEffect else Jump, lengths := Sizes(ins), pushesReturn := call,
                 hasFallthrough := call)
  }

  lemma PatternReported(addr: u64, ld: LoadOp, ins: seq<Decoded>, m: nat)
    requires 0 < m < |ins| && (|ins| == m + 1 || |ins| == m + 2)
    ensures var p := LoadPattern(addr, ld, ins, m);
            var q := Reported(addr, ins, m).(form := p.form);
            && p == (if ld.kind == MemLoad then q.(resolution := MemoryPointer, slot := ld.slot, ptrSize := ld.size)
                     else q.(resolution := Concrete, target := ld.val))
            && p.form == (if |ins| == m + 2 then MovLeaPushRet else if ld.kind == MemLoad then LoadMemBranch
                          else if ld.kind == LeaLoad then LeaRegBranch
                          else if m > 1 then ComputedRegBranch else MovRegBranch)
  {
    hide Sizes;
  }

  lemma ConstantLoad(i: DecodedInstr, addr: u64, r: u5, v: u64)
    ensures MovesConstant(i, r, v) ==> LoadOf(i, addr) == Some(LoadOp(ConstLoad, r, v, NOWHERE, 8))
    ensures TakesAddress(i, addr, r, v) ==> LoadOf(i, addr) == Some(LoadOp(LeaLoad, r, v, NOWHERE, 8))
    ensures LoadsSlot(i, r) ==>
              LoadOf(i, addr) == Some(LoadOp(MemLoad, r, 0, BuildMemRef(i, addr), if Bit(i.enc.rex, 8) then 8 else 4))
    ensures MovesConstant(i, r, v) || TakesAddress(i, addr, r, v) || LoadsSlot(i, r) ==>
              i.desc.mnemonic in {MOV, LEA}
  {
    hide BuildMemRef, Bit, HasAddr, RegFromOpcode, RegFromRm, RegFromReg, Number;
    LoadsDetected(i, addr, r, v);
  }

  /** A constant moved into a register, up to four steps of arithmetic on it, and a branch
      through the register or a push of it with a return: whenever the limits admit the
      branch, the idiom is reported with all its instructions, and its target is the
      processor's result of the arithmetic. */
  lemma ConstantIdiomFound(env: Env, opt: Options, addr: u64, ins: seq<Decoded>, m: nat, r: u5, v: u64)
    requires Stand(env, addr, ins) && 0 < m < |ins| && m < opt.maxIdiomInsns && m < 6
    requires MovesConstant(ins[0].instr, r, v) && Ends(ins, m, r) && (m > 1 ==> opt.foldArith)
    requires forall j :: 0 < j < m ==> Computes(ins[j].instr, r)
    ensures Recognize(env, opt, addr)
            == Some(Reported(addr, ins, m).(
                      resolution := Concrete, target := Computed(v, ins[1..m]),
                      form := if |ins| == m + 2 then MovLeaPushRet else if m > 1 then ComputedRegBranch
                              else MovRegBranch))
  {
    hide FetchAt, Stand, Ends, Scan, SumOf, LoadOf, LoadPattern, Computes, IsArith, Shape, MovesConstant, Computed,
         Resolve,
         Reported, Sizes;
    EndsWhere(ins, m, r);
    ConstantLoad(ins[0].instr, addr, r, v);
    var ld := LoadOp(ConstLoad, r, v, NOWHERE, 8);
    LoadFound(env, opt, addr, ld, ins, m);
    PatternReported(addr, ld.(val := Computed(v, ins[1..m])), ins, m);
  }

  /** An address taken into a register, and a branch through it. */
  lemma AddressIdiomFound(env: Env, opt: Options, addr: u64, ins: seq<Decoded>, r: u5, v: u64)
    requires Stand(env, addr, ins) && 1 < |ins| && 1 < opt.maxIdiomInsns
    requires TakesAddress(ins[0].instr, addr, r, v) && Ends(ins, 1, r)
    ensures Recognize(env, opt, addr)
            == Some(Reported(addr, ins, 1).(resolution := Concrete, target := v,
                                            form := if |ins| == 3 then MovLeaPushRet else LeaRegBranch))
  {
    hide FetchAt, Stand, Scan, SumOf, LoadOf, LoadPattern, Shape, TakesAddress, Resolve, Reported;
    ConstantLoad(ins[0].instr, addr, r, v);
    var ld := LoadOp(LeaLoad, r, v, NOWHERE, 8);
    assert ins[1..1] == [];
    LoadFound(env, opt, addr, ld, ins, 1);
    PatternReported(addr, ld, ins, 1);
  }

  /** A register loaded from memory, and a branch through it. */
  lemma SlotIdiomFound(env: Env, opt: Options, addr: u64, ins: seq<Decoded>, r: u5)
    requires Stand(env, addr, ins) && 1 < |ins| && 1 < opt.maxIdiomInsns
    requires LoadsSlot(ins[0].instr, r) && Ends(ins, 1, r)
    ensures var q := Recognize(env, opt, addr);
            q.Some? && SameBut(Reported(addr, ins, 1).(
                                 resolution := MemoryPointer, slot := BuildMemRef(ins[0].instr, addr),
                                 ptrSize := if Bit(ins[0].instr.enc.rex, 8) then 8 else 4,
                                 form := if |ins| == 3 then MovLeaPushRet else LoadMemBranch), q.value)
  {
    hide FetchAt, Stand, Scan, SumOf, LoadOf, LoadPattern, Shape, LoadsSlot, Resolve, Reported, BuildMemRef;
    ConstantLoad(ins[0].instr, addr, r, 0);
    var ld := LoadOf(ins[0].instr, addr).value;
    assert ins[1..1] == [];
    LoadFound(env, opt, addr, ld, ins, 1);
    PatternReported(addr, ld, ins, 1);
    RecognizeShape(env, opt, addr);
  }

  lemma SizesShort(ins: seq<Decoded>)
    ensures |ins| == 2 ==> Sizes(ins) == [ins[0].size, ins[1].size]
    ensures |ins| == 3 ==> Sizes(ins) == [ins[0].size, ins[1].size, ins[2].size]
  {
  }

  lemma StoreIsMove(i: DecodedInstr)
    requires StoresAboveTop(i)
    ensures i.desc.mnemonic == MOV
  {
    hide HasOperand;
  }

  lemma PushPair(env: Env, addr: u64, d0: Decoded, d1: Decoded)
    requires FetchAt(env, addr + d0.size) == Some(d1) && d1.instr.desc.mnemonic == RETN
    ensures PushesConstant(d0.instr) ==>
              PushImmIdiom(env, addr, d0)
              == Some(Known(addr, PushImmRet, [d0.size, d1.size], d0.instr.immediate % W64))
    ensures !PushesConstant(d0.instr) ==> PushImmIdiom(env, addr, d0) == None
  {
    hide FetchAt, PushImm, MovRsp4Imm, PushesConstant, Known;
    PushImmDetected(d0.instr);
  }

  /** A number from the low halves of two. */
  function Quadword(low: int, high: int): u64 {
    low % W32 + W32 * (high % W32)
  }

  lemma PushTriple(env: Env, addr: u64, d0: Decoded, d1: Decoded, d2: Decoded)
    requires FetchAt(env, addr + d0.size) == Some(d1) && StoresAboveTop(d1.instr) && PushesConstant(d0.instr)
    requires FetchAt(env, addr + d0.size + d1.size) == Some(d2) && d2.instr.desc.mnemonic == RETN
    ensures PushImmIdiom(env, addr, d0)
            == Some(Known(addr, PushSplitImm64Ret, [d0.size, d1.size, d2.size],
                          Quadword(d0.instr.immediate, d1.instr.immediate)))
  {
    hide FetchAt, PushImm, MovRsp4Imm, PushesConstant, Known, StoresAboveTop;
    PushImmDetected(d0.instr);
    StoreDetected(d1.instr);
    StoreIsMove(d1.instr);
  }

  lemma PushRegPair(env: Env, addr: u64, d0: Decoded, d1: Decoded, r: u5)
    requires FetchAt(env, addr + d0.size) == Some(d1) && d1.instr.desc.mnemonic == RETN && PushesRegister(d0.instr, r)
    ensures PushRegIdiom(env, addr, d0)
            == Some(Blank(addr).(effect := Jump, form := PushRegRet, resolution := RegisterDynamic, reg := Some(r),
                                 hasFallthrough := false, lengths := [d0.size, d1.size]))
  {
    hide FetchAt, PushReg, PushesRegister;
    PushRegDetected(d0.instr, r);
  }

  lemma PushShapes(env: Env, opt: Options, addr: u64, d: Decoded)
    requires Fetch(env.table, env.code, addr) == Some(d)
    ensures PushImmIdiom(env, addr, d).Some? ==> Shape(env, opt, addr) == PushImmIdiom(env, addr, d)
    ensures PushImmIdiom(env, addr, d).None? && PushRegIdiom(env, addr, d).Some? ==>
              Shape(env, opt, addr) == PushRegIdiom(env, addr, d)
  {
    hide Fetch, PushImmIdiom, PushRegIdiom, LoadIdiom, SingleForm;
  }

  lemma ShapeStays(env: Env, opt: Options, addr: u64, p: Pattern)
    requires Shape(env, opt, addr) == Some(p) && p.resolution != MemoryPointer
    ensures Recognize(env, opt, addr) == Some(p)
  {
    hide Shape, Resolve;
  }

  /** A constant pushed, and a return. */
  lemma PushPairFound(env: Env, opt: Options, addr: u64, ins: seq<Decoded>)
    requires Stand(env, addr, ins) && |ins| == 2 && PushesConstant(ins[0].instr) && ins[1].instr.desc.mnemonic == RETN
    ensures Recognize(env, opt, addr)
            == Some(Reported(addr, ins, 1).(resolution := Concrete, target := ins[0].instr.immediate % W64,
                                            form := PushImmRet))
  {
    hide FetchAt, Fetch, Stand, PushImmIdiom, PushesConstant, Resolve, Sizes, Shape, Recognize;
    StandFirst(env, addr, ins);
    SizesShort(ins);
    PushShapes(env, opt, addr, ins[0]);
    PushPair(env, addr, ins[0], ins[1]);
    ShapeStays(env, opt, addr, PushImmIdiom(env, addr, ins[0]).value);
  }

  /** A constant pushed, its upper half replaced, and a return: the target is the low half of
      the one and the high half of the other. */
  lemma PushTripleFound(env: Env, opt: Options, addr: u64, ins: seq<Decoded>)
    requires Stand(env, addr, ins) && |ins| == 3 && PushesConstant(ins[0].instr) && StoresAboveTop(ins[1].instr)
    requires ins[2].instr.desc.mnemonic == RETN
    ensures Recognize(env, opt, addr)
            == Some(Reported(addr, ins, 2).(
                      resolution := Concrete, form := PushSplitImm64Ret,
                      target := Quadword(ins[0].instr.immediate, ins[1].instr.immediate)))
  {
    hide FetchAt, Fetch, Stand, PushImmIdiom, PushesConstant, StoresAboveTop, Resolve, Sizes, Shape, Recognize;
    StandFirst(env, addr, ins);
    SizesShort(ins);
    PushShapes(env, opt, addr, ins[0]);
    PushTriple(env, addr, ins[0], ins[1], ins[2]);
    ShapeStays(env, opt, addr, PushImmIdiom(env, addr, ins[0]).value);
  }

  /** A register pushed, and a return. */
  lemma PushRegisterFound(env: Env, opt: Options, addr: u64, ins: seq<Decoded>, r: u5)
    requires Stand(env, addr, ins) && |ins| == 2 && PushesRegister(ins[0].instr, r) && !PushesConstant(ins[0].instr)
    requires ins[1].instr.desc.mnemonic == RETN
    ensures Recognize(env, opt, addr)
            == Some(Reported(addr, ins, 1).(resolution := RegisterDynamic, reg := Some(r), form := PushRegRet))
  {
    hide FetchAt, Fetch, Stand, PushImmIdiom, PushRegIdiom, PushesConstant, PushesRegister, Resolve, Sizes, Shape,
         Recognize;
    StandFirst(env, addr, ins);
    SizesShort(ins);
    PushShapes(env, opt, addr, ins[0]);
    PushPair(env, addr, ins[0], ins[1]);
    PushRegPair(env, addr, ins[0], ins[1], r);
    ShapeStays(env, opt, addr, PushRegIdiom(env, addr, ins[0]).value);
  }

  // ------------------------------------------------------------ and no other idioms

  lemma StandMore(env: Env, addr: u64, ins: seq<Decoded>, d: Decoded)
    requires Stand(env, addr, ins) && FetchAt(env, addr + SumOf(Sizes(ins))) == Some(d)
    ensures Stand(env, addr, ins + [d]) && Sizes(ins + [d]) == Sizes(ins) + [d.size]
  {
    hide FetchAt, SumOf;
    var more := ins + [d];
    forall k | 0 <= k < |more|
      ensures FetchAt(env, addr + SumOf(Sizes(more[..k]))) == Some(more[k])
    {
      assert more[..k] == ins[..k];
      assert k == |ins| ==> ins[..k] == ins;
    }
  }

  lemma FoldedComputes(opt: Options, ld: LoadOp, i: DecodedInstr)
    requires Folded(opt, ld, i).Some?
    ensures opt.foldArith && ld.kind == ConstLoad && Computes(i, ld.reg)
    ensures Folded(opt, ld, i).value.reg == ld.reg && Folded(opt, ld, i).value.kind == ConstLoad
  {
    hide ArithImm, ApplyArith, Computes;
    ArithDetected(i, ld.reg);
  }

  lemma {:induction false} ScanOnly(env: Env, opt: Options, addr: u64, ld: LoadOp, arith: bool, pre: seq<Decoded>)
    returns (ins: seq<Decoded>, m: nat)
    requires Stand(env, addr, pre) && pre != [] && Scan(env, opt, addr, ld, arith, Sizes(pre)).Some?
    requires forall j :: 0 < j < |pre| ==> Computes(pre[j].instr, ld.reg)
    requires |pre| > 1 ==> opt.foldArith && ld.kind == ConstLoad
    ensures Stand(env, addr, ins) && |pre| <= m < |ins| && m < opt.maxIdiomInsns && m < 6 && Ends(ins, m, ld.reg)
    ensures ins[0] == pre[0] && forall j :: 0 < j < m ==> Computes(ins[j].instr, ld.reg)
    ensures m > 1 ==> opt.foldArith && ld.kind == ConstLoad
    decreases 6 - |pre|
  {
    hide FetchAt, SumOf, BranchReg, PushReg, Folded, Computes, Stand, Sizes, BranchesThrough, PushesRegister;
    var d := FetchAt(env, addr + SumOf(Sizes(pre))).value;
    StandMore(env, addr, pre, d);
    BranchDetected(d.instr, ld.reg);
    PushRegDetected(d.instr, ld.reg);
    SumMore(Sizes(pre), d.size);
    m := |pre|;
    if BranchReg(d.instr) == Some(ld.reg) {
      ins := pre + [d];
    } else if PushReg(d.instr) == Some(ld.reg) {
      var ret := FetchAt(env, addr + SumOf(Sizes(pre)) + d.size).value;
      StandMore(env, addr, pre + [d], ret);
      ins := pre + [d] + [ret];
    } else {
      FoldedComputes(opt, ld, d.instr);
      ins, m := ScanOnly(env, opt, addr, Folded(opt, ld, d.instr).value, true, pre + [d]);
    }
  }

  lemma LoadKinds(i: DecodedInstr, addr: u64)
    requires LoadOf(i, addr).Some?
    ensures var ld := LoadOf(i, addr).value;
            match ld.kind
            case ConstLoad => MovesConstant(i, ld.reg, ld.val)
            case LeaLoad => TakesAddress(i, addr, ld.reg, ld.val)
            case MemLoad => LoadsSlot(i, ld.reg)
  {
    hide MovRegImm, LeaRip, MovRegMem, MovesConstant, TakesAddress, LoadsSlot;
    var ld := LoadOf(i, addr).value;
    LoadsDetected(i, addr, ld.reg, ld.val);
  }

  lemma MoveIsNoTransfer(env: Env, addr: u64, d: Decoded)
    requires d.instr.desc.mnemonic in {MOV, LEA, PUSH}
    ensures SingleForm(addr, d).None?
    ensures d.instr.desc.mnemonic != PUSH ==> PushImmIdiom(env, addr, d).None? && PushRegIdiom(env, addr, d).None?
    ensures d.instr.desc.mnemonic == PUSH ==> LoadOf(d.instr, addr).None?
  {
    hide HasAddr, FetchAt, BuildMemRef;
  }

  lemma SizesOne(d: Decoded)
    ensures Sizes([d]) == [d.size]
  {
  }

  lemma StandOne(env: Env, addr: u64, d: Decoded)
    requires Fetch(env.table, env.code, addr) == Some(d)
    ensures Stand(env, addr, [d])
  {
    hide Fetch;
    NoSizes();
    assert [d][..0] == [];
  }

  /** Nothing else that starts with a move or an address is reported: whenever there is a
      report, a load of a register stands there, then arithmetic on it with immediates, if
      the load was of a constant, and then a branch through it or a push of it with a
      return, within the limits. */
  lemma LoadIdiomOnly(env: Env, opt: Options, addr: u64, d: Decoded)
    returns (ins: seq<Decoded>, m: nat, r: u5, v: u64)
    requires Fetch(env.table, env.code, addr) == Some(d) && d.instr.desc.mnemonic in {MOV, LEA}
    requires Recognize(env, opt, addr).Some?
    ensures Stand(env, addr, ins) && 0 < m < |ins| && m < opt.maxIdiomInsns && m < 6 && Ends(ins, m, r) && ins[0] == d
    ensures MovesConstant(d.instr, r, v) || TakesAddress(d.instr, addr, r, v) || LoadsSlot(d.instr, r)
    ensures forall j :: 0 < j < m ==> Computes(ins[j].instr, r)
    ensures m > 1 ==> opt.foldArith && MovesConstant(d.instr, r, v)
  {
    hide Fetch, Resolve, Scan, LoadOf, Sizes, Stand, Ends, Computes, MovesConstant, TakesAddress, LoadsSlot, HasAddr,
         PushRegIdiom, PushImmIdiom;
    MoveIsNoTransfer(env, addr, d);
    var ld := LoadOf(d.instr, addr).value;
    r, v := ld.reg, ld.val;
    LoadKinds(d.instr, addr);
    SizesOne(d);
    StandOne(env, addr, d);
    ins, m := ScanOnly(env, opt, addr, ld, false, [d]);
  }

  lemma PushKinds(env: Env, opt: Options, addr: u64, d: Decoded)
    requires Fetch(env.table, env.code, addr) == Some(d) && d.instr.desc.mnemonic == PUSH
    requires Recognize(env, opt, addr).Some?
    ensures PushImmIdiom(env, addr, d).Some? || PushRegIdiom(env, addr, d).Some?
  {
    hide FetchAt, Fetch, Resolve, LoadOf, SingleForm, PushImmIdiom, PushRegIdiom;
    MoveIsNoTransfer(env, addr, d);
  }

  /** What stands behind the push. */
  lemma PushIdiomParts(env: Env, addr: u64, d: Decoded) returns (rest: seq<Decoded>)
    requires PushImmIdiom(env, addr, d).Some? || PushRegIdiom(env, addr, d).Some?
    ensures |rest| in {1, 2} && rest[|rest| - 1].instr.desc.mnemonic == RETN
    ensures FetchAt(env, addr + d.size) == Some(rest[0])
    ensures |rest| == 2 ==> && FetchAt(env, addr + d.size + rest[0].size) == Some(rest[1])
                            && PushImm(d.instr).Some? && MovRsp4Imm(rest[0].instr).Some?
    ensures |rest| == 1 ==> PushImm(d.instr).Some? || PushReg(d.instr).Some?
  {
    hide FetchAt, PushImm, PushReg, MovRsp4Imm;
    var d1 := FetchAt(env, addr + d.size).value;
    if d1.instr.desc.mnemonic == RETN {
      rest := [d1];
    } else {
      rest := [d1, FetchAt(env, addr + d.size + d1.size).value];
    }
  }

  lemma PushDetected(i: DecodedInstr)
    ensures PushImm(i).Some? ==> PushesConstant(i)
    ensures PushReg(i).Some? ==> exists r: u5 :: PushesRegister(i, r)
  {
    hide PushImm, PushReg, PushesConstant, PushesRegister;
    PushImmDetected(i);
    PushRegDetected(i, if PushReg(i).Some? then PushReg(i).value else 0);
  }

  lemma StandBehind(env: Env, addr: u64, d: Decoded, rest: seq<Decoded>)
    requires Fetch(env.table, env.code, addr) == Some(d) && |rest| in {1, 2}
    requires FetchAt(env, addr + d.size) == Some(rest[0])
    requires |rest| == 2 ==> FetchAt(env, addr + d.size + rest[0].size) == Some(rest[1])
    ensures Stand(env, addr, [d] + rest)
  {
    hide FetchAt, Fetch, Sizes, SumOf, Stand;
    SizesOne(d);
    StandOne(env, addr, d);
    SumOne(d.size);
    StandMore(env, addr, [d], rest[0]);
    if |rest| == 2 {
      SumMore([d.size], rest[0].size);
      StandMore(env, addr, [d] + [rest[0]], rest[1]);
      assert [d] + [rest[0]] + [rest[1]] == [d] + rest;
    } else {
      assert rest == [rest[0]];
    }
  }

  /** Nor anything else that starts with a push. */
  lemma PushIdiomOnly(env: Env, opt: Options, addr: u64, d: Decoded) returns (ins: seq<Decoded>)
    requires Fetch(env.table, env.code, addr) == Some(d) && d.instr.desc.mnemonic == PUSH
    requires Recognize(env, opt, addr).Some?
    ensures Stand(env, addr, ins) && |ins| in {2, 3} && ins[0] == d && ins[|ins| - 1].instr.desc.mnemonic == RETN
    ensures |ins| == 3 ==> PushesConstant(d.instr) && StoresAboveTop(ins[1].instr)
    ensures |ins| == 2 ==> PushesConstant(d.instr) || exists r: u5 :: PushesRegister(d.instr, r)
  {
    hide FetchAt, Fetch, Recognize, Sizes, SumOf, Stand, PushesConstant, PushesRegister, StoresAboveTop, PushImm,
         PushReg,
         MovRsp4Imm, PushImmIdiom, PushRegIdiom;
    PushKinds(env, opt, addr, d);
    var rest := PushIdiomParts(env, addr, d);
    PushDetected(d.instr);
    StoreDetected(rest[0].instr);
    ins := [d] + rest;
    StandBehind(env, addr, d, rest);
  }

  // ------------------------------------------------------------ single transfers

  /** An instruction that starts no idiom is judged by itself. */
  lemma Alone(env: Env, opt: Options, addr: u64, d: Decoded)
    requires Fetch(env.table, env.code, addr) == Some(d) && d.instr.desc.mnemonic !in {PUSH, MOV, LEA}
    ensures Shape(env, opt, addr) == SingleForm(addr, d) && d.instr.length == d.size
  {
    hide Fetch, SingleForm, HasAddr, BuildMemRef;
    FetchedLength(env.table, env.code, addr);
  }

  lemma SingleIsShape(env: Env, opt: Options, addr: u64, d: Decoded)
    requires Fetch(env.table, env.code, addr) == Some(d) && d.instr.desc.mnemonic !in {PUSH, MOV, LEA}
    ensures SingleForm(addr, d).None? ==> Recognize(env, opt, addr).None?
    ensures SingleForm(addr, d).Some? ==>
              var p, r := SingleForm(addr, d).value, Recognize(env, opt, addr);
              r.Some? && SameBut(p, r.value) && (p.resolution != MemoryPointer ==> r == Some(p))
  {
    hide Fetch, SingleForm, Shape, Resolve;
    Alone(env, opt, addr, d);
    if SingleForm(addr, d).Some? {
      RecognizeShape(env, opt, addr);
    }
  }

  predicate IsNearOrFar(m: Mnemonic) {
    m == JMP || m == JMPF || m == CALL || m == CALLF
  }

  lemma CountSingle(addr: u64, d: Decoded)
    requires d.instr.desc.mnemonic.CountJcc?
    ensures SingleForm(addr, d)
            == Some(Blank(addr).(resolution := Concrete, target := (addr + d.size + d.instr.immediate) % W64,
                                 lengths := [d.size], form := CountConditional, effect := ConditionalJump,
                                 isConditional := true))
  {
    hide HasAddr, HasIndirect;
  }

  /** The pattern of a transfer to a relative target, whatever its form and effect. */
  function Direct(addr: u64, d: Decoded): Pattern {
    Blank(addr).(resolution := Concrete, target := (addr + d.size + d.instr.immediate) % W64, lengths := [d.size])
  }

  lemma RelativeConcrete(p: Pattern, m: Mnemonic, target: u64)
    ensures RelativeForm(p, m, target).resolution == Concrete
  {
  }

  lemma RelativeSingle(env: Env, opt: Options, addr: u64, d: Decoded)
    requires Fetch(env.table, env.code, addr) == Some(d) && HasOperand(d.instr.desc, RelOffset)
    requires d.instr.desc.mnemonic.Jcc? || IsNearOrFar(d.instr.desc.mnemonic)
    ensures Recognize(env, opt, addr)
            == Some(RelativeForm(Blank(addr).(lengths := [d.size]), d.instr.desc.mnemonic, Direct(addr, d).target))
  {
    hide Fetch, HasAddr, HasOperand, SingleForm, Shape, Resolve, Recognize, RelativeForm, SameBut;
    OperandIs(d.instr.desc, RelOffset);
    Alone(env, opt, addr, d);
    SingleRelative(addr, d);
    RelativeConcrete(Blank(addr).(lengths := [d.size]), d.instr.desc.mnemonic, Direct(addr, d).target);
    SingleIsShape(env, opt, addr, d);
  }

  /** Jumps on a counter. */
  lemma CountFound(env: Env, opt: Options, addr: u64, d: Decoded)
    requires Fetch(env.table, env.code, addr) == Some(d) && d.instr.desc.mnemonic.CountJcc?
    ensures Recognize(env, opt, addr)
            == Some(Direct(addr, d).(form := CountConditional, effect := ConditionalJump, isConditional := true))
  {
    hide Fetch, SingleForm, Shape, Resolve, Recognize;
    CountSingle(addr, d);
    SingleIsShape(env, opt, addr, d);
  }

  /** Jumps on a condition with a relative operand. */
  lemma ConditionalFound(env: Env, opt: Options, addr: u64, d: Decoded)
    requires Fetch(env.table, env.code, addr) == Some(d) && d.instr.desc.mnemonic.Jcc?
             && HasOperand(d.instr.desc, RelOffset)
    ensures Recognize(env, opt, addr)
            == Some(Direct(addr, d).(form := RelNear, effect := ConditionalJump, isConditional := true))
  {
    hide Fetch, Recognize, HasOperand;
    RelativeSingle(env, opt, addr, d);
  }

  /** Jumps with a relative operand. */
  lemma JumpFound(env: Env, opt: Options, addr: u64, d: Decoded)
    requires Fetch(env.table, env.code, addr) == Some(d) && HasOperand(d.instr.desc, RelOffset)
    requires d.instr.desc.mnemonic == JMP || d.instr.desc.mnemonic == JMPF
    ensures Recognize(env, opt, addr)
            == Some(Direct(addr, d).(form := RelNear, effect := Jump, hasFallthrough := false))
  {
    hide Fetch, Recognize, HasOperand;
    RelativeSingle(env, opt, addr, d);
  }

  /** Calls with a relative operand. */
  lemma CallFound(env: Env, opt: Options, addr: u64, d: Decoded)
    requires Fetch(env.table, env.code, addr) == Some(d) && HasOperand(d.instr.desc, RelOffset)
    requires d.instr.desc.mnemonic == CALL || d.instr.desc.mnemonic == CALLF
    ensures Recognize(env, opt, addr)
            == Some(Direct(addr, d).(form := RelNear, effect := CallEffect, pushesReturn := true))
  {
    hide Fetch, Recognize, HasOperand;
    RelativeSingle(env, opt, addr, d);
  }

  /** Far jumps and calls, through memory or to an immediate pointer. */
  lemma FarFound(env: Env, opt: Options, addr: u64, d: Decoded)
    requires Fetch(env.table, env.code, addr) == Some(d) && !HasOperand(d.instr.desc, RelOffset)
    requires d.instr.desc.mnemonic == JMPF || d.instr.desc.mnemonic == CALLF
    ensures var i, call, r := d.instr, d.instr.desc.mnemonic == CALLF, Recognize(env, opt, addr);
            var p := Blank(addr).(isFar := true, effect := if call then CallEffect else Jump, pushesReturn := call,
                                  hasFallthrough := call, lengths := [d.size]);
            && (i.desc.hasModrm ==>
                  r.Some? && SameBut(p.(form := FarIndirect, resolution := MemoryPointer, slot := BuildMemRef(i, addr)),
                                     r.value))
            && (!i.desc.hasModrm ==>
                  r == Some(p.(form := FarDirect, resolution := FarPointer, target := i.immediate % W32,
                               selector := i.displacement % 0x1_0000)))
  {
    hide Fetch, HasAddr, HasOperand, Shape, Resolve, Recognize, BuildMemRef;
    OperandIs(d.instr.desc, RelOffset);
    SingleIsShape(env, opt, addr, d);
  }

  predicate HasRegisterOrMemory(d: InstrDesc) {
    HasOperand(d, ModRM_RM) || HasOperand(d, MemOnly) || HasOperand(d, RegOnly)
  }

  /** The first byte of the table a jump with an index goes through, 0 behind a register. */
  function TableStart(m: MemRef): u64 {
    if m.base.Some? then 0 else if m.ripRelative then m.absAddr else m.disp % W64
  }

  /** Near jumps and calls through a register or memory. */
  lemma IndirectFound(env: Env, opt: Options, addr: u64, d: Decoded)
    requires Fetch(env.table, env.code, addr) == Some(d) && !HasOperand(d.instr.desc, RelOffset)
    requires d.instr.desc.mnemonic == JMP || d.instr.desc.mnemonic == CALL
    ensures var i, call, r := d.instr, d.instr.desc.mnemonic == CALL, Recognize(env, opt, addr);
            var p := Blank(addr).(effect := if call then CallEffect else Jump, pushesReturn := call,
                                  hasFallthrough := call, lengths := [d.size]);
            && (r.Some? <==> HasRegisterOrMemory(i.desc))
            && (HasRegisterOrMemory(i.desc) && i.modrm >= 0xC0 ==>
                  r == Some(p.(form := IndirectReg, resolution := RegisterDynamic, reg := Some(RmRegister(i)))))
            && (HasRegisterOrMemory(i.desc) && i.modrm < 0xC0 ==>
                  var m := BuildMemRef(i, addr);
                  SameBut(p.(form := IndirectMem, resolution := MemoryPointer, slot := m, isJumpTable := m.index.Some?,
                             entrySize := if m.index.Some? then m.scale else 0,
                             tableAddr := if m.index.Some? then TableStart(m) else 0),
                          r.value))
  {
    hide Fetch, HasAddr, HasOperand, Shape, Resolve, Recognize, BuildMemRef;
    forall a: AddrMode
      ensures HasAddr(d.instr.desc, a) <==> HasOperand(d.instr.desc, a)
    {
      OperandIs(d.instr.desc, a);
    }
    SingleIsShape(env, opt, addr, d);
  }

  /** The operand of a table jump is an entry of the table: the one that the index register
      counts, at the entry size reported, from the table's start or, if that is not known,
      from the base register and the displacement. */
  lemma TableEntry(i: DecodedInstr, addr: u64, regs: Regs)
    requires i.modrm < 0xC0 && !(i.enc.hasRex2 && (i.enc.x4 || i.enc.b4)) && BuildMemRef(i, addr).index.Some?
    ensures var m, o := BuildMemRef(i, addr), Offset(i, addr + i.length, regs);
            var entry := regs[m.index.value] * m.scale;
            if m.base.None? then o % W64 == (TableStart(m) + entry) % W64
            else TableStart(m) == 0 && o == regs[m.base.value] + i.displacement + entry
  {
    hide Bit, Power2, SegmentOf;
    var m, entry := BuildMemRef(i, addr), regs[BuildMemRef(i, addr).index.value] * BuildMemRef(i, addr).scale;
    if m.base.None? {
      ModSum(i.displacement, entry, W64);
    }
  }

  /** Returns, traps and system transfers. */
  lemma LeaveFound(env: Env, opt: Options, addr: u64, d: Decoded)
    requires Fetch(env.table, env.code, addr) == Some(d)
    ensures var m, r, p := d.instr.desc.mnemonic, Recognize(env, opt, addr), Blank(addr).(lengths := [d.size]);
            var back := p.(effect := ReturnEffect, resolution := StackDynamic, hasFallthrough := false);
            && (m == RETN ==> r == Some(back.(form := ReturnNear)))
            && (m == RETF ==> r == Some(back.(form := ReturnFar, isFar := true)))
            && (m == IRET || m == IRETD || m == IRETQ ==> r == Some(back.(form := ReturnInterrupt)))
            && (m == INT || m == INT1 || m == INTO ==> r == Some(p.(form := InterruptForm, effect := Interrupt)))
            && (m == UD || m == UD2 ==>
                  r == Some(p.(form := InterruptForm, effect := Interrupt, hasFallthrough := false)))
            && (m == SYSCALL || m == SYSRET || m == SYSENTER || m == SYSEXIT ==>
                  r == Some(p.(form := Syscall, effect := SysTransfer)))
  {
    hide Fetch, HasAddr, HasIndirect, Shape, Resolve, Recognize, BuildMemRef;
    var m := d.instr.desc.mnemonic;
    if IsReturn(m) || IsTrap(m) || IsSyscall(m) {
      SingleIsShape(env, opt, addr, d);
    }
  }

  /** No other instruction transfers control by itself. */
  lemma NothingElseFound(env: Env, opt: Options, addr: u64, d: Decoded)
    requires Fetch(env.table, env.code, addr) == Some(d)
    requires var m := d.instr.desc.mnemonic;
             && !m.CountJcc? && !IsNearOrFar(m) && m !in {PUSH, MOV, LEA} && !IsReturn(m) && !IsTrap(m) && !IsSyscall(m)
             && (m.Jcc? ==> !HasOperand(d.instr.desc, RelOffset))
    ensures Recognize(env, opt, addr).None?
  {
    hide Fetch, HasAddr, HasOperand, HasIndirect, Shape, Resolve, Recognize, BuildMemRef;
    OperandIs(d.instr.desc, RelOffset);
    SingleIsShape(env, opt, addr, d);
  }
}
