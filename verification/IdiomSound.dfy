/** Idioms mean what the recognizer says: running their instructions ends at the target. */
module IdiomSound {
  import opened Words
  import opened InstrTable
  import opened Decoder
  import opened Operands
  import opened Flow
  import opened Machine
  import opened Branch
  import opened Transfers
  import NarrowFold

  /** No segment base, no address-size prefix and no upper register for the memory operand. */
  predicate FlatOperand(i: DecodedInstr) {
    && (forall x <- i.legacyPrefix :: x != 0x64 && x != 0x65 && x != 0x67)
    && !(i.enc.hasRex2 && (i.enc.x4 || i.enc.b4))
  }

  predicate IsPointerSize(n: nat) {
    n == 4 || n == 8
  }

  /** A move at the width of its REX.W bit, or a store of 32 or 64 bits. */
  predicate SizedMov(i: DecodedInstr) {
    if StoresToMemory(i) then FlatOperand(i) && IsPointerSize(FirstSize(i))
    else FirstSize(i) == (if RexW(i) then 8 else 4) && (LoadsFromMemory(i) ==> FlatOperand(i))
  }

  predicate SizedNear(i: DecodedInstr) {
    && !(HasAddr(i.desc, RelOffset) && HasIndirect(i.desc))
    && (HasIndirect(i.desc) && ModOf(i.modrm) != 3 ==> FlatOperand(i))
  }

  /** What the recognizer takes for granted about one instruction: an encoding of the
      machine, flat memory operands, moves at the width of the REX.W bit, addresses of 32
      or 64 bits, stack operations and transfers of 64 bits, and operands of one kind. */
  predicate Sized(i: DecodedInstr) {
    var d := i.desc;
    && Plain(i) && (HasAddressSize(d.mnemonic) ==> 0x66 !in i.legacyPrefix)
    && match d.mnemonic
       case MOV => SizedMov(i)
       case LEA => AddrAt(d, 0) == ModRM_Reg && 0x67 !in i.legacyPrefix && IsPointerSize(FirstSize(i))
       case ADD | SUB | OR | XOR | AND | SHL | SHR | SAR => FirstSize(i) in {1, 2, 4, 8} && Written(i).Some?
       case PUSH => !(HasAddr(d, Immediate) && HasAddr(d, OpcodeReg))
       case JMP | CALL => SizedNear(i)
       case JMPF | CALLF => false
       case _ => true
  }

  /** `n` consecutive instructions from `addr` on are as the recognizer takes them. */
  predicate SizedRun(env: Env, addr: u64, n: nat)
    decreases n
  {
    n == 0 ||
    var r := Fetch(env.table, env.code, addr);
    r.Some? && Sized(r.value.instr) && SizedRun(env, At(addr, r.value.size), n - 1)
  }

  lemma FetchedLength(t: Table, img: Image, addr: u64)
    requires Fetch(t, img, addr).Some?
    ensures var r := Fetch(t, img, addr).value; 1 <= r.size <= 15 && r.instr.length == r.size
  {
    hide Window, Choose, ParseTail, ParseHead;
  }

  // ------------------------------------------------------------ the stack

  lemma PushedValue(s: State, next: u64, v: int)
    ensures var s1 := Push(s, next, v);
            s1.rip == next && Load(s1.mem, s1.regs[RSP], 8) == Le(v, 8)
              && FromLe(Load(s1.mem, s1.regs[RSP], 8)) == v % W64
  {
    hide Store, Load, Le, FromLe;
    var rsp: u64 := (s.regs[RSP] - 8) % W64;
    LoadStored(s.mem, rsp, Le(v, 8));
    FromLeOfLe(v, 8);
    Pow256Values();
  }

  /** A return right after a push goes where the push said. */
  lemma PushReturn(s: State, next: u64, v: int, extra: nat)
    ensures Pop(Push(s, next, v), extra).rip == v % W64
  {
    hide Store, Load, Le, FromLe, Push;
    PushedValue(s, next, v);
    ModSum(v, 0, W64);
  }

  /** Without the REX2 bits there are sixteen registers. */
  lemma PlainRegisters(i: DecodedInstr)
    requires Plain(i)
    ensures RegFromOpcode(i) == OpcodeRegister(i) && RegFromRm(i) == RmRegister(i) && RegFromReg(i) == RegRegister(i)
  {
  }

  lemma ReturnPops(r: Decoded, s: State)
    requires Sized(r.instr) && r.instr.desc.mnemonic == RETN
    ensures Exec(r, s).Some? && exists extra: nat :: Exec(r, s).value == Pop(s, extra)
  {
    var extra: nat := if HasAddr(r.instr.desc, Immediate) then r.instr.immediate % 0x1_0000 else 0;
    assert Exec(r, s).value == Pop(s, extra);
  }

  lemma ExecPushImm(r: Decoded, s: State)
    requires Sized(r.instr) && PushImm(r.instr).Some?
    ensures Exec(r, s) == Some(Push(s, At(s.rip, r.size), PushImm(r.instr).value))
  {
    hide Push, HasAddr, HasIndirect, OpcodeRegister, RmRegister, Plain;
  }

  lemma ExecPushReg(r: Decoded, s: State)
    requires Sized(r.instr) && PushReg(r.instr).Some?
    ensures var reg := PushReg(r.instr).value;
            reg < 16 && Exec(r, s) == Some(Push(s, At(s.rip, r.size), s.regs[reg]))
  {
    hide Push, HasAddr, HasIndirect, OpcodeRegister, RmRegister;
    PlainRegisters(r.instr);
  }

  // ------------------------------------------------------------ push and return

  lemma RunNone(env: Env, s: State)
    ensures Run(env.table, env.code, s, 0) == Some(s)
  {
  }

  lemma RunReturn(env: Env, s: State, d: Decoded)
    requires Fetch(env.table, env.code, s.rip) == Some(d) && Sized(d.instr) && d.instr.desc.mnemonic == RETN
    ensures var r := Run(env.table, env.code, s, 1); r.Some? && exists extra: nat :: r.value == Pop(s, extra)
  {
    hide Fetch, Exec, Pop, Sized;
    ReturnPops(d, s);
    RunOne(env.table, env.code, s, d, Exec(d, s).value, 0);
    RunNone(env, Exec(d, s).value);
  }

  lemma PushImmRuns(env: Env, s: State, d0: Decoded)
    requires Fetch(env.table, env.code, s.rip) == Some(d0) && PushImm(d0.instr).Some?
             && IsRetn(FetchAt(env, s.rip + d0.size))
    requires SizedRun(env, s.rip, 2)
    ensures var r := Run(env.table, env.code, s, 2); r.Some? && r.value.rip == PushImm(d0.instr).value % W64
  {
    hide Fetch, Exec, Push, Pop, Sized, PushImm;
    var v, next := PushImm(d0.instr).value, At(s.rip, d0.size);
    var d1 := Fetch(env.table, env.code, next).value;
    assert SizedRun(env, next, 1);
    ExecPushImm(d0, s);
    var s1 := Push(s, next, v);
    PushedValue(s, next, v);
    RunOne(env.table, env.code, s, d0, s1, 1);
    RunReturn(env, s1, d1);
    forall extra: nat
      ensures Pop(s1, extra).rip == v % W64
    {
      PushReturn(s, next, v, extra);
    }
  }

  lemma LowHalf(v: int)
    ensures Le(v, 8)[..4] == Le(v, 4)
  {
    var a, b := v / 256, v / 256 / 256;
    assert Le(v, 8) == [v % 256] + Le(a, 7) && Le(a, 7) == [a % 256] + Le(b, 6);
    assert Le(b, 6) == [b % 256] + Le(b / 256, 5) && Le(b / 256, 5) == [b / 256 % 256] + Le(b / 256 / 256, 4);
    assert Le(v, 4) == [v % 256] + Le(a, 3) && Le(a, 3) == [a % 256] + Le(b, 2);
    assert Le(b, 2) == [b % 256] + Le(b / 256, 1) && Le(b / 256, 1) == [b / 256 % 256] + Le(b / 256 / 256, 0);
  }

  lemma FlatEffective(i: DecodedInstr, s: State)
    requires FlatOperand(i) && ModOf(i.modrm) != 3
    ensures Effective(i, s) == AddressOffset(Denotes(FromDecoded(i)), s.rip + i.length, s.regs) % W64
  {
    hide SegmentBase, Offset, AddressOffset, Denotes, FromDecoded;
    FlatWithout(i.legacyPrefix, s.bases);
    OffsetIs(i, s.rip + i.length, s.regs);
    ModSum(Offset(i, s.rip + i.length, s.regs), 0, W64);
  }

  lemma RipHasNoBase(i: DecodedInstr)
    ensures FromDecoded(i).ripRelative ==> FromDecoded(i).base.None?
  {
  }

  lemma AboveTop(i: DecodedInstr, s: State)
    requires MovRsp4Imm(i).Some? && FlatOperand(i)
    ensures Effective(i, s) == At(s.regs[RSP], 4) && MovRsp4Imm(i).value == i.immediate % W32
  {
    hide FromDecoded, BuildMemRef, Effective;
    FlatEffective(i, s);
    ReadersAgree(i, 0);
    RipHasNoBase(i);
  }

  lemma ExecStore(r: Decoded, s: State)
    requires Sized(r.instr) && MovRsp4Imm(r.instr).Some?
    ensures var i := r.instr;
            && FlatOperand(i) && IsPointerSize(FirstSize(i))
            && Exec(r, s)
               == Some(s.(rip := At(s.rip, r.size),
                          mem := Store(s.mem, Effective(i, s), Le(i.immediate, FirstSize(i)))))
  {
    hide Store, Le, Effective, BuildMemRef, FirstSize, HasAddr, Plain, FlatOperand;
  }

  /** The store to `[rsp + 4]`. */
  lemma StoreAboveTop(r: Decoded, s: State) returns (size: nat)
    requires Sized(r.instr) && MovRsp4Imm(r.instr).Some?
    ensures IsPointerSize(size)
    ensures Exec(r, s)
            == Some(s.(rip := At(s.rip, r.size), mem := Store(s.mem, At(s.regs[RSP], 4), Le(r.instr.immediate, size))))
    ensures MovRsp4Imm(r.instr).value == r.instr.immediate % W32
  {
    hide Store, Le, Effective, Exec, Sized, MovRsp4Imm, FlatOperand;
    ExecStore(r, s);
    AboveTop(r.instr, s);
    size := FirstSize(r.instr);
  }

  /** The quadword on top of the stack after the upper half was replaced. */
  lemma PatchedTop(s: State, next: u64, v: int, w: int, size: nat)
    requires size == 4 || size == 8
    ensures var s1 := Push(s, next, v);
            FromLe(Load(Store(s1.mem, At(s1.regs[RSP], 4), Le(w, size)), s1.regs[RSP], 8)) == v % W32 + W32 * (w % W32)
  {
    hide Store, Load, Le, FromLe, Push;
    var s1 := Push(s, next, v);
    PushedValue(s, next, v);
    LoadPatched(s1.mem, s1.regs[RSP], Le(w, size));
    LowHalf(v);
    LowHalf(w);
    assert Le(w, size)[..4] == Le(w, 4);
    FromLeConcat(Le(v, 4), Le(w, 4));
    FromLeOfLe(v, 4);
    FromLeOfLe(w, 4);
    Pow256Values();
  }

  lemma PushSplitRuns(env: Env, s: State, d0: Decoded, d1: Decoded)
    requires Fetch(env.table, env.code, s.rip) == Some(d0) && PushImm(d0.instr).Some?
    requires FetchAt(env, s.rip + d0.size) == Some(d1) && MovRsp4Imm(d1.instr).Some?
    requires IsRetn(FetchAt(env, s.rip + d0.size + d1.size)) && SizedRun(env, s.rip, 3)
    ensures var r := Run(env.table, env.code, s, 3);
            r.Some? && r.value.rip == PushImm(d0.instr).value % W32 + W32 * MovRsp4Imm(d1.instr).value
  {
    hide Fetch, Exec, Push, Store, Load, Le, FromLe, Sized, PushImm, MovRsp4Imm;
    var v, n1, n2 := PushImm(d0.instr).value, At(s.rip, d0.size), At(s.rip, d0.size + d1.size);
    assert n2 == At(n1, d1.size) by {
      ModSum(s.rip + d0.size, d1.size, W64);
    }
    assert SizedRun(env, n1, 2) && SizedRun(env, n2, 1);
    var d2 := Fetch(env.table, env.code, n2).value;
    ExecPushImm(d0, s);
    var s1 := Push(s, n1, v);
    PushedValue(s, n1, v);
    var size := StoreAboveTop(d1, s1);
    var s2 := Exec(d1, s1).value;
    PatchedTop(s, n1, v, d1.instr.immediate, size);
    RunReturn(env, s2, d2);
    RunOne(env.table, env.code, s1, d1, s2, 1);
    RunOne(env.table, env.code, s, d0, s1, 2);
    ModUnique(v % W32 + W32 * MovRsp4Imm(d1.instr).value, W64, 0, v % W32 + W32 * MovRsp4Imm(d1.instr).value);
  }

  // ------------------------------------------------------------ folding

  /** On 64 bits folding is what the processor computes. */
  lemma FoldSums(v: u64, imm: int)
    ensures (v + imm % W64) % W64 == (v + imm) % W64 && (v - imm % W64) % W64 == (v - imm) % W64
  {
    ModSum(imm, v, W64);
    ModShift(v - imm, W64, imm / W64);
    assert v - imm + W64 * (imm / W64) == v - imm % W64;
  }

  lemma FoldIsAlu(m: Mnemonic, v: u64, imm: int)
    requires IsArith(m)
    ensures WriteReg(v, 8, Alu(m, 8, v, imm)) == ApplyArith(m, v, imm)
  {
    hide Bitwise, Pow2, Signed, Pow256;
    Pow256Values();
    ModUnique(v, W64, 0, v);
    FoldSums(v, imm);
    var k := Pow2(imm % 64);
    QuotientBound(v, k);
    ModUnique(v / k, W64, 0, v / k);
    forall x: int
      ensures x % W64 % W64 == x % W64
    {
      ModSum(x, 0, W64);
    }
  }

  /** Whether folding the instruction on 64 bits is right for the value in the register. */
  predicate FoldFits(i: DecodedInstr, v: u64) {
    ArithImm(i).Some? && FirstSize(i) in {1, 2, 4} ==>
      NarrowFold.Fits(ArithImm(i).value.1, FirstSize(i), v, ArithImm(i).value.2)
  }

  lemma FoldIsResult(m: Mnemonic, size: nat, v: u64, imm: int)
    requires IsArith(m) && size in {1, 2, 4, 8} && (size != 8 ==> NarrowFold.Fits(m, size, v, imm))
    ensures WriteReg(v, size, Alu(m, size, v, imm)) == ApplyArith(m, v, imm)
  {
    hide Alu, ApplyArith, WriteReg;
    if size == 8 {
      FoldIsAlu(m, v, imm);
    } else {
      NarrowFold.NarrowFoldIff(m, size, v, imm);
    }
  }

  lemma ArithExecutes(r: Decoded, s: State)
    requires Sized(r.instr) && ArithImm(r.instr).Some?
    ensures var (reg, m, imm) := ArithImm(r.instr).value;
            var size := FirstSize(r.instr);
            && IsArith(m) && reg < 16 && size in {1, 2, 4, 8}
            && Exec(r, s) == Some(SetReg(s, At(s.rip, r.size), reg, size, Alu(m, size, s.regs[reg], imm)))
  {
    hide Alu, SetReg, FirstSize, HasAddr, RmRegister;
    PlainRegisters(r.instr);
  }

  lemma ArithRuns(r: Decoded, s: State)
    requires Sized(r.instr) && ArithImm(r.instr).Some?
    requires var reg := ArithImm(r.instr).value.0; reg < 16 ==> FoldFits(r.instr, s.regs[reg])
    ensures var (reg, m, imm) := ArithImm(r.instr).value;
            && IsArith(m) && reg < 16
            && Exec(r, s) == Some(s.(regs := s.regs[reg := ApplyArith(m, s.regs[reg], imm)], rip := At(s.rip, r.size)))
  {
    hide Alu, ApplyArith, WriteReg, FirstSize, ArithImm, Sized, Exec;
    ArithExecutes(r, s);
    var (reg, m, imm) := ArithImm(r.instr).value;
    FoldIsResult(m, FirstSize(r.instr), s.regs[reg], imm);
  }

  lemma ExecBranchReg(r: Decoded, s: State)
    requires Sized(r.instr) && BranchReg(r.instr).Some?
    ensures BranchReg(r.instr).value < 16
    ensures var to, next := s.regs[BranchReg(r.instr).value], At(s.rip, r.size);
            Exec(r, s) == Some(if r.instr.desc.mnemonic == CALL then Push(s, to, next) else s.(rip := to))
  {
    hide Push, HasAddr, HasIndirect, OpcodeRegister, RmRegister, Plain;
  }

  // ------------------------------------------------------------ load and branch

  /** After `n` instructions control is at `to`, and a call has left `end` on the stack. */
  ghost predicate Arrives(env: Env, s: State, n: nat, to: u64, isCall: bool, end: u64) {
    var r := Run(env.table, env.code, s, n);
    && r.Some? && r.value.rip == to
    && (isCall ==> Load(r.value.mem, r.value.regs[RSP], 8) == Le(end, 8))
  }

  lemma BranchReaches(env: Env, s: State, d: Decoded, reg: u5, v: u64)
    requires Fetch(env.table, env.code, s.rip) == Some(d) && Sized(d.instr) && BranchReg(d.instr) == Some(reg)
    requires reg < 16 && s.regs[reg] == v
    ensures Arrives(env, s, 1, v, d.instr.desc.mnemonic == CALL, At(s.rip, d.size))
  {
    hide Fetch, Exec, Push, Sized, BranchReg, Load, Le;
    ExecBranchReg(d, s);
    var s1 := Exec(d, s).value;
    RunOne(env.table, env.code, s, d, s1, 0);
    RunNone(env, s1);
    PushedValue(s, v, At(s.rip, d.size));
  }

  lemma PushRetReaches(env: Env, s: State, d: Decoded, ret: Decoded, reg: u5, v: u64, end: u64)
    requires Fetch(env.table, env.code, s.rip) == Some(d) && Sized(d.instr) && PushReg(d.instr) == Some(reg)
    requires Fetch(env.table, env.code, At(s.rip, d.size)) == Some(ret) && Sized(ret.instr) && IsRetn(Some(ret))
    requires reg < 16 && s.regs[reg] == v
    ensures Arrives(env, s, 2, v, false, end)
  {
    hide Fetch, Exec, Push, Pop, Sized, PushReg, Load, Le;
    var next := At(s.rip, d.size);
    ExecPushReg(d, s);
    var s1 := Push(s, next, v);
    PushedValue(s, next, v);
    RunOne(env.table, env.code, s, d, s1, 1);
    RunReturn(env, s1, ret);
    forall extra: nat
      ensures Pop(s1, extra).rip == v
    {
      PushReturn(s, next, v, extra);
    }
  }

  /** Every fold of the scan is right for the value it is applied to. */
  predicate FoldsRight(env: Env, opt: Options, addr: u64, ld: LoadOp, lengths: seq<nat>)
    decreases 6 - |lengths|
  {
    |lengths| >= opt.maxIdiomInsns || |lengths| >= 6 ||
    var d := FetchAt(env, addr + SumOf(lengths));
    d.Some? && BranchReg(d.value.instr) != Some(ld.reg) && PushReg(d.value.instr) != Some(ld.reg)
    && Folded(opt, ld, d.value.instr).Some? ==>
      && FoldFits(d.value.instr, ld.val)
      && FoldsRight(env, opt, addr, Folded(opt, ld, d.value.instr).value, lengths + [d.value.size])
  }

  lemma PatternParts(addr: u64, ld: LoadOp, arith: bool, isCall: bool, lengths: seq<nat>)
    ensures var p, q := BranchPattern(addr, ld, arith, isCall, lengths), PushRetPattern(addr, ld, lengths);
            && p.lengths == q.lengths == lengths && p.pushesReturn == isCall && !q.pushesReturn
            && (if ld.kind == MemLoad then p.resolution == q.resolution == MemoryPointer && p.slot == q.slot == ld.slot
                                           && p.ptrSize == q.ptrSize == ld.size
                else p.resolution == q.resolution == Concrete && p.target == q.target == ld.val)
  {
  }

  /** The pattern found by a scan: where the register's value came from. */
  lemma {:induction false} ScanKinds(env: Env, opt: Options, addr: u64, ld: LoadOp, arith: bool, lengths: seq<nat>)
    requires Scan(env, opt, addr, ld, arith, lengths).Some?
    ensures var p := Scan(env, opt, addr, ld, arith, lengths).value;
            if ld.kind == MemLoad then p.resolution == MemoryPointer && p.slot == ld.slot && p.ptrSize == ld.size
            else p.resolution == Concrete
    decreases 6 - |lengths|
  {
    hide Fetch, BranchReg, PushReg, ArithImm, BranchPattern, PushRetPattern, SumOf;
    var d := FetchAt(env, addr + SumOf(lengths)).value;
    var more := lengths + [d.size];
    if BranchReg(d.instr) == Some(ld.reg) {
      PatternParts(addr, ld, arith, d.instr.desc.mnemonic == CALL, more);
    } else if PushReg(d.instr) == Some(ld.reg) {
      PatternParts(addr, ld, arith, false, more + [FetchAt(env, addr + SumOf(lengths) + d.size).value.size]);
    } else {
      ScanKinds(env, opt, addr, Folded(opt, ld, d.instr).value, true, more);
    }
  }

  lemma ArrivesLater(env: Env, s: State, d: Decoded, s1: State, n: nat, to: u64, isCall: bool, end: u64)
    requires Fetch(env.table, env.code, s.rip) == Some(d) && Exec(d, s) == Some(s1)
             && Arrives(env, s1, n, to, isCall, end)
    ensures Arrives(env, s, n + 1, to, isCall, end)
  {
    hide Fetch, Exec, Load, Le;
    RunOne(env.table, env.code, s, d, s1, n);
    hide Run;
  }

  /** A found pattern is longer than what was scanned before. */
  lemma {:induction false} ScanFurther(env: Env, opt: Options, addr: u64, ld: LoadOp, lengths: seq<nat>)
    requires Scan(env, opt, addr, ld, true, lengths).Some?
    ensures |Scan(env, opt, addr, ld, true, lengths).value.lengths| > |lengths|
    decreases 6 - |lengths|
  {
    hide FetchAt, BranchReg, PushReg, Folded, SumOf;
    var d := FetchAt(env, addr + SumOf(lengths)).value;
    if BranchReg(d.instr) != Some(ld.reg) && PushReg(d.instr) != Some(ld.reg) {
      ScanFurther(env, opt, addr, Folded(opt, ld, d.instr).value, lengths + [d.size]);
    }
  }

  /** From the state the instructions so far have reached, with `v` in the register, the
      rest of the idiom ends at the target, or at `v` if that was loaded from memory. */
  lemma {:induction false} ScanReaches(env: Env, opt: Options, addr: u64, ld: LoadOp, arith: bool, lengths: seq<nat>,
                                       s: State, v: u64)
    requires Scan(env, opt, addr, ld, arith, lengths).Some? && FoldsRight(env, opt, addr, ld, lengths)
    requires s.rip == At(addr, SumOf(lengths)) && ld.reg < 16 && s.regs[ld.reg] == v
             && (ld.kind != MemLoad ==> v == ld.val)
    requires var p := Scan(env, opt, addr, ld, arith, lengths).value;
             |p.lengths| > |lengths| ==> SizedRun(env, s.rip, |p.lengths| - |lengths|)
    ensures var p := Scan(env, opt, addr, ld, arith, lengths).value;
            && |p.lengths| > |lengths|
            && Arrives(env, s, |p.lengths| - |lengths|, if ld.kind == MemLoad then v else p.target, p.pushesReturn,
                       At(addr, TotalLength(p)))
    decreases 6 - |lengths|
  {
    hide Fetch, Exec, Arrives, Sized, BranchReg, PushReg, ArithImm, BranchPattern, PushRetPattern, ApplyArith, SumOf,
         FoldFits;
    var p := Scan(env, opt, addr, ld, arith, lengths).value;
    var d := Fetch(env.table, env.code, s.rip).value;
    var more := lengths + [d.size];
    SumMore(lengths, d.size);
    ModSum(addr + SumOf(lengths), d.size, W64);
    PatternParts(addr, ld, arith, d.instr.desc.mnemonic == CALL, more);
    if BranchReg(d.instr) == Some(ld.reg) {
      assert SizedRun(env, s.rip, 1);
      BranchReaches(env, s, d, ld.reg, v);
    } else if PushReg(d.instr) == Some(ld.reg) {
      var ret := Fetch(env.table, env.code, At(s.rip, d.size)).value;
      PatternParts(addr, ld, arith, false, more + [ret.size]);
      assert SizedRun(env, s.rip, 2) && SizedRun(env, At(s.rip, d.size), 1);
      PushRetReaches(env, s, d, ret, ld.reg, v, At(addr, TotalLength(p)));
    } else {
      var next := Folded(opt, ld, d.instr).value;
      ScanFurther(env, opt, addr, next, more);
      assert SizedRun(env, s.rip, 1);
      ArithRuns(d, s);
      var s1 := Exec(d, s).value;
      ScanReaches(env, opt, addr, next, true, more, s1, next.val);
      ArrivesLater(env, s, d, s1, |p.lengths| - |more|, p.target, p.pushesReturn, At(addr, TotalLength(p)));
    }
  }

  lemma MovRuns(r: Decoded, s: State)
    requires Sized(r.instr) && MovRegImm(r.instr).Some?
    ensures var (reg, val) := MovRegImm(r.instr).value;
            reg < 16 && Exec(r, s) == Some(s.(regs := s.regs[reg := val], rip := At(s.rip, r.size)))
  {
    hide FirstSize, HasAddr, OpcodeRegister, RmRegister, RexW, Store, Load, Effective, Le, FromLe, FlatOperand;
    PlainRegisters(r.instr);
  }

  lemma RipOffset(i: DecodedInstr, s: State)
    requires ModOf(i.modrm) == 0 && RmOf(i.modrm) == 5 && 0x67 !in i.legacyPrefix
    ensures OffsetOnly(i, s) == (s.rip + i.length + i.displacement) % W64
  {
  }

  lemma InRange(x: u64)
    ensures x % W64 == x && (x < W32 ==> x % W32 == x)
  {
  }

  lemma LeaRuns(r: Decoded, s: State)
    requires Sized(r.instr) && LeaRip(r.instr, s.rip).Some?
    requires FirstSize(r.instr) == 8 || LeaRip(r.instr, s.rip).value.1 < W32
    ensures var (reg, val) := LeaRip(r.instr, s.rip).value;
            reg < 16 && Exec(r, s) == Some(s.(regs := s.regs[reg := val], rip := At(s.rip, r.size)))
  {
    hide FirstSize, RegRegister, OffsetOnly;
    PlainRegisters(r.instr);
    RipOffset(r.instr, s);
    InRange(OffsetOnly(r.instr, s));
  }

  /** Where the recognizer sees a static slot, the machine finds the operand. */
  lemma SlotAddress(i: DecodedInstr, s: State)
    requires FlatOperand(i) && ModOf(i.modrm) != 3 && BuildMemRef(i, s.rip).staticAddr
    ensures Effective(i, s) == BuildMemRef(i, s.rip).absAddr
  {
    hide BuildMemRef, Linear, SegmentBase, WideIndex, IndexValue;
    StaticOffset(i, s.rip, s.regs);
    NoIndex(i, s.regs);
    StaticAddressAt(i, i.legacyPrefix, s.rip, s.regs, s.bases);
    FlatWithout(i.legacyPrefix, s.bases);
    InRange(BuildMemRef(i, s.rip).absAddr);
  }

  lemma QuadwordRange(b: seq<u8>)
    requires |b| == 8
    ensures FromLe(b) < W64 && FromLe(b) % W64 == FromLe(b)
  {
    Pow256Values();
    InRange(FromLe(b));
  }

  /** A quadword is loaded from a static slot. */
  lemma SlotLoads(r: Decoded, s: State)
    requires Sized(r.instr) && MovRegMem(r.instr, s.rip).Some? && MovRegImm(r.instr).None?
    requires var (reg, slot, size) := MovRegMem(r.instr, s.rip).value; slot.staticAddr && size == 8
    requires !HasAddr(r.instr.desc, Immediate)
    ensures var (reg, slot, size) := MovRegMem(r.instr, s.rip).value;
            var v: int := FromLe(Load(s.mem, slot.absAddr, 8));
            reg < 16 && v < W64 && Exec(r, s) == Some(s.(regs := s.regs[reg := v], rip := At(s.rip, r.size)))
  {
    hide FirstSize, BuildMemRef, RegRegister, RexW, Load, Effective, FromLe, FlatOperand, HasAddr;
    PlainRegisters(r.instr);
    SlotAddress(r.instr, s);
    QuadwordRange(Load(s.mem, BuildMemRef(r.instr, s.rip).absAddr, 8));
  }

  /** What the register of an idiom holds after its first instruction. */
  function LoadedValue(ld: LoadOp, s: State): int {
    if ld.kind == MemLoad then FromLe(Load(s.mem, ld.slot.absAddr, 8)) else ld.val
  }

  /** Whether the load of an idiom is what the recognizer takes it for: an address that
      fits its register, a slot of eight bytes at a static address, and no other operand. */
  predicate LoadFits(i: DecodedInstr, ld: LoadOp) {
    && (ld.kind == LeaLoad ==> FirstSize(i) == 8 || ld.val < W32)
    && (ld.kind == MemLoad ==> !HasAddr(i.desc, Immediate))
  }

  /** The first instruction leaves that value in the register. */
  lemma LoadRuns(r: Decoded, s: State)
    requires Sized(r.instr) && LoadOf(r.instr, s.rip).Some? && LoadFits(r.instr, LoadOf(r.instr, s.rip).value)
    requires var ld := LoadOf(r.instr, s.rip).value; ld.kind == MemLoad ==> ld.slot.staticAddr && ld.size == 8
    ensures var ld := LoadOf(r.instr, s.rip).value;
            var v := LoadedValue(ld, s);
            ld.reg < 16 && v < W64 && Exec(r, s) == Some(s.(regs := s.regs[ld.reg := v], rip := At(s.rip, r.size)))
  {
    hide Exec, Sized, MovRegImm, LeaRip, MovRegMem, FirstSize, HasAddr, FromLe, Load;
    if MovRegImm(r.instr).Some? {
      MovRuns(r, s);
    } else if LeaRip(r.instr, s.rip).Some? {
      LeaRuns(r, s);
    } else {
      SlotLoads(r, s);
    }
  }

  // ------------------------------------------------------------ direct transfers

  lemma TableKeeps(p: Pattern)
    ensures WithTable(p).resolution == p.resolution
  {
  }

  lemma IndirectNotConcrete(p: Pattern, i: DecodedInstr, addr: u64)
    ensures IndirectForm(p, i, addr).resolution != Concrete && FarForm(p, i, addr).resolution != Concrete
  {
    hide WithTable, BuildMemRef;
    var call := IsCall(i.desc.mnemonic);
    TableKeeps(p.(effect := if call then CallEffect else Jump, pushesReturn := call, hasFallthrough := call,
                  form := IndirectMem, resolution := MemoryPointer, slot := BuildMemRef(i, addr), ptrSize := 8));
  }

  /** Only relative transfers have a concrete target by themselves. */
  lemma SingleConcrete(addr: u64, d: Decoded)
    requires SingleForm(addr, d).Some? && SingleForm(addr, d).value.resolution == Concrete
    ensures d.instr.desc.mnemonic.CountJcc? || RelativeTarget(d.instr, addr).Some?
  {
    hide IndirectForm, FarForm, IsReturn, IsTrap, IsSyscall, IsIndirectBranch, RelativeTarget;
    IndirectNotConcrete(Blank(addr).(lengths := [d.size]), d.instr, addr);
  }

  lemma NotFar(i: DecodedInstr)
    requires Sized(i)
    ensures i.desc.mnemonic != JMPF && i.desc.mnemonic != CALLF
  {
  }

  lemma SingleCount(addr: u64, d: Decoded)
    requires d.instr.desc.mnemonic.CountJcc?
    ensures SingleForm(addr, d).Some? && SingleForm(addr, d).value.effect == ConditionalJump
  {
    hide RelativeTarget;
  }

  lemma SingleRelative(addr: u64, d: Decoded)
    requires !d.instr.desc.mnemonic.CountJcc? && RelativeTarget(d.instr, addr).Some?
    ensures SingleForm(addr, d)
            == Some(RelativeForm(Blank(addr).(lengths := [d.size]), d.instr.desc.mnemonic,
                                 RelativeTarget(d.instr, addr).value))
  {
    hide RelativeTarget, RelativeForm, Blank;
  }

  /** Of the mnemonics with a relative target only near jumps and calls are no conditions. */
  lemma RelativeParts(p: Pattern, i: DecodedInstr, addr: u64)
    requires RelativeTarget(i, addr).Some?
    ensures var m, q := i.desc.mnemonic, RelativeForm(p, i.desc.mnemonic, RelativeTarget(i, addr).value);
            && HasAddr(i.desc, RelOffset) && q.target == (addr + i.length + i.immediate) % W64
            && (q.effect != ConditionalJump && m != JMPF && m != CALLF ==>
                  (m == JMP || m == CALL) && q.pushesReturn == (m == CALL))
  {
    hide HasAddr;
  }

  lemma DirectKind(addr: u64, d: Decoded, p: Pattern)
    requires Sized(d.instr) && SingleForm(addr, d) == Some(p) && p.resolution == Concrete
             && (p.effect == Jump || p.effect == CallEffect)
    ensures var m := d.instr.desc.mnemonic;
            && (m == JMP || m == CALL) && HasAddr(d.instr.desc, RelOffset) && p.pushesReturn == (m == CALL)
            && p.target == (addr + d.instr.length + d.instr.immediate) % W64
  {
    hide SingleForm, RelativeForm, RelativeTarget, HasAddr, Sized, Blank;
    NotFar(d.instr);
    SingleConcrete(addr, d);
    if !d.instr.desc.mnemonic.CountJcc? {
      SingleRelative(addr, d);
      RelativeParts(Blank(addr).(lengths := [d.size]), d.instr, addr);
    } else {
      SingleCount(addr, d);
    }
  }

  lemma ExecDirect(r: Decoded, s: State)
    requires Sized(r.instr) && (r.instr.desc.mnemonic == JMP || r.instr.desc.mnemonic == CALL)
             && HasAddr(r.instr.desc, RelOffset)
    ensures var to, next := (s.rip + r.size + r.instr.immediate) % W64, At(s.rip, r.size);
            Exec(r, s) == Some(if r.instr.desc.mnemonic == CALL then Push(s, to, next) else s.(rip := to))
  {
    hide Push, HasAddr, HasIndirect, RmRegister, Plain;
    ModSum(s.rip + r.size, r.instr.immediate, W64);
  }

  lemma DirectReaches(env: Env, s: State, d: Decoded, p: Pattern)
    requires Fetch(env.table, env.code, s.rip) == Some(d) && Sized(d.instr) && d.instr.length == d.size
    requires SingleForm(s.rip, d) == Some(p) && p.resolution == Concrete && (p.effect == Jump || p.effect == CallEffect)
    ensures Arrives(env, s, 1, p.target, p.pushesReturn, At(s.rip, d.size))
  {
    hide Fetch, Exec, Sized, Load, Le, Push, SingleForm;
    DirectKind(s.rip, d, p);
    ExecDirect(d, s);
    var s1 := Exec(d, s).value;
    RunOne(env.table, env.code, s, d, s1, 0);
    RunNone(env, s1);
    PushedValue(s, p.target, At(s.rip, d.size));
  }

  // ------------------------------------------------------------ transfers through a slot

  lemma IndirectIs(p: Pattern, i: DecodedInstr, addr: u64)
    ensures var q := IndirectForm(p, i, addr);
            && q.pushesReturn == IsCall(i.desc.mnemonic)
            && (ModOf(i.modrm) != 3 ==>
                q.resolution == MemoryPointer && q.slot == BuildMemRef(i, addr) && q.ptrSize == 8)
            && (ModOf(i.modrm) == 3 ==> q.resolution == RegisterDynamic)
  {
    hide BuildMemRef;
  }

  /** A near jump or call through memory. */
  lemma IndirectKind(addr: u64, d: Decoded, p: Pattern)
    requires Sized(d.instr) && SingleForm(addr, d) == Some(p) && p.resolution == MemoryPointer
    ensures var i := d.instr;
            && (i.desc.mnemonic == JMP || i.desc.mnemonic == CALL) && !HasAddr(i.desc, RelOffset) && HasIndirect(i.desc)
            && ModOf(i.modrm) != 3 && FlatOperand(i) && p.pushesReturn == (i.desc.mnemonic == CALL)
            && p.slot == BuildMemRef(i, addr) && p.ptrSize == 8
  {
    hide BuildMemRef, FarForm, IsReturn, IsTrap, IsSyscall, HasAddr, HasIndirect, FlatOperand, WithTable;
    NotFar(d.instr);
    IndirectIs(Blank(addr).(lengths := [d.size]), d.instr, addr);
  }

  lemma ExecIndirect(r: Decoded, s: State)
    requires Sized(r.instr) && (r.instr.desc.mnemonic == JMP || r.instr.desc.mnemonic == CALL)
    requires !HasAddr(r.instr.desc, RelOffset) && HasIndirect(r.instr.desc) && ModOf(r.instr.modrm) != 3
    ensures var to, next := FromLe(Load(s.mem, Effective(r.instr, s), 8)) % W64, At(s.rip, r.size);
            Exec(r, s) == Some(if r.instr.desc.mnemonic == CALL then Push(s, to, next) else s.(rip := to))
  {
    hide Push, HasAddr, HasIndirect, Load, Effective, FromLe, FlatOperand;
  }

  lemma SlotReaches(env: Env, s: State, d: Decoded, p: Pattern)
    requires Fetch(env.table, env.code, s.rip) == Some(d) && Sized(d.instr)
    requires SingleForm(s.rip, d) == Some(p) && p.resolution == MemoryPointer && p.slot.staticAddr
    ensures p.ptrSize == 8 && FromLe(Load(s.mem, p.slot.absAddr, 8)) < W64
    ensures Arrives(env, s, 1, FromLe(Load(s.mem, p.slot.absAddr, 8)), p.pushesReturn, At(s.rip, d.size))
  {
    hide Fetch, Exec, Sized, Load, Le, FromLe, Push, SingleForm, FlatOperand, Effective, BuildMemRef;
    IndirectKind(s.rip, d, p);
    SlotAddress(d.instr, s);
    ExecIndirect(d, s);
    QuadwordRange(Load(s.mem, p.slot.absAddr, 8));
    var s1 := Exec(d, s).value;
    RunOne(env.table, env.code, s, d, s1, 0);
    RunNone(env, s1);
    PushedValue(s, FromLe(Load(s.mem, p.slot.absAddr, 8)), At(s.rip, d.size));
  }

  // ------------------------------------------------------------ the theorem

  /** The destination the recognizer reports, if it does. */
  function GoesTo(p: Pattern): Option<u64> {
    if p.resolution == Concrete then Some(p.target) else if p.resolved then Some(p.finalTarget) else None
  }

  /** Executing the pattern ends at the reported destination. */
  ghost predicate Reaches(env: Env, s: State, p: Pattern) {
    GoesTo(p).Some? ==> Arrives(env, s, |p.lengths|, GoesTo(p).value, p.pushesReturn, At(s.rip, TotalLength(p)))
  }

  /** If the idiom at `addr` starts with a load, it and the folds that follow it are right. */
  predicate FoldsAt(env: Env, opt: Options, addr: u64) {
    var d := Fetch(env.table, env.code, addr);
    d.Some? && LoadOf(d.value.instr, addr).Some? ==>
      var ld := LoadOf(d.value.instr, addr).value;
      LoadFits(d.value.instr, ld) && FoldsRight(env, opt, addr, ld, [d.value.size])
  }

  /** The slot of a pattern through memory is a quadword that holds in memory what the
      recognizer has read. */
  predicate SlotHeld(env: Env, p: Pattern, s: State) {
    p.resolution == MemoryPointer ==>
      p.ptrSize == 8 && ReadData(env, p.slot.absAddr, 8) == Some(Load(s.mem, p.slot.absAddr, 8))
  }

  lemma LoadReaches(env: Env, opt: Options, s: State, d: Decoded, p: Pattern)
    requires Fetch(env.table, env.code, s.rip) == Some(d) && LoadIdiom(env, opt, s.rip, d) == Some(p)
    requires SizedRun(env, s.rip, |p.lengths|) && FoldsAt(env, opt, s.rip)
    requires p.resolution == Concrete || (p.slot.staticAddr && p.ptrSize == 8)
    ensures p.resolution == Concrete || p.resolution == MemoryPointer
    ensures var to := if p.resolution == Concrete then p.target else FromLe(Load(s.mem, p.slot.absAddr, 8));
            to < W64 && Arrives(env, s, |p.lengths|, to, p.pushesReturn, At(s.rip, TotalLength(p)))
  {
    hide Fetch, Exec, Arrives, Sized, LoadOf, Scan, SumOf, FoldsRight, LoadFits, Load, FromLe;
    var ld := LoadOf(d.instr, s.rip).value;
    SumOne(d.size);
    ScanKinds(env, opt, s.rip, ld, false, [d.size]);
    DecodesFirst(env, s.rip, d);
    ScanLengths(env, opt, s.rip, ld, false, [d.size]);
    assert SizedRun(env, At(s.rip, d.size), |p.lengths| - 1);
    LoadRuns(d, s);
    var s1 := Exec(d, s).value;
    ScanReaches(env, opt, s.rip, ld, false, [d.size], s1, LoadedValue(ld, s));
    var to := if p.resolution == Concrete then p.target else LoadedValue(ld, s);
    ArrivesLater(env, s, d, s1, |p.lengths| - 1, to, p.pushesReturn, At(s.rip, TotalLength(p)));
  }

  lemma PushImmReaches(env: Env, s: State, d: Decoded, p: Pattern)
    requires Fetch(env.table, env.code, s.rip) == Some(d) && PushImmIdiom(env, s.rip, d) == Some(p)
    requires SizedRun(env, s.rip, |p.lengths|)
    ensures p.resolution == Concrete && Reaches(env, s, p)
  {
    hide Fetch, Exec, Run, SizedRun, PushImm, MovRsp4Imm, Load, Le;
    if IsRetn(FetchAt(env, s.rip + d.size)) {
      PushImmRuns(env, s, d);
    } else {
      PushSplitRuns(env, s, d, FetchAt(env, s.rip + d.size).value);
    }
  }

  /** A resolved pattern without chains goes to the quadword in its slot. */
  lemma ResolvedTo(env: Env, opt: Options, p: Pattern, s: State)
    requires !opt.followChains && p.resolution == MemoryPointer && !p.resolved
    requires var q := Resolve(env, opt, p); q.resolved && SlotHeld(env, q, s)
    ensures var q := Resolve(env, opt, p);
            && p.slot.staticAddr && p.ptrSize == 8 && SameBut(p, q)
            && q.finalTarget == FromLe(Load(s.mem, p.slot.absAddr, 8))
  {
    hide Load, FromLe, OverJunk, Window;
    var b := Load(s.mem, p.slot.absAddr, 8);
    JunkBytes(env, b, env.junk);
    assert env.(junk := env.junk) == env;
    QuadwordRange(b);
  }

  lemma {:induction false} UnresolvedScan(env: Env, opt: Options, addr: u64, ld: LoadOp, arith: bool, lengths: seq<nat>)
    requires Scan(env, opt, addr, ld, arith, lengths).Some?
    ensures !Scan(env, opt, addr, ld, arith, lengths).value.resolved
    decreases 6 - |lengths|
  {
    hide FetchAt, BranchReg, PushReg, Folded, SumOf;
    var d := FetchAt(env, addr + SumOf(lengths)).value;
    if BranchReg(d.instr) != Some(ld.reg) && PushReg(d.instr) != Some(ld.reg) {
      UnresolvedScan(env, opt, addr, Folded(opt, ld, d.instr).value, true, lengths + [d.size]);
    }
  }

  lemma UnresolvedSingle(addr: u64, d: Decoded)
    requires SingleForm(addr, d).Some?
    ensures !SingleForm(addr, d).value.resolved
  {
    hide BuildMemRef, HasAddr, HasIndirect, RelativeTarget;
  }

  lemma UnresolvedShape(env: Env, opt: Options, addr: u64)
    requires Shape(env, opt, addr).Some?
    ensures !Shape(env, opt, addr).value.resolved
  {
    hide Fetch, FetchAt, LoadOf, PushImm, MovRsp4Imm, PushReg, SingleForm, Scan;
    var d := Fetch(env.table, env.code, addr).value;
    if PushImmIdiom(env, addr, d).None? && PushRegIdiom(env, addr, d).None? {
      if LoadIdiom(env, opt, addr, d).Some? {
        UnresolvedScan(env, opt, addr, LoadOf(d.instr, addr).value, false, [d.size]);
      } else {
        UnresolvedSingle(addr, d);
      }
    }
  }

  lemma NotConcrete(env: Env, addr: u64, d: Decoded)
    requires PushRegIdiom(env, addr, d).Some?
    ensures PushRegIdiom(env, addr, d).value.resolution == RegisterDynamic
  {
  }

  /** The pattern before its slot is read, and what it gives. */
  lemma ShapeReaches(env: Env, opt: Options, s: State, p: Pattern)
    requires Shape(env, opt, s.rip) == Some(p) && (p.effect == Jump || p.effect == CallEffect)
    requires p.resolution == Concrete || (p.resolution == MemoryPointer && p.slot.staticAddr && p.ptrSize == 8)
    requires SizedRun(env, s.rip, |p.lengths|) && FoldsAt(env, opt, s.rip)
    ensures var to := if p.resolution == Concrete then p.target else FromLe(Load(s.mem, p.slot.absAddr, 8));
            to < W64 && Arrives(env, s, |p.lengths|, to, p.pushesReturn, At(s.rip, TotalLength(p)))
  {
    hide Fetch, Arrives, Sized, PushImmIdiom, PushRegIdiom, LoadIdiom, SingleForm, SumOf, FoldsAt, Load, FromLe;
    var d := Fetch(env.table, env.code, s.rip).value;
    if PushImmIdiom(env, s.rip, d).Some? {
      PushImmReaches(env, s, d, p);
    } else if PushRegIdiom(env, s.rip, d).Some? {
      NotConcrete(env, s.rip, d);
    } else if LoadIdiom(env, opt, s.rip, d).Some? {
      LoadReaches(env, opt, s, d, p);
    } else {
      SingleLengths(env, s.rip, d);
      FetchedLength(env.table, env.code, s.rip);
      assert SizedRun(env, s.rip, 1);
      SumOne(d.size);
      if p.resolution == Concrete {
        DirectReaches(env, s, d, p);
      } else {
        SlotReaches(env, s, d, p);
      }
    }
  }

  /** What the recognizer relies on at `addr`: the instructions of the pattern as it takes
      them, folds that are right, and the slot it has read still in memory. */
  predicate Faithful(env: Env, opt: Options, s: State) {
    Recognize(env, opt, s.rip).Some? ==>
      var p := Recognize(env, opt, s.rip).value;
      SizedRun(env, s.rip, |p.lengths|) && FoldsAt(env, opt, s.rip) && SlotHeld(env, p, s)
  }

  /** Whenever the recognizer reports a jump or call with a destination, computed or read
      from a static slot, executing exactly the instructions of the pattern, from any
      registers, ends there, and a call leaves the address behind the pattern on the
      stack. */
  lemma IdiomIsSound(env: Env, opt: Options, s: State)
    requires Recognize(env, opt, s.rip).Some? && Faithful(env, opt, s)
    requires var p := Recognize(env, opt, s.rip).value;
             (p.effect == Jump || p.effect == CallEffect) && (p.resolution == Concrete || !opt.followChains)
    ensures Reaches(env, s, Recognize(env, opt, s.rip).value)
  {
    hide Fetch, Arrives, Shape, SizedRun, FoldsAt, SumOf, Resolve, SlotHeld, Load, FromLe;
    var p, q := Shape(env, opt, s.rip).value, Recognize(env, opt, s.rip).value;
    RecognizeShape(env, opt, s.rip);
    if q.resolution == Concrete {
      ShapeReaches(env, opt, s, p);
    } else if q.resolved {
      UnresolvedShape(env, opt, s.rip);
      ResolvedTo(env, opt, p, s);
      ShapeReaches(env, opt, s, p);
    }
  }

  // ------------------------------------------------------------ destinations not known before

  lemma FarNotDynamic(p: Pattern, i: DecodedInstr, addr: u64)
    ensures FarForm(p, i, addr).resolution != RegisterDynamic
  {
    hide BuildMemRef;
  }

  lemma DynamicSingle(addr: u64, d: Decoded)
    requires SingleForm(addr, d).Some? && SingleForm(addr, d).value.resolution == RegisterDynamic
    ensures var i, p := d.instr, SingleForm(addr, d).value;
            && (i.desc.mnemonic == JMP || i.desc.mnemonic == CALL || i.desc.mnemonic == JMPF
                || i.desc.mnemonic == CALLF)
            && HasIndirect(i.desc) && !HasAddr(i.desc, RelOffset) && ModOf(i.modrm) == 3
            && p.reg == Some(RmRegister(i)) && p.pushesReturn == IsCall(i.desc.mnemonic) && p.lengths == [d.size]
  {
    hide BuildMemRef, FarForm, IsReturn, IsTrap, IsSyscall, HasAddr, HasIndirect, WithTable;
    FarNotDynamic(Blank(addr).(lengths := [d.size]), d.instr, addr);
    IndirectIs(Blank(addr).(lengths := [d.size]), d.instr, addr);
    TableKeeps(Blank(addr));
  }

  lemma PushRegReaches(env: Env, s: State, d: Decoded, p: Pattern)
    requires Fetch(env.table, env.code, s.rip) == Some(d) && PushRegIdiom(env, s.rip, d) == Some(p)
    requires SizedRun(env, s.rip, |p.lengths|)
    ensures p.reg.Some? && p.reg.value < 16 && |p.lengths| == 2 && !p.pushesReturn
    ensures Arrives(env, s, 2, s.regs[p.reg.value], false, At(s.rip, TotalLength(p)))
  {
    hide Fetch, Exec, Run, Sized, PushReg, Load, Le, SumOf, Arrives;
    var d1 := FetchAt(env, s.rip + d.size).value;
    assert SizedRun(env, At(s.rip, d.size), 1);
    ExecPushReg(d, s);
    PushRetReaches(env, s, d, d1, p.reg.value, s.regs[p.reg.value], At(s.rip, TotalLength(p)));
  }

  lemma LoadNotDynamic(env: Env, opt: Options, addr: u64, d: Decoded)
    requires LoadIdiom(env, opt, addr, d).Some?
    ensures LoadIdiom(env, opt, addr, d).value.resolution in {Concrete, MemoryPointer}
  {
    hide Scan, LoadOf;
    ScanKinds(env, opt, addr, LoadOf(d.instr, addr).value, false, [d.size]);
  }

  lemma RegisterSingleReaches(env: Env, s: State, d: Decoded, p: Pattern)
    requires Fetch(env.table, env.code, s.rip) == Some(d) && Sized(d.instr) && SingleForm(s.rip, d) == Some(p)
             && p.resolution == RegisterDynamic
    ensures p.reg.Some? && p.reg.value < 16 && |p.lengths| == 1
    ensures Arrives(env, s, 1, s.regs[p.reg.value], p.pushesReturn, At(s.rip, TotalLength(p)))
  {
    hide Fetch, Arrives, Sized, SingleForm, RmRegister, HasIndirect, HasAddr;
    DynamicSingle(s.rip, d);
    NotFar(d.instr);
    SumOne(d.size);
    BranchReaches(env, s, d, RmRegister(d.instr), s.regs[RmRegister(d.instr)]);
  }

  /** Where no destination can be given, the register reported is the one that decides:
      executing the pattern ends at what it holds before. */
  lemma RegisterReaches(env: Env, opt: Options, s: State)
    requires Recognize(env, opt, s.rip).Some? && Recognize(env, opt, s.rip).value.resolution == RegisterDynamic
    requires SizedRun(env, s.rip, |Recognize(env, opt, s.rip).value.lengths|)
    ensures var p := Recognize(env, opt, s.rip).value;
            && p.reg.Some? && p.reg.value < 16
            && Arrives(env, s, |p.lengths|, s.regs[p.reg.value], p.pushesReturn, At(s.rip, TotalLength(p)))
  {
    hide Fetch, Arrives, Sized, PushImmIdiom, PushRegIdiom, LoadIdiom, SingleForm, SumOf, Resolve;
    RecognizeShape(env, opt, s.rip);
    var p, d := Recognize(env, opt, s.rip).value, Fetch(env.table, env.code, s.rip).value;
    if PushImmIdiom(env, s.rip, d).Some? {
      PushImmReaches(env, s, d, PushImmIdiom(env, s.rip, d).value);
    } else if PushRegIdiom(env, s.rip, d).Some? {
      PushRegReaches(env, s, d, p);
    } else if LoadIdiom(env, opt, s.rip, d).Some? {
      LoadNotDynamic(env, opt, s.rip, d);
    } else {
      SingleLengths(env, s.rip, d);
      assert SizedRun(env, s.rip, 1);
      RegisterSingleReaches(env, s, d, p);
    }
  }

  lemma {:induction false} LoadForm(env: Env, opt: Options, addr: u64, ld: LoadOp, arith: bool, lengths: seq<nat>)
    requires Scan(env, opt, addr, ld, arith, lengths).Some?
    ensures Scan(env, opt, addr, ld, arith, lengths).value.form
            in {MovRegBranch, LeaRegBranch, MovLeaPushRet, LoadMemBranch, ComputedRegBranch}
    decreases 6 - |lengths|
  {
    hide FetchAt, BranchReg, PushReg, Folded, SumOf;
    var d := FetchAt(env, addr + SumOf(lengths)).value;
    if BranchReg(d.instr) != Some(ld.reg) && PushReg(d.instr) != Some(ld.reg) {
      LoadForm(env, opt, addr, Folded(opt, ld, d.instr).value, true, lengths + [d.size]);
    }
  }

  lemma NearReturn(env: Env, opt: Options, addr: u64, d: Decoded)
    requires Fetch(env.table, env.code, addr) == Some(d) && Shape(env, opt, addr).Some?
             && Shape(env, opt, addr).value.form == ReturnNear
    ensures d.instr.desc.mnemonic == RETN && Shape(env, opt, addr).value.resolution == StackDynamic
  {
    hide Fetch, FetchAt, PushImm, PushReg, MovRsp4Imm, LoadOf, Scan, BuildMemRef, HasAddr, HasIndirect;
    if LoadIdiom(env, opt, addr, d).Some? {
      LoadForm(env, opt, addr, LoadOf(d.instr, addr).value, false, [d.size]);
    }
  }

  /** A near return ends at the quadword on top of the stack. */
  lemma ReturnReaches(env: Env, opt: Options, s: State)
    requires Recognize(env, opt, s.rip).Some? && Recognize(env, opt, s.rip).value.form == ReturnNear
    requires SizedRun(env, s.rip, 1)
    ensures Recognize(env, opt, s.rip).value.resolution == StackDynamic
    ensures var r := Run(env.table, env.code, s, 1);
            r.Some? && r.value.rip == FromLe(Load(s.mem, s.regs[RSP], 8))
  {
    hide Fetch, Sized, Run, Resolve, Load, FromLe, Exec;
    RecognizeShape(env, opt, s.rip);
    var d := Fetch(env.table, env.code, s.rip).value;
    NearReturn(env, opt, s.rip, d);
    RunReturn(env, s, d);
    QuadwordRange(Load(s.mem, s.regs[RSP], 8));
  }

  // ------------------------------------------------------------ where folding is wrong

  /** The folded value of `mov reg, imm` is what the register holds afterwards, whatever
      it held before, exactly for 32- and 64-bit registers; the recognizer does not look
      at the width. */
  lemma MovFoldsIff(i: DecodedInstr, size: nat)
    requires MovRegImm(i).Some? && size in {1, 2, 4, 8} && (size == 8 <==> RexW(i))
    ensures (forall old_: u64 :: WriteReg(old_, size, i.immediate) == MovRegImm(i).value.1) <==> size >= 4
  {
    hide HasAddr, OpcodeRegister, RmRegister, RexW;
    if size < 4 {
      assert WriteReg(0, size, i.immediate) != WriteReg(0x1_0000, size, i.immediate);
    }
  }

  /** The folded value of `lea reg, [rip + disp]` is right exactly for 64-bit registers, and
      for 32-bit ones if the address is that short. */
  lemma LeaFoldsIff(size: nat, a: u64)
    requires size in {1, 2, 4, 8}
    ensures (forall old_: u64 :: WriteReg(old_, size, a) == a) <==> size == 8 || (size == 4 && a < W32)
  {
    InRange(a);
    if size < 4 {
      assert WriteReg(0, size, a) != WriteReg(0x1_0000, size, a);
    } else {
      assert WriteReg(0, size, a) == if size == 8 then a else a % W32;
    }
  }

  /** A branch is matched with the register loaded before it by a number that leaves out
      the REX2 bit: it is the register branched through exactly if that bit is clear. */
  lemma BranchRegIff(i: DecodedInstr)
    requires BranchReg(i).Some?
    ensures BranchReg(i) == Some(RegFromRm(i)) <==> !(i.enc.hasRex2 && i.enc.b4)
  {
    hide IsIndirectBranch;
  }

  // ------------------------------------------------------------ chains run

  lemma {:induction false} RunConcat(t: Table, img: Image, s: State, a: nat, b: nat)
    requires Run(t, img, s, a).Some?
    ensures Run(t, img, s, a + b) == Run(t, img, Run(t, img, s, a).value, b)
    decreases a
  {
    hide Fetch, Exec;
    if a > 0 {
      var s1 := Exec(Fetch(t, img, s.rip).value, s).value;
      RunConcat(t, img, s1, a - 1, b);
    }
  }

  /** The state after `n` hops from `s`, each of which executes the pattern found. */
  function HopState(env: Env, opt: Options, s: State, n: nat): Option<State> {
    if n == 0 then Some(s) else
    var s1 :- HopState(env, opt, s, n - 1);
    var p :- Recognize(env, opt, s1.rip);
    Run(env.table, env.code, s1, |p.lengths|)
  }

  /** If what the recognizer relies on holds in every state on the way, execution really
      goes from hop to hop to where the chain ends, through code and memory. */
  lemma {:induction false} ChainRuns(env: Env, opt: Options, s: State, n: nat) returns (steps: nat)
    requires !opt.followChains && Hops(env, opt, s.rip, n).Some?
    requires forall k :: 0 <= k < n && HopState(env, opt, s, k).Some? ==>
             Faithful(env, opt, HopState(env, opt, s, k).value)
    ensures var r := Run(env.table, env.code, s, steps);
            r.Some? && Some(r.value.rip) == Hops(env, opt, s.rip, n) && HopState(env, opt, s, n) == r
  {
    hide Recognize, Faithful, Fetch, Exec, Load, Le, Run;
    if n == 0 {
      steps := 0;
      RunNone(env, s);
    } else {
      steps := ChainRuns(env, opt, s, n - 1);
      var s1 := Run(env.table, env.code, s, steps).value;
      assert HopState(env, opt, s, n - 1) == Some(s1);
      IdiomIsSound(env, opt, s1);
      var more := |Recognize(env, opt, s1.rip).value.lengths|;
      RunConcat(env.table, env.code, s, steps, more);
      steps := steps + more;
    }
  }

  // ------------------------------------------------------------ with chains enabled

  lemma {:induction false} ScanIgnoresChains(env: Env, opt: Options, addr: u64, ld: LoadOp, arith: bool,
                                             lengths: seq<nat>)
    ensures Scan(env, opt, addr, ld, arith, lengths) == Scan(env, NoChains(opt), addr, ld, arith, lengths)
    decreases 6 - |lengths|
  {
    hide FetchAt, BranchReg, PushReg, ArithImm, BranchPattern, PushRetPattern, ApplyArith, SumOf;
    if |lengths| < opt.maxIdiomInsns && |lengths| < 6 {
      var d := FetchAt(env, addr + SumOf(lengths));
      if d.Some? && Folded(opt, ld, d.value.instr).Some? {
        ScanIgnoresChains(env, opt, addr, Folded(opt, ld, d.value.instr).value, true, lengths + [d.value.size]);
      }
    }
  }

  /** What is found does not depend on whether chains are followed. */
  lemma ShapeIgnoresChains(env: Env, opt: Options, addr: u64)
    ensures Shape(env, opt, addr) == Shape(env, NoChains(opt), addr)
  {
    hide Fetch, Scan, LoadOf, PushImmIdiom, PushRegIdiom, SingleForm;
    var d := Fetch(env.table, env.code, addr);
    if d.Some? && LoadOf(d.value.instr, addr).Some? {
      ScanIgnoresChains(env, opt, addr, LoadOf(d.value.instr, addr).value, false, [d.value.size]);
    }
  }

  /** The first destination is the one reported without chains. */
  lemma FirstDestination(env: Env, opt: Options, addr: u64)
    requires opt.followMemory && Shape(env, opt, addr).Some? && FirstHop(env, Shape(env, opt, addr).value).Some?
    ensures var r := Recognize(env, NoChains(opt), addr);
            && r.Some? && SameBut(Shape(env, opt, addr).value, r.value)
            && GoesTo(r.value) == FirstHop(env, Shape(env, opt, addr).value)
  {
    hide Shape, OverJunk, Window;
    ShapeIgnoresChains(env, opt, addr);
  }

  lemma {:induction false} HopStateShift(env: Env, opt: Options, s: State, s1: State, k: nat)
    requires HopState(env, opt, s, 1) == Some(s1)
    ensures HopState(env, opt, s, k + 1) == HopState(env, opt, s1, k)
  {
    hide Recognize, Run;
    if k > 0 {
      HopStateShift(env, opt, s, s1, k - 1);
    }
  }

  lemma HopStateOne(env: Env, opt: Options, s: State)
    requires Recognize(env, opt, s.rip).Some?
    ensures HopState(env, opt, s, 1) == Run(env.table, env.code, s, |Recognize(env, opt, s.rip).value.lengths|)
  {
    hide Recognize, Run;
    assert HopState(env, opt, s, 0) == Some(s);
  }

  /** Resolved with chains, a jump or call goes where the code says in the end: if what the
      recognizer relies on holds in every state on the way, execution arrives at the final
      target. */
  lemma ResolvedChainRuns(env: Env, opt: Options, s: State) returns (steps: nat)
    requires opt.followMemory && opt.followChains && Shape(env, opt, s.rip).Some?
    requires var p := Shape(env, opt, s.rip).value;
             FirstHop(env, p).Some? && (p.effect == Jump || p.effect == CallEffect)
    requires var depth := Resolve(env, opt, Shape(env, opt, s.rip).value).chainDepth;
             forall k :: 0 <= k <= depth && HopState(env, NoChains(opt), s, k).Some? ==>
               Faithful(env, NoChains(opt), HopState(env, NoChains(opt), s, k).value)
    ensures var q, r := Resolve(env, opt, Shape(env, opt, s.rip).value), Run(env.table, env.code, s, steps);
            q.resolved && r.Some? && r.value.rip == q.finalTarget
  {
    hide Recognize, Resolve, Shape, Faithful, Fetch, Exec, Run, Load, Le, FirstHop;
    var sub, p := NoChains(opt), Shape(env, opt, s.rip).value;
    FirstDestination(env, opt, s.rip);
    ChainIsIterated(env, opt, p);
    var depth := Resolve(env, opt, p).chainDepth;
    assert HopState(env, sub, s, 0) == Some(s);
    IdiomIsSound(env, sub, s);
    HopStateOne(env, sub, s);
    var first := |Recognize(env, sub, s.rip).value.lengths|;
    var s1 := Run(env.table, env.code, s, first).value;
    forall k | 0 <= k < depth && HopState(env, sub, s1, k).Some?
      ensures Faithful(env, sub, HopState(env, sub, s1, k).value)
    {
      HopStateShift(env, sub, s, s1, k);
    }
    var more := ChainRuns(env, sub, s1, depth);
    RunConcat(env.table, env.code, s, first, more);
    steps := first + more;
  }

  /** In particular a pattern through memory that the recognizer has followed itself. */
  lemma RecognizedChainRuns(env: Env, opt: Options, s: State) returns (steps: nat)
    requires opt.followChains && Recognize(env, opt, s.rip).Some?
    requires var q := Recognize(env, opt, s.rip).value;
             q.resolution == MemoryPointer && q.resolved && (q.effect == Jump || q.effect == CallEffect)
    requires forall k :: 0 <= k <= Recognize(env, opt, s.rip).value.chainDepth
                         && HopState(env, NoChains(opt), s, k).Some? ==>
               Faithful(env, NoChains(opt), HopState(env, NoChains(opt), s, k).value)
    ensures var r := Run(env.table, env.code, s, steps);
            r.Some? && r.value.rip == Recognize(env, opt, s.rip).value.finalTarget
  {
    hide Shape, Faithful, Fetch, Exec, Run, Load, Le, FirstHop, HopState, Follow;
    RecognizeShape(env, opt, s.rip);
    UnresolvedShape(env, opt, s.rip);
    assert Recognize(env, opt, s.rip).value == Resolve(env, opt, Shape(env, opt, s.rip).value);
    steps := ResolvedChainRuns(env, opt, s);
  }
}
