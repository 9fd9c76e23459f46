/** What the instructions of a relocated block mean where they stand: their memory operands
    and their relative targets. */
module MovedMeaning {
  import opened Words
  import opened InstrTable
  import opened Decoder
  import opened Sweeping
  import opened Relocation
  import opened Moving
  import opened Operands

  predicate HasMemory(i: DecodedInstr) {
    i.desc.hasModrm && ModOf(i.modrm) != 3
  }

  /** Which memory operands lie elsewhere after a move: those that are relative to the end of
      the instruction, have no address-size prefix and need an offset of more than 32 bits. */
  predicate OutOfReach(i: DecodedInstr, read: seq<u8>, delta: int) {
    ModOf(i.modrm) == 0 && RmOf(i.modrm) == 5 && 0x67 !in read && !Fits32(i.displacement, delta)
  }

  lemma SegmentAdds(base: u64, e: u64, f: u64)
    ensures (base + e) % W64 == (base + f) % W64 <==> e == f
  {
    SameRemainder(base + e, base + f, W64);
    SmallRemainder(e, f);
  }

  lemma AtSum(a: u64, o: nat, x: int)
    ensures (At(a, o) + x) % W64 == (a + o + x) % W64 && (At(a, o) + x) % W32 == (a + o + x) % W32
  {
    ModSum(a + o, x, W64);
    TruncatedTwice(At(a, o) + x);
    TruncatedTwice(a + o + x);
  }

  lemma SameOperand(i: DecodedInstr, j: DecodedInstr, m: int, n: int, regs: Regs)
    requires !(ModOf(i.modrm) == 0 && RmOf(i.modrm) == 5)
    requires j.modrm == i.modrm && j.sib == i.sib && j.enc == i.enc && j.displacement == i.displacement
    ensures Offset(i, m, regs) == Offset(j, n, regs)
  {
    hide Bit;
  }

  /** The memory operand of `y` at `dst` lies, for all registers and segment bases, where
      that of `x` at `src` does, unless it is out of reach. */
  lemma OperandMoved(x: Decoded, read: seq<u8>, src: u64, dst: u64, o: nat, regs: Regs, b: Bases)
    requires HasMemory(x.instr) && x.instr.length == x.size
    ensures var y := Moved(x, src - dst);
            Linear(y.instr, read, At(dst, o), regs, b) == Linear(x.instr, read, At(src, o), regs, b)
            <==> !OutOfReach(x.instr, read, src - dst)
  {
    hide Add32, Fits32, SegmentBase, HasRel, WideBase, WideIndex, IndexValue, Bit;
    var y, v := Moved(x, src - dst), x.instr.displacement;
    if IsRipInstr(x) {
      var w := Add32(v, src - dst);
      AtSum(dst, o, x.size + w);
      AtSum(src, o, x.size + v);
      TargetKept(v, src, dst, o + x.size);
      LowTargetKept(v, src, dst, o + x.size);
      SegmentAdds(SegmentBase(read, b), AddressSized(read, At(dst, o) + x.size + w),
                  AddressSized(read, At(src, o) + x.size + v));
    } else {
      SameOperand(x.instr, y.instr, At(src, o) + x.size, At(dst, o) + x.size, regs);
    }
  }

  /** Where the first relative operand of an instruction at `addr` leads. */
  function Destination(r: Decoded, addr: int): u64 {
    (addr + r.size + r.instr.immediate) % W64
  }

  /** What instruction `x` means `o` bytes behind `src` and `y` means as far behind `dst`:
      relative operands lead to the same places, those of one byte only if nothing moves and
      the others exactly if the new offset fits into 32 bits, and memory operands name the
      same places, for all registers and segment bases, unless they are out of reach. */
  ghost predicate MeaningKept(x: Decoded, y: Decoded, src: u64, dst: u64, o: nat) {
    && (HasAddr(x.instr.desc, RelOffset) ==>
          (Destination(y, dst + o) == Destination(x, src + o)
           <==> if HasRel(x.instr.desc) then Fits32(x.instr.immediate, src - dst) else src == dst))
    && (HasMemory(x.instr) && x.instr.length == x.size ==>
          forall read: seq<u8>, regs: Regs, b: Bases ::
            Linear(y.instr, read, At(dst, o), regs, b) == Linear(x.instr, read, At(src, o), regs, b)
            <==> !OutOfReach(x.instr, read, src - dst))
  }

  lemma InstructionMeaningKept(x: Decoded, src: u64, dst: u64, o: nat)
    ensures MeaningKept(x, Moved(x, src - dst), src, dst, o)
  {
    hide Linear, OutOfReach, Moved, Fits32, HasRel, HasAddr, HasMemory;
    var y := Moved(x, src - dst);
    MovedTargets(x, src, dst, o);
    if HasMemory(x.instr) && x.instr.length == x.size {
      forall read: seq<u8>, regs: Regs, b: Bases
        ensures Linear(y.instr, read, At(dst, o), regs, b) == Linear(x.instr, read, At(src, o), regs, b)
                <==> !OutOfReach(x.instr, read, src - dst)
      {
        OperandMoved(x, read, src, dst, o, regs, b);
      }
    }
  }

  /** Relocation preserves meaning, instruction by instruction. */
  lemma BlockMeaningKept(t: Table, s: seq<u8>, src: u64, dst: u64, k: nat)
    requires MovableBlock(t, s) && k < |Sweep(t, s).instrs|
    ensures Patchable(Sweep(t, s).instrs, s)
    ensures var old_, new_ := Sweep(t, s).instrs, Sweep(t, MoveBytes(t, s, src, dst)).instrs;
            && |new_| == |old_| && OffsetOf(new_, k) == OffsetOf(old_, k)
            && MeaningKept(old_[k], new_[k], src, dst, OffsetOf(old_, k))
  {
    hide Decode, MovableBlock, Sweep, Rewrite, Patchable, Moved, MeaningKept;
    BlockMoves(t, s, src - dst);
    var run := Sweep(t, s).instrs;
    OffsetsKept(run, src - dst, k);
    InstructionMeaningKept(run[k], src, dst, OffsetOf(run, k));
  }
}
