/** Moving a block of instructions: the in-place rewrite of RIP-relative
    displacements and rel32 operands. */
module Relocation {
  import opened Words
  import opened InstrTable
  import opened Decoder
  import opened Sweeping

  // ------------------------------------------------------------ one instruction

  /** Where the code looks for the ModRM byte: a count of prefix, REX and opcode bytes. */
  function ModrmOffset(instr: DecodedInstr): nat {
    var d := instr.desc;
    |instr.legacyPrefix| + (if instr.enc.rex != 0 then 1 else 0) + (if d.opcode > 0xFF then 2 else 1)
    + (if (d.opcode == 0x0F38 || d.opcode == 0x0F3A) && d.secOpcd != 0xFF then 1 else 0)
  }

  predicate IsRipRelative(modrm: u8) {
    ModOf(modrm) == 0 && RmOf(modrm) == 5
  }

  /** Where the RIP-relative displacement of an n-byte instruction is rewritten. */
  function RipAt(instr: DecodedInstr, n: nat, s: seq<u8>): Option<nat>
    requires n <= |s|
  {
    var m := ModrmOffset(instr);
    if instr.desc.hasModrm && m < n && IsRipRelative(s[m]) then Some(m + 1) else None
  }

  /** The first relative operand from `k` on. */
  function RelOperand(ops: seq<OperandDesc>, k: nat): (o: Option<OperandDesc>)
    requires k <= |ops|
    ensures o.Some? ==> o.value in ops && o.value.addr == RelOffset
    decreases |ops| - k
  {
    if k == |ops| then None else if ops[k].addr == RelOffset then Some(ops[k]) else RelOperand(ops, k + 1)
  }

  /** Whether the first relative operand is rewritten; one-byte offsets are not. */
  predicate PatchesRel(d: InstrDesc) {
    RelOperand(d.operands, 0).Some? && RelOperand(d.operands, 0).value.size != ByteSignExt
  }

  /** Adds `delta` to the four-byte signed field at `at`, modulo 2^32. */
  function Patch(s: seq<u8>, at: nat, delta: int): (r: seq<u8>)
    requires at + 4 <= |s|
    ensures |r| == |s|
  {
    s[..at] + Le(ReadSigned(s, at, 4) + delta, 4) + s[at + 4..]
  }

  /** The rewrites stay inside the instruction. */
  predicate PatchesInside(instr: DecodedInstr, n: nat, s: seq<u8>)
    requires n <= |s|
  {
    && (RipAt(instr, n, s).Some? ==> RipAt(instr, n, s).value + 4 <= n)
    && (PatchesRel(instr.desc) ==> n >= 4)
  }

  function PatchOne(instr: DecodedInstr, s: seq<u8>, delta: int): (r: seq<u8>)
    requires PatchesInside(instr, |s|, s)
    ensures |r| == |s|
  {
    var rip := RipAt(instr, |s|, s);
    var s1 := if rip.Some? then Patch(s, rip.value, delta) else s;
    if PatchesRel(instr.desc) then Patch(s1, |s| - 4, delta) else s1
  }

  // ------------------------------------------------------------ a block

  /** The instructions lie in `s` and their rewrites stay inside them. */
  predicate Patchable(run: seq<Decoded>, s: seq<u8>) {
    run != [] ==>
      && 0 < run[0].size <= |s| && PatchesInside(run[0].instr, run[0].size, s[..run[0].size])
      && Patchable(run[1..], s[run[0].size..])
  }

  /** The bytes of the block with every instruction of the sweep rewritten. */
  function Rewrite(run: seq<Decoded>, s: seq<u8>, delta: int): (r: seq<u8>)
    requires Patchable(run, s)
    ensures |r| == |s|
  {
    if run == [] then s
    else PatchOne(run[0].instr, s[..run[0].size], delta) + Rewrite(run[1..], s[run[0].size..], delta)
  }

  // ------------------------------------------------------------ the buffer

  /** The rewrites of the n-byte instruction at `off` stay inside the buffer. They may
      leave the instruction. */
  predicate WritesInside(buf: seq<u8>, off: nat, n: nat, instr: DecodedInstr) {
    && off + n <= |buf|
    && (RipAt(instr, n, buf[off..off + n]).Some? ==> off + RipAt(instr, n, buf[off..off + n]).value + 4 <= |buf|)
    && (PatchesRel(instr.desc) ==> off + n >= 4)
  }

  function PatchAt(buf: seq<u8>, off: nat, n: nat, instr: DecodedInstr, delta: int): (r: seq<u8>)
    requires WritesInside(buf, off, n, instr)
    ensures |r| == |buf|
  {
    var rip := RipAt(instr, n, buf[off..off + n]);
    var buf1 := if rip.Some? then Patch(buf, off + rip.value, delta) else buf;
    if PatchesRel(instr.desc) then Patch(buf1, off + n - 4, delta) else buf1
  }

  /** The final buffer, whether the sweep was complete, and the instructions counted. */
  datatype Outcome = Outcome(buf: seq<u8>, ok: bool, count: nat)

  /** One instruction after the other is decoded, rewritten and stepped over; `None` if a
      rewrite would leave the buffer. */
  function Relocate(t: Table, buf: seq<u8>, off: nat, limit: nat, delta: int): (o: Option<Outcome>)
    requires off <= limit <= |buf|
    decreases limit - off
  {
    hide WritesInside, PatchAt;
    if off == limit then Some(Outcome(buf, true, 0)) else
    var d := Decode(t, buf[off..limit]);
    if d.None? then Some(Outcome(buf, false, 0))
    else if !WritesInside(buf, off, d.value.size, d.value.instr) then None
    else
      var o :- Relocate(t, PatchAt(buf, off, d.value.size, d.value.instr, delta), off + d.value.size, limit, delta);
      Some(o.(count := o.count + 1))
  }

  /** The arithmetic of the code, on wrapped 64-bit addresses, adds `src - dst`. */
  function NewOffset(src: u64, dst: u64, end: nat, old_: int): int {
    Signed(src + end, 8) + old_ - Signed(dst + end, 8)
  }

  lemma NewOffsetBytes(src: u64, dst: u64, end: nat, old_: int)
    ensures Le(NewOffset(src, dst, end, old_), 4) == Le(old_ + (src - dst), 4)
  {
    Pow256Values();
    var a, b := Signed(src + end, 8), Signed(dst + end, 8);
    SignedCongruent(src + end, 8);
    SignedCongruent(dst + end, 8);
    var i, j := a / W64 - (src + end) / W64, b / W64 - (dst + end) / W64;
    assert a == src + end + W64 * i && b == dst + end + W64 * j;
    assert NewOffset(src, dst, end, old_) == old_ + (src - dst) + W32 * (W32 * (i - j));
    ModShift(old_ + (src - dst), W32, W32 * (i - j));
    LeCongruent(NewOffset(src, dst, end, old_), old_ + (src - dst), 4);
  }

  /** Rewrites one field in place. */
  method PatchInPlace(dest: array<u8>, at: nat, src: u64, dst: u64, end: nat)
    requires at + 4 <= dest.Length
    modifies dest
    ensures dest[..] == Patch(old(dest[..]), at, src - dst)
  {
    hide Le, FromLe, Signed;
    ghost var buf := dest[..];
    assert dest[at..at + 4] == buf[at..at + 4];
    var old_ := Signed(FromLe(dest[at..at + 4]), 4);
    var bytes := Le(NewOffset(src, dst, end, old_), 4);
    NewOffsetBytes(src, dst, end, old_);
    forall i | 0 <= i < 4 {
      dest[at + i] := bytes[i];
    }
  }

  /** The first half of the loop body: a RIP-relative displacement. */
  method PatchRip(dest: array<u8>, off: nat, n: nat, instr: DecodedInstr, src: u64, dst: u64)
    requires WritesInside(dest[..], off, n, instr)
    modifies dest
    ensures var buf := old(dest[..]);
            var rip := RipAt(instr, n, buf[off..off + n]);
            dest[..] == if rip.Some? then Patch(buf, off + rip.value, src - dst) else buf
  {
    hide Patch;
    ghost var buf := dest[..];
    if instr.desc.hasModrm {
      var m := ModrmOffset(instr);
      if m < n {
        assert dest[off + m] == buf[off..off + n][m];
        if IsRipRelative(dest[off + m]) {
          PatchInPlace(dest, off + m + 1, src, dst, off + n);
        }
      }
    }
  }

  /** The second half: the first relative operand. */
  method PatchRel(dest: array<u8>, off: nat, n: nat, instr: DecodedInstr, src: u64, dst: u64)
    requires off + n <= dest.Length && (PatchesRel(instr.desc) ==> off + n >= 4)
    modifies dest
    ensures dest[..] == if PatchesRel(instr.desc) then Patch(old(dest[..]), off + n - 4, src - dst) else old(dest[..])
  {
    hide Patch;
    for i := 0 to |instr.desc.operands|
      invariant dest[..] == old(dest[..])
      invariant RelOperand(instr.desc.operands, 0) == RelOperand(instr.desc.operands, i)
    {
      if instr.desc.operands[i].addr == RelOffset {
        if instr.desc.operands[i].size == ByteSignExt { return; }
        PatchInPlace(dest, off + n - 4, src, dst, off + n);
        return;
      }
    }
  }

  /** The loop body after decoding. */
  method PatchInstruction(dest: array<u8>, off: nat, n: nat, instr: DecodedInstr, src: u64, dst: u64)
    requires WritesInside(dest[..], off, n, instr)
    modifies dest
    ensures dest[..] == PatchAt(old(dest[..]), off, n, instr, src - dst)
  {
    hide Patch, PatchesRel, RipAt;
    PatchRip(dest, off, n, instr, src, dst);
    PatchRel(dest, off, n, instr, src, dst);
  }

  lemma RelocateStep(t: Table, buf: seq<u8>, off: nat, limit: nat, delta: int, d: Option<Decoded>)
    requires off < limit <= |buf| && d == Decode(t, buf[off..limit]) && Relocate(t, buf, off, limit, delta).Some?
    ensures if d.None? then Relocate(t, buf, off, limit, delta) == Some(Outcome(buf, false, 0))
            else
              && 0 < d.value.size <= limit - off && WritesInside(buf, off, d.value.size, d.value.instr)
              && var o := Relocate(t, PatchAt(buf, off, d.value.size, d.value.instr, delta), off + d.value.size, limit,
                                   delta);
                 o.Some? && Relocate(t, buf, off, limit, delta) == Some(o.value.(count := o.value.count + 1))
  {
    hide WritesInside, PatchAt, Decode;
  }

  lemma RelocateEnd(t: Table, buf: seq<u8>, off: nat, delta: int)
    requires off <= |buf|
    ensures Relocate(t, buf, off, off, delta) == Some(Outcome(buf, true, 0))
  {
  }

  /** Relocates the first `byteCount` bytes of `dest`, which stand at address `dst`
      and were copied from `src`. The count is meaningful on success. */
  method RelocateBlock(om: OpcodeMap, dest: array<u8>, byteCount: nat, src: u64, dst: u64)
    returns (ok: bool, count: nat)
    requires om.Valid() && byteCount <= dest.Length && {dest as object} !! {om.heads as object, om.chain as object}
    requires Relocate(om.table, dest[..], 0, byteCount, src - dst).Some?
    modifies dest
    ensures var o := Relocate(om.table, old(dest[..]), 0, byteCount, src - dst).value;
            dest[..] == o.buf && ok == o.ok && (ok ==> count == o.count)
  {
    hide WritesInside, PatchAt, Decode, Relocate;
    ghost var t, delta := om.table, src - dst;
    ghost var all := Relocate(t, dest[..], 0, byteCount, delta).value;
    var off := 0;
    count := 0;
    while off < byteCount
      invariant off <= byteCount && om.Valid()
      invariant var o := Relocate(t, dest[..], off, byteCount, delta);
                o.Some? && all == Outcome(o.value.buf, o.value.ok, o.value.count + count)
      decreases byteCount - off
    {
      assert dest[..][off..byteCount] == dest[off..byteCount];
      var d := DecodeOne(om, dest[off..byteCount]);
      RelocateStep(t, dest[..], off, byteCount, delta, d);
      if d.None? { return false, count; }
      count := count + 1;
      PatchInstruction(dest, off, d.value.size, d.value.instr, src, dst);
      off := off + d.value.size;
    }
    RelocateEnd(t, dest[..], off, delta);
    ok := true;
  }

  // ------------------------------------------------------------ rewrites inside their instructions

  lemma RewriteStep(run: seq<Decoded>, s: seq<u8>, delta: int)
    requires Patchable(run, s) && run != []
    ensures var n := run[0].size;
            && 0 < n <= |s| && PatchesInside(run[0].instr, n, s[..n]) && Patchable(run[1..], s[n..])
            && Rewrite(run, s, delta) == PatchOne(run[0].instr, s[..n], delta) + Rewrite(run[1..], s[n..], delta)
  {
    hide PatchOne, PatchesInside;
  }

  lemma RewriteEmpty(s: seq<u8>, delta: int)
    ensures Rewrite([], s, delta) == s
  {
  }

  lemma PatchBetween(a: seq<u8>, s: seq<u8>, b: seq<u8>, at: nat, delta: int)
    requires at + 4 <= |s|
    ensures Patch(a + s + b, |a| + at, delta) == a + Patch(s, at, delta) + b
  {
    hide Le, FromLe, Signed;
    assert (a + s + b)[|a| + at..|a| + at + 4] == s[at..at + 4];
  }

  /** A rewrite that stays inside its instruction does not depend on the bytes around it. */
  lemma PatchInside(a: seq<u8>, s: seq<u8>, b: seq<u8>, instr: DecodedInstr, delta: int)
    requires PatchesInside(instr, |s|, s)
    ensures WritesInside(a + s + b, |a|, |s|, instr)
    ensures PatchAt(a + s + b, |a|, |s|, instr, delta) == a + PatchOne(instr, s, delta) + b
  {
    hide Patch, RipAt, PatchesRel;
    assert (a + s + b)[|a|..|a| + |s|] == s;
    var rip := RipAt(instr, |s|, s);
    var s1 := if rip.Some? then Patch(s, rip.value, delta) else s;
    if rip.Some? {
      PatchBetween(a, s, b, rip.value, delta);
    }
    if PatchesRel(instr.desc) {
      PatchBetween(a, s1, b, |s| - 4, delta);
    }
  }

  lemma SplitBuffer(done: seq<u8>, s: seq<u8>, rear: seq<u8>, n: nat)
    requires n <= |s|
    ensures done + s + rear == done + s[..n] + (s[n..] + rear)
    ensures (done + s + rear)[|done|..|done| + |s|] == s
  {
    assert s == s[..n] + s[n..];
  }

  lemma JoinBuffer(done: seq<u8>, x: seq<u8>, y: seq<u8>, rear: seq<u8>)
    ensures done + x + (y + rear) == (done + x) + y + rear && done + (x + y) + rear == (done + x) + y + rear
  {
  }

  /** If every rewrite of the swept block stays inside its instruction, the block is
      rewritten instruction by instruction as it was swept, and nothing else changes. */
  lemma {:induction false} RelocateIsRewrite(t: Table, done: seq<u8>, s: seq<u8>, rear: seq<u8>, delta: int)
    requires Patchable(Sweep(t, s).instrs, s)
    ensures var off, limit, buf, run := |done|, |done| + |s|, done + s + rear, Sweep(t, s);
            Relocate(t, buf, off, limit, delta)
            == Some(Outcome(done + Rewrite(run.instrs, s, delta) + rear, run.complete, |run.instrs|))
    decreases |s|
  {
    hide PatchOne, PatchesInside, Decode, WritesInside, PatchAt, Rewrite, Patchable, Sweep;
    var off, limit, buf := |done|, |done| + |s|, done + s + rear;
    if s == [] {
      SweepEmpty(t);
      RewriteEmpty(s, delta);
      RelocateEnd(t, buf, off, delta);
    } else {
      SweepStep(t, s);
      SplitBuffer(done, s, rear, 0);
      if Decode(t, s).None? {
        RewriteEmpty(s, delta);
      } else {
        var r, run := Decode(t, s).value, Sweep(t, s).instrs;
        var n := r.size;
        RewriteStep(run, s, delta);
        SplitBuffer(done, s, rear, n);
        PatchInside(done, s[..n], s[n..] + rear, r.instr, delta);
        var one := PatchOne(r.instr, s[..n], delta);
        JoinBuffer(done, one, s[n..], rear);
        JoinBuffer(done, one, Rewrite(run[1..], s[n..], delta), rear);
        assert run[1..] == Sweep(t, s[n..]).instrs;
        RelocateIsRewrite(t, done + one, s[n..], rear, delta);
      }
    }
  }
}
