/** Memory operands: the bytes the code generator writes for them and the three
    readers that take them apart again. */
module Operands {
  import opened Words
  import opened InstrTable
  import opened Decoder
  import opened RoundTrip
  import opened CodecCases

  type RegId = r: int | 0 <= r < 16
  type i32 = x: int | -0x8000_0000 <= x < 0x8000_0000

  const RSP: RegId := 4

  /** The generator's operand: `base` and `index` count only when flagged, and a
      RIP-relative operand has neither. */
  datatype Mem = Mem(hasBase: bool, base: RegId, hasIndex: bool, index: RegId, scale: u8, disp: i32, ripRelative: bool,
                     seg: u8)

  /** What an operand denotes. */
  datatype Address =
    | RipPlus(disp: int)
    | Sum(base: Option<RegId>, index: Option<(RegId, int)>, disp: int)

  function AddressOf(m: Mem): Address {
    if m.ripRelative then RipPlus(m.disp)
    else Sum(if m.hasBase then Some(m.base) else None, if m.hasIndex then Some((m.index, m.scale)) else None, m.disp)
  }

  // ------------------------------------------------------------ written

  function ModrmByte(mod_: u2, reg: RegId, rm: RegId): u8 {
    mod_ * 64 + reg % 8 * 8 + rm % 8
  }

  function ScaleBits(scale: u8): u2 {
    if scale == 2 then 1 else if scale == 4 then 2 else if scale == 8 then 3 else 0
  }

  function SibByte(scale: u8, index: RegId, base: RegId): u8 {
    ScaleBits(scale) * 64 + index % 8 * 8 + base % 8
  }

  function BaseField(m: Mem): RegId {
    if m.hasBase then m.base % 8 else 5
  }

  predicate NeedsSib(m: Mem) {
    m.hasIndex || (m.hasBase && m.base % 8 == 4)
  }

  function MemMod(m: Mem): u2 {
    if !m.hasBase then 0
    else if m.disp == 0 && BaseField(m) != 5 then 0
    else if -128 <= m.disp <= 127 then 1
    else 2
  }

  function MemDispSize(m: Mem): nat {
    if MemMod(m) == 1 then 1 else if MemMod(m) == 2 || !m.hasBase then 4 else 0
  }

  /** ModRM, SIB and displacement bytes. */
  function MemBytes(reg: RegId, m: Mem): seq<u8> {
    if m.ripRelative then [ModrmByte(0, reg, 5)] + Le(m.disp, 4)
    else if NeedsSib(m) then
      [ModrmByte(MemMod(m), reg, 4), SibByte(m.scale, if m.hasIndex then m.index % 8 else 4, BaseField(m))]
        + Le(m.disp, MemDispSize(m))
    else
      [ModrmByte(MemMod(m), reg, BaseField(m))] + Le(m.disp, MemDispSize(m))
  }

  function RexByte(w: bool, r: RegId, x: RegId, b: RegId): u8 {
    0x40 + Flag(w, 8) + r / 8 * 4 + x / 8 * 2 + b / 8
  }

  /** The REX byte is left out when it says nothing. */
  function RexBytes(rex: u8, w: bool): seq<u8> {
    if rex != 0x40 || w then [rex] else []
  }

  function RexFor(w: bool, reg: RegId, m: Mem): u8 {
    RexByte(w, reg, if m.hasIndex then m.index else 0, if m.hasBase then m.base else 0)
  }

  function SegBytes(m: Mem): seq<u8> {
    if m.seg != 0 then [m.seg] else []
  }

  /** Segment prefix and REX byte. */
  function RexMemBytes(w: bool, reg: RegId, m: Mem): seq<u8> {
    SegBytes(m) + RexBytes(RexFor(w, reg, m), w)
  }

  // ------------------------------------------------------------ read

  function Extended(low: u3, high: bool): RegId {
    low + Flag(high, 8)
  }

  /** The base register of a memory operand. */
  function MemBase(i: DecodedInstr): Option<RegId> {
    if ModOf(i.modrm) == 3 then None
    else if RmOf(i.modrm) != 4 then
      if ModOf(i.modrm) == 0 && RmOf(i.modrm) == 5 then None else Some(Extended(RmOf(i.modrm), Bit(i.enc.rex, 1)))
    else if ModOf(i.modrm) == 0 && i.sib % 8 == 5 then None
    else Some(Extended(i.sib % 8, Bit(i.enc.rex, 1)))
  }

  /** The index register of a memory operand. */
  function MemIndex(i: DecodedInstr): Option<RegId> {
    if ModOf(i.modrm) == 3 || RmOf(i.modrm) != 4 then None
    else if i.sib / 8 % 8 == 4 && !Bit(i.enc.rex, 2) then None
    else Some(Extended(i.sib / 8 % 8, Bit(i.enc.rex, 2)))
  }

  function Power2(n: u2): int {
    if n == 0 then 1 else if n == 1 then 2 else if n == 2 then 4 else 8
  }

  /** The branch recognizer's view of a memory operand. */
  datatype MemRef = MemRef(
    base: Option<RegId>, index: Option<RegId>, scale: int, disp: int, ripRelative: bool,
    segment: Option<u8>, staticAddr: bool, absAddr: u64)

  predicate IsSegment(b: u8) {
    b in {0x2E, 0x36, 0x3E, 0x26, 0x64, 0x65}
  }

  /** The last segment prefix. */
  function SegmentOf(prefixes: seq<u8>): Option<u8> {
    if prefixes == [] then None
    else if IsSegment(prefixes[|prefixes| - 1]) then Some(prefixes[|prefixes| - 1])
    else SegmentOf(prefixes[..|prefixes| - 1])
  }

  /** Which of several segment prefixes counts. */
  lemma {:induction false} SegmentIsLast(ps: seq<u8>, b: u8)
    ensures SegmentOf(ps) == Some(b)
            <==> b in {0x2E, 0x36, 0x3E, 0x26, 0x64, 0x65}
                 && exists k :: 0 <= k < |ps| && ps[k] == b && forall j :: k < j < |ps| ==> !IsSegment(ps[j])
    ensures SegmentOf(ps) == None <==> forall j :: 0 <= j < |ps| ==> !IsSegment(ps[j])
  {
    if ps != [] && !IsSegment(ps[|ps| - 1]) {
      SegmentIsLast(ps[..|ps| - 1], b);
    }
  }

  function BuildMemRef(i: DecodedInstr, addr: u64): MemRef {
    var m := MemRef(None, None, 1, i.displacement, false, SegmentOf(i.legacyPrefix), false, 0);
    if RmOf(i.modrm) == 4 then
      var index :=
        if i.sib / 8 % 8 == 4 && !Bit(i.enc.rex, 2) then None else Some(Extended(i.sib / 8 % 8, Bit(i.enc.rex, 2)));
      var m1 := m.(scale := Power2(i.sib / 64), index := index);
      if ModOf(i.modrm) == 0 && i.sib % 8 == 5 then
        m1.(staticAddr := index.None?, absAddr := i.displacement % W64)
      else
        m1.(base := Some(Extended(i.sib % 8, Bit(i.enc.rex, 1))))
    else if ModOf(i.modrm) == 0 && RmOf(i.modrm) == 5 then
      m.(ripRelative := true, staticAddr := true, absAddr := (addr + i.length + i.displacement) % W64)
    else
      m.(base := Some(Extended(RmOf(i.modrm), Bit(i.enc.rex, 1))))
  }

  /** The memory operand of the high-level instruction. */
  datatype MemOperand = MemOperand(base: Option<RegId>, index: Option<RegId>, scale: int, disp: int, ripRelative: bool)

  function FromDecoded(i: DecodedInstr): MemOperand {
    var rm := Extended(RmOf(i.modrm), Bit(i.enc.rex, 1));
    if rm % 8 == 4 then
      var base := Extended(i.sib % 8, Bit(i.enc.rex, 1));
      var index := Extended(i.sib / 8 % 8, Bit(i.enc.rex, 2));
      MemOperand(if base % 8 == 5 && ModOf(i.modrm) == 0 then None else Some(base),
                 if index != 4 then Some(index) else None,
                 Power2(i.sib / 64), i.displacement, false)
    else if rm % 8 == 5 && ModOf(i.modrm) == 0 then MemOperand(None, None, 1, i.displacement, true)
    else MemOperand(Some(rm), None, 1, i.displacement, false)
  }

  /** The same for an MMX operand, which ignores REX. */
  function FromDecodedMmx(i: DecodedInstr): MemOperand {
    if RmOf(i.modrm) == 4 then
      var base: RegId := i.sib % 8;
      var index: RegId := i.sib / 8 % 8;
      MemOperand(if base == 5 && ModOf(i.modrm) == 0 then None else Some(base),
                 if index != 4 then Some(index) else None,
                 Power2(i.sib / 64), i.displacement, false)
    else if RmOf(i.modrm) == 5 && ModOf(i.modrm) == 0 then MemOperand(None, None, 1, i.displacement, true)
    else MemOperand(Some(RmOf(i.modrm)), None, 1, i.displacement, false)
  }

  function Denotes(o: MemOperand): Address {
    if o.ripRelative then RipPlus(o.disp)
    else Sum(o.base, if o.index.Some? then Some((o.index.value, o.scale)) else None, o.disp)
  }

  /** All readers take a memory operand apart in the same way. */
  lemma ReadersAgree(i: DecodedInstr, addr: u64)
    requires ModOf(i.modrm) != 3
    ensures var o, r := FromDecoded(i), BuildMemRef(i, addr);
            && o.base == r.base == MemBase(i) && o.index == r.index == MemIndex(i)
            && o.scale == r.scale && o.disp == r.disp == i.displacement && o.ripRelative == r.ripRelative
  {
    var low: u3 := RmOf(i.modrm);
    assert (low + 8) % 8 == low;
    assert (i.sib % 8 + 8) % 8 == i.sib % 8;
  }

  /** The MMX reader agrees with the others exactly when the REX bits that name the
      registers of the operand are clear. */
  lemma MmxAgreesIff(i: DecodedInstr)
    requires ModOf(i.modrm) != 3
    ensures FromDecodedMmx(i) == FromDecoded(i)
            <==> (MemBase(i).Some? ==> !Bit(i.enc.rex, 1)) && (RmOf(i.modrm) == 4 ==> !Bit(i.enc.rex, 2))
  {
    var low: u3 := RmOf(i.modrm);
    assert (low + 8) % 8 == low;
    assert (i.sib % 8 + 8) % 8 == i.sib % 8;
  }

  // ------------------------------------------------------------ linear addresses

  /** The sixteen registers and the sixteen more that REX2 can name. */
  type Regs = s: seq<u64> | |s| == 32 witness seq(32, i => 0)

  /** The bases of the two segments that have one in 64-bit mode. */
  datatype Bases = Bases(fs: u64, gs: u64)

  /** The base that the last FS or GS prefix adds; the other segments are flat. */
  function SegmentBase(prefixes: seq<u8>, b: Bases): u64 {
    if prefixes == [] then 0
    else if prefixes[|prefixes| - 1] == 0x64 then b.fs
    else if prefixes[|prefixes| - 1] == 0x65 then b.gs
    else SegmentBase(prefixes[..|prefixes| - 1], b)
  }

  /** The offset that an address stands for in front of `next`. */
  function AddressOffset(a: Address, next: int, regs: Regs): int {
    match a
    case RipPlus(disp) => next + disp
    case Sum(base, index, disp) =>
      (if base.Some? then regs[base.value] else 0) + (if index.Some? then regs[index.value.0] * index.value.1 else 0)
        + disp
  }

  /** The registers of a memory operand with the REX2 bits, which none of the readers looks
      at. */
  function WideBase(i: DecodedInstr): Option<u5> {
    var b :- MemBase(i);
    Some(b + Flag(i.enc.hasRex2 && i.enc.b4, 16))
  }

  function WideIndex(i: DecodedInstr): Option<u5> {
    if ModOf(i.modrm) == 3 || RmOf(i.modrm) != 4 then None else
    var x := i.sib / 8 % 8 + Flag(Bit(i.enc.rex, 2), 8) + Flag(i.enc.hasRex2 && i.enc.x4, 16);
    if x == 4 then None else Some(x)
  }

  function IndexValue(i: DecodedInstr, regs: Regs): int {
    if WideIndex(i).Some? then regs[WideIndex(i).value] * Power2(i.sib / 64) else 0
  }

  /** The offset of the operand before it is cut to the address size. */
  function Offset(i: DecodedInstr, next: int, regs: Regs): int {
    if ModOf(i.modrm) == 0 && RmOf(i.modrm) == 5 then next + i.displacement
    else (if WideBase(i).Some? then regs[WideBase(i).value] else 0) + IndexValue(i, regs) + i.displacement
  }

  lemma RipForm(i: DecodedInstr)
    ensures var o := FromDecoded(i);
            && (o.ripRelative <==> ModOf(i.modrm) == 0 && RmOf(i.modrm) == 5)
            && (RmOf(i.modrm) == 4 ==> o.scale == Power2(i.sib / 64))
  {
    var low: u3 := RmOf(i.modrm);
    assert (low + 8) % 8 == low;
  }

  /** Without the REX2 bits it is that of the address the readers find. */
  lemma OffsetIs(i: DecodedInstr, next: int, regs: Regs)
    requires ModOf(i.modrm) != 3 && !(i.enc.hasRex2 && (i.enc.x4 || i.enc.b4))
    ensures Offset(i, next, regs) == AddressOffset(Denotes(FromDecoded(i)), next, regs)
  {
    hide FromDecoded;
    ReadersAgree(i, 0);
    RipForm(i);
  }

  /** An address-size prefix cuts the offset to 32 bits. */
  function AddressSized(prefixes: seq<u8>, offset: int): u64 {
    if 0x67 in prefixes then offset % W32 else offset % W64
  }

  /** Where the memory operand of the instruction at `addr` lies. `read` are all its
      prefixes, of which the decoder remembers the first four. */
  function Linear(i: DecodedInstr, read: seq<u8>, addr: u64, regs: Regs, b: Bases): u64 {
    (SegmentBase(read, b) + AddressSized(read, Offset(i, addr + i.length, regs))) % W64
  }

  /** A statically known address is the operand's offset on 64 bits without the index
      register that REX2 may name. */
  lemma StaticOffset(i: DecodedInstr, addr: u64, regs: Regs)
    requires ModOf(i.modrm) != 3 && BuildMemRef(i, addr).staticAddr
    ensures BuildMemRef(i, addr).absAddr == (Offset(i, addr + i.length, regs) - IndexValue(i, regs)) % W64
    ensures WideIndex(i).Some? ==> i.enc.hasRex2 && i.enc.x4 && WideIndex(i).value == 20
  {
  }

  lemma TruncatedTwice(x: int)
    ensures x % W64 % W32 == x % W32
  {
    ModShift(x % W64, W32, W32 * (x / W64));
    assert x == x % W64 + W32 * (W32 * (x / W64));
  }

  /** Adding an index before cutting to the address size. */
  lemma SizedSum(read: seq<u8>, x: int, k: int)
    ensures AddressSized(read, (x - k) % W64 + k) == AddressSized(read, x)
  {
    ModSum(x - k, k, W64);
    TruncatedTwice(x);
    TruncatedTwice((x - k) % W64 + k);
  }

  lemma SumIs(base: u64, e: u64, a: u64)
    ensures (base + e) % W64 == a <==> base == (a - e) % W64
  {
  }

  /** Whether the operand really lies at the static address: the segment base must make
      up for what the address size cuts off and what an overlooked index adds. */
  lemma StaticAddressAt(i: DecodedInstr, read: seq<u8>, addr: u64, regs: Regs, b: Bases)
    requires ModOf(i.modrm) != 3 && BuildMemRef(i, addr).staticAddr
    ensures var a := BuildMemRef(i, addr).absAddr;
            Linear(i, read, addr, regs, b) == a
            <==> SegmentBase(read, b) == (a - AddressSized(read, a + IndexValue(i, regs))) % W64
  {
    hide SegmentBase, Offset, BuildMemRef, IndexValue, AddressSized, WideIndex;
    StaticOffset(i, addr, regs);
    var x := Offset(i, addr + i.length, regs);
    SizedSum(read, x, IndexValue(i, regs));
    SumIs(SegmentBase(read, b), AddressSized(read, x), BuildMemRef(i, addr).absAddr);
  }

  lemma {:induction false} FlatWithout(prefixes: seq<u8>, b: Bases)
    ensures 0x64 !in prefixes && 0x65 !in prefixes ==> SegmentBase(prefixes, b) == 0
  {
    if prefixes != [] {
      FlatWithout(prefixes[..|prefixes| - 1], b);
    }
  }

  lemma {:induction false} BasedWith(prefixes: seq<u8>, base: u64)
    requires 0x64 in prefixes || 0x65 in prefixes
    ensures SegmentBase(prefixes, Bases(base, base)) == base
  {
    var n := |prefixes| - 1;
    if prefixes[n] != 0x64 && prefixes[n] != 0x65 {
      assert prefixes == prefixes[..n] + [prefixes[n]];
      BasedWith(prefixes[..n], base);
    }
  }

  lemma NoIndex(i: DecodedInstr, regs: Regs)
    ensures WideIndex(i).None? ==> IndexValue(i, regs) == 0
    ensures WideIndex(i).Some? ==> IndexValue(i, regs[WideIndex(i).value := 1]) in {1, 2, 4, 8}
    ensures WideIndex(i).Some? ==> IndexValue(i, regs[WideIndex(i).value := 0]) == 0
  {
    hide WideIndex;
  }

  lemma IndexShows(read: seq<u8>, a: u64, k: int)
    requires k in {1, 2, 4, 8}
    ensures (a - AddressSized(read, a + k)) % W64 != (a - AddressSized(read, a + 0)) % W64
  {
  }

  lemma CutsNothing(read: seq<u8>, a: u64)
    ensures (a - AddressSized(read, a + 0)) % W64 == 0 <==> (0x67 in read ==> a < W32)
  {
  }

  /** The static address is that of the operand, whatever the registers and segment bases,
      if and only if no FS or GS prefix is there, not even a forgotten one, an address-size
      prefix cuts nothing off and REX2 names no index. */
  lemma StaticAddressIff(i: DecodedInstr, read: seq<u8>, addr: u64)
    requires ModOf(i.modrm) != 3 && BuildMemRef(i, addr).staticAddr
    ensures var a := BuildMemRef(i, addr).absAddr;
            (forall regs: Regs, b: Bases :: Linear(i, read, addr, regs, b) == a)
            <==> 0x64 !in read && 0x65 !in read && (0x67 in read ==> a < W32) && WideIndex(i).None?
  {
    hide SegmentBase, BuildMemRef, Linear, WideIndex, IndexValue, AddressSized;
    var a, zero: Regs := BuildMemRef(i, addr).absAddr, seq(32, k => 0);
    if WideIndex(i).Some? {
      var one := zero[WideIndex(i).value := 1];
      var none := zero[WideIndex(i).value := 0];
      NoIndex(i, zero);
      StaticAddressAt(i, read, addr, one, Bases(0, 0));
      StaticAddressAt(i, read, addr, none, Bases(0, 0));
      IndexShows(read, a, IndexValue(i, one));
      assert Linear(i, read, addr, one, Bases(0, 0)) != a || Linear(i, read, addr, none, Bases(0, 0)) != a;
    } else if 0x64 in read || 0x65 in read {
      NoIndex(i, zero);
      BasedWith(read, 0);
      BasedWith(read, 1);
      StaticAddressAt(i, read, addr, zero, Bases(0, 0));
      StaticAddressAt(i, read, addr, zero, Bases(1, 1));
      assert Linear(i, read, addr, zero, Bases(0, 0)) != a || Linear(i, read, addr, zero, Bases(1, 1)) != a;
    } else {
      CutsNothing(read, a);
      forall regs: Regs, b: Bases
        ensures Linear(i, read, addr, regs, b) == a <==> (0x67 in read ==> a < W32)
      {
        NoIndex(i, regs);
        FlatWithout(read, b);
        StaticAddressAt(i, read, addr, regs, b);
      }
      assert Linear(i, read, addr, zero, Bases(0, 0)) == a <==> (0x67 in read ==> a < W32);
    }
  }

  /** An entry of the shape of MOV 8B, and `48 8B 04 25 60 00 00 00`: `mov rax, [0x60]`. */
  const MOV_8B := InstrDesc(MOV, 0x8B, 0xFF, 0, 0xFF, true, 0, 0,
                            [OperandDesc(ModRM_Reg, OpSzQ, 0xFF), OperandDesc(ModRM_RM, OpSzQ, 0xFF)], false, false)

  const LOAD_BYTES: seq<u8> := [0x48, 0x8B, 0x04, 0x25, 0x60, 0, 0, 0]

  lemma Mov8BFits(k: Key, peek: u8)
    requires k.opcode == 0x8B && k.mandatory == 0
    ensures Fits(MOV_8B, k, peek)
  {
    var q := QueryOf(k, k.mandatory, SecOf(k, peek), peek);
    assert Accepts(MOV_8B, q);
    assert InSlot(MOV_8B, MapOf(q.opcode), ByteOf(q.opcode, q.sec));
  }

  lemma LoadDisp(pre: seq<u8>)
    ensures ReadSigned(pre + LOAD_BYTES, |pre| + 4, 4) == 0x60
  {
    hide FromLe, Signed;
    assert (pre + LOAD_BYTES)[|pre| + 4..|pre| + 8] == [0x60, 0, 0, 0] == Le(0x60, 4);
    SignedOfLe(0x60, 4);
    Pow256Values();
  }

  lemma MovFields()
    ensures !HasAddr(MOV_8B, Moffset) && forall o <- MOV_8B.operands :: !IsImm(o)
  {
  }

  lemma LoadTail(pre: seq<u8>)
    ensures var n := |pre|;
            ParseTail(MOV_8B, Head(PLAIN.(rex := 0x48), 0x8B, 0xFF, 0, n + 2), pre + LOAD_BYTES, false)
            == Some(Tail(0x04, 0x25, 0x60, 0, n + 8))
  {
    hide FromLe, Signed, ReadSigned, ParseImms, HasAddr, Bit;
    LoadDisp(pre);
    MovFields();
    NoMoreImms(MOV_8B.operands, 0, 0, pre + LOAD_BYTES, Tail(0x04, 0x25, 0x60, 0, |pre| + 8), false, Bit(0x48, 8));
  }

  /** The load behind segment prefixes. */
  lemma LoadDecodes(pre: seq<u8>)
    requires |pre| <= 14 && forall x <- pre :: IsSegment(x)
    ensures var r, kept := Decode([MOV_8B], pre + LOAD_BYTES), pre[..Min(|pre|, 4)];
            && r.Some? && r.value.size == |pre| + 8
            && r.value.instr == DecodedInstr(MOV_8B, kept, PLAIN.(rex := 0x48), 0x04, 0x25, 3, 0x60, 0, |pre| + 8)
  {
    hide Decode, Fits, ParseTail, Choose;
    var code, h := pre + LOAD_BYTES, Head(PLAIN.(rex := 0x48), 0x8B, 0xFF, 0, |pre| + 2);
    assert code[..|pre|] == pre;
    forall k | 0 <= k < |pre|
      ensures IsLegacyPrefix(code[k])
    {
      assert code[k] == pre[k] && pre[k] in pre;
    }
    Mov8BFits(KeyOf(pre, h), Peek(code, |pre| + 2));
    LoadTail(pre);
    DecodesAlone(MOV_8B, code, |pre|, h, Tail(0x04, 0x25, 0x60, 0, |pre| + 8));
  }

  lemma ShortOffset(read: seq<u8>, a: int)
    requires 0 <= a < W32
    ensures AddressSized(read, a) == a
  {
  }

  lemma LoadAddresses(i: DecodedInstr, read: seq<u8>, addr: u64, regs: Regs, b: Bases)
    requires i.modrm == 0x04 && i.sib == 0x25 && i.displacement == 0x60 && i.enc == PLAIN.(rex := 0x48) && 0x67 !in read
    ensures BuildMemRef(i, addr).staticAddr && BuildMemRef(i, addr).absAddr == 0x60
    ensures Linear(i, read, addr, regs, b) == (SegmentBase(read, b) + 0x60) % W64
  {
    hide SegmentBase, AddressSized;
    assert Offset(i, addr + i.length, regs) == 0x60;
    assert AddressSized(read, 0x60) == 0x60 by {
      ShortOffset(read, 0x60);
    }
  }

  /** Behind any segment prefixes, of which one is FS or GS, the slot of the load is taken
      to be at 0x60, when the operand lies at 0x60 behind the base. From the fifth prefix
      on nothing decoded shows it. */
  lemma BasedSlotMisread(pre: seq<u8>, addr: u64, regs: Regs, base: u64)
    requires |pre| <= 7 && (forall x <- pre :: IsSegment(x)) && (0x64 in pre || 0x65 in pre)
    ensures var r := Decode([MOV_8B], pre + LOAD_BYTES);
            && r.Some? && r.value.size == |pre| + 8 && ModOf(r.value.instr.modrm) != 3
            && r.value.instr.legacyPrefix == pre[..Min(|pre|, 4)]
            && BuildMemRef(r.value.instr, addr).staticAddr && BuildMemRef(r.value.instr, addr).absAddr == 0x60
            && Linear(r.value.instr, pre, addr, regs, Bases(base, base)) == (base + 0x60) % W64
  {
    hide Decode, Linear, SegmentBase;
    LoadDecodes(pre);
    LoadAddresses(Decode([MOV_8B], pre + LOAD_BYTES).value.instr, pre, addr, regs, Bases(base, base));
    BasedWith(pre, base);
  }

  /** `mov rax, gs:[0x60]`, and the same with FS behind four prefixes that do nothing. */
  lemma GsSlotMisread(addr: u64, regs: Regs)
    ensures var gs := Decode([MOV_8B], [0x65] + LOAD_BYTES);
            && gs.Some? && BuildMemRef(gs.value.instr, addr).absAddr == 0x60
            && Linear(gs.value.instr, [0x65], addr, regs, Bases(0x1000, 0x1000)) == 0x1060
    ensures var read: seq<u8> := [0x2E, 0x2E, 0x2E, 0x2E, 0x64];
            var fs := Decode([MOV_8B], read + LOAD_BYTES);
            && fs.Some? && fs.value.instr.legacyPrefix == read[..4] && BuildMemRef(fs.value.instr, addr).absAddr == 0x60
            && Linear(fs.value.instr, read, addr, regs, Bases(0x1000, 0x1000)) == 0x1060
  {
    hide Decode, Linear, BuildMemRef;
    BasedSlotMisread([0x65], addr, regs, 0x1000);
    BasedSlotMisread([0x2E, 0x2E, 0x2E, 0x2E, 0x64], addr, regs, 0x1000);
  }

  // ------------------------------------------------------------ written, then read

  /** Operands the generator can express: not an index RSP, not an odd scale, and not a
      plain displacement, which it writes in the RIP-relative form. */
  predicate Addressable(m: Mem) {
    m.ripRelative || ((m.hasBase || m.hasIndex) && (m.hasIndex ==> m.index != RSP && m.scale in {1, 2, 4, 8}))
  }

  function MemModrm(reg: RegId, m: Mem): u8 {
    MemBytes(reg, m)[0]
  }

  function MemSib(reg: RegId, m: Mem): u8 {
    if HasSib(MemModrm(reg, m)) then MemBytes(reg, m)[1] else 0
  }

  lemma ModrmParts(mod_: u2, reg: RegId, rm: RegId)
    ensures ModOf(ModrmByte(mod_, reg, rm)) == mod_ && RegOf(ModrmByte(mod_, reg, rm)) == reg % 8
            && RmOf(ModrmByte(mod_, reg, rm)) == rm % 8
  {
    assert ModrmByte(mod_, reg, rm) / 8 == mod_ * 8 + reg % 8;
  }

  lemma SibParts(scale: u8, index: RegId, base: RegId)
    ensures var s := SibByte(scale, index, base);
            s / 64 == ScaleBits(scale) && s / 8 % 8 == index % 8 && s % 8 == base % 8
  {
    assert SibByte(scale, index, base) / 8 == ScaleBits(scale) * 8 + index % 8;
  }

  /** The parts of the written bytes, by their length. */
  lemma MemShape(reg: RegId, m: Mem)
    ensures var b, n := MemBytes(reg, m), if m.ripRelative then 4 else MemDispSize(m);
            var modrm := b[0];
            && ModOf(modrm) == (if m.ripRelative then 0 else MemMod(m)) && RegOf(modrm) == reg % 8
            && HasSib(modrm) == (!m.ripRelative && NeedsSib(m))
            && RmOf(modrm) == (if m.ripRelative then 5 else if NeedsSib(m) then 4 else BaseField(m))
            && (HasSib(modrm) ==> b[1] == SibByte(m.scale, if m.hasIndex then m.index % 8 else 4, BaseField(m)))
            && |b| == (if HasSib(modrm) then 2 else 1) + n
            && b[|b| - n..] == Le(m.disp, n)
            && DispSize(modrm, if HasSib(modrm) then b[1] else 0) == n
  {
    hide Le, ModrmByte, SibByte, ModOf, RegOf, RmOf;
    var idx: RegId := if m.hasIndex then m.index % 8 else 4;
    ModrmParts(0, reg, 5);
    ModrmParts(MemMod(m), reg, 4);
    ModrmParts(MemMod(m), reg, BaseField(m));
    SibParts(m.scale, idx, BaseField(m));
  }

  lemma WrittenDisp(m: Mem)
    ensures var n := if m.ripRelative then 4 else MemDispSize(m);
            Signed(FromLe(Le(m.disp, n)), n) == m.disp
  {
    Pow256Values();
    var n := if m.ripRelative then 4 else MemDispSize(m);
    if n > 0 {
      SignedOfLe(m.disp, n);
    }
  }

  lemma SliceInside(a: seq<u8>, b: seq<u8>, c: seq<u8>, i: nat)
    requires i <= |b|
    ensures (a + b + c)[|a| + i..|a| + |b|] == b[i..]
  {
  }

  /** Anywhere in a string, the decoder reads the ModRM part of a written operand back. */
  lemma MemRead(d: InstrDesc, a: seq<u8>, reg: RegId, m: Mem, c: seq<u8>)
    requires d.hasModrm
    ensures ParseModrm(d, a + MemBytes(reg, m) + c, |a|)
            == Some(Tail(MemModrm(reg, m), MemSib(reg, m), m.disp, 0, |a| + |MemBytes(reg, m)|))
  {
    hide MemBytes, Le, FromLe, Signed, ModOf, RmOf, RegOf, DispSize, SibByte;
    var b, n := MemBytes(reg, m), if m.ripRelative then 4 else MemDispSize(m);
    MemShape(reg, m);
    WrittenDisp(m);
    SliceInside(a, b, c, |b| - n);
    var code := a + b + c;
    assert code[|a|] == b[0] && (HasSib(b[0]) ==> code[|a| + 1] == b[1]);
  }

  /** The decoded registers, as the REX byte extends them. */
  predicate RexCovers(rex: u8, w: bool, reg: RegId, m: Mem) {
    && Bit(rex, 8) == w && Bit(rex, 4) == (reg >= 8)
    && Bit(rex, 2) == (m.hasIndex && m.index >= 8) && Bit(rex, 1) == (m.hasBase && m.base >= 8)
  }

  lemma RexByteCovers(w: bool, reg: RegId, m: Mem)
    ensures var rex := RexFor(w, reg, m); 0x40 <= rex < 0x50 && RexCovers(rex, w, reg, m)
    ensures RexFor(w, reg, m) == 0x40 && !w ==> RexCovers(0, w, reg, m)
  {
  }

  /** The operand read back denotes the operand written exactly when it is addressable. */
  lemma OperandReadBack(i: DecodedInstr, w: bool, reg: RegId, m: Mem)
    requires i.modrm == MemModrm(reg, m) && i.sib == MemSib(reg, m) && i.displacement == m.disp
    requires RexCovers(i.enc.rex, w, reg, m)
    ensures ModOf(i.modrm) != 3 && RegOf(i.modrm) + Flag(Bit(i.enc.rex, 4), 8) == reg
    ensures Denotes(FromDecoded(i)) == AddressOf(m) <==> Addressable(m)
  {
    hide MemBytes, Le, ModOf, RmOf, RegOf, Bit, SibByte, DispSize;
    MemShape(reg, m);
    SibParts(m.scale, if m.hasIndex then m.index % 8 else 4, BaseField(m));
  }

  /** The bytes of a memory operand: ModRM, SIB if there is one, and displacement. */
  function OperandLength(i: DecodedInstr): nat {
    1 + (if HasSib(i.modrm) then 1 else 0) + DispSize(i.modrm, i.sib)
  }

  /** The displacement fits into its field. */
  predicate DispFits(i: DecodedInstr) {
    && (DispSize(i.modrm, i.sib) == 0 ==> i.displacement == 0)
    && (DispSize(i.modrm, i.sib) == 1 ==> -128 <= i.displacement <= 127)
  }

  /** No shorter bytes denote the operand. */
  lemma MemShortest(i: DecodedInstr, reg: RegId, m: Mem)
    requires Addressable(m) && ModOf(i.modrm) != 3 && DispFits(i) && Denotes(FromDecoded(i)) == AddressOf(m)
    ensures |MemBytes(reg, m)| <= OperandLength(i)
  {
    hide Le, Bit, ModrmByte, SibByte;
    MemShape(reg, m);
  }

  /** A REX byte is written exactly for 64-bit operations and for the upper registers, and a
      segment prefix exactly if there is one. */
  lemma PrefixesWritten(w: bool, reg: RegId, m: Mem)
    ensures RexBytes(RexFor(w, reg, m), w) == [] <==>
              !w && reg < 8 && (m.hasIndex ==> m.index < 8) && (m.hasBase ==> m.base < 8)
    ensures |RexMemBytes(w, reg, m)| == (if m.seg == 0 then 0 else 1) + |RexBytes(RexFor(w, reg, m), w)|
    ensures |RexBytes(RexFor(w, reg, m), w)| <= 1
  {
  }

  /** An opcode of one, two or three bytes that is not taken for anything else. */
  predicate IsOpcode(op: seq<u8>) {
    || (|op| == 1 && !IsLegacyPrefix(op[0]) && !IsRex(op[0]) && op[0] !in {0x0F, 0x62, 0xC4, 0xC5, 0xD5})
    || (|op| == 2 && op[0] == 0x0F && op[1] != 0x38 && op[1] != 0x3A)
    || (|op| == 3 && op[0] == 0x0F && (op[1] == 0x38 || op[1] == 0x3A))
  }

  /** An opcode behind an optional REX byte is read as the head of a legacy instruction. */
  lemma HeadRead(code: seq<u8>, p: nat, rex: seq<u8>, op: seq<u8>)
    requires IsOpcode(op) && p + |rex| + |op| <= |code| && code[p..p + |rex| + |op|] == rex + op
    requires |rex| <= 1 && (rex != [] ==> IsRex(rex[0]))
    ensures p < |code| && !IsLegacyPrefix(code[p])
    ensures var h := ParseHead(code, p);
            && h.Some? && h.value.next == p + |rex| + |op| && !h.value.enc.hasVex
            && h.value.enc.rex == if rex == [] then 0 else rex[0]
  {
    assert forall i :: 0 <= i < |rex + op| ==> code[p + i] == code[p..p + |rex| + |op|][i] == (rex + op)[i];
    assert code[p] == (rex + op)[0];
  }

  lemma PrefixOnce(code: seq<u8>, p: nat)
    requires p <= 1 && p < |code| && !IsLegacyPrefix(code[p]) && (p == 1 ==> IsLegacyPrefix(code[0]))
    ensures PrefixEnd(code, 0) == p
  {
    assert PrefixEnd(code, p) == p;
    assert p == 1 ==> PrefixEnd(code, 0) == PrefixEnd(code, 1);
  }

  /** The head of an instruction that starts as the generator starts it. */
  lemma WrittenHead(w: bool, reg: RegId, m: Mem, op: seq<u8>, rest: seq<u8>)
    requires IsOpcode(op) && (m.seg == 0 || IsSegment(m.seg))
    ensures var code, p := RexMemBytes(w, reg, m) + op + rest, |SegBytes(m)|;
            && PrefixEnd(code, 0) == p < |code| && code[..p] == SegBytes(m)
            && var h := ParseHead(code, p);
               && h.Some? && h.value.next == |RexMemBytes(w, reg, m)| + |op|
               && !h.value.enc.hasVex && RexCovers(h.value.enc.rex, w, reg, m)
  {
    hide RexFor, RexCovers, ParseHead, IsOpcode;
    RexByteCovers(w, reg, m);
    var code, p, rex := RexMemBytes(w, reg, m) + op + rest, |SegBytes(m)|, RexBytes(RexFor(w, reg, m), w);
    assert code == SegBytes(m) + (rex + op) + rest;
    assert code[p..p + |rex| + |op|] == rex + op && code[..p] == SegBytes(m);
    HeadRead(code, p, rex, op);
    PrefixOnce(code, p);
  }

  /** What follows the ModRM part does not change it. */
  lemma ModrmKept(d: InstrDesc, h: Head, code: seq<u8>, has66: bool, tl: Tail)
    requires h.next <= |code| && Regular(d) && d.hasModrm && ParseTail(d, h, code, has66) == Some(tl)
    ensures var m := ParseModrm(d, code, h.next);
            m.Some? && tl.modrm == m.value.modrm && tl.sib == m.value.sib && tl.disp == m.value.disp
  {
    hide ReadSigned, ParseImms, ParseModrm;
    FieldKinds(d);
    ReadsOneField(d.operands, 0, code, ParseModrm(d, code, h.next).value, has66, Bit(h.enc.rex, 8));
  }

  lemma OneSegment(m: Mem)
    requires m.seg == 0 || IsSegment(m.seg)
    ensures SegmentOf(SegBytes(m)) == if m.seg != 0 then Some(m.seg) else None
  {
  }

  /** Bytes a generator method writes for an instruction with a memory operand, in
      front of anything, decode to the register, the operand width flag, the segment and
      the address that were asked for; the address exactly when it is addressable. */
  lemma EmittedOperandDecodes(t: Table, w: bool, reg: RegId, m: Mem, op: seq<u8>, rest: seq<u8>)
    requires IsOpcode(op) && (m.seg == 0 || IsSegment(m.seg))
    requires var r := Decode(t, RexMemBytes(w, reg, m) + op + MemBytes(reg, m) + rest);
             r.Some? && Regular(r.value.instr.desc) && r.value.instr.desc.hasModrm
    ensures var i := Decode(t, RexMemBytes(w, reg, m) + op + MemBytes(reg, m) + rest).value.instr;
            && ModOf(i.modrm) != 3 && RegOf(i.modrm) + Flag(Bit(i.enc.rex, 4), 8) == reg && Bit(i.enc.rex, 8) == w
            && SegmentOf(i.legacyPrefix) == (if m.seg != 0 then Some(m.seg) else None)
            && (Denotes(FromDecoded(i)) == AddressOf(m) <==> Addressable(m))
  {
    hide MemBytes, RexMemBytes, RexFor, Denotes, FromDecoded, AddressOf, Addressable, ParseModrm, Choose, ParseTail,
         ParseHead, Regular, IsOpcode;
    var front := RexMemBytes(w, reg, m) + op;
    var code := front + MemBytes(reg, m) + rest;
    assert code == RexMemBytes(w, reg, m) + op + (MemBytes(reg, m) + rest);
    WrittenHead(w, reg, m, op, MemBytes(reg, m) + rest);
    var p, h, d, tl := DecodeSteps(t, code);
    MemRead(d, front, reg, m, rest);
    ModrmKept(d, h, code, Has66(code, p, h), tl);
    OperandReadBack(Decode(t, code).value.instr, w, reg, m);
    OneSegment(m);
    assert code[..p][..Min(p, 4)] == SegBytes(m);
  }
}
