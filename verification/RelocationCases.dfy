/** Where the block relocation rewrites the wrong bytes, and real instructions it happens
    to. */
module RelocationCases {
  import opened Words
  import opened InstrTable
  import opened Decoder
  import opened RoundTrip
  import opened CodecCases
  import opened Locality
  import opened Relocation
  import opened Moving
  import opened Stealing

  // ------------------------------------------------------------ a field that starts too early

  lemma Smallness(e: int)
    requires -W32 < e < W32 && exists k :: e == W32 * k
    ensures e == 0
  {
  }

  /** The quotient bytes of two fields that agree on the lower part differ by a number that
      is multiplied when it is shifted there; only zero stays what it is. */
  lemma ShiftedDifference(e: int, b: int, m: int, delta: int)
    requires (b == 0x100 && m == 0x100_0000) || (b == 0x1_0000 && m == 0x1_0000) || (b == 0x100_0000 && m == 0x100)
    requires -m < e < m && (e - delta) % W32 == 0 && (b * e - delta) % W32 == 0
    ensures delta % W32 == 0
  {
    var i, j := (e - delta) / W32, (b * e - delta) / W32;
    var k := i - j;
    assert e == b * e + W32 * k;
    if b == 0x100 {
      assert e == 0x1_0000 * e + W32 * (0x101 * k);
      assert e == W32 * (e + 0x1_0101 * k + 0x100_0000 * k);
    } else if b == 0x1_0000 {
      assert e == W32 * (e + 0x1_0001 * k);
    } else {
      assert e == W32 * (0x1_0000 * e + 0x100_0001 * k);
    }
    Smallness(e);
    assert delta == W32 * (-i);
    ModShift(0, W32, -i);
  }

  lemma CongruentChain(a: int, b: int, c: int, d: int, m: int)
    requires m > 0 && a % m == b % m && c % m == d % m
    ensures (a - c - (b - d)) % m == 0
  {
    SameRemainder(a, b, m);
    SameRemainder(c, d, m);
    var i, j := (a - b) / m, (c - d) / m;
    assert a - c - (b - d) == 0 + m * (i - j) by {
      assert m * (i - j) == m * i - m * j;
    }
    ModShift(0, m, i - j);
  }

  lemma Spread(b: int, x: int, y: int)
    ensures b * (x - y) == b * x - b * y
  {
  }

  lemma InSmallRange(x: nat, y: int)
    requires x == y % W32
    ensures x % W32 == y % W32
  {
  }

  /** Two readings of four bytes that share their lower part. */
  lemma LowerShared(f0: seq<u8>, f1: seq<u8>, g1: seq<u8>, delta: int)
    requires |f1| == |g1| && |f0 + f1| == 4 && f0 + g1 == Le(Signed(FromLe(f0 + f1), 4) + delta, 4)
    ensures (Pow256(|f0|) * (FromLe(g1) - FromLe(f1)) - delta) % W32 == 0
  {
    hide Le, FromLe, Signed, Pow256;
    Pow256Values();
    var x := Signed(FromLe(f0 + f1), 4);
    FromLeConcat(f0, f1);
    FromLeConcat(f0, g1);
    FromLeOfLe(x + delta, 4);
    SignedCongruent(FromLe(f0 + f1), 4);
    Spread(Pow256(|f0|), FromLe(g1), FromLe(f1));
    InSmallRange(FromLe(f0 + g1), x + delta);
    CongruentChain(FromLe(f0 + g1), x + delta, FromLe(f0 + f1), x, W32);
  }

  /** Two readings of four bytes that share their upper part. */
  lemma UpperShared(f1: seq<u8>, g1: seq<u8>, top: seq<u8>)
    requires |f1| == |g1| && |f1 + top| == 4
    ensures (FromLe(g1) - FromLe(f1) - (Signed(FromLe(g1 + top), 4) - Signed(FromLe(f1 + top), 4))) % W32 == 0
  {
    hide FromLe, Signed, Pow256;
    Pow256Values();
    FromLeConcat(f1, top);
    FromLeConcat(g1, top);
    SignedCongruent(FromLe(f1 + top), 4);
    SignedCongruent(FromLe(g1 + top), 4);
    CongruentChain(FromLe(g1 + top), Signed(FromLe(g1 + top), 4), FromLe(f1 + top), Signed(FromLe(f1 + top), 4), W32);
  }

  /** The parts of the two fields. */
  lemma FieldParts(s: seq<u8>, at: nat, j: nat, delta: int)
    requires 1 <= j <= 3 && at + j + 4 <= |s| && Patch(s, at, delta)[..at + j] == s[..at + j]
    ensures var after := Patch(s, at, delta);
            var f0, f1, g1, top := s[at..at + j], s[at + j..at + 4], after[at + j..at + 4], s[at + 4..at + j + 4];
            && s[at..at + 4] == f0 + f1 && f0 + g1 == Le(ReadSigned(s, at, 4) + delta, 4)
            && after[at + j..at + j + 4] == g1 + top && s[at + j..at + j + 4] == f1 + top
  {
    hide Le, ReadSigned;
    var after := Patch(s, at, delta);
    assert after[at..at + 4] == Le(ReadSigned(s, at, 4) + delta, 4);
    assert s[at..at + j] == s[..at + j][at..] == after[..at + j][at..] == after[at..at + j];
    assert after[at..at + 4] == after[at..at + j] + after[at + j..at + 4];
  }

  /** What a rewrite does to the numbers in the two fields. */
  lemma FieldDifference(s: seq<u8>, at: nat, j: nat, delta: int)
    requires 1 <= j <= 3 && at + j + 4 <= |s|
    requires Patch(s, at, delta)[..at + j] == s[..at + j]
    ensures var after := Patch(s, at, delta);
            var e := FromLe(after[at + j..at + 4]) - FromLe(s[at + j..at + 4]);
            && (Pow256(j) * e - delta) % W32 == 0
            && (e - (ReadSigned(after, at + j, 4) - ReadSigned(s, at + j, 4))) % W32 == 0
  {
    hide Le, FromLe, Signed, Pow256, Patch;
    var f1, g1 := s[at + j..at + 4], Patch(s, at, delta)[at + j..at + 4];
    FieldParts(s, at, j, delta);
    LowerShared(s[at..at + j], f1, g1, delta);
    UpperShared(f1, g1, s[at + 4..at + j + 4]);
  }

  lemma FieldRange(s: seq<u8>)
    ensures 0 <= FromLe(s) < Pow256(|s|)
    ensures Pow256(1) == 0x100 && Pow256(2) == 0x1_0000 && Pow256(3) == 0x100_0000
  {
    Pow256Values();
  }

  lemma NothingAdded(s: seq<u8>, at: nat, delta: int)
    requires at + 4 <= |s|
    ensures Patch(s, at, delta) == s <==> delta % W32 == 0
  {
    hide Le, FromLe, Signed;
    Pow256Values();
    var v := ReadSigned(s, at, 4);
    SameRemainder(v + delta, v, W32);
    LeCongruent(v + delta, v, 4);
    LeOfSigned(s[at..at + 4]);
    assert Patch(s, at, delta)[at..at + 4] == Le(v + delta, 4);
    PatchZero(s, at);
  }

  lemma BehindPatch(s: seq<u8>, at: nat, j: nat, delta: int)
    requires 4 <= j && at + j + 4 <= |s|
    ensures ReadSigned(Patch(s, at, delta), at + j, 4) == ReadSigned(s, at + j, 4)
  {
    hide Le, FromLe, Signed;
    assert Patch(s, at, delta)[at + j..at + j + 4] == s[at + j..at + j + 4];
  }

  lemma SumOfMultiples(a: int, b: int, m: int)
    requires m > 0 && a % m == 0 && b % m == 0
    ensures (a + b) % m == 0
  {
    ModSum(a, b, m);
  }

  /** A displacement of four bytes, of which a rewrite that starts `j` bytes early changes
      only some: the bytes in front of it survive together with the low 32 bits of the
      target exactly if nothing moves modulo 2^32. */
  lemma EarlyField(s: seq<u8>, at: nat, j: nat, src: u64, dst: u64, end: int)
    requires 1 <= j && at + j + 4 <= |s|
    ensures var after := Patch(s, at, src - dst);
            after[..at + j] == s[..at + j]
            && (dst + end + ReadSigned(after, at + j, 4)) % W32 == (src + end + ReadSigned(s, at + j, 4)) % W32
            <==> (src - dst) % W32 == 0
  {
    hide Patch, ReadSigned, FromLe, Pow256;
    var delta := src - dst;
    var after := Patch(s, at, delta);
    var v, w := ReadSigned(s, at + j, 4), ReadSigned(after, at + j, 4);
    NothingAdded(s, at, delta);
    SameRemainder(dst + end + w, src + end + v, W32);
    SameRemainder(src + end + v, dst + end + v, W32);
    if j >= 4 {
      BehindPatch(s, at, j, delta);
    } else if after[..at + j] == s[..at + j] && (w - v - delta) % W32 == 0 {
      FieldDifference(s, at, j, delta);
      var e := FromLe(after[at + j..at + 4]) - FromLe(s[at + j..at + 4]);
      FieldRange(s[at..at + j]);
      FieldRange(after[at + j..at + 4]);
      FieldRange(s[at + j..at + 4]);
      SumOfMultiples(e - (w - v), w - v - delta, W32);
      ShiftedDifference(e, Pow256(j), Pow256(4 - j), delta);
    }
  }

  lemma LowEqual(a: int, b: int)
    requires a % W64 == b % W64
    ensures a % W32 == b % W32
  {
    SameRemainder(a, b, W64);
    var k := (a - b) / W64;
    assert a - b == W32 * (W32 * k);
    ModShift(0, W32, W32 * k);
    SameRemainder(a, b, W32);
  }

  /** The same for a target of 64 bits, which is kept only if nothing moves. */
  lemma EarlyFieldWide(s: seq<u8>, at: nat, j: nat, src: u64, dst: u64, end: int)
    requires 1 <= j && at + j + 4 <= |s|
    ensures var after := Patch(s, at, src - dst);
            after[..at + j] == s[..at + j]
            && (dst + end + ReadSigned(after, at + j, 4)) % W64 == (src + end + ReadSigned(s, at + j, 4)) % W64
            <==> src == dst
  {
    hide Patch, ReadSigned;
    var after := Patch(s, at, src - dst);
    var v, w := ReadSigned(s, at + j, 4), ReadSigned(after, at + j, 4);
    EarlyField(s, at, j, src, dst, end);
    NothingAdded(s, at, src - dst);
    if after[..at + j] == s[..at + j] && (dst + end + w) % W64 == (src + end + v) % W64 {
      LowEqual(dst + end + w, src + end + v);
      assert w == v;
      SameRemainder(dst + end + v, src + end + v, W64);
      SmallRemainder(dst, src);
    }
  }

  // ------------------------------------------------------------ a ModRM byte that is taken too early

  /** The instruction at `off` has a RIP-relative operand, and the code rewrites the four
      bytes that start `j` bytes in front of its displacement. */
  ghost predicate TakenEarly(t: Table, buf: seq<u8>, off: nat, limit: nat, j: nat)
    requires off <= limit <= |buf|
  {
    var s := buf[off..limit];
    Decode(t, s).Some? &&
    var r, h := Decode(t, s).value, ParseHead(s, PrefixEnd(s, 0)).value;
    && r.size <= |s| && Regular(r.instr.desc) && IsRipInstr(r) && !HasRel(r.instr.desc)
    && 1 <= j <= h.next + 1 && RipAt(r.instr, r.size, s[..r.size]) == Some(h.next + 1 - j)
  }

  lemma EarlyPlace(t: Table, buf: seq<u8>, off: nat, limit: nat, j: nat) returns (at: nat)
    requires off <= limit <= |buf| && TakenEarly(t, buf, off, limit, j)
    ensures Decode(t, buf[off..limit]).Some?
    ensures var r := Decode(t, buf[off..limit]).value;
            && off + r.size <= limit && 1 <= j <= at && at + 4 <= off + r.size
               && WritesInside(buf, off, r.size, r.instr)
            && at == off + ParseHead(buf[off..limit], PrefixEnd(buf[off..limit], 0)).value.next + 1
            && r.instr.displacement == ReadSigned(buf, at, 4)
            && RipAt(r.instr, r.size, buf[off..off + r.size]) == Some(at - j - off) && !PatchesRel(r.instr.desc)
  {
    hide FromLe, Signed, Choose, ParseTail, ParseHead, Spellable, OneField, RipAt, PatchesRel;
    var s := buf[off..limit];
    var p, h, d, tl := DecodeSteps(t, s);
    PatchesHas(d);
    TailPlaces(d, h, s, Has66(s, p, h), tl);
    at := off + h.next + 1;
    SliceOfSlice(buf, off, limit - off, h.next + 1, 4);
    SliceOfSlice(buf, off, limit - off, 0, tl.next);
  }

  lemma OnlyRip(buf: seq<u8>, off: nat, n: nat, instr: DecodedInstr, at: nat, delta: int)
    requires WritesInside(buf, off, n, instr) && !PatchesRel(instr.desc)
    requires RipAt(instr, n, buf[off..off + n]) == Some(at)
    ensures off + at + 4 <= |buf| && PatchAt(buf, off, n, instr, delta) == Patch(buf, off + at, delta)
  {
    hide Patch, RipAt, PatchesRel;
  }

  /** Where the code takes a byte in front of the ModRM byte for it, the bytes up to and
      including the ModRM byte and the target of the operand survive together only if
      nothing moves, or with an address-size prefix at multiples of 2^32. */
  lemma RipTakenEarly(t: Table, buf: seq<u8>, off: nat, limit: nat, j: nat, src: u64, dst: u64) returns (at: nat)
    requires off <= limit <= |buf| && TakenEarly(t, buf, off, limit, j)
    ensures Decode(t, buf[off..limit]).Some?
    ensures var r := Decode(t, buf[off..limit]).value;
            && off + r.size <= limit && at + 4 <= off + r.size && WritesInside(buf, off, r.size, r.instr)
            && at == off + ParseHead(buf[off..limit], PrefixEnd(buf[off..limit], 0)).value.next + 1
            && var after := PatchAt(buf, off, r.size, r.instr, src - dst);
               var moved := r.(instr := r.instr.(displacement := ReadSigned(after, at, 4)));
               && (after[..at] == buf[..at] && RipTarget(dst + off, moved, false) == RipTarget(src + off, r, false)
                   <==> src == dst)
               && (after[..at] == buf[..at] && RipTarget(dst + off, moved, true) == RipTarget(src + off, r, true)
                   <==> (src - dst) % W32 == 0)
  {
    hide Decode, TakenEarly, WritesInside, PatchAt, Patch, ReadSigned, RipAt, PatchesRel, ParseHead;
    at := EarlyPlace(t, buf, off, limit, j);
    var r := Decode(t, buf[off..limit]).value;
    OnlyRip(buf, off, r.size, r.instr, at - j - off, src - dst);
    EarlyField(buf, at - j, j, src, dst, off + r.size);
    EarlyFieldWide(buf, at - j, j, src, dst, off + r.size);
  }

  /** An instruction without RIP-relative operand of which four bytes are rewritten all the
      same survives exactly at multiples of 2^32. */
  lemma NoRipRewritten(buf: seq<u8>, off: nat, r: Decoded, at: nat, src: u64, dst: u64)
    requires WritesInside(buf, off, r.size, r.instr) && !HasRel(r.instr.desc)
    requires RipAt(r.instr, r.size, buf[off..off + r.size]) == Some(at)
    ensures PatchAt(buf, off, r.size, r.instr, src - dst) == buf <==> (src - dst) % W32 == 0
  {
    hide Patch, RipAt, PatchesRel;
    PatchesHas(r.instr.desc);
    OnlyRip(buf, off, r.size, r.instr, at, src - dst);
    NothingAdded(buf, off + at, src - dst);
  }

  // ------------------------------------------------------------ real instructions

  /** `C5 F8 op 05 10 00 00 00`, a VEX form with the operand [rip + 16]. */
  function VexRip(op: u8): seq<u8> {
    [0xC5, 0xF8, op, 0x05, 0x10, 0, 0, 0]
  }

  lemma VexRipHead(op: u8)
    requires op != 0x38 && op != 0x3A
    ensures var h := Head(Vex2Fields(0xF8), TwoByte(op), 0xFF, 0, 3);
            ParseHead(VexRip(op), 0) == Some(h) && h.enc.rex == 0 && MapOf(h.opcode) == 1
  {
  }

  lemma VexRipTail(op: u8, h: Head)
    requires h.next == 3 && h.opcode != 0x0F3A
    ensures ParseTail(Entry(TwoByte(op), 0, 0xFF, true), h, VexRip(op), false) == Some(Tail(0x05, 0, 0x10, 0, 8))
  {
    hide FromLe, Signed;
    assert VexRip(op)[4..8] == [0x10, 0, 0, 0] == Le(0x10, 4);
    SignedOfLe(0x10, 4);
    Pow256Values();
  }

  lemma NoSizePrefix(code: seq<u8>, h: Head)
    requires h.pp == 0
    ensures !Has66(code, 0, h)
  {
  }

  lemma VexRipDecodes(op: u8)
    requires op != 0x38 && op != 0x3A
    ensures var d := Entry(TwoByte(op), 0, 0xFF, true);
            && Decode([d], VexRip(op))
               == Some(Decoded(8, DecodedInstr(d, [], Vex2Fields(0xF8), 0x05, 0, op % 8, 0x10, 0, 8)))
            && PrefixEnd(VexRip(op), 0) == 0
  {
    hide Decode, Fits, ParseTail, ParseHead, Vex2Fields, KeyOf, SecOf;
    var d, code, h := Entry(TwoByte(op), 0, 0xFF, true), VexRip(op), Head(Vex2Fields(0xF8), TwoByte(op), 0xFF, 0, 3);
    VexRipHead(op);
    KeyOpcode([], h);
    assert code[..0] == [];
    EntryFits(d, KeyOf([], h), Peek(code, 3));
    VexRipTail(op, h);
    NoSizePrefix(code, h);
    DecodesAlone(d, code, 0, h, Tail(0x05, 0, 0x10, 0, 8));
  }

  lemma NoRelEntry(d: InstrDesc)
    requires IsEntry(d) && (d.opcode <= 0xFF || d.opcode / 0x100 == 0x0F)
    ensures Regular(d) && !PatchesRel(d) && !HasRel(d)
  {
  }

  lemma PassedOver(i: DecodedInstr, s: seq<u8>)
    requires |s| == 8 && ModrmOffset(i) == 2 && !IsRipRelative(s[2]) && !PatchesRel(i.desc)
    ensures RipAt(i, 8, s).None? && PatchesInside(i, 8, s)
  {
    hide PatchesRel, ModrmOffset;
  }

  lemma VexRipOffset(op: u8)
    ensures ModrmOffset(DecodedInstr(Entry(TwoByte(op), 0, 0xFF, true), [], Vex2Fields(0xF8), 0x05, 0, op % 8, 0x10, 0,
                                     8)) == 2
  {
  }

  /** `vmovaps xmm0, [rip + 16]` is passed over: the byte taken for its ModRM byte is the
      opcode 28, which names no RIP-relative operand. */
  lemma VexLoadSkipped(src: u64, dst: u64)
    ensures var r := Decode([Entry(0x0F28, 0, 0xFF, true)], VexRip(0x28));
            && r.Some? && r.value.size == 8 && IsRipInstr(r.value) && r.value.instr.displacement == 0x10
            && PatchesInside(r.value.instr, 8, VexRip(0x28))
            && PatchOne(r.value.instr, VexRip(0x28), src - dst) == VexRip(0x28)
            && (RipTarget(dst, r.value, false) == RipTarget(src, r.value, false) <==> src == dst)
  {
    hide Decode, PatchOne, PatchesInside, RipAt, ModrmOffset, Vex2Fields, PatchesRel;
    VexRipDecodes(0x28);
    VexRipOffset(0x28);
    NoRelEntry(Entry(0x0F28, 0, 0xFF, true));
    var r := Decode([Entry(0x0F28, 0, 0xFF, true)], VexRip(0x28)).value;
    PassedOver(r.instr, VexRip(0x28));
    RipSkipped(r, VexRip(0x28), src, dst, 0);
  }

  /** `vunpckhps xmm0, xmm0, [rip + 16]` is damaged: its opcode 15 is taken for a ModRM byte
      with a RIP-relative operand. */
  lemma VexUnpackTakenEarly()
    ensures TakenEarly([Entry(0x0F15, 0, 0xFF, true)], VexRip(0x15), 0, 8, 1)
  {
    hide Decode;
    assert VexRip(0x15)[0..8] == VexRip(0x15);
    VexRipDecodes(0x15);
    VexRipHead(0x15);
    NoRelEntry(Entry(0x0F15, 0, 0xFF, true));
    assert VexRip(0x15)[..8] == VexRip(0x15);
  }

  /** An entry of the shape of JZ 0F84, and the instruction with an operand-size prefix. */
  const JZ := InstrDesc(Jcc(4), 0x0F84, 0xFF, 0, 0xFF, false, 0, 0, [OperandDesc(RelOffset, OpSzDS, 0xFF)], false,
                        false)

  const JZ_WORD: seq<u8> := [0x66, 0x0F, 0x84, 0x10, 0x00]

  lemma JzFields()
    ensures Regular(JZ) && HasRel(JZ) && RelWidth(JZ, true, false, 2)
    ensures !HasAddr(JZ, Moffset) && FieldOf(JZ.operands, 0) == Some(JZ.operands[0]) && NoImplicit(JZ, 0x0F84)
  {
    assert forall a :: a != RelOffset ==> !HasAddr(JZ, a);
    assert JZ.operands[0] in JZ.operands;
  }

  lemma JzFits(k: Key, peek: u8)
    requires k.opcode == 0x0F84
    ensures Fits(JZ, k, peek)
  {
    var q := QueryOf(k, k.mandatory, SecOf(k, peek), peek);
    assert Accepts(JZ, q);
    assert InSlot(JZ, MapOf(q.opcode), ByteOf(q.opcode, q.sec));
    assert MapOf(0x0F84) == 1;
  }

  /** `66 0F 84 10 00` is a jump that is rewritten as if its operand had four bytes. */
  lemma JzIsNarrow()
    ensures IsNarrow([JZ], JZ_WORD, 0, 5)
  {
    hide Decode, Fits, ParseTail, ReadSigned, Regular, HasRel, RelWidth, FieldOf, NoImplicit;
    var h := Head(PLAIN, 0x0F84, 0xFF, 0, 3);
    assert JZ_WORD[..1] == [0x66] && JZ_WORD[0..5] == JZ_WORD;
    JzFields();
    JzFits(KeyOf([0x66], h), Peek(JZ_WORD, 3));
    ImmTail(JZ, h, JZ_WORD, true, JZ.operands[0]);
    DecodesAlone(JZ, JZ_WORD, 1, h, Tail(0, 0, 0, ReadSigned(JZ_WORD, 3, 2), 5));
  }
}
