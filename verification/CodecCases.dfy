/** The round trip for the legacy encodings, and two entries of the real table for which
    the guards of the general theorems fail. */
module CodecCases {
  import opened Words
  import opened InstrTable
  import opened Decoder
  import opened Encoder
  import opened RoundTrip
  import opened Locality

  /** The lead byte starts no VEX, EVEX or REX2 form. */
  predicate IsLegacy(b: u8) {
    b !in {0x62, 0xC4, 0xC5, 0xD5}
  }

  /** Legacy and REX encodings with at most four prefixes survive decoding and encoding
      byte for byte, unless the third opcode byte is 0xFF or a 0F3A entry does not
      declare its immediate. */
  lemma LegacyRoundTrip(t: Table, code: seq<u8>)
    requires Decode(t, code).Some? && Regular(Decode(t, code).value.instr.desc)
    requires var p := PrefixEnd(code, 0); p <= 4 && (p < |code| ==> IsLegacy(code[p]))
    requires var h, d := ParseHead(code, PrefixEnd(code, 0)).value, Decode(t, code).value.instr.desc;
             !SentinelThird(h) && (h.opcode == 0x0F3A ==> HasAddr(d, Immediate))
    ensures Encode(Decode(t, code).value.instr) == code[..Decode(t, code).value.size]
  {
    hide Encode, Choose, ParseTail, ParseHead, Spellable, OneField, FixedImms;
    var p, h, d, tl := DecodeSteps(t, code);
    HeadKinds(code, p, h);
    assert code[..p][..Min(p, 4)] == code[..p];
    RoundTripIff(t, code);
  }

  // ------------------------------------------------------------ a lookahead that matters

  /** An entry of the shape of XEND: second opcode byte 0xD5, no ModRM, no operands. */
  const XEND := InstrDesc(Other(0), 0x0F01, 0xFF, 0, 0xD5, false, 0, 0, [], false, false)

  const XEND_BYTES: seq<u8> := [0x0F, 0x01, 0xD5]

  lemma XendHead(code: seq<u8>)
    requires |code| >= 2 && code[0] == 0x0F && code[1] == 0x01
    ensures PrefixEnd(code, 0) == 0 && ParseHead(code, 0) == Some(Head(PLAIN, 0x0F01, 0xFF, 0, 2))
  {
  }

  lemma XendPicked(q: Query)
    requires q.opcode == 0x0F01 && q.prefix == 0 && !q.isEvex && !q.isVex
    ensures Lookup([XEND], q) == if q.sec == 0xD5 then Some(XEND) else None
  {
    assert MapOf(0x0F01) == 1 && ByteOf(0x0F01, q.sec) == 1;
    assert !HasOpcodeReg(XEND) && !HasVexOperand(XEND);
    forall g: Goal
      ensures First([XEND], q, g, 0) == if Picks(XEND, q, g) then Some(XEND) else None
    {
      assert First([XEND], q, g, 1) == None;
    }
    assert q.sec == 0xD5 <==> Accepts(XEND, q);
  }

  lemma XendChosen(peek: u8)
    ensures Choose([XEND], Key(0x0F01, 0xFF, 0, false, false, false), peek) == if peek == 0xD5 then Some(XEND) else None
  {
    hide Lookup;
    var k := Key(0x0F01, 0xFF, 0, false, false, false);
    XendPicked(QueryOf(k, 0, SecOf(k, peek), peek));
    XendPicked(QueryOf(k, 0, 0xFF, peek));
  }

  lemma XendDecodes(code: seq<u8>)
    requires |code| >= 3 && code[..3] == XEND_BYTES
    ensures Decode([XEND], code).Some? && Decode([XEND], code).value.size == 2
  {
    hide Choose;
    assert forall i :: 0 <= i < 3 ==> code[i] == code[..3][i];
    XendChosen(0xD5);
    XendHead(code);
    EmptyTail(XEND, Head(PLAIN, 0x0F01, 0xFF, 0, 2), code, false);
    assert code[..0] == [];
  }

  /** Over a table with such an entry the decoder looks at the third byte without
      consuming it: three bytes decode as an instruction of two, which alone does not
      decode at all, so decoding depends on a byte outside the instruction. */
  lemma XendTooShort()
    ensures Decode([XEND], XEND_BYTES).Some? && Decode([XEND], XEND_BYTES).value.size == 2
    ensures Decode([XEND], XEND_BYTES[..2]).None?
    ensures !LookaheadFree([XEND])
  {
    hide Choose;
    XendDecodes(XEND_BYTES);
    XendChosen(0);
    XendHead(XEND_BYTES[..2]);
    assert XEND_BYTES[..2][..0] == [];
    if LookaheadFree([XEND]) {
      assert XEND_BYTES[..2] == XEND_BYTES[..2][..2];
      LookaheadFreeIsStable([XEND], XEND_BYTES, XEND_BYTES[..2]);
      assert false;
    }
  }

  // ------------------------------------------------------------ two immediates

  /** Wherever an entry with two immediates of fixed sizes is chosen, as ENTER is, the
      second one is lost: no string that decodes to it is printed back. */
  lemma SecondImmediateLost(t: Table, code: seq<u8>)
    requires Decode(t, code).Some?
    requires var d := Decode(t, code).value.instr.desc; FixedImms(d) && !OneField(d)
    ensures var r := Decode(t, code).value; Encode(r.instr) != code[..r.size]
  {
    hide Encode, Decode, FixedImms, OneField;
    RoundTripIff(t, code);
  }

  /** An entry of the shape of ENTER: a word and a byte immediate. */
  const ENTER := InstrDesc(Other(1), 0xC8, 0xFF, 0, 0xFF, false, 0, 0,
                           [OperandDesc(NoAddr, NoSize, 0xFF), OperandDesc(Fixed, OpSz, 5),
                            OperandDesc(Immediate, Word, 0xFF), OperandDesc(Immediate, Byte, 0xFF)], false, false)

  /** Over every table, no string that decodes to it is printed back. */
  lemma EnterLosesImmediate(t: Table, code: seq<u8>)
    requires Decode(t, code).Some? && Decode(t, code).value.instr.desc == ENTER
    ensures var r := Decode(t, code).value; Encode(r.instr) != code[..r.size]
  {
    hide Encode, Decode;
    assert IsField(ENTER.operands[2]) && IsField(ENTER.operands[3]);
    SecondImmediateLost(t, code);
  }

  // ------------------------------------------------------------ one entry, one string

  /** A table of one entry holds it wherever the opcode, prefix and filters fit. */
  predicate Fits(d: InstrDesc, k: Key, peek: u8) {
    var q := QueryOf(k, k.mandatory, SecOf(k, peek), peek);
    Picks(d, q, Exact) || Picks(d, q, NoPrefix)
  }

  lemma OneFirst(d: InstrDesc, q: Query, g: Goal)
    ensures First([d], q, g, 0) == if Picks(d, q, g) then Some(d) else None
  {
    hide Picks;
    assert First([d], q, g, 1) == None;
  }

  lemma OneChosen(d: InstrDesc, k: Key, peek: u8)
    requires Fits(d, k, peek)
    ensures Choose([d], k, peek) == Some(d)
  {
    hide First, Picks, MapOf;
    var q := QueryOf(k, k.mandatory, SecOf(k, peek), peek);
    OneFirst(d, q, EvexVvvv);
    OneFirst(d, q, Exact);
    OneFirst(d, q, NoPrefix);
  }

  /** Such a string decodes as a whole. */
  lemma DecodesAlone(d: InstrDesc, code: seq<u8>, p: nat, h: Head, tl: Tail)
    requires p < |code| && !IsLegacyPrefix(code[p]) && forall i :: 0 <= i < p ==> IsLegacyPrefix(code[i])
    requires ParseHead(code, p) == Some(h) && Fits(d, KeyOf(code[..p], h), Peek(code, h.next))
    requires ParseTail(d, h, code, Has66(code, p, h)) == Some(tl)
    ensures Decode([d], code) == Some(Assemble(d, code[..p], h, tl))
  {
    hide Fits, Choose, ParseTail, ParseHead, KeyOf;
    OneChosen(d, KeyOf(code[..p], h), Peek(code, h.next));
    ParsedDecodes([d], code, p, h, d, tl);
  }

  /** With `d` as the only entry the whole string decodes, and is printed as `printed`. */
  ghost predicate Prints(d: InstrDesc, code: seq<u8>, printed: seq<u8>) {
    var r := Decode([d], code);
    r.Some? && r.value.size == |code| && Encode(r.value.instr) == printed
  }

  /** An entry without operands. */
  function Entry(opcode: u16, prefix: u8, sec: u8, hasModrm: bool): InstrDesc {
    InstrDesc(Other(0), opcode, 0xFF, prefix, sec, hasModrm, 0, 0, [], false, false)
  }

  predicate IsEntry(d: InstrDesc) {
    d == Entry(d.opcode, d.prefix, d.secOpcd, d.hasModrm)
  }

  lemma EntryFits(d: InstrDesc, k: Key, peek: u8)
    requires IsEntry(d) && d.opcode == k.opcode && (d.prefix == 0 || d.prefix == k.mandatory)
    requires d.secOpcd == if MapOf(k.opcode) >= 2 then SecOf(k, peek) else 0xFF
    requires MapOf(k.opcode) >= 2 ==> d.secOpcd != 0xFF
    ensures Fits(d, k, peek)
  {
    hide SecOf, ModOf, RegOf;
    var q := QueryOf(k, k.mandatory, SecOf(k, peek), peek);
    assert Accepts(d, q);
    assert InSlot(d, MapOf(q.opcode), ByteOf(q.opcode, q.sec));
  }

  /** What follows the opcode of such an entry: a ModRM byte of the register form, and in
      the 0F3A map one byte more. */
  lemma EntryTail(d: InstrDesc, h: Head, code: seq<u8>, has66: bool)
    requires IsEntry(d) && h.next <= |code| && (d.hasModrm ==> h.next < |code| && ModOf(code[h.next]) == 3)
    ensures var modrm, n := if d.hasModrm then code[h.next] else 0, h.next + Flag(d.hasModrm, 1);
            ParseTail(d, h, code, has66)
            == Some(if h.opcode == 0x0F3A && n < |code| then Tail(modrm, 0, 0, ReadSigned(code, n, 1), n + 1)
                    else Tail(modrm, 0, 0, 0, n))
  {
    assert code[h.next + Flag(d.hasModrm, 1)..h.next + Flag(d.hasModrm, 1)] == [] || h.next == |code|;
  }

  lemma EntryPrinted(i: DecodedInstr)
    requires IsEntry(i.desc) && (i.desc.hasModrm ==> ModOf(i.modrm) == 3)
    ensures Encode(i) == PrefixBytes(i) + HeadBytes(i) + OpcodeBytes(i) + (if i.desc.hasModrm then [i.modrm] else [])
                         + (if i.desc.opcode == 0x0F3A && i.immediate != 0 then [i.immediate % 0x100] else [])
  {
    hide PrefixBytes, HeadBytes, OpcodeBytes;
  }

  /** What such an entry makes of a string that ends with it. */
  lemma EntryExample(d: InstrDesc, code: seq<u8>, p: nat, h: Head)
    requires IsEntry(d) && p < |code| && !IsLegacyPrefix(code[p]) && forall i :: 0 <= i < p ==> IsLegacyPrefix(code[i])
    requires ParseHead(code, p) == Some(h) && h.opcode != 0x0F3A && |code| == h.next + Flag(d.hasModrm, 1)
    requires d.hasModrm ==> ModOf(code[h.next]) == 3
    requires d.prefix == 0 && d.opcode == h.opcode && (MapOf(d.opcode) < 2 ==> d.secOpcd == 0xFF)
    requires MapOf(d.opcode) >= 2 ==>
               d.hasModrm && d.secOpcd != 0xFF && d.secOpcd == if h.third != 0xFF then h.third else code[h.next]
    ensures var modrm := if d.hasModrm then code[h.next] else 0;
            var i := DecodedInstr(d, code[..p][..Min(p, 4)], h.enc, modrm, 0, h.opcode % 8, 0, 0, |code| % 0x100);
            Prints(d, code, PrefixBytes(i) + HeadBytes(i) + OpcodeBytes(i) + (if d.hasModrm then [modrm] else []))
  {
    hide Fits, ParseTail, Decode, Encode, ParseHead, PrefixBytes, HeadBytes, OpcodeBytes, MapOf;
    var modrm := if d.hasModrm then code[h.next] else 0;
    KeyOpcode(code[..p], h);
    EntryFits(d, KeyOf(code[..p], h), Peek(code, h.next));
    EntryTail(d, h, code, Has66(code, p, h));
    DecodesAlone(d, code, p, h, Tail(modrm, 0, 0, 0, |code|));
    EntryPrinted(Decode([d], code).value.instr);
  }

  /** Of five prefixes the last one is dropped. */
  lemma FifthPrefixLost()
    ensures Prints(Entry(0x90, 0, 0xFF, false),
                   [0x2E, 0x2E, 0x2E, 0x2E, 0x64, 0x90],
                   [0x2E, 0x2E, 0x2E, 0x2E, 0x90])
  {
    hide Fits, Decode, Encode, KeyOf, SecOf, ParseTail;
    var d, code: seq<u8>, h := Entry(0x90, 0, 0xFF, false), [0x2E, 0x2E, 0x2E, 0x2E, 0x64, 0x90],
      Head(PLAIN, 0x90, 0xFF, 0, 6);
    assert code[..5] == [0x2E, 0x2E, 0x2E, 0x2E, 0x64] && code[..5][..4] == [0x2E, 0x2E, 0x2E, 0x2E];
    EntryExample(d, code, 5, h);
  }

  lemma Vex2Example()
    ensures ParseHead([0x66, 0xC5, 0xF8, 0x77], 1) == Some(Head(Vex2Fields(0xF8), 0x0F77, 0xFF, 0, 4))
    ensures var e := Vex2Fields(0xF8); e.hasVex && !e.hasEvex && VexBytes(e, 1, 0) == [0xC5, 0xF8]
  {
    hide VlpBits, RexOf;
    Vex2Byte(0xF8, 0);
  }

  /** An operand-size prefix in front of a VEX prefix is dropped. */
  lemma SizePrefixBeforeVexLost()
    ensures Prints(Entry(0x0F77, 0, 0xFF, false),
                   [0x66, 0xC5, 0xF8, 0x77],
                   [0xC5, 0xF8, 0x77])
  {
    hide Fits, Decode, Encode, KeyOf, SecOf, ParseHead, Vex2Fields, VexBytes, Bit;
    var d, code: seq<u8>, h := Entry(0x0F77, 0, 0xFF, false), [0x66, 0xC5, 0xF8, 0x77],
      Head(Vex2Fields(0xF8), 0x0F77, 0xFF, 0, 4);
    assert code[..1] == [0x66] == code[..1][..Min(1, 4)];
    Vex2Example();
    OneFiltered(0x66);
    EntryExample(d, code, 1, h);
  }

  /** A third opcode byte 0xFF counts as missing: the ModRM byte behind it selects the
      entry, here one of the shape of SHA1NEXTE, and is printed in its place. */
  lemma ThirdByteReplaced()
    ensures Prints(Entry(0x0F38, 0, 0xC8, true),
                   [0x0F, 0x38, 0xFF, 0xC8],
                   [0x0F, 0x38, 0xC8, 0xC8])
  {
    hide Fits, Decode, Encode, KeyOf, SecOf, OrReg, Bit;
    var d, code: seq<u8>, h := Entry(0x0F38, 0, 0xC8, true), [0x0F, 0x38, 0xFF, 0xC8], Head(PLAIN, 0x0F38, 0xFF, 0, 3);
    assert code[..0] == [] == code[..0][..Min(0, 4)];
    OpcodeByte(0x38, 0x38, false);
    EntryExample(d, code, 0, h);
  }

  lemma Rex2Example()
    ensures ParseHead([0xD5, 0x80, 0xA2], 0) == Some(Head(Rex2Fields(0x80), 0x0FA2, 0xFF, 0, 3))
    ensures var e := Rex2Fields(0x80); !e.hasVex && !e.hasEvex && e.hasRex2 && Rex2Byte(e, 0x0FA2) == 0x80
  {
    hide RexOf, Rex2Byte;
    Rex2Payload(0x80, 0x0FA2);
  }

  /** Behind a REX2 prefix that names the 0F map the byte 0F is written as well. */
  lemma Rex2OpcodeGrows()
    ensures Prints(Entry(0x0FA2, 0, 0xFF, false),
                   [0xD5, 0x80, 0xA2],
                   [0xD5, 0x80, 0x0F, 0xA2])
  {
    hide Fits, Decode, Encode, KeyOf, SecOf, ParseHead, Rex2Fields, Rex2Byte, Bit;
    var d, code: seq<u8>, h := Entry(0x0FA2, 0, 0xFF, false), [0xD5, 0x80, 0xA2],
      Head(Rex2Fields(0x80), 0x0FA2, 0xFF, 0, 3);
    assert code[..0] == [] == code[..0][..Min(0, 4)];
    Rex2Example();
    EntryExample(d, code, 0, h);
  }

  lemma EvexExample()
    ensures ParseHead([0x62, 0xF1, 0x78, 0x08, 0x58, 0xC1], 0)
            == Some(Head(EvexFields(0xF1, 0x78, 0x08), 0x0F58, 0xFF, 0, 5))
    ensures var e := EvexFields(0xF1, 0x78, 0x08);
            e.hasVex && e.hasEvex && EvexBytes(e, 1, 0) == [0x62, 0xF1, 0x7C, 0x08]
  {
    hide RexOf, RxbBits;
    EvexP0(0xF1, 0x78, 0x08, 1);
    EvexP2(0xF1, 0x78, 0x08);
  }

  /** A clear fixed bit in the EVEX prefix is accepted and set again. */
  lemma EvexBitSet()
    ensures Prints(Entry(0x0F58, 0, 0xFF, true),
                   [0x62, 0xF1, 0x78, 0x08, 0x58, 0xC1],
                   [0x62, 0xF1, 0x7C, 0x08, 0x58, 0xC1])
  {
    hide Fits, Decode, Encode, KeyOf, SecOf, ParseHead, EvexFields, EvexBytes, Bit;
    var d, code: seq<u8>, h := Entry(0x0F58, 0, 0xFF, true), [0x62, 0xF1, 0x78, 0x08, 0x58, 0xC1],
      Head(EvexFields(0xF1, 0x78, 0x08), 0x0F58, 0xFF, 0, 5);
    assert code[..0] == [] == code[..0][..Min(0, 4)];
    EvexExample();
    EntryExample(d, code, 0, h);
  }

  // ------------------------------------------------------------ an undeclared immediate

  /** An entry of the shape of DPPS, which takes an immediate byte without declaring it. */
  const DPPS := Entry(0x0F3A, 0x66, 0x40, true)

  const DPPS_BYTES: seq<u8> := [0x66, 0x0F, 0x3A, 0x40, 0xC1]

  lemma DppsDecodes(imm: seq<u8>)
    requires |imm| <= 1
    ensures var r := Decode([DPPS], DPPS_BYTES + imm);
            && r.Some? && r.value.size == 5 + |imm|
            && r.value.instr == DecodedInstr(DPPS, [0x66], PLAIN, 0xC1, 0, 0x3A % 8, 0,
                                             if imm == [] then 0 else Signed(FromLe(imm), 1), 5 + |imm|)
  {
    hide Fits, ParseTail, Decode, Signed, FromLe;
    var code, h := DPPS_BYTES + imm, Head(PLAIN, 0x0F3A, 0x40, 0, 4);
    assert code[..1] == [0x66] == code[..1][..1];
    EntryFits(DPPS, KeyOf(code[..1], h), Peek(code, 4));
    EntryTail(DPPS, h, code, Has66(code, 1, h));
    assert imm != [] ==> code[5..6] == imm;
    DecodesAlone(DPPS, code, 1, h, Tail(0xC1, 0, 0, if imm == [] then 0 else Signed(FromLe(imm), 1), 5 + |imm|));
  }

  /** Both the five bytes and the five bytes with a zero behind them decode whole, to
      instructions that are printed alike: the zero is lost, one accepted encoding is a
      proper prefix of another, and the table is not free of lookahead. */
  lemma ZeroImmediateLost()
    ensures Prints(DPPS, DPPS_BYTES, DPPS_BYTES) && Prints(DPPS, DPPS_BYTES + [0], DPPS_BYTES)
    ensures !LookaheadFree([DPPS])
  {
    hide Decode, Encode, LookaheadFree;
    assert DPPS_BYTES + [] == DPPS_BYTES;
    DppsDecodes([]);
    DppsDecodes([0]);
    ImplicitPrinted(0);
    EntryPrinted(Decode([DPPS], DPPS_BYTES).value.instr);
    EntryPrinted(Decode([DPPS], DPPS_BYTES + [0]).value.instr);
    if LookaheadFree([DPPS]) {
      PrefixCode([DPPS], DPPS_BYTES, DPPS_BYTES + [0]);
      assert false;
    }
  }
}
