/** The canonical form of VEX: a three-byte prefix that says nothing the two-byte
    prefix cannot say is shortened, and shortening again changes nothing. */
module VexForm {
  import opened Words
  import opened InstrTable
  import opened Decoder
  import opened Encoder
  import opened RoundTrip
  import opened Locality

  /** The same instruction with the same operands; only the way the register
      extension bits are stored and the length may differ. */
  predicate SameInstruction(a: DecodedInstr, b: DecodedInstr) {
    && a.desc == b.desc && a.legacyPrefix == b.legacyPrefix && a.opcodeReg == b.opcodeReg
    && a.modrm == b.modrm && a.sib == b.sib && a.displacement == b.displacement && a.immediate == b.immediate
    && a.enc.(rex := 0) == b.enc.(rex := 0)
    && (forall w: BitWeight :: w < 16 ==> Bit(a.enc.rex, w) == Bit(b.enc.rex, w))
  }

  /** Reproducible, but for the three-byte VEX prefix being longer than needed. */
  predicate Shortens(t: Table, code: seq<u8>)
    requires Decode(t, code).Some?
  {
    var p := PrefixEnd(code, 0);
    var h := ParseHead(code, p).value;
    var instr := Decode(t, code).value.instr;
    && code[p] == 0xC4 && ShortVex(h.enc, VexMap(h.opcode)) && !SentinelThird(h)
    && PrefixesKept(code[..p], instr.desc, true) && instr.desc.prefix == h.pp
    && TailKept(instr, h, code, Has66(code, p, h))
  }

  /** The last VEX byte without W, with the inverted R of the first one on top. */
  lemma ShortByte(b1: u8, b2: u8)
    requires b2 < 128
    ensures var x := Flag(Bit(b1, 128), 128) + b2;
            && Bit(x, 128) == Bit(b1, 128) && x / 8 % 16 == b2 / 8 % 16 && x / 4 % 2 == b2 / 4 % 2 && x % 4 == b2 % 4
  {
    var x := Flag(Bit(b1, 128), 128) + b2;
    if x != b2 {
      assert x / 8 == 16 + b2 / 8 && x / 4 == 32 + b2 / 4 && x % 4 == b2 % 4;
    }
  }

  lemma ShortFields(b1: u8, b2: u8)
    requires ShortVex(Vex3Fields(b1, b2), 1)
    ensures b2 < 128
    ensures var x := Flag(Bit(b1, 128), 128) + b2;
            var e, f := Vex2Fields(x), Vex3Fields(b1, b2);
            && e.(rex := 0) == f.(rex := 0)
            && Bit(e.rex, 4) == Bit(f.rex, 4) == !Bit(b1, 128)
            && !Bit(e.rex, 1) && !Bit(f.rex, 1) && !Bit(e.rex, 2) && !Bit(f.rex, 2) && !Bit(e.rex, 8) && !Bit(f.rex, 8)
            && Flag(!Bit(f.rex, 4), 128) + VlpBits(f, b2 % 4) == x
  {
    RexBits(!Bit(b1, 128), !Bit(b1, 64), !Bit(b1, 32), Bit(b2, 128));
    RexBits(true, false, false, false);
    assert b2 < 128;
    ShortByte(b1, b2);
    ByteFields(b2);
  }

  /** The head that re-encoding writes. */
  lemma ShortHead(code: seq<u8>, p: nat, h: Head, instr: DecodedInstr)
    requires p < |code| && code[p] == 0xC4 && ParseVex3(code, p) == Some(h) && HeadOf(instr, h)
    requires ShortVex(h.enc, VexMap(h.opcode)) && !SentinelThird(h) && instr.desc.prefix == h.pp
    ensures p + 4 == h.next <= |code| && MapOf(h.opcode) == 1 && code[p + 3] == h.opcode % 0x100 && code[p + 2] < 128
    ensures h == Head(Vex3Fields(code[p + 1], code[p + 2]), TwoByte(code[p + 3]), 0xFF, PrefixOfPp(code[p + 2] % 4),
                      p + 4)
    ensures HeadAndOpcode(instr) == [0xC5, Flag(Bit(code[p + 1], 128), 128) + code[p + 2], code[p + 3]]
  {
    var b1, b2 := code[p + 1], code[p + 2];
    MapFacts(Vex3Fields(b1, b2), PrefixOfPp(b2 % 4), b1 % 32, code, p + 3, h);
    ShortFields(b1, b2);
    PpFacts(b2 % 4, instr.desc.prefix);
    OpcodePrinted(instr, h);
    assert VexMap(instr.desc.opcode) == VexMap(h.opcode) == 1;
  }

  /** The steps of the decode and the text that re-encoding writes. */
  lemma ShortText(t: Table, code: seq<u8>) returns (p: nat, h: Head, d: InstrDesc, tl: Tail)
    requires Decode(t, code).Some? && Regular(Decode(t, code).value.instr.desc) && Shortens(t, code)
    ensures Parsed(t, code, p, h, d, tl) && Decode(t, code) == Some(Assemble(d, code[..p], h, tl))
    ensures p == PrefixEnd(code, 0) && p + 4 == h.next <= tl.next <= |code| && code[p + 2] < 128
    ensures h == Head(Vex3Fields(code[p + 1], code[p + 2]), TwoByte(code[p + 3]), 0xFF, PrefixOfPp(code[p + 2] % 4),
                      p + 4)
    ensures ShortVex(h.enc, 1) && MapOf(h.opcode) == 1 && p <= 4
    ensures Encode(Decode(t, code).value.instr)
            == code[..p] + ([0xC5, Flag(Bit(code[p + 1], 128), 128) + code[p + 2], code[p + 3]] + code[h.next..tl.next])
  {
    p, h, d, tl := DecodeSteps(t, code);
    var instr := Decode(t, code).value.instr;
    InstrFacts(t, code, p, h, d, tl);
    ShortHead(code, p, h, instr);
    TailPrinted(instr, h, tl, code, Has66(code, p, h));
    EncodeParts(instr);
    NothingFiltered(code[..p]);
    assert code[..p][..Min(p, 4)] == code[..p];
  }

  lemma {:induction false} PrefixEndIs(code: seq<u8>, pos: nat, p: nat)
    requires pos <= p < |code| && !IsLegacyPrefix(code[p])
    requires forall i :: pos <= i < p ==> IsLegacyPrefix(code[i])
    ensures PrefixEnd(code, pos) == p
    decreases p - pos
  {
    if pos < p {
      PrefixEndIs(code, pos + 1, p);
    }
  }

  /** The shortened text in front of the same remaining bytes: its head. */
  lemma ShortFront(code: seq<u8>, p: nat, x: u8, c2: seq<u8>)
    requires p == PrefixEnd(code, 0) && p + 4 <= |code|
    requires c2 == code[..p] + ([0xC5, x, code[p + 3]] + code[p + 4..])
    ensures |c2| == |code| - 1 && c2[..p] == code[..p] && PrefixEnd(c2, 0) == p
    ensures ParseHead(c2, p) == Some(Head(Vex2Fields(x), TwoByte(code[p + 3]), 0xFF, PrefixOfPp(x % 4), p + 3))
    ensures c2[p + 3..] == code[p + 4..] && Peek(c2, p + 3) == Peek(code, p + 4)
  {
    assert c2[p] == 0xC5 && c2[p + 1] == x && c2[p + 2] == code[p + 3] && c2[..p] == code[..p];
    assert forall i :: 0 <= i < p ==> c2[i] == c2[..p][i] == code[i];
    PrefixEndIs(c2, 0, p);
    assert c2[p + 3..] == code[p + 4..];
    if p + 4 < |code| {
      assert c2[p + 3] == c2[p + 3..][0] == code[p + 4];
    }
  }

  lemma SameSuffix(c1: seq<u8>, a: nat, c2: seq<u8>, b: nat, k: nat)
    requires a + k <= |c1| && b <= |c2| && c1[a..] == c2[b..]
    ensures Agree(c1, a, c2, b, k)
  {
    assert c1[a..a + k] == c1[a..][..k] && c2[b..b + k] == c2[b..][..k];
  }

  lemma TailBehind(d: InstrDesc, code: seq<u8>, p: nat, h: Head, tl: Tail, c2: seq<u8>, h2: Head)
    requires p <= h.next <= tl.next <= |code| && p <= h2.next <= |c2|
    requires ParseTail(d, h, code, Has66(code, p, h)) == Some(tl)
    requires h2.opcode == h.opcode && h2.pp == h.pp && Bit(h2.enc.rex, 8) == Bit(h.enc.rex, 8)
    requires c2[..p] == code[..p] && c2[h2.next..] == code[h.next..]
    ensures ParseTail(d, h2, c2, Has66(c2, p, h2))
            == Some(Tail(tl.modrm, tl.sib, tl.disp, tl.imm, h2.next + (tl.next - h.next)))
  {
    hide ParseTail, Agree;
    SameSuffix(code, h.next, c2, h2.next, tl.next - h.next);
    assert Has66(c2, p, h2) == Has66(code, p, h);
    TailMoves(d, h, code, h2, c2, Has66(code, p, h), tl, tl.next - h.next);
  }

  /** `c2` is `code` with its three-byte prefix shortened; `x` is the second byte. */
  ghost predicate ShortOf(code: seq<u8>, p: nat, h: Head, x: u8, c2: seq<u8>) {
    && p + 4 == h.next <= |code| && code[p + 2] < 128 && ShortVex(h.enc, 1)
    && h == Head(Vex3Fields(code[p + 1], code[p + 2]), TwoByte(code[p + 3]), 0xFF, PrefixOfPp(code[p + 2] % 4), p + 4)
    && x == Flag(Bit(code[p + 1], 128), 128) + code[p + 2]
    && c2 == code[..p] + ([0xC5, x, code[p + 3]] + code[p + 4..])
  }

  lemma ShortFound(t: Table, code: seq<u8>, p: nat, h: Head, d: InstrDesc, x: u8, c2: seq<u8>)
    requires Found(t, code, p, h, d) && ShortOf(code, p, h, x, c2)
    ensures var h2 := Head(Vex2Fields(x), h.opcode, 0xFF, h.pp, p + 3);
            && Found(t, c2, p, h2, d) && h2.next <= |c2| && Bit(h2.enc.rex, 8) == Bit(h.enc.rex, 8)
            && c2[..p] == code[..p] && c2[h2.next..] == code[h.next..]
  {
    var h2 := Head(Vex2Fields(x), h.opcode, 0xFF, h.pp, p + 3);
    ShortFields(code[p + 1], code[p + 2]);
    ShortByte(code[p + 1], code[p + 2]);
    ShortFront(code, p, x, c2);
    assert KeyOf(c2[..p], h2) == KeyOf(code[..p], h);
  }

  lemma ShortDecodes(t: Table, code: seq<u8>, p: nat, h: Head, d: InstrDesc, tl: Tail, x: u8, c2: seq<u8>)
    requires Parsed(t, code, p, h, d, tl) && h.next <= tl.next <= |code| && ShortOf(code, p, h, x, c2)
    ensures c2[..p] == code[..p]
    ensures Parsed(t, c2, p, Head(Vex2Fields(x), h.opcode, 0xFF, h.pp, p + 3), d,
                   Tail(tl.modrm, tl.sib, tl.disp, tl.imm, tl.next - 1))
  {
    hide ParseTail, Choose, ParseHead, ShortVex, Vex2Fields, Vex3Fields;
    ShortFound(t, code, p, h, d, x, c2);
    TailBehind(d, code, p, h, tl, c2, Head(Vex2Fields(x), h.opcode, 0xFF, h.pp, p + 3));
  }

  /** Encoding looks only at what makes two instructions the same. */
  lemma SameEncoding(a: DecodedInstr, b: DecodedInstr)
    requires SameInstruction(a, b) && a.enc.hasVex && !a.enc.hasEvex
    ensures Encode(a) == Encode(b)
  {
    hide Le, FieldBytes;
    assert Bit(a.enc.rex, 1) == Bit(b.enc.rex, 1) && Bit(a.enc.rex, 2) == Bit(b.enc.rex, 2);
    assert Bit(a.enc.rex, 4) == Bit(b.enc.rex, 4) && Bit(a.enc.rex, 8) == Bit(b.enc.rex, 8);
    assert HeadBytes(a) == HeadBytes(b);
    PrintsOneField(a, 0);
    PrintsOneField(b, 0);
    assert ModrmBytes(a) == ModrmBytes(b) && ImplicitBytes(a) == ImplicitBytes(b);
  }

  lemma ShortSame(d: InstrDesc, pre: seq<u8>, b1: u8, b2: u8, x: u8, h: Head, tl: Tail, n: nat)
    requires ShortVex(Vex3Fields(b1, b2), 1) && h.enc == Vex3Fields(b1, b2) && x == Flag(Bit(b1, 128), 128) + b2
    ensures SameInstruction(
              Assemble(d, pre, h.(enc := Vex2Fields(x), next := n), Tail(tl.modrm, tl.sib, tl.disp, tl.imm, n)).instr,
              Assemble(d, pre, h, tl).instr)
  {
    ShortFields(b1, b2);
    var a, b := Vex2Fields(x).rex, Vex3Fields(b1, b2).rex;
    forall w: BitWeight | w < 16
      ensures Bit(a, w) == Bit(b, w)
    {
      assert w == 1 || w == 2 || w == 4 || w == 8;
    }
  }

  lemma ShortWhole(code: seq<u8>, p: nat, x: u8, n: nat)
    requires p + 4 <= n <= |code|
    ensures var e := code[..p] + ([0xC5, x, code[p + 3]] + code[p + 4..n]);
            && |e| == n - 1 && e[p] == 0xC5
            && e + code[n..] == code[..p] + ([0xC5, x, code[p + 3]] + code[p + 4..])
  {
    assert code[p + 4..] == code[p + 4..n] + code[n..];
  }

  /** Re-encoding and decoding what was written, by steps. */
  lemma ShortAgain(t: Table, code: seq<u8>) returns (p: nat, e: seq<u8>)
    requires Decode(t, code).Some? && Regular(Decode(t, code).value.instr.desc) && Shortens(t, code)
    ensures var r := Decode(t, code).value;
            var s := Decode(t, e + code[r.size..]);
            && e == Encode(r.instr) && |e| == r.size - 1
            && p == PrefixEnd(code, 0) < |e| && e[p] == 0xC5
            && s.Some? && s.value.size == |e| && SameInstruction(s.value.instr, r.instr)
            && s.value.instr.enc.hasVex && !s.value.instr.enc.hasEvex
  {
    hide Decode, Encode, Regular, Shortens, Parsed, ShortVex, SameInstruction;
    var h, d, tl;
    p, h, d, tl := ShortText(t, code);
    var x := Flag(Bit(code[p + 1], 128), 128) + code[p + 2];
    e := Encode(Decode(t, code).value.instr);
    var c2 := e + code[tl.next..];
    ShortWhole(code, p, x, tl.next);
    ShortDecodes(t, code, p, h, d, tl, x, c2);
    ParsedDecodes(t, c2, p, Head(Vex2Fields(x), h.opcode, 0xFF, h.pp, p + 3), d,
                  Tail(tl.modrm, tl.sib, tl.disp, tl.imm, tl.next - 1));
    ShortSame(d, code[..p], code[p + 1], code[p + 2], x, h, tl, tl.next - 1);
  }

  /** A three-byte VEX instruction with map 1 and X, B, W clear loses exactly one byte
      when re-encoded; what was written, in front of the bytes that followed the
      instruction, decodes to the same instruction, and encodes to itself. */
  lemma ThreeByteVexShortens(t: Table, code: seq<u8>)
    requires Decode(t, code).Some? && Regular(Decode(t, code).value.instr.desc) && Shortens(t, code)
    ensures var r := Decode(t, code).value;
            var e := Encode(r.instr);
            var s := Decode(t, e + code[r.size..]);
            && |e| == r.size - 1 && PrefixEnd(code, 0) < |e| && e[PrefixEnd(code, 0)] == 0xC5
            && s.Some? && s.value.size == |e|
            && SameInstruction(s.value.instr, r.instr) && Encode(s.value.instr) == e
  {
    hide Decode, Encode, Regular, Shortens, SameInstruction;
    var p, e := ShortAgain(t, code);
    var r := Decode(t, code).value;
    SameEncoding(Decode(t, e + code[r.size..]).value.instr, r.instr);
  }
}
