/** Prefixes by their layout: whatever fields are put together the way the encodings lay them
    out, the decoder takes them apart again. */
module Layouts {
  import opened Words
  import opened Decoder

  type u4 = x: int | 0 <= x < 16

  /** The register bits of an encoding and its operand-size bit. */
  datatype RexBits = RexBits(w: bool, r: bool, x: bool, b: bool)

  function Rex(f: RexBits): u8 {
    0x40 + (if f.w then 8 else 0) + (if f.r then 4 else 0) + (if f.x then 2 else 0) + (if f.b then 1 else 0)
  }

  /** The mandatory prefix behind the two bits of VEX and EVEX. */
  function Implied(pp: u2): u8 {
    if pp == 0 then 0 else if pp == 1 then 0x66 else if pp == 2 then 0xF3 else 0xF2
  }

  /** The opcode in map 1, 2 or 3. */
  function InMap(m: nat, op: u8): u16 {
    if m == 2 then 0x0F38 else if m == 3 then 0x0F3A else 0x0F00 + op as int
  }

  function ThirdIn(m: nat, op: u8): u8 {
    if m == 1 then 0xFF else op
  }

  // ------------------------------------------------------------ legacy prefixes

  /** The prefixes are lock and repetition, the six segments, and the two sizes. */
  lemma PrefixGroups(b: u8)
    ensures IsLegacyPrefix(b)
            <==> || b == 0xF0 || b == 0xF2 || b == 0xF3
                 || b == 0x26 || b == 0x2E || b == 0x36 || b == 0x3E || b == 0x64 || b == 0x65
                 || b == 0x66 || b == 0x67
  {
  }

  /** What stands behind the prefixes. */
  lemma Reads(ps: seq<u8>, bytes: seq<u8>, rest: seq<u8>)
    requires bytes != []
    ensures var code := ps + bytes + rest;
            && code[|ps|..|ps| + |bytes|] == bytes
            && (forall k :: 0 <= k < |bytes| ==> code[|ps| + k] == bytes[k])
  {
  }

  // ------------------------------------------------------------ VEX

  lemma SourceAndLength(high: bool, v: u4, l: bool, pp: u2)
    ensures var b := (if high then 0x80 else 0) + (15 - v) * 8 + (if l then 4 else 0) + pp;
            b / 8 % 16 == 15 - v && b / 4 % 2 == (if l then 1 else 0) && b % 4 == pp && Bit(b, 128) == high
  {
    var low := (if l then 4 else 0) + pp;
    assert low < 8 && low / 4 == (if l then 1 else 0);
  }

  lemma MapAndBits(f: RexBits, m: nat)
    requires 1 <= m <= 3
    ensures var b := (if f.r then 0 else 0x80) + (if f.x then 0 else 0x40) + (if f.b then 0 else 0x20) + m;
            b % 32 == m && Bit(b, 128) == !f.r && Bit(b, 64) == !f.x && Bit(b, 32) == !f.b
  {
  }

  lemma RexIs(f: RexBits)
    ensures RexOf(f.r, f.x, f.b, f.w) == Rex(f)
  {
  }

  lemma InMapIs(enc: Encoding, pp: u8, m: nat, code: seq<u8>, pos: nat)
    requires 1 <= m <= 3 && pos < |code|
    ensures MapOpcode(enc, pp, m, code, pos)
            == Some(Head(enc, InMap(m, code[pos]), ThirdIn(m, code[pos]), pp, pos + 1))
  {
  }

  function Vex2(r: bool, vvvv: u4, l: bool, pp: u2, op: u8): seq<u8> {
    [0xC5, (if r then 0 else 0x80) + (15 - vvvv) * 8 + (if l then 4 else 0) + pp, op]
  }

  /** C5: one register bit, a source, the vector length and the mandatory prefix; map 1. */
  lemma Vex2Layout(ps: seq<u8>, r: bool, vvvv: u4, l: bool, pp: u2, op: u8, rest: seq<u8>)
    ensures ParseHead(ps + Vex2(r, vvvv, l, pp, op) + rest, |ps|)
            == Some(Head(PLAIN.(rex := if r then 0x44 else 0, hasVex := true, vvvv := vvvv, vexL := if l then 1 else 0),
                         0x0F00 + op as int, 0xFF, Implied(pp), |ps| + 3))
  {
    hide Bit;
    var bytes := Vex2(r, vvvv, l, pp, op);
    Reads(ps, bytes, rest);
    SourceAndLength(!r, vvvv, l, pp);
    InMapIs(Vex2Fields(bytes[1]), Implied(pp), 1, ps + bytes + rest, |ps| + 2);
  }

  function Vex3(f: RexBits, m: nat, vvvv: u4, l: bool, pp: u2, op: u8): seq<u8>
    requires 1 <= m <= 3
  {
    [0xC4, (if f.r then 0 else 0x80) + (if f.x then 0 else 0x40) + (if f.b then 0 else 0x20) + m,
     (if f.w then 0x80 else 0) + (15 - vvvv) * 8 + (if l then 4 else 0) + pp, op]
  }

  /** C4: all register bits, W and the map as well. */
  lemma Vex3Layout(ps: seq<u8>, f: RexBits, m: nat, vvvv: u4, l: bool, pp: u2, op: u8, rest: seq<u8>)
    requires 1 <= m <= 3
    ensures ParseHead(ps + Vex3(f, m, vvvv, l, pp, op) + rest, |ps|)
            == Some(Head(PLAIN.(rex := Rex(f), hasVex := true, vvvv := vvvv, vexL := if l then 1 else 0, vexW := f.w),
                         InMap(m, op), ThirdIn(m, op), Implied(pp), |ps| + 4))
  {
    hide Bit;
    var bytes := Vex3(f, m, vvvv, l, pp, op);
    Reads(ps, bytes, rest);
    MapAndBits(f, m);
    SourceAndLength(f.w, vvvv, l, pp);
    RexIs(f);
    InMapIs(Vex3Fields(bytes[1], bytes[2]), Implied(pp), m, ps + bytes + rest, |ps| + 3);
  }

  // ------------------------------------------------------------ EVEX

  /** `upper` is the fifth register bit, `z`, `ll`, `bc` and `aaa` are zeroing, vector length or
      rounding, broadcast and the mask. */
  function Evex(f: RexBits, upper: bool, m: nat, vvvv: u5, pp: u2, z: bool, ll: u2, bc: bool, aaa: u3,
                op: u8): seq<u8>
    requires 1 <= m <= 3
  {
    [0x62,
     (if f.r then 0 else 0x80) + (if f.x then 0 else 0x40) + (if f.b then 0 else 0x20) + (if upper then 0 else 0x10)
       + m,
     (if f.w then 0x80 else 0) + (15 - vvvv % 16) * 8 + 4 + pp,
     (if z then 0x80 else 0) + ll * 32 + (if bc then 0x10 else 0) + (if vvvv >= 16 then 0 else 8) + aaa, op]
  }

  lemma EvexFirst(f: RexBits, upper: bool, m: nat)
    requires 1 <= m <= 3
    ensures var b := (if f.r then 0 else 0x80) + (if f.x then 0 else 0x40) + (if f.b then 0 else 0x20)
                     + (if upper then 0 else 0x10) + m;
            b % 8 == m && Bit(b, 128) == !f.r && Bit(b, 64) == !f.x && Bit(b, 32) == !f.b
  {
  }

  lemma EvexSecond(w: bool, v: u4, pp: u2)
    ensures var b := (if w then 0x80 else 0) + (15 - v) * 8 + 4 + pp;
            b / 8 % 16 == 15 - v && b % 4 == pp && Bit(b, 128) == w
  {
  }

  lemma EvexThird(z: bool, ll: u2, bc: bool, high: bool, aaa: u3)
    ensures var b := (if z then 0x80 else 0) + ll * 32 + (if bc then 0x10 else 0) + (if high then 0 else 8) + aaa;
            Bit(b, 128) == z && b / 32 % 4 == ll && Bit(b, 16) == bc && Bit(b, 8) == !high && b % 8 == aaa
  {
  }

  /** 62: everything is taken apart but the fifth register bit, which is lost. */
  lemma EvexLayout(ps: seq<u8>, f: RexBits, upper: bool, m: nat, vvvv: u5, pp: u2, z: bool, ll: u2, bc: bool, aaa: u3,
                   op: u8, rest: seq<u8>)
    requires 1 <= m <= 3
    ensures ParseHead(ps + Evex(f, upper, m, vvvv, pp, z, ll, bc, aaa, op) + rest, |ps|)
            == Some(Head(PLAIN.(rex := Rex(f), hasVex := true, hasEvex := true, vvvv := vvvv, vexL := ll, vexW := f.w,
                                aaa := aaa, z := z, b := bc, rc := ll),
                         InMap(m, op), ThirdIn(m, op), Implied(pp), |ps| + 5))
  {
    hide Bit, MapOpcode;
    var bytes := Evex(f, upper, m, vvvv, pp, z, ll, bc, aaa, op);
    Reads(ps, bytes, rest);
    EvexFirst(f, upper, m);
    EvexSecond(f.w, vvvv % 16, pp);
    EvexThird(z, ll, bc, vvvv >= 16, aaa);
    RexIs(f);
    InMapIs(EvexFields(bytes[1], bytes[2], bytes[3]), Implied(pp), m, ps + bytes + rest, |ps| + 4);
  }

  // ------------------------------------------------------------ REX2

  /** The payload as it is documented: the map, the fifth bits of reg, index and base, then the
      bits of REX. */
  function Rex2(m0: bool, r4: bool, x4: bool, b4: bool, f: RexBits, op: u8): seq<u8> {
    [0xD5, (if m0 then 0x80 else 0) + (if r4 then 0x40 else 0) + (if x4 then 0x20 else 0) + (if b4 then 0x10 else 0)
           + (if f.w then 8 else 0) + (if f.r then 4 else 0) + (if f.x then 2 else 0) + (if f.b then 1 else 0), op]
  }

  lemma UpperBits(m0: bool, r4: bool, x4: bool, b4: bool, low: u4)
    ensures var b := (if m0 then 0x80 else 0) + (if r4 then 0x40 else 0) + (if x4 then 0x20 else 0)
                     + (if b4 then 0x10 else 0) + low;
            Bit(b, 128) == m0 && Bit(b, 64) == r4 && Bit(b, 32) == x4 && Bit(b, 16) == b4
  {
  }

  lemma LowBits(high: u4, low: u4)
    ensures forall w: BitWeight :: w <= 8 ==> (Bit(high * 16 + low, w) <==> Bit(low, w))
  {
    assert (high * 16 + low) / 2 == high * 8 + low / 2 && (high * 16 + low) / 4 == high * 4 + low / 4
           && (high * 16 + low) / 8 == high * 2 + low / 8;
  }

  lemma RexNibble(f: RexBits)
    ensures var low := Rex(f) - 0x40;
            0 <= low < 16 && Bit(low, 8) == f.w && Bit(low, 4) == f.r && Bit(low, 2) == f.x && Bit(low, 1) == f.b
  {
  }

  lemma LowerBits(f: RexBits, high: u4)
    ensures var b := high * 16 + Rex(f) - 0x40;
            Bit(b, 8) == f.w && Bit(b, 4) == f.r && Bit(b, 2) == f.x && Bit(b, 1) == f.b
  {
    hide Bit, Rex;
    RexNibble(f);
    LowBits(high, Rex(f) - 0x40);
  }

  /** D5: the decoder exchanges the fifth bits of reg and base. */
  lemma Rex2Layout(ps: seq<u8>, m0: bool, r4: bool, x4: bool, b4: bool, f: RexBits, op: u8, rest: seq<u8>)
    ensures ParseHead(ps + Rex2(m0, r4, x4, b4, f, op) + rest, |ps|)
            == Some(Head(PLAIN.(rex := Rex(f), hasRex2 := true, r4 := b4, x4 := x4, b4 := r4),
                         if m0 then 0x0F00 + op as int else op, 0xFF, 0, |ps| + 3))
  {
    hide Bit, RexOf;
    var bytes := Rex2(m0, r4, x4, b4, f, op);
    Reads(ps, bytes, rest);
    UpperBits(m0, r4, x4, b4, Rex(f) - 0x40);
    LowerBits(f, bytes[1] / 16);
    RexIs(f);
  }

  /** It takes a documented payload for what it says exactly if these bits are equal. */
  lemma Rex2AgreesIff(ps: seq<u8>, m0: bool, r4: bool, x4: bool, b4: bool, f: RexBits, op: u8, rest: seq<u8>)
    ensures var h := ParseHead(ps + Rex2(m0, r4, x4, b4, f, op) + rest, |ps|);
            h.Some? && (h.value.enc.r4 == r4 && h.value.enc.x4 == x4 && h.value.enc.b4 == b4 <==> r4 == b4)
  {
    hide ParseHead;
    Rex2Layout(ps, m0, r4, x4, b4, f, op, rest);
  }

  // ------------------------------------------------------------ no prefix, or REX

  /** An opcode of one, two or three bytes. */
  function Opcode(m: nat, op: u8): seq<u8>
    requires m <= 3
  {
    if m == 0 then [op] else if m == 1 then [0x0F, op] else if m == 2 then [0x0F, 0x38, op] else [0x0F, 0x3A, op]
  }

  /** Without VEX the opcode follows a REX byte, if there is one. A one-byte opcode is none of
      the bytes that announce something else, and a two-byte one none that announces a third. */
  lemma LegacyLayout(ps: seq<u8>, rex: Option<RexBits>, m: nat, op: u8, rest: seq<u8>)
    requires m <= 3
    requires m == 0 ==> op != 0x0F && (rex.None? ==> op !in {0x62, 0xC4, 0xC5, 0xD5} && op / 16 != 4)
    requires m == 1 ==> op != 0x38 && op != 0x3A
    ensures var front := if rex.Some? then [Rex(rex.value)] else [];
            ParseHead(ps + (front + Opcode(m, op)) + rest, |ps|)
            == Some(Head(PLAIN.(rex := if rex.Some? then Rex(rex.value) else 0),
                         if m == 0 then op else InMap(m, op), if m <= 1 then 0xFF else op, 0,
                         |ps| + |front| + |Opcode(m, op)|))
  {
    var front, oc := if rex.Some? then [Rex(rex.value)] else [], Opcode(m, op);
    var code := ps + (front + oc) + rest;
    Reads(ps, front + oc, rest);
    assert code == (ps + front) + oc + rest;
    Reads(ps + front, oc, rest);
    assert rex.Some? ==> Rex(rex.value) / 16 == 4;
  }
}
