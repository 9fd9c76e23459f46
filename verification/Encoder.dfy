/** The printer that turns a decoded instruction back into bytes. */
module Encoder {
  import opened Words
  import opened InstrTable
  import opened Decoder

  predicate IsMandatory(p: u8) {
    p == 0x66 || p == 0xF2 || p == 0xF3
  }

  function WithoutMandatory(prefixes: seq<u8>): seq<u8> {
    if prefixes == [] then []
    else if IsMandatory(prefixes[0]) then WithoutMandatory(prefixes[1..])
    else [prefixes[0]] + WithoutMandatory(prefixes[1..])
  }

  /** The mandatory prefix, unless it is among the remembered ones. */
  function MissingPrefix(lp: seq<u8>, prefix: u8): seq<u8> {
    if prefix != 0 && prefix !in lp then [prefix] else []
  }

  function PrefixBytes(instr: DecodedInstr): seq<u8> {
    var p := instr.desc.prefix;
    if instr.enc.hasVex then WithoutMandatory(instr.legacyPrefix)
    else instr.legacyPrefix + MissingPrefix(instr.legacyPrefix, p)
  }

  function VexMap(opcode: u16): u2 {
    if opcode == 0x0F38 then 2 else if opcode == 0x0F3A then 3 else 1
  }

  function PpOf(prefix: u8): u2 {
    if prefix == 0x66 then 1 else if prefix == 0xF3 then 2 else if prefix == 0xF2 then 3 else 0
  }

  /** The inverted R, X and B bits of a VEX or EVEX prefix. */
  function RxbBits(rex: u8): nat {
    Flag(!Bit(rex, 4), 128) + Flag(!Bit(rex, 2), 64) + Flag(!Bit(rex, 1), 32)
  }

  /** `~vvvv`, `L` and `pp` or-ed together; an `L` of two bits spills into `~vvvv`. */
  function VlpBits(e: Encoding, pp: u2): nat {
    var nv := 15 - e.vvvv % 16;
    (if e.vexL >= 2 && nv % 2 == 0 then nv + 1 else nv) * 8 + e.vexL % 2 * 4 + pp
  }

  function EvexBytes(e: Encoding, map_: u2, pp: u2): seq<u8> {
    [0x62,
     RxbBits(e.rex) + 0x10 + map_,
     Flag(e.vexW, 128) + (15 - e.vvvv % 16) * 8 + 4 + pp,
     Flag(e.z, 128) + e.vexL * 32 + Flag(e.b, 16) + Flag(e.vvvv / 16 == 0, 8) + e.aaa]
  }

  /** Whether the two-byte form of VEX is used. */
  predicate ShortVex(e: Encoding, map_: u2) {
    map_ == 1 && !Bit(e.rex, 2) && !Bit(e.rex, 1) && !e.vexW
  }

  function VexBytes(e: Encoding, map_: u2, pp: u2): seq<u8> {
    if ShortVex(e, map_) then [0xC5, Flag(!Bit(e.rex, 4), 128) + VlpBits(e, pp)]
    else [0xC4, RxbBits(e.rex) + map_, Flag(e.vexW, 128) + VlpBits(e, pp)]
  }

  function Rex2Byte(e: Encoding, opcode: u16): u8 {
    Flag(e.b4, 64) + Flag(e.x4, 32) + Flag(e.r4, 16)
    + Flag(Bit(e.rex, 8), 8) + Flag(Bit(e.rex, 4), 4) + Flag(Bit(e.rex, 2), 2) + Flag(Bit(e.rex, 1), 1)
    + Flag(opcode / 0x100 == 0x0F, 128)
  }

  /** The VEX, EVEX, REX2 or REX prefix. */
  function HeadBytes(instr: DecodedInstr): seq<u8> {
    var e, d := instr.enc, instr.desc;
    if e.hasVex then
      if e.hasEvex then EvexBytes(e, VexMap(d.opcode), PpOf(d.prefix))
      else VexBytes(e, VexMap(d.opcode), PpOf(d.prefix))
    else if e.hasRex2 then [0xD5, Rex2Byte(e, d.opcode)]
    else if e.rex != 0 then [e.rex]
    else []
  }

  /** Bitwise or of two three-bit numbers. */
  function Or3(a: u3, b: u3): u3 {
    if a == 0 then b
    else if b == 0 || a == b then a
    else Flag(Bit(a, 4) || Bit(b, 4), 4) + Flag(Bit(a, 2) || Bit(b, 2), 2) + Flag(Bit(a, 1) || Bit(b, 1), 1)
  }

  /** Bitwise or of a byte with a three-bit register number. */
  function OrReg(b: u8, r: u3): u8 {
    b / 8 * 8 + Or3(b % 8, r)
  }

  function OpcodeBytes(instr: DecodedInstr): (s: seq<u8>)
    ensures |s| >= 1
  {
    var d := instr.desc;
    var reg := if HasOpcodeReg(d) then instr.opcodeReg % 8 else 0;
    if instr.enc.hasVex then
      [OrReg(if VexMap(d.opcode) >= 2 && d.secOpcd != 0xFF then d.secOpcd else d.opcode % 0x100, reg)]
    else if d.opcode > 0xFF then
      [0x0F, OrReg(d.opcode % 0x100, reg)]
      + (if (d.opcode == 0x0F38 || d.opcode == 0x0F3A) && d.secOpcd != 0xFF then [d.secOpcd] else [])
    else
      [OrReg(d.opcode, reg)]
  }

  function ModrmBytes(instr: DecodedInstr): seq<u8> {
    if !instr.desc.hasModrm then []
    else
      [instr.modrm] + (if HasSib(instr.modrm) then [instr.sib] else [])
      + Le(instr.displacement, DispSize(instr.modrm, instr.sib))
  }

  /** The field of the first immediate, relative or moffset operand from `k` on. */
  function FieldBytes(instr: DecodedInstr, k: nat): seq<u8>
    requires k <= |instr.desc.operands|
    decreases |instr.desc.operands| - k
  {
    if k == |instr.desc.operands| then [] else
    var o := instr.desc.operands[k];
    if IsImm(o) then Le(instr.immediate, ImmSize(o.size, 0x66 in instr.legacyPrefix, Bit(instr.enc.rex, 8)))
    else if o.addr == Moffset then Le(instr.displacement, 8)
    else FieldBytes(instr, k + 1)
  }

  function ImplicitBytes(instr: DecodedInstr): seq<u8> {
    if instr.desc.opcode == 0x0F3A && instr.immediate != 0 && !HasAddr(instr.desc, Immediate) then
      [instr.immediate % 0x100]
    else
      []
  }

  /** The bytes of an instruction. */
  function Encode(instr: DecodedInstr): seq<u8> {
    PrefixBytes(instr) + HeadBytes(instr) + OpcodeBytes(instr) + ModrmBytes(instr) + FieldBytes(instr, 0)
      + ImplicitBytes(instr)
  }

  /** Some prefix of `s` was written over the start of `old_`, and nothing else. */
  ghost predicate WrittenOver(now: seq<u8>, old_: seq<u8>, s: seq<u8>, cap: nat) {
    exists k :: 0 <= k <= |s| && k <= cap && k <= |old_| && now == s[..k] + old_[k..]
  }

  /** Appends `bytes`, the part of `whole` after `done`, or stops at the capacity. */
  method Emit(out: array<u8>, pos: nat, cap: nat, bytes: seq<u8>, ghost done: seq<u8>, ghost before: seq<u8>,
              ghost whole: seq<u8>)
    returns (next: Option<nat>)
    requires pos == |done| <= cap <= out.Length == |before|
    requires out[..] == done + before[pos..] && done + bytes <= whole
    modifies out
    ensures next.Some? <==> pos + |bytes| <= cap
    ensures next.Some? ==> next.value == pos + |bytes| && out[..] == (done + bytes) + before[pos + |bytes|..]
    ensures next.None? ==> WrittenOver(out[..], before, whole, cap)
  {
    for i := 0 to |bytes|
      invariant pos + i <= cap
      invariant out[..] == done + bytes[..i] + before[pos + i..]
    {
      if pos + i >= cap {
        assert whole[..pos + i] == (done + bytes)[..pos + i] == done + bytes[..i];
        return None;
      }
      out[pos + i] := bytes[i];
      assert done + bytes[..i + 1] + before[pos + i + 1..]
             == (done + bytes[..i] + before[pos + i..])[pos + i := bytes[i]];
    }
    assert bytes[..|bytes|] == bytes;
    next := Some(pos + |bytes|);
  }

  /** Copies a whole field at the cursor, or nothing when it does not fit. */
  method Copy(out: array<u8>, pos: nat, cap: nat, bytes: seq<u8>, ghost done: seq<u8>, ghost before: seq<u8>,
              ghost whole: seq<u8>)
    returns (next: Option<nat>)
    requires pos == |done| <= cap <= out.Length == |before|
    requires out[..] == done + before[pos..] && done + bytes <= whole
    modifies out
    ensures next.Some? <==> pos + |bytes| <= cap
    ensures next.Some? ==> next.value == pos + |bytes| && out[..] == (done + bytes) + before[pos + |bytes|..]
    ensures next.None? ==> WrittenOver(out[..], before, whole, cap)
  {
    if pos + |bytes| > cap {
      assert whole[..pos] == (done + bytes)[..pos] == done;
      return None;
    }
    next := Emit(out, pos, cap, bytes, done, before, whole);
  }

  lemma {:induction false} WithoutMandatoryConcat(s: seq<u8>, r: seq<u8>)
    ensures WithoutMandatory(s + r) == WithoutMandatory(s) + WithoutMandatory(r)
  {
    if s == [] {
      assert s + r == r;
    } else {
      assert (s + r)[1..] == s[1..] + r;
      WithoutMandatoryConcat(s[1..], r);
    }
  }

  lemma OneFiltered(x: u8)
    ensures WithoutMandatory([x]) == if IsMandatory(x) then [] else [x]
  {
    assert [x][1..] == [];
  }

  lemma SplitAt(s: seq<u8>, i: nat)
    requires i < |s|
    ensures s[..i + 1] == s[..i] + [s[i]] && s == s[..i] + [s[i]] + s[i + 1..]
  {
  }

  /** What the prefix loop has kept after one more prefix. */
  lemma KeptStep(lp: seq<u8>, i: nat)
    requires i < |lp|
    ensures WithoutMandatory(lp[..i + 1]) == WithoutMandatory(lp[..i]) + (if IsMandatory(lp[i]) then [] else [lp[i]])
    ensures WithoutMandatory(lp[..i + 1]) <= WithoutMandatory(lp)
  {
    hide WithoutMandatory, IsMandatory;
    var a, x, rest := lp[..i], lp[i], lp[i + 1..];
    OneFiltered(x);
    WithoutMandatoryConcat(a, [x]);
    WithoutMandatoryConcat(a + [x], rest);
    SplitAt(lp, i);
  }

  /** The prefix loop of the VEX branch, which drops 66, F2 and F3. */
  method EmitVexPrefixes(lp: seq<u8>, out: array<u8>, cap: nat, ghost before: seq<u8>, ghost whole: seq<u8>)
    returns (next: Option<nat>)
    requires cap <= out.Length == |before| && out[..] == before && WithoutMandatory(lp) <= whole
    modifies out
    ensures next.Some? <==> |WithoutMandatory(lp)| <= cap
    ensures next.Some? ==>
            next.value == |WithoutMandatory(lp)| && out[..] == WithoutMandatory(lp) + before[next.value..]
    ensures next.None? ==> WrittenOver(out[..], before, whole, cap)
  {
    var pos := 0;
    ghost var done: seq<u8> := [];
    for i := 0 to |lp|
      invariant pos == |done| <= cap && out[..] == done + before[pos..]
      invariant done == WithoutMandatory(lp[..i])
    {
      KeptStep(lp, i);
      if !IsMandatory(lp[i]) {
        var r := Emit(out, pos, cap, [lp[i]], done, before, whole);
        if r.None? { return None; }
        pos, done := r.value, done + [lp[i]];
      }
    }
    assert lp[..|lp|] == lp;
    next := Some(pos);
  }

  /** Looks for a prefix among those remembered. */
  method IsPresent(lp: seq<u8>, prefix: u8) returns (already: bool)
    ensures already == (prefix in lp)
  {
    already := false;
    for i := 0 to |lp|
      invariant already == (prefix in lp[..i])
    {
      if lp[i] == prefix { already := true; }
    }
    assert lp[..|lp|] == lp;
  }

  lemma MissingCases(lp: seq<u8>, prefix: u8)
    ensures MissingPrefix(lp, prefix) == if prefix != 0 && prefix !in lp then [prefix] else []
  {
  }

  lemma NoneMissing(lp: seq<u8>, prefix: u8)
    requires prefix == 0 || prefix in lp
    ensures lp + MissingPrefix(lp, prefix) == lp
  {
  }

  /** The entry's prefix behind the remembered ones, unless it is among them. */
  method EmitMissing(lp: seq<u8>, prefix: u8, out: array<u8>, cap: nat, ghost before: seq<u8>, ghost whole: seq<u8>)
    returns (next: Option<nat>)
    requires |lp| <= cap <= out.Length == |before| && lp + MissingPrefix(lp, prefix) <= whole
    requires out[..] == lp + before[|lp|..]
    modifies out
    ensures next.Some? <==> |lp + MissingPrefix(lp, prefix)| <= cap
    ensures next.Some? ==>
            next.value == |lp + MissingPrefix(lp, prefix)|
              && out[..] == lp + MissingPrefix(lp, prefix) + before[next.value..]
    ensures next.None? ==> WrittenOver(out[..], before, whole, cap)
  {
    hide WrittenOver, MissingPrefix;
    MissingCases(lp, prefix);
    if prefix != 0 {
      var already := IsPresent(lp, prefix);
      if !already {
        next := Emit(out, |lp|, cap, [prefix], lp, before, whole);
        return;
      }
    }
    NoneMissing(lp, prefix);
    next := Some(|lp|);
  }

  /** The prefix loop of the other branch, which adds a missing mandatory prefix. */
  method EmitLegacyPrefixes(lp: seq<u8>, prefix: u8, out: array<u8>, cap: nat, ghost before: seq<u8>,
                            ghost whole: seq<u8>) returns (next: Option<nat>)
    requires cap <= out.Length == |before| && out[..] == before && lp + MissingPrefix(lp, prefix) <= whole
    modifies out
    ensures next.Some? <==> |lp + MissingPrefix(lp, prefix)| <= cap
    ensures next.Some? ==>
            next.value == |lp + MissingPrefix(lp, prefix)|
              && out[..] == lp + MissingPrefix(lp, prefix) + before[next.value..]
    ensures next.None? ==> WrittenOver(out[..], before, whole, cap)
  {
    hide WrittenOver, MissingPrefix;
    next := Emit(out, 0, cap, lp, [], before, whole);
    if next.Some? {
      assert [] + lp == lp;
      next := EmitMissing(lp, prefix, out, cap, before, whole);
    }
  }

  method EmitPrefixes(instr: DecodedInstr, out: array<u8>, cap: nat, ghost before: seq<u8>, ghost whole: seq<u8>)
    returns (next: Option<nat>)
    requires cap <= out.Length == |before| && out[..] == before && PrefixBytes(instr) <= whole
    modifies out
    ensures next.Some? <==> |PrefixBytes(instr)| <= cap
    ensures next.Some? ==>
            next.value == |PrefixBytes(instr)| && out[..] == PrefixBytes(instr) + before[|PrefixBytes(instr)|..]
    ensures next.None? ==> WrittenOver(out[..], before, whole, cap)
  {
    if instr.enc.hasVex {
      next := EmitVexPrefixes(instr.legacyPrefix, out, cap, before, whole);
    } else {
      next := EmitLegacyPrefixes(instr.legacyPrefix, instr.desc.prefix, out, cap, before, whole);
    }
  }

  lemma Stages(a: seq<u8>, b: seq<u8>, c: seq<u8>, d: seq<u8>, e: seq<u8>, f: seq<u8>)
    ensures var s := a + b + c + d + e + f;
            a <= s && a + b <= s && a + b + c <= s && a + b + c + d <= s && a + b + c + d + e <= s
  {
  }

  /** The parts of an instruction, in order. */
  lemma EncodeStages(instr: DecodedInstr)
    ensures var s := Encode(instr);
            var head := PrefixBytes(instr) + HeadBytes(instr) + OpcodeBytes(instr);
            && PrefixBytes(instr) <= s && PrefixBytes(instr) + HeadBytes(instr) <= s && head <= s
            && head + ModrmBytes(instr) <= s && head + ModrmBytes(instr) + FieldBytes(instr, 0) <= s
            && head + ModrmBytes(instr) + FieldBytes(instr, 0) + ImplicitBytes(instr) == s && |s| >= 1
  {
    hide PrefixBytes, HeadBytes, OpcodeBytes, ModrmBytes, FieldBytes, ImplicitBytes;
    Stages(PrefixBytes(instr), HeadBytes(instr), OpcodeBytes(instr), ModrmBytes(instr), FieldBytes(instr, 0),
           ImplicitBytes(instr));
  }

  lemma NothingWritten(before: seq<u8>, whole: seq<u8>, cap: nat)
    ensures WrittenOver(before, before, whole, cap)
  {
    assert before == whole[..0] + before[0..];
  }

  /** The ModRM byte, the SIB byte and the displacement. */
  method EmitModrm(instr: DecodedInstr, out: array<u8>, pos: nat, cap: nat, ghost done: seq<u8>, ghost before: seq<u8>,
                   ghost whole: seq<u8>)
    returns (next: Option<nat>)
    requires pos == |done| <= cap <= out.Length == |before|
    requires out[..] == done + before[pos..] && done + ModrmBytes(instr) <= whole
    modifies out
    ensures next.Some? <==> pos + |ModrmBytes(instr)| <= cap
    ensures next.Some? ==>
            next.value == pos + |ModrmBytes(instr)|
              && out[..] == (done + ModrmBytes(instr)) + before[pos + |ModrmBytes(instr)|..]
    ensures next.None? ==> WrittenOver(out[..], before, whole, cap)
  {
    if !instr.desc.hasModrm { return Some(pos); }
    var modrm := [instr.modrm] + (if HasSib(instr.modrm) then [instr.sib] else []);
    var disp := Le(instr.displacement, DispSize(instr.modrm, instr.sib));
    assert done + ModrmBytes(instr) == done + modrm + disp;
    next := Emit(out, pos, cap, modrm, done, before, whole);
    if next.None? { return; }
    next := Copy(out, next.value, cap, disp, done + modrm, before, whole);
  }

  /** The operand loop, which stops at the first immediate-like operand. */
  method WriteField(instr: DecodedInstr) returns (s: seq<u8>)
    ensures s == FieldBytes(instr, 0)
  {
    var has66 := false;
    for i := 0 to |instr.legacyPrefix|
      invariant has66 == (0x66 in instr.legacyPrefix[..i])
    {
      if instr.legacyPrefix[i] == 0x66 { has66 := true; }
    }
    assert instr.legacyPrefix[..|instr.legacyPrefix|] == instr.legacyPrefix;
    for i := 0 to |instr.desc.operands|
      invariant FieldBytes(instr, 0) == FieldBytes(instr, i)
    {
      var o := instr.desc.operands[i];
      if IsImm(o) {
        return Le(instr.immediate, ImmSize(o.size, has66, Bit(instr.enc.rex, 8)));
      }
      if o.addr == Moffset {
        return Le(instr.displacement, 8);
      }
    }
    return [];
  }

  /** Everything after the opcode. */
  method EmitOperands(instr: DecodedInstr, out: array<u8>, pos: nat, cap: nat, ghost done: seq<u8>,
                      ghost before: seq<u8>)
    returns (n: nat)
    requires pos == |done| <= cap <= out.Length == |before| && out[..] == done + before[pos..]
    requires done == PrefixBytes(instr) + HeadBytes(instr) + OpcodeBytes(instr)
    modifies out
    ensures n == if |Encode(instr)| <= cap then |Encode(instr)| else 0
    ensures n > 0 ==> out[..] == Encode(instr) + before[n..]
    ensures n == 0 ==> WrittenOver(out[..], before, Encode(instr), cap)
  {
    hide Encode, PrefixBytes, HeadBytes, OpcodeBytes, ModrmBytes, FieldBytes, ImplicitBytes, WrittenOver;
    ghost var whole := Encode(instr);
    EncodeStages(instr);
    var p := EmitModrm(instr, out, pos, cap, done, before, whole);
    if p.None? { return 0; }
    var field := WriteField(instr);
    p := Copy(out, p.value, cap, field, done + ModrmBytes(instr), before, whole);
    if p.None? { return 0; }
    p := Copy(out, p.value, cap, ImplicitBytes(instr), done + ModrmBytes(instr) + field, before, whole);
    if p.None? { return 0; }
    n := p.value;
  }

  /** Writes the instruction into `out`; returns the number of bytes, or 0 when they
      do not fit into `maxLen`. */
  method EncodeTo(instr: DecodedInstr, out: array<u8>, maxLen: nat) returns (n: nat)
    requires maxLen <= out.Length
    modifies out
    ensures n == if |Encode(instr)| <= maxLen then |Encode(instr)| else 0
    ensures n > 0 ==> out[..] == Encode(instr) + old(out[..])[n..]
    ensures n == 0 ==> WrittenOver(out[..], old(out[..]), Encode(instr), maxLen)
  {
    hide Encode, PrefixBytes, HeadBytes, OpcodeBytes, ModrmBytes, FieldBytes, ImplicitBytes, WrittenOver;
    ghost var before, whole := out[..], Encode(instr);
    if maxLen == 0 {
      NothingWritten(before, whole, maxLen);
      return 0;
    }
    EncodeStages(instr);
    var pos := EmitPrefixes(instr, out, maxLen, before, whole);
    ghost var done := PrefixBytes(instr);
    if pos.None? { return 0; }
    pos := Emit(out, pos.value, maxLen, HeadBytes(instr), done, before, whole);
    done := done + HeadBytes(instr);
    if pos.None? { return 0; }
    pos := Emit(out, pos.value, maxLen, OpcodeBytes(instr), done, before, whole);
    done := done + OpcodeBytes(instr);
    if pos.None? { return 0; }
    n := EmitOperands(instr, out, pos.value, maxLen, done, before);
  }
}
