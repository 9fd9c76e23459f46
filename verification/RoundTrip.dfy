/** Exactly which byte strings survive decoding followed by encoding. */
module RoundTrip {
  import opened Words
  import opened InstrTable
  import opened Decoder
  import opened Encoder

  /** An opcode the encoder can write: in the one-byte or a 0F map, no field besides an
      immediate in a 0F3A entry, no ModRM next to a moffset, no opcode register in the
      three-byte maps. */
  predicate Spellable(d: InstrDesc) {
    && (d.opcode <= 0xFF || d.opcode / 0x100 == 0x0F)
    && (HasAddr(d, Moffset) ==> !d.hasModrm)
    && (d.opcode == 0x0F3A ==> !HasAddr(d, RelOffset) && !HasAddr(d, Moffset))
    && (MapOf(d.opcode) >= 2 ==> !HasOpcodeReg(d))
  }

  predicate IsField(o: OperandDesc) {
    IsImm(o) || o.addr == Moffset
  }

  /** At most one immediate-like field. */
  predicate OneField(d: InstrDesc) {
    forall i, j :: 0 <= i < j < |d.operands| ==> !(IsField(d.operands[i]) && IsField(d.operands[j]))
  }

  predicate Regular(d: InstrDesc) {
    Spellable(d) && OneField(d)
  }

  predicate IsFixed(sz: OpSize) {
    sz in {Byte, ByteSignExt, Word, Dword, Qword}
  }

  /** A one-byte opcode whose fields are immediates of fixed sizes. */
  predicate FixedImms(d: InstrDesc) {
    && d.opcode <= 0xFF && !HasAddr(d, Moffset)
    && forall o <- d.operands :: IsImm(o) ==> IsFixed(o.size)
  }

  /** The steps of a successful decode up to the choice of the entry. */
  ghost predicate Found(t: Table, code: seq<u8>, p: nat, h: Head, d: InstrDesc) {
    && p == PrefixEnd(code, 0) && p < |code|
    && ParseHead(code, p) == Some(h)
    && Choose(t, KeyOf(code[..p], h), Peek(code, h.next)) == Some(d)
  }

  predicate Has66(code: seq<u8>, p: nat, h: Head)
    requires p <= |code|
  {
    0x66 in code[..p] || h.pp == 0x66
  }

  ghost predicate Parsed(t: Table, code: seq<u8>, p: nat, h: Head, d: InstrDesc, tl: Tail) {
    Found(t, code, p, h, d) && ParseTail(d, h, code, Has66(code, p, h)) == Some(tl)
  }

  lemma DecodeSteps(t: Table, code: seq<u8>) returns (p: nat, h: Head, d: InstrDesc, tl: Tail)
    requires Decode(t, code).Some?
    ensures Parsed(t, code, p, h, d, tl)
    ensures Decode(t, code) == Some(Assemble(d, code[..p], h, tl))
  {
    p := PrefixEnd(code, 0);
    h := ParseHead(code, p).value;
    d := Choose(t, KeyOf(code[..p], h), Peek(code, h.next)).value;
    tl := ParseTail(d, h, code, Has66(code, p, h)).value;
  }

  lemma ParsedDecodes(t: Table, s: seq<u8>, p: nat, h: Head, d: InstrDesc, tl: Tail)
    requires Parsed(t, s, p, h, d, tl)
    ensures p <= |s| && Decode(t, s) == Some(Assemble(d, s[..p], h, tl))
  {
    hide Choose, ParseTail, ParseHead;
  }

  // ------------------------------------------------------------ descriptor facts

  lemma KeyOpcode(prefixes: seq<u8>, h: Head)
    ensures KeyOf(prefixes, h).opcode == h.opcode && KeyOf(prefixes, h).third == h.third
  {
  }

  /** What the choice of a descriptor says about it. */
  lemma ChosenFacts(t: Table, k: Key, peek: u8)
    requires Choose(t, k, peek).Some?
    ensures var d := Choose(t, k, peek).value;
            && d in t
            && (d.prefix == 0 || d.prefix == k.mandatory)
            && MapOf(d.opcode) == MapOf(k.opcode)
            && (MapOf(k.opcode) < 2 ==>
                  d.opcode % 0x100 == k.opcode % 0x100
                  || (HasOpcodeReg(d) && d.opcode % 0x100 == k.opcode % 0x100 / 8 * 8))
            && (MapOf(k.opcode) >= 2 ==> d.secOpcd == SecOf(k, peek) != 0xFF)
  {
    var q1 := QueryOf(k, k.mandatory, SecOf(k, peek), peek);
    var q2 := QueryOf(k, k.mandatory, 0xFF, peek);
    var q3 := QueryOf(k, 0, 0xFF, peek);
    if Lookup(t, q1).Some? {
      LookupPicks(t, q1);
    } else if Lookup(t, q2).Some? {
      LookupPicks(t, q2);
    } else {
      LookupPicks(t, q3);
    }
  }

  /** The opcode byte is restored whether or not its entry had the register bits. */
  lemma OrRegFacts(b: u8)
    ensures OrReg(b, 0) == b && OrReg(b, b % 8) == b && OrReg(b / 8 * 8, b % 8) == b
  {
    assert b / 8 * 8 / 8 == b / 8 && b / 8 * 8 % 8 == 0;
  }

  // ------------------------------------------------------------ after the opcode

  /** The first immediate-like operand from `k` on. */
  function FieldOf(ops: seq<OperandDesc>, k: nat): (f: Option<OperandDesc>)
    requires k <= |ops|
    ensures f.Some? <==> exists i :: k <= i < |ops| && IsField(ops[i])
    ensures f.Some? ==> f.value in ops[k..] && IsField(f.value)
    decreases |ops| - k
  {
    if k == |ops| then None else if IsField(ops[k]) then Some(ops[k]) else FieldOf(ops, k + 1)
  }

  lemma {:induction false} NoMoreImms(ops: seq<OperandDesc>, k: nat, count: nat, code: seq<u8>, tl: Tail, has66: bool,
                                      rexW: bool)
    requires k <= |ops| && tl.next <= |code|
    requires forall i :: k <= i < |ops| ==> !IsImm(ops[i])
    ensures ParseImms(ops, k, count, code, tl, has66, rexW) == Some(tl)
    decreases |ops| - k
  {
    if k < |ops| {
      NoMoreImms(ops, k + 1, count, code, tl, has66, rexW);
    }
  }

  predicate OneFieldFrom(ops: seq<OperandDesc>, k: nat) {
    forall i, j :: k <= i < j < |ops| ==> !(IsField(ops[i]) && IsField(ops[j]))
  }

  /** With one immediate-like operand, reading looks only at it. */
  lemma {:induction false} ReadsOneField(ops: seq<OperandDesc>, k: nat, code: seq<u8>, tl: Tail, has66: bool,
                                         rexW: bool)
    requires k <= |ops| && tl.next <= |code| && OneFieldFrom(ops, k)
    ensures var f := FieldOf(ops, k);
            ParseImms(ops, k, 0, code, tl, has66, rexW) ==
            if f.None? || !IsImm(f.value) then Some(tl)
            else
              var n := ImmSize(f.value.size, has66, rexW);
              if tl.next + n > |code| then None else Some(tl.(imm := ReadSigned(code, tl.next, n), next := tl.next + n))
    decreases |ops| - k
  {
    if k < |ops| {
      if !IsField(ops[k]) {
        ReadsOneField(ops, k + 1, code, tl, has66, rexW);
      } else if IsImm(ops[k]) {
        var n := ImmSize(ops[k].size, has66, rexW);
        if tl.next + n <= |code| {
          NoMoreImms(ops, k + 1, 1, code, tl.(imm := ReadSigned(code, tl.next, n), next := tl.next + n), has66, rexW);
        }
      } else {
        NoMoreImms(ops, k, 0, code, tl, has66, rexW);
      }
    }
  }

  /** Printing looks only at the first immediate-like operand. */
  lemma {:induction false} PrintsOneField(instr: DecodedInstr, k: nat)
    requires k <= |instr.desc.operands|
    ensures var f := FieldOf(instr.desc.operands, k);
            FieldBytes(instr, k) ==
            if f.None? then []
            else if IsImm(f.value) then
              Le(instr.immediate, ImmSize(f.value.size, 0x66 in instr.legacyPrefix, Bit(instr.enc.rex, 8)))
            else Le(instr.displacement, 8)
    decreases |instr.desc.operands| - k
  {
    if k < |instr.desc.operands| && !IsField(instr.desc.operands[k]) {
      PrintsOneField(instr, k + 1);
    }
  }

  lemma FieldKinds(d: InstrDesc)
    requires Regular(d)
    ensures var f := FieldOf(d.operands, 0);
            && (HasAddr(d, Moffset) <==> f.Some? && f.value.addr == Moffset)
            && (HasAddr(d, Immediate) <==> f.Some? && f.value.addr == Immediate)
            && (HasAddr(d, RelOffset) <==> f.Some? && f.value.addr == RelOffset)
  {
    var ops := d.operands;
    var f := FieldOf(ops, 0);
    forall a | a == Moffset || a == Immediate || a == RelOffset
      ensures HasAddr(d, a) <==> f.Some? && f.value.addr == a
    {
      if HasAddr(d, a) {
        var i :| 0 <= i < |ops| && ops[i].addr == a;
        var j :| 0 <= j < |ops| && ops[j] == f.value;
        assert IsField(ops[i]) && IsField(ops[j]);
      }
    }
  }

  /** The ModRM, SIB and displacement bytes are printed as read. */
  lemma ModrmPrinted(instr: DecodedInstr, code: seq<u8>, pos: nat)
    requires var m := ParseModrm(instr.desc, code, pos);
             && pos <= |code| && m.Some? && instr.modrm == m.value.modrm && instr.sib == m.value.sib
             && (instr.desc.hasModrm ==> instr.displacement == m.value.disp)
    ensures var m := ParseModrm(instr.desc, code, pos).value;
            pos <= m.next <= |code| && ModrmBytes(instr) == code[pos..m.next]
  {
    if instr.desc.hasModrm {
      var m := ParseModrm(instr.desc, code, pos).value;
      var n := DispSize(m.modrm, m.sib);
      LeOfSigned(code[m.next - n..m.next]);
      assert code[pos..m.next] == code[pos..m.next - n] + code[m.next - n..m.next];
      assert code[pos..m.next - n] == [instr.modrm] + (if HasSib(instr.modrm) then [instr.sib] else []);
    }
  }

  /** The operand-size prefix means the same immediate size to both sides. */
  predicate SizesAgree(d: InstrDesc, read66: bool, print66: bool, rexW: bool) {
    forall o <- d.operands :: IsImm(o) ==> ImmSize(o.size, read66, rexW) == ImmSize(o.size, print66, rexW)
  }

  /** A zero byte stands where a 0F3A entry without a declared immediate has one. */
  predicate LostImplicit(d: InstrDesc, opcode: u16, code: seq<u8>, pos: nat) {
    opcode == 0x0F3A && !HasAddr(d, Immediate) && pos < |code| && code[pos] == 0
  }

  function TailBytes(instr: DecodedInstr): seq<u8> {
    ModrmBytes(instr) + FieldBytes(instr, 0) + ImplicitBytes(instr)
  }

  lemma SplitSlice(code: seq<u8>, a: nat, b: nat, c: nat)
    requires a <= b <= c <= |code|
    ensures code[a..c] == code[a..b] + code[b..c]
  {
  }

  lemma ImplicitPrinted(c: u8)
    ensures Signed(FromLe([c]), 1) % 0x100 == c
    ensures Signed(FromLe([c]), 1) == 0 <==> c == 0
  {
    Pow256Values();
    assert FromLe([c]) == c + 256 * FromLe([]);
  }

  /** `instr` holds what was read after the opcode. */
  ghost predicate TailOf(instr: DecodedInstr, h: Head, tl: Tail, code: seq<u8>, has66: bool) {
    && h.next <= |code| && Regular(instr.desc) && ParseTail(instr.desc, h, code, has66) == Some(tl)
    && instr.enc == h.enc && instr.modrm == tl.modrm && instr.sib == tl.sib
    && instr.displacement == tl.disp && instr.immediate == tl.imm
    && (instr.desc.opcode == 0x0F3A <==> h.opcode == 0x0F3A)
  }

  /** The part after the opcode is printable: one field, no operand-size prefix
      forgotten and no zero implicit immediate dropped. */
  predicate TailKept(instr: DecodedInstr, h: Head, code: seq<u8>, has66: bool) {
    && OneField(instr.desc)
    && SizesAgree(instr.desc, has66, 0x66 in instr.legacyPrefix, Bit(h.enc.rex, 8))
    && !LostImplicit(instr.desc, h.opcode, code, h.next + |ModrmBytes(instr)|)
  }

  lemma OnlyField(d: InstrDesc, f: OperandDesc)
    requires Regular(d) && FieldOf(d.operands, 0) == Some(f)
    ensures forall o <- d.operands :: IsField(o) ==> o == f
  {
    var j :| 0 <= j < |d.operands| && d.operands[j] == f;
    forall o | o in d.operands && IsField(o)
      ensures o == f
    {
      var i :| 0 <= i < |d.operands| && d.operands[i] == o;
    }
  }

  /** The reading side of an instruction without immediate or moffset. */
  lemma ReadWithoutField(instr: DecodedInstr, h: Head, tl: Tail, code: seq<u8>, has66: bool)
    requires TailOf(instr, h, tl, code, has66) && FieldOf(instr.desc.operands, 0).None?
    ensures !HasAddr(instr.desc, Immediate) && FieldBytes(instr, 0) == []
    ensures SizesAgree(instr.desc, has66, 0x66 in instr.legacyPrefix, Bit(h.enc.rex, 8))
    ensures var m := ParseModrm(instr.desc, code, h.next);
            && m.Some? && h.next <= m.value.next <= |code|
            && tl == ParseImplicit(instr.desc, h.opcode, code, m.value)
            && m.value.imm == 0
  {
    FieldKinds(instr.desc);
    var m := ParseModrm(instr.desc, code, h.next).value;
    ReadsOneField(instr.desc.operands, 0, code, m, has66, Bit(h.enc.rex, 8));
    PrintsOneField(instr, 0);
  }

  lemma ImplicitPart(instr: DecodedInstr, opcode: u16, code: seq<u8>, m: Tail, tl: Tail)
    requires m.next <= |code| && m.imm == 0 && !HasAddr(instr.desc, Immediate)
    requires tl == ParseImplicit(instr.desc, opcode, code, m) && instr.immediate == tl.imm
    requires instr.desc.opcode == 0x0F3A <==> opcode == 0x0F3A
    ensures m.next <= tl.next <= |code|
    ensures if LostImplicit(instr.desc, opcode, code, m.next) then ImplicitBytes(instr) == [] && tl.next == m.next + 1
            else ImplicitBytes(instr) == code[m.next..tl.next]
  {
    if opcode == 0x0F3A && m.next < |code| {
      ImplicitPrinted(code[m.next]);
      assert code[m.next..m.next + 1] == [code[m.next]];
    }
  }

  /** The tail is printed as read exactly if it is kept; outside the 0F3A map it is never
      printed one byte shorter. */
  ghost predicate TailVerdict(instr: DecodedInstr, h: Head, tl: Tail, code: seq<u8>, has66: bool) {
    && h.next <= tl.next <= |code|
    && (TailKept(instr, h, code, has66) <==> TailBytes(instr) == code[h.next..tl.next])
    && (h.opcode != 0x0F3A ==> |TailBytes(instr)| != tl.next - h.next - 1)
  }

  lemma TailWithoutField(instr: DecodedInstr, h: Head, tl: Tail, code: seq<u8>, has66: bool)
    requires TailOf(instr, h, tl, code, has66) && FieldOf(instr.desc.operands, 0).None?
    ensures TailVerdict(instr, h, tl, code, has66)
  {
    hide ParseModrm, ParseImms, FieldBytes, Le, Regular;
    ReadWithoutField(instr, h, tl, code, has66);
    var m := ParseModrm(instr.desc, code, h.next).value;
    ModrmPrinted(instr, code, h.next);
    ImplicitPart(instr, h.opcode, code, m, tl);
    SplitSlice(code, h.next, m.next, tl.next);
    assert TailBytes(instr) == ModrmBytes(instr) + ImplicitBytes(instr);
  }

  lemma SignedFieldPrinted(code: seq<u8>, pos: nat, n: nat)
    requires pos + n <= |code|
    ensures Le(ReadSigned(code, pos, n), n) == code[pos..pos + n]
  {
    LeOfSigned(code[pos..pos + n]);
  }

  /** The reading side of an instruction with an immediate. */
  lemma ReadWithImm(instr: DecodedInstr, h: Head, tl: Tail, code: seq<u8>, has66: bool, o: OperandDesc)
    requires TailOf(instr, h, tl, code, has66) && FieldOf(instr.desc.operands, 0) == Some(o) && IsImm(o)
    ensures ImplicitBytes(instr) == []
    ensures var m := ParseModrm(instr.desc, code, h.next);
            var n := ImmSize(o.size, has66, Bit(h.enc.rex, 8));
            && m.Some? && h.next <= m.value.next && tl.next == m.value.next + n <= |code|
            && tl == m.value.(imm := ReadSigned(code, m.value.next, n), next := tl.next)
  {
    FieldKinds(instr.desc);
    var m := ParseModrm(instr.desc, code, h.next).value;
    ReadsOneField(instr.desc.operands, 0, code, m, has66, Bit(h.enc.rex, 8));
  }

  lemma BytesWithImm(instr: DecodedInstr, h: Head, tl: Tail, code: seq<u8>, has66: bool, o: OperandDesc)
    requires TailOf(instr, h, tl, code, has66) && FieldOf(instr.desc.operands, 0) == Some(o) && IsImm(o)
    ensures h.next <= tl.next <= |code|
    ensures var rexW := Bit(h.enc.rex, 8);
            var n, n' := ImmSize(o.size, has66, rexW), ImmSize(o.size, 0x66 in instr.legacyPrefix, rexW);
            && |TailBytes(instr)| == tl.next - h.next + n' - n
            && (n == n' ==> TailBytes(instr) == code[h.next..tl.next])
  {
    hide OneField, Spellable, ReadSigned, ParseImms, ParseTail, ParseModrm, DispSize, ModrmBytes, ImplicitBytes,
         HasAddr;
    ReadWithImm(instr, h, tl, code, has66, o);
    var m := ParseModrm(instr.desc, code, h.next).value;
    PrintsOneField(instr, 0);
    ModrmPrinted(instr, code, h.next);
    SignedFieldPrinted(code, m.next, tl.next - m.next);
    SplitSlice(code, h.next, m.next, tl.next);
  }

  lemma TailWithImm(instr: DecodedInstr, h: Head, tl: Tail, code: seq<u8>, has66: bool, o: OperandDesc)
    requires TailOf(instr, h, tl, code, has66) && FieldOf(instr.desc.operands, 0) == Some(o) && IsImm(o)
    ensures TailVerdict(instr, h, tl, code, has66)
  {
    hide ReadSigned, ParseImms, ParseTail, ModrmBytes, TailBytes;
    BytesWithImm(instr, h, tl, code, has66, o);
    OnlyField(instr.desc, o);
    FieldKinds(instr.desc);
  }

  lemma TailWithMoffset(instr: DecodedInstr, h: Head, tl: Tail, code: seq<u8>, has66: bool, o: OperandDesc)
    requires TailOf(instr, h, tl, code, has66) && FieldOf(instr.desc.operands, 0) == Some(o) && !IsImm(o)
    ensures TailVerdict(instr, h, tl, code, has66)
  {
    hide Le, FromLe, Signed, ParseImms;
    OnlyField(instr.desc, o);
    var d := instr.desc;
    FieldKinds(d);
    var m := ParseModrm(d, code, h.next).value;
    ReadsOneField(d.operands, 0, code, m, has66, Bit(h.enc.rex, 8));
    PrintsOneField(instr, 0);
    assert ImplicitBytes(instr) == [] && ModrmBytes(instr) == [];
    LeOfSigned(code[h.next..tl.next]);
  }

  lemma TailPrinted(instr: DecodedInstr, h: Head, tl: Tail, code: seq<u8>, has66: bool)
    requires TailOf(instr, h, tl, code, has66)
    ensures TailVerdict(instr, h, tl, code, has66)
  {
    var f := FieldOf(instr.desc.operands, 0);
    if f.None? {
      TailWithoutField(instr, h, tl, code, has66);
    } else if IsImm(f.value) {
      TailWithImm(instr, h, tl, code, has66, f.value);
    } else {
      TailWithMoffset(instr, h, tl, code, has66, f.value);
    }
  }

  // ------------------------------------------------------------ several immediates

  /** The bytes of all immediates from operand `k` on. */
  function ImmBytes(ops: seq<OperandDesc>, k: nat, has66: bool, rexW: bool): nat
    requires k <= |ops|
    decreases |ops| - k
  {
    if k == |ops| then 0
    else (if IsImm(ops[k]) then ImmSize(ops[k].size, has66, rexW) else 0) + ImmBytes(ops, k + 1, has66, rexW)
  }

  lemma {:induction false} ImmsLength(ops: seq<OperandDesc>, k: nat, count: nat, code: seq<u8>, tl: Tail, has66: bool,
                                      rexW: bool)
    requires k <= |ops| && tl.next <= |code|
    ensures var r := ParseImms(ops, k, count, code, tl, has66, rexW);
            r.Some? ==> r.value.next == tl.next + ImmBytes(ops, k, has66, rexW)
    decreases |ops| - k
  {
    hide ReadSigned, ImmSize;
    if k < |ops| {
      if !IsImm(ops[k]) {
        ImmsLength(ops, k + 1, count, code, tl, has66, rexW);
      } else {
        var n := ImmSize(ops[k].size, has66, rexW);
        if tl.next + n <= |code| {
          var v := ReadSigned(code, tl.next, n);
          var read := if count == 0 then tl.(imm := v, next := tl.next + n) else tl.(disp := v, next := tl.next + n);
          ImmsLength(ops, k + 1, count + 1, code, read, has66, rexW);
        }
      }
    }
  }

  lemma {:induction false} ImmBytesAt(ops: seq<OperandDesc>, k: nat, j: nat, has66: bool, rexW: bool)
    requires k <= j < |ops| && IsImm(ops[j]) && IsFixed(ops[j].size)
    ensures ImmBytes(ops, k, has66, rexW) >= 1
    decreases j - k
  {
    if k < j {
      ImmBytesAt(ops, k + 1, j, has66, rexW);
    }
  }

  /** Only the first of several immediates is printed. */
  lemma {:induction false} PrintsLess(instr: DecodedInstr, k: nat, i: nat, j: nat, has66: bool)
    requires FixedImms(instr.desc) && k <= i < j < |instr.desc.operands|
    requires IsImm(instr.desc.operands[i]) && IsImm(instr.desc.operands[j])
    ensures |FieldBytes(instr, k)| < ImmBytes(instr.desc.operands, k, has66, Bit(instr.enc.rex, 8))
    decreases i - k
  {
    var ops := instr.desc.operands;
    assert ops[k] in ops && ops[j] in ops;
    if IsImm(ops[k]) {
      ImmBytesAt(ops, k + 1, j, has66, Bit(instr.enc.rex, 8));
    } else {
      PrintsLess(instr, k + 1, i, j, has66);
    }
  }

  lemma {:induction false} ImmsKeepModrm(ops: seq<OperandDesc>, k: nat, count: nat, code: seq<u8>, tl: Tail,
                                         has66: bool, rexW: bool)
    requires k <= |ops| && tl.next <= |code|
    ensures var r := ParseImms(ops, k, count, code, tl, has66, rexW);
            r.Some? ==> r.value.modrm == tl.modrm && r.value.sib == tl.sib
    decreases |ops| - k
  {
    hide ReadSigned, ImmSize;
    if k < |ops| {
      if !IsImm(ops[k]) {
        ImmsKeepModrm(ops, k + 1, count, code, tl, has66, rexW);
      } else {
        var n := ImmSize(ops[k].size, has66, rexW);
        if tl.next + n <= |code| {
          var v := ReadSigned(code, tl.next, n);
          var read := if count == 0 then tl.(imm := v, next := tl.next + n) else tl.(disp := v, next := tl.next + n);
          ImmsKeepModrm(ops, k + 1, count + 1, code, read, has66, rexW);
        }
      }
    }
  }

  lemma TailTruncated(instr: DecodedInstr, h: Head, tl: Tail, code: seq<u8>, has66: bool)
    requires FixedImms(instr.desc) && !OneField(instr.desc) && h.next <= |code| && h.opcode != 0x0F3A
    requires ParseTail(instr.desc, h, code, has66) == Some(tl)
    requires instr.enc == h.enc && instr.modrm == tl.modrm && instr.sib == tl.sib
    ensures |TailBytes(instr)| < tl.next - h.next
  {
    hide ParseImms, ReadSigned, FieldBytes, DispSize;
    var ops := instr.desc.operands;
    var i, j :| 0 <= i < j < |ops| && IsField(ops[i]) && IsField(ops[j]);
    assert ops[i] in ops && ops[j] in ops;
    PrintsLess(instr, 0, i, j, has66);
    var m := ParseModrm(instr.desc, code, h.next).value;
    ImmsLength(ops, 0, 0, code, m, has66, Bit(h.enc.rex, 8));
    ImmsKeepModrm(ops, 0, 0, code, m, has66, Bit(h.enc.rex, 8));
  }

  // ------------------------------------------------------------ up to the opcode

  function HeadAndOpcode(instr: DecodedInstr): seq<u8> {
    HeadBytes(instr) + OpcodeBytes(instr)
  }

  /** A third opcode byte 0xFF, and a two-byte opcode 0F38 or 0F3A reached without a
      third byte, are taken for "no third byte". */
  predicate SentinelThird(h: Head) {
    MapOf(h.opcode) >= 2 && h.third == 0xFF
  }

  /** The head is one the encoder can reproduce: a real third byte; for REX2 a
      one-byte opcode; for VEX and EVEX an entry with the prefix that `pp` names; for
      three-byte VEX no two-byte form; for EVEX the fixed bits in P0 and P1. */
  predicate HeadKept(code: seq<u8>, p: nat, h: Head, d: InstrDesc)
    requires p < |code|
  {
    && !SentinelThird(h)
    && (h.enc.hasRex2 ==> h.opcode <= 0xFF)
    && (h.enc.hasVex ==> d.prefix == h.pp)
    && (code[p] == 0xC4 ==> !ShortVex(h.enc, VexMap(h.opcode)))
    && (code[p] == 0x62 && p + 2 < |code| ==> code[p + 1] / 8 % 4 == 2 && Bit(code[p + 2], 4))
  }

  predicate DiffersAt(s: seq<u8>, code: seq<u8>, p: nat, k: nat) {
    k < |s| && p + k < |code| && s[k] != code[p + k]
  }

  /** The printed head equals the bytes read, or differs from them at an offset
      inside both, or has one byte more. */
  ghost predicate HeadVerdict(code: seq<u8>, p: nat, h: Head, instr: DecodedInstr)
    requires p < h.next <= |code|
  {
    var s := HeadAndOpcode(instr);
    if HeadKept(code, p, h, instr.desc) then s == code[p..h.next]
    else (exists k: nat :: p + k < h.next && DiffersAt(s, code, p, k))
         || (|s| == h.next - p + 1 && h.opcode != 0x0F3A)
  }

  /** What `ChosenFacts` says about the entry of `instr`. */
  ghost predicate HeadOf(instr: DecodedInstr, h: Head) {
    var d := instr.desc;
    && Spellable(d) && instr.enc == h.enc && instr.opcodeReg == h.opcode % 8
    && MapOf(d.opcode) == MapOf(h.opcode)
    && (MapOf(h.opcode) < 2 ==>
          d.opcode % 0x100 == h.opcode % 0x100
          || (HasOpcodeReg(d) && d.opcode % 0x100 == h.opcode % 0x100 / 8 * 8))
    && (MapOf(h.opcode) >= 2 ==> d.secOpcd != 0xFF && (h.third != 0xFF ==> d.secOpcd == h.third))
    && (h.enc.hasVex ==> d.prefix == 0 || d.prefix == h.pp)
  }

  lemma OpcodeByte(b: u8, low: u8, isReg: bool)
    requires low == b || (isReg && low == b / 8 * 8)
    ensures OrReg(low, if isReg then b % 8 else 0) == b
  {
    OrRegFacts(b);
  }

  /** The opcode bytes of a head with third byte `third`. */
  function OpcodeText(h: Head, third: u8): seq<u8> {
    if MapOf(h.opcode) < 2 then
      if h.enc.hasVex || h.opcode <= 0xFF then [h.opcode % 0x100] else [0x0F, h.opcode % 0x100]
    else if h.enc.hasVex then [third]
    else [0x0F, h.opcode % 0x100, third]
  }

  /** The encoder prints the opcode that was read, with the third byte of the entry. */
  lemma OpcodePrinted(instr: DecodedInstr, h: Head)
    requires HeadOf(instr, h) && (h.opcode <= 0xFF || h.opcode / 0x100 == 0x0F)
    ensures OpcodeBytes(instr) == OpcodeText(h, instr.desc.secOpcd)
  {
    hide OrReg, HasAddr;
    var d := instr.desc;
    var b := h.opcode % 0x100;
    assert b % 8 == instr.opcodeReg % 8;
    if MapOf(h.opcode) >= 2 {
      assert d.opcode == h.opcode && !HasOpcodeReg(d);
      OpcodeByte(b, b, false);
      OpcodeByte(d.secOpcd, d.secOpcd, false);
    } else if h.opcode <= 0xFF {
      assert MapOf(h.opcode) == 0 && d.opcode <= 0xFF && VexMap(d.opcode) == 1;
      OpcodeByte(b, d.opcode % 0x100, HasOpcodeReg(d));
    } else {
      assert MapOf(h.opcode) == 1 && d.opcode > 0xFF && VexMap(d.opcode) == 1;
      OpcodeByte(b, d.opcode % 0x100, HasOpcodeReg(d));
    }
  }

  lemma LegacyRead(code: seq<u8>, p: nat, h: Head)
    requires p < |code| && ParseLegacy(code, p) == Some(h)
    ensures var r := if IsRex(code[p]) then 1 else 0;
            && p + r < h.next <= |code| && code[p + r..h.next] == OpcodeText(h, h.third)
            && (h.opcode <= 0xFF || h.opcode / 0x100 == 0x0F)
            && h.enc == PLAIN.(rex := if IsRex(code[p]) then code[p] else 0)
  {
    var q := if IsRex(code[p]) then p + 1 else p;
    if code[q] != 0x0F {
      assert code[q..q + 1] == [code[q]];
    } else if MapOf(h.opcode) < 2 {
      assert code[q..q + 2] == [code[q], code[q + 1]];
    } else {
      assert code[q..q + 3] == [code[q], code[q + 1], code[q + 2]];
    }
  }

  lemma LegacyHead(code: seq<u8>, p: nat, h: Head, instr: DecodedInstr)
    requires p < |code| && ParseLegacy(code, p) == Some(h) && HeadOf(instr, h)
    requires code[p] !in {0x62, 0xC4, 0xC5, 0xD5}
    ensures p < h.next <= |code| && HeadVerdict(code, p, h, instr)
  {
    LegacyRead(code, p, h);
    OpcodePrinted(instr, h);
    var r := if IsRex(code[p]) then 1 else 0;
    assert HeadBytes(instr) == code[p..p + r];
    assert code[p..h.next] == code[p..p + r] + code[p + r..h.next];
    if SentinelThird(h) {
      assert HeadAndOpcode(instr)[r + 2] == instr.desc.secOpcd;
      assert code[p..h.next][r + 2] == h.third;
      assert DiffersAt(HeadAndOpcode(instr), code, p, r + 2);
    }
  }

  lemma RexBits(r: bool, x: bool, b: bool, w: bool)
    ensures var e := RexOf(r, x, b, w);
            Bit(e, 4) == r && Bit(e, 2) == x && Bit(e, 1) == b && Bit(e, 8) == w && e != 0
  {
  }

  lemma PpFacts(k: u2, prefix: u8)
    requires prefix == 0 || prefix == PrefixOfPp(k)
    ensures PpOf(prefix) == k <==> prefix == PrefixOfPp(k)
  {
  }

  /** The fields of the last VEX byte, and of P1, put together again. */
  lemma ByteFields(x: u8)
    ensures x == Flag(Bit(x, 128), 128) + x / 8 % 16 * 8 + x / 4 % 2 * 4 + x % 4
    ensures x / 4 % 2 == Flag(Bit(x, 4), 1)
  {
  }

  lemma RxbFields(x: u8, w: bool)
    ensures x == RxbBits(RexOf(!Bit(x, 128), !Bit(x, 64), !Bit(x, 32), w)) + x % 32
  {
    RexBits(!Bit(x, 128), !Bit(x, 64), !Bit(x, 32), w);
  }

  lemma P2Fields(x: u8)
    ensures x == Flag(Bit(x, 128), 128) + x / 32 % 4 * 32 + Flag(Bit(x, 16), 16) + Flag(Bit(x, 8), 8) + x % 8
  {
    assert x / 8 == 2 * (x / 16) + x / 8 % 2 && x / 16 == 2 * (x / 32) + x / 16 % 2
           && x / 32 == 4 * (x / 128) + x / 32 % 4;
  }

  lemma NibbleFields(x: u8)
    requires x < 16
    ensures x == Flag(Bit(x, 8), 8) + Flag(Bit(x, 4), 4) + Flag(Bit(x, 2), 2) + Flag(Bit(x, 1), 1)
  {
  }

  lemma HighNibble(x: u8)
    ensures Bit(x, 128) == Bit(x / 16, 8) && Bit(x, 64) == Bit(x / 16, 4)
    ensures Bit(x, 32) == Bit(x / 16, 2) && Bit(x, 16) == Bit(x / 16, 1)
  {
  }

  lemma LowNibble(x: u8)
    ensures Bit(x, 8) == Bit(x % 16, 8) && Bit(x, 4) == Bit(x % 16, 4)
    ensures Bit(x, 2) == Bit(x % 16, 2) && Bit(x, 1) == Bit(x % 16, 1)
  {
    var q, y := x / 16, x % 16;
    assert x / 8 == 2 * q + y / 8 && x / 4 == 4 * q + y / 4 && x / 2 == 8 * q + y / 2;
  }

  lemma PayloadFields(x: u8)
    ensures x == Flag(Bit(x, 128), 128) + Flag(Bit(x, 64), 64) + Flag(Bit(x, 32), 32) + Flag(Bit(x, 16), 16)
                 + Flag(Bit(x, 8), 8) + Flag(Bit(x, 4), 4) + Flag(Bit(x, 2), 2) + Flag(Bit(x, 1), 1)
  {
    NibbleFields(x / 16);
    NibbleFields(x % 16);
    HighNibble(x);
    LowNibble(x);
  }

  lemma Rex2Payload(x: u8, opcode: u16)
    requires opcode / 0x100 == 0x0F <==> Bit(x, 128)
    ensures Rex2Byte(Rex2Fields(x), opcode) == x && Rex2Fields(x).rex != 0
  {
    PayloadFields(x);
    RexBits(Bit(x, 4), Bit(x, 2), Bit(x, 1), Bit(x, 8));
  }

  lemma Rex2Head(code: seq<u8>, p: nat, h: Head, instr: DecodedInstr)
    requires p < |code| && code[p] == 0xD5 && ParseRex2(code, p) == Some(h) && HeadOf(instr, h)
    ensures p < h.next <= |code| && HeadVerdict(code, p, h, instr)
  {
    hide OpcodeBytes, Rex2Byte, Spellable, HasOpcodeReg, Bit, RexOf;
    var b, s := code[p + 2], HeadAndOpcode(instr);
    assert instr.desc.opcode / 0x100 == 0x0F <==> h.opcode / 0x100 == 0x0F;
    Rex2Payload(code[p + 1], instr.desc.opcode);
    OpcodePrinted(instr, h);
    assert HeadBytes(instr) == [0xD5, code[p + 1]];
    if h.opcode <= 0xFF {
      assert s == [0xD5, code[p + 1], b] == code[p..h.next];
    } else if b != 0x0F {
      assert s[2] == 0x0F;
      assert DiffersAt(s, code, p, 2);
    }
  }

  /** The map field the encoder prints tells the opcode maps apart, and never
      confuses 0F38 or 0F3A without a third byte with map 1. */
  lemma MapFacts(enc: Encoding, pp: u8, m: int, code: seq<u8>, pos: nat, h: Head)
    requires pos < |code| && MapOpcode(enc, pp, m, code, pos) == Some(h)
    ensures 1 <= m <= 3 && h.next == pos + 1 && h.enc == enc && h.pp == pp
    ensures h.opcode / 0x100 == 0x0F
    ensures VexMap(h.opcode) == m <==> !(m == 1 && SentinelThird(h))
    ensures !SentinelThird(h) ==> code[pos] == (if MapOf(h.opcode) < 2 then h.opcode % 0x100 else h.third)
    ensures SentinelThird(h) && m != 1 ==> code[pos] == 0xFF
  {
  }

  lemma Vex2Byte(b1: u8, pp: u2)
    ensures var v := Flag(!Bit(Vex2Fields(b1).rex, 4), 128) + VlpBits(Vex2Fields(b1), pp);
            v == b1 <==> pp == b1 % 4
    ensures ShortVex(Vex2Fields(b1), 1)
  {
    ByteFields(b1);
    RexBits(true, false, false, false);
    assert RexOf(true, false, false, false) == 0x44;
  }

  lemma Vex2Head(code: seq<u8>, p: nat, h: Head, instr: DecodedInstr)
    requires p < |code| && code[p] == 0xC5 && ParseVex2(code, p) == Some(h) && HeadOf(instr, h)
    ensures p < h.next <= |code| && HeadVerdict(code, p, h, instr)
  {
    hide OpcodeBytes, Spellable, HasOpcodeReg, RxbBits, VlpBits, RexOf;
    var b1, s, d := code[p + 1], HeadAndOpcode(instr), instr.desc;
    MapFacts(Vex2Fields(b1), PrefixOfPp(b1 % 4), 1, code, p + 2, h);
    PpFacts(b1 % 4, d.prefix);
    OpcodePrinted(instr, h);
    assert VexMap(d.opcode) == VexMap(h.opcode);
    Vex2Byte(b1, PpOf(d.prefix));
    if SentinelThird(h) {
      assert s[0] == 0xC4;
      assert DiffersAt(s, code, p, 0);
    } else if d.prefix != h.pp {
      assert DiffersAt(s, code, p, 1);
    } else {
      assert s == [0xC5, b1, code[p + 2]] == code[p..h.next];
    }
  }

  lemma Vex3First(b1: u8, b2: u8, map_: u2)
    ensures RxbBits(Vex3Fields(b1, b2).rex) + map_ == b1 <==> map_ == b1 % 32
  {
    RxbFields(b1, Bit(b2, 128));
  }

  lemma Vex3Second(b1: u8, b2: u8, pp: u2)
    ensures Flag(Vex3Fields(b1, b2).vexW, 128) + VlpBits(Vex3Fields(b1, b2), pp) == b2 <==> pp == b2 % 4
  {
    ByteFields(b2);
  }

  lemma Vex3Head(code: seq<u8>, p: nat, h: Head, instr: DecodedInstr)
    requires p < |code| && code[p] == 0xC4 && ParseVex3(code, p) == Some(h) && HeadOf(instr, h)
    ensures p < h.next <= |code| && HeadVerdict(code, p, h, instr)
  {
    hide OpcodeBytes, Spellable, HasOpcodeReg, RxbBits, VlpBits, RexOf, Bit;
    var b1, b2, s, d := code[p + 1], code[p + 2], HeadAndOpcode(instr), instr.desc;
    MapFacts(Vex3Fields(b1, b2), PrefixOfPp(b2 % 4), b1 % 32, code, p + 3, h);
    PpFacts(b2 % 4, d.prefix);
    OpcodePrinted(instr, h);
    assert VexMap(d.opcode) == VexMap(h.opcode);
    Vex3First(b1, b2, VexMap(d.opcode));
    Vex3Second(b1, b2, PpOf(d.prefix));
    if ShortVex(h.enc, VexMap(h.opcode)) {
      assert s[0] == 0xC5;
      assert DiffersAt(s, code, p, 0);
    } else if VexMap(h.opcode) != b1 % 32 {
      assert DiffersAt(s, code, p, 1);
    } else if d.prefix != h.pp {
      assert DiffersAt(s, code, p, 2);
    } else if SentinelThird(h) {
      assert s[3] == d.secOpcd;
      assert DiffersAt(s, code, p, 3);
    } else {
      assert s == [0xC4, b1, b2, code[p + 3]] == code[p..h.next];
    }
  }

  lemma P0Low(x: u8, map_: u2)
    ensures x % 32 == 0x10 + map_ <==> x / 8 % 4 == 2 && x % 8 == map_
  {
    var y, z := x / 8, x % 8;
    assert x == 8 * y + z && y == 4 * (y / 4) + y % 4;
    assert x % 32 == 8 * (y % 4) + z;
  }

  lemma EvexP0(p0: u8, p1: u8, p2: u8, map_: u2)
    ensures RxbBits(EvexFields(p0, p1, p2).rex) + 0x10 + map_ == p0 <==> p0 / 8 % 4 == 2 && p0 % 8 == map_
  {
    RxbFields(p0, Bit(p1, 128));
    P0Low(p0, map_);
  }

  lemma EvexP1(p0: u8, p1: u8, p2: u8, pp: u2)
    ensures var e := EvexFields(p0, p1, p2);
            Flag(e.vexW, 128) + (15 - e.vvvv % 16) * 8 + 4 + pp == p1 <==> Bit(p1, 4) && p1 % 4 == pp
  {
    ByteFields(p1);
  }

  lemma EvexP2(p0: u8, p1: u8, p2: u8)
    ensures var e := EvexFields(p0, p1, p2);
            Flag(e.z, 128) + e.vexL * 32 + Flag(e.b, 16) + Flag(e.vvvv / 16 == 0, 8) + e.aaa == p2
  {
    P2Fields(p2);
  }

  lemma EvexHead(code: seq<u8>, p: nat, h: Head, instr: DecodedInstr)
    requires p < |code| && code[p] == 0x62 && ParseEvex(code, p) == Some(h) && HeadOf(instr, h)
    ensures p < h.next <= |code| && HeadVerdict(code, p, h, instr)
  {
    hide OpcodeBytes, Spellable, HasOpcodeReg, RxbBits, RexOf;
    var p0, p1, p2 := code[p + 1], code[p + 2], code[p + 3];
    var s, d := HeadAndOpcode(instr), instr.desc;
    MapFacts(EvexFields(p0, p1, p2), PrefixOfPp(p1 % 4), p0 % 8, code, p + 4, h);
    PpFacts(p1 % 4, d.prefix);
    OpcodePrinted(instr, h);
    assert VexMap(d.opcode) == VexMap(h.opcode);
    EvexP0(p0, p1, p2, VexMap(d.opcode));
    EvexP1(p0, p1, p2, PpOf(d.prefix));
    EvexP2(p0, p1, p2);
    if p0 / 8 % 4 != 2 || VexMap(h.opcode) != p0 % 8 {
      assert DiffersAt(s, code, p, 1);
    } else if !Bit(p1, 4) || d.prefix != h.pp {
      assert DiffersAt(s, code, p, 2);
    } else if SentinelThird(h) {
      assert s[4] == d.secOpcd;
      assert DiffersAt(s, code, p, 4);
    } else {
      assert s == [0x62, p0, p1, p2, code[p + 4]] == code[p..h.next];
    }
  }

  lemma HeadPrinted(code: seq<u8>, p: nat, h: Head, instr: DecodedInstr)
    requires p < |code| && ParseHead(code, p) == Some(h) && HeadOf(instr, h)
    ensures p < h.next <= |code| && HeadVerdict(code, p, h, instr)
  {
    if code[p] == 0x62 {
      EvexHead(code, p, h, instr);
    } else if code[p] == 0xC5 {
      Vex2Head(code, p, h, instr);
    } else if code[p] == 0xC4 {
      Vex3Head(code, p, h, instr);
    } else if code[p] == 0xD5 {
      Rex2Head(code, p, h, instr);
    } else {
      LegacyHead(code, p, h, instr);
    }
  }

  lemma HeadKinds(code: seq<u8>, p: nat, h: Head)
    requires p < |code| && ParseHead(code, p) == Some(h)
    ensures h.enc.hasVex <==> code[p] in {0x62, 0xC4, 0xC5}
    ensures h.enc.hasEvex <==> code[p] == 0x62
    ensures h.enc.hasRex2 <==> code[p] == 0xD5
    ensures !h.enc.hasVex ==> h.pp == 0
  {
  }

  /** What follows the prefixes does not look like one more prefix. */
  lemma FirstPrinted(code: seq<u8>, p: nat, h: Head, instr: DecodedInstr)
    requires p < |code| && !IsLegacyPrefix(code[p]) && ParseHead(code, p) == Some(h) && HeadOf(instr, h)
    ensures HeadAndOpcode(instr) != [] && !IsLegacyPrefix(HeadAndOpcode(instr)[0])
  {
    HeadKinds(code, p, h);
    if !h.enc.hasVex && !h.enc.hasRex2 {
      LegacyRead(code, p, h);
      OpcodePrinted(instr, h);
      var r := if IsRex(code[p]) then 1 else 0;
      assert OpcodeText(h, h.third)[0] == code[p + r..h.next][0] == code[p + r];
    }
  }

  // ------------------------------------------------------------ legacy prefixes

  /** At most four prefixes are remembered; VEX forms keep none of 66, F2, F3; other
      forms can restore a fifth one that the entry asks for. */
  predicate PrefixesKept(pre: seq<u8>, d: InstrDesc, hasVex: bool) {
    if hasVex then |pre| <= 4 && forall x <- pre :: !IsMandatory(x)
    else |pre| <= 4 || (|pre| == 5 && d.prefix == pre[4] && d.prefix !in pre[..4])
  }

  lemma {:induction false} NothingFiltered(s: seq<u8>)
    ensures (forall x <- s :: !IsMandatory(x)) ==> WithoutMandatory(s) == s
    ensures forall x <- WithoutMandatory(s) :: !IsMandatory(x)
  {
    if s != [] {
      NothingFiltered(s[1..]);
    }
  }

  /** If the filtered prefixes, followed by something that is no prefix, start a
      string that begins with the prefixes, then nothing was filtered out. */
  lemma {:induction false} FilterVisible(s: seq<u8>, after: seq<u8>, rest: seq<u8>)
    requires after != [] && !IsLegacyPrefix(after[0])
    requires WithoutMandatory(s) + after == s + rest
    ensures forall x <- s :: !IsMandatory(x)
  {
    if s != [] {
      var w := WithoutMandatory(s);
      assert (w + after)[0] == s[0];
      NothingFiltered(s);
      assert w != [] ==> w[0] in w && !IsMandatory(w[0]);
      if !IsMandatory(s[0]) {
        assert (w + after)[1..] == WithoutMandatory(s[1..]) + after;
        assert (s + rest)[1..] == s[1..] + rest;
        FilterVisible(s[1..], after, rest);
      }
    }
  }

  lemma PrefixesPrinted(pre: seq<u8>, instr: DecodedInstr, after: seq<u8>, rest: seq<u8>)
    requires forall x <- pre :: IsLegacyPrefix(x)
    requires instr.legacyPrefix == pre[..Min(|pre|, 4)]
    requires !instr.enc.hasVex && instr.desc.prefix != 0 ==> instr.desc.prefix in pre
    requires after != [] && !IsLegacyPrefix(after[0])
    ensures var kept := PrefixesKept(pre, instr.desc, instr.enc.hasVex);
            && (kept ==> PrefixBytes(instr) == pre)
            && (PrefixBytes(instr) + after == pre + rest ==> kept)
  {
    var lp, q := instr.legacyPrefix, instr.desc.prefix;
    assert pre == lp + pre[|lp|..];
    if instr.enc.hasVex {
      NothingFiltered(lp);
      if PrefixBytes(instr) + after == pre + rest {
        assert pre + rest == lp + (pre[|lp|..] + rest);
        FilterVisible(lp, after, pre[|lp|..] + rest);
        NothingFiltered(lp);
      }
      if |pre| > 4 {
        assert (lp + after)[4] == after[0] && (pre + rest)[4] == pre[4];
      }
    } else if |pre| > 4 {
      assert IsLegacyPrefix(pre[4]) && (|pre| == 5 ==> pre == pre[..4] + [pre[4]]);
      var s := PrefixBytes(instr) + after;
      assert (pre + rest)[4] == pre[4];
      if |pre| > 5 {
        assert (pre + rest)[5] == pre[5] && IsLegacyPrefix(pre[5]);
      }
      assert q == 0 || q in lp ==> s[4] == after[0];
      assert q != 0 && q !in lp ==> s[4] == q && s[5] == after[0];
    }
  }

  // ------------------------------------------------------------ the theorem

  /** An entry whose opcode the encoder can write; with more than one field only a
      one-byte opcode with immediates of fixed sizes. */
  predicate Printable(d: InstrDesc) {
    Regular(d) || FixedImms(d)
  }

  /** Printing gives back what was read. The parts are the guards of the encoder and
      the decoder: prefixes remembered and printed, a head the encoder can print, one
      field, one operand size, and no zero byte taken for a missing immediate. */
  predicate Reproducible(t: Table, code: seq<u8>)
    requires Decode(t, code).Some?
  {
    var p := PrefixEnd(code, 0);
    var h := ParseHead(code, p).value;
    var instr := Decode(t, code).value.instr;
    && PrefixesKept(code[..p], instr.desc, h.enc.hasVex)
    && HeadKept(code, p, h, instr.desc)
    && TailKept(instr, h, code, Has66(code, p, h))
  }

  lemma PrintableSpells(d: InstrDesc)
    requires Printable(d)
    ensures Spellable(d) && (OneField(d) ==> Regular(d)) && (!OneField(d) ==> FixedImms(d))
  {
    hide OneField;
  }

  lemma HeadFacts(t: Table, code: seq<u8>, p: nat, h: Head, d: InstrDesc, tl: Tail)
    requires Parsed(t, code, p, h, d, tl) && Spellable(d)
    ensures var instr := Assemble(d, code[..p], h, tl).instr;
            && HeadOf(instr, h) && h.next <= |code|
            && (instr.desc.opcode == 0x0F3A <==> h.opcode == 0x0F3A)
            && (!instr.enc.hasVex && d.prefix != 0 ==> d.prefix in code[..p])
  {
    hide Choose, ParseTail, ParseHead, Spellable;
    ChosenFacts(t, KeyOf(code[..p], h), Peek(code, h.next));
  }

  lemma InstrFacts(t: Table, code: seq<u8>, p: nat, h: Head, d: InstrDesc, tl: Tail)
    requires Parsed(t, code, p, h, d, tl) && Regular(d)
    ensures var instr := Assemble(d, code[..p], h, tl).instr;
            && HeadOf(instr, h)
            && TailOf(instr, h, tl, code, Has66(code, p, h))
            && (!instr.enc.hasVex && d.prefix != 0 ==> d.prefix in code[..p])
  {
    hide Choose, ParseTail, ParseHead, HeadOf, OneField, Spellable;
    HeadFacts(t, code, p, h, d, tl);
  }

  lemma SameRest(a: seq<u8>, b: seq<u8>, c: seq<u8>)
    ensures a + b == a + c <==> b == c
  {
    assert (a + b)[|a|..] == b && (a + c)[|a|..] == c;
  }

  lemma HeadAndTail(code: seq<u8>, p: nat, h: Head, instr: DecodedInstr, printed: seq<u8>, read: seq<u8>)
    requires p < h.next <= |code| && HeadVerdict(code, p, h, instr)
    requires h.opcode != 0x0F3A ==> HeadKept(code, p, h, instr.desc) || |printed| != |read| - 1
    ensures HeadAndOpcode(instr) + printed == code[p..h.next] + read
            <==> HeadKept(code, p, h, instr.desc) && printed == read
  {
    var s, text := HeadAndOpcode(instr), code[p..h.next];
    if HeadKept(code, p, h, instr.desc) {
      SameRest(s, printed, read);
    } else if |s| == h.next - p + 1 && h.opcode != 0x0F3A {
      assert |s + printed| != |text + read|;
    } else {
      var k: nat :| p + k < h.next && DiffersAt(s, code, p, k);
      assert (s + printed)[k] != (text + read)[k];
    }
  }

  /** From the opcode part on, printing agrees exactly under the last guards. */
  ghost predicate BodyVerdict(code: seq<u8>, p: nat, h: Head, instr: DecodedInstr, tl: Tail) {
    && p < h.next <= tl.next <= |code|
    && (HeadAndOpcode(instr) + TailBytes(instr) == code[p..tl.next]
        <==> HeadKept(code, p, h, instr.desc) && TailKept(instr, h, code, Has66(code, p, h)))
  }

  lemma RegularBody(t: Table, code: seq<u8>, p: nat, h: Head, d: InstrDesc, tl: Tail)
    requires Parsed(t, code, p, h, d, tl) && Regular(d)
    ensures BodyVerdict(code, p, h, Assemble(d, code[..p], h, tl).instr, tl)
  {
    hide Choose, ParseTail, ParseHead, HeadVerdict, TailVerdict, HeadKept, TailKept, TailBytes, HeadAndOpcode;
    var instr := Assemble(d, code[..p], h, tl).instr;
    InstrFacts(t, code, p, h, d, tl);
    HeadPrinted(code, p, h, instr);
    TailPrinted(instr, h, tl, code, Has66(code, p, h));
    SplitSlice(code, p, h.next, tl.next);
    HeadAndTail(code, p, h, instr, TailBytes(instr), code[h.next..tl.next]);
  }

  /** A one-byte opcode without VEX is printed as read. */
  lemma PlainHeadKept(code: seq<u8>, p: nat, h: Head, d: InstrDesc)
    requires p < |code| && ParseHead(code, p) == Some(h) && MapOf(h.opcode) == 0
    ensures HeadKept(code, p, h, d)
  {
  }

  lemma OneByteMap(instr: DecodedInstr, h: Head)
    requires HeadOf(instr, h) && FixedImms(instr.desc)
    ensures MapOf(h.opcode) == 0 && h.opcode != 0x0F3A
  {
  }

  /** With a second immediate the body is printed too short. */
  lemma TruncatedBody(t: Table, code: seq<u8>, p: nat, h: Head, d: InstrDesc, tl: Tail)
    requires Parsed(t, code, p, h, d, tl) && FixedImms(d) && !OneField(d) && Spellable(d)
    ensures BodyVerdict(code, p, h, Assemble(d, code[..p], h, tl).instr, tl)
  {
    hide Choose, ParseTail, ParseHead, HeadVerdict, HeadKept, TailBytes, HeadAndOpcode, OneField, Spellable, FixedImms;
    var instr := Assemble(d, code[..p], h, tl).instr;
    HeadFacts(t, code, p, h, d, tl);
    HeadPrinted(code, p, h, instr);
    OneByteMap(instr, h);
    PlainHeadKept(code, p, h, d);
    TailTruncated(instr, h, tl, code, Has66(code, p, h));
    SplitSlice(code, p, h.next, tl.next);
    HeadAndTail(code, p, h, instr, TailBytes(instr), code[h.next..tl.next]);
  }

  lemma PrefixAgrees(t: Table, code: seq<u8>, p: nat, h: Head, d: InstrDesc, tl: Tail, after: seq<u8>, rest: seq<u8>)
    requires Parsed(t, code, p, h, d, tl) && Spellable(d)
    requires after == HeadAndOpcode(Assemble(d, code[..p], h, tl).instr) + rest
    ensures var instr := Assemble(d, code[..p], h, tl).instr;
            var kept := PrefixesKept(code[..p], d, h.enc.hasVex);
            && (kept ==> PrefixBytes(instr) == code[..p])
            && (PrefixBytes(instr) + after == code[..p] + code[p..tl.next] ==> kept)
  {
    var instr := Assemble(d, code[..p], h, tl).instr;
    HeadFacts(t, code, p, h, d, tl);
    FirstPrinted(code, p, h, instr);
    assert after[0] == HeadAndOpcode(instr)[0];
    PrefixesPrinted(code[..p], instr, after, code[p..tl.next]);
  }

  lemma Regroup(a: seq<u8>, b: seq<u8>, c: seq<u8>, d: seq<u8>, e: seq<u8>, f: seq<u8>)
    ensures a + b + c + d + e + f == a + ((b + c) + (d + e + f))
  {
  }

  lemma EncodeParts(instr: DecodedInstr)
    ensures Encode(instr) == PrefixBytes(instr) + (HeadAndOpcode(instr) + TailBytes(instr))
  {
    Regroup(PrefixBytes(instr), HeadBytes(instr), OpcodeBytes(instr), ModrmBytes(instr), FieldBytes(instr, 0),
            ImplicitBytes(instr));
  }

  /** For every table and every byte string that decodes to a printable entry: encoding
      the result reproduces exactly the bytes consumed if and only if the string is
      reproducible. */
  lemma RoundTripIff(t: Table, code: seq<u8>)
    requires Decode(t, code).Some? && Printable(Decode(t, code).value.instr.desc)
    ensures var r := Decode(t, code).value;
            Encode(r.instr) == code[..r.size] <==> Reproducible(t, code)
  {
    hide Printable, OneField, FixedImms, Spellable, Encode, Choose, ParseTail, ParseHead;
    var p, h, d, tl := DecodeSteps(t, code);
    var instr := Decode(t, code).value.instr;
    var after := HeadAndOpcode(instr) + TailBytes(instr);
    PrintableSpells(d);
    if OneField(d) {
      RegularBody(t, code, p, h, d, tl);
    } else {
      TruncatedBody(t, code, p, h, d, tl);
    }
    PrefixAgrees(t, code, p, h, d, tl, after, TailBytes(instr));
    EncodeParts(instr);
    SameRest(code[..p], after, code[p..tl.next]);
    SplitSlice(code, 0, p, tl.next);
    assert code[..tl.next] == code[0..tl.next];
  }
}
