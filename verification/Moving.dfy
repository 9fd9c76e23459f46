/** Relocation preserves meaning: what the rewritten block decodes to, where its
    relative operands point, and that moving composes and can be undone. */
module Moving {
  import opened Words
  import opened InstrTable
  import opened Decoder
  import opened RoundTrip
  import opened Locality
  import opened Sweeping
  import opened Relocation

  /** The operand is relative to the end of the instruction. */
  predicate IsRipInstr(r: Decoded) {
    r.instr.desc.hasModrm && ModOf(r.instr.modrm) == 0 && RmOf(r.instr.modrm) == 5
  }

  predicate IsRip(d: InstrDesc, tl: Tail) {
    d.hasModrm && ModOf(tl.modrm) == 0 && RmOf(tl.modrm) == 5
  }

  /** A relative operand of more than one byte, wherever it stands. */
  predicate HasRel(d: InstrDesc) {
    exists o <- d.operands :: o.addr == RelOffset && o.size != ByteSignExt
  }

  predicate HasByteRel(d: InstrDesc) {
    exists o <- d.operands :: o.addr == RelOffset && o.size == ByteSignExt
  }

  predicate RelWidth(d: InstrDesc, has66: bool, rexW: bool, n: nat) {
    forall o <- d.operands :: o.addr == RelOffset && o.size != ByteSignExt ==> ImmSize(o.size, has66, rexW) == n
  }

  /** The code finds a RIP-relative displacement where it is, and takes nothing else for
      one. */
  predicate RipFound(s: seq<u8>, h: Head, r: Decoded)
    requires r.size <= |s|
  {
    RipAt(r.instr, r.size, s[..r.size]) == if IsRipInstr(r) then Some(h.next + 1) else None
  }

  /** A rewritten relative operand takes four bytes, behind the byte that is taken for the
      ModRM byte, and is not what the entry was chosen by. */
  ghost predicate RelFound(t: Table, s: seq<u8>, p: nat, h: Head, r: Decoded)
    requires p <= |s|
  {
    var d := r.instr.desc;
    HasRel(d) ==>
      && RelWidth(d, Has66(s, p, h), Bit(h.enc.rex, 8), 4)
      && if d.hasModrm then ModrmOffset(r.instr) <= h.next
         else forall y: u8 :: Choose(t, KeyOf(s[..p], h), y) == Some(d)
  }

  predicate Untouched(d: InstrDesc) {
    !d.hasModrm && !HasRel(d)
  }

  ghost predicate MovableAs(t: Table, s: seq<u8>, p: nat, h: Head, r: Decoded) {
    && p <= |s| && r.size <= |s| && (Regular(r.instr.desc) || Untouched(r.instr.desc))
    && RipFound(s, h, r) && RelFound(t, s, p, h, r)
  }

  /** An instruction of a regular entry, or of one without ModRM byte and rewritten
      operand, whose fields the code finds. */
  ghost predicate Movable(t: Table, s: seq<u8>) {
    Decode(t, s).Some? ==>
      var p := PrefixEnd(s, 0);
      MovableAs(t, s, p, ParseHead(s, p).value, Decode(t, s).value)
  }

  // ------------------------------------------------------------ where the ModRM byte is

  /** How many bytes the code counts too many from the lead byte to the ModRM byte. */
  function Overcount(lead: u8, h: Head): int {
    var third := if MapOf(h.opcode) >= 2 then 1 else 0;
    if lead == 0x62 then third - 2
    else if lead == 0xC4 then third - 1
    else if lead == 0xC5 then third - (if h.enc.rex != 0 then 0 else 1)
    else if lead == 0xD5 then if h.opcode <= 0xFF then -1 else third
    else 0
  }

  function OpcodeSize(d: InstrDesc): nat {
    (if d.opcode > 0xFF then 2 else 1)
      + (if (d.opcode == 0x0F38 || d.opcode == 0x0F3A) && d.secOpcd != 0xFF then 1 else 0)
  }

  lemma OpcodeSizeIs(t: Table, k: Key, peek: u8)
    requires Choose(t, k, peek).Some? && Spellable(Choose(t, k, peek).value)
    requires k.opcode <= 0xFF || k.opcode / 0x100 == 0x0F
    ensures OpcodeSize(Choose(t, k, peek).value) == if k.opcode <= 0xFF then 1 else if MapOf(k.opcode) < 2 then 2 else 3
  {
    ChosenFacts(t, k, peek);
    hide Choose;
  }

  /** The length of a head, and how it differs from what the code counts. */
  lemma HeadLength(s: seq<u8>, p: nat, h: Head)
    requires p < |s| && ParseHead(s, p) == Some(h)
    ensures p < h.next <= |s| && (h.opcode <= 0xFF || h.opcode / 0x100 == 0x0F)
    ensures h.next == p + (if h.enc.rex != 0 then 1 else 0)
                      + (if h.opcode <= 0xFF then 1 else if MapOf(h.opcode) < 2 then 2 else 3) - Overcount(s[p], h)
  {
    hide Bit;
    HeadKinds(s, p, h);
  }

  /** The place the code looks at, for every encoding and any number of prefixes, of which
      it counts at most four. */
  lemma ModrmOffsetIs(t: Table, s: seq<u8>, p: nat, h: Head, d: InstrDesc, tl: Tail)
    requires Parsed(t, s, p, h, d, tl) && Spellable(d)
    ensures p < h.next <= |s|
    ensures ModrmOffset(Assemble(d, s[..p], h, tl).instr) == h.next + Overcount(s[p], h) - (p - Min(p, 4))
  {
    hide Choose, ParseTail, ParseHead, Spellable, Overcount;
    HeadLength(s, p, h);
    OpcodeSizeIs(t, KeyOf(s[..p], h), Peek(s, h.next));
  }

  // ------------------------------------------------------------ where the fields are

  lemma RelIsField(d: InstrDesc)
    requires Regular(d) && RelOperand(d.operands, 0).Some?
    ensures FieldOf(d.operands, 0) == RelOperand(d.operands, 0)
  {
    var o := RelOperand(d.operands, 0).value;
    var i :| 0 <= i < |d.operands| && d.operands[i] == o;
    assert IsField(d.operands[i]);
    OnlyField(d, FieldOf(d.operands, 0).value);
  }

  /** The one field of a regular entry with such an operand. */
  lemma RelField(d: InstrDesc)
    requires Regular(d) && HasRel(d)
    ensures FieldOf(d.operands, 0).Some? && HasAddr(d, RelOffset) && !HasAddr(d, Immediate) && !HasAddr(d, Moffset)
    ensures var o := FieldOf(d.operands, 0).value; o in d.operands && o.addr == RelOffset && o.size != ByteSignExt
  {
    var o :| o in d.operands && o.addr == RelOffset && o.size != ByteSignExt;
    var i :| 0 <= i < |d.operands| && d.operands[i] == o;
    assert IsField(d.operands[i]);
    OnlyField(d, FieldOf(d.operands, 0).value);
  }

  lemma {:induction false} SomeRel(ops: seq<OperandDesc>, k: nat)
    requires k <= |ops|
    ensures RelOperand(ops, k).Some? <==> exists i :: k <= i < |ops| && ops[i].addr == RelOffset
    decreases |ops| - k
  {
    if k < |ops| {
      SomeRel(ops, k + 1);
    }
  }

  lemma PatchesHas(d: InstrDesc)
    ensures PatchesRel(d) ==> HasRel(d)
  {
  }

  /** The code rewrites an operand exactly if there is a relative one of more than a byte. */
  lemma RelIs(d: InstrDesc)
    requires Regular(d) || !HasRel(d)
    ensures PatchesRel(d) <==> HasRel(d)
    ensures HasRel(d) ==> FieldOf(d.operands, 0) == RelOperand(d.operands, 0)
  {
    hide RelOperand, Spellable;
    SomeRel(d.operands, 0);
    if HasRel(d) {
      var o :| o in d.operands && o.addr == RelOffset && o.size != ByteSignExt;
      var i :| 0 <= i < |d.operands| && d.operands[i] == o;
      RelIsField(d);
      OnlyField(d, FieldOf(d.operands, 0).value);
      assert IsField(o);
    }
  }

  /** The ModRM part of an instruction and the rest of its tail. */
  lemma TailPlaces(d: InstrDesc, h: Head, s: seq<u8>, has66: bool, tl: Tail)
    requires h.next <= |s| && Regular(d) && ParseTail(d, h, s, has66) == Some(tl)
    ensures var m := ParseModrm(d, s, h.next);
            && m.Some? && h.next <= m.value.next <= tl.next <= |s| && m.value.modrm == tl.modrm && m.value.sib == tl.sib
            && (d.hasModrm ==> h.next < m.value.next && s[h.next] == tl.modrm && tl.disp == m.value.disp)
            && (IsRip(d, tl) ==> m.value.next == h.next + 5 && tl.disp == ReadSigned(s, h.next + 1, 4))
  {
    hide ReadSigned, ParseImms, FieldOf;
    FieldKinds(d);
    ReadsOneField(d.operands, 0, s, ParseModrm(d, s, h.next).value, has66, Bit(h.enc.rex, 8));
  }

  /** A RIP-relative operand is found exactly if the code overcounts by the prefixes it
      has forgotten. With at most four prefixes, and apart from 0F38 and 0F3A without a
      third byte, that is in legacy and REX forms, in three-byte VEX forms of the maps 2
      and 3, in two-byte VEX forms whose R bit is written as 0, in REX2 forms with a 0F
      opcode, and never in EVEX forms. */
  lemma RipFoundIff(t: Table, s: seq<u8>, p: nat, h: Head, d: InstrDesc, tl: Tail)
    requires Parsed(t, s, p, h, d, tl) && Regular(d) && IsRip(d, tl)
    ensures tl.next <= |s| && (RipFound(s, h, Assemble(d, s[..p], h, tl)) <==> Overcount(s[p], h) == p - Min(p, 4))
  {
    hide Choose, ParseTail, ParseHead, Overcount, ModrmOffset, Spellable, OneField;
    ModrmOffsetIs(t, s, p, h, d, tl);
    TailPlaces(d, h, s, Has66(s, p, h), tl);
  }

  /** A rewritten relative operand is the last field. */
  lemma RelPlace(d: InstrDesc, h: Head, s: seq<u8>, has66: bool, tl: Tail)
    requires h.next <= |s| && Regular(d) && ParseTail(d, h, s, has66) == Some(tl) && HasRel(d)
    requires RelWidth(d, has66, Bit(h.enc.rex, 8), 4) && h.opcode != 0x0F3A
    ensures var m := ParseModrm(d, s, h.next);
            && m.Some? && h.next <= m.value.next == tl.next - 4 && tl.next <= |s|
            && tl.imm == ReadSigned(s, tl.next - 4, 4) && tl == m.value.(imm := tl.imm, next := tl.next)
  {
    RelField(d);
    ReadsOneField(d.operands, 0, s, ParseModrm(d, s, h.next).value, has66, Bit(h.enc.rex, 8));
    hide FromLe, Signed;
  }

  lemma RelNotThreeByte(t: Table, k: Key, peek: u8)
    requires Choose(t, k, peek).Some? && Regular(Choose(t, k, peek).value) && HasRel(Choose(t, k, peek).value)
    ensures k.opcode != 0x0F3A
  {
    ChosenFacts(t, k, peek);
    RelField(Choose(t, k, peek).value);
    hide Choose;
  }

  /** The rewritten fields of a movable instruction. */
  lemma FieldPlaces(t: Table, s: seq<u8>, p: nat, h: Head, d: InstrDesc, tl: Tail)
    requires Parsed(t, s, p, h, d, tl) && MovableAs(t, s, p, h, Assemble(d, s[..p], h, tl))
    ensures p < h.next <= tl.next <= |s| && (d.hasModrm ==> h.next < tl.next)
    ensures IsRip(d, tl) ==> h.next + 5 <= tl.next && tl.disp == ReadSigned(s, h.next + 1, 4)
    ensures HasRel(d) ==> h.opcode != 0x0F3A && h.next <= tl.next - 4 && tl.imm == ReadSigned(s, tl.next - 4, 4)
    ensures IsRip(d, tl) && HasRel(d) ==> h.next + 5 <= tl.next - 4
    ensures d.hasModrm && HasRel(d) ==> h.next + 1 <= tl.next - 4
  {
    hide Choose, ParseTail, ParseHead, ModrmOffset, ReadSigned, RipAt, Spellable, OneField, HasRel;
    HeadLength(s, p, h);
    if Regular(d) {
      TailPlaces(d, h, s, Has66(s, p, h), tl);
      if HasRel(d) {
        RelNotThreeByte(t, KeyOf(s[..p], h), Peek(s, h.next));
        RelPlace(d, h, s, Has66(s, p, h), tl);
      }
    }
  }

  /** The code rewrites the displacement of a RIP-relative operand and the relative
      operand, and nothing else, inside the instruction. */
  lemma PlacesRewritten(t: Table, s: seq<u8>, p: nat, h: Head, d: InstrDesc, tl: Tail)
    requires Parsed(t, s, p, h, d, tl) && MovableAs(t, s, p, h, Assemble(d, s[..p], h, tl))
    ensures var instr := Assemble(d, s[..p], h, tl).instr;
            && tl.next <= |s| && p < h.next <= tl.next
            && RipAt(instr, tl.next, s[..tl.next]) == (if IsRip(d, tl) then Some(h.next + 1) else None)
            && PatchesInside(instr, tl.next, s[..tl.next])
  {
    hide Choose, ParseTail, ParseHead, ModrmOffset, ReadSigned, PatchesRel, HasRel;
    RelIs(d);
    FieldPlaces(t, s, p, h, d, tl);
  }

  // ------------------------------------------------------------ decoding rewritten bytes

  /** `s2` differs from `s`, up to one byte behind the instruction, only in the fields
      that the code rewrites. */
  predicate SameButFields(s: seq<u8>, s2: seq<u8>, h: Head, d: InstrDesc, tl: Tail) {
    && |s2| == |s|
    && forall i :: 0 <= i <= tl.next && i < |s| ==>
         s2[i] == s[i] || (IsRip(d, tl) && h.next + 1 <= i < h.next + 5)
           || (HasRel(d) && tl.next - 4 <= i < tl.next)
  }

  /** The tail with the rewritten fields read again. */
  function Reread(s2: seq<u8>, h: Head, d: InstrDesc, tl: Tail): Tail
    requires tl.next <= |s2| && (IsRip(d, tl) ==> h.next + 5 <= |s2|) && (HasRel(d) ==> tl.next >= 4)
  {
    tl.(disp := if IsRip(d, tl) then ReadSigned(s2, h.next + 1, 4) else tl.disp,
        imm := if HasRel(d) then ReadSigned(s2, tl.next - 4, 4) else tl.imm)
  }

  lemma SameRead(s: seq<u8>, s2: seq<u8>, at: nat, n: nat)
    requires at + n <= |s| && at + n <= |s2| && forall i :: at <= i < at + n ==> s[i] == s2[i]
    ensures ReadSigned(s, at, n) == ReadSigned(s2, at, n)
  {
    assert s[at..at + n] == s2[at..at + n];
  }

  /** The ModRM part again, with the RIP-relative displacement taken from `s2`. */
  lemma RereadModrm(d: InstrDesc, h: Head, s: seq<u8>, s2: seq<u8>, m: Tail)
    requires |s| == |s2| && h.next <= |s| && ParseModrm(d, s, h.next) == Some(m)
    requires d.hasModrm && m.next <= |s| ==> s2[h.next] == s[h.next]
    requires IsRip(d, m) || forall i :: h.next <= i < m.next && i < |s| ==> s2[i] == s[i]
    ensures h.next <= m.next <= |s| && (IsRip(d, m) ==> m.next == h.next + 5)
    ensures ParseModrm(d, s2, h.next) == Some(m.(disp := if IsRip(d, m) then ReadSigned(s2, h.next + 1, 4) else m.disp))
  {
    if d.hasModrm && !IsRip(d, m) {
      assert s[h.next..m.next] == s2[h.next..m.next];
      ModrmMoves(d, s, h.next, s2, h.next, m.next - h.next);
    }
    hide FromLe, Signed;
  }

  /** The whole tail when the one field is an immediate or relative operand. */
  lemma ImmTail(d: InstrDesc, h: Head, s: seq<u8>, has66: bool, o: OperandDesc)
    requires h.next <= |s| && Regular(d) && FieldOf(d.operands, 0) == Some(o) && IsImm(o) && NoImplicit(d, h.opcode)
    ensures var m, n := ParseModrm(d, s, h.next), ImmSize(o.size, has66, Bit(h.enc.rex, 8));
            ParseTail(d, h, s, has66) ==
            if m.None? || m.value.next + n > |s| then None
            else Some(m.value.(imm := ReadSigned(s, m.value.next, n), next := m.value.next + n))
  {
    hide ReadSigned, ParseModrm, ParseImms;
    FieldKinds(d);
    var m := ParseModrm(d, s, h.next);
    if m.Some? {
      ReadsOneField(d.operands, 0, s, m.value, has66, Bit(h.enc.rex, 8));
    }
  }

  lemma RereadRel(d: InstrDesc, h: Head, s: seq<u8>, s2: seq<u8>, has66: bool, tl: Tail)
    requires h.next <= |s| && Regular(d) && ParseTail(d, h, s, has66) == Some(tl) && HasRel(d)
    requires RelWidth(d, has66, Bit(h.enc.rex, 8), 4) && h.opcode != 0x0F3A
    requires SameButFields(s, s2, h, d, tl)
    ensures h.next <= tl.next - 4 && tl.next <= |s| && (IsRip(d, tl) ==> h.next + 5 <= |s|)
    ensures ParseTail(d, h, s2, has66) == Some(Reread(s2, h, d, tl))
  {
    hide ReadSigned, ParseModrm, ParseTail, Regular, FieldOf, ImmSize, HasAddr, HasRel;
    RelPlace(d, h, s, has66, tl);
    TailPlaces(d, h, s, has66, tl);
    RelField(d);
    RereadModrm(d, h, s, s2, ParseModrm(d, s, h.next).value);
    ImmTail(d, h, s2, has66, FieldOf(d.operands, 0).value);
  }

  lemma RereadNone(d: InstrDesc, h: Head, s: seq<u8>, s2: seq<u8>, has66: bool, tl: Tail)
    requires h.next <= |s| && Regular(d) && ParseTail(d, h, s, has66) == Some(tl) && !HasRel(d)
    requires SameButFields(s, s2, h, d, tl)
    requires FieldOf(d.operands, 0).None?
    ensures h.next <= tl.next <= |s| && (IsRip(d, tl) ==> h.next + 5 <= |s|)
    ensures ParseTail(d, h, s2, has66) == Some(Reread(s2, h, d, tl))
  {
    hide ReadSigned, ParseModrm, ParseImms;
    TailPlaces(d, h, s, has66, tl);
    var m := ParseModrm(d, s, h.next).value;
    RereadModrm(d, h, s, s2, m);
    var m2 := ParseModrm(d, s2, h.next).value;
    FieldKinds(d);
    ReadsOneField(d.operands, 0, s, m, has66, Bit(h.enc.rex, 8));
    ReadsOneField(d.operands, 0, s2, m2, has66, Bit(h.enc.rex, 8));
    if m.next < tl.next {
      SameRead(s, s2, m.next, 1);
    }
  }

  lemma RereadImm(d: InstrDesc, h: Head, s: seq<u8>, s2: seq<u8>, has66: bool, tl: Tail)
    requires h.next <= |s| && Regular(d) && ParseTail(d, h, s, has66) == Some(tl) && !HasRel(d)
    requires SameButFields(s, s2, h, d, tl)
    requires FieldOf(d.operands, 0).Some? && IsImm(FieldOf(d.operands, 0).value) && NoImplicit(d, h.opcode)
    ensures h.next <= tl.next <= |s| && (IsRip(d, tl) ==> h.next + 5 <= |s|)
    ensures ParseTail(d, h, s2, has66) == Some(Reread(s2, h, d, tl))
  {
    hide ReadSigned, ParseModrm, ParseTail, Regular, FieldOf, ImmSize;
    TailPlaces(d, h, s, has66, tl);
    var o := FieldOf(d.operands, 0).value;
    ImmTail(d, h, s, has66, o);
    ImmTail(d, h, s2, has66, o);
    var m := ParseModrm(d, s, h.next).value;
    RereadModrm(d, h, s, s2, m);
    SameRead(s, s2, m.next, tl.next - m.next);
  }

  lemma RereadMoffset(d: InstrDesc, h: Head, s: seq<u8>, s2: seq<u8>, has66: bool, tl: Tail)
    requires h.next <= |s| && Regular(d) && ParseTail(d, h, s, has66) == Some(tl) && !HasRel(d)
    requires SameButFields(s, s2, h, d, tl)
    requires FieldOf(d.operands, 0).Some? && !IsImm(FieldOf(d.operands, 0).value) && NoImplicit(d, h.opcode)
    ensures h.next <= tl.next <= |s| && (IsRip(d, tl) ==> h.next + 5 <= |s|)
    ensures ParseTail(d, h, s2, has66) == Some(Reread(s2, h, d, tl))
  {
    FieldKinds(d);
    ReadsOneField(d.operands, 0, s, ParseModrm(d, s, h.next).value, has66, Bit(h.enc.rex, 8));
    ReadsOneField(d.operands, 0, s2, ParseModrm(d, s2, h.next).value, has66, Bit(h.enc.rex, 8));
    SameRead(s, s2, h.next, 8);
    hide ReadSigned, ParseImms;
  }

  /** The field of a 0F3A entry, if any, is its immediate. */
  lemma ThreeByteField(t: Table, k: Key, peek: u8)
    requires Choose(t, k, peek).Some? && Regular(Choose(t, k, peek).value)
    requires FieldOf(Choose(t, k, peek).value.operands, 0).Some?
    ensures NoImplicit(Choose(t, k, peek).value, k.opcode)
  {
    ChosenFacts(t, k, peek);
    FieldKinds(Choose(t, k, peek).value);
    hide Choose;
  }

  lemma RereadFound(t: Table, s: seq<u8>, p: nat, h: Head, d: InstrDesc, tl: Tail, s2: seq<u8>)
    requires Parsed(t, s, p, h, d, tl) && MovableAs(t, s, p, h, Assemble(d, s[..p], h, tl))
             && SameButFields(s, s2, h, d, tl)
    ensures Found(t, s2, p, h, d) && s2[..p] == s[..p]
  {
    hide ParseTail, ParseModrm, Choose, ReadSigned;
    FieldPlaces(t, s, p, h, d, tl);
    assert forall i :: 0 <= i < h.next ==> s2[i] == s[i];
    PrefixEndLocal(s, s2, 0);
    HeadLocal(s, s2, p);
    assert s2[..p] == s[..p];
  }

  /** Rewritten bytes decode to the same instruction with the new field values. */
  lemma RereadParsed(t: Table, s: seq<u8>, p: nat, h: Head, d: InstrDesc, tl: Tail, s2: seq<u8>)
    requires Parsed(t, s, p, h, d, tl) && MovableAs(t, s, p, h, Assemble(d, s[..p], h, tl))
             && SameButFields(s, s2, h, d, tl)
    ensures tl.next <= |s2| && (IsRip(d, tl) ==> h.next + 5 <= |s2|) && (HasRel(d) ==> tl.next >= 4)
    ensures s2[..p] == s[..p] && Parsed(t, s2, p, h, d, Reread(s2, h, d, tl))
  {
    hide ParseTail, Choose, ParseHead, ReadSigned, Spellable, OneField;
    FieldPlaces(t, s, p, h, d, tl);
    RereadFound(t, s, p, h, d, tl, s2);
    var has66 := Has66(s, p, h);
    if !Regular(d) {
      assert forall i :: h.next <= i < tl.next ==> s2[i] == s[i];
      assert s[h.next..tl.next] == s2[h.next..tl.next];
      TailMoves(d, h, s, h, s2, has66, tl, tl.next - h.next);
    } else if HasRel(d) {
      RereadRel(d, h, s, s2, has66, tl);
    } else if FieldOf(d.operands, 0).None? {
      RereadNone(d, h, s, s2, has66, tl);
    } else {
      ThreeByteField(t, KeyOf(s[..p], h), Peek(s, h.next));
      if IsImm(FieldOf(d.operands, 0).value) {
        RereadImm(d, h, s, s2, has66, tl);
      } else {
        RereadMoffset(d, h, s, s2, has66, tl);
      }
    }
  }

  // ------------------------------------------------------------ one moved instruction

  /** A signed 32-bit sum, wrapped. */
  function Add32(v: int, delta: int): int {
    Signed(v + delta, 4)
  }

  /** The instruction with `delta` added to its RIP-relative displacement and its
      four-byte relative operand. */
  function Moved(r: Decoded, delta: int): Decoded {
    r.(instr := r.instr.(
    displacement := if IsRipInstr(r) then Add32(r.instr.displacement, delta) else r.instr.displacement,
    immediate := if HasRel(r.instr.desc) then Add32(r.instr.immediate, delta) else r.instr.immediate))
  }

  lemma PatchRead(s: seq<u8>, at: nat, delta: int)
    requires at + 4 <= |s|
    ensures ReadSigned(Patch(s, at, delta), at, 4) == Add32(ReadSigned(s, at, 4), delta)
  {
    hide Le, FromLe;
    var v := ReadSigned(s, at, 4) + delta;
    assert Patch(s, at, delta)[at..at + 4] == Le(v, 4);
    FromLeOfLe(v, 4);
    ModSum(v, 0, Pow256(4));
  }

  lemma PatchAgain(s: seq<u8>, at: nat, d1: int, d2: int)
    requires at + 4 <= |s|
    ensures Patch(Patch(s, at, d1), at, d2) == Patch(s, at, d1 + d2)
  {
    hide Le, FromLe, Signed;
    PatchRead(s, at, d1);
    var v := ReadSigned(s, at, 4);
    var p := Pow256(4);
    SignedCongruent(v + d1, 4);
    ModSum(Signed(v + d1, 4), d2, p);
    ModSum(v + d1, d2, p);
    LeCongruent(Add32(v, d1) + d2, v + (d1 + d2), 4);
    assert Patch(Patch(s, at, d1), at, d2) == s[..at] + Le(Add32(v, d1) + d2, 4) + s[at + 4..];
  }

  lemma PatchZero(s: seq<u8>, at: nat)
    requires at + 4 <= |s|
    ensures Patch(s, at, 0) == s
  {
    hide Le, FromLe, Signed;
    LeOfSigned(s[at..at + 4]);
    assert s == s[..at] + s[at..at + 4] + s[at + 4..];
  }

  lemma PatchApart(s: seq<u8>, a: nat, b: nat, d1: int, d2: int)
    requires a + 4 <= b && b + 4 <= |s|
    ensures Patch(Patch(s, a, d1), b, d2) == Patch(Patch(s, b, d2), a, d1)
    ensures ReadSigned(Patch(s, b, d2), a, 4) == ReadSigned(s, a, 4)
    ensures ReadSigned(Patch(s, a, d1), b, 4) == ReadSigned(s, b, 4)
  {
    hide Le, FromLe, Signed;
    assert Patch(s, b, d2)[a..a + 4] == s[a..a + 4];
    assert Patch(s, a, d1)[b..b + 4] == s[b..b + 4];
  }

  /** The two possible rewrites of an instruction, with their places spelled out. */
  function PatchFields(s: seq<u8>, rip: Option<nat>, rel: bool, delta: int): (r: seq<u8>)
    requires |s| >= 1 && (rip.Some? ==> rip.value + 4 <= |s|) && (rel ==> |s| >= 4)
    ensures |r| == |s|
  {
    var s1 := if rip.Some? then Patch(s, rip.value, delta) else s;
    if rel then Patch(s1, |s| - 4, delta) else s1
  }

  lemma PatchFieldsAt(s: seq<u8>, rip: Option<nat>, rel: bool, delta: int, i: nat)
    requires |s| >= 1 && (rip.Some? ==> rip.value + 4 <= |s|) && (rel ==> |s| >= 4) && i < |s|
    ensures var r := PatchFields(s, rip, rel, delta);
            r[i] == s[i] || (rip.Some? && rip.value <= i < rip.value + 4) || (rel && |s| - 4 <= i)
  {
    hide Le, ReadSigned;
  }

  /** The places of the fields of a movable instruction. */
  lemma MovablePlaces(t: Table, s: seq<u8>) returns (p: nat, h: Head, d: InstrDesc, tl: Tail)
    requires Decode(t, s).Some? && Movable(t, s)
    ensures Parsed(t, s, p, h, d, tl) && MovableAs(t, s, p, h, Assemble(d, s[..p], h, tl))
            && Decode(t, s) == Some(Assemble(d, s[..p], h, tl))
    ensures p < h.next <= tl.next <= |s|
    ensures RipAt(Assemble(d, s[..p], h, tl).instr, tl.next, s[..tl.next])
            == (if IsRip(d, tl) then Some(h.next + 1) else None)
    ensures PatchesInside(Assemble(d, s[..p], h, tl).instr, tl.next, s[..tl.next])
    ensures IsRip(d, tl) ==> h.next + 5 <= tl.next && tl.disp == ReadSigned(s, h.next + 1, 4)
    ensures HasRel(d) ==> h.next <= tl.next - 4 && tl.imm == ReadSigned(s, tl.next - 4, 4)
    ensures IsRip(d, tl) && HasRel(d) ==> h.next + 5 <= tl.next - 4
    ensures d.hasModrm && HasRel(d) ==> h.next + 1 <= tl.next - 4
    ensures d.hasModrm && HasRel(d) ==> ModrmOffset(Assemble(d, s[..p], h, tl).instr) <= h.next
    ensures PatchesRel(d) <==> HasRel(d)
  {
    p, h, d, tl := DecodeSteps(t, s);
    RelIs(d);
    PlacesRewritten(t, s, p, h, d, tl);
    FieldPlaces(t, s, p, h, d, tl);
  }

  lemma ReadInFront(s: seq<u8>, rest: seq<u8>, at: nat)
    requires at + 4 <= |s|
    ensures ReadSigned(s + rest, at, 4) == ReadSigned(s, at, 4)
  {
    assert (s + rest)[at..at + 4] == s[at..at + 4];
  }

  /** What the rewritten fields hold. */
  lemma FieldsAfterPatch(s: seq<u8>, rip: Option<nat>, rel: bool, delta: int)
    requires |s| >= 1 && (rip.Some? ==> rip.value + 4 <= |s|) && (rel ==> |s| >= 4)
    requires rip.Some? && rel ==> rip.value + 4 <= |s| - 4
    ensures var r := PatchFields(s, rip, rel, delta);
            && (rip.Some? ==> ReadSigned(r, rip.value, 4) == Add32(ReadSigned(s, rip.value, 4), delta))
            && (rel ==> ReadSigned(r, |s| - 4, 4) == Add32(ReadSigned(s, |s| - 4, 4), delta))
  {
    hide ReadSigned, Patch;
    if rip.Some? {
      PatchRead(s, rip.value, delta);
    }
    if rel {
      var s1 := if rip.Some? then Patch(s, rip.value, delta) else s;
      PatchRead(s1, |s| - 4, delta);
      if rip.Some? {
        PatchApart(s, rip.value, |s| - 4, delta, delta);
        PatchApart(s1, rip.value, |s| - 4, delta, delta);
      }
    }
  }

  lemma PatchedBytes(s: seq<u8>, one: seq<u8>, rest: seq<u8>, h: Head, d: InstrDesc, tl: Tail, delta: int)
    requires h.next <= tl.next <= |s| && tl.next >= 1 && |rest| == |s| - tl.next
             && (rest != [] ==> rest[0] == s[tl.next])
    requires (IsRip(d, tl) ==> h.next + 5 <= tl.next) && (HasRel(d) ==> tl.next >= 4)
    requires one == PatchFields(s[..tl.next], if IsRip(d, tl) then Some(h.next + 1) else None, HasRel(d), delta)
    ensures SameButFields(s, one + rest, h, d, tl)
  {
    hide PatchFields, IsRip, HasRel;
    var n, rip, rel := tl.next, if IsRip(d, tl) then Some(h.next + 1) else None, HasRel(d);
    forall i | 0 <= i <= n && i < |s|
      ensures (one + rest)[i] == s[i] || (IsRip(d, tl) && h.next + 1 <= i < h.next + 5) || (rel && n - 4 <= i < n)
    {
      if i < n {
        PatchFieldsAt(s[..n], rip, rel, delta, i);
      }
    }
  }

  lemma PatchOneIs(instr: DecodedInstr, s: seq<u8>, rip: Option<nat>, delta: int)
    requires |s| >= 1 && PatchesInside(instr, |s|, s) && RipAt(instr, |s|, s) == rip
    ensures PatchOne(instr, s, delta) == PatchFields(s, rip, PatchesRel(instr.desc), delta)
  {
    hide Patch, RipAt, HasRel;
  }

  lemma MovedFields(s: seq<u8>, one: seq<u8>, rest: seq<u8>, n: nat, rip: Option<nat>, rel: bool, delta: int)
    requires 1 <= n <= |s| && (rip.Some? ==> rip.value + 4 <= n) && (rel ==> n >= 4)
    requires rip.Some? && rel ==> rip.value + 4 <= n - 4
    requires one == PatchFields(s[..n], rip, rel, delta)
    ensures rip.Some? ==> ReadSigned(one + rest, rip.value, 4) == Add32(ReadSigned(s, rip.value, 4), delta)
    ensures rel ==> ReadSigned(one + rest, n - 4, 4) == Add32(ReadSigned(s, n - 4, 4), delta)
  {
    hide ReadSigned, PatchFields;
    FieldsAfterPatch(s[..n], rip, rel, delta);
    assert s == s[..n] + s[n..];
    if rip.Some? {
      ReadInFront(one, rest, rip.value);
      ReadInFront(s[..n], s[n..], rip.value);
    }
    if rel {
      ReadInFront(one, rest, n - 4);
      ReadInFront(s[..n], s[n..], n - 4);
    }
  }

  /** A movable instruction, rewritten and followed by as many bytes starting with the
      same byte, decodes to itself with moved fields. */
  lemma MovedInstruction(t: Table, s: seq<u8>, delta: int, rest: seq<u8>)
    requires Decode(t, s).Some? && Movable(t, s)
    requires var n := Decode(t, s).value.size; |rest| == |s| - n && (rest != [] ==> rest[0] == s[n])
    ensures var r := Decode(t, s).value;
            && PatchesInside(r.instr, r.size, s[..r.size])
            && Decode(t, PatchOne(r.instr, s[..r.size], delta) + rest) == Some(Moved(r, delta))
  {
    hide Decode, Parsed, MovableAs, RipAt, PatchesInside, PatchFields, SameButFields, ReadSigned, HasRel, PatchesRel,
         PatchOne;
    var p, h, d, tl := MovablePlaces(t, s);
    var r := Decode(t, s).value;
    var n, rip := tl.next, if IsRip(d, tl) then Some(h.next + 1) else None;
    var one := PatchOne(r.instr, s[..n], delta);
    PatchOneIs(r.instr, s[..n], rip, delta);
    PatchedBytes(s, one, rest, h, d, tl, delta);
    RereadParsed(t, s, p, h, d, tl, one + rest);
    ParsedDecodes(t, one + rest, p, h, d, Reread(one + rest, h, d, tl));
    MovedFields(s, one, rest, n, rip, HasRel(d), delta);
  }

  // ------------------------------------------------------------ a moved block

  /** Every instruction of the sweep is movable. */
  ghost predicate MovableBlock(t: Table, s: seq<u8>)
    decreases |s|
  {
    s != [] && Decode(t, s).Some? ==> Movable(t, s) && MovableBlock(t, s[Decode(t, s).value.size..])
  }

  function MovedRun(run: seq<Decoded>, delta: int): (r: seq<Decoded>)
    ensures |r| == |run|
    ensures forall k :: 0 <= k < |run| ==> r[k] == Moved(run[k], delta)
  {
    if run == [] then [] else [Moved(run[0], delta)] + MovedRun(run[1..], delta)
  }

  lemma MovableStep(t: Table, s: seq<u8>)
    requires MovableBlock(t, s) && s != [] && Decode(t, s).Some?
    ensures Movable(t, s) && MovableBlock(t, s[Decode(t, s).value.size..])
  {
    hide Decode, Movable;
  }

  /** The first byte of an instruction is never rewritten. */
  lemma FirstByteKept(t: Table, s: seq<u8>, delta: int)
    requires Decode(t, s).Some? && Movable(t, s)
    ensures var r := Decode(t, s).value;
            PatchesInside(r.instr, r.size, s[..r.size]) && PatchOne(r.instr, s[..r.size], delta)[0] == s[0]
  {
    hide Decode, Parsed, MovableAs, RipAt, PatchesInside, PatchFields, ReadSigned, HasRel, PatchesRel, PatchOne;
    var p, h, d, tl := MovablePlaces(t, s);
    var rip := if IsRip(d, tl) then Some(h.next + 1) else None;
    PatchOneIs(Decode(t, s).value.instr, s[..tl.next], rip, delta);
    PatchFieldsAt(s[..tl.next], rip, HasRel(d), delta, 0);
  }

  lemma {:induction false} MovableIsPatchable(t: Table, s: seq<u8>)
    requires MovableBlock(t, s)
    ensures Patchable(Sweep(t, s).instrs, s)
    decreases |s|
  {
    hide Decode, Movable, PatchesInside;
    if s != [] {
      SweepStep(t, s);
      if Decode(t, s).Some? {
        MovableStep(t, s);
        FirstByteKept(t, s, 0);
        MovableIsPatchable(t, s[Decode(t, s).value.size..]);
      }
    }
  }

  lemma MovedSize(r: Decoded, delta: int)
    ensures Moved(r, delta).size == r.size
  {
  }

  /** The rewritten block has the same instruction boundaries, count and outcome, and
      every instruction is the old one with moved fields. */
  lemma {:induction false} BlockMoves(t: Table, s: seq<u8>, delta: int)
    requires MovableBlock(t, s)
    ensures Patchable(Sweep(t, s).instrs, s)
    ensures var s2 := Rewrite(Sweep(t, s).instrs, s, delta);
            && (s != [] ==> s2[0] == s[0])
            && Sweep(t, s2) == Run(MovedRun(Sweep(t, s).instrs, delta), Sweep(t, s).complete)
    decreases |s|
  {
    hide Decode, Movable, PatchesInside, PatchOne, Moved;
    MovableIsPatchable(t, s);
    if s != [] {
      SweepStep(t, s);
      if Decode(t, s).Some? {
        var r := Decode(t, s).value;
        var n := r.size;
        MovableStep(t, s);
        BlockMoves(t, s[n..], delta);
        var rest := Rewrite(Sweep(t, s[n..]).instrs, s[n..], delta);
        FirstByteKept(t, s, delta);
        MovedInstruction(t, s, delta, rest);
        var one := PatchOne(r.instr, s[..n], delta);
        var s2 := Rewrite(Sweep(t, s).instrs, s, delta);
        assert s2 == one + rest;
        MovedSize(r, delta);
        SweepStep(t, s2);
        assert s2[n..] == rest;
      }
    }
  }

  // ------------------------------------------------------------ moving twice

  lemma PatchFieldsAgain(s: seq<u8>, rip: Option<nat>, rel: bool, d1: int, d2: int)
    requires |s| >= 1 && (rip.Some? ==> rip.value + 4 <= |s|) && (rel ==> |s| >= 4)
    requires rip.Some? && rel ==> rip.value + 4 <= |s| - 4
    ensures PatchFields(PatchFields(s, rip, rel, d1), rip, rel, d2) == PatchFields(s, rip, rel, d1 + d2)
  {
    hide Patch, ReadSigned;
    var e := |s| - 4;
    if rip.Some? && rel {
      var s1 := Patch(s, rip.value, d1);
      PatchApart(s1, rip.value, e, d2, d1);
      PatchAgain(s, rip.value, d1, d2);
      PatchAgain(Patch(s, rip.value, d1 + d2), e, d1, d2);
    } else if rip.Some? {
      PatchAgain(s, rip.value, d1, d2);
    } else if rel {
      PatchAgain(s, e, d1, d2);
    }
  }

  lemma SameOffset(r: Decoded, delta: int)
    ensures ModrmOffset(Moved(r, delta).instr) == ModrmOffset(r.instr) && Moved(r, delta).instr.desc == r.instr.desc
  {
  }

  /** Rewriting an instruction twice is rewriting it once by the sum. */
  lemma MovedTwice(t: Table, s: seq<u8>, d1: int, d2: int)
    requires Decode(t, s).Some? && Movable(t, s)
    ensures var r := Decode(t, s).value;
            && PatchesInside(r.instr, r.size, s[..r.size])
            && var one := PatchOne(r.instr, s[..r.size], d1);
               && PatchesInside(Moved(r, d1).instr, r.size, one)
               && PatchOne(Moved(r, d1).instr, one, d2) == PatchOne(r.instr, s[..r.size], d1 + d2)
  {
    hide Decode, Parsed, MovableAs, PatchFields, ReadSigned, HasRel, PatchesRel, PatchOne, ModrmOffset, Add32;
    var p, h, d, tl := MovablePlaces(t, s);
    var r := Decode(t, s).value;
    var n, rip, rel := tl.next, if IsRip(d, tl) then Some(h.next + 1) else None, HasRel(d);
    var one := PatchOne(r.instr, s[..n], d1);
    PatchOneIs(r.instr, s[..n], rip, d1);
    PatchOneIs(r.instr, s[..n], rip, d1 + d2);
    SameOffset(r, d1);
    var m := ModrmOffset(r.instr);
    if d.hasModrm && m < n {
      PatchFieldsAt(s[..n], rip, rel, d1, m);
    }
    PatchOneIs(Moved(r, d1).instr, one, rip, d2);
    PatchFieldsAgain(s[..n], rip, rel, d1, d2);
  }

  lemma {:induction false} BlockTwice(t: Table, s: seq<u8>, d1: int, d2: int)
    requires MovableBlock(t, s)
    ensures var run := Sweep(t, s).instrs;
            && Patchable(run, s) && Patchable(MovedRun(run, d1), Rewrite(run, s, d1))
            && Rewrite(MovedRun(run, d1), Rewrite(run, s, d1), d2) == Rewrite(run, s, d1 + d2)
    decreases |s|
  {
    hide Decode, Movable, PatchesInside, PatchOne, Moved;
    MovableIsPatchable(t, s);
    var run := Sweep(t, s).instrs;
    if s != [] {
      SweepStep(t, s);
      if Decode(t, s).Some? {
        var r := Decode(t, s).value;
        var n := r.size;
        MovableStep(t, s);
        BlockTwice(t, s[n..], d1, d2);
        MovedTwice(t, s, d1, d2);
        MovedSize(r, d1);
        var one, rest := PatchOne(r.instr, s[..n], d1), Rewrite(run[1..], s[n..], d1);
        var s2, run2 := Rewrite(run, s, d1), MovedRun(run, d1);
        assert run == [r] + Sweep(t, s[n..]).instrs && run[1..] == Sweep(t, s[n..]).instrs;
        assert s2 == one + rest && s2[..n] == one && s2[n..] == rest;
        assert run2[0] == Moved(r, d1) && run2[1..] == MovedRun(run[1..], d1);
        RewriteStep(run2, s2, d2);
        RewriteStep(run, s, d1 + d2);
      }
    }
  }

  lemma PatchNothing(instr: DecodedInstr, s: seq<u8>)
    requires PatchesInside(instr, |s|, s)
    ensures PatchOne(instr, s, 0) == s
  {
    hide Patch;
    var rip := RipAt(instr, |s|, s);
    if rip.Some? {
      PatchZero(s, rip.value);
    }
    if PatchesRel(instr.desc) {
      PatchZero(s, |s| - 4);
    }
  }

  /** Moving by nothing changes nothing. */
  lemma {:induction false} RewriteNothing(run: seq<Decoded>, s: seq<u8>)
    requires Patchable(run, s)
    ensures Rewrite(run, s, 0) == s
  {
    hide PatchesInside, PatchOne;
    if run != [] {
      var n := run[0].size;
      RewriteStep(run, s, 0);
      RewriteNothing(run[1..], s[n..]);
      PatchNothing(run[0].instr, s[..n]);
      assert s == s[..n] + s[n..];
    }
  }

  /** The bytes of a block copied from `src` and relocated to `dst`. */
  function MoveBytes(t: Table, s: seq<u8>, src: u64, dst: u64): seq<u8>
    requires Patchable(Sweep(t, s).instrs, s)
  {
    Rewrite(Sweep(t, s).instrs, s, src - dst)
  }

  /** Moving from a to b to c is moving from a to c, and moving back restores every
      byte; no distance is too far. */
  lemma MovesCompose(t: Table, s: seq<u8>, a: u64, b: u64, c: u64)
    requires MovableBlock(t, s)
    ensures Patchable(Sweep(t, s).instrs, s)
    ensures var s2 := MoveBytes(t, s, a, b);
            && Patchable(Sweep(t, s2).instrs, s2)
            && MoveBytes(t, s2, b, c) == MoveBytes(t, s, a, c)
            && MoveBytes(t, s2, b, a) == s
  {
    hide Decode, Movable, PatchesInside, PatchOne, Moved, Patchable, Rewrite, MovableBlock, Sweep, MovedRun;
    BlockMoves(t, s, a - b);
    BlockTwice(t, s, a - b, b - c);
    BlockTwice(t, s, a - b, b - a);
    RewriteNothing(Sweep(t, s).instrs, s);
  }

  // ------------------------------------------------------------ targets

  /** What a RIP-relative operand names; an address-size prefix leaves 32 bits of it. */
  function RipTarget(addr: int, r: Decoded, addr32: bool): u64 {
    (addr + r.size + r.instr.displacement) % (if addr32 then W32 else W64)
  }

  function RelTarget(addr: int, r: Decoded): u64 {
    (addr + r.size + r.instr.immediate) % W64
  }

  /** The new offset, as a signed 64-bit number, fits into 32 bits. */
  predicate Fits32(v: int, delta: int) {
    -0x8000_0000 <= Signed(v + delta, 8) < 0x8000_0000
  }

  lemma SameRemainder(a: int, b: int, m: int)
    requires m > 0
    ensures a % m == b % m <==> (a - b) % m == 0
  {
    ModShift(a - b, m, b / m);
    assert a - b + m * (b / m) == a - b % m;
    if a % m == b % m {
      ModShift(0, m, a / m);
      assert a - b % m == 0 + m * (a / m);
      ModShift(0, m, a / m - b / m);
      assert a - b == 0 + m * (a / m - b / m) by {
        assert m * (a / m - b / m) == m * (a / m) - m * (b / m);
      }
    } else if (a - b) % m == 0 {
      var k := (a - b) / m;
      assert a == b + m * k;
      ModShift(b, m, k);
    }
  }

  lemma SmallRemainder(a: u64, b: u64)
    ensures (a - b) % W64 == 0 <==> a == b
  {
  }

  /** Otherwise, if nothing is rewritten at all, the operand keeps its target only where it
      stands, or with an address-size prefix at distances that are multiples of 2^32. */
  lemma RipSkipped(r: Decoded, s: seq<u8>, src: u64, dst: u64, o: nat)
    requires r.size == |s| && PatchesInside(r.instr, r.size, s) && RipAt(r.instr, r.size, s).None?
             && !HasRel(r.instr.desc)
    ensures PatchOne(r.instr, s, src - dst) == s
    ensures RipTarget(dst + o, r, false) == RipTarget(src + o, r, false) <==> src == dst
    ensures RipTarget(dst + o, r, true) == RipTarget(src + o, r, true) <==> (dst - src) % W32 == 0
  {
    PatchesHas(r.instr.desc);
    SameRemainder(dst + o + r.size + r.instr.displacement, src + o + r.size + r.instr.displacement, W64);
    SameRemainder(dst + o + r.size + r.instr.displacement, src + o + r.size + r.instr.displacement, W32);
    SmallRemainder(dst, src);
  }

  /** A number in the signed range is its own signed reading. */
  lemma SignedOf(x: int, n: nat)
    requires n > 0 && -Pow256(n) <= 2 * x < Pow256(n)
    ensures Signed(x, n) == x
  {
    var p := Pow256(n);
    if x < 0 {
      ModUnique(x, p, -1, x + p);
    } else {
      ModUnique(x, p, 0, x);
    }
  }

  /** Wrapping to 32 bits keeps a number modulo 2^64 exactly when it fits. */
  lemma WrapKeeps(x: int)
    ensures Signed(x, 4) % W64 == x % W64 <==> -0x8000_0000 <= Signed(x, 8) < 0x8000_0000
  {
    Pow256Values();
    var a, y := Signed(x, 4), Signed(x, 8);
    SignedCongruent(x, 4);
    SignedCongruent(x, 8);
    if -0x8000_0000 <= y < 0x8000_0000 {
      SignedOf(y, 4);
      SameRemainder(y, x, W64);
      var k := (y - x) / W64;
      assert y == x + W32 * (W32 * k);
      ModShift(x, W32, W32 * k);
      assert y % W32 == x % W32;
      assert Signed(y, 4) == Signed(x, 4);
    }
    if a % W64 == x % W64 {
      SignedOf(a, 8);
      assert Signed(a, 8) == Signed(x, 8);
    }
  }

  /** A wrapped offset at the new address reaches the old target if and only if the
      exact new offset fits into 32 bits. */
  lemma TargetKept(v: int, src: u64, dst: u64, end: int)
    ensures (dst + end + Add32(v, src - dst)) % W64 == (src + end + v) % W64 <==> Fits32(v, src - dst)
  {
    hide Signed;
    var x := v + (src - dst);
    WrapKeeps(x);
    SameRemainder(dst + end + Add32(v, src - dst), src + end + v, W64);
    SameRemainder(Signed(x, 4), x, W64);
  }

  /** Its low 32 bits always reach the old target. */
  lemma LowTargetKept(v: int, src: u64, dst: u64, end: int)
    ensures (dst + end + Add32(v, src - dst)) % W32 == (src + end + v) % W32
  {
    hide Signed;
    Pow256Values();
    SignedCongruent(v + (src - dst), 4);
    SameRemainder(Add32(v, src - dst), v + (src - dst), W32);
    SameRemainder(dst + end + Add32(v, src - dst), src + end + v, W32);
  }

  lemma {:induction false} OffsetsKept(run: seq<Decoded>, delta: int, k: nat)
    requires k <= |run|
    ensures OffsetOf(MovedRun(run, delta), k) == OffsetOf(run, k)
  {
    hide Moved;
    if k > 0 {
      MovedSize(run[0], delta);
      assert MovedRun(run, delta)[1..] == MovedRun(run[1..], delta);
      OffsetsKept(run[1..], delta, k - 1);
    }
  }

  /** `y` at `dst` is `x` at `src`: each RIP-relative operand and each four-byte
      relative operand reaches its old target if and only if the new offset fits into
      32 bits, and a one-byte relative operand only without moving. With an address-size
      prefix a RIP-relative operand always does. */
  predicate TargetsKept(x: Decoded, src: u64, y: Decoded, dst: u64, o: nat) {
    && y.size == x.size && y.instr.desc == x.instr.desc
    && (IsRipInstr(x) ==>
          && (RipTarget(dst + o, y, false) == RipTarget(src + o, x, false)
              <==> Fits32(x.instr.displacement, src - dst))
          && RipTarget(dst + o, y, true) == RipTarget(src + o, x, true))
    && (HasRel(x.instr.desc) ==>
        (RelTarget(dst + o, y) == RelTarget(src + o, x) <==> Fits32(x.instr.immediate, src - dst)))
    && (!HasRel(x.instr.desc) ==> (RelTarget(dst + o, y) == RelTarget(src + o, x) <==> src == dst))
  }

  lemma MovedTargets(x: Decoded, src: u64, dst: u64, o: nat)
    ensures TargetsKept(x, src, Moved(x, src - dst), dst, o)
  {
    hide Add32, Fits32, HasRel, IsRipInstr;
    TargetKept(x.instr.displacement, src, dst, o + x.size);
    LowTargetKept(x.instr.displacement, src, dst, o + x.size);
    TargetKept(x.instr.immediate, src, dst, o + x.size);
    SameRemainder(dst + o + x.size + x.instr.immediate, src + o + x.size + x.instr.immediate, W64);
  }

  /** Relocation preserves meaning: the moved block is swept to its end if the original
      is, with the same number of instructions at the same offsets and the targets
      kept instruction by instruction. */
  lemma MovedBlockTargets(t: Table, s: seq<u8>, src: u64, dst: u64, k: nat)
    requires MovableBlock(t, s) && k < |Sweep(t, s).instrs|
    ensures Patchable(Sweep(t, s).instrs, s)
    ensures var old_, new_ := Sweep(t, s), Sweep(t, MoveBytes(t, s, src, dst));
            && new_.complete == old_.complete && |new_.instrs| == |old_.instrs|
            && OffsetOf(new_.instrs, k) == OffsetOf(old_.instrs, k)
            && TargetsKept(old_.instrs[k], src, new_.instrs[k], dst, OffsetOf(old_.instrs, k))
  {
    hide Decode, Movable, PatchesInside, PatchOne, Sweep, Rewrite, Patchable, TargetsKept, Moved;
    BlockMoves(t, s, src - dst);
    var run := Sweep(t, s).instrs;
    OffsetsKept(run, src - dst, k);
    MovedTargets(run[k], src, dst, OffsetOf(run, k));
  }

  // ------------------------------------------------------------ untouched bytes

  /** Byte `i` of `s` lies in a rewritten field of an instruction of the sweep. */
  predicate InField(run: seq<Decoded>, s: seq<u8>, i: nat) {
    run != [] && run[0].size <= |s| &&
    var n := run[0].size;
    if i < n then
      var rip := RipAt(run[0].instr, n, s[..n]);
      (rip.Some? && rip.value <= i < rip.value + 4) || (HasRel(run[0].instr.desc) && n - 4 <= i)
    else InField(run[1..], s[n..], i - n)
  }

  lemma PatchInsideFacts(instr: DecodedInstr, s: seq<u8>)
    requires PatchesInside(instr, |s|, s)
    ensures RipAt(instr, |s|, s).Some? ==> RipAt(instr, |s|, s).value + 4 <= |s|
    ensures PatchesRel(instr.desc) ==> |s| >= 4
  {
    hide RipAt, PatchesRel;
  }

  lemma {:induction false} OtherBytesKept(run: seq<Decoded>, s: seq<u8>, delta: int, i: nat)
    requires Patchable(run, s) && i < |s|
    ensures Rewrite(run, s, delta)[i] == s[i] || InField(run, s, i)
  {
    hide PatchesInside, PatchOne, RipAt, PatchesRel, HasRel;
    if run != [] {
      var n := run[0].size;
      RewriteStep(run, s, delta);
      if i < n {
        var rip := RipAt(run[0].instr, n, s[..n]);
        PatchesHas(run[0].instr.desc);
        PatchInsideFacts(run[0].instr, s[..n]);
        PatchOneIs(run[0].instr, s[..n], rip, delta);
        PatchFieldsAt(s[..n], rip, PatchesRel(run[0].instr.desc), delta, i);
      } else {
        OtherBytesKept(run[1..], s[n..], delta, i - n);
      }
    }
  }
}
