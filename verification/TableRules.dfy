/** Rules for the instruction table that can be checked entry by entry, and what they
    buy: a choice of entry that does not depend on bytes outside the instruction. */
module TableRules {
  import opened Words
  import opened InstrTable
  import opened Decoder
  import opened RoundTrip
  import opened Locality
  import opened Relocation
  import opened Moving

  /** The filters on the byte after the opcode let `e` pass, whatever it is. */
  predicate Indifferent(e: InstrDesc) {
    e.opcdExt == 0xFF && e.secOpcd == 0xFF && e.modFilter == 0
    && forall o <- e.operands :: o.addr != MemOnly && !RegisterOnly(o.addr)
  }

  /** Both entries can compete for one opcode byte, `d` perhaps as a register form. */
  predicate Overlap(d: InstrDesc, e: InstrDesc) {
    var a, b := ByteOf(d.opcode, d.secOpcd), ByteOf(e.opcode, e.secOpcd);
    MapOf(d.opcode) == MapOf(e.opcode) && (a == b || (HasOpcodeReg(d) && a == b / 8 * 8))
  }

  /** The entry competes only with entries that do not look at the next byte. */
  predicate Alone(t: Table, d: InstrDesc) {
    MapOf(d.opcode) < 2 && forall e <- t :: Overlap(d, e) ==> Indifferent(e)
  }

  /** Three-byte entries take a ModRM byte and 0F3A entries declare their immediate; an
      entry without ModRM stands alone. */
  predicate WellFormed(t: Table) {
    && (forall d <- t :: MapOf(d.opcode) >= 2 ==> d.hasModrm && (d.opcode == 0x0F3A ==> HasAddr(d, Immediate)))
    && (forall d <- t :: !d.hasModrm ==> Alone(t, d))
  }

  /** All entries of the slot of an opcode let the next byte pass. */
  predicate SlotIndifferent(t: Table, opcode: u16) {
    forall e <- t :: InSlot(e, MapOf(opcode), opcode % 0x100) ==> Indifferent(e)
  }

  lemma AcceptsSame(e: InstrDesc, q: Query, r: Query)
    requires Indifferent(e) && r == q.(reg := r.reg, sec := r.sec, mod := r.mod)
    ensures Accepts(e, q) == Accepts(e, r)
  {
    hide HasVexOperand;
  }

  lemma PicksSame(e: InstrDesc, q: Query, r: Query, g: Goal)
    requires MapOf(q.opcode) < 2 && (InSlot(e, MapOf(q.opcode), q.opcode % 0x100) ==> Indifferent(e))
    requires r == q.(reg := r.reg, sec := r.sec, mod := r.mod)
    ensures Picks(e, q, g) == Picks(e, r, g)
  {
    hide Accepts, HasVexOperand, HasOpcodeReg, MapOf, Indifferent;
    if InSlot(e, MapOf(q.opcode), q.opcode % 0x100) {
      AcceptsSame(e, q, r);
    }
  }

  lemma {:induction false} FirstSame(t: Table, q: Query, r: Query, g: Goal, i: nat)
    requires i <= |t| && MapOf(q.opcode) < 2 && SlotIndifferent(t, q.opcode)
    requires r == q.(reg := r.reg, sec := r.sec, mod := r.mod)
    ensures First(t, q, g, i) == First(t, r, g, i)
    decreases |t| - i
  {
    hide Picks, Indifferent, InSlot, MapOf;
    if i < |t| {
      assert t[i] in t;
      PicksSame(t[i], q, r, g);
      FirstSame(t, q, r, g, i + 1);
    }
  }

  lemma LookupSame(t: Table, q: Query, r: Query)
    requires MapOf(q.opcode) < 2 && SlotIndifferent(t, q.opcode)
    requires r == q.(reg := r.reg, sec := r.sec, mod := r.mod)
    ensures Lookup(t, q) == Lookup(t, r)
  {
    hide First, SlotIndifferent, MapOf;
    FirstSame(t, q, r, EvexVvvv, 0);
    FirstSame(t, q, r, Exact, 0);
    FirstSame(t, q, r, NoPrefix, 0);
    FirstSame(t, q, r, RegExact, 0);
    FirstSame(t, q, r, RegNoPrefix, 0);
  }

  lemma ChooseSame(t: Table, k: Key, x: u8, y: u8)
    requires MapOf(k.opcode) < 2 && SlotIndifferent(t, k.opcode)
    ensures Choose(t, k, x) == Choose(t, k, y)
  {
    hide Lookup, SlotIndifferent, MapOf;
    LookupSame(t, QueryOf(k, k.mandatory, SecOf(k, x), x), QueryOf(k, k.mandatory, SecOf(k, y), y));
    LookupSame(t, QueryOf(k, k.mandatory, 0xFF, x), QueryOf(k, k.mandatory, 0xFF, y));
    LookupSame(t, QueryOf(k, 0, 0xFF, x), QueryOf(k, 0, 0xFF, y));
  }

  /** Where an entry that stands alone is chosen, nothing looks at the next byte. */
  lemma SlotOfAlone(t: Table, k: Key, x: u8)
    requires Choose(t, k, x).Some? && Alone(t, Choose(t, k, x).value)
    ensures MapOf(k.opcode) < 2 && SlotIndifferent(t, k.opcode)
  {
    hide Choose, Indifferent, HasOpcodeReg;
    ChosenFacts(t, k, x);
    var d := Choose(t, k, x).value;
    forall e | e in t && InSlot(e, MapOf(k.opcode), k.opcode % 0x100)
      ensures Indifferent(e)
    {
      assert Overlap(d, e);
    }
  }

  /** The choice of an entry that stands alone does not depend on the byte after the
      opcode. */
  lemma ChoiceIsStable(t: Table, k: Key, x: u8, y: u8)
    requires Choose(t, k, x).Some? && Alone(t, Choose(t, k, x).value)
    ensures Choose(t, k, y) == Choose(t, k, x)
  {
    hide Choose, Alone, SlotIndifferent;
    SlotOfAlone(t, k, x);
    ChooseSame(t, k, x, y);
  }

  /** Over a well-formed table that is every chosen entry without ModRM byte. */
  lemma ChosenAlone(t: Table, k: Key, x: u8)
    requires WellFormed(t) && Choose(t, k, x).Some? && !Choose(t, k, x).value.hasModrm
    ensures Alone(t, Choose(t, k, x).value)
  {
    hide Choose, Alone;
    ChosenFacts(t, k, x);
  }

  lemma ChosenDeclares(t: Table, k: Key, x: u8)
    requires WellFormed(t) && Choose(t, k, x).Some?
    ensures NoImplicit(Choose(t, k, x).value, k.opcode)
  {
    hide Choose, HasAddr, Overlap, Indifferent;
    ChosenFacts(t, k, x);
  }

  lemma EmptyHasNoModrm(d: InstrDesc)
    requires BodyEmpty(d)
    ensures !d.hasModrm
  {
  }

  /** A well-formed table is free of lookahead, so its encodings form a prefix code. */
  lemma WellFormedIsFree(t: Table)
    requires WellFormed(t)
    ensures LookaheadFree(t) && PrefixStable(t)
  {
    hide WellFormed, Choose, KeyOf, Decode, ParseHead, BodyEmpty, NoImplicit;
    forall text, p, h, x: u8, y: u8 | Spelled(text, p, h) && Choose(t, KeyOf(text[..p], h), x).Some?
      ensures var d := Choose(t, KeyOf(text[..p], h), x).value;
              && (BodyEmpty(d) ==> Choose(t, KeyOf(text[..p], h), y) == Some(d))
              && NoImplicit(d, h.opcode)
    {
      var k := KeyOf(text[..p], h);
      KeyOpcode(text[..p], h);
      ChosenDeclares(t, k, x);
      if BodyEmpty(Choose(t, k, x).value) {
        EmptyHasNoModrm(Choose(t, k, x).value);
        ChosenAlone(t, k, x);
        ChoiceIsStable(t, k, x, y);
      }
    }
    forall c1, c2 | Decode(t, c1).Some? && Decode(t, c1).value.size <= |c2|
                    && c2[..Decode(t, c1).value.size] == c1[..Decode(t, c1).value.size]
      ensures Decode(t, c2) == Decode(t, c1)
    {
      LookaheadFreeIsStable(t, c1, c2);
    }
  }

  lemma ModrmByte(d: InstrDesc, h: Head, s: seq<u8>, has66: bool, tl: Tail)
    requires h.next <= |s| && Regular(d) && ParseTail(d, h, s, has66) == Some(tl) && d.hasModrm
    ensures h.next < tl.next <= |s| && s[h.next] == tl.modrm
  {
    TailPlaces(d, h, s, has66, tl);
  }

  lemma RegularSpells(d: InstrDesc)
    requires Regular(d)
    ensures Spellable(d)
  {
  }

  lemma CountedIsFound(t: Table, s: seq<u8>, p: nat, h: Head, d: InstrDesc, tl: Tail)
    requires Parsed(t, s, p, h, d, tl) && Regular(d)
    requires d.hasModrm ==> Overcount(s[p], h) == p - Min(p, 4)
    ensures tl.next <= |s| && RipFound(s, h, Assemble(d, s[..p], h, tl))
    ensures d.hasModrm ==> ModrmOffset(Assemble(d, s[..p], h, tl).instr) == h.next
  {
    hide Choose, Regular, ParseTail, ParseHead, ModrmOffset, Overcount, Spellable, OneField;
    RegularSpells(d);
    ModrmOffsetIs(t, s, p, h, d, tl);
    if d.hasModrm {
      ModrmByte(d, h, s, Has66(s, p, h), tl);
    }
  }

  /** The relative operand, if rewritten, takes four bytes, and without a ModRM byte the
      entry stands alone. */
  predicate RelRules(t: Table, d: InstrDesc, has66: bool, rexW: bool) {
    HasRel(d) ==> RelWidth(d, has66, rexW, 4) && (!d.hasModrm ==> Alone(t, d))
  }

  /** An instruction of a regular entry relocates if its relative operand keeps the rules
      and its ModRM byte is where the code looks for it. */
  lemma FoundIsMovable(t: Table, s: seq<u8>)
    requires Decode(t, s).Some? && Regular(Decode(t, s).value.instr.desc)
    requires var p, i := PrefixEnd(s, 0), Decode(t, s).value.instr;
             var h := ParseHead(s, p).value;
             && (i.desc.hasModrm ==> Overcount(s[p], h) == p - Min(p, 4))
             && RelRules(t, i.desc, Has66(s, p, h), Bit(i.enc.rex, 8))
    ensures Movable(t, s)
  {
    hide Alone, Choose, Regular, ParseTail, RelWidth, ModrmOffset, Overcount, RipFound, Spellable, OneField;
    var p, h, d, tl := DecodeSteps(t, s);
    CountedIsFound(t, s, p, h, d, tl);
    if HasRel(d) && !d.hasModrm {
      forall y: u8
        ensures Choose(t, KeyOf(s[..p], h), y) == Some(d)
      {
        ChoiceIsStable(t, KeyOf(s[..p], h), Peek(s, h.next), y);
      }
    }
  }

  /** So do legacy and REX forms with at most four prefixes. */
  lemma LegacyIsMovable(t: Table, s: seq<u8>)
    requires Decode(t, s).Some? && Regular(Decode(t, s).value.instr.desc)
    requires var i := Decode(t, s).value.instr;
             && !i.enc.hasVex && !i.enc.hasRex2 && PrefixEnd(s, 0) <= 4
             && RelRules(t, i.desc, 0x66 in i.legacyPrefix, Bit(i.enc.rex, 8))
    ensures Movable(t, s)
  {
    hide Alone, Choose, Regular, ParseTail, RelRules, Movable, HasRel;
    var p, h, d, tl := DecodeSteps(t, s);
    HeadKinds(s, p, h);
    assert s[..p][..Min(p, 4)] == s[..p];
    FoundIsMovable(t, s);
  }
}
