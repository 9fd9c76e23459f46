/** Which of several table entries an opcode selects, by the order of the table and the
    fields of the entries alone. */
module TableOrder {
  import opened Words
  import opened InstrTable
  import opened Decoder
  import opened RoundTrip

  predicate HasOperand(d: InstrDesc, a: AddrMode) {
    exists k :: 0 <= k < |d.operands| && d.operands[k].addr == a
  }

  predicate TwoBytes(opcode: u16) {
    opcode / 0x100 == 0x0F
  }

  predicate ThreeBytes(opcode: u16) {
    opcode == 0x0F38 || opcode == 0x0F3A
  }

  /** The entry has that opcode: with a third byte, that byte too, which may not be FF. */
  predicate SameOpcode(d: InstrDesc, opcode: u16, sec: u8) {
    if ThreeBytes(opcode) then d.opcode == opcode && d.secOpcd == sec && sec != 0xFF
    else
      !ThreeBytes(d.opcode) && TwoBytes(d.opcode) == TwoBytes(opcode) && d.opcode % 0x100 == opcode % 0x100
  }

  /** The ModRM byte fits: its register field is the opcode extension, and its mode is one
      that the entry and its operands allow. */
  predicate FitsModrm(d: InstrDesc, reg: int, mod: int) {
    && (d.opcdExt == 0xFF || d.opcdExt == reg)
    && (mod == 3 ==> d.modFilter != 1 && !HasOperand(d, MemOnly))
    && (mod != 3 ==> d.modFilter != -1 && !HasOperand(d, RegOnly) && !HasOperand(d, XmmRegOnly)
                     && !HasOperand(d, MmxRegOnly))
  }

  /** The entry can be encoded that way: with VEX or EVEX its W bit fits, and without them it
      has no operand and no name that needs them. */
  predicate FitsForm(d: InstrDesc, q: Query) {
    && (q.isVex || q.isEvex ==> d.vexW != if q.vexW then -1 else 1)
    && (!q.isVex && !q.isEvex ==> !HasOperand(d, VexReg) && !HasOperand(d, XmmVvvv) && !d.vexForm)
    && (q.isVex && !q.isEvex ==> !d.evexForm)
  }

  /** How good an entry is for a query: first one with the mandatory prefix and, under EVEX,
      a second source; then one with the prefix; then one without a prefix; then, in the one-
      and two-byte maps, the same two among the entries with a register in the opcode byte;
      5 if it is none of these. */
  function Rank(d: InstrDesc, q: Query): nat {
    if SameOpcode(d, q.opcode, q.sec) && FitsModrm(d, q.reg, q.mod) && (d.secOpcd == 0xFF || d.secOpcd == q.sec)
      && FitsForm(d, q) && (d.prefix == q.prefix || d.prefix == 0)
    then
      if d.prefix != q.prefix then 2
      else if q.isEvex && (HasOperand(d, VexReg) || HasOperand(d, XmmVvvv)) then 0
      else 1
    else if !ThreeBytes(q.opcode) && !ThreeBytes(q.opcode / 8 * 8) && SameOpcode(d, q.opcode / 8 * 8, q.sec)
      && HasOperand(d, OpcodeReg) && (d.prefix == q.prefix || d.prefix == 0)
    then if d.prefix == q.prefix then 3 else 4
    else 5
  }

  lemma OperandIs(d: InstrDesc, a: AddrMode)
    ensures HasAddr(d, a) <==> HasOperand(d, a)
  {
  }

  /** Clearing the low three bits of an opcode clears those of its last byte. */
  lemma Octave(opcode: u16)
    ensures opcode / 8 * 8 / 0x100 == opcode / 0x100 && opcode / 8 * 8 % 0x100 == opcode % 0x100 / 8 * 8
    ensures TwoBytes(opcode / 8 * 8) <==> TwoBytes(opcode)
  {
    var high, low := opcode / 0x100, opcode % 0x100;
    assert opcode / 8 == high * 32 + low / 8;
  }

  /** The map and the byte of an opcode without a third byte. */
  lemma PlaceOf(opcode: u16, sec: u8)
    ensures ThreeBytes(opcode) <==> MapOf(opcode) >= 2
    ensures ThreeBytes(opcode) <==> TwoBytes(opcode) && opcode % 0x100 in {0x38, 0x3A}
    ensures !ThreeBytes(opcode) ==> MapOf(opcode) == (if TwoBytes(opcode) then 1 else 0)
                                    && ByteOf(opcode, sec) == opcode % 0x100
    ensures ThreeBytes(opcode) ==> MapOf(opcode) == (if opcode == 0x0F38 then 2 else 3) && ByteOf(opcode, sec) == sec
  {
  }

  lemma SlotIs(d: InstrDesc, opcode: u16, sec: u8)
    ensures InSlot(d, MapOf(opcode), ByteOf(opcode, sec)) <==> SameOpcode(d, opcode, sec)
    ensures !ThreeBytes(opcode) ==>
              (InSlot(d, MapOf(opcode), ByteOf(opcode, sec) / 8 * 8)
               <==> !ThreeBytes(opcode / 8 * 8) && SameOpcode(d, opcode / 8 * 8, sec))
  {
    hide MapOf, ByteOf, TwoBytes;
    PlaceOf(opcode, sec);
    PlaceOf(d.opcode, d.secOpcd);
    PlaceOf(opcode / 8 * 8, sec);
    Octave(opcode);
  }

  lemma AcceptsIs(d: InstrDesc, q: Query)
    ensures Accepts(d, q) <==>
              FitsModrm(d, q.reg, q.mod) && (d.secOpcd == 0xFF || d.secOpcd == q.sec) && FitsForm(d, q)
  {
    hide HasAddr;
    OperandIs(d, VexReg);
    OperandIs(d, XmmVvvv);
  }

  /** The goals of the walks in terms of ranks. */
  lemma PicksRank(d: InstrDesc, q: Query)
    ensures Picks(d, q, EvexVvvv) <==> Rank(d, q) == 0
    ensures Picks(d, q, Exact) <==> Rank(d, q) <= 1
    ensures Rank(d, q) > 1 ==> (Picks(d, q, NoPrefix) <==> Rank(d, q) == 2)
    ensures !ThreeBytes(q.opcode) && Rank(d, q) > 2 ==> (Picks(d, q, RegExact) <==> Rank(d, q) == 3)
    ensures !ThreeBytes(q.opcode) && Rank(d, q) > 3 ==> (Picks(d, q, RegNoPrefix) <==> Rank(d, q) == 4)
    ensures ThreeBytes(q.opcode) ==> Rank(d, q) in {0, 1, 2, 5}
    ensures Rank(d, q) <= 5
  {
    hide HasAddr, HasOperand, InSlot, SameOpcode, Accepts, FitsModrm, FitsForm, MapOf, ByteOf;
    OperandIs(d, OpcodeReg);
    OperandIs(d, VexReg);
    OperandIs(d, XmmVvvv);
    SlotIs(d, q.opcode, q.sec);
    AcceptsIs(d, q);
  }

  lemma {:induction false} FirstIndex(t: Table, q: Query, g: Goal, i: nat) returns (k: nat)
    requires i <= |t|
    ensures var r := First(t, q, g, i);
            && (r.None? ==> forall j :: i <= j < |t| ==> !Picks(t[j], q, g))
            && (r.Some? ==> i <= k < |t| && t[k] == r.value && Picks(t[k], q, g)
                            && forall j :: i <= j < k ==> !Picks(t[j], q, g))
    decreases |t| - i
  {
    hide Picks;
    k := i;
    if i < |t| && !Picks(t[i], q, g) {
      k := FirstIndex(t, q, g, i + 1);
    }
  }

  /** The entry at `k` is the first of the best ones. */
  predicate IsBest(t: Table, q: Query, k: nat) {
    && k < |t| && Rank(t[k], q) < 5
    && forall j :: 0 <= j < |t| ==> Rank(t[j], q) >= Rank(t[k], q) && (j < k ==> Rank(t[j], q) > Rank(t[k], q))
  }

  lemma FirstIsBest(t: Table, q: Query, g: Goal, n: nat)
    requires n < 5 && forall j :: 0 <= j < |t| ==> Rank(t[j], q) >= n && (Picks(t[j], q, g) <==> Rank(t[j], q) == n)
    ensures var r := First(t, q, g, 0);
            && (r.None? ==> forall j :: 0 <= j < |t| ==> Rank(t[j], q) > n)
            && (r.Some? ==> exists k: nat :: IsBest(t, q, k) && t[k] == r.value)
  {
    hide Picks, Rank;
    var k := FirstIndex(t, q, g, 0);
    if First(t, q, g, 0).Some? {
      assert IsBest(t, q, k);
    }
  }

  /** A lookup selects the first of the best entries, and nothing only if no entry comes into
      question. */
  lemma LookupIsBest(t: Table, q: Query)
    ensures var r := Lookup(t, q);
            && (r.None? <==> forall j :: 0 <= j < |t| ==> Rank(t[j], q) == 5)
            && (r.Some? ==> exists k: nat :: IsBest(t, q, k) && t[k] == r.value)
  {
    hide First, Rank, Picks;
    forall j | 0 <= j < |t|
      ensures var d := t[j];
              && (Picks(d, q, EvexVvvv) <==> Rank(d, q) == 0) && (Picks(d, q, Exact) <==> Rank(d, q) <= 1)
              && (Rank(d, q) > 1 ==> (Picks(d, q, NoPrefix) <==> Rank(d, q) == 2))
              && (!ThreeBytes(q.opcode) && Rank(d, q) > 2 ==> (Picks(d, q, RegExact) <==> Rank(d, q) == 3))
              && (!ThreeBytes(q.opcode) && Rank(d, q) > 3 ==> (Picks(d, q, RegNoPrefix) <==> Rank(d, q) == 4))
              && (ThreeBytes(q.opcode) ==> Rank(d, q) in {0, 1, 2, 5}) && Rank(d, q) <= 5
    {
      PicksRank(t[j], q);
    }
    FirstIsBest(t, q, EvexVvvv, 0);
    if First(t, q, EvexVvvv, 0).None? {
      FirstIsBest(t, q, Exact, 1);
      if First(t, q, Exact, 0).None? {
        FirstIsBest(t, q, NoPrefix, 2);
        if First(t, q, NoPrefix, 0).None? && !ThreeBytes(q.opcode) {
          FirstIsBest(t, q, RegExact, 3);
          if First(t, q, RegExact, 0).None? {
            FirstIsBest(t, q, RegNoPrefix, 4);
          }
        }
      }
    }
  }

  // ------------------------------------------------------------ the decoder's choice

  /** The prefix an instruction is looked up with: that of VEX, or the strongest of those in
      front. */
  function Mandatory(ps: seq<u8>, h: Head): u8 {
    if h.enc.hasVex then h.pp
    else if 0xF2 in ps then 0xF2
    else if 0xF3 in ps then 0xF3
    else if 0x66 in ps then 0x66
    else 0
  }

  function Asked(h: Head, prefix: u8, sec: u8, peek: u8): Query {
    Query(h.opcode, prefix, peek / 8 % 8, sec, peek / 64, h.enc.hasEvex, h.enc.vexW, h.enc.hasVex)
  }

  ghost predicate Selects(t: Table, q: Query, d: InstrDesc) {
    exists k: nat :: IsBest(t, q, k) && t[k] == d
  }

  predicate NoneFits(t: Table, q: Query) {
    forall j :: 0 <= j < |t| ==> Rank(t[j], q) == 5
  }

  /** An entry is chosen with the third byte or, if there is none, with a ModRM byte of
      mode 3 for a third byte; if none fits, without a third byte; and if none fits then
      either, without the mandatory prefix as well. */
  ghost predicate Chosen(t: Table, ps: seq<u8>, h: Head, peek: u8, d: Option<InstrDesc>) {
    var sec := if h.third != 0xFF then h.third else if peek >= 0xC0 then peek else 0xFF;
    var q1 := Asked(h, Mandatory(ps, h), sec, peek);
    var q2 := Asked(h, Mandatory(ps, h), 0xFF, peek);
    var q3 := Asked(h, 0, 0xFF, peek);
    if d.None? then NoneFits(t, q1) && NoneFits(t, q2) && NoneFits(t, q3)
    else
      || Selects(t, q1, d.value)
      || (NoneFits(t, q1) && Selects(t, q2, d.value))
      || (NoneFits(t, q1) && NoneFits(t, q2) && Selects(t, q3, d.value))
  }

  lemma ChooseIsBest(t: Table, ps: seq<u8>, h: Head, peek: u8)
    ensures Chosen(t, ps, h, peek, Choose(t, KeyOf(ps, h), peek))
  {
    hide Lookup, IsBest, Rank;
    var k := KeyOf(ps, h);
    LookupIsBest(t, QueryOf(k, k.mandatory, SecOf(k, peek), peek));
    LookupIsBest(t, QueryOf(k, k.mandatory, 0xFF, peek));
    LookupIsBest(t, QueryOf(k, 0, 0xFF, peek));
  }

  /** The entry of a decoded instruction is the one its prefixes, its opcode and the byte
      behind them ask for. */
  lemma DecodeSelects(t: Table, code: seq<u8>) returns (ps: seq<u8>, h: Head)
    requires Decode(t, code).Some?
    ensures ps <= code && (forall b <- ps :: IsLegacyPrefix(b)) && |ps| < |code| && !IsLegacyPrefix(code[|ps|])
    ensures ParseHead(code, |ps|) == Some(h)
    ensures var peek := if h.next < |code| then code[h.next] else 0;
            Chosen(t, ps, h, peek, Some(Decode(t, code).value.instr.desc))
  {
    hide ParseHead, ParseTail, Choose, Chosen, KeyOf, IsLegacyPrefix;
    var p, h0, d, tl := DecodeSteps(t, code);
    ps, h := code[..p], h0;
    ChooseIsBest(t, ps, h, Peek(code, h.next));
  }

  // ------------------------------------------------------------ competing entries

  lemma TwoEntries(a: InstrDesc, b: InstrDesc, q: Query)
    ensures Lookup([a, b], q)
            == if Rank(a, q) == 5 && Rank(b, q) == 5 then None
               else if Rank(a, q) <= Rank(b, q) then Some(a) else Some(b)
  {
    hide Lookup, Rank;
    LookupIsBest([a, b], q);
    PicksRank(a, q);
    PicksRank(b, q);
    if Lookup([a, b], q).Some? {
      var k: nat :| IsBest([a, b], q, k) && [a, b][k] == Lookup([a, b], q).value;
      assert [a, b][0] == a && [a, b][1] == b;
    } else {
      assert [a, b][0] == a && [a, b][1] == b;
    }
  }

  /** Entries of the shape of the two at 0F 6F. */
  const MOVQ_0F6F := InstrDesc(Other(1), 0x0F6F, 0xFF, 0, 0xFF, true, 0, 0,
                               [OperandDesc(MmxReg, Qword, 0xFF), OperandDesc(MmxRM, Qword, 0xFF)], false, false)

  const MOVDQA_0F6F := InstrDesc(Other(2), 0x0F6F, 0xFF, 0x66, 0xFF, true, 0, 0,
                                 [OperandDesc(XmmReg, Xmm128, 0xFF), OperandDesc(XmmRM, Xmm128, 0xFF)], false, false)

  lemma RankMovq(q: Query)
    requires q.opcode == 0x0F6F && !q.isVex && !q.isEvex
    ensures Rank(MOVQ_0F6F, q) == if q.prefix == 0 then 1 else 2
  {
  }

  lemma RankMovdqa(q: Query)
    requires q.opcode == 0x0F6F && !q.isVex && !q.isEvex
    ensures Rank(MOVDQA_0F6F, q) == if q.prefix == 0x66 then 1 else 5
  {
    assert forall o <- MOVDQA_0F6F.operands :: o.addr != OpcodeReg;
  }

  /** Whatever their order, the one with the prefix is chosen if that is asked for, and the
      one without for every other prefix. */
  lemma PrefixDecides(q: Query)
    requires q.opcode == 0x0F6F && !q.isVex && !q.isEvex
    ensures var d := if q.prefix == 0x66 then MOVDQA_0F6F else MOVQ_0F6F;
            Lookup([MOVQ_0F6F, MOVDQA_0F6F], q) == Some(d) && Lookup([MOVDQA_0F6F, MOVQ_0F6F], q) == Some(d)
  {
    hide Lookup, Rank;
    TwoEntries(MOVQ_0F6F, MOVDQA_0F6F, q);
    TwoEntries(MOVDQA_0F6F, MOVQ_0F6F, q);
    RankMovq(q);
    RankMovdqa(q);
  }

  function Group5(m: Mnemonic, ext: u3): InstrDesc {
    InstrDesc(m, 0xFF, ext, 0, 0xFF, true, 0, 0, [OperandDesc(ModRM_RM, Qword, 0xFF)], false, false)
  }

  /** FF /2 and FF /4 are told apart by the register field, and nothing else of FF is taken
      for either. */
  lemma ExtensionDecides(q: Query)
    requires q.opcode == 0xFF && !q.isVex && !q.isEvex && 0 <= q.reg < 8
    ensures var call, jmp := Group5(CALL, 2), Group5(JMP, 4);
            var d := if q.reg == 2 then Some(call) else if q.reg == 4 then Some(jmp) else None;
            Lookup([call, jmp], q) == d && Lookup([jmp, call], q) == d
  {
    hide Lookup;
    var call, jmp := Group5(CALL, 2), Group5(JMP, 4);
    TwoEntries(call, jmp, q);
    TwoEntries(jmp, call, q);
    assert Rank(call, q) == if q.reg == 2 then (if q.prefix == 0 then 1 else 2) else 5;
    assert Rank(jmp, q) == if q.reg == 4 then (if q.prefix == 0 then 1 else 2) else 5;
  }
}
