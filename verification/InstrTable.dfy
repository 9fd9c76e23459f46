/** Instruction descriptors and the chained opcode map they are looked up in. */
module InstrTable {
  import opened Words

  datatype OpSize =
    | NoSize | Byte | Word | Dword | Qword | OpSz | OpSzQ | OpSzDS | ByteSignExt
    | PackedSingle | PackedDouble | ScalarSingle | ScalarDouble | Xmm128
    | PseudoDesc | BoundPair | FarPtr | Mmx64

  datatype AddrMode =
    | NoAddr | Fixed | ModRM_RM | ModRM_Reg | Immediate | RelOffset | MemOnly | RegOnly
    | XmmReg | XmmRM | OpcodeReg | Moffset | StringSrc | StringDst | SegReg | CtrlReg
    | DbgReg | Flags | MmxReg | MmxRM | MmxRegOnly | XmmRegOnly | Stack | VexReg
    | XmmVvvv | Const

  /** The mnemonics the analyses test for. `Jcc` and `CountJcc` stand for the two
      families the source enumerates; `Other` stands for every remaining name. */
  datatype Mnemonic =
    | MOV | MOVZX | MOVSX | MOVSXD | XCHG | LEA | PUSH | POP | LEAVE
    | ADD | SUB | OR | XOR | AND | SHL | SHR | SAR | CMP | TEST
    | JMP | JMPF | CALL | CALLF | Jcc(cc: nat) | CountJcc(kind: nat)
    | RETN | RETF | IRET | IRETD | IRETQ
    | INT | INT1 | INTO | UD | UD2 | HLT
    | SYSCALL | SYSRET | SYSENTER | SYSEXIT
    | Other(id: nat)

  datatype OperandDesc = OperandDesc(addr: AddrMode, size: OpSize, fixedReg: u8)

  /** `vexForm` says that the mnemonic is one that only VEX or EVEX can encode and
      `evexForm` that only EVEX can: the two name filters of the lookup. */
  datatype InstrDesc = InstrDesc(
    mnemonic: Mnemonic,
    opcode: u16,
    opcdExt: u8,
    prefix: u8,
    secOpcd: u8,
    hasModrm: bool,
    modFilter: int,
    vexW: int,
    operands: seq<OperandDesc>,
    vexForm: bool,
    evexForm: bool)

  type Table = seq<InstrDesc>

  const EMPTY: int := 0xFFFF

  predicate HasAddr(d: InstrDesc, a: AddrMode) {
    exists o <- d.operands :: o.addr == a
  }

  predicate HasOpcodeReg(d: InstrDesc) {
    HasAddr(d, OpcodeReg)
  }

  predicate HasVexOperand(d: InstrDesc) {
    HasAddr(d, VexReg) || HasAddr(d, XmmVvvv)
  }

  predicate RegisterOnly(a: AddrMode) {
    a == RegOnly || a == XmmRegOnly || a == MmxRegOnly
  }

  predicate ModCompatible(d: InstrDesc, mod: int) {
    var isMem := mod != 3;
    && !(d.modFilter == 1 && !isMem)
    && !(d.modFilter == -1 && isMem)
    && (forall o <- d.operands :: !(o.addr == MemOnly && !isMem) && !(RegisterOnly(o.addr) && isMem))
  }

  // ------------------------------------------------------------ opcode slots

  function MapOf(opcode: u16): (m: int)
    ensures 0 <= m < 4
  {
    if opcode == 0x0F38 then 2
    else if opcode == 0x0F3A then 3
    else if opcode / 0x100 == 0x0F then 1
    else 0
  }

  function ByteOf(opcode: u16, sec: u8): u8 {
    if MapOf(opcode) >= 2 then sec else opcode % 0x100
  }

  /** A three-byte entry without a third byte is in no slot. */
  predicate InSlot(d: InstrDesc, m: int, b: int) {
    MapOf(d.opcode) == m && ByteOf(d.opcode, d.secOpcd) == b && !(m >= 2 && b == 0xFF)
  }

  /** The least index from `i` on of an entry in slot (m, b). */
  function Link(t: Table, m: int, b: int, i: nat): (j: int)
    requires i <= |t| < EMPTY
    ensures j == EMPTY || (i <= j < |t| && InSlot(t[j], m, b))
    ensures forall k :: i <= k < |t| && k < j ==> !InSlot(t[k], m, b)
    decreases |t| - i
  {
    if i == |t| then EMPTY else if InSlot(t[i], m, b) then i else Link(t, m, b, i + 1)
  }

  lemma NoLinks(t: Table)
    requires |t| < EMPTY
    ensures forall m, b :: Link(t, m, b, |t|) == EMPTY
  {
  }

  /** How entry `i` changes the links: only in its own slot. */
  lemma LinkFrom(t: Table, i: nat)
    requires i < |t| < EMPTY
    ensures var d, m, b := t[i], MapOf(t[i].opcode), ByteOf(t[i].opcode, t[i].secOpcd);
            forall m', b' :: && (InSlot(d, m', b') <==> m' == m && b' == b && !(m >= 2 && b == 0xFF))
                             && Link(t, m', b', i) == if InSlot(d, m', b') then i else Link(t, m', b', i + 1)
  {
  }

  // ------------------------------------------------------------ lookup

  datatype Query = Query(
    opcode: u16, prefix: u8, reg: int, sec: u8, mod: int, isEvex: bool, vexW: bool, isVex: bool)

  /** None of the `continue` filters of the chain walk rejects `d`. */
  predicate Accepts(d: InstrDesc, q: Query) {
    && (d.opcdExt == 0xFF || d.opcdExt == q.reg)
    && (d.secOpcd == 0xFF || d.secOpcd == q.sec)
    && ModCompatible(d, q.mod)
    && !(d.vexW == -1 && (q.isVex || q.isEvex) && q.vexW)
    && !(d.vexW == 1 && (q.isVex || q.isEvex) && !q.vexW)
    && !(!q.isVex && !q.isEvex && (HasVexOperand(d) || d.vexForm))
    && !(q.isVex && !q.isEvex && d.evexForm)
  }

  /** What the walk is looking for: an entry with the exact mandatory prefix (and,
      for EVEX, a vvvv operand), an entry without one, or either of these among
      the entries that carry a register in the opcode byte. */
  datatype Goal = EvexVvvv | Exact | NoPrefix | RegExact | RegNoPrefix

  predicate Picks(d: InstrDesc, q: Query, g: Goal) {
    var b := ByteOf(q.opcode, q.sec);
    match g
    case EvexVvvv =>
      InSlot(d, MapOf(q.opcode), b) && Accepts(d, q) && d.prefix == q.prefix && q.isEvex && HasVexOperand(d)
    case Exact => InSlot(d, MapOf(q.opcode), b) && Accepts(d, q) && d.prefix == q.prefix
    case NoPrefix => InSlot(d, MapOf(q.opcode), b) && Accepts(d, q) && d.prefix == 0
    case RegExact => InSlot(d, MapOf(q.opcode), b / 8 * 8) && HasOpcodeReg(d) && d.prefix == q.prefix
    case RegNoPrefix => InSlot(d, MapOf(q.opcode), b / 8 * 8) && HasOpcodeReg(d) && d.prefix == 0
  }

  /** The first entry of the table, from `i` on, that meets the goal. */
  function First(t: Table, q: Query, g: Goal, i: nat): (r: Option<InstrDesc>)
    requires i <= |t|
    decreases |t| - i
  {
    if i == |t| then None else if Picks(t[i], q, g) then Some(t[i]) else First(t, q, g, i + 1)
  }

  lemma {:induction false} FirstPicks(t: Table, q: Query, g: Goal, i: nat)
    requires i <= |t|
    ensures var r := First(t, q, g, i); r.Some? ==> r.value in t && Picks(r.value, q, g)
    decreases |t| - i
  {
    if i < |t| && !Picks(t[i], q, g) {
      FirstPicks(t, q, g, i + 1);
    }
  }

  function OrElse<T>(a: Option<T>, b: Option<T>): Option<T> {
    if a.Some? then a else b
  }

  /** The table entry a query selects. */
  function Lookup(t: Table, q: Query): Option<InstrDesc> {
    var direct := OrElse(First(t, q, EvexVvvv, 0), OrElse(First(t, q, Exact, 0), First(t, q, NoPrefix, 0)));
    if direct.Some? || MapOf(q.opcode) >= 2 then direct
    else OrElse(First(t, q, RegExact, 0), First(t, q, RegNoPrefix, 0))
  }

  /** Whatever is selected is a table entry of the slot of the opcode, or, in the
      one- and two-byte maps, an opcode-register entry of the slot with the low three
      bits cleared; its prefix is the one asked for or none. */
  lemma LookupPicks(t: Table, q: Query)
    requires Lookup(t, q).Some?
    ensures var d, b := Lookup(t, q).value, ByteOf(q.opcode, q.sec);
            && d in t
            && (d.prefix == q.prefix || d.prefix == 0)
            && (InSlot(d, MapOf(q.opcode), b)
                || (InSlot(d, MapOf(q.opcode), b / 8 * 8) && HasOpcodeReg(d) && MapOf(q.opcode) < 2))
  {
    FirstPicks(t, q, EvexVvvv, 0);
    FirstPicks(t, q, Exact, 0);
    FirstPicks(t, q, NoPrefix, 0);
    FirstPicks(t, q, RegExact, 0);
    FirstPicks(t, q, RegNoPrefix, 0);
  }

  /** The slot a goal is searched in. */
  function SlotByte(q: Query, g: Goal): u8 {
    var b := ByteOf(q.opcode, q.sec);
    if g.RegExact? || g.RegNoPrefix? then b / 8 * 8 else b
  }

  /** Entries outside the walked slot can be skipped. */
  lemma SkipToLink(t: Table, q: Query, g: Goal, i: nat)
    requires i <= |t| < EMPTY
    ensures var j := Link(t, MapOf(q.opcode), SlotByte(q, g), i);
            First(t, q, g, i) == if j == EMPTY then None else First(t, q, g, j)
    decreases |t| - i
  {
    if i < |t| && !InSlot(t[i], MapOf(q.opcode), SlotByte(q, g)) {
      SkipToLink(t, q, g, i + 1);
    }
  }

  function Hit(t: Table, q: Query, g: Goal, j: int): Option<InstrDesc>
    requires 0 <= j < |t|
  {
    if Picks(t[j], q, g) then Some(t[j]) else None
  }

  lemma DirectHit(t: Table, q: Query, j: int)
    requires 0 <= j < |t| && InSlot(t[j], MapOf(q.opcode), ByteOf(q.opcode, q.sec))
    ensures Hit(t, q, Exact, j) == if Accepts(t[j], q) && t[j].prefix == q.prefix then Some(t[j]) else None
    ensures Hit(t, q, NoPrefix, j) == if Accepts(t[j], q) && t[j].prefix == 0 then Some(t[j]) else None
    ensures Hit(t, q, EvexVvvv, j) ==
            if Accepts(t[j], q) && t[j].prefix == q.prefix && q.isEvex && HasVexOperand(t[j]) then Some(t[j]) else None
  {
    hide Accepts, HasVexOperand, InSlot, ByteOf;
  }

  lemma RegHit(t: Table, q: Query, j: int)
    requires 0 <= j < |t| && InSlot(t[j], MapOf(q.opcode), ByteOf(q.opcode, q.sec) / 8 * 8)
    ensures Hit(t, q, RegExact, j) == if HasOpcodeReg(t[j]) && t[j].prefix == q.prefix then Some(t[j]) else None
    ensures Hit(t, q, RegNoPrefix, j) == if HasOpcodeReg(t[j]) && t[j].prefix == 0 then Some(t[j]) else None
  {
    hide HasOpcodeReg, InSlot, ByteOf;
  }

  /** One step of a chain walk that has `found` so far. */
  lemma WalkStep(t: Table, q: Query, g: Goal, i: nat, found: Option<InstrDesc>)
    requires i <= |t| < EMPTY && First(t, q, g, 0) == OrElse(found, First(t, q, g, i))
    ensures var j := Link(t, MapOf(q.opcode), SlotByte(q, g), i);
            if j == EMPTY then First(t, q, g, 0) == found
            else First(t, q, g, 0) == OrElse(OrElse(found, Hit(t, q, g, j)), First(t, q, g, j + 1))
  {
    SkipToLink(t, q, g, i);
  }

  /** The generated index over the table: a head per opcode slot and, per entry,
      the index of the next entry of the same slot. */
  class OpcodeMap {
    const table: Table
    const heads: array2<int>
    const chain: array<int>

    predicate Shaped() {
      |table| < EMPTY && heads.Length0 == 4 && heads.Length1 == 256 && chain.Length == |table|
    }

    /** The entries from `i` on are in their chains. */
    ghost predicate Linked(i: nat)
      requires Shaped() && i <= |table|
      reads heads, chain
    {
      && (forall m, b :: 0 <= m < 4 && 0 <= b < 256 ==> heads[m, b] == Link(table, m, b, i))
      && (forall k, m, b :: i <= k < |table| && InSlot(table[k], m, b) ==> chain[k] == Link(table, m, b, k + 1))
    }

    ghost predicate Valid()
      reads heads, chain
    {
      Shaped() && Linked(0)
    }

    lemma NothingLinked()
      requires Shaped() && forall m, b :: 0 <= m < 4 && 0 <= b < 256 ==> heads[m, b] == EMPTY
      ensures Linked(|table|)
    {
      NoLinks(table);
    }

    method Insert(i: nat)
      requires Shaped() && i < |table| && Linked(i + 1)
      modifies heads, chain
      ensures Linked(i)
    {
      hide Link, InSlot, ByteOf;
      LinkFrom(table, i);
      var m, b := MapOf(table[i].opcode), ByteOf(table[i].opcode, table[i].secOpcd);
      if !(m >= 2 && b == 0xFF) {
        chain[i] := heads[m, b];
        heads[m, b] := i;
      }
    }

    /** Inserts the entries from the last to the first, each at the front of its
        slot, so a chain lists its slot in table order. */
    constructor (t: Table)
      requires |t| < EMPTY
      ensures Valid() && table == t
      ensures fresh(heads) && fresh(chain)
    {
      hide Linked, Link;
      table := t;
      heads := new int[4, 256]((m, b) => EMPTY);
      chain := new int[|t|](i => EMPTY);
      new;
      NothingLinked();
      var i := |t|;
      while i > 0
        invariant 0 <= i <= |t| && Linked(i)
      {
        i := i - 1;
        Insert(i);
      }
    }

    lemma HeadLink(m: int, b: int)
      requires Valid() && 0 <= m < 4 && 0 <= b < 256
      ensures |table| < EMPTY && heads.Length0 == 4 && heads.Length1 == 256 && chain.Length == |table|
      ensures heads[m, b] == Link(table, m, b, 0)
    {
      hide Link, InSlot;
    }

    lemma NextLink(m: int, b: int, i: nat)
      requires Valid() && 0 <= m < 4 && 0 <= b < 256 && i <= |table| < EMPTY && Link(table, m, b, i) != EMPTY
      ensures var j := Link(table, m, b, i);
              i <= j < |table| && InSlot(table[j], m, b) && chain.Length == |table|
                && chain[j] == Link(table, m, b, j + 1)
    {
      hide InSlot;
    }

    /** The first walk, remembering the first entry that meets each goal. */
    method WalkSlot(q: Query)
      returns (evexMatch: Option<InstrDesc>, firstMatch: Option<InstrDesc>, fallback: Option<InstrDesc>)
      requires Valid()
      ensures evexMatch == First(table, q, EvexVvvv, 0)
      ensures firstMatch == First(table, q, Exact, 0)
      ensures fallback == First(table, q, NoPrefix, 0)
    {
      hide First, Accepts, HasVexOperand, Link, InSlot, Picks, Hit, Valid, ByteOf;
      var m, b := MapOf(q.opcode), ByteOf(q.opcode, q.sec);
      evexMatch, firstMatch, fallback := None, None, None;
      HeadLink(m, b);
      var idx := heads[m, b];
      ghost var i := 0;
      while idx != EMPTY
        invariant 0 <= i <= |table| && idx == Link(table, m, b, i)
        invariant First(table, q, EvexVvvv, 0) == OrElse(evexMatch, First(table, q, EvexVvvv, i))
        invariant First(table, q, Exact, 0) == OrElse(firstMatch, First(table, q, Exact, i))
        invariant First(table, q, NoPrefix, 0) == OrElse(fallback, First(table, q, NoPrefix, i))
        decreases |table| - i
      {
        WalkStep(table, q, EvexVvvv, i, evexMatch);
        WalkStep(table, q, Exact, i, firstMatch);
        WalkStep(table, q, NoPrefix, i, fallback);
        NextLink(m, b, i);
        DirectHit(table, q, idx);
        var d := table[idx];
        if Accepts(d, q) {
          if d.prefix == q.prefix {
            if firstMatch.None? { firstMatch := Some(d); }
            if q.isEvex && HasVexOperand(d) && evexMatch.None? { evexMatch := Some(d); }
          }
          if d.prefix == 0 && fallback.None? { fallback := Some(d); }
        }
        i := idx + 1;
        idx := chain[idx];
      }
      WalkStep(table, q, EvexVvvv, i, evexMatch);
      WalkStep(table, q, Exact, i, firstMatch);
      WalkStep(table, q, NoPrefix, i, fallback);
    }

    /** The second walk: entries whose opcode byte carries a register. */
    method FindOpcodeReg(q: Query) returns (r: Option<InstrDesc>)
      requires Valid()
      ensures r == OrElse(First(table, q, RegExact, 0), First(table, q, RegNoPrefix, 0))
    {
      hide First, HasOpcodeReg, Link, InSlot, Picks, Hit, Valid, ByteOf;
      var m, b := MapOf(q.opcode), ByteOf(q.opcode, q.sec) / 8 * 8;
      var fallback := None;
      HeadLink(m, b);
      var idx := heads[m, b];
      ghost var i := 0;
      while idx != EMPTY
        invariant 0 <= i <= |table| && idx == Link(table, m, b, i)
        invariant First(table, q, RegExact, 0) == First(table, q, RegExact, i)
        invariant First(table, q, RegNoPrefix, 0) == OrElse(fallback, First(table, q, RegNoPrefix, i))
        decreases |table| - i
      {
        WalkStep(table, q, RegExact, i, None);
        WalkStep(table, q, RegNoPrefix, i, fallback);
        NextLink(m, b, i);
        RegHit(table, q, idx);
        var d := table[idx];
        if HasOpcodeReg(d) {
          if d.prefix == q.prefix { return Some(d); }
          if d.prefix == 0 && fallback.None? { fallback := Some(d); }
        }
        i := idx + 1;
        idx := chain[idx];
      }
      WalkStep(table, q, RegExact, i, None);
      WalkStep(table, q, RegNoPrefix, i, fallback);
      r := fallback;
    }

    /** Walks at most two chains and returns the entry the query selects. */
    method Find(q: Query) returns (r: Option<InstrDesc>)
      requires Valid()
      ensures r == Lookup(table, q)
    {
      var evexMatch, firstMatch, fallback := WalkSlot(q);
      FirstPicks(table, q, EvexVvvv, 0);
      if q.isEvex && evexMatch.Some? { return evexMatch; }
      if firstMatch.Some? { return firstMatch; }
      if fallback.Some? { return fallback; }
      if MapOf(q.opcode) < 2 {
        r := FindOpcodeReg(q);
      } else {
        r := None;
      }
    }
  }
}
