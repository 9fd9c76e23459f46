/** The epilogue scan on assembled code: which bytes it takes for part of an epilogue. */
module EpilogueBytes {
  import opened Words
  import opened InstrTable
  import opened Decoder
  import opened RoundTrip
  import opened Sweeping
  import opened Epilogue
  import opened Layouts
  import opened TableOrder
  import opened Immediates
  import opened Operands

  /** What a small function body is made of. */
  datatype Piece = Pop(r: RegId) | Add(r: RegId, v: int) | Leave | Ret | Set(r: RegId, v: int)

  /** Entries of the shape of those for 58, 83 /0, C9 and C3. */
  const POP_58 := InstrDesc(POP, 0x58, 0xFF, 0, 0xFF, false, 0, 0, [OperandDesc(OpcodeReg, OpSz, 0xFF)], false, false)
  const ADD_83 := InstrDesc(ADD, 0x83, 0, 0, 0xFF, true, 0, 0,
                            [OperandDesc(ModRM_RM, OpSzQ, 0xFF), OperandDesc(Immediate, ByteSignExt, 0xFF)],
                            false, false)
  const LEAVE_C9 := InstrDesc(LEAVE, 0xC9, 0xFF, 0, 0xFF, false, 0, 0,
                              [OperandDesc(AddrMode.Fixed, OpSz, 5)], false, false)
  const RETN_C3 := InstrDesc(RETN, 0xC3, 0xFF, 0, 0xFF, false, 0, 0, [OperandDesc(NoAddr, NoSize, 0xFF)], false, false)

  const CODE_TABLE: Table := [POP_58, ADD_83, LEAVE_C9, RETN_C3, MOV_B8]

  /** 41 for the upper registers, and 48 or 49 for operations on 64 bits. */
  function RexOfPiece(p: Piece): Option<RexBits> {
    match p
    case Pop(r) => if r >= 8 then Some(RexBits(false, false, false, true)) else None
    case Set(r, _) => if r >= 8 then Some(RexBits(false, false, false, true)) else None
    case Add(r, _) => Some(RexBits(true, false, false, r >= 8))
    case _ => None
  }

  function OpOf(p: Piece): u8 {
    match p
    case Pop(r) => 0x58 + r % 8
    case Add(_, _) => 0x83
    case Leave => 0xC9
    case Ret => 0xC3
    case Set(r, _) => 0xB8 + r % 8
  }

  function OperandsOf(p: Piece): seq<u8> {
    match p
    case Add(r, v) => [0xC0 + r % 8, v % 256]
    case Set(_, v) => Le(v, 4)
    case _ => []
  }

  function FrontOf(p: Piece): seq<u8> {
    (if RexOfPiece(p).Some? then [Rex(RexOfPiece(p).value)] else []) + [OpOf(p)]
  }

  /** The machine code. */
  function BytesOf(p: Piece): seq<u8> {
    FrontOf(p) + OperandsOf(p)
  }

  function Assembled(ps: seq<Piece>): seq<u8> {
    if ps == [] then [] else BytesOf(ps[0]) + Assembled(ps[1..])
  }

  /** Pops, `leave`, returns and additions to RSP. */
  predicate EndsFunction(p: Piece) {
    p.Pop? || p.Leave? || p.Ret? || (p.Add? && p.r == 4)
  }

  // ------------------------------------------------------------ the entry of a piece

  function IndexOf(p: Piece): nat {
    match p
    case Pop(_) => 0
    case Add(_, _) => 1
    case Leave => 2
    case Ret => 3
    case Set(_, _) => 4
  }

  /** An entry with another opcode does not come into question. */
  lemma OtherOpcode(d: InstrDesc, q: Query)
    requires q.opcode <= 0xFF && d.opcode <= 0xFF && d.opcode != q.opcode && (d.opcode == q.opcode / 8 * 8 ==>
               d.operands != [] && forall o <- d.operands :: o.addr != OpcodeReg)
    ensures Rank(d, q) == 5
  {
    hide FitsModrm, FitsForm;
  }

  lemma OnlyOne(t: Table, q: Query, k: nat)
    requires k < |t| && Rank(t[k], q) < 5 && forall j :: 0 <= j < |t| && j != k ==> Rank(t[j], q) == 5
    ensures Lookup(t, q) == Some(t[k])
  {
    hide Lookup, Rank;
    LookupIsBest(t, q);
    assert Lookup(t, q).Some?;
    var j: nat :| IsBest(t, q, j) && t[j] == Lookup(t, q).value;
  }

  lemma OwnRank(p: Piece, q: Query)
    requires q.opcode == OpOf(p) && q.prefix == 0 && !q.isVex && !q.isEvex && (p.Add? ==> q.reg == 0)
    requires p.Add? ==> q.mod == 3
    ensures Rank(CODE_TABLE[IndexOf(p)], q) < 5
  {
    assert POP_58.operands[0].addr == OpcodeReg && MOV_B8.operands[0].addr == OpcodeReg;
  }

  lemma OtherRanks(p: Piece, q: Query)
    requires q.opcode == OpOf(p)
    ensures forall j :: 0 <= j < 5 && j != IndexOf(p) ==> Rank(CODE_TABLE[j], q) == 5
  {
    hide Rank;
    forall j | 0 <= j < 5 && j != IndexOf(p)
      ensures Rank(CODE_TABLE[j], q) == 5
    {
      OtherOpcode(CODE_TABLE[j], q);
    }
  }

  function HeadOf(p: Piece, at: nat): Head {
    Head(PLAIN.(rex := if RexOfPiece(p).Some? then Rex(RexOfPiece(p).value) else 0), OpOf(p), 0xFF, 0, at)
  }

  lemma PieceChosen(p: Piece, at: nat, peek: u8)
    requires p.Add? ==> peek == 0xC0 + p.r % 8
    ensures Choose(CODE_TABLE, KeyOf([], HeadOf(p, at)), peek) == Some(CODE_TABLE[IndexOf(p)])
  {
    hide Lookup, Rank, RexOfPiece;
    var k := KeyOf([], HeadOf(p, at));
    var q := QueryOf(k, k.mandatory, SecOf(k, peek), peek);
    OwnRank(p, q);
    OtherRanks(p, q);
    OnlyOne(CODE_TABLE, q, IndexOf(p));
  }

  lemma PieceHead(p: Piece, rest: seq<u8>)
    ensures var code := BytesOf(p) + rest;
            && code != [] && PrefixEnd(code, 0) == 0 && ParseHead(code, 0) == Some(HeadOf(p, |FrontOf(p)|))
            && |code| >= |FrontOf(p)| + |OperandsOf(p)|
            && code[|FrontOf(p)|..|FrontOf(p)| + |OperandsOf(p)|] == OperandsOf(p)
  {
    hide ParseHead, OperandsOf;
    var code, front := BytesOf(p) + rest, if RexOfPiece(p).Some? then [Rex(RexOfPiece(p).value)] else [];
    LegacyLayout([], RexOfPiece(p), 0, OpOf(p), OperandsOf(p) + rest);
    assert [] + (front + Opcode(0, OpOf(p))) + (OperandsOf(p) + rest) == code;
    assert code[0] == FrontOf(p)[0];
  }

  lemma NoField(d: InstrDesc, h: Head, code: seq<u8>)
    requires d in {POP_58, LEAVE_C9, RETN_C3} && h.next <= |code| && h.opcode != 0x0F3A
    ensures ParseTail(d, h, code, false) == Some(Tail(0, 0, 0, 0, h.next))
  {
    assert |d.operands| == 1 && !IsImm(d.operands[0]) && forall o <- d.operands :: o.addr != Moffset;
  }

  lemma OneByte(code: seq<u8>, at: nat, v: int)
    requires at < |code| && code[at] == v % 256
    ensures ReadSigned(code, at, 1) == Signed(v, 1)
  {
    var b := code[at..at + 1];
    assert b[1..] == [] && FromLe(b) == v % 256;
    ModSum(v, 0, 256);
  }

  lemma NoBytes(code: seq<u8>, at: nat)
    requires at <= |code|
    ensures ReadSigned(code, at, 0) == 0
  {
    assert code[at..at] == [];
  }

  lemma AddTail(r: RegId, v: int, h: Head, code: seq<u8>)
    requires h.next + 2 <= |code| && code[h.next..h.next + 2] == [0xC0 + r % 8, v % 256] && h.opcode != 0x0F3A
    ensures ParseTail(ADD_83, h, code, false) == Some(Tail(0xC0 + r % 8, 0, 0, Signed(v, 1), h.next + 2))
  {
    hide Signed, FromLe, ReadSigned, Bit;
    var modrm, two := 0xC0 + r % 8, code[h.next..h.next + 2];
    assert code[h.next] == two[0] && code[h.next + 1] == two[1];
    OneByte(code, h.next + 1, v);
    NoBytes(code, h.next + 1);
    var m, full := Tail(modrm, 0, 0, 0, h.next + 1), Tail(modrm, 0, 0, Signed(v, 1), h.next + 2);
    assert ParseModrm(ADD_83, code, h.next) == Some(m);
    assert ParseImms(ADD_83.operands, 2, 1, code, full, false, Bit(h.enc.rex, 8)) == Some(full);
    assert ParseImms(ADD_83.operands, 1, 0, code, m, false, Bit(h.enc.rex, 8)) == Some(full);
  }

  /** The fields behind the opcode. */
  function ModrmOfPiece(p: Piece): u8 {
    if p.Add? then 0xC0 + p.r % 8 else 0
  }

  function ImmOfPiece(p: Piece): int {
    match p
    case Add(_, v) => Signed(v, 1)
    case Set(_, v) => Signed(v, 4)
    case _ => 0
  }

  lemma SetRex(r: RegId)
    ensures var rex := HeadOf(Set(r, 0), 0).enc.rex; !Bit(rex, 8) && ImmSize(OpSzQ, false, Bit(rex, 8)) == 4
    ensures forall v, at :: HeadOf(Set(r, v), at).enc.rex == HeadOf(Set(r, 0), 0).enc.rex
  {
  }

  lemma PieceTail(p: Piece, rest: seq<u8>)
    ensures var code, h := BytesOf(p) + rest, HeadOf(p, |FrontOf(p)|);
            && h.next <= |code|
            && ParseTail(CODE_TABLE[IndexOf(p)], h, code, false)
               == Some(Tail(ModrmOfPiece(p), 0, 0, ImmOfPiece(p), |BytesOf(p)|))
  {
    hide ParseTail, ParseHead, FrontOf, Le, FromLe, Signed;
    PieceHead(p, rest);
    var code, h := BytesOf(p) + rest, HeadOf(p, |FrontOf(p)|);
    match p {
      case Add(r, v) => AddTail(r, v, h, code);
      case Set(r, v) =>
        SetRex(r);
        MovTail(h, code, false);
        SignedRead(v, 4);
      case _ => NoField(CODE_TABLE[IndexOf(p)], h, code);
    }
  }

  /** What the decoder makes of a piece, in front of anything. */
  function Made(p: Piece): Decoded {
    Decoded(|BytesOf(p)|, DecodedInstr(CODE_TABLE[IndexOf(p)], [], HeadOf(p, 0).enc, ModrmOfPiece(p), 0, OpOf(p) % 8, 0,
                                       ImmOfPiece(p), |BytesOf(p)|))
  }

  lemma PieceDecodes(p: Piece, rest: seq<u8>)
    ensures Decode(CODE_TABLE, BytesOf(p) + rest) == Some(Made(p))
  {
    hide Decode, Choose, ParseTail, ParseHead, KeyOf, FrontOf, Le, Signed;
    var code, h := BytesOf(p) + rest, HeadOf(p, |FrontOf(p)|);
    PieceHead(p, rest);
    PieceTail(p, rest);
    assert code[..0] == [];
    PieceChosen(p, |FrontOf(p)|, Peek(code, |FrontOf(p)|));
    ParsedDecodes(CODE_TABLE, code, 0, h, CODE_TABLE[IndexOf(p)],
                  Tail(ModrmOfPiece(p), 0, 0, ImmOfPiece(p), |BytesOf(p)|));
  }

  /** The register an addition names. */
  lemma AddedTo(r: RegId)
    ensures var modrm, rex := 0xC0 + r % 8, Rex(RexBits(true, false, false, r >= 8));
            modrm % 8 == r % 8 && (modrm % 8 == 4 && rex % 2 == 0 <==> r == 4)
  {
  }

  /** It is of epilogue kind exactly if the piece ends a function. */
  lemma KindOfPiece(p: Piece)
    ensures EpilogueKind(Made(p).instr) <==> EndsFunction(p)
  {
    hide EpilogueKind, BytesOf, ImmOfPiece, Rex;
    KindIff(Made(p).instr);
    if p.Add? {
      AddedTo(p.r);
      assert ADD_83.operands[0].addr == ModRM_RM;
    }
  }

  // ------------------------------------------------------------ whole functions

  lemma MadeSize(p: Piece)
    ensures Made(p).size == |BytesOf(p)| > 0
  {
  }

  /** The sweep finds the pieces. */
  lemma {:induction false} SweepOf(ps: seq<Piece>)
    ensures var run := Sweep(CODE_TABLE, Assembled(ps));
            && run.complete && |run.instrs| == |ps|
            && forall k :: 0 <= k < |ps| ==> run.instrs[k] == Made(ps[k])
  {
    hide Decode, Sweep, Made, BytesOf;
    if ps == [] {
      SweepEmpty(CODE_TABLE);
    } else {
      var code, rest := Assembled(ps), Assembled(ps[1..]);
      PieceDecodes(ps[0], rest);
      MadeSize(ps[0]);
      SweepStep(CODE_TABLE, code);
      assert code[|BytesOf(ps[0])|..] == rest;
      SweepOf(ps[1..]);
    }
  }

  lemma {:induction false} Offsets(run: seq<Decoded>, ps: seq<Piece>, k: nat)
    requires |run| == |ps| && k <= |ps| && forall j :: 0 <= j < |ps| ==> run[j] == Made(ps[j])
    ensures OffsetOf(run, k) == |Assembled(ps[..k])|
    decreases k
  {
    hide Made, BytesOf;
    if k > 0 {
      MadeSize(ps[0]);
      Offsets(run[1..], ps[1..], k - 1);
      assert ps[..k][1..] == ps[1..][..k - 1];
    }
  }

  lemma StartUnique(run: seq<Decoded>, m: nat)
    requires m <= |run| && forall k: nat :: k <= |run| ==> (AllEpilogue(run, k) <==> k >= m)
    ensures forall k: nat :: k <= |run| ==> (StartsAt(run, k) <==> k == m)
  {
    hide AllEpilogue;
    forall k: nat | k <= |run|
      ensures StartsAt(run, k) <==> k == m
    {
      if StartsAt(run, k) {
        assert AllEpilogue(run, k) && AllEpilogue(run, m);
      }
    }
  }

  /** In every function of such pieces the epilogue that is found is the longest run of pops,
      `leave`, returns and additions to RSP at its end: its start is where their bytes start. */
  lemma EpilogueFound(front: seq<Piece>, back: seq<Piece>)
    requires forall p <- back :: EndsFunction(p)
    requires front != [] ==> !EndsFunction(front[|front| - 1])
    ensures var run := Sweep(CODE_TABLE, Assembled(front + back));
            && run.complete && |run.instrs| == |front| + |back|
            && (forall k: nat :: k <= |run.instrs| ==> (StartsAt(run.instrs, k) <==> k == |front|))
            && OffsetOf(run.instrs, |front|) == |Assembled(front)|
  {
    hide Sweep, Made, Assembled, EpilogueKind, EndsFunction, OffsetOf;
    var ps := front + back;
    SweepOf(ps);
    var run := Sweep(CODE_TABLE, Assembled(ps)).instrs;
    Offsets(run, ps, |front|);
    assert ps[..|front|] == front;
    forall k | 0 <= k < |ps|
      ensures EpilogueKind(run[k].instr) <==> EndsFunction(ps[k])
    {
      KindOfPiece(ps[k]);
    }
    assert forall k :: |front| <= k < |ps| ==> ps[k] in back;
    if front != [] {
      assert ps[|front| - 1] == front[|front| - 1];
    }
    forall k: nat | k <= |run|
      ensures AllEpilogue(run, k) <==> k >= |front|
    {
      if k < |front| {
        assert !EpilogueKind(run[|front| - 1].instr);
      }
    }
    StartUnique(run, |front|);
  }
}
