/** Conditional jumps to labels, from the assembler through the decoder to the control
    flow they cause. */
module LabelJumps {
  import opened Words
  import opened InstrTable
  import opened Decoder
  import opened RoundTrip
  import opened Locality
  import opened Relocation
  import opened Moving
  import opened Fixups
  import Flow
  import Machine
  import Cfg
  import Successors

  /** Step `k` and the next one are a conditional jump to a label. */
  predicate IsJcc(prog: seq<Step>, k: nat, cc: u8) {
    k + 1 < |prog| && cc < 16 && prog[k] == Raw([0x0F, 0x80 + cc]) && prog[k + 1].Ref? && prog[k + 1].size == 4
  }

  /** The entry takes one four-byte relative operand and nothing else. */
  predicate IsRel32(d: InstrDesc) {
    && Regular(d) && !d.hasModrm && RelOperand(d.operands, 0).Some?
    && ImmSize(RelOperand(d.operands, 0).value.size, false, false) == 4
  }

  lemma JccHead(s: seq<u8>, cc: u8)
    requires |s| >= 6 && s[0] == 0x0F && s[1] == 0x80 + cc && cc < 16
    ensures PrefixEnd(s, 0) == 0 && ParseHead(s, 0) == Some(Head(PLAIN, 0x0F80 + cc as int, 0xFF, 0, 2))
  {
  }

  lemma NoModrm(d: InstrDesc, s: seq<u8>, at: nat)
    requires !d.hasModrm
    ensures ParseModrm(d, s, at) == Some(Tail(0, 0, 0, 0, at))
  {
  }

  lemma NotThreeByte(d: InstrDesc, opcode: u16)
    requires opcode != 0x0F3A
    ensures NoImplicit(d, opcode)
  {
  }

  lemma RelKind(d: InstrDesc)
    requires RelOperand(d.operands, 0).Some?
    ensures IsImm(RelOperand(d.operands, 0).value)
  {
  }

  /** What the decoder reads from such bytes. */
  lemma JccDecoded(t: Table, s: seq<u8>, cc: u8)
    requires |s| >= 6 && s[0] == 0x0F && s[1] == 0x80 + cc && cc < 16
    requires Decode(t, s).Some? && IsRel32(Decode(t, s).value.instr.desc)
    ensures var r := Decode(t, s).value; r.size == 6 && r.instr.immediate == ReadSigned(s, 2, 4)
  {
    hide Choose, ParseTail, ParseHead, Regular, RelOperand, ReadSigned, FieldOf, NoImplicit;
    var p, h, d, tl := DecodeSteps(t, s);
    JccHead(s, cc);
    assert s[..0] == [];
    RelIsField(d);
    RelKind(d);
    NotThreeByte(d, h.opcode);
    ImmTail(d, h, s, false, RelOperand(d.operands, 0).value);
    NoModrm(d, s, 2);
  }

  lemma RawField(prog: seq<Step>, k: nat)
    requires k < |prog| && prog[k].Raw?
    ensures Field(prog, k) == prog[k].bytes
  {
  }

  /** The bytes of the jump in the finished buffer. */
  lemma JccBytes(prog: seq<Step>, k: nat, cc: u8)
    requires IsJcc(prog, k, cc)
    ensures var at, buf := Pos(prog, k), Run(prog).buf;
            && at + 6 <= |buf| && Pos(prog, k + 1) == at + 2 && buf[at] == 0x0F && buf[at + 1] == 0x80 + cc
  {
    hide Run, Field, Layout;
    OnePassIsTwoPass(prog);
    LayoutSlice(prog, |prog|, k);
    LayoutSlice(prog, |prog|, k + 1);
    var at, buf := Pos(prog, k), TwoPass(prog);
    RawField(prog, k);
    assert buf[at] == buf[at..at + 2][0] && buf[at + 1] == buf[at..at + 2][1];
  }

  lemma HasRel(d: InstrDesc)
    requires IsRel32(d)
    ensures HasAddr(d, RelOffset)
  {
    assert RelOperand(d.operands, 0).value in d.operands;
  }

  /** A conditional jump to a label that is bound once, decoded where it was emitted, is
      classified as a conditional branch to the place of the binding, if the distance fits
      into 32 bits: before or after the binding, and wherever the code is loaded. */
  lemma JccReachesLabel(t: Table, prog: seq<Step>, k: nat, cc: u8, j: nat, base: u64)
    requires IsJcc(prog, k, cc) && BoundOnce(prog, prog[k + 1].label_, j)
    requires Pos(prog, k) <= |Run(prog).buf|
    requires var r := Decode(t, Run(prog).buf[Pos(prog, k)..]);
             r.Some? && IsRel32(r.value.instr.desc) && r.value.instr.desc.mnemonic.Jcc?
    requires FitsIn(Pos(prog, j) - (Pos(prog, k) + 6), 4)
    ensures var at: u64 := (base + Pos(prog, k)) % W64;
            Flow.FlowAt(t, Run(prog).buf[Pos(prog, k)..], at)
            == Flow.FlowInfo(Flow.ConditionalBranch, at, (base + Pos(prog, j)) % W64, false, true, 6)
  {
    hide Run, Decode, Signed, FromLe, Pos, FitsIn, IsRel32, BoundOnce;
    JccBytes(prog, k, cc);
    var at, buf := Pos(prog, k), Run(prog).buf;
    var s := buf[at..];
    JccDecoded(t, s, cc);
    ReferencesReach(prog, j, k + 1);
    assert s[2..6] == buf[at + 2..at + 6];
    var r := Decode(t, s).value;
    HasRel(r.instr.desc);
    ModSum(base + at, r.size + r.instr.immediate, W64);
  }

  /** The assembled code lies at `base` and is all readable. */
  predicate Loaded(img: Flow.Image, base: u64, buf: seq<u8>) {
    forall i: nat :: i < |buf| ==> At(base, i) in img && img[At(base, i)] == buf[i]
  }

  lemma LoadedWindow(img: Flow.Image, base: u64, buf: seq<u8>, at: nat, n: nat, room: nat)
    requires Loaded(img, base, buf) && at + n <= |buf| && n <= room
    ensures var w := Flow.Window(img, At(base, at), room); |w| >= n && w[..n] == buf[at..at + n]
  {
    hide Flow.Window;
    Flow.WindowIs(img, At(base, at), room);
    forall k: nat | k < n
      ensures At(At(base, at), k) == At(base, at + k)
    {
      ModSum(base + at, k, W64);
    }
  }

  lemma JccFlow(r: Decoded)
    requires IsRel32(r.instr.desc) && r.instr.desc.mnemonic.Jcc?
    ensures !Successors.Continues(r) && Successors.FallsThrough(r) && Successors.Branches(r)
  {
    HasRel(r.instr.desc);
    Successors.RelativeIs(r);
  }

  /** The jump as it is fetched. */
  lemma JccFetched(t: Table, img: Flow.Image, prog: seq<Step>, k: nat, cc: u8, j: nat, base: u64, r: Decoded)
    requires IsJcc(prog, k, cc) && BoundOnce(prog, prog[k + 1].label_, j) && Loaded(img, base, Run(prog).buf)
    requires Machine.Fetch(t, img, At(base, Pos(prog, k))) == Some(r) && IsRel32(r.instr.desc)
    requires FitsIn(Pos(prog, j) - (Pos(prog, k) + 6), 4)
    ensures r.size == 6 && Pos(prog, k) + 6 + r.instr.immediate == Pos(prog, j)
  {
    hide Run, Decode, Signed, FromLe, Pos, FitsIn, IsRel32, BoundOnce, Loaded, Flow.Window;
    JccBytes(prog, k, cc);
    var at, buf := Pos(prog, k), Run(prog).buf;
    LoadedWindow(img, base, buf, at, 6, 15);
    var w := Flow.Window(img, At(base, at), 15);
    assert w[..6][0] == w[0] && w[..6][1] == w[1] && w[2..6] == w[..6][2..6];
    assert buf[at..at + 6][2..6] == buf[at + 2..at + 6];
    JccDecoded(t, w, cc);
    ReferencesReach(prog, j, k + 1);
  }

  lemma AtAt(base: u64, at: nat, n: int)
    ensures (At(base, at) + n) % W64 == (base + at + n) % W64
  {
    ModSum(base + at, n, W64);
  }

  /** Walked, the jump has two edges: to the place of the binding, unless that is the
      address 0, and behind the jump. */
  lemma JccEdges(t: Table, img: Flow.Image, n: nat, prog: seq<Step>, k: nat, cc: u8, j: nat, base: u64, b: u64)
    requires n > 0 && IsJcc(prog, k, cc) && BoundOnce(prog, prog[k + 1].label_, j) && Loaded(img, base, Run(prog).buf)
    requires var r := Machine.Fetch(t, img, At(base, Pos(prog, k)));
             r.Some? && IsRel32(r.value.instr.desc) && r.value.instr.desc.mnemonic.Jcc?
    requires FitsIn(Pos(prog, j) - (Pos(prog, k) + 6), 4)
    ensures b in Cfg.Edges(t, img, n, At(base, Pos(prog, k)))
            <==> b == At(base, Pos(prog, k) + 6) || (b == At(base, Pos(prog, j)) && b != 0)
  {
    hide Run, Machine.Fetch, Pos, FitsIn, IsRel32, BoundOnce, Loaded, Cfg.Edges;
    hide Successors.Continues, Successors.FallsThrough, Successors.Branches;
    var at, r := Pos(prog, k), Machine.Fetch(t, img, At(base, Pos(prog, k))).value;
    JccFetched(t, img, prog, k, cc, j, base, r);
    JccFlow(r);
    Successors.EdgesIff(t, img, n, At(base, at), [r], b);
    AtAt(base, at, 6);
    AtAt(base, at, 6 + r.instr.immediate);
  }
}
