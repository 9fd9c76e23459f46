/** The edges of the control-flow graph, told by the decoded instructions alone. */
module Successors {
  import opened Words
  import opened InstrTable
  import opened TableOrder
  import opened Decoder
  import opened Flow
  import opened Machine
  import Cfg

  // ------------------------------------------------------------ what an instruction does

  predicate HasRelative(r: Decoded) {
    HasOperand(r.instr.desc, RelOffset)
  }

  predicate Returns(r: Decoded) {
    var m := r.instr.desc.mnemonic;
    m == RETN || m == RETF || m == IRET || m == IRETD || m == IRETQ
  }

  predicate Interrupts(r: Decoded) {
    var m := r.instr.desc.mnemonic;
    m == INT || m == INT1 || m == INTO || m == SYSCALL || m == SYSENTER
  }

  predicate Stops(r: Decoded) {
    r.instr.desc.mnemonic == UD2 || r.instr.desc.mnemonic == HLT
  }

  /** No return, no jump or call, no relative operand, no trap: control goes on behind it and
      nowhere else. */
  predicate Continues(r: Decoded) {
    && !Returns(r) && !HasRelative(r) && !Interrupts(r) && !Stops(r)
    && r.instr.desc.mnemonic != JMP && r.instr.desc.mnemonic != CALL
  }

  /** Control can go to the relative target. */
  predicate Branches(r: Decoded) {
    HasRelative(r) && !Returns(r)
  }

  /** Control can go on behind the instruction. */
  predicate FallsThrough(r: Decoded) {
    || Continues(r) || r.instr.desc.mnemonic == CALL
    || (!Returns(r) && r.instr.desc.mnemonic != JMP && (HasRelative(r) || Interrupts(r)))
  }

  function RelativeTo(r: Decoded, addr: u64): u64 {
    (addr + r.size + r.instr.immediate) % W64
  }

  lemma RelativeIs(r: Decoded)
    ensures HasAddr(r.instr.desc, RelOffset) <==> HasRelative(r)
  {
  }

  /** The kinds of the classifier, by instructions. */
  lemma KindIs(r: Decoded, addr: u64)
    ensures var m, k := r.instr.desc.mnemonic, FlowOf(r, addr).kind;
            && (k == FlowType.Return <==> Returns(r))
            && (k == FlowType.Branch <==> m == JMP) && (k == FlowType.Call <==> m == CALL)
            && (k == FlowType.ConditionalBranch <==> HasRelative(r) && !Returns(r) && m != JMP && m != CALL)
            && (k == FlowType.Exception <==> !HasRelative(r) && (Interrupts(r) || Stops(r)))
            && (k == FlowType.Sequential <==> Continues(r)) && k != FlowType.Unknown
  {
    hide HasRelative, HasAddr, Target;
    RelativeIs(r);
    if Returns(r) {
    } else if r.instr.desc.mnemonic == JMP || r.instr.desc.mnemonic == CALL {
    } else if HasRelative(r) {
    } else if Stops(r) {
    }
  }

  lemma FlowParts(r: Decoded, addr: u64)
    ensures var m, fi := r.instr.desc.mnemonic, FlowOf(r, addr);
            && (fi.isIndirect <==> (m == JMP || m == CALL) && !HasRelative(r))
            && fi.target == (if Branches(r) then RelativeTo(r, addr) else 0)
            && fi.address == addr && (r.size < 0x100 ==> fi.length == r.size)
  {
    hide HasRelative, HasAddr;
    RelativeIs(r);
    if Returns(r) {
    } else if HasRelative(r) {
    }
  }

  lemma FallsIs(r: Decoded, addr: u64)
    ensures FlowOf(r, addr).hasFallthrough <==> FallsThrough(r)
  {
    hide HasRelative, HasAddr, Target;
    RelativeIs(r);
    if Returns(r) {
    } else if HasRelative(r) {
    } else if Stops(r) {
    }
  }

  /** What else it says. */
  lemma FlowIs(r: Decoded, addr: u64)
    ensures var m, fi := r.instr.desc.mnemonic, FlowOf(r, addr);
            && (fi.isIndirect <==> (m == JMP || m == CALL) && !HasRelative(r))
            && (fi.hasFallthrough <==> FallsThrough(r))
            && fi.target == (if Branches(r) then RelativeTo(r, addr) else 0)
            && fi.address == addr && (r.size < 0x100 ==> fi.length == r.size)
  {
    hide HasRelative, FallsThrough, Branches, FlowOf, RelativeTo;
    FlowParts(r, addr);
    FallsIs(r, addr);
  }

  // ------------------------------------------------------------ where a block leads

  /** `ins` are the instructions from `addr` on. */
  predicate Stand(t: Table, img: Image, addr: u64, ins: seq<Decoded>)
    decreases |ins|
  {
    hide Fetch;
    ins == [] || (Fetch(t, img, addr) == Some(ins[0]) && Stand(t, img, At(addr, ins[0].size), ins[1..]))
  }

  /** The address behind them. */
  function Behind(addr: u64, ins: seq<Decoded>): u64
    decreases |ins|
  {
    if ins == [] then addr else Behind(At(addr, ins[0].size), ins[1..])
  }

  lemma NothingDecoded(t: Table)
    ensures Decode(t, []) == None
  {
  }

  lemma FetchedFlow(t: Table, img: Image, addr: u64, r: Decoded)
    requires Fetch(t, img, addr) == Some(r)
    ensures addr in img && FetchFlow(t, img, addr) == FlowOf(r, addr) && 1 <= r.size <= MAX_LENGTH
    ensures After(FlowOf(r, addr)) == At(addr, r.size)
  {
    hide Decode, HasAddr;
    NothingDecoded(t);
    WindowStep(img, addr, MAX_LENGTH);
  }

  /** A block from its first instruction. */
  lemma BlockFirst(t: Table, img: Image, n: nat, addr: u64, r: Decoded)
    requires n > 0 && Fetch(t, img, addr) == Some(r)
    ensures !Continues(r) ==>
              Block(t, img, addr, n)
                == BasicBlock(addr, At(addr, r.size), [FlowOf(r, addr)], SuccessorsOf(FlowOf(r, addr)))
    ensures Continues(r) ==>
              var rest := Block(t, img, At(addr, r.size), n - 1);
              Block(t, img, addr, n)
              == BasicBlock(addr, rest.end, [FlowOf(r, addr)] + rest.instructions, rest.successors)
  {
    hide Fetch, FetchFlow, SuccessorsOf, After, Continues, FlowOf, Block;
    FetchedFlow(t, img, addr, r);
    BlockStep(t, img, addr, n);
    KindIs(r, addr);
  }

  /** The edges of one terminator. */
  lemma LeadsTo(r: Decoded, addr: u64, b: u64)
    requires 1 <= r.size <= MAX_LENGTH
    ensures b in SuccessorsOf(FlowOf(r, addr))
            <==> (FallsThrough(r) && b == At(addr, r.size))
                 || (Branches(r) && b == RelativeTo(r, addr) && b != 0)
  {
    hide FlowOf, FallsThrough, HasRelative, RelativeTo;
    FlowIs(r, addr);
  }

  /** Control leaves a block exactly behind its terminator, if that falls through, and for
      the relative target of the terminator, unless that is the address 0: for every run of
      instructions of which only the last is a terminator. */
  lemma {:induction false} EdgesIff(t: Table, img: Image, n: nat, addr: u64, ins: seq<Decoded>, b: u64)
    requires ins != [] && |ins| <= n && Stand(t, img, addr, ins)
    requires !Continues(ins[|ins| - 1]) && forall k :: 0 <= k < |ins| - 1 ==> Continues(ins[k])
    ensures var last, at := ins[|ins| - 1], Behind(addr, ins[..|ins| - 1]);
            b in Cfg.Edges(t, img, n, addr)
            <==> (FallsThrough(last) && b == At(at, last.size))
                 || (Branches(last) && b == RelativeTo(last, at) && b != 0)
  {
    hide Fetch, SuccessorsOf, Continues, FallsThrough, Branches, FlowOf, Block, At, RelativeTo;
    var r := ins[0];
    FetchedFlow(t, img, addr, r);
    BlockFirst(t, img, n, addr, r);
    if |ins| == 1 {
      LeadsTo(r, addr, b);
    } else {
      var next := At(addr, r.size);
      assert ins[1..][..|ins| - 2] == ins[..|ins| - 1][1..];
      EdgesIff(t, img, n - 1, next, ins[1..], b);
    }
  }

  lemma NoFlow(t: Table, img: Image, addr: u64)
    requires Fetch(t, img, addr).None?
    ensures FetchFlow(t, img, addr) == FlowInfo(Unknown, addr, 0, false, false, 1)
  {
    hide Decode;
  }

  lemma NoBlock(t: Table, img: Image, n: nat, addr: u64)
    requires n == 0 || Fetch(t, img, addr).None?
    ensures Block(t, img, addr, n).successors == []
  {
    hide Fetch, FetchFlow, After, Block;
    BlockStep(t, img, addr, n);
    if n > 0 {
      NoFlow(t, img, addr);
    }
  }

  /** A block that is cut short leads nowhere: by the limit, by a byte that cannot be read or
      by bytes that cannot be decoded. */
  lemma {:induction false} CutShort(t: Table, img: Image, n: nat, addr: u64, ins: seq<Decoded>)
    requires |ins| <= n && Stand(t, img, addr, ins) && forall k :: 0 <= k < |ins| ==> Continues(ins[k])
    requires |ins| == n || Fetch(t, img, Behind(addr, ins)).None?
    ensures Cfg.Edges(t, img, n, addr) == []
  {
    hide Fetch, Continues, FlowOf, Block, At;
    if ins != [] {
      BlockFirst(t, img, n, addr, ins[0]);
      CutShort(t, img, n - 1, At(addr, ins[0].size), ins[1..]);
    } else {
      NoBlock(t, img, n, addr);
    }
  }

  lemma BehindStep(addr: u64, ins: seq<Decoded>, k: nat)
    requires 0 < k <= |ins|
    ensures Behind(addr, ins[..k]) == Behind(At(addr, ins[0].size), ins[1..][..k - 1])
  {
    assert ins[..k][1..] == ins[1..][..k - 1];
  }

  /** A block lists the instructions that stand there up to the terminator, each where it
      stands, and ends behind it. */
  lemma {:induction false} BlockLists(t: Table, img: Image, n: nat, addr: u64, ins: seq<Decoded>, k: nat)
    requires k < |ins| <= n && Stand(t, img, addr, ins)
    requires !Continues(ins[|ins| - 1]) && forall j :: 0 <= j < |ins| - 1 ==> Continues(ins[j])
    ensures var b := Block(t, img, addr, n);
            && b.start == addr && b.end == Behind(addr, ins) && |b.instructions| == |ins|
            && b.instructions[k] == FlowOf(ins[k], Behind(addr, ins[..k]))
    decreases |ins|
  {
    hide Fetch, SuccessorsOf, Continues, FlowOf, Block, At;
    var r := ins[0];
    BlockFirst(t, img, n, addr, r);
    if |ins| > 1 {
      BlockLists(t, img, n - 1, At(addr, r.size), ins[1..], if k > 0 then k - 1 else 0);
    }
    if k > 0 {
      BehindStep(addr, ins, k);
    } else {
      assert ins[..0] == [];
    }
  }

  /** One of these is the case at every address. */
  lemma {:induction false} BlockRun(t: Table, img: Image, n: nat, addr: u64) returns (ins: seq<Decoded>)
    ensures |ins| <= n && Stand(t, img, addr, ins) && forall k :: 0 <= k < |ins| - 1 ==> Continues(ins[k])
    ensures (ins != [] && !Continues(ins[|ins| - 1])) || |ins| == n || Fetch(t, img, Behind(addr, ins)).None?
    decreases n
  {
    hide Fetch, Continues;
    if n == 0 || Fetch(t, img, addr).None? {
      ins := [];
    } else {
      var r := Fetch(t, img, addr).value;
      if Continues(r) {
        var rest := BlockRun(t, img, n - 1, At(addr, r.size));
        ins := [r] + rest;
      } else {
        ins := [r];
      }
    }
  }
}
