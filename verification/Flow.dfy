/** Control flow of single instructions and the basic blocks made of them. */
module Flow {
  import opened Words
  import opened InstrTable
  import opened Decoder

  datatype FlowType = Sequential | Branch | Call | ConditionalBranch | Return | Exception | Unknown

  /** `target` is 0 when there is none or it is not known. */
  datatype FlowInfo = FlowInfo(
    kind: FlowType, address: u64, target: u64, isIndirect: bool, hasFallthrough: bool, length: u8)

  datatype BasicBlock = BasicBlock(start: u64, end: u64, instructions: seq<FlowInfo>, successors: seq<u64>)

  /** The readable bytes. */
  type Image = map<u64, u8>

  const MAX_LENGTH: nat := 15

  // ------------------------------------------------------------ one instruction

  predicate IsReturn(m: Mnemonic) {
    m in {RETN, RETF, IRET, IRETD, IRETQ}
  }

  predicate Traps(m: Mnemonic) {
    m in {INT, INT1, INTO, SYSCALL, SYSENTER}
  }

  function Target(addr: u64, r: Decoded): u64 {
    (addr + r.size + r.instr.immediate) % W64
  }

  /** The flow of a decoded instruction: returns first, then jumps and calls by name,
      then anything else with a relative operand. */
  function FlowOf(r: Decoded, addr: u64): FlowInfo {
    var m, rel, n := r.instr.desc.mnemonic, HasAddr(r.instr.desc, RelOffset), r.size % 0x100;
    if IsReturn(m) then FlowInfo(Return, addr, 0, false, false, n)
    else if m == JMP || m == CALL then
      FlowInfo(if m == JMP then Branch else Call, addr, if rel then Target(addr, r) else 0, !rel, m == CALL, n)
    else if rel then FlowInfo(ConditionalBranch, addr, Target(addr, r), false, true, n)
    else if m == UD2 || m == HLT then FlowInfo(Exception, addr, 0, false, false, n)
    else if Traps(m) then FlowInfo(Exception, addr, 0, false, true, n)
    else FlowInfo(Sequential, addr, 0, false, true, n)
  }

  function FlowAt(t: Table, code: seq<u8>, addr: u64): FlowInfo {
    var r := Decode(t, code);
    if r.None? then FlowInfo(Unknown, addr, 0, false, false, 1) else FlowOf(r.value, addr)
  }

  /** Looks for a relative operand. */
  method FindRelative(d: InstrDesc) returns (found: bool)
    ensures found == HasAddr(d, RelOffset)
  {
    for i := 0 to |d.operands|
      invariant forall j :: 0 <= j < i ==> d.operands[j].addr != RelOffset
    {
      if d.operands[i].addr == RelOffset { return true; }
    }
    found := false;
  }

  method ClassifyFlow(om: OpcodeMap, code: seq<u8>, addr: u64) returns (fi: FlowInfo)
    requires om.Valid()
    ensures fi == FlowAt(om.table, code, addr)
  {
    hide Decode;
    var r := DecodeOne(om, code);
    fi := FlowInfo(Sequential, addr, 0, false, true, 1);
    if r.None? {
      return fi.(kind := Unknown, hasFallthrough := false);
    }
    fi := fi.(length := r.value.size % 0x100);
    var m := r.value.instr.desc.mnemonic;
    if IsReturn(m) {
      return fi.(kind := Return, hasFallthrough := false);
    }
    var isRel := FindRelative(r.value.instr.desc);
    if m == JMP {
      fi := fi.(kind := Branch, hasFallthrough := false);
      return if isRel then fi.(target := Target(addr, r.value)) else fi.(isIndirect := true);
    }
    if m == CALL {
      fi := fi.(kind := Call);
      return if isRel then fi.(target := Target(addr, r.value)) else fi.(isIndirect := true);
    }
    if isRel {
      return fi.(kind := ConditionalBranch, target := Target(addr, r.value));
    }
    if m == UD2 { return fi.(kind := Exception, hasFallthrough := false); }
    if Traps(m) { return fi.(kind := Exception); }
    if m == HLT { return fi.(kind := Exception, hasFallthrough := false); }
  }

  // ------------------------------------------------------------ one block

  /** The bytes from `addr` on, up to `n` of them or the first unreadable one. */
  function Window(img: Image, addr: u64, n: nat): (s: seq<u8>)
    ensures |s| <= n
    decreases n
  {
    if n == 0 || addr !in img then [] else [img[addr]] + Window(img, (addr + 1) % W64, n - 1)
  }

  function FetchFlow(t: Table, img: Image, addr: u64): FlowInfo {
    FlowAt(t, Window(img, addr, MAX_LENGTH), addr)
  }

  function After(fi: FlowInfo): u64 {
    (fi.address + fi.length) % W64
  }

  function SuccessorsOf(fi: FlowInfo): seq<u64> {
    (if fi.target != 0 && !fi.isIndirect then [fi.target] else [])
    + (if fi.hasFallthrough then [After(fi)] else [])
  }

  /** The block from `addr` on with at most `n` instructions. */
  function Block(t: Table, img: Image, addr: u64, n: nat): (b: BasicBlock)
    ensures b.start == addr && |b.instructions| <= n
    decreases n
  {
    if n == 0 || addr !in img then BasicBlock(addr, addr, [], [])
    else
      var fi := FetchFlow(t, img, addr);
      if fi.kind != Sequential then BasicBlock(addr, After(fi), [fi], SuccessorsOf(fi))
      else
        var rest := Block(t, img, After(fi), n - 1);
        BasicBlock(addr, rest.end, [fi] + rest.instructions, rest.successors)
  }

  lemma WindowStep(img: Image, a: u64, n: nat)
    requires n > 0
    ensures Window(img, a, n) == if a in img then [img[a]] + Window(img, (a + 1) % W64, n - 1) else []
  {
  }

  lemma NoWindow(img: Image, addr: u64, n: nat)
    requires n == 0 || addr !in img
    ensures Window(img, addr, n) == []
  {
  }

  lemma AtFirst(addr: u64)
    ensures At(addr, 0) == addr && At(addr, 1) == (addr + 1) % W64
  {
  }

  lemma AtNext(addr: u64, k: nat)
    ensures At(At(addr, 1), k) == At(addr, k + 1)
  {
    ModSum(addr + 1, k, W64);
  }

  /** The window holds the readable bytes up to its end, which is the limit or an
      unreadable byte. */
  lemma {:induction false} WindowIs(img: Image, addr: u64, n: nat)
    ensures var w := Window(img, addr, n);
            && (forall k: nat :: k < |w| ==> At(addr, k) in img && w[k] == img[At(addr, k)])
            && (|w| < n ==> At(addr, |w|) !in img)
    decreases n
  {
    hide Window, At;
    AtFirst(addr);
    if n > 0 && addr in img {
      WindowStep(img, addr, n);
      var rest := Window(img, At(addr, 1), n - 1);
      WindowIs(img, At(addr, 1), n - 1);
      forall k: nat
        ensures At(At(addr, 1), k) == At(addr, k + 1)
      {
        AtNext(addr, k);
      }
      forall k: nat | k < |rest| + 1
        ensures At(addr, k) in img && ([img[addr]] + rest)[k] == img[At(addr, k)]
      {
        if k > 0 {
          assert At(At(addr, 1), k - 1) == At(addr, k - 1 + 1);
        }
      }
    } else {
      NoWindow(img, addr, n);
    }
  }

  method ReadWindow(img: Image, addr: u64) returns (s: seq<u8>)
    ensures s == Window(img, addr, MAX_LENGTH)
  {
    hide Window;
    s := [];
    for j := 0 to MAX_LENGTH
      invariant |s| == j
      invariant Window(img, addr, MAX_LENGTH) == s + Window(img, (addr + j) % W64, MAX_LENGTH - j)
    {
      var a := (addr + j) % W64;
      WindowStep(img, a, MAX_LENGTH - j);
      if a !in img { return; }
      ModSum(addr + j, 1, W64);
      s := s + [img[a]];
    }
    assert Window(img, (addr + MAX_LENGTH) % W64, 0) == [];
  }

  /** Every instruction takes between one and fifteen bytes, from its own address. */
  lemma FlowAddress(t: Table, code: seq<u8>, addr: u64)
    ensures FlowAt(t, code, addr).address == addr
    ensures |code| < 0x100 ==> 1 <= FlowAt(t, code, addr).length <= (if code == [] then 1 else |code|)
  {
    hide Decode;
  }

  lemma FetchAddress(t: Table, img: Image, addr: u64)
    ensures FetchFlow(t, img, addr).address == addr && 1 <= FetchFlow(t, img, addr).length <= MAX_LENGTH
  {
    hide FlowAt, Window;
    FlowAddress(t, Window(img, addr, MAX_LENGTH), addr);
  }

  /** One instruction and the rest of the block. */
  lemma BlockStep(t: Table, img: Image, addr: u64, n: nat)
    ensures FetchFlow(t, img, addr).address == addr
    ensures Block(t, img, addr, n) ==
            if n == 0 || addr !in img then BasicBlock(addr, addr, [], [])
            else
              var fi := FetchFlow(t, img, addr);
              if fi.kind != Sequential then BasicBlock(addr, After(fi), [fi], SuccessorsOf(fi))
              else
                var rest := Block(t, img, After(fi), n - 1);
                BasicBlock(addr, rest.end, [fi] + rest.instructions, rest.successors)
  {
    hide FetchFlow, SuccessorsOf, After;
    FetchAddress(t, img, addr);
  }

  lemma FetchedFrom(t: Table, img: Image, addr: u64)
    ensures FetchFlow(t, img, addr) == FlowAt(t, Window(img, addr, MAX_LENGTH), addr)
  {
  }

  method WalkBasicBlock(om: OpcodeMap, img: Image, start: u64, maxInsns: nat) returns (bb: BasicBlock)
    requires om.Valid()
    ensures bb == Block(om.table, img, start, maxInsns)
  {
    hide FlowAt, Window, Block, FetchFlow;
    var instrs: seq<FlowInfo>, addr: u64 := [], start;
    ghost var whole := Block(om.table, img, start, maxInsns);
    for i := 0 to maxInsns
      invariant var rest := Block(om.table, img, addr, maxInsns - i);
                whole == BasicBlock(start, rest.end, instrs + rest.instructions, rest.successors)
    {
      BlockStep(om.table, img, addr, maxInsns - i);
      var buf := ReadWindow(img, addr);
      WindowStep(img, addr, MAX_LENGTH);
      if |buf| == 0 { break; }
      var fi := ClassifyFlow(om, buf, addr);
      FlowAddress(om.table, buf, addr);
      FetchedFrom(om.table, img, addr);
      instrs := instrs + [fi];
      addr := (addr + fi.length) % W64;
      if fi.kind != Sequential {
        var succs := [];
        if fi.target != 0 && !fi.isIndirect { succs := succs + [fi.target]; }
        if fi.hasFallthrough { succs := succs + [addr]; }
        return BasicBlock(start, addr, instrs, succs);
      }
    }
    BlockStep(om.table, img, addr, 0);
    bb := BasicBlock(start, addr, instrs, []);
  }

  // ------------------------------------------------------------ blocks tile

  /** The block ends with an instruction that is not sequential. */
  predicate Terminated(b: BasicBlock) {
    b.instructions != [] && b.instructions[|b.instructions| - 1].kind != Sequential
  }

  /** The instructions follow each other without gaps, modulo 2^64, up to the end; all
      but the last are sequential. */
  predicate Tiles(b: BasicBlock) {
    var s, n := b.instructions, |b.instructions|;
    && (n == 0 ==> b.end == b.start)
    && (n > 0 ==> s[0].address == b.start && b.end == After(s[n - 1]))
    && (forall k :: 0 <= k < n - 1 ==> s[k].kind == Sequential && s[k + 1].address == After(s[k]))
    && (forall k :: 0 <= k < n ==> 1 <= s[k].length <= MAX_LENGTH)
  }

  /** A block tiles its addresses, and its successors are those of its terminator: none
      when it was cut short by the limit or an unreadable byte. */
  lemma {:induction false} BlockTiles(t: Table, img: Image, addr: u64, n: nat)
    ensures var b := Block(t, img, addr, n);
            Tiles(b) && b.successors == if Terminated(b) then SuccessorsOf(b.instructions[|b.instructions| - 1]) else []
    decreases n
  {
    hide FetchFlow, SuccessorsOf;
    if n > 0 && addr in img {
      var fi := FetchFlow(t, img, addr);
      FetchAddress(t, img, addr);
      if fi.kind == Sequential {
        BlockTiles(t, img, After(fi), n - 1);
      }
    }
  }

  lemma FirstAddress(t: Table, img: Image, addr: u64, n: nat)
    ensures var b := Block(t, img, addr, n); b.instructions != [] ==> b.instructions[0].address == addr
  {
    hide FetchFlow, SuccessorsOf, After, Block;
    BlockStep(t, img, addr, n);
  }

  /** Started at any of its instructions, a terminated block yields its remaining
      instructions, its end and its successors, whatever the limit. */
  lemma {:induction false} TailShared(t: Table, img: Image, addr: u64, n: nat, k: nat, m: nat)
    requires var b := Block(t, img, addr, n);
             Terminated(b) && k < |b.instructions| && m >= |b.instructions| - k
    ensures var b := Block(t, img, addr, n);
            Block(t, img, b.instructions[k].address, m)
              == BasicBlock(b.instructions[k].address, b.end, b.instructions[k..], b.successors)
    decreases n
  {
    hide FetchFlow, SuccessorsOf, After, Block;
    var b, fi := Block(t, img, addr, n), FetchFlow(t, img, addr);
    BlockStep(t, img, addr, n);
    BlockStep(t, img, addr, m);
    if fi.kind == Sequential {
      var next, rest := After(fi), Block(t, img, After(fi), n - 1);
      assert rest.instructions == b.instructions[1..] && Terminated(rest);
      if k > 0 {
        TailShared(t, img, next, n - 1, k - 1, m);
        assert b.instructions[k..] == rest.instructions[k - 1..];
      } else {
        FirstAddress(t, img, next, n - 1);
        TailShared(t, img, next, n - 1, 0, m - 1);
        assert b.instructions[0..] == b.instructions && rest.instructions[0..] == rest.instructions;
      }
    } else {
      assert b.instructions[0..] == b.instructions;
    }
  }
}
