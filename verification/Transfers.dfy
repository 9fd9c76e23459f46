/** What resolution and the sweep over a straight-line run deliver. */
module Transfers {
  import opened Words
  import opened InstrTable
  import opened Decoder
  import opened Flow
  import opened Operands
  import opened Machine
  import opened Branch

  // ------------------------------------------------------------ lengths

  /** `lengths` are the lengths of consecutive instructions from `addr` on. */
  predicate Decodes(env: Env, addr: u64, lengths: seq<nat>) {
    forall k :: 0 <= k < |lengths| ==>
      var r := FetchAt(env, addr + SumOf(lengths[..k])); r.Some? && r.value.size == lengths[k]
  }

  lemma DecodesMore(env: Env, addr: u64, lengths: seq<nat>, r: Decoded)
    requires Decodes(env, addr, lengths) && FetchAt(env, addr + SumOf(lengths)) == Some(r)
    ensures Decodes(env, addr, lengths + [r.size])
  {
    hide FetchAt, SumOf;
    var more := lengths + [r.size];
    forall k | 0 <= k < |more|
      ensures var f := FetchAt(env, addr + SumOf(more[..k])); f.Some? && f.value.size == more[k]
    {
      assert more[..k] == lengths[..k];
      assert k == |lengths| ==> lengths[..k] == lengths;
    }
  }

  lemma DecodesFirst(env: Env, addr: u64, r: Decoded)
    requires Fetch(env.table, env.code, addr) == Some(r)
    ensures Decodes(env, addr, [r.size]) && SumOf([r.size]) == r.size
  {
    hide Fetch;
    assert [] + [r.size] == [r.size] && SumOf([]) == 0;
    DecodesMore(env, addr, [], r);
    SumOne(r.size);
  }

  lemma {:induction false} ScanLengths(env: Env, opt: Options, addr: u64, ld: LoadOp, arith: bool, lengths: seq<nat>)
    requires Scan(env, opt, addr, ld, arith, lengths).Some? && Decodes(env, addr, lengths)
    ensures var p := Scan(env, opt, addr, ld, arith, lengths).value;
            p.address == addr && Decodes(env, addr, p.lengths) && |lengths| < |p.lengths| <= 7
    decreases 6 - |lengths|
  {
    hide FetchAt, SumOf, Decodes, BranchReg, PushReg, Folded;
    var d := FetchAt(env, addr + SumOf(lengths)).value;
    var more := lengths + [d.size];
    DecodesMore(env, addr, lengths, d);
    SumMore(lengths, d.size);
    if BranchReg(d.instr) == Some(ld.reg) {
    } else if PushReg(d.instr) == Some(ld.reg) {
      DecodesMore(env, addr, more, FetchAt(env, addr + SumOf(more)).value);
    } else {
      ScanLengths(env, opt, addr, Folded(opt, ld, d.instr).value, true, more);
    }
  }

  lemma PushImmLengths(env: Env, addr: u64, d: Decoded)
    requires Fetch(env.table, env.code, addr) == Some(d) && PushImmIdiom(env, addr, d).Some?
    ensures var p := PushImmIdiom(env, addr, d).value;
            p.address == addr && Decodes(env, addr, p.lengths) && 2 <= |p.lengths| <= 3
  {
    hide Fetch, Decodes, PushImm, MovRsp4Imm, SumOf;
    DecodesFirst(env, addr, d);
    var d1 := FetchAt(env, addr + d.size).value;
    DecodesMore(env, addr, [d.size], d1);
    SumMore([d.size], d1.size);
    assert [d.size] + [d1.size] == [d.size, d1.size];
    if !IsRetn(Some(d1)) {
      var d2 := FetchAt(env, addr + d.size + d1.size).value;
      DecodesMore(env, addr, [d.size, d1.size], d2);
      assert [d.size, d1.size] + [d2.size] == [d.size, d1.size, d2.size];
    }
  }

  lemma PushRegLengths(env: Env, addr: u64, d: Decoded)
    requires Fetch(env.table, env.code, addr) == Some(d) && PushRegIdiom(env, addr, d).Some?
    ensures var p := PushRegIdiom(env, addr, d).value;
            p.address == addr && Decodes(env, addr, p.lengths) && |p.lengths| == 2
  {
    hide Fetch, Decodes, PushReg, SumOf;
    DecodesFirst(env, addr, d);
    var d1 := FetchAt(env, addr + d.size).value;
    DecodesMore(env, addr, [d.size], d1);
    assert [d.size] + [d1.size] == [d.size, d1.size];
  }

  lemma SingleLengths(env: Env, addr: u64, d: Decoded)
    requires Fetch(env.table, env.code, addr) == Some(d) && SingleForm(addr, d).Some?
    ensures var p := SingleForm(addr, d).value;
            p.address == addr && p.lengths == [d.size] && Decodes(env, addr, p.lengths)
  {
    hide Fetch, Decodes;
    DecodesFirst(env, addr, d);
  }

  lemma ShapeLengths(env: Env, opt: Options, addr: u64)
    requires Shape(env, opt, addr).Some?
    ensures var p := Shape(env, opt, addr).value;
            p.address == addr && Decodes(env, addr, p.lengths) && 1 <= |p.lengths| <= 7
  {
    hide Fetch, Decodes, PushImmIdiom, PushRegIdiom, SingleForm, Scan, LoadOf;
    var d := Fetch(env.table, env.code, addr).value;
    if PushImmIdiom(env, addr, d).Some? {
      PushImmLengths(env, addr, d);
    } else if PushRegIdiom(env, addr, d).Some? {
      PushRegLengths(env, addr, d);
    } else if LoadIdiom(env, opt, addr, d).Some? {
      DecodesFirst(env, addr, d);
      ScanLengths(env, opt, addr, LoadOf(d.instr, addr).value, false, [d.size]);
    } else {
      SingleLengths(env, addr, d);
    }
  }

  // ------------------------------------------------------------ chains

  /** `n` forwarding hops from `addr`. */
  function Hops(env: Env, opt: Options, addr: u64, n: nat): Option<u64>
    requires !opt.followChains
  {
    if n == 0 then Some(addr) else
    var a :- Hops(env, opt, addr, n - 1);
    Hop(env, opt, a)
  }

  /** Resolution changes only what it is to fill in. */
  predicate SameBut(p: Pattern, q: Pattern) {
    q == p.(resolved := q.resolved, finalTarget := q.finalTarget, chainDepth := q.chainDepth)
  }

  lemma {:induction false} FollowIsHops(env: Env, opt: Options, p: Pattern, first: u64, d: nat)
    requires opt.followChains && d <= opt.maxChainDepth && p.chainDepth == d
             && Hops(env, NoChains(opt), first, d) == Some(p.finalTarget)
    ensures var q := Follow(env, opt, p, d);
            && SameBut(p, q) && q.resolved == p.resolved && d <= q.chainDepth <= opt.maxChainDepth
            && Hops(env, NoChains(opt), first, q.chainDepth) == Some(q.finalTarget)
            && (q.chainDepth < opt.maxChainDepth ==>
                Hop(env, NoChains(opt), q.finalTarget) in {None, Some(q.finalTarget)})
    decreases opt.maxChainDepth - d
  {
    hide Hop;
    if d < opt.maxChainDepth {
      var next := Hop(env, NoChains(opt), p.finalTarget);
      if next.Some? && next.value != p.finalTarget {
        FollowIsHops(env, opt, p.(finalTarget := next.value, chainDepth := d + 1), first, d + 1);
      }
    }
  }

  /** With chains enabled, the final target is the hop function applied as often as the
      depth says to the first destination; the depth stays within its limit, and below
      the limit the last target is no forwarding jump, or one to itself. */
  lemma ChainIsIterated(env: Env, opt: Options, p: Pattern)
    requires opt.followMemory && opt.followChains && FirstHop(env, p).Some?
    ensures var q := Resolve(env, opt, p);
            && SameBut(p, q) && q.resolved && q.chainDepth <= opt.maxChainDepth
            && Hops(env, NoChains(opt), FirstHop(env, p).value, q.chainDepth) == Some(q.finalTarget)
            && (q.chainDepth < opt.maxChainDepth ==>
                Hop(env, NoChains(opt), q.finalTarget) in {None, Some(q.finalTarget)})
  {
    hide Follow, FirstHop, Hop;
    var first := FirstHop(env, p).value;
    FollowIsHops(env, opt, p.(finalTarget := first, resolved := true, chainDepth := 0), first, 0);
  }

  /** The pointer is read from memory with fewer than eight bytes. */
  predicate ReadsNarrow(env: Env, p: Pattern) {
    p.resolution == MemoryPointer && p.slot.staticAddr && env.data.Some? && 0 < p.ptrSize < 8
      && ReadData(env, p.slot.absAddr, p.ptrSize).Some?
  }

  lemma JunkBytes(env: Env, s: seq<u8>, j: u64)
    requires |s| <= 8
    ensures |s| == 8 ==> OverJunk(env.(junk := j), s) == FromLe(s) % W64
    ensures |s| < 8 ==> OverJunk(env.(junk := j), s) == FromLe(s + Le(j, 8)[|s|..]) && |s + Le(j, 8)[|s|..]| == 8
  {
    hide Le, FromLe;
    Pow256Values();
    var e := s + (if |s| < 8 then Le(j, 8)[|s|..] else []);
    assert |e| == 8;
    ModUnique(FromLe(e), W64, 0, FromLe(e));
    assert |s| == 8 ==> e == s;
  }

  /** The bytes of 0 and of -1. */
  lemma {:induction false} EqualBytes(n: nat)
    ensures forall k :: 0 <= k < n ==> Le(0, n)[k] == 0 && Le(-1, n)[k] == 255
    decreases n
  {
    if n > 0 {
      EqualBytes(n - 1);
    }
  }

  lemma JunkShows(env: Env, s: seq<u8>)
    requires |s| < 8
    ensures OverJunk(env.(junk := 0), s) != OverJunk(env.(junk := W64 - 1), s)
  {
    hide Le, FromLe, OverJunk;
    JunkBytes(env, s, 0);
    JunkBytes(env, s, W64 - 1);
    EqualBytes(8);
    Pow256Values();
    LeCongruent(W64 - 1, -1, 8);
    var a, b := s + Le(0, 8)[|s|..], s + Le(W64 - 1, 8)[|s|..];
    assert a[7] == Le(0, 8)[7] && b[7] == Le(W64 - 1, 8)[7];
    LeOfFromLe(a);
    LeOfFromLe(b);
  }

  /** The first destination is determined exactly when no pointer of fewer than eight
      bytes is read: the upper bytes of a narrow one are whatever the variable held. */
  lemma DeterminedIff(env: Env, p: Pattern)
    ensures (forall j: u64, k: u64 :: FirstHop(env.(junk := j), p) == FirstHop(env.(junk := k), p))
            <==> !ReadsNarrow(env, p)
  {
    hide OverJunk, Le, FromLe;
    if ReadsNarrow(env, p) {
      JunkShows(env, ReadData(env, p.slot.absAddr, p.ptrSize).value);
      assert FirstHop(env.(junk := 0), p) != FirstHop(env.(junk := W64 - 1), p);
    } else {
      forall j: u64, k: u64
        ensures FirstHop(env.(junk := j), p) == FirstHop(env.(junk := k), p)
      {
        var s := ReadData(env, p.slot.absAddr, 8);
        if s.Some? {
          JunkBytes(env, s.value, j);
          JunkBytes(env, s.value, k);
        }
      }
    }
  }

  // ------------------------------------------------------------ the sweep

  /** A step of the sweep: an ordinary instruction or a transfer. */
  datatype Item = Skip(length: nat) | Take(pattern: Pattern)

  function ItemLength(item: Item): nat {
    if item.Skip? then item.length else TotalLength(item.pattern)
  }

  function Span(items: seq<Item>): nat {
    if items == [] then 0 else ItemLength(items[0]) + Span(items[1..])
  }

  function Taken(items: seq<Item>): seq<Pattern> {
    if items == [] then []
    else (if items[0].Take? then [items[0].pattern] else []) + Taken(items[1..])
  }

  /** At most `n` steps from `pc` on. */
  function Items(env: Env, opt: Options, pc: u64, n: nat): seq<Item>
    decreases n
  {
    if n == 0 then [] else
    var d := Fetch(env.table, env.code, pc);
    if d.None? then [] else
    var p := Recognize(env, opt, pc);
    if p.None? then [Skip(d.value.size)] + Items(env, opt, At(pc, d.value.size), n - 1)
    else if !p.value.hasFallthrough then [Take(p.value)]
    else [Take(p.value)] + Items(env, opt, At(pc, TotalLength(p.value)), n - 1)
  }

  lemma NothingTaken()
    ensures Taken([]) == []
  {
  }

  lemma SkipOne(n: nat, rest: seq<Item>)
    ensures Taken([Skip(n)] + rest) == Taken(rest)
  {
    assert ([Skip(n)] + rest)[1..] == rest;
  }

  lemma TakeOne(p: Pattern, rest: seq<Item>)
    ensures Taken([Take(p)] + rest) == [p] + Taken(rest)
    ensures Taken([Take(p)]) == [p]
  {
    assert ([Take(p)] + rest)[1..] == rest && [Take(p)][1..] == [];
  }

  /** Every transfer along the straight-line run from `entry`. */
  method RecognizeAll(om: OpcodeMap, env: Env, opt: Options, entry: u64, maxTransfers: nat) returns (out: seq<Pattern>)
    requires om.Valid() && om.table == env.table
    ensures out == Taken(Items(env, opt, entry, maxTransfers))
  {
    hide Recognize, Fetch, Taken, TotalLength;
    out := [];
    ghost var items := Items(env, opt, entry, maxTransfers);
    var pc := entry;
    NothingTaken();
    for i := 0 to maxTransfers
      invariant |out| <= i && Taken(items) == out + Taken(Items(env, opt, pc, maxTransfers - i))
    {
      var d := FillDecode(om, env.code, pc);
      NothingTaken();
      if d.None? { return; }
      var p := RecognizeAt(om, env, opt, pc);
      if p.Some? {
        TakeOne(p.value,
                if p.value.hasFallthrough then Items(env, opt, At(pc, TotalLength(p.value)), maxTransfers - i - 1)
                else []);
        out := out + [p.value];
        if |out| >= maxTransfers { return; }
        if !p.value.hasFallthrough { return; }
        pc := At(pc, TotalLength(p.value));
      } else {
        SkipOne(d.value.size, Items(env, opt, At(pc, d.value.size), maxTransfers - i - 1));
        pc := At(pc, d.value.size);
      }
    }
  }

  lemma RecognizeShape(env: Env, opt: Options, addr: u64)
    requires Recognize(env, opt, addr).Some?
    ensures Shape(env, opt, addr).Some? && SameBut(Shape(env, opt, addr).value, Recognize(env, opt, addr).value)
  {
    hide Shape, FirstHop, Follow;
    var p := Shape(env, opt, addr).value;
    if p.resolution == MemoryPointer && opt.followMemory && opt.followChains && FirstHop(env, p).Some? {
      ChainIsIterated(env, opt, p);
    }
  }

  lemma FetchedSize(env: Env, addr: int)
    requires FetchAt(env, addr).Some?
    ensures FetchAt(env, addr).value.size >= 1
  {
    hide Window;
  }

  lemma TotalPositive(env: Env, addr: u64, lengths: seq<nat>)
    requires Decodes(env, addr, lengths) && lengths != []
    ensures SumOf(lengths) >= 1
  {
    hide FetchAt, SumOf;
    var k := |lengths| - 1;
    assert FetchAt(env, addr + SumOf(lengths[..k])).Some?;
    FetchedSize(env, addr + SumOf(lengths[..k]));
    assert lengths == lengths[..k] + [lengths[k]];
    SumMore(lengths[..k], lengths[k]);
  }

  lemma FirstItem(env: Env, opt: Options, pc: u64)
    ensures Fetch(env.table, env.code, pc).Some? ==> Fetch(env.table, env.code, pc).value.size >= 1
    ensures var p := Recognize(env, opt, pc);
            p.Some? ==> p.value.address == pc && Decodes(env, pc, p.value.lengths) && TotalLength(p.value) >= 1
  {
    hide Decodes, Shape, Decode, Resolve;
    if Recognize(env, opt, pc).Some? {
      RecognizeShape(env, opt, pc);
      ShapeLengths(env, opt, pc);
      TotalPositive(env, pc, Recognize(env, opt, pc).value.lengths);
    }
  }

  lemma {:induction false} ItemsCount(env: Env, opt: Options, pc: u64, n: nat)
    ensures |Items(env, opt, pc, n)| <= n
    decreases n
  {
    hide Recognize, Fetch, TotalLength;
    if n > 0 && Fetch(env.table, env.code, pc).Some? {
      var d, p := Fetch(env.table, env.code, pc).value, Recognize(env, opt, pc);
      ItemsCount(env, opt, At(pc, if p.None? then d.size else TotalLength(p.value)), n - 1);
    }
  }

  /** The steps tile the run: each starts where the one before ended; a transfer is the
      pattern recognized there, whose length is that of consecutive decodes and which
      only the last may leave without fall-through; a skipped instruction is decoded
      there and is no transfer. */
  lemma {:induction false} ItemsTile(env: Env, opt: Options, pc: u64, n: nat, k: nat)
    requires k < |Items(env, opt, pc, n)|
    ensures |Items(env, opt, pc, n)| <= n
    ensures var items := Items(env, opt, pc, n);
            var at := At(pc, Span(items[..k]));
            var p, d := Recognize(env, opt, at), Fetch(env.table, env.code, at);
            && d.Some? && ItemLength(items[k]) >= 1
            && match items[k]
               case Skip(length) => p.None? && length == d.value.size
               case Take(q) =>
                 && p == Some(q) && q.address == at && Decodes(env, at, q.lengths)
                 && (k < |items| - 1 ==> q.hasFallthrough)
    decreases n
  {
    hide Recognize, Fetch, Decodes, TotalLength;
    var items, d, p := Items(env, opt, pc, n), Fetch(env.table, env.code, pc), Recognize(env, opt, pc);
    FirstItem(env, opt, pc);
    if k > 0 {
      var len := ItemLength(items[0]);
      ItemsTile(env, opt, At(pc, len), n - 1, k - 1);
      assert items[1..] == Items(env, opt, At(pc, len), n - 1);
      assert items[..k][1..] == items[1..][..k - 1];
      ModSum(pc + len, Span(items[1..][..k - 1]), W64);
    } else {
      ItemsCount(env, opt, pc, n);
      assert items[..0] == [] && At(pc, 0) == pc;
    }
  }

  lemma NoSpan()
    ensures Span([]) == 0
  {
  }

  lemma SpanMore(item: Item, rest: seq<Item>)
    ensures Span([item] + rest) == ItemLength(item) + Span(rest)
  {
    assert ([item] + rest)[1..] == rest;
  }

  /** The sweep ends only at the limit, where nothing can be decoded, or behind a transfer
      without fall-through. */
  lemma {:induction false} ItemsEnd(env: Env, opt: Options, pc: u64, n: nat)
    ensures var items := Items(env, opt, pc, n);
            || |items| == n
            || Fetch(env.table, env.code, At(pc, Span(items))).None?
            || (items != [] && items[|items| - 1].Take? && !items[|items| - 1].pattern.hasFallthrough)
    decreases n
  {
    hide Recognize, Fetch, TotalLength, Span;
    NoSpan();
    var items, d, p := Items(env, opt, pc, n), Fetch(env.table, env.code, pc), Recognize(env, opt, pc);
    assert At(pc, 0) == pc;
    if n > 0 && d.Some? && (p.None? || p.value.hasFallthrough) {
      var len := ItemLength(items[0]);
      var rest := Items(env, opt, At(pc, len), n - 1);
      ItemsEnd(env, opt, At(pc, len), n - 1);
      assert items == [items[0]] + rest;
      SpanMore(items[0], rest);
      ModSum(pc + len, Span(rest), W64);
    }
  }

  /** The transfers reported are those of the steps, each once and in their order. */
  lemma {:induction false} TakenSplits(items: seq<Item>, k: nat)
    requires k < |items|
    ensures Taken(items)
            == Taken(items[..k]) + (if items[k].Take? then [items[k].pattern] else []) + Taken(items[k + 1..])
  {
    if k > 0 {
      TakenSplits(items[1..], k - 1);
      assert items[..k][1..] == items[1..][..k - 1] && items[1..][k..] == items[k + 1..];
    } else {
      NothingTaken();
      assert items[..0] == [];
    }
  }

  // ------------------------------------------------------------ the two classifiers

  lemma TableKeepsFlow(p: Pattern, i: DecodedInstr, addr: u64)
    ensures IndirectForm(p, i, addr).hasFallthrough == IsCall(i.desc.mnemonic)
  {
    hide BuildMemRef;
  }

  /** The mnemonics that transfer control, and those behind which execution can go on. */
  lemma SingleFallthrough(addr: u64, d: Decoded)
    requires SingleForm(addr, d).Some?
    ensures var m := d.instr.desc.mnemonic;
            && (m.CountJcc? || m.Jcc? || IsCall(m) || IsJump(m) || IsReturn(m) || IsTrap(m) || IsSyscall(m))
            && SingleForm(addr, d).value.hasFallthrough
               == (m.CountJcc? || m.Jcc? || IsCall(m) || m in {INT, INT1, INTO} || IsSyscall(m))
  {
    hide BuildMemRef, HasAddr, IndirectForm, HasIndirect;
    TableKeepsFlow(Blank(addr).(lengths := [d.size]), d.instr, addr);
  }

  /** The recognizer and the flow classifier agree on whether execution can continue past
      a transfer, except for UD and far jumps, which the classifier takes for sequential. */
  lemma FallthroughAgreesIff(addr: u64, d: Decoded)
    requires SingleForm(addr, d).Some?
    ensures SingleForm(addr, d).value.hasFallthrough == FlowOf(d, addr).hasFallthrough
            <==> var m := d.instr.desc.mnemonic; m != UD && m != JMPF && !(m == UD2 && HasAddr(d.instr.desc, RelOffset))
  {
    hide SingleForm, HasAddr;
    SingleFallthrough(addr, d);
  }

  /** They compute the same target for every near relative transfer. */
  lemma TargetsAgree(addr: u64, d: Decoded)
    requires SingleForm(addr, d).Some? && d.instr.length == d.size && HasAddr(d.instr.desc, RelOffset)
    requires var m := d.instr.desc.mnemonic; m == JMP || m == CALL || m.Jcc? || m.CountJcc?
    ensures SingleForm(addr, d).value.target == FlowOf(d, addr).target
    ensures var e, k := SingleForm(addr, d).value.effect, FlowOf(d, addr).kind;
            && (e == Jump <==> k == FlowType.Branch) && (e == CallEffect <==> k == FlowType.Call)
            && (e == ConditionalJump <==> k == FlowType.ConditionalBranch)
  {
    hide BuildMemRef, HasAddr, HasIndirect, IndirectForm, FarForm, IsTrap, IsSyscall, Traps;
  }
}
