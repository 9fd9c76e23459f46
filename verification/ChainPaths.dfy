/** Where chains of forwarding jumps lead, told by the addresses they go through and the
    transfers that stand there. */
module ChainPaths {
  import opened Words
  import opened InstrTable
  import opened TableOrder
  import opened Decoder
  import opened Flow
  import opened Operands
  import opened Machine
  import opened Branch
  import opened Transfers
  import opened IdiomSound
  import opened IdiomFound

  // ------------------------------------------------------------ the first destination

  /** `n` readable data bytes at `a` with the value `v`, whose other bytes are those of the
      variable before it is assigned. */
  predicate PointerAt(env: Env, a: u64, n: nat, v: u64) {
    && env.data.Some?
    && forall k: nat :: k < 8 ==>
         if k < n then At(a, k) in env.data.value && Le(v, 8)[k] == env.data.value[At(a, k)]
         else Le(v, 8)[k] == Le(env.junk, 8)[k]
  }

  lemma ReadBytes(env: Env, a: u64, n: nat)
    ensures var b := ReadData(env, a, n);
            && (b.Some? <==> env.data.Some? && forall k: nat :: k < n ==> At(a, k) in env.data.value)
            && (b.Some? ==> |b.value| == n && forall k: nat :: k < n ==> b.value[k] == env.data.value[At(a, k)])
  {
    hide Window, At;
    if env.data.Some? {
      WindowIs(env.data.value, a, n);
    }
  }

  lemma JunkBehind(env: Env, s: seq<u8>)
    requires |s| <= 8
    ensures Le(OverJunk(env, s), 8) == s + Le(env.junk, 8)[|s|..]
  {
    hide Le, FromLe;
    var e := s + Le(env.junk, 8)[|s|..];
    QuadwordRange(e);
    LeOfFromLe(e);
    assert |s| == 8 ==> e == s;
    assert env.(junk := env.junk) == env;
  }

  lemma SameBytes(v: u64, w: u64)
    requires Le(v, 8) == Le(w, 8)
    ensures v == w
  {
    hide Le, FromLe;
    FromLeOfLe(v, 8);
    FromLeOfLe(w, 8);
    Pow256Values();
    InRange(v);
    InRange(w);
  }

  /** The bytes of a pointer that are read; no size stands for eight. */
  function PointerSize(p: Pattern): nat {
    if p.ptrSize == 0 || p.ptrSize > 8 then 8 else p.ptrSize
  }

  /** The first destination is the target, or the pointer in a static readable slot. */
  lemma FirstHopIff(env: Env, p: Pattern, v: u64)
    ensures FirstHop(env, p) == Some(v)
            <==> || (p.resolution == Concrete && v == p.target)
                 || (p.resolution == MemoryPointer && p.slot.staticAddr
                     && PointerAt(env, p.slot.absAddr, PointerSize(p), v))
  {
    hide Le, ReadData, OverJunk, At;
    if p.resolution == MemoryPointer && p.slot.staticAddr && env.data.Some? {
      var n := PointerSize(p);
      ReadBytes(env, p.slot.absAddr, n);
      var b := ReadData(env, p.slot.absAddr, n);
      if b.Some? {
        JunkBehind(env, b.value);
        var w := OverJunk(env, b.value);
        if PointerAt(env, p.slot.absAddr, n, v) {
          assert Le(v, 8) == Le(w, 8);
          SameBytes(v, w);
        }
      }
    }
  }

  // ------------------------------------------------------------ the path

  /** A plain forwarding jump to `b` stands at `a`. */
  predicate Forwards(env: Env, opt: Options, a: u64, b: u64) {
    var r := Recognize(env, opt, a);
    r.Some? && r.value.effect == Jump && GoesTo(r.value) == Some(b)
  }

  lemma HopIff(env: Env, opt: Options, a: u64, b: u64)
    requires !opt.followChains
    ensures Hop(env, opt, a) == Some(b) <==> Forwards(env, opt, a, b)
  {
    hide Recognize;
  }

  /** Forwarding jumps lead from each address to the next, which is another one. */
  predicate Path(env: Env, opt: Options, path: seq<u64>) {
    forall k :: 0 <= k < |path| - 1 ==> path[k + 1] != path[k] && Forwards(env, opt, path[k], path[k + 1])
  }

  /** No forwarding jump to another address stands at `a`. */
  ghost predicate ChainEnds(env: Env, opt: Options, a: u64) {
    forall b: u64 :: Forwards(env, opt, a, b) ==> b == a
  }

  lemma NoStep(env: Env, opt: Options, a: u64)
    ensures Path(env, opt, [a])
  {
  }

  lemma PathMore(env: Env, opt: Options, a: u64, rest: seq<u64>)
    requires rest != [] && rest[0] != a && Forwards(env, opt, a, rest[0]) && Path(env, opt, rest)
    ensures Path(env, opt, [a] + rest)
  {
    hide Forwards;
    var path := [a] + rest;
    forall k | 0 <= k < |path| - 1
      ensures path[k + 1] != path[k] && Forwards(env, opt, path[k], path[k + 1])
    {
      assert k > 0 ==> path[k] == rest[k - 1] && path[k + 1] == rest[k - 1 + 1];
    }
  }

  lemma HopsNowhere(env: Env, opt: Options, a: u64)
    requires !opt.followChains && Hop(env, opt, a) in {None, Some(a)}
    ensures ChainEnds(env, opt, a)
  {
    hide Hop, Forwards;
    forall b: u64 | Forwards(env, opt, a, b)
      ensures b == a
    {
      HopIff(env, opt, a, b);
    }
  }

  function Hopped(p: Pattern, next: u64, d: nat): (q: Pattern)
    ensures q.finalTarget == next && q.chainDepth == d
  {
    p.(finalTarget := next, chainDepth := d)
  }

  lemma FollowSteps(env: Env, opt: Options, p: Pattern, d: nat)
    requires opt.followChains && d <= opt.maxChainDepth
    ensures var next := Hop(env, NoChains(opt), p.finalTarget);
            Follow(env, opt, p, d)
            == if d == opt.maxChainDepth || next.None? || next.value == p.finalTarget then p
               else Follow(env, opt, Hopped(p, next.value, d + 1), d + 1)
  {
    hide Hop;
  }

  lemma {:induction false} FollowPath(env: Env, opt: Options, p: Pattern, d: nat) returns (path: seq<u64>)
    requires opt.followChains && d <= opt.maxChainDepth && p.chainDepth == d
    ensures var q := Follow(env, opt, p, d);
            && d <= q.chainDepth <= opt.maxChainDepth && |path| == q.chainDepth - d + 1
            && path[0] == p.finalTarget && path[|path| - 1] == q.finalTarget && Path(env, NoChains(opt), path)
            && (q.chainDepth < opt.maxChainDepth ==> ChainEnds(env, NoChains(opt), q.finalTarget))
    decreases opt.maxChainDepth - d
  {
    hide Hop, Forwards, Path, ChainEnds, Follow, Hopped;
    FollowSteps(env, opt, p, d);
    path := [p.finalTarget];
    NoStep(env, NoChains(opt), p.finalTarget);
    if d < opt.maxChainDepth {
      var next := Hop(env, NoChains(opt), p.finalTarget);
      if next.Some? && next.value != p.finalTarget {
        HopIff(env, NoChains(opt), p.finalTarget, next.value);
        var rest := FollowPath(env, opt, Hopped(p, next.value, d + 1), d + 1);
        PathMore(env, NoChains(opt), p.finalTarget, rest);
        path := [p.finalTarget] + rest;
      } else {
        HopsNowhere(env, NoChains(opt), p.finalTarget);
      }
    }
  }

  /** A chain is followed hop by hop: the addresses it goes through lead from the first
      destination to the final target, as many steps as the depth says, each by a jump that
      stands there and leads to another address; and unless the limit cut it short, it goes
      on until no such jump is left. */
  lemma ChainPath(env: Env, opt: Options, p: Pattern) returns (path: seq<u64>)
    requires opt.followMemory && opt.followChains && FirstHop(env, p).Some?
    ensures var q := Resolve(env, opt, p);
            && q.resolved && q.chainDepth <= opt.maxChainDepth && |path| == q.chainDepth + 1
            && Some(path[0]) == FirstHop(env, p) && path[|path| - 1] == q.finalTarget
            && Path(env, NoChains(opt), path)
            && (q.chainDepth < opt.maxChainDepth ==> ChainEnds(env, NoChains(opt), q.finalTarget))
  {
    hide Follow, FirstHop, Path, ChainEnds;
    ChainIsIterated(env, opt, p);
    path := FollowPath(env, opt, p.(finalTarget := FirstHop(env, p).value, resolved := true, chainDepth := 0), 0);
  }

  // ------------------------------------------------------------ what is resolved

  lemma ResolveOnce(env: Env, opt: Options, p: Pattern)
    ensures !opt.followMemory || FirstHop(env, p).None? ==> Resolve(env, opt, p) == p
    ensures opt.followMemory && FirstHop(env, p).Some? ==> Resolve(env, opt, p).resolved
    ensures opt.followMemory && FirstHop(env, p).Some? && !opt.followChains ==>
              Resolve(env, opt, p).finalTarget == FirstHop(env, p).value && Resolve(env, opt, p).chainDepth == 0
  {
    hide FirstHop, Follow;
    if opt.followMemory && opt.followChains && FirstHop(env, p).Some? {
      ChainIsIterated(env, opt, p);
    }
  }

  /** A pattern through memory is resolved exactly if memory is to be followed and its slot is
      static and can be read; without chains its final target is the pointer in the slot. */
  lemma SlotResolvedIff(env: Env, opt: Options, addr: u64)
    requires Recognize(env, opt, addr).Some? && Recognize(env, opt, addr).value.resolution == MemoryPointer
    ensures var q := Recognize(env, opt, addr).value;
            && (q.resolved <==> opt.followMemory && q.slot.staticAddr
                                && exists v: u64 :: PointerAt(env, q.slot.absAddr, PointerSize(q), v))
            && (q.resolved && !opt.followChains ==>
                  PointerAt(env, q.slot.absAddr, PointerSize(q), q.finalTarget) && q.chainDepth == 0)
  {
    hide Shape, FirstHop, Resolve, PointerAt;
    RecognizeShape(env, opt, addr);
    UnresolvedShape(env, opt, addr);
    var p, q := Shape(env, opt, addr).value, Recognize(env, opt, addr).value;
    assert q == Resolve(env, opt, p) && q.slot == p.slot && PointerSize(q) == PointerSize(p);
    ResolveOnce(env, opt, p);
    if FirstHop(env, p).Some? {
      var v := FirstHop(env, p).value;
      FirstHopIff(env, p, v);
      assert PointerAt(env, q.slot.absAddr, PointerSize(q), v);
    } else {
      forall v: u64
        ensures p.slot.staticAddr ==> !PointerAt(env, p.slot.absAddr, PointerSize(p), v)
      {
        FirstHopIff(env, p, v);
      }
    }
  }

  // ------------------------------------------------------------ what ends a chain

  /** A near jump with a relative operand forwards to its target. */
  lemma DirectForwards(env: Env, opt: Options, a: u64, d: Decoded)
    requires Fetch(env.table, env.code, a) == Some(d)
    requires d.instr.desc.mnemonic == JMP && HasOperand(d.instr.desc, RelOffset)
    ensures Forwards(env, opt, a, (a + d.size + d.instr.immediate) % W64)
  {
    hide Fetch, Recognize, HasOperand;
    JumpFound(env, opt, a, d);
  }

  /** A near jump through a static quadword that can be read forwards to what is there. */
  lemma SlotForwards(env: Env, opt: Options, a: u64, d: Decoded, b: u64)
    requires Fetch(env.table, env.code, a) == Some(d) && opt.followMemory && !opt.followChains
    requires var i := d.instr;
             && i.desc.mnemonic == JMP && !HasOperand(i.desc, RelOffset) && HasRegisterOrMemory(i.desc)
                && i.modrm < 0xC0
             && BuildMemRef(i, a).staticAddr && PointerAt(env, BuildMemRef(i, a).absAddr, 8, b)
    ensures Forwards(env, opt, a, b)
  {
    hide Fetch, HasOperand, HasRegisterOrMemory, BuildMemRef, PointerAt, Shape, FirstHop, SingleForm, HasAddr;
    IndirectFound(env, opt, a, d);
    var p := Shape(env, opt, a).value;
    RecognizeShape(env, opt, a);
    assert p.resolution == MemoryPointer && p.slot == BuildMemRef(d.instr, a) && p.ptrSize == 8;
    FirstHopIff(env, p, b);
  }

  /** A move of a constant and a jump through its register, or a push of a constant and a
      return, forward there too. */
  lemma IdiomForwards(env: Env, opt: Options, a: u64, ins: seq<Decoded>, r: u5, v: u64)
    requires Stand(env, a, ins) && |ins| == 2
    requires || (MovesConstant(ins[0].instr, r, v) && BranchesThrough(ins[1].instr, r)
                 && ins[1].instr.desc.mnemonic == JMP && 1 < opt.maxIdiomInsns)
             || (PushesConstant(ins[0].instr) && v == ins[0].instr.immediate % W64
                 && ins[1].instr.desc.mnemonic == RETN)
    ensures Forwards(env, opt, a, v)
  {
    hide Stand, MovesConstant, BranchesThrough, PushesConstant, Recognize, Sizes;
    if PushesConstant(ins[0].instr) && ins[1].instr.desc.mnemonic == RETN {
      PushPairFound(env, opt, a, ins);
    } else {
      assert Computed(v, ins[1..1]) == v;
      ConstantIdiomFound(env, opt, a, ins, 1, r, v);
    }
  }

  /** Below the limit a chain does not end at a jump that could be followed: neither a direct
      one nor one through a readable slot, unless it leads to itself. */
  lemma ChainEndsAt(env: Env, opt: Options, p: Pattern, d: Decoded)
    requires opt.followMemory && opt.followChains && FirstHop(env, p).Some?
    requires Resolve(env, opt, p).chainDepth < opt.maxChainDepth
    requires Fetch(env.table, env.code, Resolve(env, opt, p).finalTarget) == Some(d) && d.instr.desc.mnemonic == JMP
    ensures var i, a := d.instr, Resolve(env, opt, p).finalTarget;
            && (HasOperand(i.desc, RelOffset) ==> (a + d.size + i.immediate) % W64 == a)
            && (!HasOperand(i.desc, RelOffset) && HasRegisterOrMemory(i.desc) && i.modrm < 0xC0
                && BuildMemRef(i, a).staticAddr ==>
                  forall b: u64 :: PointerAt(env, BuildMemRef(i, a).absAddr, 8, b) ==> b == a)
  {
    hide Fetch, HasOperand, HasRegisterOrMemory, BuildMemRef, PointerAt, Resolve, FirstHop, Forwards;
    var path := ChainPath(env, opt, p);
    var i, a := d.instr, Resolve(env, opt, p).finalTarget;
    if HasOperand(i.desc, RelOffset) {
      DirectForwards(env, NoChains(opt), a, d);
    } else if HasRegisterOrMemory(i.desc) && i.modrm < 0xC0 && BuildMemRef(i, a).staticAddr {
      forall b: u64 | PointerAt(env, BuildMemRef(i, a).absAddr, 8, b)
        ensures b == a
      {
        SlotForwards(env, NoChains(opt), a, d, b);
      }
    }
  }
}
