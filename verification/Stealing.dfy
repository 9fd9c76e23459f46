/** Taking instructions away for a hook: how many bytes, and that they relocate. */
module Stealing {
  import opened Words
  import opened InstrTable
  import opened Decoder
  import opened RoundTrip
  import opened Locality
  import opened Sweeping
  import opened Relocation
  import opened Moving
  import opened CodecCases

  /** Decoding at `at` always looks at fifteen bytes. */
  const WINDOW: nat := 15

  function DecodeAt(t: Table, code: seq<u8>, at: nat): Option<Decoded>
    requires at + WINDOW <= |code|
  {
    Decode(t, code[at..at + WINDOW])
  }

  /** `run` lists consecutive instructions from the start of `code`. */
  ghost predicate Consecutive(t: Table, code: seq<u8>, run: seq<Decoded>)
    decreases |run|
  {
    run != [] ==>
      var front := run[..|run| - 1];
      Consecutive(t, code, front) && Length(front) + WINDOW <= |code|
        && DecodeAt(t, code, Length(front)) == Some(run[|run| - 1])
  }

  lemma {:induction false} LengthAppend(run: seq<Decoded>, r: Decoded)
    ensures Length(run + [r]) == Length(run) + r.size
  {
    if run == [] {
      assert OffsetOf([r][1..], 0) == 0;
    } else {
      assert (run + [r])[1..] == run[1..] + [r];
      LengthAppend(run[1..], r);
    }
  }

  lemma ConsecutiveMore(t: Table, code: seq<u8>, run: seq<Decoded>, r: Decoded)
    requires Consecutive(t, code, run) && Length(run) + WINDOW <= |code| && DecodeAt(t, code, Length(run)) == Some(r)
    ensures Consecutive(t, code, run + [r]) && Length(run + [r]) == Length(run) + r.size
  {
    hide Length, Decode;
    assert (run + [r])[..|run|] == run;
    LengthAppend(run, r);
  }

  /** `n` is the least instruction boundary that is at least `min`; `run` leads to it. */
  ghost predicate LeastBoundary(t: Table, code: seq<u8>, min: nat, n: nat, run: seq<Decoded>) {
    Consecutive(t, code, run) && n == Length(run) && min <= n && forall k :: 0 <= k < |run| ==> OffsetOf(run, k) < min
  }

  /** The sweep stops short of `min`, or its next boundary is past `max`. */
  ghost predicate Fails(t: Table, code: seq<u8>, min: nat, max: nat, run: seq<Decoded>) {
    && Consecutive(t, code, run) && Length(run) < min && Length(run) + WINDOW <= |code|
    && var d := DecodeAt(t, code, Length(run));
       d.Some? ==> Length(run) + d.value.size > max
  }

  /** Every window the sweep looks at lies in the code. */
  ghost predicate WindowsFit(t: Table, code: seq<u8>, min: nat, max: nat) {
    forall run :: Consecutive(t, code, run) && Length(run) < min && Length(run) <= max ==>
      Length(run) + WINDOW <= |code|
  }

  lemma {:induction false} OffsetInFront(run: seq<Decoded>, r: Decoded, k: nat)
    requires k <= |run|
    ensures OffsetOf(run + [r], k) == OffsetOf(run, k)
  {
    if k > 0 {
      assert (run + [r])[1..] == run[1..] + [r];
      OffsetInFront(run[1..], r, k - 1);
    }
  }

  lemma EmptyRun(t: Table, code: seq<u8>)
    ensures Consecutive(t, code, []) && Length([]) == 0
  {
  }

  lemma OffsetWhole(run: seq<Decoded>)
    ensures OffsetOf(run, |run|) == Length(run)
  {
  }

  /** The number of bytes to steal. */
  method CalcStolenBytes(om: OpcodeMap, code: seq<u8>, min: nat, max: nat) returns (total: nat)
    requires om.Valid() && WindowsFit(om.table, code, min, max)
    ensures if total == 0 && min > 0 then exists run :: Fails(om.table, code, min, max, run)
            else (min > 0 ==> total <= max) && exists run :: LeastBoundary(om.table, code, min, total, run)
  {
    hide Decode, Consecutive, Length;
    ghost var run := [];
    total := 0;
    EmptyRun(om.table, code);
    while total < min
      invariant total <= max && total == Length(run) && Consecutive(om.table, code, run)
      invariant forall k :: 0 <= k < |run| ==> OffsetOf(run, k) < min
      decreases min - total
    {
      var d := DecodeOne(om, code[total..total + WINDOW]);
      if d.None? || total + d.value.size > max {
        assert Fails(om.table, code, min, max, run);
        return 0;
      }
      ConsecutiveMore(om.table, code, run, d.value);
      forall k | 0 <= k <= |run|
        ensures OffsetOf(run + [d.value], k) < min
      {
        OffsetInFront(run, d.value, k);
        OffsetWhole(run);
      }
      total, run := total + d.value.size, run + [d.value];
    }
    assert LeastBoundary(om.table, code, min, total, run);
  }

  // ------------------------------------------------------------ the stolen bytes as a block

  /** The entry is chosen again when the string ends with the instruction: the byte looked
      at behind the opcode is part of it, or a zero in its place does not matter. */
  predicate CutSafe(t: Table, s: seq<u8>)
    requires Decode(t, s).Some?
  {
    var p, r := PrefixEnd(s, 0), Decode(t, s).value;
    var h := ParseHead(s, p).value;
    h.next < r.size || Choose(t, KeyOf(s[..p], h), 0) == Some(r.instr.desc)
  }

  /** An instruction that fills the window does not depend on the byte behind it. */
  predicate Bounded(t: Table, s: seq<u8>, next: u8)
    requires Decode(t, s).Some?
  {
    var p, r := PrefixEnd(s, 0), Decode(t, s).value;
    var h := ParseHead(s, p).value;
    r.size < |s|
    || (NoImplicit(r.instr.desc, h.opcode)
        && (h.next < r.size || Choose(t, KeyOf(s[..p], h), next) == Some(r.instr.desc)))
  }

  /** At its own end, a string decodes as in front of more bytes exactly if that is safe. */
  lemma CutIff(t: Table, s: seq<u8>)
    requires Decode(t, s).Some?
    ensures var r := Decode(t, s).value; r.size <= |s| && (Decode(t, s[..r.size]) == Some(r) <==> CutSafe(t, s))
  {
    hide Choose, ParseTail, ParseHead;
    var p, h, d, tl := DecodeSteps(t, s);
    var cut := s[..tl.next];
    assert cut[..tl.next] == cut;
    SameHead(s, cut, p, h, tl.next);
    if CutSafe(t, s) {
      DecodeLocal(t, s, cut, p, h, d, tl);
      ParsedDecodes(t, cut, p, h, d, tl);
    } else if Decode(t, cut).Some? {
      var p2, h2, d2, tl2 := DecodeSteps(t, cut);
    }
  }

  lemma LongerDecodes(t: Table, s: seq<u8>, s2: seq<u8>)
    requires Decode(t, s).Some?
    requires var r := Decode(t, s).value;
             && r.size <= |s| && r.size < |s2| && s2[..r.size] == s[..r.size] && Bounded(t, s, s2[r.size])
             && (r.size < |s| ==> s2[r.size] == s[r.size])
    ensures Decode(t, s2) == Decode(t, s)
  {
    hide Choose, ParseTail, ParseHead;
    var p, h, d, tl := DecodeSteps(t, s);
    DecodeLocal(t, s, s2, p, h, d, tl);
    ParsedDecodes(t, s2, p, h, d, tl);
  }

  lemma {:induction false} ConsecutiveAt(t: Table, code: seq<u8>, run: seq<Decoded>, k: nat)
    requires Consecutive(t, code, run) && k < |run|
    ensures OffsetOf(run, k) + WINDOW <= |code| && DecodeAt(t, code, OffsetOf(run, k)) == Some(run[k])
    decreases |run|
  {
    hide Decode, DecodeAt;
    var front, r := run[..|run| - 1], run[|run| - 1];
    assert run == front + [r];
    OffsetInFront(front, r, k);
    if k < |front| {
      ConsecutiveAt(t, code, front, k);
    }
  }

  lemma {:induction false} OffsetStep(run: seq<Decoded>, k: nat)
    requires k < |run|
    ensures OffsetOf(run, k + 1) == OffsetOf(run, k) + run[k].size
  {
    if k > 0 {
      OffsetStep(run[1..], k - 1);
    }
  }

  lemma {:induction false} OffsetsGrow(run: seq<Decoded>, k: nat)
    requires k <= |run|
    ensures OffsetOf(run, k) <= Length(run)
    decreases |run| - k
  {
    hide OffsetOf;
    if k < |run| {
      OffsetStep(run, k);
      OffsetsGrow(run, k + 1);
    }
  }

  /** Whether instruction `k` of the run decodes again in front of what is left up to `n`. */
  predicate DecodesAgain(t: Table, code: seq<u8>, run: seq<Decoded>, k: nat)
    requires k < |run| && OffsetOf(run, k) <= Length(run) <= |code|
  {
    Decode(t, code[OffsetOf(run, k)..Length(run)]) == Some(run[k])
  }

  lemma SplitRun(t: Table, s: seq<u8>, r: Decoded, rest: seq<Decoded>)
    requires s != [] && r.size <= |s|
    ensures Sweep(t, s) == Run([r] + rest, true)
            <==> Decode(t, s) == Some(r) && Sweep(t, s[r.size..]) == Run(rest, true)
  {
    hide Decode, Sweep;
    SweepStep(t, s);
    if Decode(t, s).Some? {
      var more := Sweep(t, s[Decode(t, s).value.size..]).instrs;
      assert ([Decode(t, s).value] + more)[1..] == more && ([r] + rest)[1..] == rest;
      assert ([Decode(t, s).value] + more)[0] == Decode(t, s).value && ([r] + rest)[0] == r;
    }
  }

  /** The sweep from instruction `k` on gives the rest of the run exactly if each of its
      instructions decodes again. */
  lemma {:induction false} SweepFromIff(t: Table, code: seq<u8>, run: seq<Decoded>, k: nat)
    requires k <= |run| && Length(run) <= |code| && forall j :: 0 <= j < |run| ==> run[j].size > 0
    ensures forall j :: 0 <= j <= |run| ==> OffsetOf(run, j) <= Length(run)
    ensures Sweep(t, code[OffsetOf(run, k)..Length(run)]) == Run(run[k..], true)
            <==> forall j :: k <= j < |run| ==> DecodesAgain(t, code, run, j)
    decreases |run| - k
  {
    hide Decode, OffsetOf, Sweep, Length;
    forall j | 0 <= j <= |run|
      ensures OffsetOf(run, j) <= Length(run)
    {
      OffsetsGrow(run, j);
    }
    if k == |run| {
      SweepEmpty(t);
      OffsetWhole(run);
      assert run[k..] == [] && code[OffsetOf(run, k)..Length(run)] == [];
    } else {
      OffsetStep(run, k);
      var o, n := OffsetOf(run, k), Length(run);
      var s := code[o..n];
      SweepStep(t, s);
      SweepFromIff(t, code, run, k + 1);
      assert s[run[k].size..] == code[OffsetOf(run, k + 1)..n];
      assert run[k..] == [run[k]] + run[k + 1..];
      SplitRun(t, s, run[k], run[k + 1..]);
      assert DecodesAgain(t, code, run, k) <==> Decode(t, s) == Some(run[k]);
      assert (forall j :: k <= j < |run| ==> DecodesAgain(t, code, run, j))
             <==> DecodesAgain(t, code, run, k) && forall j :: k + 1 <= j < |run| ==> DecodesAgain(t, code, run, j);
    }
  }

  ghost predicate BoundedAt(t: Table, code: seq<u8>, run: seq<Decoded>, k: nat)
    requires Consecutive(t, code, run) && k < |run| - 1
  {
    ConsecutiveAt(t, code, run, k);
    ConsecutiveAt(t, code, run, k + 1);
    OffsetStep(run, k);
    var o := OffsetOf(run, k);
    Bounded(t, code[o..o + WINDOW], code[OffsetOf(run, k + 1)])
  }

  /** All instructions of a run but the last one are bounded. */
  ghost predicate InnerBounded(t: Table, code: seq<u8>, run: seq<Decoded>)
    requires Consecutive(t, code, run)
  {
    forall k :: 0 <= k < |run| - 1 ==> BoundedAt(t, code, run, k)
  }

  lemma LastOffset(run: seq<Decoded>)
    requires run != []
    ensures Length(run) == OffsetOf(run, |run| - 1) + run[|run| - 1].size
  {
    OffsetStep(run, |run| - 1);
  }

  /** The inner instructions decode again. */
  lemma InnerAgain(t: Table, code: seq<u8>, run: seq<Decoded>, k: nat)
    requires Consecutive(t, code, run) && k < |run| - 1 && BoundedAt(t, code, run, k)
    requires OffsetOf(run, k + 1) < Length(run) <= |code| && OffsetOf(run, k) <= Length(run)
    ensures DecodesAgain(t, code, run, k)
  {
    hide Decode, OffsetOf, Length, Bounded, Consecutive;
    ConsecutiveAt(t, code, run, k);
    OffsetStep(run, k);
    var o, n := OffsetOf(run, k), Length(run);
    var w, s2, size := code[o..o + WINDOW], code[o..n], run[k].size;
    assert s2[..size] == w[..size] && s2[size] == code[o + size];
    LongerDecodes(t, w, s2);
  }

  /** The last instruction decodes again exactly if it is cut safely. */
  lemma LastAgain(t: Table, code: seq<u8>, run: seq<Decoded>)
    requires Consecutive(t, code, run) && run != [] && Length(run) <= |code|
    requires OffsetOf(run, |run| - 1) <= Length(run)
    ensures OffsetOf(run, |run| - 1) + WINDOW <= |code| && DecodeAt(t, code, OffsetOf(run, |run| - 1)).Some?
    ensures DecodesAgain(t, code, run, |run| - 1)
            <==> CutSafe(t, code[OffsetOf(run, |run| - 1)..OffsetOf(run, |run| - 1) + WINDOW])
  {
    hide Decode, OffsetOf, Length, CutSafe, Consecutive;
    var k := |run| - 1;
    ConsecutiveAt(t, code, run, k);
    LastOffset(run);
    var o := OffsetOf(run, k);
    CutIff(t, code[o..o + WINDOW]);
    SliceOfSlice(code, o, WINDOW, 0, run[k].size);
  }

  /** The window of the last instruction of a run. */
  function LastWindow(t: Table, code: seq<u8>, run: seq<Decoded>): (w: seq<u8>)
    requires Consecutive(t, code, run) && run != []
    ensures Decode(t, w) == Some(run[|run| - 1])
  {
    hide Decode;
    ConsecutiveAt(t, code, run, |run| - 1);
    code[OffsetOf(run, |run| - 1)..OffsetOf(run, |run| - 1) + WINDOW]
  }

  lemma RunSizes(t: Table, code: seq<u8>, run: seq<Decoded>)
    requires Consecutive(t, code, run)
    ensures forall j :: 0 <= j < |run| ==> 0 < run[j].size <= WINDOW
    ensures run != [] ==> Length(run) <= |code|
  {
    hide Decode, OffsetOf;
    forall j | 0 <= j < |run|
      ensures 0 < run[j].size <= WINDOW
    {
      ConsecutiveAt(t, code, run, j);
    }
    if run != [] {
      ConsecutiveAt(t, code, run, |run| - 1);
      LastOffset(run);
    }
  }

  lemma {:induction false} BeforeLast(run: seq<Decoded>, k: nat)
    requires k < |run| && forall j :: 0 <= j < |run| ==> run[j].size > 0
    ensures OffsetOf(run, k) < Length(run)
  {
    hide OffsetOf;
    OffsetStep(run, k);
    OffsetsGrow(run, k + 1);
  }

  /** Cut off at a boundary, the swept bytes hold the same instructions, although each is
      now decoded against another buffer, if and only if the last one is cut safely. */
  lemma BoundarySweepIff(t: Table, code: seq<u8>, run: seq<Decoded>)
    requires Consecutive(t, code, run) && run != [] && InnerBounded(t, code, run)
    ensures Length(run) <= |code|
    ensures Sweep(t, code[..Length(run)]) == Run(run, true) <==> CutSafe(t, LastWindow(t, code, run))
  {
    hide Decode, Length, Sweep, CutSafe, Consecutive, DecodesAgain, BoundedAt;
    RunSizes(t, code, run);
    SweepFromIff(t, code, run, 0);
    assert OffsetOf(run, 0) == 0 && code[0..Length(run)] == code[..Length(run)] && run[0..] == run;
    LastOffset(run);
    LastAgain(t, code, run);
    forall k | 0 <= k < |run| - 1
      ensures DecodesAgain(t, code, run, k)
    {
      assert OffsetOf(run, k + 1) < Length(run) by {
        BeforeLast(run, k + 1);
      }
      InnerAgain(t, code, run, k);
    }
  }

  /** The bytes of the run can be cut off. */
  ghost predicate Stealable(t: Table, code: seq<u8>, run: seq<Decoded>)
    requires Consecutive(t, code, run)
  {
    run == [] || (InnerBounded(t, code, run) && CutSafe(t, LastWindow(t, code, run)))
  }

  lemma FreeCut(t: Table, s: seq<u8>, next: u8)
    requires LookaheadFree(t) && Decode(t, s).Some?
    ensures CutSafe(t, s) && Bounded(t, s, next)
  {
    hide Choose, ParseTail, BodyEmpty;
    var p, h, d, tl := DecodeSteps(t, s);
    var text := s[..h.next];
    PrefixEndLocal(s, text, 0);
    HeadLocal(s, text, p);
    assert Spelled(text, p, h) && text[..p] == s[..p];
    if h.next == tl.next {
      NothingConsumed(d, h, s, Has66(s, p, h));
    }
  }

  /** Over a table free of lookahead every run can be cut off. */
  lemma FreeIsStealable(t: Table, code: seq<u8>, run: seq<Decoded>)
    requires LookaheadFree(t) && Consecutive(t, code, run)
    ensures Stealable(t, code, run)
  {
    hide Decode, LookaheadFree, Bounded, CutSafe, Consecutive, OffsetOf;
    if run != [] {
      FreeCut(t, LastWindow(t, code, run), 0);
    }
    forall k | 0 <= k < |run| - 1
      ensures BoundedAt(t, code, run, k)
    {
      ConsecutiveAt(t, code, run, k);
      ConsecutiveAt(t, code, run, k + 1);
      OffsetStep(run, k);
      var o := OffsetOf(run, k);
      FreeCut(t, code[o..o + WINDOW], code[OffsetOf(run, k + 1)]);
    }
  }

  lemma BoundarySweep(t: Table, code: seq<u8>, run: seq<Decoded>)
    requires Consecutive(t, code, run) && Stealable(t, code, run)
    ensures Length(run) <= |code| && Sweep(t, code[..Length(run)]) == Run(run, true)
  {
    hide Decode, Sweep, InnerBounded, CutSafe;
    if run == [] {
      EmptyRun(t, code);
      SweepEmpty(t);
      assert code[..0] == [];
    } else {
      BoundarySweepIff(t, code, run);
    }
  }

  /** Stolen bytes that can be cut off relocate: relocating exactly them succeeds and counts
      the stolen instructions. */
  lemma StolenBytesRelocate(t: Table, code: seq<u8>, min: nat, n: nat, run: seq<Decoded>, delta: int)
    requires LeastBoundary(t, code, min, n, run) && Stealable(t, code, run)
    requires n <= |code| && MovableBlock(t, code[..n])
    ensures Sweep(t, code[..n]) == Run(run, true) && Patchable(run, code[..n])
    ensures Sweep(t, Rewrite(run, code[..n], delta)) == Run(MovedRun(run, delta), true)
  {
    hide Consecutive, Stealable, Length, Rewrite, Patchable, Sweep, MovedRun, MovableBlock;
    BoundarySweep(t, code, run);
    BlockMoves(t, code[..n], delta);
  }

  /** Two bytes stolen from XEND cannot be relocated: alone they do not decode. */
  lemma XendStolen(rest: seq<u8>) returns (run: seq<Decoded>)
    requires |rest| >= 12
    ensures LeastBoundary([XEND], XEND_BYTES + rest, 2, 2, run) && InnerBounded([XEND], XEND_BYTES + rest, run)
    ensures !Stealable([XEND], XEND_BYTES + rest, run) && Sweep([XEND], (XEND_BYTES + rest)[..2]) == Run([], false)
  {
    hide Decode, CutSafe;
    var code := XEND_BYTES + rest;
    var w := code[0..15];
    XendDecodes(w);
    run := [Decode([XEND], w).value];
    assert run[..0] == [] && run[1..] == [] && Length([]) == 0 && Length(run) == 2;
    assert code[..2] == XEND_BYTES[..2];
    XendTooShort();
    SweepStep([XEND], code[..2]);
    BoundarySweepIff([XEND], code, run);
  }

  // ------------------------------------------------------------ one instruction elsewhere

  method CopyInto(bytes: seq<u8>, out: array<u8>)
    requires |bytes| <= out.Length
    modifies out
    ensures out[..] == bytes + old(out[|bytes|..])
  {
    for i := 0 to |bytes|
      invariant forall k :: 0 <= k < i ==> out[k] == bytes[k]
      invariant forall k :: i <= k < out.Length ==> out[k] == old(out[k])
    {
      out[i] := bytes[i];
    }
  }

  /** Copies the instruction to the buffer, which stands at `bufAddr`, and relocates it
      there; the wanted address is not used. */
  method RelocateInstruction(om: OpcodeMap, insn: seq<u8>, oldAddr: u64, newAddr: u64, out: array<u8>, bufAddr: u64)
    returns (ok: bool, outLen: nat)
    requires om.Valid() && |insn| <= out.Length && {out as object} !! {om.heads as object, om.chain as object}
    requires Relocate(om.table, insn + out[|insn|..], 0, |insn|, oldAddr - bufAddr).Some?
    modifies out
    ensures var o := Relocate(om.table, insn + old(out[|insn|..]), 0, |insn|, oldAddr - bufAddr).value;
            outLen == |insn| && ok == o.ok && out[..] == o.buf
  {
    hide Relocate, Decode, PatchAt, WritesInside;
    CopyInto(insn, out);
    outLen := |insn|;
    var count;
    ok, count := RelocateBlock(om, out, outLen, oldAddr, bufAddr);
  }

  lemma InRange(x: u64)
    ensures x % W64 == x
  {
  }

  lemma OneAddress(a: u64, oldAddr: u64, v: int, w: int, end: int)
    ensures (a + end + w) % W64 == (oldAddr + end + v) % W64 <==> a == (oldAddr + v - w) % W64
  {
    SameRemainder(a + end + w, oldAddr + end + v, W64);
    SameRemainder(a, oldAddr + v - w, W64);
    InRange(a);
  }

  /** The one address at which an instruction relocated in a buffer keeps its target. It is
      that of the buffer, whatever address was asked for, if the new offset fits into 32
      bits, and otherwise another one. */
  lemma RelocatedElsewhere(v: int, oldAddr: u64, bufAddr: u64, newAddr: u64, end: int)
    ensures var kept: u64 := (oldAddr + v - Add32(v, oldAddr - bufAddr)) % W64;
            && ((newAddr + end + Add32(v, oldAddr - bufAddr)) % W64 == (oldAddr + end + v) % W64 <==> newAddr == kept)
            && (kept == bufAddr <==> Fits32(v, oldAddr - bufAddr))
  {
    hide Add32, Fits32;
    TargetKept(v, oldAddr, bufAddr, end);
    var w := Add32(v, oldAddr - bufAddr);
    OneAddress(newAddr, oldAddr, v, w, end);
    OneAddress(bufAddr, oldAddr, v, w, end);
  }

  // ------------------------------------------------------------ narrow relative operands

  lemma LowBytes(v: int)
    ensures Le(v, 4)[..2] == Le(v, 2)
  {
    assert Le(v, 4) == [v % 256] + Le(v / 256, 3);
    assert Le(v / 256, 3) == [v / 256 % 256] + Le(v / 256 / 256, 2);
    assert Le(v, 2) == [v % 256] + Le(v / 256, 1);
    assert Le(v / 256, 1) == [v / 256 % 256] + Le(v / 256 / 256, 0);
  }

  /** The two lower bytes of a rewritten field survive exactly when the distance is a
      multiple of 65536. */
  lemma LowHalfKept(s: seq<u8>, at: nat, delta: int)
    requires at + 4 <= |s|
    ensures Patch(s, at, delta)[..at + 2] == s[..at + 2] <==> delta % 0x1_0000 == 0
  {
    hide Le, FromLe, Signed;
    var f, v := s[at..at + 4], ReadSigned(s, at, 4);
    var g := Le(v + delta, 4);
    LeOfSigned(f);
    LowBytes(v);
    LowBytes(v + delta);
    LeCongruent(v + delta, v, 2);
    Pow256Values();
    SameRemainder(v + delta, v, 0x1_0000);
    assert Patch(s, at, delta)[..at + 2] == s[..at] + g[..2] && s[..at + 2] == s[..at] + f[..2];
    SameRest(s[..at], g[..2], f[..2]);
  }

  /** The n-byte instruction at `off` ends with a two-byte relative operand, as 66 0F 84
      and two bytes do, and is rewritten. */
  ghost predicate IsNarrow(t: Table, buf: seq<u8>, off: nat, limit: nat)
    requires off <= limit <= |buf|
  {
    var s := buf[off..limit];
    Decode(t, s).Some? &&
    var p, r := PrefixEnd(s, 0), Decode(t, s).value;
    var h, d := ParseHead(s, p).value, r.instr.desc;
    && Regular(d) && !d.hasModrm && HasRel(d) && off + r.size >= 4
    && RelWidth(d, Has66(s, p, h), Bit(h.enc.rex, 8), 2)
  }

  lemma NarrowOperand(t: Table, buf: seq<u8>, off: nat, limit: nat)
    requires off <= limit <= |buf| && IsNarrow(t, buf, off, limit)
    ensures Decode(t, buf[off..limit]).Some?
    ensures var r := Decode(t, buf[off..limit]).value;
            && 2 <= r.size <= limit - off && off + r.size >= 4 && WritesInside(buf, off, r.size, r.instr)
            && r.instr.immediate == ReadSigned(buf, off + r.size - 2, 2)
            && !r.instr.desc.hasModrm && PatchesRel(r.instr.desc)
  {
    hide FromLe, Signed, Choose, ParseTail, ParseHead, Spellable, OneField, ImmSize, Patch, PatchesRel, HasRel;
    var s := buf[off..limit];
    var p, h, d, tl := DecodeSteps(t, s);
    RelField(d);
    RelIs(d);
    RelNotThreeByte(t, KeyOf(s[..p], h), Peek(s, h.next));
    ImmTail(d, h, s, Has66(s, p, h), FieldOf(d.operands, 0).value);
    assert ReadSigned(s, tl.next - 2, 2) == ReadSigned(buf, off + tl.next - 2, 2) by {
      SliceOfSlice(buf, off, limit - off, tl.next - 2, 2);
    }
  }

  lemma OnlyRel(buf: seq<u8>, off: nat, n: nat, instr: DecodedInstr, delta: int)
    requires WritesInside(buf, off, n, instr) && !instr.desc.hasModrm && PatchesRel(instr.desc)
    ensures PatchAt(buf, off, n, instr, delta) == Patch(buf, off + n - 4, delta)
  {
    hide Patch;
  }

  lemma NarrowDistance(src: u64, dst: u64, v: int, w: int, end: int)
    requires -0x8000 <= v < 0x8000 && -0x8000 <= w < 0x8000 && (src - dst) % 0x1_0000 == 0
    requires (dst + end + w) % W64 == (src + end + v) % W64
    ensures src == dst
  {
    SameRemainder(dst + end + w, src + end + v, W64);
    var k := (dst + w - src - v) / W64;
    assert dst + w - src - v == W64 * k;
    assert -2 < k < 2;
    assert (w - v) % 0x1_0000 == 0;
  }

  lemma NarrowRange(s: seq<u8>, at: nat)
    requires at + 2 <= |s|
    ensures -0x8000 <= ReadSigned(s, at, 2) < 0x8000
  {
    hide FromLe;
    Pow256Values();
  }

  /** A two-byte relative operand is rewritten as if it had four bytes. The bytes in front
      of it, which belong to the opcode, survive exactly when the distance is a multiple of
      65536, and they survive together with the target only when nothing moves. */
  lemma NarrowOperandDamage(t: Table, buf: seq<u8>, off: nat, limit: nat, src: u64, dst: u64)
    requires off <= limit <= |buf| && IsNarrow(t, buf, off, limit)
    ensures var r := Decode(t, buf[off..limit]).value;
            && 2 <= r.size <= limit - off && WritesInside(buf, off, r.size, r.instr)
            && var after, end := PatchAt(buf, off, r.size, r.instr, src - dst), off + r.size;
               && (after[..end - 2] == buf[..end - 2] <==> (src - dst) % 0x1_0000 == 0)
               && (after[..end - 2] == buf[..end - 2]
                   && (dst + end + ReadSigned(after, end - 2, 2)) % W64 == (src + end + r.instr.immediate) % W64
                   <==> src == dst)
  {
    hide Decode, IsNarrow, WritesInside, PatchAt, Patch, Signed, FromLe;
    NarrowOperand(t, buf, off, limit);
    var r := Decode(t, buf[off..limit]).value;
    var end := off + r.size;
    var after := PatchAt(buf, off, r.size, r.instr, src - dst);
    OnlyRel(buf, off, r.size, r.instr, src - dst);
    LowHalfKept(buf, end - 4, src - dst);
    PatchZero(buf, end - 4);
    var v, w := r.instr.immediate, ReadSigned(after, end - 2, 2);
    NarrowRange(buf, end - 2);
    NarrowRange(after, end - 2);
    if (src - dst) % 0x1_0000 == 0 && (dst + end + w) % W64 == (src + end + v) % W64 {
      NarrowDistance(src, dst, v, w, end);
    }
  }
}
