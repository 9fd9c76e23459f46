/** The scan for the epilogue that ends a piece of code. */
module Epilogue {
  import opened Words
  import opened InstrTable
  import opened Decoder
  import opened Sweeping

  /** Operand 0 is RSP in its ModRM encoding. */
  predicate FirstIsRsp(i: DecodedInstr) {
    && i.desc.operands != []
    && var a := i.desc.operands[0].addr;
       || (a == ModRM_RM && ModOf(i.modrm) == 3 && RmOf(i.modrm) == 4 && !Bit(i.enc.rex, 1))
       || (a == ModRM_Reg && RegOf(i.modrm) == 4 && !Bit(i.enc.rex, 4))
  }

  predicate EpilogueKind(i: DecodedInstr) {
    var m := i.desc.mnemonic;
    m == POP || m == LEAVE || (m == ADD && FirstIsRsp(i)) || m == RETN || m == RETF
  }

  /** By the bytes: pops, `leave` and returns, and additions whose first operand is register 4
      as ModRM.rm, in the register form and without REX.B, or as ModRM.reg without REX.R. */
  lemma KindIff(i: DecodedInstr)
    ensures EpilogueKind(i)
            <==> || i.desc.mnemonic == POP || i.desc.mnemonic == LEAVE || i.desc.mnemonic == RETN
                 || i.desc.mnemonic == RETF
                 || (i.desc.mnemonic == ADD && |i.desc.operands| > 0
                     && ((i.desc.operands[0].addr == ModRM_RM && i.modrm >= 0xC0 && i.modrm % 8 == 4
                          && i.enc.rex % 2 == 0)
                         || (i.desc.operands[0].addr == ModRM_Reg && i.modrm / 8 % 8 == 4 && i.enc.rex / 4 % 2 == 0)))
  {
  }

  /** Every instruction from the k-th on is of epilogue kind. */
  predicate AllEpilogue(run: seq<Decoded>, k: nat) {
    forall i :: k <= i < |run| ==> EpilogueKind(run[i].instr)
  }

  /** The epilogue starts at the k-th instruction: the boundaries behind which all is
      epilogue are exactly those from it on. */
  predicate StartsAt(run: seq<Decoded>, k: nat) {
    k <= |run| && forall j :: 0 <= j <= |run| ==> (AllEpilogue(run, j) <==> j >= k)
  }

  lemma {:induction false} OffsetStep(run: seq<Decoded>, k: nat)
    requires k < |run|
    ensures OffsetOf(run, k + 1) == OffsetOf(run, k) + run[k].size
  {
    if k > 0 {
      OffsetStep(run[1..], k - 1);
    }
  }

  /** A complete sweep ends at the end. */
  lemma {:induction false} SweepLength(t: Table, s: seq<u8>)
    requires Sweep(t, s).complete
    ensures Length(Sweep(t, s).instrs) == |s|
    decreases |s|
  {
    hide Decode;
    if s != [] {
      SweepStep(t, s);
      var d := Decode(t, s).value;
      SweepLength(t, s[d.size..]);
      assert Sweep(t, s).instrs[1..] == Sweep(t, s[d.size..]).instrs;
    }
  }

  /** The m-th of the first k instructions starts their epilogue; `start` is its offset,
      or `end` if they do not end with one. */
  predicate SoFar(run: seq<Decoded>, k: nat, m: nat, end: nat, start: nat) {
    && m <= k <= |run| && (forall i :: m <= i < k ==> EpilogueKind(run[i].instr))
    && (m > 0 ==> !EpilogueKind(run[m - 1].instr))
    && (m < k ==> OffsetOf(run, m) < end)
    && start == if m == k then end else OffsetOf(run, m)
  }

  lemma ScanStep(run: seq<Decoded>, k: nat, m: nat, end: nat, start: nat)
    requires SoFar(run, k, m, end, start) && k < |run| && OffsetOf(run, k) < end
    ensures if EpilogueKind(run[k].instr) then
            SoFar(run, k + 1, m, end, if start == end then OffsetOf(run, k) else start)
            else SoFar(run, k + 1, k + 1, end, end)
  {
    hide EpilogueKind, OffsetOf;
  }

  lemma ScanDone(run: seq<Decoded>, m: nat, end: nat, start: nat)
    requires SoFar(run, |run|, m, end, start) && OffsetOf(run, |run|) == end
    ensures StartsAt(run, m) && start == OffsetOf(run, m)
  {
    hide EpilogueKind, OffsetOf;
    if m > 0 {
      assert !EpilogueKind(run[m - 1].instr);
    }
  }

  lemma NothingScanned(run: seq<Decoded>, end: nat)
    ensures SoFar(run, 0, 0, end, end) && OffsetOf(run, 0) == 0
  {
  }

  /** Where the epilogue of `s` starts: at the earliest boundary of the forward sweep
      behind which there is nothing else, or at the end if there is no such boundary or
      the sweep fails. */
  method SkipEpilogueBefore(om: OpcodeMap, s: seq<u8>) returns (start: nat)
    requires om.Valid()
    ensures var run := Sweep(om.table, s);
            if run.complete then
              exists k :: 0 <= k <= |run.instrs| && StartsAt(run.instrs, k) && start == OffsetOf(run.instrs, k)
            else start == |s|
  {
    hide Decode, Sweep, EpilogueKind, SoFar, OffsetOf;
    ghost var run, k, m := Sweep(om.table, s), 0, 0;
    var off, end := 0, |s|;
    start := end;
    NothingScanned(run.instrs, end);
    assert s[0..] == s;
    while off < end
      invariant off <= end && k <= |run.instrs| && off == OffsetOf(run.instrs, k)
      invariant Sweep(om.table, s[off..]) == Run(run.instrs[k..], run.complete)
      invariant SoFar(run.instrs, k, m, end, start)
      decreases end - off
    {
      SweepStep(om.table, s[off..]);
      var d := DecodeOne(om, s[off..]);
      if d.None? {
        return end;
      }
      var r := d.value;
      assert run.instrs[k..][0] == r && run.instrs[k..][1..] == run.instrs[k + 1..];
      ScanStep(run.instrs, k, m, end, start);
      OffsetStep(run.instrs, k);
      if EpilogueKind(r.instr) {
        if start == end { start := off; }
      } else {
        start, m := end, k + 1;
      }
      assert s[off..][r.size..] == s[off + r.size..];
      off, k := off + r.size, k + 1;
    }
    assert s[off..] == [];
    SweepEmpty(om.table);
    assert run.instrs[k..] == [];
    ScanDone(run.instrs, m, end, start);
  }
}
