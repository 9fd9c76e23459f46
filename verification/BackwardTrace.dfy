/** Tracing a register backwards through straight-line code: what the code follows,
    where the value really comes from, and exactly when the two agree. */
module BackwardTrace {
  import opened Words
  import opened InstrTable

  /** The class of a register operand, which fixes its width. */
  datatype RegisterClass =
    | GPR8 | GPR8H | GPR16 | GPR32 | GPR64 | XMM | MMX | Segment | Control | Debug | FlagsReg | IP

  datatype Operand = Reg(class_: RegisterClass, id: u8) | Memory | Imm | Rel

  /** `writesFirst` says whether the first operand is written at all, and `also` lists the
      general registers changed besides it: further operands and those not named. The code
      sees neither. */
  datatype Insn = Insn(mnemonic: Mnemonic, operands: seq<Operand>, writesFirst: bool, also: set<u8>)

  // ------------------------------------------------------------ what the code follows

  predicate NamesId(ins: Insn, k: nat, r: u8) {
    k < |ins.operands| && ins.operands[k].Reg? && ins.operands[k].id == r
  }

  /** The explicit destination has the register's number, whatever its class, and is not
      only compared. */
  predicate ModifiesReg(ins: Insn, r: u8) {
    NamesId(ins, 0, r) && ins.mnemonic != CMP && ins.mnemonic != TEST
  }

  predicate IsForwarder(ins: Insn) {
    ins.mnemonic in {MOV, MOVZX, MOVSX, MOVSXD, XCHG} && |ins.operands| >= 2 && ins.operands[1].Reg?
  }

  /** The trace through the first `n` instructions. */
  function Trace(insns: seq<Insn>, n: nat, cur: u8): (r: (Option<nat>, u8))
    requires n <= |insns|
  {
    if n == 0 then (None, cur)
    else if !ModifiesReg(insns[n - 1], cur) then Trace(insns, n - 1, cur)
    else if !IsForwarder(insns[n - 1]) then (Some(n - 1), cur)
    else Trace(insns, n - 1, insns[n - 1].operands[1].id)
  }

  /** The index of the defining instruction, or `i + 1`, and the register traced to. */
  method BackwardChain(insns: seq<Insn>, i: nat, reg: u8) returns (def: nat, final: u8)
    requires i < |insns|
    ensures var r := Trace(insns, i + 1, reg);
            final == r.1 && def == if r.0.Some? then r.0.value else i + 1
  {
    var cur, k := reg, i + 1;
    while k > 0
      invariant 0 <= k <= i + 1 && Trace(insns, i + 1, reg) == Trace(insns, k, cur)
    {
      k := k - 1;
      var ins := insns[k];
      if ModifiesReg(ins, cur) {
        if !IsForwarder(ins) {
          return k, cur;
        }
        cur := ins.operands[1].id;
      }
    }
    return i + 1, cur;
  }

  // ------------------------------------------------------------ the way back

  /** A register stands first and is not only compared. */
  predicate WritesTo(ins: Insn, r: u8) {
    && |ins.operands| > 0 && ins.operands[0].Reg? && ins.operands[0].id == r
    && !(ins.mnemonic == CMP) && !(ins.mnemonic == TEST)
  }

  /** A move, an extension or an exchange whose second operand is a register. */
  predicate TakesFrom(ins: Insn, r: u8) {
    && |ins.operands| > 1 && ins.operands[1].Reg? && ins.operands[1].id == r
    && (ins.mnemonic == MOV || ins.mnemonic == MOVZX || ins.mnemonic == MOVSX || ins.mnemonic == MOVSXD
        || ins.mnemonic == XCHG)
  }

  /** `way[j]` is the register followed before the last `j` instructions: the source of one
      that writes the register, if it has one, and otherwise the same. */
  predicate IsWay(insns: seq<Insn>, n: nat, way: seq<u8>)
    requires n <= |insns| && |way| <= n + 1
  {
    forall j :: 0 <= j < |way| - 1 ==>
      var ins := insns[n - 1 - j];
      if WritesTo(ins, way[j]) then TakesFrom(ins, way[j + 1]) else way[j + 1] == way[j]
  }

  lemma WayMore(insns: seq<Insn>, n: nat, cur: u8, rest: seq<u8>)
    requires 0 < n <= |insns| && 0 < |rest| <= n && IsWay(insns, n - 1, rest)
    requires if WritesTo(insns[n - 1], cur) then TakesFrom(insns[n - 1], rest[0]) else rest[0] == cur
    ensures IsWay(insns, n, [cur] + rest)
  {
    hide WritesTo, TakesFrom;
    var way := [cur] + rest;
    forall j | 0 <= j < |way| - 1
      ensures var ins := insns[n - 1 - j];
              if WritesTo(ins, way[j]) then TakesFrom(ins, way[j + 1]) else way[j + 1] == way[j]
    {
      assert j > 0 ==> way[j] == rest[j - 1] && way[j + 1] == rest[j - 1 + 1];
    }
  }

  lemma StepIs(ins: Insn, r: u8)
    ensures ModifiesReg(ins, r) <==> WritesTo(ins, r)
    ensures IsForwarder(ins) ==> |ins.operands| > 1 && ins.operands[1].Reg? && TakesFrom(ins, ins.operands[1].id)
    ensures !IsForwarder(ins) ==> forall q: u8 :: !TakesFrom(ins, q)
  {
  }

  lemma WayStart(insns: seq<Insn>, n: nat, cur: u8)
    requires n <= |insns|
    ensures IsWay(insns, n, [cur])
  {
  }

  /** The trace goes back through every instruction, from writer to source, and stops at the
      first writer that has none, or at the beginning: the register reported is the one
      followed there, and the index reported is that writer's. */
  lemma {:induction false} TraceWay(insns: seq<Insn>, n: nat, cur: u8) returns (way: seq<u8>)
    requires n <= |insns|
    ensures 0 < |way| <= n + 1 && way[0] == cur && IsWay(insns, n, way) && Trace(insns, n, cur).1 == way[|way| - 1]
    ensures match Trace(insns, n, cur).0
            case None => |way| == n + 1
            case Some(d) => && d == n - |way| && d < n && WritesTo(insns[d], way[|way| - 1])
                            && forall q: u8 :: !TakesFrom(insns[d], q)
  {
    hide ModifiesReg, IsForwarder, WritesTo, TakesFrom, IsWay;
    WayStart(insns, n, cur);
    way := [cur];
    if n > 0 {
      var ins := insns[n - 1];
      StepIs(ins, cur);
      if !ModifiesReg(ins, cur) || IsForwarder(ins) {
        var rest := TraceWay(insns, n - 1, if ModifiesReg(ins, cur) then ins.operands[1].id else cur);
        WayMore(insns, n, cur, rest);
        way := [cur] + rest;
      }
    }
  }

  /** In code whose only instructions with a first operand that is not written are CMP and
      TEST, the instruction reported writes the register reported. */
  lemma ReportedWrites(insns: seq<Insn>, n: nat, cur: u8)
    requires n <= |insns| && forall ins <- insns :: !ins.writesFirst ==> ins.mnemonic == CMP || ins.mnemonic == TEST
    ensures var r := Trace(insns, n, cur);
            r.0.Some? ==> r.0.value < n && insns[r.0.value].writesFirst && NamesId(insns[r.0.value], 0, r.1)
  {
    hide Trace, TakesFrom, IsWay;
    var way := TraceWay(insns, n, cur);
    if Trace(insns, n, cur).0.Some? {
      assert insns[Trace(insns, n, cur).0.value] in insns;
    }
  }

  /** Any other instruction that only reads its first operand is reported as a definition. */
  lemma ReaderReported(m: Mnemonic, c: RegisterClass, r: u8)
    requires m !in {CMP, TEST, MOV, MOVZX, MOVSX, MOVSXD, XCHG}
    ensures var code := [Insn(m, [Reg(c, r)], false, {})];
            Trace(code, 1, r) == (Some(0), r) && !code[0].writesFirst
  {
    var code := [Insn(m, [Reg(c, r)], false, {})];
    var way := TraceWay(code, 1, r);
    assert WritesTo(code[0], r) && !IsForwarder(code[0]);
  }

  // ------------------------------------------------------------ what instructions do

  /** The general registers, as 64-bit values by number. */
  type Regs = u8 -> u64

  /** `mnemonic r64, r64`. */
  predicate Is64(ins: Insn, m: Mnemonic) {
    && ins.mnemonic == m && |ins.operands| == 2
    && (forall o <- ins.operands :: o.Reg? && o.class_ == GPR64)
  }

  /** Writing the operand may change general register `r`. A byte register numbered 4 to
      7 may be the second byte of the register four below. */
  predicate Touches(o: Operand, r: u8) {
    && o.Reg? && o.class_ in {GPR8, GPR8H, GPR16, GPR32, GPR64}
    && (o.id == r || ((o.class_ == GPR8 || o.class_ == GPR8H) && 4 <= o.id < 8 && o.id - 4 == r))
  }

  /** A move or exchange of two 64-bit registers, which only copies. */
  predicate Copies(ins: Insn) {
    Is64(ins, MOV) || Is64(ins, XCHG)
  }

  /** The instruction may give `r` a new value: as a further result, by writing its first
      operand, or the second one of an exchange, unless it only copies. */
  predicate Defines(ins: Insn, r: u8) {
    || r in ins.also
    || (!Copies(ins) && ins.mnemonic != CMP && ins.mnemonic != TEST
        && ((ins.writesFirst && |ins.operands| > 0 && Touches(ins.operands[0], r))
            || (ins.mnemonic == XCHG && |ins.operands| > 1 && Touches(ins.operands[1], r))))
  }

  /** Where the value of `r` stood before an instruction that does not define it. */
  function Back(ins: Insn, r: u8): u8 {
    if Copies(ins) && NamesId(ins, 0, r) then ins.operands[1].id
    else if Is64(ins, XCHG) && NamesId(ins, 1, r) then ins.operands[0].id
    else r
  }

  /** One instruction: copies and keeps what it does not define; a defined register may
      hold anything. */
  ghost predicate Executes(ins: Insn, before: Regs, after: Regs) {
    forall r: u8 :: !Defines(ins, r) ==> after(r) == before(Back(ins, r))
  }

  /** `states[k]` holds the registers before instruction k. */
  ghost predicate Execution(insns: seq<Insn>, states: seq<Regs>) {
    |states| == |insns| + 1 && forall k :: 0 <= k < |insns| ==> Executes(insns[k], states[k], states[k + 1])
  }

  // ------------------------------------------------------------ where values come from

  /** The time and register at which the value of `r` after `n` instructions was made. */
  function Source(insns: seq<Insn>, n: nat, r: u8): (s: (nat, u8))
    requires n <= |insns|
    ensures s.0 <= n
  {
    if n == 0 || Defines(insns[n - 1], r) then (n, r) else Source(insns, n - 1, Back(insns[n - 1], r))
  }

  lemma {:induction false} SourceHolds(insns: seq<Insn>, states: seq<Regs>, n: nat, r: u8)
    requires Execution(insns, states) && n <= |insns|
    ensures var s := Source(insns, n, r); states[n](r) == states[s.0](s.1)
  {
    hide Defines, Back;
    if n > 0 && !Defines(insns[n - 1], r) {
      assert Executes(insns[n - 1], states[n - 1], states[n]);
      SourceHolds(insns, states, n - 1, Back(insns[n - 1], r));
    }
  }

  /** The execution in which exactly the values made at `s` are 1. */
  function Marked(insns: seq<Insn>, s: (nat, u8)): (states: seq<Regs>)
    ensures |states| == |insns| + 1
  {
    seq(|insns| + 1, (k: nat) requires k <= |insns| => ((r: u8) => if Source(insns, k, r) == s then 1 else 0))
  }

  lemma MarkedExecutes(insns: seq<Insn>, s: (nat, u8))
    ensures Execution(insns, Marked(insns, s))
  {
    hide Defines, Back;
    var states := Marked(insns, s);
    forall k | 0 <= k < |insns|
      ensures Executes(insns[k], states[k], states[k + 1])
    {
      forall r: u8 | !Defines(insns[k], r)
        ensures states[k + 1](r) == states[k](Back(insns[k], r))
      {
      }
    }
  }

  lemma ExecutionLength(insns: seq<Insn>, states: seq<Regs>)
    requires Execution(insns, states)
    ensures |states| == |insns| + 1
  {
  }

  /** Two registers at two times hold the same value in every execution exactly if they
      have the same source. */
  lemma SameValueIff(insns: seq<Insn>, n: nat, a: u8, k: nat, b: u8)
    requires n <= |insns| && k <= |insns|
    ensures (forall states: seq<Regs> :: Execution(insns, states) ==> states[n](a) == states[k](b))
            <==> Source(insns, n, a) == Source(insns, k, b)
  {
    hide Source, Execution;
    forall states: seq<Regs> | Execution(insns, states)
      ensures Source(insns, n, a) == Source(insns, k, b) ==> |states| == |insns| + 1 && states[n](a) == states[k](b)
    {
      ExecutionLength(insns, states);
      SourceHolds(insns, states, n, a);
      SourceHolds(insns, states, k, b);
    }
    var states := Marked(insns, Source(insns, n, a));
    MarkedExecutes(insns, Source(insns, n, a));
    assert states[n](a) == 1 && (states[k](b) == 1 <==> Source(insns, k, b) == Source(insns, n, a));
  }

  // ------------------------------------------------------------ when the trace is right

  /** Two registers at the same place have the same source. */
  predicate Meet(insns: seq<Insn>, n: nat, a: u8, b: u8)
    requires n <= |insns|
  {
    a == b
    || (n > 0 && !Defines(insns[n - 1], a) && !Defines(insns[n - 1], b)
        && Meet(insns, n - 1, Back(insns[n - 1], a), Back(insns[n - 1], b)))
  }

  /** Two cursors walk back through the program: `cur` where the code goes, `real` where
      the value comes from. The real one may not reach a definition before the code
      stops, and where the code stops the two must meet. */
  predicate RightTrace(insns: seq<Insn>, n: nat, real_: u8, cur: u8)
    requires n <= |insns|
  {
    if n == 0 then real_ == cur else
    var ins := insns[n - 1];
    if ModifiesReg(ins, cur) && !IsForwarder(ins) then Meet(insns, n, real_, cur)
    else
      !Defines(ins, real_)
      && RightTrace(insns, n - 1, Back(ins, real_), if ModifiesReg(ins, cur) then ins.operands[1].id else cur)
  }

  lemma ForwarderSource(ins: Insn)
    ensures IsForwarder(ins) ==> |ins.operands| > 1 && ins.operands[1].Reg?
  {
  }

  lemma {:induction false} TraceBound(insns: seq<Insn>, n: nat, cur: u8)
    requires n <= |insns|
    ensures Trace(insns, n, cur).0.Some? ==> Trace(insns, n, cur).0.value < n
  {
    hide ModifiesReg, IsForwarder;
    if n > 0 {
      TraceBound(insns, n - 1, cur);
      ForwarderSource(insns[n - 1]);
      if IsForwarder(insns[n - 1]) {
        TraceBound(insns, n - 1, insns[n - 1].operands[1].id);
      }
    }
  }

  /** The time the trace speaks of: right after the reported definition, or entry. */
  function TracedTime(insns: seq<Insn>, n: nat, cur: u8): (k: nat)
    requires n <= |insns|
    ensures k <= n
  {
    var r := Trace(insns, n, cur);
    TraceBound(insns, n, cur);
    if r.0.Some? then r.0.value + 1 else 0
  }

  lemma {:induction false} MeetIff(insns: seq<Insn>, n: nat, a: u8, b: u8)
    requires n <= |insns|
    ensures Meet(insns, n, a, b) <==> Source(insns, n, a) == Source(insns, n, b)
  {
    hide Defines, Back;
    if n > 0 {
      MeetIff(insns, n - 1, Back(insns[n - 1], a), Back(insns[n - 1], b));
    }
  }

  lemma {:induction false} RightTraceIff(insns: seq<Insn>, n: nat, real_: u8, cur: u8)
    requires n <= |insns|
    ensures RightTrace(insns, n, real_, cur)
            <==> Source(insns, n, real_) == Source(insns, TracedTime(insns, n, cur), Trace(insns, n, cur).1)
  {
    hide Defines, Back, ModifiesReg, IsForwarder, Meet;
    if n > 0 {
      var ins := insns[n - 1];
      if ModifiesReg(ins, cur) && !IsForwarder(ins) {
        MeetIff(insns, n, real_, cur);
      } else {
        ForwarderSource(ins);
        var next := if ModifiesReg(ins, cur) then ins.operands[1].id else cur;
        RightTraceIff(insns, n - 1, Back(ins, real_), next);
      }
    }
  }

  /** The trace is right, in every execution, if and only if the two cursors agree: the
      value of the register after the first `n` instructions is that of the reported
      register after the reported definition, or at entry if there is none. */
  lemma TraceIsRightIff(insns: seq<Insn>, n: nat, reg: u8)
    requires n <= |insns|
    ensures (forall states: seq<Regs> :: Execution(insns, states) ==>
               states[n](reg) == states[TracedTime(insns, n, reg)](Trace(insns, n, reg).1))
            <==> RightTrace(insns, n, reg, reg)
  {
    hide Execution, Source, Trace, TracedTime, RightTrace;
    RightTraceIff(insns, n, reg, reg);
    SameValueIff(insns, n, reg, TracedTime(insns, n, reg), Trace(insns, n, reg).1);
  }

  // ------------------------------------------------------------ a sufficient condition

  /** What the trace forwards through is a move or exchange of two 64-bit registers, and
      an instruction that it passes over leaves the register it follows alone. */
  predicate Readable(insns: seq<Insn>, n: nat, cur: u8)
    requires n <= |insns|
  {
    n == 0 ||
    var ins := insns[n - 1];
    if !ModifiesReg(ins, cur) then !Defines(ins, cur) && Back(ins, cur) == cur && Readable(insns, n - 1, cur)
    else !IsForwarder(ins)
         || (Copies(ins) && !Defines(ins, cur) && Readable(insns, n - 1, ins.operands[1].id))
  }

  lemma {:induction false} ReadableIsRight(insns: seq<Insn>, n: nat, cur: u8)
    requires n <= |insns| && Readable(insns, n, cur)
    ensures RightTrace(insns, n, cur, cur)
  {
    hide Touches;
    if n > 0 {
      var ins := insns[n - 1];
      if !ModifiesReg(ins, cur) {
        ReadableIsRight(insns, n - 1, cur);
      } else if IsForwarder(ins) {
        ReadableIsRight(insns, n - 1, ins.operands[1].id);
      }
    }
  }

  /** On readable code the trace is right, and a reported definition is an instruction
      that the code takes for one. */
  lemma TraceIsSound(insns: seq<Insn>, states: seq<Regs>, n: nat, cur: u8)
    requires Execution(insns, states) && n <= |insns| && Readable(insns, n, cur)
    ensures |states| == |insns| + 1
            && states[n](cur) == states[TracedTime(insns, n, cur)](Trace(insns, n, cur).1)
  {
    hide Execution, Trace, TracedTime, RightTrace, Readable;
    ExecutionLength(insns, states);
    ReadableIsRight(insns, n, cur);
    TraceIsRightIff(insns, n, cur);
  }

  // ------------------------------------------------------------ programs that are misread

  /** `mnemonic rax, rcx` at a register class. */
  function OnPair(m: Mnemonic, c: RegisterClass): Insn {
    Insn(m, [Reg(c, 0), Reg(c, 1)], true, {})
  }

  /** One exchange whose second operand is followed is overlooked; two of them are not. */
  lemma ExchangeMisread()
    ensures var one := [OnPair(XCHG, GPR64)];
            Trace(one, 1, 1) == (None, 1) && !RightTrace(one, 1, 1, 1)
    ensures var two := [OnPair(XCHG, GPR64), OnPair(XCHG, GPR64)];
            Trace(two, 2, 1) == (None, 1) && RightTrace(two, 2, 1, 1) && !Readable(two, 2, 1)
  {
    var x := OnPair(XCHG, GPR64);
    var two := [x, x];
    assert Is64(x, XCHG) && Back(x, 1) == 0 && Back(x, 0) == 1 && !ModifiesReg(x, 1);
    assert RightTrace(two, 0, 1, 1);
    assert RightTrace(two, 1, 0, 1);
    assert Trace([x], 0, 1) == (None, 1) && Trace(two, 0, 1) == (None, 1) && Trace(two, 1, 1) == (None, 1);
    assert !RightTrace([x], 0, 0, 1);
  }

  /** A move that is not 64 bits wide, or an extension, is taken for a copy of the whole
      register, and a move to a segment register for one to a general register. */
  lemma NarrowMisread(m: Mnemonic, c: RegisterClass)
    requires m in {MOV, MOVZX, MOVSX, MOVSXD} && (m != MOV || c != GPR64)
    ensures Trace([OnPair(m, c)], 1, 0) == (None, 1) && !RightTrace([OnPair(m, c)], 1, 0, 0)
  {
    var ins := OnPair(m, c);
    assert !Is64(ins, MOV) && !Is64(ins, XCHG) && ModifiesReg(ins, 0) && IsForwarder(ins);
    assert Trace([ins], 0, 1) == (None, 1);
    assert Defines(ins, 0) || Back(ins, 0) == 0;
    assert !RightTrace([ins], 0, 0, 1);
  }

  /** A write to the second byte of a register is overlooked. */
  lemma HighByteMisread()
    ensures var code := [Insn(MOV, [Reg(GPR8, 4), Imm], true, {})];
            Trace(code, 1, 0) == (None, 0) && !RightTrace(code, 1, 0, 0)
  {
    var ins := Insn(MOV, [Reg(GPR8, 4), Imm], true, {});
    assert Touches(ins.operands[0], 0) && ins.operands[1] == Imm;
    assert Trace([ins], 0, 0) == (None, 0);
  }

  /** A result besides the first operand is overlooked: the register seems to hold what it
      held before. */
  lemma FurtherResultMisread(ins: Insn, r: u8)
    requires r in ins.also && !ModifiesReg(ins, r)
    ensures Trace([ins], 1, r) == (None, r) && !RightTrace([ins], 1, r, r)
  {
    assert Trace([ins], 0, r) == (None, r);
  }

  /** `mul rcx`, whose operands are rdx, rax and rcx: rdx is traced right, rax is not. */
  lemma MulMisread(id: nat)
    ensures var mul := Insn(Other(id), [Reg(GPR64, 2), Reg(GPR64, 0), Reg(GPR64, 1)], true, {0});
            && Trace([mul], 1, 0) == (None, 0) && !RightTrace([mul], 1, 0, 0)
            && Trace([mul], 1, 2) == (Some(0), 2) && RightTrace([mul], 1, 2, 2)
  {
    var mul := Insn(Other(id), [Reg(GPR64, 2), Reg(GPR64, 0), Reg(GPR64, 1)], true, {0});
    FurtherResultMisread(mul, 0);
  }
}
