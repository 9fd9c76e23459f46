/** Label references in emitted code: the one-pass assembler with back-patching as a
    state machine, and the two-pass assembler it equals. */
module Fixups {
  import opened Words
  import opened InstrTable

  /** The width of a relative field. */
  type FieldSize = n: nat | n == 1 || n == 4 witness 1

  datatype Patch = Patch(offset: nat, label_: nat, size: FieldSize)

  /** What a program does to the assembler. */
  datatype Step = Raw(bytes: seq<u8>) | NewLabel | Ref(label_: nat, size: FieldSize) | Bind(label_: nat)

  /** The buffer, the recorded patches, the number of labels made and where the bound
      ones were bound last. */
  datatype State = State(buf: seq<u8>, patches: seq<Patch>, count: nat, bound: map<nat, nat>)

  const START := State([], [], 0, map[])

  predicate InBuffer(ps: seq<Patch>, n: nat) {
    forall p <- ps :: p.offset + p.size <= n
  }

  /** The field at `at` that reaches `target`, relative to its own end. */
  function RelField(target: int, at: nat, size: FieldSize): (s: seq<u8>)
    ensures |s| == size
  {
    Le(target - (at + size), size)
  }

  /** Overwrites one recorded field if it refers to `l`. */
  function Fix(buf: seq<u8>, p: Patch, l: nat, target: int): (r: seq<u8>)
    requires p.offset + p.size <= |buf|
    ensures |r| == |buf|
  {
    if p.label_ != l then buf
    else buf[..p.offset] + RelField(target, p.offset, p.size) + buf[p.offset + p.size..]
  }

  function FixAll(buf: seq<u8>, ps: seq<Patch>, l: nat, target: int): (r: seq<u8>)
    requires InBuffer(ps, |buf|)
    ensures |r| == |buf|
  {
    if ps == [] then buf else Fix(FixAll(buf, ps[..|ps| - 1], l, target), ps[|ps| - 1], l, target)
  }

  function StepOn(s: State, step: Step): (r: State)
    requires InBuffer(s.patches, |s.buf|)
    ensures InBuffer(r.patches, |r.buf|)
  {
    match step
    case Raw(bytes) => s.(buf := s.buf + bytes)
    case NewLabel => s.(count := s.count + 1)
    case Ref(l, n) =>
      if l in s.bound then s.(buf := s.buf + RelField(s.bound[l], |s.buf|, n))
      else s.(buf := s.buf + Le(0, n), patches := s.patches + [Patch(|s.buf|, l, n)])
    case Bind(l) => s.(buf := FixAll(s.buf, s.patches, l, |s.buf|), bound := s.bound[l := |s.buf|])
  }

  /** The state after a whole program. */
  function Run(prog: seq<Step>): (r: State)
    ensures InBuffer(r.patches, |r.buf|)
  {
    if prog == [] then START else StepOn(Run(prog[..|prog| - 1]), prog[|prog| - 1])
  }

  // ------------------------------------------------------------ two passes

  function StepSize(step: Step): nat {
    match step
    case Raw(bytes) => |bytes|
    case Ref(_, n) => n
    case _ => 0
  }

  /** First pass: the offset of step `k`. */
  function Pos(prog: seq<Step>, k: nat): nat
    requires k <= |prog|
  {
    if k == 0 then 0 else Pos(prog, k - 1) + StepSize(prog[k - 1])
  }

  /** Where a label is bound last. */
  function LastBind(prog: seq<Step>, l: nat): Option<nat> {
    if prog == [] then None
    else if prog[|prog| - 1] == Bind(l) then Some(Pos(prog, |prog| - 1))
    else LastBind(prog[..|prog| - 1], l)
  }

  /** What a reference at step `k` means: the last binding before it or, if there is
      none, the last one of the program. */
  function Target(prog: seq<Step>, k: nat, l: nat): Option<nat>
    requires k <= |prog|
  {
    OrElse(LastBind(prog[..k], l), LastBind(prog, l))
  }

  /** Second pass: the bytes of step `k`, with all offsets known. */
  function Field(prog: seq<Step>, k: nat): (s: seq<u8>)
    requires k < |prog|
    ensures |s| == StepSize(prog[k])
  {
    match prog[k]
    case Raw(bytes) => bytes
    case Ref(l, n) =>
      var target := Target(prog, k, l);
      if target.Some? then RelField(target.value, Pos(prog, k), n) else Le(0, n)
    case _ => []
  }

  /** The bytes of the first `k` steps. */
  function Layout(prog: seq<Step>, k: nat): (s: seq<u8>)
    requires k <= |prog|
    ensures |s| == Pos(prog, k)
  {
    if k == 0 then [] else Layout(prog, k - 1) + Field(prog, k - 1)
  }

  function TwoPass(prog: seq<Step>): seq<u8> {
    Layout(prog, |prog|)
  }

  // ------------------------------------------------------------ prefixes

  lemma {:induction false} PosOfPrefix(prog: seq<Step>, m: nat, k: nat)
    requires k <= m <= |prog|
    ensures Pos(prog[..m], k) == Pos(prog, k)
  {
    if k > 0 {
      PosOfPrefix(prog, m, k - 1);
    }
  }

  lemma LastBindAfter(p: seq<Step>, step: Step, l: nat)
    ensures LastBind(p + [step], l) == if step == Bind(l) then Some(Pos(p, |p|)) else LastBind(p, l)
  {
    var q := p + [step];
    assert q[..|p|] == p;
    PosOfPrefix(q, |p|, |p|);
  }

  lemma PrefixFront(p: seq<Step>, step: Step, k: nat)
    requires k <= |p|
    ensures (p + [step])[..k] == p[..k]
  {
  }

  lemma FieldKept(p: seq<Step>, step: Step, k: nat)
    requires k < |p|
    requires p[k].Ref? ==> step != Bind(p[k].label_) || LastBind(p[..k], p[k].label_).Some?
    ensures Field(p + [step], k) == Field(p, k)
  {
    hide RelField, LastBind, Pos;
    var q := p + [step];
    assert q[..|p|] == p;
    PosOfPrefix(q, |p|, k);
    PrefixFront(p, step, k);
    if p[k].Ref? {
      LastBindAfter(p, step, p[k].label_);
    }
  }

  /** A step that binds nothing changes no earlier field. */
  lemma {:induction false} LayoutKept(p: seq<Step>, step: Step, k: nat)
    requires k <= |p| && !step.Bind?
    ensures Layout(p + [step], k) == Layout(p, k)
  {
    hide RelField, LastBind, Pos;
    if k > 0 {
      LayoutKept(p, step, k - 1);
      FieldKept(p, step, k - 1);
    }
  }

  lemma FixFront(a: seq<u8>, b: seq<u8>, p: Patch, l: nat, target: int)
    requires p.offset + p.size <= |a|
    ensures Fix(a + b, p, l, target) == Fix(a, p, l, target) + b
  {
    hide RelField;
  }

  /** Patches inside the front leave the rest alone. */
  lemma {:induction false} FixAllFront(a: seq<u8>, b: seq<u8>, ps: seq<Patch>, l: nat, target: int)
    requires InBuffer(ps, |a|)
    ensures FixAll(a + b, ps, l, target) == FixAll(a, ps, l, target) + b
  {
    hide Fix;
    if ps != [] {
      FixAllFront(a, b, ps[..|ps| - 1], l, target);
      FixFront(FixAll(a, ps[..|ps| - 1], l, target), b, ps[|ps| - 1], l, target);
    }
  }

  // ------------------------------------------------------------ the invariant

  /** What holds after every program: the buffer is the two-pass output so far, and
      the bound labels are at their last binding. */
  ghost predicate Agrees(prog: seq<Step>) {
    && Run(prog).buf == TwoPass(prog)
    && forall l: nat :: (if l in Run(prog).bound then Some(Run(prog).bound[l]) else None) == LastBind(prog, l)
  }

  lemma RunOfPrefix(prog: seq<Step>, k: nat)
    requires k < |prog|
    ensures Run(prog[..k + 1]) == StepOn(Run(prog[..k]), prog[k])
  {
    assert prog[..k + 1][..k] == prog[..k];
  }

  /** The patches that step `k` adds. */
  lemma NewPatches(p: seq<Step>, k: nat)
    requires k < |p| && Agrees(p[..k])
    ensures Run(p[..k + 1]).patches == Run(p[..k]).patches
              + (if p[k].Ref? && LastBind(p[..k], p[k].label_).None? then [Patch(Pos(p, k), p[k].label_, p[k].size)]
                 else [])
  {
    RunOfPrefix(p, k);
    PosOfPrefix(p, k, k);
    hide FixAll, LastBind, Pos, Layout;
  }

  lemma {:induction false} PatchesBelow(p: seq<Step>, k: nat)
    requires k <= |p| && Agrees(p[..k])
    ensures InBuffer(Run(p[..k]).patches, Pos(p, k))
  {
    PosOfPrefix(p, k, k);
  }

  /** A field that waits for its label, after one more binding. */
  lemma WaitingField(p: seq<Step>, l: nat, k: nat)
    requires k < |p| && p[k].Ref? && LastBind(p[..k], p[k].label_).None?
    ensures var a, at := Layout(p + [Bind(l)], k), Patch(Pos(p, k), p[k].label_, p[k].size);
            && |a| == Pos(p, k)
            && Fix(a + Field(p, k), at, l, Pos(p, |p|)) == a + Field(p + [Bind(l)], k)
  {
    hide LastBind, Layout, RelField;
    var q := p + [Bind(l)];
    assert q[..|p|] == p;
    PosOfPrefix(q, |p|, k);
    PrefixFront(p, Bind(l), k);
    LastBindAfter(p, Bind(l), p[k].label_);
  }

  lemma BindStep(p: seq<Step>, l: nat, k: nat)
    requires k < |p| && Agrees(p[..k])
    requires InBuffer(Run(p[..k]).patches, Pos(p, k)) && InBuffer(Run(p[..k + 1]).patches, Pos(p, k + 1))
    requires FixAll(Layout(p, k), Run(p[..k]).patches, l, Pos(p, |p|)) == Layout(p + [Bind(l)], k)
    ensures FixAll(Layout(p, k + 1), Run(p[..k + 1]).patches, l, Pos(p, |p|)) == Layout(p + [Bind(l)], k + 1)
  {
    hide Agrees, LastBind, Run, RelField;
    var a, b, ps, target := Layout(p, k), Field(p, k), Run(p[..k]).patches, Pos(p, |p|);
    NewPatches(p, k);
    FixAllFront(a, b, ps, l, target);
    if p[k].Ref? && LastBind(p[..k], p[k].label_).None? {
      WaitingField(p, l, k);
      assert (ps + [Patch(Pos(p, k), p[k].label_, p[k].size)])[..|ps|] == ps;
    } else {
      assert Run(p[..k + 1]).patches == ps;
      FieldKept(p, Bind(l), k);
    }
  }

  /** Binding `l` at the end turns the fields that wait for `l` into the fields of the
      longer program, up to any step. */
  lemma {:induction false} BindLayout(p: seq<Step>, l: nat, k: nat)
    requires k <= |p| && forall j :: 0 <= j <= k ==> Agrees(p[..j])
    ensures InBuffer(Run(p[..k]).patches, Pos(p, k))
    ensures FixAll(Layout(p, k), Run(p[..k]).patches, l, Pos(p, |p|)) == Layout(p + [Bind(l)], k)
  {
    hide Agrees, StepOn, Field, LastBind, Fix;
    PatchesBelow(p, k);
    if k == 0 {
      assert p[..0] == [];
    } else {
      PatchesBelow(p, k - 1);
      BindLayout(p, l, k - 1);
      BindStep(p, l, k - 1);
    }
  }

  /** What a step that binds nothing appends is its field. */
  lemma LastField(p: seq<Step>, step: Step)
    requires Agrees(p) && !step.Bind?
    ensures StepOn(Run(p), step).buf == Run(p).buf + Field(p + [step], |p|)
  {
    hide RelField, LastBind, FixAll, Pos, Layout, Run;
    var q, n := p + [step], |p|;
    assert q[..n] == p;
    PosOfPrefix(q, n, n);
    assert |Run(p).buf| == Pos(q, n);
    LastBindAfter(p, step, if step.Ref? then step.label_ else 0);
    if step.Ref? {
      var target := Target(q, n, step.label_);
      assert target == LastBind(p, step.label_);
    }
  }

  lemma BindField(p: seq<Step>, l: nat)
    ensures Field(p + [Bind(l)], |p|) == []
  {
  }

  lemma LastLayout(p: seq<Step>, step: Step)
    ensures TwoPass(p + [step]) == Layout(p + [step], |p|) + Field(p + [step], |p|)
  {
  }

  /** The buffer after one more step. */
  lemma BufferStep(p: seq<Step>, step: Step)
    requires forall j :: 0 <= j <= |p| ==> Agrees(p[..j])
    ensures Run(p + [step]).buf == TwoPass(p + [step])
  {
    hide Fix, FixAll, Pos, Field, LastBind, Layout;
    var q, n := p + [step], |p|;
    assert q[..n] == p == p[..n];
    assert Run(q) == StepOn(Run(p), step);
    LastLayout(p, step);
    if step.Bind? {
      BindLayout(p, step.label_, n);
      BindField(p, step.label_);
    } else {
      LayoutKept(p, step, n);
      LastField(p, step);
    }
  }

  /** One more step keeps the invariant. */
  lemma AgreesStep(p: seq<Step>, step: Step)
    requires forall j :: 0 <= j <= |p| ==> Agrees(p[..j])
    ensures Agrees(p + [step])
  {
    hide RelField, LastBind, FixAll, Pos, Layout;
    BufferStep(p, step);
    assert (p + [step])[..|p|] == p == p[..|p|];
    assert Agrees(p);
    forall l: nat
      ensures LastBind(p + [step], l) == if step == Bind(l) then Some(Pos(p, |p|)) else LastBind(p, l)
    {
      LastBindAfter(p, step, l);
    }
  }

  lemma NothingAgrees()
    ensures Agrees([])
  {
  }

  lemma {:induction false} AllAgree(prog: seq<Step>)
    ensures forall j :: 0 <= j <= |prog| ==> Agrees(prog[..j])
  {
    hide Run, TwoPass, LastBind;
    if prog == [] {
      NothingAgrees();
      assert prog[..0] == [];
    } else {
      var p := prog[..|prog| - 1];
      AllAgree(p);
      assert forall j :: 0 <= j <= |p| ==> prog[..j] == p[..j];
      AgreesStep(p, prog[|prog| - 1]);
      assert prog[..|prog|] == prog == p + [prog[|prog| - 1]];
    }
  }

  /** For every program of raw bytes, label references and bindings, in any mix of
      forward and backward references and even with labels bound again: one pass with
      back-patching writes the bytes that two passes write. */
  lemma OnePassIsTwoPass(prog: seq<Step>)
    ensures Run(prog).buf == TwoPass(prog)
  {
    AllAgree(prog);
    assert prog[..|prog|] == prog;
  }

  // ------------------------------------------------------------ what a reference reaches

  lemma {:induction false} LayoutSlice(prog: seq<Step>, m: nat, k: nat)
    requires k < m <= |prog|
    ensures Pos(prog, k) + StepSize(prog[k]) <= Pos(prog, m)
    ensures Layout(prog, m)[Pos(prog, k)..Pos(prog, k) + StepSize(prog[k])] == Field(prog, k)
  {
    hide Field;
    if k < m - 1 {
      LayoutSlice(prog, m - 1, k);
      var a, i, n := Layout(prog, m - 1), Pos(prog, k), StepSize(prog[k]);
      assert (a + Field(prog, m - 1))[i..i + n] == a[i..i + n];
    }
  }

  /** `l` is bound at step `j` and nowhere else. */
  predicate BoundOnce(prog: seq<Step>, l: nat, j: nat) {
    j < |prog| && forall i :: 0 <= i < |prog| ==> (prog[i] == Bind(l) <==> i == j)
  }

  lemma {:induction false} OnlyBind(prog: seq<Step>, l: nat, j: nat, m: nat)
    requires BoundOnce(prog, l, j) && m <= |prog|
    ensures LastBind(prog[..m], l) == if j < m then Some(Pos(prog, j)) else None
  {
    if m > 0 {
      assert prog[..m][..m - 1] == prog[..m - 1];
      OnlyBind(prog, l, j, m - 1);
      PosOfPrefix(prog, m, m - 1);
    }
  }

  /** The offset fits into the field. */
  predicate FitsIn(v: int, size: FieldSize) {
    if size == 1 then -0x80 <= v < 0x80 else -0x8000_0000 <= v < 0x8000_0000
  }

  lemma FieldReaches(target: int, at: nat, size: FieldSize)
    ensures at + size + Signed(FromLe(RelField(target, at, size)), size) == target
            <==> FitsIn(target - (at + size), size)
  {
    var v, p := target - (at + size), Pow256(size);
    Pow256Values();
    FromLeOfLe(v, size);
    if FitsIn(v, size) {
      SignedOfLe(v, size);
    } else {
      assert v % p % p == v % p;
      assert -p <= 2 * Signed(v, size) < p;
    }
  }

  /** If a label is bound once, every reference to it, before or after, reads back as
      the distance to the binding, if and only if the distance fits into the field;
      the narrow form is truncated silently. */
  lemma ReferencesReach(prog: seq<Step>, j: nat, k: nat)
    requires k < |prog| && prog[k].Ref? && BoundOnce(prog, prog[k].label_, j)
    ensures var at, n := Pos(prog, k), prog[k].size;
            && at + n <= |Run(prog).buf|
            && (at + n + Signed(FromLe(Run(prog).buf[at..at + n]), n) == Pos(prog, j)
                <==> FitsIn(Pos(prog, j) - (at + n), n))
  {
    hide Run, Signed, FromLe, Layout, FitsIn, RelField, Pos, LastBind;
    OnePassIsTwoPass(prog);
    LayoutSlice(prog, |prog|, k);
    OnlyBind(prog, prog[k].label_, j, k);
    OnlyBind(prog, prog[k].label_, j, |prog|);
    assert prog[..|prog|] == prog;
    FieldReaches(Pos(prog, j), Pos(prog, k), prog[k].size);
  }

  // ------------------------------------------------------------ every field, by the program alone

  /** The binding at `j` is the one that the reference at `k` means: the last one before it,
      or, if there is none before it, the last one of the program. */
  predicate MeantBy(prog: seq<Step>, k: nat, j: nat) {
    && k < |prog| && prog[k].Ref? && j < |prog| && prog[j] == Bind(prog[k].label_)
    && (if j < k then forall i :: j < i < k ==> prog[i] != Bind(prog[k].label_)
        else
          && (forall i :: 0 <= i < k ==> prog[i] != Bind(prog[k].label_))
          && (forall i :: j < i < |prog| ==> prog[i] != Bind(prog[k].label_)))
  }

  lemma {:induction false} BindIs(prog: seq<Step>, l: nat, m: nat, j: nat)
    requires j < m <= |prog| && prog[j] == Bind(l) && forall i :: j < i < m ==> prog[i] != Bind(l)
    ensures LastBind(prog[..m], l) == Some(Pos(prog, j))
    decreases m
  {
    var front := prog[..m];
    assert front[|front| - 1] == prog[m - 1] && front[..m - 1] == prog[..m - 1];
    if j < m - 1 {
      BindIs(prog, l, m - 1, j);
    } else {
      PosOfPrefix(prog, m, m - 1);
    }
  }

  lemma {:induction false} BindIsNone(prog: seq<Step>, l: nat, m: nat)
    requires m <= |prog| && forall i :: 0 <= i < m ==> prog[i] != Bind(l)
    ensures LastBind(prog[..m], l) == None
    decreases m
  {
    if m > 0 {
      assert prog[..m][..m - 1] == prog[..m - 1] && prog[..m][m - 1] == prog[m - 1];
      BindIsNone(prog, l, m - 1);
    }
  }

  /** Labels may be bound again: a reference reads back as the distance to the binding it
      means, if and only if that fits into its field. */
  lemma EveryReferenceReaches(prog: seq<Step>, k: nat, j: nat)
    requires MeantBy(prog, k, j)
    ensures var at, n := Pos(prog, k), prog[k].size;
            && at + n <= |Run(prog).buf|
            && (at + n + Signed(FromLe(Run(prog).buf[at..at + n]), n) == Pos(prog, j)
                <==> FitsIn(Pos(prog, j) - (at + n), n))
  {
    hide Run, Signed, FromLe, Layout, FitsIn, RelField, Pos, LastBind;
    OnePassIsTwoPass(prog);
    LayoutSlice(prog, |prog|, k);
    var l := prog[k].label_;
    assert prog[..|prog|] == prog;
    if j < k {
      BindIs(prog, l, k, j);
    } else {
      BindIsNone(prog, l, k);
      BindIs(prog, l, |prog|, j);
    }
    FieldReaches(Pos(prog, j), Pos(prog, k), prog[k].size);
  }

  lemma {:induction false} ZeroBytes(n: nat)
    ensures forall i :: 0 <= i < n ==> Le(0, n)[i] == 0
  {
    if n > 0 {
      ZeroBytes(n - 1);
    }
  }

  /** Plain bytes stay as they were emitted. */
  lemma RawKept(prog: seq<Step>, k: nat)
    requires k < |prog| && prog[k].Raw?
    ensures var at, buf, bytes := Pos(prog, k), Run(prog).buf, prog[k].bytes;
            at + |bytes| <= |buf| && buf[at..at + |bytes|] == bytes
  {
    hide Run, Layout, RelField, LastBind, Pos;
    OnePassIsTwoPass(prog);
    LayoutSlice(prog, |prog|, k);
  }

  lemma UnboundField(prog: seq<Step>, k: nat)
    requires k < |prog| && prog[k].Ref? && forall i :: 0 <= i < |prog| ==> prog[i] != Bind(prog[k].label_)
    ensures Field(prog, k) == Le(0, prog[k].size)
  {
    hide RelField, LastBind, Pos, Le;
    BindIsNone(prog, prog[k].label_, k);
    BindIsNone(prog, prog[k].label_, |prog|);
    assert prog[..|prog|] == prog;
  }

  /** The field of a label that is never bound stays zero. */
  lemma UnboundStaysZero(prog: seq<Step>, k: nat)
    requires k < |prog| && prog[k].Ref? && forall i :: 0 <= i < |prog| ==> prog[i] != Bind(prog[k].label_)
    ensures var at, n, buf := Pos(prog, k), prog[k].size, Run(prog).buf;
            at + n <= |buf| && forall i :: at <= i < at + n ==> buf[i] == 0
  {
    hide Run, Layout, Field, Pos, Le;
    OnePassIsTwoPass(prog);
    LayoutSlice(prog, |prog|, k);
    UnboundField(prog, k);
    var at, n, buf := Pos(prog, k), prog[k].size, Run(prog).buf;
    ZeroBytes(n);
    forall i | at <= i < at + n
      ensures buf[i] == 0
    {
      assert buf[i] == buf[at..at + n][i - at];
    }
  }
}
