/** The code generator: a growing buffer, label references that are patched when their
    label is bound, and memory operands. */
module CodeGen {
  import opened Words
  import opened Decoder
  import opened Operands
  import opened Fixups

  lemma FixNone(start: seq<u8>, ps: seq<Patch>, l: nat, target: int)
    ensures FixAll(start, ps[..0], l, target) == start
  {
  }

  /** One more recorded field rewritten. */
  lemma FixNext(start: seq<u8>, ps: seq<Patch>, i: nat, l: nat, target: int)
    requires InBuffer(ps, |start|) && i < |ps|
    ensures InBuffer(ps[..i], |start|) && InBuffer(ps[..i + 1], |start|)
    ensures var a, p := FixAll(start, ps[..i], l, target), ps[i];
            && p.offset + p.size <= |a|
            && FixAll(start, ps[..i + 1], l, target) ==
               if p.label_ == l then a[..p.offset] + Le(target - (p.offset + p.size), p.size) + a[p.offset + p.size..]
               else a
  {
    assert ps[..i + 1][..i] == ps[..i];
    hide Le;
  }

  class Label {
    var id: nat
    var offset: int
    var bound: bool

    constructor (i: nat)
      ensures id == i && !bound
    {
      id, offset, bound := i, -1, false;
    }
  }

  class Generator {
    var buf: seq<u8>
    var patches: seq<Patch>
    var labelCount: nat
    /** The labels handed out, by id. */
    ghost var made: seq<Label>

    ghost predicate Valid()
      reads this, made
    {
      && |made| == labelCount && InBuffer(patches, |buf|)
      && forall i :: 0 <= i < |made| ==> made[i].id == i && (made[i].bound ==> made[i].offset >= 0)
    }

    ghost predicate Owns(lab: Label)
      reads this, lab
    {
      lab.id < |made| && made[lab.id] == lab
    }

    /** The state of the one-pass assembler. */
    ghost function Abs(): State
      reads this, made
      requires Valid()
    {
      State(buf, patches, labelCount, map i: nat | 0 <= i < |made| && made[i].bound :: i := made[i].offset)
    }

    constructor ()
      ensures Valid() && fresh(this) && Abs() == START
    {
      buf, patches, labelCount, made := [], [], 0, [];
    }

    method Clear()
      requires Valid()
      modifies this
      ensures Valid() && Abs() == START
    {
      buf, patches, labelCount, made := [], [], 0, [];
    }

    method Emit8(v: u8)
      requires Valid()
      modifies this`buf
      ensures Valid() && Abs() == StepOn(old(Abs()), Raw([v]))
    {
      buf := buf + [v];
    }

    /** Two single bytes. */
    method EmitTwo(v: u8, w: u8)
      requires Valid()
      modifies this`buf
      ensures Valid() && Abs() == StepOn(old(Abs()), Raw([v, w]))
    {
      Emit8(v);
      Emit8(w);
    }

    /** The four- and one-byte emitters, whose shifts and casts are `Le`. */
    method EmitInt(v: int, n: FieldSize)
      requires Valid()
      modifies this`buf
      ensures Valid() && Abs() == StepOn(old(Abs()), Raw(Le(v, n)))
    {
      buf := buf + Le(v, n);
    }

    // ---------------------------------------------------------- labels

    method NewLabel() returns (lab: Label)
      requires Valid()
      modifies this
      ensures Valid() && fresh(lab) && Owns(lab) && made == old(made) + [lab]
      ensures Abs() == StepOn(old(Abs()), Step.NewLabel)
    {
      lab := new Label(labelCount);
      labelCount := labelCount + 1;
      made := made + [lab];
    }

    method EmitLabelRef(lab: Label, n: FieldSize)
      requires Valid() && Owns(lab)
      modifies this`buf, this`patches
      ensures Valid() && Abs() == StepOn(old(Abs()), Ref(lab.id, n))
    {
      if lab.bound {
        var rel := lab.offset - (|buf| + n);
        EmitInt(rel, n);
      } else {
        patches := patches + [Patch(|buf|, lab.id, n)];
        buf := buf + Le(0, n);
      }
    }

    /** A conditional jump to a label. */
    method Jcc(cc: u8, lab: Label)
      requires Valid() && Owns(lab)
      modifies this`buf, this`patches
      ensures Valid() && Abs() == StepOn(StepOn(old(Abs()), Raw([0x0F, 0x80 + cc % 16])), Ref(lab.id, 4))
    {
      hide Le, FixAll;
      EmitTwo(0x0F, 0x80 + cc % 16);
      EmitLabelRef(lab, 4);
    }

    /** Binds the label here and rewrites every recorded field that refers to it. */
    method Bind(lab: Label)
      requires Valid() && Owns(lab)
      modifies this`buf, lab`offset, lab`bound
      ensures Valid() && Abs() == StepOn(old(Abs()), Step.Bind(lab.id))
    {
      hide FixAll, Fix, Le;
      ghost var start, l := buf, lab.id;
      lab.offset, lab.bound := |buf|, true;
      FixNone(start, patches, l, |start|);
      for i := 0 to |patches|
        invariant InBuffer(patches, |start|) && InBuffer(patches[..i], |start|)
        invariant |buf| == |start| == lab.offset && lab.bound && buf == FixAll(start, patches[..i], l, |start|)
      {
        var p := patches[i];
        FixNext(start, patches, i, l, |start|);
        if p.label_ == lab.id {
          var rel := lab.offset - (p.offset + p.size);
          buf := buf[..p.offset] + Le(rel, p.size) + buf[p.offset + p.size..];
        }
      }
      assert patches[..|patches|] == patches;
      assert Abs().bound == old(Abs()).bound[l := |start|];
    }

    // ---------------------------------------------------------- memory operands

    method EmitModrm(mod_: u2, reg: RegId, rm: RegId)
      requires Valid()
      modifies this`buf
      ensures Valid() && buf == old(buf) + [ModrmByte(mod_, reg, rm)]
    {
      Emit8(mod_ * 64 + reg % 8 * 8 + rm % 8);
    }

    method EmitSib(scale: u8, index: RegId, base: RegId)
      requires Valid()
      modifies this`buf
      ensures Valid() && buf == old(buf) + [SibByte(scale, index, base)]
    {
      var s := 0;
      if scale == 2 { s := 1; } else if scale == 4 { s := 2; } else if scale == 8 { s := 3; }
      Emit8(s * 64 + index % 8 * 8 + base % 8);
    }

    lemma NoDisp(v: int)
      ensures Le(v, 0) == []
    {
    }

    /** ModRM, SIB and displacement, once the form is decided. */
    method EmitMemParts(mod_: u2, reg: RegId, m: Mem, baseId: RegId, needSib: bool)
      requires Valid() && !m.ripRelative && mod_ == MemMod(m) && baseId == BaseField(m) && needSib == NeedsSib(m)
      modifies this`buf
      ensures Valid() && buf == old(buf) + MemBytes(reg, m)
    {
      hide ModrmByte, SibByte, MemMod, BaseField, NeedsSib;
      NoDisp(m.disp);
      if needSib {
        EmitModrm(mod_, reg, 4);
        EmitSib(m.scale, if m.hasIndex then m.index % 8 else 4, baseId);
      } else {
        EmitModrm(mod_, reg, baseId);
      }
      if mod_ == 1 { EmitInt(m.disp, 1); }
      else if mod_ == 2 || !m.hasBase { EmitInt(m.disp, 4); }
    }

    method EmitMem(reg: RegId, m: Mem)
      requires Valid()
      modifies this`buf
      ensures Valid() && buf == old(buf) + MemBytes(reg, m)
    {
      hide ModrmByte, SibByte, Le;
      if m.ripRelative {
        EmitModrm(0, reg, 5);
        EmitInt(m.disp, 4);
        return;
      }
      var baseId := if m.hasBase then m.base % 8 else 5;
      var needSib := m.hasIndex || (m.hasBase && m.base % 8 == 4);
      var mod_: u2 := 0;
      if m.disp == 0 && (baseId != 5 || !m.hasBase) { mod_ := 0; }
      else if m.disp >= -128 && m.disp <= 127 && m.hasBase { mod_ := 1; }
      else { mod_ := 2; }
      if !m.hasBase { mod_ := 0; }
      assert mod_ == MemMod(m) && baseId == BaseField(m) && needSib == NeedsSib(m);
      EmitMemParts(mod_, reg, m, baseId, needSib);
    }

    /** Segment prefix and REX byte of an instruction with a memory operand. */
    method EmitRexMem(w: bool, reg: RegId, m: Mem)
      requires Valid()
      modifies this`buf
      ensures Valid() && buf == old(buf) + RexMemBytes(w, reg, m)
    {
      if m.seg != 0 { Emit8(m.seg); }
      var idx := if m.hasIndex then m.index else 0;
      var base := if m.hasBase then m.base else 0;
      var r := RexByte(w, reg, idx, base);
      if r != 0x40 || w { Emit8(r); }
    }
  }
}
