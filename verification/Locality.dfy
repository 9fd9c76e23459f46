/** What a decode depends on: the bytes it consumes, where they stand, and the one
    byte it peeks at. */
module Locality {
  import opened Words
  import opened InstrTable
  import opened Decoder
  import opened RoundTrip

  /** `k` bytes at `a` in one string equal the `k` bytes at `b` in the other. */
  predicate Agree(c1: seq<u8>, a: nat, c2: seq<u8>, b: nat, k: nat) {
    a + k <= |c1| && b + k <= |c2| && c1[a..a + k] == c2[b..b + k]
  }

  lemma AgreeAt(c1: seq<u8>, a: nat, c2: seq<u8>, b: nat, k: nat, i: nat)
    requires Agree(c1, a, c2, b, k) && i < k
    ensures c1[a + i] == c2[b + i]
  {
    assert c1[a..a + k][i] == c2[b..b + k][i];
  }

  lemma SliceOfSlice(s: seq<u8>, a: nat, k: nat, i: nat, n: nat)
    requires a + k <= |s| && i + n <= k
    ensures s[a..a + k][i..i + n] == s[a + i..a + i + n]
  {
    var x, y := s[a..a + k][i..i + n], s[a + i..a + i + n];
    assert forall j :: 0 <= j < n ==> x[j] == y[j] == s[a + i + j];
  }

  lemma AgreePart(c1: seq<u8>, a: nat, c2: seq<u8>, b: nat, k: nat, i: nat, n: nat)
    requires Agree(c1, a, c2, b, k) && i + n <= k
    ensures Agree(c1, a + i, c2, b + i, n)
  {
    SliceOfSlice(c1, a, k, i, n);
    SliceOfSlice(c2, b, k, i, n);
  }

  // ------------------------------------------------------------ the tail

  lemma ModrmMoves(d: InstrDesc, c1: seq<u8>, a: nat, c2: seq<u8>, b: nat, k: nat)
    requires Agree(c1, a, c2, b, k)
    requires var m := ParseModrm(d, c1, a); m.Some? && m.value.next <= a + k
    ensures var m := ParseModrm(d, c1, a).value;
            a <= m.next && ParseModrm(d, c2, b) == Some(m.(next := b + (m.next - a)))
  {
    if d.hasModrm {
      AgreeAt(c1, a, c2, b, k, 0);
      var modrm := c1[a];
      if HasSib(modrm) {
        AgreeAt(c1, a, c2, b, k, 1);
      }
      var m := ParseModrm(d, c1, a).value;
      var n := DispSize(m.modrm, m.sib);
      AgreePart(c1, a, c2, b, k, m.next - a - n, n);
    }
  }

  /** The end of the immediates does not come before their start. */
  lemma {:induction false} ImmsForward(ops: seq<OperandDesc>, i: nat, count: nat, code: seq<u8>, tl: Tail, has66: bool,
                                       rexW: bool)
    requires i <= |ops| && tl.next <= |code| && ParseImms(ops, i, count, code, tl, has66, rexW).Some?
    ensures var r := ParseImms(ops, i, count, code, tl, has66, rexW).value;
            tl.next <= r.next && r.modrm == tl.modrm && r.sib == tl.sib
    decreases |ops| - i
  {
    if i < |ops| {
      if !IsImm(ops[i]) {
        ImmsForward(ops, i + 1, count, code, tl, has66, rexW);
      } else {
        var n := ImmSize(ops[i].size, has66, rexW);
        var v := ReadSigned(code, tl.next, n);
        var tl' := if count == 0 then tl.(imm := v, next := tl.next + n) else tl.(disp := v, next := tl.next + n);
        ImmsForward(ops, i + 1, count + 1, code, tl', has66, rexW);
      }
    }
  }

  lemma ReadMoves(c1: seq<u8>, a: nat, c2: seq<u8>, b: nat, k: nat, at: nat, n: nat)
    requires Agree(c1, a, c2, b, k) && a <= at && at + n <= a + k
    ensures at + n <= |c1| && b + (at - a) + n <= |c2| && ReadSigned(c2, b + (at - a), n) == ReadSigned(c1, at, n)
  {
    hide Signed, FromLe;
    AgreePart(c1, a, c2, b, k, at - a, n);
  }

  /** The tail after one immediate. */
  function AfterImm(tl: Tail, count: nat, v: int, n: nat): Tail {
    if count == 0 then tl.(imm := v, next := tl.next + n) else tl.(disp := v, next := tl.next + n)
  }

  lemma ImmsStep(ops: seq<OperandDesc>, i: nat, count: nat, code: seq<u8>, tl: Tail, has66: bool, rexW: bool)
    requires i < |ops| && tl.next <= |code| && IsImm(ops[i])
    ensures var n := ImmSize(ops[i].size, has66, rexW);
            ParseImms(ops, i, count, code, tl, has66, rexW) ==
            if tl.next + n > |code| then None
            else ParseImms(ops, i + 1, count + 1, code, AfterImm(tl, count, ReadSigned(code, tl.next, n), n), has66,
                           rexW)
  {
    hide ReadSigned, ImmSize;
  }

  lemma {:induction false} ImmsMove(ops: seq<OperandDesc>, i: nat, count: nat, c1: seq<u8>, a: nat, c2: seq<u8>, b: nat,
                                    k: nat,
                                    tl: Tail, has66: bool, rexW: bool)
    requires i <= |ops| && Agree(c1, a, c2, b, k) && a <= tl.next <= |c1|
    requires var r := ParseImms(ops, i, count, c1, tl, has66, rexW); r.Some? && r.value.next <= a + k
    ensures var r := ParseImms(ops, i, count, c1, tl, has66, rexW).value;
            && tl.next <= r.next
            && ParseImms(ops, i, count, c2, tl.(next := b + (tl.next - a)), has66, rexW)
               == Some(r.(next := b + (r.next - a)))
    decreases |ops| - i
  {
    hide ReadSigned, ImmSize;
    ImmsForward(ops, i, count, c1, tl, has66, rexW);
    if i < |ops| {
      if !IsImm(ops[i]) {
        ImmsMove(ops, i + 1, count, c1, a, c2, b, k, tl, has66, rexW);
      } else {
        var n := ImmSize(ops[i].size, has66, rexW);
        ImmsStep(ops, i, count, c1, tl, has66, rexW);
        ImmsStep(ops, i, count, c2, tl.(next := b + (tl.next - a)), has66, rexW);
        var tl' := AfterImm(tl, count, ReadSigned(c1, tl.next, n), n);
        ImmsForward(ops, i + 1, count + 1, c1, tl', has66, rexW);
        ReadMoves(c1, a, c2, b, k, tl.next, n);
        ImmsMove(ops, i + 1, count + 1, c1, a, c2, b, k, tl', has66, rexW);
      }
    }
  }

  /** Whether an implicit immediate may be looked for past the end. */
  predicate NoImplicit(d: InstrDesc, opcode: u16) {
    opcode == 0x0F3A ==> HasAddr(d, Immediate)
  }

  lemma MoffsetMoves(d: InstrDesc, c1: seq<u8>, a: nat, c2: seq<u8>, b: nat, k: nat, tl: Tail)
    requires Agree(c1, a, c2, b, k) && a <= tl.next <= |c1|
    requires var r := ParseMoffset(d, c1, tl); r.Some? && r.value.next <= a + k
    ensures var r := ParseMoffset(d, c1, tl).value;
            && tl.next <= r.next
            && ParseMoffset(d, c2, tl.(next := b + (tl.next - a))) == Some(r.(next := b + (r.next - a)))
  {
    if HasAddr(d, Moffset) {
      AgreePart(c1, a, c2, b, k, tl.next - a, 8);
    }
  }

  lemma ImplicitMoves(d: InstrDesc, opcode: u16, c1: seq<u8>, a: nat, c2: seq<u8>, b: nat, k: nat, tl: Tail)
    requires Agree(c1, a, c2, b, k) && a <= tl.next <= |c1|
    requires ParseImplicit(d, opcode, c1, tl).next == a + k
    requires NoImplicit(d, opcode) || |c1| > a + k || |c2| == b + k
    ensures ParseImplicit(d, opcode, c2, tl.(next := b + (tl.next - a)))
            == ParseImplicit(d, opcode, c1, tl).(next := b + k)
  {
    if tl.next < a + k {
      AgreePart(c1, a, c2, b, k, tl.next - a, 1);
    }
  }

  function Moved(tl: Tail, a: nat, b: nat): Tail
    requires a <= tl.next
  {
    tl.(next := b + (tl.next - a))
  }

  function ParseModrmAndImms(d: InstrDesc, code: seq<u8>, pos: nat, has66: bool, rexW: bool): Option<Tail>
    requires pos <= |code|
  {
    var tl0 :- ParseModrm(d, code, pos);
    ParseImms(d.operands, 0, 0, code, tl0, has66, rexW)
  }

  lemma ModrmAndImmsMove(d: InstrDesc, c1: seq<u8>, a: nat, c2: seq<u8>, b: nat, k: nat, has66: bool, rexW: bool)
    requires Agree(c1, a, c2, b, k)
    requires var r := ParseModrmAndImms(d, c1, a, has66, rexW); r.Some? && r.value.next <= a + k
    ensures var r := ParseModrmAndImms(d, c1, a, has66, rexW).value;
            a <= r.next && ParseModrmAndImms(d, c2, b, has66, rexW) == Some(Moved(r, a, b))
  {
    hide ParseModrm, ParseImms, Agree;
    var m := ParseModrm(d, c1, a).value;
    ImmsForward(d.operands, 0, 0, c1, m, has66, rexW);
    ModrmMoves(d, c1, a, c2, b, k);
    ImmsMove(d.operands, 0, 0, c1, a, c2, b, k, m, has66, rexW);
  }

  /** The tail without the implicit immediate. */
  function ParseFields(d: InstrDesc, code: seq<u8>, pos: nat, has66: bool, rexW: bool): (r: Option<Tail>)
    requires pos <= |code|
    ensures r.Some? ==> pos <= r.value.next <= |code|
  {
    var tl1 :- ParseModrmAndImms(d, code, pos, has66, rexW);
    ParseMoffset(d, code, tl1)
  }

  lemma FieldsMove(d: InstrDesc, c1: seq<u8>, a: nat, c2: seq<u8>, b: nat, k: nat, has66: bool, rexW: bool)
    requires Agree(c1, a, c2, b, k)
    requires var r := ParseFields(d, c1, a, has66, rexW); r.Some? && r.value.next <= a + k
    ensures ParseFields(d, c2, b, has66, rexW) == Some(Moved(ParseFields(d, c1, a, has66, rexW).value, a, b))
  {
    hide ParseModrmAndImms, Agree, ReadSigned, HasAddr;
    ModrmAndImmsMove(d, c1, a, c2, b, k, has66, rexW);
    MoffsetMoves(d, c1, a, c2, b, k, ParseModrmAndImms(d, c1, a, has66, rexW).value);
  }

  lemma TailIsFields(d: InstrDesc, h: Head, code: seq<u8>, has66: bool)
    requires h.next <= |code|
    ensures var f := ParseFields(d, code, h.next, has66, Bit(h.enc.rex, 8));
            ParseTail(d, h, code, has66) == if f.None? then None else Some(ParseImplicit(d, h.opcode, code, f.value))
  {
  }

  /** The part after the opcode reads the same wherever its bytes stand. */
  lemma TailMoves(d: InstrDesc, h1: Head, c1: seq<u8>, h2: Head, c2: seq<u8>, has66: bool, tl: Tail, k: nat)
    requires h1.next <= |c1| && h2.next <= |c2|
    requires h1.opcode == h2.opcode && Bit(h1.enc.rex, 8) == Bit(h2.enc.rex, 8)
    requires ParseTail(d, h1, c1, has66) == Some(tl) && tl.next == h1.next + k
    requires Agree(c1, h1.next, c2, h2.next, k)
    requires NoImplicit(d, h1.opcode) || |c1| > h1.next + k || |c2| == h2.next + k
    ensures ParseTail(d, h2, c2, has66) == Some(Tail(tl.modrm, tl.sib, tl.disp, tl.imm, h2.next + k))
  {
    hide ParseTail, ParseFields, Agree, ReadSigned, HasAddr;
    TailIsFields(d, h1, c1, has66);
    TailIsFields(d, h2, c2, has66);
    var o := ParseFields(d, c1, h1.next, has66, Bit(h1.enc.rex, 8)).value;
    FieldsMove(d, c1, h1.next, c2, h2.next, k, has66, Bit(h1.enc.rex, 8));
    ImplicitMoves(d, h1.opcode, c1, h1.next, c2, h2.next, k, o);
  }

  // ------------------------------------------------------------ the head

  lemma {:induction false} PrefixEndLocal(c1: seq<u8>, c2: seq<u8>, pos: nat)
    requires pos <= |c1| && PrefixEnd(c1, pos) < |c1|
    requires PrefixEnd(c1, pos) < |c2| && forall i :: pos <= i <= PrefixEnd(c1, pos) ==> c1[i] == c2[i]
    ensures PrefixEnd(c2, pos) == PrefixEnd(c1, pos)
    decreases |c1| - pos
  {
    if IsLegacyPrefix(c1[pos]) {
      PrefixEndLocal(c1, c2, pos + 1);
    }
  }

  lemma HeadLocal(c1: seq<u8>, c2: seq<u8>, p: nat)
    requires p < |c1| && ParseHead(c1, p).Some?
    requires var n := ParseHead(c1, p).value.next; n <= |c2| && forall i :: p <= i < n ==> c1[i] == c2[i]
    ensures ParseHead(c2, p) == ParseHead(c1, p)
  {
    if c1[p] == 0x62 {
      assert ParseEvex(c2, p) == ParseEvex(c1, p);
    } else if c1[p] == 0xC5 {
      assert ParseVex2(c2, p) == ParseVex2(c1, p);
    } else if c1[p] == 0xC4 {
      assert ParseVex3(c2, p) == ParseVex3(c1, p);
    } else if c1[p] == 0xD5 {
      assert ParseRex2(c2, p) == ParseRex2(c1, p);
    } else {
      assert ParseLegacy(c2, p) == ParseLegacy(c1, p);
    }
  }

  // ------------------------------------------------------------ whole instructions

  lemma SameHead(c1: seq<u8>, c2: seq<u8>, p: nat, h: Head, n: nat)
    requires p == PrefixEnd(c1, 0) && p < |c1| && ParseHead(c1, p) == Some(h)
    requires h.next <= n <= |c1| && n <= |c2| && c1[..n] == c2[..n]
    ensures p == PrefixEnd(c2, 0) && p < |c2| && ParseHead(c2, p) == Some(h) && c1[..p] == c2[..p]
    ensures h.next < n ==> Peek(c2, h.next) == Peek(c1, h.next)
    ensures Agree(c1, h.next, c2, h.next, n - h.next)
  {
    assert forall i :: 0 <= i < n ==> c1[i] == c1[..n][i] == c2[i];
    PrefixEndLocal(c1, c2, 0);
    HeadLocal(c1, c2, p);
  }

  lemma TailSame(d: InstrDesc, c1: seq<u8>, p: nat, h: Head, tl: Tail, c2: seq<u8>)
    requires p <= h.next <= tl.next && p <= |c1| && p <= |c2| && c1[..p] == c2[..p] && h.next <= |c1|
    requires ParseTail(d, h, c1, Has66(c1, p, h)) == Some(tl)
    requires Agree(c1, h.next, c2, h.next, tl.next - h.next)
    requires NoImplicit(d, h.opcode) || |c1| > tl.next || |c2| == tl.next
    ensures ParseTail(d, h, c2, Has66(c2, p, h)) == Some(tl)
  {
    hide ParseTail, HasAddr, Bit;
    TailMoves(d, h, c1, h, c2, Has66(c1, p, h), tl, tl.next - h.next);
  }

  /** A decode is repeated on any string that has the consumed bytes in front, if the
      peeked byte is consumed or does not matter and no implicit immediate is open: where
      the first string ends with the instruction, so does the second. */
  lemma DecodeLocal(t: Table, c1: seq<u8>, c2: seq<u8>, p: nat, h: Head, d: InstrDesc, tl: Tail)
    requires Parsed(t, c1, p, h, d, tl)
    requires tl.next <= |c2| && c1[..tl.next] == c2[..tl.next]
    requires h.next < tl.next || Choose(t, KeyOf(c1[..p], h), Peek(c2, h.next)) == Some(d)
    requires NoImplicit(d, h.opcode) || |c1| > tl.next || |c2| == tl.next
    ensures Parsed(t, c2, p, h, d, tl) && c1[..p] == c2[..p]
  {
    SameHead(c1, c2, p, h, tl.next);
    TailSame(d, c1, p, h, tl, c2);
  }

  /** Nothing is consumed after the opcode. */
  predicate BodyEmpty(d: InstrDesc) {
    && !d.hasModrm && !HasAddr(d, Moffset)
    && forall o <- d.operands :: IsImm(o) ==> ImmSize(o.size, false, false) == 0
  }

  /** A byte string that ends with a complete opcode. */
  ghost predicate Spelled(text: seq<u8>, p: nat, h: Head) {
    p == PrefixEnd(text, 0) && p < |text| && ParseHead(text, p) == Some(h) && h.next == |text|
  }

  /** What the table must satisfy for the lookahead to be harmless: once an opcode is
      spelled, an entry without operand bytes is chosen whatever byte follows, and a
      0F3A entry declares its immediate. */
  ghost predicate LookaheadFree(t: Table) {
    forall text, p, h, x: u8, y: u8 :: Spelled(text, p, h) && Choose(t, KeyOf(text[..p], h), x).Some? ==>
      var d := Choose(t, KeyOf(text[..p], h), x).value;
      && (BodyEmpty(d) ==> Choose(t, KeyOf(text[..p], h), y) == Some(d))
      && NoImplicit(d, h.opcode)
  }

  /** Decoding depends only on the bytes it consumes. */
  ghost predicate PrefixStable(t: Table) {
    forall c1, c2 :: Decode(t, c1).Some? && Decode(t, c1).value.size <= |c2|
      && c2[..Decode(t, c1).value.size] == c1[..Decode(t, c1).value.size]
      ==> Decode(t, c2) == Decode(t, c1)
  }

  lemma {:induction false} ImmsTakeBytes(ops: seq<OperandDesc>, i: nat, count: nat, code: seq<u8>, tl: Tail,
                                         has66: bool, rexW: bool)
    requires i <= |ops| && tl.next <= |code|
    requires var r := ParseImms(ops, i, count, code, tl, has66, rexW); r.Some? && r.value.next == tl.next
    ensures forall j :: i <= j < |ops| && IsImm(ops[j]) ==> ImmSize(ops[j].size, false, false) == 0
    decreases |ops| - i
  {
    if i < |ops| {
      if !IsImm(ops[i]) {
        ImmsTakeBytes(ops, i + 1, count, code, tl, has66, rexW);
      } else {
        var n := ImmSize(ops[i].size, has66, rexW);
        var v := ReadSigned(code, tl.next, n);
        var tl' := if count == 0 then tl.(imm := v, next := tl.next + n) else tl.(disp := v, next := tl.next + n);
        ImmsForward(ops, i + 1, count + 1, code, tl', has66, rexW);
        ImmsTakeBytes(ops, i + 1, count + 1, code, tl', has66, rexW);
      }
    }
  }

  /** Only an entry without operand bytes ends with its opcode. */
  lemma NothingConsumed(d: InstrDesc, h: Head, code: seq<u8>, has66: bool)
    requires h.next <= |code|
    requires ParseTail(d, h, code, has66).Some? && ParseTail(d, h, code, has66).value.next == h.next
    ensures BodyEmpty(d)
  {
    TailIsFields(d, h, code, has66);
    var rexW := Bit(h.enc.rex, 8);
    var f := ParseFields(d, code, h.next, has66, rexW).value;
    var m := ParseModrm(d, code, h.next).value;
    var i := ParseImms(d.operands, 0, 0, code, m, has66, rexW).value;
    ImmsForward(d.operands, 0, 0, code, m, has66, rexW);
    assert h.next <= m.next <= i.next <= f.next;
    ImmsTakeBytes(d.operands, 0, 0, code, m, has66, rexW);
    forall o | o in d.operands && IsImm(o)
      ensures ImmSize(o.size, false, false) == 0
    {
      var j :| 0 <= j < |d.operands| && d.operands[j] == o;
    }
  }

  lemma LookaheadFreeIsStable(t: Table, c1: seq<u8>, c2: seq<u8>)
    requires LookaheadFree(t) && Decode(t, c1).Some?
    requires var n := Decode(t, c1).value.size; n <= |c2| && c2[..n] == c1[..n]
    ensures Decode(t, c2) == Decode(t, c1)
  {
    var p, h, d, tl := DecodeSteps(t, c1);
    var text := c1[..h.next];
    PrefixEndLocal(c1, text, 0);
    HeadLocal(c1, text, p);
    assert Spelled(text, p, h) && text[..p] == c1[..p];
    if h.next == tl.next {
      NothingConsumed(d, h, c1, Has66(c1, p, h));
    }
    DecodeLocal(t, c1, c2, p, h, d, tl);
  }

  /** 0F3A entries take a ModRM byte and no field besides an immediate. */
  predicate PlainThreeByte(t: Table) {
    forall d <- t :: d.opcode == 0x0F3A ==> d.hasModrm && !HasAddr(d, RelOffset) && !HasAddr(d, Moffset)
  }

  /** Putting more bytes behind a complete opcode. */
  lemma SpelledMore(text: seq<u8>, p: nat, h: Head, more: seq<u8>)
    requires Spelled(text, p, h)
    ensures p == PrefixEnd(text + more, 0) && ParseHead(text + more, p) == Some(h) && (text + more)[..p] == text[..p]
    ensures more != [] ==> Peek(text + more, h.next) == more[0]
  {
    assert (text + more)[..|text|] == text == text[..|text|];
    SameHead(text, text + more, p, h, |text|);
  }

  lemma {:induction false} EmptyImms(ops: seq<OperandDesc>, i: nat, count: nat, code: seq<u8>, tl: Tail, has66: bool,
                                     rexW: bool)
    requires i <= |ops| && tl.next <= |code|
    requires forall j :: i <= j < |ops| && IsImm(ops[j]) ==> ImmSize(ops[j].size, false, false) == 0
    ensures var r := ParseImms(ops, i, count, code, tl, has66, rexW); r.Some? && r.value.next == tl.next
    decreases |ops| - i
  {
    if i < |ops| {
      if !IsImm(ops[i]) {
        EmptyImms(ops, i + 1, count, code, tl, has66, rexW);
      } else {
        var v := ReadSigned(code, tl.next, 0);
        var tl' := if count == 0 then tl.(imm := v, next := tl.next) else tl.(disp := v, next := tl.next);
        EmptyImms(ops, i + 1, count + 1, code, tl', has66, rexW);
      }
    }
  }

  lemma EmptyTail(d: InstrDesc, h: Head, code: seq<u8>, has66: bool)
    requires h.next <= |code| && BodyEmpty(d) && NoImplicit(d, h.opcode)
    ensures ParseTail(d, h, code, has66).Some? && ParseTail(d, h, code, has66).value.next == h.next
  {
    EmptyImms(d.operands, 0, 0, code, Tail(0, 0, 0, 0, h.next), has66, Bit(h.enc.rex, 8));
  }

  /** If a table is stable, an entry without operand bytes is chosen whatever follows. */
  lemma StableChoice(t: Table, text: seq<u8>, p: nat, h: Head, x: u8, y: u8)
    requires PrefixStable(t) && Spelled(text, p, h)
    requires var c := Choose(t, KeyOf(text[..p], h), x); c.Some? && BodyEmpty(c.value) && NoImplicit(c.value, h.opcode)
    ensures Choose(t, KeyOf(text[..p], h), y) == Choose(t, KeyOf(text[..p], h), x)
  {
    hide Choose, ParseTail;
    var d := Choose(t, KeyOf(text[..p], h), x).value;
    var c1, c2 := text + [x], text + [y];
    SpelledMore(text, p, h, [x]);
    SpelledMore(text, p, h, [y]);
    EmptyTail(d, h, c1, Has66(c1, p, h));
    assert Decode(t, c1).Some? && Decode(t, c1).value.size == |text|;
    assert c1[..|text|] == text == c2[..|text|];
    assert Decode(t, c2) == Decode(t, c1);
  }

  lemma NoFieldTail(d: InstrDesc, h: Head, code: seq<u8>, has66: bool)
    requires h.next <= |code| && h.opcode == 0x0F3A && ParseModrm(d, code, h.next).Some?
    requires d.hasModrm && !HasAddr(d, RelOffset) && !HasAddr(d, Moffset) && !HasAddr(d, Immediate)
    ensures var m := ParseModrm(d, code, h.next).value;
            ParseTail(d, h, code, has66).Some?
            && ParseTail(d, h, code, has66).value.next == if m.next < |code| then m.next + 1 else m.next
  {
    NoMoreImms(d.operands, 0, 0, code, ParseModrm(d, code, h.next).value, has66, Bit(h.enc.rex, 8));
  }

  lemma NoFieldDecode(t: Table, text: seq<u8>, p: nat, h: Head, d: InstrDesc, more: seq<u8>)
    requires Spelled(text, p, h) && h.opcode == 0x0F3A && more != []
    requires Choose(t, KeyOf(text[..p], h), more[0]) == Some(d)
    requires d.hasModrm && !HasAddr(d, RelOffset) && !HasAddr(d, Moffset) && !HasAddr(d, Immediate)
    requires ParseModrm(d, text + more, h.next).Some?
    ensures var c, m := text + more, ParseModrm(d, text + more, h.next).value;
            Decode(t, c).Some? && Decode(t, c).value.size == if m.next < |c| then m.next + 1 else m.next
  {
    var c := text + more;
    SpelledMore(text, p, h, more);
    NoFieldTail(d, h, c, Has66(c, p, h));
  }

  /** The ModRM part alone, cut out of a longer string. */
  lemma CutModrm(d: InstrDesc, text: seq<u8>, more: seq<u8>, m: Tail)
    requires d.hasModrm && ParseModrm(d, text + more, |text|) == Some(m)
    ensures |text| < m.next <= |text| + |more|
    ensures var c1 := text + more[..m.next - |text|];
            && ParseModrm(d, c1, |text|) == Some(m)
            && |c1| == m.next && (text + more)[..m.next] == c1 == c1[..m.next]
  {
    var c1, c2, k := text + more[..m.next - |text|], text + more, m.next - |text|;
    assert c1[|text|..m.next] == more[..k] == c2[|text|..m.next];
    ModrmMoves(d, c2, |text|, c1, |text|, k);
  }

  /** The two readings of an instruction with an undeclared immediate. */
  lemma TwoEnds(t: Table, text: seq<u8>, p: nat, h: Head, d: InstrDesc, x: u8) returns (c1: seq<u8>, c2: seq<u8>)
    requires Spelled(text, p, h) && h.opcode == 0x0F3A
    requires Choose(t, KeyOf(text[..p], h), x) == Some(d)
    requires d.hasModrm && !HasAddr(d, RelOffset) && !HasAddr(d, Moffset) && !HasAddr(d, Immediate)
    ensures Decode(t, c1).Some? && Decode(t, c1).value.size == |c1| <= |c2| && c2[..|c1|] == c1[..|c1|]
    ensures Decode(t, c2) != Decode(t, c1)
  {
    var more := [x, 0, 0, 0, 0, 0, 0];
    c2 := text + more;
    var m := ParseModrm(d, c2, h.next).value;
    NoFieldDecode(t, text, p, h, d, more);
    var rest := more[..m.next - h.next];
    c1 := text + rest;
    CutModrm(d, text, more, m);
    NoFieldDecode(t, text, p, h, d, rest);
  }

  /** If a table is stable, every 0F3A entry that can be chosen declares its immediate:
      otherwise the same instruction ends before or after one more byte. */
  lemma StableImplicit(t: Table, text: seq<u8>, p: nat, h: Head, x: u8)
    requires PrefixStable(t) && PlainThreeByte(t) && Spelled(text, p, h)
    requires Choose(t, KeyOf(text[..p], h), x).Some?
    ensures NoImplicit(Choose(t, KeyOf(text[..p], h), x).value, h.opcode)
  {
    var d := Choose(t, KeyOf(text[..p], h), x).value;
    ChosenFacts(t, KeyOf(text[..p], h), x);
    if h.opcode == 0x0F3A && !HasAddr(d, Immediate) {
      var a, b := TwoEnds(t, text, p, h, d, x);
    }
  }

  /** Decoding depends only on the bytes it consumes, despite the one-byte lookahead, if
      and only if the table is free of lookahead. */
  lemma StableIff(t: Table)
    requires PlainThreeByte(t)
    ensures PrefixStable(t) <==> LookaheadFree(t)
  {
    if LookaheadFree(t) {
      forall c1, c2 | Decode(t, c1).Some? && Decode(t, c1).value.size <= |c2|
                      && c2[..Decode(t, c1).value.size] == c1[..Decode(t, c1).value.size]
        ensures Decode(t, c2) == Decode(t, c1)
      {
        LookaheadFreeIsStable(t, c1, c2);
      }
    }
    if PrefixStable(t) {
      forall text, p, h, x: u8, y: u8 | Spelled(text, p, h) && Choose(t, KeyOf(text[..p], h), x).Some?
        ensures var d := Choose(t, KeyOf(text[..p], h), x).value;
                && (BodyEmpty(d) ==> Choose(t, KeyOf(text[..p], h), y) == Some(d))
                && NoImplicit(d, h.opcode)
      {
        StableImplicit(t, text, p, h, x);
        if BodyEmpty(Choose(t, KeyOf(text[..p], h), x).value) {
          StableChoice(t, text, p, h, x, y);
        }
      }
    }
  }

  /** Over a table free of lookahead the accepted encodings form a prefix code. */
  lemma PrefixCode(t: Table, a: seq<u8>, b: seq<u8>)
    requires LookaheadFree(t) && a <= b
    requires Decode(t, a).Some? && Decode(t, a).value.size == |a|
    requires Decode(t, b).Some? && Decode(t, b).value.size == |b|
    ensures a == b
  {
    assert b[..|a|] == a == a[..|a|];
    LookaheadFreeIsStable(t, a, b);
  }
}
