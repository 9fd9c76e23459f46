/** Conditional jumps over any distance. */
module LongJump {
  import opened Words
  import opened Decoder

  /** The eight conditions of the processor; odd codes negate them. */
  type Conditions = s: seq<bool> | |s| == 8 witness seq(8, i => false)

  predicate Holds(flags: Conditions, cc: nat) {
    flags[cc % 16 / 2] != (cc % 2 == 1)
  }

  /** Where execution goes from offset `off` of code that stands at `base`: a near and a
      short conditional jump, and a jump through a RIP-relative slot inside the code. */
  function NextIp(code: seq<u8>, base: u64, off: nat, flags: Conditions): Option<u64> {
    if off + 6 <= |code| && code[off] == 0x0F && code[off + 1] / 16 == 8 then
      Some((base + off + 6 + (if Holds(flags, code[off + 1]) then ReadSigned(code, off + 2, 4) else 0)) % W64)
    else if off + 2 <= |code| && code[off] / 16 == 7 then
      Some((base + off + 2 + (if Holds(flags, code[off]) then ReadSigned(code, off + 1, 1) else 0)) % W64)
    else if off + 6 <= |code| && code[off] == 0xFF && code[off + 1] == 0x25 then
      var slot := off + 6 + ReadSigned(code, off + 2, 4);
      if 0 <= slot && slot + 8 <= |code| then Some(FromLe(code[slot..slot + 8]) % W64) else None
    else None
  }

  /** The code reaches the target if the condition holds and its own end if not. */
  ghost predicate Jumps(code: seq<u8>, src: u64, cc: u8, target: u64) {
    forall flags: Conditions ::
      var first := NextIp(code, src, 0, flags);
      if Holds(flags, cc) then
        first == Some(target) || (first == Some((src + 2) % W64) && NextIp(code, src, 2, flags) == Some(target))
      else first == Some((src + |code|) % W64)
  }

  function Gap(src: u64, target: u64): int {
    Signed(target, 8) - Signed(src + 6, 8)
  }

  predicate Near(src: u64, target: u64) {
    -0x8000_0000 <= Gap(src, target) < 0x8000_0000
  }

  function NearBytes(cc: u8, src: u64, target: u64): seq<u8> {
    [0x0F, cc] + Le(Gap(src, target), 4)
  }

  /** The inverse condition. */
  function Inverse(cc: u8): u8 {
    if cc % 2 == 0 then cc + 1 else cc - 1
  }

  /** The inverse short jump over a jump through the quadword that follows it. */
  function FarBytes(cc: u8, target: u64): seq<u8> {
    [0x70 + Inverse(cc) % 16, 0x0E, 0xFF, 0x25] + Le(0, 4) + Le(target, 8)
  }

  lemma EndAdd(a: int, a': int, b': int, b: u64)
    requires a % W64 == a' % W64 && b' % W64 == b % W64
    ensures (a + (b' - a')) % W64 == b
  {
    ModSum(a, b' - a', W64);
    ModSum(a', b' - a', W64);
    ModUnique(b, W64, 0, b);
  }

  lemma NearParts(cc: u8, src: u64, target: u64)
    requires Near(src, target)
    ensures var s := NearBytes(cc, src, target);
            |s| == 6 && s[0] == 0x0F && s[1] == cc && ReadSigned(s, 2, 4) == Gap(src, target)
    ensures (src + 6 + Gap(src, target)) % W64 == target
  {
    hide Le, FromLe, Signed;
    Pow256Values();
    SignedOfLe(Gap(src, target), 4);
    assert NearBytes(cc, src, target)[2..6] == Le(Gap(src, target), 4);
    SignedCongruent(target, 8);
    SignedCongruent(src + 6, 8);
    EndAdd(src + 6, Signed(src + 6, 8), Signed(target, 8), target);
  }

  lemma NearJumps(cc: u8, src: u64, target: u64)
    requires cc / 16 == 8 && Near(src, target)
    ensures Jumps(NearBytes(cc, src, target), src, cc, target)
  {
    hide NearBytes, Gap, ReadSigned, Holds, FromLe;
    var s := NearBytes(cc, src, target);
    NearParts(cc, src, target);
    forall flags: Conditions
      ensures NextIp(s, src, 0, flags) == if Holds(flags, cc) then Some(target) else Some((src + |s|) % W64)
    {
    }
  }

  predicate FitsNear(d: int) {
    -0x8000_0000 <= d < 0x8000_0000
  }

  /** A signed address is the address or, in the upper half, 2^64 less. */
  lemma Halves(v: nat)
    ensures Signed(v, 8) == if v % W64 < 0x8000_0000_0000_0000 then v % W64 else v % W64 - W64
  {
    Pow256Values();
  }

  lemma SameDistance(x: u64, y: u64, d: int)
    requires (x + d) % W64 == y && FitsNear(d)
    requires x < 0x8000_0000_0000_0000 <==> y < 0x8000_0000_0000_0000
    ensures y - x == d
  {
    var k := (x + d) / W64;
    assert x + d == W64 * k + y;
  }

  lemma ReachIsNear(src: u64, target: u64, d: int)
    requires (src + 6) % W64 < 0x8000_0000_0000_0000 <==> target < 0x8000_0000_0000_0000
    requires FitsNear(d) && (src + 6 + d) % W64 == target
    ensures Near(src, target)
  {
    hide Signed;
    Halves(src + 6);
    Halves(target);
    ModUnique(target, W64, 0, target);
    ModSum(src + 6, d, W64);
    SameDistance((src + 6) % W64, target, d);
  }

  lemma NearDistance(src: u64, target: u64)
    requires Near(src, target)
    ensures FitsNear(Gap(src, target)) && (src + 6 + Gap(src, target)) % W64 == target
  {
    hide NearBytes, ReadSigned, Gap;
    NearParts(0x80, src, target);
  }

  /** The near form is taken whenever it can reach the target, if both addresses lie in the
      same half of the address space. */
  lemma NearIff(src: u64, target: u64)
    requires (src + 6) % W64 < 0x8000_0000_0000_0000 <==> target < 0x8000_0000_0000_0000
    ensures Near(src, target) <==> exists d: int :: FitsNear(d) && (src + 6 + d) % W64 == target
  {
    hide Gap, FitsNear, Near;
    if Near(src, target) {
      NearDistance(src, target);
    }
    forall d: int | FitsNear(d) && (src + 6 + d) % W64 == target
      ensures Near(src, target)
    {
      ReachIsNear(src, target, d);
    }
  }

  lemma LowNibble(cc: u8)
    ensures var x := 0x70 + Inverse(cc) % 16; x % 16 / 2 == cc % 16 / 2 && x % 2 == 1 - cc % 2
  {
    var low := cc % 16;
    assert low % 2 == cc % 2;
    var inv := if cc % 2 == 0 then low + 1 else low - 1;
    assert Inverse(cc) == 16 * (cc / 16) + inv;
    ModUnique(Inverse(cc), 16, cc / 16, inv);
  }

  lemma InverseHolds(flags: Conditions, cc: u8)
    ensures Holds(flags, 0x70 + Inverse(cc) % 16) == !Holds(flags, cc)
  {
    LowNibble(cc);
  }

  lemma LeOne(v: u8)
    ensures Le(v, 1) == [v]
  {
  }

  lemma FarParts(cc: u8, target: u64)
    ensures var s := FarBytes(cc, target);
            && |s| == 16 && s[0] == 0x70 + Inverse(cc) % 16 && s[2] == 0xFF && s[3] == 0x25
            && ReadSigned(s, 1, 1) == 14 && ReadSigned(s, 4, 4) == 0 && FromLe(s[8..16]) == target
  {
    hide Le, FromLe, Signed;
    var s := FarBytes(cc, target);
    Pow256Values();
    assert s[1..2] == [14] && s[4..8] == Le(0, 4) && s[8..16] == Le(target, 8);
    assert Le(14, 1) == [14] by {
      LeOne(14);
    }
    SignedOfLe(14, 1);
    SignedOfLe(0, 4);
    FromLeOfLe(target, 8);
    ModUnique(target, W64, 0, target);
  }

  lemma FarJumps(cc: u8, src: u64, target: u64)
    ensures Jumps(FarBytes(cc, target), src, cc, target)
  {
    hide Le, FromLe, Signed, FarBytes, ReadSigned, Holds;
    var s := FarBytes(cc, target);
    FarParts(cc, target);
    ModUnique(target, W64, 0, target);
    forall flags: Conditions
      ensures var first := NextIp(s, src, 0, flags);
              if Holds(flags, cc) then first == Some((src + 2) % W64) && NextIp(s, src, 2, flags) == Some(target)
              else first == Some((src + |s|) % W64)
    {
      InverseHolds(flags, cc);
    }
  }

  lemma WrappedSigned(v: nat)
    ensures Signed(v % W64, 8) == Signed(v, 8)
  {
    Pow256Values();
  }

  /** Emits a conditional jump to `target` for code that will stand at `src`; `cc` is the
      second opcode byte of the near form. Nothing is emitted if the buffer is too small. */
  method EmitLongJcc(cc: u8, src: u64, target: u64, out: array<u8>, cap: nat) returns (n: nat)
    requires cap <= out.Length
    modifies out
    ensures n == if cap < 6 then 0 else if Near(src, target) then 6 else if cap < 16 then 0 else 16
    ensures n > 0 && cc / 16 == 8 ==> Jumps(out[..n], src, cc, target)
    ensures out[n..] == old(out[n..])
  {
    hide Le, FromLe, Signed, Jumps;
    if cap < 6 { return 0; }
    var rel := Signed(target, 8) - Signed((src + 6) % W64, 8);
    WrappedSigned(src + 6);
    if -0x8000_0000 <= rel < 0x8000_0000 {
      out[0], out[1] := 0x0F, cc;
      var bytes := Le(rel, 4);
      forall i | 0 <= i < 4 { out[2 + i] := bytes[i]; }
      assert out[..6] == NearBytes(cc, src, target);
      if cc / 16 == 8 { NearJumps(cc, src, target); }
      return 6;
    }
    if cap < 16 { return 0; }
    var inv := Inverse(cc);
    out[0], out[1], out[2], out[3] := 0x70 + inv % 16, 0x0E, 0xFF, 0x25;
    var zero, abs := Le(0, 4), Le(target, 8);
    forall i | 0 <= i < 4 { out[4 + i] := zero[i]; }
    forall i | 0 <= i < 8 { out[8 + i] := abs[i]; }
    assert out[..16] == FarBytes(cc, target);
    FarJumps(cc, src, target);
    return 16;
  }
}
