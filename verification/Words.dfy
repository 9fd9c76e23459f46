/** Fixed-width integers and little-endian byte strings.

    Machine words are mathematical integers with an explicit range. A cast that
    narrows in C++ is a remainder modulo a power of 256, and copying the low
    bytes of a (possibly negative) 64-bit value is `Le`, which follows two's
    complement because Dafny's `/` and `%` are Euclidean. */
module Words {
  type u8 = x: int | 0 <= x < 0x100
  type u16 = x: int | 0 <= x < 0x1_0000

  const W32: int := 0x1_0000_0000
  const W64: int := 0x1_0000_0000_0000_0000

  type u64 = x: int | 0 <= x < W64

  datatype Option<+T> = None | Some(value: T) {
    predicate IsFailure() { None? }

    function PropagateFailure<U>(): Option<U>
      requires None?
    {
      None
    }

    function Extract(): T
      requires Some?
    {
      value
    }
  }

  type BitWeight = w: nat | w in {1, 2, 4, 8, 16, 32, 64, 128} witness 1

  /** The bit of weight `w`. */
  predicate Bit(x: nat, w: BitWeight) {
    (if w == 1 then x else if w == 2 then x / 2 else if w == 4 then x / 4 else if w == 8 then x / 8
     else if w == 16 then x / 16 else if w == 32 then x / 32 else if w == 64 then x / 64 else x / 128) % 2 == 1
  }

  function Flag(b: bool, w: nat): nat {
    if b then w else 0
  }

  function Pow256(n: nat): (p: int)
    ensures p >= 1
  {
    if n == 0 then 1 else 256 * Pow256(n - 1)
  }

  /** The low `n` bytes of `v`, least significant first. */
  function Le(v: int, n: nat): (s: seq<u8>)
    ensures |s| == n
    decreases n
  {
    if n == 0 then [] else [v % 256] + Le(v / 256, n - 1)
  }

  function FromLe(s: seq<u8>): (v: nat)
    ensures v < Pow256(|s|)
  {
    if s == [] then 0 else s[0] + 256 * FromLe(s[1..])
  }

  /** Reads an `n`-byte unsigned value as a signed one. */
  function Signed(v: int, n: nat): int {
    var p := Pow256(n);
    if 2 * (v % p) >= p && n > 0 then v % p - p else v % p
  }

  lemma Pow256Values()
    ensures Pow256(0) == 1 && Pow256(1) == 0x100 && Pow256(2) == 0x1_0000
    ensures Pow256(4) == W32 && Pow256(8) == W64
  {
    assert Pow256(3) == 0x100_0000;
    assert Pow256(5) == 0x100_0000_0000;
    assert Pow256(6) == 0x1_0000_0000_0000;
    assert Pow256(7) == 0x100_0000_0000_0000;
  }

  lemma Multiple(m: int, d: int)
    requires m > 0 && d > 0
    ensures m * d >= m
  {
  }

  lemma ModUnique(v: int, m: int, k: int, r: int)
    requires m > 0 && 0 <= r < m && v == m * k + r
    ensures v % m == r && v / m == k
  {
    var d := v / m - k;
    assert m * d == r - v % m by {
      assert m * (v / m) == m * k + m * d;
    }
    assert m * d == -(m * (-d));
    if d > 0 {
      Multiple(m, d);
    } else if d < 0 {
      Multiple(m, -d);
    }
  }

  lemma QuotientBound(v: nat, p: nat)
    requires p > 0
    ensures 0 <= v / p <= v
  {
    assert v == p * (v / p) + v % p;
    if v / p > 0 {
      Multiple(v / p, p);
      assert p * (v / p) == (v / p) * p;
    }
  }

  /** Two numbers that differ by a multiple of `m` have the same remainder. */
  lemma ModShift(v: int, m: int, k: int)
    requires m > 0
    ensures (v + m * k) % m == v % m
  {
    assert v + m * k == m * (v / m + k) + v % m by {
      assert m * (v / m + k) == m * (v / m) + m * k;
    }
    ModUnique(v + m * k, m, v / m + k, v % m);
  }

  lemma ModSum(a: int, b: int, m: int)
    requires m > 0
    ensures (a % m + b) % m == (a + b) % m
  {
    ModShift(a % m + b, m, a / m);
  }

  lemma {:induction false} LeOfFromLe(s: seq<u8>)
    ensures Le(FromLe(s), |s|) == s
  {
    if s != [] {
      var rest := FromLe(s[1..]);
      LeOfFromLe(s[1..]);
      ModUnique(FromLe(s), 256, rest, s[0]);
      assert Le(FromLe(s), |s|) == [s[0]] + Le(rest, |s| - 1);
    }
  }

  lemma FromLeStep(s: seq<u8>)
    requires s != []
    ensures FromLe(s) == s[0] + 256 * FromLe(s[1..])
  {
  }

  lemma FromLeEmpty(s: seq<u8>)
    requires s == []
    ensures FromLe(s) == 0
  {
  }

  lemma Regrouped(p: int, f: int)
    ensures 256 * (p * f) == 256 * p * f
  {
  }

  lemma {:induction false} FromLeConcat(a: seq<u8>, b: seq<u8>)
    ensures FromLe(a + b) == FromLe(a) + Pow256(|a|) * FromLe(b)
  {
    hide FromLe;
    if a == [] {
      assert a + b == b && FromLe(a) == 0 by {
        FromLeEmpty(a);
      }
    } else {
      assert (a + b)[1..] == a[1..] + b && (a + b)[0] == a[0];
      FromLeConcat(a[1..], b);
      FromLeStep(a);
      FromLeStep(a + b);
      Regrouped(Pow256(|a| - 1), FromLe(b));
    }
  }

  /** The remainder modulo 256p, by its last byte. */
  lemma ModDigits(v: int, p: int)
    requires p > 0
    ensures v % (256 * p) == v % 256 + 256 * (v / 256 % p)
  {
    var k, r := v / 256 / p, v % 256 + 256 * (v / 256 % p);
    assert v / 256 == p * k + v / 256 % p;
    assert v == (256 * p) * k + r;
    ModUnique(v, 256 * p, k, r);
  }

  lemma {:induction false} FromLeOfLe(v: int, n: nat)
    ensures FromLe(Le(v, n)) == v % Pow256(n)
    decreases n
  {
    if n > 0 {
      FromLeOfLe(v / 256, n - 1);
      assert Le(v, n)[1..] == Le(v / 256, n - 1);
      ModDigits(v, Pow256(n - 1));
    }
  }

  /** Only the remainder modulo 256^n survives in an n-byte field. */
  lemma LeCongruent(v: int, w: int, n: nat)
    ensures Le(v, n) == Le(w, n) <==> v % Pow256(n) == w % Pow256(n)
  {
    FromLeOfLe(v, n);
    FromLeOfLe(w, n);
    LeOfFromLe(Le(v, n));
    LeOfFromLe(Le(w, n));
  }

  lemma SignedCongruent(v: int, n: nat)
    ensures Signed(v, n) % Pow256(n) == v % Pow256(n)
  {
    var p := Pow256(n);
    ModShift(v % p, p, -1);
    ModSum(v, 0, p);
  }

  /** Sign extension after a read is undone by a truncating write. */
  lemma LeOfSigned(s: seq<u8>)
    ensures Le(Signed(FromLe(s), |s|), |s|) == s
  {
    SignedCongruent(FromLe(s), |s|);
    LeCongruent(Signed(FromLe(s), |s|), FromLe(s), |s|);
    LeOfFromLe(s);
  }

  /** A signed n-byte number survives a truncating write and a sign-extending read. */
  lemma SignedOfLe(v: int, n: nat)
    requires n > 0 && -Pow256(n) <= 2 * v < Pow256(n)
    ensures Signed(FromLe(Le(v, n)), n) == v
  {
    var p := Pow256(n);
    FromLeOfLe(v, n);
    ModSum(v, 0, p);
    if v < 0 {
      ModUnique(v, p, -1, v + p);
    } else {
      ModUnique(v, p, 0, v);
    }
  }

  // ------------------------------------------------------------ addresses

  /** The 64-bit address `addr + i`. */
  function At(addr: u64, i: nat): u64 {
    (addr + i) % W64
  }

  /** The distance from `addr` up to `a`, around the end of the address space. */
  function Distance(addr: u64, a: u64): u64 {
    if a >= addr then a - addr else a - addr + W64
  }

  lemma DistanceBack(addr: u64, a: u64)
    ensures At(addr, Distance(addr, a)) == a
  {
  }

  lemma DistanceOf(addr: u64, i: nat)
    requires i < W64
    ensures Distance(addr, At(addr, i)) == i
  {
  }
}
