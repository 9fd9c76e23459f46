/** Folding arithmetic that is narrower than 64 bits: the recognizer computes on 64 bits
    whatever the width of the destination. For each operation and width, exactly which
    operands come out right. */
module NarrowFold {
  import opened Words
  import opened InstrTable
  import opened Machine
  import opened Branch

  // ------------------------------------------------------------ quotients and powers

  lemma FloorIs(a: int, d: int, k: int)
    requires d > 0 && d * k <= a < d * k + d
    ensures a / d == k && a % d == a - d * k
  {
    ModUnique(a, d, k, a - d * k);
  }

  lemma FloorBounds(a: int, d: int)
    requires d > 0
    ensures d * (a / d) <= a < d * (a / d) + d
  {
  }

  lemma DivSum(k: int, d: int, b: int)
    requires d > 0
    ensures (k * d + b) / d == k + b / d && (k * d + b) % d == b % d
  {
    FloorBounds(b, d);
    assert d * (k + b / d) == k * d + d * (b / d);
    FloorIs(k * d + b, d, k + b / d);
  }

  lemma MulMonotone(d: int, a: int, b: int)
    requires d > 0 && a <= b
    ensures d * a <= d * b
  {
  }

  lemma DivDiv(a: int, b: int, c: int)
    requires b > 0 && c > 0
    ensures b * c > 0 && a / (b * c) == a / b / c
  {
    var k := a / b / c;
    FloorBounds(a / b, c);
    FloorBounds(a, b);
    Multiple(b, c);
    assert b * (c * k) == (b * c) * k;
    MulMonotone(b, c * k, a / b);
    MulMonotone(b, a / b + 1, c * k + c);
    assert b * (c * k + c) == (b * c) * k + b * c;
    FloorIs(a, b * c, k);
  }

  lemma Associate(a: int, b: int, c: int)
    ensures a * (b * c) == (a * b) * c
  {
  }

  lemma Distribute(p: int, q: int, k: int, r: int, l: int)
    ensures p * (q * k + r) + l == (p * q) * k + (p * r + l)
  {
    assert p * (q * k + r) == p * (q * k) + p * r;
    Associate(p, q, k);
  }

  lemma Rotate(x: int, p: int, k: int)
    ensures x * (p * k) == p * (x * k)
  {
  }

  lemma DigitBound(p: int, q: int, r: int, l: int)
    requires 0 <= r < q && 0 <= l < p
    ensures 0 <= p * r + l < p * q
  {
    MulMonotone(p, r, q - 1);
    MulMonotone(p, 0, r);
  }

  /** A modulus that divides another one. */
  lemma ModMod(a: int, p: int, q: int)
    requires p > 0 && q > 0
    ensures p * q > 0 && a % (p * q) % p == a % p && a % (p * q) / p == a / p % q
  {
    var k, r, l := a / p / q, a / p % q, a % p;
    Multiple(p, q);
    Distribute(p, q, k, r, l);
    DigitBound(p, q, r, l);
    ModUnique(a, p * q, k, p * r + l);
    ModUnique(p * r + l, p, r, l);
  }

  lemma {:induction false} Pow2Sum(a: nat, b: nat)
    ensures Pow2(a + b) == Pow2(a) * Pow2(b)
  {
    if a > 0 {
      Pow2Sum(a - 1, b);
      Associate(2, Pow2(a - 1), Pow2(b));
    }
  }

  lemma Pow2Values()
    ensures Pow2(0) == 1 && Pow2(8) == 0x100 && Pow2(16) == 0x1_0000 && Pow2(31) == 0x8000_0000
    ensures Pow2(32) == W32 && Pow2(48) == 0x1_0000_0000_0000 && Pow2(56) == 0x100_0000_0000_0000 && Pow2(64) == W64
  {
    assert Pow2(4) == 16;
    Pow2Sum(4, 4);
    Pow2Sum(8, 8);
    Pow2Sum(16, 16);
    Pow2Sum(32, 16);
    Pow2Sum(48, 8);
    Pow2Sum(32, 32);
    assert Pow2(32) == 2 * Pow2(31);
  }

  // ------------------------------------------------------------ widths

  /** The widths of the narrow operands in bytes. */
  type Width = s: nat | s == 1 || s == 2 || s == 4 witness 1

  /** The part of the destination above the operand. */
  function High(v: u64, s: Width): nat {
    v / Pow256(s)
  }

  /** What the operation leaves there: 8- and 16-bit results keep it, 32-bit results
      clear it. */
  function Kept(v: u64, s: Width): nat {
    if s == 4 then 0 else High(v, s)
  }

  function Low(v: u64, s: Width): nat {
    v % Pow256(s)
  }

  /** The number of values of the upper part. */
  function Uppers(s: Width): nat {
    if s == 1 then 0x100_0000_0000_0000 else if s == 2 then 0x1_0000_0000_0000 else W32
  }

  lemma WidthFacts(v: u64, s: Width)
    ensures Pow256(s) == Pow2(8 * s) && Uppers(s) == Pow2(64 - 8 * s) && Pow256(s) * Uppers(s) == W64
    ensures Pow256(s) == (if s == 1 then 0x100 else if s == 2 then 0x1_0000 else W32)
    ensures v == High(v, s) * Pow256(s) + Low(v, s) && High(v, s) < Uppers(s) && Low(v, s) < Pow256(s)
  {
    Pow256Values();
    Pow2Values();
  }

  /** The machine's result has the kept upper part and the operation's low part. */
  lemma MachineResult(m: Mnemonic, s: Width, v: u64, imm: int)
    ensures WriteReg(v, s, Alu(m, s, v, imm)) == Kept(v, s) * Pow256(s) + Alu(m, s, v, imm) % Pow256(s)
  {
    hide Alu;
    Pow256Values();
  }

  /** A 64-bit result equals the machine's exactly if both of its parts do. */
  lemma PartsDecide(f: nat, k: nat, a: nat, p: nat)
    requires p > 0 && a < p
    ensures f == k * p + a <==> f / p == k && f % p == a
  {
    DivSum(k, p, a);
    ModUnique(a, p, 0, a);
  }

  // ------------------------------------------------------------ sums

  /** Adding the kept part back to a sum that fits. */
  lemma SumBack(e: int, k: nat, p: nat, u: nat)
    requires p > 0 && k < u && p * u == W64
    ensures (e + k * p) % W64 / p == k <==> e % W64 < p
  {
    var f, g := (e + k * p) % W64, e % W64;
    MulMonotone(p, k + 1, u);
    assert p * (k + 1) == k * p + p;
    if g < p {
      ModSum(e, k * p, W64);
      ModUnique(g + k * p, W64, 0, g + k * p);
      FloorIs(f, p, k);
    }
    if f / p == k {
      FloorBounds(f, p);
      ModSum(e + k * p, -(k * p), W64);
      ModUnique(f - k * p, W64, 0, f - k * p);
    }
  }

  /** The sum does not leave the operand. */
  lemma SumFits(s: Width, v: u64, d: int)
    ensures (v + d) % W64 == Kept(v, s) * Pow256(s) + (Low(v, s) + d) % Pow256(s)
            <==> (v - Kept(v, s) * Pow256(s) + d) % W64 < Pow256(s)
  {
    hide Pow256, Uppers, High, Low;
    WidthFacts(v, s);
    var p, k := Pow256(s), Kept(v, s);
    ModMod(v + d, p, Uppers(s));
    DivSum(High(v, s), p, Low(v, s) + d);
    SumBack(v - k * p + d, k, p, Uppers(s));
    PartsDecide((v + d) % W64, k, (Low(v, s) + d) % p, p);
  }

  // ------------------------------------------------------------ bitwise operations

  lemma {:induction false} BitwiseBound(m: Mnemonic, a: nat, b: nat, n: nat)
    ensures Bitwise(m, a, b, n) < Pow2(n)
    decreases n
  {
    hide BitOp;
    if n > 0 {
      BitwiseBound(m, a / 2, b / 2, n - 1);
    }
  }

  lemma BitwiseStep(m: Mnemonic, a: nat, b: nat, n: nat)
    requires n > 0
    ensures Bitwise(m, a, b, n) == Flag(BitOp(m, a % 2 == 1, b % 2 == 1), 1) + 2 * Bitwise(m, a / 2, b / 2, n - 1)
  {
  }

  lemma Pow2Step(n: nat)
    requires n > 0
    ensures Pow2(n) == 2 * Pow2(n - 1)
  {
  }

  lemma HalvedParts(a: nat, q: nat)
    requires q > 0
    ensures a / 2 / q == a / (2 * q) && a % (2 * q) / 2 == a / 2 % q && a % (2 * q) % 2 == a % 2
  {
    DivDiv(a, 2, q);
    ModMod(a, 2, q);
  }

  /** The bits of `a` from `n` on, and those below. */
  function Above(a: nat, n: nat): nat {
    QuotientBound(a, Pow2(n));
    a / Pow2(n)
  }

  function Below(a: nat, n: nat): nat {
    a % Pow2(n)
  }

  lemma AboveStep(a: nat, n: nat)
    ensures if n == 0 then Above(a, n) == a && Below(a, n) == 0
            else
              && Above(a, n) == Above(a / 2, n - 1) && Below(a, n) / 2 == Below(a / 2, n - 1)
              && Below(a, n) % 2 == a % 2
  {
    if n > 0 {
      hide Pow2;
      Pow2Step(n);
      HalvedParts(a, Pow2(n - 1));
    }
  }

  lemma NoLowPart(m: Mnemonic)
    ensures Bitwise(m, 0, 0, 0) == 0 && Pow2(0) == 1
  {
  }

  /** Bitwise operations work on the two parts separately. */
  lemma {:induction false} BitwiseParts(m: Mnemonic, a: nat, b: nat, n: nat, k: nat)
    ensures Bitwise(m, a, b, n + k)
            == Bitwise(m, Below(a, n), Below(b, n), n) + Pow2(n) * Bitwise(m, Above(a, n), Above(b, n), k)
    decreases n
  {
    hide BitOp, Bitwise, Pow2, Above, Below;
    AboveStep(a, n);
    AboveStep(b, n);
    if n == 0 {
      NoLowPart(m);
    } else {
      Pow2Step(n);
      BitwiseParts(m, a / 2, b / 2, n - 1, k);
      BitwiseStep(m, a, b, n + k);
      BitwiseStep(m, Below(a, n), Below(b, n), n);
      var low, high := Bitwise(m, Below(a / 2, n - 1), Below(b / 2, n - 1), n - 1),
        Bitwise(m, Above(a, n), Above(b, n), k);
      Distribute(2, Pow2(n - 1), high, low, 0);
    }
  }

  /** The machine and the folding step as bitwise operations on both parts. */
  lemma BitwiseResults(m: Mnemonic, s: Width, v: u64, imm: int)
    requires m in {AND, OR, XOR}
    ensures var p, u := Pow256(s), imm % W64;
            var low, high := Bitwise(m, v % p, u % p, 8 * s), Bitwise(m, v / p, u / p, 64 - 8 * s);
            && low < p && Alu(m, s, v, imm) == low && ApplyArith(m, v, imm) == p * high + low
  {
    hide Bitwise, Pow256, Pow2;
    WidthFacts(v, s);
    Pow2Values();
    var p, u := Pow256(s), imm % W64;
    ModMod(imm, p, Uppers(s));
    BitwiseParts(m, v, u, 8 * s, 64 - 8 * s);
    assert Below(v, 8 * s) == v % p && Above(v, 8 * s) == v / p && Below(u, 8 * s) == u % p && Above(u, 8 * s) == u / p;
    BitwiseBound(m, v, u, 64);
    BitwiseBound(m, v % p, u % p, 8 * s);
    ModUnique(Bitwise(m, v, u, 64), W64, 0, Bitwise(m, v, u, 64));
  }

  /** The upper bits come out of the operation as they are kept. */
  predicate MaskStays(m: Mnemonic, s: Width, v: u64, imm: int) {
    Bitwise(m, High(v, s), imm % W64 / Pow256(s), 64 - 8 * s) == Kept(v, s)
  }

  lemma BitwiseFits(m: Mnemonic, s: Width, v: u64, imm: int)
    requires m in {AND, OR, XOR}
    ensures WriteReg(v, s, Alu(m, s, v, imm)) == ApplyArith(m, v, imm) <==> MaskStays(m, s, v, imm)
  {
    hide Bitwise, Pow256, Alu, ApplyArith, WriteReg, Kept;
    MachineResult(m, s, v, imm);
    BitwiseResults(m, s, v, imm);
    var p, u := Pow256(s), imm % W64;
    var low, high := Bitwise(m, v % p, u % p, 8 * s), Bitwise(m, v / p, u / p, 64 - 8 * s);
    ModUnique(low, p, 0, low);
    ModUnique(p * high + low, p, high, low);
    PartsDecide(p * high + low, Kept(v, s), low, p);
  }

  // ------------------------------------------------------------ shifts to the left

  lemma ProductParts(h: int, p: int, x: int, c: int)
    ensures (h * p + x) * c == (h * c) * p + x * c
  {
    assert (h * p) * c == (h * c) * p;
  }

  /** The 64-bit product by its parts. */
  lemma ShiftedParts(s: Width, v: u64, c: nat)
    ensures var p, x := Pow256(s), Low(v, s) * c;
            && (v * c) % W64 % p == x % p && (v * c) % W64 / p == (High(v, s) * c + x / p) % Uppers(s)
  {
    hide Pow256, Uppers, High, Low;
    WidthFacts(v, s);
    var p, h, x := Pow256(s), High(v, s), Low(v, s);
    ProductParts(h, p, x, c);
    DivSum(h * c, p, x * c);
    ModMod(v * c, p, Uppers(s));
  }

  /** Shifting by 32 or more leaves nothing in the operand. */
  lemma LongShift(s: Width, x: nat, n: nat)
    requires n >= 32
    ensures x * Pow2(n) % Pow256(s) == 0
  {
    hide Pow256, Pow2;
    WidthFacts(0, s);
    var p, k := Pow256(s), Pow2(n - 8 * s);
    Pow2Sum(8 * s, n - 8 * s);
    Rotate(x, p, k);
    ModShift(0, p, x * k);
    ModUnique(0, p, 0, 0);
  }

  lemma ShlMachine(s: Width, v: u64, imm: int)
    ensures Alu(SHL, s, v, imm) == Low(v, s) * Pow2(imm % 32) % Pow256(s)
    ensures ApplyArith(SHL, v, imm) == v * Pow2(imm % 64) % W64
  {
    hide Pow256, Pow2;
  }

  /** A short shift moves the kept upper part into itself; a long one moves the whole
      operand out. */
  predicate ShlStays(s: Width, v: u64, c: nat) {
    var p, x := Pow256(s), Low(v, s);
    if c < 32 then (High(v, s) * Pow2(c) + x * Pow2(c) / p) % Uppers(s) == Kept(v, s)
    else x * Pow2(c - 32) % p == 0 && v * Pow2(c) % W64 == Kept(v, s) * p
  }

  lemma ShiftCounts(imm: int)
    ensures imm % 32 == if imm % 64 < 32 then imm % 64 else imm % 64 - 32
  {
  }

  lemma ShlFits(s: Width, v: u64, imm: int)
    ensures WriteReg(v, s, Alu(SHL, s, v, imm)) == ApplyArith(SHL, v, imm) <==> ShlStays(s, v, imm % 64)
  {
    hide Pow256, Pow2, Alu, ApplyArith, WriteReg, Kept, High, Low, Uppers;
    var c, p, x, k := imm % 64, Pow256(s), Low(v, s), Kept(v, s);
    var f, a := v * Pow2(c) % W64, x * Pow2(imm % 32) % p;
    ShlMachine(s, v, imm);
    MachineResult(SHL, s, v, imm);
    ModSum(x * Pow2(imm % 32), 0, p);
    ShiftedParts(s, v, Pow2(c));
    PartsDecide(f, k, a, p);
    ShiftCounts(imm);
    if c >= 32 {
      LongShift(s, x, c);
      PartsDecide(f, k, 0, p);
    }
  }

  // ------------------------------------------------------------ shifts to the right

  lemma Pow2Grows(a: nat, b: nat)
    requires a <= b
    ensures Pow2(a) <= Pow2(b)
  {
    hide Pow2;
    Pow2Sum(a, b - a);
    Multiple(Pow2(a), Pow2(b - a));
  }

  lemma Pow2AtLeast2(n: nat)
    requires n > 0
    ensures Pow2(n) >= 2
  {
  }

  lemma ZeroQuotient(x: nat, d: int)
    requires d > 0
    ensures x / d == 0 <==> x < d
  {
    FloorBounds(x, d);
    if x < d {
      FloorIs(x, d, 0);
    }
  }

  lemma Scale(y: int, d: int)
    requires y >= 0 && d >= 2
    ensures d * y >= 2 * y
  {
  }

  lemma Negate(d: int, y: int)
    ensures d * (-y) == -(d * y) && d * (y + 1) == d * y + d
  {
  }

  /** A quotient by two or more is at most half. */
  lemma Halved(v: int, d: int)
    requires d >= 2
    ensures if v >= 0 then 0 <= 2 * (v / d) <= v else v / d < 0 && 2 * (v / d) >= v - 1
  {
    var y := v / d;
    FloorBounds(v, d);
    if v >= 0 {
      QuotientBound(v, d);
      Scale(y, d);
    } else {
      if y >= 0 {
        MulMonotone(d, 0, y);
      }
      Negate(d, y + 1);
      Negate(d, y);
      Scale(-(y + 1), d);
    }
  }

  lemma ShrMachine(s: Width, v: u64, imm: int)
    ensures Alu(SHR, s, v, imm) == Low(v, s) / Pow2(imm % 32) && ApplyArith(SHR, v, imm) == v / Pow2(imm % 64)
  {
    hide Pow256, Pow2, Bitwise, Signed;
  }

  lemma ShrResults(s: Width, v: u64, imm: int)
    ensures Alu(SHR, s, v, imm) % Pow256(s) == Low(v, s) / Pow2(imm % 32) < Pow256(s)
    ensures ApplyArith(SHR, v, imm) == v / Pow2(imm % 64)
  {
    hide Pow256, Pow2, Alu, ApplyArith, Uppers, High, Low;
    var y := Low(v, s) / Pow2(imm % 32);
    WidthFacts(v, s);
    ShrMachine(s, v, imm);
    QuotientBound(Low(v, s), Pow2(imm % 32));
    ModUnique(y, Pow256(s), 0, y);
  }

  /** 8- and 16-bit shifts come out right without an upper part and, if the count is long,
      where nothing is left anyway; 32-bit shifts where the upper part brings nothing in. */
  predicate ShrStays(s: Width, v: u64, c: nat) {
    var h, x := High(v, s), Low(v, s);
    if s != 4 then c == 0 || (h == 0 && (c < 32 || x < Pow2(c - 32)))
    else if c < 32 then h == 0
    else h / Pow2(c - 32) == x / Pow2(c - 32)
  }

  lemma QuotientByOne(v: int)
    ensures v / 1 == v
  {
  }

  lemma ShrFitsKept(s: Width, v: u64, imm: int)
    requires s != 4
    ensures WriteReg(v, s, Alu(SHR, s, v, imm)) == ApplyArith(SHR, v, imm) <==> ShrStays(s, v, imm % 64)
  {
    hide Pow256, Pow2, Alu, ApplyArith, WriteReg, Uppers;
    var c, p, x, h := imm % 64, Pow256(s), Low(v, s), High(v, s);
    WidthFacts(v, s);
    MachineResult(SHR, s, v, imm);
    ShrResults(s, v, imm);
    ShiftCounts(imm);
    Pow2Values();
    if c > 0 {
      Pow2AtLeast2(c);
      Halved(v, Pow2(c));
      if h > 0 {
        MulMonotone(p, 1, h);
      }
    } else {
      QuotientByOne(v);
      QuotientByOne(x);
    }
    if c >= 32 {
      Pow2Grows(32, c);
      ZeroQuotient(x, Pow2(c));
      ZeroQuotient(x, Pow2(c - 32));
    }
  }

  /** A quotient of the whole by parts, for a divisor of the low part's range. */
  lemma QuotientParts(h: int, x: int, n: nat)
    requires n <= 32
    ensures (h * W32 + x) / Pow2(n) == h * Pow2(32 - n) + x / Pow2(n)
  {
    hide Pow2;
    Pow2Sum(32 - n, n);
    Pow2Values();
    Associate(h, Pow2(32 - n), Pow2(n));
    DivSum(h * Pow2(32 - n), Pow2(n), x);
  }

  lemma QuotientAbove(h: int, x: int, n: nat)
    requires n >= 32 && 0 <= x < W32
    ensures (h * W32 + x) / Pow2(n) == h / Pow2(n - 32)
  {
    hide Pow2;
    Pow2Sum(32, n - 32);
    Pow2Values();
    DivSum(h, W32, x);
    DivDiv(h * W32 + x, W32, Pow2(n - 32));
    ZeroQuotient(x, W32);
  }

  lemma NonZeroProduct(h: int, q: int)
    requires q > 0
    ensures h * q == 0 <==> h == 0
  {
    if h != 0 {
      Multiple(if h > 0 then h else -h, q);
      assert (-h) * q == -(h * q);
    }
  }

  lemma ShrFitsCleared(v: u64, imm: int)
    ensures WriteReg(v, 4, Alu(SHR, 4, v, imm)) == ApplyArith(SHR, v, imm) <==> ShrStays(4, v, imm % 64)
  {
    hide Pow256, Pow2, Alu, ApplyArith, WriteReg, Uppers;
    var c, h, x := imm % 64, High(v, 4), Low(v, 4);
    WidthFacts(v, 4);
    MachineResult(SHR, 4, v, imm);
    ShrResults(4, v, imm);
    ShiftCounts(imm);
    if c < 32 {
      QuotientParts(h, x, c);
      NonZeroProduct(h, Pow2(32 - c));
    } else {
      QuotientAbove(h, x, c);
    }
  }

  // ------------------------------------------------------------ arithmetic shifts

  /** The low part as a signed number. */
  function SignedLow(v: u64, s: Width): int {
    Signed(v, s)
  }

  /** The upper part as a signed number. */
  function SignedHigh(v: u64, s: Width): int {
    if 2 * High(v, s) >= Uppers(s) then High(v, s) - Uppers(s) else High(v, s)
  }

  /** Whether a number is in the upper half of its range is said by its upper part. */
  lemma UpperHalfOf(h: nat, p: nat, u: nat, x: nat)
    requires x < p && u % 2 == 0
    ensures 2 * (h * p + x) >= p * u <==> 2 * h >= u
    ensures h * p - p * u == (h - u) * p
  {
    if 2 * h >= u {
      MulMonotone(p, u, 2 * h);
      Rotate(2, p, h);
    } else {
      MulMonotone(p, 2 * h + 2, u);
      Rotate(2, p, h);
    }
  }

  lemma SignedParts(v: u64, s: Width)
    ensures Signed(v, 8) == SignedHigh(v, s) * Pow256(s) + Low(v, s)
    ensures SignedLow(v, s) == if 2 * Low(v, s) >= Pow256(s) then Low(v, s) - Pow256(s) else Low(v, s)
    ensures 0 - Uppers(s) <= 2 * SignedHigh(v, s) < Uppers(s)
  {
    hide Pow256, High;
    WidthFacts(v, s);
    Pow256Values();
    ModUnique(v, W64, 0, v);
    UpperHalfOf(High(v, s), Pow256(s), Uppers(s), Low(v, s));
  }

  lemma SarResults(s: Width, v: u64, imm: int)
    ensures Alu(SAR, s, v, imm) % Pow256(s) == SignedLow(v, s) / Pow2(imm % 32) % Pow256(s)
    ensures ApplyArith(SAR, v, imm) == Signed(v, 8) / Pow2(imm % 64) % W64
  {
    hide Pow256, Pow2;
    WidthFacts(v, s);
    ModUnique(Low(v, s), Pow256(s), 0, Low(v, s));
    ModSum(SignedLow(v, s) / Pow2(imm % 32), 0, Pow256(s));
  }

  /** Signed 64-bit numbers are equal if they are equal modulo 2^64. */
  lemma SignedEqual(a: int, b: int)
    requires -W64 <= 2 * a < W64 && -W64 <= 2 * b < W64
    ensures a % W64 == b % W64 <==> a == b
  {
    ModUnique(a, W64, if a < 0 then -1 else 0, if a < 0 then a + W64 else a);
    ModUnique(b, W64, if b < 0 then -1 else 0, if b < 0 then b + W64 else b);
  }

  lemma SmallRemainder(w: int, p: int)
    requires p > 0 && -p <= w < p
    ensures w % p == if w < 0 then w + p else w
  {
    ModUnique(w, p, if w < 0 then -1 else 0, if w < 0 then w + p else w);
  }

  /** A quotient by one or more stays on its side of zero and does not grow. */
  lemma QuotientSign(q: int, d: int)
    requires d >= 1
    ensures if q >= 0 then 0 <= q / d <= q else q <= q / d < 0
  {
    if d == 1 {
      QuotientByOne(q);
    } else {
      Halved(q, d);
    }
  }

  /** Shifting a number with an upper part by one or more agrees with shifting its low
      part only if the number is the sign extension of the low part. */
  lemma ShiftedSign(hs: int, x: int, p: int, q: int, y: int, w: int)
    requires p >= 2 && p % 2 == 0 && 0 <= x < p && q == (if 2 * x >= p then x - p else x)
    requires var n := hs * p + x; if n >= 0 then 0 <= 2 * y <= n else y < 0 && 2 * y >= n - 1
    requires if q >= 0 then 0 <= w <= q else q <= w < 0
    ensures y == hs * p + w % p <==> hs * p + x == q && y == w
  {
    SmallRemainder(w, p);
    if hs >= 1 {
      MulMonotone(p, 1, hs);
      assert hs * p == p * hs;
    } else if hs <= -2 {
      MulMonotone(p, hs, -2);
      assert hs * p == p * hs;
    }
  }

  lemma SignedHighProduct(v: u64, s: Width)
    ensures SignedHigh(v, s) * Pow256(s) == High(v, s) * Pow256(s) - (if SignedHigh(v, s) < 0 then W64 else 0)
    ensures SignedHigh(v, s) < 0 <==> 2 * High(v, s) >= Uppers(s)
  {
    hide Pow256, High;
    WidthFacts(v, s);
    UpperHalfOf(High(v, s), Pow256(s), Uppers(s), Low(v, s));
  }

  lemma EvenUppers(s: Width)
    ensures Uppers(s) % 2 == 0
  {
  }

  /** The machine's result as a remainder of a signed number. */
  lemma KeptSigned(v: u64, s: Width, a: nat)
    requires a < Pow256(s)
    ensures High(v, s) * Pow256(s) + a == (SignedHigh(v, s) * Pow256(s) + a) % W64
    ensures -W64 <= 2 * (SignedHigh(v, s) * Pow256(s) + a) < W64
  {
    hide Pow256, High, SignedHigh, Uppers;
    WidthFacts(v, s);
    SignedHighProduct(v, s);
    var h, p, u := High(v, s), Pow256(s), Uppers(s);
    MulMonotone(p, h + 1, u);
    Negate(p, h);
    EvenUppers(s);
    UpperHalfOf(h, p, u, a);
    ModUnique(SignedHigh(v, s) * p + a, W64, if SignedHigh(v, s) < 0 then -1 else 0, h * p + a);
  }

  /** 8- and 16-bit arithmetic shifts come out right on sign-extended operands and, if the
      count is long, where only the sign is left anyway; 32-bit ones where the upper part
      brings in what sign extension would. */
  predicate SarStays(s: Width, v: u64, c: nat) {
    var h, x, q := High(v, s), Low(v, s), SignedLow(v, s);
    if s != 4 then c == 0 || (Signed(v, 8) == q && (c < 32 || 0 - Pow2(c - 32) <= q < Pow2(c - 32)))
    else if c < 32 then h == (if 2 * x >= W32 then Pow2(c) - 1 else 0)
    else 2 * x < W32 && h / Pow2(c - 32) == x / Pow2(c - 32)
  }

  /** Shifts that leave only the sign. */
  lemma LongSar(q: int, d: int, e: int)
    requires e >= 1 && d >= 1 && -d <= q < d
    ensures q / d == q / e <==> -e <= q < e
  {
    FloorIs(q, d, if q < 0 then -1 else 0);
    FloorBounds(q, e);
    if -e <= q < e {
      FloorIs(q, e, if q < 0 then -1 else 0);
    }
  }

  lemma SarFitsKept(s: Width, v: u64, imm: int)
    requires s != 4
    ensures WriteReg(v, s, Alu(SAR, s, v, imm)) == ApplyArith(SAR, v, imm) <==> SarStays(s, v, imm % 64)
  {
    hide Pow256, Pow2, Alu, ApplyArith, WriteReg, High, SignedHigh, SignedLow, Signed;
    var c, p, q, hs, x := imm % 64, Pow256(s), SignedLow(v, s), SignedHigh(v, s), Low(v, s);
    var n, y, w := Signed(v, 8), Signed(v, 8) / Pow2(c), q / Pow2(imm % 32);
    WidthFacts(v, s);
    MachineResult(SAR, s, v, imm);
    SarResults(s, v, imm);
    SignedParts(v, s);
    ShiftCounts(imm);
    Pow2Values();
    KeptSigned(v, s, w % p);
    KeptSigned(v, s, x);
    QuotientSign(q, Pow2(imm % 32));
    QuotientSign(n, Pow2(c));
    SignedEqual(y, hs * p + w % p);
    if c == 0 {
      QuotientByOne(n);
      QuotientByOne(q);
      SmallRemainder(q, p);
    } else {
      Pow2AtLeast2(c);
      Halved(n, Pow2(c));
      ShiftedSign(hs, x, p, q, y, w);
      if c >= 32 {
        Pow2Grows(32, c);
        LongSar(q, Pow2(c), Pow2(c - 32));
      }
    }
  }

  lemma Spread(hs: int, e: int, d: int)
    ensures (hs - (e - 1)) * d == hs * d - d * e + d
  {
  }

  /** 32-bit arithmetic shifts by less than 32. */
  lemma SarShortCleared(v: u64, c: nat)
    requires c < 32
    ensures var h, x, q, y := High(v, 4), Low(v, 4), SignedLow(v, 4), Signed(v, 8) / Pow2(c);
            y == q / Pow2(c) % W32 <==> h == if 2 * x >= W32 then Pow2(c) - 1 else 0
  {
    hide Pow256, Pow2, High, SignedLow, Signed;
    WidthFacts(v, 4);
    SignedParts(v, 4);
    Pow2Values();
    var h, hs, x, q, d := High(v, 4), SignedHigh(v, 4), Low(v, 4), SignedLow(v, 4), Pow2(32 - c);
    QuotientParts(hs, x, c);
    QuotientSign(q, Pow2(c));
    SmallRemainder(q / Pow2(c), W32);
    Pow2Sum(32 - c, c);
    Pow2Grows(c, 31);
    NonZeroProduct(hs, d);
    if 2 * x >= W32 {
      QuotientParts(-1, x, c);
      NonZeroProduct(hs - (Pow2(c) - 1), d);
      Spread(hs, Pow2(c), d);
    } else {
      QuotientParts(0, x, c);
    }
  }

  /** A multiple of the divisor in between separates two quotients. */
  lemma QuotientApart(x: nat, k: int, d: int, h: nat)
    requires d > 0 && x < k * d <= h
    ensures x / d < h / d
  {
    DivSum(k, d, h - k * d);
    FloorBounds(x, d);
    assert d * k == k * d;
    if x / d >= k {
      MulMonotone(d, k, x / d);
    }
    QuotientBound(h - k * d, d);
  }

  /** 32-bit arithmetic shifts by 32 or more. */
  lemma SarLongCleared(v: u64, n: nat)
    requires n < 32
    ensures var h, x, q, y := High(v, 4), Low(v, 4), SignedLow(v, 4), Signed(v, 8) / Pow2(n + 32);
            y == q / Pow2(n) % W32 <==> 2 * x < W32 && h / Pow2(n) == x / Pow2(n)
  {
    hide Pow256, Pow2, High, SignedLow, Signed;
    WidthFacts(v, 4);
    SignedParts(v, 4);
    Pow2Values();
    var h, hs, x, q, d := High(v, 4), SignedHigh(v, 4), Low(v, 4), SignedLow(v, 4), Pow2(n);
    QuotientAbove(hs, x, n + 32);
    QuotientSign(q, d);
    QuotientSign(hs, d);
    SmallRemainder(q / d, W32);
    if 2 * x < W32 && hs < 0 {
      Pow2Sum(31 - n, n);
      QuotientApart(x, Pow2(31 - n), d, h);
    }
  }

  lemma SarFitsCleared(v: u64, imm: int)
    ensures WriteReg(v, 4, Alu(SAR, 4, v, imm)) == ApplyArith(SAR, v, imm) <==> SarStays(4, v, imm % 64)
  {
    hide Pow256, Pow2, Alu, ApplyArith, WriteReg, High, SignedLow, Signed;
    var c, q := imm % 64, SignedLow(v, 4);
    var n, a := Signed(v, 8), q / Pow2(imm % 32) % W32;
    WidthFacts(v, 4);
    MachineResult(SAR, 4, v, imm);
    SarResults(4, v, imm);
    KeptSigned(v, 4, Low(v, 4));
    SignedParts(v, 4);
    QuotientSign(n, Pow2(c));
    SignedEqual(n / Pow2(c), a);
    ModUnique(a, W64, 0, a);
    ShiftCounts(imm);
    if c < 32 {
      SarShortCleared(v, c);
    } else {
      SarLongCleared(v, c - 32);
    }
  }

  // ------------------------------------------------------------ the theorem

  /** The sum with `d` does not leave the operand. */
  predicate SumStays(s: Width, v: u64, d: int) {
    ((if s == 4 then v else Low(v, s)) + d) % W64 < Pow256(s)
  }

  /** The amount that is added. */
  function Delta(m: Mnemonic, imm: int): int {
    if m == ADD then imm else -imm
  }

  lemma SumModulo(x: int, imm: int, p: int)
    requires p > 0
    ensures (x + imm % p) % p == (x + imm) % p && (x - imm % p) % p == (x - imm) % p
  {
    ModSum(imm, x, p);
    ModShift(x - imm, p, imm / p);
    FloorBounds(imm, p);
    assert x - imm + p * (imm / p) == x - imm % p;
  }

  lemma SumResults(m: Mnemonic, s: Width, v: u64, imm: int)
    requires m == ADD || m == SUB
    ensures Alu(m, s, v, imm) == (Low(v, s) + Delta(m, imm)) % Pow256(s)
    ensures ApplyArith(m, v, imm) == (v + Delta(m, imm)) % W64
  {
    hide Pow256, Bitwise, Pow2, Signed;
    SumModulo(v % Pow256(s), imm, Pow256(s));
  }

  lemma SumBase(v: u64, s: Width)
    ensures v - Kept(v, s) * Pow256(s) == if s == 4 then v else Low(v, s)
  {
    hide Pow256;
    WidthFacts(v, s);
  }

  lemma SumFolds(m: Mnemonic, s: Width, v: u64, imm: int)
    requires m == ADD || m == SUB
    ensures WriteReg(v, s, Alu(m, s, v, imm)) == ApplyArith(m, v, imm) <==> SumStays(s, v, Delta(m, imm))
  {
    hide Pow256, Alu, ApplyArith, WriteReg, High, Low, Delta, Kept;
    var d := Delta(m, imm);
    WidthFacts(v, s);
    MachineResult(m, s, v, imm);
    SumResults(m, s, v, imm);
    SumFits(s, v, d);
    SumBase(v, s);
    ModSum(Low(v, s) + d, 0, Pow256(s));
  }

  /** What a narrow operation must be applied to for folding on 64 bits to be right. */
  predicate Fits(m: Mnemonic, s: Width, v: u64, imm: int) {
    match m
    case ADD | SUB => SumStays(s, v, Delta(m, imm))
    case SHL => ShlStays(s, v, imm % 64)
    case SHR => ShrStays(s, v, imm % 64)
    case SAR => SarStays(s, v, imm % 64)
    case _ => MaskStays(m, s, v, imm)
  }

  /** For every operation, every 8-, 16- or 32-bit width and all operands: the folded value
      is what the register holds afterwards if and only if the operands fit. */
  lemma NarrowFoldIff(m: Mnemonic, s: Width, v: u64, imm: int)
    requires IsArith(m)
    ensures WriteReg(v, s, Alu(m, s, v, imm)) == ApplyArith(m, v, imm) <==> Fits(m, s, v, imm)
  {
    hide Alu, ApplyArith, WriteReg, SumStays, MaskStays, ShlStays, ShrStays, SarStays, Delta;
    if m == ADD || m == SUB {
      SumFolds(m, s, v, imm);
    } else if m == SHL {
      ShlFits(s, v, imm);
    } else if m == SHR {
      if s == 4 {
        ShrFitsCleared(v, imm);
      } else {
        ShrFitsKept(s, v, imm);
      }
    } else if m == SAR {
      if s == 4 {
        SarFitsCleared(v, imm);
      } else {
        SarFitsKept(s, v, imm);
      }
    } else {
      BitwiseFits(m, s, v, imm);
    }
  }

  // ------------------------------------------------------------ zero-extended values

  /** The conditions for the usual case, 32-bit arithmetic on a value that a 32-bit move
      has left: sums that do not carry, no restriction for AND, a mask without upper bits
      for OR and XOR, shifts that lose nothing to the left and do not depend on the width
      to the right. */
  predicate FitsZeroExtended(m: Mnemonic, v: u64, imm: int) {
    var c := imm % 64;
    match m
    case ADD => (v + imm) % W64 < W32
    case SUB => (v - imm) % W64 < W32
    case AND => true
    case SHL => if c < 32 then v * Pow2(c) < W32 else v * Pow2(c - 32) % W32 == 0
    case SHR => c < 32 || v < Pow2(c - 32)
    case SAR => c == 0 || (2 * v < W32 && (c < 32 || v < Pow2(c - 32)))
    case _ => imm % W64 < W32
  }

  lemma {:induction false} BitwiseZero(m: Mnemonic, u: nat, n: nat)
    requires m in {AND, OR, XOR} && u < Pow2(n)
    ensures Bitwise(m, 0, u, n) == if m == AND then 0 else u
    decreases n
  {
    if n > 0 {
      BitwiseZero(m, u / 2, n - 1);
    }
  }

  lemma MaskZeroExtended(m: Mnemonic, v: u64, imm: int)
    requires m in {AND, OR, XOR} && v < W32
    ensures MaskStays(m, 4, v, imm) <==> m == AND || imm % W64 < W32
  {
    hide Bitwise, Pow2;
    Pow2Values();
    Pow256Values();
    ZeroQuotient(v, W32);
    ZeroQuotient(imm % W64, W32);
    BitwiseZero(m, imm % W64 / W32, 32);
  }

  lemma ProductBound(v: nat, d: nat)
    requires v < W32 && d <= 0x8000_0000
    ensures 0 <= v * d < W32 * 0x8000_0000
  {
    if d > 0 {
      MulMonotone(d, v, W32);
      MulMonotone(d, 0, v);
    }
  }

  lemma ShlZeroExtended(v: u64, c: nat)
    requires v < W32 && c < 64
    ensures ShlStays(4, v, c) <==> if c < 32 then v * Pow2(c) < W32 else v * Pow2(c - 32) % W32 == 0
  {
    hide Pow2;
    Pow2Values();
    Pow256Values();
    ZeroQuotient(v, W32);
    ModUnique(v, W32, 0, v);
    if c < 32 {
      var f := v * Pow2(c);
      Pow2Grows(c, 31);
      ProductBound(v, Pow2(c));
      ZeroQuotient(f, W32);
      FloorBounds(f, W32);
      ModUnique(f / W32, W32, 0, f / W32);
    } else {
      var e := v * Pow2(c - 32);
      Pow2Sum(32, c - 32);
      Rotate(v, W32, Pow2(c - 32));
      ModMod(W32 * e, W32, W32);
      DivSum(e, W32, 0);
      NonZeroProduct(e % W32, W32);
    }
  }

  lemma RightZeroExtended(v: u64, c: nat)
    requires v < W32 && c < 64
    ensures ShrStays(4, v, c) <==> c < 32 || v < Pow2(c - 32)
    ensures SarStays(4, v, c) <==> c == 0 || (2 * v < W32 && (c < 32 || v < Pow2(c - 32)))
  {
    hide Pow2, SignedLow;
    Pow2Values();
    Pow256Values();
    ZeroQuotient(v, W32);
    ModUnique(v, W32, 0, v);
    if c >= 32 {
      ZeroQuotient(v, Pow2(c - 32));
      ZeroQuotient(0, Pow2(c - 32));
    } else if c > 0 {
      Pow2AtLeast2(c);
    }
  }

  /** For every operation on a zero-extended value: 32-bit arithmetic is folded correctly
      if and only if the operands meet the condition of the operation. */
  lemma NarrowArithIff(m: Mnemonic, v: u64, imm: int)
    requires IsArith(m) && v < W32
    ensures WriteReg(v, 4, Alu(m, 4, v, imm)) == ApplyArith(m, v, imm) <==> FitsZeroExtended(m, v, imm)
  {
    hide Alu, ApplyArith, WriteReg, MaskStays, ShlStays, ShrStays, SarStays, Pow2;
    Pow256Values();
    NarrowFoldIff(m, 4, v, imm);
    if m in {AND, OR, XOR} {
      MaskZeroExtended(m, v, imm);
    } else if m == SHL {
      ShlZeroExtended(v, imm % 64);
    } else {
      RightZeroExtended(v, imm % 64);
    }
  }
}
