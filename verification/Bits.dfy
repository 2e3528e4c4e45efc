// Unsigned machine integers and the bitwise operators of the source, defined
// bit by bit on natural numbers, with the algebra the page-table and bitmap
// code relies on.
module Bits {
  const U32_LIMIT: nat := 0x1_0000_0000
  const U64_LIMIT: nat := 0x1_0000_0000_0000_0000

  type u8 = x: nat | x < 256
  type u32 = x: nat | x < U32_LIMIT
  type u64 = x: nat | x < U64_LIMIT

  function Pow2(n: nat): (r: nat)
    ensures r >= 1
  {
    if n == 0 then 1 else 2 * Pow2(n - 1)
  }

  lemma EightMore(n: nat)
    ensures Pow2(n + 8) == 256 * Pow2(n)
  {
    assert Pow2(n + 4) == 2 * Pow2(n + 3) == 4 * Pow2(n + 2) == 8 * Pow2(n + 1) == 16 * Pow2(n);
    assert Pow2(n + 8) == 2 * Pow2(n + 7) == 4 * Pow2(n + 6) == 8 * Pow2(n + 5) == 16 * Pow2(n + 4);
  }

  lemma PowersOfTwo()
    ensures Pow2(9) == 0x200 && Pow2(12) == 0x1000 && Pow2(21) == 0x20_0000 && Pow2(30) == 0x4000_0000
    ensures Pow2(39) == 0x80_0000_0000 && Pow2(40) == 0x100_0000_0000 && Pow2(64) == U64_LIMIT
  {
    assert Pow2(1) == 2 && Pow2(4) == 16 && Pow2(5) == 32 && Pow2(6) == 64 && Pow2(7) == 128 && Pow2(0) == 1;
    EightMore(1); EightMore(4); EightMore(5); EightMore(13); EightMore(6); EightMore(14); EightMore(22);
    EightMore(7); EightMore(15); EightMore(23); EightMore(31);
    EightMore(0); EightMore(8); EightMore(16); EightMore(24); EightMore(32); EightMore(40); EightMore(48); EightMore(56);
  }

  // Bit i of x.
  predicate Bit(x: nat, i: nat) {
    if i == 0 then x % 2 == 1 else Bit(x / 2, i - 1)
  }

  // x & y
  function And(x: nat, y: nat): nat {
    if x == 0 || y == 0 then 0
    else 2 * And(x / 2, y / 2) + (if x % 2 == 1 && y % 2 == 1 then 1 else 0)
  }

  // x | y
  function Or(x: nat, y: nat): nat {
    if x == 0 then y else if y == 0 then x
    else 2 * Or(x / 2, y / 2) + (if x % 2 == 1 || y % 2 == 1 then 1 else 0)
  }

  // ------------------------------------------------------------- bit by bit

  lemma {:induction false} ZeroBit(i: nat)
    ensures !Bit(0, i)
  {
    if i > 0 { ZeroBit(i - 1); }
  }

  lemma {:induction false} AndBit(x: nat, y: nat, i: nat)
    ensures Bit(And(x, y), i) <==> Bit(x, i) && Bit(y, i)
  {
    ZeroBit(i);
    if x != 0 && y != 0 && i > 0 {
      AndBit(x / 2, y / 2, i - 1);
      assert And(x, y) / 2 == And(x / 2, y / 2);
    }
  }

  lemma {:induction false} OrBit(x: nat, y: nat, i: nat)
    ensures Bit(Or(x, y), i) <==> Bit(x, i) || Bit(y, i)
  {
    ZeroBit(i);
    if x != 0 && y != 0 && i > 0 {
      OrBit(x / 2, y / 2, i - 1);
      assert Or(x, y) / 2 == Or(x / 2, y / 2);
    }
  }

  lemma {:induction false} PowerBit(k: nat, i: nat)
    ensures Bit(Pow2(k), i) <==> i == k
  {
    if k == 0 {
      if i > 0 { ZeroBit(i - 1); }
    } else if i > 0 {
      PowerBit(k - 1, i - 1);
    }
  }

  // The source's test `byte & (1 << k)` reads bit k.
  lemma {:induction false} AndPower(x: nat, k: nat)
    ensures And(x, Pow2(k)) != 0 <==> Bit(x, k)
  {
    ZeroBit(k);
    if x != 0 && k > 0 { AndPower(x / 2, k - 1); }
  }

  // The byte ~(1 << k), as the source's ClearBit uses it.
  lemma ByteComplementBit(k: nat, i: nat)
    requires k < 8 && i < 8
    ensures Pow2(k) <= 128
    ensures Bit(255 - Pow2(k), i) <==> i != k
  {
    assert Pow2(0) == 1 && Pow2(1) == 2 && Pow2(2) == 4 && Pow2(3) == 8;
    assert Pow2(4) == 16 && Pow2(5) == 32 && Pow2(6) == 64 && Pow2(7) == 128;
    var x := 255 - Pow2(k);
    ByteBits(x);
  }

  // The eight bits of a byte, read off by division.
  lemma ByteBits(x: nat)
    ensures Bit(x, 0) <==> x % 2 == 1
    ensures Bit(x, 1) <==> x / 2 % 2 == 1
    ensures Bit(x, 2) <==> x / 4 % 2 == 1
    ensures Bit(x, 3) <==> x / 8 % 2 == 1
    ensures Bit(x, 4) <==> x / 16 % 2 == 1
    ensures Bit(x, 5) <==> x / 32 % 2 == 1
    ensures Bit(x, 6) <==> x / 64 % 2 == 1
    ensures Bit(x, 7) <==> x / 128 % 2 == 1
  {
    assert Pow2(0) == 1 && Pow2(1) == 2 && Pow2(2) == 4 && Pow2(3) == 8;
    assert Pow2(4) == 16 && Pow2(5) == 32 && Pow2(6) == 64 && Pow2(7) == 128;
    forall i: nat | i < 8 ensures Bit(x, i) <==> x / Pow2(i) % 2 == 1 {
      BitByDivision(x, i);
    }
  }

  lemma {:induction false} BitByDivision(x: nat, i: nat)
    ensures Bit(x, i) <==> x / Pow2(i) % 2 == 1
  {
    if i > 0 {
      BitByDivision(x / 2, i - 1);
      DivTwice(x, Pow2(i - 1));
    }
  }

  lemma AllOnesByte(i: nat)
    requires i < 8
    ensures Bit(255, i)
  {
    ByteBits(255);
  }

  // ------------------------------------------------------------- algebra

  lemma {:induction false} AndCommutes(x: nat, y: nat)
    ensures And(x, y) == And(y, x)
  {
    if x != 0 && y != 0 { AndCommutes(x / 2, y / 2); }
  }

  lemma {:induction false} AndAssoc(x: nat, y: nat, z: nat)
    ensures And(And(x, y), z) == And(x, And(y, z))
  {
    if x != 0 && y != 0 && z != 0 {
      AndAssoc(x / 2, y / 2, z / 2);
      assert And(x, y) / 2 == And(x / 2, y / 2);
      assert And(y, z) / 2 == And(y / 2, z / 2);
    }
  }

  lemma {:induction false} AndSelf(x: nat)
    ensures And(x, x) == x
  {
    if x != 0 { AndSelf(x / 2); }
  }

  lemma {:induction false} AndOverOr(x: nat, y: nat, z: nat)
    ensures And(Or(x, y), z) == Or(And(x, z), And(y, z))
  {
    if x != 0 && y != 0 && z != 0 {
      AndOverOr(x / 2, y / 2, z / 2);
      assert Or(x, y) / 2 == Or(x / 2, y / 2);
    }
  }

  lemma {:induction false} OrDisjoint(x: nat, y: nat)
    requires And(x, y) == 0
    ensures Or(x, y) == x + y
  {
    if x != 0 && y != 0 { OrDisjoint(x / 2, y / 2); }
  }

  // A word with no bit under mask a is kept whole by the rest of a covering mask.
  lemma KeepBits(x: nat, a: nat, b: nat)
    requires And(x, Or(a, b)) == x && And(x, a) == 0
    ensures And(x, b) == x
  {
    AndCommutes(x, Or(a, b));
    AndOverOr(a, b, x);
    AndCommutes(x, a);
    AndCommutes(x, b);
  }

  lemma {:induction false} AndBelow(x: nat, y: nat)
    ensures And(x, y) <= x && And(x, y) <= y
  {
    if x != 0 && y != 0 { AndBelow(x / 2, y / 2); }
  }

  lemma {:induction false} OrBelow(x: nat, y: nat, n: nat)
    requires x < Pow2(n) && y < Pow2(n)
    ensures Or(x, y) < Pow2(n)
  {
    if x != 0 && y != 0 { OrBelow(x / 2, y / 2, n - 1); }
  }

  // Masking with n ones keeps the n low bits.
  lemma {:induction false} AndLowOnes(x: nat, n: nat)
    ensures And(x, Pow2(n) - 1) == x % Pow2(n)
  {
    if x != 0 && n > 0 {
      var h := Pow2(n - 1);
      AndLowOnes(x / 2, n - 1);
      assert (2 * h - 1) / 2 == h - 1;
      assert And(x, 2 * h - 1) == 2 * (x / 2 % h) + x % 2;
      HalveMod(x, h);
    } else if x == 0 {
      assert 0 % Pow2(n) == 0;
    }
  }

  lemma HalveMod(x: nat, h: nat)
    requires h > 0
    ensures x % (2 * h) == 2 * (x / 2 % h) + x % 2
  {
    var q := x / 2 / h;
    var r := x / 2 % h;
    assert x / 2 == h * q + r;
    assert x == (2 * h) * q + (2 * r + x % 2);
    ModUnique(x, 2 * h, q, 2 * r + x % 2);
  }

  lemma ModUnique(x: nat, d: nat, q: nat, r: nat)
    requires d > 0 && r < d && x == d * q + r
    ensures x / d == q && x % d == r
  {
    var q', r' := x / d, x % d;
    if q < q' {
      MulStep(d, q, q');
    } else if q' < q {
      MulStep(d, q', q);
    }
  }

  lemma MulStep(d: nat, a: nat, b: nat)
    requires a < b
    ensures d * a + d <= d * b
  {
    assert d * b - d * a == d * (b - a);
    assert b - a >= 1;
    MulAtLeast(d, b - a);
  }

  lemma MulAtLeast(d: nat, k: nat)
    requires k >= 1
    ensures d * k >= d
  {
  }

  lemma AndEven(x: nat, z: nat)
    ensures And(2 * x, z) == 2 * And(x, z / 2)
  {
  }

  // A multiple of 2^n keeps, under any mask, exactly the mask's bits from n up.
  lemma {:induction false} AndScaled(g: nat, z: nat, n: nat)
    ensures And(Scale(g, n), z) == Scale(And(g, Drop(z, n)), n)
  {
    if n > 0 {
      AndScaled(g, z / 2, n - 1);
      AndEven(Scale(g, n - 1), z);
    }
  }

  // x << n and x >> n by single steps.
  function Scale(x: nat, n: nat): nat {
    if n == 0 then x else 2 * Scale(x, n - 1)
  }

  function Drop(x: nat, n: nat): nat {
    if n == 0 then x else Drop(x / 2, n - 1)
  }

  lemma PageScale(x: nat)
    ensures Scale(x, 12) == 4096 * x
    ensures Drop(x, 12) == x / 4096
  {
    assert Scale(x, 1) == 2 * x;
    assert Scale(x, 2) == 4 * x;
    assert Scale(x, 3) == 8 * x;
    assert Scale(x, 4) == 16 * x;
    assert Scale(x, 5) == 32 * x;
    assert Scale(x, 6) == 64 * x;
    assert Scale(x, 7) == 128 * x;
    assert Scale(x, 8) == 256 * x;
    assert Scale(x, 9) == 512 * x;
    assert Scale(x, 10) == 1024 * x;
    assert Scale(x, 11) == 2048 * x;
    DropThree(x);
    DropThree(x / 8);
    DropThree(x / 64);
    DropThree(x / 512);
    DropSum(x, 3, 9);
    DropSum(x / 8, 3, 6);
    DropSum(x / 64, 3, 3);
    assert x / 8 / 8 == x / 64 && x / 64 / 8 == x / 512 && x / 512 / 8 == x / 4096;
  }

  lemma DropThree(x: nat)
    ensures Drop(x, 3) == x / 8
  {
    assert Drop(x, 3) == Drop(x / 2, 2) == Drop(x / 2 / 2, 1) == x / 2 / 2 / 2;
  }

  lemma {:induction false} DropSum(x: nat, a: nat, b: nat)
    ensures Drop(x, a + b) == Drop(Drop(x, a), b)
  {
    if a > 0 { DropSum(x / 2, a - 1, b); }
  }

  lemma AndPageAddress(g: nat, z: nat)
    ensures And(4096 * g, z) == 4096 * And(g, z / 4096)
  {
    AndScaled(g, z, 12);
    PageScale(g);
    PageScale(z);
    PageScale(And(g, z / 4096));
  }

  lemma DivTwice(x: nat, h: nat)
    requires h > 0
    ensures x / 2 / h == x / (2 * h)
  {
    HalveMod(x, h);
    var q := x / 2 / h;
    assert x / 2 == h * q + x / 2 % h;
    assert x == (2 * h) * q + (2 * (x / 2 % h) + x % 2);
    ModUnique(x, 2 * h, q, 2 * (x / 2 % h) + x % 2);
  }

  // ------------------------------------------------------------- the masks in use

  lemma LowByWidth(x: nat, n: nat, ones: nat)
    requires ones == Pow2(n) - 1
    ensures And(x, ones) == x % (ones + 1)
  {
    AndLowOnes(x, n);
  }

  lemma Low9(x: nat)
    ensures And(x, 0x1FF) == x % 0x200
  {
    PowersOfTwo();
    LowByWidth(x, 9, 0x1FF);
  }

  lemma Low40(x: nat)
    ensures And(x, 0xFF_FFFF_FFFF) == x % 0x100_0000_0000
  {
    PowersOfTwo();
    LowByWidth(x, 40, 0xFF_FFFF_FFFF);
  }

  lemma BelowOnes(x: nat, n: nat)
    requires x < Pow2(n)
    ensures And(x, Pow2(n) - 1) == x
  {
    AndLowOnes(x, n);
    ModUnique(x, Pow2(n), 0, x);
  }

  lemma Low64(x: nat)
    requires x < U64_LIMIT
    ensures And(x, 0xFFFF_FFFF_FFFF_FFFF) == x
  {
    PowersOfTwo();
    BelowOnes(x, 64);
  }

  // A mask of forty ones above bit 12 meets no mask that is zero there.
  lemma FrameMaskDisjoint(ones: nat, a: nat, z: nat)
    requires ones == 0xFF_FFFF_FFFF && a == 4096 * ones && z / 4096 % 0x100_0000_0000 == 0
    ensures And(a, z) == 0
  {
    PageUnderMask(ones, z, z / 4096);
    AndCommutes(ones, z / 4096);
    Low40(z / 4096);
  }

  // A page address under a mask whose part from bit 12 up is m.
  lemma PageUnderMask(g: nat, z: nat, m: nat)
    requires z / 4096 == m
    ensures And(4096 * g, z) == 4096 * And(g, m)
  {
    AndPageAddress(g, z);
  }
}
