// Fields of a word: a run of bits read by division and remainder, and what
// shifting, masking and or-ing do to them.
module BitFields {
  import opened Bits

  // x >> s and the low n bits of x.
  function Above(x: nat, s: nat): nat { Quotient(x, Pow2(s)) }

  function Low(x: nat, n: nat): nat { Remainder(x, Pow2(n)) }

  function Quotient(x: nat, d: nat): nat
    requires d > 0
  {
    x / d
  }

  function Remainder(x: nat, d: nat): nat
    requires d > 0
  {
    x % d
  }

  lemma AboveStep(x: nat, s: nat)
    requires s > 0
    ensures Above(x, s) == Above(x / 2, s - 1)
  {
    DivTwice(x, Pow2(s - 1));
  }

  lemma LowStep(x: nat, n: nat)
    requires n > 0
    ensures Low(x, n) == 2 * Low(x / 2, n - 1) + x % 2
  {
    HalveMod(x, Pow2(n - 1));
  }

  // The n bits of x from bit s up.
  function Field(x: nat, s: nat, n: nat): nat {
    Low(Above(x, s), n)
  }

  lemma {:induction false} BitsDetermine(x: nat, y: nat)
    requires forall i: nat :: Bit(x, i) <==> Bit(y, i)
    ensures x == y
    decreases x + y
  {
    assert Bit(x, 0) <==> Bit(y, 0);
    if x + y > 0 {
      forall i: nat ensures Bit(x / 2, i) <==> Bit(y / 2, i) {
        assert Bit(x, i + 1) <==> Bit(y, i + 1);
      }
      BitsDetermine(x / 2, y / 2);
    }
  }

  lemma {:induction false} QuotientBit(x: nat, s: nat, i: nat)
    ensures Bit(Above(x, s), i) <==> Bit(x, s + i)
    decreases s
  {
    if s > 0 {
      AboveStep(x, s);
      QuotientBit(x / 2, s - 1, i);
      hide Above;
    } else {
      assert Above(x, 0) == x;
    }
  }

  lemma {:induction false} RemainderBit(x: nat, n: nat, i: nat)
    ensures Bit(Low(x, n), i) <==> i < n && Bit(x, i)
    decreases n
  {
    if n == 0 {
      LowNone(x);
      ZeroBit(i);
    } else {
      LowStep(x, n);
      hide Low;
      if i > 0 { RemainderBit(x / 2, n - 1, i - 1); }
    }
  }

  lemma LowNone(x: nat)
    ensures Low(x, 0) == 0
  {
  }

  lemma {:induction false} ProductBit(v: nat, s: nat, i: nat)
    ensures Bit(v * Pow2(s), i) <==> i >= s && Bit(v, i - s)
  {
    if s > 0 {
      var w := v * Pow2(s - 1);
      Twice(v, Pow2(s - 1));
      if i > 0 { ProductBit(v, s - 1, i - 1); }
    }
  }

  lemma Twice(v: nat, h: nat)
    ensures v * (2 * h) == 2 * (v * h)
    ensures v * (2 * h) % 2 == 0 && v * (2 * h) / 2 == v * h
  {
  }

  lemma FieldBit(x: nat, s: nat, n: nat, i: nat)
    ensures Bit(Field(x, s, n), i) <==> i < n && Bit(x, s + i)
  {
    RemainderBit(Above(x, s), n, i);
    QuotientBit(x, s, i);
  }

  lemma {:induction false} BitBelow(v: nat, n: nat, i: nat)
    requires v < Pow2(n) && i >= n
    ensures !Bit(v, i)
  {
    if n == 0 {
      ZeroBit(i);
    } else {
      BitBelow(v / 2, n - 1, i - 1);
    }
  }

  // Masking with n ones from bit s up keeps that field where it is.
  lemma MaskedField(x: nat, s: nat, n: nat, mask: nat)
    requires mask == (Pow2(n) - 1) * Pow2(s)
    ensures And(x, mask) == Field(x, s, n) * Pow2(s)
  {
    forall i: nat ensures Bit(And(x, mask), i) <==> Bit(Field(x, s, n) * Pow2(s), i) {
      AndBit(x, mask, i);
      ProductBit(Pow2(n) - 1, s, i);
      ProductBit(Field(x, s, n), s, i);
      if i >= s {
        OnesBit(n, i - s);
        FieldBit(x, s, n, i - s);
      }
    }
    BitsDetermine(And(x, mask), Field(x, s, n) * Pow2(s));
  }

  lemma {:induction false} OnesBit(n: nat, i: nat)
    ensures Bit(Pow2(n) - 1, i) <==> i < n
  {
    if n == 0 {
      ZeroBit(i);
    } else if i > 0 {
      OnesBit(n - 1, i - 1);
      assert (Pow2(n) - 1) / 2 == Pow2(n - 1) - 1;
    }
  }

  // ------------------------------------------------------------- placed fields

  // Bit i of value v placed at bit s.
  predicate PlacedBit(v: nat, s: nat, i: nat) {
    i >= s && Bit(v, i - s)
  }

  // A field that an or of three placed values puts there is read back, if the
  // other two do not reach into it.
  lemma ReadBack(x: nat, v: nat, s: nat, n: nat)
    requires v < Pow2(n)
    requires forall i: nat :: s <= i < s + n ==> (Bit(x, i) <==> Bit(v, i - s))
    ensures Field(x, s, n) == v
  {
    forall i: nat ensures Bit(Field(x, s, n), i) <==> Bit(v, i) {
      FieldBit(x, s, n, i);
      if i < n { assert s <= s + i < s + n; } else { BitBelow(v, n, i); }
    }
    BitsDetermine(Field(x, s, n), v);
  }
}
