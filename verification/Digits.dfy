// Numbers as text (PrintUnsignedInternal and PrintHexInternal in
// kernel/arch/x86_64/console/console.cpp): most significant digit first.
module Digits {
  import opened Bits

  function DigitChar(d: nat): char
    requires d < 16
  {
    if d < 10 then '0' + d as char else 'A' + (d - 10) as char
  }

  // The sixteen digits, upper-case.
  lemma DigitTable(d: nat)
    requires d < 16
    ensures DigitChar(d) == "0123456789ABCDEF"[d]
  {
  }

  function DigitValue(c: char): nat {
    if '0' <= c <= '9' then (c - '0') as nat
    else if 'A' <= c <= 'F' then (c - 'A') as nat + 10
    else 0
  }

  lemma DigitRoundTrip(d: nat)
    requires d < 16
    ensures DigitValue(DigitChar(d)) == d
  {
  }

  // The text of v in the given base; 0 is the single digit "0".
  function ToText(v: nat, base: nat): (s: string)
    requires 2 <= base <= 16
    ensures |s| > 0
  {
    if v < base then [DigitChar(v)] else ToText(v / base, base) + [DigitChar(v % base)]
  }

  function FromText(s: string, base: nat): nat {
    if s == [] then 0 else FromText(s[..|s| - 1], base) * base + DigitValue(s[|s| - 1])
  }

  // Printing then parsing returns every number.
  lemma {:induction false} TextRoundTrip(v: nat, base: nat)
    requires 2 <= base <= 16
    ensures FromText(ToText(v, base), base) == v
  {
    hide FromText;
    if v < base {
      EmptyText(base);
      AppendDigit([], v, base);
      assert [] + [DigitChar(v)] == ToText(v, base);
    } else {
      var q := Rest(v, base);
      RestBelow(v, base);
      TextRoundTrip(q, base);
      AppendDigit(ToText(q, base), v % base, base);
      DivMod(v, base);
    }
  }

  lemma EmptyText(base: nat)
    ensures FromText([], base) == 0
  {
  }

  lemma RestBelow(v: nat, base: nat)
    requires v >= base >= 2
    ensures 0 < Rest(v, base) < v
  {
    Quotient(v, base);
    DivBelowIff(v, base, v);
    MulStepLe(v, 2, base);
  }

  // Decimal text is made of the digits '0' to '9'.
  lemma {:induction false} DecimalDigits(v: nat)
    ensures forall k :: 0 <= k < |ToText(v, 10)| ==> '0' <= ToText(v, 10)[k] <= '9'
  {
    if v >= 10 { DecimalDigits(v / 10); }
  }

  lemma AppendDigit(s: string, d: nat, base: nat)
    requires d < 16
    ensures FromText(s + [DigitChar(d)], base) == FromText(s, base) * base + d
  {
    var t := s + [DigitChar(d)];
    assert t[..|t| - 1] == s;
    DigitRoundTrip(d);
  }

  lemma DivMod(v: nat, b: nat)
    requires b > 0
    ensures v / b * b + v % b == v
  {
  }

  lemma {:induction false} NoLeadingZero(v: nat, base: nat)
    requires 2 <= base <= 16
    ensures ToText(v, base)[0] == '0' <==> v == 0
  {
    if v < base {
      assert ToText(v, base)[0] == DigitChar(v);
    }
    hide ToText;
    if v >= base {
      Quotient(v, base);
      NoLeadingZero(v / base, base);
      MoreDigits(v, base);
    }
  }

  lemma MoreDigits(v: nat, base: nat)
    requires 2 <= base <= 16 && v >= base
    ensures ToText(v, base)[0] == ToText(v / base, base)[0]
  {
    FirstOfMore(ToText(v / base, base), DigitChar(v % base));
  }

  lemma FirstOfMore(s: string, c: char)
    requires s != []
    ensures (s + [c])[0] == s[0]
  {
  }

  lemma Quotient(v: nat, base: nat)
    requires v >= base > 0
    ensures v / base > 0
  {
  }

  // b to the n.
  function Power(b: nat, n: nat): nat {
    if n == 0 then 1 else b * Power(b, n - 1)
  }

  // A number has at most n digits exactly when it is below base^n.
  lemma {:induction false} TextLengthIff(v: nat, base: nat, n: nat)
    requires 2 <= base <= 16 && n > 0
    ensures |ToText(v, base)| <= n <==> v < Power(base, n)
    decreases n
  {
    OneMoreDigit(v, base);
    PowerAtLeast(base, n);
    PowerNext(base, n - 1);
    hide ToText, Power;
    if v >= base && n > 1 {
      var q := Rest(v, base);
      DivBelowIff(v, base, Power(base, n - 1));
      TextLengthIff(q, base, n - 1);
    }
  }

  lemma OneMoreDigit(v: nat, base: nat)
    requires 2 <= base <= 16
    ensures |ToText(v, base)| == if v < base then 1 else |ToText(Rest(v, base), base)| + 1
  {
  }

  // All digits but the last.
  function Rest(v: nat, base: nat): nat
    requires base > 0
  {
    v / base
  }

  lemma PowerNext(base: nat, n: nat)
    ensures Power(base, n + 1) == base * Power(base, n)
    ensures n == 0 ==> Power(base, n + 1) == base
  {
    if n == 0 { assert Power(base, 0) == 1; }
  }

  lemma {:induction false} PowerAtLeast(base: nat, n: nat)
    requires base >= 2 && n > 0
    ensures Power(base, n) >= base
  {
    if n > 1 {
      PowerAtLeast(base, n - 1);
      MulStepLe(base, 1, Power(base, n - 1));
    }
  }

  lemma DivBelowIff(v: nat, b: nat, m: nat)
    requires b > 0
    ensures Rest(v, b) < m <==> v < b * m
  {
    DivMod(v, b);
    if m <= v / b { MulStepLe(b, m, v / b); } else { MulStepLe(b, v / b + 1, m); }
  }

  lemma DivBelow(v: nat, b: nat, m: nat)
    requires b > 0 && v < b * m
    ensures v / b < m
  {
    DivBelowIff(v, b, m);
  }

  lemma MulStepLe(d: nat, a: nat, b: nat)
    requires a <= b
    ensures d * a <= d * b
  {
    if a < b { MulStep(d, a, b); }
  }

  // 64-bit values take at most 20 decimal and 16 hexadecimal digits, so the
  // 32- and 16-character buffers suffice.
  lemma U64Length(v: u64)
    ensures |ToText(v, 10)| <= 20 && |ToText(v, 16)| <= 16
  {
    Ten20();
    Sixteen16();
    TextLengthIff(v, 10, 20);
    TextLengthIff(v, 16, 16);
  }

  lemma Ten20()
    ensures Power(10, 20) >= U64_LIMIT
  {
    PowerStep(10, 4); PowerStep(10, 8); PowerStep(10, 12); PowerStep(10, 16);
    assert Power(10, 4) == 10000;
  }

  lemma Sixteen16()
    ensures Power(16, 16) == U64_LIMIT
  {
    PowerStep(16, 4); PowerStep(16, 8); PowerStep(16, 12);
    assert Power(16, 4) == 65536;
  }

  lemma PowerStep(b: nat, n: nat)
    ensures Power(b, n + 4) == b * (b * (b * (b * Power(b, n))))
  {
    assert Power(b, n + 4) == b * Power(b, n + 3);
    assert Power(b, n + 3) == b * Power(b, n + 2);
    assert Power(b, n + 2) == b * Power(b, n + 1);
  }

  // The largest 64-bit value takes all twenty decimal digits.
  lemma FullDecimal()
    ensures |ToText(U64_LIMIT - 1, 10)| == 20
  {
    U64Length(U64_LIMIT - 1);
    PowerStep(10, 3); PowerStep(10, 7); PowerStep(10, 11); PowerStep(10, 15);
    assert Power(10, 3) == 1000;
    TextLengthIff(U64_LIMIT - 1, 10, 19);
  }

  // The largest n-digit hexadecimal value has n digits, so the largest 64-bit
  // value fills all sixteen characters of its buffer.
  lemma {:induction false} FullHexBuffer(n: nat)
    requires n > 0
    ensures Power(16, n) >= 16 && |ToText(Power(16, n) - 1, 16)| == n
  {
    if n > 1 {
      var p := Power(16, n - 1);
      FullHexBuffer(n - 1);
      assert (16 * p - 1) / 16 == p - 1;
    } else {
      assert Power(16, 1) == 16 * Power(16, 0);
    }
  }
}
