// Drawing into a linear framebuffer: one pixel
// (kernel/arch/x86_64/boot/framebuffer.cpp) and one scaled character
// (DrawChar in kernel/arch/x86_64/console/console.cpp).
module Framebuffer {
  import opened Bits
  import opened BitFields
  import opened Digits
  import opened PhysicalMemory
  import opened Format

  // ------------------------------------------------------------- colours

  // Size and position of the three channels in a pixel.
  datatype Layout = Layout(redSize: nat, redShift: nat, greenSize: nat, greenShift: nat, blueSize: nat, blueShift: nat)

  // The source shifts 32-bit values by these numbers, which C defines below 32.
  predicate Fits(l: Layout) {
    && l.redSize < 32 && l.redShift < 32 && l.greenSize < 32 && l.greenShift < 32
    && l.blueSize < 32 && l.blueShift < 32
  }

  // In 32-bit arithmetic.
  function ScaleColorChannel(value: u8, bits: nat): (r: nat)
    requires bits < 32
  {
    if bits == 0 then 0 else Scaled(value, Pow2(bits) - 1)
  }

  function Scaled(value: u8, max: nat): nat {
    value * max % U32_LIMIT / 255
  }

  // A channel fits its bits and black stays black; up to 24 bits it is the value's
  // share of the full channel, rounded down; full stays full exactly there, where
  // the product still fits 32 bits; with eight bits every value is kept.
  lemma ChannelScale(value: u8, bits: nat)
    requires bits < 32
    ensures ScaleColorChannel(value, bits) < Pow2(bits)
    ensures bits <= 24 ==> 255 * ScaleColorChannel(value, bits) <= value * (Pow2(bits) - 1) < 255 * ScaleColorChannel(value, bits) + 255
    ensures ScaleColorChannel(0, bits) == 0
    ensures ScaleColorChannel(255, bits) == Pow2(bits) - 1 <==> bits <= 24
    ensures bits == 8 ==> ScaleColorChannel(value, bits) == value
  {
    SizeBounds(bits);
    var max := Pow2(bits) - 1;
    ScaledBelow(value, max);
    ScaledFull(max);
    ScaledEight(value);
    hide Pow2, Scaled;
  }

  lemma SizeBounds(bits: nat)
    ensures bits == 0 ==> Pow2(bits) == 1
    ensures bits == 8 ==> Pow2(bits) == 256
    ensures bits <= 24 ==> Pow2(bits) <= 0x100_0000
    ensures bits > 24 ==> Pow2(bits) >= 0x200_0000
  {
    EightMore(0);
    EightMore(8);
    EightMore(16);
    assert Pow2(25) == 2 * Pow2(24);
    if bits <= 24 { PowMono(bits, 24); } else { PowMono(25, bits); }
  }

  lemma ScaledBelow(value: u8, max: nat)
    ensures Scaled(value, max) <= max && Scaled(0, max) == 0
    ensures max < 16843010 ==> 255 * Scaled(value, max) <= value * max < 255 * Scaled(value, max) + 255
  {
    Product(value, max);
    if max < 16843010 { SmallMod(value * max); }
  }

  lemma ScaledFull(max: nat)
    ensures Scaled(255, max) == max <==> max < 16843010
  {
    if max < 16843010 { SmallMod(255 * max); }
  }

  lemma ScaledEight(value: u8)
    ensures Scaled(value, 255) == value
  {
  }

  lemma Product(value: u8, max: nat)
    ensures 0 <= value * max <= 255 * max && 0 <= value * max % U32_LIMIT <= value * max
  {
    MulStepLe(max, value, 255);
  }

  lemma {:induction false} ShiftFits(v: nat, size: nat, shift: nat)
    requires v < Pow2(size)
    ensures v * Pow2(shift) < Pow2(shift + size)
  {
    if shift > 0 {
      ShiftFits(v, size, shift - 1);
      Doubled(v, Pow2(shift - 1));
    }
  }

  lemma Doubled(a: nat, h: nat)
    ensures 2 * (a * h) == a * (2 * h)
  {
  }

  lemma {:induction false} PowMono(a: nat, b: nat)
    requires a <= b
    ensures Pow2(a) <= Pow2(b)
  {
    if a < b { PowMono(a, b - 1); }
  }

  // One channel in its place in the pixel.
  function Channel(value: u8, size: nat, shift: nat): (r: nat)
    requires size < 32 && shift < 32
    ensures r < U32_LIMIT
  {
    ScaleColorChannel(value, size) * Pow2(shift) % U32_LIMIT
  }

  // A channel that lies inside the pixel loses no bit.
  lemma ChannelInside(value: u8, size: nat, shift: nat)
    requires size < 32 && shift + size <= 32 && shift < 32
    ensures Channel(value, size, shift) == ScaleColorChannel(value, size) * Pow2(shift)
  {
    ChannelScale(value, size);
    ShiftFits(ScaleColorChannel(value, size), size, shift);
    PowMono(shift + size, 32);
    Pow32();
    SmallMod(ScaleColorChannel(value, size) * Pow2(shift));
  }

  lemma SmallMod(x: nat)
    requires x < U32_LIMIT
    ensures x % U32_LIMIT == x
  {
  }

  lemma Pow32()
    ensures Pow2(32) == U32_LIMIT
  {
    EightMore(0); EightMore(8); EightMore(16); EightMore(24);
  }

  lemma OrFits32(x: nat, y: nat)
    requires x < U32_LIMIT && y < U32_LIMIT
    ensures Or(x, y) < U32_LIMIT
  {
    Pow32();
    OrBelow(x, y, 32);
  }

  function MakeColor(l: Layout, c: RGB): u32
    requires Fits(l)
  {
    var red := Channel(c.r, l.redSize, l.redShift);
    var green := Channel(c.g, l.greenSize, l.greenShift);
    var blue := Channel(c.b, l.blueSize, l.blueShift);
    OrFits32(red, green);
    OrFits32(Or(red, green), blue);
    Or(Or(red, green), blue)
  }

  lemma {:induction false} OrAbove(a: nat, b: nat, k: nat)
    requires b < Pow2(k)
    ensures Or(a * Pow2(k), b) == a * Pow2(k) + b
  {
    if k > 0 && b > 0 && a > 0 {
      var h := Pow2(k - 1);
      OrAbove(a, b / 2, k - 1);
      OrHalves(a * h, b);
      Doubled(a, h);
    }
  }

  lemma OrHalves(x: nat, b: nat)
    requires Or(x, b / 2) == x + b / 2
    ensures Or(2 * x, b) == 2 * x + b
  {
  }

  // Two fields of a pixel share no bit.
  predicate FieldsApart(s: nat, n: nat, t: nat, m: nat) {
    s + n <= t || t + m <= s
  }

  // In any layout with three separate fields inside the pixel each component is
  // read back from its own field, and no other bit is set.
  lemma ColourReadBack(l: Layout, c: RGB)
    requires Fits(l)
    requires l.redShift + l.redSize <= 32 && l.greenShift + l.greenSize <= 32 && l.blueShift + l.blueSize <= 32
    requires FieldsApart(l.redShift, l.redSize, l.greenShift, l.greenSize)
    requires FieldsApart(l.redShift, l.redSize, l.blueShift, l.blueSize)
    requires FieldsApart(l.greenShift, l.greenSize, l.blueShift, l.blueSize)
    ensures MakeColor(l, c) / Pow2(l.redShift) % Pow2(l.redSize) == ScaleColorChannel(c.r, l.redSize)
    ensures MakeColor(l, c) / Pow2(l.greenShift) % Pow2(l.greenSize) == ScaleColorChannel(c.g, l.greenSize)
    ensures MakeColor(l, c) / Pow2(l.blueShift) % Pow2(l.blueSize) == ScaleColorChannel(c.b, l.blueSize)
    ensures forall i: nat :: Bit(MakeColor(l, c), i) ==>
      l.redShift <= i < l.redShift + l.redSize || l.greenShift <= i < l.greenShift + l.greenSize
      || l.blueShift <= i < l.blueShift + l.blueSize
  {
    ComponentsApart(l, c);
    OneComponent(l, c, c.r, l.redShift, l.redSize);
    OneComponent(l, c, c.g, l.greenShift, l.greenSize);
    OneComponent(l, c, c.b, l.blueShift, l.blueSize);
  }

  // The component value placed at s: the only one in its field.
  predicate Alone(l: Layout, c: RGB, value: u8, s: nat, n: nat)
    requires Fits(l) && n < 32
  {
    forall i: nat :: s <= i < s + n ==> (Bit(MakeColor(l, c), i) <==> Bit(ScaleColorChannel(value, n), i - s))
  }

  lemma OneComponent(l: Layout, c: RGB, value: u8, s: nat, n: nat)
    requires Fits(l) && n < 32 && Alone(l, c, value, s, n)
    ensures MakeColor(l, c) / Pow2(s) % Pow2(n) == ScaleColorChannel(value, n)
  {
    ChannelScale(value, n);
    hide MakeColor, ScaleColorChannel, Pow2, Bit;
    ReadBack(MakeColor(l, c), ScaleColorChannel(value, n), s, n);
  }

  lemma ComponentsApart(l: Layout, c: RGB)
    requires Fits(l)
    requires l.redShift + l.redSize <= 32 && l.greenShift + l.greenSize <= 32 && l.blueShift + l.blueSize <= 32
    requires FieldsApart(l.redShift, l.redSize, l.greenShift, l.greenSize)
    requires FieldsApart(l.redShift, l.redSize, l.blueShift, l.blueSize)
    requires FieldsApart(l.greenShift, l.greenSize, l.blueShift, l.blueSize)
    ensures Alone(l, c, c.r, l.redShift, l.redSize)
    ensures Alone(l, c, c.g, l.greenShift, l.greenSize)
    ensures Alone(l, c, c.b, l.blueShift, l.blueSize)
    ensures forall i: nat :: Bit(MakeColor(l, c), i) ==>
      l.redShift <= i < l.redShift + l.redSize || l.greenShift <= i < l.greenShift + l.greenSize
      || l.blueShift <= i < l.blueShift + l.blueSize
  {
    hide MakeColor, ScaleColorChannel, Pow2, Bit;
    var r, g, b := ScaleColorChannel(c.r, l.redSize), ScaleColorChannel(c.g, l.greenSize), ScaleColorChannel(c.b, l.blueSize);
    forall i: nat
      ensures Bit(MakeColor(l, c), i) <==> PlacedBit(r, l.redShift, i) || PlacedBit(g, l.greenShift, i) || PlacedBit(b, l.blueShift, i)
      ensures PlacedBit(r, l.redShift, i) ==> i < l.redShift + l.redSize
      ensures PlacedBit(g, l.greenShift, i) ==> i < l.greenShift + l.greenSize
      ensures PlacedBit(b, l.blueShift, i) ==> i < l.blueShift + l.blueSize
    {
      ColourBit(l, c, i);
      ChannelScale(c.r, l.redSize);
      ChannelScale(c.g, l.greenSize);
      ChannelScale(c.b, l.blueSize);
      PlacedBelow(r, l.redShift, l.redSize, i);
      PlacedBelow(g, l.greenShift, l.greenSize, i);
      PlacedBelow(b, l.blueShift, l.blueSize, i);
    }
  }

  lemma PlacedBelow(v: nat, s: nat, n: nat, i: nat)
    requires v < Pow2(n)
    ensures PlacedBit(v, s, i) ==> i < s + n
  {
    if i >= s + n { BitBelow(v, n, i - s); }
  }

  lemma ColourBit(l: Layout, c: RGB, i: nat)
    requires Fits(l)
    requires l.redShift + l.redSize <= 32 && l.greenShift + l.greenSize <= 32 && l.blueShift + l.blueSize <= 32
    ensures Bit(MakeColor(l, c), i) <==>
      PlacedBit(ScaleColorChannel(c.r, l.redSize), l.redShift, i)
      || PlacedBit(ScaleColorChannel(c.g, l.greenSize), l.greenShift, i)
      || PlacedBit(ScaleColorChannel(c.b, l.blueSize), l.blueShift, i)
  {
    hide ScaleColorChannel, Channel, Pow2, Bit, Or;
    ChannelBit(c.r, l.redSize, l.redShift, i);
    ChannelBit(c.g, l.greenSize, l.greenShift, i);
    ChannelBit(c.b, l.blueSize, l.blueShift, i);
    OrBit(Channel(c.r, l.redSize, l.redShift), Channel(c.g, l.greenSize, l.greenShift), i);
    OrBit(Or(Channel(c.r, l.redSize, l.redShift), Channel(c.g, l.greenSize, l.greenShift)), Channel(c.b, l.blueSize, l.blueShift), i);
  }

  lemma ChannelBit(value: u8, size: nat, shift: nat, i: nat)
    requires size < 32 && shift < 32 && shift + size <= 32
    ensures Bit(Channel(value, size, shift), i) <==> PlacedBit(ScaleColorChannel(value, size), shift, i)
  {
    ChannelInside(value, size, shift);
    ProductBit(ScaleColorChannel(value, size), shift, i);
  }

  // In the usual layout a pixel holds the three components side by side, so
  // different colours give different pixels.
  lemma UsualLayout(c: RGB)
    ensures MakeColor(Layout(8, 16, 8, 8, 8, 0), c) == 0x1_0000 * c.r + 0x100 * c.g + c.b
  {
    WholeChannel(c.r, 16, 0x1_0000);
    WholeChannel(c.g, 8, 0x100);
    WholeChannel(c.b, 0, 1);
    OrSideBySide(c.r, 0x100 * c.g, 16, 0x1_0000);
    OrSideBySide(0x100 * c.r + c.g, c.b, 8, 0x100);
    assert 0x1_0000 * c.r + 0x100 * c.g == 0x100 * (0x100 * c.r + c.g);
  }

  lemma PowerTable()
    ensures Pow2(0) == 1 && Pow2(8) == 0x100 && Pow2(16) == 0x1_0000
  {
    EightMore(0);
    EightMore(8);
  }

  lemma WholeChannel(value: u8, shift: nat, unit: nat)
    requires shift <= 24 && (shift == 0 || shift == 8 || shift == 16)
    requires unit == if shift == 0 then 1 else if shift == 8 then 0x100 else 0x1_0000
    ensures Channel(value, 8, shift) == unit * value
  {
    PowerTable();
    ChannelScale(value, 8);
    ChannelInside(value, 8, shift);
  }

  lemma OrSideBySide(a: nat, b: nat, k: nat, unit: nat)
    requires (k == 8 && unit == 0x100) || (k == 16 && unit == 0x1_0000)
    requires b < unit
    ensures Or(unit * a, b) == unit * a + b
  {
    PowerTable();
    OrAbove(a, b, k);
  }

  // ------------------------------------------------------------- pixels

  // A 32-bit-per-pixel screen whose rows do not overlap and whose memory is
  // smaller than 4 GiB, so that 32-bit offsets reach all of it.
  datatype Geometry = Geometry(width: nat, height: nat, pitch: nat)

  predicate Good(g: Geometry, size: nat) {
    4 * g.width <= g.pitch && g.height * g.pitch <= size < U32_LIMIT
  }

  function Offset(g: Geometry, x: nat, y: nat): nat { y * g.pitch + x * 4 }

  predicate OnScreen(g: Geometry, x: nat, y: nat) { x < g.width && y < g.height }

  // The value of a pixel; 0 off the memory.
  function Pixel(mem: seq<u8>, g: Geometry, x: nat, y: nat): nat {
    var o := Offset(g, x, y);
    if o + 4 <= |mem| then FromBytes(mem[o..o + 4]) else 0
  }

  lemma PixelInside(g: Geometry, size: nat, x: nat, y: nat)
    requires Good(g, size) && OnScreen(g, x, y)
    ensures Offset(g, x, y) + 4 <= size
  {
    MulStepLe(g.pitch, y + 1, g.height);
    assert (y + 1) * g.pitch == y * g.pitch + g.pitch;
  }

  // A pixel's value is its four bytes, the lowest first.
  lemma PixelBytes(g: Geometry, mem: seq<u8>, x: nat, y: nat)
    requires y * g.pitch + x * 4 + 4 <= |mem|
    ensures var o := y * g.pitch + x * 4;
      Pixel(mem, g, x, y)
      == mem[o] as nat + 0x100 * (mem[o + 1] as nat) + 0x1_0000 * (mem[o + 2] as nat) + 0x100_0000 * (mem[o + 3] as nat)
  {
    FourBytes(mem, y * g.pitch + x * 4);
  }

  lemma FourBytes(mem: seq<u8>, o: nat)
    requires o + 4 <= |mem|
    ensures FromBytes(mem[o..o + 4])
         == mem[o] as nat + 0x100 * (mem[o + 1] as nat) + 0x1_0000 * (mem[o + 2] as nat) + 0x100_0000 * (mem[o + 3] as nat)
  {
    FirstByte(mem[o..o + 4], mem[o + 1..o + 4]);
    FirstByte(mem[o + 1..o + 4], mem[o + 2..o + 4]);
    FirstByte(mem[o + 2..o + 4], mem[o + 3..o + 4]);
    FirstByte(mem[o + 3..o + 4], []);
    assert FromBytes([]) == 0;
  }

  // Different pixels share no byte.
  lemma PixelsApart(g: Geometry, x: nat, y: nat, u: nat, v: nat)
    requires 4 * g.width <= g.pitch && OnScreen(g, x, y) && OnScreen(g, u, v) && (x != u || y != v)
    ensures Offset(g, x, y) + 4 <= Offset(g, u, v) || Offset(g, u, v) + 4 <= Offset(g, x, y)
  {
    if y < v {
      MulStepLe(g.pitch, y + 1, v);
      assert (y + 1) * g.pitch == y * g.pitch + g.pitch;
    } else if v < y {
      MulStepLe(g.pitch, v + 1, y);
      assert (v + 1) * g.pitch == v * g.pitch + g.pitch;
    }
  }

  // A pixel's four bytes stored: that pixel changes and no other.
  lemma StoredPixel(g: Geometry, before: seq<u8>, after: seq<u8>, x: nat, y: nat, value: u32)
    requires Good(g, |before|) && |after| == |before| && OnScreen(g, x, y) && Offset(g, x, y) + 4 <= |after|
    requires after[Offset(g, x, y)..Offset(g, x, y) + 4] == ToBytes(value, 4)
    requires forall a :: 0 <= a < |before| && !(Offset(g, x, y) <= a < Offset(g, x, y) + 4) ==> after[a] == before[a]
    ensures Pixel(after, g, x, y) == value
    ensures forall u, v :: OnScreen(g, u, v) && (u != x || v != y) ==> Pixel(after, g, u, v) == Pixel(before, g, u, v)
  {
    assert Bound(4) == U32_LIMIT;
    BytesRoundTrip(value, 4);
    forall u, v | OnScreen(g, u, v) && (u != x || v != y)
      ensures Pixel(after, g, u, v) == Pixel(before, g, u, v)
    {
      PixelsApart(g, x, y, u, v);
      PixelInside(g, |before|, u, v);
      var o := Offset(g, u, v);
      assert after[o..o + 4] == before[o..o + 4];
    }
  }

  class Screen {
    const mem: array<u8>
    const g: Geometry
    const layout: Layout

    ghost predicate Valid() {
      Good(g, mem.Length) && Fits(layout)
    }

    method DrawPixel(x: nat, y: nat, color: RGB)
      requires Valid() && OnScreen(g, x, y)
      modifies mem
      ensures Pixel(mem[..], g, x, y) == MakeColor(layout, color)
      ensures forall u, v :: OnScreen(g, u, v) && (u != x || v != y) ==> Pixel(mem[..], g, u, v) == Pixel(old(mem[..]), g, u, v)
      ensures forall a :: 0 <= a < mem.Length && !(Offset(g, x, y) <= a < Offset(g, x, y) + 4) ==> mem[a] == old(mem[a])
    {
      hide MakeColor, Pixel;
      PixelInside(g, mem.Length, x, y);
      var offset := (y * g.pitch + x * 4) % U32_LIMIT;
      var value := MakeColor(layout, color);
      Store32(offset, value);
      StoredPixel(g, old(mem[..]), mem[..], x, y, value);
    }

    // One 32-bit little-endian store.
    method Store32(offset: nat, value: u32)
      requires offset + 4 <= mem.Length
      modifies mem
      ensures mem[..][offset..offset + 4] == ToBytes(value, 4)
      ensures forall a :: 0 <= a < mem.Length && !(offset <= a < offset + 4) ==> mem[a] == old(mem[a])
    {
      var bytes := ToBytes(value, 4);
      forall k | 0 <= k < 4 {
        mem[offset + k] := bytes[k];
      }
      assert mem[..][offset..offset + 4] == bytes;
    }

    // The clearing loop of ParseStyling: every pixel of the screen, row by row.
    method Fill(color: RGB)
      requires Valid()
      modifies mem
      ensures forall u, v | OnScreen(g, u, v) :: Pixel(mem[..], g, u, v) == MakeColor(layout, color)
    {
      hide MakeColor, Pixel;
      for y := 0 to g.height
        invariant forall u: nat, v: nat | OnScreen(g, u, v) && v < y :: Pixel(mem[..], g, u, v) == MakeColor(layout, color)
      {
        for x := 0 to g.width
          invariant forall u: nat, v: nat | OnScreen(g, u, v) && (v < y || (v == y && u < x)) ::
            Pixel(mem[..], g, u, v) == MakeColor(layout, color)
        {
          DrawPixel(x, y, color);
        }
      }
    }

    // The inner loops of DrawChar: a square of one colour.
    method DrawBlock(x0: nat, y0: nat, scale: nat, color: RGB)
      requires Valid() && x0 + scale <= g.width && y0 + scale <= g.height
      modifies mem
      ensures forall u, v | OnScreen(g, u, v) ::
        Pixel(mem[..], g, u, v) == BlockPixel(x0, y0, scale, scale, 0, color, u, v, Pixel(old(mem[..]), g, u, v))
    {
      for dy := 0 to scale
        invariant forall u, v | OnScreen(g, u, v) ::
          Pixel(mem[..], g, u, v) == BlockPixel(x0, y0, scale, dy, 0, color, u, v, Pixel(old(mem[..]), g, u, v))
      {
        for dx := 0 to scale
          invariant forall u, v | OnScreen(g, u, v) ::
            Pixel(mem[..], g, u, v) == BlockPixel(x0, y0, scale, dy, dx, color, u, v, Pixel(old(mem[..]), g, u, v))
        {
          DrawPixel(x0 + dx, y0 + dy, color);
        }
      }
    }

    // Pixel (u, v) when dy rows and dx more pixels of the square are drawn.
    function BlockPixel(x0: nat, y0: nat, size: nat, dy: nat, dx: nat, color: RGB, u: nat, v: nat, before: nat): nat
      requires Valid()
    {
      if InBlock(x0, y0, size, u, v) && (v < y0 + dy || (v == y0 + dy && u < x0 + dx))
      then MakeColor(layout, color) else before
    }

    // Draws an 8x8 glyph with its top left corner at (x0, y0), each of its dots
    // a square of `scale` pixels: exactly the scaled glyph, nothing else.
    method DrawChar(glyph: seq<u8>, x0: nat, y0: nat, scale: nat, colours: Colours)
      requires Valid() && |glyph| == 8 && x0 + 8 * scale <= g.width && y0 + 8 * scale <= g.height
      modifies mem
      ensures forall u: nat, v: nat | OnScreen(g, u, v) && !InBlock(x0, y0, 8 * scale, u, v) ::
        Pixel(mem[..], g, u, v) == Pixel(old(mem[..]), g, u, v)
      ensures forall u: nat, v: nat | OnScreen(g, u, v) && InBlock(x0, y0, 8 * scale, u, v) ::
        Pixel(mem[..], g, u, v) == DotAt(glyph, x0, y0, scale, colours, u, v)
    {
      hide Painting, BlockPixel, Pixel, MakeColor, DotAt, InBlock, Bit, And, Pow2;
      PaintStart(mem[..], glyph, x0, y0, scale, colours);
      for row := 0 to 8
        invariant Painting(old(mem[..]), mem[..], glyph, x0, y0, scale, colours, row, 0)
      {
        DotFits(y0, scale, row, g.height);
        for col := 0 to 8
          invariant Painting(old(mem[..]), mem[..], glyph, x0, y0, scale, colours, row, col)
        {
          DotFits(x0, scale, col, g.width);
          AndPower(glyph[row], col);
          ghost var before := mem[..];
          var color := if And(glyph[row], Pow2(col)) != 0 then colours.fore else colours.back;
          DrawBlock(x0 + col * scale, y0 + row * scale, scale, color);
          PaintNextDot(old(mem[..]), before, mem[..], glyph, x0, y0, scale, colours, row, col, color);
        }
        PaintNextRow(old(mem[..]), mem[..], glyph, x0, y0, scale, colours, row);
      }
      PaintEnd(old(mem[..]), mem[..], glyph, x0, y0, scale, colours);
    }

    // after is before with every pixel's dot painted that comes before (row, col).
    ghost predicate Painting(before: seq<u8>, after: seq<u8>, glyph: seq<u8>, x0: nat, y0: nat, scale: nat, colours: Colours, row: nat, col: nat)
      requires Valid() && |glyph| == 8
    {
      forall u, v | OnScreen(g, u, v) ::
        Pixel(after, g, u, v) == Painted(glyph, x0, y0, scale, colours, row, col, u, v, Pixel(before, g, u, v))
    }

    lemma PaintStart(m: seq<u8>, glyph: seq<u8>, x0: nat, y0: nat, scale: nat, colours: Colours)
      requires Valid() && |glyph| == 8
      ensures Painting(m, m, glyph, x0, y0, scale, colours, 0, 0)
    {
      hide Pixel, MakeColor, DotColor;
    }

    lemma PaintNextDot(first: seq<u8>, before: seq<u8>, after: seq<u8>, glyph: seq<u8>, x0: nat, y0: nat, scale: nat, colours: Colours, row: nat, col: nat, color: RGB)
      requires Valid() && |glyph| == 8 && row < 8 && col < 8
      requires Painting(first, before, glyph, x0, y0, scale, colours, row, col)
      requires color == if Bit(glyph[row], col) then colours.fore else colours.back
      requires forall u, v | OnScreen(g, u, v) ::
        Pixel(after, g, u, v)
        == BlockPixel(x0 + col * scale, y0 + row * scale, scale, scale, 0, color, u, v, Pixel(before, g, u, v))
      ensures Painting(first, after, glyph, x0, y0, scale, colours, row, col + 1)
    {
      hide Pixel, MakeColor, Painted, Bit;
      forall u, v | OnScreen(g, u, v)
        ensures Pixel(after, g, u, v) == Painted(glyph, x0, y0, scale, colours, row, col + 1, u, v, Pixel(first, g, u, v))
      {
        PaintDot(glyph, x0, y0, scale, colours, row, col, u, v, Pixel(first, g, u, v));
      }
    }

    lemma PaintNextRow(first: seq<u8>, after: seq<u8>, glyph: seq<u8>, x0: nat, y0: nat, scale: nat, colours: Colours, row: nat)
      requires Valid() && |glyph| == 8 && Painting(first, after, glyph, x0, y0, scale, colours, row, 8)
      ensures Painting(first, after, glyph, x0, y0, scale, colours, row + 1, 0)
    {
      hide Pixel, Painted;
      forall u, v | OnScreen(g, u, v)
        ensures Pixel(after, g, u, v) == Painted(glyph, x0, y0, scale, colours, row + 1, 0, u, v, Pixel(first, g, u, v))
      {
        RowPainted(glyph, x0, y0, scale, colours, row, u, v, Pixel(first, g, u, v));
      }
    }

    lemma RowPainted(glyph: seq<u8>, x0: nat, y0: nat, scale: nat, colours: Colours, row: nat, u: nat, v: nat, before: nat)
      requires Valid() && |glyph| == 8
      ensures Painted(glyph, x0, y0, scale, colours, row, 8, u, v, before)
           == Painted(glyph, x0, y0, scale, colours, row + 1, 0, u, v, before)
    {
      hide MakeColor, DotColor;
      DotOf(x0, scale, u);
    }

    lemma PaintEnd(first: seq<u8>, after: seq<u8>, glyph: seq<u8>, x0: nat, y0: nat, scale: nat, colours: Colours)
      requires Valid() && |glyph| == 8 && Painting(first, after, glyph, x0, y0, scale, colours, 8, 0)
      ensures forall u: nat, v: nat | OnScreen(g, u, v) && !InBlock(x0, y0, 8 * scale, u, v) ::
        Pixel(after, g, u, v) == Pixel(first, g, u, v)
      ensures forall u: nat, v: nat | OnScreen(g, u, v) && InBlock(x0, y0, 8 * scale, u, v) ::
        Pixel(after, g, u, v) == DotAt(glyph, x0, y0, scale, colours, u, v)
    {
      hide Pixel, Painted, DotColor, InBlock;
      forall u: nat, v: nat | OnScreen(g, u, v)
        ensures !InBlock(x0, y0, 8 * scale, u, v) ==> Pixel(after, g, u, v) == Pixel(first, g, u, v)
        ensures InBlock(x0, y0, 8 * scale, u, v) ==>
          Pixel(after, g, u, v) == DotAt(glyph, x0, y0, scale, colours, u, v)
      {
        AllPainted(glyph, x0, y0, scale, colours, u, v, Pixel(first, g, u, v));
      }
    }

    lemma AllPainted(glyph: seq<u8>, x0: nat, y0: nat, scale: nat, colours: Colours, u: nat, v: nat, before: nat)
      requires Valid() && |glyph| == 8
      ensures Painted(glyph, x0, y0, scale, colours, 8, 0, u, v, before)
           == if InBlock(x0, y0, 8 * scale, u, v) then DotAt(glyph, x0, y0, scale, colours, u, v) else before
    {
      hide DotColor;
      DotOf(y0, scale, v);
    }

    // The colour the scaled glyph gives to pixel (u, v).
    function DotAt(glyph: seq<u8>, x0: nat, y0: nat, scale: nat, colours: Colours, u: nat, v: nat): nat
      requires Valid() && |glyph| == 8 && InBlock(x0, y0, 8 * scale, u, v)
    {
      DotColor(glyph, (v - y0) / scale, (u - x0) / scale, colours)
    }

    // The dots in numbers: a pixel of the cell is foreground exactly when its
    // row's byte has a one at its column's power of two.
    lemma DotInNumbers(glyph: seq<u8>, x0: nat, y0: nat, scale: nat, colours: Colours, u: nat, v: nat)
      requires Valid() && |glyph| == 8 && x0 <= u < x0 + 8 * scale && y0 <= v < y0 + 8 * scale
      ensures scale > 0 && (v - y0) / scale < 8
      ensures DotAt(glyph, x0, y0, scale, colours, u, v)
           == MakeColor(layout, if glyph[(v - y0) / scale] / Pow2((u - x0) / scale) % 2 == 1 then colours.fore else colours.back)
    {
      hide MakeColor, Pow2;
      DotOf(y0, scale, v);
      DotOf(x0, scale, u);
      BitByDivision(glyph[(v - y0) / scale], (u - x0) / scale);
    }

    // The colour of dot (r, c) of a glyph: bit c of row r.
    function DotColor(glyph: seq<u8>, r: nat, c: nat, colours: Colours): nat
      requires Valid() && |glyph| == 8
    {
      MakeColor(layout, if r < 8 && Bit(glyph[r], c) then colours.fore else colours.back)
    }

    // Pixel (u, v) once the dots before (row, col) are painted.
    function Painted(glyph: seq<u8>, x0: nat, y0: nat, scale: nat, colours: Colours, row: nat, col: nat, u: nat, v: nat, before: nat): nat
      requires Valid() && |glyph| == 8
    {
      if !InBlock(x0, y0, 8 * scale, u, v) then before
      else
        var r, c := (v - y0) / scale, (u - x0) / scale;
        if r < row || (r == row && c < col) then DotColor(glyph, r, c, colours) else before
    }

    lemma PaintDot(glyph: seq<u8>, x0: nat, y0: nat, scale: nat, colours: Colours, row: nat, col: nat, u: nat, v: nat, before: nat)
      requires Valid() && |glyph| == 8 && row < 8 && col < 8
      ensures Painted(glyph, x0, y0, scale, colours, row, col + 1, u, v, before)
           == if InBlock(x0 + col * scale, y0 + row * scale, scale, u, v) then DotColor(glyph, row, col, colours)
              else Painted(glyph, x0, y0, scale, colours, row, col, u, v, before)
    {
      if scale > 0 {
        DotIff(x0, scale, col, u);
        DotIff(y0, scale, row, v);
      }
    }
  }

  predicate InBlock(x0: nat, y0: nat, size: nat, u: nat, v: nat) {
    x0 <= u < x0 + size && y0 <= v < y0 + size
  }

  // Dot k of eight lies in the cell.
  lemma DotFits(x0: nat, scale: nat, k: nat, limit: nat)
    requires k < 8 && x0 + 8 * scale <= limit
    ensures x0 + k * scale + scale <= limit
  {
    MulStepLe(scale, k + 1, 8);
    assert scale * (k + 1) == k * scale + scale;
  }

  // Position u belongs to dot k exactly when (u - x0) / scale is k.
  lemma DotIff(x0: nat, scale: nat, k: nat, u: nat)
    requires scale > 0 && k < 8
    ensures x0 + k * scale <= u < x0 + k * scale + scale <==> x0 <= u < x0 + 8 * scale && (u - x0) / scale == k
  {
    DotFits(x0, scale, k, x0 + 8 * scale);
    if x0 + k * scale <= u < x0 + k * scale + scale {
      ModUnique(u - x0, scale, k, u - x0 - k * scale);
    }
    if x0 <= u { DivMod(u - x0, scale); }
  }

  lemma DotOf(x0: nat, scale: nat, u: nat)
    ensures x0 <= u < x0 + 8 * scale ==> (u - x0) / scale < 8
  {
    if x0 <= u < x0 + 8 * scale {
      assert 8 * scale == scale * 8;
      DivBelow(u - x0, scale, 8);
    }
  }
}
