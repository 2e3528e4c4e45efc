// The console driver's printing code as it runs
// (kernel/arch/x86_64/console/console.cpp): its cursor, its colours and what it
// has shown.
module Console {
  import opened Bits
  import opened Options
  import opened Digits
  import opened Format
  import opened FormatRoundTrip
  import opened Framebuffer
  import opened Grid
  import opened EntryPoints

  // ------------------------------------------------------------- the driver

  class Console {
    const screen: Screen
    const font: Font
    const fontScale: nat
    const width: nat
    ghost const first: seq<u8>   // the framebuffer's bytes at the start
    var cursor: Cursor
    var colours: Colours
    var shown: seq<Event>        // everything shown so far, oldest first

    constructor (screen: Screen, font: Font, fontScale: nat)
      requires screen.Valid()
      ensures this.screen == screen && this.font == font && this.fontScale == fontScale
      ensures Painted() && colours == RESET_COLOURS && shown == []
    {
      this.screen := screen;
      this.font := font;
      this.fontScale := fontScale;
      width := screen.g.width;
      first := screen.mem[..];
      cursor := Cursor(0, 0);
      colours := RESET_COLOURS;
      shown := [];
    }

    // ----------------------------------------------------------- pixels

    // The value that character c's scaled glyph gives to a pixel of its cell.
    function Dot(c: char, colours: Colours, cur: Cursor, u: nat, v: nat): nat
      requires screen.Valid() && InCell(fontScale, cur, u, v)
    {
      screen.DotAt(font(c), cur.x * Side(fontScale), cur.y * Side(fontScale), fontScale, colours, u, v)
    }

    // A cell in numbers: cell (x, y) is the 8 * scale pixels square from
    // (8 * scale * x, 8 * scale * y) on, and a pixel of it is foreground exactly
    // when its row's byte in the font has a one at its column's power of two.
    lemma DotInNumbers(c: char, colours: Colours, cur: Cursor, u: nat, v: nat)
      requires screen.Valid() && fontScale > 0
      requires 8 * fontScale * cur.x <= u < 8 * fontScale * cur.x + 8 * fontScale
      requires 8 * fontScale * cur.y <= v < 8 * fontScale * cur.y + 8 * fontScale
      ensures InCell(fontScale, cur, u, v) && (v - 8 * fontScale * cur.y) / fontScale < 8
      ensures Dot(c, colours, cur, u, v)
           == MakeColor(screen.layout,
                        if font(c)[(v - 8 * fontScale * cur.y) / fontScale] / Pow2((u - 8 * fontScale * cur.x) / fontScale) % 2 == 1
                        then colours.fore else colours.back)
    {
      hide MakeColor, Pow2;
      SideTimes(fontScale, cur.x);
      SideTimes(fontScale, cur.y);
      screen.DotInNumbers(font(c), 8 * fontScale * cur.x, 8 * fontScale * cur.y, fontScale, colours, u, v);
    }

    // The value of a pixel once es is shown.
    ghost function Picture(es: seq<Event>, u: nat, v: nat): nat
      requires screen.Valid()
    {
      if es == [] then Pixel(first, screen.g, u, v)
      else
        var n := |es| - 1;
        After(es[n], CursorAt(es, n, fontScale, width), u, v, Picture(es[..n], u, v))
    }

    // The value of a pixel after one event with the cursor at cur.
    function After(e: Event, cur: Cursor, u: nat, v: nat, before: nat): nat
      requires screen.Valid()
    {
      if e.Cleared? then MakeColor(screen.layout, e.colour)
      else if e.c != '\n' && InCell(fontScale, cur, u, v) then Dot(e.c, e.colours, cur, u, v)
      else before
    }

    // The cursor follows what is shown, and so does every pixel as long as all
    // cells have been on the screen; painting past a row's end or the
    // framebuffer is where the source's behaviour is left.
    ghost predicate Painted()
      reads `shown, `cursor, screen.mem
    {
      && screen.Valid() && width == screen.g.width
      && cursor == AdvanceAll(Cursor(0, 0), shown, fontScale, width)
      && (CellsFit(screen.g, shown, fontScale) ==>
            forall u, v | OnScreen(screen.g, u, v) :: Pixel(screen.mem[..], screen.g, u, v) == Picture(shown, u, v))
    }

    lemma PictureNext(es: seq<Event>, e: Event, u: nat, v: nat)
      requires screen.Valid()
      ensures Picture(es + [e], u, v)
           == After(e, AdvanceAll(Cursor(0, 0), es, fontScale, width), u, v, Picture(es, u, v))
    {
      hide After, AdvanceAll;
      assert (es + [e])[..|es|] == es;
    }

    // One more event fits exactly when the rest does and its own cell does.
    lemma FitsNext(es: seq<Event>, e: Event)
      ensures CellsFit(screen.g, es + [e], fontScale) <==>
        CellsFit(screen.g, es, fontScale)
        && (Shows(e) ==> CellFits(screen.g, fontScale, AdvanceAll(Cursor(0, 0), es, fontScale, screen.g.width)))
    {
      hide CellFits, AdvanceAll;
      var all := es + [e];
      forall k | 0 <= k <= |es| ensures all[..k] == es[..k] {}
      assert es[..|es|] == es;
      assert forall k :: 0 <= k < |es| ==> all[k] == es[k]
                                           && CursorAt(all, k, fontScale, screen.g.width) == CursorAt(es, k, fontScale, screen.g.width);
      assert all[|es|] == e && CursorAt(all, |es|, fontScale, screen.g.width) == AdvanceAll(Cursor(0, 0), es, fontScale, screen.g.width);
    }

    // What a pixel shows where no character stands: the last clearing's colour,
    // or what was there at first.
    ghost function Ground(es: seq<Event>, u: nat, v: nat): nat
      requires screen.Valid()
    {
      if es == [] then Pixel(first, screen.g, u, v)
      else if es[|es| - 1].Cleared? then MakeColor(screen.layout, es[|es| - 1].colour)
      else Ground(es[..|es| - 1], u, v)
    }

    // Character k was shown since the last clearing, in the cell of pixel (u, v).
    ghost predicate StandsAt(es: seq<Event>, k: nat, u: nat, v: nat)
      requires k < |es|
    {
      Shows(es[k]) && NoClear(es, k, |es|) && InCell(fontScale, CursorAt(es, k, fontScale, width), u, v)
    }

    // In the end every character since the last clearing stands whole in its own
    // cell, in the colours in force when it was shown, and every other pixel is
    // ground.
    lemma {:induction false} EveryCharacterStands(es: seq<Event>, u: nat, v: nat)
      requires screen.Valid()
      ensures forall k :: 0 <= k < |es| && StandsAt(es, k, u, v) ==>
        Picture(es, u, v) == Dot(es[k].c, es[k].colours, CursorAt(es, k, fontScale, width), u, v)
      ensures (forall k :: 0 <= k < |es| ==> !StandsAt(es, k, u, v)) ==> Picture(es, u, v) == Ground(es, u, v)
      decreases |es|
    {
      hide Dot, InCell, MakeColor, AdvanceAll;
      if es != [] {
        var n := |es| - 1;
        var es' := es[..n];
        EveryCharacterStands(es', u, v);
        if es[n].Glyph? {
          var last := CursorAt(es, n, fontScale, width);
          forall k | 0 <= k < n
            ensures StandsAt(es', k, u, v) <==> StandsAt(es, k, u, v)
            ensures CursorAt(es', k, fontScale, width) == CursorAt(es, k, fontScale, width)
          {
            assert es'[..k] == es[..k];
          }
          if Shows(es[n]) && InCell(fontScale, last, u, v) {
            assert StandsAt(es, n, u, v);
            forall k | 0 <= k < n ensures !StandsAt(es, k, u, v) {
              if StandsAt(es, k, u, v) {
                CursorRises(es, k, n, fontScale, width);
                OneCell(fontScale, CursorAt(es, k, fontScale, width), last, u, v);
              }
            }
          }
        }
      }
    }

    // ----------------------------------------------------------- printing

    // What a printing method leaves: es shown after what was there, the cursor
    // moved by them.
    twostate predicate Showed(es: seq<Event>)
      reads this
    {
      shown == old(shown) + es && cursor == AdvanceAll(old(cursor), es, fontScale, width)
    }

    // Paints the character's cell, if it is on the screen, and moves the cursor.
    method PrintChar(c: char)
      requires Painted()
      modifies `shown, `cursor, screen.mem
      ensures Painted() && Showed([Glyph(c, colours)])
    {
      hide Pixel, Picture, CellsFit, AdvanceAll, Advance;
      OneEvent(cursor, Glyph(c, colours), fontScale, width);
      AdvanceOne(Cursor(0, 0), shown, Glyph(c, colours), fontScale, width);
      PaintCell(c);
      shown := shown + [Glyph(c, colours)];
      MoveOn(c);
    }

    // The cursor past character c.
    method MoveOn(c: char)
      modifies `cursor
      ensures cursor == Advance(old(cursor), Glyph(c, colours), fontScale, width)
    {
      if c == '\n' {
        cursor := Cursor(0, cursor.y + 1);
        return;
      }
      cursor := cursor.(x := cursor.x + 1);
      if cursor.x * (8 * fontScale) >= width {
        cursor := Cursor(0, cursor.y + 1);
      }
    }

    // DrawChar at the cursor.
    method PaintCell(c: char)
      requires Painted()
      modifies screen.mem
      ensures CellsFit(screen.g, shown + [Glyph(c, colours)], fontScale) ==>
        forall u, v | OnScreen(screen.g, u, v) ::
          Pixel(screen.mem[..], screen.g, u, v) == Picture(shown + [Glyph(c, colours)], u, v)
    {
      hide Pixel, Picture, MakeColor, AdvanceAll, CellsFit;
      ghost var e := Glyph(c, colours);
      FitsNext(shown, e);
      var side := 8 * fontScale;
      var x0, y0 := cursor.x * side, cursor.y * side;
      NextEdge(cursor.x, side);
      NextEdge(cursor.y, side);
      if c != '\n' && x0 + side <= screen.g.width && y0 + side <= screen.g.height {
        screen.DrawChar(font(c), x0, y0, fontScale, colours);
      }
      forall u, v | OnScreen(screen.g, u, v)
        ensures Picture(shown + [e], u, v) == After(e, cursor, u, v, Picture(shown, u, v))
      {
        PictureNext(shown, e, u, v);
      }
    }

    // Clears the whole screen to a palette colour and homes the cursor.
    method ClearScreen(colour: RGB)
      requires Painted()
      modifies `shown, `cursor, `colours, screen.mem
      ensures Painted() && Showed([Cleared(colour)]) && colours == old(colours).(back := colour)
    {
      hide Pixel, MakeColor, CellFits;
      screen.Fill(colour);
      ghost var e := Cleared(colour);
      AdvanceOne(cursor, [], e, fontScale, width);
      AdvanceOne(Cursor(0, 0), shown, e, fontScale, width);
      assert [] + [e] == [e];
      FitsNext(shown, e);
      forall u, v | OnScreen(screen.g, u, v) ensures Picture(shown + [e], u, v) == MakeColor(screen.layout, colour) {
        PictureNext(shown, e, u, v);
      }
      shown := shown + [Cleared(colour)];
      colours := colours.(back := colour);
      cursor := Cursor(0, 0);
    }

    // Shows the first n characters of the buffer from the last to the first.
    method ShowBackwards(buffer: array<char>, n: nat)
      requires n <= buffer.Length
      requires Painted()
      modifies `shown, `cursor, screen.mem
      ensures Painted()
      ensures Showed(Glyphs(Reversed(buffer[..n]), colours))
    {
      hide Painted, AdvanceAll;
      AdvanceNone(cursor, fontScale, width);
      ghost var text := Reversed(buffer[..n]);
      ReversedAt(buffer[..n]);
      var i := n;
      while i > 0
        invariant 0 <= i <= n
        invariant Painted()
        invariant Showed(Glyphs(text[..n - i], colours))
      {
        i := i - 1;
        ghost var done := Glyphs(text[..n - i - 1], colours);
        PrintChar(buffer[i]);
        assert Glyphs(text[..n - i], colours) == done + [Glyph(buffer[i], colours)];
        ShowMore(old(shown), old(cursor), done, Glyph(buffer[i], colours), fontScale, width);
      }
      assert text[..n] == text;
    }

    method PrintUnsignedInternal(value: u64)
      requires Painted()
      modifies `shown, `cursor, screen.mem
      ensures Painted()
      ensures Showed(Glyphs(ToText(value, 10), colours))
    {
      hide Painted, AdvanceAll;
      if value == 0 {
        assert Glyphs(ToText(0, 10), colours) == [Glyph('0', colours)];
        PrintChar('0');
        return;
      }
      var buffer := new char[32];
      U64Length(value);
      var n := FillDigits(value, 10, buffer);
      ShowBackwards(buffer, n);
    }

    method PrintHexInternal(value: u64)
      requires Painted()
      modifies `shown, `cursor, screen.mem
      ensures Painted()
      ensures Showed(Glyphs(ToText(value, 16), colours))
    {
      hide Painted, AdvanceAll;
      if value == 0 {
        assert Glyphs(ToText(0, 16), colours) == [Glyph('0', colours)];
        PrintChar('0');
        return;
      }
      var buffer := new char[16];
      U64Length(value);
      var n := FillDigits(value, 16, buffer);
      ShowBackwards(buffer, n);
    }

    // Parses and applies the tag at position i; `stale` is what the type buffer
    // on the stack held.  The result is the position after the tag.
    method ParseStyling(s: string, i: nat, stale: (char, char)) returns (next: nat, fault: Option<Fault>)
      requires i + 2 <= |s|
      requires Painted()
      modifies `shown, `cursor, `colours, screen.mem
      ensures Painted()
      ensures match Format.ParseStyling(s, i, old(colours), stale)
              case BadStyle(f) => fault == Some(f) && Showed([])
              case Style(n, cs, cleared) =>
                fault == None && next == n && colours == cs
                && Showed(if cleared.Some? then [Cleared(cleared.value)] else [])
    {
      hide Painted, AdvanceAll, Palette;
      AdvanceNone(cursor, fontScale, width);
      var typebuffer := new char[2](k => if k == 0 then stale.0 else stale.1);
      var bufferindex := 0;
      assert shown + [] == shown;
      next := i + 2;
      fault := None;
      while At(s, next) != ',' && next < |s|
        invariant i + 2 <= next <= |s| && bufferindex == next - (i + 2) <= 2
        invariant Find(s, next, ',') == Find(s, i + 2, ',')
        invariant typebuffer[0] == if bufferindex > 0 then s[i + 2] else stale.0
        invariant typebuffer[1] == if bufferindex > 1 then s[i + 3] else stale.1
        invariant Painted() && shown == old(shown) && cursor == old(cursor) && colours == old(colours)
        decreases |s| - next
      {
        // A third letter would be stored past the buffer; the kernel then panics.
        if bufferindex >= 2 { return next, Some(TypeOverrun); }
        typebuffer[bufferindex] := s[next];
        bufferindex := bufferindex + 1;
        next := next + 1;
      }
      ghost var e := next;
      assert e == Find(s, i + 2, ',');
      if typebuffer[0] == 'r' {
        while At(s, next) != ']' && next < |s|
          invariant e <= next <= |s| && Find(s, next, ']') == Find(s, e, ']')
          invariant Painted() && shown == old(shown) && cursor == old(cursor) && colours == old(colours)
          decreases |s| - next
        {
          next := next + 1;
        }
        assert next == Find(s, e, ']');
        next := next + 1;
        colours := RESET_COLOURS;
        return;
      }
      var kind := TagType(typebuffer[0], typebuffer[1]);
      var value: u64 := 0;
      while At(s, next) != ']' && next < |s|
        invariant e <= next <= |s| && Find(s, next, ']') == Find(s, e, ']')
        invariant value == ColourValue(s, e, next)
        invariant Painted() && shown == old(shown) && cursor == old(cursor) && colours == old(colours)
        decreases |s| - next
      {
        if '0' <= s[next] <= '9' {
          value := (value * 10 + (s[next] - '0') as nat) % U64_LIMIT;
        }
        next := next + 1;
      }
      assert next == Find(s, e, ']');
      next := next + 1;
      var clamped := if value > PALETTE_SIZE then PALETTE_SIZE else value;
      if clamped >= PALETTE_SIZE { return next, Some(ColourOverrun); }
      if kind == 0 {
        colours := colours.(fore := Palette(clamped));
      } else if kind == 1 {
        colours := colours.(back := Palette(clamped));
      } else {
        ClearScreen(Palette(clamped));
      }
    }

    // Shows a string argument.
    method PrintText(text: string)
      requires Painted()
      modifies `shown, `cursor, screen.mem
      ensures Painted()
      ensures Showed(Glyphs(text, colours))
    {
      hide Painted, AdvanceAll;
      AdvanceNone(cursor, fontScale, width);
      for k := 0 to |text|
        invariant Painted()
        invariant Showed(Glyphs(text[..k], colours))
      {
        ghost var done := Glyphs(text[..k], colours);
        PrintChar(text[k]);
        ShowMore(old(shown), old(cursor), done, Glyph(text[k], colours), fontScale, width);
        assert Glyphs(text[..k + 1], colours) == done + [Glyph(text[k], colours)];
      }
      assert text[..|text|] == text;
    }

    // One conversion or one character; es is what it shows.
    method PrintItem(s: string, i: nat, args: seq<Arg>, ghost stale: nat -> (char, char))
      returns (next: nat, fault: Option<Fault>, rest: seq<Arg>, ghost es: seq<Event>)
      requires i <= |s|
      requires Painted()
      modifies `shown, `cursor, screen.mem
      ensures Painted()
      ensures Showed(es)
      ensures match fault
              case None =>
                i < next <= |s|
                && AfterTagCheck(s, i, args, colours, stale) == Prepend(es, Interpret(s, next, rest, colours, stale))
              case Some(f) => AfterTagCheck(s, i, args, colours, stale) == Failed(es, f)
    {
      hide Interpret, Painted, AdvanceAll;
      AdvanceNone(cursor, fontScale, width);
      next, fault, rest, es := i + 2, None, args, [];
      assert shown + [] == shown;
      if At(s, i) == '%' {
        if i + 2 > |s| { fault := Some(PastEnd); return; }
        var c := s[i + 1];
        if c == 's' {
          if rest == [] || !rest[0].Text? { fault := Some(BadArgument); return; }
          PrintText(rest[0].text);
          es, rest := Glyphs(rest[0].text, colours), rest[1..];
        } else if c == 'u' || c == 'x' {
          if rest == [] || !rest[0].Number? { fault := Some(BadArgument); return; }
          if c == 'u' { PrintUnsignedInternal(rest[0].value); } else { PrintHexInternal(rest[0].value); }
          es, rest := Glyphs(ToText(rest[0].value, if c == 'u' then 10 else 16), colours), rest[1..];
        } else {
          PrependNothing(Interpret(s, next, rest, colours, stale));
        }
      } else {
        PrintChar(At(s, i));
        es := [Glyph(At(s, i), colours)];
        if i == |s| { fault := Some(PastEnd); return; }
        next := i + 1;
      }
    }

    // The tag at position i, if there is one; es is what it shows.
    method PrintTag(s: string, i: nat, ghost args: seq<Arg>, stale: nat -> (char, char))
      returns (next: nat, fault: Option<Fault>, ghost es: seq<Event>)
      requires i < |s|
      requires Painted()
      modifies `shown, `cursor, `colours, screen.mem
      ensures Painted()
      ensures Showed(es)
      ensures match fault
              case None =>
                i <= next <= |s|
                && Interpret(s, i, args, old(colours), stale) == Prepend(es, AfterTagCheck(s, next, args, colours, stale))
              case Some(f) => Interpret(s, i, args, old(colours), stale) == Failed(es, f)
    {
      hide AfterTagCheck, AdvanceAll, Format.ParseStyling, Painted;
      next, fault, es := i, None, [];
      assert shown + [] == shown;
      AdvanceNone(cursor, fontScale, width);
      if s[i] != 'C' || At(s, i + 1) != '[' {
        PrependNothing(AfterTagCheck(s, i, args, colours, stale));
        return;
      }
      ghost var style := Format.ParseStyling(s, i, colours, stale(i));
      if style.Style? && style.cleared.Some? { es := [Cleared(style.cleared.value)]; }
      next, fault := ParseStyling(s, i, stale(i));
      if fault == None && next > |s| { fault := Some(PastEnd); }
      else if fault == None { PrependNothing(AfterTagCheck(s, next, args, colours, stale)); }
    }

    // Interprets a format.  A fault is the point where the source's behaviour
    // ends; what was shown up to there is still as the interpreter says.
    method PrintStringInternal(s: string, args: seq<Arg>, stale: nat -> (char, char))
      returns (fault: Option<Fault>, rest: seq<Arg>)
      requires Painted()
      modifies `shown, `cursor, `colours, screen.mem
      ensures Painted()
      ensures match Interpret(s, 0, args, old(colours), stale)
              case Done(es, cs, left) => fault == None && rest == left && colours == cs && Showed(es)
              case Failed(es, f) => fault == Some(f) && Showed(es)
    {
      hide Painted;
      var i := 0;
      rest, fault := args, None;
      ghost var all := Interpret(s, 0, args, colours, stale);
      ghost var done: seq<Event> := [];
      PrependNothing(all);
      assert shown + [] == shown;
      while i < |s|
        invariant i <= |s| && fault == None
        invariant Painted()
        invariant Showed(done) && all == Prepend(done, Interpret(s, i, rest, colours, stale))
        decreases |s| - i
      {
        ghost var es;
        i, fault, es := PrintTag(s, i, rest, stale);
        ShowAll(old(shown), old(cursor), done, es, fontScale, width);
        if fault.Some? { return; }
        PrependPrepend(done, es, AfterTagCheck(s, i, rest, colours, stale));
        done := done + es;
        i, fault, rest, es := PrintItem(s, i, rest, stale);
        ShowAll(old(shown), old(cursor), done, es, fontScale, width);
        if fault.Some? { return; }
        PrependPrepend(done, es, Interpret(s, i, rest, colours, stale));
        done := done + es;
      }
      assert done + [] == done;
    }

    // Console::PrintString, INFO, Log, Error and OK inside their lock.
    method PrintMessage(e: EntryPoint, s: string, args: seq<Arg>, stale: nat -> (char, char), stale': nat -> (char, char))
      returns (fault: Option<Fault>, rest: seq<Arg>)
      requires Painted()
      modifies `shown, `cursor, `colours, screen.mem
      ensures Painted()
      ensures match CallOutcome(e, s, args, old(colours), stale, stale')
              case Done(es, cs, left) => fault == None && rest == left && colours == cs && Showed(es)
              case Failed(es, f) => fault == Some(f) && Showed(es)
    {
      hide Interpret, AdvanceAll, PrefixText, Painted;
      ghost var es, fs: seq<Event>;
      fault, rest := PrintStringInternal(PrefixText(e), [], stale);
      es := Interpret(PrefixText(e), 0, [], old(colours), stale).events;
      if fault.Some? { return fault, args; }
      ghost var mid := colours;
      fault, rest := PrintStringInternal(s, args, stale');
      fs := Interpret(s, 0, args, mid, stale').events;
      ShowAll(old(shown), old(cursor), es, fs, fontScale, width);
      if fault.Some? { return; }
      if e.PrintString? {
        assert fs + [] == fs;
        return;
      }
      PrintChar('\n');
      ShowMore(old(shown), old(cursor), es + fs, Glyph('\n', colours), fontScale, width);
      assert (es + fs) + [Glyph('\n', colours)] == es + (fs + [Glyph('\n', colours)]);
    }
  }

  lemma AdvanceNone(cur: Cursor, scale: nat, width: nat)
    ensures AdvanceAll(cur, [], scale, width) == cur
  {
  }

  // Showing fs after es is showing es + fs.
  lemma ShowAll(shown: seq<Event>, cur: Cursor, es: seq<Event>, fs: seq<Event>, scale: nat, width: nat)
    ensures (shown + es) + fs == shown + (es + fs)
    ensures AdvanceAll(AdvanceAll(cur, es, scale, width), fs, scale, width) == AdvanceAll(cur, es + fs, scale, width)
  {
    Advances(cur, es, fs, scale, width);
  }

  lemma ShowMore(shown: seq<Event>, cur: Cursor, es: seq<Event>, e: Event, scale: nat, width: nat)
    ensures (shown + es) + [e] == shown + (es + [e])
    ensures AdvanceAll(AdvanceAll(cur, es, scale, width), [e], scale, width) == AdvanceAll(cur, es + [e], scale, width)
  {
    ShowAll(shown, cur, es, [e], scale, width);
  }

  // Both printers' first loop: the digits from the least significant one; the
  // buffer never overruns if it has room for the number's text.
  method FillDigits(value: nat, base: nat, buffer: array<char>) returns (n: nat)
    requires 2 <= base <= 16 && value > 0 && |ToText(value, base)| <= buffer.Length
    modifies buffer
    ensures n <= buffer.Length && Reversed(buffer[..n]) == ToText(value, base)
  {
    hide ToText, Reversed, DigitsLeft;
    ghost var text := ToText(value, base);
    var v: nat := value;
    n := 0;
    FirstDigits(value, base);
    while v > 0
      invariant 0 <= n <= buffer.Length
      invariant text == DigitsLeft(v, base) + Reversed(buffer[..n])
    {
      ghost var before := buffer[..n];
      LastDigit(v, base);
      QuotientBelow(v, base);
      var remainder := v % base;
      v := v / base;
      MoveDigit(text, DigitsLeft(v, base), DigitChar(remainder), before);
      buffer[n] := DigitChar(remainder);
      assert buffer[..n + 1] == before + [DigitChar(remainder)];
      n := n + 1;
    }
  }

  // The digits still to come.
  function DigitsLeft(v: nat, base: nat): (s: string)
    requires 2 <= base <= 16
    ensures v > 0 ==> |s| > 0
  {
    if v == 0 then [] else ToText(v, base)
  }

  lemma FirstDigits(value: nat, base: nat)
    requires 2 <= base <= 16 && value > 0
    ensures ToText(value, base) == DigitsLeft(value, base) + Reversed([])
    ensures forall r: string :: DigitsLeft(0, base) + r == r
  {
  }

  lemma MoveDigit(text: string, a: string, c: char, before: string)
    requires text == (a + [c]) + Reversed(before)
    ensures |before| < |text| && text == a + Reversed(before + [c])
  {
    hide Reversed;
    ReversedAppend(before, c);
    Regroup(a, c, Reversed(before));
  }

  lemma Regroup(a: string, c: char, r: string)
    ensures (a + [c]) + r == a + ([c] + r)
    ensures |(a + [c]) + r| == |a| + 1 + |r|
  {
  }

  lemma QuotientBelow(v: nat, base: nat)
    requires base >= 2 && v > 0
    ensures v / base < v
  {
  }

  lemma LastDigit(v: nat, base: nat)
    requires 2 <= base <= 16 && v > 0
    ensures DigitsLeft(v, base) == DigitsLeft(v / base, base) + [DigitChar(v % base)]
  {
    if v < base { ModUnique(v, base, 0, v); } else { Quotient(v, base); }
  }

  function Reversed(s: string): (r: string)
    ensures |r| == |s|
  {
    if s == [] then [] else [s[|s| - 1]] + Reversed(s[..|s| - 1])
  }

  lemma ReversedAppend(s: string, c: char)
    ensures Reversed(s + [c]) == [c] + Reversed(s)
  {
    assert (s + [c])[..|s + [c]| - 1] == s;
  }

  lemma {:induction false} ReversedAt(s: string)
    ensures forall k :: 0 <= k < |s| ==> Reversed(s)[k] == s[|s| - 1 - k]
  {
    if s != [] { ReversedAt(s[..|s| - 1]); }
  }
}
