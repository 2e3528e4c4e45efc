// The format language by its letters and numbers: what single formats and whole
// calls show, with every letter, digit and colour written out
// (kernel/arch/x86_64/console/console.cpp).
module Literals {
  import opened Bits
  import opened Digits
  import opened Format
  import opened FormatRoundTrip
  import opened EntryPoints

  // ------------------------------------------------------------- conversions

  // %s shows its text, %u its number in base 10, %x in base 16; any other letter
  // takes no argument and shows nothing; a lone % reads past the end.
  lemma Conversions(text: string, v: u64, args: seq<Arg>, colours: Colours, stale: nat -> (char, char))
    ensures Interpret("%s", 0, [Text(text)] + args, colours, stale) == Done(Glyphs(text, colours), colours, args)
    ensures Interpret("%u", 0, [Number(v)] + args, colours, stale) == Done(Glyphs(ToText(v, 10), colours), colours, args)
    ensures Interpret("%x", 0, [Number(v)] + args, colours, stale) == Done(Glyphs(ToText(v, 16), colours), colours, args)
    ensures Interpret("%d", 0, args, colours, stale) == Done([], colours, args)
    ensures Interpret("%", 0, args, colours, stale) == Failed([], PastEnd)
  {
    assert ([Text(text)] + args)[1..] == args && ([Number(v)] + args)[1..] == args;
    assert Glyphs(text, colours) + [] == Glyphs(text, colours);
    assert Glyphs(ToText(v, 10), colours) + [] == Glyphs(ToText(v, 10), colours);
    assert Glyphs(ToText(v, 16), colours) + [] == Glyphs(ToText(v, 16), colours);
    EndsAtTwo("%s", args, colours, stale);
    EndsAtTwo("%u", args, colours, stale);
    EndsAtTwo("%x", args, colours, stale);
    EndsAtTwo("%d", args, colours, stale);
  }

  lemma EndsAtTwo(s: string, args: seq<Arg>, colours: Colours, stale: nat -> (char, char))
    requires |s| == 2
    ensures Interpret(s, 2, args, colours, stale) == Done([], colours, args)
  {
  }

  // ------------------------------------------------------------- colours

  // The palette's eight colours.
  lemma PaletteTable(n: nat)
    requires n < 8
    ensures Palette(n) == [RGB(255, 0, 0), RGB(0, 255, 0), RGB(0, 0, 255), RGB(0, 0, 0), RGB(255, 255, 255),
                           RGB(0, 189, 252), RGB(252, 223, 0), RGB(0, 72, 252)][n]
  {
  }

  // fg sets the foreground, bg the background, c clears the screen to a colour
  // and makes it the background, r resets to white on black; each from the next
  // character on.
  lemma Tags(n: nat, c: char, colours: Colours, stale: nat -> (char, char))
    requires n < 8 && c != '\0' && c != '%'
    ensures Interpret("C[fg," + ["01234567"[n]] + "]" + [c], 0, [], colours, stale)
         == Done([Glyph(c, colours.(fore := Palette(n)))], colours.(fore := Palette(n)), [])
    ensures Interpret("C[bg," + ["01234567"[n]] + "]" + [c], 0, [], colours, stale)
         == Done([Glyph(c, colours.(back := Palette(n)))], colours.(back := Palette(n)), [])
    ensures Interpret("C[c," + ["01234567"[n]] + "]" + [c], 0, [], colours, stale)
         == Done([Cleared(Palette(n)), Glyph(c, colours.(back := Palette(n)))], colours.(back := Palette(n)), [])
    ensures Interpret("C[r,]" + [c], 0, [], colours, stale)
         == Done([Glyph(c, Colours(RGB(255, 255, 255), RGB(0, 0, 0)))], Colours(RGB(255, 255, 255), RGB(0, 0, 0)), [])
  {
    TagTexts(n);
    TagEffects(n, colours);
    hide Interpret, EncodeTag, Palette, TagEvents, ApplyTag, InPalette;
    OneTagShown(Fore(n), c, colours, stale);
    OneTagShown(Back(n), c, colours, stale);
    OneTagShown(Clear(n), c, colours, stale);
    OneTagShown(Reset, c, colours, stale);
  }

  lemma TagTexts(n: nat)
    requires n < 8
    ensures EncodeTag(Fore(n)) == "C[fg," + ["01234567"[n]] + "]"
    ensures EncodeTag(Back(n)) == "C[bg," + ["01234567"[n]] + "]"
    ensures EncodeTag(Clear(n)) == "C[c," + ["01234567"[n]] + "]"
    ensures EncodeTag(Reset) == "C[r,]"
  {
    assert ToText(n, 10) == [DigitChar(n)] == ["01234567"[n]];
  }

  lemma TagEffects(n: nat, colours: Colours)
    requires n < 8
    ensures InPalette(Fore(n)) && InPalette(Back(n)) && InPalette(Clear(n)) && InPalette(Reset)
    ensures TagEvents(Fore(n)) == [] && TagEvents(Back(n)) == [] && TagEvents(Reset) == []
    ensures TagEvents(Clear(n)) == [Cleared(Palette(n))]
    ensures ApplyTag(Fore(n), colours) == colours.(fore := Palette(n))
    ensures ApplyTag(Back(n), colours) == colours.(back := Palette(n))
    ensures ApplyTag(Clear(n), colours) == colours.(back := Palette(n))
    ensures ApplyTag(Reset, colours) == Colours(RGB(255, 255, 255), RGB(0, 0, 0))
  {
  }

  lemma OneTagShown(tag: Tag, c: char, colours: Colours, stale: nat -> (char, char))
    requires InPalette(tag) && c != '\0' && c != '%'
    ensures Interpret(EncodeTag(tag) + [c], 0, [], colours, stale)
         == Done(TagEvents(tag) + [Glyph(c, ApplyTag(tag, colours))], ApplyTag(tag, colours), [])
  {
    var gs := [Segment.Style(tag), Literal(c)];
    TagThenLetter(tag, c, colours);
    hide Interpret, EncodeTag, Encode, Meaning, TagEvents, ApplyTag, ArgsOf;
    assert ArgsOf(gs) + [] == [];
    RoundTripIff(gs, [], colours, stale);
  }

  lemma TagThenLetter(tag: Tag, c: char, colours: Colours)
    requires c != '\0' && c != '%'
    ensures var gs := [Segment.Style(tag), Literal(c)];
      Encode(gs) == EncodeTag(tag) + [c] && ArgsOf(gs) == []
      && Meaning(gs, colours) == (TagEvents(tag) + [Glyph(c, ApplyTag(tag, colours))], ApplyTag(tag, colours))
  {
    var gs := [Segment.Style(tag), Literal(c)];
    assert gs[1..] == [Literal(c)];
    EncodeOne(Literal(c));
    PlainArgs(gs);
    OneMeaning(Literal(c), ApplyTag(tag, colours));
    assert Glyphs([c], ApplyTag(tag, colours)) == [Glyph(c, ApplyTag(tag, colours))];
  }

  // The letters of a tag: a first letter c means clear, bg background, all else
  // foreground.
  lemma TagTypes(t0: char, t1: char)
    ensures TagType(t0, t1) == 2 <==> t0 == 'c'
    ensures TagType(t0, t1) == 1 <==> t0 == 'b' && t1 == 'g'
    ensures TagType(t0, t1) == 0 <==> t0 != 'c' && !(t0 == 'b' && t1 == 'g')
  {
  }

  // The digits among some characters.
  function OnlyDigits(s: string): string {
    if s == [] then []
    else
      var c := s[|s| - 1];
      OnlyDigits(s[..|s| - 1]) + if '0' <= c <= '9' then [c] else []
  }

  // A colour number is the decimal number of its digits, modulo 2^64; whatever
  // else is there is skipped.
  lemma {:induction false} ColourDigits(s: string, i: nat, j: nat)
    requires i <= j <= |s|
    ensures ColourValue(s, i, j) == FromText(OnlyDigits(s[i..j]), 10) % 0x1_0000_0000_0000_0000
    decreases j
  {
    hide FromText, OnlyDigits, ColourValue;
    if i == j {
      NoDigits(s, i);
    } else {
      ColourDigits(s, i, j - 1);
      ColourStep(s, i, j);
      MoreDigits(s, i, j);
      if '0' <= s[j - 1] <= '9' {
        DigitAppended(OnlyDigits(s[i..j - 1]), s[j - 1]);
        TimesTenMod(FromText(OnlyDigits(s[i..j - 1]), 10), (s[j - 1] - '0') as nat);
      }
    }
  }

  lemma NoDigits(s: string, i: nat)
    requires i <= |s|
    ensures ColourValue(s, i, i) == 0 && FromText(OnlyDigits(s[i..i]), 10) == 0
  {
    assert s[i..i] == [];
    assert FromText([], 10) == 0;
  }

  lemma ColourStep(s: string, i: nat, j: nat)
    requires i < j <= |s|
    ensures var c := s[j - 1];
      ColourValue(s, i, j) == if '0' <= c <= '9' then (ColourValue(s, i, j - 1) * 10 + (c - '0') as nat) % 0x1_0000_0000_0000_0000
                              else ColourValue(s, i, j - 1)
  {
  }

  lemma MoreDigits(s: string, i: nat, j: nat)
    requires i < j <= |s|
    ensures var c := s[j - 1];
      OnlyDigits(s[i..j]) == if '0' <= c <= '9' then OnlyDigits(s[i..j - 1]) + [c] else OnlyDigits(s[i..j - 1])
  {
    assert s[i..j][..j - i - 1] == s[i..j - 1];
    assert s[i..j][j - i - 1] == s[j - 1];
    assert OnlyDigits(s[i..j - 1]) + [] == OnlyDigits(s[i..j - 1]);
  }

  lemma DigitAppended(s: string, c: char)
    requires '0' <= c <= '9'
    ensures FromText(s + [c], 10) == FromText(s, 10) * 10 + (c - '0') as nat
  {
    assert (s + [c])[..|s + [c]| - 1] == s;
  }

  lemma TimesTenMod(x: nat, d: nat)
    ensures (x % 0x1_0000_0000_0000_0000 * 10 + d) % 0x1_0000_0000_0000_0000 == (x * 10 + d) % 0x1_0000_0000_0000_0000
  {
    var q := x / 0x1_0000_0000_0000_0000;
    assert x * 10 + d == 0x1_0000_0000_0000_0000 * (10 * q) + (x % 0x1_0000_0000_0000_0000 * 10 + d);
  }

  // A tag without its closing bracket reads past the end, after its effect.
  lemma OpenTag(colours: Colours, stale: nat -> (char, char))
    ensures Interpret("C[fg,1", 0, [], colours, stale) == Failed([], PastEnd)
  {
    var s := "C[fg,1";
    FindAt(s, 2, ',', 4);
    assert Find(s, 4, ']') == 6 by {
      assert Find(s, 6, ']') == 6 && Find(s, 5, ']') == Find(s, 6, ']') && Find(s, 4, ']') == Find(s, 5, ']');
    }
    assert ColourValue(s, 4, 6) == 1 by { assert ColourValue(s, 4, 4) == 0 && ColourValue(s, 4, 5) == 0; }
  }

  // ------------------------------------------------------------- whole calls

  // A plain message: no conversion, no tag.
  predicate IsPlain(s: string) {
    forall i :: 0 <= i < |s| ==> s[i] != '\0' && s[i] != '%' && s[i] != '['
  }

  // What the five entry points show for a plain message: INFO in colour 5, LOG
  // in colour 6, LOG in colour 0 for Error, OK in colour 1, on the background
  // that was there; then, white on black, a space, the message and a newline.
  // PrintString shows the message alone.
  lemma PlainCalls(s: string, colours: Colours, stale: nat -> (char, char), stale': nat -> (char, char))
    requires IsPlain(s)
    ensures var white := Colours(RGB(255, 255, 255), RGB(0, 0, 0));
      var rest := Glyphs([' '] + s + ['\n'], white);
      && CallOutcome(Info, s, [], colours, stale, stale')
         == Done(Glyphs("INFO", Colours(RGB(0, 189, 252), colours.back)) + rest, white, [])
      && CallOutcome(Log, s, [], colours, stale, stale')
         == Done(Glyphs("LOG", Colours(RGB(252, 223, 0), colours.back)) + rest, white, [])
      && CallOutcome(EntryPoint.Error, s, [], colours, stale, stale')
         == Done(Glyphs("LOG", Colours(RGB(255, 0, 0), colours.back)) + rest, white, [])
      && CallOutcome(EntryPoint.Ok, s, [], colours, stale, stale')
         == Done(Glyphs("OK", Colours(RGB(0, 255, 0), colours.back)) + rest, white, [])
      && CallOutcome(PrintString, s, [], colours, stale, stale') == Done(Glyphs(s, colours), colours, [])
  {
    hide CallOutcome, Glyphs;
    PlainCall(Info, s, colours, stale, stale');
    PlainCall(Log, s, colours, stale, stale');
    PlainCall(EntryPoint.Error, s, colours, stale, stale');
    PlainCall(EntryPoint.Ok, s, colours, stale, stale');
    PlainCall(PrintString, s, colours, stale, stale');
  }

  lemma PlainCall(e: EntryPoint, s: string, colours: Colours, stale: nat -> (char, char), stale': nat -> (char, char))
    requires IsPlain(s)
    ensures CallOutcome(e, s, [], colours, stale, stale') ==
      if e.PrintString? then Done(Glyphs(s, colours), colours, [])
      else Done(Glyphs(PrefixWord(e), colours.(fore := Palette(PrefixColour(e)))) + Glyphs([' '] + s + ['\n'], RESET_COLOURS),
                RESET_COLOURS, [])
  {
    hide Interpret, PrefixText, Glyphs, PrefixWord, PrefixColour, Palette;
    PrefixShown(e, colours, stale);
    ShowsMessage(s, PrefixEvents(e, colours).1, stale');
    if e.PrintString? {
      Joins([], Glyphs(s, colours), []);
    } else {
      GlyphsJoin([' '], s, ['\n'], RESET_COLOURS);
      LineJoins(Glyphs(PrefixWord(e), colours.(fore := Palette(PrefixColour(e)))), ' ', Glyphs(s, RESET_COLOURS), '\n', RESET_COLOURS);
    }
  }

  lemma Joins(a: seq<Event>, b: seq<Event>, c: seq<Event>)
    requires a == [] && c == []
    ensures a + (b + c) == b
  {
  }

  lemma GlyphsJoin(a: string, b: string, c: string, colours: Colours)
    ensures Glyphs(a + b + c, colours) == Glyphs(a, colours) + Glyphs(b, colours) + Glyphs(c, colours)
  {
  }

  lemma LineJoins(word: seq<Event>, x: char, es: seq<Event>, y: char, colours: Colours)
    ensures (word + [Glyph(x, colours)]) + (es + [Glyph(y, colours)])
         == word + (Glyphs([x], colours) + es + Glyphs([y], colours))
  {
  }

  lemma ShowsMessage(s: string, colours: Colours, stale: nat -> (char, char))
    requires IsPlain(s)
    ensures Interpret(s, 0, [], colours, stale) == Done(Glyphs(s, colours), colours, [])
  {
    ShowsPlain(s, 0, |s|, [], colours, stale);
    assert s[0..|s|] == s;
    assert Glyphs(s, colours) + [] == Glyphs(s, colours);
  }
}
