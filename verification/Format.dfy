// The console's format language (kernel/arch/x86_64/console/console.cpp):
// printf-like conversions and inline colour tags.
module Format {
  import opened Bits
  import opened Options
  import opened Digits

  datatype RGB = RGB(r: u8, g: u8, b: u8)

  const PALETTE_SIZE: nat := 8

  function Palette(i: nat): RGB
    requires i < PALETTE_SIZE
  {
    match i
    case 0 => RGB(255, 0, 0)
    case 1 => RGB(0, 255, 0)
    case 2 => RGB(0, 0, 255)
    case 3 => RGB(0, 0, 0)
    case 4 => RGB(255, 255, 255)
    case 5 => RGB(0, 189, 252)
    case 6 => RGB(252, 223, 0)
    case _ => RGB(0, 72, 252)
  }

  datatype Colours = Colours(fore: RGB, back: RGB)

  const RESET_COLOURS := Colours(RGB(255, 255, 255), RGB(0, 0, 0))

  // What a console shows: a character in the colours in force, or the whole
  // screen cleared to a colour.
  datatype Event = Glyph(c: char, colours: Colours) | Cleared(colour: RGB)

  // A text argument is the characters before its terminating NUL.
  datatype Arg = Text(text: string) | Number(value: u64)

  // Where C's behaviour ends: reading past the terminating NUL, storing past
  // the two-character type buffer (followed by a panic), reading past the
  // palette, reading a missing or wrong variadic argument.
  datatype Fault = PastEnd | TypeOverrun | ColourOverrun | BadArgument

  datatype Outcome =
    | Done(events: seq<Event>, colours: Colours, args: seq<Arg>)
    | Failed(events: seq<Event>, fault: Fault)

  function Prepend(es: seq<Event>, o: Outcome): Outcome {
    match o
    case Done(fs, colours, args) => Done(es + fs, colours, args)
    case Failed(fs, fault) => Failed(es + fs, fault)
  }

  function Glyphs(s: string, colours: Colours): (es: seq<Event>)
    ensures |es| == |s|
  {
    seq(|s|, i requires 0 <= i < |s| => Glyph(s[i], colours))
  }

  // ------------------------------------------------------------- C strings

  // The characters of s and its terminating NUL.
  function At(s: string, i: nat): char
    requires i <= |s|
  {
    if i < |s| then s[i] else '\0'
  }

  // The first position from i on that holds `stop` or the terminator.
  function Find(s: string, i: nat, stop: char): (j: nat)
    requires i <= |s|
    ensures i <= j <= |s|
    decreases |s| - i
  {
    if i == |s| || s[i] == stop then i else Find(s, i + 1, stop)
  }

  // ------------------------------------------------------------- style tags

  // ParseStyling's type variable: 0 foreground, 1 background, 2 clear.
  function TagType(t0: char, t1: char): nat {
    var type0 := if t0 == 'c' then 2 else 0;
    var type1 := if t0 != 'f' && t0 != 'b' && t1 != 'g' then (if t0 == 'c' then 2 else 0) else type0;
    if t0 == 'f' && t1 == 'g' then 0 else if t0 == 'b' && t1 == 'g' then 1 else type1
  }

  // The decimal value of the digits among s[i..j], in 64 bits; other characters
  // are skipped.
  function ColourValue(s: string, i: nat, j: nat): u64
    requires i <= j <= |s|
    decreases j
  {
    if i == j then 0
    else
      var v := ColourValue(s, i, j - 1);
      if '0' <= s[j - 1] <= '9' then (v * 10 + (s[j - 1] - '0') as nat) % U64_LIMIT else v
  }

  // next: the position after the tag, one past the terminator if the closing
  // bracket is missing.
  datatype Style = Style(next: nat, colours: Colours, cleared: Option<RGB>) | BadStyle(fault: Fault)

  // The two-character type buffer is not initialised: stale is what it held.
  function ParseStyling(s: string, i: nat, colours: Colours, stale: (char, char)): (r: Style)
    requires i + 2 <= |s|
    ensures r.Style? ==> i + 2 < r.next <= |s| + 1
  {
    var e := Find(s, i + 2, ',');
    if e - (i + 2) > 2 then BadStyle(TypeOverrun)
    else
      var t0 := if i + 2 < e then s[i + 2] else stale.0;
      var t1 := if i + 3 < e then s[i + 3] else stale.1;
      var close := Find(s, e, ']');
      if t0 == 'r' then Style(close + 1, RESET_COLOURS, None)
      else
        var v := ColourValue(s, e, close);
        var index := if v > PALETTE_SIZE then PALETTE_SIZE else v;
        if index >= PALETTE_SIZE then BadStyle(ColourOverrun)
        else
          var type' := TagType(t0, t1);
          if type' == 0 then Style(close + 1, colours.(fore := Palette(index)), None)
          else if type' == 1 then Style(close + 1, colours.(back := Palette(index)), None)
          else Style(close + 1, colours.(back := Palette(index)), Some(Palette(index)))
  }

  // ------------------------------------------------------------- the interpreter

  // PrintStringInternal from position i.
  function Interpret(s: string, i: nat, args: seq<Arg>, colours: Colours, stale: nat -> (char, char)): Outcome
    requires i <= |s|
    decreases |s| - i, 1
  {
    if i == |s| then Done([], colours, args)
    else if s[i] == 'C' && At(s, i + 1) == '[' then
      match ParseStyling(s, i, colours, stale(i))
      case BadStyle(fault) => Failed([], fault)
      case Style(next, colours', cleared) =>
        var es := if cleared.Some? then [Cleared(cleared.value)] else [];
        if next > |s| then Failed(es, PastEnd)
        else Prepend(es, AfterTagCheck(s, next, args, colours', stale))
    else AfterTagCheck(s, i, args, colours, stale)
  }

  // The rest of one turn of the loop: a conversion, or one character, which
  // after a tag may be the terminator itself.
  function AfterTagCheck(s: string, i: nat, args: seq<Arg>, colours: Colours, stale: nat -> (char, char)): Outcome
    requires i <= |s|
    decreases |s| - i, 0
  {
    if At(s, i) == '%' then
      if i + 2 > |s| then Failed([], PastEnd)
      else
        var c := s[i + 1];
        if c == 's' then
          if args == [] || !args[0].Text? then Failed([], BadArgument)
          else Prepend(Glyphs(args[0].text, colours), Interpret(s, i + 2, args[1..], colours, stale))
        else if c == 'u' || c == 'x' then
          if args == [] || !args[0].Number? then Failed([], BadArgument)
          else Prepend(Glyphs(ToText(args[0].value, if c == 'u' then 10 else 16), colours),
                       Interpret(s, i + 2, args[1..], colours, stale))
        else Interpret(s, i + 2, args, colours, stale)
    else if i == |s| then Failed([Glyph('\0', colours)], PastEnd)
    else Prepend([Glyph(s[i], colours)], Interpret(s, i + 1, args, colours, stale))
  }
}
