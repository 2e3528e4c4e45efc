// The console's locked entry points (kernel/arch/x86_64/console/console.cpp):
// what their prefixes and whole calls show.
module EntryPoints {
  import opened Digits
  import opened Format
  import opened FormatRoundTrip

  // ------------------------------------------------------------- formats in use

  // The locked entry points; all but PrintString put a coloured word before the
  // message and a newline after it.  Error's word is LOG, as in the source.
  datatype EntryPoint = PrintString | Info | Log | Error | Ok

  function PrefixText(e: EntryPoint): string {
    match e
    case PrintString => ""
    case Info => "C[fg,5]INFOC[r,] "
    case Log => "C[fg,6]LOGC[r,] "
    case Error => "C[fg,0]LOGC[r,] "
    case Ok => "C[fg,1]OKC[r,] "
  }

  function PrefixColour(e: EntryPoint): (n: nat)
    ensures n < PALETTE_SIZE
  {
    match e
    case Info => 5
    case Log => 6
    case Ok => 1
    case _ => 0
  }

  function PrefixWord(e: EntryPoint): string {
    match e
    case Info => "INFO"
    case Ok => "OK"
    case _ => "LOG"
  }

  function Prefix(e: EntryPoint): seq<Segment> {
    if e.PrintString? then []
    else [Segment.Style(Fore(PrefixColour(e)))] + Plain(PrefixWord(e)) + [Segment.Style(Reset), Literal(' ')]
  }

  function Suffix(e: EntryPoint): seq<Segment> {
    if e.PrintString? then [] else [Literal('\n')]
  }

  // What one call of an entry point with message gs shows.
  function Message(e: EntryPoint, gs: seq<Segment>): seq<Segment> {
    Prefix(e) + gs + Suffix(e)
  }

  lemma EncodePrefix(e: EntryPoint)
    ensures Encode(Prefix(e)) == PrefixText(e)
  {
    if !e.PrintString? {
      var tag, word := Segment.Style(Fore(PrefixColour(e))), PrefixWord(e);
      EncodeJoin([tag] + Plain(word), [Segment.Style(Reset)] + [Literal(' ')]);
      assert [Segment.Style(Reset)] + [Literal(' ')] == [Segment.Style(Reset), Literal(' ')];
      EncodeJoin([tag], Plain(word));
      EncodePlain(word);
      EncodeOne(tag);
      EncodeJoin([Segment.Style(Reset)], [Literal(' ')]);
      EncodeOne(Segment.Style(Reset));
      EncodeOne(Literal(' '));
      PrefixLetters(e);
    }
  }

  lemma PrefixLetters(e: EntryPoint)
    requires !e.PrintString?
    ensures (EncodeTag(Fore(PrefixColour(e))) + PrefixWord(e)) + (EncodeTag(Reset) + [' ']) == PrefixText(e)
  {
    ShortTags(PrefixColour(e));
    hide EncodeTag, ToText, DigitChar;
    DigitLetters();
    var head := ['C', '[', 'f', 'g', ',', DigitChar(PrefixColour(e)), ']'];
    var tail := ['C', '[', 'r', ',', ']', ' '];
    assert EncodeTag(Reset) + [' '] == tail;
    match e
    case Info => assert (head + "INFO") + tail == "C[fg,5]INFOC[r,] ";
    case Log => assert (head + "LOG") + tail == "C[fg,6]LOGC[r,] ";
    case Error => assert (head + "LOG") + tail == "C[fg,0]LOGC[r,] ";
    case Ok => assert (head + "OK") + tail == "C[fg,1]OKC[r,] ";
  }

  lemma DigitLetters()
    ensures DigitChar(0) == '0' && DigitChar(1) == '1' && DigitChar(5) == '5' && DigitChar(6) == '6'
  {
  }

  // What a prefix shows and the colours it leaves.
  function PrefixEvents(e: EntryPoint, colours: Colours): (seq<Event>, Colours) {
    if e.PrintString? then ([], colours)
    else (Glyphs(PrefixWord(e), colours.(fore := Palette(PrefixColour(e)))) + [Format.Glyph(' ', RESET_COLOURS)], RESET_COLOURS)
  }

  // The prefixes are well-placed formats, so each shows its word in its colour,
  // then a space, and leaves the default colours, whatever the colours were
  // before; PrintString has none and leaves the colours alone.
  lemma PrefixShown(e: EntryPoint, colours: Colours, stale: nat -> (char, char))
    ensures Meaning(Prefix(e), colours) == PrefixEvents(e, colours)
    ensures Interpret(PrefixText(e), 0, [], colours, stale)
         == Done(PrefixEvents(e, colours).0, PrefixEvents(e, colours).1, [])
  {
    PrefixLexical(e);
    PrefixMeaning(e, colours);
    hide Interpret, Encode, Meaning, PrefixText, Prefix, WellPlaced, Lexical, AllInPalette, PrefixEvents;
    EncodePrefix(e);
    assert ArgsOf(Prefix(e)) + [] == [];
    RoundTripIff(Prefix(e), [], colours, stale);
  }

  lemma PrefixMeaning(e: EntryPoint, colours: Colours)
    ensures Meaning(Prefix(e), colours) == PrefixEvents(e, colours)
  {
    if !e.PrintString? {
      var tag, word := Segment.Style(Fore(PrefixColour(e))), PrefixWord(e);
      var mid := colours.(fore := Palette(PrefixColour(e)));
      var end := [Segment.Style(Reset), Literal(' ')];
      assert Prefix(e) == [tag] + (Plain(word) + end);
      OneMeaning(tag, colours);
      PlainMeaning(word, mid);
      assert [' '] == TextOf(Literal(' '));
      OneMeaning(Literal(' '), RESET_COLOURS);
      OneMeaning(Segment.Style(Reset), mid);
      assert end == [Segment.Style(Reset)] + [Literal(' ')];
      hide Meaning, Palette, PrefixColour, PrefixWord;
      MeaningJoin([tag], Plain(word) + end, colours);
      MeaningJoin(Plain(word), end, mid);
      MeaningJoin([Segment.Style(Reset)], [Literal(' ')], mid);
      assert Glyphs([' '], RESET_COLOURS) == [Format.Glyph(' ', RESET_COLOURS)];
      assert forall es: seq<Event> :: [] + es == es;
    }
  }

  lemma PrefixLexical(e: EntryPoint)
    ensures Lexical(Prefix(e)) && WellPlaced(Prefix(e)) && AllInPalette(Prefix(e)) && ArgsOf(Prefix(e)) == []
  {
    PlainArgs(Prefix(e));
  }

  // ------------------------------------------------------------- whole calls

  function NewlineAfter(e: EntryPoint, colours: Colours): seq<Event> {
    if e.PrintString? then [] else [Format.Glyph('\n', colours)]
  }

  // One call of an entry point, without the lock: its prefix, the message, and
  // but for PrintString a newline.
  function CallOutcome(e: EntryPoint, s: string, args: seq<Arg>, colours: Colours,
                       stale: nat -> (char, char), stale': nat -> (char, char)): Outcome
  {
    match Interpret(PrefixText(e), 0, [], colours, stale)
    case Failed(es, fault) => Failed(es, fault)
    case Done(es, cs, _) => Prepend(es, WithNewline(e, Interpret(s, 0, args, cs, stale')))
  }

  function WithNewline(e: EntryPoint, o: Outcome): Outcome {
    match o
    case Failed(es, fault) => Failed(es, fault)
    case Done(es, cs, left) => Done(es + NewlineAfter(e, cs), cs, left)
  }

  lemma SuffixMeaning(e: EntryPoint, colours: Colours)
    ensures Meaning(Suffix(e), colours) == (NewlineAfter(e, colours), colours)
  {
    if !e.PrintString? {
      assert Suffix(e)[1..] == [];
      assert Meaning([], colours) == ([], colours);
      assert TextOf(Suffix(e)[0]) == ['\n'];
      assert Glyphs(['\n'], colours) + [] == [Format.Glyph('\n', colours)];
    }
  }

  lemma MessageMeaning(e: EntryPoint, gs: seq<Segment>, colours: Colours)
    ensures var (es, cs) := Meaning(Prefix(e), colours);
      var (fs, cs') := Meaning(gs, cs);
      Meaning(Message(e, gs), colours) == (es + (fs + NewlineAfter(e, cs')), cs')
  {
    hide Meaning, Prefix, Suffix, NewlineAfter;
    var (es, cs) := Meaning(Prefix(e), colours);
    MeaningJoin(Prefix(e) + gs, Suffix(e), colours);
    MeaningJoin(Prefix(e), gs, colours);
    SuffixMeaning(e, Meaning(gs, cs).1);
    Associate(es, Meaning(gs, cs).0, NewlineAfter(e, Meaning(gs, cs).1));
  }

  // A call of any entry point with an encoded message shows exactly what prefix,
  // message and newline mean, and takes exactly the message's arguments, if and
  // only if the message's own tags are well placed and name colours.
  lemma CallIff(e: EntryPoint, gs: seq<Segment>, rest: seq<Arg>, colours: Colours,
                stale: nat -> (char, char), stale': nat -> (char, char))
    requires Lexical(gs)
    ensures CallOutcome(e, Encode(gs), ArgsOf(gs) + rest, colours, stale, stale')
            == Done(Meaning(Message(e, gs), colours).0, Meaning(Message(e, gs), colours).1, rest)
       <==> WellPlaced(gs) && AllInPalette(gs)
  {
    hide Interpret, Encode, Meaning, PrefixText, Prefix, WellPlaced, Lexical, ArgsOf, Message, AllInPalette, PrefixEvents;
    PrefixShown(e, colours, stale);
    var (es, cs) := Meaning(Prefix(e), colours);
    RoundTripIff(gs, rest, cs, stale');
    MessageMeaning(e, gs, colours);
    var o := Interpret(Encode(gs), 0, ArgsOf(gs) + rest, cs, stale');
    var (fs, cs') := Meaning(gs, cs);
    if o.Done? && o.colours == cs' { CancelBoth(es, o.events, fs, NewlineAfter(e, cs')); }
  }

  lemma CancelBoth(a: seq<Event>, x: seq<Event>, y: seq<Event>, b: seq<Event>)
    ensures a + (x + b) == a + (y + b) <==> x == y
  {
    if a + (x + b) == a + (y + b) {
      assert |x| == |y|;
      assert x + b == (a + (x + b))[|a|..] == (a + (y + b))[|a|..] == y + b;
      assert x == (x + b)[..|x|] == (y + b)[..|x|] == y;
    }
  }

  // LateInit clears the screen with a format that is nothing but a tag: the
  // screen is cleared, but a NUL is shown and the terminator is passed.
  lemma ClearScreenOverruns(colours: Colours, stale: nat -> (char, char))
    ensures Interpret("C[c,3]", 0, [], colours, stale)
         == Failed([Cleared(Palette(3)), Format.Glyph('\0', colours.(back := Palette(3)))], PastEnd)
  {
    var gs := [Segment.Style(Clear(3))];
    EncodeOne(gs[0]);
    ClearTag();
    PlainArgs(gs);
    assert ArgsOf(gs) + [] == [];
    LoneClear(colours);
    hide Interpret, Encode, EncodeTag, Actual, ArgsOf;
    InterpretsEncoding("C[c,3]", 0, gs, [], colours, stale, false);
  }

  lemma ClearTag()
    ensures EncodeTag(Clear(3)) == "C[c,3]"
  {
    assert TagNumber(Clear(3)) == [DigitChar(3)];
  }

  lemma LoneClear(colours: Colours)
    ensures Actual([Segment.Style(Clear(3))], colours, [], false)
         == Failed([Cleared(Palette(3)), Format.Glyph('\0', colours.(back := Palette(3)))], PastEnd)
  {
    assert [Segment.Style(Clear(3))][1..] == [];
  }
}
