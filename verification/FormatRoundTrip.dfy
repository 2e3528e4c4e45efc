// Formats as lists of segments: what the interpreter prints for each list, and
// exactly when that is what the list means.
module FormatRoundTrip {
  import opened Bits
  import opened Options
  import opened Digits
  import opened Format

  type PlainChar = c: char | c != '\0' && c != '%' witness 'a'
  type UnusedLetter = c: char | c != '\0' && c != 's' && c != 'u' && c != 'x' witness 'd'

  // A tag may name any number as its colour.
  datatype Tag = Fore(n: nat) | Back(n: nat) | Clear(n: nat) | Reset

  // Skip is a '%' with a letter that takes no argument and shows nothing.
  datatype Segment =
    | Literal(c: PlainChar)
    | PutText(text: string)
    | PutNumber(value: u64)
    | PutHex(value: u64)
    | Skip(letter: UnusedLetter)
    | Style(tag: Tag)

  // ------------------------------------------------------------- encoding

  function TagHead(tag: Tag): (s: string)
    ensures 4 <= |s| <= 5 && s[0] == 'C' && s[1] == '['
  {
    match tag
    case Fore(_) => ['C', '[', 'f', 'g', ',']
    case Back(_) => ['C', '[', 'b', 'g', ',']
    case Clear(_) => ['C', '[', 'c', ',']
    case Reset => ['C', '[', 'r', ',']
  }

  function TagNumber(tag: Tag): string {
    if tag.Reset? then [] else ToText(tag.n, 10)
  }

  function EncodeTag(tag: Tag): (s: string)
    ensures |s| >= 5 && s[0] == 'C' && s[1] == '['
  {
    TagHead(tag) + TagNumber(tag) + [']']
  }

  // No literal spells the start of a tag.
  predicate Lexical(gs: seq<Segment>) {
    forall k :: 0 <= k < |gs| - 1 ==> !(gs[k] == Literal('C') && gs[k + 1] == Literal('['))
  }

  function EncodeSegment(g: Segment): (s: string)
    ensures |s| > 0
  {
    match g
    case Literal(c) => [c]
    case PutText(_) => "%s"
    case PutNumber(_) => "%u"
    case PutHex(_) => "%x"
    case Skip(c) => ['%', c]
    case Style(tag) => EncodeTag(tag)
  }

  function Encode(gs: seq<Segment>): string
  {
    if gs == [] then [] else EncodeSegment(gs[0]) + Encode(gs[1..])
  }

  function ArgOf(g: Segment): seq<Arg> {
    match g
    case PutText(text) => [Text(text)]
    case PutNumber(v) => [Number(v)]
    case PutHex(v) => [Number(v)]
    case _ => []
  }

  function ArgsOf(gs: seq<Segment>): seq<Arg> {
    if gs == [] then [] else ArgOf(gs[0]) + ArgsOf(gs[1..])
  }

  // ------------------------------------------------------------- meaning

  // The colour number as the source's 64-bit arithmetic reads it.
  function ColourIndex(n: nat): nat { n % U64_LIMIT }

  predicate InPalette(tag: Tag) {
    tag.Reset? || ColourIndex(tag.n) < PALETTE_SIZE
  }

  // A number that names no colour changes nothing.
  function ApplyTag(tag: Tag, colours: Colours): Colours
  {
    if !InPalette(tag) then colours
    else match tag
      case Fore(n) => colours.(fore := Palette(ColourIndex(n)))
      case Back(n) => colours.(back := Palette(ColourIndex(n)))
      case Clear(n) => colours.(back := Palette(ColourIndex(n)))
      case Reset => RESET_COLOURS
  }

  function TagEvents(tag: Tag): seq<Event>
  {
    if tag.Clear? && InPalette(tag) then [Cleared(Palette(ColourIndex(tag.n)))] else []
  }

  // The text of a segment that is not a tag.
  function TextOf(g: Segment): string
    requires !g.Style?
  {
    match g
    case Literal(c) => [c]
    case PutText(text) => text
    case PutNumber(v) => ToText(v, 10)
    case PutHex(v) => ToText(v, 16)
    case Skip(_) => []
  }

  // What the list means: every tag takes effect, every other segment shows its
  // text in the colours in force.
  function Meaning(gs: seq<Segment>, colours: Colours): (seq<Event>, Colours)
  {
    if gs == [] then ([], colours)
    else if gs[0].Style? then
      var (es, final) := Meaning(gs[1..], ApplyTag(gs[0].tag, colours));
      (TagEvents(gs[0].tag) + es, final)
    else
      var (es, final) := Meaning(gs[1..], colours);
      (Glyphs(TextOf(gs[0]), colours) + es, final)
  }

  // What the interpreter does: after a tag it looks for a conversion or a
  // character, not for another tag or the end.  A tag right after a tag is
  // shown as text; a tag at the end makes it show the NUL and read on; a colour
  // outside the palette is read past its end.
  function Actual(gs: seq<Segment>, colours: Colours, rest: seq<Arg>, afterTag: bool): Outcome
  {
    if gs == [] then
      if afterTag then Failed([Format.Glyph('\0', colours)], PastEnd) else Done([], colours, rest)
    else if Overruns(gs[0], afterTag) then Failed([], ColourOverrun)
    else
      var (es, colours', afterTag') := Turn(gs[0], colours, afterTag);
      Prepend(es, Actual(gs[1..], colours', rest, afterTag'))
  }

  predicate Overruns(g: Segment, afterTag: bool) {
    g.Style? && !afterTag && !InPalette(g.tag)
  }

  // One segment's events, the colours after it, and whether it was taken as a tag.
  function Turn(g: Segment, colours: Colours, afterTag: bool): (seq<Event>, Colours, bool) {
    if g.Style? && !afterTag then (TagEvents(g.tag), ApplyTag(g.tag, colours), true)
    else if g.Style? then (Glyphs(EncodeTag(g.tag), colours), colours, false)
    else (Glyphs(TextOf(g), colours), colours, false)
  }

  // ------------------------------------------------------------- interpretation

  // s holds t from position i on.
  predicate Holds(s: string, i: nat, t: string) {
    i + |t| == |s| && s[i..] == t
  }

  lemma PrependPrepend(a: seq<Event>, b: seq<Event>, o: Outcome)
    ensures Prepend(a, Prepend(b, o)) == Prepend(a + b, o)
  {
    match o
    case Done(es, _, _) => assert a + (b + es) == (a + b) + es;
    case Failed(es, _) => assert a + (b + es) == (a + b) + es;
  }

  lemma PrependNothing(o: Outcome)
    ensures Prepend([], o) == o
  {
    match o
    case Done(es, _, _) => assert [] + es == es;
    case Failed(es, _) => assert [] + es == es;
  }

  // Plain characters are shown one by one.
  lemma {:induction false} ShowsPlain(s: string, i: nat, n: nat, args: seq<Arg>, colours: Colours, stale: nat -> (char, char))
    requires i + n <= |s|
    requires forall k :: i <= k < i + n ==> s[k] != '%' && !(s[k] == 'C' && At(s, k + 1) == '[')
    ensures Interpret(s, i, args, colours, stale)
         == Prepend(Glyphs(s[i..i + n], colours), Interpret(s, i + n, args, colours, stale))
    decreases n
  {
    if n == 0 {
      assert Glyphs(s[i..i], colours) == [];
      PrependNothing(Interpret(s, i, args, colours, stale));
    } else {
      ShowsPlain(s, i + 1, n - 1, args, colours, stale);
      assert Interpret(s, i, args, colours, stale) == AfterTagCheck(s, i, args, colours, stale);
      PrependPrepend([Format.Glyph(s[i], colours)], Glyphs(s[i + 1..i + n], colours), Interpret(s, i + n, args, colours, stale));
      assert [Format.Glyph(s[i], colours)] + Glyphs(s[i + 1..i + n], colours) == Glyphs(s[i..i + n], colours);
    }
  }

  lemma {:induction false} FindAt(s: string, i: nat, stop: char, j: nat)
    requires i <= j < |s| && s[j] == stop && forall k :: i <= k < j ==> s[k] != stop
    ensures Find(s, i, stop) == j
    decreases j - i
  {
    if i < j { FindAt(s, i + 1, stop, j); }
  }

  // A well-formed tag does what it means, whatever the type buffer held, or
  // reads past the palette.
  lemma ParsesTag(s: string, i: nat, tag: Tag, colours: Colours, stale: (char, char))
    requires i + |EncodeTag(tag)| <= |s| && s[i..i + |EncodeTag(tag)|] == EncodeTag(tag)
    ensures ParseStyling(s, i, colours, stale) ==
      if !InPalette(tag) then BadStyle(ColourOverrun)
      else Format.Style(i + |EncodeTag(tag)|, ApplyTag(tag, colours),
                        if tag.Clear? then Some(Palette(ColourIndex(tag.n))) else None)
  {
    hide ToText, ColourValue, Find, EncodeTag;
    ScansTag(s, i, tag);
  }

  // What the scanning loops find in a well-formed tag.
  lemma ScansTag(s: string, i: nat, tag: Tag)
    requires i + |EncodeTag(tag)| <= |s| && s[i..i + |EncodeTag(tag)|] == EncodeTag(tag)
    ensures var comma, close := i + |TagHead(tag)| - 1, i + |EncodeTag(tag)| - 1;
      && i + 3 <= comma < close && Find(s, i + 2, ',') == comma && Find(s, comma, ']') == close
      && (forall j :: i <= j < comma ==> s[j] == TagHead(tag)[j - i])
      && (!tag.Reset? ==> ColourValue(s, comma, close) == ColourIndex(tag.n))
  {
    hide ToText, ColourValue, Find, EncodeTag;
    var comma, close := i + |TagHead(tag)| - 1, i + |EncodeTag(tag)| - 1;
    Copied(s, i, EncodeTag(tag));
    TagLetters(s, i, tag);
    FindAt(s, i + 2, ',', comma);
    FindAt(s, comma, ']', close);
    if !tag.Reset? { TagColour(s, comma, close, tag.n); }
  }

  // Where the letters, the comma, the number and the bracket of a tag are.
  lemma TagLetters(s: string, i: nat, tag: Tag)
    requires i + |EncodeTag(tag)| <= |s|
    requires forall j :: i <= j < i + |EncodeTag(tag)| ==> s[j] == EncodeTag(tag)[j - i]
    ensures var h, n := |TagHead(tag)|, |EncodeTag(tag)|;
      && n == h + |TagNumber(tag)| + 1 && s[i + n - 1] == ']'
      && (forall j :: i <= j < i + h ==> s[j] == TagHead(tag)[j - i])
      && s[i + h..i + n - 1] == TagNumber(tag)
      && (forall j :: i + h <= j < i + n - 1 ==> '0' <= s[j] <= '9')
  {
    hide ToText;
    if !tag.Reset? { DecimalDigits(tag.n); }
    var h, n := |TagHead(tag)|, |EncodeTag(tag)|;
    assert forall j :: i + h <= j < i + n - 1 ==> s[j] == TagNumber(tag)[j - i - h];
  }

  lemma Copied(s: string, i: nat, t: string)
    requires i + |t| <= |s| && s[i..i + |t|] == t
    ensures forall j :: i <= j < i + |t| ==> s[j] == t[j - i]
  {
    forall j | i <= j < i + |t| ensures s[j] == t[j - i] {
      assert s[i..i + |t|][j - i] == s[j];
    }
  }

  // The scan reads a decimal number, modulo 2^64.
  lemma TagColour(s: string, comma: nat, end: nat, n: nat)
    requires comma < end <= |s| && s[comma] == ',' && s[comma + 1..end] == ToText(n, 10)
    ensures ColourValue(s, comma, end) == ColourIndex(n)
  {
    assert ColourValue(s, comma, comma + 1) == 0 by { assert ColourValue(s, comma, comma) == 0; }
    ReadsNumber(s, comma, comma + 1, n);
  }

  lemma {:induction false} ReadsNumber(s: string, from: nat, i: nat, n: nat)
    requires from <= i <= |s| && ColourValue(s, from, i) == 0
    requires i + |ToText(n, 10)| <= |s| && s[i..i + |ToText(n, 10)|] == ToText(n, 10)
    ensures ColourValue(s, from, i + |ToText(n, 10)|) == ColourIndex(n)
  {
    var k := i + |ToText(n, 10)|;
    assert s[k - 1] == s[i..k][k - 1 - i];
    if n >= 10 {
      assert s[i..k - 1] == s[i..k][..k - 1 - i] == ToText(n / 10, 10);
      ReadsNumber(s, from, i, n / 10);
      NextDigit(n);
    }
  }

  lemma NextDigit(n: nat)
    ensures (ColourIndex(n / 10) * 10 + n % 10) % U64_LIMIT == ColourIndex(n)
  {
    var q := n / 10 / U64_LIMIT;
    assert n / 10 == U64_LIMIT * q + ColourIndex(n / 10);
    assert n == U64_LIMIT * (10 * q) + (ColourIndex(n / 10) * 10 + n % 10);
    ModUnique10(n, 10 * q, ColourIndex(n / 10) * 10 + n % 10);
  }

  lemma ModUnique10(n: nat, q: nat, r: nat)
    requires n == U64_LIMIT * q + r
    ensures n % U64_LIMIT == r % U64_LIMIT
  {
  }

  // One segment that is not a tag, from inside or outside the tag check.
  lemma InterpretsSegment(s: string, i: nat, g: Segment, tail: string, args: seq<Arg>, colours: Colours, stale: nat -> (char, char))
    requires !g.Style? && Holds(s, i, EncodeSegment(g) + tail)
    ensures i + |EncodeSegment(g)| <= |s|
    ensures AfterTagCheck(s, i, ArgOf(g) + args, colours, stale)
         == Prepend(Glyphs(TextOf(g), colours), Interpret(s, i + |EncodeSegment(g)|, args, colours, stale))
  {
    var t := EncodeSegment(g);
    HoldsTail(s, i, t, tail);
    Copied(s, i, t);
    if g.Skip? {
      PrependNothing(Interpret(s, i + 2, args, colours, stale));
      assert Glyphs(TextOf(g), colours) == [];
      assert ArgOf(g) + args == args;
    } else if g.Literal? {
      assert ArgOf(g) + args == args;
      assert Glyphs(TextOf(g), colours) == [Format.Glyph(g.c, colours)];
    } else {
      assert (ArgOf(g) + args)[1..] == args;
    }
  }

  lemma HoldsTail(s: string, i: nat, t: string, u: string)
    requires Holds(s, i, t + u)
    ensures Holds(s, i + |t|, u) && s[i..i + |t|] == t
  {
    assert s[i..][..|t|] == t && s[i..][|t|..] == u;
    assert s[i..][|t|..] == s[i + |t|..];
  }

  lemma LexicalTail(gs: seq<Segment>)
    requires Lexical(gs) && gs != []
    ensures Lexical(gs[1..])
  {
    var rest := gs[1..];
    forall k | 0 <= k < |rest| - 1 ensures !(rest[k] == Literal('C') && rest[k + 1] == Literal('[')) {
      assert rest[k] == gs[k + 1] && rest[k + 1] == gs[k + 2];
    }
  }

  // The literal 'C' is never followed by '[' in an encoding.
  lemma NoTagStart(gs: seq<Segment>)
    requires Lexical(gs) && gs != [] && !gs[0].Style?
    ensures !(EncodeSegment(gs[0])[0] == 'C' && |Encode(gs)| > 1 && Encode(gs)[1] == '[')
  {
    if gs[0] == Literal('C') && |gs| > 1 {
      assert gs[0 + 1] != Literal('[');
      assert Encode(gs)[1] == Encode(gs[1..])[0] == EncodeSegment(gs[1])[0];
    }
  }

  // The interpreter at position i, before or after its tag check.
  function From(s: string, i: nat, args: seq<Arg>, colours: Colours, stale: nat -> (char, char), afterTag: bool): Outcome
    requires i <= |s|
  {
    if afterTag then AfterTagCheck(s, i, args, colours, stale) else Interpret(s, i, args, colours, stale)
  }

  // The interpreter once segment g, taken as Turn says, is behind it.
  function AfterTurn(s: string, i: nat, g: Segment, args: seq<Arg>, colours: Colours, stale: nat -> (char, char), afterTag: bool): Outcome
    requires i <= |s|
  {
    if Overruns(g, afterTag) then Failed([], ColourOverrun)
    else
      var (es, colours', afterTag') := Turn(g, colours, afterTag);
      Prepend(es, From(s, i, args, colours', stale, afterTag'))
  }

  // One segment takes the interpreter to the next.
  lemma OneSegment(s: string, i: nat, gs: seq<Segment>, args: seq<Arg>, colours: Colours, stale: nat -> (char, char), afterTag: bool)
    requires Lexical(gs) && gs != [] && Holds(s, i, Encode(gs))
    ensures i + |EncodeSegment(gs[0])| <= |s|
    ensures From(s, i, ArgOf(gs[0]) + args, colours, stale, afterTag)
         == AfterTurn(s, i + |EncodeSegment(gs[0])|, gs[0], args, colours, stale, afterTag)
  {
    hide *;
    if gs[0].Style? {
      HoldsFirst(s, i, gs);
      OneStyle(s, i, gs[0], args, colours, stale, afterTag);
    } else {
      OneText(s, i, gs, args, colours, stale, afterTag);
    }
  }

  lemma OneStyle(s: string, i: nat, g: Segment, args: seq<Arg>, colours: Colours, stale: nat -> (char, char), afterTag: bool)
    requires g.Style? && i + |EncodeSegment(g)| <= |s| && s[i..i + |EncodeSegment(g)|] == EncodeSegment(g)
    ensures From(s, i, ArgOf(g) + args, colours, stale, afterTag)
         == AfterTurn(s, i + |EncodeSegment(g)|, g, args, colours, stale, afterTag)
  {
    hide From, AfterTurn, EncodeTag;
    assert ArgOf(g) + args == args;
    OneTag(s, i, g.tag, args, colours, stale, afterTag);
  }

  lemma HoldsFirst(s: string, i: nat, gs: seq<Segment>)
    requires gs != [] && Holds(s, i, Encode(gs))
    ensures i + |EncodeSegment(gs[0])| <= |s| && s[i..i + |EncodeSegment(gs[0])|] == EncodeSegment(gs[0])
  {
    HoldsTail(s, i, EncodeSegment(gs[0]), Encode(gs[1..]));
  }

  lemma OneText(s: string, i: nat, gs: seq<Segment>, args: seq<Arg>, colours: Colours, stale: nat -> (char, char), afterTag: bool)
    requires Lexical(gs) && gs != [] && !gs[0].Style? && Holds(s, i, Encode(gs))
    ensures i + |EncodeSegment(gs[0])| <= |s|
    ensures From(s, i, ArgOf(gs[0]) + args, colours, stale, afterTag)
         == AfterTurn(s, i + |EncodeSegment(gs[0])|, gs[0], args, colours, stale, afterTag)
  {
    hide Interpret, AfterTagCheck, ArgOf, TextOf, EncodeSegment;
    InterpretsSegment(s, i, gs[0], Encode(gs[1..]), args, colours, stale);
    if !afterTag { OutsideTag(s, i, gs, ArgOf(gs[0]) + args, colours, stale); }
  }

  lemma ArgsFirst(gs: seq<Segment>, rest: seq<Arg>)
    requires gs != []
    ensures ArgsOf(gs) + rest == ArgOf(gs[0]) + (ArgsOf(gs[1..]) + rest)
  {
  }

  lemma OneTag(s: string, i: nat, tag: Tag, args: seq<Arg>, colours: Colours, stale: nat -> (char, char), afterTag: bool)
    requires i + |EncodeTag(tag)| <= |s| && s[i..i + |EncodeTag(tag)|] == EncodeTag(tag)
    ensures From(s, i, args, colours, stale, afterTag)
         == AfterTurn(s, i + |EncodeTag(tag)|, Segment.Style(tag), args, colours, stale, afterTag)
  {
    hide Interpret, AfterTagCheck;
    if afterTag {
      ShowsTag(s, i, tag, args, colours, stale);
    } else {
      InterpretsTag(s, i, tag, args, colours, stale);
    }
  }

  // The interpreter on any list of segments.
  lemma {:induction false} InterpretsEncoding(s: string, i: nat, gs: seq<Segment>, rest: seq<Arg>, colours: Colours, stale: nat -> (char, char), afterTag: bool)
    requires Lexical(gs) && i <= |s| && Holds(s, i, Encode(gs))
    ensures From(s, i, ArgsOf(gs) + rest, colours, stale, afterTag) == Actual(gs, colours, rest, afterTag)
    decreases |gs|
  {
    hide From, Turn, Encode, ArgsOf, Actual, EncodeSegment, Holds, Prepend;
    if gs == [] {
      InterpretsNothing(s, i, rest, colours, stale, afterTag);
    } else {
      var (es, colours', afterTag') := Turn(gs[0], colours, afterTag);
      ArgsFirst(gs, rest);
      OneSegment(s, i, gs, ArgsOf(gs[1..]) + rest, colours, stale, afterTag);
      LexicalTail(gs);
      HoldsRest(s, i, gs);
      InterpretsEncoding(s, i + |EncodeSegment(gs[0])|, gs[1..], rest, colours', stale, afterTag');
      ActualFirst(gs, colours, rest, afterTag);
    }
  }

  lemma InterpretsNothing(s: string, i: nat, rest: seq<Arg>, colours: Colours, stale: nat -> (char, char), afterTag: bool)
    requires Holds(s, i, Encode([]))
    ensures From(s, i, ArgsOf([]) + rest, colours, stale, afterTag) == Actual([], colours, rest, afterTag)
  {
    assert ArgsOf([]) + rest == rest;
  }

  lemma HoldsRest(s: string, i: nat, gs: seq<Segment>)
    requires gs != [] && Holds(s, i, Encode(gs))
    ensures i + |EncodeSegment(gs[0])| <= |s| && Holds(s, i + |EncodeSegment(gs[0])|, Encode(gs[1..]))
  {
    EncodeFirst(gs);
    hide Encode, EncodeSegment;
    HoldsTail(s, i, EncodeSegment(gs[0]), Encode(gs[1..]));
  }

  lemma ActualFirst(gs: seq<Segment>, colours: Colours, rest: seq<Arg>, afterTag: bool)
    requires gs != []
    ensures var (es, colours', afterTag') := Turn(gs[0], colours, afterTag);
      Actual(gs, colours, rest, afterTag)
      == if Overruns(gs[0], afterTag) then Failed([], ColourOverrun)
         else Prepend(es, Actual(gs[1..], colours', rest, afterTag'))
  {
  }

  // A tag the tag check sees takes effect and leaves the interpreter after it,
  // or reads past the palette.
  lemma InterpretsTag(s: string, i: nat, tag: Tag, args: seq<Arg>, colours: Colours, stale: nat -> (char, char))
    requires i + |EncodeTag(tag)| <= |s| && s[i..i + |EncodeTag(tag)|] == EncodeTag(tag)
    ensures Interpret(s, i, args, colours, stale)
         == if !InPalette(tag) then Failed([], ColourOverrun)
            else Prepend(TagEvents(tag), AfterTagCheck(s, i + |EncodeTag(tag)|, args, ApplyTag(tag, colours), stale))
  {
    hide AfterTagCheck, EncodeTag, Format.ParseStyling, ToText;
    Copied(s, i, EncodeTag(tag));
    ParsesTag(s, i, tag, colours, stale(i));
    assert s[i] == 'C' && s[i + 1] == '[';
  }

  lemma OutsideTag(s: string, i: nat, gs: seq<Segment>, args: seq<Arg>, colours: Colours, stale: nat -> (char, char))
    requires Lexical(gs) && gs != [] && !gs[0].Style? && Holds(s, i, Encode(gs))
    ensures Interpret(s, i, args, colours, stale) == AfterTagCheck(s, i, args, colours, stale)
  {
    NoTagStart(gs);
    assert s[i] == s[i..][0] == Encode(gs)[0] == EncodeSegment(gs[0])[0];
    if i + 1 < |s| { assert s[i + 1] == s[i..][1] == Encode(gs)[1]; }
  }

  // Behind its first letter a tag holds no '%' and starts no tag.
  lemma PlainTag(s: string, i: nat, tag: Tag)
    requires i + |EncodeTag(tag)| <= |s|
    requires forall j :: i <= j < i + |EncodeTag(tag)| ==> s[j] == EncodeTag(tag)[j - i]
    ensures forall k :: i < k < i + |EncodeTag(tag)| ==> s[k] != '%' && s[k] != 'C'
  {
    hide EncodeTag, ToText;
    TagLetters(s, i, tag);
  }

  // A tag that the tag check misses is shown letter by letter.
  lemma ShowsTag(s: string, i: nat, tag: Tag, args: seq<Arg>, colours: Colours, stale: nat -> (char, char))
    requires i + |EncodeTag(tag)| <= |s| && s[i..i + |EncodeTag(tag)|] == EncodeTag(tag)
    ensures AfterTagCheck(s, i, args, colours, stale)
         == Prepend(Glyphs(EncodeTag(tag), colours), Interpret(s, i + |EncodeTag(tag)|, args, colours, stale))
  {
    var t := EncodeTag(tag);
    var n := |t|;
    hide EncodeTag, ToText, Find, Interpret;
    Copied(s, i, t);
    PlainTag(s, i, tag);
    ShowsPlain(s, i + 1, n - 1, args, colours, stale);
    PrependPrepend([Format.Glyph('C', colours)], Glyphs(s[i + 1..i + n], colours), Interpret(s, i + n, args, colours, stale));
    assert s[i + 1..i + n] == t[1..];
    GlyphsFirst(t, colours);
  }

  lemma GlyphsFirst(t: string, colours: Colours)
    requires t != []
    ensures [Format.Glyph(t[0], colours)] + Glyphs(t[1..], colours) == Glyphs(t, colours)
  {
  }

  // ------------------------------------------------------------- the round trip

  // No tag is last or directly followed by a tag.
  predicate WellPlaced(gs: seq<Segment>) {
    forall k :: 0 <= k < |gs| && gs[k].Style? ==> k + 1 < |gs| && !gs[k + 1].Style?
  }

  // Every tag's number names a colour.
  predicate AllInPalette(gs: seq<Segment>) {
    forall k :: 0 <= k < |gs| && gs[k].Style? ==> InPalette(gs[k].tag)
  }

  // Printing an encoded list shows exactly what the list means and takes exactly
  // its arguments, if and only if its tags are well placed and all their numbers
  // name colours.
  lemma RoundTripIff(gs: seq<Segment>, rest: seq<Arg>, colours: Colours, stale: nat -> (char, char))
    requires Lexical(gs)
    ensures Interpret(Encode(gs), 0, ArgsOf(gs) + rest, colours, stale)
            == Done(Meaning(gs, colours).0, Meaning(gs, colours).1, rest)
       <==> WellPlaced(gs) && AllInPalette(gs)
  {
    InterpretsEncoding(Encode(gs), 0, gs, rest, colours, stale, false);
    if WellPlaced(gs) && AllInPalette(gs) {
      ActualIsMeaning(gs, colours, rest, false);
    } else {
      ActualDiffers(gs, colours, rest, false);
    }
  }

  lemma WellPlacedTail(gs: seq<Segment>)
    requires gs != [] && WellPlaced(gs)
    ensures WellPlaced(gs[1..])
    ensures gs[0].Style? ==> gs[1..] != [] && !gs[1..][0].Style?
  {
    forall k | 0 <= k < |gs[1..]| && gs[1..][k].Style? ensures k + 1 < |gs[1..]| && !gs[1..][k + 1].Style? {
      assert gs[k + 1].Style?;
    }
  }

  lemma {:induction false} ActualIsMeaning(gs: seq<Segment>, colours: Colours, rest: seq<Arg>, afterTag: bool)
    requires WellPlaced(gs) && AllInPalette(gs) && (afterTag ==> gs != [] && !gs[0].Style?)
    ensures Actual(gs, colours, rest, afterTag) == Done(Meaning(gs, colours).0, Meaning(gs, colours).1, rest)
    decreases |gs|
  {
    if gs != [] {
      WellPlacedTail(gs);
      PaletteTail(gs);
      if gs[0].Style? {
        ActualIsMeaning(gs[1..], ApplyTag(gs[0].tag, colours), rest, true);
      } else {
        ActualIsMeaning(gs[1..], colours, rest, false);
      }
    }
  }

  // A misplaced tag, or one that names no colour, either reads out of bounds or
  // makes too many characters show.
  lemma {:induction false} ActualDiffers(gs: seq<Segment>, colours: Colours, rest: seq<Arg>, afterTag: bool)
    ensures Actual(gs, colours, rest, afterTag).Done? ==>
      GlyphCount(Actual(gs, colours, rest, afterTag).events) >= GlyphCount(Meaning(gs, colours).0)
    ensures Actual(gs, colours, rest, afterTag).Done? &&
            (!WellPlaced(gs) || !AllInPalette(gs) || (afterTag && (gs == [] || gs[0].Style?))) ==>
      GlyphCount(Actual(gs, colours, rest, afterTag).events) > GlyphCount(Meaning(gs, colours).0)
    decreases |gs|
  {
    if gs != [] {
      var rest' := gs[1..];
      if Overruns(gs[0], afterTag) {
      } else if gs[0].Style? && !afterTag {
        ActualDiffers(rest', ApplyTag(gs[0].tag, colours), rest, true);
        CountAppend(TagEvents(gs[0].tag), Meaning(rest', ApplyTag(gs[0].tag, colours)).0);
        CountPrepend(TagEvents(gs[0].tag), Actual(rest', ApplyTag(gs[0].tag, colours), rest, true));
      } else if gs[0].Style? {
        ActualDiffers(rest', colours, rest, false);
        MeaningCount(rest', ApplyTag(gs[0].tag, colours), colours);
        CountAppend(TagEvents(gs[0].tag), Meaning(rest', ApplyTag(gs[0].tag, colours)).0);
        CountPrepend(Glyphs(EncodeTag(gs[0].tag), colours), Actual(rest', colours, rest, false));
        CountGlyphs(EncodeTag(gs[0].tag), colours);
      } else {
        ActualDiffers(rest', colours, rest, false);
        CountAppend(Glyphs(TextOf(gs[0]), colours), Meaning(rest', colours).0);
        CountPrepend(Glyphs(TextOf(gs[0]), colours), Actual(rest', colours, rest, false));
      }
      if !WellPlaced(gs) { MisplacedTail(gs); }
      if !AllInPalette(gs) { assert AllInPalette(rest') ==> !InPalette(gs[0].tag) by { PaletteTail(gs); } }
    }
  }

  lemma PaletteTail(gs: seq<Segment>)
    requires gs != []
    ensures AllInPalette(gs) <==> AllInPalette(gs[1..]) && (gs[0].Style? ==> InPalette(gs[0].tag))
  {
    assert forall k :: 1 <= k < |gs| ==> gs[k] == gs[1..][k - 1];
    assert forall k :: 0 <= k < |gs[1..]| ==> gs[1..][k] == gs[k + 1];
  }

  lemma MisplacedTail(gs: seq<Segment>)
    requires gs != [] && !WellPlaced(gs)
    ensures !WellPlaced(gs[1..]) || (gs[0].Style? && (gs[1..] == [] || gs[1..][0].Style?))
  {
    var k :| 0 <= k < |gs| && gs[k].Style? && !(k + 1 < |gs| && !gs[k + 1].Style?);
    if k > 0 {
      assert gs[1..][k - 1].Style?;
    }
  }

  function GlyphCount(es: seq<Event>): nat {
    if es == [] then 0 else (if es[0].Glyph? then 1 else 0) + GlyphCount(es[1..])
  }

  lemma {:induction false} CountAppend(a: seq<Event>, b: seq<Event>)
    ensures GlyphCount(a + b) == GlyphCount(a) + GlyphCount(b)
  {
    if a == [] {
      assert a + b == b;
    } else {
      CountAppend(a[1..], b);
      assert (a + b)[1..] == a[1..] + b;
    }
  }

  lemma CountPrepend(a: seq<Event>, o: Outcome)
    ensures GlyphCount(Prepend(a, o).events) == GlyphCount(a) + GlyphCount(o.events)
  {
    CountAppend(a, o.events);
  }

  lemma {:induction false} CountGlyphs(s: string, colours: Colours)
    ensures GlyphCount(Glyphs(s, colours)) == |s|
  {
    if s != [] {
      CountGlyphs(s[1..], colours);
      assert Glyphs(s, colours)[1..] == Glyphs(s[1..], colours);
    }
  }

  // The number of characters a list means does not depend on the colours.
  lemma {:induction false} MeaningCount(gs: seq<Segment>, c1: Colours, c2: Colours)
    ensures GlyphCount(Meaning(gs, c1).0) == GlyphCount(Meaning(gs, c2).0)
    decreases |gs|
  {
    if gs != [] {
      if gs[0].Style? {
        var d1, d2 := ApplyTag(gs[0].tag, c1), ApplyTag(gs[0].tag, c2);
        MeaningCount(gs[1..], d1, d2);
        CountAppend(TagEvents(gs[0].tag), Meaning(gs[1..], d1).0);
        CountAppend(TagEvents(gs[0].tag), Meaning(gs[1..], d2).0);
      } else {
        MeaningCount(gs[1..], c1, c2);
        var t := TextOf(gs[0]);
        CountAppend(Glyphs(t, c1), Meaning(gs[1..], c1).0);
        CountAppend(Glyphs(t, c2), Meaning(gs[1..], c2).0);
        CountGlyphs(t, c1);
        CountGlyphs(t, c2);
      }
    }
  }

  // ------------------------------------------------------------- joined lists

  function Plain(s: string): (gs: seq<Segment>)
    requires forall i :: 0 <= i < |s| ==> s[i] != '\0' && s[i] != '%'
    ensures |gs| == |s|
  {
    seq(|s|, i requires 0 <= i < |s| => Literal(s[i]))
  }

  lemma {:induction false} EncodeJoin(a: seq<Segment>, b: seq<Segment>)
    ensures Encode(a + b) == Encode(a) + Encode(b)
  {
    hide Encode, EncodeSegment;
    if a == [] {
      JoinNothing(b);
    } else {
      EncodeJoin(a[1..], b);
      JoinFirst(a, b);
      EncodeFirst(a);
      EncodeFirst(a + b);
      Associate(EncodeSegment(a[0]), Encode(a[1..]), Encode(b));
    }
  }

  lemma JoinNothing(b: seq<Segment>)
    ensures Encode([] + b) == Encode([]) + Encode(b)
  {
    assert [] + b == b;
    assert Encode([]) + Encode(b) == Encode(b);
  }

  lemma JoinFirst(a: seq<Segment>, b: seq<Segment>)
    requires a != []
    ensures a + b != [] && (a + b)[0] == a[0] && (a + b)[1..] == a[1..] + b
  {
  }

  lemma EncodeFirst(gs: seq<Segment>)
    requires gs != []
    ensures Encode(gs) == EncodeSegment(gs[0]) + Encode(gs[1..])
  {
  }

  lemma Associate<T>(a: seq<T>, b: seq<T>, c: seq<T>)
    ensures (a + b) + c == a + (b + c)
  {
  }

  lemma EncodeOne(g: Segment)
    ensures Encode([g]) == EncodeSegment(g)
  {
    assert [g][1..] == [];
    assert EncodeSegment(g) + [] == EncodeSegment(g);
  }

  lemma {:induction false} EncodePlain(s: string)
    requires forall i :: 0 <= i < |s| ==> s[i] != '\0' && s[i] != '%'
    ensures Encode(Plain(s)) == s
  {
    if s != [] {
      EncodePlain(s[1..]);
      assert Plain(s)[1..] == Plain(s[1..]);
    }
  }

  lemma OneMeaning(g: Segment, colours: Colours)
    ensures Meaning([g], colours) == if g.Style? then (TagEvents(g.tag), ApplyTag(g.tag, colours))
                                     else (Glyphs(TextOf(g), colours), colours)
  {
    assert [g][1..] == [];
    var es := if g.Style? then TagEvents(g.tag) else Glyphs(TextOf(g), colours);
    assert es + [] == es;
  }

  lemma {:induction false} PlainMeaning(s: string, colours: Colours)
    requires forall i :: 0 <= i < |s| ==> s[i] != '\0' && s[i] != '%'
    ensures Meaning(Plain(s), colours) == (Glyphs(s, colours), colours)
  {
    if s != [] {
      PlainMeaning(s[1..], colours);
      assert Plain(s)[1..] == Plain(s[1..]);
      assert TextOf(Plain(s)[0]) == [s[0]];
      assert Glyphs(s, colours) == Glyphs([s[0]], colours) + Glyphs(s[1..], colours);
    }
  }

  lemma {:induction false} PlainArgs(gs: seq<Segment>)
    requires forall k :: 0 <= k < |gs| ==> gs[k].Literal? || gs[k].Style?
    ensures ArgsOf(gs) == []
  {
    if gs != [] { PlainArgs(gs[1..]); }
  }

  // A joined list means the first part, then the second in the colours the
  // first leaves.
  lemma {:induction false} MeaningJoin(a: seq<Segment>, b: seq<Segment>, colours: Colours)
    ensures Meaning(a + b, colours).0 == Meaning(a, colours).0 + Meaning(b, Meaning(a, colours).1).0
    ensures Meaning(a + b, colours).1 == Meaning(b, Meaning(a, colours).1).1
    decreases |a|
  {
    if a == [] {
      assert a + b == b;
    } else {
      JoinFirst(a, b);
      MeaningJoin(a[1..], b, if a[0].Style? then ApplyTag(a[0].tag, colours) else colours);
    }
  }

  // ------------------------------------------------------------- tags that overrun

  lemma ShortTags(n: nat)
    requires n < 10
    ensures EncodeTag(Fore(n)) == ['C', '[', 'f', 'g', ',', DigitChar(n), ']']
    ensures EncodeTag(Reset) == ['C', '[', 'r', ',', ']']
  {
    assert TagNumber(Fore(n)) == [DigitChar(n)];
  }

  // A tag stores past its two-letter buffer exactly when none of its first three
  // characters is a comma or the end of the text.
  lemma TypeOverrunIff(s: string, i: nat, colours: Colours, stale: (char, char))
    requires i + 2 <= |s|
    ensures ParseStyling(s, i, colours, stale) == BadStyle(TypeOverrun)
       <==> i + 5 <= |s| && forall k :: i + 2 <= k < i + 5 ==> s[k] != ','
  {
    var e := Find(s, i + 2, ',');
    FindSkips(s, i + 2, ',');
    if e > i + 4 {
      assert forall k :: i + 2 <= k < e ==> s[k] != ',';
    } else {
      assert e == |s| || s[e] == ',';
    }
  }

  lemma {:induction false} FindSkips(s: string, i: nat, stop: char)
    requires i <= |s|
    ensures forall k :: i <= k < Find(s, i, stop) ==> s[k] != stop
    ensures Find(s, i, stop) < |s| ==> s[Find(s, i, stop)] == stop
    decreases |s| - i
  {
    if i < |s| && s[i] != stop { FindSkips(s, i + 1, stop); }
  }

  // Three letters: the third is stored past the buffer.
  lemma LongTagOverruns(colours: Colours, stale: nat -> (char, char))
    ensures Interpret("C[fgx,1]y", 0, [], colours, stale) == Failed([], TypeOverrun)
  {
    var s := "C[fgx,1]y";
    TypeOverrunIff(s, 0, colours, stale(0));
  }

  // Colour 8 passes the clamp and is read past the palette's end, although the
  // tag is well placed.
  lemma ColourEightOverruns(colours: Colours, stale: nat -> (char, char))
    ensures Interpret("C[fg,8]x", 0, [], colours, stale) == Failed([], ColourOverrun)
    ensures WellPlaced([Segment.Style(Fore(8)), Literal('x')])
    ensures Encode([Segment.Style(Fore(8)), Literal('x')]) == "C[fg,8]x"
  {
    var gs := [Segment.Style(Fore(8)), Literal('x')];
    assert gs[1..] == [Literal('x')];
    EncodeOne(Literal('x'));
    ShortTags(8);
    assert Encode(gs) == "C[fg,8]x";
    InterpretsEncoding("C[fg,8]x", 0, gs, [], colours, stale, false);
    PlainArgs(gs);
    assert ArgsOf(gs) + [] == [];
  }
}
