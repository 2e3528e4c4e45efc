// Several processors printing under the console's spinlock, and the gate that
// holds the application processors back (kernel/arch/x86_64/include/spinlock.hpp,
// console.cpp, init.cpp), as a state machine whose steps any schedule may
// interleave.
module Cores {
  import opened Bits
  import opened Format
  import opened FormatRoundTrip
  import opened EntryPoints

  // ------------------------------------------------------------- printing

  // The console state that printing cores share, and the single changes they
  // make to it: a character reads the colours in force when it is shown.
  datatype Shared = Shared(shown: seq<Event>, colours: Colours)

  datatype Action = Put(c: char) | SetFore(colour: RGB) | SetBack(colour: RGB) | ResetColours | Wipe(colour: RGB)

  function Perform(sh: Shared, a: Action): Shared {
    match a
    case Put(c) => sh.(shown := sh.shown + [Format.Glyph(c, sh.colours)])
    case SetFore(colour) => sh.(colours := sh.colours.(fore := colour))
    case SetBack(colour) => sh.(colours := sh.colours.(back := colour))
    case ResetColours => sh.(colours := RESET_COLOURS)
    case Wipe(colour) => Shared(sh.shown + [Cleared(colour)], sh.colours.(back := colour))
  }

  function PerformAll(sh: Shared, acts: seq<Action>): Shared {
    if acts == [] then sh else Perform(PerformAll(sh, acts[..|acts| - 1]), acts[|acts| - 1])
  }

  lemma PerformOne(sh: Shared, acts: seq<Action>, k: nat)
    requires k < |acts|
    ensures PerformAll(sh, acts[..k + 1]) == Perform(PerformAll(sh, acts[..k]), acts[k])
  {
    assert acts[..k + 1][..k] == acts[..k];
  }

  // ------------------------------------------------------------- programs

  datatype Instruction =
    | Print(actions: seq<Action>)   // one locked entry point of the console
    | Wake(core: nat)               // store a core's goto_address
    | OpenGate                      // APsSafeToRun = true
    | AwaitGate                     // WaitUntilGPReady

  type Program = seq<Instruction>

  datatype Mode = Outside | Inside(k: nat)

  datatype Core = Core(awake: bool, pc: nat, mode: Mode)

  // log: the lock acquisitions so far, as (core, instruction).
  datatype System = System(cores: seq<Core>, locked: bool, gate: bool, shared: Shared, log: seq<(nat, nat)>)

  function Next(core: Core): Core { core.(pc := core.pc + 1, mode := Outside) }

  // One step of core c: a test-and-set, one action, the clearing of the lock, a
  // flag access; a core that has to wait, sleeps or is done changes nothing.
  function Step(progs: seq<Program>, s: System, c: nat): (r: System)
    requires |s.cores| == |progs| && c < |progs|
    ensures |r.cores| == |progs|
  {
    var core := s.cores[c];
    if !core.awake || core.pc >= |progs[c]| then s
    else match progs[c][core.pc]
      case Print(actions) =>
        if core.mode.Outside? then
          if s.locked then s
          else s.(locked := true, cores := s.cores[c := core.(mode := Inside(0))], log := s.log + [(c, core.pc)])
        else if core.mode.k < |actions| then
          s.(shared := Perform(s.shared, actions[core.mode.k]),
             cores := s.cores[c := core.(mode := Inside(core.mode.k + 1))])
        else s.(locked := false, cores := s.cores[c := Next(core)])
      case Wake(d) =>
        var cores := s.cores[c := Next(core)];
        s.(cores := if d < |cores| then cores[d := cores[d].(awake := true)] else cores)
      case OpenGate => s.(gate := true, cores := s.cores[c := Next(core)])
      case AwaitGate => if s.gate then s.(cores := s.cores[c := Next(core)]) else s
  }

  function Run(progs: seq<Program>, s: System, schedule: seq<nat>): (r: System)
    requires |s.cores| == |progs| && forall k :: 0 <= k < |schedule| ==> schedule[k] < |progs|
    ensures |r.cores| == |progs|
  {
    if schedule == [] then s
    else Step(progs, Run(progs, s, schedule[..|schedule| - 1]), schedule[|schedule| - 1])
  }

  // ------------------------------------------------------------- atomicity

  predicate IsPrint(progs: seq<Program>, e: (nat, nat)) {
    e.0 < |progs| && e.1 < |progs[e.0]| && progs[e.0][e.1].Print?
  }

  // Whole messages one after the other.
  function Sequential(progs: seq<Program>, sh: Shared, log: seq<(nat, nat)>): Shared
    requires forall e :: e in log ==> IsPrint(progs, e)
  {
    if log == [] then sh
    else
      var e := log[|log| - 1];
      assert IsPrint(progs, e);
      PerformAll(Sequential(progs, sh, log[..|log| - 1]), progs[e.0][e.1].actions)
  }

  // The instructions of core c in the log, in order.
  function Of(log: seq<(nat, nat)>, c: nat): seq<nat> {
    if log == [] then []
    else
      var e := log[|log| - 1];
      if e.0 == c then Of(log[..|log| - 1], c) + [e.1] else Of(log[..|log| - 1], c)
  }

  // The print instructions of a program before instruction n.
  function PrintsBefore(p: Program, n: nat): seq<nat>
    requires n <= |p|
  {
    if n == 0 then [] else PrintsBefore(p, n - 1) + (if p[n - 1].Print? then [n - 1] else [])
  }

  predicate CoreOk(p: Program, core: Core) {
    && core.pc <= |p|
    && (core.mode.Inside? ==> core.awake && core.pc < |p| && p[core.pc].Print? && core.mode.k <= |p[core.pc].actions|)
  }

  function Reached(core: Core): nat { if core.mode.Inside? then core.pc + 1 else core.pc }

  // Mutual exclusion, and what is shown: whole messages in lock order, then the
  // part of the holder's message that it has performed.
  predicate Atomic(progs: seq<Program>, sh: Shared, s: System) {
    && |s.cores| == |progs|
    && (forall c :: 0 <= c < |progs| ==> CoreOk(progs[c], s.cores[c]))
    && (forall e :: e in s.log ==> IsPrint(progs, e))
    && (forall c, d :: 0 <= c < d < |progs| ==> !(s.cores[c].mode.Inside? && s.cores[d].mode.Inside?))
    && (s.locked <==> exists c :: 0 <= c < |progs| && s.cores[c].mode.Inside?)
    && (!s.locked ==> s.shared == Sequential(progs, sh, s.log))
    && (forall c :: 0 <= c < |progs| && s.cores[c].mode.Inside? ==> Holding(progs, sh, s, c))
    && (forall c :: 0 <= c < |progs| ==> Of(s.log, c) == PrintsBefore(progs[c], Reached(s.cores[c])))
  }

  // Core c holds the lock and has performed the first k actions of its message.
  predicate Holding(progs: seq<Program>, sh: Shared, s: System, c: nat)
    requires |s.cores| == |progs| && c < |progs| && CoreOk(progs[c], s.cores[c]) && s.cores[c].mode.Inside?
    requires forall e :: e in s.log ==> IsPrint(progs, e)
  {
    && s.log != [] && s.log[|s.log| - 1] == (c, s.cores[c].pc)
    && s.shared == PerformAll(Sequential(progs, sh, s.log[..|s.log| - 1]),
                              progs[c][s.cores[c].pc].actions[..s.cores[c].mode.k])
  }

  lemma OfAppend(log: seq<(nat, nat)>, e: (nat, nat), c: nat)
    ensures Of(log + [e], c) == if e.0 == c then Of(log, c) + [e.1] else Of(log, c)
  {
    assert (log + [e])[..|log + [e]| - 1] == log;
  }

  lemma StepAtomic(progs: seq<Program>, sh: Shared, s: System, c: nat)
    requires Atomic(progs, sh, s) && c < |progs|
    ensures Atomic(progs, sh, Step(progs, s, c))
  {
    var core := s.cores[c];
    if core.awake && core.pc < |progs[c]| {
      match progs[c][core.pc]
      case Print(actions) =>
        if core.mode.Outside? {
          if !s.locked { AcquireAtomic(progs, sh, s, c); }
        } else if core.mode.k < |actions| {
          ActAtomic(progs, sh, s, c);
        } else {
          ReleaseAtomic(progs, sh, s, c);
        }
      case Wake(d) => QuietAtomic(progs, sh, s, Step(progs, s, c), c);
      case OpenGate => QuietAtomic(progs, sh, s, Step(progs, s, c), c);
      case AwaitGate => if s.gate { QuietAtomic(progs, sh, s, Step(progs, s, c), c); }
    }
  }

  lemma AcquireAtomic(progs: seq<Program>, sh: Shared, s: System, c: nat)
    requires Atomic(progs, sh, s) && c < |progs| && !s.locked
    requires s.cores[c].awake && s.cores[c].mode.Outside? && s.cores[c].pc < |progs[c]| && progs[c][s.cores[c].pc].Print?
    ensures Atomic(progs, sh, Step(progs, s, c))
  {
    var s' := Step(progs, s, c);
    var e := (c, s.cores[c].pc);
    assert s'.log[..|s'.log| - 1] == s.log;
    forall x | x in s'.log ensures IsPrint(progs, x) {}
    assert s'.cores[c].mode == Inside(0);
    forall d | 0 <= d < |progs| ensures Of(s'.log, d) == PrintsBefore(progs[d], Reached(s'.cores[d])) {
      OfAppend(s.log, e, d);
    }
    assert PerformAll(s.shared, []) == s.shared;
  }

  lemma ActAtomic(progs: seq<Program>, sh: Shared, s: System, c: nat)
    requires Atomic(progs, sh, s) && c < |progs|
    requires s.cores[c].mode.Inside? && s.cores[c].mode.k < |progs[c][s.cores[c].pc].actions|
    ensures Atomic(progs, sh, Step(progs, s, c))
  {
    var s' := Step(progs, s, c);
    assert Holding(progs, sh, s, c);
    PerformOne(Sequential(progs, sh, s.log[..|s.log| - 1]), progs[c][s.cores[c].pc].actions, s.cores[c].mode.k);
    assert s'.cores[c].mode.Inside?;
  }

  lemma ReleaseAtomic(progs: seq<Program>, sh: Shared, s: System, c: nat)
    requires Atomic(progs, sh, s) && c < |progs|
    requires s.cores[c].mode.Inside? && s.cores[c].mode.k == |progs[c][s.cores[c].pc].actions|
    ensures Atomic(progs, sh, Step(progs, s, c))
  {
    var s' := Step(progs, s, c);
    assert Holding(progs, sh, s, c);
    var actions := progs[c][s.cores[c].pc].actions;
    assert actions[..|actions|] == actions;
    assert forall d :: 0 <= d < |progs| && d != c ==> s.cores[d].mode.Outside?;
  }

  // A step that moves core c past an instruction that does not print, and at
  // most wakes cores, is invisible to the lock.
  lemma QuietAtomic(progs: seq<Program>, sh: Shared, s: System, s': System, c: nat)
    requires Atomic(progs, sh, s) && c < |progs|
    requires s.cores[c].pc < |progs[c]| && !progs[c][s.cores[c].pc].Print?
    requires |s'.cores| == |s.cores| && s' == s.(cores := s'.cores, gate := s'.gate)
    requires s'.cores[c] == Next(s.cores[c]) || s'.cores[c] == Next(s.cores[c]).(awake := true)
    requires forall d :: 0 <= d < |progs| && d != c ==>
      s'.cores[d] == s.cores[d] || s'.cores[d] == s.cores[d].(awake := true)
    ensures Atomic(progs, sh, s')
  {
    assert s.cores[c].mode.Outside?;
    forall d | 0 <= d < |progs| ensures s'.cores[d].mode == s.cores[d].mode {}
    forall d | 0 <= d < |progs| && s'.cores[d].mode.Inside? ensures Holding(progs, sh, s', d) {
      assert Holding(progs, sh, s, d);
    }
  }

  // No core inside, nothing shown or printed yet.
  predicate Fresh(progs: seq<Program>, s: System) {
    && |s.cores| == |progs| && !s.locked && !s.gate && s.log == []
    && forall c :: 0 <= c < |progs| ==> s.cores[c].pc == 0 && s.cores[c].mode.Outside?
  }

  // In every interleaving: at most one core is inside, and what is shown is
  // whole messages in lock order plus the holder's part; each core's messages
  // come in its program's order.
  lemma {:induction false} EveryScheduleAtomic(progs: seq<Program>, s: System, schedule: seq<nat>)
    requires Fresh(progs, s) && forall k :: 0 <= k < |schedule| ==> schedule[k] < |progs|
    ensures Atomic(progs, s.shared, Run(progs, s, schedule))
  {
    if schedule == [] {
      forall c | 0 <= c < |progs| ensures Of(s.log, c) == PrintsBefore(progs[c], Reached(s.cores[c])) {}
    } else {
      var before := schedule[..|schedule| - 1];
      EveryScheduleAtomic(progs, s, before);
      StepAtomic(progs, s.shared, Run(progs, s, before), schedule[|schedule| - 1]);
    }
  }

  // ------------------------------------------------------------- formats as actions

  // A number that names no colour does nothing.
  function TagActions(tag: Tag): seq<Action> {
    if !InPalette(tag) then []
    else match tag
      case Fore(n) => [SetFore(Palette(ColourIndex(n)))]
      case Back(n) => [SetBack(Palette(ColourIndex(n)))]
      case Clear(n) => [Wipe(Palette(ColourIndex(n)))]
      case Reset => [ResetColours]
  }

  function PutAll(s: string): seq<Action> {
    seq(|s|, i requires 0 <= i < |s| => Put(s[i]))
  }

  function ActionsOf(gs: seq<Segment>): seq<Action> {
    if gs == [] then []
    else SegmentActions(gs[0]) + ActionsOf(gs[1..])
  }

  lemma {:induction false} PerformAppend(sh: Shared, a: seq<Action>, b: seq<Action>)
    ensures PerformAll(sh, a + b) == PerformAll(PerformAll(sh, a), b)
    decreases |b|
  {
    if b == [] {
      assert a + b == a;
    } else {
      var n := |b| - 1;
      assert (a + b)[..|a + b| - 1] == a + b[..n];
      PerformAppend(sh, a, b[..n]);
    }
  }

  lemma {:induction false} PerformPuts(sh: Shared, s: string)
    ensures PerformAll(sh, PutAll(s)) == sh.(shown := sh.shown + Glyphs(s, sh.colours))
  {
    if s == [] {
      assert sh.shown + Glyphs(s, sh.colours) == sh.shown;
    } else {
      var n := |s| - 1;
      PerformPuts(sh, s[..n]);
      assert PutAll(s)[..|PutAll(s)| - 1] == PutAll(s[..n]);
      assert Glyphs(s, sh.colours) == Glyphs(s[..n], sh.colours) + [Format.Glyph(s[n], sh.colours)];
    }
  }

  // Performing a list's actions without interference shows what the list means,
  // which by RoundTripIff is what printing its encoding shows.
  lemma {:induction false} ActionsMeaning(sh: Shared, gs: seq<Segment>)
    ensures PerformAll(sh, ActionsOf(gs))
         == Shared(sh.shown + Meaning(gs, sh.colours).0, Meaning(gs, sh.colours).1)
    decreases |gs|
  {
    if gs == [] {
      assert sh.shown + Meaning(gs, sh.colours).0 == sh.shown;
    } else {
      var mid := AfterSegment(sh, gs[0]);
      PerformSegment(sh, gs[0]);
      PerformAppend(sh, SegmentActions(gs[0]), ActionsOf(gs[1..]));
      ActionsMeaning(mid, gs[1..]);
      MeaningStep(sh, gs);
    }
  }

  function SegmentActions(g: Segment): seq<Action> {
    if g.Style? then TagActions(g.tag) else PutAll(TextOf(g))
  }

  function AfterSegment(sh: Shared, g: Segment): Shared {
    if g.Style? then Shared(sh.shown + TagEvents(g.tag), ApplyTag(g.tag, sh.colours))
    else sh.(shown := sh.shown + Glyphs(TextOf(g), sh.colours))
  }

  lemma PerformSegment(sh: Shared, g: Segment)
    ensures PerformAll(sh, SegmentActions(g)) == AfterSegment(sh, g)
  {
    if g.Style? { PerformTag(sh, g.tag); } else { PerformPuts(sh, TextOf(g)); }
  }

  lemma MeaningStep(sh: Shared, gs: seq<Segment>)
    requires gs != []
    ensures var mid := AfterSegment(sh, gs[0]);
      mid.shown + Meaning(gs[1..], mid.colours).0 == sh.shown + Meaning(gs, sh.colours).0
      && Meaning(gs[1..], mid.colours).1 == Meaning(gs, sh.colours).1
  {
    hide TagEvents, Glyphs, TextOf, ApplyTag;
    var mid := AfterSegment(sh, gs[0]);
    var es := if gs[0].Style? then TagEvents(gs[0].tag) else Glyphs(TextOf(gs[0]), sh.colours);
    var rest := Meaning(gs[1..], mid.colours).0;
    assert Meaning(gs, sh.colours).0 == es + rest;
    Associate(sh.shown, es, rest);
  }

  lemma PerformTag(sh: Shared, tag: Tag)
    ensures PerformAll(sh, TagActions(tag)) == Shared(sh.shown + TagEvents(tag), ApplyTag(tag, sh.colours))
  {
    var acts := TagActions(tag);
    assert sh.shown + [] == sh.shown;
    if InPalette(tag) {
      assert acts[..0] == [];
      assert PerformAll(sh, acts) == Perform(PerformAll(sh, acts[..0]), acts[0]);
    }
  }

  // ------------------------------------------------------------- messages as shown

  // A call of an entry point with a message.
  datatype Call = Call(entry: EntryPoint, message: seq<Segment>)

  // Every print instruction performs its call's message.
  predicate Calling(progs: seq<Program>, calls: (nat, nat) -> Call, log: seq<(nat, nat)>) {
    forall e: (nat, nat) :: e in log ==>
      IsPrint(progs, e) && progs[e.0][e.1].actions == ActionsOf(Message(calls(e.0, e.1).entry, calls(e.0, e.1).message))
  }

  // The messages of the log, one after the other.
  function Joined(calls: (nat, nat) -> Call, log: seq<(nat, nat)>): seq<Segment> {
    if log == [] then []
    else
      var e := log[|log| - 1];
      Joined(calls, log[..|log| - 1]) + Message(calls(e.0, e.1).entry, calls(e.0, e.1).message)
  }

  lemma {:induction false} SequentialMeaning(progs: seq<Program>, calls: (nat, nat) -> Call, sh: Shared, log: seq<(nat, nat)>)
    requires Calling(progs, calls, log)
    ensures forall e :: e in log ==> IsPrint(progs, e)
    ensures Sequential(progs, sh, log)
         == Shared(sh.shown + Meaning(Joined(calls, log), sh.colours).0, Meaning(Joined(calls, log), sh.colours).1)
  {
    hide Message, Meaning, ActionsOf, PerformAll;
    if log == [] {
      NothingMeant(sh);
    } else {
      var before, e := log[..|log| - 1], log[|log| - 1];
      var m := Message(calls(e.0, e.1).entry, calls(e.0, e.1).message);
      SequentialMeaning(progs, calls, sh, before);
      ActionsMeaning(Sequential(progs, sh, before), m);
      MeaningJoin(Joined(calls, before), m, sh.colours);
      Associate(sh.shown, Meaning(Joined(calls, before), sh.colours).0,
                Meaning(m, Meaning(Joined(calls, before), sh.colours).1).0);
    }
  }

  lemma NothingMeant(sh: Shared)
    ensures sh == Shared(sh.shown + Meaning([], sh.colours).0, Meaning([], sh.colours).1)
  {
    assert sh.shown + [] == sh.shown;
  }

  // What is on the console while no core is printing: what the messages mean, in
  // the order in which the cores took the lock.
  predicate ShowsJoined(calls: (nat, nat) -> Call, before: Shared, sh: Shared, log: seq<(nat, nat)>) {
    sh == Shared(before.shown + Meaning(Joined(calls, log), before.colours).0, Meaning(Joined(calls, log), before.colours).1)
  }

  // In every interleaving of cores that call the entry points, an unlocked
  // console shows exactly what the messages mean, whole and in lock order; while
  // a core holds the lock, that and the first k actions of its message.
  lemma EveryScheduleShows(progs: seq<Program>, calls: (nat, nat) -> Call, s: System, schedule: seq<nat>)
    requires Fresh(progs, s) && forall k :: 0 <= k < |schedule| ==> schedule[k] < |progs|
    requires Calling(progs, calls, Run(progs, s, schedule).log)
    ensures var r := Run(progs, s, schedule);
      && (!r.locked ==> ShowsJoined(calls, s.shared, r.shared, r.log))
      && (forall c :: 0 <= c < |progs| && r.cores[c].mode.Inside? ==> HolderShows(calls, s.shared, r, c))
  {
    hide Run, ActionsOf;
    EveryScheduleAtomic(progs, s, schedule);
    var r := Run(progs, s, schedule);
    SequentialMeaning(progs, calls, s.shared, r.log);
    forall c | 0 <= c < |progs| && r.cores[c].mode.Inside? ensures HolderShows(calls, s.shared, r, c) {
      assert Holding(progs, s.shared, r, c);
      var before := r.log[..|r.log| - 1];
      assert forall e :: e in before ==> e in r.log;
      SequentialMeaning(progs, calls, s.shared, before);
      assert r.log[|r.log| - 1] in r.log;
    }
  }

  // Core c has the lock and has performed the first k actions of its message.
  predicate HolderShows(calls: (nat, nat) -> Call, before: Shared, r: System, c: nat)
    requires c < |r.cores| && r.cores[c].mode.Inside?
  {
    r.log != [] && r.log[|r.log| - 1].0 == c
    && var call := calls(r.log[|r.log| - 1].0, r.log[|r.log| - 1].1);
    var actions := ActionsOf(Message(call.entry, call.message));
    var done := Joined(calls, r.log[..|r.log| - 1]);
    r.cores[c].mode.k <= |actions|
    && r.shared == PerformAll(Shared(before.shown + Meaning(done, before.colours).0, Meaning(done, before.colours).1),
                              actions[..r.cores[c].mode.k])
  }

  // ------------------------------------------------------------- start-up

  // The boot loader's list of processors; core i is the i-th of them.
  datatype Processor = Processor(id: u32, lapic: u32)

  // LateInit's loop over the processors from i: every one but the boot
  // processor is sent to APEntry.
  function Wakes(cpus: seq<Processor>, bsp: u32, i: nat): Program
    requires i <= |cpus|
    decreases |cpus| - i
  {
    if i == |cpus| then []
    else if cpus[i].lapic == bsp then Wakes(cpus, bsp, i + 1)
    else [Wake(i)] + Wakes(cpus, bsp, i + 1)
  }

  // The five messages of LateInit; their contents play no part in the gate.
  datatype Messages = Messages(starting: seq<Action>, clear: seq<Action>, reset: seq<Action>,
                               welcome: seq<Action>, finished: seq<Action>)

  function BootProgram(cpus: seq<Processor>, bsp: u32, m: Messages): Program {
    [Print(m.starting)] + Wakes(cpus, bsp, 0)
    + [Print(m.clear), Print(m.reset), OpenGate, Print(m.welcome), Print(m.finished)]
  }

  // APEntry: wait for the gate, greet, halt.
  function ApProgram(cpu: Processor): Program {
    [AwaitGate, Print(ActionsOf(Greeting(cpu.id)))]
  }

  // Console::Log("Hi from AP %u!", id).
  function Greeting(id: u32): seq<Segment> {
    Message(Log, Plain("Hi from AP ") + [PutNumber(id), Literal('!')])
  }

  // A boot processor that LateInit runs on, and the others asleep in APEntry.
  predicate Booting(cpus: seq<Processor>, bsp: u32, boot: nat, m: Messages, progs: seq<Program>) {
    && boot < |cpus| == |progs| && cpus[boot].lapic == bsp
    && forall c :: 0 <= c < |progs| ==> progs[c] == if c == boot then BootProgram(cpus, bsp, m) else ApProgram(cpus[c])
  }

  // Where LateInit's clearing message is in its program.
  function ClearAt(cpus: seq<Processor>, bsp: u32): nat { 1 + |Wakes(cpus, bsp, 0)| }

  // Processor d is woken exactly when it is not the boot processor.
  lemma {:induction false} WakesIff(cpus: seq<Processor>, bsp: u32, i: nat, d: nat)
    requires i <= |cpus|
    ensures Wake(d) in Wakes(cpus, bsp, i) <==> i <= d < |cpus| && cpus[d].lapic != bsp
    decreases |cpus| - i
  {
    if i < |cpus| {
      WakesIff(cpus, bsp, i + 1, d);
      var rest := Wakes(cpus, bsp, i + 1);
      if cpus[i].lapic != bsp { assert Wake(d) in [Wake(i)] + rest <==> d == i || Wake(d) in rest; }
    }
  }

  lemma {:induction false} OnlyWakes(cpus: seq<Processor>, bsp: u32, i: nat, k: nat)
    requires i <= |cpus| && k < |Wakes(cpus, bsp, i)|
    ensures Wakes(cpus, bsp, i)[k].Wake?
    decreases |cpus| - i
  {
    if cpus[i].lapic == bsp {
      OnlyWakes(cpus, bsp, i + 1, k);
    } else if k > 0 {
      OnlyWakes(cpus, bsp, i + 1, k - 1);
    }
  }

  // e is in the log before position j.
  predicate Before(log: seq<(nat, nat)>, j: nat, e: (nat, nat))
    requires j <= |log|
  {
    exists i :: 0 <= i < j && log[i] == e
  }

  // No processor is past the gate before it opens, sleepers have not started,
  // and whatever an application processor prints comes after the clearing and
  // the resetting message.
  predicate Gated(cpus: seq<Processor>, bsp: u32, boot: nat, s: System) {
    && boot < |s.cores|
    && (s.gate <==> s.cores[boot].pc > ClearAt(cpus, bsp) + 2)
    && (forall c :: 0 <= c < |s.cores| && c != boot && s.cores[c].pc > 0 ==> s.gate && s.cores[c].awake)
    && (forall j :: 0 <= j < |s.log| && s.log[j].0 != boot ==>
          Before(s.log, j, (boot, ClearAt(cpus, bsp))) && Before(s.log, j, (boot, ClearAt(cpus, bsp) + 1)))
  }

  lemma {:induction false} OfMember(log: seq<(nat, nat)>, c: nat, n: nat)
    requires n in Of(log, c)
    ensures Before(log, |log|, (c, n))
  {
    var k := |log| - 1;
    if log[k] == (c, n) {
    } else {
      OfMember(log[..k], c, n);
      var i :| 0 <= i < k && log[..k][i] == (c, n);
      assert log[i] == (c, n);
    }
  }

  lemma {:induction false} PrintsBeforeMember(p: Program, n: nat, k: nat)
    requires k < n <= |p| && p[k].Print?
    ensures k in PrintsBefore(p, n)
  {
    if k < n - 1 { PrintsBeforeMember(p, n - 1, k); }
  }

  lemma BootShape(cpus: seq<Processor>, bsp: u32, m: Messages)
    ensures var p, n := BootProgram(cpus, bsp, m), ClearAt(cpus, bsp);
      && |p| == n + 5 && p[0] == Print(m.starting)
      && p[n] == Print(m.clear) && p[n + 1] == Print(m.reset) && p[n + 2] == OpenGate
      && p[n + 3] == Print(m.welcome) && p[n + 4] == Print(m.finished)
      && (forall k :: 1 <= k < n ==> p[k].Wake?)
      && forall k :: 0 <= k < n ==> p[k].Print? || p[k].Wake?
  {
    var w := Wakes(cpus, bsp, 0);
    forall k | 0 <= k < |w| ensures w[k].Wake? { OnlyWakes(cpus, bsp, 0, k); }
  }

  // With the gate open, both messages are in the log.
  lemma ClearedBefore(cpus: seq<Processor>, bsp: u32, boot: nat, m: Messages, progs: seq<Program>, sh: Shared, s: System)
    requires Booting(cpus, bsp, boot, m, progs) && Atomic(progs, sh, s) && Gated(cpus, bsp, boot, s) && s.gate
    ensures Before(s.log, |s.log|, (boot, ClearAt(cpus, bsp)))
    ensures Before(s.log, |s.log|, (boot, ClearAt(cpus, bsp) + 1))
  {
    var n := ClearAt(cpus, bsp);
    BootShape(cpus, bsp, m);
    PrintsBeforeMember(progs[boot], Reached(s.cores[boot]), n);
    PrintsBeforeMember(progs[boot], Reached(s.cores[boot]), n + 1);
    OfMember(s.log, boot, n);
    OfMember(s.log, boot, n + 1);
  }

  lemma BeforeKept(log: seq<(nat, nat)>, log': seq<(nat, nat)>, j: nat, e: (nat, nat))
    requires j <= |log| && log <= log' && Before(log, j, e)
    ensures Before(log', j, e)
  {
    var i :| 0 <= i < j && log[i] == e;
    assert log'[i] == e;
  }

  lemma StepGated(cpus: seq<Processor>, bsp: u32, boot: nat, m: Messages, progs: seq<Program>, sh: Shared, s: System, c: nat)
    requires Booting(cpus, bsp, boot, m, progs) && Gated(cpus, bsp, boot, s)
    requires |s.cores| == |progs| && c < |progs| && Atomic(progs, sh, s)
    ensures Gated(cpus, bsp, boot, Step(progs, s, c))
  {
    hide Step, Atomic, Before, BootProgram, ApProgram, Wakes;
    if c != boot && s.gate { ClearedBefore(cpus, bsp, boot, m, progs, sh, s); }
    OnlyOneGate(cpus, bsp, boot, m, progs);
    GateStep(boot, ClearAt(cpus, bsp) + 2, progs, s, c);
    StepLog(boot, progs, s, c);
    LogGated(boot, ClearAt(cpus, bsp), progs, s, c);
  }

  lemma OnlyOneGate(cpus: seq<Processor>, bsp: u32, boot: nat, m: Messages, progs: seq<Program>)
    requires Booting(cpus, bsp, boot, m, progs)
    ensures forall c, k :: 0 <= c < |progs| && 0 <= k < |progs[c]| ==>
      (progs[c][k].OpenGate? <==> c == boot && k == ClearAt(cpus, bsp) + 2)
    ensures forall c :: 0 <= c < |progs| && c != boot ==> progs[c] != [] && progs[c][0].AwaitGate?
  {
    BootShape(cpus, bsp, m);
  }

  // The gate opens with the one OpenGate; the others start by waiting for it.
  lemma GateStep(boot: nat, at: nat, progs: seq<Program>, s: System, c: nat)
    requires boot < |s.cores| == |progs| && c < |progs|
    requires forall d, k :: 0 <= d < |progs| && 0 <= k < |progs[d]| ==> (progs[d][k].OpenGate? <==> d == boot && k == at)
    requires forall d :: 0 <= d < |progs| && d != boot ==> progs[d] != [] && progs[d][0].AwaitGate?
    requires s.gate <==> s.cores[boot].pc > at
    requires forall d :: 0 <= d < |s.cores| && d != boot && s.cores[d].pc > 0 ==> s.gate && s.cores[d].awake
    ensures var s' := Step(progs, s, c);
      && (s'.gate <==> s'.cores[boot].pc > at)
      && (forall d :: 0 <= d < |s'.cores| && d != boot && s'.cores[d].pc > 0 ==> s'.gate && s'.cores[d].awake)
  {
  }

  // Only a core past the gate, or the boot core, adds to the log.
  lemma StepLog(boot: nat, progs: seq<Program>, s: System, c: nat)
    requires |s.cores| == |progs| && c < |progs|
    requires c != boot ==> progs[c] != [] && progs[c][0].AwaitGate?
    ensures Step(progs, s, c).log == s.log ||
            (Step(progs, s, c).log == s.log + [(c, s.cores[c].pc)] && (c != boot ==> s.cores[c].pc > 0))
  {
  }

  lemma LogGated(boot: nat, n: nat, progs: seq<Program>, s: System, c: nat)
    requires |s.cores| == |progs| && c < |progs|
    requires forall j :: 0 <= j < |s.log| && s.log[j].0 != boot ==> Before(s.log, j, (boot, n)) && Before(s.log, j, (boot, n + 1))
    requires Step(progs, s, c).log == s.log
             || (Step(progs, s, c).log == s.log + [(c, s.cores[c].pc)]
                 && (c != boot ==> Before(s.log, |s.log|, (boot, n)) && Before(s.log, |s.log|, (boot, n + 1))))
    ensures var log := Step(progs, s, c).log;
      forall j :: 0 <= j < |log| && log[j].0 != boot ==> Before(log, j, (boot, n)) && Before(log, j, (boot, n + 1))
  {
    hide Step;
    var log := Step(progs, s, c).log;
    forall j | 0 <= j < |log| && log[j].0 != boot ensures Before(log, j, (boot, n)) && Before(log, j, (boot, n + 1)) {
      BeforeKept(s.log, log, j, (boot, n));
      BeforeKept(s.log, log, j, (boot, n + 1));
    }
  }

  // In every interleaving of LateInit and the APEntry of any number of
  // processors, no greeting precedes the clearing of the screen, and each
  // processor greets at most once.
  lemma {:induction false} EveryScheduleGated(cpus: seq<Processor>, bsp: u32, boot: nat, m: Messages, progs: seq<Program>, s: System, schedule: seq<nat>)
    requires Booting(cpus, bsp, boot, m, progs) && Fresh(progs, s)
    requires forall k :: 0 <= k < |schedule| ==> schedule[k] < |progs|
    ensures Gated(cpus, bsp, boot, Run(progs, s, schedule))
    ensures forall c :: 0 <= c < |progs| && c != boot ==> |Of(Run(progs, s, schedule).log, c)| <= 1
  {
    EveryScheduleAtomic(progs, s, schedule);
    var r := Run(progs, s, schedule);
    forall c | 0 <= c < |progs| && c != boot ensures |Of(r.log, c)| <= 1 {
      OnePrint(cpus[c], Reached(r.cores[c]));
    }
    if schedule != [] {
      var before := schedule[..|schedule| - 1];
      EveryScheduleAtomic(progs, s, before);
      EveryScheduleGated(cpus, bsp, boot, m, progs, s, before);
      StepGated(cpus, bsp, boot, m, progs, s.shared, Run(progs, s, before), schedule[|schedule| - 1]);
    }
  }

  lemma OnePrint(cpu: Processor, n: nat)
    requires n <= |ApProgram(cpu)|
    ensures |PrintsBefore(ApProgram(cpu), n)| <= 1
  {
    var p := ApProgram(cpu);
    assert PrintsBefore(p, 0) == [] && PrintsBefore(p, 1) == [] && PrintsBefore(p, 2) == [1];
  }

  // ------------------------------------------------------------- waking up

  // Core boot has passed an instruction that wakes core c.
  predicate Woken(progs: seq<Program>, s: System, boot: nat, c: nat)
    requires |s.cores| == |progs| && boot < |progs|
  {
    exists k :: 0 <= k < s.cores[boot].pc && k < |progs[boot]| && progs[boot][k] == Wake(c)
  }

  predicate AwakeIffWoken(progs: seq<Program>, s0: System, s: System, boot: nat) {
    && |s0.cores| == |s.cores| == |progs| && boot < |progs|
    && forall c :: 0 <= c < |progs| ==> (s.cores[c].awake <==> s0.cores[c].awake || Woken(progs, s, boot, c))
  }

  // Application processors wake nobody.
  lemma OnlyBootWakes(cpus: seq<Processor>, bsp: u32, boot: nat, m: Messages, progs: seq<Program>)
    requires Booting(cpus, bsp, boot, m, progs)
    ensures forall c, k :: 0 <= c < |progs| && 0 <= k < |progs[c]| && progs[c][k].Wake? ==> c == boot
  {
  }

  lemma StepAwake(progs: seq<Program>, s0: System, s: System, boot: nat, c: nat)
    requires AwakeIffWoken(progs, s0, s, boot) && c < |progs|
    requires forall d, k :: 0 <= d < |progs| && 0 <= k < |progs[d]| && progs[d][k].Wake? ==> d == boot
    ensures AwakeIffWoken(progs, s0, Step(progs, s, c), boot)
  {
    var s' := Step(progs, s, c);
    forall d | 0 <= d < |progs|
      ensures s'.cores[d].awake <==> s0.cores[d].awake || Woken(progs, s', boot, d)
    {
      StepWakes(progs, s, boot, c, d);
    }
  }

  // What one step does to the waking of core d.
  lemma StepWakes(progs: seq<Program>, s: System, boot: nat, c: nat, d: nat)
    requires |s.cores| == |progs| && boot < |progs| && c < |progs| && d < |progs|
    requires forall e, k :: 0 <= e < |progs| && 0 <= k < |progs[e]| && progs[e][k].Wake? ==> e == boot
    ensures var s' := Step(progs, s, c);
      var now := c == boot && s.cores[boot].awake && s.cores[boot].pc < |progs[boot]| && progs[boot][s.cores[boot].pc] == Wake(d);
      && (s'.cores[d].awake <==> s.cores[d].awake || now)
      && (Woken(progs, s', boot, d) <==> Woken(progs, s, boot, d) || now)
  {
    var s' := Step(progs, s, c);
    if Woken(progs, s, boot, d) {
      var k :| 0 <= k < s.cores[boot].pc && k < |progs[boot]| && progs[boot][k] == Wake(d);
      assert k < s'.cores[boot].pc;
    }
    if Woken(progs, s', boot, d) {
      var k :| 0 <= k < s'.cores[boot].pc && k < |progs[boot]| && progs[boot][k] == Wake(d);
      assert k < s.cores[boot].pc || k == s.cores[boot].pc;
    }
  }

  lemma {:induction false} RunAwake(progs: seq<Program>, s: System, boot: nat, schedule: seq<nat>)
    requires Fresh(progs, s) && boot < |progs|
    requires forall d, k :: 0 <= d < |progs| && 0 <= k < |progs[d]| && progs[d][k].Wake? ==> d == boot
    requires forall k :: 0 <= k < |schedule| ==> schedule[k] < |progs|
    ensures AwakeIffWoken(progs, s, Run(progs, s, schedule), boot)
    decreases |schedule|
  {
    if schedule != [] {
      var before := schedule[..|schedule| - 1];
      RunAwake(progs, s, boot, before);
      StepAwake(progs, s, Run(progs, s, before), boot, schedule[|schedule| - 1]);
    }
  }

  // In every interleaving: a processor that slept at first is awake only if the
  // boot processor has passed the store that wakes it, so only if it is another
  // one; and once the boot processor has sent its clearing message, every other
  // one is awake.
  lemma EveryScheduleWakes(cpus: seq<Processor>, bsp: u32, boot: nat, m: Messages, progs: seq<Program>, s: System, schedule: seq<nat>)
    requires Booting(cpus, bsp, boot, m, progs) && Fresh(progs, s)
    requires forall k :: 0 <= k < |schedule| ==> schedule[k] < |progs|
    ensures var r := Run(progs, s, schedule);
      && (forall c :: 0 <= c < |progs| && !s.cores[c].awake ==> (r.cores[c].awake <==> Woken(progs, r, boot, c)))
      && (forall c :: 0 <= c < |progs| && !s.cores[c].awake && r.cores[c].awake ==> cpus[c].lapic != bsp)
      && (r.cores[boot].pc >= ClearAt(cpus, bsp) ==>
            forall c :: 0 <= c < |progs| && cpus[c].lapic != bsp ==> r.cores[c].awake)
  {
    var r := Run(progs, s, schedule);
    OnlyBootWakes(cpus, bsp, boot, m, progs);
    RunAwake(progs, s, boot, schedule);
    hide Run, Step;
    forall c | 0 <= c < |progs|
      ensures Woken(progs, r, boot, c) ==> cpus[c].lapic != bsp
      ensures r.cores[boot].pc >= ClearAt(cpus, bsp) && cpus[c].lapic != bsp ==> Woken(progs, r, boot, c)
    {
      WokenByLoop(cpus, bsp, boot, m, progs, r, c);
    }
  }

  lemma WokenByLoop(cpus: seq<Processor>, bsp: u32, boot: nat, m: Messages, progs: seq<Program>, r: System, c: nat)
    requires Booting(cpus, bsp, boot, m, progs) && |r.cores| == |progs| && c < |progs|
    ensures Woken(progs, r, boot, c) ==> cpus[c].lapic != bsp
    ensures r.cores[boot].pc >= ClearAt(cpus, bsp) && cpus[c].lapic != bsp ==> Woken(progs, r, boot, c)
  {
    hide Wakes;
    var w := Wakes(cpus, bsp, 0);
    WakesIff(cpus, bsp, 0, c);
    assert forall k :: 0 <= k < |w| ==> progs[boot][k + 1] == w[k];
    if Woken(progs, r, boot, c) {
      var k :| 0 <= k < r.cores[boot].pc && k < |progs[boot]| && progs[boot][k] == Wake(c);
      assert 1 <= k <= |w| && w[k - 1] == Wake(c);
    }
    if r.cores[boot].pc >= ClearAt(cpus, bsp) && cpus[c].lapic != bsp {
      var j :| 0 <= j < |w| && w[j] == Wake(c);
      assert progs[boot][j + 1] == Wake(c) && j + 1 < r.cores[boot].pc;
    }
  }

  // ------------------------------------------------------------- a run that greets

  // Core c alone, n steps.
  function Alone(c: nat, n: nat): (schedule: seq<nat>)
    ensures |schedule| == n && forall k :: 0 <= k < n ==> schedule[k] == c
  {
    seq(n, _ => c)
  }

  predicate InRange(progs: seq<Program>, schedule: seq<nat>) {
    forall k :: 0 <= k < |schedule| ==> schedule[k] < |progs|
  }

  lemma {:induction false} RunJoin(progs: seq<Program>, s: System, a: seq<nat>, b: seq<nat>)
    requires |s.cores| == |progs| && InRange(progs, a) && InRange(progs, b)
    ensures InRange(progs, a + b) && Run(progs, Run(progs, s, a), b) == Run(progs, s, a + b)
    decreases |b|
  {
    if b == [] {
      assert a + b == a;
    } else {
      var n := |b| - 1;
      RunJoin(progs, s, a, b[..n]);
      assert (a + b)[..|a + b| - 1] == a + b[..n];
    }
  }

  lemma RunFirst(progs: seq<Program>, s: System, c: nat, n: nat)
    requires |s.cores| == |progs| && c < |progs|
    ensures Run(progs, s, Alone(c, n + 1)) == Run(progs, Step(progs, s, c), Alone(c, n))
  {
    RunJoin(progs, s, [c], Alone(c, n));
    assert [c] + Alone(c, n) == Alone(c, n + 1);
    assert [c][..0] == [];
    assert Run(progs, s, [c]) == Step(progs, Run(progs, s, []), c);
  }

  // r is s with core c past its instruction and nobody printing; the others are
  // where they were, or newly awake.
  predicate Passed(s: System, r: System, c: nat, gate: bool) {
    && c < |s.cores| == |r.cores| && !r.locked && r.gate == gate
    && r.cores[c].pc == s.cores[c].pc + 1 && r.cores[c].mode.Outside? && r.cores[c].awake
    && forall d :: 0 <= d < |s.cores| && d != c ==>
         r.cores[d].pc == s.cores[d].pc && r.cores[d].mode == s.cores[d].mode && (s.cores[d].awake ==> r.cores[d].awake)
  }

  // A core that holds the lock and runs alone finishes its message.
  lemma {:induction false} FinishMessage(progs: seq<Program>, s: System, c: nat) returns (n: nat)
    requires |s.cores| == |progs| && c < |progs|
    requires s.cores[c].awake && CoreOk(progs[c], s.cores[c]) && s.cores[c].mode.Inside?
    ensures Passed(s, Run(progs, s, Alone(c, n)), c, s.gate)
    decreases |progs[c][s.cores[c].pc].actions| - s.cores[c].mode.k
  {
    var s1 := Step(progs, s, c);
    if s.cores[c].mode.k < |progs[c][s.cores[c].pc].actions| {
      n := FinishMessage(progs, s1, c);
    } else {
      n := 0;
      assert Run(progs, s1, Alone(c, 0)) == s1;
    }
    RunFirst(progs, s, c, n);
    n := n + 1;
  }

  // A core that runs alone passes its instruction, unless it waits for the gate.
  lemma FinishInstruction(progs: seq<Program>, s: System, c: nat) returns (n: nat)
    requires |s.cores| == |progs| && c < |progs| && !s.locked
    requires s.cores[c].awake && s.cores[c].mode.Outside? && s.cores[c].pc < |progs[c]|
    requires progs[c][s.cores[c].pc].AwaitGate? ==> s.gate
    ensures Passed(s, Run(progs, s, Alone(c, n)), c, s.gate || progs[c][s.cores[c].pc].OpenGate?)
  {
    var s1 := Step(progs, s, c);
    if progs[c][s.cores[c].pc].Print? {
      n := FinishMessage(progs, s1, c);
    } else {
      n := 0;
      assert Run(progs, s1, Alone(c, 0)) == s1;
    }
    RunFirst(progs, s, c, n);
    n := n + 1;
  }

  // r is s with core c at the end of its program and nobody printing.
  predicate Finished(progs: seq<Program>, s: System, r: System, c: nat) {
    && c < |progs| == |s.cores| == |r.cores| && !r.locked && (s.gate ==> r.gate)
    && r.cores[c].pc == |progs[c]| && r.cores[c].mode.Outside?
    && forall d :: 0 <= d < |s.cores| && d != c ==>
         r.cores[d].pc == s.cores[d].pc && r.cores[d].mode == s.cores[d].mode && (s.cores[d].awake ==> r.cores[d].awake)
  }

  lemma {:induction false} FinishProgram(progs: seq<Program>, s: System, c: nat) returns (n: nat)
    requires |s.cores| == |progs| && c < |progs| && !s.locked
    requires s.cores[c].awake && s.cores[c].mode.Outside? && s.cores[c].pc <= |progs[c]|
    requires s.gate || forall k :: s.cores[c].pc <= k < |progs[c]| ==> !progs[c][k].AwaitGate?
    ensures Finished(progs, s, Run(progs, s, Alone(c, n)), c)
    ensures (exists k :: s.cores[c].pc <= k < |progs[c]| && progs[c][k].OpenGate?) ==> Run(progs, s, Alone(c, n)).gate
    decreases |progs[c]| - s.cores[c].pc
  {
    hide Run, Step;
    n := 0;
    if s.cores[c].pc < |progs[c]| {
      n := FinishInstruction(progs, s, c);
      var s1 := Run(progs, s, Alone(c, n));
      var m := FinishProgram(progs, s1, c);
      AloneJoin(progs, s, c, n, m);
      n := n + m;
    } else {
      RunNone(progs, s, c);
    }
  }

  lemma RunNone(progs: seq<Program>, s: System, c: nat)
    requires |s.cores| == |progs| && c < |progs|
    ensures Run(progs, s, Alone(c, 0)) == s
  {
  }

  lemma AloneJoin(progs: seq<Program>, s: System, c: nat, n: nat, m: nat)
    requires |s.cores| == |progs| && c < |progs|
    ensures Run(progs, Run(progs, s, Alone(c, n)), Alone(c, m)) == Run(progs, s, Alone(c, n + m))
  {
    RunJoin(progs, s, Alone(c, n), Alone(c, m));
    assert Alone(c, n) + Alone(c, m) == Alone(c, n + m);
  }

  // With the gate open, the cores from i on, one after the other, all but skip
  // and those asleep.
  lemma {:induction false} FinishFrom(progs: seq<Program>, s: System, skip: nat, i: nat) returns (schedule: seq<nat>)
    requires |s.cores| == |progs| && i <= |progs| && !s.locked && s.gate
    requires forall c :: 0 <= c < |progs| ==> s.cores[c].mode.Outside? && s.cores[c].pc <= |progs[c]|
    ensures InRange(progs, schedule)
    ensures var r := Run(progs, s, schedule);
      && (forall c :: 0 <= c < i ==> r.cores[c].pc == s.cores[c].pc)
      && (forall c :: 0 <= c < |progs| ==> r.cores[c].mode.Outside?)
      && (forall c :: i <= c < |progs| && c != skip && s.cores[c].awake ==> r.cores[c].pc == |progs[c]|)
    decreases |progs| - i
  {
    if i == |progs| {
      schedule := [];
    } else if i == skip || !s.cores[i].awake {
      schedule := FinishFrom(progs, s, skip, i + 1);
    } else {
      var n := FinishProgram(progs, s, i);
      var s1 := Run(progs, s, Alone(i, n));
      var rest := FinishFrom(progs, s1, skip, i + 1);
      RunJoin(progs, s, Alone(i, n), rest);
      schedule := Alone(i, n) + rest;
    }
  }

  // Some interleaving lets LateInit run to its end and every other processor
  // greet, each exactly once.
  lemma SomeScheduleGreets(cpus: seq<Processor>, bsp: u32, boot: nat, m: Messages, progs: seq<Program>, s: System)
    returns (schedule: seq<nat>)
    requires Booting(cpus, bsp, boot, m, progs) && Fresh(progs, s) && s.cores[boot].awake
    ensures InRange(progs, schedule)
    ensures forall c :: 0 <= c < |progs| && cpus[c].lapic != bsp ==> Of(Run(progs, s, schedule).log, c) == [1]
  {
    hide Run, Step, Of, PrintsBefore;
    BootShape(cpus, bsp, m);
    var n := FinishProgram(progs, s, boot);
    var s1 := Run(progs, s, Alone(boot, n));
    assert progs[boot][ClearAt(cpus, bsp) + 2].OpenGate?;
    EveryScheduleWakes(cpus, bsp, boot, m, progs, s, Alone(boot, n));
    var rest := FinishFrom(progs, s1, boot, 0);
    RunJoin(progs, s, Alone(boot, n), rest);
    schedule := Alone(boot, n) + rest;
    EveryScheduleAtomic(progs, s, schedule);
    hide BootProgram, Wakes, Woken, Atomic;
    forall c | 0 <= c < |progs| && cpus[c].lapic != bsp ensures Of(Run(progs, s, schedule).log, c) == [1] {
      GreetedOnce(cpus[c], progs, s.shared, Run(progs, s, schedule), c);
    }
  }

  lemma GreetedOnce(cpu: Processor, progs: seq<Program>, sh: Shared, r: System, c: nat)
    requires Atomic(progs, sh, r) && c < |progs| && progs[c] == ApProgram(cpu)
    requires r.cores[c].pc == |progs[c]| && r.cores[c].mode.Outside?
    ensures Of(r.log, c) == [1]
  {
    GreetsAtEnd(cpu);
  }

  lemma GreetsAtEnd(cpu: Processor)
    ensures PrintsBefore(ApProgram(cpu), 2) == [1]
  {
    var p := ApProgram(cpu);
    assert PrintsBefore(p, 0) == [] && PrintsBefore(p, 1) == [];
  }

  // The greeting is the source's format with the processor's number.
  lemma GreetingText(id: u32)
    ensures Encode(Plain("Hi from AP ") + [PutNumber(id), Literal('!')]) == "Hi from AP %u!"
    ensures ArgsOf([PutNumber(id), Literal('!')]) == [Number(id)]
  {
    hide Encode, ArgsOf, Message, EncodeSegment;
    GreetingLetters();
    NumberAndMark(id);
    EncodePlain("Hi from AP ");
    EncodeJoin(Plain("Hi from AP "), [PutNumber(id), Literal('!')]);
  }

  lemma GreetingLetters()
    ensures "Hi from AP " + "%u!" == "Hi from AP %u!"
    ensures forall i :: 0 <= i < |"Hi from AP "| ==> "Hi from AP "[i] != '\0' && "Hi from AP "[i] != '%'
  {
  }

  lemma NumberAndMark(id: u32)
    ensures Encode([PutNumber(id), Literal('!')]) == "%u!"
    ensures ArgsOf([PutNumber(id), Literal('!')]) == [Number(id)]
  {
    EncodeOne(Literal('!'));
    assert [PutNumber(id), Literal('!')][1..] == [Literal('!')];
    assert ArgsOf([Literal('!')]) == [];
  }

  // The boot processor is never sent to APEntry.
  lemma BootNeverWoken(cpus: seq<Processor>, bsp: u32, boot: nat, m: Messages, progs: seq<Program>, c: nat)
    requires Booting(cpus, bsp, boot, m, progs) && c < |progs|
    ensures Wake(boot) !in progs[c]
  {
    WakesIff(cpus, bsp, 0, boot);
  }
}
