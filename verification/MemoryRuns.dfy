// Whole runs of the memory stack, and what follows for every run from the
// abstract machine it refines.
module MemoryRuns {
  import opened Bits
  import opened Options
  import opened PhysicalMemory
  import opened PageAllocator
  import opened PageTables
  import opened MemoryStack

  datatype Op =
    | TakePage
    | MapAt(virt: u64, phys: u64, flags: u64)
    | TakePageAt(virt: u64)

  // What the callers owe: no large page on the way.
  ghost predicate Allowed(large: iset<Path>, op: Op) {
    match op
    case TakePage => true
    case MapAt(virt, _, _) =>
      forall d :: 1 <= d <= 3 ==> PathOf(Vpn(virt))[..d] !in large
    case TakePageAt(virt) => forall d :: 1 <= d <= 3 ==> PathOf(Vpn(virt))[..d] !in large
  }

  ghost function Step(s: State, data: set<nat>, op: Op): (State, set<nat>, bool)
    requires Valid(s, data) && Allowed(AbsOf(s, data).large, op)
  {
    match op
    case TakePage =>
      (match Allocate(s)
       case None => (s, data, false)
       case Some((s1, p)) => (s1, data + {p}, true))
    case MapAt(virt, phys, flags) =>
      MapPageRefines(s, data, virt, phys, flags);
      var (s1, ok) := MapPage(s, virt, phys, flags);
      (s1, data, ok)
    case TakePageAt(virt) => AllocatePageAt(s, data, virt)
  }

  ghost function AbsStep(a: Abs, op: Op): (Abs, bool) {
    match op
    case TakePage =>
      if a.free == [] then (a, false)
      else (a.(free := a.free[1..], data := a.data + {a.free[0]}), true)
    case MapAt(virt, phys, flags) => AbsMap(a, Vpn(virt), LeafMapping(phys, flags))
    case TakePageAt(virt) => AbsAllocateAt(a, Vpn(virt))
  }

  lemma StepRefines(s: State, data: set<nat>, op: Op)
    requires Valid(s, data) && Allowed(AbsOf(s, data).large, op)
    ensures var (s', data', ok) := Step(s, data, op);
      && Valid(s', data') && (AbsOf(s', data'), ok) == AbsStep(AbsOf(s, data), op)
      && AbsOf(s', data').large == AbsOf(s, data).large
  {
    match op
    case TakePage => if Free(s) != [] { AllocateStep(s, data); }
    case MapAt(virt, phys, flags) =>
      MapPageRefines(s, data, virt, phys, flags);
      DescendEffect(AbsOf(s, data), Vpn(virt), 0);
    case TakePageAt(virt) =>
      AllocatePageAtRefines(s, data, virt);
      if Free(s) != [] {
        var a := AbsOf(s, data);
        DescendEffect(a.(free := a.free[1..], data := a.data + {a.free[0]}), Vpn(virt), 0);
      }
  }

  // A run stops at the first panic.
  ghost function Run(s: State, data: set<nat>, ops: seq<Op>): (State, set<nat>, bool)
    requires Valid(s, data) && forall k :: 0 <= k < |ops| ==> Allowed(AbsOf(s, data).large, ops[k])
    decreases |ops|
  {
    if ops == [] then (s, data, true)
    else
      StepRefines(s, data, ops[0]);
      var (s1, data1, ok) := Step(s, data, ops[0]);
      if ok then Run(s1, data1, ops[1..]) else (s1, data1, false)
  }

  ghost function AbsRun(a: Abs, ops: seq<Op>): (Abs, bool)
    decreases |ops|
  {
    if ops == [] then (a, true)
    else
      var (a1, ok) := AbsStep(a, ops[0]);
      if ok then AbsRun(a1, ops[1..]) else (a1, false)
  }

  // Every reachable state keeps bitmap, free pages, data pages and live tables
  // apart, and every run does exactly what the abstract machine does.
  lemma {:induction false} RunRefines(s: State, data: set<nat>, ops: seq<Op>)
    requires Valid(s, data) && forall k :: 0 <= k < |ops| ==> Allowed(AbsOf(s, data).large, ops[k])
    ensures var (s', data', ok) := Run(s, data, ops);
      Valid(s', data') && (AbsOf(s', data'), ok) == AbsRun(AbsOf(s, data), ops)
    decreases |ops|
  {
    if ops != [] {
      StepRefines(s, data, ops[0]);
      var (s1, data1, ok) := Step(s, data, ops[0]);
      if ok { RunRefines(s1, data1, ops[1..]); }
    }
  }

  // In the state that any run leaves, two different index paths never reach the
  // same table, and no table is a free page, a bitmap frame or a data page.
  lemma NothingShared(s: State, data: set<nat>, ops: seq<Op>, p: Path, q: Path)
    requires Valid(s, data) && forall k :: 0 <= k < |ops| ==> Allowed(AbsOf(s, data).large, ops[k])
    requires IsPath(p) && IsPath(q) && p != q
    ensures var (s', data', _) := Run(s, data, ops);
      var t := Frames(s'.ram);
      && InBounds(s'.ram, s'.bitmap, s'.totalPages)
      && (Walk(t, s'.root, p).Some? ==>
            Walk(t, s'.root, p) != Walk(t, s'.root, q)
            && var f := Walk(t, s'.root, p).value;
            f !in Free(s') && f !in BitmapFrames(s') && f !in data')
  {
    hide Run, Walk, Allowed;
    RunRefines(s, data, ops);
    var (s', data', _) := Run(s, data, ops);
    if Walk(Frames(s'.ram), s'.root, p).Some? {
      assert Walk(Frames(s'.ram), s'.root, p).value !in Avoid(s', data');
    }
  }

  // ------------------------------------------------------------- accounting

  // The paths of page v's tables below depth d.
  function PathsBelow(v: nat, d: nat): set<Path>
    requires d <= 3
    decreases 3 - d
  {
    if d == 3 then {} else {PathOf(v)[..d + 1]} + PathsBelow(v, d + 1)
  }

  ghost function Missing(linked: iset<Path>, ps: set<Path>): set<Path> {
    set q | q in ps && q !in linked
  }

  lemma {:induction false} PathsBelowLength(v: nat, d: nat, q: Path)
    requires d <= 3 && q in PathsBelow(v, d)
    ensures d < |q| <= 3 && q == PathOf(v)[..|q|]
    decreases 3 - d
  {
    if d < 3 && q != PathOf(v)[..d + 1] { PathsBelowLength(v, d + 1, q); }
  }

  ghost function ToIset(s: set<Path>): iset<Path> { iset q | q in s }

  lemma MissingSplit(linked: iset<Path>, ps: set<Path>, qs: set<Path>)
    ensures Missing(linked, ps + qs) == Missing(linked, ps) + Missing(linked + ToIset(ps), qs)
    ensures |Missing(linked, ps + qs)| == |Missing(linked, ps)| + |Missing(linked + ToIset(ps), qs)|
    ensures (linked + ToIset(ps)) + ToIset(qs) == linked + ToIset(ps + qs)
  {
    var m1, m2 := Missing(linked, ps), Missing(linked + ToIset(ps), qs);
    assert Missing(linked, ps + qs) == m1 + m2;
    assert m1 !! m2;
  }

  lemma MissingOne(linked: iset<Path>, q: Path)
    ensures |Missing(linked, {q})| == if q in linked then 0 else 1
    ensures linked + ToIset({q}) == if q in linked then linked else linked + iset{q}
  {
    assert Missing(linked, {q}) == if q in linked then {} else {q};
  }

  lemma MissingNone(linked: iset<Path>)
    ensures |Missing(linked, {})| == 0 && linked + ToIset({}) == linked
  {
    assert Missing(linked, {}) == {};
  }

  // a' is a after linking the tables at ps, or after running out of pages.
  ghost predicate Outcome(a: Abs, a': Abs, ok: bool, ps: set<Path>) {
    var n := |Missing(a.linked, ps)|;
    && (ok <==> n <= |a.free|)
    && (ok ==> a' == a.(linked := a.linked + ToIset(ps), writable := a.writable + ToIset(Missing(a.linked, ps)),
                        free := a.free[n..]))
    && (!ok ==> a' == a.(linked := a'.linked, writable := a'.writable, free := []))
    && (!ok ==> a.linked <= a'.linked)
  }

  // A descent succeeds exactly when there is a free page for each missing
  // table; it takes that many from the front, and links them all.
  lemma {:induction false} DescendEffect(a: Abs, v: nat, d: nat)
    requires d <= 3
    ensures Outcome(a, AbsDescend(a, v, d).0, AbsDescend(a, v, d).1, PathsBelow(v, d))
    decreases 3 - d
  {
    if d == 3 {
      MissingNone(a.linked);
    } else {
      var q, ps := PathOf(v)[..d + 1], PathsBelow(v, d + 1);
      var (a', ok) := AbsDescend(a, v, d);
      if q in a.linked {
        DescendEffect(a, v, d + 1);
        OutcomeLinked(a, a', ok, q, ps);
      } else if a.free == [] {
        OutcomeStuck(a, q, ps);
      } else {
        DescendEffect(WithLink(a, q), v, d + 1);
        OutcomeCreated(a, a', ok, q, ps);
      }
    }
  }

  lemma OutcomeLinked(a: Abs, a': Abs, ok: bool, q: Path, ps: set<Path>)
    requires q in a.linked && Outcome(a, a', ok, ps)
    ensures Outcome(a, a', ok, {q} + ps)
  {
    MissingOne(a.linked, q);
    MissingSplit(a.linked, {q}, ps);
  }

  lemma OutcomeStuck(a: Abs, q: Path, ps: set<Path>)
    requires q !in a.linked && a.free == []
    ensures Outcome(a, a, false, {q} + ps)
  {
    MissingOne(a.linked, q);
    MissingSplit(a.linked, {q}, ps);
  }

  lemma OutcomeCreated(a: Abs, a': Abs, ok: bool, q: Path, ps: set<Path>)
    requires q !in a.linked && a.free != []
    requires Outcome(WithLink(a, q), a', ok, ps)
    ensures Outcome(a, a', ok, {q} + ps)
  {
    MissingOne(a.linked, q);
    MissingSplit(a.linked, {q}, ps);
    var n := |Missing(a.linked + iset{q}, ps)|;
    if ok { assert a.free[1..][n..] == a.free[n + 1..]; }
  }

  // All the 9-, 18- and 27-bit prefixes that the operations' pages need.
  function Prefixes(ops: seq<Op>): set<Path> {
    if ops == [] then {}
    else
      (match ops[0]
       case TakePage => {}
       case MapAt(virt, _, _) => PathsBelow(Vpn(virt), 0)
       case TakePageAt(virt) => PathsBelow(Vpn(virt), 0))
      + Prefixes(ops[1..])
  }

  // How many operations take a data page.
  function Taken(ops: seq<Op>): nat {
    if ops == [] then 0 else (if ops[0].MapAt? then 0 else 1) + Taken(ops[1..])
  }

  // What one operation needs: its data page and its missing tables.
  lemma StepEffect(a: Abs, op: Op)
    ensures var (a', ok) := AbsStep(a, op);
      var n := Taken([op]) + |Missing(a.linked, Prefixes([op]))|;
      && (ok <==> n <= |a.free|)
      && (ok ==> a'.free == a.free[n..] && a'.linked == a.linked + ToIset(Prefixes([op])))
  {
    assert Prefixes([op]) == (match op
                              case TakePage => {}
                              case MapAt(virt, _, _) => PathsBelow(Vpn(virt), 0)
                              case TakePageAt(virt) => PathsBelow(Vpn(virt), 0));
    match op
    case TakePage =>
      MissingNone(a.linked);
    case MapAt(virt, _, _) => DescendEffect(a, Vpn(virt), 0);
    case TakePageAt(virt) =>
      if a.free != [] {
        var a1 := a.(free := a.free[1..], data := a.data + {a.free[0]});
        DescendEffect(a1, Vpn(virt), 0);
      }
  }

  // Exact accounting over any run: it completes exactly when there are enough
  // free pages, and then has taken, from the lowest up, one page for every
  // prefix that had no table yet and one for every data page.
  lemma {:induction false} RunAccounting(a: Abs, ops: seq<Op>)
    ensures var (a', ok) := AbsRun(a, ops);
      var n := Taken(ops) + |Missing(a.linked, Prefixes(ops))|;
      && (ok <==> n <= |a.free|)
      && (ok ==> a'.free == a.free[n..] && a'.linked == a.linked + ToIset(Prefixes(ops)))
    decreases |ops|
  {
    if ops == [] {
      MissingNone(a.linked);
    } else {
      StepEffect(a, ops[0]);
      PrefixesOfFirst(ops);
      MissingSplit(a.linked, Prefixes([ops[0]]), Prefixes(ops[1..]));
      var (a1, ok) := AbsStep(a, ops[0]);
      if ok { RunAccounting(a1, ops[1..]); }
    }
  }

  lemma PrefixesOfFirst(ops: seq<Op>)
    requires ops != []
    ensures Prefixes(ops) == Prefixes([ops[0]]) + Prefixes(ops[1..])
    ensures Taken(ops) == Taken([ops[0]]) + Taken(ops[1..])
  {
    assert [ops[0]][1..] == [];
  }

  // From a zeroed PML4: one table for every distinct prefix, no more.
  lemma ZeroedRootAccounting(s: State, data: set<nat>, ops: seq<Op>)
    requires Valid(s, data) && s.root < FrameCount(s.ram) && Frames(s.ram)[s.root] == ZeroTable()
    requires forall k :: 0 <= k < |ops| ==> Allowed(AbsOf(s, data).large, ops[k])
    ensures var (s', _, ok) := Run(s, data, ops);
      && (ok <==> Taken(ops) + |Prefixes(ops)| <= |Free(s)|)
      && Sound(s') && (ok ==> |Free(s)| - |Free(s')| == Taken(ops) + |Prefixes(ops)|)
  {
    RunRefines(s, data, ops);
    var a := AbsOf(s, data);
    RunAccounting(a, ops);
    forall q | q in Prefixes(ops) ensures q !in a.linked {
      PrefixesAreNonEmpty(ops, q);
      if IsPath(q) {
        assert Walk(Frames(s.ram), s.root, []) == Some(s.root);
        EmptyRoot(Frames(s.ram), s.root, q);
      }
    }
    assert Missing(a.linked, Prefixes(ops)) == Prefixes(ops);
  }

  lemma {:induction false} PrefixesAreNonEmpty(ops: seq<Op>, q: Path)
    requires q in Prefixes(ops)
    ensures q != []
  {
    match ops[0]
    case TakePage => PrefixesAreNonEmpty(ops[1..], q);
    case MapAt(virt, _, _) =>
      if q in PathsBelow(Vpn(virt), 0) { PathsBelowLength(Vpn(virt), 0, q); } else { PrefixesAreNonEmpty(ops[1..], q); }
    case TakePageAt(virt) =>
      if q in PathsBelow(Vpn(virt), 0) { PathsBelowLength(Vpn(virt), 0, q); } else { PrefixesAreNonEmpty(ops[1..], q); }
  }

  lemma {:induction false} EmptyRoot(t: seq<Table>, root: nat, q: Path)
    requires root < |t| && t[root] == ZeroTable() && IsPath(q) && q != []
    ensures Walk(t, root, q).None?
    decreases |q|
  {
    if |q| > 1 {
      EmptyRoot(t, root, q[..|q| - 1]);
    } else {
      assert q[..|q| - 1] == [];
      assert t[root][q[|q| - 1]] == 0;
      assert Slot(t, root, q) == Absent;
    }
  }

  // ------------------------------------------------------------- translations

  function Target(op: Op): Option<nat> {
    match op
    case TakePage => None
    case MapAt(virt, _, _) => Some(Vpn(virt))
    case TakePageAt(virt) => Some(Vpn(virt))
  }

  // One operation changes the translation of its own page only.
  lemma StepTranslation(a: Abs, op: Op, v: nat)
    requires v in a.space
    ensures var (a', ok) := AbsStep(a, op);
      && v in a'.space
      && (!ok || Target(op) != Some(v) ==> a'.space[v] == a.space[v])
      && (ok && Target(op) == Some(v) && op.MapAt? ==>
            a'.space[v] == Some(LeafMapping(op.phys, op.flags)))
      && (ok && Target(op) == Some(v) && op.TakePageAt? ==>
            a.free != [] && a.free[0] in a'.data
            && a'.space[v] == Some(Mapping(a.free[0], Or(PTE_WRITABLE, PTE_PRESENT))))
  {
    match op
    case TakePage =>
    case MapAt(virt, _, _) => DescendEffect(a, Vpn(virt), 0);
    case TakePageAt(virt) =>
      if a.free != [] {
        DescendEffect(a.(free := a.free[1..], data := a.data + {a.free[0]}), Vpn(virt), 0);
      }
  }

  // Data pages stay data.
  lemma StepKeepsData(a: Abs, op: Op)
    ensures a.data <= AbsStep(a, op).0.data
  {
    match op
    case TakePage =>
    case MapAt(virt, _, _) => DescendEffect(a, Vpn(virt), 0);
    case TakePageAt(virt) =>
      if a.free != [] {
        DescendEffect(a.(free := a.free[1..], data := a.data + {a.free[0]}), Vpn(virt), 0);
      }
  }

  lemma {:induction false} RunKeepsData(a: Abs, ops: seq<Op>)
    ensures a.data <= AbsRun(a, ops).0.data
    decreases |ops|
  {
    if ops != [] {
      StepKeepsData(a, ops[0]);
      var (a1, ok) := AbsStep(a, ops[0]);
      if ok { RunKeepsData(a1, ops[1..]); }
    }
  }

  // A page that no operation targets translates as before the run; a page that
  // the j-th operation is the last to target translates as that one says: to
  // the given frame and flags, or writable to a frame that is data.
  lemma {:induction false} RunTranslation(a: Abs, ops: seq<Op>, v: nat)
    requires v in a.space && AbsRun(a, ops).1
    ensures var a' := AbsRun(a, ops).0;
      && v in a'.space
      && ((forall k :: 0 <= k < |ops| ==> Target(ops[k]) != Some(v)) ==> a'.space[v] == a.space[v])
      && (forall j :: 0 <= j < |ops| && ops[j].MapAt? && LastTarget(ops, j, v) ==>
            a'.space[v] == Some(LeafMapping(ops[j].phys, ops[j].flags)))
      && (forall j :: 0 <= j < |ops| && ops[j].TakePageAt? && LastTarget(ops, j, v) ==> ToData(a', v))
    decreases |ops|
  {
    if ops != [] {
      var (a1, _) := AbsStep(a, ops[0]);
      StepTranslation(a, ops[0], v);
      RunKeepsData(a1, ops[1..]);
      var rest := ops[1..];
      RunTranslation(a1, rest, v);
      assert forall k :: 0 <= k < |rest| ==> rest[k] == ops[k + 1];
      forall j | 0 <= j < |ops| && ops[j].MapAt? && LastTarget(ops, j, v)
        ensures AbsRun(a, ops).0.space[v] == Some(LeafMapping(ops[j].phys, ops[j].flags))
      {
        if j > 0 { assert LastTarget(rest, j - 1, v); }
      }
      forall j | 0 <= j < |ops| && ops[j].TakePageAt? && LastTarget(ops, j, v) ensures ToData(AbsRun(a, ops).0, v) {
        if j > 0 { assert LastTarget(rest, j - 1, v); }
      }
    }
  }

  // Page v is writable and leads to a data page.
  ghost predicate ToData(a: Abs, v: nat) {
    v in a.space && a.space[v].Some? && a.space[v].value.frame in a.data
    && a.space[v].value.attributes == Or(PTE_WRITABLE, PTE_PRESENT)
  }

  predicate LastTarget(ops: seq<Op>, j: nat, v: nat)
    requires j < |ops|
  {
    Target(ops[j]) == Some(v) && forall k :: j < k < |ops| ==> Target(ops[k]) != Some(v)
  }

  // ------------------------------------------------------------- access rights

  // The processor grants writing (user access) to page v when the leaf and
  // every table entry above it do.
  ghost predicate MayWrite(a: Abs, v: nat) {
    v in a.space && a.space[v].Some? && And(a.space[v].value.attributes, PTE_WRITABLE) != 0
    && forall d :: 1 <= d <= 3 ==> PathOf(v)[..d] in a.writable
  }

  ghost predicate MayUse(a: Abs, v: nat) {
    v in a.space && a.space[v].Some? && And(a.space[v].value.attributes, PTE_USER) != 0
    && forall d :: 1 <= d <= 3 ==> PathOf(v)[..d] in a.user
  }

  ghost predicate NoneForbidsWriting(a: Abs, v: nat) {
    forall d :: 1 <= d <= 3 ==> !(PathOf(v)[..d] in a.linked && PathOf(v)[..d] !in a.writable)
  }

  // The given flags take effect for writing unless an existing table forbids
  // it; but new tables never grant user access, so PTE_USER takes effect only
  // where all three tables already existed and granted it.
  lemma MapRights(a: Abs, v: nat, phys: u64, flags: u64)
    requires v < VPN_LIMIT && AbsMap(a, v, LeafMapping(phys, flags)).1
    ensures var a' := AbsMap(a, v, LeafMapping(phys, flags)).0;
      && (MayWrite(a', v) <==> And(flags, PTE_WRITABLE) != 0 && NoneForbidsWriting(a, v))
      && (MayUse(a', v) <==> And(flags, PTE_USER) != 0 && forall d :: 1 <= d <= 3 ==> PathOf(v)[..d] in a.user)
  {
    var a' := AbsMap(a, v, LeafMapping(phys, flags)).0;
    DescendEffect(a, v, 0);
    LeafRights(phys, flags, PTE_WRITABLE);
    LeafRights(phys, flags, PTE_USER);
    forall d | 1 <= d <= 3
      ensures PathOf(v)[..d] in a'.writable <==> !(PathOf(v)[..d] in a.linked && PathOf(v)[..d] !in a.writable)
    {
      PathsBelowAll(v, d);
    }
  }

  // Where the first link does not grant user access already, as on a path without
  // tables, a page asked for with PTE_USER is mapped, carries the flag, and still
  // grants no user access.
  lemma UserFlagLost(a: Abs, v: nat, phys: u64, flags: u64)
    requires v < VPN_LIMIT && PathOf(v)[..1] !in a.user && |a.free| >= 3 && And(flags, PTE_USER) != 0
    ensures var (a', ok) := AbsMap(a, v, LeafMapping(phys, flags));
      ok && v in a'.space && a'.space[v] == Some(LeafMapping(phys, flags))
      && And(a'.space[v].value.attributes, PTE_USER) != 0 && !MayUse(a', v)
  {
    DescendEffect(a, v, 0);
    ThreePaths(a.linked, v);
    LeafRights(phys, flags, PTE_USER);
    MapRights(a, v, phys, flags);
  }

  lemma ThreePaths(linked: iset<Path>, v: nat)
    ensures |Missing(linked, PathsBelow(v, 0))| <= 3
  {
    var p := PathOf(v);
    var three := {p[..1], p[..2], p[..3]};
    assert PathsBelow(v, 3) == {};
    assert PathsBelow(v, 2) == {p[..3]} + PathsBelow(v, 3);
    assert PathsBelow(v, 1) == {p[..2]} + PathsBelow(v, 2);
    assert PathsBelow(v, 0) == {p[..1]} + PathsBelow(v, 1);
    assert PathsBelow(v, 0) == three;
    AtMost(p[..1], p[..2], p[..3], Missing(linked, three));
  }

  lemma AtMost<T>(x: T, y: T, z: T, s: set<T>)
    requires s <= {x, y, z}
    ensures |s| <= 3
  {
    var rest := s - {x} - {y};
    assert rest <= {z};
    assert rest == {} || rest == {z};
    assert |s| <= |s - {x}| + 1;
    assert |s - {x}| <= |s - {x} - {y}| + 1;
  }

  lemma PathsBelowAll(v: nat, d: nat)
    requires 1 <= d <= 3
    ensures PathOf(v)[..d] in PathsBelow(v, 0)
  {
    assert PathsBelow(v, 0) == {PathOf(v)[..1]} + PathsBelow(v, 1);
    assert PathsBelow(v, 1) == {PathOf(v)[..2]} + PathsBelow(v, 2);
    assert PathsBelow(v, 2) == {PathOf(v)[..3]} + PathsBelow(v, 3);
  }

  // ------------------------------------------------------------- allocation order

  // The addresses AllocatePage returns when called n times.
  ghost function Returned(s: State, data: set<nat>, n: nat): seq<nat>
    requires Valid(s, data)
    decreases n
  {
    if n == 0 || Free(s) == [] then []
    else
      AllocateStep(s, data);
      var (s1, p) := Allocate(s).value;
      [PAGE_SIZE * p] + Returned(s1, data + {p}, n - 1)
  }

  // The k-th call returns the k-th smallest page that was free at the start, so
  // the addresses ascend, are never null or below 1 MiB, and run out after
  // exactly the initial number of free pages.
  lemma {:induction false} AllocationOrder(s: State, data: set<nat>, n: nat)
    requires Valid(s, data)
    ensures var r := Returned(s, data, n);
      && |r| == (if n <= |Free(s)| then n else |Free(s)|)
      && (forall k :: 0 <= k < |r| ==> r[k] == PAGE_SIZE * Free(s)[k] && r[k] >= 0x10_0000)
      && (forall j, k :: 0 <= j < k < |r| ==> r[j] < r[k])
    decreases n
  {
    FreeFromSorted(s.ram, s.bitmap, s.totalPages, 0);
    if n > 0 && Free(s) != [] {
      AllocateStep(s, data);
      var (s1, p) := Allocate(s).value;
      AllocationOrder(s1, data + {p}, n - 1);
      var r, rest := Returned(s, data, n), Returned(s1, data + {p}, n - 1);
      assert Free(s1) == Free(s)[1..];
      forall k | 0 <= k < |r| ensures r[k] == PAGE_SIZE * Free(s)[k] && r[k] >= 0x10_0000 {
        if k > 0 { assert r[k] == rest[k - 1] && Free(s)[k] == Free(s1)[k - 1]; }
      }
    }
  }
}
