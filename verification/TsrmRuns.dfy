/**
Threads running TSRM side by side.  Every mutex-protected body is one step; the unlocked read of
the TLS pointer, the locked search and the final unlocked read of ts_resource_ex are three, so
other threads may act between them.
*/
module TsrmRuns {
  import opened TsrmMemory
  import opened TsrmTable

  // Where a thread stands inside ts_resource_ex(id, th_id).
  datatype Pc =
    | Idle
    | Wants(id: nat, who: Tid)              // about to lock and search for who's entry
    | Reads(id: nat, who: Tid, addr: Addr)  // about to read the slot, outside the mutex

  datatype World = World(mem: Mem, pc: map<Tid, Pc>, results: map<Tid, Result>)

  datatype Label =
    | CallFetch(me: Tid, id: nat, who: Option<Tid>)
    | LockedSearch(me: Tid)
    | FinishRead(me: Tid)
    | CallAllocId(me: Tid, size: nat, hasCtor: bool, hasDtor: bool)
    | CallFreeId(me: Tid, j: nat)
    | CallFreeThread(me: Tid)
    | CallFreeWorkers(me: Tid)
    | CallNewContext(me: Tid)
    | CallSetContext(me: Tid, ctx: Option<Addr>)
    | CallFreeContext(me: Tid, a: Addr)

  function PcOf(w: World, t: Tid): Pc { if t in w.pc then w.pc[t] else Idle }

  ghost predicate Enabled(w: World, l: Label) {
    match l
    case LockedSearch(me) => PcOf(w, me).Wants?
    case FinishRead(me) => PcOf(w, me).Reads?
    case CallFreeId(me, j) => PcOf(w, me).Idle? && j < |w.mem.types|
    case CallFreeContext(me, a) =>
      PcOf(w, me).Idle? && a in w.mem.heap && !Linked(w.mem, a) && forall t :: TlsOf(w.mem, t) != Some(a)
    case _ => PcOf(w, l.me).Idle?
  }

  ghost function Next(w: World, l: Label): World
    requires Inv(w.mem) && Enabled(w, l)
  {
    var m := w.mem;
    match l
    case CallFetch(me, id, who) =>
      w.(pc := w.pc[me := match who
                          case Some(t) => Wants(id, t)
                          case None => match TlsOf(m, me)
                                       case Some(a) => Reads(id, me, a)
                                       case None => Wants(id, me)])
    case LockedSearch(me) =>
      var who := PcOf(w, me).who;
      (match AddrOf(m, who)
       case Some(a) => w.(pc := w.pc[me := Reads(PcOf(w, me).id, who, a)])
       case None => w.(mem := AddThread(m, me, who)))
    case FinishRead(me) =>
      w.(pc := w.pc[me := Idle], results := w.results[me := Read(m, PcOf(w, me).addr, PcOf(w, me).id)])
    case CallAllocId(_, size, c, d) => w.(mem := AllocId(m, size, c, d))
    case CallFreeId(_, j) => w.(mem := FreeId(m, j))
    case CallFreeThread(me) => w.(mem := FreeThread(m, me))
    case CallFreeWorkers(me) => w.(mem := FreeWorkers(m, me))
    case CallNewContext(me) => w.(mem := NewContext(m, me))
    case CallSetContext(me, ctx) => w.(mem := SetContext(m, me, ctx))
    case CallFreeContext(_, a) => w.(mem := Release(m, a))
  }

  // ---------------------------------------------------------------- every step keeps the invariant

  lemma NextInv(w: World, l: Label)
    requires Inv(w.mem) && Enabled(w, l)
    ensures Inv(Next(w, l).mem)
  {
    var m := w.mem;
    match l
    case LockedSearch(me) =>
      if AddrOf(m, PcOf(w, me).who).None? { AddThreadInv(m, me, PcOf(w, me).who); }
    case CallAllocId(_, size, c, d) => AllocIdInv(m, size, c, d);
    case CallFreeId(_, j) => FreeIdInv(m, j);
    case CallFreeThread(me) => FreeThreadInv(m, me);
    case CallFreeWorkers(me) => FreeWorkersInv(m, me);
    case CallNewContext(me) => ContextInv(m, me);
    case CallSetContext(me, ctx) => SetContextInv(m, me, ctx);
    case CallFreeContext(_, a) => FreeContextInv(m, a);
    case _ =>
  }

  lemma SetContextInv(m: Mem, me: Tid, ctx: Option<Addr>)
    requires Inv(m)
    ensures Inv(SetContext(m, me, ctx))
  {
    var m' := SetContext(m, me, ctx);
    HeapInvIgnoresLinks(m, m');
    forall i | 0 <= i < |m'.buckets| ensures ChainOk(m', i) { assert ChainOk(m, i); }
    forall x | Linked(m', x) ensures Complete(m', x) { assert Linked(m, x) && Complete(m, x); }
  }

  ghost predicate ValidRun(w: World, ls: seq<Label>)
    requires Inv(w.mem)
    decreases |ls|
  {
    ls == [] || (Enabled(w, ls[0]) && (NextInv(w, ls[0]); ValidRun(Next(w, ls[0]), ls[1..])))
  }

  ghost function Exec(w: World, ls: seq<Label>): World
    requires Inv(w.mem) && ValidRun(w, ls)
    decreases |ls|
  {
    if ls == [] then w else (NextInv(w, ls[0]); Exec(Next(w, ls[0]), ls[1..]))
  }

  /** In every reachable state: the table is well formed and every block's life is exact so far. */
  lemma {:induction false} RunsKeepInv(w: World, ls: seq<Label>)
    requires Inv(w.mem) && ValidRun(w, ls)
    ensures Inv(Exec(w, ls).mem)
    decreases |ls|
  {
    if ls != [] {
      NextInv(w, ls[0]);
      RunsKeepInv(Next(w, ls[0]), ls[1..]);
    }
  }

  // ---------------------------------------------------------------- stability of a fetched pointer

  /** The steps that take away thread t's entry. */
  predicate Evicts(m: Mem, l: Label, t: Tid)
    requires |m.buckets| > 0
  {
    match l
    case CallFreeThread(x) => x == t
    case CallFreeWorkers(x) => LosesTo(m, t, x)
    case _ => false
  }

  /** The steps that take away the block thread t has for resource j. */
  predicate Removes(m: Mem, l: Label, t: Tid, j: nat)
    requires |m.buckets| > 0
  {
    Evicts(m, l, t) || (l.CallFreeId? && l.j == j)
  }

  lemma AddrStep(w: World, l: Label, t: Tid)
    requires Inv(w.mem) && Enabled(w, l) && AddrOf(w.mem, t).Some?
    ensures |Next(w, l).mem.buckets| == |w.mem.buckets|
    ensures AddrOf(Next(w, l).mem, t) == if Evicts(w.mem, l, t) then None else AddrOf(w.mem, t)
  {
    var m := w.mem;
    NextInv(w, l);
    match l
    case LockedSearch(me) =>
      if AddrOf(m, PcOf(w, me).who).None? { AddThreadInv(m, me, PcOf(w, me).who); }
    case CallAllocId(_, size, c, d) =>
      AllocIdInv(m, size, c, d);
      SurvivorsKeepAddr(m, AllocId(m, size, c, d), t) by { SameLinks(m, AllocId(m, size, c, d)); }
    case CallFreeId(_, j) =>
      FreeIdInv(m, j);
      SurvivorsKeepAddr(m, FreeId(m, j), t) by { SameLinks(m, FreeId(m, j)); }
    case CallFreeThread(me) => FreeThreadInv(m, me);
    case CallFreeWorkers(me) => FreeWorkersInv(m, me);
    case CallNewContext(me) => ContextInv(m, me);
    case CallSetContext(me, ctx) => SurvivorsKeepAddr(m, SetContext(m, me, ctx), t);
    case CallFreeContext(_, a) => FreeContextInv(m, a);
    case _ =>
  }

  lemma SameLinks(m: Mem, m': Mem)
    requires TableInv(m) && TableInv(m') && m'.buckets == m.buckets && m'.heap.Keys == m.heap.Keys
    requires forall x :: x in m.heap ==> m'.heap[x].tid == m.heap[x].tid
    ensures forall x :: Linked(m, x) <==> Linked(m', x)
  {
  }

  /** A held block stays where it is until a step removes it, and then the slot is empty: exactly. */
  lemma SlotStep(w: World, l: Label, t: Tid, j: nat, b: Block)
    requires Inv(w.mem) && Enabled(w, l) && Slot(w.mem, t, j) == Some(b)
    ensures |Next(w, l).mem.buckets| == |w.mem.buckets|
    ensures Slot(Next(w, l).mem, t, j) == if Removes(w.mem, l, t, j) then None else Some(b)
  {
    hide HeapInv;
    var m := w.mem;
    var a := AddrOf(m, t).value;
    AddrStep(w, l, t);
    AddrOfLinked(m, t);
    match l
    case LockedSearch(me) =>
      if AddrOf(m, PcOf(w, me).who).None? { AddThreadInv(m, me, PcOf(w, me).who); }
    case CallAllocId(_, size, c, d) => AllocIdInv(m, size, c, d);
    case CallFreeId(_, i) => FreeIdInv(m, i);
    case CallFreeThread(me) => FreeThreadInv(m, me); AddrOfLinked(m, me);
    case CallFreeWorkers(me) => FreeWorkersInv(m, me);
    case CallNewContext(me) => ContextHeap(m, me);
    case CallSetContext(me, ctx) =>
    case CallFreeContext(_, x) =>
    case _ =>
  }

  // A dead block stays dead: its history is complete, and the log only grows.

  ghost predicate Grows(m: Mem, m': Mem) {
    m.log <= m'.log && m.origin <= m'.origin && m.idCount <= |m.types| && m.idCount <= m'.idCount <= |m'.types|
    && forall j :: 0 <= j < m.idCount ==> m'.types[j] == m.types[j].(done := m'.types[j].done)
  }

  lemma NextGrows(w: World, l: Label)
    requires Inv(w.mem) && Enabled(w, l)
    ensures Grows(w.mem, Next(w, l).mem)
  {
    var m := w.mem;
    match l
    case LockedSearch(me) => PopulateAppends(Link(NewEntry(m, me, PcOf(w, me).who), m.nextAddr, PcOf(w, me).who), m.nextAddr);
    case CallAllocId(_, size, c, d) => GrowAppends(NewType(m, size, c, d), Flatten(m.buckets), 0);
    case CallNewContext(me) => PopulateAppends(NewEntry(m, me, me), m.nextAddr);
    case CallFreeId(_, j) => ClearAllEffect(m, Flatten(m.buckets), 0, j);
    case CallFreeWorkers(me) => ReleaseOthersEffect(m, Chain(m, me), 0, me);
    case _ =>
  }

  lemma DeadStaysDead(m: Mem, m': Mem, b: Block)
    requires HeapInv(m) && HeapInv(m') && Grows(m, m') && b < |m.origin| && !Live(m, b)
    ensures b < |m'.origin| && m'.origin[b] == m.origin[b] && !Live(m', b)
  {
    assert LifeOk(m, b) && LifeOk(m', b);
    var j := m.origin[b];
    assert m'.types[j] == m.types[j].(done := m'.types[j].done);
    HistoryGrows(m.log, m'.log, b);
    LivesAreDistinct(m.types[j], m'.types[j].done, j, b);
  }

  lemma HistoryGrows(log: seq<Event>, log': seq<Event>, b: Block)
    requires log <= log'
    ensures |History(log, b)| <= |History(log', b)|
  {
    var more := log'[|log|..];
    assert log' == log + more;
    HistoryAppend(log, more, b);
  }

  lemma LivesAreDistinct(ty: ResType, done: bool, j: nat, b: Block)
    ensures |Born(ty.(done := done), j, b)| < |Buried(ty, j, b)|
  {
  }

  lemma SlotHolds(m: Mem, t: Tid, j: nat, b: Block)
    requires Inv(m) && Slot(m, t, j) == Some(b)
    ensures AddrOf(m, t).Some? && Holds(m, AddrOf(m, t).value, b) && m.origin[b] == j && Live(m, b)
  {
    AddrOfLinked(m, t);
    assert SlotsOk(m, AddrOf(m, t).value);
    assert Holds(m, AddrOf(m, t).value, b);
  }

  lemma RemovedIsDead(w: World, l: Label, t: Tid, j: nat, b: Block)
    requires Inv(w.mem) && Enabled(w, l) && Slot(w.mem, t, j) == Some(b) && Removes(w.mem, l, t, j)
    ensures !Live(Next(w, l).mem, b)
  {
    SlotHolds(w.mem, t, j, b);
    AddrOfLinked(w.mem, t);
    match l
    case CallFreeId(_, i) => FreeIdKills(w.mem, j, AddrOf(w.mem, t).value, b);
    case CallFreeThread(me) => FreeThreadKills(w.mem, t, b);
    case CallFreeWorkers(me) => FreeWorkersInv(w.mem, me); LosesAllHolders(w.mem, FreeWorkers(w.mem, me), b);
  }

  lemma LosesAllHolders(m: Mem, m': Mem, b: Block)
    requires m'.origin == m.origin
    requires forall x :: x in m'.heap ==> x in m.heap && m'.heap[x] == m.heap[x]
    requires forall x :: Holds(m, x, b) ==> x !in m'.heap
    ensures !Live(m', b)
  {
    forall x ensures !Holds(m', x, b) { if Holds(m', x, b) { assert Holds(m, x, b); } }
  }

  lemma FreeIdKills(m: Mem, j: nat, a: Addr, b: Block)
    requires Inv(m) && j < |m.types| && Linked(m, a) && Holds(m, a, b) && m.origin[b] == j
    ensures !Live(FreeId(m, j), b)
  {
    var m' := FreeId(m, j);
    FreeIdInv(m, j);
    forall x ensures !Holds(m', x, b) { if Holds(m', x, b) { assert Holds(m, x, b); } }
  }

  lemma FreeThreadKills(m: Mem, t: Tid, b: Block)
    requires Inv(m) && AddrOf(m, t).Some? && Holds(m, AddrOf(m, t).value, b)
    ensures !Live(FreeThread(m, t), b)
  {
    FreeThreadInv(m, t);
    LosesAllHolders(m, FreeThread(m, t), b);
  }

  ghost predicate Undisturbed(w: World, ls: seq<Label>, t: Tid, j: nat)
    requires Inv(w.mem) && ValidRun(w, ls)
    decreases |ls|
  {
    ls == [] || (!Removes(w.mem, ls[0], t, j) && (NextInv(w, ls[0]); Undisturbed(Next(w, ls[0]), ls[1..], t, j)))
  }

  lemma {:induction false} DeadOverRuns(w: World, ls: seq<Label>, b: Block)
    requires Inv(w.mem) && ValidRun(w, ls) && b < |w.mem.origin| && !Live(w.mem, b)
    ensures Inv(Exec(w, ls).mem) && !Live(Exec(w, ls).mem, b)
    decreases |ls|
  {
    if ls != [] {
      NextInv(w, ls[0]);
      NextGrows(w, ls[0]);
      DeadStaysDead(w.mem, Next(w, ls[0]).mem, b);
      DeadOverRuns(Next(w, ls[0]), ls[1..], b);
    }
  }

  /** Stability over whole runs: thread t still has block b for resource j after a run
      if and only if no step of the run took t's entry or freed j. */
  lemma {:induction false} PointerIsStable(w: World, ls: seq<Label>, t: Tid, j: nat, b: Block)
    requires Inv(w.mem) && ValidRun(w, ls) && Slot(w.mem, t, j) == Some(b)
    ensures Inv(Exec(w, ls).mem)
    ensures Slot(Exec(w, ls).mem, t, j) == Some(b) <==> Undisturbed(w, ls, t, j)
    ensures !Undisturbed(w, ls, t, j) ==> !Live(Exec(w, ls).mem, b)
    decreases |ls|
  {
    if ls != [] {
      var w' := Next(w, ls[0]);
      NextInv(w, ls[0]);
      SlotStep(w, ls[0], t, j, b);
      if Removes(w.mem, ls[0], t, j) {
        RemovedIsDead(w, ls[0], t, j, b);
        SlotHolds(w.mem, t, j, b);
        NextGrows(w, ls[0]);
        DeadOverRuns(w', ls[1..], b);
        if Slot(Exec(w', ls[1..]).mem, t, j) == Some(b) { SlotHolds(Exec(w', ls[1..]).mem, t, j, b); }
      } else {
        PointerIsStable(w', ls[1..], t, j, b);
      }
    }
  }

  /** Isolation: a block handed to one thread for one resource is never, then or at any later time of
      the run, handed to another thread or for another resource. */
  lemma BlocksAreNotShared(w: World, ls: seq<Label>, t: Tid, j: nat, t': Tid, j': nat, b: Block)
    requires Inv(w.mem) && ValidRun(w, ls) && Slot(w.mem, t, j) == Some(b)
    ensures Inv(Exec(w, ls).mem)
    ensures Slot(Exec(w, ls).mem, t', j') == Some(b) ==> t' == t && j' == j
  {
    PointerIsStable(w, ls, t, j, b);
    var m' := Exec(w, ls).mem;
    if Slot(m', t', j') == Some(b) {
      SlotHolds(m', t', j', b);
      SlotHolds(m', t, j, b);
      AddrOfLinked(m', t);
      AddrOfLinked(m', t');
    }
  }

  // ---------------------------------------------------------------- conservation

  /** Conservation: after any run from tsrm_startup and a final tsrm_shutdown, every block ever allocated
      has been constructed once if its type has a constructor, destroyed once if it has a destructor,
      and freed once, in that order, unless an interpreter context nobody freed still holds it. */
  lemma BlocksAreConserved(expectedThreads: nat, expectedResources: nat, ls: seq<Label>, me: Tid, b: Block)
    requires expectedThreads > 0
    requires var w := World(Startup(expectedThreads, expectedResources), map[], map[]);
      Inv(w.mem) && ValidRun(w, ls)
    ensures var w := World(Startup(expectedThreads, expectedResources), map[], map[]);
      var m := Exec(w, ls).mem;
      b < |m.origin| && (forall a :: Holds(m, a, b) ==> Linked(m, a)) ==>
        m.origin[b] < |m.types| && History(Shutdown(m, me).log, b) == Buried(m.types[m.origin[b]], m.origin[b], b)
  {
    var w := World(Startup(expectedThreads, expectedResources), map[], map[]);
    RunsKeepInv(w, ls);
    var m := Exec(w, ls).mem;
    if b < |m.origin| && forall a :: Holds(m, a, b) ==> Linked(m, a) {
      ShutdownBuries(m, me, b);
    }
  }

  // What a call of ts_allocate_id asks for.
  datatype Asked = Asked(size: nat, ctor: bool, dtor: bool)

  /** What the registrations of a run ask for, in their order. */
  function Registrations(ls: seq<Label>): seq<Asked> {
    if ls == [] then []
    else (match ls[0] case CallAllocId(_, size, c, d) => [Asked(size, c, d)] case _ => []) + Registrations(ls[1..])
  }

  predicate Answers(ty: ResType, asked: Asked) {
    ty.size == asked.size && (ty.hasCtor <==> asked.ctor) && (ty.hasDtor <==> asked.dtor)
  }

  // The ids from n on are those of the registrations asked, and the ids below n are what they were.
  // The table of types grows only when it is full, by one place.
  ghost predicate TypesFrom(m: Mem, m': Mem, n: nat, asked: seq<Asked>) {
    && n == m.idCount <= |m.types| && m'.idCount == n + |asked| <= |m'.types|
    && |m'.types| == (if m'.idCount > |m.types| then m'.idCount else |m.types|)
    && (forall j :: 0 <= j < n ==> m'.types[j] == m.types[j].(done := m'.types[j].done))
    && forall k :: 0 <= k < |asked| ==> Answers(m'.types[n + k], asked[k])
  }

  lemma StepRegisters(w: World, l: Label)
    requires Inv(w.mem) && Enabled(w, l)
    ensures TypesFrom(w.mem, Next(w, l).mem, w.mem.idCount, Registrations([l]))
  {
    var m := w.mem;
    assert [l][1..] == [];
    NextGrows(w, l);
    match l
    case CallAllocId(_, size, c, d) => GrowTypes(m, size, c, d);
    case CallFreeId(_, j) => ClearAllEffect(m, Flatten(m.buckets), 0, j);
    case CallFreeWorkers(me) => ReleaseOthersEffect(m, Chain(m, me), 0, me);
    case _ =>
  }

  /** Over any run, the types of the ids it registers are those asked for, one after the other. */
  lemma {:induction false} RunRegisters(w: World, ls: seq<Label>)
    requires Inv(w.mem) && ValidRun(w, ls)
    ensures TypesFrom(w.mem, Exec(w, ls).mem, w.mem.idCount, Registrations(ls))
    decreases |ls|
  {
    hide TypesFrom, Inv;
    if ls == [] {
      NothingRegistered(w.mem);
    } else {
      NextInv(w, ls[0]);
      StepRegisters(w, ls[0]);
      RunRegisters(Next(w, ls[0]), ls[1..]);
      TypesJoin(w.mem, Next(w, ls[0]).mem, Exec(w, ls).mem, Registrations([ls[0]]), Registrations(ls[1..]));
      RegistrationsStep(ls);
    }
  }

  lemma NothingRegistered(m: Mem)
    requires Inv(m)
    ensures TypesFrom(m, m, m.idCount, [])
  {
  }

  lemma RegistrationsStep(ls: seq<Label>)
    requires ls != []
    ensures Registrations(ls) == Registrations([ls[0]]) + Registrations(ls[1..])
  {
    assert [ls[0]][1..] == [];
  }

  lemma TypesJoin(m: Mem, m1: Mem, m2: Mem, x: seq<Asked>, y: seq<Asked>)
    requires TypesFrom(m, m1, m.idCount, x) && TypesFrom(m1, m2, m1.idCount, y)
    ensures TypesFrom(m, m2, m.idCount, x + y)
  {
    forall k | 0 <= k < |x + y| ensures Answers(m2.types[m.idCount + k], (x + y)[k]) {
      if k < |x| {
        assert Answers(m1.types[m.idCount + k], x[k]);
      } else {
        assert Answers(m2.types[m1.idCount + (k - |x|)], y[k - |x|]);
      }
    }
  }

  // The end of a block's life: the destructor if one was given, then free.
  function Taken(dtor: bool, j: nat, b: Block): seq<Event> {
    if dtor then [Dtor(j, Some(b)), Free(b)] else [Free(b)]
  }

  /**
  Every block of a run from tsrm_startup is made and unmade as its registration asked: allocated with
  that size, constructed and destroyed exactly if it gave a constructor and a destructor.  Behind a
  shutdown the life is complete, unless an interpreter context nobody freed still holds the block.
  */
  lemma BlocksAreAsRegistered(expectedThreads: nat, expectedResources: nat, ls: seq<Label>, me: Tid, b: Block)
    requires expectedThreads > 0
    requires var w := World(Startup(expectedThreads, expectedResources), map[], map[]);
      Inv(w.mem) && ValidRun(w, ls)
    ensures var w := World(Startup(expectedThreads, expectedResources), map[], map[]);
      var (m, n) := (Exec(w, ls).mem, |Registrations(ls)|);
      m.idCount == n && |m.types| == (if n > expectedResources then n else expectedResources) &&
      (b < |m.origin| ==>
        var j := m.origin[b];
        && j < n
        && var asked := Registrations(ls)[j];
           && History(m.log, b) == Created(asked.size, asked.ctor, j, b) + (if Live(m, b) then [] else Taken(asked.dtor, j, b))
           && ((forall a :: Holds(m, a, b) ==> Linked(m, a)) ==>
                 History(Shutdown(m, me).log, b) == Created(asked.size, asked.ctor, j, b) + Taken(asked.dtor, j, b)))
  {
    var w := World(Startup(expectedThreads, expectedResources), map[], map[]);
    RunsKeepInv(w, ls);
    RunRegisters(w, ls);
    var m := Exec(w, ls).mem;
    if b < |m.origin| {
      assert LifeOk(m, b);
      LifeIsAsked(m, b, Registrations(ls)[m.origin[b]]);
      BlocksAreConserved(expectedThreads, expectedResources, ls, me, b);
    }
  }

  lemma LifeIsAsked(m: Mem, b: Block, asked: Asked)
    requires m.idCount <= |m.types| && b < |m.origin| && LifeOk(m, b) && Answers(m.types[m.origin[b]], asked)
    ensures var j := m.origin[b];
      && History(m.log, b) == Created(asked.size, asked.ctor, j, b) + (if Live(m, b) then [] else Taken(asked.dtor, j, b))
      && Buried(m.types[j], j, b) == Created(asked.size, asked.ctor, j, b) + Taken(asked.dtor, j, b)
  {
    var j := m.origin[b];
    BornIsCreated(m.types[j], j, b);
    var made := Created(asked.size, asked.ctor, j, b);
    assert made + [] == made;
    assert Buried(m.types[j], j, b) == made + Taken(asked.dtor, j, b);
  }

  ghost predicate AllLinked(m: Mem) { forall a :: a in m.heap ==> Linked(m, a) }

  /** Only tsrm_new_interpreter_context makes an entry that is not linked. */
  lemma {:induction false} OnlyContextsAreUnlinked(w: World, ls: seq<Label>)
    requires Inv(w.mem) && ValidRun(w, ls) && AllLinked(w.mem)
    requires forall i :: 0 <= i < |ls| ==> !ls[i].CallNewContext?
    ensures AllLinked(Exec(w, ls).mem)
    decreases |ls|
  {
    if ls != [] {
      NextInv(w, ls[0]);
      StepKeepsLinked(w, ls[0]);
      OnlyContextsAreUnlinked(Next(w, ls[0]), ls[1..]);
    }
  }

  lemma StepKeepsLinked(w: World, l: Label)
    requires Inv(w.mem) && Enabled(w, l) && AllLinked(w.mem) && !l.CallNewContext?
    ensures AllLinked(Next(w, l).mem)
  {
    var m := w.mem;
    match l
    case LockedSearch(me) =>
      if AddrOf(m, PcOf(w, me).who).None? { AddThreadLinked(m, me, PcOf(w, me).who); }
    case CallAllocId(_, size, c, d) => AllocIdLinked(m, size, c, d);
    case CallFreeId(_, j) => FreeIdLinked(m, j);
    case CallFreeThread(me) => FreeThreadLeavesLinked(m, me);
    case CallFreeWorkers(me) => FreeWorkersLeavesLinked(m, me);
    case _ =>
  }

  lemma SurvivorsLinked(m: Mem, m': Mem)
    requires TableInv(m) && TableInv(m') && AllLinked(m)
    requires forall x :: x in m'.heap ==> x in m.heap && m'.heap[x] == m.heap[x]
    requires forall x :: x in m'.heap ==> AddrOf(m', m.heap[x].tid) == AddrOf(m, m.heap[x].tid)
    ensures AllLinked(m')
  {
    forall a | a in m'.heap ensures Linked(m', a) {
      AddrOfLinked(m, m.heap[a].tid);
      AddrOfLinked(m', m.heap[a].tid);
    }
  }

  lemma AllocIdLinked(m: Mem, size: nat, c: bool, d: bool)
    requires Inv(m) && AllLinked(m)
    ensures AllLinked(AllocId(m, size, c, d))
  {
    AllocIdInv(m, size, c, d);
    SameLinks(m, AllocId(m, size, c, d));
  }

  lemma FreeIdLinked(m: Mem, j: nat)
    requires Inv(m) && AllLinked(m) && j < |m.types|
    ensures AllLinked(FreeId(m, j))
  {
    FreeIdInv(m, j);
    SameLinks(m, FreeId(m, j));
  }

  lemma FreeThreadLeavesLinked(m: Mem, me: Tid)
    requires Inv(m) && AllLinked(m)
    ensures AllLinked(FreeThread(m, me))
  {
    FreeThreadInv(m, me);
    AddrOfLinked(m, me);
    forall x | x in FreeThread(m, me).heap ensures AddrOf(FreeThread(m, me), m.heap[x].tid) == AddrOf(m, m.heap[x].tid) {
      AddrOfLinked(m, m.heap[x].tid);
    }
    SurvivorsLinked(m, FreeThread(m, me));
  }

  lemma FreeWorkersLeavesLinked(m: Mem, me: Tid)
    requires Inv(m) && AllLinked(m)
    ensures AllLinked(FreeWorkers(m, me))
  {
    FreeWorkersInv(m, me);
    SurvivorsLinked(m, FreeWorkers(m, me));
  }

  lemma AddThreadLinked(m: Mem, me: Tid, who: Tid)
    requires Inv(m) && AllLinked(m)
    ensures AllLinked(AddThread(m, me, who))
  {
    var m' := AddThread(m, me, who);
    AddThreadHeap(m, me, who);
    assert m'.buckets[Bucket(m, who)][|Chain(m, who)|] == m.nextAddr;
    forall a | a in m'.heap ensures Linked(m', a) { if a != m.nextAddr { KeptInChain(m, m', a); } }
  }

  lemma KeptInChain(m: Mem, m': Mem, a: Addr)
    requires |m.buckets| == |m'.buckets| && Linked(m, a) && a in m'.heap && m'.heap[a].tid == m.heap[a].tid
    requires Chain(m, m.heap[a].tid) <= Chain(m', m.heap[a].tid)
    ensures Linked(m', a)
  {
    var c := Chain(m, m.heap[a].tid);
    var k :| 0 <= k < |c| && c[k] == a;
    assert Chain(m', m.heap[a].tid)[k] == a;
  }

  // ---------------------------------------------------------------- the unlocked fast path

  /** Every TLS pointer is what a search of the table would find. */
  ghost predicate TlsExact(m: Mem)
    requires |m.buckets| > 0
  {
    forall t :: TlsOf(m, t) == AddrOf(m, t)
  }

  /** The steps after which some TLS pointer disagrees with the table. */
  ghost predicate Breaks(w: World, l: Label)
    requires |w.mem.buckets| > 0
  {
    match l
    case LockedSearch(me) =>  // the caller's TLS pointer is set to another thread's new entry
      PcOf(w, me).Wants? && PcOf(w, me).who != me && AddrOf(w.mem, PcOf(w, me).who).None?
    case CallFreeWorkers(me) =>  // the TLS pointers of the evicted threads dangle
      exists t :: LosesTo(w.mem, t, me) && AddrOf(w.mem, t).Some?
    case CallSetContext(me, ctx) => ctx != AddrOf(w.mem, me)
    case _ => false
  }

  /** A step makes some TLS pointer disagree with the table if and only if it is one of Breaks. */
  lemma FastPathStep(w: World, l: Label)
    requires Inv(w.mem) && Enabled(w, l) && TlsExact(w.mem)
    ensures |Next(w, l).mem.buckets| > 0
    ensures TlsExact(Next(w, l).mem) <==> !Breaks(w, l)
  {
    hide HeapInv;
    var m := w.mem;
    NextInv(w, l);
    match l
    case LockedSearch(me) =>
      if AddrOf(m, PcOf(w, me).who).None? { AddThreadTls(m, me, PcOf(w, me).who); }
    case CallAllocId(_, size, c, d) => AllocIdInv(m, size, c, d); SameTls(m, AllocId(m, size, c, d));
    case CallFreeId(_, j) => FreeIdInv(m, j); SameTls(m, FreeId(m, j));
    case CallFreeThread(me) => FreeThreadInv(m, me);
    case CallFreeWorkers(me) => FreeWorkersTls(m, me);
    case CallNewContext(me) => ContextInv(m, me);
    case CallSetContext(me, ctx) =>
      forall t ensures AddrOf(SetContext(m, me, ctx), t) == AddrOf(m, t) { SurvivorsKeepAddr(m, SetContext(m, me, ctx), t); }
      assert TlsOf(SetContext(m, me, ctx), me) == ctx;
    case CallFreeContext(_, a) => FreeContextInv(m, a);
    case _ =>
  }

  lemma SameTls(m: Mem, m': Mem)
    requires TableInv(m) && TableInv(m') && m'.buckets == m.buckets && m'.heap.Keys == m.heap.Keys && m'.tls == m.tls
    requires forall x :: x in m.heap ==> m'.heap[x].tid == m.heap[x].tid
    requires TlsExact(m)
    ensures TlsExact(m')
  {
    forall t ensures TlsOf(m', t) == AddrOf(m', t) {
      SameLinks(m, m');
      SurvivorsKeepAddr(m, m', t);
      assert TlsOf(m, t) == AddrOf(m, t);
    }
  }

  lemma AddThreadTls(m: Mem, me: Tid, who: Tid)
    requires Inv(m) && TlsExact(m) && AddrOf(m, who).None?
    ensures |AddThread(m, me, who).buckets| > 0
    ensures TlsExact(AddThread(m, me, who)) <==> who == me
  {
    var m' := AddThread(m, me, who);
    AddThreadInv(m, me, who);
    AddrOfLinked(m, me);
    assert TlsOf(m', me) == Some(m.nextAddr);
    forall t | t != me ensures TlsOf(m', t) == AddrOf(m, t) { assert TlsOf(m, t) == AddrOf(m, t); }
  }

  lemma FreeWorkersTls(m: Mem, me: Tid)
    requires Inv(m) && TlsExact(m)
    ensures |FreeWorkers(m, me).buckets| > 0
    ensures TlsExact(FreeWorkers(m, me)) <==> !exists t :: LosesTo(m, t, me) && AddrOf(m, t).Some?
  {
    var m' := FreeWorkers(m, me);
    FreeWorkersInv(m, me);
    forall t ensures TlsOf(m', t) == AddrOf(m, t) { assert TlsOf(m, t) == AddrOf(m, t); }
    if t :| LosesTo(m, t, me) && AddrOf(m, t).Some? {
      assert TlsOf(m', t) != AddrOf(m', t);
    }
  }

  /** Where thread t stands inside a fetch for itself; when it reads, it reads its own linked entry. */
  ghost predicate PcSound(w: World, t: Tid)
    requires Inv(w.mem)
  {
    match PcOf(w, t)
    case Idle => true
    case Wants(_, who) => who == t
    case Reads(_, who, a) => who == t && AddrOf(w.mem, t) == Some(a)
  }

  /** Thread me's own pointers are right: its TLS pointer, if set, and the entry it is about to read. */
  ghost predicate Settled(w: World, me: Tid)
    requires Inv(w.mem)
  {
    (TlsOf(w.mem, me) == None || TlsOf(w.mem, me) == AddrOf(w.mem, me)) && PcSound(w, me)
  }

  /** The steps that take a settled thread's pointers away from the table: its own fetch for another
      thread, its own switch to a context that is not its entry, and a worker free by another thread of
      its bucket while it holds a pointer. */
  ghost predicate Unsettles(w: World, l: Label, me: Tid)
    requires |w.mem.buckets| > 0
  {
    match l
    case CallFetch(t, _, who) => t == me && who.Some? && who.value != me
    case CallSetContext(t, ctx) => t == me && ctx.Some? && ctx != AddrOf(w.mem, me)
    case CallFreeWorkers(t) =>
      LosesTo(w.mem, me, t) && AddrOf(w.mem, me).Some? && (TlsOf(w.mem, me).Some? || PcOf(w, me).Reads?)
    case _ => false
  }

  /** A settled thread stays settled if and only if the step, whoever makes it, is none of these. */
  lemma SettledStep(w: World, l: Label, me: Tid)
    requires Inv(w.mem) && Settled(w, me) && Enabled(w, l)
    ensures Inv(Next(w, l).mem)
    ensures Settled(Next(w, l), me) <==> !Unsettles(w, l, me)
  {
    NextInv(w, l);
    if l.CallFetch? || l.FinishRead? {
      SettledCall(w, l, me);
    } else if l.LockedSearch? {
      SettledSearch(w, l.me, me);
    } else if l.CallFreeThread? || l.CallFreeWorkers? {
      SettledFree(w, l, me);
    } else if l.CallSetContext? {
      SettledSwitch(w, l, me);
    } else {
      SettledQuietly(w, l, me);
      assert !Unsettles(w, l, me);
    }
  }

  lemma SettledCall(w: World, l: Label, me: Tid)
    requires Inv(w.mem) && Settled(w, me) && Enabled(w, l) && (l.CallFetch? || l.FinishRead?) && Inv(Next(w, l).mem)
    ensures Settled(Next(w, l), me) <==> !Unsettles(w, l, me)
  {
    assert Next(w, l).mem == w.mem;
  }

  lemma SettledFree(w: World, l: Label, me: Tid)
    requires Inv(w.mem) && Settled(w, me) && Enabled(w, l) && (l.CallFreeThread? || l.CallFreeWorkers?)
    requires Inv(Next(w, l).mem)
    ensures Settled(Next(w, l), me) <==> !Unsettles(w, l, me)
  {
    hide HeapInv;
    if l.CallFreeThread? { FreeThreadInv(w.mem, l.me); } else { FreeWorkersInv(w.mem, l.me); }
  }

  lemma SettledSwitch(w: World, l: Label, me: Tid)
    requires Inv(w.mem) && Settled(w, me) && Enabled(w, l) && l.CallSetContext? && Inv(Next(w, l).mem)
    ensures Settled(Next(w, l), me) <==> !Unsettles(w, l, me)
  {
    SurvivorsKeepAddr(w.mem, SetContext(w.mem, l.me, l.ctx), me);
  }

  lemma SettledSearch(w: World, t: Tid, me: Tid)
    requires Inv(w.mem) && Settled(w, me) && PcOf(w, t).Wants?
    ensures Inv(Next(w, LockedSearch(t)).mem) && Settled(Next(w, LockedSearch(t)), me)
  {
    var who := PcOf(w, t).who;
    NextInv(w, LockedSearch(t));
    if AddrOf(w.mem, who).None? { AddThreadInv(w.mem, t, who); }
  }

  /** The other steps change neither the thread's pointers nor where its entry is found. */
  lemma SettledQuietly(w: World, l: Label, me: Tid)
    requires Inv(w.mem) && Enabled(w, l) && Inv(Next(w, l).mem)
    requires l.CallAllocId? || l.CallFreeId? || l.CallNewContext? || l.CallFreeContext?
    ensures var w' := Next(w, l);
      w'.pc == w.pc && TlsOf(w'.mem, me) == TlsOf(w.mem, me) && AddrOf(w'.mem, me) == AddrOf(w.mem, me)
  {
    hide HeapInv;
    var m := w.mem;
    match l
    case CallAllocId(_, size, c, d) => AllocIdInv(m, size, c, d); EmptyStays(m, AllocId(m, size, c, d), me);
    case CallFreeId(_, j) => FreeIdInv(m, j); EmptyStays(m, FreeId(m, j), me);
    case CallNewContext(t) => ContextInv(m, t);
    case CallFreeContext(_, a) => FreeContextInv(m, a);
  }

  lemma EmptyStays(m: Mem, m': Mem, u: Tid)
    requires TableInv(m) && TableInv(m') && m'.buckets == m.buckets && m'.heap.Keys == m.heap.Keys
    requires forall x :: x in m.heap ==> m'.heap[x].tid == m.heap[x].tid
    ensures AddrOf(m', u) == AddrOf(m, u)
  {
    SameLinks(m, m');
    SurvivorsKeepAddr(m, m', u);
  }

  /** A run in which no step unsettles thread me; nothing is asked of what the others do among themselves. */
  ghost predicate CalmRun(w: World, ls: seq<Label>, me: Tid)
    requires Inv(w.mem) && ValidRun(w, ls)
    decreases |ls|
  {
    ls == [] || (!Unsettles(w, ls[0], me) && (NextInv(w, ls[0]); CalmRun(Next(w, ls[0]), ls[1..], me)))
  }

  lemma {:induction false} CalmRunsStaySettled(w: World, ls: seq<Label>, me: Tid)
    requires Inv(w.mem) && ValidRun(w, ls) && Settled(w, me) && CalmRun(w, ls, me)
    ensures Inv(Exec(w, ls).mem) && Settled(Exec(w, ls), me)
    decreases |ls|
  {
    if ls != [] {
      SettledStep(w, ls[0], me);
      CalmRunsStaySettled(Next(w, ls[0]), ls[1..], me);
    }
  }

  /** What a locked search of the table gives thread me for an id. */
  function TableResult(m: Mem, me: Tid, id: nat): Result
    requires |m.buckets| > 0
  {
    if AddrOf(m, me).None? then Fault
    else if id == 0 then Storage(AddrOf(m, me).value)
    else if id <= m.idCount then Got(Slot(m, me, id - 1))
    else Fault
  }

  /** Fast-path agreement: after any run that does not unsettle the thread itself, a fetch it finishes, by
      either path, gives what a locked search of the table would, and never touches a freed entry. */
  lemma FetchAgreesWithTable(w: World, ls: seq<Label>, me: Tid)
    requires Inv(w.mem) && ValidRun(w, ls) && Settled(w, me) && CalmRun(w, ls, me)
    requires PcOf(Exec(w, ls), me).Reads?
    ensures var w1 := Exec(w, ls);
      && Inv(w1.mem) && AddrOf(w1.mem, me).Some?
      && Next(w1, FinishRead(me)).results[me] == TableResult(w1.mem, me, PcOf(w1, me).id)
  {
    CalmRunsStaySettled(w, ls, me);
    SettledRead(Exec(w, ls), me);
  }

  lemma SettledRead(w: World, me: Tid)
    requires Inv(w.mem) && Settled(w, me) && PcOf(w, me).Reads?
    ensures AddrOf(w.mem, me).Some?
    ensures Next(w, FinishRead(me)).results[me] == TableResult(w.mem, me, PcOf(w, me).id)
  {
    AddrOfLinked(w.mem, me);
    assert Complete(w.mem, AddrOf(w.mem, me).value);
  }

  /** Two fetches of one id by one thread give the same non-NULL pointer, whatever steps of any threads lie
      in between, short of removing the pointer or unsettling the thread itself. */
  lemma FetchTwice(w: World, ls: seq<Label>, me: Tid, id: nat, b: Block)
    requires Inv(w.mem) && ValidRun(w, ls) && Settled(w, me) && CalmRun(w, ls, me)
    requires PcOf(w, me).Reads? && PcOf(w, me).id == id > 0 && Next(w, FinishRead(me)).results[me] == Got(Some(b))
    requires Undisturbed(w, ls, me, id - 1)
    requires PcOf(Exec(w, ls), me).Reads? && PcOf(Exec(w, ls), me).id == id
    ensures Inv(Exec(w, ls).mem) && Next(Exec(w, ls), FinishRead(me)).results[me] == Got(Some(b))
  {
    SettledRead(w, me);
    FetchAgreesWithTable(w, ls, me);
    PointerIsStable(w, ls, me, id - 1, b);
    var m1 := Exec(w, ls).mem;
    AddrOfLinked(m1, me);
    assert Complete(m1, AddrOf(m1, me).value);
  }

  // ---------------------------------------------------------------- a fetch without interruption

  /** The steps of one fetch that nobody interrupts: a second search only behind an allocation. */
  ghost function FetchSteps(m: Mem, me: Tid, id: nat, th: Option<Tid>): seq<Label>
    requires |m.buckets| > 0
  {
    if th.None? && TlsOf(m, me).Some? then [CallFetch(me, id, th), FinishRead(me)]
    else if AddrOf(m, Target(me, th)).Some? then [CallFetch(me, id, th), LockedSearch(me), FinishRead(me)]
    else [CallFetch(me, id, th), LockedSearch(me), LockedSearch(me), FinishRead(me)]
  }

  lemma OneStep(w: World, ls: seq<Label>)
    requires Inv(w.mem) && ls != [] && Enabled(w, ls[0])
    ensures Inv(Next(w, ls[0]).mem)
    ensures ValidRun(Next(w, ls[0]), ls[1..]) ==> ValidRun(w, ls) && Exec(w, ls) == Exec(Next(w, ls[0]), ls[1..])
  {
    NextInv(w, ls[0]);
  }

  /** Such a run is the fetch of the sequential model: same memory, same result, thread idle again. */
  lemma UninterruptedFetch(w: World, me: Tid, id: nat, th: Option<Tid>)
    requires Inv(w.mem) && PcOf(w, me).Idle?
    ensures var ls := FetchSteps(w.mem, me, id, th);
      && ValidRun(w, ls) && var w1 := Exec(w, ls);
      && w1.mem == FetchMem(w.mem, me, th) && me in w1.results
      && w1.results[me] == FetchResult(w.mem, me, id, th) && PcOf(w1, me).Idle?
  {
    var w1 := Next(w, FetchSteps(w.mem, me, id, th)[0]);
    OneStep(w, FetchSteps(w.mem, me, id, th));
    if PcOf(w1, me).Reads? {
      FetchFast(w, me, id, th);
    } else if AddrOf(w.mem, Target(me, th)).Some? {
      FetchFound(w, me, id, th);
    } else {
      FetchMissing(w, me, id, th);
    }
  }

  // The run does what the fetch of the manager does.
  ghost predicate Fetches(w: World, ls: seq<Label>, me: Tid, id: nat, th: Option<Tid>)
    requires Inv(w.mem)
  {
    ValidRun(w, ls) &&
    var w1 := Exec(w, ls);
    && w1.mem == FetchMem(w.mem, me, th) && me in w1.results
    && w1.results[me] == FetchResult(w.mem, me, id, th) && PcOf(w1, me).Idle?
  }

  lemma FetchFast(w: World, me: Tid, id: nat, th: Option<Tid>)
    requires Inv(w.mem) && PcOf(w, me).Idle? && PcOf(Next(w, FetchSteps(w.mem, me, id, th)[0]), me).Reads?
    ensures Fetches(w, FetchSteps(w.mem, me, id, th), me, id, th)
  {
    var ls := FetchSteps(w.mem, me, id, th);
    OneStep(w, ls);
    FinishOnly(Next(w, ls[0]), me);
    assert ls[1..] == [FinishRead(me)];
  }

  lemma FetchFound(w: World, me: Tid, id: nat, th: Option<Tid>)
    requires Inv(w.mem) && PcOf(w, me).Idle? && !PcOf(Next(w, FetchSteps(w.mem, me, id, th)[0]), me).Reads?
    requires AddrOf(w.mem, Target(me, th)).Some?
    ensures Fetches(w, FetchSteps(w.mem, me, id, th), me, id, th)
  {
    var ls := FetchSteps(w.mem, me, id, th);
    OneStep(w, ls);
    SearchThenFinish(Next(w, ls[0]), me);
    assert ls[1..] == [LockedSearch(me), FinishRead(me)];
  }

  lemma FetchMissing(w: World, me: Tid, id: nat, th: Option<Tid>)
    requires Inv(w.mem) && PcOf(w, me).Idle? && !PcOf(Next(w, FetchSteps(w.mem, me, id, th)[0]), me).Reads?
    requires AddrOf(w.mem, Target(me, th)).None?
    ensures Fetches(w, FetchSteps(w.mem, me, id, th), me, id, th)
  {
    var ls := FetchSteps(w.mem, me, id, th);
    var w1 := Next(w, ls[0]);
    var rest := ls[1..];
    OneStep(w, ls);
    FetchRetried(w.mem, me, id, th);
    OneStep(w1, rest);
    SearchThenFinish(Next(w1, LockedSearch(me)), me);
    assert rest[1..] == [LockedSearch(me), FinishRead(me)];
  }

  lemma FinishOnly(w: World, me: Tid)
    requires Inv(w.mem) && PcOf(w, me).Reads?
    ensures var ls := [FinishRead(me)]; ValidRun(w, ls) && Exec(w, ls) == Next(w, FinishRead(me))
  {
    var ls := [FinishRead(me)];
    OneStep(w, ls);
    assert ls[1..] == [];
    assert Exec(Next(w, ls[0]), []) == Next(w, ls[0]);
  }

  lemma SearchThenFinish(w: World, me: Tid)
    requires Inv(w.mem) && PcOf(w, me).Wants? && AddrOf(w.mem, PcOf(w, me).who).Some?
    ensures var ls := [LockedSearch(me), FinishRead(me)]; var a := AddrOf(w.mem, PcOf(w, me).who).value;
      && ValidRun(w, ls) && var w1 := Exec(w, ls);
      && w1.mem == w.mem && PcOf(w1, me).Idle? && me in w1.results && w1.results[me] == Read(w.mem, a, PcOf(w, me).id)
  {
    var ls := [LockedSearch(me), FinishRead(me)];
    OneStep(w, ls);
    FinishOnly(Next(w, LockedSearch(me)), me);
    assert ls[1..] == [FinishRead(me)];
  }

  // ---------------------------------------------------------------- the retry after an allocation

  ghost predicate NeverEvicted(w: World, ls: seq<Label>, t: Tid)
    requires Inv(w.mem) && ValidRun(w, ls)
    decreases |ls|
  {
    ls == [] || (!Evicts(w.mem, ls[0], t) && (NextInv(w, ls[0]); NeverEvicted(Next(w, ls[0]), ls[1..], t)))
  }

  lemma {:induction false} EntryStays(w: World, ls: seq<Label>, t: Tid)
    requires Inv(w.mem) && ValidRun(w, ls) && AddrOf(w.mem, t).Some? && NeverEvicted(w, ls, t)
    ensures Inv(Exec(w, ls).mem) && AddrOf(Exec(w, ls).mem, t) == AddrOf(w.mem, t)
    decreases |ls|
  {
    if ls != [] {
      NextInv(w, ls[0]);
      AddrStep(w, ls[0], t);
      EntryStays(Next(w, ls[0]), ls[1..], t);
    }
  }

  /** After the search that allocated an entry, the retry of the same fetch finds it, whatever other
      threads did in between, unless one of them evicted that entry: the recursion is one level deep. */
  lemma RetryFinds(w: World, ls: seq<Label>, me: Tid)
    requires Inv(w.mem) && Enabled(w, LockedSearch(me)) && AddrOf(w.mem, PcOf(w, me).who).None?
    requires Inv(Next(w, LockedSearch(me)).mem) && ValidRun(Next(w, LockedSearch(me)), ls)
    requires NeverEvicted(Next(w, LockedSearch(me)), ls, PcOf(w, me).who)
    requires PcOf(Exec(Next(w, LockedSearch(me)), ls), me) == PcOf(w, me)
    ensures var w2 := Exec(Next(w, LockedSearch(me)), ls);
      && Inv(w2.mem) && Enabled(w2, LockedSearch(me))
      && PcOf(Next(w2, LockedSearch(me)), me) == Reads(PcOf(w, me).id, PcOf(w, me).who, w.mem.nextAddr)
  {
    var who := PcOf(w, me).who;
    AddThreadInv(w.mem, me, who);
    EntryStays(Next(w, LockedSearch(me)), ls, who);
  }

  // ---------------------------------------------------------------- what the fast path does not survive

  /** A fetch on behalf of another thread that has no entry yet leaves the caller's own TLS pointer on that
      thread's entry: the caller's next fast fetch returns the other thread's block, not its own. */
  lemma ForeignFetchMisleadsCaller(w: World, me: Tid, other: Tid, id: nat)
    requires Inv(w.mem) && PcOf(w, me) == Wants(id, other) && other != me
    requires AddrOf(w.mem, me).Some? && AddrOf(w.mem, other).None?
    ensures var w1 := Next(w, LockedSearch(me));
      |w1.mem.buckets| > 0 && TlsOf(w1.mem, me) == AddrOf(w1.mem, other) != AddrOf(w1.mem, me)
  {
    AddThreadInv(w.mem, me, other);
    AddrOfLinked(w.mem, me);
  }

  /** ts_free_worker_threads frees a worker's entry and leaves the worker's TLS pointer on it. */
  lemma FreedWorkerDangles(w: World, me: Tid, t: Tid)
    requires Inv(w.mem) && TlsExact(w.mem) && PcOf(w, me).Idle?
    requires LosesTo(w.mem, t, me) && AddrOf(w.mem, t).Some?
    ensures var m' := Next(w, CallFreeWorkers(me)).mem;
      |m'.buckets| > 0 && TlsOf(m', t).Some? && TlsOf(m', t).value !in m'.heap
  {
    FreeWorkersInv(w.mem, me);
    AddrOfLinked(w.mem, t);
  }
}
