/**
The memory of TSRM, the thread-safe resource manager (php-7.1.3/TSRM/TSRM.c), as a value:
the hash table of per-thread entries, the table of resource types, every thread's TLS pointer,
and a log of every allocation, construction, destruction and release of a resource block.

Each function below is the effect of one mutex-protected body.  The lemmas show what every
such body keeps: the shape of the table, and the exact life of every block.
*/
module TsrmMemory {
  datatype Option<+T> = None | Some(value: T)

  type Tid = nat    // THREAD_T, hashed as an unsigned number
  type Addr = nat   // identity of a tsrm_tls_entry
  type Block = nat  // identity of one malloc'ed resource block

  datatype ResType = ResType(size: nat, hasCtor: bool, hasDtor: bool, done: bool)

  datatype Entry = Entry(tid: Tid, storage: seq<Option<Block>>)

  datatype Event =
    | Malloc(b: Block, size: nat)
    | Ctor(rid: nat, b: Block)
    | Dtor(rid: nat, arg: Option<Block>)  // a destructor may be handed NULL
    | Free(b: Block)

  // heap holds the entries that are allocated now; buckets says which of them are linked.
  // origin[b] is the resource index block b was allocated for.
  datatype Mem = Mem(
    buckets: seq<seq<Addr>>, heap: map<Addr, Entry>,
    types: seq<ResType>, idCount: nat,
    tls: map<Tid, Addr>,
    nextAddr: Addr, origin: seq<nat>, log: seq<Event>)

  // ---------------------------------------------------------------- the life of a block

  predicate Concerns(e: Event, b: Block) {
    match e
    case Malloc(x, _) => x == b
    case Ctor(_, x) => x == b
    case Dtor(_, arg) => arg == Some(b)
    case Free(x) => x == b
  }

  /** The events of the log that touch block b, in order. */
  function History(log: seq<Event>, b: Block): seq<Event> {
    if log == [] then []
    else
      var n := |log| - 1;
      History(log[..n], b) + if Concerns(log[n], b) then [log[n]] else []
  }

  function Born(ty: ResType, j: nat, b: Block): seq<Event> {
    [Malloc(b, ty.size)] + if ty.hasCtor then [Ctor(j, b)] else []
  }

  function Finalized(ty: ResType, j: nat, arg: Option<Block>): seq<Event> {
    if ty.hasDtor then [Dtor(j, arg)] else []
  }

  function Released(arg: Option<Block>): seq<Event> {
    match arg case Some(b) => [Free(b)] case None => []
  }

  /** A complete life: allocated, constructed, destroyed and freed, each once and in this order. */
  function Buried(ty: ResType, j: nat, b: Block): seq<Event> {
    Born(ty, j, b) + Finalized(ty, j, Some(b)) + [Free(b)]
  }

  lemma {:induction false} HistoryAppend(log: seq<Event>, evs: seq<Event>, b: Block)
    ensures History(log + evs, b) == History(log, b) + History(evs, b)
  {
    if evs == [] {
      assert log + evs == log;
    } else {
      var n := |evs| - 1;
      HistoryAppend(log, evs[..n], b);
      assert (log + evs)[..|log + evs| - 1] == log + evs[..n];
      assert (log + evs)[|log + evs| - 1] == evs[n];
    }
  }

  lemma HistoryShort(e: Event, b: Block)
    ensures History([e], b) == if Concerns(e, b) then [e] else []
  {
    assert [e][..0] == [];
  }

  lemma BornHistory(ty: ResType, j: nat, b: Block, c: Block)
    ensures History(Born(ty, j, b), c) == if b == c then Born(ty, j, b) else []
  {
    HistoryShort(Malloc(b, ty.size), c);
    if ty.hasCtor {
      HistoryShort(Ctor(j, b), c);
      HistoryAppend([Malloc(b, ty.size)], [Ctor(j, b)], c);
    } else {
      assert Born(ty, j, b) == [Malloc(b, ty.size)];
    }
  }

  lemma FinalizedHistory(ty: ResType, j: nat, arg: Option<Block>, c: Block)
    ensures History(Finalized(ty, j, arg), c) == if arg == Some(c) then Finalized(ty, j, arg) else []
  {
    HistoryShort(Dtor(j, arg), c);
  }

  lemma ReleasedHistory(arg: Option<Block>, c: Block)
    ensures History(Released(arg), c) == if arg == Some(c) then [Free(c)] else []
  {
    if arg.Some? { HistoryShort(Free(arg.value), c); }
  }

  // ---------------------------------------------------------------- invariants

  ghost predicate Holds(m: Mem, a: Addr, b: Block) {
    a in m.heap && b < |m.origin| && m.origin[b] < |m.heap[a].storage|
    && m.heap[a].storage[m.origin[b]] == Some(b)
  }

  /** Block b sits in a slot of an allocated entry. */
  ghost predicate Live(m: Mem, b: Block) { exists a :: Holds(m, a, b) }

  ghost predicate SlotsOk(m: Mem, a: Addr)
    requires a in m.heap
  {
    forall j {:trigger m.heap[a].storage[j]} :: 0 <= j < |m.heap[a].storage| && m.heap[a].storage[j].Some? ==>
      m.heap[a].storage[j].value < |m.origin| && m.origin[m.heap[a].storage[j].value] == j
  }

  ghost predicate LifeOk(m: Mem, b: Block)
    requires m.idCount <= |m.types| && b < |m.origin|
  {
    m.origin[b] < m.idCount
    && History(m.log, b) == (if Live(m, b) then Born(m.types[m.origin[b]], m.origin[b], b)
                             else Buried(m.types[m.origin[b]], m.origin[b], b))
  }

  /** What holds of every allocated entry, linked or not, and of every block ever allocated. */
  ghost predicate HeapInv(m: Mem) {
    && m.idCount <= |m.types|
    && (forall a :: a in m.heap ==> a < m.nextAddr && |m.heap[a].storage| <= m.idCount && SlotsOk(m, a))
    && (forall a, a', b :: Holds(m, a, b) && Holds(m, a', b) ==> a == a')
    && (forall b :: 0 <= b < |m.origin| ==> LifeOk(m, b))
    && (forall b :: b >= |m.origin| ==> History(m.log, b) == [])
  }

  // ---------------------------------------------------------------- one slot at a time

  /** malloc the next slot of entry a and run its constructor. */
  function Construct(m: Mem, a: Addr): Mem
    requires a in m.heap && |m.heap[a].storage| < |m.types|
  {
    var e := m.heap[a];
    var j := |e.storage|;
    var b := |m.origin|;
    m.(heap := m.heap[a := e.(storage := e.storage + [Some(b)])],
       origin := m.origin + [j],
       log := m.log + Born(m.types[j], j, b))
  }

  function PushNull(m: Mem, a: Addr): Mem
    requires a in m.heap
  {
    var e := m.heap[a];
    m.(heap := m.heap[a := e.(storage := e.storage + [None])])
  }

  /** Destroy and free slot j of entry a and leave NULL there; nothing when the slot is absent or NULL. */
  function ClearSlot(m: Mem, a: Addr, j: nat): Mem
    requires a in m.heap && j < |m.types|
  {
    var e := m.heap[a];
    if j < |e.storage| && e.storage[j].Some? then
      m.(heap := m.heap[a := e.(storage := e.storage[j := None])],
         log := m.log + Finalized(m.types[j], j, e.storage[j]) + Released(e.storage[j]))
    else m
  }

  lemma ConstructInv(m: Mem, a: Addr)
    requires HeapInv(m) && a in m.heap && |m.heap[a].storage| < m.idCount
    ensures HeapInv(Construct(m, a))
  {
    var m' := Construct(m, a);
    var b0 := |m.origin|;
    var j0 := |m.heap[a].storage|;
    assert forall x :: x in m.heap ==> SlotsOk(m, x);
    forall x, b: Block | b < b0
      ensures Holds(m', x, b) <==> Holds(m, x, b)
    {
    }
    assert forall x | Holds(m', x, b0) :: x == a;
    assert Holds(m', a, b0);
    forall x | x in m'.heap ensures SlotsOk(m', x) {
      assert SlotsOk(m, x);
    }
    forall b: Block ensures History(m'.log, b) == History(m.log, b) + if b == b0 then Born(m.types[j0], j0, b0) else [] {
      HistoryAppend(m.log, Born(m.types[j0], j0, b0), b);
      BornHistory(m.types[j0], j0, b0, b);
    }
    forall b | 0 <= b < |m'.origin| ensures LifeOk(m', b) {
      if b < b0 {
        assert LifeOk(m, b);
        assert Live(m', b) <==> Live(m, b);
      }
    }
  }

  lemma PushNullInv(m: Mem, a: Addr)
    requires HeapInv(m) && a in m.heap && |m.heap[a].storage| < m.idCount
    ensures HeapInv(PushNull(m, a))
  {
    var m' := PushNull(m, a);
    assert forall x :: x in m.heap ==> SlotsOk(m, x);
    forall x, b: Block ensures Holds(m', x, b) <==> Holds(m, x, b) { }
    forall x | x in m'.heap ensures SlotsOk(m', x) {
      assert SlotsOk(m, x);
    }
    forall b | 0 <= b < |m'.origin| ensures LifeOk(m', b) {
      assert LifeOk(m, b);
      assert Live(m', b) <==> Live(m, b);
    }
  }

  lemma ClearSlotInv(m: Mem, a: Addr, j: nat)
    requires HeapInv(m) && a in m.heap && j < |m.types|
    ensures HeapInv(ClearSlot(m, a, j))
  {
    var m' := ClearSlot(m, a, j);
    if j < |m.heap[a].storage| && m.heap[a].storage[j].Some? {
      ClearSlotHolders(m, a, j);
      forall x | x in m'.heap ensures SlotsOk(m', x) {
        assert SlotsOk(m, x);
      }
      forall b: Block ensures b >= |m'.origin| ==> History(m'.log, b) == [] {
        ClearSlotHistory(m, a, j, b);
        assert SlotsOk(m, a);
      }
      forall b: Block | b < |m'.origin| ensures LifeOk(m', b) {
        ClearSlotLife(m, a, j, b);
      }
    }
  }

  lemma ClearSlotHolders(m: Mem, a: Addr, j: nat)
    requires HeapInv(m) && a in m.heap && j < |m.types| && j < |m.heap[a].storage| && m.heap[a].storage[j].Some?
    ensures var gone := m.heap[a].storage[j].value;
      && gone < |m.origin| && m.origin[gone] == j && Holds(m, a, gone)
      && forall x, b: Block :: Holds(ClearSlot(m, a, j), x, b) <==> Holds(m, x, b) && b != gone
  {
    var m', gone := ClearSlot(m, a, j), m.heap[a].storage[j].value;
    assert SlotsOk(m, a);
    assert Holds(m, a, gone);
    forall x, b: Block ensures Holds(m', x, b) <==> Holds(m, x, b) && b != gone {
      if Holds(m, x, b) && x == a && b != gone { assert m.origin[b] != j; }
    }
  }

  // What clearing the slot that holds arg logs.
  function ClearEvents(ty: ResType, j: nat, arg: Option<Block>): seq<Event> { Finalized(ty, j, arg) + Released(arg) }

  lemma ClearSlotHistory(m: Mem, a: Addr, j: nat, b: Block)
    requires a in m.heap && j < |m.types| && j < |m.heap[a].storage| && m.heap[a].storage[j].Some?
    ensures var arg := m.heap[a].storage[j];
      History(ClearSlot(m, a, j).log, b) == History(m.log, b) + if arg == Some(b) then ClearEvents(m.types[j], j, arg) else []
  {
    var arg := m.heap[a].storage[j];
    var evs := ClearEvents(m.types[j], j, arg);
    assert ClearSlot(m, a, j).log == m.log + evs;
    HistoryAppend(m.log, evs, b);
    HistoryAppend(Finalized(m.types[j], j, arg), Released(arg), b);
    FinalizedHistory(m.types[j], j, arg, b);
    ReleasedHistory(arg, b);
  }

  lemma ClearSlotLife(m: Mem, a: Addr, j: nat, b: Block)
    requires HeapInv(m) && a in m.heap && j < |m.types| && j < |m.heap[a].storage| && m.heap[a].storage[j].Some?
    requires b < |m.origin|
    ensures LifeOk(ClearSlot(m, a, j), b)
  {
    var m', arg := ClearSlot(m, a, j), m.heap[a].storage[j];
    ClearSlotHolders(m, a, j);
    ClearSlotHistory(m, a, j, b);
    assert LifeOk(m, b);
    if arg == Some(b) {
      assert Live(m, b) && !Live(m', b);
      assert Born(m.types[j], j, b) + ClearEvents(m.types[j], j, arg) == Buried(m.types[j], j, b);
    } else {
      assert Live(m', b) <==> Live(m, b);
    }
  }

  // ---------------------------------------------------------------- releasing a whole entry

  /** What a loop over the first n slots logs when slot j logs f(j). */
  function Concat(f: nat -> seq<Event>, n: nat): seq<Event> {
    if n == 0 then [] else Concat(f, n - 1) + f(n - 1)
  }

  /** The destructor calls of ts_free_thread: one for each slot whose type has one, NULL or not. */
  function DtorCalls(types: seq<ResType>, storage: seq<Option<Block>>): nat -> seq<Event> {
    (j: nat) => if j < |storage| && j < |types| then Finalized(types[j], j, storage[j]) else []
  }

  function FreeCalls(storage: seq<Option<Block>>): nat -> seq<Event> {
    (j: nat) => if j < |storage| then Released(storage[j]) else []
  }

  /** tsrm_shutdown destroys and frees slot by slot, skips NULL slots, and skips the
      destructor of a type that was freed. */
  function ShutCalls(types: seq<ResType>, storage: seq<Option<Block>>): nat -> seq<Event> {
    (j: nat) =>
      if j >= |storage| || storage[j].None? then []
      else (if j >= |types| || types[j].done then [] else Finalized(types[j], j, storage[j])) + Released(storage[j])
  }

  /** Free entry a: all destructors first, then all frees, then the entry itself. */
  function Release(m: Mem, a: Addr): Mem
    requires a in m.heap && |m.heap[a].storage| <= |m.types|
  {
    var st := m.heap[a].storage;
    m.(heap := m.heap - {a}, log := m.log + Concat(DtorCalls(m.types, st), |st|) + Concat(FreeCalls(st), |st|))
  }

  function ShutEntry(m: Mem, a: Addr): Mem
    requires a in m.heap && |m.heap[a].storage| <= |m.types|
  {
    var st := m.heap[a].storage;
    m.(heap := m.heap - {a}, log := m.log + Concat(ShutCalls(m.types, st), |st|))
  }

  lemma ConcatStep(f: nat -> seq<Event>, n: nat, b: Block)
    requires n > 0
    ensures History(Concat(f, n), b) == History(Concat(f, n - 1), b) + History(f(n - 1), b)
  {
    HistoryAppend(Concat(f, n - 1), f(n - 1), b);
  }

  /** If only slot k logs events about block b, the loop's events about b are those of slot k. */
  lemma {:induction false} ConcatHistory(f: nat -> seq<Event>, n: nat, b: Block, k: nat)
    requires forall j: nat {:trigger f(j)} :: j < n && j != k ==> History(f(j), b) == []
    ensures History(Concat(f, n), b) == if k < n then History(f(k), b) else []
  {
    if n > 0 {
      ConcatHistory(f, n - 1, b, k);
      ConcatStep(f, n, b);
    }
  }

  /** Slot k is the one that holds block b (k == |storage|: none does). */
  ghost predicate OnlyAt(storage: seq<Option<Block>>, b: Block, k: nat) {
    k <= |storage| && (k < |storage| ==> storage[k] == Some(b))
    && forall j :: 0 <= j < |storage| && j != k ==> storage[j] != Some(b)
  }

  lemma DtorCallsHistory(types: seq<ResType>, st: seq<Option<Block>>, b: Block, k: nat)
    requires |st| <= |types| && OnlyAt(st, b, k)
    ensures History(Concat(DtorCalls(types, st), |st|), b) == if k < |st| then Finalized(types[k], k, Some(b)) else []
  {
    forall j: nat | j < |st| ensures History(DtorCalls(types, st)(j), b) == if j == k then Finalized(types[k], k, Some(b)) else [] {
      FinalizedHistory(types[j], j, st[j], b);
    }
    ConcatHistory(DtorCalls(types, st), |st|, b, k);
  }

  lemma FreeCallsHistory(st: seq<Option<Block>>, b: Block, k: nat)
    requires OnlyAt(st, b, k)
    ensures History(Concat(FreeCalls(st), |st|), b) == if k < |st| then [Free(b)] else []
  {
    forall j: nat | j < |st| ensures History(FreeCalls(st)(j), b) == if j == k then [Free(b)] else [] {
      ReleasedHistory(st[j], b);
    }
    ConcatHistory(FreeCalls(st), |st|, b, k);
  }

  lemma ShutCallsHistory(types: seq<ResType>, st: seq<Option<Block>>, b: Block, k: nat)
    requires |st| <= |types| && OnlyAt(st, b, k) && (k < |st| ==> !types[k].done)
    ensures History(Concat(ShutCalls(types, st), |st|), b) ==
      if k < |st| then Finalized(types[k], k, Some(b)) + [Free(b)] else []
  {
    forall j: nat | j < |st|
      ensures History(ShutCalls(types, st)(j), b) == if j == k then Finalized(types[k], k, Some(b)) + [Free(b)] else []
    {
      ShutSlotHistory(types, st, j, b);
    }
    ConcatHistory(ShutCalls(types, st), |st|, b, k);
  }

  lemma ShutSlotHistory(types: seq<ResType>, st: seq<Option<Block>>, j: nat, b: Block)
    requires j < |st| <= |types|
    ensures History(ShutCalls(types, st)(j), b) ==
      if st[j] == Some(b) then (if types[j].done then [] else Finalized(types[j], j, Some(b))) + [Free(b)] else []
  {
    if st[j].Some? {
      FinalizedHistory(types[j], j, st[j], b);
      ReleasedHistory(st[j], b);
      HistoryAppend(if types[j].done then [] else Finalized(types[j], j, st[j]), Released(st[j]), b);
    }
  }

  /** The events that end block b's life when entry a goes; none when b is not in a. */
  ghost function LastRites(m: Mem, a: Addr, b: Block): seq<Event> {
    if Holds(m, a, b) && m.origin[b] < |m.types| then Finalized(m.types[m.origin[b]], m.origin[b], Some(b)) + [Free(b)]
    else []
  }

  /** Entry a is gone and exactly its blocks got the events that complete their lives. */
  ghost predicate Buries(m: Mem, a: Addr, m': Mem)
    requires a in m.heap && m.idCount <= |m.types|
  {
    && m' == m.(heap := m.heap - {a}, log := m'.log)
    && (forall b: Block {:trigger History(m'.log, b)} ::
          History(m'.log, b) == History(m.log, b) + LastRites(m, a, b))
  }

  lemma BuriesInv(m: Mem, a: Addr, m': Mem)
    requires HeapInv(m) && a in m.heap && Buries(m, a, m')
    ensures HeapInv(m')
  {
    forall x, b: Block ensures Holds(m', x, b) <==> Holds(m, x, b) && x != a { }
    forall x | x in m'.heap ensures SlotsOk(m', x) { assert SlotsOk(m, x); }
    forall b | 0 <= b < |m'.origin| ensures LifeOk(m', b) {
      assert LifeOk(m, b);
      if Holds(m, a, b) {
        assert Live(m, b) && !Live(m', b);
        var j := m.origin[b];
        assert History(m'.log, b) == Buried(m.types[j], j, b);
      } else {
        assert Live(m', b) <==> Live(m, b);
        assert History(m'.log, b) == History(m.log, b);
      }
    }
  }

  lemma SlotOf(m: Mem, a: Addr, b: Block) returns (k: nat)
    requires HeapInv(m) && a in m.heap
    ensures k <= |m.heap[a].storage| && OnlyAt(m.heap[a].storage, b, k)
    ensures k < |m.heap[a].storage| <==> Holds(m, a, b)
    ensures Holds(m, a, b) ==> k == m.origin[b]
  {
    assert SlotsOk(m, a);
    k := if Holds(m, a, b) then m.origin[b] else |m.heap[a].storage|;
  }

  lemma ReleaseBuries(m: Mem, a: Addr)
    requires HeapInv(m) && a in m.heap
    ensures Buries(m, a, Release(m, a)) && HeapInv(Release(m, a))
  {
    var st := m.heap[a].storage;
    var m' := Release(m, a);
    var ds, fs := Concat(DtorCalls(m.types, st), |st|), Concat(FreeCalls(st), |st|);
    forall b: Block
      ensures History(m'.log, b) == History(m.log, b) + LastRites(m, a, b)
    {
      var k := SlotOf(m, a, b);
      HistoryAppend(m.log + ds, fs, b);
      HistoryAppend(m.log, ds, b);
      DtorCallsHistory(m.types, st, b, k);
      FreeCallsHistory(st, b, k);
    }
    BuriesInv(m, a, m');
  }

  /** tsrm_shutdown completes the lives of an entry whose types are all still in use where it holds a block. */
  lemma ShutEntryBuries(m: Mem, a: Addr)
    requires HeapInv(m) && a in m.heap
    requires forall j :: 0 <= j < |m.heap[a].storage| && m.heap[a].storage[j].Some? ==> !m.types[j].done
    ensures Buries(m, a, ShutEntry(m, a)) && HeapInv(ShutEntry(m, a))
  {
    var st := m.heap[a].storage;
    var m' := ShutEntry(m, a);
    forall b: Block
      ensures History(m'.log, b) == History(m.log, b) + LastRites(m, a, b)
    {
      var k := SlotOf(m, a, b);
      HistoryAppend(m.log, Concat(ShutCalls(m.types, st), |st|), b);
      ShutCallsHistory(m.types, st, b, k);
    }
    BuriesInv(m, a, m');
  }
}
