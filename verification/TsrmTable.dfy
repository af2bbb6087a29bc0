/**
The operations of TSRM on the table of entries, and the shape every one of them keeps.

A mutex-protected body of php-7.1.3/TSRM/TSRM.c is a function from memory to memory; its loops
over chains are folds.
*/
module TsrmTable {
  import opened TsrmMemory

  // What a fetch returns.  Fault: the entry is gone, or the id is beyond its slots.
  datatype Result = Got(ptr: Option<Block>) | Storage(addr: Addr) | Fault

  // ---------------------------------------------------------------- looking things up

  function Bucket(m: Mem, t: Tid): nat
    requires |m.buckets| > 0
  {
    t % |m.buckets|
  }

  function Chain(m: Mem, t: Tid): seq<Addr>
    requires |m.buckets| > 0
  {
    m.buckets[Bucket(m, t)]
  }

  predicate Owns(heap: map<Addr, Entry>, a: Addr, t: Tid) { a in heap && heap[a].tid == t }

  /** Index of the first entry of thread t at or after k; the length of the chain when there is none. */
  function FindFrom(heap: map<Addr, Entry>, chain: seq<Addr>, t: Tid, k: nat): (r: nat)
    requires k <= |chain|
    ensures k <= r <= |chain|
    ensures r < |chain| ==> Owns(heap, chain[r], t)
    ensures forall i :: k <= i < r ==> !Owns(heap, chain[i], t)
    decreases |chain| - k
  {
    if k == |chain| || Owns(heap, chain[k], t) then k else FindFrom(heap, chain, t, k + 1)
  }

  /** The linked entry of thread t. */
  function AddrOf(m: Mem, t: Tid): Option<Addr>
    requires |m.buckets| > 0
  {
    var k := FindFrom(m.heap, Chain(m, t), t, 0);
    if k < |Chain(m, t)| then Some(Chain(m, t)[k]) else None
  }

  /** The block thread t has for resource index j: what a search of the table finds. */
  function Slot(m: Mem, t: Tid, j: nat): Option<Block>
    requires |m.buckets| > 0
  {
    match AddrOf(m, t)
    case None => None
    case Some(a) => if a in m.heap && j < |m.heap[a].storage| then m.heap[a].storage[j] else None
  }

  function TlsOf(m: Mem, t: Tid): Option<Addr> { if t in m.tls then Some(m.tls[t]) else None }

  /** The read of slot id of the entry at addr: id 0 stands for the storage array itself. */
  function Read(m: Mem, addr: Addr, id: nat): Result {
    if addr !in m.heap then Fault
    else if id == 0 then Storage(addr)
    else if id <= |m.heap[addr].storage| then Got(m.heap[addr].storage[id - 1])
    else Fault
  }

  /** All linked addresses, bucket by bucket. */
  function Flatten(bs: seq<seq<Addr>>): seq<Addr> {
    if bs == [] then [] else Flatten(bs[..|bs| - 1]) + bs[|bs| - 1]
  }

  lemma {:induction false} FlattenMembers(bs: seq<seq<Addr>>, a: Addr)
    ensures a in Flatten(bs) <==> exists i :: 0 <= i < |bs| && a in bs[i]
  {
    if bs != [] {
      FlattenMembers(bs[..|bs| - 1], a);
    }
  }

  /** Where bucket i starts in the flattened table. */
  function Start(bs: seq<seq<Addr>>, i: nat): nat
    requires i <= |bs|
  {
    if i == 0 then 0 else Start(bs, i - 1) + |bs[i - 1]|
  }

  /** The positions of all from Start(bs, i) on hold bucket i. */
  ghost predicate LaidAt(all: seq<Addr>, bs: seq<seq<Addr>>, i: nat) {
    i < |bs| ==> (Start(bs, i) + |bs[i]| == Start(bs, i + 1) <= |all|
      && forall q {:trigger bs[i][q]} :: 0 <= q < |bs[i]| ==> all[Start(bs, i) + q] == bs[i][q])
  }

  ghost predicate LaidOut(all: seq<Addr>, bs: seq<seq<Addr>>) {
    |all| == Start(bs, |bs|) && forall i: nat :: LaidAt(all, bs, i)
  }

  lemma FlattenLaidOut(bs: seq<seq<Addr>>)
    ensures LaidOut(Flatten(bs), bs)
  {
    FlattenAt(bs, 0);
    forall i: nat ensures LaidAt(Flatten(bs), bs, i) { if i < |bs| { FlattenAt(bs, i); } }
  }

  lemma {:induction false} FlattenAt(bs: seq<seq<Addr>>, i: nat)
    requires i <= |bs|
    ensures |Flatten(bs)| == Start(bs, |bs|) >= Start(bs, i)
    ensures i < |bs| ==> Start(bs, i) + |bs[i]| == Start(bs, i + 1) <= |Flatten(bs)|
    ensures i < |bs| ==> forall q :: 0 <= q < |bs[i]| ==> Flatten(bs)[Start(bs, i) + q] == bs[i][q]
  {
    if bs != [] {
      var init := bs[..|bs| - 1];
      FlattenAt(init, if i < |bs| then i else |init|);
      StartPrefix(bs, init, |init|);
      if i < |bs| { StartPrefix(bs, init, i); }
    }
  }

  lemma {:induction false} StartPrefix(bs: seq<seq<Addr>>, init: seq<seq<Addr>>, i: nat)
    requires init <= bs && i <= |init|
    ensures Start(bs, i) == Start(init, i)
  {
    if i > 0 { StartPrefix(bs, init, i - 1); }
  }

  // ---------------------------------------------------------------- the invariant of the table

  ghost predicate Linked(m: Mem, a: Addr) {
    |m.buckets| > 0 && a in m.heap && a in Chain(m, m.heap[a].tid)
  }

  /** Every entry of chain i is allocated and hashes to i; no thread has two entries. */
  ghost predicate ChainOk(m: Mem, i: nat)
    requires i < |m.buckets|
  {
    && (forall k {:trigger m.buckets[i][k]} :: 0 <= k < |m.buckets[i]| ==>
          m.buckets[i][k] in m.heap && m.heap[m.buckets[i][k]].tid % |m.buckets| == i)
    && (forall k, k' :: 0 <= k < k' < |m.buckets[i]| ==>
          m.heap[m.buckets[i][k]].tid != m.heap[m.buckets[i][k']].tid)
  }

  /** A linked entry has a slot for every id, NULL exactly when the id was freed. */
  ghost predicate Complete(m: Mem, a: Addr)
    requires a in m.heap && m.idCount <= |m.types|
  {
    && |m.heap[a].storage| == m.idCount
    && forall j :: 0 <= j < m.idCount ==> (m.heap[a].storage[j].None? <==> m.types[j].done)
  }

  ghost predicate TableInv(m: Mem) {
    && |m.buckets| > 0 && m.idCount <= |m.types|
    && (forall i :: 0 <= i < |m.buckets| ==> ChainOk(m, i))
    && (forall a :: Linked(m, a) ==> Complete(m, a))
  }

  ghost predicate Inv(m: Mem) { HeapInv(m) && TableInv(m) }

  lemma AddrOfLinked(m: Mem, t: Tid)
    requires TableInv(m)
    ensures AddrOf(m, t).Some? ==> Linked(m, AddrOf(m, t).value) && m.heap[AddrOf(m, t).value].tid == t
    ensures forall a :: Linked(m, a) && m.heap[a].tid == t ==> AddrOf(m, t) == Some(a)
  {
    assert ChainOk(m, Bucket(m, t));
    forall a | Linked(m, a) && m.heap[a].tid == t ensures AddrOf(m, t) == Some(a) {
      var k :| 0 <= k < |Chain(m, t)| && Chain(m, t)[k] == a;
    }
  }

  lemma FlattenLinked(m: Mem, a: Addr)
    requires TableInv(m)
    ensures a in Flatten(m.buckets) <==> Linked(m, a)
  {
    FlattenMembers(m.buckets, a);
    if i :| 0 <= i < |m.buckets| && a in m.buckets[i] {
      assert ChainOk(m, i);
    }
  }

  // ---------------------------------------------------------------- ts_allocate_id

  function FillTo(m: Mem, a: Addr): (r: Mem)
    requires m.idCount <= |m.types|
    ensures r.types == m.types && r.idCount == m.idCount && r.buckets == m.buckets && r.tls == m.tls && r.nextAddr == m.nextAddr
    ensures r.heap.Keys == m.heap.Keys
    decreases if a in m.heap then m.idCount - |m.heap[a].storage| else 0
  {
    if a in m.heap && |m.heap[a].storage| < m.idCount then FillTo(Construct(m, a), a) else m
  }

  /** A walk over addrs from position k on that fills every entry. */
  function GrowAll(m: Mem, addrs: seq<Addr>, k: nat): (r: Mem)
    requires m.idCount <= |m.types| && k <= |addrs|
    ensures r.types == m.types && r.idCount == m.idCount && r.buckets == m.buckets && r.tls == m.tls && r.nextAddr == m.nextAddr
    ensures r.heap.Keys == m.heap.Keys
    decreases |addrs| - k
  {
    if k == |addrs| then m else GrowAll(FillTo(m, addrs[k]), addrs, k + 1)
  }

  function NewType(m: Mem, size: nat, hasCtor: bool, hasDtor: bool): Mem
    requires m.idCount <= |m.types|
  {
    var ty := ResType(size, hasCtor, hasDtor, false);
    m.(types := if |m.types| < m.idCount + 1 then m.types + [ty] else m.types[m.idCount := ty],
       idCount := m.idCount + 1)
  }

  function AllocId(m: Mem, size: nat, hasCtor: bool, hasDtor: bool): Mem
    requires m.idCount <= |m.types|
  {
    GrowAll(NewType(m, size, hasCtor, hasDtor), Flatten(m.buckets), 0)
  }

  /** The log and the blocks handed out so far are only added to. */
  ghost predicate Appends(m: Mem, m': Mem) { m.log <= m'.log && m.origin <= m'.origin }

  lemma {:induction false} FillAppends(m: Mem, a: Addr)
    requires m.idCount <= |m.types|
    ensures Appends(m, FillTo(m, a))
    decreases if a in m.heap then m.idCount - |m.heap[a].storage| else 0
  {
    if a in m.heap && |m.heap[a].storage| < m.idCount { FillAppends(Construct(m, a), a); }
  }

  lemma {:induction false} GrowAppends(m: Mem, addrs: seq<Addr>, k: nat)
    requires m.idCount <= |m.types| && k <= |addrs|
    ensures Appends(m, GrowAll(m, addrs, k))
    decreases |addrs| - k
  {
    if k < |addrs| {
      FillAppends(m, addrs[k]);
      GrowAppends(FillTo(m, addrs[k]), addrs, k + 1);
    }
  }

  lemma {:induction false} PopulateAppends(m: Mem, a: Addr)
    requires m.idCount <= |m.types|
    ensures Appends(m, Populate(m, a))
    decreases if a in m.heap then m.idCount - |m.heap[a].storage| else 0
  {
    if a in m.heap && |m.heap[a].storage| < m.idCount {
      PopulateAppends(if m.types[|m.heap[a].storage|].done then PushNull(m, a) else Construct(m, a), a);
    }
  }

  /** Entry e grew to n slots: it keeps what it had and the new slots hold blocks. */
  ghost predicate GrewTo(e: Entry, e': Entry, n: nat) {
    e'.tid == e.tid && e.storage <= e'.storage
    && (|e.storage| <= n ==> |e'.storage| == n)
    && forall j :: |e.storage| <= j < |e'.storage| ==> e'.storage[j].Some?
  }

  lemma {:induction false} FillEffect(m: Mem, a: Addr)
    requires HeapInv(m)
    ensures HeapInv(FillTo(m, a))
    ensures FillTo(m, a).heap.Keys == m.heap.Keys
    ensures forall x :: x in m.heap && x != a ==> FillTo(m, a).heap[x] == m.heap[x]
    ensures a in m.heap ==> GrewTo(m.heap[a], FillTo(m, a).heap[a], m.idCount)
    decreases if a in m.heap then m.idCount - |m.heap[a].storage| else 0
  {
    if a in m.heap && |m.heap[a].storage| < m.idCount {
      ConstructInv(m, a);
      FillEffect(Construct(m, a), a);
    }
  }

  lemma {:induction false} GrowEffect(m: Mem, addrs: seq<Addr>, k: nat)
    requires HeapInv(m) && k <= |addrs|
    ensures HeapInv(GrowAll(m, addrs, k))
    ensures forall x :: x in m.heap && x !in addrs[k..] ==> GrowAll(m, addrs, k).heap[x] == m.heap[x]
    ensures forall x :: x in m.heap && x in addrs[k..] ==> GrewTo(m.heap[x], GrowAll(m, addrs, k).heap[x], m.idCount)
    decreases |addrs| - k
  {
    if k < |addrs| {
      assert addrs[k..] == [addrs[k]] + addrs[k + 1..];
      FillEffect(m, addrs[k]);
      GrowEffect(FillTo(m, addrs[k]), addrs, k + 1);
    }
  }

  lemma NewTypeInv(m: Mem, size: nat, c: bool, d: bool)
    requires Inv(m)
    ensures HeapInv(NewType(m, size, c, d))
  {
    var m' := NewType(m, size, c, d);
    forall x, b: Block ensures Holds(m', x, b) <==> Holds(m, x, b) { }
    forall x | x in m'.heap ensures SlotsOk(m', x) { assert SlotsOk(m, x); }
    forall b | 0 <= b < |m'.origin| ensures LifeOk(m', b) {
      assert LifeOk(m, b);
      assert Live(m', b) <==> Live(m, b);
    }
  }

  lemma AllocIdInv(m: Mem, size: nat, c: bool, d: bool)
    requires Inv(m)
    ensures Inv(AllocId(m, size, c, d))
    ensures AllocId(m, size, c, d).heap.Keys == m.heap.Keys
    ensures forall x :: x in m.heap ==>
      AllocId(m, size, c, d).heap[x].tid == m.heap[x].tid && m.heap[x].storage <= AllocId(m, size, c, d).heap[x].storage
  {
    hide HeapInv;
    var m1 := NewType(m, size, c, d);
    var m' := AllocId(m, size, c, d);
    NewTypeInv(m, size, c, d);
    GrowEffect(m1, Flatten(m.buckets), 0);
    forall i | 0 <= i < |m'.buckets| ensures ChainOk(m', i) { assert ChainOk(m, i); }
    forall a | Linked(m', a) ensures Complete(m', a) {
      assert Linked(m, a) && Complete(m, a);
      FlattenLinked(m, a);
      assert GrewTo(m1.heap[a], m'.heap[a], m1.idCount);
    }
  }

  lemma GrowTypes(m: Mem, size: nat, c: bool, d: bool)
    requires m.idCount <= |m.types|
    ensures var m' := AllocId(m, size, c, d);
      && m'.idCount == m.idCount + 1 <= |m'.types|
      && |m'.types| == (if m'.idCount > |m.types| then m'.idCount else |m.types|)
      && m'.types[m.idCount].size == size && m'.types[m.idCount].hasCtor == c
      && m'.types[m.idCount].hasDtor == d && !m'.types[m.idCount].done
      && forall j :: 0 <= j < |m.types| && j != m.idCount ==> m'.types[j] == m.types[j]
  {
  }

  // What the log says of a block that was handed out and not taken back: allocated with this size, and constructed if asked.
  function Created(size: nat, ctor: bool, j: nat, b: Block): seq<Event> {
    if ctor then [Malloc(b, size), Ctor(j, b)] else [Malloc(b, size)]
  }

  /**
  The registered type is the one that was asked for, older types stay, and every linked entry gets
  a new block of the given size in the new slot, on which the constructor ran exactly if one was given.
  */
  lemma AllocIdRegisters(m: Mem, size: nat, c: bool, d: bool)
    requires Inv(m)
    ensures var m' := AllocId(m, size, c, d);
      && m'.idCount == m.idCount + 1 <= |m'.types|
      && m'.types[m.idCount].size == size && m'.types[m.idCount].hasCtor == c
      && m'.types[m.idCount].hasDtor == d && !m'.types[m.idCount].done
      && (forall j :: 0 <= j < |m.types| && j != m.idCount ==> m'.types[j] == m.types[j])
      && forall a :: Linked(m, a) ==>
           && a in m'.heap && |m'.heap[a].storage| == m.idCount + 1 && m'.heap[a].storage[m.idCount].Some?
           && var b := m'.heap[a].storage[m.idCount].value;
              && |m.origin| <= b < |m'.origin| && History(m'.log, b) == Created(size, c, m.idCount, b)
  {
    GrowTypes(m, size, c, d);
    AllocIdInv(m, size, c, d);
    GrowAppends(NewType(m, size, c, d), Flatten(m.buckets), 0);
    forall a | Linked(m, a)
      ensures var m' := AllocId(m, size, c, d);
        && a in m'.heap && |m'.heap[a].storage| == m.idCount + 1 && m'.heap[a].storage[m.idCount].Some?
        && var b := m'.heap[a].storage[m.idCount].value;
           && |m.origin| <= b < |m'.origin| && History(m'.log, b) == Created(size, c, m.idCount, b)
    {
      NewSlotIsCreated(m, size, c, d, a);
    }
  }

  lemma NewSlotIsCreated(m: Mem, size: nat, c: bool, d: bool, a: Addr)
    requires Inv(m) && Linked(m, a)
    ensures var m' := AllocId(m, size, c, d);
      && a in m'.heap && |m'.heap[a].storage| == m.idCount + 1 && m'.heap[a].storage[m.idCount].Some?
      && var b := m'.heap[a].storage[m.idCount].value;
         && |m.origin| <= b < |m'.origin| && History(m'.log, b) == Created(size, c, m.idCount, b)
  {
    var m' := AllocId(m, size, c, d);
    GrowTypes(m, size, c, d);
    AllocIdInv(m, size, c, d);
    GrowAppends(NewType(m, size, c, d), Flatten(m.buckets), 0);
    assert Linked(m', a) && Complete(m', a) && Complete(m, a);
    assert SlotsOk(m', a);
    var b := m'.heap[a].storage[m.idCount].value;
    assert Holds(m', a, b) && Live(m', b) && LifeOk(m', b);
    OldBlocksHaveOldIds(m, m');
    BornIsCreated(m'.types[m.idCount], m.idCount, b);
  }

  lemma OldBlocksHaveOldIds(m: Mem, m': Mem)
    requires HeapInv(m) && m.origin <= m'.origin
    ensures forall b: Block :: b < |m.origin| ==> m'.origin[b] < m.idCount
  {
    forall b: Block | b < |m.origin| ensures m'.origin[b] < m.idCount { assert LifeOk(m, b); }
  }

  lemma BornIsCreated(ty: ResType, j: nat, b: Block)
    ensures Born(ty, j, b) == Created(ty.size, ty.hasCtor, j, b)
  {
  }

  // ---------------------------------------------------------------- allocate_new_resource

  function Populate(m: Mem, a: Addr): (r: Mem)
    requires m.idCount <= |m.types|
    ensures r.types == m.types && r.idCount == m.idCount && r.buckets == m.buckets && r.tls == m.tls && r.nextAddr == m.nextAddr
    ensures r.heap.Keys == m.heap.Keys
    decreases if a in m.heap then m.idCount - |m.heap[a].storage| else 0
  {
    if a in m.heap && |m.heap[a].storage| < m.idCount then
      Populate(if m.types[|m.heap[a].storage|].done then PushNull(m, a) else Construct(m, a), a)
    else m
  }

  /** A fresh entry for thread t, not linked yet, which becomes thread me's TLS pointer. */
  function NewEntry(m: Mem, me: Tid, t: Tid): Mem {
    m.(heap := m.heap[m.nextAddr := Entry(t, [])], nextAddr := m.nextAddr + 1, tls := m.tls[me := m.nextAddr])
  }

  function Link(m: Mem, a: Addr, t: Tid): Mem
    requires |m.buckets| > 0
  {
    m.(buckets := m.buckets[Bucket(m, t) := Chain(m, t) + [a]])
  }

  function AddThread(m: Mem, me: Tid, t: Tid): Mem
    requires |m.buckets| > 0 && m.idCount <= |m.types|
  {
    Populate(Link(NewEntry(m, me, t), m.nextAddr, t), m.nextAddr)
  }

  lemma {:induction false} PopulateEffect(m: Mem, a: Addr)
    requires HeapInv(m) && a in m.heap
    requires forall j :: 0 <= j < |m.heap[a].storage| ==> (m.heap[a].storage[j].None? <==> m.types[j].done)
    ensures HeapInv(Populate(m, a))
    ensures Populate(m, a).heap.Keys == m.heap.Keys
    ensures forall x :: x in m.heap && x != a ==> Populate(m, a).heap[x] == m.heap[x]
    ensures Populate(m, a).heap[a].tid == m.heap[a].tid && Complete(Populate(m, a), a)
    decreases m.idCount - |m.heap[a].storage|
  {
    if |m.heap[a].storage| < m.idCount {
      if m.types[|m.heap[a].storage|].done {
        PushNullInv(m, a);
        PopulateEffect(PushNull(m, a), a);
      } else {
        ConstructInv(m, a);
        PopulateEffect(Construct(m, a), a);
      }
    }
  }

  lemma NewEntryInv(m: Mem, me: Tid, t: Tid)
    requires HeapInv(m)
    ensures HeapInv(NewEntry(m, me, t))
  {
    var m' := NewEntry(m, me, t);
    forall x, b: Block ensures Holds(m', x, b) <==> Holds(m, x, b) { }
    forall x | x in m'.heap ensures SlotsOk(m', x) { if x in m.heap { assert SlotsOk(m, x); } }
    forall b | 0 <= b < |m'.origin| ensures LifeOk(m', b) {
      assert LifeOk(m, b);
      assert Live(m', b) <==> Live(m, b);
    }
  }

  /** Unlinked changes: buckets and TLS pointers do not matter to the blocks. */
  lemma HeapInvIgnoresLinks(m: Mem, m': Mem)
    requires HeapInv(m) && m' == m.(buckets := m'.buckets, tls := m'.tls)
    ensures HeapInv(m')
  {
    forall x, b: Block ensures Holds(m', x, b) <==> Holds(m, x, b) { }
    forall x | x in m'.heap ensures SlotsOk(m', x) { assert SlotsOk(m, x); }
    forall b | 0 <= b < |m'.origin| ensures LifeOk(m', b) {
      assert LifeOk(m, b);
      assert Live(m', b) <==> Live(m, b);
    }
  }

  lemma AddThreadHeap(m: Mem, me: Tid, t: Tid)
    requires Inv(m)
    ensures HeapInv(AddThread(m, me, t))
    ensures AddThread(m, me, t).heap.Keys == m.heap.Keys + {m.nextAddr}
    ensures forall x :: x in m.heap ==> AddThread(m, me, t).heap[x] == m.heap[x]
    ensures AddThread(m, me, t).heap[m.nextAddr].tid == t && Complete(AddThread(m, me, t), m.nextAddr)
  {
    var m1 := NewEntry(m, me, t);
    NewEntryInv(m, me, t);
    HeapInvIgnoresLinks(m1, Link(m1, m.nextAddr, t));
    PopulateEffect(Link(m1, m.nextAddr, t), m.nextAddr);
  }

  lemma AddThreadChain(m: Mem, me: Tid, t: Tid, i: nat)
    requires Inv(m) && AddrOf(m, t).None? && i < |m.buckets|
    ensures ChainOk(AddThread(m, me, t), i)
  {
    AddThreadHeap(m, me, t);
    assert ChainOk(m, i);
    if i == Bucket(m, t) {
      AddrOfLinked(m, t);
      forall k | 0 <= k < |m.buckets[i]| ensures m.heap[m.buckets[i][k]].tid != t {
        assert Linked(m, m.buckets[i][k]);
      }
    }
  }

  lemma AddThreadInv(m: Mem, me: Tid, t: Tid)
    requires Inv(m) && AddrOf(m, t).None?
    ensures Inv(AddThread(m, me, t))
    ensures forall x :: x in m.heap ==> x in AddThread(m, me, t).heap && AddThread(m, me, t).heap[x] == m.heap[x]
    ensures AddrOf(AddThread(m, me, t), t) == Some(m.nextAddr)
    ensures forall u :: u != t ==> AddrOf(AddThread(m, me, t), u) == AddrOf(m, u)
  {
    var a := m.nextAddr;
    var m' := AddThread(m, me, t);
    AddThreadHeap(m, me, t);
    forall i | 0 <= i < |m'.buckets| ensures ChainOk(m', i) { AddThreadChain(m, me, t, i); }
    forall x | Linked(m', x) ensures Complete(m', x) {
      if x != a { assert Linked(m, x) && Complete(m, x); }
    }
    AddThreadAddr(m, me, t);
  }

  lemma AddThreadAddr(m: Mem, me: Tid, t: Tid)
    requires Inv(m) && AddrOf(m, t).None? && TableInv(AddThread(m, me, t))
    ensures AddrOf(AddThread(m, me, t), t) == Some(m.nextAddr)
    ensures forall u :: u != t ==> AddrOf(AddThread(m, me, t), u) == AddrOf(m, u)
  {
    var m' := AddThread(m, me, t);
    AddThreadHeap(m, me, t);
    AddrOfLinked(m', t);
    assert Linked(m', m.nextAddr) by { assert Chain(m', t)[|Chain(m, t)|] == m.nextAddr; }
    forall u | u != t ensures AddrOf(m', u) == AddrOf(m, u) {
      SurvivorsKeepAddr(m, m', u);
    }
  }

  // ---------------------------------------------------------------- ts_resource_ex, run without interruption

  /** The memory after a fetch for thread t (NULL: the caller itself, by its TLS pointer if it has one). */
  function FetchMem(m: Mem, me: Tid, th: Option<Tid>): Mem
    requires |m.buckets| > 0 && m.idCount <= |m.types|
  {
    if th.None? && me in m.tls then m
    else
      var t := Target(me, th);
      if AddrOf(m, t).Some? then m else AddThread(m, me, t)
  }

  function FetchResult(m: Mem, me: Tid, id: nat, th: Option<Tid>): Result
    requires |m.buckets| > 0 && m.idCount <= |m.types|
  {
    if th.None? && me in m.tls then Read(m, m.tls[me], id)
    else
      var t := Target(me, th);
      var m' := FetchMem(m, me, th);
      if AddrOf(m', t).Some? then Read(m', AddrOf(m', t).value, id) else Fault
  }

  /** The thread a fetch is for. */
  function Target(me: Tid, th: Option<Tid>): Tid { if th.Some? then th.value else me }

  /** After the allocation the fetch is that of an existing entry. */
  lemma FetchRetried(m: Mem, me: Tid, id: nat, th: Option<Tid>)
    requires Inv(m) && AddrOf(m, Target(me, th)).None? && !(th.None? && me in m.tls)
    ensures var t := Target(me, th);
      var m' := AddThread(m, me, t);
      && Inv(m') && AddrOf(m', t).Some?
      && FetchMem(m', me, Some(t)) == FetchMem(m, me, th) && FetchResult(m', me, id, Some(t)) == FetchResult(m, me, id, th)
  {
    AddThreadInv(m, me, Target(me, th));
  }

  // ---------------------------------------------------------------- ts_free_id

  function ClearAll(m: Mem, addrs: seq<Addr>, k: nat, j: nat): (r: Mem)
    requires j < |m.types| && k <= |addrs|
    ensures r == m.(heap := r.heap, log := r.log)
    ensures r.heap.Keys == m.heap.Keys
    decreases |addrs| - k
  {
    if k == |addrs| then m
    else ClearAll(if addrs[k] in m.heap then ClearSlot(m, addrs[k], j) else m, addrs, k + 1, j)
  }

  function FreeId(m: Mem, j: nat): Mem
    requires j < |m.types|
  {
    ClearAll(m, Flatten(m.buckets), 0, j).(types := m.types[j := m.types[j].(done := true)])
  }

  function Cleared(e: Entry, j: nat): Entry {
    if j < |e.storage| then e.(storage := e.storage[j := None]) else e
  }

  lemma {:induction false} ClearAllEffect(m: Mem, addrs: seq<Addr>, k: nat, j: nat)
    requires HeapInv(m) && j < |m.types| && k <= |addrs|
    ensures HeapInv(ClearAll(m, addrs, k, j))
    ensures m.log <= ClearAll(m, addrs, k, j).log
    ensures forall x :: x in m.heap ==>
      ClearAll(m, addrs, k, j).heap[x] == (if x in addrs[k..] then Cleared(m.heap[x], j) else m.heap[x])
    decreases |addrs| - k
  {
    if k < |addrs| {
      var a := addrs[k];
      assert addrs[k..] == [a] + addrs[k + 1..];
      if a in m.heap {
        ClearSlotInv(m, a, j);
        assert Cleared(Cleared(m.heap[a], j), j) == Cleared(m.heap[a], j);
      }
      ClearAllEffect(if a in m.heap then ClearSlot(m, a, j) else m, addrs, k + 1, j);
    }
  }

  lemma FreeIdHeap(m: Mem, j: nat)
    requires Inv(m) && j < |m.types|
    ensures FreeId(m, j).heap.Keys == m.heap.Keys && HeapInv(FreeId(m, j))
    ensures forall x :: x in m.heap ==> FreeId(m, j).heap[x] == (if Linked(m, x) then Cleared(m.heap[x], j) else m.heap[x])
  {
    var m1 := ClearAll(m, Flatten(m.buckets), 0, j);
    ClearAllEffect(m, Flatten(m.buckets), 0, j);
    forall x | x in m.heap
      ensures FreeId(m, j).heap[x] == (if Linked(m, x) then Cleared(m.heap[x], j) else m.heap[x])
    {
      FlattenLinked(m, x);
    }
    MarkDoneInv(m1, j);
  }

  /** Whether an id was freed does not matter to the blocks. */
  lemma MarkDoneInv(m: Mem, j: nat)
    requires HeapInv(m) && j < |m.types|
    ensures HeapInv(m.(types := m.types[j := m.types[j].(done := true)]))
  {
    var m' := m.(types := m.types[j := m.types[j].(done := true)]);
    forall x, b: Block ensures Holds(m', x, b) <==> Holds(m, x, b) { }
    forall x | x in m'.heap ensures SlotsOk(m', x) { assert SlotsOk(m, x); }
    forall b | 0 <= b < |m'.origin| ensures LifeOk(m', b) {
      assert LifeOk(m, b);
      assert Live(m', b) <==> Live(m, b);
    }
  }

  lemma FreeIdInv(m: Mem, j: nat)
    requires Inv(m) && j < |m.types|
    ensures Inv(FreeId(m, j))
    ensures forall x :: x in m.heap ==> FreeId(m, j).heap[x] == (if Linked(m, x) then Cleared(m.heap[x], j) else m.heap[x])
  {
    var m' := FreeId(m, j);
    FreeIdHeap(m, j);
    forall i | 0 <= i < |m'.buckets| ensures ChainOk(m', i) { assert ChainOk(m, i); }
    forall a | Linked(m', a) ensures Complete(m', a) {
      assert Linked(m, a) && Complete(m, a);
    }
  }

  // ---------------------------------------------------------------- ts_free_thread

  /** Entry a leaves the chain at position k and is freed. */
  function Unlink(m: Mem, h: nat, k: nat): Mem
    requires h < |m.buckets| && k < |m.buckets[h]|
  {
    m.(buckets := m.buckets[h := m.buckets[h][..k] + m.buckets[h][k + 1..]])
  }

  function FreeThread(m: Mem, me: Tid): Mem
    requires Inv(m)
  {
    var k := FindFrom(m.heap, Chain(m, me), me, 0);
    if k == |Chain(m, me)| then m
    else
      var a := Chain(m, me)[k];
      Unlink(Release(m, a), Bucket(m, me), k).(tls := m.tls - {me})
  }

  lemma FreeThreadHeap(m: Mem, me: Tid)
    requires Inv(m) && AddrOf(m, me).Some?
    ensures HeapInv(FreeThread(m, me))
    ensures FreeThread(m, me).heap == m.heap - {AddrOf(m, me).value}
  {
    AddrOfLinked(m, me);
    var a := AddrOf(m, me).value;
    ReleaseBuries(m, a);
    HeapInvIgnoresLinks(Release(m, a), FreeThread(m, me));
  }

  lemma FreeThreadChain(m: Mem, me: Tid, i: nat)
    requires Inv(m) && AddrOf(m, me).Some? && i < |m.buckets|
    ensures ChainOk(FreeThread(m, me), i)
  {
    FreeThreadHeap(m, me);
    assert ChainOk(m, i) && ChainOk(m, Bucket(m, me));
    var k := FindFrom(m.heap, Chain(m, me), me, 0);
    assert FreeThread(m, me).buckets == m.buckets[Bucket(m, me) := Chain(m, me)[..k] + Chain(m, me)[k + 1..]];
  }

  lemma FreeThreadTable(m: Mem, me: Tid)
    requires Inv(m) && AddrOf(m, me).Some?
    ensures TableInv(FreeThread(m, me))
    ensures forall x: Addr :: Linked(FreeThread(m, me), x) <==> Linked(m, x) && AddrOf(m, me) != Some(x)
  {
    var m' := FreeThread(m, me);
    forall i | 0 <= i < |m'.buckets| ensures ChainOk(m', i) { FreeThreadChain(m, me, i); }
    forall x: Addr ensures Linked(m', x) <==> Linked(m, x) && AddrOf(m, me) != Some(x) { FreeThreadLinked(m, me, x); }
    FreeThreadHeap(m, me);
    forall x | Linked(m', x) ensures Complete(m', x) { assert Complete(m, x); }
  }

  lemma FreeThreadLinked(m: Mem, me: Tid, x: Addr)
    requires Inv(m) && AddrOf(m, me).Some?
    ensures Linked(FreeThread(m, me), x) <==> Linked(m, x) && AddrOf(m, me) != Some(x)
  {
    FreeThreadHeap(m, me);
    assert ChainOk(m, Bucket(m, me));
    if Linked(m, x) && AddrOf(m, me) != Some(x) && Bucket(m, m.heap[x].tid) == Bucket(m, me) {
      var c, k := Chain(m, me), FindFrom(m.heap, Chain(m, me), me, 0);
      var i :| 0 <= i < |c| && c[i] == x;
      assert (c[..k] + c[k + 1..])[if i < k then i else i - 1] == x;
    }
  }

  lemma FreeThreadInv(m: Mem, me: Tid)
    requires Inv(m)
    ensures Inv(FreeThread(m, me))
    ensures AddrOf(FreeThread(m, me), me).None?
    ensures forall u :: u != me ==> AddrOf(FreeThread(m, me), u) == AddrOf(m, u)
    ensures forall x :: x in FreeThread(m, me).heap <==> x in m.heap && AddrOf(m, me) != Some(x)
    ensures forall x :: x in FreeThread(m, me).heap ==> FreeThread(m, me).heap[x] == m.heap[x]
  {
    var m' := FreeThread(m, me);
    if AddrOf(m, me).Some? {
      FreeThreadHeap(m, me);
      FreeThreadTable(m, me);
      AddrOfLinked(m', me);
      AddrOfLinked(m, me);
      forall u | u != me ensures AddrOf(m', u) == AddrOf(m, u) { SurvivorsKeepAddr(m, m', u); }
    }
  }

  /** When the links of thread u are the same in both memories, so is its address. */
  lemma SurvivorsKeepAddr(m: Mem, m': Mem, u: Tid)
    requires TableInv(m) && TableInv(m') && |m.buckets| == |m'.buckets|
    requires forall x :: x in m.heap && m.heap[x].tid == u && Linked(m, x) ==> x in m'.heap && m'.heap[x].tid == u && Linked(m', x)
    requires forall x :: Linked(m', x) && m'.heap[x].tid == u ==> Linked(m, x) && m.heap[x].tid == u
    ensures AddrOf(m', u) == AddrOf(m, u)
  {
    AddrOfLinked(m, u);
    AddrOfLinked(m', u);
  }

  // ---------------------------------------------------------------- ts_free_worker_threads

  /** Free every entry of the chain, from position k on, that is not thread me's. */
  function ReleaseOthers(m: Mem, chain: seq<Addr>, k: nat, me: Tid): (r: Mem)
    requires k <= |chain|
    ensures r == m.(heap := r.heap, log := r.log)
    decreases |chain| - k
  {
    if k == |chain| then m
    else
      var a := chain[k];
      ReleaseOthers(
        if a in m.heap && m.heap[a].tid != me && |m.heap[a].storage| <= |m.types| then Release(m, a) else m,
        chain, k + 1, me)
  }

  function Keep(heap: map<Addr, Entry>, chain: seq<Addr>, k: nat, me: Tid): seq<Addr>
    requires k <= |chain|
    decreases |chain| - k
  {
    if k == |chain| then []
    else (if Owns(heap, chain[k], me) then [chain[k]] else []) + Keep(heap, chain, k + 1, me)
  }

  function FreeWorkers(m: Mem, me: Tid): Mem
    requires |m.buckets| > 0
  {
    ReleaseOthers(m, Chain(m, me), 0, me)
      .(buckets := m.buckets[Bucket(m, me) := Keep(m.heap, Chain(m, me), 0, me)])
  }

  /** The sweep of bucket h is at position i of its chain: kept is what it left in front. */
  ghost predicate Swept(m0: Mem, h: nat, me: Tid, i: nat, kept: seq<Addr>, m: Mem)
    requires h < |m0.buckets|
  {
    var chain := m0.buckets[h];
    && i <= |chain|
    && m.buckets == m0.buckets[h := kept + chain[i..]]
    && Keep(m0.heap, chain, 0, me) == kept + Keep(m0.heap, chain, i, me)
    && ReleaseOthers(m.(buckets := m0.buckets), chain, i, me) == ReleaseOthers(m0, chain, 0, me)
    && forall q {:trigger chain[q]} :: i <= q < |chain| ==>
         chain[q] in m.heap && chain[q] in m0.heap && m.heap[chain[q]] == m0.heap[chain[q]]
  }

  lemma SweptStart(m: Mem, h: nat, me: Tid)
    requires h < |m.buckets| && ChainOk(m, h)
    ensures Swept(m, h, me, 0, [], m)
  {
    assert [] + m.buckets[h][0..] == m.buckets[h];
  }

  lemma SweptPast(m0: Mem, h: nat, me: Tid, i: nat, kept: seq<Addr>, m: Mem)
    requires h < |m0.buckets| && Swept(m0, h, me, i, kept, m) && i < |m0.buckets[h]| && m.heap[m0.buckets[h][i]].tid == me
    ensures Swept(m0, h, me, i + 1, kept + [m0.buckets[h][i]], m)
  {
    var chain := m0.buckets[h];
    assert kept + chain[i..] == (kept + [chain[i]]) + chain[i + 1..];
    assert kept + Keep(m0.heap, chain, i, me) == (kept + [chain[i]]) + Keep(m0.heap, chain, i + 1, me);
  }

  lemma SweptAway(m0: Mem, h: nat, me: Tid, i: nat, kept: seq<Addr>, m: Mem)
    requires h < |m0.buckets| && Swept(m0, h, me, i, kept, m) && i < |m0.buckets[h]| && ChainOk(m0, h)
    requires m.heap[m0.buckets[h][i]].tid != me && |m.heap[m0.buckets[h][i]].storage| <= |m.types|
    ensures |kept| < |m.buckets[h]| && Swept(m0, h, me, i + 1, kept, Unlink(Release(m, m0.buckets[h][i]), h, |kept|))
  {
    var chain := m0.buckets[h];
    var m1 := Release(m, chain[i]);
    var m' := Unlink(m1, h, |kept|);
    SweptSplice(m0.buckets, h, i, kept, m.buckets);
    assert m'.(buckets := m0.buckets) == Release(m.(buckets := m0.buckets), chain[i]);
    forall q {:trigger chain[q]} | i + 1 <= q < |chain| ensures chain[q] != chain[i] { }
  }

  lemma SweptSplice(bs: seq<seq<Addr>>, h: nat, i: nat, kept: seq<Addr>, bs': seq<seq<Addr>>)
    requires h < |bs| && i < |bs[h]| && bs' == bs[h := kept + bs[h][i..]]
    ensures |kept| < |bs'[h]| && bs'[h := bs'[h][..|kept|] + bs'[h][|kept| + 1..]] == bs[h := kept + bs[h][i + 1..]]
  {
    assert bs'[h][..|kept|] + bs'[h][|kept| + 1..] == kept + bs[h][i + 1..];
  }

  lemma SweptEnd(m0: Mem, me: Tid, kept: seq<Addr>, m: Mem)
    requires |m0.buckets| > 0 && Swept(m0, Bucket(m0, me), me, |Chain(m0, me)|, kept, m)
    ensures m == FreeWorkers(m0, me)
  {
    assert kept + Chain(m0, me)[|Chain(m0, me)|..] == kept;
  }

  lemma {:induction false} ReleaseOthersEffect(m: Mem, chain: seq<Addr>, k: nat, me: Tid)
    requires HeapInv(m) && k <= |chain|
    ensures var m' := ReleaseOthers(m, chain, k, me);
      && HeapInv(m') && m.log <= m'.log
      && (forall x :: x in m'.heap <==> x in m.heap && !(x in chain[k..] && m.heap[x].tid != me))
      && (forall x :: x in m'.heap ==> m'.heap[x] == m.heap[x])
    decreases |chain| - k
  {
    if k < |chain| {
      var a := chain[k];
      assert chain[k..] == [a] + chain[k + 1..];
      if a in m.heap && m.heap[a].tid != me {
        ReleaseBuries(m, a);
        ReleaseOthersEffect(Release(m, a), chain, k + 1, me);
      } else {
        ReleaseOthersEffect(m, chain, k + 1, me);
      }
    }
  }

  lemma {:induction false} KeepMembers(heap: map<Addr, Entry>, chain: seq<Addr>, k: nat, me: Tid)
    requires k <= |chain|
    ensures forall x :: x in Keep(heap, chain, k, me) <==> x in chain[k..] && Owns(heap, x, me)
    ensures (forall i, j :: k <= i < j < |chain| ==> !(Owns(heap, chain[i], me) && Owns(heap, chain[j], me))) ==>
      |Keep(heap, chain, k, me)| <= 1
    decreases |chain| - k
  {
    if k < |chain| {
      assert chain[k..] == [chain[k]] + chain[k + 1..];
      KeepMembers(heap, chain, k + 1, me);
      if Owns(heap, chain[k], me) && |Keep(heap, chain, k + 1, me)| > 0 {
        var x := Keep(heap, chain, k + 1, me)[0];
        assert x in Keep(heap, chain, k + 1, me);
        var i :| k < i < |chain| && chain[i] == x;
        assert Owns(heap, chain[k], me) && Owns(heap, chain[i], me);
      }
    }
  }

  /** Thread u loses its entry when thread me frees the workers: it shares me's bucket and is not me. */
  predicate LosesTo(m: Mem, u: Tid, me: Tid)
    requires |m.buckets| > 0
  {
    u != me && Bucket(m, u) == Bucket(m, me)
  }

  lemma FreeWorkersInv(m: Mem, me: Tid)
    requires Inv(m)
    ensures Inv(FreeWorkers(m, me))
    ensures forall u :: AddrOf(FreeWorkers(m, me), u) == if LosesTo(m, u, me) then None else AddrOf(m, u)
    ensures forall x :: x in m.heap ==> (x in FreeWorkers(m, me).heap <==> !(Linked(m, x) && LosesTo(m, m.heap[x].tid, me)))
    ensures forall x :: x in FreeWorkers(m, me).heap ==> x in m.heap && FreeWorkers(m, me).heap[x] == m.heap[x]
  {
    var h := Bucket(m, me);
    var m' := FreeWorkers(m, me);
    FreeWorkersHeap(m, me);
    KeepMembers(m.heap, Chain(m, me), 0, me);
    assert ChainOk(m, h);
    forall i | 0 <= i < |m'.buckets| ensures ChainOk(m', i) {
      assert ChainOk(m, i);
      if i != h {
        forall k | 0 <= k < |m'.buckets[i]| ensures m'.buckets[i][k] in m'.heap { }
      } else {
        forall k | 0 <= k < |m'.buckets[i]| ensures Owns(m.heap, m'.buckets[i][k], me) {
          assert m'.buckets[i][k] in Keep(m.heap, Chain(m, me), 0, me);
        }
      }
    }
    forall x | Linked(m', x) ensures Linked(m, x) && Complete(m', x) {
      assert Linked(m, x) && Complete(m, x);
    }
    forall u ensures AddrOf(m', u) == if LosesTo(m, u, me) then None else AddrOf(m, u) {
      AddrOfLinked(m', u);
      if !LosesTo(m, u, me) { SurvivorsKeepAddr(m, m', u); }
    }
  }

  /** What the hash decides: a worker loses its entry exactly if its id leaves the same remainder as the caller's. */
  lemma FreeWorkersByHash(m: Mem, me: Tid, u: Tid)
    requires Inv(m)
    ensures AddrOf(FreeWorkers(m, me), u) ==
            if u != me && u % |m.buckets| == me % |m.buckets| then None else AddrOf(m, u)
  {
    FreeWorkersInv(m, me);
  }

  lemma FreeWorkersHeap(m: Mem, me: Tid)
    requires Inv(m)
    ensures HeapInv(FreeWorkers(m, me))
    ensures forall x :: x in m.heap ==> (x in FreeWorkers(m, me).heap <==> !(Linked(m, x) && LosesTo(m, m.heap[x].tid, me)))
    ensures forall x :: x in FreeWorkers(m, me).heap ==> x in m.heap && FreeWorkers(m, me).heap[x] == m.heap[x]
  {
    ReleaseOthersEffect(m, Chain(m, me), 0, me);
    HeapInvIgnoresLinks(ReleaseOthers(m, Chain(m, me), 0, me), FreeWorkers(m, me));
    assert ChainOk(m, Bucket(m, me));
    forall x | x in m.heap
      ensures x in FreeWorkers(m, me).heap <==> !(Linked(m, x) && LosesTo(m, m.heap[x].tid, me))
    {
    }
  }

  // ---------------------------------------------------------------- tsrm_startup and tsrm_shutdown

  /** The memory after tsrm_startup; calloc'ed resource types are all zero. */
  function Startup(expectedThreads: nat, expectedResources: nat): Mem {
    Mem(seq(expectedThreads, _ => []), map[], seq(expectedResources, _ => ResType(0, false, false, false)), 0, map[], 0, [], [])
  }

  function ShutAll(m: Mem, addrs: seq<Addr>, k: nat): (r: Mem)
    requires k <= |addrs|
    ensures r == m.(heap := r.heap, log := r.log)
    decreases |addrs| - k
  {
    if k == |addrs| then m
    else
      var a := addrs[k];
      ShutAll(if a in m.heap && |m.heap[a].storage| <= |m.types| then ShutEntry(m, a) else m, addrs, k + 1)
  }

  /** Both tables go; the caller's TLS pointer is reset. */
  function Shutdown(m: Mem, me: Tid): Mem {
    ShutAll(m, Flatten(m.buckets), 0).(buckets := [], types := [], tls := m.tls - {me})
  }

  lemma StartupInv(expectedThreads: nat, expectedResources: nat)
    ensures expectedThreads > 0 ==> Inv(Startup(expectedThreads, expectedResources))
  {
  }

  lemma {:induction false} ShutAllEffect(m: Mem, addrs: seq<Addr>, k: nat)
    requires HeapInv(m) && k <= |addrs|
    requires forall a :: a in addrs[k..] && a in m.heap ==> Complete(m, a)
    ensures var m' := ShutAll(m, addrs, k);
      && HeapInv(m')
      && (forall x :: x in m'.heap <==> x in m.heap && x !in addrs[k..])
      && (forall x :: x in m'.heap ==> m'.heap[x] == m.heap[x])
    decreases |addrs| - k
  {
    if k < |addrs| {
      var a := addrs[k];
      assert addrs[k..] == [a] + addrs[k + 1..];
      if a in m.heap {
        assert Complete(m, a);
        ShutEntryBuries(m, a);
        ShutAllEffect(ShutEntry(m, a), addrs, k + 1);
      } else {
        ShutAllEffect(m, addrs, k + 1);
      }
    }
  }

  /** Conservation: tsrm_shutdown completes the life of every block ever allocated for a linked entry. */
  lemma ShutdownBuries(m: Mem, me: Tid, b: Block)
    requires Inv(m) && b < |m.origin|
    requires forall a :: Holds(m, a, b) ==> Linked(m, a)
    ensures m.origin[b] < m.idCount && History(Shutdown(m, me).log, b) == Buried(m.types[m.origin[b]], m.origin[b], b)
  {
    assert LifeOk(m, b);
    var m1 := ShutAll(m, Flatten(m.buckets), 0);
    forall a ensures a in Flatten(m.buckets) <==> Linked(m, a) { FlattenLinked(m, a); }
    ShutAllEffect(m, Flatten(m.buckets), 0);
    assert LifeOk(m1, b);
    assert forall a :: Holds(m1, a, b) ==> Holds(m, a, b);
  }

  /**
  Behind tsrm_shutdown no linked entry is left, and the caller has no TLS pointer.  The pointers of the
  other threads stay, so that each of them that was on a linked entry dangles.
  */
  lemma ShutdownLeaves(m: Mem, me: Tid)
    requires Inv(m)
    ensures var m' := Shutdown(m, me);
      && m'.buckets == [] && m'.types == []
      && (forall x :: x in m'.heap <==> x in m.heap && !Linked(m, x))
      && (forall x :: x in m'.heap ==> m'.heap[x] == m.heap[x])
      && me !in m'.tls
      && (forall t :: t != me ==> (t in m'.tls <==> t in m.tls) && (t in m.tls ==> m'.tls[t] == m.tls[t]))
      && forall t :: t in m'.tls && Linked(m, m'.tls[t]) ==> m'.tls[t] !in m'.heap
  {
    forall a ensures a in Flatten(m.buckets) <==> Linked(m, a) { FlattenLinked(m, a); }
    assert Flatten(m.buckets)[0..] == Flatten(m.buckets);
    ShutAllEffect(m, Flatten(m.buckets), 0);
  }

  // ---------------------------------------------------------------- interpreter contexts

  /** tsrm_new_interpreter_context: an entry that is not linked; the TLS pointer is put back. */
  function NewContext(m: Mem, me: Tid): Mem
    requires m.idCount <= |m.types|
  {
    Populate(NewEntry(m, me, me), m.nextAddr).(tls := m.tls)
  }

  function SetContext(m: Mem, me: Tid, ctx: Option<Addr>): Mem {
    m.(tls := match ctx case Some(a) => m.tls[me := a] case None => m.tls - {me})
  }

  lemma ContextHeap(m: Mem, me: Tid)
    requires Inv(m)
    ensures HeapInv(NewContext(m, me))
    ensures NewContext(m, me).heap.Keys == m.heap.Keys + {m.nextAddr}
    ensures forall x :: x in m.heap ==> NewContext(m, me).heap[x] == m.heap[x]
  {
    NewEntryInv(m, me, me);
    PopulateEffect(NewEntry(m, me, me), m.nextAddr);
    HeapInvIgnoresLinks(Populate(NewEntry(m, me, me), m.nextAddr), NewContext(m, me));
  }

  lemma ContextInv(m: Mem, me: Tid)
    requires Inv(m)
    ensures Inv(NewContext(m, me)) && !Linked(NewContext(m, me), m.nextAddr)
    ensures forall u :: AddrOf(NewContext(m, me), u) == AddrOf(m, u)
  {
    var m' := NewContext(m, me);
    ContextHeap(m, me);
    forall i | 0 <= i < |m'.buckets| ensures ChainOk(m', i) && m.nextAddr !in m'.buckets[i] { assert ChainOk(m, i); }
    forall x | Linked(m', x) ensures Linked(m, x) && Complete(m', x) { assert Linked(m, x) && Complete(m, x); }
    forall u ensures AddrOf(m', u) == AddrOf(m, u) { SurvivorsKeepAddr(m, m', u); }
  }

  /** tsrm_free_interpreter_context on an entry that is not linked. */
  lemma FreeContextInv(m: Mem, a: Addr)
    requires Inv(m) && a in m.heap && !Linked(m, a)
    ensures Inv(Release(m, a))
    ensures forall u :: AddrOf(Release(m, a), u) == AddrOf(m, u)
  {
    var m' := Release(m, a);
    ReleaseBuries(m, a);
    forall i | 0 <= i < |m'.buckets| ensures ChainOk(m', i) {
      assert ChainOk(m, i);
      assert forall k :: 0 <= k < |m.buckets[i]| ==> Linked(m, m.buckets[i][k]);
    }
    forall x | Linked(m', x) ensures Linked(m, x) && Complete(m', x) { assert Linked(m, x) && Complete(m, x); }
    forall u ensures AddrOf(m', u) == AddrOf(m, u) { SurvivorsKeepAddr(m, m', u); }
  }
}
