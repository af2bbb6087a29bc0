/**
TSRM itself: linked entries mutated in place under a mutex that is not reentrant.  Every public
method is proved equal to its function in TsrmTable, whose properties are proved there and over
whole runs in TsrmRuns.
*/
module TsrmManager {
  import opened TsrmMemory
  import opened TsrmTable

  // struct _tsrm_tls_entry; count is the length of storage.  free() marks it freed.
  class TlsEntry {
    const id: Addr
    const threadId: Tid
    var storage: seq<Option<Block>>
    var next: TlsEntry?
    var freed: bool

    constructor (id: Addr, threadId: Tid)
      ensures this.id == id && this.threadId == threadId && storage == [] && next == null && !freed
    {
      this.id := id;
      this.threadId := threadId;
      storage, next, freed := [], null, false;
    }
  }

  // Where allocate_new_resource stores the new entry.
  datatype Place = Head(h: nat) | After(last: TlsEntry) | Local

  class Manager {
    var table: array<TlsEntry?>
    var types: seq<ResType>
    var idCount: nat
    var tls: map<Tid, TlsEntry>
    var locked: bool
    var nextAddr: Addr
    var nextBlock: Block
    var log: seq<Event>  // what the allocator and the callbacks were asked to do, in order

    ghost var mem: Mem
    ghost var nodes: map<Addr, TlsEntry>  // every entry ever allocated
    ghost var repr: set<TlsEntry>         // the same entries, as a frame

    static ghost function NodeAt(chain: seq<Addr>, nodes: map<Addr, TlsEntry>, k: nat): TlsEntry? {
      if k < |chain| && chain[k] in nodes then nodes[chain[k]] else null
    }

    /** The k-th node of the chain is there and points to the next one. */
    static ghost predicate LinkOk(chain: seq<Addr>, nodes: map<Addr, TlsEntry>, repr: set<TlsEntry>, k: nat)
      reads repr`next
    {
      k < |chain| ==> chain[k] in nodes && nodes[chain[k]] in repr && nodes[chain[k]].next == NodeAt(chain, nodes, k + 1)
    }

    /** Every chain of the table is the list of the nodes of its bucket. */
    static ghost predicate Shape(buckets: seq<seq<Addr>>, nodes: map<Addr, TlsEntry>, repr: set<TlsEntry>, table: array<TlsEntry?>)
      reads table, repr`next
    {
      && table.Length == |buckets|
      && (forall i :: 0 <= i < |buckets| ==> table[i] == NodeAt(buckets[i], nodes, 0))
      && (forall i, k: nat {:trigger LinkOk(buckets[i], nodes, repr, k)} :: 0 <= i < |buckets| ==> LinkOk(buckets[i], nodes, repr, k))
    }

    /** Every entry of the heap is a node with that content; the other nodes are freed. */
    static ghost predicate NodesOk(heap: map<Addr, Entry>, nodes: map<Addr, TlsEntry>, repr: set<TlsEntry>)
      reads repr`storage, repr`freed
    {
      && (forall a :: a in nodes ==> nodes[a] in repr && nodes[a].id == a && (nodes[a].freed <==> a !in heap))
      && (forall a :: a in heap ==> a in nodes && nodes[a].threadId == heap[a].tid && nodes[a].storage == heap[a].storage)
    }

    static ghost predicate TlsOk(tls: map<Tid, TlsEntry>, addrs: map<Tid, Addr>, nodes: map<Addr, TlsEntry>) {
      tls.Keys == addrs.Keys && forall t :: t in tls ==> addrs[t] in nodes && tls[t] == nodes[addrs[t]]
    }

    /** Every linked address is allocated. */
    static ghost predicate AllAllocated(buckets: seq<seq<Addr>>, heap: map<Addr, Entry>) {
      forall i, k {:trigger buckets[i][k]} :: 0 <= i < |buckets| && 0 <= k < |buckets[i]| ==> buckets[i][k] in heap
    }

    static ghost predicate Fits(heap: map<Addr, Entry>, n: nat) {
      forall a :: a in heap ==> |heap[a].storage| <= n
    }

    /** The fields represent the memory mem. */
    ghost predicate Represents()
      reads this, table, repr
    {
      var good :=
        && log == mem.log && nextBlock == |mem.origin| && nextAddr == mem.nextAddr
        && types == mem.types && idCount == mem.idCount <= |mem.types|
        && (forall a: Addr :: a in nodes <==> a < nextAddr)
        && NodesOk(mem.heap, nodes, repr)
        && Shape(mem.buckets, nodes, repr, table)
        && Fits(mem.heap, idCount)
        && TlsOk(tls, mem.tls, nodes);
      good
    }

    ghost predicate Valid()
      reads this, table, repr
    {
      Represents() && AllAllocated(mem.buckets, mem.heap)
    }

    lemma Sizes()
      requires Represents()
      ensures table.Length == |mem.buckets| && types == mem.types && idCount == mem.idCount <= |mem.types|
    {
    }

    lemma HeadIs(i: nat)
      requires Represents() && i < table.Length
      ensures i < |mem.buckets| && table[i] == NodeAt(mem.buckets[i], nodes, 0) && (table[i] == null <==> mem.buckets[i] == [])
    {
      assert LinkOk(mem.buckets[i], nodes, repr, 0);
    }

    /** The thread's TLS pointer is a node. */
    lemma TlsIsNode(me: Tid)
      requires Represents()
      ensures me in tls <==> TlsOf(mem, me).Some?
      ensures me in tls ==> var p := tls[me]; TlsOf(mem, me) == Some(p.id) && p.id in nodes && nodes[p.id] == p && p.id < nextAddr
      ensures nextAddr == mem.nextAddr && mem.idCount <= |mem.types|
    {
    }

    // -------------------------------------------------------------- the mutex

    method Lock()
      requires Valid() && !locked
      modifies `locked
      ensures Valid() && locked
    {
      locked := true;
    }

    method Unlock()
      requires Valid() && locked
      modifies `locked
      ensures Valid() && !locked
    {
      locked := false;
    }

    // -------------------------------------------------------------- malloc, free and the callbacks

    /** malloc of a block for resource index rid. */
    method Malloc(size: nat, ghost rid: nat) returns (b: Block)
      requires Valid()
      modifies `mem, `nextBlock, `log
      ensures Valid() && b == |old(mem).origin|
      ensures mem == old(mem).(origin := old(mem).origin + [rid], log := old(mem).log + [Event.Malloc(b, size)])
    {
      b := nextBlock;
      nextBlock := nextBlock + 1;
      log := log + [Event.Malloc(b, size)];
      mem := mem.(origin := mem.origin + [rid], log := log);
    }

    /** A constructor, a destructor or free() is called. */
    method Call(e: Event)
      requires Represents()
      modifies `mem, `log
      ensures Represents() && mem == old(mem).(log := old(mem).log + [e])
    {
      log := log + [e];
      mem := mem.(log := log);
    }

    method SetStorage(p: TlsEntry, storage: seq<Option<Block>>)
      requires Valid() && p.id in mem.heap && nodes[p.id] == p && |storage| <= idCount
      modifies `mem, p`storage
      ensures Valid() && mem == old(mem).(heap := old(mem).heap[p.id := old(mem).heap[p.id].(storage := storage)])
    {
      p.storage := storage;
      mem := mem.(heap := mem.heap[p.id := mem.heap[p.id].(storage := storage)]);
    }

    // -------------------------------------------------------------- one entry

    /** Give entry p its next slot: malloc, then the constructor. */
    method AddSlot(p: TlsEntry)
      requires Valid() && p.id in mem.heap && nodes[p.id] == p && |p.storage| < idCount
      modifies `mem, `nextBlock, `log, p`storage
      ensures Valid() && mem == Construct(old(mem), p.id)
    {
      var j := |p.storage|;
      var b := Malloc(types[j].size, j);
      SetStorage(p, p.storage + [Some(b)]);
      if types[j].hasCtor {
        Call(Ctor(j, b));
        assert old(mem).log + [Event.Malloc(b, types[j].size)] + [Ctor(j, b)] == old(mem).log + Born(types[j], j, b);
      }
    }

    /** The inner loop of ts_allocate_id. */
    method FillEntry(p: TlsEntry)
      requires Valid() && p.id in mem.heap && nodes[p.id] == p
      modifies `mem, `nextBlock, `log, p`storage
      ensures Valid() && mem == FillTo(old(mem), p.id)
    {
      while |p.storage| < idCount
        invariant Valid() && p.id in mem.heap
        invariant FillTo(mem, p.id) == FillTo(old(mem), p.id)
        decreases idCount - |p.storage|
      {
        AddSlot(p);
      }
    }

    /** A slot of an id that was freed. */
    method AddNull(p: TlsEntry)
      requires Valid() && p.id in mem.heap && nodes[p.id] == p && |p.storage| < idCount
      modifies `mem, p`storage
      ensures Valid() && mem == PushNull(old(mem), p.id)
    {
      SetStorage(p, p.storage + [None]);
    }

    /** Fill the storage of a new entry: NULL where the id was freed. */
    method PopulateEntry(p: TlsEntry)
      requires Valid() && p.id in mem.heap && nodes[p.id] == p
      modifies `mem, `nextBlock, `log, p`storage
      ensures Valid() && mem == Populate(old(mem), p.id)
    {
      while |p.storage| < idCount
        invariant Valid() && p.id in mem.heap
        invariant Populate(mem, p.id) == Populate(old(mem), p.id)
        decreases idCount - |p.storage|
      {
        AddNext(p);
      }
    }

    method AddNext(p: TlsEntry)
      requires Valid() && p.id in mem.heap && nodes[p.id] == p && |p.storage| < idCount
      modifies `mem, `nextBlock, `log, p`storage
      ensures Valid() && p.id in mem.heap && Populate(mem, p.id) == Populate(old(mem), p.id)
      ensures |p.storage| == old(|p.storage|) + 1
    {
      if types[|p.storage|].done {
        AddNull(p);
      } else {
        AddSlot(p);
      }
    }

    // -------------------------------------------------------------- ts_allocate_id

    method RegisterType(size: nat, hasCtor: bool, hasDtor: bool) returns (rsrcId: nat)
      requires Valid()
      modifies `types, `idCount, `mem
      ensures Valid() && mem == NewType(old(mem), size, hasCtor, hasDtor) && rsrcId == old(idCount) + 1
    {
      idCount := idCount + 1;
      rsrcId := idCount;
      if |types| < idCount {
        types := types + [ResType(size, hasCtor, hasDtor, false)];
      } else {
        types := types[rsrcId - 1 := ResType(size, hasCtor, hasDtor, false)];
      }
      mem := NewType(mem, size, hasCtor, hasDtor);
    }

    method AllocateId(size: nat, hasCtor: bool, hasDtor: bool) returns (rsrcId: nat)
      requires Valid() && !locked
      modifies `locked, `types, `idCount, `mem, `nextBlock, `log, repr`storage
      ensures Valid() && !locked && mem == AllocId(old(mem), size, hasCtor, hasDtor)
      ensures rsrcId == old(idCount) + 1
    {
      hide Represents;
      Sizes();
      Lock();
      rsrcId := RegisterType(size, hasCtor, hasDtor);
      ghost var all, P := GrowReady(mem);
      GrowTable(all, P);
      Unlock();
    }

    /** Filling the next entry of the walk over all keeps P. */
    static ghost predicate GrowKeeps(all: seq<Addr>, P: (Mem, nat) -> bool) {
      forall m: Mem, q: nat {:trigger FillTo(m, all[q]), P(m, q)} ::
        m.idCount <= |m.types| && q < |all| && P(m, q) ==> P(FillTo(m, all[q]), q + 1)
    }

    /** P holds of the memories from which the rest of the walk ends where the whole walk does. */
    static lemma GrowReady(m0: Mem) returns (all: seq<Addr>, P: (Mem, nat) -> bool)
      requires m0.idCount <= |m0.types|
      ensures LaidOut(all, m0.buckets) && P(m0, 0) && GrowKeeps(all, P)
      ensures forall m :: P(m, |all|) ==> m == GrowAll(m0, Flatten(m0.buckets), 0)
    {
      all := Flatten(m0.buckets);
      FlattenLaidOut(m0.buckets);
      var goal, walk := GrowAll(m0, all, 0), all;
      P := (m: Mem, q: nat) => m.idCount <= |m.types| && q <= |walk| && GrowAll(m, walk, q) == goal;
    }

    method GrowTable(ghost all: seq<Addr>, ghost P: (Mem, nat) -> bool)
      requires Valid() && LaidOut(all, mem.buckets) && P(mem, 0) && GrowKeeps(all, P)
      modifies `mem, `nextBlock, `log, repr`storage
      ensures Valid() && P(mem, |all|)
    {
      ghost var bs := mem.buckets;
      for i := 0 to table.Length
        invariant Valid() && mem.buckets == bs && P(mem, Start(bs, i))
      {
        assert LaidAt(all, bs, i);
        GrowChain(i, all, Start(bs, i), Start(bs, i + 1), P);
      }
    }

    /** A walk over chain i stands at its k-th node, p; at the end p is null. */
    ghost predicate Walking(i: nat, k: nat, p: TlsEntry?)
      reads this, table, repr
    {
      var here := Valid() && i < table.Length && k <= |mem.buckets[i]| && p == NodeAt(mem.buckets[i], nodes, k)
                  && (p == null <==> k == |mem.buckets[i]|);
      here
    }

    method GrowChain(i: nat, ghost all: seq<Addr>, ghost start: nat, ghost end: nat, ghost P: (Mem, nat) -> bool)
      requires Valid() && i < table.Length && start + |mem.buckets[i]| == end <= |all|
      requires forall q {:trigger mem.buckets[i][q]} :: 0 <= q < |mem.buckets[i]| ==> all[start + q] == mem.buckets[i][q]
      requires P(mem, start) && GrowKeeps(all, P)
      modifies `mem, `nextBlock, `log, repr`storage
      ensures Valid() && mem.buckets == old(mem).buckets && P(mem, end)
    {
      hide Represents;
      HeadIs(i);
      ghost var chain, k, pos := mem.buckets[i], 0, start;
      var p := table[i];
      while p != null
        invariant Walking(i, k, p) && pos == start + k && mem.buckets == old(mem).buckets && P(mem, pos)
        decreases |chain| - k
      {
        assert all[pos] == chain[k];
        p := GrowAt(p, i, k, all, pos, P);
        k, pos := k + 1, pos + 1;
      }
    }

    method GrowAt(p: TlsEntry, i: nat, ghost k: nat, ghost all: seq<Addr>, ghost pos: nat, ghost P: (Mem, nat) -> bool)
      returns (next: TlsEntry?)
      requires Walking(i, k, p) && pos < |all| && all[pos] == mem.buckets[i][k]
      requires P(mem, pos) && GrowKeeps(all, P)
      modifies `mem, `nextBlock, `log, repr`storage
      ensures Walking(i, k + 1, next) && mem.buckets == old(mem).buckets && P(mem, pos + 1)
    {
      NodeAtLive(i, k);
      FillEntry(p);
      next := p.next;
      NodeAtEnd(i, k + 1);
    }

    // -------------------------------------------------------------- ts_free_id

    /** Clearing slot j of the next entry of the walk over all keeps P. */
    static ghost predicate ClearKeeps(all: seq<Addr>, j: nat, P: (Mem, nat) -> bool) {
      forall m: Mem, q: nat {:trigger ClearSlot(m, all[q], j), P(m, q)} ::
        q < |all| && all[q] in m.heap && j < |m.types| && P(m, q) ==> P(ClearSlot(m, all[q], j), q + 1)
    }

    static lemma ClearReady(m0: Mem, j: nat) returns (all: seq<Addr>, P: (Mem, nat) -> bool)
      requires j < |m0.types|
      ensures LaidOut(all, m0.buckets) && P(m0, 0) && ClearKeeps(all, j, P)
      ensures forall m :: P(m, |all|) ==> m == ClearAll(m0, Flatten(m0.buckets), 0, j)
    {
      all := Flatten(m0.buckets);
      FlattenLaidOut(m0.buckets);
      var goal, walk := ClearAll(m0, all, 0, j), all;
      P := (m: Mem, q: nat) => j < |m.types| && q <= |walk| && ClearAll(m, walk, q, j) == goal;
    }

    method FreeRsrcId(id: nat)
      requires Valid() && !locked && 0 < id <= |types|
      modifies `locked, `types, `mem, `log, repr`storage
      ensures Valid() && !locked && mem == FreeId(old(mem), id - 1)
    {
      hide Represents;
      Sizes();
      var j := id - 1;
      Lock();
      ghost var all, P := ClearReady(mem, j);
      ClearTable(j, all, P);
      MarkDone(j);
      Unlock();
    }

    method MarkDone(j: nat)
      requires Valid() && j < |types|
      modifies `types, `mem
      ensures Valid() && mem == old(mem).(types := old(mem).types[j := old(mem).types[j].(done := true)])
    {
      types := types[j := types[j].(done := true)];
      mem := mem.(types := types);
    }

    method ClearTable(j: nat, ghost all: seq<Addr>, ghost P: (Mem, nat) -> bool)
      requires Valid() && LaidOut(all, mem.buckets) && P(mem, 0) && ClearKeeps(all, j, P) && j < |types|
      modifies `mem, `log, repr`storage
      ensures Valid() && P(mem, |all|)
    {
      ghost var bs := mem.buckets;
      for i := 0 to table.Length
        invariant Valid() && mem.buckets == bs && P(mem, Start(bs, i))
      {
        assert LaidAt(all, bs, i);
        ClearChain(i, j, all, Start(bs, i), Start(bs, i + 1), P);
      }
    }

    method ClearChain(i: nat, j: nat, ghost all: seq<Addr>, ghost start: nat, ghost end: nat, ghost P: (Mem, nat) -> bool)
      requires Valid() && i < table.Length && j < |types| && start + |mem.buckets[i]| == end <= |all|
      requires forall q {:trigger mem.buckets[i][q]} :: 0 <= q < |mem.buckets[i]| ==> all[start + q] == mem.buckets[i][q]
      requires P(mem, start) && ClearKeeps(all, j, P)
      modifies `mem, `log, repr`storage
      ensures Valid() && mem.buckets == old(mem).buckets && P(mem, end)
    {
      hide Represents;
      HeadIs(i);
      ghost var chain, k, pos := mem.buckets[i], 0, start;
      var p := table[i];
      while p != null
        invariant Walking(i, k, p) && pos == start + k && mem.buckets == old(mem).buckets && P(mem, pos)
        decreases |chain| - k
      {
        assert all[pos] == chain[k];
        p := ClearAt(p, i, k, j, all, pos, P);
        k, pos := k + 1, pos + 1;
      }
    }

    method ClearAt(p: TlsEntry, i: nat, ghost k: nat, j: nat, ghost all: seq<Addr>, ghost pos: nat, ghost P: (Mem, nat) -> bool)
      returns (next: TlsEntry?)
      requires Walking(i, k, p) && j < |types| && pos < |all| && all[pos] == mem.buckets[i][k]
      requires P(mem, pos) && ClearKeeps(all, j, P)
      modifies `mem, `log, repr`storage
      ensures Walking(i, k + 1, next) && mem.buckets == old(mem).buckets && P(mem, pos + 1)
    {
      NodeAtLive(i, k);
      ClearEntry(p, j);
      next := p.next;
      NodeAtEnd(i, k + 1);
    }

    method ClearEntry(p: TlsEntry, j: nat)
      requires Valid() && p.id in mem.heap && nodes[p.id] == p && j < |types|
      modifies `mem, `log, p`storage
      ensures Valid() && mem == ClearSlot(old(mem), p.id, j)
    {
      if j < |p.storage| && p.storage[j].Some? {
        if types[j].hasDtor {
          Call(Dtor(j, p.storage[j]));
        }
        Call(Free(p.storage[j].value));
        SetStorage(p, p.storage[j := None]);
        assert mem.log == old(mem).log + Finalized(types[j], j, old(p.storage[j])) + Released(old(p.storage[j]));
      }
    }

    // -------------------------------------------------------------- allocate_new_resource and ts_resource_ex

    /** malloc of an entry. */
    method NewNode(t: Tid) returns (p: TlsEntry)
      requires Valid()
      modifies `mem, `nodes, `repr, `nextAddr
      ensures Valid() && fresh(p) && p.id == old(mem).nextAddr && p.next == null && p.storage == []
      ensures nodes == old(nodes)[p.id := p] && repr == old(repr) + {p}
      ensures mem == old(mem).(heap := old(mem).heap[p.id := Entry(t, [])], nextAddr := p.id + 1)
    {
      p := new TlsEntry(nextAddr, t);
      Adopt(p);
    }

    method Adopt(p: TlsEntry)
      requires Valid() && p.id == nextAddr && !p.freed && p.storage == [] && p.next == null
      modifies `mem, `nodes, `repr, `nextAddr
      ensures Valid()
      ensures nodes == old(nodes)[p.id := p] && repr == old(repr) + {p}
      ensures mem == old(mem).(heap := old(mem).heap[p.id := Entry(p.threadId, [])], nextAddr := p.id + 1)
    {
      ShapeWithNode(mem.buckets, nodes, repr, table, p.id, p);
      NodesWithNode(mem.heap, nodes, repr, p);
      nodes, repr, nextAddr := nodes[p.id := p], repr + {p}, p.id + 1;
      mem := mem.(heap := mem.heap[p.id := Entry(p.threadId, [])], nextAddr := nextAddr);
    }

    method TlsSet(me: Tid, p: TlsEntry?)
      requires Valid() && (p != null ==> p.id in nodes && nodes[p.id] == p)
      modifies `mem, `tls
      ensures Valid() && mem == SetContext(old(mem), me, if p == null then None else Some(p.id))
    {
      tls := if p == null then tls - {me} else tls[me := p];
      mem := SetContext(mem, me, if p == null then None else Some(p.id));
    }

    static lemma NodesWithNode(heap: map<Addr, Entry>, nodes: map<Addr, TlsEntry>, repr: set<TlsEntry>, p: TlsEntry)
      requires NodesOk(heap, nodes, repr) && p.id !in nodes && !p.freed && p.storage == []
      ensures NodesOk(heap[p.id := Entry(p.threadId, [])], nodes[p.id := p], repr + {p})
    {
    }

    static lemma ShapeWithNode(bs: seq<seq<Addr>>, nodes: map<Addr, TlsEntry>, repr: set<TlsEntry>, table: array<TlsEntry?>,
                               a: Addr, p: TlsEntry)
      requires Shape(bs, nodes, repr, table) && a !in nodes
      ensures Shape(bs, nodes[a := p], repr + {p}, table)
    {
      var nodes', repr' := nodes[a := p], repr + {p};
      forall i, k: nat | 0 <= i < |bs| ensures LinkOk(bs[i], nodes', repr', k) {
        assert LinkOk(bs[i], nodes, repr, k) && LinkOk(bs[i], nodes, repr, k + 1);
      }
      forall i | 0 <= i < |bs| ensures table[i] == NodeAt(bs[i], nodes', 0) {
        assert LinkOk(bs[i], nodes, repr, 0);
      }
    }

    /** Hang p at the end of chain h, after last if the chain has a last node. */
    static method Attach(table: array<TlsEntry?>, h: nat, last: TlsEntry?, p: TlsEntry,
                         ghost bs: seq<seq<Addr>>, ghost nodes: map<Addr, TlsEntry>, ghost repr: set<TlsEntry>)
      requires Shape(bs, nodes, repr, table) && Named(nodes, repr) && NoSharing(bs)
      requires h < |bs| && p.id in nodes && nodes[p.id] == p && p.next == null
      requires forall i :: 0 <= i < |bs| ==> p.id !in bs[i]
      requires last == if bs[h] == [] then null else NodeAt(bs[h], nodes, |bs[h]| - 1)
      modifies table, repr`next
      ensures Shape(bs[h := bs[h] + [p.id]], nodes, repr, table)
    {
      if last == null {
        assert bs[h] != [] ==> LinkOk(bs[h], nodes, repr, |bs[h]| - 1);
        table[h] := p;
      } else {
        last.next := p;
      }
      ghost var bs' := bs[h := bs[h] + [p.id]];
      forall i, k: nat | 0 <= i < |bs'| ensures LinkOk(bs'[i], nodes, repr, k) {
        assert old(LinkOk(bs[i], nodes, repr, k)) && Apart(bs, i, k, h, |bs[h]| - (if bs[h] == [] then 0 else 1));
      }
      assert table[h] == NodeAt(bs'[h], nodes, 0) by { assert old(LinkOk(bs[h], nodes, repr, 0)); }
    }

    method Append(h: nat, last: TlsEntry?, p: TlsEntry)
      requires Valid() && h < table.Length && p.id in mem.heap && nodes[p.id] == p && p.next == null
      requires NoSharing(mem.buckets) && forall i :: 0 <= i < |mem.buckets| ==> p.id !in mem.buckets[i]
      requires last == if mem.buckets[h] == [] then null else NodeAt(mem.buckets[h], nodes, |mem.buckets[h]| - 1)
      modifies `mem, table, repr`next
      ensures Valid() && mem == old(mem).(buckets := old(mem).buckets[h := old(mem).buckets[h] + [p.id]])
    {
      Attach(table, h, last, p, mem.buckets, nodes, repr);
      mem := mem.(buckets := mem.buckets[h := mem.buckets[h] + [p.id]]);
    }

    // -------------------------------------------------------------- ts_free_thread

    /** Call every destructor, then free every block of entry p. */
    method DestroyStorage(p: TlsEntry)
      requires Valid() && p.id in mem.heap && nodes[p.id] == p
      modifies `mem, `log
      ensures Valid()
      ensures mem == old(mem).(log := old(mem).log + Concat(DtorCalls(types, p.storage), |p.storage|) + Concat(FreeCalls(p.storage), |p.storage|))
    {
      CallDtors(p.storage);
      FreeBlocks(p.storage);
      mem := mem.(log := log);
    }

    method CallDtors(storage: seq<Option<Block>>)
      requires |storage| <= |types|
      modifies `log
      ensures log == old(log) + Concat(DtorCalls(types, storage), |storage|)
    {
      for i := 0 to |storage|
        invariant log == old(log) + Concat(DtorCalls(types, storage), i)
      {
        if types[i].hasDtor {
          log := log + [Dtor(i, storage[i])];
        }
        ConcatMore(old(log), DtorCalls(types, storage), i);
      }
    }

    method FreeBlocks(storage: seq<Option<Block>>)
      modifies `log
      ensures log == old(log) + Concat(FreeCalls(storage), |storage|)
    {
      for i := 0 to |storage|
        invariant log == old(log) + Concat(FreeCalls(storage), i)
      {
        if storage[i].Some? {
          log := log + [Free(storage[i].value)];
        }
        ConcatMore(old(log), FreeCalls(storage), i);
      }
    }

    static lemma ConcatMore(log: seq<Event>, f: nat -> seq<Event>, i: nat)
      ensures log + Concat(f, i + 1) == log + Concat(f, i) + f(i)
      ensures f(i) == [] ==> log + Concat(f, i + 1) == log + Concat(f, i)
    {
    }

    static ghost predicate Named(nodes: map<Addr, TlsEntry>, repr: set<TlsEntry>) {
      forall a :: a in nodes ==> nodes[a] in repr && nodes[a].id == a
    }

    /** Take the k-th node out of chain h; last is the node before it, if any. */
    static method Splice(table: array<TlsEntry?>, h: nat, last: TlsEntry?, p: TlsEntry, ghost k: nat,
                         ghost bs: seq<seq<Addr>>, ghost nodes: map<Addr, TlsEntry>, ghost repr: set<TlsEntry>)
      requires Shape(bs, nodes, repr, table) && Named(nodes, repr) && NoSharing(bs)
      requires h < |bs| && k < |bs[h]| && p == NodeAt(bs[h], nodes, k)
      requires last == if k == 0 then null else NodeAt(bs[h], nodes, k - 1)
      modifies table, repr`next
      ensures Shape(bs[h := bs[h][..k] + bs[h][k + 1..]], nodes, repr, table)
    {
      assert LinkOk(bs[h], nodes, repr, k) && (k > 0 ==> LinkOk(bs[h], nodes, repr, k - 1));
      if last != null {
        last.next := p.next;
      } else {
        table[h] := p.next;
      }
      ghost var bs' := bs[h := bs[h][..k] + bs[h][k + 1..]];
      forall i, q: nat | 0 <= i < |bs'| ensures LinkOk(bs'[i], nodes, repr, q) {
        ghost var at := if i == h && q >= k then q + 1 else q;
        assert old(LinkOk(bs[i], nodes, repr, at));
        if q < |bs'[i]| {
          assert bs'[i][q] == bs[i][at] && (k > 0 ==> Apart(bs, i, at, h, k - 1));
          if i == h && q + 1 == k { assert nodes[bs'[i][q]] == last; } else { assert nodes[bs'[i][q]] != last; }
        }
      }
      assert NodeAt(bs'[h], nodes, 0) == NodeAt(bs[h], nodes, if k == 0 then 1 else 0);
    }

    method UnlinkNode(h: nat, ghost k: nat, last: TlsEntry?, p: TlsEntry)
      requires Valid() && h < table.Length && k < |mem.buckets[h]| && NoSharing(mem.buckets)
      requires p == NodeAt(mem.buckets[h], nodes, k)
      requires last == if k == 0 then null else NodeAt(mem.buckets[h], nodes, k - 1)
      modifies `mem, table, repr`next
      ensures Valid() && mem == Unlink(old(mem), h, k)
    {
      Splice(table, h, last, p, k, mem.buckets, nodes, repr);
      mem := Unlink(mem, h, k);
    }

    /** free() of an entry that is no longer linked. */
    method FreeNode(p: TlsEntry)
      requires Valid() && p.id in mem.heap && nodes[p.id] == p
      requires forall i :: 0 <= i < |mem.buckets| ==> p.id !in mem.buckets[i]
      modifies `mem, p`freed
      ensures Valid() && mem == old(mem).(heap := old(mem).heap - {p.id})
    {
      p.freed := true;
      mem := mem.(heap := mem.heap - {p.id});
    }

    /** Destroy, unlink and free the k-th entry of chain h. */
    method Evict(h: nat, ghost k: nat, last: TlsEntry?, p: TlsEntry)
      requires Valid() && h < table.Length && k < |mem.buckets[h]| && NoSharing(mem.buckets)
      requires p == NodeAt(mem.buckets[h], nodes, k)
      requires last == if k == 0 then null else NodeAt(mem.buckets[h], nodes, k - 1)
      modifies `mem, `log, table, repr`next, repr`freed
      ensures Valid() && mem == Unlink(Release(old(mem), old(mem).buckets[h][k]), h, k) && NoSharing(mem.buckets)
    {
      NodeAtLive(h, k);
      ghost var m0 := mem;
      DestroyStorage(p);
      UnlinkNode(h, k, last, p);
      UnlinkedOnce(m0.buckets, h, k);
      FreeNode(p);
    }

    static lemma UnlinkedOnce(bs: seq<seq<Addr>>, h: nat, k: nat)
      requires h < |bs| && k < |bs[h]| && NoSharing(bs)
      ensures var bs' := bs[h := bs[h][..k] + bs[h][k + 1..]];
        NoSharing(bs') && forall i :: 0 <= i < |bs'| ==> bs[h][k] !in bs'[i]
    {
      var bs' := bs[h := bs[h][..k] + bs[h][k + 1..]];
      forall i: nat, q: nat, i': nat, q': nat ensures Apart(bs', i, q, i', q') {
        assert Apart(bs, i, if i == h && q >= k then q + 1 else q, i', if i' == h && q' >= k then q' + 1 else q');
      }
      forall i, q: nat | 0 <= i < |bs'| && q < |bs'[i]| ensures bs'[i][q] != bs[h][k] {
        assert Apart(bs, i, if i == h && q >= k then q + 1 else q, h, k);
      }
    }

    method EvictThread(me: Tid, h: nat, ghost k: nat, last: TlsEntry?, p: TlsEntry)
      requires Valid() && Inv(mem) && h == Bucket(mem, me) && NoSharing(mem.buckets) && h < table.Length
      requires k == FindFrom(mem.heap, mem.buckets[h], me, 0) < |mem.buckets[h]|
      requires p == NodeAt(mem.buckets[h], nodes, k)
      requires last == if k == 0 then null else NodeAt(mem.buckets[h], nodes, k - 1)
      modifies `tls, `mem, `log, table, repr`next, repr`freed
      ensures Valid() && mem == FreeThread(old(mem), me)
    {
      Evict(h, k, last, p);
      TlsSet(me, null);
    }

    method FreeThreadResources(me: Tid)
      requires Valid() && Inv(mem) && !locked
      modifies `locked, `tls, `mem, `log, table, repr`next, repr`freed
      ensures Valid() && !locked && mem == FreeThread(old(mem), me)
    {
      hide Represents;
      Sizes();
      Lock();
      InvNoSharing(mem);
      var h := me % table.Length;
      var p, last, k := FindNode(h, me);
      if p != null {
        EvictThread(me, h, k, last, p);
      }
      Unlock();
    }

    // -------------------------------------------------------------- ts_free_worker_threads

    static ghost predicate At(i: nat) { true }

    /** Passing over an own entry and evicting another one both keep P. */
    static ghost predicate SweepKeeps(h: nat, chain: seq<Addr>, me: Tid, P: (nat, seq<Addr>, Mem) -> bool) {
      && (forall i: nat, kept, m: Mem {:trigger P(i, kept, m), At(i)} ::
            i < |chain| && P(i, kept, m) && Owns(m.heap, chain[i], me) ==> P(i + 1, kept + [chain[i]], m))
      && (forall i: nat, kept, m: Mem {:trigger P(i, kept, m), Release(m, chain[i])} ::
            i < |chain| && P(i, kept, m) && chain[i] in m.heap && m.heap[chain[i]].tid != me
            && |m.heap[chain[i]].storage| <= |m.types| && h < |m.buckets| && |kept| < |m.buckets[h]| ==>
              P(i + 1, kept, Unlink(Release(m, chain[i]), h, |kept|)))
    }

    static ghost function Sweep(m0: Mem, h: nat, me: Tid): (nat, seq<Addr>, Mem) -> bool {
      (i: nat, kept: seq<Addr>, m: Mem) => h < |m0.buckets| && Swept(m0, h, me, i, kept, m)
    }

    static lemma SweepKeepsGoing(m0: Mem, h: nat, me: Tid)
      requires h < |m0.buckets| && ChainOk(m0, h)
      ensures SweepKeeps(h, m0.buckets[h], me, Sweep(m0, h, me))
    {
      var chain, P := m0.buckets[h], Sweep(m0, h, me);
      forall i: nat, kept, m: Mem | i < |chain| && P(i, kept, m) && Owns(m.heap, chain[i], me)
        ensures P(i + 1, kept + [chain[i]], m)
      {
        SweptPast(m0, h, me, i, kept, m);
      }
      forall i: nat, kept, m: Mem | i < |chain| && P(i, kept, m) && chain[i] in m.heap && m.heap[chain[i]].tid != me
          && |m.heap[chain[i]].storage| <= |m.types| && h < |m.buckets| && |kept| < |m.buckets[h]|
        ensures P(i + 1, kept, Unlink(Release(m, chain[i]), h, |kept|))
      {
        SweptAway(m0, h, me, i, kept, m);
      }
    }

    static lemma SweepReady(m0: Mem, h: nat, me: Tid) returns (P: (nat, seq<Addr>, Mem) -> bool)
      requires Inv(m0) && h == Bucket(m0, me)
      ensures NoSharing(m0.buckets) && h < |m0.buckets| && P(0, [], m0) && SweepKeeps(h, m0.buckets[h], me, P)
      ensures forall kept, m :: P(|m0.buckets[h]|, kept, m) ==> m == FreeWorkers(m0, me)
    {
      assert ChainOk(m0, h);
      InvNoSharing(m0);
      SweptStart(m0, h, me);
      SweepKeepsGoing(m0, h, me);
      P := Sweep(m0, h, me);
      forall kept, m | P(|m0.buckets[h]|, kept, m) ensures m == FreeWorkers(m0, me) {
        SweptEnd(m0, me, kept, m);
      }
    }

    method FreeWorkerThreads(me: Tid)
      requires Valid() && Inv(mem) && !locked
      modifies `locked, `mem, `log, table, repr`next, repr`freed
      ensures Valid() && !locked && mem == FreeWorkers(old(mem), me)
    {
      hide Represents;
      Sizes();
      Lock();
      var h := me % table.Length;
      ghost var P := SweepReady(mem, h, me);
      ghost var kept := SweepBucket(h, me, mem.buckets[h], P);
      Unlock();
    }

    /** The sweep is at position i of chain, after kept; p is there and last is the node before it. */
    ghost predicate Sweeping(h: nat, chain: seq<Addr>, i: nat, kept: seq<Addr>, p: TlsEntry?, last: TlsEntry?)
      reads this, table, repr
    {
      && Valid() && NoSharing(mem.buckets) && h < table.Length && i <= |chain|
      && mem.buckets[h] == kept + chain[i..]
      && p == NodeAt(mem.buckets[h], nodes, |kept|) && (p == null <==> i == |chain|)
      && (p != null ==> last == if kept == [] then null else NodeAt(mem.buckets[h], nodes, |kept| - 1))
    }

    method SweepBucket(h: nat, me: Tid, ghost chain: seq<Addr>, ghost P: (nat, seq<Addr>, Mem) -> bool) returns (ghost kept: seq<Addr>)
      requires Valid() && h < table.Length && NoSharing(mem.buckets) && chain == mem.buckets[h]
      requires P(0, [], mem) && SweepKeeps(h, chain, me, P)
      modifies `mem, `log, table, repr`next, repr`freed
      ensures Valid() && P(|chain|, kept, mem)
    {
      kept := [];
      ghost var i := 0;
      var p, last: TlsEntry? := table[h], null;
      NodeAtEnd(h, 0);
      assert [] + chain[0..] == chain;
      while p != null
        invariant Sweeping(h, chain, i, kept, p, last) && P(i, kept, mem)
        decreases |chain| - i
      {
        p, last, kept := SweepStep(h, me, p, last, i, kept, chain, P);
        i := i + 1;
      }
    }

    method SweepStep(h: nat, me: Tid, p: TlsEntry, last: TlsEntry?, ghost i: nat, ghost kept: seq<Addr>,
                     ghost chain: seq<Addr>, ghost P: (nat, seq<Addr>, Mem) -> bool)
      returns (p': TlsEntry?, last': TlsEntry?, ghost kept': seq<Addr>)
      requires Sweeping(h, chain, i, kept, p, last) && P(i, kept, mem) && SweepKeeps(h, chain, me, P)
      modifies `mem, `log, table, repr`next, repr`freed
      ensures Sweeping(h, chain, i + 1, kept', p', last') && P(i + 1, kept', mem)
    {
      last', kept' := last, kept;
      if p.threadId != me {
        p' := EvictWorker(h, me, p, last, i, kept, chain, P);
      } else {
        PassOwn(h, me, p, last, i, kept, chain, P);
        kept' := kept + [chain[i]];
        if p.next != null {
          last' := p;
        }
        p' := p.next;
      }
    }

    method EvictWorker(h: nat, me: Tid, p: TlsEntry, last: TlsEntry?, ghost i: nat, ghost kept: seq<Addr>,
                       ghost chain: seq<Addr>, ghost P: (nat, seq<Addr>, Mem) -> bool)
      returns (next: TlsEntry?)
      requires Sweeping(h, chain, i, kept, p, last) && P(i, kept, mem) && SweepKeeps(h, chain, me, P) && p.threadId != me
      modifies `mem, `log, table, repr`next, repr`freed
      ensures Sweeping(h, chain, i + 1, kept, next, last) && P(i + 1, kept, mem)
    {
      NodeAtLive(h, |kept|);
      assert mem.buckets[h][|kept|] == chain[i];
      assert mem.buckets[h][..|kept|] + mem.buckets[h][|kept| + 1..] == kept + chain[i + 1..];
      if last != null { NodeAtLive(h, |kept| - 1); }
      Evict(h, |kept|, last, p);
      NextOf(h, |kept|);
      next := if last != null then last.next else table[h];
    }

    lemma PassOwn(h: nat, me: Tid, p: TlsEntry, last: TlsEntry?, i: nat, kept: seq<Addr>,
                  chain: seq<Addr>, P: (nat, seq<Addr>, Mem) -> bool)
      requires Sweeping(h, chain, i, kept, p, last) && P(i, kept, mem) && SweepKeeps(h, chain, me, P) && p.threadId == me
      ensures Sweeping(h, chain, i + 1, kept + [chain[i]], p.next, p) && P(i + 1, kept + [chain[i]], mem)
    {
      NodeAtLive(h, |kept|);
      NodeAtEnd(h, |kept| + 1);
      assert At(i) && mem.buckets[h][|kept|] == chain[i];
      assert kept + chain[i..] == (kept + [chain[i]]) + chain[i + 1..];
    }

    /** The k-th node of chain h, as a sweep reaches it: through the node before it or the head of the chain. */
    lemma NextOf(h: nat, k: nat)
      requires Valid() && h < table.Length && k <= |mem.buckets[h]|
      ensures k == 0 ==> table[h] == NodeAt(mem.buckets[h], nodes, k)
      ensures k > 0 ==> mem.buckets[h][k - 1] in nodes && nodes[mem.buckets[h][k - 1]].next == NodeAt(mem.buckets[h], nodes, k)
      ensures NodeAt(mem.buckets[h], nodes, k) == null <==> k == |mem.buckets[h]|
    {
      NodeAtEnd(h, k);
      if k > 0 { NodeAtLive(h, k - 1); }
    }

    // -------------------------------------------------------------- ts_resource_ex

    /** malloc of an entry for thread t, which becomes the caller's TLS pointer. */
    method NewEntryNode(me: Tid, t: Tid) returns (p: TlsEntry)
      requires Valid()
      modifies `mem, `nodes, `repr, `nextAddr, `tls
      ensures Valid() && fresh(p) && p.id == old(mem).nextAddr && p.next == null
      ensures nodes == old(nodes)[p.id := p] && repr == old(repr) + {p}
      ensures mem == NewEntry(old(mem), me, t)
    {
      p := NewNode(t);
      TlsSet(me, p);
    }

    method LinkNewEntry(me: Tid, h: nat, last: TlsEntry?, t: Tid) returns (p: TlsEntry)
      requires Valid() && NoSharing(mem.buckets) && h < table.Length && h == Bucket(mem, t)
      requires last == if mem.buckets[h] == [] then null else NodeAt(mem.buckets[h], nodes, |mem.buckets[h]| - 1)
      modifies `mem, `nodes, `repr, `nextAddr, `tls, table, repr`next
      ensures Valid() && fresh(p) && p.id in mem.heap && p.id in nodes && nodes[p.id] == p && p.id == old(mem).nextAddr
      ensures repr == old(repr) + {p}
      ensures mem == Link(NewEntry(old(mem), me, t), old(mem).nextAddr, t)
    {
      FreshUnlinked(mem);
      if last != null { NodeAtLive(h, |mem.buckets[h]| - 1); }
      p := NewEntryNode(me, t);
      Append(h, last, p);
    }

    /** allocate_new_resource: the caller holds the mutex, and this method releases it.  The entry is stored
        after last in chain h, or at the head of the chain. */
    method AllocateNewResource(me: Tid, h: nat, last: TlsEntry?, t: Tid)
      requires Valid() && NoSharing(mem.buckets) && locked && h < table.Length && h == Bucket(mem, t)
      requires last == if mem.buckets[h] == [] then null else NodeAt(mem.buckets[h], nodes, |mem.buckets[h]| - 1)
      modifies `locked, `mem, `nodes, `repr, `nextAddr, `tls, `nextBlock, `log, table, repr`next
      ensures Valid() && !locked && mem == AddThread(old(mem), me, t) && fresh(repr - old(repr))
    {
      hide Represents;
      var p := LinkNewEntry(me, h, last, t);
      PopulateEntry(p);
      Unlock();
    }

    lemma FreshUnlinked(m: Mem)
      requires Valid() && m == mem
      ensures forall i :: 0 <= i < |m.buckets| ==> m.nextAddr !in m.buckets[i]
    {
      forall i, k | 0 <= i < |m.buckets| && 0 <= k < |m.buckets[i]| ensures m.buckets[i][k] != m.nextAddr {
        assert m.buckets[i][k] in m.heap && m.buckets[i][k] in nodes;
      }
    }

    /** The read of a slot, made without the mutex. */
    method ReadSlot(p: TlsEntry, id: nat) returns (r: Result)
      requires Valid() && p.id in nodes && nodes[p.id] == p
      ensures r == Read(mem, p.id, id)
    {
      if p.freed {
        r := Fault;
      } else if id == 0 {
        r := Storage(p.id);
      } else if id <= |p.storage| {
        r := Got(p.storage[id - 1]);
      } else {
        r := Fault;
      }
    }

    method ResourceEx(me: Tid, id: nat, thId: Option<Tid>) returns (r: Result)
      requires Valid() && Inv(mem) && !locked
      modifies `locked, `mem, `nodes, `repr, `nextAddr, `tls, `nextBlock, `log, table, repr`next
      ensures Valid() && !locked
      ensures mem == FetchMem(old(mem), me, thId) && r == FetchResult(old(mem), me, id, thId)
      decreases AddrOf(mem, Target(me, thId)).None?, 2
    {
      if thId.None? && me in tls {
        r := ReadSlot(tls[me], id);
      } else {
        r := LockedFetch(me, id, if thId.Some? then thId.value else me);
      }
    }

    method LockedFetch(me: Tid, id: nat, t: Tid) returns (r: Result)
      requires Valid() && Inv(mem) && !locked
      modifies `locked, `mem, `nodes, `repr, `nextAddr, `tls, `nextBlock, `log, table, repr`next
      ensures Valid() && !locked
      ensures mem == FetchMem(old(mem), me, Some(t)) && r == FetchResult(old(mem), me, id, Some(t))
      decreases AddrOf(mem, t).None?, 1
    {
      hide Represents;
      Sizes();
      Lock();
      var h := t % table.Length;
      var p, last, k := FindNode(h, t);
      if p == null {
        r := AddAndRetry(me, id, h, last, t);
      } else {
        Unlock();
        NodeAtLive(h, k);
        r := ReadSlot(p, id);
      }
    }

    /** Allocate the missing entry, which releases the mutex, and fetch again. */
    method AddAndRetry(me: Tid, id: nat, h: nat, last: TlsEntry?, t: Tid) returns (r: Result)
      requires Valid() && Inv(mem) && locked && AddrOf(mem, t).None? && h < table.Length && h == Bucket(mem, t)
      requires last == if mem.buckets[h] == [] then null else NodeAt(mem.buckets[h], nodes, |mem.buckets[h]| - 1)
      modifies `locked, `mem, `nodes, `repr, `nextAddr, `tls, `nextBlock, `log, table, repr`next
      ensures Valid() && !locked
      ensures mem == FetchMem(old(mem), me, Some(t)) && r == FetchResult(old(mem), me, id, Some(t))
      decreases true, 0
    {
      InvNoSharing(mem);
      FetchRetried(mem, me, id, Some(t));
      AllocateNewResource(me, h, last, t);
      r := ResourceEx(me, id, Some(t));
    }

    // -------------------------------------------------------------- interpreter contexts

    method NewUnlinkedEntry(me: Tid) returns (ctx: TlsEntry)
      requires Valid() && locked
      modifies `locked, `mem, `nodes, `repr, `nextAddr, `tls, `nextBlock, `log
      ensures Valid() && !locked && mem == Populate(NewEntry(old(mem), me, me), old(mem).nextAddr)
      ensures ctx.id == old(mem).nextAddr && nodes == old(nodes)[ctx.id := ctx]
    {
      ctx := NewEntryNode(me, me);
      PopulateEntry(ctx);
      Unlock();
    }

    method NewInterpreterContext(me: Tid) returns (ctx: TlsEntry)
      requires Valid() && !locked
      modifies `locked, `mem, `nodes, `repr, `nextAddr, `tls, `nextBlock, `log
      ensures Valid() && !locked
      ensures mem == NewContext(old(mem), me)
      ensures ctx.id == old(mem).nextAddr && ctx.id in nodes && nodes[ctx.id] == ctx
    {
      hide Represents;
      Lock();
      var current: TlsEntry? := if me in tls then tls[me] else null;
      ghost var was := TlsOf(mem, me);
      TlsIsNode(me);
      TlsRestored(mem, me);
      ctx := NewUnlinkedEntry(me);
      TlsSet(me, current);
    }

    static lemma TlsRestored(m: Mem, me: Tid)
      requires m.idCount <= |m.types|
      ensures SetContext(Populate(NewEntry(m, me, me), m.nextAddr), me, TlsOf(m, me)) == NewContext(m, me)
    {
    }

    method SetInterpreterContext(me: Tid, ctx: TlsEntry?) returns (previous: TlsEntry?)
      requires Valid() && (ctx != null ==> ctx.id in nodes && nodes[ctx.id] == ctx)
      modifies `mem, `tls
      ensures Valid() && mem == SetContext(old(mem), me, if ctx == null then None else Some(ctx.id))
      ensures previous == if me in old(tls) then old(tls)[me] else null
    {
      previous := if me in tls then tls[me] else null;
      TlsSet(me, ctx);
    }

    method FreeInterpreterContext(ctx: TlsEntry)
      requires Valid() && ctx.id in mem.heap && nodes[ctx.id] == ctx
      requires forall i :: 0 <= i < |mem.buckets| ==> ctx.id !in mem.buckets[i]
      modifies `mem, `log, ctx`freed
      ensures Valid() && mem == Release(old(mem), ctx.id)
    {
      DestroyStorage(ctx);
      FreeNode(ctx);
    }

    // -------------------------------------------------------------- tsrm_startup and tsrm_shutdown

    constructor (expectedThreads: nat, expectedResources: nat)
      requires expectedThreads > 0
      ensures Valid() && !locked && mem == Startup(expectedThreads, expectedResources) && Inv(mem)
    {
      table := new TlsEntry?[expectedThreads](_ => null);
      types := seq(expectedResources, _ => ResType(0, false, false, false));
      idCount, tls, locked, nextAddr, nextBlock, log := 0, map[], false, 0, 0, [];
      mem := Startup(expectedThreads, expectedResources);
      nodes, repr := map[], {};
      new;
      StartupInv(expectedThreads, expectedResources);
      assert Shape(mem.buckets, nodes, repr, table);
    }

    /** Destroying and freeing the next entry of the walk over all keeps P. */
    static ghost predicate ShutKeeps(all: seq<Addr>, P: (Mem, nat) -> bool) {
      forall m: Mem, q: nat {:trigger ShutEntry(m, all[q]), P(m, q)} ::
        q < |all| && all[q] in m.heap && |m.heap[all[q]].storage| <= |m.types| && P(m, q) ==> P(ShutEntry(m, all[q]), q + 1)
    }

    static lemma ShutReady(m0: Mem) returns (all: seq<Addr>, P: (Mem, nat) -> bool)
      ensures all == Flatten(m0.buckets) && LaidOut(all, m0.buckets) && P(m0, 0) && ShutKeeps(all, P)
      ensures forall m :: P(m, |all|) ==> m == ShutAll(m0, Flatten(m0.buckets), 0)
    {
      all := Flatten(m0.buckets);
      FlattenLaidOut(m0.buckets);
      var goal, walk := ShutAll(m0, all, 0), all;
      P := (m: Mem, q: nat) => q <= |walk| && ShutAll(m, walk, q) == goal;
    }

    method ShutStorage(storage: seq<Option<Block>>)
      requires |storage| <= |types|
      modifies `log
      ensures log == old(log) + Concat(ShutCalls(types, storage), |storage|)
    {
      for j := 0 to |storage|
        invariant log == old(log) + Concat(ShutCalls(types, storage), j)
      {
        ShutSlot(storage, j);
        ConcatMore(old(log), ShutCalls(types, storage), j);
      }
    }

    method ShutSlot(storage: seq<Option<Block>>, j: nat)
      requires j < |storage| <= |types|
      modifies `log
      ensures log == old(log) + ShutCalls(types, storage)(j)
    {
      if storage[j].Some? {
        if !types[j].done && types[j].hasDtor {
          log := log + [Dtor(j, storage[j])];
        }
        log := log + [Free(storage[j].value)];
      }
    }

    /** What tsrm_shutdown does to one entry. */
    method ShutNode(p: TlsEntry)
      requires Represents() && p.id in mem.heap && nodes[p.id] == p
      modifies `mem, `log, p`freed
      ensures Represents() && mem == ShutEntry(old(mem), p.id)
    {
      ShutStorage(p.storage);
      p.freed := true;
      mem := mem.(log := log, heap := mem.heap - {p.id});
    }

    /** The rest of the walk, from pos on, is still allocated and visits no entry twice. */
    ghost predicate Pending(all: seq<Addr>, pos: nat)
      reads this, table, repr
    {
      && Represents()
      && (forall r :: pos <= r < |all| ==> all[r] in mem.heap)
      && (forall q: nat, r: nat :: Differ(all, q, r))
    }

    static ghost predicate Differ(all: seq<Addr>, q: nat, r: nat) {
      q < r < |all| ==> all[q] != all[r]
    }

    method ShutAt(p: TlsEntry, i: nat, ghost k: nat, ghost all: seq<Addr>, ghost pos: nat, ghost P: (Mem, nat) -> bool)
      returns (next: TlsEntry?)
      requires Pending(all, pos) && i < table.Length && k < |mem.buckets[i]| && p == NodeAt(mem.buckets[i], nodes, k)
      requires pos < |all| && all[pos] == mem.buckets[i][k]
      requires P(mem, pos) && ShutKeeps(all, P)
      modifies `mem, `log, repr`freed
      ensures Pending(all, pos + 1) && mem.buckets == old(mem).buckets && P(mem, pos + 1)
      ensures next == NodeAt(mem.buckets[i], nodes, k + 1) && (next == null <==> k + 1 == |mem.buckets[i]|)
    {
      ghost var chain := mem.buckets[i];
      assert LinkOk(chain, nodes, repr, k) && LinkOk(chain, nodes, repr, k + 1);
      next := p.next;
      ShutNode(p);
      forall r | pos + 1 <= r < |all| ensures all[r] in mem.heap { assert Differ(all, pos, r); }
    }

    method ShutChain(i: nat, ghost all: seq<Addr>, ghost start: nat, ghost end: nat, ghost P: (Mem, nat) -> bool)
      requires Pending(all, start) && i < table.Length && start + |mem.buckets[i]| == end <= |all|
      requires forall q {:trigger mem.buckets[i][q]} :: 0 <= q < |mem.buckets[i]| ==> all[start + q] == mem.buckets[i][q]
      requires P(mem, start) && ShutKeeps(all, P)
      modifies `mem, `log, repr`freed
      ensures Pending(all, end) && mem.buckets == old(mem).buckets && P(mem, end)
    {
      hide Represents;
      HeadIs(i);
      ghost var chain, k, pos := mem.buckets[i], 0, start;
      var p := table[i];
      while p != null
        invariant k <= |chain| && pos == start + k && p == NodeAt(chain, nodes, k) && (p == null <==> k == |chain|)
        invariant Pending(all, pos) && mem.buckets == old(mem).buckets && P(mem, pos)
        decreases |chain| - k
      {
        assert all[pos] == chain[k];
        p := ShutAt(p, i, k, all, pos, P);
        k, pos := k + 1, pos + 1;
      }
    }

    method ShutTable(ghost all: seq<Addr>, ghost P: (Mem, nat) -> bool)
      requires Pending(all, 0) && LaidOut(all, mem.buckets) && P(mem, 0) && ShutKeeps(all, P)
      modifies `mem, `log, repr`freed
      ensures Represents() && P(mem, |all|)
    {
      ghost var bs := mem.buckets;
      for i := 0 to table.Length
        invariant mem.buckets == bs && P(mem, Start(bs, i)) && Pending(all, Start(bs, i))
      {
        assert LaidAt(all, bs, i);
        ShutChain(i, all, Start(bs, i), Start(bs, i + 1), P);
      }
    }

    method ShutEntries()
      requires Valid() && Inv(mem)
      modifies `mem, `log, repr`freed
      ensures Represents() && mem == ShutAll(old(mem), Flatten(old(mem).buckets), 0)
      ensures forall a :: a in nodes && Linked(old(mem), a) ==> nodes[a].freed
    {
      ghost var all, P := ShutReady(mem);
      ShutReachesAll(mem, all);
      ShutTable(all, P);
    }

    /** tsrm_shutdown; it takes no lock, and nothing is usable afterwards. */
    method ShutdownAll(me: Tid)
      requires Valid() && Inv(mem) && !locked
      modifies this, repr`freed
      ensures mem == Shutdown(old(mem), me) && log == mem.log && types == [] && table.Length == 0 && !locked
      ensures forall a :: a in nodes && Linked(old(mem), a) ==> nodes[a].freed
    {
      hide Represents, Inv, ShutAll;
      ShutEntries();
      types, tls := [], tls - {me};
      mem := mem.(buckets := [], types := [], tls := mem.tls - {me});
      table := new TlsEntry?[0];
    }

    static lemma ShutReachesAll(m0: Mem, all: seq<Addr>)
      requires Inv(m0) && all == Flatten(m0.buckets)
      ensures forall r :: 0 <= r < |all| ==> all[r] in m0.heap
      ensures forall q: nat, r: nat :: Differ(all, q, r)
      ensures forall x :: x in ShutAll(m0, all, 0).heap ==> !Linked(m0, x)
    {
      InvNoSharing(m0);
      FlattenDistinct(m0.buckets);
      forall r | 0 <= r < |all| ensures all[r] in m0.heap { FlattenLinked(m0, all[r]); }
      forall x ensures x in all <==> Linked(m0, x) { FlattenLinked(m0, x); }
      ShutAllEffect(m0, all, 0);
    }

    static lemma {:induction false} FlattenDistinct(bs: seq<seq<Addr>>)
      requires NoSharing(bs)
      ensures forall q, r :: 0 <= q < r < |Flatten(bs)| ==> Flatten(bs)[q] != Flatten(bs)[r]
    {
      if bs != [] {
        var n := |bs| - 1;
        var front, last := Flatten(bs[..n]), bs[n];
        forall i: nat, k: nat, i': nat, k': nat ensures Apart(bs[..n], i, k, i', k') { assert Apart(bs, i, k, i', k'); }
        FlattenDistinct(bs[..n]);
        forall q, r | 0 <= q < |front| && 0 <= r < |last| ensures front[q] != last[r] {
          FlattenMembers(bs[..n], front[q]);
          var i :| 0 <= i < n && front[q] in bs[..n][i];
          var k :| 0 <= k < |bs[i]| && bs[i][k] == front[q];
          assert Apart(bs, i, k, n, r);
        }
        forall q: nat, r: nat | q < r < |last| ensures last[q] != last[r] { assert Apart(bs, n, q, n, r); }
        assert Flatten(bs) == front + last;
      }
    }

    // -------------------------------------------------------------- reading the chains

    static ghost predicate Apart(bs: seq<seq<Addr>>, i: nat, k: nat, i': nat, k': nat) {
      i < |bs| && i' < |bs| && k < |bs[i]| && k' < |bs[i']| && bs[i][k] == bs[i'][k'] ==> i == i' && k == k'
    }

    /** No address is linked twice. */
    static ghost predicate NoSharing(bs: seq<seq<Addr>>) {
      forall i: nat, k: nat, i': nat, k': nat :: Apart(bs, i, k, i', k')
    }

    /** The search of chain h that ts_resource_ex and ts_free_thread make: the first entry of thread t, and the
        node before it; null and the last node of the chain when t has none. */
    method FindNode(h: nat, t: Tid) returns (p: TlsEntry?, last: TlsEntry?, ghost k: nat)
      requires Valid() && h < table.Length
      ensures k == FindFrom(mem.heap, mem.buckets[h], t, 0)
      ensures p == NodeAt(mem.buckets[h], nodes, k) && (p == null <==> k == |mem.buckets[h]|)
      ensures last == if k == 0 then null else NodeAt(mem.buckets[h], nodes, k - 1)
    {
      ghost var chain := mem.buckets[h];
      p, last, k := table[h], null, 0;
      NodeAtEnd(h, 0);
      while p != null
        invariant k <= |chain| && p == NodeAt(chain, nodes, k) && (p == null <==> k == |chain|)
        invariant last == if k == 0 then null else NodeAt(chain, nodes, k - 1)
        invariant forall q :: 0 <= q < k ==> !Owns(mem.heap, chain[q], t)
        decreases |chain| - k
      {
        NodeAtLive(h, k);
        NodeAtEnd(h, k + 1);
        if p.threadId == t {
          return;
        }
        last, p, k := p, p.next, k + 1;
      }
    }

    static lemma InvNoSharing(m: Mem)
      requires TableInv(m)
      ensures NoSharing(m.buckets)
    {
      forall i: nat, k: nat, i': nat, k': nat ensures Apart(m.buckets, i, k, i', k') {
        if i < |m.buckets| && i' < |m.buckets| { assert ChainOk(m, i) && ChainOk(m, i'); }
      }
    }

    /** The k-th node of chain i is a live node of the table. */
    lemma NodeAtLive(i: nat, k: nat)
      requires Valid() && i < |mem.buckets| && k < |mem.buckets[i]|
      ensures var a := mem.buckets[i][k];
        && a in mem.heap && a in nodes && nodes[a].id == a && nodes[a] in repr && !nodes[a].freed
        && NodeAt(mem.buckets[i], nodes, k) == nodes[a]
        && nodes[a].next == NodeAt(mem.buckets[i], nodes, k + 1)
        && nodes[a].threadId == mem.heap[a].tid && nodes[a].storage == mem.heap[a].storage
    {
      assert LinkOk(mem.buckets[i], nodes, repr, k);
    }

    lemma NodeAtEnd(i: nat, k: nat)
      requires Valid() && i < |mem.buckets| && k <= |mem.buckets[i]|
      ensures NodeAt(mem.buckets[i], nodes, k) == null <==> k == |mem.buckets[i]|
    {
      assert LinkOk(mem.buckets[i], nodes, repr, k);
    }
  }
}
