/**
The arrays of configs/yaf_config_ini.c as reference-counted cells: sections share the arrays that
inheritance copied by reference, and an ENTRY separates what it walks through before it writes.
The in-place writes are proved to do to the tree below the root what assignment on values does.
*/
module IniHeap {
  import opened Strtok
  import opened IniKeys
  import opened IniTree

  type Ref = nat

  datatype Slot = Scalar(s: string) | Link(to: Ref)

  // A hash table and the number of places that refer to it.
  datatype Cell = Cell(table: map<Key, Slot>, rc: nat)

  // temps are the local variables that hold an array while a section is put together.
  datatype Heap = Heap(cells: map<Ref, Cell>, next: Ref, root: Ref, temps: seq<Ref>)

  // Where a reference can stand: the variable that holds the whole configuration, a local variable, or a slot.
  datatype Place = Root | Temp(i: nat) | At(r: Ref, k: Key)

  type Trees = map<Ref, Table>
  type Places = map<Ref, set<Place>>

  // ---------------------------------------------------------------- invariants

  predicate PointsTo(h: Heap, p: Place, c: Ref) {
    match p
    case Root => c == h.root
    case Temp(i) => i < |h.temps| && h.temps[i] == c
    case At(r, k) => r in h.cells && k in h.cells[r].table && h.cells[r].table[k] == Link(c)
  }

  // A reference count is exact: places lists who refers to the cell, and rc is their number.
  ghost predicate CountedAt(h: Heap, places: Places, c: Ref) {
    && c in h.cells && c in places && h.cells[c].rc == |places[c]|
    && forall p: Place {:trigger p in places[c]} {:trigger PointsTo(h, p, c)} :: p in places[c] <==> PointsTo(h, p, c)
  }

  ghost predicate Counted(h: Heap, places: Places) {
    && h.root in h.cells && (forall i :: 0 <= i < |h.temps| ==> h.temps[i] in h.cells)
    && places.Keys == h.cells.Keys
    && (forall r :: r in h.cells ==> r < h.next)
    && (forall c {:trigger CountedAt(h, places, c)} :: c in h.cells ==> CountedAt(h, places, c))
  }

  predicate SlotShows(s: Slot, trees: Trees, v: Val) {
    match s
    case Scalar(x) => v == Str(x)
    case Link(c) => c in trees && v == Arr(trees[c])
  }

  predicate Closed(h: Heap) {
    forall r, k :: r in h.cells && k in h.cells[r].table && h.cells[r].table[k].Link? ==>
      h.cells[r].table[k].to in h.cells
  }

  // trees gives the value of every cell, except that the entry k of dst is still to be corrected.
  ghost predicate ShownBut(h: Heap, trees: Trees, dst: Ref, k: Key) {
    && trees.Keys == h.cells.Keys
    && (forall r {:trigger ShownAt(h, trees, r)} :: r in h.cells && r != dst ==> ShownAt(h, trees, r))
    && (dst in h.cells ==>
          && (forall kk :: kk != k ==> (kk in h.cells[dst].table <==> kk in trees[dst]))
          && forall kk :: kk in h.cells[dst].table && kk != k ==> SlotShows(h.cells[dst].table[kk], trees, trees[dst][kk]))
  }

  ghost predicate ShownAt(h: Heap, trees: Trees, r: Ref) {
    && r in h.cells && r in trees && trees[r].Keys == h.cells[r].table.Keys
    && forall kk :: kk in h.cells[r].table ==> SlotShows(h.cells[r].table[kk], trees, trees[r][kk])
  }

  ghost predicate Shown(h: Heap, trees: Trees) {
    && trees.Keys == h.cells.Keys
    && forall r {:trigger ShownAt(h, trees, r)} :: r in h.cells ==> ShownAt(h, trees, r)
  }

  ghost predicate Inv(h: Heap, trees: Trees, places: Places) {
    Counted(h, places) && Closed(h) && Shown(h, trees)
  }

  // Every array is referred to.
  ghost predicate Live(h: Heap) {
    forall c :: c in h.cells ==> h.cells[c].rc > 0
  }

  // Counts and values are right, no array is left over, and only its variable refers to the root.
  ghost predicate Sound(h: Heap, trees: Trees, places: Places) {
    Inv(h, trees, places) && Live(h) && h.root in places && places[h.root] == {Root}
  }

  type Walk = seq<(Ref, Key)>

  function Steps(walk: Walk): seq<Key> {
    seq(|walk|, i requires 0 <= i < |walk| => walk[i].1)
  }

  // The walk leads from the root to dst through slots that are the only references to what they hold.
  ghost predicate Exclusive(h: Heap, places: Places, walk: Walk, dst: Ref)
    decreases |walk|
  {
    && dst in h.cells && dst in places
    && (forall i :: 0 <= i < |walk| ==> walk[i].0 != dst)
    && if walk == [] then dst == h.root && places[dst] == {Root}
       else
         var (r, k) := walk[|walk| - 1];
         && places[dst] == {At(r, k)}
         && Exclusive(h, places, walk[..|walk| - 1], r)
         && k in h.cells[r].table && h.cells[r].table[k] == Link(dst)
  }

  ghost predicate SameVariables(h: Heap, g: Heap) {
    g.root == h.root && g.temps == h.temps
  }

  // ---------------------------------------------------------------- writing below an exclusive walk

  /** Values after the entry k of dst became x: dst changes, and everything on the way up. */
  function Replant(trees: Trees, walk: Walk, dst: Ref, k: Key, x: Val): Trees
    requires dst in trees && forall i :: 0 <= i < |walk| ==> walk[i].0 in trees
    decreases |walk|
  {
    var t := trees[dst := trees[dst][k := x]];
    if walk == [] then t
    else
      var (r, key) := walk[|walk| - 1];
      Replant(t, walk[..|walk| - 1], r, key, Arr(t[dst]))
  }

  /** The value at a path replaced; every step but the last leads through an array. */
  function Plant(t: Table, path: seq<Key>, x: Val): Table
    requires path != []
    decreases |path|
  {
    if |path| == 1 then t[path[0] := x]
    else if path[0] in t && t[path[0]].Arr? then t[path[0] := Arr(Plant(t[path[0]].t, path[1..], x))]
    else t
  }

  lemma {:induction false} WalkInCells(h: Heap, places: Places, walk: Walk, dst: Ref)
    requires Exclusive(h, places, walk, dst)
    ensures forall i :: 0 <= i < |walk| ==> walk[i].0 in h.cells
    decreases |walk|
  {
    if walk != [] { WalkInCells(h, places, walk[..|walk| - 1], walk[|walk| - 1].0); }
  }

  lemma OnlyReference(h: Heap, places: Places, walk: Walk, dst: Ref, r: Ref, kk: Key)
    requires Counted(h, places) && Exclusive(h, places, walk, dst) && PointsTo(h, At(r, kk), dst)
    ensures walk != [] && (r, kk) == walk[|walk| - 1]
  {
    assert CountedAt(h, places, dst);
    assert At(r, kk) in places[dst];
  }

  ghost predicate OnlyAt(h: Heap, dst: Ref, r0: Ref, k0: Key) {
    forall r, kk :: r in h.cells && kk in h.cells[r].table && h.cells[r].table[kk] == Link(dst) ==> (r, kk) == (r0, k0)
  }

  ghost predicate Nowhere(h: Heap, dst: Ref) {
    forall r, kk :: r in h.cells && kk in h.cells[r].table ==> h.cells[r].table[kk] != Link(dst)
  }

  lemma ShownAbove(h: Heap, trees: Trees, dst: Ref, k: Key, x: Val, r0: Ref, k0: Key)
    requires ShownBut(h, trees, dst, k) && OnlyAt(h, dst, r0, k0) && r0 != dst
    requires dst in h.cells && k in h.cells[dst].table && SlotShows(h.cells[dst].table[k], trees, x)
    ensures ShownBut(h, trees[dst := trees[dst][k := x]], r0, k0)
  {
    var t := trees[dst := trees[dst][k := x]];
    forall r | r in h.cells && r != r0 ensures ShownAt(h, t, r) {
      if r == dst {
        assert forall kk :: kk in h.cells[dst].table <==> kk in t[dst];
      } else {
        assert ShownAt(h, trees, r);
      }
    }
    assert r0 in h.cells ==> ShownAt(h, trees, r0);
  }

  lemma ShownAtTop(h: Heap, trees: Trees, dst: Ref, k: Key, x: Val)
    requires ShownBut(h, trees, dst, k) && Nowhere(h, dst)
    requires dst in h.cells && k in h.cells[dst].table && SlotShows(h.cells[dst].table[k], trees, x)
    ensures Shown(h, trees[dst := trees[dst][k := x]])
  {
    var t := trees[dst := trees[dst][k := x]];
    forall r | r in h.cells ensures ShownAt(h, t, r) {
      if r == dst {
        assert forall kk :: kk in h.cells[dst].table <==> kk in t[dst];
      } else {
        assert ShownAt(h, trees, r);
      }
    }
  }

  lemma OnlyReferences(h: Heap, places: Places, walk: Walk, dst: Ref)
    requires Counted(h, places) && Exclusive(h, places, walk, dst)
    ensures walk == [] ==> Nowhere(h, dst)
    ensures walk != [] ==> var (r0, k0) := walk[|walk| - 1]; OnlyAt(h, dst, r0, k0)
  {
    forall r, kk | r in h.cells && kk in h.cells[r].table && h.cells[r].table[kk] == Link(dst)
      ensures walk != [] && (r, kk) == walk[|walk| - 1]
    {
      assert PointsTo(h, At(r, kk), dst);
      OnlyReference(h, places, walk, dst, r, kk);
    }
  }

  /** Correcting the slots upwards along an exclusive walk makes the values fit the cells again. */
  lemma {:induction false} ReplantShows(h: Heap, trees: Trees, places: Places, walk: Walk, dst: Ref, k: Key, x: Val)
    requires Counted(h, places) && Exclusive(h, places, walk, dst) && ShownBut(h, trees, dst, k)
    requires k in h.cells[dst].table && SlotShows(h.cells[dst].table[k], trees, x)
    ensures (forall i :: 0 <= i < |walk| ==> walk[i].0 in h.cells)
    ensures Shown(h, Replant(trees, walk, dst, k, x))
    decreases |walk|
  {
    WalkInCells(h, places, walk, dst);
    OnlyReferences(h, places, walk, dst);
    if walk == [] {
      ShownAtTop(h, trees, dst, k, x);
    } else {
      var (r0, k0) := walk[|walk| - 1];
      ShownAbove(h, trees, dst, k, x, r0, k0);
      var t := trees[dst := trees[dst][k := x]];
      assert SlotShows(Link(dst), t, Arr(t[dst]));
      ReplantShows(h, t, places, walk[..|walk| - 1], r0, k0, Arr(t[dst]));
    }
  }

  lemma {:induction false} LookupLonger(t: Table, path: seq<Key>, k: Key)
    requires path != [] && Lookup(t, path).Some? && Lookup(t, path).value.Arr?
    ensures var u := Lookup(t, path).value.t; Lookup(t, path + [k]) == if k in u then Some(u[k]) else None
    decreases |path|
  {
    assert (path + [k])[1..] == path[1..] + [k];
    if |path| > 1 {
      LookupLonger(t[path[0]].t, path[1..], k);
    } else {
      assert path[1..] + [k] == [k];
    }
  }

  // Every step of the walk is shown by the values: the last cell's value is below the root's.
  ghost predicate WalkShown(trees: Trees, walk: Walk, dst: Ref)
    decreases |walk|
  {
    dst in trees &&
    (walk == [] ||
     var (r, k) := walk[|walk| - 1];
     && r in trees && k in trees[r] && trees[r][k] == Arr(trees[dst])
     && WalkShown(trees, walk[..|walk| - 1], r))
  }

  function Start(walk: Walk, dst: Ref): Ref { if walk == [] then dst else walk[0].0 }

  lemma {:induction false} WalkLooksUp(trees: Trees, walk: Walk, dst: Ref)
    requires WalkShown(trees, walk, dst)
    ensures Start(walk, dst) in trees
    ensures Lookup(trees[Start(walk, dst)], Steps(walk)) == Some(Arr(trees[dst]))
    decreases |walk|
  {
    if walk != [] {
      var front := walk[..|walk| - 1];
      var (r, k) := walk[|walk| - 1];
      WalkLooksUp(trees, front, r);
      assert Steps(walk) == Steps(front) + [k];
      if front == [] {
        assert Steps(walk) == [k];
      } else {
        LookupLonger(trees[walk[0].0], Steps(front), k);
      }
    }
  }

  lemma {:induction false} PlantTwice(t: Table, path: seq<Key>, k: Key, x: Val)
    requires path != [] && Lookup(t, path).Some? && Lookup(t, path).value.Arr?
    ensures Plant(t, path, Arr(Lookup(t, path).value.t[k := x])) == Plant(t, path + [k], x)
    decreases |path|
  {
    assert (path + [k])[1..] == path[1..] + [k];
    if |path| > 1 {
      PlantTwice(t[path[0]].t, path[1..], k, x);
    } else {
      assert path[1..] + [k] == [k];
    }
  }

  lemma {:induction false} WalkShownFrame(trees: Trees, t: Trees, walk: Walk, dst: Ref, other: Ref)
    requires WalkShown(trees, walk, dst) && other != dst && (forall i :: 0 <= i < |walk| ==> walk[i].0 != other)
    requires forall r :: r in trees && r != other ==> r in t && t[r] == trees[r]
    ensures WalkShown(t, walk, dst)
    decreases |walk|
  {
    if walk != [] { WalkShownFrame(trees, t, walk[..|walk| - 1], walk[|walk| - 1].0, other); }
  }

  /** The value of the root after a correction: a write at the end of the walk. */
  lemma {:induction false} ReplantRoot(trees: Trees, walk: Walk, dst: Ref, k: Key, x: Val)
    requires WalkShown(trees, walk, dst) && Apart(walk, dst)
    requires forall i :: 0 <= i < |walk| ==> walk[i].0 in trees
    ensures var t := Replant(trees, walk, dst, k, x); var root := Start(walk, dst);
      root in t && root in trees && t[root] == Plant(trees[root], Steps(walk) + [k], x)
    decreases |walk|
  {
    var t := trees[dst := trees[dst][k := x]];
    if walk != [] {
      var front := walk[..|walk| - 1];
      var (r, key) := walk[|walk| - 1];
      var root := walk[0].0;
      WalkShownFrame(trees, t, front, r, dst);
      ReplantRoot(t, front, r, key, Arr(t[dst]));
      assert Steps(walk) == Steps(front) + [key];
      WalkLooksUp(trees, walk, dst);
      PlantTwice(trees[root], Steps(walk), k, x);
    } else {
      assert Steps(walk) + [k] == [k];
    }
  }

  // No cell twice on the walk.
  ghost predicate Apart(walk: Walk, dst: Ref)
    decreases |walk|
  {
    && (forall i :: 0 <= i < |walk| ==> walk[i].0 != dst)
    && (walk == [] || Apart(walk[..|walk| - 1], walk[|walk| - 1].0))
  }

  lemma {:induction false} ExclusiveShows(h: Heap, trees: Trees, places: Places, walk: Walk, dst: Ref)
    requires Shown(h, trees) && Exclusive(h, places, walk, dst)
    ensures WalkShown(trees, walk, dst) && Apart(walk, dst) && Start(walk, dst) == h.root
    ensures forall i :: 0 <= i < |walk| ==> walk[i].0 in h.cells
    decreases |walk|
  {
    if walk != [] {
      var (r, k) := walk[|walk| - 1];
      ExclusiveShows(h, trees, places, walk[..|walk| - 1], r);
      assert ShownAt(h, trees, r);
    }
  }

  // ---------------------------------------------------------------- the three writes of an ENTRY

  predicate NoArrayAt(h: Heap, dst: Ref, k: Key)
    requires dst in h.cells
  {
    k in h.cells[dst].table ==> h.cells[dst].table[k].Scalar?
  }

  /** A scalar under a key that holds no array. */
  function PutScalar(h: Heap, dst: Ref, k: Key, v: string): Heap
    requires dst in h.cells
  {
    h.(cells := h.cells[dst := h.cells[dst].(table := h.cells[dst].table[k := Scalar(v)])])
  }

  /** A new empty array under a key that holds no array. */
  function PutArray(h: Heap, dst: Ref, k: Key): Heap
    requires dst in h.cells
  {
    h.(cells := h.cells[dst := h.cells[dst].(table := h.cells[dst].table[k := Link(h.next)])][h.next := Cell(map[], 1)],
       next := h.next + 1)
  }

  // The slots of a copy of c that refer to d.
  function Copies(h: Heap, c: Ref, d: Ref): set<Place>
    requires c in h.cells
  {
    set k | k in h.cells[c].table && h.cells[c].table[k] == Link(d) :: At(h.next, k)
  }

  /** A copy of an array that nothing refers to yet; it shares what the array holds. */
  function CopyCell(h: Heap, c: Ref): Heap
    requires c in h.cells
  {
    h.(cells := (map d | d in h.cells :: h.cells[d].(rc := h.cells[d].rc + |Copies(h, c, d)|))
                [h.next := Cell(h.cells[c].table, 0)],
       next := h.next + 1)
  }

  predicate Linked(h: Heap, dst: Ref, k: Key) {
    && dst in h.cells && k in h.cells[dst].table && h.cells[dst].table[k].Link?
    && h.cells[dst].table[k].to in h.cells && h.cells[h.cells[dst].table[k].to].rc > 0
  }

  /** A slot that held one array holds another. */
  function Relink(h: Heap, dst: Ref, k: Key, c2: Ref): Heap
    requires Linked(h, dst, k) && c2 in h.cells
  {
    var c := h.cells[dst].table[k].to;
    var down := h.cells[c := h.cells[c].(rc := h.cells[c].rc - 1)];
    var up := down[c2 := down[c2].(rc := down[c2].rc + 1)];
    h.(cells := up[dst := up[dst].(table := up[dst].table[k := Link(c2)])])
  }

  /** SEPARATE_ZVAL on a shared array: the slot gets a copy of its own, which shares what the array held. */
  function Separate(h: Heap, dst: Ref, k: Key): Heap
    requires Linked(h, dst, k) && h.next !in h.cells
  {
    Relink(CopyCell(h, h.cells[dst].table[k].to), dst, k, h.next)
  }

  lemma {:induction false} ExclusiveKept(h: Heap, places: Places, g: Heap, places': Places, walk: Walk, dst: Ref)
    requires Exclusive(h, places, walk, dst) && g.root == h.root && dst in g.cells && dst in places'
    requires places'[dst] == places[dst]
    requires forall i :: 0 <= i < |walk| ==> Undisturbed(h, places, g, places', walk[i].0, walk[i].1)
    ensures Exclusive(g, places', walk, dst)
    decreases |walk|
  {
    if walk != [] {
      var (r, k) := walk[|walk| - 1];
      assert Undisturbed(h, places, g, places', r, k);
      ExclusiveKept(h, places, g, places', walk[..|walk| - 1], r);
    }
  }

  ghost predicate Undisturbed(h: Heap, places: Places, g: Heap, places': Places, r: Ref, k: Key) {
    && r in h.cells && r in g.cells && r in places && r in places' && places'[r] == places[r]
    && (k in h.cells[r].table ==> k in g.cells[r].table && g.cells[r].table[k] == h.cells[r].table[k])
  }

  lemma PutScalarCounted(h: Heap, places: Places, dst: Ref, k: Key, v: string)
    requires Counted(h, places) && Closed(h) && dst in h.cells && NoArrayAt(h, dst, k)
    ensures Counted(PutScalar(h, dst, k, v), places) && Closed(PutScalar(h, dst, k, v))
  {
    var g := PutScalar(h, dst, k, v);
    forall c | c in g.cells ensures CountedAt(g, places, c) {
      assert CountedAt(h, places, c);
      forall p: Place ensures PointsTo(g, p, c) == PointsTo(h, p, c) {
      }
    }
  }

  lemma PutScalarShown(h: Heap, trees: Trees, dst: Ref, k: Key, v: string)
    requires Shown(h, trees) && dst in h.cells
    ensures ShownBut(PutScalar(h, dst, k, v), trees, dst, k)
  {
    assert ShownAt(h, trees, dst);
    forall r | r in h.cells && r != dst ensures ShownAt(PutScalar(h, dst, k, v), trees, r) {
      assert ShownAt(h, trees, r);
    }
  }

  /** A scalar written at the end of an exclusive walk. */
  lemma PutScalarEffect(h: Heap, trees: Trees, places: Places, walk: Walk, dst: Ref, k: Key, v: string)
    returns (t: Trees)
    requires Inv(h, trees, places) && Exclusive(h, places, walk, dst) && NoArrayAt(h, dst, k)
    ensures var g := PutScalar(h, dst, k, v);
      && Inv(g, t, places) && Exclusive(g, places, walk, dst)
      && t[h.root] == Plant(trees[h.root], Steps(walk) + [k], Str(v))
  {
    var g := PutScalar(h, dst, k, v);
    PutScalarCounted(h, places, dst, k, v);
    ExclusiveShows(h, trees, places, walk, dst);
    forall i | 0 <= i < |walk| ensures Undisturbed(h, places, g, places, walk[i].0, walk[i].1) {
    }
    ExclusiveKept(h, places, g, places, walk, dst);
    t := Replant(trees, walk, dst, k, Str(v));
    PutScalarShown(h, trees, dst, k, v);
    ReplantShows(g, trees, places, walk, dst, k, Str(v));
    ReplantRoot(trees, walk, dst, k, Str(v));
  }

  lemma PutArrayCounted(h: Heap, places: Places, dst: Ref, k: Key)
    requires Counted(h, places) && Closed(h) && dst in h.cells && NoArrayAt(h, dst, k)
    ensures Counted(PutArray(h, dst, k), places[h.next := {At(dst, k)}]) && Closed(PutArray(h, dst, k))
  {
    var g, places' := PutArray(h, dst, k), places[h.next := {At(dst, k)}];
    forall c | c in g.cells ensures CountedAt(g, places', c) {
      if c == h.next {
        forall p: Place ensures PointsTo(g, p, c) <==> p == At(dst, k) {
        }
      } else {
        assert CountedAt(h, places, c);
        forall p: Place ensures PointsTo(g, p, c) == PointsTo(h, p, c) {
        }
      }
    }
  }

  lemma PutArrayWalk(h: Heap, places: Places, walk: Walk, dst: Ref, k: Key)
    requires Counted(h, places) && Exclusive(h, places, walk, dst)
    ensures var g, places' := PutArray(h, dst, k), places[h.next := {At(dst, k)}];
      Exclusive(g, places', walk, dst) && Exclusive(g, places', walk + [(dst, k)], h.next)
  {
    var g, places' := PutArray(h, dst, k), places[h.next := {At(dst, k)}];
    WalkInCells(h, places, walk, dst);
    forall i | 0 <= i < |walk| ensures Undisturbed(h, places, g, places', walk[i].0, walk[i].1) {
    }
    ExclusiveKept(h, places, g, places', walk, dst);
    WalkExtends(g, places', walk, dst, k, h.next);
  }

  lemma WalkExtends(h: Heap, places: Places, walk: Walk, dst: Ref, k: Key, c: Ref)
    requires Exclusive(h, places, walk, dst) && c in h.cells && c in places && places[c] == {At(dst, k)}
    requires k in h.cells[dst].table && h.cells[dst].table[k] == Link(c)
    requires c != dst && forall i :: 0 <= i < |walk| ==> walk[i].0 != c
    ensures Exclusive(h, places, walk + [(dst, k)], c)
  {
    var longer := walk + [(dst, k)];
    assert longer[..|longer| - 1] == walk;
  }

  lemma PutArrayShown(h: Heap, trees: Trees, dst: Ref, k: Key)
    requires Shown(h, trees) && Closed(h) && dst in h.cells && NoArrayAt(h, dst, k) && h.next !in h.cells
    ensures ShownBut(PutArray(h, dst, k), trees[h.next := map[]], dst, k)
  {
    assert ShownAt(h, trees, dst);
    forall r | r in PutArray(h, dst, k).cells && r != dst ensures ShownAt(PutArray(h, dst, k), trees[h.next := map[]], r) {
      if r != h.next { assert ShownAt(h, trees, r); }
    }
  }

  /** A new array at the end of an exclusive walk; the walk goes on into it. */
  lemma PutArrayEffect(h: Heap, trees: Trees, places: Places, walk: Walk, dst: Ref, k: Key)
    returns (t: Trees, places': Places)
    requires Inv(h, trees, places) && Exclusive(h, places, walk, dst) && NoArrayAt(h, dst, k)
    ensures var g := PutArray(h, dst, k);
      && Inv(g, t, places') && Exclusive(g, places', walk + [(dst, k)], h.next)
      && t[h.root] == Plant(trees[h.root], Steps(walk) + [k], Arr(map[]))
  {
    places' := places[h.next := {At(dst, k)}];
    PutArrayCounted(h, places, dst, k);
    PutArrayWalk(h, places, walk, dst, k);
    t := PutArrayValues(h, trees, places, walk, dst, k);
  }

  lemma PutArrayValues(h: Heap, trees: Trees, places: Places, walk: Walk, dst: Ref, k: Key)
    returns (t: Trees)
    requires Inv(h, trees, places) && Exclusive(h, places, walk, dst) && NoArrayAt(h, dst, k)
    requires var g, places' := PutArray(h, dst, k), places[h.next := {At(dst, k)}];
      Counted(g, places') && Exclusive(g, places', walk, dst)
    ensures Shown(PutArray(h, dst, k), t)
    ensures h.root in t && t[h.root] == Plant(trees[h.root], Steps(walk) + [k], Arr(map[]))
  {
    var grown := trees[h.next := map[]];
    ExclusiveShows(h, trees, places, walk, dst);
    t := Replant(grown, walk, dst, k, Arr(map[]));
    assert Shown(PutArray(h, dst, k), t) by {
      PutArrayShown(h, trees, dst, k);
      ReplantShows(PutArray(h, dst, k), grown, places[h.next := {At(dst, k)}], walk, dst, k, Arr(map[]));
    }
    PutArrayRoot(trees, walk, dst, k, h.next);
  }

  lemma PutArrayRoot(trees: Trees, walk: Walk, dst: Ref, k: Key, new_: Ref)
    requires WalkShown(trees, walk, dst) && Apart(walk, dst) && new_ !in trees
    requires forall i :: 0 <= i < |walk| ==> walk[i].0 in trees
    ensures var t := Replant(trees[new_ := map[]], walk, dst, k, Arr(map[])); var root := Start(walk, dst);
      root in t && root in trees && t[root] == Plant(trees[root], Steps(walk) + [k], Arr(map[]))
  {
    WalkShownFrame(trees, trees[new_ := map[]], walk, dst, new_);
    ReplantRoot(trees[new_ := map[]], walk, dst, k, Arr(map[]));
  }

  // ---------------------------------------------------------------- separation

  function CopyPlaces(h: Heap, places: Places, c: Ref): Places
    requires c in h.cells
  {
    (map d | d in places :: places[d] + Copies(h, c, d))[h.next := {}]
  }

  lemma CopyCellCounted(h: Heap, places: Places, c: Ref)
    requires Counted(h, places) && Closed(h) && c in h.cells
    ensures Counted(CopyCell(h, c), CopyPlaces(h, places, c)) && Closed(CopyCell(h, c))
  {
    var g, places' := CopyCell(h, c), CopyPlaces(h, places, c);
    forall d | d in g.cells ensures CountedAt(g, places', d) {
      if d == h.next {
        CopyIsNew(h, places, c);
      } else {
        assert CountedAt(h, places, d);
        CopyCellCountedAt(h, places, c, d);
      }
    }
    CopyCellClosed(h, c);
  }

  lemma CopyCellClosed(h: Heap, c: Ref)
    requires Closed(h) && c in h.cells
    ensures Closed(CopyCell(h, c))
  {
  }

  lemma CopyIsNew(h: Heap, places: Places, c: Ref)
    requires Counted(h, places) && Closed(h) && c in h.cells
    ensures CountedAt(CopyCell(h, c), CopyPlaces(h, places, c), h.next)
  {
    var g := CopyCell(h, c);
    forall p: Place ensures !PointsTo(g, p, h.next) {
      assert !PointsTo(h, p, h.next);
    }
  }

  lemma CopyCellCountedAt(h: Heap, places: Places, c: Ref, d: Ref)
    requires c in h.cells && d in h.cells && h.next !in h.cells && CountedAt(h, places, d)
    ensures CountedAt(CopyCell(h, c), CopyPlaces(h, places, c), d)
  {
    var g := CopyCell(h, c);
    forall p | p in places[d] ensures p !in Copies(h, c, d) {
      assert PointsTo(h, p, d);
    }
    SizeOfSum(places[d], Copies(h, c, d));
    forall p: Place ensures p in places[d] + Copies(h, c, d) <==> PointsTo(g, p, d) {
      assert p in places[d] <==> PointsTo(h, p, d);
    }
  }

  lemma SizeOfSum<T>(x: set<T>, y: set<T>)
    requires forall e :: e in x ==> e !in y
    ensures |x + y| == |x| + |y|
  {
    assert x !! y;
  }

  lemma CopyCellShown(h: Heap, trees: Trees, c: Ref)
    requires Shown(h, trees) && Closed(h) && c in h.cells && h.next !in h.cells
    ensures Shown(CopyCell(h, c), trees[h.next := trees[c]])
  {
    forall r | r in CopyCell(h, c).cells ensures ShownAt(CopyCell(h, c), trees[h.next := trees[c]], r) {
      assert ShownAt(h, trees, if r == h.next then c else r);
    }
  }

  function RelinkPlaces(h: Heap, places: Places, dst: Ref, k: Key, c2: Ref): Places
    requires Linked(h, dst, k) && c2 in places && h.cells[dst].table[k].to in places
  {
    var c := h.cells[dst].table[k].to;
    var down := places[c := places[c] - {At(dst, k)}];
    down[c2 := down[c2] + {At(dst, k)}]
  }

  lemma RelinkCounted(h: Heap, places: Places, dst: Ref, k: Key, c2: Ref)
    requires Counted(h, places) && Closed(h) && Linked(h, dst, k) && c2 in h.cells && c2 != h.cells[dst].table[k].to
    ensures Counted(Relink(h, dst, k, c2), RelinkPlaces(h, places, dst, k, c2)) && Closed(Relink(h, dst, k, c2))
  {
    var g, places' := Relink(h, dst, k, c2), RelinkPlaces(h, places, dst, k, c2);
    RelinkClosed(h, dst, k, c2);
    forall d | d in g.cells ensures CountedAt(g, places', d) {
      assert CountedAt(h, places, d);
      RelinkCountedAt(h, places, dst, k, c2, d);
    }
  }

  lemma RelinkClosed(h: Heap, dst: Ref, k: Key, c2: Ref)
    requires Closed(h) && Linked(h, dst, k) && c2 in h.cells
    ensures Closed(Relink(h, dst, k, c2)) && Relink(h, dst, k, c2).cells.Keys == h.cells.Keys
  {
  }

  lemma RelinkCountedAt(h: Heap, places: Places, dst: Ref, k: Key, c2: Ref, d: Ref)
    requires Linked(h, dst, k) && c2 in h.cells && c2 != h.cells[dst].table[k].to
    requires places.Keys == h.cells.Keys && CountedAt(h, places, d)
    ensures CountedAt(Relink(h, dst, k, c2), RelinkPlaces(h, places, dst, k, c2), d)
  {
    var g := Relink(h, dst, k, c2);
    assert At(dst, k) in places[d] <==> PointsTo(h, At(dst, k), d);
    forall p: Place ensures p != At(dst, k) ==> (PointsTo(g, p, d) <==> PointsTo(h, p, d)) {
    }
  }

  lemma RelinkShown(h: Heap, trees: Trees, dst: Ref, k: Key, c2: Ref)
    requires Shown(h, trees) && Linked(h, dst, k) && c2 in h.cells
    requires trees[c2] == trees[h.cells[dst].table[k].to]
    ensures Shown(Relink(h, dst, k, c2), trees)
  {
    forall r | r in Relink(h, dst, k, c2).cells ensures ShownAt(Relink(h, dst, k, c2), trees, r) {
      assert ShownAt(h, trees, r) && ShownAt(h, trees, dst);
    }
  }

  /** A cell that is referred to more than once lies outside every exclusive walk. */
  lemma {:induction false} SharedIsOffWalk(h: Heap, places: Places, walk: Walk, dst: Ref, c: Ref)
    requires Exclusive(h, places, walk, dst) && c in places && |places[c]| > 1
    ensures c != dst && forall i :: 0 <= i < |walk| ==> walk[i].0 != c
    decreases |walk|
  {
    if walk != [] { SharedIsOffWalk(h, places, walk[..|walk| - 1], walk[|walk| - 1].0, c); }
  }

  /** What lies on an exclusive walk is referred to by cells of the walk, or by the root variable. */
  lemma {:induction false} OffWalkRefersElsewhere(h: Heap, places: Places, walk: Walk, dst: Ref, c: Ref)
    requires Counted(h, places) && Exclusive(h, places, walk, dst) && c in h.cells
    requires c != dst && forall i :: 0 <= i < |walk| ==> walk[i].0 != c
    ensures Copies(h, c, dst) == {} && forall i :: 0 <= i < |walk| ==> Copies(h, c, walk[i].0) == {}
    decreases |walk|
  {
    forall kk | kk in h.cells[c].table && h.cells[c].table[kk] == Link(dst) ensures false {
      assert PointsTo(h, At(c, kk), dst);
      OnlyReference(h, places, walk, dst, c, kk);
    }
    if walk != [] { OffWalkRefersElsewhere(h, places, walk[..|walk| - 1], walk[|walk| - 1].0, c); }
  }

  /** Separation changes no value, and the walk goes on into the copy. */
  lemma SeparateEffect(h: Heap, trees: Trees, places: Places, walk: Walk, dst: Ref, k: Key)
    returns (t: Trees, places': Places)
    requires Inv(h, trees, places) && Exclusive(h, places, walk, dst)
    requires Linked(h, dst, k) && h.cells[h.cells[dst].table[k].to].rc > 1
    ensures var g := Separate(h, dst, k);
      && Inv(g, t, places') && Exclusive(g, places', walk + [(dst, k)], h.next)
      && t[h.root] == trees[h.root]
  {
    hide Counted, Closed, Shown, Exclusive, CopyCell, CopyPlaces, Relink, RelinkPlaces;
    var c := h.cells[dst].table[k].to;
    var mid, midPlaces := CopyCell(h, c), CopyPlaces(h, places, c);
    CopyKeepsLink(h, trees, places, dst, k);
    t := trees[h.next := trees[c]];
    CopyCellCounted(h, places, c);
    CopyCellShown(h, trees, c);
    places' := RelinkPlaces(mid, midPlaces, dst, k, h.next);
    RelinkCounted(mid, midPlaces, dst, k, h.next);
    RelinkShown(mid, t, dst, k, h.next);
    SeparateWalk(h, places, walk, dst, k);
  }

  lemma CopyKeepsLink(h: Heap, trees: Trees, places: Places, dst: Ref, k: Key)
    requires Inv(h, trees, places) && Linked(h, dst, k)
    ensures var c := h.cells[dst].table[k].to;
      && Linked(CopyCell(h, c), dst, k) && CopyCell(h, c).cells[dst].table[k] == Link(c)
      && h.next !in h.cells && h.next in CopyCell(h, c).cells && h.root in h.cells
      && CopyPlaces(h, places, c).Keys == CopyCell(h, c).cells.Keys && trees.Keys == h.cells.Keys
  {
  }

  lemma SeparateWalk(h: Heap, places: Places, walk: Walk, dst: Ref, k: Key)
    requires Counted(h, places) && Closed(h) && Exclusive(h, places, walk, dst)
    requires Linked(h, dst, k) && h.cells[h.cells[dst].table[k].to].rc > 1
    ensures var c := h.cells[dst].table[k].to;
      Exclusive(Separate(h, dst, k), RelinkPlaces(CopyCell(h, c), CopyPlaces(h, places, c), dst, k, h.next),
                walk + [(dst, k)], h.next)
  {
    var c := h.cells[dst].table[k].to;
    var g, places' := Separate(h, dst, k), RelinkPlaces(CopyCell(h, c), CopyPlaces(h, places, c), dst, k, h.next);
    assert CountedAt(h, places, c);
    SharedIsOffWalk(h, places, walk, dst, c);
    OffWalkRefersElsewhere(h, places, walk, dst, c);
    WalkInCells(h, places, walk, dst);
    forall i | 0 <= i < |walk| ensures Undisturbed(h, places, g, places', walk[i].0, walk[i].1) {
      SeparateLeaves(h, places, dst, k, walk[i].0, walk[i].1);
    }
    SeparateEnd(h, places, dst, k);
    ExclusiveKept(h, places, g, places', walk, dst);
    WalkExtends(g, places', walk, dst, k, h.next);
  }

  lemma SeparateLeaves(h: Heap, places: Places, dst: Ref, k: Key, r: Ref, kk: Key)
    requires Linked(h, dst, k) && places.Keys == h.cells.Keys && h.next !in h.cells && r in h.cells && r != dst
    requires r != h.cells[dst].table[k].to && Copies(h, h.cells[dst].table[k].to, r) == {}
    ensures var c := h.cells[dst].table[k].to;
      Undisturbed(h, places, Separate(h, dst, k),
                  RelinkPlaces(CopyCell(h, c), CopyPlaces(h, places, c), dst, k, h.next), r, kk)
  {
  }

  lemma SeparateEnd(h: Heap, places: Places, dst: Ref, k: Key)
    requires Linked(h, dst, k) && places.Keys == h.cells.Keys && h.next !in h.cells
    requires h.cells[dst].table[k].to != dst && Copies(h, h.cells[dst].table[k].to, dst) == {}
    ensures var c := h.cells[dst].table[k].to;
      var g, p := Separate(h, dst, k), RelinkPlaces(CopyCell(h, c), CopyPlaces(h, places, c), dst, k, h.next);
      && dst in g.cells && p[dst] == places[dst] && g.cells[dst].table[k] == Link(h.next)
      && h.next in g.cells && p[h.next] == {At(dst, k)}
  {
  }

  /** An unshared array below the walk continues the walk. */
  lemma UnsharedContinues(h: Heap, places: Places, walk: Walk, dst: Ref, k: Key)
    requires Counted(h, places) && Closed(h) && Exclusive(h, places, walk, dst)
    requires Linked(h, dst, k) && h.cells[h.cells[dst].table[k].to].rc == 1
    ensures Exclusive(h, places, walk + [(dst, k)], h.cells[dst].table[k].to)
  {
    var c := h.cells[dst].table[k].to;
    assert CountedAt(h, places, c);
    assert PointsTo(h, At(dst, k), c);
    SingletonOf(places[c], At(dst, k));
    NotOnWalk(h, places, walk, dst, c, k);
    WalkExtends(h, places, walk, dst, k, c);
  }

  lemma SingletonOf<T>(s: set<T>, x: T)
    requires x in s && |s| == 1
    ensures s == {x}
  {
    assert |s - {x}| == 0;
  }

  lemma {:induction false} NotOnWalk(h: Heap, places: Places, walk: Walk, dst: Ref, c: Ref, k: Key)
    requires Exclusive(h, places, walk, dst) && c in places && places[c] == {At(dst, k)}
    ensures c != dst && forall i :: 0 <= i < |walk| ==> walk[i].0 != c
  {
    if walk != [] {
      NotOnWalkFrom(h, places, walk[..|walk| - 1], walk[|walk| - 1].0, c, dst, k);
      assert At(walk[|walk| - 1].0, walk[|walk| - 1].1) in places[dst];
    } else {
      assert Root in places[dst];
    }
  }

  lemma {:induction false} NotOnWalkFrom(h: Heap, places: Places, walk: Walk, last: Ref, c: Ref, dst: Ref, k: Key)
    requires Exclusive(h, places, walk, last) && c in places && places[c] == {At(dst, k)}
    requires last != dst && forall i :: 0 <= i < |walk| ==> walk[i].0 != dst
    ensures c != last && forall i :: 0 <= i < |walk| ==> walk[i].0 != c
    decreases |walk|
  {
    if walk != [] {
      NotOnWalkFrom(h, places, walk[..|walk| - 1], walk[|walk| - 1].0, c, dst, k);
      assert At(walk[|walk| - 1].0, walk[|walk| - 1].1) in places[last];
    } else {
      assert Root in places[last];
    }
  }

  // ---------------------------------------------------------------- what the steps do to the assignment

  /** Assignment below a walk is assignment to the end of the walk. */
  lemma {:induction false} SetBelow(t: Table, path: seq<Key>, more: seq<Key>, v: string)
    requires path != [] && more != [] && Lookup(t, path).Some? && Lookup(t, path).value.Arr?
    ensures SetPath(t, path + more, v) == Plant(t, path, Arr(SetPath(Lookup(t, path).value.t, more, v)))
    decreases |path|
  {
    assert (path + more)[1..] == path[1..] + more;
    if |path| > 1 {
      SetBelow(t[path[0]].t, path[1..], more, v);
    } else {
      assert path[1..] + more == more;
    }
  }

  lemma {:induction false} PlantOver(t: Table, path: seq<Key>, x: Val, y: Val)
    requires path != [] && Lookup(t, path).Some?
    ensures Lookup(Plant(t, path, x), path) == Some(x) && Plant(Plant(t, path, x), path, y) == Plant(t, path, y)
    decreases |path|
  {
    if |path| > 1 {
      PlantOver(t[path[0]].t, path[1..], x, y);
    }
  }

  /** Putting an empty array where an assignment needs one does not change what the assignment gives. */
  lemma PlantArrayThenSet(t: Table, path: seq<Key>, k: Key, more: seq<Key>, v: string)
    requires more != [] && Lookup(t, path).Some? && Lookup(t, path).value.Arr?
    requires var u := Lookup(t, path).value.t; k in u ==> u[k].Str?
    ensures SetPath(Plant(t, path + [k], Arr(map[])), path + [k] + more, v) == SetPath(t, path + [k] + more, v)
  {
    var u := Lookup(t, path).value.t;
    var made := u[k := Arr(map[])];
    assert path + [k] + more == path + ([k] + more);
    assert ([k] + more)[1..] == more;
    assert SetPath(u, [k] + more, v) == SetPath(made, [k] + more, v);
    if path == [] {
      assert path + [k] == [k] && path + ([k] + more) == [k] + more;
    } else {
      PlantTwice(t, path, k, Arr(map[]));
      PlantOver(t, path, Arr(made), Arr(SetPath(made, [k] + more, v)));
      SetBelow(t, path, [k] + more, v);
      SetBelow(Plant(t, path + [k], Arr(map[])), path, [k] + more, v);
    }
  }

  /** The last step of an assignment over no array. */
  lemma PlantIsSet(t: Table, path: seq<Key>, k: Key, v: string)
    requires Lookup(t, path).Some? && Lookup(t, path).value.Arr?
    requires var u := Lookup(t, path).value.t; k in u ==> u[k].Str?
    ensures Plant(t, path + [k], Str(v)) == SetPath(t, path + [k], v)
  {
    if path == [] {
      assert path + [k] == [k];
    } else {
      PlantTwice(t, path, k, Str(v));
      SetBelow(t, path, [k], v);
    }
  }

  // ---------------------------------------------------------------- the rounds of an ENTRY

  // The walk goes on from another walk's end.
  ghost predicate Extends(here: Walk, dst: Ref, walk: Walk, active: Ref) {
    && |walk| <= |here| && here[..|walk|] == walk
    && (if |here| == |walk| then dst == active else here[|walk|].0 == active)
  }

  lemma {:induction false} StillExclusive(h: Heap, places: Places, here: Walk, dst: Ref, walk: Walk, active: Ref)
    requires Exclusive(h, places, here, dst) && Extends(here, dst, walk, active)
    ensures Exclusive(h, places, walk, active)
    decreases |here|
  {
    if |here| > |walk| {
      var front := here[..|here| - 1];
      assert front[..|walk|] == walk;
      StillExclusive(h, places, front, here[|here| - 1].0, walk, active);
    } else {
      assert here == walk;
    }
  }

  lemma PathStep(here: Walk, rest: seq<string>)
    requires rest != []
    ensures forall d: Ref :: Steps(here + [(d, SymKey(rest[0]))]) == Steps(here) + [SymKey(rest[0])]
    ensures Steps(here) + SymKeys(rest) == Steps(here) + [SymKey(rest[0])] + SymKeys(rest[1..])
    ensures SymKeys(rest[1..]) == [] <==> rest[1..] == []
    ensures rest[1..] == [] ==> Steps(here) + SymKeys(rest) == Steps(here) + [SymKey(rest[0])]
  {
  }

  lemma WalkBack(h: Heap, places: Places, walk: Walk, step: (Ref, Key), next: Ref)
    requires Exclusive(h, places, walk + [step], next)
    ensures Exclusive(h, places, walk, step.0)
  {
    var longer := walk + [step];
    assert longer[..|longer| - 1] == walk;
  }

  lemma LastIsSet(h: Heap, trees: Trees, places: Places, walk: Walk, dst: Ref, k: Key, v: string)
    requires Inv(h, trees, places) && Exclusive(h, places, walk, dst) && NoArrayAt(h, dst, k)
    ensures Plant(trees[h.root], Steps(walk) + [k], Str(v)) == SetPath(trees[h.root], Steps(walk) + [k], v)
  {
    ExclusiveShows(h, trees, places, walk, dst);
    WalkLooksUp(trees, walk, dst);
    assert ShownAt(h, trees, dst);
    PlantIsSet(trees[h.root], Steps(walk), k, v);
  }

  lemma ArrayThenSet(h: Heap, trees: Trees, places: Places, walk: Walk, dst: Ref, k: Key, more: seq<Key>, v: string)
    requires Inv(h, trees, places) && Exclusive(h, places, walk, dst) && NoArrayAt(h, dst, k) && more != []
    ensures SetPath(Plant(trees[h.root], Steps(walk) + [k], Arr(map[])), Steps(walk) + [k] + more, v)
         == SetPath(trees[h.root], Steps(walk) + [k] + more, v)
  {
    ExclusiveShows(h, trees, places, walk, dst);
    WalkLooksUp(trees, walk, dst);
    assert ShownAt(h, trees, dst);
    PlantArrayThenSet(trees[h.root], Steps(walk), k, more, v);
  }

  lemma LastIsDropped(h: Heap, trees: Trees, places: Places, walk: Walk, dst: Ref, k: Key, v: string)
    requires Inv(h, trees, places) && Exclusive(h, places, walk, dst)
    requires k in h.cells[dst].table && h.cells[dst].table[k].Link?
    ensures SetPath(trees[h.root], Steps(walk) + [k], v) == trees[h.root]
  {
    ExclusiveShows(h, trees, places, walk, dst);
    WalkLooksUp(trees, walk, dst);
    assert ShownAt(h, trees, dst);
    if walk == [] {
      assert Steps(walk) + [k] == [k];
    } else {
      LookupLonger(trees[h.root], Steps(walk), k);
    }
    SetThenLookup(trees[h.root], Steps(walk) + [k], v);
  }

  lemma EmptyPathIsDropped(h: Heap, trees: Trees, places: Places, walk: Walk, dst: Ref, v: string)
    requires Inv(h, trees, places) && Exclusive(h, places, walk, dst)
    ensures SetPath(trees[h.root], Steps(walk), v) == trees[h.root]
  {
    ExclusiveShows(h, trees, places, walk, dst);
    WalkLooksUp(trees, walk, dst);
    if walk != [] {
      SetThenLookup(trees[h.root], Steps(walk), v);
    }
  }

  lemma LinkedIsCounted(h: Heap, places: Places, dst: Ref, k: Key)
    requires Counted(h, places) && Closed(h) && dst in h.cells && k in h.cells[dst].table && h.cells[dst].table[k].Link?
    ensures Linked(h, dst, k)
  {
    var c := h.cells[dst].table[k].to;
    assert CountedAt(h, places, c) && PointsTo(h, At(dst, k), c);
    assert At(dst, k) in places[c];
  }

  // ---------------------------------------------------------------- the writes, as the callbacks make them

  lemma {:induction false} RootAlone(h: Heap, places: Places, walk: Walk, dst: Ref)
    requires Exclusive(h, places, walk, dst)
    ensures h.root in places && places[h.root] == {Root}
    decreases |walk|
  {
    if walk != [] { RootAlone(h, places, walk[..|walk| - 1], walk[|walk| - 1].0); }
  }

  method WriteScalar(h: Heap, ghost trees: Trees, ghost places: Places, ghost walk: Walk, dst: Ref, k: Key, v: string)
    returns (g: Heap, ghost t: Trees)
    requires Sound(h, trees, places) && Exclusive(h, places, walk, dst) && NoArrayAt(h, dst, k)
    ensures Sound(g, t, places) && SameVariables(h, g) && Exclusive(g, places, walk, dst)
    ensures t[h.root] == SetPath(trees[h.root], Steps(walk) + [k], v)
  {
    LastIsSet(h, trees, places, walk, dst, k, v);
    t := PutScalarEffect(h, trees, places, walk, dst, k, v);
    g := PutScalar(h, dst, k, v);
  }

  method WriteArray(h: Heap, ghost trees: Trees, ghost places: Places, ghost walk: Walk, dst: Ref, k: Key)
    returns (g: Heap, ghost t: Trees, ghost p: Places)
    requires Sound(h, trees, places) && Exclusive(h, places, walk, dst) && NoArrayAt(h, dst, k)
    ensures Sound(g, t, p) && SameVariables(h, g) && Exclusive(g, p, walk + [(dst, k)], h.next)
    ensures t[h.root] == Plant(trees[h.root], Steps(walk) + [k], Arr(map[]))
  {
    t, p := PutArrayEffect(h, trees, places, walk, dst, k);
    g := PutArray(h, dst, k);
    RootAlone(g, p, walk + [(dst, k)], h.next);
  }

  /** SEPARATE_ZVAL: a shared array is copied, an array of one's own is kept. */
  method SeparateArray(h: Heap, ghost trees: Trees, ghost places: Places, ghost walk: Walk, dst: Ref, k: Key)
    returns (g: Heap, ghost t: Trees, ghost p: Places, next: Ref)
    requires Sound(h, trees, places) && Exclusive(h, places, walk, dst)
    requires k in h.cells[dst].table && h.cells[dst].table[k].Link?
    ensures Sound(g, t, p) && SameVariables(h, g) && Exclusive(g, p, walk + [(dst, k)], next)
    ensures t[h.root] == trees[h.root]
  {
    next := h.cells[dst].table[k].to;
    LinkedIsCounted(h, places, dst, k);
    if h.cells[next].rc > 1 {
      next := h.next;
      t, p := SeparateEffect(h, trees, places, walk, dst, k);
      g := Separate(h, dst, k);
      RootAlone(g, p, walk + [(dst, k)], next);
      SeparateLive(h, dst, k);
    } else {
      UnsharedContinues(h, places, walk, dst, k);
      g, t, p := h, trees, places;
    }
  }

  lemma SeparateLive(h: Heap, dst: Ref, k: Key)
    requires Live(h) && Linked(h, dst, k) && h.next !in h.cells && h.cells[h.cells[dst].table[k].to].rc > 1
    ensures Live(Separate(h, dst, k))
  {
  }

  /** One step below an exclusive walk: a new array if there is none, else an array of one's own. */
  method StepDown(h: Heap, ghost trees: Trees, ghost places: Places, ghost walk: Walk, dst: Ref, k: Key,
                  ghost more: seq<Key>, ghost v: string)
    returns (g: Heap, ghost t: Trees, ghost p: Places, next: Ref)
    requires Sound(h, trees, places) && Exclusive(h, places, walk, dst) && more != []
    ensures Sound(g, t, p) && SameVariables(h, g) && Exclusive(g, p, walk + [(dst, k)], next)
    ensures SetPath(t[h.root], Steps(walk) + [k] + more, v) == SetPath(trees[h.root], Steps(walk) + [k] + more, v)
  {
    if k !in h.cells[dst].table || h.cells[dst].table[k].Scalar? {
      next := h.next;
      ArrayThenSet(h, trees, places, walk, dst, k, more, v);
      g, t, p := WriteArray(h, trees, places, walk, dst, k);
    } else {
      g, t, p, next := SeparateArray(h, trees, places, walk, dst, k);
    }
  }
}
