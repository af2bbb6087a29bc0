/**
What section inheritance does to the shared arrays of configs/yaf_config_ini.c: arrays referred to
once more, slots given up, arrays freed, and local variables that hold an array until a slot takes it.
*/
module IniShare {
  import opened IniKeys
  import opened IniTree
  import opened IniHeap

  // Nothing but variables refers to the cell.
  ghost predicate Loose(places: Places, c: Ref) {
    c in places && forall p :: p in places[c] ==> !p.At?
  }

  lemma LooseNowhere(h: Heap, places: Places, c: Ref)
    requires Counted(h, places) && c in h.cells && Loose(places, c)
    ensures Nowhere(h, c)
  {
    assert CountedAt(h, places, c);
    forall r, k | r in h.cells && k in h.cells[r].table ensures h.cells[r].table[k] != Link(c) {
      assert At(r, k) in places[c] <==> PointsTo(h, At(r, k), c);
    }
  }

  // ---------------------------------------------------------------- what a step keeps

  // The cell is still there with its entries and its value, and with its references if they are variables.
  ghost predicate KeptAt(h: Heap, trees: Trees, places: Places, g: Heap, t: Trees, p: Places, x: Ref) {
    && x in h.cells && x in g.cells && x in trees && x in t && x in places && x in p
    && g.cells[x].table == h.cells[x].table && t[x] == trees[x]
    && (Loose(places, x) ==> p[x] == places[x])
  }

  // Everything older than b is kept.
  ghost predicate Below(h: Heap, trees: Trees, places: Places, g: Heap, t: Trees, p: Places, b: Ref) {
    && g.root == h.root && h.next <= g.next
    && forall x: Ref {:trigger KeptAt(h, trees, places, g, t, p, x)} ::
         x < b && (x in h.cells || x in g.cells) ==> KeptAt(h, trees, places, g, t, p, x)
  }

  predicate Older(p: Place, b: Ref) { p.At? ==> p.r < b }

  ghost predicate GroundedAt(h: Heap, b: Ref, c: Ref) {
    exists p: Place :: Older(p, b) && PointsTo(h, p, c)
  }

  // What is older than b is held by a variable or by something older than b.
  ghost predicate Grounded(h: Heap, b: Ref) {
    forall c {:trigger GroundedAt(h, b, c)} :: c in h.cells && c < b ==> GroundedAt(h, b, c)
  }

  lemma BelowTrans(h: Heap, trees: Trees, places: Places, g: Heap, t: Trees, p: Places,
                   f: Heap, u: Trees, q: Places, b: Ref)
    requires Below(h, trees, places, g, t, p, b) && Below(g, t, p, f, u, q, b)
    ensures Below(h, trees, places, f, u, q, b)
  {
    forall x: Ref | x < b && (x in h.cells || x in f.cells) ensures KeptAt(h, trees, places, f, u, q, x) {
      assert KeptAt(h, trees, places, g, t, p, x) || KeptAt(g, t, p, f, u, q, x);
      assert x in g.cells;
      assert KeptAt(h, trees, places, g, t, p, x);
      assert KeptAt(g, t, p, f, u, q, x);
    }
  }

  lemma BelowLess(h: Heap, trees: Trees, places: Places, g: Heap, t: Trees, p: Places, b: Ref, a: Ref)
    requires Below(h, trees, places, g, t, p, b) && a <= b
    ensures Below(h, trees, places, g, t, p, a)
  {
    forall x: Ref | x < a && (x in h.cells || x in g.cells) ensures KeptAt(h, trees, places, g, t, p, x) {
    }
  }

  // What a release does to a cell: it goes, or it is kept; what is old or held by variables is kept.
  ghost predicate StaysAt(h: Heap, trees: Trees, places: Places, g: Heap, t: Trees, p: Places, b: Ref, x: Ref) {
    && (x in g.cells ==> KeptAt(h, trees, places, g, t, p, x) && (g.cells[x].rc == 0 ==> h.cells[x].rc == 0))
    && (x in h.cells && (x < b || Loose(places, x)) ==> x in g.cells)
  }

  ghost predicate Released(h: Heap, trees: Trees, places: Places, g: Heap, t: Trees, p: Places, b: Ref, but: Ref) {
    && SameVariables(h, g) && g.next == h.next
    && forall x {:trigger StaysAt(h, trees, places, g, t, p, b, x)} :: x != but ==> StaysAt(h, trees, places, g, t, p, b, x)
  }

  lemma ReleasedTrans(h: Heap, trees: Trees, places: Places, g: Heap, t: Trees, p: Places,
                      f: Heap, u: Trees, q: Places, b: Ref, but: Ref)
    requires Released(h, trees, places, g, t, p, b, but) && Released(g, t, p, f, u, q, b, but)
    ensures Released(h, trees, places, f, u, q, b, but)
  {
    forall x | x != but ensures StaysAt(h, trees, places, f, u, q, b, x) {
      assert StaysAt(h, trees, places, g, t, p, b, x);
      assert StaysAt(g, t, p, f, u, q, b, x);
    }
  }

  /** A release keeps the ground: what is old has lost no old reference. */
  lemma ReleasedGround(h: Heap, trees: Trees, places: Places, g: Heap, t: Trees, p: Places, b: Ref)
    requires SameVariables(h, g) && Grounded(h, b)
    requires forall x: Ref {:trigger StaysAt(h, trees, places, g, t, p, b, x)} :: x < b ==> StaysAt(h, trees, places, g, t, p, b, x)
    ensures Grounded(g, b)
  {
    forall c | c in g.cells && c < b ensures GroundedAt(g, b, c) {
      assert StaysAt(h, trees, places, g, t, p, b, c);
      assert GroundedAt(h, b, c);
      var at: Place :| Older(at, b) && PointsTo(h, at, c);
      if at.At? { assert StaysAt(h, trees, places, g, t, p, b, at.r); }
      assert PointsTo(g, at, c);
    }
  }

  lemma BelowGround(h: Heap, trees: Trees, places: Places, g: Heap, t: Trees, p: Places, b: Ref)
    requires Below(h, trees, places, g, t, p, b) && Grounded(h, b) && h.temps <= g.temps
    ensures Grounded(g, b)
  {
    forall c | c in g.cells && c < b ensures GroundedAt(g, b, c) {
      assert KeptAt(h, trees, places, g, t, p, c);
      assert GroundedAt(h, b, c);
      var at: Place :| Older(at, b) && PointsTo(h, at, c);
      if at.At? { assert KeptAt(h, trees, places, g, t, p, at.r); }
      assert PointsTo(g, at, c);
    }
  }

  lemma ReleasedBelow(h: Heap, trees: Trees, places: Places, g: Heap, t: Trees, p: Places, b: Ref, but: Ref)
    requires Released(h, trees, places, g, t, p, b, but) && b <= but
    ensures Below(h, trees, places, g, t, p, b)
  {
    forall x: Ref | x < b && (x in h.cells || x in g.cells) ensures KeptAt(h, trees, places, g, t, p, x) {
      assert StaysAt(h, trees, places, g, t, p, b, x);
    }
  }

  /** A release leaves no array behind that nothing refers to. */
  lemma ReleasedLive(h: Heap, trees: Trees, places: Places, g: Heap, t: Trees, p: Places, b: Ref, dst: Ref)
    requires Released(h, trees, places, g, t, p, b, dst) && Live(h)
    requires Counted(h, places) && Counted(g, p) && dst in h.cells && dst in g.cells && p[dst] == places[dst]
    ensures Live(g)
  {
    forall c | c in g.cells ensures g.cells[c].rc > 0 {
      if c == dst {
        assert CountedAt(h, places, c) && CountedAt(g, p, c);
      } else {
        assert StaysAt(h, trees, places, g, t, p, b, c);
      }
    }
  }

  // ---------------------------------------------------------------- one more reference

  /** A slot without an array takes one that others hold too: zval copy and add-ref. */
  function Share(h: Heap, dst: Ref, k: Key, c: Ref): Heap
    requires dst in h.cells && c in h.cells
  {
    var up := h.cells[c := h.cells[c].(rc := h.cells[c].rc + 1)];
    h.(cells := up[dst := up[dst].(table := up[dst].table[k := Link(c)])])
  }

  lemma ShareCountedAt(h: Heap, places: Places, dst: Ref, k: Key, c: Ref, d: Ref)
    requires dst in h.cells && c in h.cells && c in places && NoArrayAt(h, dst, k) && CountedAt(h, places, d)
    ensures CountedAt(Share(h, dst, k, c), places[c := places[c] + {At(dst, k)}], d)
  {
    var g := Share(h, dst, k, c);
    assert At(dst, k) !in places[d] by { assert !PointsTo(h, At(dst, k), d); }
    forall p: Place ensures p != At(dst, k) ==> (PointsTo(g, p, d) <==> PointsTo(h, p, d)) {
    }
  }

  lemma ShareCounted(h: Heap, places: Places, dst: Ref, k: Key, c: Ref)
    requires Counted(h, places) && Closed(h) && dst in h.cells && c in h.cells && NoArrayAt(h, dst, k)
    ensures Counted(Share(h, dst, k, c), places[c := places[c] + {At(dst, k)}]) && Closed(Share(h, dst, k, c))
  {
    var g, p := Share(h, dst, k, c), places[c := places[c] + {At(dst, k)}];
    forall d | d in g.cells ensures CountedAt(g, p, d) {
      assert CountedAt(h, places, d);
      ShareCountedAt(h, places, dst, k, c, d);
    }
  }

  /** The array is referred to once more and shown in one more place. */
  lemma ShareEffect(h: Heap, trees: Trees, places: Places, dst: Ref, k: Key, c: Ref)
    requires Inv(h, trees, places) && Live(h) && dst in h.cells && Loose(places, dst) && NoArrayAt(h, dst, k)
    requires c in h.cells && c != dst
    ensures var g, t, p := Share(h, dst, k, c), trees[dst := trees[dst][k := Arr(trees[c])]], places[c := places[c] + {At(dst, k)}];
      Inv(g, t, p) && Live(g)
  {
    hide Counted, Closed;
    ShareCounted(h, places, dst, k, c);
    SlotFilled(h, trees, places, Share(h, dst, k, c), dst, k, Arr(trees[c]));
  }

  lemma SlotFilled(h: Heap, trees: Trees, places: Places, g: Heap, dst: Ref, k: Key, x: Val)
    requires Inv(h, trees, places) && SlotDiffers(h, g, dst, k) && Loose(places, dst)
    requires k in g.cells[dst].table && SlotShows(g.cells[dst].table[k], trees, x)
    requires g.cells[dst].table[k] != Link(dst)
    ensures Shown(g, trees[dst := trees[dst][k := x]])
  {
    SlotShown(h, trees, g, dst, k);
    LooseNowhere(h, places, dst);
    assert Nowhere(g, dst);
    ShownAtTop(g, trees, dst, k, x);
  }

  lemma ShareKeeps(h: Heap, trees: Trees, places: Places, dst: Ref, k: Key, src: Ref, c: Ref)
    requires Inv(h, trees, places) && dst in h.cells && c in h.cells && Grounded(h, dst)
    requires PointsTo(h, At(src, k), c)
    ensures var g, t, p := Share(h, dst, k, c), trees[dst := trees[dst][k := Arr(trees[c])]], places[c := places[c] + {At(dst, k)}];
      Below(h, trees, places, g, t, p, dst) && Grounded(g, dst)
  {
    var g, t, p := Share(h, dst, k, c), trees[dst := trees[dst][k := Arr(trees[c])]], places[c := places[c] + {At(dst, k)}];
    assert CountedAt(h, places, c);
    assert At(src, k) in places[c];
    forall x: Ref | x < dst && (x in h.cells || x in g.cells) ensures KeptAt(h, trees, places, g, t, p, x) {
      assert CountedAt(h, places, x) && ShownAt(h, trees, x);
    }
    BelowGround(h, trees, places, g, t, p, dst);
  }

  lemma PutScalarKeeps(h: Heap, trees: Trees, places: Places, dst: Ref, k: Key, v: string)
    requires Inv(h, trees, places) && dst in h.cells && Grounded(h, dst)
    ensures var g, t := PutScalar(h, dst, k, v), trees[dst := trees[dst][k := Str(v)]];
      Below(h, trees, places, g, t, places, dst) && Grounded(g, dst)
  {
    var g, t := PutScalar(h, dst, k, v), trees[dst := trees[dst][k := Str(v)]];
    forall x: Ref | x < dst && (x in h.cells || x in g.cells) ensures KeptAt(h, trees, places, g, t, places, x) {
      assert CountedAt(h, places, x) && ShownAt(h, trees, x);
    }
    BelowGround(h, trees, places, g, t, places, dst);
  }

  // Only the entry k of dst differs between the two heaps.
  ghost predicate SlotDiffers(h: Heap, g: Heap, dst: Ref, k: Key) {
    && g.cells.Keys == h.cells.Keys && dst in h.cells
    && (forall r :: r in h.cells && r != dst ==> g.cells[r].table == h.cells[r].table)
    && (forall kk :: kk != k ==> (kk in g.cells[dst].table <==> kk in h.cells[dst].table))
    && forall kk :: kk != k && kk in h.cells[dst].table ==> g.cells[dst].table[kk] == h.cells[dst].table[kk]
  }

  lemma SlotShown(h: Heap, trees: Trees, g: Heap, dst: Ref, k: Key)
    requires Shown(h, trees) && SlotDiffers(h, g, dst, k)
    ensures ShownBut(g, trees, dst, k)
  {
    assert ShownAt(h, trees, dst);
    forall r | r in g.cells && r != dst ensures ShownAt(g, trees, r) {
      assert ShownAt(h, trees, r);
    }
  }

  lemma PutScalarLoose(h: Heap, trees: Trees, places: Places, dst: Ref, k: Key, v: string)
    requires Inv(h, trees, places) && Live(h) && dst in h.cells && Loose(places, dst) && NoArrayAt(h, dst, k)
    ensures Inv(PutScalar(h, dst, k, v), trees[dst := trees[dst][k := Str(v)]], places) && Live(PutScalar(h, dst, k, v))
  {
    PutScalarCounted(h, places, dst, k, v);
    SlotFilled(h, trees, places, PutScalar(h, dst, k, v), dst, k, Str(v));
  }

  // ---------------------------------------------------------------- one reference less

  /** A slot gives up its array. */
  function Cut(h: Heap, dst: Ref, k: Key): Heap
    requires Linked(h, dst, k)
  {
    var c := h.cells[dst].table[k].to;
    var down := h.cells[c := h.cells[c].(rc := h.cells[c].rc - 1)];
    h.(cells := down[dst := down[dst].(table := down[dst].table - {k})])
  }

  function CutPlaces(h: Heap, places: Places, dst: Ref, k: Key): Places
    requires Linked(h, dst, k) && h.cells[dst].table[k].to in places
  {
    var c := h.cells[dst].table[k].to;
    places[c := places[c] - {At(dst, k)}]
  }

  lemma CutCountedAt(h: Heap, places: Places, dst: Ref, k: Key, d: Ref)
    requires Linked(h, dst, k) && places.Keys == h.cells.Keys && CountedAt(h, places, d)
    ensures CountedAt(Cut(h, dst, k), CutPlaces(h, places, dst, k), d)
  {
    var g := Cut(h, dst, k);
    assert At(dst, k) in places[d] <==> PointsTo(h, At(dst, k), d);
    forall p: Place ensures p != At(dst, k) ==> (PointsTo(g, p, d) <==> PointsTo(h, p, d)) {
    }
  }

  lemma ShownWithout(h: Heap, trees: Trees, dst: Ref, k: Key)
    requires ShownBut(h, trees, dst, k) && Nowhere(h, dst) && dst in h.cells && k !in h.cells[dst].table
    ensures Shown(h, trees[dst := trees[dst] - {k}])
  {
    var t := trees[dst := trees[dst] - {k}];
    forall r | r in h.cells ensures ShownAt(h, t, r) {
      if r != dst { assert ShownAt(h, trees, r); }
    }
  }

  lemma CutCounted(h: Heap, places: Places, dst: Ref, k: Key)
    requires Counted(h, places) && Closed(h) && Linked(h, dst, k)
    ensures Counted(Cut(h, dst, k), CutPlaces(h, places, dst, k)) && Closed(Cut(h, dst, k))
  {
    var g, p := Cut(h, dst, k), CutPlaces(h, places, dst, k);
    forall d | d in g.cells ensures CountedAt(g, p, d) {
      assert CountedAt(h, places, d);
      CutCountedAt(h, places, dst, k, d);
    }
  }

  lemma CutEffect(h: Heap, trees: Trees, places: Places, dst: Ref, k: Key)
    requires Inv(h, trees, places) && Linked(h, dst, k) && Loose(places, dst)
    ensures var g, t, p := Cut(h, dst, k), trees[dst := trees[dst] - {k}], CutPlaces(h, places, dst, k);
      Inv(g, t, p) && h.cells[dst].table[k].to != dst
  {
    hide Counted, Closed;
    LooseNowhere(h, places, dst);
    CutCounted(h, places, dst, k);
    SlotShown(h, trees, Cut(h, dst, k), dst, k);
    ShownWithout(Cut(h, dst, k), trees, dst, k);
  }

  lemma OldKeepsPlace(h: Heap, places: Places, b: Ref, c: Ref, dst: Ref, k: Key)
    requires Counted(h, places) && Grounded(h, b) && c in h.cells && b <= dst
    ensures c < b ==> places[c] != {At(dst, k)}
  {
    if c < b {
      assert GroundedAt(h, b, c) && CountedAt(h, places, c);
      var at: Place :| Older(at, b) && PointsTo(h, at, c);
      assert at in places[c];
    }
  }

  /** Cutting the slot of an array keeps everything but that array and the cell of the slot. */
  lemma CutReleases(h: Heap, trees: Trees, places: Places, dst: Ref, k: Key, b: Ref, x: Ref)
    requires Inv(h, trees, places) && Linked(h, dst, k) && Loose(places, dst) && b <= dst && Grounded(h, b)
    requires x != dst
    ensures var g, t, p := Cut(h, dst, k), trees[dst := trees[dst] - {k}], CutPlaces(h, places, dst, k);
      var c := h.cells[dst].table[k].to;
      && (x != c || g.cells[c].rc > 0 ==> StaysAt(h, trees, places, g, t, p, b, x))
      && (x == c && g.cells[c].rc == 0 ==> p[c] == {} && b <= c && !Loose(places, c))
  {
    var c := h.cells[dst].table[k].to;
    var g, p := Cut(h, dst, k), CutPlaces(h, places, dst, k);
    assert ShownAt(h, trees, dst);
    assert CountedAt(h, places, c) && PointsTo(h, At(dst, k), c);
    if x in h.cells { assert ShownAt(h, trees, x); }
    if x == c && g.cells[c].rc == 0 {
      SingletonOf(places[c], At(dst, k));
      OldKeepsPlace(h, places, b, c, dst, k);
    }
  }

  /** Cutting a slot: the ground is kept, and if the array is still referred to nothing has to go. */
  lemma CutKeeps(h: Heap, trees: Trees, places: Places, dst: Ref, k: Key, b: Ref)
    requires Inv(h, trees, places) && Linked(h, dst, k) && Loose(places, dst) && b <= dst && Grounded(h, b)
    ensures var g, t, p := Cut(h, dst, k), trees[dst := trees[dst] - {k}], CutPlaces(h, places, dst, k);
      var c := h.cells[dst].table[k].to;
      && Grounded(g, b)
      && (if g.cells[c].rc > 0 then Released(h, trees, places, g, t, p, b, dst) else p[c] == {} && b <= c)
  {
    var g, t, p := Cut(h, dst, k), trees[dst := trees[dst] - {k}], CutPlaces(h, places, dst, k);
    var c := h.cells[dst].table[k].to;
    CutEffect(h, trees, places, dst, k);
    CutReleases(h, trees, places, dst, k, b, c);
    forall x: Ref | x != dst && (x != c || g.cells[c].rc > 0) ensures StaysAt(h, trees, places, g, t, p, b, x) {
      CutReleases(h, trees, places, dst, k, b, x);
    }
    ReleasedGround(h, trees, places, g, t, p, b);
  }

  /** Cutting the last reference and then destroying the array is a release. */
  lemma CutThenDestroyed(h: Heap, trees: Trees, places: Places, dst: Ref, k: Key, b: Ref, f: Heap, u: Trees, q: Places)
    requires Inv(h, trees, places) && Linked(h, dst, k) && Loose(places, dst) && b <= dst && Grounded(h, b)
    requires var g, t, p := Cut(h, dst, k), trees[dst := trees[dst] - {k}], CutPlaces(h, places, dst, k);
      var c := h.cells[dst].table[k].to;
      && c != dst && g.cells[c].rc == 0 && c !in f.cells
      && Released(g, t, p, f, u, q, b, c)
    ensures Released(h, trees, places, f, u, q, b, dst)
    ensures dst in f.cells && KeptAt(Cut(h, dst, k), trees[dst := trees[dst] - {k}], CutPlaces(h, places, dst, k), f, u, q, dst)
  {
    var g, t, p := Cut(h, dst, k), trees[dst := trees[dst] - {k}], CutPlaces(h, places, dst, k);
    var c := h.cells[dst].table[k].to;
    CutReleases(h, trees, places, dst, k, b, c);
    forall x: Ref | x != dst ensures StaysAt(h, trees, places, f, u, q, b, x) {
      if x != c {
        CutReleases(h, trees, places, dst, k, b, x);
        assert StaysAt(g, t, p, f, u, q, b, x);
      }
    }
    assert StaysAt(g, t, p, f, u, q, b, dst);
  }

  /** An array without arrays in it that nothing refers to is freed. */
  function Erase(h: Heap, c: Ref): Heap { h.(cells := h.cells - {c}) }

  lemma EraseEffect(h: Heap, trees: Trees, places: Places, c: Ref)
    requires Inv(h, trees, places) && c in h.cells && places[c] == {}
    requires forall k :: k in h.cells[c].table ==> h.cells[c].table[k].Scalar?
    ensures Inv(Erase(h, c), trees - {c}, places - {c})
  {
    var g, t, p := Erase(h, c), trees - {c}, places - {c};
    assert CountedAt(h, places, c);
    assert !PointsTo(h, Root, c);
    forall i | 0 <= i < |h.temps| ensures h.temps[i] != c {
      assert !PointsTo(h, Temp(i), c);
    }
    forall r, k | r in h.cells && k in h.cells[r].table ensures h.cells[r].table[k] != Link(c) {
      assert !PointsTo(h, At(r, k), c);
    }
    forall d | d in g.cells ensures CountedAt(g, p, d) && ShownAt(g, t, d) {
      assert CountedAt(h, places, d) && ShownAt(h, trees, d);
      forall at: Place ensures PointsTo(g, at, d) == PointsTo(h, at, d) {
      }
    }
  }

  // ---------------------------------------------------------------- local variables

  /** array_init on a local variable. */
  function PushTemp(h: Heap): Heap {
    h.(cells := h.cells[h.next := Cell(map[], 1)], next := h.next + 1, temps := h.temps + [h.next])
  }

  lemma PushTempEffect(h: Heap, trees: Trees, places: Places)
    requires Inv(h, trees, places) && Live(h)
    ensures Inv(PushTemp(h), trees[h.next := map[]], places[h.next := {Temp(|h.temps|)}]) && Live(PushTemp(h))
  {
    forall d | d in PushTemp(h).cells
      ensures CountedAt(PushTemp(h), places[h.next := {Temp(|h.temps|)}], d)
      ensures ShownAt(PushTemp(h), trees[h.next := map[]], d)
    {
      PushTempAt(h, trees, places, d);
    }
  }

  /** Every array that was there is held by something older than the new one. */
  lemma PushTempKeeps(h: Heap, trees: Trees, places: Places)
    requires Inv(h, trees, places) && Live(h)
    ensures var g, t, p := PushTemp(h), trees[h.next := map[]], places[h.next := {Temp(|h.temps|)}];
      Grounded(g, h.next) && Below(h, trees, places, g, t, p, h.next)
  {
    var g, t, p := PushTemp(h), trees[h.next := map[]], places[h.next := {Temp(|h.temps|)}];
    forall c: Ref | c < h.next && (c in h.cells || c in g.cells)
      ensures GroundedAt(g, h.next, c) && KeptAt(h, trees, places, g, t, p, c)
    {
      assert CountedAt(h, places, c) && ShownAt(h, trees, c);
      assert |places[c]| > 0;
      var at :| at in places[c];
      assert PointsTo(h, at, c);
      assert Older(at, h.next) && PointsTo(g, at, c);
    }
  }

  lemma PushTempAt(h: Heap, trees: Trees, places: Places, d: Ref)
    requires Inv(h, trees, places) && d in PushTemp(h).cells
    ensures CountedAt(PushTemp(h), places[h.next := {Temp(|h.temps|)}], d)
    ensures ShownAt(PushTemp(h), trees[h.next := map[]], d)
  {
    var g, p := PushTemp(h), places[h.next := {Temp(|h.temps|)}];
    if d == h.next {
      forall at: Place ensures PointsTo(g, at, d) <==> at == Temp(|h.temps|) {
      }
    } else {
      assert CountedAt(h, places, d) && ShownAt(h, trees, d);
      forall at: Place ensures PointsTo(g, at, d) == PointsTo(h, at, d) {
      }
    }
  }

  predicate TopIs(h: Heap, c: Ref) { h.temps != [] && h.temps[|h.temps| - 1] == c }

  /** A slot without an array takes over the array of the last local variable. */
  function PopInto(h: Heap, dst: Ref, k: Key, c: Ref): Heap
    requires dst in h.cells && TopIs(h, c)
  {
    h.(cells := h.cells[dst := h.cells[dst].(table := h.cells[dst].table[k := Link(c)])], temps := h.temps[..|h.temps| - 1])
  }

  lemma PopIntoCountedAt(h: Heap, places: Places, dst: Ref, k: Key, c: Ref, d: Ref)
    requires dst in h.cells && TopIs(h, c) && c in places && NoArrayAt(h, dst, k)
    requires places[c] == {Temp(|h.temps| - 1)} && CountedAt(h, places, d)
    ensures CountedAt(PopInto(h, dst, k, c), places[c := {At(dst, k)}], d)
  {
    var g := PopInto(h, dst, k, c);
    forall p: Place ensures p != At(dst, k) && p != Temp(|h.temps| - 1) ==> (PointsTo(g, p, d) <==> PointsTo(h, p, d)) {
    }
    assert PointsTo(h, Temp(|h.temps| - 1), d) <==> d == c;
    forall p: Place ensures p in places[d] <==> PointsTo(h, p, d) {
    }
    assert !PointsTo(h, At(dst, k), d);
  }

  lemma PopIntoCounted(h: Heap, places: Places, dst: Ref, k: Key, c: Ref)
    requires Counted(h, places) && Closed(h) && dst in h.cells && NoArrayAt(h, dst, k)
    requires TopIs(h, c) && places[c] == {Temp(|h.temps| - 1)}
    ensures Counted(PopInto(h, dst, k, c), places[c := {At(dst, k)}]) && Closed(PopInto(h, dst, k, c))
  {
    var g, p := PopInto(h, dst, k, c), places[c := {At(dst, k)}];
    forall d | d in g.cells ensures CountedAt(g, p, d) {
      assert CountedAt(h, places, d);
      PopIntoCountedAt(h, places, dst, k, c, d);
    }
  }

  /** The slot shows what the variable held, and the variable is gone. */
  lemma PopIntoEffect(h: Heap, trees: Trees, places: Places, dst: Ref, k: Key, c: Ref)
    requires Inv(h, trees, places) && Live(h) && dst in h.cells && Loose(places, dst) && NoArrayAt(h, dst, k)
    requires TopIs(h, c) && c in places && places[c] == {Temp(|h.temps| - 1)} && c != dst
    ensures var g, t, p := PopInto(h, dst, k, c), trees[dst := trees[dst][k := Arr(trees[c])]], places[c := {At(dst, k)}];
      Inv(g, t, p) && Live(g)
  {
    PopIntoCounted(h, places, dst, k, c);
    SlotFilled(h, trees, places, PopInto(h, dst, k, c), dst, k, Arr(trees[c]));
  }

  lemma PopIntoKeeps(h: Heap, trees: Trees, places: Places, dst: Ref, k: Key, c: Ref, b: Ref)
    requires Inv(h, trees, places) && dst in h.cells && TopIs(h, c) && c in places && b <= dst < c && Grounded(h, b)
    ensures var g, t, p := PopInto(h, dst, k, c), trees[dst := trees[dst][k := Arr(trees[c])]], places[c := {At(dst, k)}];
      Below(h, trees, places, g, t, p, b) && Grounded(g, b)
  {
    var g, t, p := PopInto(h, dst, k, c), trees[dst := trees[dst][k := Arr(trees[c])]], places[c := {At(dst, k)}];
    forall x: Ref | x < b && (x in h.cells || x in g.cells) ensures KeptAt(h, trees, places, g, t, p, x) && GroundedAt(g, b, x) {
      assert CountedAt(h, places, x) && ShownAt(h, trees, x) && GroundedAt(h, b, x);
      var at: Place :| Older(at, b) && PointsTo(h, at, x);
      assert PointsTo(g, at, x);
    }
  }

  // ---------------------------------------------------------------- the configuration is replaced

  /** The variable of the whole configuration takes the array of the last local variable, and gives up its own. */
  function Reroot(h: Heap, c: Ref): Heap
    requires TopIs(h, c) && h.root in h.cells && h.cells[h.root].rc > 0
  {
    h.(cells := h.cells[h.root := h.cells[h.root].(rc := h.cells[h.root].rc - 1)], root := c, temps := h.temps[..|h.temps| - 1])
  }

  lemma RerootEffect(h: Heap, trees: Trees, places: Places, c: Ref)
    requires Sound(h, trees, places) && TopIs(h, c) && c in places && places[c] == {Temp(|h.temps| - 1)} && c != h.root
    ensures Inv(Reroot(h, c), trees, places[c := {Root}][h.root := {}])
  {
    var g, p := Reroot(h, c), places[c := {Root}][h.root := {}];
    assert PointsTo(h, Temp(|h.temps| - 1), c);
    forall d | d in g.cells ensures CountedAt(g, p, d) && ShownAt(g, trees, d) {
      assert ShownAt(h, trees, d);
      RerootCountedAt(h, places, c, d);
    }
  }

  lemma RerootCountedAt(h: Heap, places: Places, c: Ref, d: Ref)
    requires Counted(h, places) && TopIs(h, c) && c in places && places[c] == {Temp(|h.temps| - 1)} && c != h.root
    requires h.root in places && places[h.root] == {Root} && h.cells[h.root].rc > 0 && d in h.cells
    ensures CountedAt(Reroot(h, c), places[c := {Root}][h.root := {}], d)
  {
    var g, p := Reroot(h, c), places[c := {Root}][h.root := {}];
    assert CountedAt(h, places, d) && CountedAt(h, places, c) && CountedAt(h, places, h.root);
    forall at: Place ensures at in p[d] <==> PointsTo(g, at, d) {
      assert at in places[d] <==> PointsTo(h, at, d);
      assert PointsTo(h, Temp(|h.temps| - 1), d) <==> d == c;
    }
  }
}
