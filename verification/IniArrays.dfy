/**
The arrays of configs/yaf_config_ini.c as the parser callbacks see them: sections are put together
from shared arrays, entries are written in place, and what nothing refers to any more is freed.
*/
module IniArrays {
  import opened Strtok
  import opened IniKeys
  import opened IniTree
  import opened IniHeap
  import opened IniShare

  // What the entry k of a section becomes when the source's entry is merged into it.
  function MergedAt(d: Table, s: Table, k: Key): Val
    requires k in s
  {
    if k in d && d[k].Arr? && s[k].Arr? then Arr(Merge(d[k].t, s[k].t)) else s[k]
  }

  // The merge with the entries of todo still to come.
  predicate Merging(d: Table, s: Table, todo: set<Key>, out: Table) {
    && todo <= s.Keys && out.Keys == d.Keys + (s.Keys - todo)
    && forall k :: k in out ==> out[k] == if k in todo then d[k] else if k in s then MergedAt(d, s, k) else d[k]
  }

  lemma MergeStep(d: Table, s: Table, todo: set<Key>, out: Table, k: Key)
    requires Merging(d, s, todo, out) && k in todo
    ensures Merging(d, s, todo - {k}, out[k := MergedAt(out, s, k)])
    ensures k in out ==> out[k] == d[k] && k in d
  {
  }

  lemma MergeEnds(d: Table, s: Table, out: Table)
    requires Merging(d, s, {}, out)
    ensures out == Merge(d, s)
  {
  }

  // dst is an array that only the last local variable holds, and everything older is held without it.
  ghost predicate CopyingIn(h: Heap, trees: Trees, places: Places, dst: Ref) {
    && Sound(h, trees, places) && h.root < dst && dst in h.cells && TopIs(h, dst)
    && dst in places && places[dst] == {Temp(|h.temps| - 1)} && Grounded(h, dst)
  }

  /** A slot without an array shares the array of the source. */
  method ShareSlot(h: Heap, ghost trees: Trees, ghost places: Places, dst: Ref, src: Ref, k: Key)
    returns (g: Heap, ghost t: Trees, ghost p: Places)
    requires CopyingIn(h, trees, places, dst) && NoArrayAt(h, dst, k)
    requires src in h.cells && src < dst && k in h.cells[src].table && h.cells[src].table[k].Link?
    ensures CopyingIn(g, t, p, dst) && g.temps == h.temps && Below(h, trees, places, g, t, p, dst)
    ensures k in trees[src] && t[dst] == trees[dst][k := trees[src][k]]
  {
    var c := h.cells[src].table[k].to;
    g := Share(h, dst, k, c);
    SharedFits(h, trees, places, dst, src, k);
    ShareEffect(h, trees, places, dst, k, c);
    ShareKeeps(h, trees, places, dst, k, src, c);
    t, p := trees[dst := trees[dst][k := Arr(trees[c])]], places[c := places[c] + {At(dst, k)}];
    assert KeptAt(h, trees, places, g, t, p, h.root);
  }

  method WriteSlot(h: Heap, ghost trees: Trees, ghost places: Places, dst: Ref, k: Key, v: string)
    returns (g: Heap, ghost t: Trees)
    requires CopyingIn(h, trees, places, dst) && NoArrayAt(h, dst, k)
    ensures CopyingIn(g, t, places, dst) && g.temps == h.temps && Below(h, trees, places, g, t, places, dst)
    ensures t[dst] == trees[dst][k := Str(v)]
  {
    PutScalarLoose(h, trees, places, dst, k, v);
    PutScalarKeeps(h, trees, places, dst, k, v);
    g, t := PutScalar(h, dst, k, v), trees[dst := trees[dst][k := Str(v)]];
  }

  /** A slot without an array takes the array of the last local variable. */
  method FillSlot(h: Heap, ghost trees: Trees, ghost places: Places, dst: Ref, k: Key, c: Ref, ghost b: Ref)
    returns (g: Heap, ghost t: Trees, ghost p: Places)
    requires Sound(h, trees, places) && dst in h.cells && Loose(places, dst) && NoArrayAt(h, dst, k)
    requires TopIs(h, c) && c in places && places[c] == {Temp(|h.temps| - 1)} && h.root <= dst < c && b <= dst && Grounded(h, b)
    ensures Sound(g, t, p) && g.root == h.root && g.temps == h.temps[..|h.temps| - 1]
    ensures Below(h, trees, places, g, t, p, b) && Grounded(g, b)
    ensures dst in g.cells && k in g.cells[dst].table && g.cells[dst].table[k] == Link(c)
    ensures c in g.cells && p[dst] == places[dst] && p[c] == {At(dst, k)}
    ensures c in trees && t[dst] == trees[dst][k := Arr(trees[c])]
  {
    assert c in h.cells by { assert PointsTo(h, Temp(|h.temps| - 1), c); }
    PopIntoEffect(h, trees, places, dst, k, c);
    PopIntoKeeps(h, trees, places, dst, k, c, b);
    g := PopInto(h, dst, k, c);
    t, p := trees[dst := trees[dst][k := Arr(trees[c])]], places[c := {At(dst, k)}];
  }

  class Arrays {
    var h: Heap
    ghost var trees: Trees
    ghost var places: Places

    // Every count is exact, every array is referred to, and the root only by its variable.
    ghost predicate Valid()
      reads this
    {
      Sound(h, trees, places)
    }

    ghost function Tree(): Table
      requires Valid()
      reads this
    {
      trees[h.root]
    }

    /** An empty configuration. */
    constructor ()
      ensures Valid() && Tree() == map[] && h.temps == []
    {
      h := Heap(map[0 := Cell(map[], 1)], 1, 0, []);
      trees, places := map[0 := map[]], map[0 := {Root}];
      new;
      forall c | c in h.cells ensures CountedAt(h, places, c) && ShownAt(h, trees, c) {
        forall p: Place ensures PointsTo(h, p, c) <==> p == Root {
        }
      }
    }

    // ---------------------------------------------------------------- releasing

    /** The slot gives up its array, which is freed with what it held if this was the last reference. */
    method ReleaseSlot(dst: Ref, k: Key, ghost b: Ref)
      requires Inv(h, trees, places) && dst in h.cells && Loose(places, dst) && b <= dst && Grounded(h, b)
      requires k in h.cells[dst].table && h.cells[dst].table[k].Link?
      modifies this
      ensures Inv(h, trees, places) && Released(old(h), old(trees), old(places), h, trees, places, b, dst)
      ensures dst in h.cells && places[dst] == old(places[dst]) && Grounded(h, b)
      ensures h.cells[dst].table == old(h.cells[dst].table) - {k} && trees[dst] == old(trees[dst]) - {k}
      decreases if k in trees[dst] then trees[dst][k] else Str(""), 1
    {
      LinkedIsCounted(h, places, dst, k);
      CutEffect(h, trees, places, dst, k);
      CutKeeps(h, trees, places, dst, k, b);
      assert ShownAt(h, trees, dst);
      ghost var h0, t0, p0 := h, trees, places;
      var c := h.cells[dst].table[k].to;
      trees, places := trees[dst := trees[dst] - {k}], CutPlaces(h, places, dst, k);
      h := Cut(h, dst, k);
      if h.cells[c].rc == 0 {
        Destroy(c, b);
        CutThenDestroyed(h0, t0, p0, dst, k, b, h, trees, places);
        ReleasedGround(h0, t0, p0, h, trees, places, b);
      }
    }

    /** The destructor of an array: its slots are released one after the other, then its memory. */
    method Destroy(c: Ref, ghost b: Ref)
      requires Inv(h, trees, places) && c in h.cells && places[c] == {} && b <= c && Grounded(h, b)
      modifies this
      ensures Inv(h, trees, places) && c !in h.cells
      ensures Released(old(h), old(trees), old(places), h, trees, places, b, c)
      decreases Arr(trees[c]), 0
    {
      ghost var h0, t0, p0 := h, trees, places;
      var todo := set k | k in h.cells[c].table && h.cells[c].table[k].Link?;
      assert ShownAt(h, trees, c);
      ReleasedNothing(h, trees, places, b, c);
      while todo != {}
        invariant Inv(h, trees, places) && c in h.cells && places[c] == {} && Grounded(h, b)
        invariant Released(h0, t0, p0, h, trees, places, b, c)
        invariant LeftOf(h0.cells[c].table, h.cells[c].table, todo)
        invariant forall k :: k in trees[c] ==> k in t0[c] && trees[c][k] == t0[c][k]
        decreases todo
      {
        var k :| k in todo;
        ghost var h1, t1, p1 := h, trees, places;
        assert ShownAt(h, trees, c);
        ReleaseSlot(c, k, b);
        ReleasedTrans(h0, t0, p0, h1, t1, p1, h, trees, places, b, c);
        todo := todo - {k};
      }
      EraseEffect(h, trees, places, c);
      ErasedLast(h0, t0, p0, h, trees, places, b, c);
      trees, places := trees - {c}, places - {c};
      h := Erase(h, c);
    }

    // ---------------------------------------------------------------- merging

    ghost predicate Copying(dst: Ref)
      reads this
    {
      CopyingIn(h, trees, places, dst)
    }

    /** array_init on a local variable. */
    method NewArray() returns (c: Ref)
      requires Valid()
      modifies this
      ensures Copying(c) && c == old(h.next) && trees[c] == map[] && h.temps == old(h.temps) + [c]
      ensures Below(old(h), old(trees), old(places), h, trees, places, c)
    {
      c := h.next;
      PushTempEffect(h, trees, places);
      PushTempKeeps(h, trees, places);
      trees, places := trees[h.next := map[]], places[h.next := {Temp(|h.temps|)}];
      h := PushTemp(h);
    }

    /** The entry k of dst gives up what it holds, if that is an array. */
    method ClearSlot(dst: Ref, k: Key, ghost b: Ref)
      requires Valid() && dst in h.cells && Loose(places, dst) && b <= dst && Grounded(h, b)
      modifies this
      ensures Valid() && SameVariables(old(h), h) && Grounded(h, b)
      ensures dst in h.cells && places[dst] == old(places[dst]) && NoArrayAt(h, dst, k)
      ensures Below(old(h), old(trees), old(places), h, trees, places, b)
      ensures trees[dst] - {k} == old(trees[dst]) - {k}
      ensures forall x {:trigger KeptAt(old(h), old(trees), old(places), h, trees, places, x)} ::
        x != dst && x in old(h.cells) && Loose(old(places), x) ==> KeptAt(old(h), old(trees), old(places), h, trees, places, x)
    {
      ghost var h0, t0, p0 := h, trees, places;
      if k in h.cells[dst].table && h.cells[dst].table[k].Link? {
        ReleaseSlot(dst, k, b);
        ReleasedBelow(h0, t0, p0, h, trees, places, b, dst);
        ReleasedLive(h0, t0, p0, h, trees, places, b, dst);
        ReleasedLoose(h0, t0, p0, h, trees, places, b, dst);
        assert h.root != dst ==> KeptAt(h0, t0, p0, h, trees, places, h.root);
      } else {
        forall x: Ref | x in h.cells ensures KeptAt(h0, t0, p0, h, trees, places, x) {
          assert CountedAt(h, places, x) && ShownAt(h, trees, x);
        }
      }
    }

    method CopyScalar(dst: Ref, k: Key, v: string)
      requires Copying(dst)
      modifies this
      ensures Copying(dst) && h.temps == old(h.temps) && trees[dst] == old(trees[dst])[k := Str(v)]
      ensures Below(old(h), old(trees), old(places), h, trees, places, dst)
    {
      ghost var h0, t0, p0 := h, trees, places;
      ClearSlot(dst, k, dst);
      assert KeptAt(h0, t0, p0, h, trees, places, h.root);
      ghost var h1, t1 := h, trees;
      var g;
      ghost var t;
      g, t := WriteSlot(h, trees, places, dst, k, v);
      Refilled(t0[dst], trees[dst], k, Str(v));
      h, trees := g, t;
      BelowTrans(h0, t0, p0, h1, t1, places, h, trees, places, dst);
    }

    /** The array of the last local variable replaces what a slot holds. */
    method TakeArray(dst: Ref, k: Key, value: Ref, ghost b: Ref)
      requires Valid() && TopIs(h, value) && value in places && places[value] == {Temp(|h.temps| - 1)}
      requires dst in h.cells && h.root <= dst < value && Loose(places, dst) && b <= dst && Grounded(h, b)
      modifies this
      ensures Valid() && h.root == old(h.root) && h.temps == old(h.temps[..|h.temps| - 1]) && Grounded(h, b)
      ensures dst in h.cells && value in h.cells && places[dst] == old(places[dst]) && places[value] == {At(dst, k)}
      ensures k in h.cells[dst].table && h.cells[dst].table[k] == Link(value)
      ensures trees[dst] == old(trees[dst])[k := Arr(old(trees[value]))]
      ensures Below(old(h), old(trees), old(places), h, trees, places, b)
    {
      ghost var h0, t0, p0 := h, trees, places;
      assert value in h.cells by { assert PointsTo(h, Temp(|h.temps| - 1), value); }
      ClearSlot(dst, k, b);
      assert KeptAt(h0, t0, p0, h, trees, places, value);
      ghost var h1, t1, p1 := h, trees, places;
      Refilled(t0[dst], trees[dst], k, Arr(trees[value]));
      var g;
      ghost var t, p;
      g, t, p := FillSlot(h, trees, places, dst, k, value, b);
      h, trees, places := g, t, p;
      BelowTrans(h0, t0, p0, h1, t1, p1, h, trees, places, b);
    }

    /** One round of the copy: an array over an array becomes a new array that first takes what was there. */
    method CopyEntry(dst: Ref, src: Ref, k: Key, ghost filled: bool)
      requires Copying(dst) && src in h.cells && src < dst && k in h.cells[src].table
      requires k in h.cells[dst].table && h.cells[dst].table[k].Link? && h.cells[src].table[k].Link? ==> filled
      modifies this
      ensures Copying(dst) && h.temps == old(h.temps)
      ensures Below(old(h), old(trees), old(places), h, trees, places, dst)
      ensures k in old(trees[src]) && trees[dst] == old(trees[dst])[k := MergedAt(old(trees[dst]), old(trees[src]), k)]
      decreases filled, Arr(trees[src]), 2
    {
      assert ShownAt(h, trees, src) && ShownAt(h, trees, dst);
      match h.cells[src].table[k]
      case Scalar(v) =>
        CopyScalar(dst, k, v);
      case Link(c) =>
        if k in h.cells[dst].table && h.cells[dst].table[k].Link? {
          CopyOver(dst, src, k);
        } else {
          var g;
          ghost var t, p;
          g, t, p := ShareSlot(h, trees, places, dst, src, k);
          h, trees, places := g, t, p;
        }
    }

    method CopyOver(dst: Ref, src: Ref, k: Key)
      requires Copying(dst) && src in h.cells && src < dst
      requires k in h.cells[src].table && h.cells[src].table[k].Link?
      requires k in h.cells[dst].table && h.cells[dst].table[k].Link?
      modifies this
      ensures Copying(dst) && h.temps == old(h.temps)
      ensures Below(old(h), old(trees), old(places), h, trees, places, dst)
      ensures k in old(trees[src]) && trees[dst] == old(trees[dst])[k := MergedAt(old(trees[dst]), old(trees[src]), k)]
      decreases true, Arr(trees[src]), 1
    {
      ghost var h0, t0, p0 := h, trees, places;
      assert ShownAt(h, trees, src) && ShownAt(h, trees, dst);
      var value := MergeBoth(h.cells[dst].table[k].to, h.cells[src].table[k].to, trees[src]);
      TakeOver(dst, k, value, h0, t0, p0);
    }

    /** The finished array goes into its slot, and the copy is where it was, but for this slot. */
    method TakeOver(dst: Ref, k: Key, value: Ref, ghost h0: Heap, ghost t0: Trees, ghost p0: Places)
      requires CopyingIn(h0, t0, p0, dst) && Copying(value) && h0.next == value && h.temps == h0.temps + [value]
      requires dst < value && Below(h0, t0, p0, h, trees, places, value)
      modifies this
      ensures Copying(dst) && h.temps == h0.temps && Below(h0, t0, p0, h, trees, places, dst)
      ensures trees[dst] == t0[dst][k := Arr(old(trees[value]))]
    {
      ghost var h1, t1, p1 := h, trees, places;
      assert KeptAt(h0, t0, p0, h, trees, places, dst);
      TempsGround(h0, t0, p0, h, trees, places, dst, value);
      TakeArray(dst, k, value, dst);
      assert KeptAt(h1, t1, p1, h, trees, places, h.root);
      BelowLess(h0, t0, p0, h1, t1, p1, value, dst);
      BelowTrans(h0, t0, p0, h1, t1, p1, h, trees, places, dst);
    }

    /** A new array that takes what d has and then what c has. */
    method MergeBoth(d: Ref, c: Ref, ghost above: Table) returns (value: Ref)
      requires Valid() && d in h.cells && c in h.cells && Arr(trees[c]) < Arr(above)
      modifies this
      ensures Copying(value) && value == old(h.next) && h.temps == old(h.temps) + [value]
      ensures Below(old(h), old(trees), old(places), h, trees, places, value)
      ensures trees[value] == Merge(old(trees[d]), old(trees[c]))
      decreases true, Arr(above), 0
    {
      ghost var h0, t0, p0 := h, trees, places;
      value := NewArray();
      ghost var h1, t1, p1 := h, trees, places;
      assert KeptAt(h0, t0, p0, h, trees, places, d) && KeptAt(h0, t0, p0, h, trees, places, c);
      DeepCopySection(value, d);
      BelowTrans(h0, t0, p0, h1, t1, p1, h, trees, places, value);
      MergeIntoNothing(t0[d]);
      h1, t1, p1 := h, trees, places;
      assert KeptAt(h0, t0, p0, h, trees, places, c);
      DeepCopySection(value, c);
      BelowTrans(h0, t0, p0, h1, t1, p1, h, trees, places, value);
    }

    /** yaf_deep_copy_section: the entries of src are merged into dst, which only a local variable holds. */
    method DeepCopySection(dst: Ref, src: Ref)
      requires Copying(dst) && src in h.cells && src < dst
      modifies this
      ensures Copying(dst) && h.temps == old(h.temps)
      ensures Below(old(h), old(trees), old(places), h, trees, places, dst)
      ensures trees[dst] == Merge(old(trees[dst]), old(trees[src]))
      decreases trees[dst] != map[], Arr(trees[src]), 3
    {
      ghost var h0, t0, p0 := h, trees, places;
      assert ShownAt(h, trees, src) && ShownAt(h, trees, dst);
      BelowSelf(h, trees, places, dst);
      var todo := h.cells[src].table.Keys;
      while todo != {}
        invariant Copying(dst) && h.temps == h0.temps && Below(h0, t0, p0, h, trees, places, dst)
        invariant Merging(t0[dst], t0[src], todo, trees[dst])
        decreases todo
      {
        var k :| k in todo;
        ghost var h1, t1, p1 := h, trees, places;
        assert KeptAt(h0, t0, p0, h, trees, places, src);
        assert ShownAt(h, trees, dst);
        MergeStep(t0[dst], t0[src], todo, trees[dst], k);
        CopyEntry(dst, src, k, t0[dst] != map[]);
        BelowTrans(h0, t0, p0, h1, t1, p1, h, trees, places, dst);
        todo := todo - {k};
      }
      MergeEnds(t0[dst], t0[src], trees[dst]);
    }

    // ---------------------------------------------------------------- ENTRY

    /** The value of the whole configuration after one step below dst. */
    method Descend(dst: Ref, k: Key, ghost walk: Walk, ghost more: seq<Key>, ghost v: string) returns (next: Ref)
      requires Valid() && Exclusive(h, places, walk, dst) && more != []
      modifies this
      ensures Valid() && SameVariables(old(h), h) && Exclusive(h, places, walk + [(dst, k)], next)
      ensures SetPath(Tree(), Steps(walk) + [k] + more, v) == SetPath(old(Tree()), Steps(walk) + [k] + more, v)
    {
      hide Exclusive, SetPath;
      var g;
      ghost var t, p;
      g, t, p, next := StepDown(h, trees, places, walk, dst, k, more, v);
      h, trees, places := g, t, p;
    }

    /** One round of the ENTRY loop: the array it writes is referred to from one place only. */
    method Segment(dst: Ref, k: Key, seg: bool, value: string, ghost walk: Walk, ghost more: seq<Key>)
      returns (next: Ref)
      requires Valid() && Exclusive(h, places, walk, dst) && seg == (more != [])
      modifies this
      ensures Valid() && SameVariables(old(h), h) && Exclusive(h, places, walk, dst)
      ensures old(h.cells[dst].rc) == 1
      ensures seg ==> Exclusive(h, places, walk + [(dst, k)], next)
      ensures seg ==> SetPath(Tree(), Steps(walk) + [k] + more, value) == SetPath(old(Tree()), Steps(walk) + [k] + more, value)
      ensures !seg ==> Tree() == SetPath(old(Tree()), Steps(walk) + [k], value)
    {
      hide Exclusive, SetPath, Inv;
      WriterIsAlone(h, trees, places, walk, dst);
      next := dst;
      if seg {
        next := Descend(dst, k, walk, more, value);
        WalkBack(h, places, walk, (dst, k), next);
      } else if k !in h.cells[dst].table || h.cells[dst].table[k].Scalar? {
        var g;
        ghost var t;
        g, t := WriteScalar(h, trees, places, walk, dst, k, value);
        h, trees := g, t;
      } else {
        LastIsDropped(h, trees, places, walk, dst, k, value);
        var g;
        ghost var t, p;
        g, t, p, next := SeparateArray(h, trees, places, walk, dst, k);
        WalkBack(g, p, walk, (dst, k), next);
        h, trees, places := g, t, p;
      }
    }

    /**
    The ENTRY callback on the array active, which only the walk leads to: on the whole
    configuration it is the assignment of the value to the dotted key below the walk.
    */
    method ParserEntry(active: Ref, key: string, value: string, ghost walk: Walk)
      requires Valid() && Exclusive(h, places, walk, active) && NUL !in key
      modifies this
      ensures Valid() && SameVariables(old(h), h) && Exclusive(h, places, walk, active)
      ensures Tree() == SetPath(old(Tree()), Steps(walk) + SymKeys(Words(key, ".")), value)
    {
      hide Exclusive, SetPath;
      var skey, seg, last := FirstToken(key, ".");
      var dst := active;
      ghost var here, rest := walk, Words(key, ".");
      ghost var goal := SetPath(Tree(), Steps(walk) + SymKeys(rest), value);
      EmptyPathIsDropped(h, trees, places, walk, active, value);
      assert Steps(walk) + [] == Steps(walk);
      while seg.Some?
        invariant Valid() && SameVariables(old(h), h) && Exclusive(h, places, walk, active)
        invariant fresh(skey) && (seg.Some? ==> rest != [] && seg.value == rest[0] && Left(skey[..], last, ".", rest[1..]))
        invariant seg.Some? ==> Underway(here, dst, walk, active, rest, value, goal)
        invariant seg.None? ==> Tree() == goal
        decreases if seg.Some? then |rest| else 0
      {
        var realKey := seg.value;
        seg, last := NextToken(skey, ".", last, rest[1..]);
        ghost var now := dst;
        dst := EntryStep(dst, SymKey(realKey), seg.Some?, value, here, rest, walk, active, goal);
        here, rest := here + [(now, SymKey(realKey))], rest[1..];
      }
    }

    // What the rounds still to come will do to the configuration.
    ghost predicate Underway(here: Walk, dst: Ref, walk: Walk, active: Ref, rest: seq<string>, value: string, goal: Table)
      reads this
    {
      && Valid() && Exclusive(h, places, here, dst) && Extends(here, dst, walk, active)
      && SetPath(Tree(), Steps(here) + SymKeys(rest), value) == goal
    }

    method EntryStep(dst: Ref, k: Key, seg: bool, value: string, ghost here: Walk, ghost rest: seq<string>,
                     ghost walk: Walk, ghost active: Ref, ghost goal: Table)
      returns (next: Ref)
      requires rest != [] && k == SymKey(rest[0]) && seg == (rest[1..] != [])
      requires Underway(here, dst, walk, active, rest, value, goal)
      modifies this
      ensures Valid() && SameVariables(old(h), h) && Exclusive(h, places, walk, active)
      ensures if seg then Underway(here + [(dst, k)], next, walk, active, rest[1..], value, goal) else Tree() == goal
    {
      hide SetPath, Sound;
      PathStep(here, rest);
      next := Segment(dst, k, seg, value, here, SymKeys(rest[1..]));
      StillExclusive(h, places, here, dst, walk, active);
    }

    // ---------------------------------------------------------------- whole sections

    /** The finished section goes into the configuration, in the place of an earlier one of its name. */
    method AddSection(key: Key, active: Ref)
      requires Copying(active) && h.temps == [active]
      modifies this
      ensures Valid() && h.root == old(h.root) && h.temps == []
      ensures Exclusive(h, places, [(h.root, key)], active)
      ensures Tree() == old(Tree())[key := Arr(old(trees[active]))]
    {
      TakeArray(h.root, key, active, 0);
      assert [(h.root, key)][..0] == [];
    }

    /** An ENTRY callback for a section assigns below the section, and changes no other section. */
    method SectionEntry(section: Key, active: Ref, key: string, value: string)
      requires Valid() && Exclusive(h, places, [(h.root, section)], active) && NUL !in key
      modifies this
      ensures Valid() && SameVariables(old(h), h) && Exclusive(h, places, [(h.root, section)], active)
      ensures trees[active] == Entry(old(trees[active]), key, value)
      ensures Tree() == old(Tree())[section := Arr(trees[active])]
    {
      SectionShown(h, trees, places, section, active);
      SetInSection(Tree(), section, SymKeys(Words(key, ".")), value);
      ghost var walk := [(h.root, section)];
      assert Steps(walk) == [section];
      ParserEntry(active, key, value, walk);
      SectionShown(h, trees, places, section, active);
    }

    /**
    Any number of ENTRY callbacks for one section: it takes the assignments one after the other, and
    every other section is what it was, whatever arrays it shares with this one.
    */
    method Entries(section: Key, active: Ref, entries: seq<(string, string)>)
      requires Valid() && Exclusive(h, places, [(h.root, section)], active)
      requires forall i :: 0 <= i < |entries| ==> NUL !in entries[i].0
      modifies this
      ensures Valid() && SameVariables(old(h), h) && Exclusive(h, places, [(h.root, section)], active)
      ensures Tree() == old(Tree())[section := Arr(Assigned(old(trees[active]), entries))]
    {
      hide Sound, Exclusive, Entry;
      SectionShown(h, trees, places, section, active);
      ghost var t0, s0 := Tree(), trees[active];
      var i := 0;
      while i < |entries|
        invariant 0 <= i <= |entries|
        invariant Valid() && SameVariables(old(h), h) && Exclusive(h, places, [(h.root, section)], active)
        invariant active in trees && Tree() == t0[section := Arr(trees[active])]
        invariant Assigned(trees[active], entries[i..]) == Assigned(s0, entries)
      {
        AssignedStep(trees[active], entries, i);
        SectionEntry(section, active, entries[i].0, entries[i].1);
        SectionShown(h, trees, places, section, active);
        i := i + 1;
      }
    }

    /** The configuration becomes the array of a local variable, and what only the old one held is freed. */
    method ReplaceRoot(zv: Ref)
      requires Copying(zv) && h.temps == [zv]
      modifies this
      ensures Valid() && h.temps == [] && Tree() == old(trees[zv])
    {
      var garbage := h.root;
      RerootEffect(h, trees, places, zv);
      places := places[zv := {Root}][garbage := {}];
      h := Reroot(h, zv);
      ghost var h1, t1, p1 := h, trees, places;
      Destroy(garbage, 0);
      assert StaysAt(h1, t1, p1, h, trees, places, 0, zv);
      forall x | x in h.cells ensures h.cells[x].rc > 0 {
        assert StaysAt(h1, t1, p1, h, trees, places, 0, x);
      }
    }

    /** The wanted section becomes the configuration, and everything only the others held is freed. */
    method SelectSection(key: Key) returns (found: bool)
      requires Valid() && h.temps == []
      requires key in Tree() ==> Tree()[key].Arr?
      modifies this
      ensures Valid() && h.temps == []
      ensures found <==> key in old(Tree())
      ensures Tree() == if found then old(Tree())[key].t else old(Tree())
    {
      assert ShownAt(h, trees, h.root);
      if key !in h.cells[h.root].table {
        return false;
      }
      found := true;
      ghost var h0, t0, p0 := h, trees, places;
      var section := h.cells[h.root].table[key].to;
      var zv := NewArray();
      assert KeptAt(h0, t0, p0, h, trees, places, section);
      DeepCopySection(zv, section);
      MergeIntoNothing(t0[section]);
      ReplaceRoot(zv);
    }
  }

  // What a section is after entries for it.
  function Assigned(t: Table, entries: seq<(string, string)>): Table
    decreases |entries|
  {
    if entries == [] then t else Assigned(Entry(t, entries[0].0, entries[0].1), entries[1..])
  }

  lemma WriterIsAlone(h: Heap, trees: Trees, places: Places, walk: Walk, dst: Ref)
    requires Inv(h, trees, places) && Exclusive(h, places, walk, dst)
    ensures dst in h.cells && h.cells[dst].rc == 1
  {
    assert CountedAt(h, places, dst);
  }

  lemma AssignedStep(t: Table, entries: seq<(string, string)>, i: nat)
    requires i < |entries|
    ensures Assigned(t, entries[i..]) == Assigned(Entry(t, entries[i].0, entries[i].1), entries[i + 1..])
  {
    assert entries[i..][1..] == entries[i + 1..];
  }

  lemma SetInSection(t: Table, section: Key, path: seq<Key>, v: string)
    requires section in t && t[section].Arr?
    ensures SetPath(t, [section] + path, v) == t[section := Arr(SetPath(t[section].t, path, v))]
  {
    assert ([section] + path)[1..] == path;
    if path == [] { assert [section] + path == [section]; }
  }

  lemma SectionShown(h: Heap, trees: Trees, places: Places, section: Key, active: Ref)
    requires Sound(h, trees, places) && Exclusive(h, places, [(h.root, section)], active)
    ensures active in trees && section in trees[h.root] && trees[h.root][section] == Arr(trees[active])
  {
    assert [(h.root, section)][..0] == [];
    assert ShownAt(h, trees, h.root);
  }

  /** With the variables that were there before, what was held before is held still. */
  lemma TempsGround(h: Heap, trees: Trees, places: Places, g: Heap, t: Trees, p: Places, b: Ref, a: Ref)
    requires Below(h, trees, places, g, t, p, a) && b <= a && Grounded(h, b) && h.temps <= g.temps
    ensures Grounded(g, b)
  {
    BelowLess(h, trees, places, g, t, p, a, b);
    BelowGround(h, trees, places, g, t, p, b);
  }

  lemma BelowSelf(h: Heap, trees: Trees, places: Places, b: Ref)
    requires Inv(h, trees, places)
    ensures Below(h, trees, places, h, trees, places, b)
  {
    forall x: Ref | x < b && x in h.cells ensures KeptAt(h, trees, places, h, trees, places, x) {
      assert CountedAt(h, places, x) && ShownAt(h, trees, x);
    }
  }

  lemma Refilled(t: Table, u: Table, k: Key, x: Val)
    requires t - {k} == u - {k}
    ensures t[k := x] == u[k := x]
  {
    assert t[k := x] == (t - {k})[k := x];
    assert u[k := x] == (u - {k})[k := x];
  }

  lemma ReleasedLoose(h: Heap, trees: Trees, places: Places, g: Heap, t: Trees, p: Places, b: Ref, but: Ref)
    requires Released(h, trees, places, g, t, p, b, but)
    ensures forall x {:trigger KeptAt(h, trees, places, g, t, p, x)} ::
      x != but && x in h.cells && Loose(places, x) ==> KeptAt(h, trees, places, g, t, p, x)
  {
    forall x | x != but && x in h.cells && Loose(places, x) ensures KeptAt(h, trees, places, g, t, p, x) {
      assert StaysAt(h, trees, places, g, t, p, b, x);
    }
  }

  lemma SharedFits(h: Heap, trees: Trees, places: Places, dst: Ref, src: Ref, k: Key)
    requires Inv(h, trees, places) && src in h.cells && k in h.cells[src].table && h.cells[src].table[k].Link?
    requires dst in h.cells && Loose(places, dst)
    ensures var c := h.cells[src].table[k].to;
      c in h.cells && c != dst && c in trees && k in trees[src] && trees[src][k] == Arr(trees[c]) && PointsTo(h, At(src, k), c)
  {
    assert ShownAt(h, trees, src);
    LooseNowhere(h, places, dst);
  }


  // The table has lost arrays only, and todo lists those that are left.
  predicate LeftOf(whole: map<Key, Slot>, table: map<Key, Slot>, todo: set<Key>) {
    && (forall k :: k in table ==> k in whole && table[k] == whole[k] && (table[k].Link? <==> k in todo))
    && todo <= table.Keys
  }

  lemma ReleasedNothing(h: Heap, trees: Trees, places: Places, b: Ref, c: Ref)
    requires Inv(h, trees, places)
    ensures Released(h, trees, places, h, trees, places, b, c)
  {
  }

  lemma ErasedLast(h: Heap, trees: Trees, places: Places, g: Heap, t: Trees, p: Places, b: Ref, c: Ref)
    requires Released(h, trees, places, g, t, p, b, c) && c in g.cells
    ensures Released(h, trees, places, Erase(g, c), t - {c}, p - {c}, b, c)
  {
    forall x: Ref | x != c ensures StaysAt(h, trees, places, Erase(g, c), t - {c}, p - {c}, b, x) {
      assert StaysAt(h, trees, places, g, t, p, b, x);
    }
  }
}
