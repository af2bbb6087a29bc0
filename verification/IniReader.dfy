/**
The parser callbacks of configs/yaf_config_ini.c on the shared arrays: headers are cut in place,
sections are merged from their parents, entries are written where they stand, and over a whole file
the arrays show what the callbacks on values compute.
*/
module IniReader {
  import opened Strtok
  import opened IniKeys
  import opened IniTree
  import opened IniHeap
  import opened IniShare
  import opened IniArrays
  import IniHeader
  import P = IniParser

  predicate Readable(e: P.Event) {
    match e
    case Section(header) => NUL !in header && P.InBuffer(header)
    case Entry(key, value) => NUL !in key
  }

  // The sections are older than b.
  predicate RootBelow(h: Heap, b: Ref) {
    h.root in h.cells && forall k :: k in h.cells[h.root].table && h.cells[h.root].table[k].Link? ==> h.cells[h.root].table[k].to < b
  }

  /** The reader's globals, changed by one callback after the other. */
  class Reader {
    const arrays: Arrays
    const wanted: Option<string>
    // The array that entries go to; none in front of the first section.
    var active: Option<Ref>
    var flag: P.Flag
    // A parent was no array: the source reads it as one, and nothing is said from there on.
    var broken: bool
    ghost var section: Option<Key>

    ghost predicate Valid()
      reads this, arrays
    {
      && arrays.Valid() && (active.Some? <==> section.Some?)
      && (!broken ==> arrays.h.temps == [])
      && (!broken && active.Some? ==> Exclusive(arrays.h, arrays.places, [(arrays.h.root, section.value)], active.value))
    }

    ghost function Now(): P.State
      requires Valid()
      reads this, arrays
    {
      P.State(arrays.Tree(), section, flag, broken)
    }

    /** An empty section name means none. */
    constructor (name: Option<string>)
      ensures Valid() && Now() == P.FRESH && fresh(arrays)
      ensures wanted == if name == Some("") then None else name
    {
      arrays := new Arrays();
      active, flag, broken, section := None, P.Start, false, None;
      wanted := if name == Some("") then None else name;
    }

    // ---------------------------------------------------------------- a section

    // What the parents merged so far have made of the new section; none if one was no array.
    ghost predicate Merged(new_: Ref, sound: bool, t: Table, done: seq<string>)
      reads arrays
    {
      && arrays.Copying(new_) && arrays.h.temps == [new_] && arrays.Tree() == t && RootBelow(arrays.h, new_)
      && P.Inherit(t, done) == if sound then Some(arrays.trees[new_]) else None
    }

    /** A parent that exists is merged into the new section. */
    method ApplyParent(new_: Ref, sound: bool, name: string, ghost t: Table, ghost done: seq<string>) returns (still: bool)
      requires Merged(new_, sound, t, done)
      modifies arrays
      ensures Merged(new_, still, t, [name] + done)
    {
      ghost var h0, t0, p0 := arrays.h, arrays.trees, arrays.places;
      assert ([name] + done)[1..] == done;
      assert ShownAt(arrays.h, arrays.trees, arrays.h.root);
      var table := arrays.h.cells[arrays.h.root].table;
      var key := SymKey(name);
      still := sound;
      if sound && key in table {
        match table[key]
        case Scalar(_) =>
          still := false;
        case Link(parent) =>
          ParentIsOlder(arrays.h, arrays.trees, arrays.places, new_, key);
          arrays.DeepCopySection(new_, parent);
          assert KeptAt(h0, t0, p0, arrays.h, arrays.trees, arrays.places, h0.root);
      }
    }

    method MergeParents(b: array<char>, seg: nat, new_: Ref) returns (sound: bool)
      requires 0 < seg <= b.Length && Ends(b[..], seg) && b[seg - 1] == NUL
      requires arrays.Copying(new_) && arrays.h.temps == [new_] && arrays.trees[new_] == map[]
      requires RootBelow(arrays.h, new_)
      modifies b, arrays
      ensures Merged(new_, sound, old(arrays.Tree()), IniHeader.Parents(old(CText(b[..], seg))))
    {
      sound := true;
      ghost var t := arrays.Tree();
      ghost var text, done: seq<string> := CText(b[..], seg), [];
      ghost var all := IniHeader.Parents(text);
      var section := IniHeader.StrrChr(b, seg);
      assert all + [] == all;
      while section.Some?
        invariant Ends(b[..], seg) && b[seg - 1] == NUL && text == CText(b[..], seg)
        invariant section.Some? <==> ':' in text
        invariant section.Some? ==> section.value == seg + IniHeader.LastColon(text)
        invariant all == IniHeader.Parents(text) + done && Merged(new_, sound, t, done)
        decreases |text|
      {
        var name := P.LastParent(b, seg, section.value);
        sound := ApplyParent(new_, sound, name, t, done);
        P.Consed(IniHeader.Parents(CText(b[..], seg)), name, done);
        text, done := CText(b[..], seg), [name] + done;
        section := IniHeader.StrrChr(b, seg);
      }
      var first := ReadString(b, seg);
      sound := ApplyParent(new_, sound, first, t, done);
      P.Consed([], first, done);
      assert [] + [first] + done == [first] + done;
    }

    /** The header is cut in place, and the parents are merged into a new array as they are found. */
    method SectionHeader(key: string) returns (child: string, new_: Ref, sound: bool)
      requires arrays.Valid() && arrays.h.temps == [] && NUL !in key && P.InBuffer(key)
      modifies arrays
      ensures child == IniHeader.Read(key).child
      ensures Merged(new_, sound, old(arrays.Tree()), IniHeader.Read(key).parents)
    {
      IniHeader.ScanReadsHeader(key);
      var b, skey := P.TrimmedHeader(key);
      ghost var h0, t0, p0 := arrays.h, arrays.trees, arrays.places;
      RootIsOlder(arrays.h, arrays.trees, arrays.places);
      new_ := arrays.NewArray();
      assert KeptAt(h0, t0, p0, arrays.h, arrays.trees, arrays.places, h0.root);
      sound := true;
      var seg := IniHeader.StrChr(b, skey);
      if seg.None? {
        child := ReadString(b, skey);
        return;
      }
      P.FirstPieceStops(key);
      var rest := IniHeader.CutAt(b, skey, seg.value);
      child := ReadString(b, skey);
      sound := MergeParents(b, rest, new_);
    }

    // ---------------------------------------------------------------- the callback

    method SectionCb(header: string)
      requires Valid() && !broken && flag != P.End && NUL !in header && P.InBuffer(header)
      modifies this, arrays
      ensures Valid() && Now() == P.Step(wanted, old(Now()), P.Section(header))
    {
      hide Sound, Exclusive, RootBelow;
      if flag == P.Process {
        flag := P.End;
        return;
      }
      var child, new_, sound := SectionHeader(header);
      if !sound {
        broken := true;
        return;
      }
      arrays.AddSection(SymKey(child), new_);
      active, section := Some(new_), Some(SymKey(child));
      if P.Wants(wanted, child) {
        flag := P.Process;
      }
    }

    method EntryCb(key: string, value: string)
      requires Valid() && !broken && flag != P.End && NUL !in key
      modifies this, arrays
      ensures Valid() && Now() == P.Step(wanted, old(Now()), P.Entry(key, Some(value)))
    {
      if active.Some? {
        ghost var walk := [(arrays.h.root, section.value)];
        assert Steps(walk) == [section.value];
        arrays.ParserEntry(active.value, key, value, walk);
      } else {
        assert Steps([]) == [];
        arrays.ParserEntry(arrays.h.root, key, value, []);
      }
    }

    /** One callback does to the arrays what it does on values. */
    method ParserCb(e: P.Event)
      requires Valid() && Readable(e)
      modifies this, arrays
      ensures Valid() && Now() == P.Step(wanted, old(Now()), e)
    {
      if flag == P.End || broken {
        return;
      }
      match e
      case Section(header) =>
        SectionCb(header);
      case Entry(key, value) =>
        if value.Some? {
          EntryCb(key, value.value);
        }
    }

    /** Over a whole file the arrays show what the callbacks on values compute. */
    method ParseFile(events: seq<P.Event>)
      requires Valid() && forall i :: 0 <= i < |events| ==> Readable(events[i])
      modifies this, arrays
      ensures Valid() && Now() == P.Run(wanted, old(Now()), events)
    {
      ghost var s0 := Now();
      var i := 0;
      while i < |events|
        invariant 0 <= i <= |events| && Valid()
        invariant P.Run(wanted, Now(), events[i..]) == P.Run(wanted, s0, events)
      {
        assert events[i..][0] == events[i] && events[i..][1..] == events[i + 1..];
        ParserCb(events[i]);
        i := i + 1;
      }
    }

    /** The wanted section becomes the configuration; a scalar of that name is read as an array by the source. */
    method SelectWanted() returns (found: bool)
      requires Valid() && !broken && wanted.Some?
      modifies this, arrays
      ensures Valid() && broken == old(broken)
      ensures match P.Select(old(arrays.Tree()), wanted.value)
              case None => !found
              case Some(Arr(t)) => found && arrays.Tree() == t
              case Some(Str(_)) => true
    {
      hide Exclusive, Sound;
      var key := SymKey(wanted.value);
      RootShown(arrays.h, arrays.trees, arrays.places, key);
      var table := arrays.h.cells[arrays.h.root].table;
      found := true;
      if key !in table || table[key].Link? {
        active, section := None, None;
        found := arrays.SelectSection(key);
      }
    }
  }

  lemma RootShown(h: Heap, trees: Trees, places: Places, key: Key)
    requires Sound(h, trees, places)
    ensures h.root in h.cells && h.root in trees && (key in h.cells[h.root].table <==> key in trees[h.root])
    ensures key in trees[h.root] ==> (h.cells[h.root].table[key].Link? <==> trees[h.root][key].Arr?)
  {
    assert ShownAt(h, trees, h.root);
  }

  lemma RootIsOlder(h: Heap, trees: Trees, places: Places)
    requires Sound(h, trees, places)
    ensures RootBelow(h, h.next) && h.root < h.next
  {
  }

  lemma ParentIsOlder(h: Heap, trees: Trees, places: Places, new_: Ref, key: Key)
    requires CopyingIn(h, trees, places, new_) && RootBelow(h, new_)
    requires key in h.cells[h.root].table && h.cells[h.root].table[key].Link?
    ensures var c := h.cells[h.root].table[key].to;
      c in h.cells && c < new_ && c in trees && key in trees[h.root] && trees[h.root][key] == Arr(trees[c])
  {
    assert ShownAt(h, trees, h.root);
  }

  /** yaf_config_ini_instance: the file is parsed, and the wanted section becomes the configuration. */
  method Instance(name: Option<string>, events: seq<P.Event>) returns (r: Reader, found: bool)
    requires forall i :: 0 <= i < |events| ==> Readable(events[i])
    ensures fresh(r) && r.Valid()
    ensures var wanted := if name == Some("") then None else name;
      var s := P.Run(wanted, P.FRESH, events);
      r.broken == s.broken &&
      (!s.broken ==>
        if wanted.None? then found && r.arrays.Tree() == s.arr
        else match P.Select(s.arr, wanted.value)
             case None => !found
             case Some(Arr(t)) => found && r.arrays.Tree() == t
             case Some(Str(_)) => true)
  {
    r := new Reader(name);
    r.ParseFile(events);
    found := true;
    if r.wanted.Some? && !r.broken {
      found := r.SelectWanted();
    }
  }
}
