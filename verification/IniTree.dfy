/**
The trees of configs/yaf_config_ini.c as values: the merge that section inheritance is made of,
assignment to a dotted key, and lookup of a dotted name.
*/
module IniTree {
  import opened Strtok
  import opened IniKeys

  datatype Val = Str(s: string) | Arr(t: map<Key, Val>)

  type Table = map<Key, Val>

  // ---------------------------------------------------------------- keys of a path

  // Every segment is no number, or a number as printed.
  ghost predicate PlainKeys(segs: seq<string>) {
    forall k :: 0 <= k < |segs| ==> PlainKey(segs[k])
  }

  function SymKeys(segs: seq<string>): seq<Key> {
    if segs == [] then [] else [SymKey(segs[0])] + SymKeys(segs[1..])
  }

  // ---------------------------------------------------------------- yaf_deep_copy_section

  /** The right-biased recursive merge: arrays merge, otherwise the source wins. */
  function Merge(dst: Table, src: Table): (m: Table)
    ensures m.Keys == dst.Keys + src.Keys
    decreases Arr(src)
  {
    map k | k in dst.Keys + src.Keys ::
      if k !in src then dst[k]
      else if k in dst && dst[k].Arr? && src[k].Arr? then Arr(Merge(dst[k].t, src[k].t))
      else src[k]
  }

  lemma MergeIntoNothing(src: Table)
    ensures Merge(map[], src) == src
  {
  }

  // ---------------------------------------------------------------- ENTRY and get

  /** What an ENTRY does to a table: the last step is dropped when it meets an array. */
  function SetPath(t: Table, path: seq<Key>, v: string): Table
    decreases |path|
  {
    if path == [] then t
    else
      var k, rest := path[0], path[1..];
      var below := if k in t && t[k].Arr? then t[k].t else map[];
      if rest != [] then t[k := Arr(SetPath(below, rest, v))]
      else if k in t && t[k].Arr? then t
      else t[k := Str(v)]
  }

  function Entry(t: Table, key: string, v: string): Table {
    SetPath(t, SymKeys(Words(key, ".")), v)
  }

  /** What a path leads to; a scalar has nothing below it. */
  function Lookup(t: Table, path: seq<Key>): Option<Val>
    decreases |path|
  {
    if path == [] then Some(Arr(t))
    else if path[0] !in t then None
    else if |path| == 1 then Some(t[path[0]])
    else if t[path[0]].Arr? then Lookup(t[path[0]].t, path[1..])
    else None
  }

  // get: a value, null, or a read through something that is not an array.
  datatype Got = Value(v: Val) | Null | Undefined

  function GetFrom(t: Table, segs: seq<string>): Got
    requires segs != []
    decreases |segs|
  {
    var k := NumKey(segs[0]);
    if k !in t then Null
    else if |segs| == 1 then Value(t[k])
    else if t[k].Arr? then GetFrom(t[k].t, segs[1..])
    else Undefined
  }

  function Get(t: Table, name: string): Got {
    if '.' in name then
      if Words(name, ".") == [] then Undefined else GetFrom(t, Words(name, "."))
    else GetFrom(t, [name])
  }

  method GetEntry(t: Table, name: string) returns (g: Got)
    requires NUL !in name
    ensures g == Get(t, name)
  {
    if '.' in name {
      var entry, seg, last := FirstToken(name, ".");
      if seg.None? {
        return Undefined;
      }
      var properties := Arr(t);
      var pzval := properties;
      ghost var rest := Words(name, ".");
      while seg.Some?
        invariant fresh(entry)
        invariant seg.Some? ==> rest != [] && seg.value == rest[0] && Left(entry[..], last, ".", rest[1..])
        invariant seg.Some? ==> Get(t, name) == if properties.Arr? then GetFrom(properties.t, rest) else Undefined
        invariant seg.None? ==> Get(t, name) == Value(pzval)
        decreases if seg.Some? then |rest| else 0
      {
        if properties.Str? {
          return Undefined;
        }
        var k := NumKey(seg.value);
        if k !in properties.t {
          return Null;
        }
        pzval := properties.t[k];
        properties := pzval;
        rest := rest[1..];
        seg, last := NextToken(entry, ".", last, rest);
      }
      return Value(pzval);
    } else if NumKey(name) in t {
      return Value(t[NumKey(name)]);
    } else {
      return Null;
    }
  }

  /**
  A plain name is found where Lookup finds it; else the answer is null, or undefined when the path
  goes through something that is no array.
  */
  lemma {:induction false} GetIsLookup(t: Table, segs: seq<string>)
    requires segs != [] && PlainKeys(segs)
    ensures var l := Lookup(t, SymKeys(segs));
      GetFrom(t, segs) == if l.Some? then Value(l.value) else if Blocked(t, SymKeys(segs)) then Undefined else Null
    decreases |segs|
  {
    var k := SymKey(segs[0]);
    KeysAgree(segs[0]);
    hide SymKey, NumKey, PlainKey;
    assert SymKeys(segs)[1..] == SymKeys(segs[1..]);
    if |segs| > 1 && k in t && t[k].Arr? {
      GetIsLookup(t[k].t, segs[1..]);
    }
  }

  // The segments that get reads: a name of nothing but dots has none, and a name without dots is one, even if it is empty.
  function Segments(name: string): seq<string> { if '.' in name then Words(name, ".") else [name] }

  /** So get answers by what the dotted name leads to. */
  lemma GetReads(t: Table, name: string)
    requires PlainKeys(Segments(name))
    ensures var path := SymKeys(Segments(name)); var l := Lookup(t, path);
      Get(t, name) ==
        if Segments(name) == [] then Undefined
        else if l.Some? then Value(l.value)
        else if Blocked(t, path) then Undefined
        else Null
  {
    if Segments(name) != [] { GetIsLookup(t, Segments(name)); }
  }

  lemma {:induction false} SetThenLookup(t: Table, path: seq<Key>, v: string)
    requires path != []
    ensures var l := Lookup(t, path);
      if l.Some? && l.value.Arr? then SetPath(t, path, v) == t else Lookup(SetPath(t, path, v), path) == Some(Str(v))
    decreases |path|
  {
    var k, rest := path[0], path[1..];
    if rest != [] {
      var below := if k in t && t[k].Arr? then t[k].t else map[];
      SetThenLookup(below, rest, v);
    }
  }

  ghost predicate IsPrefix(p: seq<Key>, q: seq<Key>) { |p| <= |q| && p == q[..|p|] }

  /** Paths that are not comparable to the assigned one lead where they led before. */
  lemma {:induction false} SetLeavesOthers(t: Table, path: seq<Key>, v: string, other: seq<Key>)
    requires !IsPrefix(path, other) && !IsPrefix(other, path)
    ensures Lookup(SetPath(t, path, v), other) == Lookup(t, other)
    decreases |path|
  {
    var k, rest := path[0], path[1..];
    if rest != [] && other[0] == k && |other| > 1 {
      var below := if k in t && t[k].Arr? then t[k].t else map[];
      assert other == [k] + other[1..] && path == [k] + rest;
      SetLeavesOthers(below, rest, v, other[1..]);
    }
  }

  /** A name with a segment that is read differently never sees what was assigned. */
  lemma {:induction false} GetMissesValue(t: Table, segs: seq<string>, v: string, w: string)
    requires segs != [] && !PlainKeys(segs)
    ensures GetFrom(SetPath(t, SymKeys(segs), v), segs) == GetFrom(SetPath(t, SymKeys(segs), w), segs)
    decreases |segs|
  {
    hide SymKey, NumKey, PlainKey;
    var k, n := SymKey(segs[0]), NumKey(segs[0]);
    KeysAgree(segs[0]);
    assert SymKeys(segs)[1..] == SymKeys(segs[1..]);
    if k == n {
      var bad :| 0 <= bad < |segs| && !PlainKey(segs[bad]);
      assert segs[1..][bad - 1] == segs[bad];
      var below := if k in t && t[k].Arr? then t[k].t else map[];
      GetMissesValue(below, segs[1..], v, w);
    } else {
      SetKeepsKey(t, SymKeys(segs), v, n);
      SetKeepsKey(t, SymKeys(segs), w, n);
    }
  }

  lemma SetKeepsKey(t: Table, path: seq<Key>, v: string, n: Key)
    requires path != [] && n != path[0]
    ensures n in SetPath(t, path, v) <==> n in t
    ensures n in t ==> SetPath(t, path, v)[n] == t[n]
  {
  }

  /**
  Set then get, exactly: the assigned value comes back, whatever it is, if and only if every
  segment is no number or a number as printed, and the path did not hold an array.
  */
  lemma SetThenGet(t: Table, name: string)
    requires Words(name, ".") != []
    ensures (forall v :: Get(Entry(t, name, v), name) == Value(Str(v))) <==>
            (var segs := Words(name, "."); var l := Lookup(t, SymKeys(segs));
             PlainKeys(segs) && !(l.Some? && l.value.Arr?))
  {
    hide SymKey, NumKey, PlainKey;
    var segs := Words(name, ".");
    var path := SymKeys(segs);
    GetByWords(name);
    assert path != [];
    if PlainKeys(segs) {
      forall v ensures Lookup(t, path).Some? && Lookup(t, path).value.Arr? ==> Entry(t, name, v) == t
        ensures !(Lookup(t, path).Some? && Lookup(t, path).value.Arr?) ==> Get(Entry(t, name, v), name) == Value(Str(v))
      {
        SetThenLookup(t, path, v);
        GetIsLookup(SetPath(t, path, v), segs);
      }
      if Lookup(t, path).Some? && Lookup(t, path).value.Arr? {
        assert Entry(t, name, "") == t && Entry(t, name, "x") == t;
      }
    } else {
      GetMissesValue(t, segs, "", "x");
      assert Get(Entry(t, name, ""), name) == Get(Entry(t, name, "x"), name);
    }
  }

  /** Names of words are never read as numbers: what is assigned to them is found, unless they held an array. */
  lemma WordThenGet(t: Table, name: string, v: string)
    requires Words(name, ".") != []
    requires forall j :: 0 <= j < |Words(name, ".")| ==> exists k :: 0 <= k < |Words(name, ".")[j]| && Letter(Words(name, ".")[j][k])
    ensures var l := Lookup(t, SymKeys(Words(name, ".")));
      !(l.Some? && l.value.Arr?) ==> Get(Entry(t, name, v), name) == Value(Str(v))
  {
    var segs := Words(name, ".");
    forall j | 0 <= j < |segs| ensures PlainKey(segs[j]) {
      var k :| 0 <= k < |segs[j]| && Letter(segs[j][k]);
      WordsArePlain(segs[j], k);
    }
    hide SymKey, NumKey, PlainKey, Get, Entry, Lookup;
    SetThenGet(t, name);
  }

  predicate Letter(c: char) { 'a' <= c <= 'z' || 'A' <= c <= 'Z' || c == '_' }

  /** An instance of the failure: "007" is stored as a name and looked up as the number 7. */
  lemma LeadingZerosAreLost(v: string)
    ensures Get(Entry(map[], "007", v), "007") == Null
  {
    KeysOfSeven();
    hide SymKey, NumKey;
    WordsAfter("007", "", ".");
    assert "007" + "" == "007";
    assert SymKeys(["007"]) == [Name("007")];
  }

  lemma KeysOfSeven()
    ensures SymKey("007") == Name("007") && NumKey("007") == Index(7)
  {
    assert SkipBlanks("007") == "007" && Digits("007");
    SevenInDecimal();
    hide Decimal;
  }

  lemma SevenInDecimal()
    ensures Decimal("007") == 7
  {
    assert "007"[..2] == "00" && "00"[..1] == "0" && "0"[..0] == "";
    assert Decimal("0") == 0 && Decimal("00") == 0;
  }

  /** Another one: an assignment to the path of an array is dropped. */
  lemma AssignmentToArrayIsDropped(v: string)
    ensures var t := map[Name("a") := Arr(map[])]; Entry(t, "a", v) == t && Get(Entry(t, "a", v), "a") == Value(Arr(map[]))
  {
    WordsAfter("a", "", ".");
    assert "a" + "" == "a";
    assert SymKeys(["a"]) == [Name("a")];
    assert SkipBlanks("a") == "a";
  }

  lemma GetByWords(name: string)
    requires Words(name, ".") != []
    ensures forall t :: Get(t, name) == GetFrom(t, Words(name, "."))
  {
    if '.' !in name {
      WordsAfter(name, "", ".");
      assert name + "" == name;
    }
  }

  // ---------------------------------------------------------------- inheritance, path by path

  // A scalar stands strictly above the end of the path.
  predicate Blocked(t: Table, path: seq<Key>)
    decreases |path|
  {
    |path| > 1 && path[0] in t && (t[path[0]].Str? || Blocked(t[path[0]].t, path[1..]))
  }

  /** Where the source has a scalar, it wins; what the source does not reach is inherited. */
  lemma {:induction false} MergedLeaf(dst: Table, src: Table, path: seq<Key>)
    requires path != []
    ensures var l, d, m := Lookup(src, path), Lookup(dst, path), Lookup(Merge(dst, src), path);
      && (l.Some? && l.value.Str? ==> m == l)
      && (l.None? && !Blocked(src, path) ==> m == d)
      && (Blocked(src, path) ==> m == None)
      && (l.Some? && l.value.Arr? ==>
            m == Some(if d.Some? && d.value.Arr? then Arr(Merge(d.value.t, l.value.t)) else l.value))
    decreases |path|
  {
    var k := path[0];
    if |path| > 1 && k in src && src[k].Arr? {
      if k in dst && dst[k].Arr? {
        MergedLeaf(dst[k].t, src[k].t, path[1..]);
      } else {
        NothingBelow(src[k].t, path[1..]);
      }
    }
  }

  lemma {:induction false} NothingBelow(t: Table, path: seq<Key>)
    requires path != []
    ensures Blocked(t, path) ==> Lookup(t, path) == None
    decreases |path|
  {
    if |path| > 1 && path[0] in t && t[path[0]].Arr? { NothingBelow(t[path[0]].t, path[1..]); }
  }
}
