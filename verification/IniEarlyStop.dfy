/**
The early stop of configs/yaf_config_ini.c: the parse of a file that ends behind the wanted section,
against the parse of the whole file.
*/
module IniEarlyStop {
  import opened Strtok
  import opened IniKeys
  import opened IniTree
  import opened IniParser
  import IniHeader

  // ---------------------------------------------------------------- early stop

  function Child(header: string): string { IniHeader.Read(header).child }

  function Headers(events: seq<Event>): seq<string> {
    if events == [] then []
    else if events[0].Section? then [events[0].header] + Headers(events[1..])
    else Headers(events[1..])
  }

  predicate Opens(header: string, wanted: string) { SameName(wanted, Child(header)) }

  predicate NeverNamed(headers: seq<string>, wanted: string) {
    headers == [] || (Child(headers[0]) != wanted && NeverNamed(headers[1..], wanted))
  }

  // Behind the first header that names the wanted section up to letter case, none names it exactly.
  predicate Decided(headers: seq<string>, wanted: string) {
    headers == [] ||
    if Opens(headers[0], wanted) then NeverNamed(headers[1..], wanted) else Decided(headers[1..], wanted)
  }

  lemma {:induction false} FrozenAtEnd(wanted: Option<string>, s: State, events: seq<Event>)
    requires s.flag == End
    ensures Run(wanted, s, events) == s
  {
    if events != [] { FrozenAtEnd(wanted, s, events[1..]); }
  }

  lemma {:induction false} BrokenForGood(wanted: Option<string>, s: State, events: seq<Event>)
    requires s.broken
    ensures Run(wanted, s, events) == s
  {
    if events != [] { BrokenForGood(wanted, s, events[1..]); }
  }

  lemma SameNameRefl(a: string)
    ensures SameName(a, a)
  {
  }

  /** A header of another name, or an entry elsewhere, leaves the wanted section alone. */
  lemma OneEventKeepsSection(s: State, e: Event, wanted: string)
    requires s.active.Some? && s.active != Some(SymKey(wanted)) && (e.Section? ==> Child(e.header) != wanted)
    ensures var t := Step(None, s, e);
      t.active.Some? && t.active != Some(SymKey(wanted)) && Select(t.arr, wanted) == Select(s.arr, wanted)
  {
    match e
    case Section(header) =>
      if SymKey(Child(header)) == SymKey(wanted) { KeysApart(Child(header), wanted); }
    case Entry(key, value) =>
      if value.Some? {
        SetKeepsKey(s.arr, [s.active.value] + SymKeys(Words(key, ".")), value.value, SymKey(wanted));
      }
  }

  /** Once the wanted section is over, the rest of the file leaves it alone. */
  lemma {:induction false} RestKeepsSection(s: State, events: seq<Event>, wanted: string)
    requires s.active.Some? && s.active != Some(SymKey(wanted)) && NeverNamed(Headers(events), wanted)
    ensures Select(Run(None, s, events).arr, wanted) == Select(s.arr, wanted)
    decreases |events|
  {
    if events != [] {
      OneEventKeepsSection(s, events[0], wanted);
      RestKeepsSection(Step(None, s, events[0]), events[1..], wanted);
    }
  }

  // The parse that stops early selects what the full parse selects.
  ghost predicate Agree(s: State, events: seq<Event>, wanted: string) {
    var early := Run(Some(wanted), s, events);
    !early.broken && Select(early.arr, wanted) == Select(Run(None, s.(flag := Start), events).arr, wanted)
  }

  /** The header that ends the wanted section, and everything behind it. */
  lemma EndAgrees(s: State, events: seq<Event>, wanted: string)
    requires s.flag == Start && !s.broken && events != [] && events[0].Section?
    requires NeverNamed(Headers(events), wanted) && !Run(None, s, events).broken
    ensures Agree(s.(flag := Process), events, wanted)
  {
    var t, u := Step(None, s, events[0]), Step(Some(wanted), s.(flag := Process), events[0]);
    FrozenAtEnd(Some(wanted), u, events[1..]);
    if t.broken { BrokenForGood(None, t, events[1..]); }
    if SymKey(Child(events[0].header)) == SymKey(wanted) { KeysApart(Child(events[0].header), wanted); }
    RestKeepsSection(t, events[1..], wanted);
  }

  /** From the header of the wanted section on, the two parses agree on the section. */
  lemma {:induction false} InsideAgree(s: State, events: seq<Event>, wanted: string)
    requires s.flag == Start && !s.broken && NeverNamed(Headers(events), wanted)
    requires !Run(None, s, events).broken
    ensures Agree(s.(flag := Process), events, wanted)
    decreases |events|
  {
    if events != [] {
      if events[0].Section? {
        EndAgrees(s, events, wanted);
      } else {
        InsideAgree(Step(None, s, events[0]), events[1..], wanted);
      }
    }
  }

  /** If no later header names the wanted section exactly, early stop refines the full parse, from any state. */
  lemma {:induction false} EarlyStopAgrees(s: State, events: seq<Event>, wanted: string)
    requires s.flag == Start && !s.broken && Decided(Headers(events), wanted) && !Run(None, s, events).broken
    ensures Agree(s, events, wanted)
    decreases |events|
  {
    if events != [] {
      var e := events[0];
      var t := Step(None, s, e);
      if t.broken { BrokenForGood(None, t, events[1..]); }
      if e.Section? && Opens(e.header, wanted) {
        InsideAgree(t, events[1..], wanted);
      } else {
        EarlyStopAgrees(t, events[1..], wanted);
      }
    }
  }

  // ---------------------------------------------------------------- the condition is exact

  function Sections(headers: seq<string>): seq<Event> {
    if headers == [] then [] else [Section(headers[0])] + Sections(headers[1..])
  }

  lemma {:induction false} HeadersOfSections(headers: seq<string>)
    ensures Headers(Sections(headers)) == headers
  {
    if headers != [] { HeadersOfSections(headers[1..]); }
  }

  lemma {:induction false} HeadersJoin(a: seq<Event>, b: seq<Event>)
    ensures Headers(a + b) == Headers(a) + Headers(b)
  {
    if a == [] {
      assert a + b == b;
    } else {
      assert (a + b)[1..] == a[1..] + b;
      HeadersJoin(a[1..], b);
    }
  }

  lemma {:induction false} RunJoin(wanted: Option<string>, s: State, a: seq<Event>, b: seq<Event>)
    ensures Run(wanted, s, a + b) == Run(wanted, Run(wanted, s, a), b)
    decreases |a|
  {
    if a == [] {
      assert a + b == b;
    } else {
      assert (a + b)[1..] == a[1..] + b;
      RunJoin(wanted, Step(wanted, s, a[0]), a[1..], b);
    }
  }

  ghost predicate AllEmpty(arr: Table) { forall k :: k in arr ==> arr[k] == Arr(map[]) }

  ghost predicate AllArrays(arr: Table) { forall k :: k in arr ==> arr[k].Arr? }

  lemma {:induction false} InheritOfEmpty(arr: Table, parents: seq<string>)
    requires AllEmpty(arr)
    ensures Inherit(arr, parents) == Some(map[])
  {
    if parents != [] {
      InheritOfEmpty(arr, parents[1..]);
      MergeIntoNothing(map[]);
    }
  }

  lemma {:induction false} InheritOfArrays(arr: Table, parents: seq<string>)
    requires AllArrays(arr)
    ensures Inherit(arr, parents).Some?
  {
    if parents != [] { InheritOfArrays(arr, parents[1..]); }
  }

  /** Sections without entries stay empty, and nothing goes wrong. */
  lemma {:induction false} SectionsStayEmpty(wanted: Option<string>, s: State, headers: seq<string>)
    requires AllEmpty(s.arr) && !s.broken
    ensures var t := Run(wanted, s, Sections(headers)); AllEmpty(t.arr) && !t.broken
    ensures wanted.None? && s.flag == Start ==> Run(wanted, s, Sections(headers)).flag == Start
    decreases |headers|
  {
    if headers != [] {
      InheritOfEmpty(s.arr, IniHeader.Read(headers[0]).parents);
      assert Sections(headers)[1..] == Sections(headers[1..]);
      SectionsStayEmpty(wanted, Step(wanted, s, Section(headers[0])), headers[1..]);
    }
  }

  /** Headers of other names leave the wanted section alone, whatever section is open. */
  lemma {:induction false} SectionsKeep(s: State, headers: seq<string>, wanted: string)
    requires AllArrays(s.arr) && !s.broken && s.flag == Start && NeverNamed(headers, wanted)
    ensures var t := Run(None, s, Sections(headers)); !t.broken && Select(t.arr, wanted) == Select(s.arr, wanted)
    decreases |headers|
  {
    if headers != [] {
      SectionKeeps(s, headers[0], wanted);
      assert Sections(headers)[1..] == Sections(headers[1..]);
      SectionsKeep(Step(None, s, Section(headers[0])), headers[1..], wanted);
    }
  }

  lemma SectionKeeps(s: State, header: string, wanted: string)
    requires AllArrays(s.arr) && !s.broken && s.flag == Start && Child(header) != wanted
    ensures var t := Step(None, s, Section(header));
      AllArrays(t.arr) && !t.broken && t.flag == Start && Select(t.arr, wanted) == Select(s.arr, wanted)
  {
    var parents := IniHeader.Read(header).parents;
    InheritOfArrays(s.arr, parents);
    OtherKept(s.arr, Child(header), Inherit(s.arr, parents).value, wanted);
  }

  lemma OtherKept(arr: Table, child: string, start: Table, wanted: string)
    requires AllArrays(arr) && child != wanted
    ensures var t := arr[SymKey(child) := Arr(start)]; AllArrays(t) && Select(t, wanted) == Select(arr, wanted)
  {
    if SymKey(child) == SymKey(wanted) { KeysApart(child, wanted); }
  }

  // The header k names the wanted section, and none behind it does.
  predicate LastAt(headers: seq<string>, wanted: string, k: nat) {
    k < |headers| && Child(headers[k]) == wanted && NeverNamed(headers[k + 1..], wanted)
  }

  lemma LastShift(headers: seq<string>, wanted: string, j: nat)
    requires headers != [] && LastAt(headers[1..], wanted, j)
    ensures LastAt(headers, wanted, j + 1)
  {
    assert headers[1..][j + 1..] == headers[j + 2..];
  }

  lemma {:induction false} LastNamed(headers: seq<string>, wanted: string) returns (k: nat)
    requires !NeverNamed(headers, wanted)
    ensures LastAt(headers, wanted, k)
  {
    if NeverNamed(headers[1..], wanted) {
      k := 0;
    } else {
      var j := LastNamed(headers[1..], wanted);
      LastShift(headers, wanted, j);
      k := j + 1;
    }
  }

  /** If the wanted section is not decided, some header behind the one that opens it names it last. */
  lemma {:induction false} Undecided(headers: seq<string>, wanted: string) returns (k: nat, f: nat)
    requires !Decided(headers, wanted)
    ensures f < k && LastAt(headers, wanted, k) && Opens(headers[f], wanted)
    decreases |headers|
  {
    hide Opens, LastAt;
    if Opens(headers[0], wanted) {
      k := LastNamed(headers[1..], wanted);
      f := 0;
    } else {
      k, f := Undecided(headers[1..], wanted);
      f := f + 1;
    }
    LastShift(headers, wanted, k);
    k := k + 1;
  }

  /** A header behind the one that opens the wanted section ends the early parse. */
  lemma {:induction false} EndsBehind(s: State, headers: seq<string>, wanted: string, f: nat)
    requires AllEmpty(s.arr) && !s.broken && s.flag == Start && f + 1 < |headers| && Opens(headers[f], wanted)
    ensures Run(Some(wanted), s, Sections(headers)).flag == End
    decreases |headers|
  {
    var t := Step(Some(wanted), s, Section(headers[0]));
    InheritOfEmpty(s.arr, IniHeader.Read(headers[0]).parents);
    assert Sections(headers)[1..] == Sections(headers[1..]);
    if t.flag == Process {
      assert Sections(headers[1..])[1..] == Sections(headers[1..][1..]);
      FrozenAtEnd(Some(wanted), t.(flag := End), Sections(headers[1..][1..]));
    } else {
      EndsBehind(t, headers[1..], wanted, f - 1);
    }
  }

  // One entry under header k, and none elsewhere.
  function OneEntry(headers: seq<string>, k: nat): seq<Event>
    requires k < |headers|
  {
    Sections(headers[..k + 1]) + ([Entry("x", Some("1"))] + Sections(headers[k + 1..]))
  }

  lemma OneEntryHeaders(headers: seq<string>, k: nat)
    requires k < |headers|
    ensures Headers(OneEntry(headers, k)) == headers
  {
    var a, b := headers[..k + 1], headers[k + 1..];
    HeadersAround(a, Entry("x", Some("1")), b);
    assert a + b == headers;
  }

  lemma HeadersAround(a: seq<string>, e: Event, b: seq<string>)
    requires e.Entry?
    ensures Headers(Sections(a) + ([e] + Sections(b))) == a + b
  {
    HeadersJoin(Sections(a), [e] + Sections(b));
    HeadersOfSections(a);
    HeadersOfSections(b);
    assert ([e] + Sections(b))[1..] == Sections(b);
  }

  lemma {:induction false} LastOpened(s: State, headers: seq<string>, k: nat)
    requires AllEmpty(s.arr) && !s.broken && s.flag == Start && k < |headers|
    ensures var t := Run(None, s, Sections(headers[..k + 1]));
      var key := SymKey(Child(headers[k])); t.active == Some(key) && key in t.arr
    decreases k
  {
    var t := Step(None, s, Section(headers[0]));
    InheritOfEmpty(s.arr, IniHeader.Read(headers[0]).parents);
    assert Sections(headers[..k + 1])[1..] == Sections(headers[..k + 1][1..]);
    if k == 0 {
      assert headers[..1][1..] == [];
    } else {
      assert headers[..k + 1][1..] == headers[1..][..k];
      LastOpened(t, headers[1..], k - 1);
    }
  }

  lemma PlainEntry(arr: Table, section: Key, key: string, v: string)
    requires |key| == 1 && key[0] != '.' && section in arr && arr[section] == Arr(map[])
    ensures SetPath(arr, [section] + SymKeys(Words(key, ".")), v) == arr[section := Arr(map[SymKey(key) := Str(v)])]
  {
    WordsAfter(key, "", ".");
    assert key + "" == key && SymKeys([key]) == [SymKey(key)];
    assert ([section] + [SymKey(key)])[1..] == [SymKey(key)] && [SymKey(key)][1..] == [];
    assert SetPath(map[], [SymKey(key)], v) == map[SymKey(key) := Str(v)];
  }

  lemma EarlySelectsEmpty(headers: seq<string>, wanted: string, k: nat, f: nat)
    requires f < k < |headers| && Opens(headers[f], wanted)
    ensures var early := Run(Some(wanted), FRESH, OneEntry(headers, k));
      Select(early.arr, wanted) == None || Select(early.arr, wanted) == Some(Arr(map[]))
  {
    var a, rest := headers[..k + 1], [Entry("x", Some("1"))] + Sections(headers[k + 1..]);
    RunJoin(Some(wanted), FRESH, Sections(a), rest);
    SectionsStayEmpty(Some(wanted), FRESH, a);
    EndsBehind(FRESH, a, wanted, f);
    FrozenAtEnd(Some(wanted), Run(Some(wanted), FRESH, Sections(a)), rest);
  }

  lemma FullSelectsEntry(headers: seq<string>, wanted: string, k: nat)
    requires k < |headers| && Child(headers[k]) == wanted && NeverNamed(headers[k + 1..], wanted)
    ensures var full := Run(None, FRESH, OneEntry(headers, k));
      !full.broken && Select(full.arr, wanted) == Some(Arr(map[SymKey("x") := Str("1")]))
  {
    var a, b := headers[..k + 1], headers[k + 1..];
    RunJoin(None, FRESH, Sections(a), [Entry("x", Some("1"))] + Sections(b));
    SectionsStayEmpty(None, FRESH, a);
    LastOpened(FRESH, headers, k);
    EntryShows(Run(None, FRESH, Sections(a)), wanted, b);
  }

  /** With that one entry the full parse selects a section with it, the early parse an empty one or none. */
  lemma OneEntryTellsApart(headers: seq<string>, wanted: string, k: nat, f: nat)
    requires f < k < |headers| && Child(headers[k]) == wanted && NeverNamed(headers[k + 1..], wanted)
    requires Opens(headers[f], wanted)
    ensures !Run(None, FRESH, OneEntry(headers, k)).broken && !Agree(FRESH, OneEntry(headers, k), wanted)
  {
    EarlySelectsEmpty(headers, wanted, k, f);
    FullSelectsEntry(headers, wanted, k);
    assert SymKey("x") in map[SymKey("x") := Str("1")];
    assert Arr(map[]) != Arr(map[SymKey("x") := Str("1")]);
  }

  lemma EntryShows(s: State, wanted: string, headers: seq<string>)
    requires AllEmpty(s.arr) && !s.broken && s.flag == Start
    requires s.active == Some(SymKey(wanted)) && SymKey(wanted) in s.arr && NeverNamed(headers, wanted)
    ensures var t := Run(None, s, [Entry("x", Some("1"))] + Sections(headers));
      !t.broken && Select(t.arr, wanted) == Some(Arr(map[SymKey("x") := Str("1")]))
  {
    var entry := Entry("x", Some("1"));
    PlainEntry(s.arr, SymKey(wanted), "x", "1");
    assert ([entry] + Sections(headers))[1..] == Sections(headers);
    SectionsKeep(Step(None, s, entry), headers, wanted);
  }

  /**
  Early stop, exactly: for a given list of headers, the parse that stops early selects what the full
  parse selects, whatever entries stand between them, if and only if behind the first header that
  names the wanted section up to letter case none names it exactly.
  */
  lemma EarlyStopExactly(headers: seq<string>, wanted: string)
    ensures (forall events :: Headers(events) == headers && !Run(None, FRESH, events).broken ==> Agree(FRESH, events, wanted))
            <==> Decided(headers, wanted)
  {
    if Decided(headers, wanted) {
      forall events | Headers(events) == headers && !Run(None, FRESH, events).broken
        ensures Agree(FRESH, events, wanted)
      {
        EarlyStopAgrees(FRESH, events, wanted);
      }
    } else {
      var k, f := Undecided(headers, wanted);
      OneEntryHeaders(headers, k);
      OneEntryTellsApart(headers, wanted, k, f);
    }
  }

  lemma ReadPlain(name: string)
    requires |name| == 1 && name[0] !in " :"
    ensures IniHeader.Read(name) == IniHeader.Header(name, [])
  {
    IniHeader.ScanReadsHeader(name);
  }

  /** A section written twice shows why the condition is there: early stop keeps the first, the full parse the last. */
  lemma RepeatedSectionDiffers()
    ensures var events := [Section("a"), Entry("x", Some("1")), Section("a")];
      Select(Run(Some("a"), FRESH, events).arr, "a") != Select(Run(None, FRESH, events).arr, "a")
  {
    FirstSectionKept("a", "x", "1");
    LastSectionKept("a", "x", "1");
    assert SymKey("x") in map[SymKey("x") := Str("1")];
    assert Arr(map[]) != Arr(map[SymKey("x") := Str("1")]);
  }

  lemma FirstSectionKept(name: string, key: string, v: string)
    requires |name| == 1 && name[0] !in " :" && |key| == 1 && key[0] != '.'
    ensures Select(Run(Some(name), FRESH, [Section(name), Entry(key, Some(v)), Section(name)]).arr, name)
            == Some(Arr(map[SymKey(key) := Str(v)]))
  {
    var k := SymKey(name);
    ReadPlain(name);
    SameNameRefl(name);
    PlainEntry(map[k := Arr(map[])], k, key, v);
    assert map[k := Arr(map[])][k := Arr(map[SymKey(key) := Str(v)])] == map[k := Arr(map[SymKey(key) := Str(v)])];
    RunThree(Some(name), FRESH, Section(name), Entry(key, Some(v)), Section(name));
    var entered := State(map[k := Arr(map[])], Some(k), Process, false);
    assert Step(Some(name), FRESH, Section(name)) == entered;
    assert Step(Some(name), entered, Entry(key, Some(v))).arr == map[k := Arr(map[SymKey(key) := Str(v)])];
  }

  lemma LastSectionKept(name: string, key: string, v: string)
    requires |name| == 1 && name[0] !in " :" && |key| == 1 && key[0] != '.'
    ensures Select(Run(None, FRESH, [Section(name), Entry(key, Some(v)), Section(name)]).arr, name) == Some(Arr(map[]))
  {
    var k := SymKey(name);
    ReadPlain(name);
    RunThree(None, FRESH, Section(name), Entry(key, Some(v)), Section(name));
    var filled := Step(None, Step(None, FRESH, Section(name)), Entry(key, Some(v)));
    assert !filled.broken && filled.flag == Start;
    assert Step(None, filled, Section(name)).arr == filled.arr[k := Arr(map[])];
  }

  lemma RunThree(wanted: Option<string>, s: State, e: Event, f: Event, g: Event)
    ensures Run(wanted, s, [e, f, g]) == Step(wanted, Step(wanted, Step(wanted, s, e), f), g)
  {
    var t := Step(wanted, s, e);
    var u := Step(wanted, t, f);
    assert [e, f, g][1..] == [f, g] && [f, g][1..] == [g];
    assert Run(wanted, s, [e, f, g]) == Run(wanted, t, [f, g]);
    assert Run(wanted, t, [f, g]) == Run(wanted, u, [g]);
    assert Run(wanted, u, [g]) == Run(wanted, Step(wanted, u, g), []);
  }
}
