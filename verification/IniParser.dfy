/**
The parser callbacks of configs/yaf_config_ini.c: section inheritance, the flag that stops the
parse early, and the selection of the wanted section.
*/
module IniParser {
  import opened Strtok
  import opened IniKeys
  import opened IniTree
  import IniHeader

  // ---------------------------------------------------------------- inheritance

  // A section that does not exist yet is skipped; one that is not an array is read as if it were (None).
  function Apply(base: Option<Table>, arr: Table, parent: string): Option<Table> {
    if base.None? then None
    else if SymKey(parent) !in arr then base
    else if arr[SymKey(parent)].Str? then None
    else Some(Merge(base.value, arr[SymKey(parent)].t))
  }

  /** What a section starts from: its parents merged, the first one last, so that it wins. */
  function Inherit(arr: Table, parents: seq<string>): Option<Table> {
    if parents == [] then Some(map[]) else Apply(Inherit(arr, parents[1..]), arr, parents[0])
  }

  /** A parent that does not exist changes nothing, wherever it stands. */
  lemma {:induction false} MissingParents(arr: Table, front: seq<string>, missing: string, back: seq<string>)
    requires SymKey(missing) !in arr
    ensures Inherit(arr, front + [missing] + back) == Inherit(arr, front + back)
  {
    if front == [] {
      assert [] + [missing] + back == [missing] + back && [] + back == back && ([missing] + back)[1..] == back;
    } else {
      assert (front + [missing] + back)[1..] == front[1..] + [missing] + back && (front + back)[1..] == front[1..] + back;
      MissingParents(arr, front[1..], missing, back);
    }
  }

  /** Inheriting goes wrong exactly if some parent exists and is no section. */
  lemma {:induction false} BrokenParents(arr: Table, parents: seq<string>)
    ensures Inherit(arr, parents).None? <==>
            exists k :: 0 <= k < |parents| && SymKey(parents[k]) in arr && arr[SymKey(parents[k])].Str?
  {
    if parents != [] {
      var more := parents[1..];
      BrokenParents(arr, more);
      assert forall k :: 0 <= k < |more| ==> more[k] == parents[k + 1];
      if Inherit(arr, more).None? {
        var k :| 0 <= k < |more| && SymKey(more[k]) in arr && arr[SymKey(more[k])].Str?;
        assert parents[k + 1] == more[k];
      }
    }
  }

  // The scan reads in front of the buffer unless something stops it there.
  predicate InBuffer(header: string) {
    var s1 := LTrim(header, " ");
    |s1| <= 1 || |s1| < |header| || RTrim(s1, " :") != ""
  }

  lemma Consed(front: seq<string>, name: string, done: seq<string>)
    ensures front + [name] + done == front + ([name] + done) && ([name] + done)[1..] == done
  {
  }

  /** One round of the loop over the last colon: the name behind it, and the text in front of it. */
  method LastParent(b: array<char>, seg: nat, section: nat) returns (name: string)
    requires 0 < seg <= b.Length && Ends(b[..], seg) && b[seg - 1] == NUL
    requires ':' in CText(b[..], seg) && section == seg + IniHeader.LastColon(CText(b[..], seg))
    modifies b
    ensures Ends(b[..], seg) && b[seg - 1] == NUL && |CText(b[..], seg)| < old(|CText(b[..], seg)|)
    ensures IniHeader.Parents(old(CText(b[..], seg))) == IniHeader.Parents(CText(b[..], seg)) + [name]
  {
    ghost var text, before := CText(b[..], seg), b[..seg];
    ParentsFromEnd(text, section - seg);
    var r := IniHeader.CutAt(b, seg, section);
    assert b[seg - 1] == b[..seg][seg - 1] == before[seg - 1];
    name := ReadString(b, r);
  }

  lemma ParentsFromEnd(text: string, j: nat)
    requires ':' in text && j == IniHeader.LastColon(text)
    ensures |RTrim(text[..j], " :")| < |text|
    ensures IniHeader.Parents(text) == IniHeader.Parents(RTrim(text[..j], " :")) + [LTrim(text[j..], " :")]
  {
    RTrimShorter(text[..j], " :");
  }

  /** The trimming in front of the search for colons. */
  method TrimmedHeader(key: string) returns (b: array<char>, skey: nat)
    requires NUL !in key && InBuffer(key)
    ensures fresh(b) && skey <= b.Length && Ends(b[..], skey) && CText(b[..], skey) == Trimmed(key)
  {
    b := Strdup(key);
    ghost var orig := b[..];
    skey := IniHeader.SkipHead(b, 0, " ");
    var len := |key| - skey;
    ghost var s1 := CText(b[..], skey);
    RestOfKey(b[..], key, skey);
    if len > 1 {
      if skey == 0 { assert b[..] == orig; }
      TrimEnd(b, skey, |key|);
    }
  }

  method TrimEnd(b: array<char>, skey: nat, end: nat)
    requires skey <= end < b.Length && b[end] == NUL && CText(b[..], skey) == b[skey..end] && NUL !in b[skey..end]
    requires RTrim(b[skey..end], " :") != "" || (skey > 0 && b[skey - 1] !in " :")
    modifies b
    ensures Ends(b[..], skey) && CText(b[..], skey) == RTrim(old(CText(b[..], skey)), " :")
  {
    ghost var w := RTrim(b[skey..end], " :");
    ghost var tail := b[end..];
    assert tail[0] == NUL;
    IniHeader.CutFront(b, skey, end);
    assert b[end] == b[end..][0] == tail[0];
    CTextIs(b[..], skey, w);
  }

  function Trimmed(key: string): string {
    var s1 := LTrim(key, " ");
    if |s1| > 1 then RTrim(s1, " :") else s1
  }

  lemma RestOfKey(b: seq<char>, key: string, p: nat)
    requires NUL !in key && |b| == |key| + 1 && p < |b| && b[p..] == (key + [NUL])[p..]
    ensures CText(b, p) == key[p..] == b[p..|key|]
  {
    assert forall k :: p <= k < |b| ==> b[k] == b[p..][k - p] == (key + [NUL])[k];
    CTextIs(b, p, key[p..]);
  }

  lemma FirstPieceStops(key: string)
    ensures var s2 := Trimmed(key);
      ':' in s2 ==> var i := IniHeader.FirstColon(s2); i == 0 || RTrim(s2[..i], " :") != ""
  {
    var s1, s2 := LTrim(key, " "), Trimmed(key);
    LTrimFront(key, " ");
    RTrimShorter(s1, " :");
    if ':' in s2 {
      var i := IniHeader.FirstColon(s2);
      if i > 0 {
        assert s2[..i][0] == s2[0] == s1[0];
        RTrimKeepsFront(s2[..i], " :");
      }
    }
  }

  /** The first parent decides where it has a scalar; where it has nothing, the parents behind it do. */
  lemma FirstParentWins(arr: Table, parents: seq<string>, path: seq<Key>)
    requires parents != [] && Inherit(arr, parents).Some? && path != []
    requires SymKey(parents[0]) in arr && arr[SymKey(parents[0])].Arr?
    ensures var t, p, rest := Inherit(arr, parents).value, arr[SymKey(parents[0])].t, Inherit(arr, parents[1..]);
      && rest.Some?
      && (Lookup(p, path).Some? && Lookup(p, path).value.Str? ==> Lookup(t, path) == Lookup(p, path))
      && (Lookup(p, path).None? && !Blocked(p, path) ==> Lookup(t, path) == Lookup(rest.value, path))
  {
    MergedLeaf(Inherit(arr, parents[1..]).value, arr[SymKey(parents[0])].t, path);
  }

  // ---------------------------------------------------------------- the callbacks over a file

  datatype Flag = Start | Process | End

  // An entry without a value is reported with none.
  datatype Event = Section(header: string) | Entry(key: string, value: Option<string>)

  // The configuration, the section that entries go to, the flag, and whether a parent was no array.
  datatype State = State(arr: Table, active: Option<Key>, flag: Flag, broken: bool)

  const FRESH := State(map[], None, Start, false)

  predicate Wants(wanted: Option<string>, child: string) { wanted.Some? && SameName(wanted.value, child) }

  function Step(wanted: Option<string>, s: State, e: Event): State {
    if s.flag == End || s.broken then s
    else match e
      case Section(header) =>
        var h := IniHeader.Read(header);
        var start := Inherit(s.arr, h.parents);
        if s.flag == Process then s.(flag := End)
        else if start.None? then s.(broken := true)
        else State(s.arr[SymKey(h.child) := Arr(start.value)], Some(SymKey(h.child)),
                   if Wants(wanted, h.child) then Process else Start, false)
      case Entry(key, value) =>
        var base := if s.active.Some? then [s.active.value] else [];
        if value.None? then s
        else s.(arr := SetPath(s.arr, base + SymKeys(Words(key, ".")), value.value))
  }

  function Run(wanted: Option<string>, s: State, events: seq<Event>): State
    decreases |events|
  {
    if events == [] then s else Run(wanted, Step(wanted, s, events[0]), events[1..])
  }

  /** The section that becomes the configuration in the end. */
  function Select(arr: Table, section: string): Option<Val> {
    if SymKey(section) in arr then Some(arr[SymKey(section)]) else None
  }
}
