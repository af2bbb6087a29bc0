/**
yaf_loader.c: the local namespaces kept in one colon-separated string, and the scan that looks a
class prefix up in it.
*/
module Loader {
  import opened Strtok

  // ---------------------------------------------------------------- registration

  /** The string after one more registration. */
  function Registered(ns: Option<string>, prefix: string): Option<string> {
    if ns.None? then Some(prefix) else Some(ns.value + ":" + prefix)
  }

  function RegisteredAll(ns: Option<string>, prefixes: seq<string>): Option<string>
    decreases |prefixes|
  {
    if prefixes == [] then ns else RegisteredAll(Registered(ns, prefixes[0]), prefixes[1..])
  }

  // ---------------------------------------------------------------- the scan

  // The list goes on with a separator, or ends.
  predicate Closes(ns: string, i: nat) { i == |ns| || (i < |ns| && ns[i] == ':') }

  predicate ElementAt(ns: string, prefix: string, i: nat) {
    OccursAt(ns, prefix, i) && (i == 0 || ns[i - 1] == ':') && Closes(ns, i + |prefix|)
  }

  ghost predicate IsElement(ns: string, prefix: string) { exists i: nat :: ElementAt(ns, prefix, i) }

  // Some element ends in the prefix twice in a row.
  ghost predicate EndsTwice(ns: string, prefix: string) { exists i: nat :: TwiceAt(ns, prefix, i) }

  predicate TwiceAt(ns: string, prefix: string, i: nat) {
    OccursAt(ns, prefix, i) && OccursAt(ns, prefix, i + |prefix|) && Closes(ns, i + 2 * |prefix|)
  }

  /** The loop from position i on: it takes an occurrence there for the start of an element, whatever stands before it. */
  function Scan(ns: string, prefix: string, i: nat): bool
    requires i <= |ns| && prefix != ""
    decreases |ns| - i
  {
    var found := Find(ns, prefix, i);
    if found.None? then false
    else
      var pos := found.value;
      if (pos == i || ns[pos - 1] == ':') && Closes(ns, pos + |prefix|) then true
      else Scan(ns, prefix, pos + |prefix|)
  }

  /** A colon-free prefix cannot reach over the start of an element. */
  lemma StopsBefore(ns: string, prefix: string, pos: nat, i: nat)
    requires ':' !in prefix && OccursAt(ns, prefix, pos) && ElementAt(ns, prefix, i) && pos < i
    ensures pos + |prefix| <= i
  {
    var part := ns[pos..pos + |prefix|];
    assert forall k :: 0 <= k < |part| ==> part[k] == ns[pos + k];
    assert forall k :: 0 <= k < |part| ==> part[k] in prefix;
  }

  /** The scan never misses an element, although it skips by the length of the prefix. */
  lemma {:induction false} ScanFindsElement(ns: string, prefix: string, i: nat, at: nat)
    requires prefix != "" && ':' !in prefix && ElementAt(ns, prefix, at) && i <= at
    ensures Scan(ns, prefix, i)
    decreases |ns| - i
  {
    FindMeans(ns, prefix, i);
    var found := Find(ns, prefix, i);
    assert OccursAt(ns, prefix, at);
    if found.Some? && found.value < at {
      StopsBefore(ns, prefix, found.value, at);
      ScanFindsElement(ns, prefix, found.value + |prefix|, at);
    }
  }

  // Counting occurrences from position i on, from left to right and without overlaps, counts the one at pos.
  predicate Counted(ns: string, prefix: string, i: nat, pos: nat)
    requires i <= |ns| && prefix != ""
    decreases |ns| - i
  {
    var found := Find(ns, prefix, i);
    found.Some? && (found.value == pos || Counted(ns, prefix, found.value + |prefix|, pos))
  }

  // The last two occurrences counted in some element stand next to each other at its end.
  ghost predicate CountedTwice(ns: string, prefix: string)
    requires prefix != ""
  {
    exists pos: nat :: Counted(ns, prefix, 0, pos) && CountedPair(ns, prefix, pos)
  }

  predicate CountedPair(ns: string, prefix: string, pos: nat)
    requires prefix != ""
  {
    Counted(ns, prefix, 0, pos + |prefix|) && Closes(ns, pos + 2 * |prefix|)
  }

  lemma {:induction false} CountedOccurs(ns: string, prefix: string, i: nat, pos: nat)
    requires i <= |ns| && prefix != "" && Counted(ns, prefix, i, pos)
    ensures i <= pos && OccursAt(ns, prefix, pos)
    decreases |ns| - i
  {
    FindMeans(ns, prefix, i);
    var f := Find(ns, prefix, i).value;
    if f != pos { CountedOccurs(ns, prefix, f + |prefix|, pos); }
  }

  lemma {:induction false} CountedOn(ns: string, prefix: string, i: nat, pos: nat)
    requires i <= |ns| && prefix != "" && Counted(ns, prefix, i, pos)
    ensures pos + |prefix| <= |ns| && forall next :: Counted(ns, prefix, pos + |prefix|, next) ==> Counted(ns, prefix, i, next)
    ensures Scan(ns, prefix, pos + |prefix|) ==> Scan(ns, prefix, i)
    decreases |ns| - i
  {
    var f := Find(ns, prefix, i).value;
    if f != pos { CountedOn(ns, prefix, f + |prefix|, pos); }
  }

  /** What the scan takes for an element is one, or ends in two counted occurrences. */
  lemma {:induction false} ScanIsElementOrTwice(ns: string, prefix: string, i: nat)
    requires i <= |ns| && prefix != "" && Scan(ns, prefix, i)
    requires i == 0 || (i >= |prefix| && Counted(ns, prefix, 0, i - |prefix|))
    ensures IsElement(ns, prefix) || CountedTwice(ns, prefix)
    decreases |ns| - i
  {
    hide IsElement, CountedTwice;
    var pos := Find(ns, prefix, i).value;
    if i > 0 { CountedOn(ns, prefix, 0, i - |prefix|); }
    assert Counted(ns, prefix, 0, pos) by { assert Counted(ns, prefix, i, pos); }
    if (pos == i || ns[pos - 1] == ':') && Closes(ns, pos + |prefix|) {
      AcceptedAt(ns, prefix, i, pos);
    } else {
      ScanIsElementOrTwice(ns, prefix, pos + |prefix|);
    }
  }

  lemma AcceptedAt(ns: string, prefix: string, i: nat, pos: nat)
    requires i <= |ns| && prefix != "" && Find(ns, prefix, i) == Some(pos) && Counted(ns, prefix, 0, pos)
    requires i == 0 || (i >= |prefix| && Counted(ns, prefix, 0, i - |prefix|))
    requires (pos == i || ns[pos - 1] == ':') && Closes(ns, pos + |prefix|)
    ensures IsElement(ns, prefix) || CountedTwice(ns, prefix)
  {
    FindMeans(ns, prefix, i);
    if pos == 0 || ns[pos - 1] == ':' {
      assert ElementAt(ns, prefix, pos);
    } else {
      assert CountedPair(ns, prefix, i - |prefix|);
    }
  }

  lemma ScanTakesTwice(ns: string, prefix: string)
    requires prefix != "" && CountedTwice(ns, prefix)
    ensures Scan(ns, prefix, 0)
  {
    var pos: nat :| Counted(ns, prefix, 0, pos) && CountedPair(ns, prefix, pos);
    CountedOccurs(ns, prefix, 0, pos + |prefix|);
    CountedOn(ns, prefix, 0, pos);
    FindIs(ns, prefix, pos + |prefix|, pos + |prefix|);
  }

  /**
  What the scan answers, exactly, for every list and every prefix without a colon: yes if the prefix
  is an element, or if the left-to-right count of its occurrences in some element ends in two adjacent
  ones.  So it is right about membership if and only if the latter happens only for elements.
  */
  lemma ScanExactly(ns: string, prefix: string)
    requires prefix != "" && ':' !in prefix
    ensures Scan(ns, prefix, 0) <==> IsElement(ns, prefix) || CountedTwice(ns, prefix)
    ensures (Scan(ns, prefix, 0) <==> IsElement(ns, prefix)) <==> (IsElement(ns, prefix) || !CountedTwice(ns, prefix))
  {
    if IsElement(ns, prefix) {
      var at: nat :| ElementAt(ns, prefix, at);
      ScanFindsElement(ns, prefix, 0, at);
    }
    if Scan(ns, prefix, 0) { ScanIsElementOrTwice(ns, prefix, 0); }
    if CountedTwice(ns, prefix) { ScanTakesTwice(ns, prefix); }
  }

  // No proper prefix of the prefix is a suffix of it, so that its occurrences never overlap.
  predicate Borderless(prefix: string) {
    forall k :: 0 < k < |prefix| ==> prefix[k..] != prefix[..|prefix| - k]
  }

  lemma Overlap(ns: string, prefix: string, i: nat, k: nat)
    ensures 0 < k < |prefix| && OccursAt(ns, prefix, i) && OccursAt(ns, prefix, i + k) ==> prefix[k..] == prefix[..|prefix| - k]
  {
    if 0 < k < |prefix| && OccursAt(ns, prefix, i) && OccursAt(ns, prefix, i + k) {
      var n := |prefix|;
      assert ns[i..i + n][k..] == ns[i + k..i + n] == ns[i + k..i + k + n][..n - k];
    }
  }

  lemma NoOverlap(ns: string, prefix: string, i: nat, pos: nat)
    requires Borderless(prefix) && OccursAt(ns, prefix, i) && OccursAt(ns, prefix, pos) && i < pos
    ensures i + |prefix| <= pos
  {
    Overlap(ns, prefix, i, pos - i);
  }

  lemma {:induction false} AllCounted(ns: string, prefix: string, i: nat, pos: nat)
    requires prefix != "" && Borderless(prefix) && OccursAt(ns, prefix, pos) && i <= pos
    ensures Counted(ns, prefix, i, pos)
    decreases |ns| - i
  {
    FindMeans(ns, prefix, i);
    var found := Find(ns, prefix, i);
    if found.Some? && found.value < pos {
      NoOverlap(ns, prefix, found.value, pos);
      AllCounted(ns, prefix, found.value + |prefix|, pos);
    }
  }

  lemma CountedIsTwice(ns: string, prefix: string)
    requires prefix != "" && CountedTwice(ns, prefix)
    ensures EndsTwice(ns, prefix)
  {
    var pos: nat :| Counted(ns, prefix, 0, pos) && CountedPair(ns, prefix, pos);
    CountedOccurs(ns, prefix, 0, pos);
    CountedOccurs(ns, prefix, 0, pos + |prefix|);
    assert TwiceAt(ns, prefix, pos);
  }

  lemma TwiceIsCounted(ns: string, prefix: string)
    requires prefix != "" && Borderless(prefix) && EndsTwice(ns, prefix)
    ensures CountedTwice(ns, prefix)
  {
    var i: nat :| TwiceAt(ns, prefix, i);
    AllCounted(ns, prefix, 0, i);
    AllCounted(ns, prefix, 0, i + |prefix|);
    assert CountedPair(ns, prefix, i);
  }

  /** For a prefix that cannot overlap itself the condition is that no other element ends in it twice. */
  lemma ScanIsMembership(ns: string, prefix: string)
    requires prefix != "" && ':' !in prefix && Borderless(prefix)
    ensures (Scan(ns, prefix, 0) <==> IsElement(ns, prefix)) <==> (IsElement(ns, prefix) || !EndsTwice(ns, prefix))
  {
    ScanExactly(ns, prefix);
    if CountedTwice(ns, prefix) { CountedIsTwice(ns, prefix); }
    if EndsTwice(ns, prefix) { TwiceIsCounted(ns, prefix); }
  }

  /** The exception is real: after registering only "foofoo", "foo" is taken for local. */
  lemma DoubledPrefixIsTaken()
    ensures Scan("foofoo", "foo", 0) && !IsElement("foofoo", "foo")
  {
    var ns, p := "foofoo", "foo";
    assert OccursAt(ns, p, 0) && OccursAt(ns, p, 3);
    assert Find(ns, p, 0) == Some(0) && Find(ns, p, 3) == Some(3);
    assert Scan(ns, p, 0) == Scan(ns, p, 3);
    forall i: nat ensures !ElementAt(ns, p, i) {
    }
  }

  // ---------------------------------------------------------------- any sequence of registrations

  lemma {:induction false} ElementStays(ns: string, prefix: string, at: nat, more: seq<string>)
    requires ElementAt(ns, prefix, at)
    ensures RegisteredAll(Some(ns), more).Some? && ElementAt(RegisteredAll(Some(ns), more).value, prefix, at)
    decreases |more|
  {
    if more != [] {
      var longer := ns + ":" + more[0];
      assert longer[at..at + |prefix|] == ns[at..at + |prefix|];
      assert at > 0 ==> longer[at - 1] == ns[at - 1];
      assert at + |prefix| < |longer| && (at + |prefix| < |ns| ==> longer[at + |prefix|] == ns[at + |prefix|]);
      ElementStays(longer, prefix, at, more[1..]);
    }
  }

  /** Whatever is registered before and after it, a registered prefix is found. */
  lemma {:induction false} RegisteredIsFound(ns: Option<string>, prefixes: seq<string>, k: nat)
    requires k < |prefixes| && prefixes[k] != "" && ':' !in prefixes[k]
    ensures var all := RegisteredAll(ns, prefixes); all.Some? && Scan(all.value, prefixes[k], 0)
    decreases k
  {
    var next := Registered(ns, prefixes[0]);
    if k > 0 {
      RegisteredIsFound(next, prefixes[1..], k - 1);
    } else {
      var p, s := prefixes[0], next.value;
      var at := |s| - |p|;
      assert s[at..at + |p|] == p;
      assert ElementAt(s, p, at);
      ElementStays(s, p, at, prefixes[1..]);
      ScanFindsElement(RegisteredAll(next, prefixes[1..]).value, p, 0, at);
    }
  }

  predicate ColonFree(prefixes: seq<string>) { forall k :: 0 <= k < |prefixes| ==> ':' !in prefixes[k] }

  lemma Covers(h: string, n: string, i: nat, j: nat)
    requires i <= j < i + |n|
    ensures OccursAt(h, n, i) ==> h[j] in n
  {
    if OccursAt(h, n, i) { assert h[i..i + |n|][j - i] == h[j]; }
  }

  lemma ElementOfLonger(ns: string, last: string, prefix: string, i: nat)
    requires ':' !in prefix && ':' !in last
    ensures ElementAt(ns + ":" + last, prefix, i) <==> ElementAt(ns, prefix, i) || (i == |ns| + 1 && prefix == last)
  {
    var longer := ns + ":" + last;
    var n := |prefix|;
    assert longer[|ns|] == ':';
    if i + n <= |ns| {
      assert longer[i..i + n] == ns[i..i + n];
      assert i > 0 ==> longer[i - 1] == ns[i - 1];
      assert i + n < |ns| ==> longer[i + n] == ns[i + n];
    } else if i <= |ns| {
      Covers(longer, prefix, i, |ns|);
    } else {
      assert forall k :: |ns| < k < |longer| ==> longer[k] == last[k - |ns| - 1];
      if i == |ns| + 1 && i + n == |longer| { assert longer[i..i + n] == last; }
    }
  }

  lemma IsElementOfLonger(ns: string, last: string, prefix: string)
    requires ':' !in prefix && ':' !in last
    ensures IsElement(ns + ":" + last, prefix) <==> IsElement(ns, prefix) || prefix == last
  {
    var longer := ns + ":" + last;
    forall i: nat ensures ElementAt(longer, prefix, i) <==> ElementAt(ns, prefix, i) || (i == |ns| + 1 && prefix == last) {
      ElementOfLonger(ns, last, prefix, i);
    }
    hide ElementAt;
    if prefix == last { assert ElementAt(longer, prefix, |ns| + 1); }
    if IsElement(ns, prefix) {
      var i: nat :| ElementAt(ns, prefix, i);
      assert ElementAt(longer, prefix, i);
    }
  }

  lemma IsOnlyElement(only: string, prefix: string)
    requires ':' !in prefix && ':' !in only
    ensures IsElement(only, prefix) <==> prefix == only
  {
    if prefix == only { assert only[0..|prefix|] == prefix && ElementAt(only, prefix, 0); }
    forall i: nat ensures ElementAt(only, prefix, i) ==> prefix == only {
      if ElementAt(only, prefix, i) { assert only[0..|only|] == only; }
    }
  }

  /** The elements of the string are those it held and those that were registered. */
  lemma {:induction false} ElementsAreRegistered(ns: string, prefixes: seq<string>, prefix: string)
    requires ':' !in prefix && ColonFree(prefixes)
    ensures var all := RegisteredAll(Some(ns), prefixes);
      all.Some? && (IsElement(all.value, prefix) <==> IsElement(ns, prefix) || prefix in prefixes)
    decreases |prefixes|
  {
    hide IsElement;
    if prefixes != [] {
      IsElementOfLonger(ns, prefixes[0], prefix);
      ElementsAreRegistered(ns + ":" + prefixes[0], prefixes[1..], prefix);
      assert prefixes == [prefixes[0]] + prefixes[1..];
    }
  }

  // ---------------------------------------------------------------- the methods

  /** What stands in front of the first "_", else of the first "\\", else the whole name. */
  function PrefixOf(name: string): string {
    var u, v := Span(name, "_"), Span(name, "\\");
    if u < |name| then name[..u] else name[..v]
  }

  /** The part that is looked up: up to the first "_"; without one, up to the first backslash. */
  lemma PrefixIs(prefix: string, rest: string)
    ensures '_' !in prefix ==> PrefixOf(prefix + "_" + rest) == prefix
    ensures '_' !in prefix && '_' !in rest && '\\' !in prefix ==> PrefixOf(prefix + "\\" + rest) == prefix
    ensures '_' !in prefix && '\\' !in prefix ==> PrefixOf(prefix) == prefix
  {
    assert prefix + "_" + rest == prefix + ("_" + rest) && prefix + "\\" + rest == prefix + ("\\" + rest);
    if '_' !in prefix {
      SpanUpTo(prefix, "_" + rest, "_");
      assert (prefix + ("_" + rest))[..|prefix|] == prefix;
      if '\\' !in prefix {
        SpanUpTo(prefix, "\\" + rest, "\\");
        assert (prefix + ("\\" + rest))[..|prefix|] == prefix;
        SpanUpTo(prefix, "", "\\");
        assert prefix + "" == prefix;
        if '_' !in rest { SpanUpTo(prefix + ("\\" + rest), "", "_"); }
      }
    }
  }

  // What the lookup of a class answers.
  predicate IsLocal(ns: Option<string>, name: string)
    requires ns.Some? ==> PrefixOf(name) != ""
  {
    ns.Some? && Scan(ns.value, PrefixOf(name), 0)
  }

  /** A class behind a registered prefix is local, whatever was registered besides. */
  lemma RegisteredClassIsLocal(ns: Option<string>, prefixes: seq<string>, k: nat, rest: string)
    requires k < |prefixes| && prefixes[k] != "" && ':' !in prefixes[k] && '_' !in prefixes[k]
    ensures PrefixOf(prefixes[k] + "_" + rest) == prefixes[k]
    ensures IsLocal(RegisteredAll(ns, prefixes), prefixes[k] + "_" + rest)
  {
    PrefixIs(prefixes[k], rest);
    RegisteredIsFound(ns, prefixes, k);
  }

  /**
  From the first registration on: a class is local exactly if its prefix was registered, or if the count
  of its occurrences ends in two adjacent ones in some element; nothing is local before.
  */
  lemma LocalExactly(prefixes: seq<string>, name: string)
    requires ColonFree(prefixes) && PrefixOf(name) != "" && ':' !in PrefixOf(name)
    ensures var all := RegisteredAll(None, prefixes); var prefix := PrefixOf(name);
      IsLocal(all, name) <==> prefix in prefixes || (all.Some? && CountedTwice(all.value, prefix))
  {
    hide Scan, IsElement, CountedTwice, PrefixOf;
    if prefixes != [] {
      var prefix := PrefixOf(name);
      IsOnlyElement(prefixes[0], prefix);
      ElementsAreRegistered(prefixes[0], prefixes[1..], prefix);
      assert prefixes == [prefixes[0]] + prefixes[1..];
      ScanExactly(RegisteredAll(None, prefixes).value, prefix);
    }
  }

  class NamespaceTable {
    var local: Option<string>

    constructor ()
      ensures local == None
    {
      local := None;
    }

    method RegisterSingle(prefix: string)
      modifies this
      ensures local == Registered(old(local), prefix)
    {
      if local.Some? {
        local := Some(local.value + ":" + prefix);
      } else {
        local := Some(prefix);
      }
    }

    method RegisterMulti(prefixes: seq<string>)
      modifies this
      ensures local == RegisteredAll(old(local), prefixes)
    {
      ghost var was := local;
      for k := 0 to |prefixes|
        invariant RegisteredAll(local, prefixes[k..]) == RegisteredAll(was, prefixes)
      {
        assert prefixes[k..][1..] == prefixes[k + 1..];
        RegisterSingle(prefixes[k]);
      }
    }

    /**
    The lookup cuts the class name at its separator while it scans, and puts the separator back.
    An empty prefix would make it scan for ever.
    */
    method IsLocalNamespace(name: array<char>) returns (local_: bool)
      requires Ends(name[..], 0) && (local.Some? ==> PrefixOf(CText(name[..], 0)) != "")
      modifies name
      ensures name[..] == old(name[..])
      ensures local_ == IsLocal(local, old(CText(name[..], 0)))
    {
      if local.None? {
        return false;
      }
      ghost var was, text := name[..], CText(name[..], 0);
      CTextShape(name[..], 0);
      var pos := FirstChar(name, 0, '_');
      var backup := pos;
      var origChar := '_';
      if name[pos] == NUL {
        pos := FirstChar(name, 0, '\\');
        backup := pos;
        origChar := '\\';
      }
      var cut := name[pos] != NUL;
      if cut {
        name[pos] := NUL;
      }
      assert name[..pos] == was[..pos];
      CTextIs(name[..], 0, was[..pos]);
      var prefix := ReadString(name, 0);
      assert prefix == PrefixOf(text);
      local_ := ScanLoop(local.value, prefix);
      if cut {
        name[backup] := origChar;
      }
      assert name[..] == was;
    }
  }

  method ScanLoop(ns: string, prefix: string) returns (local_: bool)
    requires prefix != ""
    ensures local_ == Scan(ns, prefix, 0)
  {
    var at := 0;
    while true
      invariant 0 <= at <= |ns| && Scan(ns, prefix, at) == Scan(ns, prefix, 0)
      decreases |ns| - at
    {
      var found := StrStr(ns, prefix, at);
      if found.None? {
        return false;
      }
      var pos := found.value;
      if pos == at && Closes(ns, pos + |prefix|) {
        return true;
      } else if pos > 0 && ns[pos - 1] == ':' && Closes(ns, pos + |prefix|) {
        return true;
      }
      at := pos + |prefix|;
    }
  }
}
