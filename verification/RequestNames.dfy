/**
yaf_dispatcher_fix_default: module, controller and action names in one spelling, with defaults for
the empty ones.
*/
module RequestNames {
  import opened Strtok

  function Upper(c: char): char { if 'a' <= c <= 'z' then (c as int - 32) as char else c }

  function LowerAll(s: string): string { seq(|s|, i requires 0 <= i < |s| => Lower(s[i])) }

  /** A module: one capital in front. */
  function ModuleName(s: string): string {
    if s == "" then "" else [Upper(Lower(s[0]))] + LowerAll(s[1..])
  }

  predicate IsSep(c: char) { c == '_' || c == '\\' }

  /** The loop over a controller name: a separator lifts the character behind it, and both are passed. */
  function Lifted(s: string): string
    decreases |s|
  {
    if s == "" then ""
    else if IsSep(s[0]) && |s| > 1 then [s[0], Upper(s[1])] + Lifted(s[2..])
    else [s[0]] + Lifted(s[1..])
  }

  function ControllerName(s: string): string {
    Lifted(ModuleName(s))
  }

  // ---------------------------------------------------------------- in place

  method ToLower(p: array<char>)
    modifies p
    ensures p[..] == LowerAll(old(p[..]))
  {
    ghost var s := p[..];
    for k := 0 to p.Length
      invariant forall j :: 0 <= j < k ==> p[j] == Lower(s[j])
      invariant forall j :: k <= j < p.Length ==> p[j] == s[j]
    {
      p[k] := Lower(p[k]);
    }
  }

  method Copy(s: string) returns (p: array<char>)
    ensures fresh(p) && p[..] == s
  {
    p := new char[|s|](k requires 0 <= k < |s| => s[k]);
  }

  method FixModule(s: string) returns (name: string)
    requires s != ""
    ensures name == ModuleName(s)
  {
    var p := Copy(s);
    ToLower(p);
    p[0] := Upper(p[0]);
    name := p[..];
  }

  method FixController(s: string) returns (name: string)
    requires s != ""
    ensures name == ControllerName(s)
  {
    var p := Copy(s);
    ToLower(p);
    p[0] := Upper(p[0]);
    assert p[..] == ModuleName(s);
    Lift(p);
    name := p[..];
  }

  method Lift(p: array<char>)
    modifies p
    ensures p[..] == Lifted(old(p[..]))
  {
    ghost var start := p[..];
    var q := 0;
    assert start[0..] == start;
    while q < p.Length
      invariant 0 <= q <= p.Length && p[q..] == start[q..]
      invariant p[..q] + Lifted(start[q..]) == Lifted(start)
      decreases p.Length - q
    {
      q := LiftAt(p, q, start);
    }
    assert p[..q] == p[..] && p[..] + "" == p[..];
  }

  /** One round of the loop: one character is passed, or two. */
  method LiftAt(p: array<char>, q: nat, ghost start: string) returns (next: nat)
    requires |start| == p.Length && q < p.Length && p[q..] == start[q..]
    requires p[..q] + Lifted(start[q..]) == Lifted(start)
    modifies p
    ensures q < next <= p.Length && p[next..] == start[next..]
    ensures p[..next] + Lifted(start[next..]) == Lifted(start)
  {
    ghost var before, rest := p[..q], start[q..];
    assert p[q] == p[q..][0] == rest[0];
    if IsSep(p[q]) && q + 1 < p.Length {
      assert p[q + 1] == p[q..][1] == rest[1];
      LiftTwo(before, rest);
      p[q + 1] := Upper(p[q + 1]);
      assert p[..q + 2] == before + [rest[0], Upper(rest[1])];
      assert p[q + 2..] == start[q + 2..] == rest[2..];
      next := q + 2;
    } else {
      LiftOne(before, rest);
      assert p[..q + 1] == before + [rest[0]];
      assert p[q + 1..] == p[q..][1..] == start[q + 1..] == rest[1..];
      next := q + 1;
    }
  }

  lemma LiftTwo(before: string, rest: string)
    requires |rest| > 1 && IsSep(rest[0])
    ensures before + Lifted(rest) == before + [rest[0], Upper(rest[1])] + Lifted(rest[2..])
  {
    var two, more := [rest[0], Upper(rest[1])], Lifted(rest[2..]);
    assert before + (two + more) == before + two + more;
  }

  lemma LiftOne(before: string, rest: string)
    requires rest != "" && !(IsSep(rest[0]) && |rest| > 1)
    ensures before + Lifted(rest) == before + [rest[0]] + Lifted(rest[1..])
  {
    var one, more := [rest[0]], Lifted(rest[1..]);
    assert before + (one + more) == before + one + more;
  }

  method FixAction(s: string) returns (name: string)
    ensures name == LowerAll(s)
  {
    var p := Copy(s);
    ToLower(p);
    name := p[..];
  }

  // ---------------------------------------------------------------- which characters are capitals

  /** How many separators stand directly in front of position k. */
  function SepsBefore(s: string, k: nat): nat
    requires k <= |s|
  {
    if k == 0 || !IsSep(s[k - 1]) then 0 else 1 + SepsBefore(s, k - 1)
  }

  lemma {:induction false} LiftedAt(s: string, k: nat)
    requires k < |s|
    ensures |Lifted(s)| == |s|
    ensures Lifted(s)[k] == if SepsBefore(s, k) % 2 == 1 then Upper(s[k]) else s[k]
    decreases |s|
  {
    var n := if IsSep(s[0]) && |s| > 1 then 2 else 1;
    if k >= n {
      LiftedAt(s[n..], k - n);
      if n == 2 { SepsBehindPair(s, k); } else { SepsBehindLetter(s, k); }
    } else if |s| > n {
      LiftedAt(s[n..], 0);
    }
  }

  lemma {:induction false} SepsBehindLetter(s: string, k: nat)
    requires 1 <= k <= |s| && (IsSep(s[0]) ==> |s| == 1)
    ensures k < |s| ==> SepsBefore(s, k) == SepsBefore(s[1..], k - 1)
    decreases k
  {
    if k > 1 { SepsBehindLetter(s, k - 1); }
  }

  lemma {:induction false} SepsBehindPair(s: string, k: nat)
    requires 2 <= k <= |s| && IsSep(s[0])
    ensures SepsBefore(s, k) % 2 == SepsBefore(s[2..], k - 2) % 2
    decreases k
  {
    if k > 2 {
      SepsBehindPair(s, k - 1);
    } else {
      assert SepsBefore(s, 1) == 1;
      assert SepsBefore(s[2..], 0) == 0;
    }
  }

  /**
  A controller name keeps its length; the first character and those behind an odd number of
  separators are capitals, all others are small.
  */
  lemma ControllerCapitals(s: string, k: nat)
    requires k < |s|
    ensures |ControllerName(s)| == |s|
    ensures ControllerName(s)[k] == if k == 0 || SepsBefore(s, k) % 2 == 1 then Upper(Lower(s[k])) else Lower(s[k])
  {
    LiftedAt(ModuleName(s), k);
    ModuleAt(s, k);
    ModuleSeps(s, k);
  }

  const CAPITALS := "ABCDEFGHIJKLMNOPQRSTUVWXYZ"
  const SMALL := "abcdefghijklmnopqrstuvwxyz"

  /** Letter case is that of the 26 ASCII letters; all other characters are themselves. */
  lemma LetterCase(c: char)
    ensures forall k :: 0 <= k < 26 ==> Lower(CAPITALS[k]) == SMALL[k] && Upper(SMALL[k]) == CAPITALS[k]
    ensures (c !in CAPITALS ==> Lower(c) == c) && (c !in SMALL ==> Upper(c) == c)
  {
    assert forall k :: 0 <= k < 26 ==> CAPITALS[k] == ('A' as int + k) as char && SMALL[k] == ('a' as int + k) as char;
    if 'A' <= c <= 'Z' { assert c == CAPITALS[c as int - 'A' as int]; }
    if 'a' <= c <= 'z' { assert c == SMALL[c as int - 'a' as int]; }
  }

  lemma CaseFacts(c: char)
    ensures Lower(Upper(Lower(c))) == Lower(c) == Lower(Lower(c))
  {
  }

  lemma ModuleSeps(s: string, k: nat)
    requires k < |s|
    ensures k < |ModuleName(s)| && SepsBefore(ModuleName(s), k) == SepsBefore(s, k)
  {
    var t := ModuleName(s);
    forall j | 0 <= j < |s| ensures |t| == |s| && Lower(t[j]) == Lower(s[j]) {
      ModuleAt(s, j);
      CaseFacts(s[j]);
    }
    SameSeps(s, t, k);
  }

  lemma ModuleAt(s: string, j: nat)
    requires j < |s|
    ensures |ModuleName(s)| == |s|
    ensures ModuleName(s)[j] == if j == 0 then Upper(Lower(s[0])) else Lower(s[j])
  {
    var tail := s[1..];
    var first := Upper(Lower(s[0]));
    assert ModuleName(s) == [first] + LowerAll(tail);
    if j > 0 { BehindFirst(first, LowerAll(tail), j); }
  }

  lemma BehindFirst(c: char, s: string, j: nat)
    requires 0 < j <= |s|
    ensures ([c] + s)[j] == s[j - 1]
  {
  }

  lemma {:induction false} SameSeps(s: string, t: string, k: nat)
    requires |s| == |t| && k <= |s| && forall j :: 0 <= j < |s| ==> Lower(t[j]) == Lower(s[j])
    ensures SepsBefore(s, k) == SepsBefore(t, k)
  {
    if k > 0 {
      assert Lower(t[k - 1]) == Lower(s[k - 1]);
      SameSeps(s, t, k - 1);
    }
  }

  /** Normalising twice is normalising once. */
  lemma ControllerIdempotent(s: string)
    ensures ControllerName(ControllerName(s)) == ControllerName(s)
  {
    var n := ControllerName(s);
    if s != "" {
      ControllerCapitals(s, 0);
      forall k | 0 <= k < |s| ensures Lower(n[k]) == Lower(s[k]) {
        ControllerCapitals(s, k);
        CaseFacts(s[k]);
      }
      forall k | 0 <= k < |s| ensures |ControllerName(n)| == |s| && ControllerName(n)[k] == n[k] {
        ControllerCapitals(s, k);
        ControllerCapitals(n, k);
        SameSeps(s, n, k);
      }
    }
  }

  lemma ModuleIdempotent(s: string)
    ensures ModuleName(ModuleName(s)) == ModuleName(s) && |ModuleName(s)| == |s|
  {
  }

  lemma ActionIdempotent(s: string)
    ensures LowerAll(LowerAll(s)) == LowerAll(s)
  {
  }

  // ---------------------------------------------------------------- the three names together

  datatype Names = Names(m: Option<string>, c: Option<string>, a: Option<string>)

  // The dispatcher's defaults.
  datatype Defaults = Defaults(m: string, c: string, a: string)

  predicate Missing(name: Option<string>) { name.None? || name.value == "" }

  function Fixed(d: Defaults, n: Names): Names {
    Names(Some(if Missing(n.m) then d.m else ModuleName(n.m.value)),
          Some(if Missing(n.c) then d.c else ControllerName(n.c.value)),
          Some(if Missing(n.a) then d.a else LowerAll(n.a.value)))
  }

  method FixDefault(d: Defaults, n: Names) returns (out: Names)
    ensures out == Fixed(d, n)
  {
    var m, c, a := d.m, d.c, d.a;
    if !Missing(n.m) { m := FixModule(n.m.value); }
    if !Missing(n.c) { c := FixController(n.c.value); }
    if !Missing(n.a) { a := FixAction(n.a.value); }
    return Names(Some(m), Some(c), Some(a));
  }

  // Defaults that are already in the one spelling.
  predicate Settled(d: Defaults) {
    && d.m != "" && d.c != "" && d.a != ""
    && ModuleName(d.m) == d.m && ControllerName(d.c) == d.c && LowerAll(d.a) == d.a
  }

  /** With non-empty defaults no name is left empty; names that were there keep their length. */
  lemma NoNameIsEmpty(d: Defaults, n: Names)
    requires d.m != "" && d.c != "" && d.a != ""
    ensures var f := Fixed(d, n); !Missing(f.m) && !Missing(f.c) && !Missing(f.a)
    ensures !Missing(n.c) ==> |Fixed(d, n).c.value| == |n.c.value|
  {
    if !Missing(n.c) { ControllerCapitals(n.c.value, 0); }
  }

  /**
  A name that was given keeps its letters up to case: one capital in front for a module, capitals behind
  separators too for a controller, none for an action.  A missing name becomes the default as it is.
  */
  lemma GivenNamesKeepLetters(d: Defaults, n: Names)
    ensures var f := Fixed(d, n);
      && f.m.Some? && f.c.Some? && f.a.Some?
      && (if Missing(n.m) then f.m.value == d.m
          else SameName(f.m.value, n.m.value) && forall k :: 0 <= k < |n.m.value| ==> f.m.value[k] == Cased(n.m.value[k], k == 0))
      && (if Missing(n.c) then f.c.value == d.c
          else SameName(f.c.value, n.c.value)
               && forall k :: 0 <= k < |n.c.value| ==>
                    f.c.value[k] == Cased(n.c.value[k], k == 0 || SepsBefore(n.c.value, k) % 2 == 1))
      && (if Missing(n.a) then f.a.value == d.a
          else SameName(f.a.value, n.a.value) && forall k :: 0 <= k < |n.a.value| ==> f.a.value[k] == Cased(n.a.value[k], false))
  {
    if !Missing(n.m) { ModuleKeepsLetters(n.m.value); }
    if !Missing(n.c) { ControllerKeepsLetters(n.c.value); }
    if !Missing(n.a) { ActionKeepsLetters(n.a.value); }
  }

  function Cased(c: char, capital: bool): char { if capital then Upper(Lower(c)) else Lower(c) }

  lemma ModuleKeepsLetters(s: string)
    ensures SameName(ModuleName(s), s) && forall k :: 0 <= k < |s| ==> ModuleName(s)[k] == Cased(s[k], k == 0)
  {
    forall k | 0 <= k < |s| ensures |ModuleName(s)| == |s| && ModuleName(s)[k] == Cased(s[k], k == 0) && Lower(ModuleName(s)[k]) == Lower(s[k]) {
      ModuleAt(s, k);
      CaseFacts(s[k]);
    }
  }

  lemma ControllerKeepsLetters(s: string)
    ensures SameName(ControllerName(s), s)
    ensures forall k :: 0 <= k < |s| ==> ControllerName(s)[k] == Cased(s[k], k == 0 || SepsBefore(s, k) % 2 == 1)
  {
    forall k | 0 <= k < |s|
      ensures |ControllerName(s)| == |s| && Lower(ControllerName(s)[k]) == Lower(s[k])
      ensures ControllerName(s)[k] == Cased(s[k], k == 0 || SepsBefore(s, k) % 2 == 1)
    {
      ControllerCapitals(s, k);
      CaseFacts(s[k]);
    }
  }

  lemma ActionKeepsLetters(s: string)
    ensures SameName(LowerAll(s), s) && forall k :: 0 <= k < |s| ==> LowerAll(s)[k] == Cased(s[k], false)
  {
  }

  /** fix_default is idempotent for all names if and only if the defaults themselves are settled or empty. */
  lemma FixDefaultIdempotent(d: Defaults)
    requires d.m != "" && d.c != "" && d.a != ""
    ensures (forall n :: Fixed(d, Fixed(d, n)) == Fixed(d, n)) <==> Settled(d)
  {
    if Settled(d) {
      forall n ensures Fixed(d, Fixed(d, n)) == Fixed(d, n) {
        NoNameIsEmpty(d, n);
        if !Missing(n.m) { ModuleIdempotent(n.m.value); }
        if !Missing(n.c) { ControllerIdempotent(n.c.value); }
        if !Missing(n.a) { ActionIdempotent(n.a.value); }
      }
    } else {
      var n := Names(None, None, None);
      assert Fixed(d, n) == Names(Some(d.m), Some(d.c), Some(d.a));
      assert Fixed(d, Fixed(d, n)) != Fixed(d, n);
    }
  }

  // How a default module or controller is stored: lower case with a capital in front.
  function Stored(s: string): string { ModuleName(s) }

  /** An instance of the failure: the default controller "foo_bar" is stored as "Foo_bar", and fixed again it is "Foo_Bar". */
  lemma StoredDefaultIsRespelt()
    ensures var d := Defaults(Stored("index"), Stored("foo_bar"), LowerAll("index")); var n := Names(None, None, None);
      && Fixed(d, n) == Names(Some("Index"), Some("Foo_bar"), Some("index"))
      && Fixed(d, Fixed(d, n)) == Names(Some("Index"), Some("Foo_Bar"), Some("index"))
  {
    SpelledInstances();
    hide ModuleName, Lifted, LowerAll, ControllerName;
    var d := Defaults(Stored("index"), Stored("foo_bar"), LowerAll("index"));
    var n := Fixed(d, Names(None, None, None));
    assert n == Names(Some("Index"), Some("Foo_bar"), Some("index"));
    assert !Missing(n.m) && !Missing(n.c) && !Missing(n.a);
  }

  lemma SpelledInstances()
    ensures Stored("index") == "Index" && ModuleName("Index") == "Index" && LowerAll("index") == "index"
    ensures Stored("foo_bar") == "Foo_bar" && ControllerName("Foo_bar") == "Foo_Bar"
  {
    assert LowerAll("index") == "index" && LowerAll("ndex") == "ndex" && LowerAll("oo_bar") == "oo_bar";
    assert "index"[1..] == "Index"[1..] == "ndex" && "foo_bar"[1..] == "Foo_bar"[1..] == "oo_bar";
    LiftedInstance();
  }

  lemma LiftedInstance()
    ensures Lifted("Foo_bar") == "Foo_Bar"
  {
    assert Lifted("ar") == "ar" by { assert "ar"[1..] == "r" && "r"[1..] == ""; }
    assert Lifted("_bar") == "_Bar" by { assert "_bar"[2..] == "ar"; }
    assert Lifted("o_bar") == "o_Bar" by { assert "o_bar"[1..] == "_bar"; }
    assert Lifted("oo_bar") == "oo_Bar" by { assert "oo_bar"[1..] == "o_bar"; }
    assert "Foo_bar"[1..] == "oo_bar";
  }
}
