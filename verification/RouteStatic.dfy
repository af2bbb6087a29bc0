/**
routes/yaf_route_static.c: a path read with moving pointers into module, controller, action and
parameters, against a reading of its list of segments.
*/
module RouteStatic {
  import opened Strtok
  import opened Router

  // What the scan points at.
  datatype Found = Found(m: Option<string>, c: Option<string>, a: Option<string>, rest: Option<string>)

  // ---------------------------------------------------------------- the scan on strings

  /** Blanks and slashes at the end go, except for the first character. */
  function TrimTail(uri: string): string {
    if |uri| > 1 && uri[|uri| - 1] in " /" then TrimTail(uri[..|uri| - 1]) else uri
  }

  function Strip(p: string): string { LTrim(p, " /") }

  /** The position of the first slash, or the length. */
  function Slash(p: string): (i: nat)
    ensures i <= |p| && '/' !in p[..i] && (i < |p| ==> p[i] == '/')
  {
    Span(p, "/")
  }

  function Whole(p: string): bool { Slash(p) == |p| }

  function FirstOf(p: string): string { p[..Slash(p)] }

  function After(p: string): string
    requires !Whole(p)
  {
    p[Slash(p) + 1..]
  }

  // Module and controller, as far as slashes follow them, and what is left.
  datatype Lead = Lead(m: Option<string>, c: Option<string>, left: string)

  function Leading(p: string, isModule: string -> bool): Lead {
    if Whole(p) then Lead(None, None, p)
    else if !isModule(FirstOf(p)) then Lead(None, Some(FirstOf(p)), After(p))
    else
      var q := Strip(After(p));
      if Whole(q) then Lead(Some(FirstOf(p)), None, q) else Lead(Some(FirstOf(p)), Some(FirstOf(q)), After(q))
  }

  /** The last piece goes where the first free place is; behind an action it is the rest. */
  function Placed(f: Found, p: string, isModule: string -> bool): Found {
    if p == "" then f
    else if f.m.None? && f.c.None? && f.a.None? && isModule(p) then f.(m := Some(p))
    else if f.c.None? then f.(c := Some(p))
    else if f.a.None? then f.(a := Some(p))
    else f.(rest := Some(p))
  }

  /** A module counts only together with a controller and an action. */
  function Settled(f: Found, preferAction: bool): Found {
    if f.m.Some? && f.c.None? then f.(m := None, c := f.m)
    else if f.m.Some? && f.a.None? then f.(m := None, c := f.m, a := f.c)
    else if f.c.Some? && f.a.None? && preferAction then f.(c := None, a := f.c)
    else f
  }

  function PathInfo(uri: string, isModule: string -> bool, preferAction: bool): Found {
    if uri == "" || uri == "/" then Found(None, None, None, None)
    else Settled(Scanned(Strip(TrimTail(uri)), isModule), preferAction)
  }

  function Scanned(p: string, isModule: string -> bool): Found {
    var lead := Leading(p, isModule);
    Behind(lead.m, lead.c, Strip(lead.left), isModule)
  }

  /** The action, if a slash follows it, and the last piece. */
  function Behind(m: Option<string>, c: Option<string>, p: string, isModule: string -> bool): Found {
    if Whole(p) then Placed(Found(m, c, None, None), p, isModule)
    else Placed(Found(m, c, Some(FirstOf(p)), None), Strip(After(p)), isModule)
  }

  // ---------------------------------------------------------------- the segment list

  datatype Target = Target(m: Option<string>, c: Option<string>, a: Option<string>, params: seq<string>)

  /**
  One segment is the controller, or the preferred action if it names no module; two are controller
  and action; a module that leads three or more counts; the rest are keys and values.
  */
  function BySegments(segs: seq<string>, isModule: string -> bool, preferAction: bool): Target {
    if |segs| == 0 then Target(None, None, None, [])
    else if |segs| == 1 then
      if preferAction && !isModule(segs[0]) then Target(None, None, Some(segs[0]), [])
      else Target(None, Some(segs[0]), None, [])
    else if |segs| > 2 && isModule(segs[0]) then Target(Some(segs[0]), Some(segs[1]), Some(segs[2]), segs[3..])
    else Target(None, Some(segs[0]), Some(segs[1]), segs[2..])
  }

  function TargetOf(f: Found): Target {
    Target(f.m, f.c, f.a, if f.rest.Some? then Words(f.rest.value, "/") else [])
  }

  // No blanks, and no slash at either end.
  predicate Core(p: string) { ' ' !in p && (p != "" ==> p[0] != '/' && p[|p| - 1] != '/') }

  lemma {:induction false} StripKeepsWords(p: string)
    requires ' ' !in p
    ensures Words(Strip(p), "/") == Words(p, "/") && ' ' !in Strip(p)
    ensures Strip(p) == "" || (Strip(p)[0] != '/' && Strip(p)[|Strip(p)| - 1] == p[|p| - 1])
  {
    if p != "" && p[0] in " /" { StripKeepsWords(p[1..]); }
  }

  lemma {:induction false} TrimTailKeepsWords(uri: string)
    requires ' ' !in uri
    ensures var t := TrimTail(uri); Words(t, "/") == Words(uri, "/") && ' ' !in t
    ensures var t := TrimTail(uri); |t| <= 1 || t[|t| - 1] != '/'
  {
    if |uri| > 1 && uri[|uri| - 1] in " /" {
      var t := uri[..|uri| - 1];
      assert uri == t + "/";
      TrimTailKeepsWords(t);
      WordsBeforeSlash(t);
    }
  }

  lemma {:induction false} WordsBeforeSlash(t: string)
    ensures Words(t + "/", "/") == Words(t, "/")
    decreases |t|
  {
    if t == "" {
      assert "" + "/" == "/" && "/"[1..] == "";
    } else if t[0] == '/' {
      assert (t + "/")[1..] == t[1..] + "/";
      WordsBeforeSlash(t[1..]);
    } else {
      var n := Span(t, "/");
      WordsBeforeSlash(t[n..]);
      assert t + "/" == t[..n] + (t[n..] + "/");
      WordsAfter(t[..n], t[n..] + "/", "/");
    }
  }

  /** One step of the scan takes the first segment. */
  lemma NextSegment(p: string)
    requires Core(p) && p != ""
    ensures Whole(p) ==> Words(p, "/") == [p]
    ensures !Whole(p) ==>
      var q := Strip(After(p));
      Core(q) && q != "" && Words(p, "/") == [FirstOf(p)] + Words(q, "/")
  {
    if Whole(p) {
      assert p[..|p|] == p && p[|p|..] == "";
    } else {
      var t := After(p);
      StripKeepsWords(t);
      assert t[|t| - 1] == p[|p| - 1];
      assert p[Slash(p)..][1..] == t;
      StripNonEmpty(t);
    }
  }

  lemma StripNonEmpty(t: string)
    requires t != "" && t[|t| - 1] !in " /"
    ensures Strip(t) != ""
  {
    LTrimKeepsEnd(t, " /");
  }

  lemma StripCore(p: string)
    requires Core(p)
    ensures Strip(p) == p
  {
  }

  /** For every URI without blanks and every set of modules, the scan reads the segment list. */
  lemma PathInfoReadsSegments(uri: string, isModule: string -> bool, preferAction: bool)
    requires ' ' !in uri
    ensures TargetOf(PathInfo(uri, isModule, preferAction)) == BySegments(Words(uri, "/"), isModule, preferAction)
  {
    if uri == "/" {
      assert uri[1..] == "" && Words(uri, "/") == [];
    } else if uri != "" {
      TrimmedIsCore(uri);
      CoreReadsSegments(Strip(TrimTail(uri)), isModule, preferAction);
    }
  }

  lemma TrimmedIsCore(uri: string)
    requires ' ' !in uri
    ensures var p := Strip(TrimTail(uri)); Core(p) && Words(p, "/") == Words(uri, "/")
  {
    TrimTailKeepsWords(uri);
    StripKeepsWords(TrimTail(uri));
  }

  lemma CoreReadsSegments(p: string, isModule: string -> bool, preferAction: bool)
    requires Core(p)
    ensures TargetOf(Settled(Scanned(p, isModule), preferAction)) == BySegments(Words(p, "/"), isModule, preferAction)
  {
    if p != "" { NextSegment(p); }
    if p == "" || Whole(p) {
      StripCore(p);
    } else {
      var p1 := Strip(After(p));
      StripCore(p1);
      NextSegment(p1);
      if Whole(p1) {
        TwoSegments(p, p1, isModule, preferAction);
      } else {
        ManySegments(p, p1, isModule, preferAction);
      }
    }
  }

  lemma TwoSegments(p: string, p1: string, isModule: string -> bool, preferAction: bool)
    requires !Whole(p) && p1 == Strip(After(p)) == Strip(p1) && p1 != "" && Whole(p1)
    ensures TargetOf(Settled(Scanned(p, isModule), preferAction)) == Target(None, Some(FirstOf(p)), Some(p1), [])
  {
  }

  lemma ManySegments(p: string, p1: string, isModule: string -> bool, preferAction: bool)
    requires !Whole(p) && p1 == Strip(After(p)) && Core(p1) && p1 != "" && !Whole(p1)
    requires Words(p, "/") == [FirstOf(p)] + Words(p1, "/")
    ensures TargetOf(Settled(Scanned(p, isModule), preferAction)) == BySegments(Words(p, "/"), isModule, preferAction)
  {
    var p2 := Strip(After(p1));
    NextSegment(p1);
    StripCore(p1);
    NextSegment(p2);
    StripCore(p2);
    var segs := Words(p, "/");
    assert segs == [FirstOf(p), FirstOf(p1)] + Words(p2, "/");
    assert segs[2..] == Words(p2, "/");
    if isModule(FirstOf(p)) {
      assert Scanned(p, isModule) == Behind(Some(FirstOf(p)), Some(FirstOf(p1)), p2, isModule);
      BehindModule(FirstOf(p), FirstOf(p1), p2, isModule);
      assert segs[3..] == Words(p2, "/")[1..];
    } else {
      assert Scanned(p, isModule) == Behind(None, Some(FirstOf(p)), p1, isModule);
    }
  }

  lemma BehindModule(m: string, c: string, p2: string, isModule: string -> bool)
    requires Core(p2) && p2 != ""
    ensures TargetOf(Behind(Some(m), Some(c), p2, isModule)) ==
            Target(Some(m), Some(c), Some(Words(p2, "/")[0]), Words(p2, "/")[1..])
  {
    NextSegment(p2);
  }

  // ---------------------------------------------------------------- the scan in the buffer

  method StripSlashs(b: array<char>, p: nat) returns (q: nat)
    requires p <= b.Length && Ends(b[..], p)
    ensures p <= q < b.Length && Ends(b[..], q) && CText(b[..], q) == Strip(CText(b[..], p))
  {
    q := p;
    while b[q] in " /"
      invariant p <= q < b.Length && Ends(b[..], q) && Strip(CText(b[..], q)) == Strip(CText(b[..], p))
      decreases b.Length - q
    {
      assert CText(b[..], q)[1..] == CText(b[..], q + 1);
      q := q + 1;
    }
  }

  /** strstr(p, "/"): where the slash stands, and the piece in front of it. */
  method StrSlash(b: array<char>, p: nat) returns (s: Option<nat>, piece: string)
    requires p <= b.Length && Ends(b[..], p)
    ensures var t := CText(b[..], p);
      && (s.None? <==> Whole(t)) && piece == FirstOf(t)
      && (s.Some? ==> p <= s.value < b.Length && Ends(b[..], s.value + 1) && CText(b[..], s.value + 1) == After(t))
  {
    var q := FirstChar(b, p, '/');
    assert ['/'] == "/";
    piece := b[p..q];
    TextSplits(b[..], p, q);
    s := None;
    if b[q] != NUL {
      s := Some(q);
      AfterPiece(CText(b[..], p), CText(b[..], q));
      assert CText(b[..], q)[1..] == CText(b[..], q + 1);
    }
  }

  lemma AfterPiece(t: string, rest: string)
    requires !Whole(t) && t == t[..Slash(t)] + rest
    ensures rest != "" && After(t) == rest[1..]
  {
  }

  method TrimTailInPlace(b: array<char>, len: nat)
    requires b.Length == len + 1 && b[len] == NUL && NUL !in b[..len] && len > 0
    modifies b
    ensures Ends(b[..], 0) && CText(b[..], 0) == TrimTail(old(b[..len]))
  {
    var q := len - 1;
    ghost var uri := b[..len];
    while q > 0 && b[q] in " /"
      invariant 0 <= q < len && b[q + 1] == NUL && b[..q + 1] == uri[..q + 1] && TrimTail(uri[..q + 1]) == TrimTail(uri)
      decreases q
    {
      assert b[q] == b[..q + 1][q] == uri[q];
      assert uri[..q + 1][..q] == uri[..q];
      b[q] := NUL;
      q := q - 1;
      assert b[..q + 1] == uri[..q + 2][..q + 1];
    }
    assert b[q] == b[..q + 1][q] == uri[q];
    CTextIs(b[..], 0, uri[..q + 1]);
  }

  /** yaf_route_pathinfo_route up to the request updates: pointers move, pieces are taken. */
  method PathInfoRoute(req_uri: string, isModule: string -> bool, preferAction: bool) returns (f: Found)
    requires NUL !in req_uri
    ensures f == PathInfo(req_uri, isModule, preferAction)
  {
    f := Found(None, None, None, None);
    if req_uri == "" || req_uri == "/" {
      return;
    }
    var uri := Strdup(req_uri);
    assert uri[..|req_uri|] == req_uri;
    TrimTailInPlace(uri, |req_uri|);
    var p := StripSlashs(uri, 0);
    p, f := TakeLeading(uri, p, isModule);
    StripTwice(CText(uri[..], p));
    p := StripSlashs(uri, p);
    f := TakeBehind(uri, p, f, isModule);
    if f.m.Some? && f.c.None? {
      f := f.(m := None, c := f.m);
    } else if f.m.Some? && f.a.None? {
      f := f.(m := None, c := f.m, a := f.c);
    } else if f.c.Some? && f.a.None? {
      if preferAction {
        f := f.(c := None, a := f.c);
      }
    }
  }

  lemma StripTwice(p: string)
    ensures Strip(Strip(p)) == Strip(p)
  {
    LTrimFront(p, " /");
  }

  /** The piece in front of the next slash, if there is a slash. */
  method TakeController(uri: array<char>, start: nat) returns (c: Option<string>, p: nat)
    requires start <= uri.Length && Ends(uri[..], start)
    ensures p <= uri.Length && Ends(uri[..], p)
    ensures var t := CText(uri[..], start);
      if Whole(t) then c == None && p == start else c == Some(FirstOf(t)) && CText(uri[..], p) == After(t)
  {
    p, c := start, None;
    var s, piece := StrSlash(uri, p);
    if s.Some? {
      c, p := Some(piece), s.value + 1;
    }
  }

  method TakeLeading(uri: array<char>, start: nat, isModule: string -> bool) returns (p: nat, f: Found)
    requires start <= uri.Length && Ends(uri[..], start)
    ensures p <= uri.Length && Ends(uri[..], p)
    ensures var lead := Leading(CText(uri[..], start), isModule);
      f == Found(lead.m, lead.c, None, None) && CText(uri[..], p) == lead.left
  {
    p, f := start, Found(None, None, None, None);
    var s, piece := StrSlash(uri, p);
    if s.Some? {
      if isModule(piece) {
        f := f.(m := Some(piece));
        p := StripSlashs(uri, s.value + 1);
        var c: Option<string>;
        c, p := TakeController(uri, p);
        f := f.(c := c);
      } else {
        f := f.(c := Some(piece));
        p := s.value + 1;
      }
    }
  }

  method TakeBehind(uri: array<char>, start: nat, lead: Found, isModule: string -> bool) returns (f: Found)
    requires start <= uri.Length && Ends(uri[..], start) && Strip(CText(uri[..], start)) == CText(uri[..], start)
    requires lead.a.None? && lead.rest.None?
    ensures f == Behind(lead.m, lead.c, CText(uri[..], start), isModule)
  {
    var p := start;
    f := lead;
    var s, piece := StrSlash(uri, p);
    if s.Some? {
      f := f.(a := Some(piece));
      p := s.value + 1;
    }
    p := StripSlashs(uri, p);
    piece := ReadString(uri, p);
    if piece != "" {
      if f.m.None? && f.c.None? && f.a.None? && isModule(piece) {
        f := f.(m := Some(piece));
      } else if f.c.None? {
        f := f.(c := Some(piece));
      } else if f.a.None? {
        f := f.(a := Some(piece));
      } else {
        f := f.(rest := Some(piece));
      }
    }
  }

  // ---------------------------------------------------------------- route and assemble

  function Written(r: Request, t: Target): Request {
    r.(module_ := if t.m.Some? then t.m else r.module_, controller := if t.c.Some? then t.c else r.controller,
       action := if t.a.Some? then t.a else r.action, params := r.params + Pairs(map[], t.params))
  }

  method Route(r: Request, isModule: string -> bool, preferAction: bool) returns (out: Request)
    requires NUL !in r.uri
    ensures out == Written(r, TargetOf(PathInfo(PathOf(r), isModule, preferAction)))
    ensures ' ' !in PathOf(r) ==> out == Written(r, BySegments(Words(PathOf(r), "/"), isModule, preferAction))
  {
    var req_uri := PathOf(r);
    var f := PathInfoRoute(req_uri, isModule, preferAction);
    out := r;
    if f.m.Some? { out := out.(module_ := f.m); }
    if f.c.Some? { out := out.(controller := f.c); }
    if f.a.Some? { out := out.(action := f.a); }
    assert out.params + map[] == out.params;
    if f.rest.Some? {
      RestOfPath(req_uri, isModule, preferAction);
      var params := ParseParameters(f.rest.value);
      out := out.(params := out.params + params);
    }
    if ' ' !in req_uri { PathInfoReadsSegments(req_uri, isModule, preferAction); }
  }

  lemma RestOfPath(uri: string, isModule: string -> bool, preferAction: bool)
    requires NUL !in uri && PathInfo(uri, isModule, preferAction).rest.Some?
    ensures NUL !in PathInfo(uri, isModule, preferAction).rest.value
  {
    var t := TrimTail(uri);
    TrimTailPart(uri);
    var p := Strip(t);
    LTrimPart(t);
    var lead := Leading(p, isModule);
    if !Whole(p) {
      LTrimPart(After(p));
    }
    LTrimPart(lead.left);
    var q := Strip(lead.left);
    if !Whole(q) { LTrimPart(After(q)); }
  }

  lemma {:induction false} TrimTailPart(uri: string)
    requires NUL !in uri
    ensures NUL !in TrimTail(uri)
  {
    if |uri| > 1 && uri[|uri| - 1] in " /" { TrimTailPart(uri[..|uri| - 1]); }
  }

  lemma {:induction false} LTrimPart(p: string)
    requires NUL !in p
    ensures NUL !in Strip(p)
  {
    if p != "" && p[0] in " /" { LTrimPart(p[1..]); }
  }

  type Info = map<string, string>

  function Pieces(info: Info): seq<string>
    requires ":c" in info && ":a" in info
  {
    (if ":m" in info then [info[":m"]] else []) + [info[":c"], info[":a"]]
  }

  /** assemble: nothing without a controller and an action. */
  function Assembled(info: Info, query: Query): Option<string> {
    if ":c" in info && ":a" in info then Some(Led(Pieces(info), '/') + Asked(query, true)) else None
  }

  method Assemble(info: Info, query: Query) returns (uri: Option<string>)
    ensures uri == Assembled(info, query)
  {
    var str := "";
    if ":m" in info { str := str + "/" + info[":m"]; }
    if ":c" !in info {
      return None;
    }
    str := str + "/" + info[":c"];
    if ":a" !in info {
      return None;
    }
    str := str + "/" + info[":a"];
    PiecesPrinted(info);
    var asked := PrintAsked(query);
    return Some(str + asked);
  }

  lemma PiecesPrinted(info: Info)
    requires ":c" in info && ":a" in info
    ensures Led(Pieces(info), '/') ==
            (if ":m" in info then "" + "/" + info[":m"] else "") + "/" + info[":c"] + "/" + info[":a"]
  {
    var c, a := info[":c"], info[":a"];
    var tail := Led([c, a], '/');
    assert [c, a][1..] == [a] && [a][1..] == [];
    assert Led([a], '/') == "/" + a;
    assert tail == "/" + c + ("/" + a);
    if ":m" in info {
      var m := info[":m"];
      assert Pieces(info) == [m] + [c, a] && ([m] + [c, a])[1..] == [c, a];
      assert Led(Pieces(info), '/') == ['/'] + m + tail;
      assert ['/'] + m + tail == "" + "/" + m + "/" + c + "/" + a;
    } else {
      assert Pieces(info) == [c, a];
      assert tail == "" + "/" + c + "/" + a;
    }
  }

  // Names that survive printing: non-empty, no slash, no blank.
  predicate Name(s: string) { IsWord(s, " /") }

  /**
  Static round trip: routing the path that assemble printed gives controller and action back; with
  a module, the module too, and exactly when it is registered.
  */
  lemma StaticRoundTrip(info: Info, isModule: string -> bool, preferAction: bool, r: Request)
    requires ":c" in info && ":a" in info && Name(info[":c"]) && Name(info[":a"])
    requires ":m" in info ==> Name(info[":m"])
    requires PathOf(r) == Assembled(info, []).value
    ensures var f := TargetOf(PathInfo(PathOf(r), isModule, preferAction));
      var wanted := Target(if ":m" in info then Some(info[":m"]) else None, Some(info[":c"]), Some(info[":a"]), []);
      && (f == wanted <==> (":m" in info ==> isModule(info[":m"])))
      && (":m" in info && !isModule(info[":m"]) ==> f == Target(None, Some(info[":m"]), Some(info[":c"]), [info[":a"]]))
  {
    var ws := Pieces(info);
    assert '/' in " /" && ' ' in " /";
    forall k | 0 <= k < |ws| ensures IsWord(ws[k], "/") && ' ' !in ws[k] {
    }
    assert PathOf(r) == Led(ws, '/');
    WordsOfLed(ws, '/', "/", "");
    assert Led(ws, '/') + "" == Led(ws, '/') && ws + [] == ws;
    LedHasNo(ws, ' ');
    PathInfoReadsSegments(PathOf(r), isModule, preferAction);
  }

  /** The path that was printed is one of names only, and the pairs are read back behind it. */
  lemma QueryReadsBack(info: Info, query: Query)
    requires ":c" in info && ":a" in info && Askable(query)
    requires forall key :: key in info ==> '?' !in info[key]
    ensures Assembled(info, query).Some? && ReadUri(Assembled(info, query).value) == (Led(Pieces(info), '/'), query)
  {
    LedHasNo(Pieces(info), '?');
    UriReadsBack(Led(Pieces(info), '/'), query);
  }

  /** A found name replaces the one of the request, a missing one leaves it; parameters are added, and win. */
  lemma WrittenFields(r: Request, t: Target)
    ensures var out := Written(r, t); var found := Pairs(map[], t.params);
      && (t.m.Some? ==> out.module_ == t.m) && (t.m.None? ==> out.module_ == r.module_)
      && (t.c.Some? ==> out.controller == t.c) && (t.c.None? ==> out.controller == r.controller)
      && (t.a.Some? ==> out.action == t.a) && (t.a.None? ==> out.action == r.action)
      && (forall key :: key in out.params <==> key in r.params || key in found)
      && (forall key :: key in out.params ==> out.params[key] == if key in found then found[key] else r.params[key])
      && out.uri == r.uri && out.base == r.base && out.routed == r.routed
  {
  }

  // The target that a path names: the supplied names, and keys and values behind them.
  function Wanted(info: Info, query: Query): Target
    requires ":c" in info && ":a" in info
  {
    Target(if ":m" in info then Some(info[":m"]) else None, Some(info[":c"]), Some(info[":a"]), Flat(query))
  }

  // A supplied module is registered; without one, keys and values do not make the controller a module.
  predicate Unambiguous(info: Info, query: Query, isModule: string -> bool)
    requires ":c" in info
  {
    if ":m" in info then isModule(info[":m"]) else query == [] || !isModule(info[":c"])
  }

  /**
  A path of names, keys and values is read as it was written, exactly if no name in front is mistaken for
  what it is not; then the names arrive in their fields, the pairs are added to the parameters, and
  nothing else changes.
  */
  lemma StaticRoutesBack(info: Info, query: Query, isModule: string -> bool, preferAction: bool, r: Request)
    requires ":c" in info && ":a" in info && Name(info[":c"]) && Name(info[":a"]) && (":m" in info ==> Name(info[":m"]))
    requires forall k :: 0 <= k < |query| ==> Name(query[k].0) && Name(query[k].1)
    requires PathOf(r) == Led(Pieces(info) + Flat(query), '/')
    ensures var t := TargetOf(PathInfo(PathOf(r), isModule, preferAction));
      && (t == Wanted(info, query) <==> Unambiguous(info, query, isModule))
      && (Unambiguous(info, query, isModule) ==>
            Written(r, t) == r.(module_ := if ":m" in info then Some(info[":m"]) else r.module_,
                                controller := Some(info[":c"]), action := Some(info[":a"]),
                                params := r.params + MapOf(map[], query)))
  {
    hide PathInfo, TargetOf, BySegments, Wanted, Unambiguous, Written, Pieces;
    PathReadsPieces(info, query, isModule, preferAction);
    SegmentsAreWanted(info, query, isModule, preferAction);
    WantedIsWritten(info, query, r);
  }

  lemma SegmentsAreWanted(info: Info, query: Query, isModule: string -> bool, preferAction: bool)
    requires ":c" in info && ":a" in info
    ensures BySegments(Pieces(info) + Flat(query), isModule, preferAction) == Wanted(info, query)
            <==> Unambiguous(info, query, isModule)
  {
    var ws := Pieces(info) + Flat(query);
    assert ws[|Pieces(info)|..] == Flat(query);
    if ":m" in info {
      assert ws[2..] == [info[":a"]] + Flat(query);
    } else if query != [] {
      assert Flat(query)[0] == query[0].0;
    }
  }

  lemma WantedIsWritten(info: Info, query: Query, r: Request)
    requires ":c" in info && ":a" in info
    ensures Written(r, Wanted(info, query)) ==
            r.(module_ := if ":m" in info then Some(info[":m"]) else r.module_, controller := Some(info[":c"]),
               action := Some(info[":a"]), params := r.params + MapOf(map[], query))
  {
    PairsOfFlat(map[], query);
  }

  lemma {:induction false} FlatIsNames(query: Query)
    requires forall k :: 0 <= k < |query| ==> Name(query[k].0) && Name(query[k].1)
    ensures forall k :: 0 <= k < |Flat(query)| ==> Name(Flat(query)[k])
  {
    if query != [] { FlatIsNames(query[1..]); }
  }

  lemma PiecesAreNames(info: Info)
    requires ":c" in info && ":a" in info && Name(info[":c"]) && Name(info[":a"]) && (":m" in info ==> Name(info[":m"]))
    ensures forall k :: 0 <= k < |Pieces(info)| ==> Name(Pieces(info)[k])
  {
  }

  lemma PathReadsPieces(info: Info, query: Query, isModule: string -> bool, preferAction: bool)
    requires ":c" in info && ":a" in info && Name(info[":c"]) && Name(info[":a"]) && (":m" in info ==> Name(info[":m"]))
    requires forall k :: 0 <= k < |query| ==> Name(query[k].0) && Name(query[k].1)
    ensures var ws := Pieces(info) + Flat(query);
      TargetOf(PathInfo(Led(ws, '/'), isModule, preferAction)) == BySegments(ws, isModule, preferAction)
  {
    hide PathInfo, TargetOf, BySegments, Pieces, Flat;
    var ws := Pieces(info) + Flat(query);
    FlatIsNames(query);
    PiecesAreNames(info);
    assert '/' in " /" && ' ' in " /";
    forall k | 0 <= k < |ws| ensures IsWord(ws[k], "/") && ' ' !in ws[k] {
      assert Name(ws[k]);
    }
    WordsOfLed(ws, '/', "/", "");
    assert Led(ws, '/') + "" == Led(ws, '/') && ws + [] == ws;
    LedHasNo(ws, ' ');
    PathInfoReadsSegments(Led(ws, '/'), isModule, preferAction);
  }

  /** A path of one name names the controller; the action if actions are preferred and it is no module. */
  lemma OneName(name: string, isModule: string -> bool, preferAction: bool)
    requires Name(name)
    ensures TargetOf(PathInfo("/" + name, isModule, preferAction)) ==
            if preferAction && !isModule(name) then Target(None, None, Some(name), []) else Target(None, Some(name), None, [])
  {
    assert '/' in " /" && ' ' in " /" && ' ' !in "/" + name;
    WordsPastDelim('/', name, "/");
    WordsAfter(name, "", "/");
    assert name + "" == name && ['/'] + name == "/" + name;
    PathInfoReadsSegments("/" + name, isModule, preferAction);
  }

  /** An instance of the failure: the module Admin, not registered, arrives as the controller. */
  lemma UnregisteredModuleIsLost(preferAction: bool)
    ensures var info := map[":m" := "Admin", ":c" := "Index", ":a" := "list"];
      var uri := Assembled(info, []);
      uri.Some? && TargetOf(PathInfo(uri.value, _ => false, preferAction)) == Target(None, Some("Admin"), Some("Index"), ["list"])
  {
    var info := map[":m" := "Admin", ":c" := "Index", ":a" := "list"];
    var uri := Assembled(info, []).value;
    StaticRoundTrip(info, _ => false, preferAction, Request(uri, None, None, None, None, map[], false));
  }
}
