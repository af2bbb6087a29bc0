/**
routes/yaf_route_map.c: a path becomes one name with "_" between its segments, what follows the
delimiter becomes parameters, and assemble prints both back.
*/
module RouteMap {
  import opened Strtok
  import opened Router

  // ---------------------------------------------------------------- route

  // The part of the URI that names the target, and the part that holds parameters.
  datatype Cut = Cut(path: string, query: Option<string>)

  /**
  Only the first occurrence of the delimiter counts, and only between slashes or at the end.
  stray is the byte in front of the URI's buffer, which is read when the URI starts with it.
  */
  function CutAtDelim(uri: string, delim: string, stray: char): Cut {
    var found := Find(uri, delim, 0);
    if delim == "" || found.None? then Cut(uri, None)
    else
      var i := found.value;
      var rest := uri[i + |delim|..];
      if (if i == 0 then stray else uri[i - 1]) != '/' then Cut(uri, None)
      else if rest == "" then Cut(uri[..i], None)
      else if rest[0] == '/' then Cut(uri[..i], Some(rest))
      else Cut(uri, None)
  }

  function NameOf(path: string): string { Joined(Words(path, "/"), '_') }

  /** route: the name goes to the controller if controllers are preferred, else to the action. */
  function Target(r: Request, prefer: bool, delim: string, stray: char): Request {
    Aimed(r, prefer, CutAtDelim(PathOf(r), delim, stray))
  }

  function Aimed(r: Request, prefer: bool, cut: Cut): Request {
    var named :=
      if Words(cut.path, "/") == [] then r
      else if prefer then r.(controller := Some(NameOf(cut.path)))
      else r.(action := Some(NameOf(cut.path)));
    if cut.query.None? then named else named.(params := named.params + Parsed(cut.query.value))
  }

  /** The route writes the preferred name and the parameters, and nothing else. */
  lemma OnlyNameAndParams(r: Request, prefer: bool, delim: string, stray: char)
    ensures var out := Target(r, prefer, delim, stray);
      && out.uri == r.uri && out.base == r.base && out.module_ == r.module_ && out.routed == r.routed
      && (if prefer then out.action == r.action else out.controller == r.controller)
      && forall key :: key in r.params ==> key in out.params
  {
  }

  // The delimiter first stands behind front, and tail is what follows it.
  ghost predicate FirstBehind(uri: string, delim: string, front: string, tail: string) {
    uri == front + delim + tail && forall x, y :: uri == x + delim + y ==> |front| <= |x|
  }

  lemma OccursSplits(h: string, n: string, i: nat)
    requires OccursAt(h, n, i)
    ensures h == h[..i] + n + h[i + |n|..]
  {
  }

  lemma FoundBehind(uri: string, delim: string, front: string, tail: string)
    requires FirstBehind(uri, delim, front, tail)
    ensures Find(uri, delim, 0) == Some(|front|) && uri[..|front|] == front && uri[|front| + |delim|..] == tail
  {
    forall k: nat ensures OccursAt(uri, delim, k) ==> |front| <= k {
      if OccursAt(uri, delim, k) { OccursSplits(uri, delim, k); }
    }
    FindIs(uri, delim, 0, |front|);
  }

  /** A URI is cut at its first delimiter, exactly if that stands behind a slash, and in front of one or at the end. */
  lemma CutBetweenSlashes(uri: string, delim: string, stray: char, front: string, tail: string)
    requires delim != "" && FirstBehind(uri, delim, front, tail)
    ensures var behind := (if front == "" then stray else front[|front| - 1]) == '/';
      CutAtDelim(uri, delim, stray) ==
        if behind && tail == "" then Cut(front, None)
        else if behind && tail[0] == '/' then Cut(front, Some(tail))
        else Cut(uri, None)
  {
    FoundBehind(uri, delim, front, tail);
  }

  lemma WholeWithoutDelim(uri: string, delim: string, stray: char)
    requires delim == "" || forall x, y :: uri != x + delim + y
    ensures CutAtDelim(uri, delim, stray) == Cut(uri, None)
  {
    if delim != "" && Find(uri, delim, 0).Some? {
      FindMeans(uri, delim, 0);
      OccursSplits(uri, delim, Find(uri, delim, 0).value);
    }
  }

  method Route(r: Request, prefer: bool, delim: string, stray: char) returns (out: Request)
    requires NUL !in r.uri
    ensures out == Target(r, prefer, delim, stray)
  {
    var req_uri := PathOf(r);
    var query_str: Option<string> := None;
    if delim != "" {
      var found := StrStr(req_uri, delim, 0);
      if found.Some? && (if found.value == 0 then stray else req_uri[found.value - 1]) == '/' {
        var rest := req_uri[found.value + |delim|..];
        if rest == "" {
          req_uri := req_uri[..found.value];
        } else if rest[0] == '/' {
          req_uri := req_uri[..found.value];
          query_str := Some(rest);
        }
      }
    }
    assert Cut(req_uri, query_str) == CutAtDelim(PathOf(r), delim, stray);
    var route_result := JoinSegments(req_uri);
    out := r;
    if route_result != "" {
      if prefer {
        out := out.(controller := Some(route_result));
      } else {
        out := out.(action := Some(route_result));
      }
    }
    if query_str.Some? {
      var params := ParseParameters(query_str.value);
      out := out.(params := out.params + params);
    }
  }

  /** The loop that appends every segment and a "_", and takes the last "_" away. */
  method JoinSegments(uri: string) returns (name: string)
    requires NUL !in uri
    ensures name == NameOf(uri) && (name == "" <==> Words(uri, "/") == [])
  {
    var buf, seg, last := FirstToken(uri, "/");
    ghost var done: seq<string>, rest := [], Words(uri, "/");
    name := "";
    assert done + rest == Words(uri, "/");
    while seg.Some?
      invariant fresh(buf) && (seg.None? <==> rest == []) && done + rest == Words(uri, "/")
      invariant seg.Some? ==> seg.value == rest[0] && Left(buf[..], last, "/", rest[1..])
      invariant name == Trailed(done, '_')
      decreases |rest|
    {
      TrailedMore(done, rest[0], '_');
      name := name + seg.value + "_";
      assert done + rest == (done + [rest[0]]) + rest[1..];
      done, rest := done + [rest[0]], rest[1..];
      seg, last := NextToken(buf, "/", last, rest);
    }
    assert done + [] == done;
    TrailedJoined(done, '_');
    if name != "" {
      name := name[..|name| - 1];
    }
  }

  /** Words with one separator behind each. */
  function Trailed(ws: seq<string>, c: char): string {
    if ws == [] then "" else ws[0] + [c] + Trailed(ws[1..], c)
  }

  lemma {:induction false} TrailedMore(ws: seq<string>, w: string, c: char)
    ensures Trailed(ws + [w], c) == Trailed(ws, c) + w + [c]
  {
    if ws == [] {
      assert ws + [w] == [w];
    } else {
      assert (ws + [w])[1..] == ws[1..] + [w];
      TrailedMore(ws[1..], w, c);
    }
  }

  lemma {:induction false} TrailedJoined(ws: seq<string>, c: char)
    requires forall k :: 0 <= k < |ws| ==> ws[k] != ""
    ensures Trailed(ws, c) == if ws == [] then "" else Joined(ws, c) + [c]
    ensures ws != [] ==> Joined(ws, c) != ""
  {
    if |ws| > 1 {
      TrailedJoined(ws[1..], c);
    }
  }

  // ---------------------------------------------------------------- assemble

  // What stands for a target: the strings under ":c" and ":a", as far as they are strings.
  type Info = map<string, string>

  function NameKey(prefer: bool): string { if prefer then ":a" else ":c" }

  function Printed(query: Option<Query>, delim: string): string {
    if query.None? then ""
    else if delim != "" then "/" + delim + Led(Flat(query.value), '/')
    else Asked(query.value, true)
  }

  /** assemble: nothing without a name; with a name its pieces behind slashes, then the parameters. */
  function Assembled(prefer: bool, delim: string, info: Info, query: Option<Query>): Option<string> {
    if NameKey(prefer) !in info then None
    else Some(Led(Words(info[NameKey(prefer)], "_"), '/') + Printed(query, delim))
  }

  method Assemble(prefer: bool, delim: string, info: Info, query: Option<Query>) returns (uri: Option<string>)
    requires forall k :: k in info ==> NUL !in info[k]
    ensures uri == Assembled(prefer, delim, info, query)
  {
    var key := if prefer then ":a" else ":c";
    if key !in info {
      return None;
    }
    var s := LeadPieces(info[key]);
    assert query.None? ==> s + "" == s;
    if query.Some? {
      var printed := PrintQuery(query.value, delim);
      s := s + printed;
    }
    return Some(s);
  }

  method LeadPieces(pname: string) returns (uri: string)
    requires NUL !in pname
    ensures uri == Led(Words(pname, "_"), '/')
  {
    var buf, seg, last := FirstToken(pname, "_");
    ghost var rest := Words(pname, "_");
    uri := "";
    while seg.Some?
      invariant fresh(buf) && (seg.None? <==> rest == [])
      invariant seg.Some? ==> seg.value == rest[0] && Left(buf[..], last, "_", rest[1..])
      invariant uri + Led(rest, '/') == Led(Words(pname, "_"), '/')
      decreases |rest|
    {
      uri := uri + "/" + seg.value;
      rest := rest[1..];
      seg, last := NextToken(buf, "_", last, rest);
    }
  }

  method PrintQuery(query: Query, delim: string) returns (s: string)
    ensures s == Printed(Some(query), delim)
  {
    s := if delim != "" then "/" + delim else "";
    var start := true;
    for k := 0 to |query|
      invariant start == (k == 0)
      invariant s + Unprinted(query[k..], delim, start) == Printed(Some(query), delim)
    {
      PrintStep(s, query[k..], delim, start);
      if delim != "" {
        s := s + ("/" + query[k].0 + "/" + query[k].1);
      } else if start {
        s := s + ("?" + query[k].0 + "=" + query[k].1);
      } else {
        s := s + ("&" + query[k].0 + "=" + query[k].1);
      }
      start := false;
    }
  }

  function Unprinted(query: Query, delim: string, first: bool): string {
    if delim != "" then Led(Flat(query), '/') else Asked(query, first)
  }

  function Piece(entry: (string, string), delim: string, first: bool): string {
    if delim != "" then "/" + entry.0 + "/" + entry.1 else (if first then "?" else "&") + entry.0 + "=" + entry.1
  }

  lemma PrintStep(s: string, query: Query, delim: string, first: bool)
    requires query != []
    ensures s + Unprinted(query, delim, first) == s + Piece(query[0], delim, first) + Unprinted(query[1..], delim, false)
  {
    var piece, rest := Piece(query[0], delim, first), Unprinted(query[1..], delim, false);
    if delim != "" { LedOfFlat(query); }
    assert Unprinted(query, delim, first) == piece + rest;
    assert s + (piece + rest) == s + piece + rest;
  }

  lemma LedOfFlat(query: Query)
    requires query != []
    ensures Led(Flat(query), '/') == "/" + query[0].0 + "/" + query[0].1 + Led(Flat(query[1..]), '/')
  {
    var k, v, rest := query[0].0, query[0].1, Flat(query[1..]);
    assert Flat(query) == [k] + ([v] + rest);
    LedCons(k, [v] + rest);
    LedCons(v, rest);
    Associates("/" + k, "/", v, Led(rest, '/'));
    var tail := "/" + (v + Led(rest, '/'));
    assert "/" + (k + tail) == "/" + k + tail;
  }

  // ---------------------------------------------------------------- round trip

  // Pieces between "_" that are not empty, and no slash.
  predicate Plain(s: string) { forall k :: 0 <= k < |s| ==> PlainAt(s, k) }

  predicate PlainAt(s: string, k: nat)
    requires k < |s|
  {
    s[k] != '/' && (s[k] == '_' ==> 0 < k < |s| - 1 && s[k + 1] != '_')
  }

  lemma PlainFrom(s: string, n: nat)
    requires Plain(s) && n < |s| && s[n] == '_'
    ensures n + 1 < |s| && Plain(s[n + 1..])
  {
    var u := s[n + 1..];
    assert PlainAt(s, n);
    forall k | 0 <= k < |u| ensures PlainAt(u, k) {
      assert PlainAt(s, n + 1 + k) && u[k] == s[n + 1 + k];
    }
  }

  lemma PlainJoin(w: string, t: string)
    requires IsWord(w, "_/") && Plain(t) && t != "" && t[0] != '_'
    ensures Plain(w + ['_'] + t)
  {
    var s := w + ['_'] + t;
    assert '_' in "_/" && '/' in "_/";
    forall k | 0 <= k < |s| ensures PlainAt(s, k) {
      if k < |w| {
        assert s[k] == w[k];
      } else if k > |w| {
        assert PlainAt(t, k - |w| - 1) && s[k] == t[k - |w| - 1];
      }
    }
  }

  /** Cutting at slashes what was cut at "_" before is cutting at both. */
  lemma {:induction false} WordsOfPieces(s: string)
    ensures Words(Led(Words(s, "_"), '/'), "/") == Words(s, "_/")
    decreases |s|
  {
    if s != "" {
      if s[0] == '_' {
        WordsOfPieces(s[1..]);
      } else {
        var n := Span(s, "_");
        var w, t := s[..n], s[n..];
        WordsOfPieces(t);
        LedSplits(w, Words(t, "_"));
        WordsPastDelim('/', w + Led(Words(t, "_"), '/'), "/");
        WordsInFront(w, Led(Words(t, "_"), '/'), "/", "/");
        assert s == w + t;
        WordsInFront(w, t, "/", "_/");
      }
    }
  }

  lemma LedSplits(w: string, ws: seq<string>)
    ensures Led([w] + ws, '/') == "/" + (w + Led(ws, '/'))
  {
    assert ([w] + ws)[1..] == ws;
  }

  /** A string in front of a delimiter contributes its own words; delim2 may add delimiters it does not hold. */
  lemma {:induction false} WordsInFront(w: string, t: string, delim: string, delim2: string)
    requires t == "" || t[0] in delim2
    requires forall k :: 0 <= k < |w| ==> (w[k] in delim <==> w[k] in delim2)
    ensures Words(w + t, delim2) == Words(w, delim) + Words(t, delim2)
    decreases |w|
  {
    if w == "" {
      assert w + t == t;
    } else if w[0] in delim {
      assert (w + t)[1..] == w[1..] + t;
      WordsInFront(w[1..], t, delim, delim2);
    } else {
      var n := Span(w, delim);
      var x, y := w[..n], w[n..];
      WordsInFront(y, t, delim, delim2);
      assert w + t == x + (y + t);
      assert forall k :: 0 <= k < |x| ==> x[k] == w[k];
      WordsAfter(x, y + t, delim2);
    }
  }

  /** Joining the words of a string gives the string back exactly when it is plain. */
  lemma {:induction false} JoinedIsPlain(s: string)
    ensures Joined(Words(s, "_/"), '_') == s <==> Plain(s)
  {
    if Plain(s) {
      PlainJoins(s);
    } else {
      JoinedPlain(Words(s, "_/"));
    }
  }

  lemma {:induction false} JoinedPlain(ws: seq<string>)
    requires forall k :: 0 <= k < |ws| ==> IsWord(ws[k], "_/")
    ensures Plain(Joined(ws, '_')) && (ws != [] ==> Joined(ws, '_') != "" && Joined(ws, '_')[0] != '_')
  {
    assert '_' in "_/" && '/' in "_/";
    if |ws| > 1 {
      JoinedPlain(ws[1..]);
      PlainJoin(ws[0], Joined(ws[1..], '_'));
    } else if |ws| == 1 {
      assert forall k :: 0 <= k < |ws[0]| ==> PlainAt(ws[0], k);
    }
  }

  lemma {:induction false} PlainJoins(s: string)
    requires Plain(s)
    ensures Joined(Words(s, "_/"), '_') == s
    decreases |s|
  {
    if s != "" {
      assert PlainAt(s, 0);
      var n := Span(s, "_/");
      if n < |s| {
        assert PlainAt(s, n);
        PlainFrom(s, n);
        PlainJoins(s[n + 1..]);
        JoinedStep(s[..n], s[n + 1..]);
        assert s == s[..n] + (['_'] + s[n + 1..]);
      } else {
        assert s[..n] == s && Words(s[n..], "_/") == [];
      }
    }
  }

  lemma JoinedStep(w: string, u: string)
    requires IsWord(w, "_/") && u != "" && Joined(Words(u, "_/"), '_') == u
    ensures Joined(Words(w + (['_'] + u), "_/"), '_') == w + (['_'] + u)
  {
    var t := ['_'] + u;
    WordsPastDelim('_', u, "_/");
    WordsAfter(w, t, "_/");
    JoinedCons(w, Words(u, "_/"));
    assert w + ['_'] + u == w + t;
  }

  lemma JoinedCons(w: string, ws: seq<string>)
    requires ws != []
    ensures Joined([w] + ws, '_') == w + ['_'] + Joined(ws, '_')
  {
    assert ([w] + ws)[1..] == ws;
  }

  function PathPart(name: string): string { Led(Words(name, "_"), '/') }

  function Arrives(r: Request, prefer: bool): Option<string> { if prefer then r.controller else r.action }

  lemma OccursMeans(h: string, n: string, i: nat)
    requires i + |n| <= |h|
    ensures OccursAt(h, n, i) <==> forall q :: 0 <= q < |n| ==> h[i + q] == n[q]
  {
    var part := h[i..i + |n|];
    assert forall q :: 0 <= q < |n| ==> part[q] == h[i + q];
  }

  lemma UriShape(path: string, delim: string, tail: string)
    ensures var uri := path + ("/" + delim + tail); var n := |path|;
      && |uri| == n + 1 + |delim| + |tail| && uri[n] == '/' && uri[..n + 1] == path + "/"
      && uri[n + 1 + |delim|..] == tail && OccursAt(uri, delim, n + 1)
      && uri[..n] == path
  {
  }

  lemma NotBefore(path: string, delim: string, tail: string, k: nat)
    requires delim != "" && '/' !in delim && !OccursAt(path, delim, k) && k <= |path|
    ensures !OccursAt(path + ("/" + delim + tail), delim, k)
  {
    var uri := path + ("/" + delim + tail);
    UriShape(path, delim, tail);
    if k + |delim| <= |uri| {
      OccursMeans(uri, delim, k);
      if k + |delim| <= |path| {
        OccursMeans(path, delim, k);
      } else {
        assert uri[k + (|path| - k)] == '/';
      }
    }
  }

  /** A slash-free delimiter that the path does not hold is first found behind the path. */
  lemma DelimStandsBehind(path: string, delim: string, tail: string)
    requires delim != "" && '/' !in delim && Find(path, delim, 0).None?
    ensures Find(path + ("/" + delim + tail), delim, 0) == Some(|path| + 1)
  {
    var uri := path + ("/" + delim + tail);
    UriShape(path, delim, tail);
    FindMeans(path, delim, 0);
    assert NoneIn(uri, delim, 0, |path| + 1) by {
      forall k | 0 <= k <= |path| ensures !OccursAt(uri, delim, k) {
        NotBefore(path, delim, tail, k);
      }
    }
    FindIs(uri, delim, 0, |path| + 1);
  }

  /** Routing what assemble printed cuts the URI where assemble joined it. */
  lemma PrintedIsCut(prefer: bool, delim: string, stray: char, info: Info, query: Query)
    requires NameKey(prefer) in info && delim != ""
    requires var path := PathPart(info[NameKey(prefer)]);
      Find(Assembled(prefer, delim, info, Some(query)).value, delim, 0) == Some(|path| + 1)
    ensures CutAtDelim(Assembled(prefer, delim, info, Some(query)).value, delim, stray) ==
            Cut(PathPart(info[NameKey(prefer)]) + "/", if query == [] then None else Some(Led(Flat(query), '/')))
  {
    var tail := Led(Flat(query), '/');
    if query != [] { LedOfFlat(query); }
    CutKeepsPath(PathPart(info[NameKey(prefer)]), delim, tail, stray);
  }

  /**
  Map round trip: routing what assemble printed gives the name back if and only if the name is
  plain, and all parameters, provided the delimiter is first found where assemble put it.
  */
  lemma MapRoundTrip(r: Request, prefer: bool, delim: string, stray: char, info: Info, query: Query)
    requires NameKey(prefer) in info && Printable(query) && delim != ""
    requires PathOf(r) == Assembled(prefer, delim, info, Some(query)).value
    requires Find(PathOf(r), delim, 0) == Some(|PathPart(info[NameKey(prefer)])| + 1)
    ensures var name, out := info[NameKey(prefer)], Target(r, prefer, delim, stray);
      && (Words(name, "_/") != [] ==> Arrives(out, prefer) == Some(Joined(Words(name, "_/"), '_')))
      && (Words(name, "_/") != [] ==> (Arrives(out, prefer) == Some(name) <==> Plain(name)))
      && (Words(name, "_/") == [] ==> Arrives(out, prefer) == Arrives(r, prefer))
      && out.params == r.params + MapOf(map[], query)
  {
    var name := info[NameKey(prefer)];
    PrintedIsCut(prefer, delim, stray, info, query);
    AimedAt(r, prefer, name, query);
  }

  lemma AimedAt(r: Request, prefer: bool, name: string, query: Query)
    requires Printable(query)
    ensures var out := Aimed(r, prefer, Cut(PathPart(name) + "/", if query == [] then None else Some(Led(Flat(query), '/'))));
      && (Words(name, "_/") != [] ==> Arrives(out, prefer) == Some(Joined(Words(name, "_/"), '_')))
      && (Words(name, "_/") != [] ==> (Arrives(out, prefer) == Some(name) <==> Plain(name)))
      && (Words(name, "_/") == [] ==> Arrives(out, prefer) == Arrives(r, prefer))
      && out.params == r.params + MapOf(map[], query)
  {
    var path := PathPart(name) + "/";
    NameOfPath(name);
    assert NameOf(path) == Joined(Words(name, "_/"), '_');
    JoinedIsPlain(name);
    if query != [] {
      ParsePrinted(query);
    } else {
      assert r.params + map[] == r.params;
    }
  }

  lemma NameOfPath(name: string)
    ensures Words(PathPart(name) + "/", "/") == Words(PathPart(name), "/") == Words(name, "_/")
  {
    WordsOfSlashed(PathPart(name));
    WordsOfPieces(name);
  }

  lemma WordsOfSlashed(path: string)
    ensures Words(path + "/", "/") == Words(path, "/")
  {
    WordsInFront(path, "/", "/", "/");
    WordsPastDelim('/', "", "/");
    assert ['/'] + "" == "/";
  }

  lemma CutKeepsPath(path: string, delim: string, tail: string, stray: char)
    requires delim != "" && Find(path + ("/" + delim + tail), delim, 0) == Some(|path| + 1)
    requires tail == "" || tail[0] == '/'
    ensures CutAtDelim(path + ("/" + delim + tail), delim, stray) ==
            Cut(path + "/", if tail == "" then None else Some(tail))
  {
    UriShape(path, delim, tail);
    CutBehind(path + ("/" + delim + tail), delim, stray, path + "/", tail, |path| + 1);
  }

  lemma CutBehind(uri: string, delim: string, stray: char, front: string, tail: string, i: nat)
    requires delim != "" && Find(uri, delim, 0) == Some(i) && 0 < i && i + |delim| <= |uri| && uri[i - 1] == '/'
    requires uri[..i] == front && uri[i + |delim|..] == tail && (tail == "" || tail[0] == '/')
    ensures CutAtDelim(uri, delim, stray) == Cut(front, if tail == "" then None else Some(tail))
  {
  }

  /** Without parameters the name comes back under the same condition, if the path holds no delimiter. */
  lemma NameRoundTrip(r: Request, prefer: bool, delim: string, stray: char, info: Info)
    requires NameKey(prefer) in info
    requires PathOf(r) == Assembled(prefer, delim, info, None).value && (delim == "" || Find(PathOf(r), delim, 0).None?)
    ensures var name, out := info[NameKey(prefer)], Target(r, prefer, delim, stray);
      && (Words(name, "_/") != [] ==> Arrives(out, prefer) == Some(Joined(Words(name, "_/"), '_')))
      && (Words(name, "_/") != [] ==> (Arrives(out, prefer) == Some(name) <==> Plain(name)))
      && (Words(name, "_/") == [] ==> Arrives(out, prefer) == Arrives(r, prefer))
      && out.params == r.params
  {
    var name := info[NameKey(prefer)];
    assert PathOf(r) == PathPart(name);
    WordsOfPieces(name);
    JoinedIsPlain(name);
  }

  /** Without a delimiter the parameters are printed as a query, which is read back behind the path. */
  lemma QueryReadsBack(prefer: bool, info: Info, query: Query)
    requires NameKey(prefer) in info && '?' !in info[NameKey(prefer)] && Askable(query)
    ensures var uri := Assembled(prefer, "", info, Some(query));
      uri.Some? && ReadUri(uri.value) == (PathPart(info[NameKey(prefer)]), query)
  {
    var name := info[NameKey(prefer)];
    WordsHaveNo(name, "_", '?');
    LedHasNo(Words(name, "_"), '?');
    UriReadsBack(PathPart(name), query);
  }

  /** An instance of the failure: the name "a__b" comes back as "a_b". */
  lemma EmptyPieceIsLost(stray: char)
    ensures var uri := Assembled(true, "", map[":a" := "a__b"], None);
      uri.Some? && Arrives(Target(Request(uri.value, None, None, None, None, map[], false), true, "", stray), true) == Some("a_b")
  {
    var info := map[":a" := "a__b"];
    var r := Request(Assembled(true, "", info, None).value, None, None, None, None, map[], false);
    NameRoundTrip(r, true, "", stray, info);
    WordsOfDoubled();
  }

  lemma WordsOfDoubled()
    ensures Words("a__b", "_/") == ["a", "b"] && Joined(["a", "b"], '_') == "a_b"
  {
    WordsAfter("a", "__b", "_/");
    WordsPastDelim('_', "_b", "_/");
    WordsPastDelim('_', "b", "_/");
    WordsAfter("b", "", "_/");
    assert "a" + "__b" == "a__b" && ['_'] + "_b" == "__b" && ['_'] + "b" == "_b" && "b" + "" == "b";
  }
}
