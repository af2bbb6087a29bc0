/**
yaf_router.c: the request as the routes see it, the "/key/value" parameters of a URI, and the
search through the registered routes.
*/
module Router {
  import opened Strtok

  // A parameter is a string, or null when its key came last without a value.
  type Params = map<string, Option<string>>

  datatype Request = Request(uri: string, base: Option<string>, module_: Option<string>, controller: Option<string>,
                             action: Option<string>, params: Params, routed: bool)

  /** The URI behind the base URI, letter case aside; the whole URI when the base does not lead it. */
  function PathOf(r: Request): string {
    if r.base.Some? && |r.base.value| <= |r.uri| && SameName(r.uri[..|r.base.value|], r.base.value) then
      r.uri[|r.base.value|..]
    else r.uri
  }

  /** A base URI is taken off, exactly if it leads the URI up to letter case; else the URI stays whole. */
  lemma BaseIsTakenOff(r: Request)
    ensures forall front, p :: r.base.Some? && r.uri == front + p && SameName(front, r.base.value) ==> PathOf(r) == p
    ensures r.base.None? || (forall front, p :: r.uri == front + p ==> !SameName(front, r.base.value)) ==> PathOf(r) == r.uri
  {
    forall front, p | r.base.Some? && r.uri == front + p && SameName(front, r.base.value) ensures PathOf(r) == p {
      assert r.uri[..|front|] == front && r.uri[|front|..] == p;
    }
    if r.base.Some? && |r.base.value| <= |r.uri| {
      var n := |r.base.value|;
      assert r.uri == r.uri[..n] + r.uri[n..];
    }
  }

  // ---------------------------------------------------------------- parse_parameters

  /** Keys and values in turn; a later key overwrites an earlier one, a last key alone is null. */
  function Pairs(m: Params, ws: seq<string>): Params
    decreases |ws|
  {
    if ws == [] then m
    else if |ws| == 1 then m[ws[0] := None]
    else Pairs(m[ws[0] := Some(ws[1])], ws[2..])
  }

  function Parsed(uri: string): Params { Pairs(map[], Words(uri, "/")) }

  method ParseParameters(uri: string) returns (params: Params)
    requires NUL !in uri
    ensures params == Parsed(uri)
  {
    params := map[];
    var tmp, key, last := FirstToken(uri, "/");
    ghost var rest := Words(uri, "/");
    while key.Some?
      invariant fresh(tmp) && (key.None? <==> rest == [])
      invariant key.Some? ==> key.value == rest[0] && Left(tmp[..], last, "/", rest[1..])
      invariant Pairs(params, rest) == Parsed(uri)
      decreases |rest|
    {
      var value: Option<string>;
      var name := key.value;
      value, last := NextToken(tmp, "/", last, rest[1..]);
      params := params[name := value];
      rest := if value.Some? then rest[2..] else [];
      key, last := NextToken(tmp, "/", last, rest);
    }
  }

  // Position i holds a key that no later position holds.
  predicate LastKeyAt(ws: seq<string>, i: nat, key: string) {
    i < |ws| && i % 2 == 0 && ws[i] == key && forall j :: i < j < |ws| && j % 2 == 0 ==> ws[j] != key
  }

  lemma {:induction false} PairsKeep(m: Params, ws: seq<string>, key: string)
    requires forall j :: 0 <= j < |ws| && j % 2 == 0 ==> ws[j] != key
    ensures key in Pairs(m, ws) <==> key in m
    ensures key in m ==> Pairs(m, ws)[key] == m[key]
    decreases |ws|
  {
    if |ws| > 1 {
      assert forall j :: 0 <= j < |ws[2..]| && j % 2 == 0 ==> ws[2..][j] == ws[j + 2];
      PairsKeep(m[ws[0] := Some(ws[1])], ws[2..], key);
    }
  }

  /** The last occurrence of a key decides; a trailing lone key is null. */
  lemma {:induction false} LastKeyWins(m: Params, ws: seq<string>, i: nat, key: string)
    requires LastKeyAt(ws, i, key)
    ensures key in Pairs(m, ws) && Pairs(m, ws)[key] == if i + 1 < |ws| then Some(ws[i + 1]) else None
    decreases |ws|
  {
    if |ws| > 1 {
      var t := m[ws[0] := Some(ws[1])];
      assert forall j :: 0 <= j < |ws[2..]| && j % 2 == 0 ==> ws[2..][j] == ws[j + 2];
      if i == 0 {
        PairsKeep(t, ws[2..], key);
      } else {
        LastKeyWins(t, ws[2..], i - 2, key);
      }
    }
  }

  // ---------------------------------------------------------------- printing "/key/value"

  type Query = seq<(string, string)>

  function Flat(query: Query): seq<string> {
    if query == [] then [] else [query[0].0, query[0].1] + Flat(query[1..])
  }

  function MapOf(m: Params, query: Query): Params
    decreases |query|
  {
    if query == [] then m else MapOf(m[query[0].0 := Some(query[0].1)], query[1..])
  }

  /** "?k=v&k=v", or its continuation. */
  function Asked(query: Query, first: bool): string {
    if query == [] then ""
    else (if first then "?" else "&") + query[0].0 + "=" + query[0].1 + Asked(query[1..], false)
  }

  method PrintAsked(query: Query) returns (s: string)
    ensures s == Asked(query, true)
  {
    s := "";
    var start, end := false, false;
    for k := 0 to |query|
      invariant start == end == (k > 0) && s + Asked(query[k..], !start) == Asked(query, true)
    {
      ghost var before := s;
      var piece := if start then "&" else "?";
      piece := piece + query[k].0 + "=" + query[k].1;
      s := s + piece;
      assert before + (piece + Asked(query[k + 1..], false)) == s + Asked(query[k + 1..], false);
      start, end := true, true;
    }
  }

  // What the reader of a query makes of one pair.
  function PairOf(piece: string): (string, string) {
    var n := Span(piece, "=");
    (piece[..n], if n < |piece| then piece[n + 1..] else "")
  }

  function PairsRead(pieces: seq<string>): Query {
    if pieces == [] then [] else [PairOf(pieces[0])] + PairsRead(pieces[1..])
  }

  /** A query string as it is read: pieces between "&", cut at their first "=". */
  function ReadAsked(s: string): Query {
    if s == "" || s[0] != '?' then [] else PairsRead(Words(s[1..], "&"))
  }

  function PairTexts(query: Query): seq<string> {
    if query == [] then [] else [query[0].0 + "=" + query[0].1] + PairTexts(query[1..])
  }

  // Keys and values without the characters of the query syntax.
  predicate Askable(query: Query) {
    forall k :: 0 <= k < |query| ==> '&' !in query[k].0 && '=' !in query[k].0 && '&' !in query[k].1
  }

  lemma {:induction false} AskedIsLed(query: Query)
    ensures Asked(query, false) == Led(PairTexts(query), '&')
    ensures query != [] ==> Asked(query, true) == "?" + Asked(query, false)[1..]
  {
    if query != [] {
      AskedIsLed(query[1..]);
      var text, more := query[0].0 + "=" + query[0].1, Asked(query[1..], false);
      assert Asked(query, false) == "&" + (text + more);
      assert Asked(query, true) == "?" + (text + more);
    }
  }

  lemma {:induction false} PairsReadBack(query: Query)
    requires Askable(query)
    ensures PairsRead(PairTexts(query)) == query
    ensures forall k :: 0 <= k < |PairTexts(query)| ==> IsWord(PairTexts(query)[k], "&")
  {
    if query != [] {
      var key, value := query[0].0, query[0].1;
      PairReadBack(key, value);
      assert forall k :: 0 <= k < |query[1..]| ==> query[1..][k] == query[k + 1];
      PairsReadBack(query[1..]);
      assert query == [(key, value)] + query[1..];
    }
  }

  lemma PairReadBack(key: string, value: string)
    requires '=' !in key && '&' !in key && '&' !in value
    ensures PairOf(key + "=" + value) == (key, value) && IsWord(key + "=" + value, "&")
  {
    var piece := key + "=" + value;
    assert piece == key + ("=" + value);
    SpanUpTo(key, "=" + value, "=");
    assert piece[|key| + 1..] == value && piece[..|key|] == key;
  }

  /** The printed query is read back to its pairs. */
  lemma AskedReadsBack(query: Query)
    requires Askable(query)
    ensures ReadAsked(Asked(query, true)) == query
  {
    AskedIsLed(query);
    PairsReadBack(query);
    if query != [] {
      var texts := PairTexts(query);
      var led := Led(texts, '&');
      WordsOfLed(texts, '&', "&", "");
      assert led + "" == led && texts + [] == texts;
      WordsPastDelim('&', led[1..], "&");
      assert ['&'] + led[1..] == led;
      assert Asked(query, true)[1..] == led[1..];
    }
  }

  /** A printed URI as it is read: the path in front of the first "?", and the pairs behind it. */
  function ReadUri(uri: string): (string, Query) {
    var n := Span(uri, "?");
    (uri[..n], ReadAsked(uri[n..]))
  }

  /** Path and query of a printed URI are read back. */
  lemma UriReadsBack(path: string, query: Query)
    requires '?' !in path && Askable(query)
    ensures ReadUri(path + Asked(query, true)) == (path, query)
  {
    var asked := Asked(query, true);
    AskedReadsBack(query);
    if query != [] { AskedIsLed(query); }
    SpanUpTo(path, asked, "?");
    assert (path + asked)[..|path|] == path && (path + asked)[|path|..] == asked;
  }

  lemma {:induction false} LedHasNo(ws: seq<string>, c: char)
    requires c != '/' && forall k :: 0 <= k < |ws| ==> c !in ws[k]
    ensures c !in Led(ws, '/')
  {
    if ws != [] { LedHasNo(ws[1..], c); }
  }

  lemma {:induction false} WordsHaveNo(s: string, delim: string, c: char)
    requires c !in s
    ensures forall k :: 0 <= k < |Words(s, delim)| ==> c !in Words(s, delim)[k]
    decreases |s|
  {
    if s != "" {
      if s[0] in delim { WordsHaveNo(s[1..], delim, c); } else { WordsHaveNo(s[Span(s, delim)..], delim, c); }
    }
  }

  predicate Printable(query: Query) {
    forall k :: 0 <= k < |query| ==> IsWord(query[k].0, "/") && IsWord(query[k].1, "/")
  }

  lemma {:induction false} FlatIsWords(query: Query)
    requires Printable(query)
    ensures forall k :: 0 <= k < |Flat(query)| ==> IsWord(Flat(query)[k], "/")
  {
    if query != [] { FlatIsWords(query[1..]); }
  }

  lemma {:induction false} PairsOfFlat(m: Params, query: Query)
    ensures Pairs(m, Flat(query)) == MapOf(m, query)
    decreases |query|
  {
    if query != [] {
      assert Flat(query)[2..] == Flat(query[1..]);
      PairsOfFlat(m[query[0].0 := Some(query[0].1)], query[1..]);
    }
  }

  /** Parsing what printing wrote gives the pairs back, for every list of non-empty slash-free pairs. */
  lemma ParsePrinted(query: Query)
    requires Printable(query)
    ensures Parsed(Led(Flat(query), '/')) == MapOf(map[], query)
  {
    FlatIsWords(query);
    WordsOfLed(Flat(query), '/', "/", "");
    assert Led(Flat(query), '/') + "" == Led(Flat(query), '/');
    assert Flat(query) + [] == Flat(query);
    PairsOfFlat(map[], query);
  }

  // The list holds every entry of the map once.
  ghost predicate Lists(query: Query, m: map<string, string>) {
    && (forall j, k :: 0 <= j < k < |query| ==> query[j].0 != query[k].0)
    && (forall k :: 0 <= k < |query| ==> query[k].0 in m && m[query[k].0] == query[k].1)
    && (forall key :: key in m ==> exists k :: 0 <= k < |query| && query[k].0 == key)
  }

  lemma {:induction false} MapOfGives(p: Params, query: Query, k: nat)
    requires forall i, j :: 0 <= i < j < |query| ==> query[i].0 != query[j].0
    requires k < |query|
    ensures query[k].0 in MapOf(p, query) && MapOf(p, query)[query[k].0] == Some(query[k].1)
    decreases |query|
  {
    var t := p[query[0].0 := Some(query[0].1)];
    if k == 0 {
      assert forall j :: 0 <= j < |query[1..]| ==> query[1..][j].0 != query[0].0;
      MapOfKeeps(t, query[1..], query[0].0);
    } else {
      MapOfGives(t, query[1..], k - 1);
    }
  }

  lemma {:induction false} MapOfKeeps(p: Params, query: Query, key: string)
    requires forall j :: 0 <= j < |query| ==> query[j].0 != key
    ensures key in MapOf(p, query) <==> key in p
    ensures key in p ==> MapOf(p, query)[key] == p[key]
    decreases |query|
  {
    if query != [] { MapOfKeeps(p[query[0].0 := Some(query[0].1)], query[1..], key); }
  }

  /** Printing a map in any order and parsing it gives the map. */
  lemma ParseIsInverse(m: map<string, string>, query: Query)
    requires Lists(query, m) && Printable(query)
    ensures Parsed(Led(Flat(query), '/')) == map key | key in m :: Some(m[key])
  {
    ParsePrinted(query);
    var p := MapOf(map[], query);
    forall key | key in m ensures key in p && p[key] == Some(m[key]) {
      var k :| 0 <= k < |query| && query[k].0 == key;
      MapOfGives(map[], query, k);
    }
    forall key | key in p ensures key in m {
      if key !in m { MapOfKeeps(map[], query, key); }
    }
  }

  // ---------------------------------------------------------------- yaf_router_route

  // What a route's route method answers, and what it leaves in the request.
  datatype Answer = Answer(ok: bool, request: Request)

  /** The routes below n, from the last registered to the first, until one accepts. */
  function Routed(call: (nat, Request) -> Answer, n: nat, r: Request): (Option<nat>, Request) {
    if n == 0 then (None, r)
    else
      var a := call(n - 1, r);
      if a.ok then (Some(n - 1), a.request.(routed := true)) else Routed(call, n - 1, a.request)
  }

  method Route(routes: nat, call: (nat, Request) -> Answer, request: Request)
    returns (current: Option<nat>, out: Request)
    ensures (current, out) == Routed(call, routes, request)
  {
    var n := routes;
    out := request;
    while n > 0
      invariant 0 <= n <= routes && Routed(call, n, out) == Routed(call, routes, request)
    {
      var a := call(n - 1, out);
      out := a.request;
      n := n - 1;
      if a.ok {
        return Some(n), out.(routed := true);
      }
    }
    return None, out;
  }

  /** The request that route k is asked with, after the routes behind it refused and perhaps changed it. */
  function Seen(call: (nat, Request) -> Answer, n: nat, k: nat, r: Request): Request
    requires k < n
  {
    if k == n - 1 then r else Seen(call, n - 1, k, call(n - 1, r).request)
  }

  /** Whatever the routes do: the current route is the last registered one that accepts the request it sees. */
  lemma {:induction false} AskedFromTheLast(call: (nat, Request) -> Answer, n: nat, r: Request)
    ensures var (current, out) := Routed(call, n, r);
      match current
      case None => forall k: nat :: k < n ==> !call(k, Seen(call, n, k, r)).ok
      case Some(c) => c < n && call(c, Seen(call, n, c, r)).ok
                      && out == call(c, Seen(call, n, c, r)).request.(routed := true)
                      && forall k: nat :: c < k < n ==> !call(k, Seen(call, n, k, r)).ok
  {
    if n > 0 && !call(n - 1, r).ok {
      var next := call(n - 1, r).request;
      AskedFromTheLast(call, n - 1, next);
      assert forall k: nat :: k < n - 1 ==> Seen(call, n, k, r) == Seen(call, n - 1, k, next);
    }
  }

  /** When refusing routes leave the request alone, the last registered route that accepts it wins. */
  lemma {:induction false} LastAcceptingRouteWins(call: (nat, Request) -> Answer, n: nat, r: Request)
    requires forall k: nat :: k < n && !call(k, r).ok ==> call(k, r).request == r
    ensures var (current, out) := Routed(call, n, r);
      match current
      case None => out == r && forall k: nat :: k < n ==> !call(k, r).ok
      case Some(c) => c < n && call(c, r).ok && out == call(c, r).request.(routed := true)
                      && forall k :: c < k < n ==> !call(k, r).ok
  {
    if n > 0 && !call(n - 1, r).ok { LastAcceptingRouteWins(call, n - 1, r); }
  }
}
