/**
routes/yaf_route_rewrite.c: patterns of literal, ":name" and "*" segments are turned into regular expressions,
matched without an end anchor, and printed back by replacing their marked tokens.
*/
module RouteRewrite {
  import opened Strtok
  import opened Router

  // ---------------------------------------------------------------- the regular expressions it emits

  // One character, a named "[^/]+", or the final "(?P<__yaf_route_rest>.*)".
  datatype Item = Chr(c: char) | Group(name: string) | Rest

  function Chars(s: string): seq<Item> { seq(|s|, i requires 0 <= i < |s| => Chr(s[i])) }

  function ItemText(item: Item): string {
    match item
    case Chr(c) => [c]
    case Group(name) => GroupText(name)
    case Rest => RestText()
  }

  function GroupText(name: string): string { "(?P<" + name + ">[^/]+)" }

  function RestText(): string { "(?P<__yaf_route_rest>.*)" }

  function Text(items: seq<Item>): string {
    if items == [] then "" else ItemText(items[0]) + Text(items[1..])
  }

  predicate Tokens(tokens: seq<string>) { forall k :: 0 <= k < |tokens| ==> IsWord(tokens[k], "/") }

  /** What the tokens of a pattern compile to; nothing behind a star counts. */
  function Compile(tokens: seq<string>): seq<Item>
    requires Tokens(tokens)
  {
    if tokens == [] then []
    else
      var t := tokens[0];
      assert IsWord(t, "/");
      if t[0] == '*' then [Chr('/'), Rest]
      else if t[0] == ':' then [Chr('/'), Group(t[1..])] + Compile(tokens[1..])
      else [Chr('/')] + Chars(t) + Compile(tokens[1..])
  }

  method PatternText(match_: string) returns (pattern: string)
    requires NUL !in match_
    ensures pattern == "#^" + Text(Compile(Words(match_, "/"))) + "#i"
  {
    pattern := "#^";
    var pmatch, seg, last := FirstToken(match_, "/");
    ghost var rest := Words(match_, "/");
    ghost var all := "#^" + Text(Compile(rest));
    while seg.Some?
      invariant fresh(pmatch) && Tokens(rest)
      invariant seg.None? <==> rest == []
      invariant seg.Some? ==> seg.value == rest[0] && Left(pmatch[..], last, "/", rest[1..])
      invariant pattern + Text(Compile(rest)) == all
      decreases |rest|
    {
      CompileStep(pattern, rest);
      pattern := pattern + "/";
      if seg.value[0] == '*' {
        pattern := pattern + RestText();
        break;
      }
      if seg.value[0] == ':' {
        pattern := pattern + GroupText(seg.value[1..]);
      } else {
        pattern := pattern + seg.value;
      }
      rest := rest[1..];
      seg, last := NextToken(pmatch, "/", last, rest);
    }
    pattern := pattern + "#i";
  }

  lemma {:induction false} TextJoin(x: seq<Item>, y: seq<Item>)
    ensures Text(x + y) == Text(x) + Text(y)
  {
    if x == [] {
      assert x + y == y;
    } else {
      assert (x + y)[1..] == x[1..] + y;
      TextJoin(x[1..], y);
    }
  }

  lemma {:induction false} TextOfChars(s: string)
    ensures Text(Chars(s)) == s
  {
    if s != "" {
      assert Chars(s)[1..] == Chars(s[1..]);
      TextOfChars(s[1..]);
    }
  }

  function Piece(t: string): string
    requires IsWord(t, "/")
  {
    if t[0] == '*' then RestText() else if t[0] == ':' then GroupText(t[1..]) else t
  }

  // The items of one token, behind its slash.
  function Own(t: string): seq<Item>
    requires IsWord(t, "/")
  {
    if t[0] == '*' then [Rest] else if t[0] == ':' then [Group(t[1..])] else Chars(t)
  }

  lemma TextOfOwn(t: string)
    requires IsWord(t, "/")
    ensures Text(Own(t)) == Piece(t)
  {
    if t[0] == '*' {
      TextOfOne(Rest);
    } else if t[0] == ':' {
      TextOfOne(Group(t[1..]));
    } else {
      TextOfChars(t);
    }
  }

  lemma CompileOwn(tokens: seq<string>)
    requires tokens != [] && Tokens(tokens)
    ensures IsWord(tokens[0], "/")
    ensures Compile(tokens) == [Chr('/')] + (Own(tokens[0]) + if tokens[0][0] == '*' then [] else Compile(tokens[1..]))
  {
  }

  /** What one token adds to the text of the pattern. */
  lemma CompileStep(done: string, tokens: seq<string>)
    requires tokens != [] && Tokens(tokens)
    ensures IsWord(tokens[0], "/")
    ensures var more := if tokens[0][0] == '*' then "" else Text(Compile(tokens[1..]));
      done + Text(Compile(tokens)) == done + "/" + Piece(tokens[0]) + more
  {
    var t := tokens[0];
    CompileOwn(tokens);
    var tail := if t[0] == '*' then [] else Compile(tokens[1..]);
    TextJoin([Chr('/')], Own(t) + tail);
    TextJoin(Own(t), tail);
    TextOfOne(Chr('/'));
    TextOfOwn(t);
    Associates(done, "/", Piece(t), Text(tail));
  }

  lemma TextOfOne(item: Item)
    ensures Text([item]) == ItemText(item)
  {
    assert [item][1..] == [];
  }

  // ---------------------------------------------------------------- matching

  datatype Caps = Caps(named: map<string, string>, rest: Option<string>)

  const NOTHING := Caps(map[], None)

  function Captured(item: Item, part: string, c: Caps): Caps {
    match item
    case Chr(_) => c
    case Group(name) => c.(named := c.named[name := part])
    case Rest => c.(rest := Some(part))
  }

  /**
  A backtracking match from the start of s, greedy and without regard to letter case: what follows
  the last item is ignored.
  */
  function Try(items: seq<Item>, s: string): Option<Caps>
    decreases |items|, 0
  {
    if items == [] then Some(NOTHING)
    else match items[0]
      case Chr(c) => if s != "" && Lower(s[0]) == Lower(c) then Try(items[1..], s[1..]) else None
      case Group(_) => TryLen(items, s, Span(s, "/"), 1)
      case Rest => TryLen(items, s, Span(s, "\n"), 0)
  }

  // The longest of the lengths min .. k of the first item with which the others match.
  function TryLen(items: seq<Item>, s: string, k: nat, min: nat): Option<Caps>
    requires items != [] && k <= |s|
    decreases |items| - 1, k + 1
  {
    if k < min then None
    else
      var c := Try(items[1..], s[k..]);
      if c.Some? then Some(Captured(items[0], s[..k], c.value))
      else if k == 0 then None
      else TryLen(items, s, k - 1, min)
  }

  // ---------------------------------------------------------------- segment by segment

  // t in front of p, letter case aside.
  predicate Leads(t: string, p: string) { |t| <= |p| && SameName(p[..|t|], t) }

  /**
  The reading the patterns promise: a literal token stands behind a slash, ":name" takes a whole
  segment, "*" takes the remainder of the line; what follows the last token is ignored.
  */
  function SegMatch(tokens: seq<string>, s: string): Option<Caps>
    requires Tokens(tokens)
    decreases |tokens|
  {
    if tokens == [] then Some(NOTHING)
    else if s == "" || s[0] != '/' then None
    else
      var t, p := tokens[0], s[1..];
      assert IsWord(t, "/");
      if t[0] == '*' then Some(Captured(Rest, p[..Span(p, "\n")], NOTHING))
      else if t[0] == ':' then
        var n := Span(p, "/");
        if n == 0 then None
        else
          var c := SegMatch(tokens[1..], p[n..]);
          if c.None? then None else Some(Captured(Group(t[1..]), p[..n], c.value))
      else if Leads(t, p) then SegMatch(tokens[1..], p[|t|..])
      else None
  }

  lemma {:induction false} TryChars(t: string, items: seq<Item>, s: string)
    ensures Try(Chars(t) + items, s) == if Leads(t, s) then Try(items, s[|t|..]) else None
    decreases |t|
  {
    if t == "" {
      assert Chars(t) + items == items && s[0..] == s;
    } else {
      assert (Chars(t) + items)[1..] == Chars(t[1..]) + items;
      if s != "" {
        TryChars(t[1..], items, s[1..]);
        if Lower(s[0]) == Lower(t[0]) {
          LeadsStep(t, s);
          if |t| <= |s| { assert s[1..][|t| - 1..] == s[|t|..]; }
        } else if |t| <= |s| {
          assert s[..|t|][0] == s[0];
        }
      }
    }
  }

  lemma LeadsStep(t: string, s: string)
    requires t != "" && s != "" && Lower(s[0]) == Lower(t[0])
    ensures Leads(t, s) <==> Leads(t[1..], s[1..])
  {
    if |t| <= |s| {
      var x, y := s[..|t|], s[1..][..|t| - 1];
      assert forall k :: 0 <= k < |y| ==> y[k] == x[k + 1] && t[1..][k] == t[k + 1];
      if SameName(y, t[1..]) {
        forall k | 0 <= k < |t| ensures Lower(x[k]) == Lower(t[k]) {
          if k > 0 { assert Lower(y[k - 1]) == Lower(t[1..][k - 1]); }
        }
      }
    }
  }

  lemma SlashIsItself(c: char)
    ensures Lower(c) == Lower('/') <==> c == '/'
  {
  }

  /** In front of a slash a group can only end where its segment ends. */
  lemma {:induction false} GroupStopsAtSlash(items: seq<Item>, s: string, k: nat)
    requires |items| > 1 && items[1] == Chr('/') && k < Span(s, "/")
    ensures TryLen(items, s, k, 1) == None
    decreases k
  {
    SlashIsItself(s[k]);
    assert s[k..][0] == s[k] && s[k] != '/';
    assert items[1..][0] == Chr('/');
    if k > 1 { GroupStopsAtSlash(items, s, k - 1); }
  }

  function WholeSegment(items: seq<Item>, s: string): Option<Caps>
    requires items != []
  {
    var n := Span(s, "/");
    if n == 0 then None
    else
      var c := Try(items[1..], s[n..]);
      if c.None? then None else Some(Captured(items[0], s[..n], c.value))
  }

  lemma GroupTakesSegment(items: seq<Item>, s: string)
    requires items != [] && items[0].Group? && (|items| > 1 ==> items[1] == Chr('/'))
    ensures Try(items, s) == WholeSegment(items, s)
  {
    var n := Span(s, "/");
    if |items| > 1 {
      if n > 0 { GroupStopsAtSlash(items, s, n - 1); }
    } else {
      assert items[1..] == [];
    }
  }

  lemma RestTakesLine(s: string)
    ensures Try([Rest], s) == Some(Captured(Rest, s[..Span(s, "\n")], NOTHING))
  {
    assert [Rest][1..] == [];
  }

  lemma CompileStartsWithSlash(tokens: seq<string>)
    requires tokens != [] && Tokens(tokens)
    ensures Compile(tokens) != [] && Compile(tokens)[0] == Chr('/')
  {
  }

  /** Pattern compilation preserves meaning: same URIs, same captures. */
  lemma {:induction false} CompiledReadsSegments(tokens: seq<string>, s: string)
    requires Tokens(tokens)
    ensures Try(Compile(tokens), s) == SegMatch(tokens, s)
    decreases |tokens|, 1
  {
    if tokens != [] {
      CompileStartsWithSlash(tokens);
      if s != "" {
        SlashIsItself(s[0]);
        if s[0] == '/' {
          assert "/" + s[1..] == s;
          TokenReadsSegment(tokens, s[1..]);
        }
      }
    }
  }

  lemma {:induction false} TokenReadsSegment(tokens: seq<string>, p: string)
    requires tokens != [] && Tokens(tokens)
    ensures Compile(tokens) != [] && Try(Compile(tokens)[1..], p) == SegMatch(tokens, "/" + p)
    decreases |tokens|, 0
  {
    var t, more := tokens[0], tokens[1..];
    assert ("/" + p)[1..] == p;
    assert IsWord(t, "/");
    if t[0] == '*' {
      assert [Chr('/'), Rest][1..] == [Rest];
      RestTakesLine(p);
    } else if t[0] == ':' {
      VarReadsSegment(tokens, p);
      CompiledReadsSegments(more, p[Span(p, "/")..]);
    } else {
      LitReadsSegment(tokens, p);
      if Leads(t, p) { CompiledReadsSegments(more, p[|t|..]); }
    }
  }

  lemma VarReadsSegment(tokens: seq<string>, p: string)
    requires tokens != [] && Tokens(tokens) && tokens[0] != "" && tokens[0][0] == ':'
    ensures Compile(tokens) != []
    ensures var items := [Group(tokens[0][1..])] + Compile(tokens[1..]);
      Try(Compile(tokens)[1..], p) == WholeSegment(items, p) && items[1..] == Compile(tokens[1..])
  {
    var more := tokens[1..];
    var g := Group(tokens[0][1..]);
    var items := [g] + Compile(more);
    assert [Chr('/'), g] == [Chr('/')] + [g];
    BehindFirst(Chr('/'), [g], Compile(more));
    assert items[1..] == Compile(more);
    if more != [] { CompileStartsWithSlash(more); }
    GroupTakesSegment(items, p);
  }

  lemma BehindFirst<T>(e: T, x: seq<T>, y: seq<T>)
    ensures ([e] + x + y)[1..] == x + y
  {
  }

  lemma LitReadsSegment(tokens: seq<string>, p: string)
    requires tokens != [] && Tokens(tokens) && tokens[0] != "" && tokens[0][0] != ':' && tokens[0][0] != '*'
    ensures Compile(tokens) != []
    ensures Try(Compile(tokens)[1..], p) == if Leads(tokens[0], p) then Try(Compile(tokens[1..]), p[|tokens[0]|..]) else None
  {
    BehindFirst(Chr('/'), Chars(tokens[0]), Compile(tokens[1..]));
    TryChars(tokens[0], Compile(tokens[1..]), p);
  }

  // ---------------------------------------------------------------- route

  predicate WordChar(c: char) { 'a' <= c <= 'z' || 'A' <= c <= 'Z' || '0' <= c <= '9' || c == '_' }

  // The group name that stands for the remainder, whoever wrote it.
  const REST := "__yaf_route_rest"

  // The names that the expression library accepts for a group.
  predicate GroupName(name: string) {
    0 < |name| <= 32 && !('0' <= name[0] <= '9') && forall k :: 0 <= k < |name| ==> WordChar(name[k])
  }

  // The tokens that count: those up to the first star.
  function Live(tokens: seq<string>): seq<string> {
    if tokens == [] then []
    else if tokens[0] != "" && tokens[0][0] == '*' then [tokens[0]]
    else [tokens[0]] + Live(tokens[1..])
  }

  predicate IsVar(t: string) { t != "" && t[0] == ':' }

  predicate IsStar(t: string) { t != "" && t[0] == '*' }

  // The pattern compiles: all group names are valid and no two are equal.
  predicate Compiles(tokens: seq<string>) {
    && (forall k :: 0 <= k < |tokens| && IsVar(tokens[k]) ==> GroupName(tokens[k][1..]))
    && (forall j, k :: 0 <= j < k < |tokens| && IsVar(tokens[j]) ==> tokens[j] != tokens[k])
    && (forall j, k :: 0 <= j < k < |tokens| && IsVar(tokens[j]) && IsStar(tokens[k]) ==> tokens[j][1..] != REST)
  }

  // The characters that mean something in a regular expression, and the delimiter.
  const META := "\\^$.[]|()?*+{}#"

  predicate Free(s: string) { forall k :: 0 <= k < |s| ==> s[k] !in META }

  // Literal tokens without such characters.
  predicate MetaFree(tokens: seq<string>) {
    forall k :: 0 <= k < |tokens| && !IsVar(tokens[k]) && !IsStar(tokens[k]) ==> Free(tokens[k])
  }

  // ---------------------------------------------------------------- reading a pattern

  function Prepended(item: Item, more: Option<seq<Item>>): Option<seq<Item>> {
    if more.None? then None else Some([item] + more.value)
  }

  /**
  The syntax of the emitted patterns: a group opens with its name in angle brackets, other
  characters stand for themselves; nothing else is read.
  */
  function ReadText(s: string): Option<seq<Item>>
    decreases |s|
  {
    if s == "" then Some([])
    else if "(?P<" <= s then ReadGroup(s)
    else if s[0] in META then None
    else Prepended(Chr(s[0]), ReadText(s[1..]))
  }

  function ReadGroup(s: string): Option<seq<Item>>
    requires "(?P<" <= s
    decreases |s|, 0
  {
    var n := Span(s[4..], ">");
    var name, rest := s[4..4 + n], s[4 + n..];
    if ">[^/]+)" <= rest then Prepended(Group(name), ReadText(rest[7..]))
    else if name == REST && ">.*)" <= rest then Prepended(Rest, ReadText(rest[4..]))
    else None
  }

  // The text of the item can be told from what follows it.
  predicate Legible(item: Item) {
    match item
    case Chr(c) => c !in META
    case Group(name) => '>' !in name
    case Rest => true
  }

  lemma ReadNamed(name: string, tail: string, more: string)
    requires '>' !in name && tail != "" && tail[0] == '>'
    ensures var s := "(?P<" + name + (tail + more);
      && "(?P<" <= s && Span(s[4..], ">") == |name| && s[4..4 + |name|] == name && s[4 + |name|..] == tail + more
  {
    var s := "(?P<" + name + (tail + more);
    assert s[4..] == name + (tail + more);
    SpanUpTo(name, tail + more, ">");
  }

  lemma Behind(x: string, y: string)
    ensures x <= x + y && (x + y)[|x|..] == y
  {
  }

  lemma ReadOneGroup(name: string, more: string)
    requires '>' !in name
    ensures ReadText(GroupText(name) + more) == Prepended(Group(name), ReadText(more))
  {
    var tail := ">[^/]+)";
    var s := "(?P<" + name + (tail + more);
    assert GroupText(name) + more == s;
    ReadNamed(name, tail, more);
    Behind(tail, more);
    assert ReadText(s) == ReadGroup(s);
    assert ReadGroup(s) == Prepended(Group(name), ReadText(more)) by {
      hide ReadText;
    }
  }

  lemma ReadRest(more: string)
    ensures ReadText(RestText() + more) == Prepended(Rest, ReadText(more))
  {
    RestTextIs();
    assert '>' !in REST && ">.*)"[1] == '.';
    hide RestText, REST, ReadText;
    Fronted("(?P<", REST, ">.*)", more);
    ReadLast(REST, ">.*)", more);
  }

  lemma Fronted(a: string, b: string, c: string, d: string)
    ensures a + b + c + d == a + b + (c + d)
  {
  }

  lemma RestTextIs()
    ensures RestText() == "(?P<" + REST + ">.*)"
  {
  }

  lemma ReadLast(name: string, tail: string, more: string)
    requires name == REST && '>' !in name && tail == ">.*)" && tail[1] == '.'
    ensures ReadText("(?P<" + name + (tail + more)) == Prepended(Rest, ReadText(more))
  {
    hide REST;
    var s := "(?P<" + name + (tail + more);
    ReadNamed(name, tail, more);
    Behind(tail, more);
    assert !(">[^/]+)" <= tail + more) by { assert (tail + more)[1] == '.'; }
    assert ReadText(s) == ReadGroup(s);
    assert ReadGroup(s) == Prepended(Rest, ReadText(more)) by {
      hide ReadText;
    }
  }

  lemma ReadChr(c: char, more: string)
    requires c !in META
    ensures ReadText([c] + more) == Prepended(Chr(c), ReadText(more))
  {
    assert ([c] + more)[1..] == more && ([c] + more)[0] == c;
    assert '(' in META;
  }

  lemma ReadItem(item: Item, more: string)
    requires Legible(item)
    ensures ReadText(ItemText(item) + more) == Prepended(item, ReadText(more))
  {
    hide ReadText, GroupText, RestText;
    match item
    case Chr(c) => ReadChr(c, more);
    case Group(name) => ReadOneGroup(name, more);
    case Rest => ReadRest(more);
  }

  /** A pattern text is read back to the items it was emitted for. */
  lemma {:induction false} ReadEmitted(items: seq<Item>)
    requires forall k :: 0 <= k < |items| ==> Legible(items[k])
    ensures ReadText(Text(items)) == Some(items)
  {
    if items != [] {
      ReadEmitted(items[1..]);
      ReadItem(items[0], Text(items[1..]));
      assert [items[0]] + items[1..] == items;
    }
  }

  // The names of the groups that a pattern emits.
  predicate NamesOk(tokens: seq<string>) {
    forall k :: 0 <= k < |Live(tokens)| && IsVar(Live(tokens)[k]) ==> GroupName(Live(tokens)[k][1..])
  }

  lemma {:induction false} CompiledIsLegible(tokens: seq<string>)
    requires Tokens(tokens) && MetaFree(tokens) && NamesOk(tokens)
    ensures forall k :: 0 <= k < |Compile(tokens)| ==> Legible(Compile(tokens)[k])
  {
    if tokens != [] {
      var t, more := tokens[0], tokens[1..];
      assert IsWord(t, "/");
      CompileOwn(tokens);
      if t[0] != '*' {
        assert Live(tokens) == [t] + Live(more);
        assert forall k :: 0 <= k < |Live(more)| ==> Live(more)[k] == Live(tokens)[k + 1];
        CompiledIsLegible(more);
      }
      OwnIsLegible(t, tokens);
    }
  }

  lemma OwnIsLegible(t: string, tokens: seq<string>)
    requires IsWord(t, "/") && tokens != [] && t == tokens[0] && MetaFree(tokens) && NamesOk(tokens)
    ensures forall k :: 0 <= k < |Own(t)| ==> Legible(Own(t)[k])
  {
    if t[0] == ':' {
      assert Live(tokens)[0] == t;
      assert forall k :: 0 <= k < |t[1..]| ==> t[1..][k] != '>';
    } else if t[0] != '*' {
      assert Free(t);
    }
  }

  /** What the emitted text of a pattern means is what the pattern was compiled to. */
  lemma EmittedTextIsRead(tokens: seq<string>)
    requires Tokens(tokens) && MetaFree(tokens) && NamesOk(tokens)
    ensures ReadText(Text(Compile(tokens))) == Some(Compile(tokens))
  {
    CompiledIsLegible(tokens);
    ReadEmitted(Compile(tokens));
  }

  /** The text that the expression library is given. */
  function Pattern(match_: string): string { "#^" + Text(Compile(Words(match_, "/"))) + "#i" }

  /** The library on a delimited pattern without regard to case, anchored in front; None also if it cannot read it. */
  function Exec(pattern: string, s: string): Option<Caps> {
    if |pattern| < 4 || !("#^" <= pattern) || pattern[|pattern| - 2..] != "#i" then None
    else
      var items := ReadText(pattern[2..|pattern| - 2]);
      if items.None? then None else Try(items.value, s)
  }

  lemma ExecTries(match_: string, s: string)
    requires MetaFree(Words(match_, "/")) && Compiles(Live(Words(match_, "/")))
    ensures Exec(Pattern(match_), s) == Try(Compile(Words(match_, "/")), s)
  {
    var tokens := Words(match_, "/");
    var body := Text(Compile(tokens));
    EmittedTextIsRead(tokens);
    var pattern := "#^" + body + "#i";
    assert pattern[2..|pattern| - 2] == body && pattern[|pattern| - 2..] == "#i";
  }

  /** What the captures become: the remainder is read as keys and values, after the named parts. */
  function Args(c: Caps): Params {
    var named := map k | k in c.named && k != REST :: Some(c.named[k]);
    var rest := if c.rest.None? && REST in c.named then Some(c.named[REST]) else c.rest;
    if rest.None? then named else named + Parsed(rest.value)
  }

  /** yaf_route_rewrite_match on patterns whose literals are plain. */
  function Match(match_: string, uri: string): Option<Params>
    requires MetaFree(Words(match_, "/"))
  {
    if uri == "" || !Compiles(Live(Words(match_, "/"))) then None
    else
      var c := Exec(Pattern(match_), uri);
      if c.None? then None else Some(Args(c.value))
  }

  // Where the route sends a request: a constant, or the parameter that ":name" names.
  function Chosen(conf: Option<string>, args: Params, was: Option<string>): Option<string> {
    if conf.None? then was
    else if conf.value == "" || conf.value[0] != ':' then conf
    else if conf.value[1..] in args && args[conf.value[1..]].Some? then args[conf.value[1..]]
    else was
  }

  datatype Dest = Dest(m: Option<string>, c: Option<string>, a: Option<string>)

  /** yaf_route_rewrite_route: nothing changes unless the pattern matches. */
  function RouteTo(match_: string, dest: Dest, r: Request): Answer
    requires MetaFree(Words(match_, "/"))
  {
    var args := Match(match_, PathOf(r));
    if args.None? then Answer(false, r)
    else Answer(true, r.(module_ := Chosen(dest.m, args.value, r.module_),
                         controller := Chosen(dest.c, args.value, r.controller),
                         action := Chosen(dest.a, args.value, r.action),
                         params := r.params + args.value))
  }

  /** One field of the request: a configured text is written, or looked up behind its colon. */
  method WriteField(conf: Option<string>, args: Params, was: Option<string>) returns (now: Option<string>)
    ensures now == Chosen(conf, args, was)
  {
    now := was;
    if conf.Some? {
      var text := conf.value;
      if text == "" || text[0] != ':' {
        now := Some(text);
      } else if text[1..] in args && args[text[1..]].Some? {
        now := args[text[1..]];
      }
    }
  }

  method Route(match_: string, dest: Dest, r: Request) returns (a: Answer)
    requires MetaFree(Words(match_, "/"))
    ensures a == RouteTo(match_, dest, r)
  {
    var args := Match(match_, PathOf(r));
    if args.None? {
      return Answer(false, r);
    }
    var m := WriteField(dest.m, args.value, r.module_);
    var c := WriteField(dest.c, args.value, r.controller);
    var n := WriteField(dest.a, args.value, r.action);
    return Answer(true, r.(module_ := m, controller := c, action := n, params := r.params + args.value));
  }

  /** What a field holds behind the route, by what is configured for it. */
  ghost predicate Configured(conf: Option<string>, args: Params, was: Option<string>, now: Option<string>) {
    && (conf == None ==> now == was)
    && (forall text :: conf == Some(text) && !(":" <= text) ==> now == Some(text))
    && (forall name, v :: conf == Some(":" + name) && name in args && args[name] == Some(v) ==> now == Some(v))
    && (forall name :: conf == Some(":" + name) && (name in args ==> args[name] == None) ==> now == was)
  }

  lemma ChosenIsConfigured(conf: Option<string>, args: Params, was: Option<string>)
    ensures Configured(conf, args, was, Chosen(conf, args, was))
  {
    var now := Chosen(conf, args, was);
    forall name | conf == Some(":" + name) ensures conf.value[0] == ':' && conf.value[1..] == name {
    }
  }

  /**
  Every request that the pattern accepts gets what is configured: a text, or the named part; all
  captured parts are parameters and win over older ones; a request that is refused stays as it is.
  */
  lemma RouteWrites(match_: string, dest: Dest, r: Request)
    requires MetaFree(Words(match_, "/"))
    ensures var tokens, out := Words(match_, "/"), RouteTo(match_, dest, r);
      && (out.ok <==> PathOf(r) != "" && Compiles(Live(tokens)) && SegMatch(tokens, PathOf(r)).Some?)
      && (!out.ok ==> out.request == r)
      && (out.ok ==>
            var args := Args(SegMatch(tokens, PathOf(r)).value);
            && Configured(dest.m, args, r.module_, out.request.module_)
            && Configured(dest.c, args, r.controller, out.request.controller)
            && Configured(dest.a, args, r.action, out.request.action)
            && (forall key :: key in out.request.params <==> key in r.params || key in args)
            && (forall key :: key in args ==> out.request.params[key] == args[key])
            && (forall key :: key in r.params && key !in args ==> out.request.params[key] == r.params[key])
            && out.request.uri == r.uri && out.request.base == r.base && out.request.routed == r.routed)
  {
    var tokens := Words(match_, "/");
    if PathOf(r) != "" && Compiles(Live(tokens)) {
      ExecTries(match_, PathOf(r));
      CompiledReadsSegments(tokens, PathOf(r));
      if SegMatch(tokens, PathOf(r)).Some? {
        var args := Args(SegMatch(tokens, PathOf(r)).value);
        ChosenIsConfigured(dest.m, args, r.module_);
        ChosenIsConfigured(dest.c, args, r.controller);
        ChosenIsConfigured(dest.a, args, r.action);
      }
    }
  }

  // A name that the expression library refuses.
  predicate Unusable(name: string) {
    name == "" || |name| > 32 || name[0] in "0123456789" || exists k :: 0 <= k < |name| && !WordChar(name[k])
  }

  /** A pattern that names one part twice, or by an unusable name, up to its first star, accepts no request. */
  lemma BadNamesRefuse(match_: string, dest: Dest, r: Request, j: nat, k: nat)
    requires MetaFree(Words(match_, "/"))
    requires var live := Live(Words(match_, "/"));
      j <= k < |live| && IsVar(live[j]) && if j < k then live[j] == live[k] else Unusable(live[j][1..])
    ensures RouteTo(match_, dest, r) == Answer(false, r)
  {
    var live := Live(Words(match_, "/"));
    assert !Compiles(live);
  }

  /**
  The parameters of a match: every named part, and over them the pairs of the remainder.  A part that is
  itself named as the remainder is, is read as the remainder.
  */
  lemma ArgsAre(c: Caps)
    ensures var rest := if c.rest.Some? then c.rest.value else if REST in c.named then c.named[REST] else "";
      && (forall key :: key in Args(c) <==> (key in c.named && key != REST) || key in Parsed(rest))
      && forall key :: key in Args(c) ==> Args(c)[key] == if key in Parsed(rest) then Parsed(rest)[key] else Some(c.named[key])
  {
    assert Parsed("") == map[];
  }

  // ---------------------------------------------------------------- assemble

  /** php_str_to_str: every occurrence, from left to right. */
  function Replace(s: string, from: string, to: string): string
    requires from != ""
    decreases |s|
  {
    if s == "" then ""
    else if from <= s then to + Replace(s[|from|..], from, to)
    else [s[0]] + Replace(s[1..], from, to)
  }

  // No occurrence of from starts in front of position n.
  ghost predicate NoneBefore(s: string, from: string, n: nat)
    requires n <= |s|
  {
    forall k :: 0 <= k < n ==> !(from <= s[k..])
  }

  lemma NoneBeforeTail(s: string, from: string, n: nat)
    requires 0 < n <= |s| && NoneBefore(s, from, n)
    ensures !(from <= s) && NoneBefore(s[1..], from, n - 1)
  {
    assert s[0..] == s;
    forall k | 0 <= k < n - 1 ensures !(from <= s[1..][k..]) { assert s[1..][k..] == s[k + 1..]; }
  }

  lemma ReplaceUnfolds(s: string, from: string, to: string)
    requires from != "" && s != ""
    ensures !(from <= s) ==> Replace(s, from, to) == [s[0]] + Replace(s[1..], from, to)
    ensures from <= s ==> Replace(s, from, to) == to + Replace(s[|from|..], from, to)
  {
  }

  lemma FirstAndRest(x: string, y: string)
    requires x != ""
    ensures (x + y)[0] == x[0] && (x + y)[1..] == x[1..] + y && x + y == [x[0]] + (x[1..] + y)
  {
  }

  lemma LedBy(from: string, y: string)
    ensures "" + (from + y) == from + y && from <= from + y && (from + y)[|from|..] == y
  {
  }

  /** Without an occurrence nothing is replaced; else the first one is, and the replacing goes on behind it. */
  lemma {:induction false} ReplaceGoesOn(x: string, from: string, to: string, y: string)
    requires from != "" && NoneBefore(x + (from + y), from, |x|)
    ensures Replace(x + (from + y), from, to) == x + (to + Replace(y, from, to))
    decreases |x|
  {
    hide Replace, NoneBefore;
    var s, rest := x + (from + y), to + Replace(y, from, to);
    ReplaceUnfolds(s, from, to);
    if x == "" {
      LedBy(from, y);
      assert x + rest == rest;
    } else {
      NoneBeforeTail(s, from, |x|);
      FirstAndRest(x, from + y);
      ReplaceGoesOn(x[1..], from, to, y);
      FirstAndRest(x, rest);
    }
  }

  lemma {:induction false} ReplaceNothing(s: string, from: string, to: string)
    requires from != "" && NoneBefore(s, from, |s|)
    ensures Replace(s, from, to) == s
    decreases |s|
  {
    if s != "" {
      NoneBeforeTail(s, from, |s|);
      ReplaceNothing(s[1..], from, to);
    }
  }

  predicate Has(info: Query, key: string) { exists k :: 0 <= k < |info| && info[k].0 == key }

  function ValueOf(info: Query, key: string): string
    requires Has(info, key)
  {
    if info[0].0 == key then info[0].1
    else
      assert exists k :: 0 <= k < |info[1..]| && info[1..][k].0 == key by {
        var k :| 0 <= k < |info| && info[k].0 == key;
        assert info[1..][k - 1].0 == key;
      }
      ValueOf(info[1..], key)
  }

  function Without(info: Query, key: string): Query {
    if info == [] then []
    else if info[0].0 == key then Without(info[1..], key)
    else [info[0]] + Without(info[1..], key)
  }

  // The first character of a key, its marker, is not printed.
  function WildPiece(e: (string, string)): string {
    (if e.0 == "" then "" else e.0[1..]) + "/" + e.1 + "/"
  }

  function Wild(info: Query): string {
    if info == [] then "" else WildPiece(info[0]) + Wild(info[1..])
  }

  lemma WildMore(done: string, info: Query)
    requires info != []
    ensures done + Wild(info) == done + WildPiece(info[0]) + Wild(info[1..])
  {
    var piece, rest := WildPiece(info[0]), Wild(info[1..]);
    assert done + (piece + rest) == done + piece + rest;
  }

  /**
  The replacements of assemble: "*" by the entries that no ":name" before it used, ":name" by its
  value.  A star with no entry left reads through a null string (None).
  */
  function Expand(tokens: seq<string>, uri: string, info: Query, left: Query): Option<string>
    requires Tokens(tokens)
    decreases |tokens|
  {
    if tokens == [] then Some(uri)
    else
      var t := tokens[0];
      assert IsWord(t, "/");
      if t[0] == '*' then if left == [] then None else Some(Replace(uri, "*", Wild(left)))
      else if t[0] == ':' && Has(info, t) then
        Expand(tokens[1..], Replace(uri, t, ValueOf(info, t)), info, Without(left, t))
      else Expand(tokens[1..], uri, info, left)
  }

  function Assembled(match_: string, info: Query, query: Query): Option<string> {
    var uri := Expand(Words(match_, "/"), match_, info, info);
    if uri.None? then None else Some(uri.value + Asked(query, true))
  }

  function Keys(info: Query): set<string> { set k | 0 <= k < |info| :: info[k].0 }

  // The ":name" tokens in front of the first star.
  function NamesBeforeStar(tokens: seq<string>): set<string>
    requires Tokens(tokens)
  {
    if tokens == [] then {}
    else
      assert IsWord(tokens[0], "/");
      if tokens[0][0] == '*' then {}
      else (if tokens[0][0] == ':' then {tokens[0]} else {}) + NamesBeforeStar(tokens[1..])
  }

  ghost predicate HasStar(tokens: seq<string>) { exists k :: 0 <= k < |tokens| && "*" <= tokens[k] }

  lemma {:induction false} KeysWithout(info: Query, key: string)
    ensures Keys(Without(info, key)) == Keys(info) - {key}
  {
    if info != [] {
      var more := info[1..];
      KeysWithout(more, key);
      KeysOfFirst(info);
      if info[0].0 != key {
        var out := [info[0]] + Without(more, key);
        KeysOfFirst(out);
        assert out[1..] == Without(more, key);
      }
    }
  }

  lemma KeysOfFirst(info: Query)
    requires info != []
    ensures Keys(info) == {info[0].0} + Keys(info[1..])
  {
    var more := info[1..];
    forall key | key in Keys(info) ensures key == info[0].0 || key in Keys(more) {
      var k :| 0 <= k < |info| && info[k].0 == key;
      assert k > 0 ==> more[k - 1].0 == key;
    }
    forall key | key in Keys(more) ensures key in Keys(info) {
      var k :| 0 <= k < |more| && more[k].0 == key;
      assert info[k + 1].0 == key;
    }
    assert info[0].0 in Keys(info);
  }

  lemma {:induction false} StarNeedsEntry(tokens: seq<string>, uri: string, info: Query, left: Query)
    requires Tokens(tokens) && Keys(left) <= Keys(info)
    ensures Expand(tokens, uri, info, left).None? <==> HasStar(tokens) && Keys(left) <= NamesBeforeStar(tokens)
    decreases |tokens|
  {
    if tokens != [] {
      var t, more := tokens[0], tokens[1..];
      assert IsWord(t, "/");
      assert HasStar(tokens) <==> t[0] == '*' || HasStar(more) by { StarAhead(tokens); }
      hide HasStar;
      if t[0] == '*' {
        if left != [] { KeysOfFirst(left); }
      } else if t[0] == ':' && Has(info, t) {
        KeysWithout(left, t);
        StarNeedsEntry(more, Replace(uri, t, ValueOf(info, t)), info, Without(left, t));
      } else {
        if t in Keys(left) { assert t in Keys(info); }
        StarNeedsEntry(more, uri, info, left);
      }
    }
  }

  lemma StarAhead(tokens: seq<string>)
    requires tokens != [] && tokens[0] != ""
    ensures HasStar(tokens) <==> tokens[0][0] == '*' || HasStar(tokens[1..])
  {
    var more := tokens[1..];
    if HasStar(tokens) {
      var k :| 0 <= k < |tokens| && "*" <= tokens[k];
      assert k > 0 ==> "*" <= more[k - 1];
    }
    if HasStar(more) {
      var k :| 0 <= k < |more| && "*" <= more[k];
      assert "*" <= tokens[k + 1];
    }
    if tokens[0][0] == '*' { assert "*" <= tokens[0]; }
  }

  /** Nothing is printed exactly if a star finds no entry that no ":name" in front of it is for. */
  lemma AssembledNothing(match_: string, info: Query, query: Query)
    ensures var tokens := Words(match_, "/");
      Assembled(match_, info, query).None? <==> HasStar(tokens) && Keys(info) <= NamesBeforeStar(tokens)
  {
    StarNeedsEntry(Words(match_, "/"), match_, info, info);
  }

  /** The query stands behind what is printed without one, and is read back from there. */
  lemma QueryReadsBack(match_: string, info: Query, query: Query)
    requires Assembled(match_, info, []).Some? && '?' !in Assembled(match_, info, []).value && Askable(query)
    ensures var uri := Assembled(match_, info, query);
      uri.Some? && ReadUri(uri.value) == (Assembled(match_, info, []).value, query)
  {
    var path := Expand(Words(match_, "/"), match_, info, info).value;
    assert path + "" == path;
    UriReadsBack(path, query);
  }

  method Assemble(match_: string, info: Query, query: Query) returns (out: Option<string>)
    requires NUL !in match_
    ensures out == Assembled(match_, info, query)
  {
    var uri, pidents := match_, info;
    var pmatch, seg, last := FirstToken(match_, "/");
    ghost var rest := Words(match_, "/");
    ghost var goal := Expand(rest, match_, info, info);
    while seg.Some?
      invariant fresh(pmatch) && Tokens(rest) && (seg.None? <==> rest == [])
      invariant seg.Some? ==> seg.value == rest[0] && Left(pmatch[..], last, "/", rest[1..])
      invariant Expand(rest, uri, info, pidents) == goal
      decreases |rest|
    {
      var t := seg.value;
      if t[0] == '*' {
        if pidents == [] {
          return None;
        }
        var wildcard := PrintWild(pidents);
        uri := Replace(uri, "*", wildcard);
        rest := [];
        break;
      }
      if t[0] == ':' && Has(info, t) {
        uri := Replace(uri, t, ValueOf(info, t));
        pidents := Without(pidents, t);
      }
      rest := rest[1..];
      seg, last := NextToken(pmatch, "/", last, rest);
    }
    var asked := PrintAsked(query);
    return Some(uri + asked);
  }

  method PrintWild(info: Query) returns (s: string)
    ensures s == Wild(info)
  {
    s := "";
    for k := 0 to |info|
      invariant s + Wild(info[k..]) == Wild(info)
    {
      WildMore(s, info[k..]);
      s := s + WildPiece(info[k]);
    }
  }

  // ---------------------------------------------------------------- round trip

  predicate LitToken(t: string) { IsWord(t, "/") && ':' !in t && '*' !in t }

  predicate VarToken(t: string) { |t| > 1 && t[0] == ':' && GroupName(t[1..]) && t[1..] != REST }

  // Marks only lead tokens, the star comes last, and no ":name" is a prefix of another.
  predicate Canonical(tokens: seq<string>) {
    && (forall k :: 0 <= k < |tokens| ==>
          LitToken(tokens[k]) || VarToken(tokens[k]) || (tokens[k] == "*" && k == |tokens| - 1))
    && (forall j, k :: 0 <= j < |tokens| && 0 <= k < |tokens| && j != k && VarToken(tokens[j]) ==> !(tokens[j] <= tokens[k]))
  }

  // Every ":name" has a value; values and the names behind the colons survive printing.
  ghost predicate Serves(tokens: seq<string>, info: Query) {
    (forall k :: 0 <= k < |tokens| && VarToken(tokens[k]) ==> Has(info, tokens[k])) && Entries(info)
  }

  ghost predicate Entries(info: Query) {
    && (forall k :: 0 <= k < |info| ==> EntryFits(info[k]))
    && (forall j, k :: 0 <= j < k < |info| ==> info[j].0 != info[k].0)
  }

  predicate EntryFits(e: (string, string)) {
    && |e.0| > 1 && e.0[0] == ':' && '/' !in e.0[1..] && '\n' !in e.0[1..]
    && e.1 != "" && '/' !in e.1 && ':' !in e.1 && '*' !in e.1 && '\n' !in e.1
  }

  // Nothing of t can be replaced: the marker of seg can only lead t, and seg does not.
  predicate Safe(t: string, seg: string)
    requires seg != ""
  {
    '/' !in t && !(seg <= t) && forall k :: 0 < k < |t| ==> t[k] != seg[0]
  }

  lemma {:induction false} ReplaceUnmarked(u: string, rest: string, seg: string, v: string)
    requires seg != "" && seg[0] !in u
    ensures Replace(u + rest, seg, v) == u + Replace(rest, seg, v)
  {
    if u == "" {
      assert u + rest == rest;
    } else {
      assert (u + rest)[1..] == u[1..] + rest && (u + rest)[0] == u[0];
      ReplaceUnmarked(u[1..], rest, seg, v);
    }
  }

  lemma NotAcross(t: string, rest: string, seg: string)
    requires seg != "" && '/' !in seg && !(seg <= t) && (rest == "" || rest[0] == '/')
    ensures !(seg <= t + rest)
  {
    if |seg| <= |t| {
      assert (t + rest)[..|seg|] == t[..|seg|];
    } else if rest != "" {
      assert (t + rest)[|t|] == '/' && seg[|t|] in seg;
    }
  }

  lemma ReplaceSafe(t: string, rest: string, seg: string, v: string)
    requires seg != "" && '/' !in seg && Safe(t, seg) && (rest == "" || rest[0] == '/')
    ensures Replace(t + rest, seg, v) == t + Replace(rest, seg, v)
  {
    if t == "" {
      assert t + rest == rest;
    } else {
      NotAcross(t, rest, seg);
      assert (t + rest)[1..] == t[1..] + rest && (t + rest)[0] == t[0];
      ReplaceUnmarked(t[1..], rest, seg, v);
    }
  }

  lemma {:induction false} ReplaceNone(ts: seq<string>, seg: string, v: string)
    requires seg != "" && '/' !in seg && forall k :: 0 <= k < |ts| ==> Safe(ts[k], seg)
    ensures Replace(Led(ts, '/'), seg, v) == Led(ts, '/')
  {
    if ts != [] {
      var t, rest := ts[0], Led(ts[1..], '/');
      LedCons(t, ts[1..]);
      assert [t] + ts[1..] == ts;
      ReplaceUnmarked("/", t + rest, seg, v);
      ReplaceSafe(t, rest, seg, v);
      ReplaceNone(ts[1..], seg, v);
    }
  }

  /** A replacement changes the one segment that it names. */
  lemma {:induction false} ReplaceOne(pre: seq<string>, seg: string, post: seq<string>, v: string)
    requires seg != "" && '/' !in seg
    requires (forall k :: 0 <= k < |pre| ==> Safe(pre[k], seg)) && (forall k :: 0 <= k < |post| ==> Safe(post[k], seg))
    ensures Replace(Led(pre + ([seg] + post), '/'), seg, v) == Led(pre + ([v] + post), '/')
  {
    if pre == [] {
      assert pre + ([seg] + post) == [seg] + post && pre + ([v] + post) == [v] + post;
      var rest := Led(post, '/');
      LedCons(seg, post);
      LedCons(v, post);
      ReplaceUnmarked("/", seg + rest, seg, v);
      assert seg <= seg + rest && (seg + rest)[|seg|..] == rest;
      ReplaceNone(post, seg, v);
    } else {
      var t, more := pre[0], pre[1..];
      var rest := Led(more + ([seg] + post), '/');
      assert pre + ([seg] + post) == [t] + (more + ([seg] + post));
      assert pre + ([v] + post) == [t] + (more + ([v] + post));
      LedCons(t, more + ([seg] + post));
      LedCons(t, more + ([v] + post));
      ReplaceUnmarked("/", t + rest, seg, v);
      ReplaceSafe(t, rest, seg, v);
      ReplaceOne(more, seg, post, v);
    }
  }

  /** The pattern with every ":name" replaced by its value and a star by w. */
  function Filled(tokens: seq<string>, info: Query, w: string): seq<string> {
    if tokens == [] then []
    else
      var t := tokens[0];
      [if t == "*" then w else if IsVar(t) && Has(info, t) then ValueOf(info, t) else t] + Filled(tokens[1..], info, w)
  }

  /** The entries that no ":name" used. */
  function Unused(tokens: seq<string>, info: Query): Query {
    if tokens == [] then info
    else if IsVar(tokens[0]) then Unused(tokens[1..], Without(info, tokens[0]))
    else Unused(tokens[1..], info)
  }

  function Starred(tokens: seq<string>): bool { tokens != [] && tokens[|tokens| - 1] == "*" }

  lemma {:induction false} ValueIsEntry(info: Query, key: string)
    requires Has(info, key)
    ensures exists k :: 0 <= k < |info| && info[k] == (key, ValueOf(info, key))
  {
    if info[0].0 == key {
      assert info[0] == (key, ValueOf(info, key));
    } else {
      var k :| 0 <= k < |info| && info[k].0 == key;
      assert info[1..][k - 1].0 == key;
      ValueIsEntry(info[1..], key);
      var j :| 0 <= j < |info[1..]| && info[1..][j] == (key, ValueOf(info[1..], key));
      assert info[j + 1] == (key, ValueOf(info, key));
    }
  }

  // Values carry no marks, so that later replacements pass over them.
  predicate Markless(ts: seq<string>) {
    forall k :: 0 <= k < |ts| ==> IsWord(ts[k], "/") && ':' !in ts[k] && '*' !in ts[k]
  }

  lemma MarklessIsSafe(t: string, seg: string)
    requires IsWord(t, "/") && ':' !in t && '*' !in t && seg != "" && (seg[0] == ':' || seg[0] == '*')
    ensures Safe(t, seg)
  {
    assert t[0] in t;
  }

  lemma VarHasNoMarks(t: string)
    requires VarToken(t)
    ensures IsWord(t, "/") && '*' !in t && forall k :: 0 < k < |t| ==> t[k] != ':'
  {
    forall k | 0 < k < |t| ensures t[k] != ':' && t[k] != '*' && t[k] != '/' {
      assert WordChar(t[1..][k - 1]);
    }
  }

  lemma OthersAreSafe(tokens: seq<string>)
    requires tokens != [] && Canonical(tokens) && (VarToken(tokens[0]) || tokens[0] == "*")
    ensures forall k :: 0 <= k < |tokens[1..]| ==> Safe(tokens[1..][k], tokens[0])
  {
    forall k | 0 < k < |tokens| ensures Safe(tokens[k], tokens[0]) {
      if LitToken(tokens[k]) {
        MarklessIsSafe(tokens[k], tokens[0]);
      } else if VarToken(tokens[k]) {
        VarHasNoMarks(tokens[k]);
      }
    }
  }

  lemma CanonicalTail(tokens: seq<string>, info: Query)
    requires tokens != [] && Canonical(tokens) && Serves(tokens, info)
    ensures Canonical(tokens[1..]) && Serves(tokens[1..], info)
  {
    var more := tokens[1..];
    assert forall k :: 0 <= k < |more| ==> more[k] == tokens[k + 1];
  }

  lemma CanonicalTokens(tokens: seq<string>)
    requires Canonical(tokens)
    ensures Tokens(tokens)
  {
    forall k | 0 <= k < |tokens| ensures IsWord(tokens[k], "/") {
      if VarToken(tokens[k]) { VarHasNoMarks(tokens[k]); }
    }
  }

  /** The replacements fill the pattern in, whatever was filled in before. */
  lemma {:induction false} ExpandFills(done: seq<string>, tokens: seq<string>, info: Query, left: Query)
    requires Markless(done) && Canonical(tokens) && Serves(tokens, info) && Tokens(tokens)
    requires Starred(tokens) ==> Unused(tokens, left) != []
    ensures Expand(tokens, Led(done + tokens, '/'), info, left) ==
            Some(Led(done + Filled(tokens, info, Wild(Unused(tokens, left))), '/'))
    decreases |tokens|
  {
    if tokens != [] {
      var t, more := tokens[0], tokens[1..];
      CanonicalTail(tokens, info);
      if t == "*" {
        ExpandStar(done, tokens, info, left);
      } else {
        var x := if IsVar(t) then ValueOf(info, t) else t;
        var next := if IsVar(t) then Without(left, t) else left;
        FilledPiece(t, info, tokens);
        FilledStep(tokens, info, left);
        MarklessMore(done, x);
        ExpandOne(done, tokens, info, left);
        ExpandFills(done + [x], more, info, next);
        Regroup(done, x, Filled(more, info, Wild(Unused(more, next))));
      }
    } else {
      assert done + [] == done;
    }
  }

  lemma MarklessMore(done: seq<string>, x: string)
    requires Markless(done) && Markless([x])
    ensures Markless(done + [x])
  {
    assert [x][0] == x;
  }

  lemma FilledStep(tokens: seq<string>, info: Query, left: Query)
    requires tokens != [] && tokens[0] != "*" && (IsVar(tokens[0]) ==> Has(info, tokens[0]))
    ensures var t, more := tokens[0], tokens[1..];
      && Unused(tokens, left) == Unused(more, if IsVar(t) then Without(left, t) else left)
      && forall w :: Filled(tokens, info, w) == [if IsVar(t) then ValueOf(info, t) else t] + Filled(more, info, w)
  {
  }

  lemma Regroup(done: seq<string>, x: string, more: seq<string>)
    ensures (done + [x]) + more == done + ([x] + more)
  {
  }

  lemma ExpandStar(done: seq<string>, tokens: seq<string>, info: Query, left: Query)
    requires Markless(done) && Canonical(tokens) && Tokens(tokens) && tokens != [] && tokens[0] == "*" && left != []
    ensures Expand(tokens, Led(done + tokens, '/'), info, left) == Some(Led(done + Filled(tokens, info, Wild(left)), '/'))
  {
    assert tokens == ["*"];
    forall k | 0 <= k < |done| ensures Safe(done[k], "*") { MarklessIsSafe(done[k], "*"); }
    ReplaceOne(done, "*", [], Wild(left));
    assert ["*"] + [] == tokens && [Wild(left)] + [] == Filled(tokens, info, Wild(left));
  }

  /** One round of the loop fills one segment. */
  lemma ExpandOne(done: seq<string>, tokens: seq<string>, info: Query, left: Query)
    requires Markless(done) && Canonical(tokens) && Tokens(tokens) && tokens != [] && tokens[0] != "*"
    requires IsVar(tokens[0]) ==> Has(info, tokens[0])
    ensures var t, more := tokens[0], tokens[1..];
      Expand(tokens, Led(done + tokens, '/'), info, left) ==
      Expand(more, Led((done + [if IsVar(t) then ValueOf(info, t) else t]) + more, '/'), info,
             if IsVar(t) then Without(left, t) else left)
  {
    var t, more := tokens[0], tokens[1..];
    assert tokens == [t] + more && IsWord(t, "/");
    if IsVar(t) {
      var x := ValueOf(info, t);
      assert VarToken(t);
      VarHasNoMarks(t);
      OthersAreSafe(tokens);
      forall k | 0 <= k < |done| ensures Safe(done[k], t) { MarklessIsSafe(done[k], t); }
      ReplaceOne(done, t, more, x);
      Regroup(done, x, more);
    } else {
      assert LitToken(t);
      Regroup(done, t, more);
    }
  }

  /** What fills a segment is a segment without marks. */
  lemma FilledPiece(t: string, info: Query, tokens: seq<string>)
    requires tokens != [] && t == tokens[0] && t != "*" && Canonical(tokens) && Serves(tokens, info)
    ensures IsVar(t) ==> Has(info, t)
    ensures var x := if IsVar(t) then ValueOf(info, t) else t; Markless([x])
  {
    if IsVar(t) {
      assert VarToken(t);
      ValueIsEntry(info, t);
      var k :| 0 <= k < |info| && info[k] == (t, ValueOf(info, t));
      assert EntryFits(info[k]);
    }
  }

  // What the named parts of a filled pattern are.
  function NamedParts(tokens: seq<string>, info: Query): map<string, string> {
    if tokens == [] then map[]
    else if IsVar(tokens[0]) && Has(info, tokens[0]) then
      NamedParts(tokens[1..], info)[tokens[0][1..] := ValueOf(info, tokens[0])]
    else NamedParts(tokens[1..], info)
  }

  lemma {:induction false} SpanWhole(w: string, delim: string)
    requires forall k :: 0 <= k < |w| ==> w[k] !in delim
    ensures Span(w, delim) == |w|
  {
    if w != "" { SpanWhole(w[1..], delim); }
  }

  lemma LeadsItself(t: string, rest: string)
    ensures Leads(t, t + rest)
  {
    assert (t + rest)[..|t|] == t;
  }

  lemma BehindSlash(x: string, rest: string)
    ensures ("/" + (x + rest))[1..] == x + rest && (x + rest)[|x|..] == rest && (x + rest)[..|x|] == x
  {
  }

  lemma StarMatches(info: Query, w: string)
    requires '\n' !in w && Tokens(["*"])
    ensures SegMatch(["*"], Led(Filled(["*"], info, w), '/')) == Some(Caps(map[], Some(w)))
  {
    LedCons(w, []);
    BehindSlash(w, "");
    assert Filled(["*"], info, w) == [w] + [] && w + "" == w;
    SpanWhole(w, "\n");
  }

  lemma VarMatches(tokens: seq<string>, x: string, rest: string)
    requires tokens != [] && Tokens(tokens) && IsVar(tokens[0]) && IsWord(x, "/") && (rest == "" || rest[0] == '/')
    ensures var c := SegMatch(tokens[1..], rest);
      SegMatch(tokens, "/" + (x + rest)) ==
      if c.None? then None else Some(Captured(Group(tokens[0][1..]), x, c.value))
  {
    BehindSlash(x, rest);
    SpanUpTo(x, rest, "/");
  }

  lemma LitMatches(tokens: seq<string>, rest: string)
    requires tokens != [] && Tokens(tokens) && !IsVar(tokens[0]) && !IsStar(tokens[0])
    ensures SegMatch(tokens, "/" + (tokens[0] + rest)) == SegMatch(tokens[1..], rest)
  {
    assert IsWord(tokens[0], "/");
    BehindSlash(tokens[0], rest);
    LeadsItself(tokens[0], rest);
  }

  /** The filled pattern matches, part by part. */
  lemma {:induction false} FilledMatches(tokens: seq<string>, info: Query, w: string)
    requires Canonical(tokens) && Serves(tokens, info) && Tokens(tokens) && '\n' !in w
    ensures SegMatch(tokens, Led(Filled(tokens, info, w), '/')) ==
            Some(Caps(NamedParts(tokens, info), if Starred(tokens) then Some(w) else None))
  {
    if tokens != [] {
      var t, more := tokens[0], tokens[1..];
      if t == "*" {
        assert tokens == ["*"];
        StarMatches(info, w);
      } else {
        var x := if IsVar(t) then ValueOf(info, t) else t;
        var rest := Led(Filled(more, info, w), '/');
        CanonicalTail(tokens, info);
        FilledPiece(t, info, tokens);
        LedCons(x, Filled(more, info, w));
        FilledMatches(more, info, w);
        if IsVar(t) {
          assert IsWord([x][0], "/");
          LedStarts(Filled(more, info, w));
          VarMatches(tokens, x, rest);
        } else {
          assert IsWord(t, "/") && t[0] in t;
          assert LitToken(t);
          LitMatches(tokens, rest);
        }
      }
    }
  }

  lemma LedStarts(ts: seq<string>)
    ensures Led(ts, '/') == "" || Led(ts, '/')[0] == '/'
  {
  }

  function Stripped(info: Query): Query {
    if info == [] then [] else [(if info[0].0 == "" then "" else info[0].0[1..], info[0].1)] + Stripped(info[1..])
  }

  lemma {:induction false} WithoutKeeps(info: Query, key: string)
    requires Entries(info)
    ensures var w := Without(info, key);
      && Entries(w) && (forall e :: e in w <==> e in info && e.0 != key)
  {
    if info != [] {
      var more := info[1..];
      assert forall k :: 0 <= k < |more| ==> more[k] == info[k + 1];
      WithoutKeeps(more, key);
      if info[0].0 != key {
        EntriesCons(info[0], Without(more, key), more);
      }
    }
  }

  lemma EntriesCons(e: (string, string), w: Query, more: Query)
    requires Entries([e] + more) && Entries(w) && forall x :: x in w ==> x in more
    ensures Entries([e] + w)
  {
    var all, out := [e] + more, [e] + w;
    assert EntryFits(all[0]);
    forall k | 0 <= k < |w| ensures w[k].0 != e.0 {
      assert w[k] in w;
      var j :| 0 <= j < |more| && more[j] == w[k];
      assert all[j + 1] == w[k] && all[0] == e;
    }
    assert forall k :: 0 < k < |out| ==> out[k] == w[k - 1];
  }

  // The pattern names the key.
  predicate Uses(tokens: seq<string>, key: string) {
    tokens != [] && ((IsVar(tokens[0]) && tokens[0] == key) || Uses(tokens[1..], key))
  }

  lemma {:induction false} UsesToken(tokens: seq<string>, k: nat)
    requires k < |tokens| && IsVar(tokens[k])
    ensures Uses(tokens, tokens[k])
  {
    if k > 0 { UsesToken(tokens[1..], k - 1); }
  }

  lemma {:induction false} UnusedKeeps(tokens: seq<string>, info: Query)
    requires Entries(info)
    ensures var u := Unused(tokens, info);
      Entries(u) && forall e: (string, string) :: e in u <==> e in info && !Uses(tokens, e.0)
    decreases |tokens|
  {
    if tokens != [] {
      WithoutKeeps(info, tokens[0]);
      UnusedKeeps(tokens[1..], if IsVar(tokens[0]) then Without(info, tokens[0]) else info);
    }
  }

  lemma {:induction false} WildWords(info: Query)
    requires Entries(info)
    ensures Words(Wild(info), "/") == Flat(Stripped(info)) && '\n' !in Wild(info)
  {
    if info != [] {
      var more := info[1..];
      var k, v, rest := info[0].0[1..], info[0].1, Wild(more);
      assert EntryFits(info[0]);
      assert forall j :: 0 <= j < |more| ==> more[j] == info[j + 1];
      WildWords(more);
      WildStep(k, v, rest, Flat(Stripped(more)));
      WildShape(k, v, rest);
      assert Wild(info) == k + "/" + v + "/" + rest;
      assert Stripped(info)[1..] == Stripped(more);
    }
  }

  lemma WordThenSlash(w: string, rest: string)
    requires IsWord(w, "/")
    ensures Words(w + ("/" + rest), "/") == [w] + Words(rest, "/")
  {
    WordsPastDelim('/', rest, "/");
    WordsAfter(w, "/" + rest, "/");
  }

  lemma WildStep(k: string, v: string, rest: string, ws: seq<string>)
    requires IsWord(k, "/") && IsWord(v, "/") && Words(rest, "/") == ws
    ensures Words(k + ("/" + (v + ("/" + rest))), "/") == [k, v] + ws
  {
    WordThenSlash(v, rest);
    WordThenSlash(k, v + ("/" + rest));
    assert [k] + ([v] + ws) == [k, v] + ws;
  }

  lemma WildShape(k: string, v: string, rest: string)
    ensures k + ("/" + (v + ("/" + rest))) == k + "/" + v + "/" + rest
  {
    Associates(k, "/", v, "/" + rest);
    var front := k + "/" + v;
    assert front + ("/" + rest) == front + "/" + rest;
  }

  lemma {:induction false} StrippedAt(info: Query, k: nat)
    requires Entries(info) && k < |info|
    ensures |Stripped(info)| == |info| && Stripped(info)[k] == (info[k].0[1..], info[k].1)
  {
    assert EntryFits(info[0]);
    var more := info[1..];
    assert forall j :: 0 <= j < |more| ==> more[j] == info[j + 1];
    if k > 0 {
      StrippedAt(more, k - 1);
    } else if more != [] {
      StrippedAt(more, 0);
    }
  }

  lemma StrippedKeysApart(info: Query)
    requires Entries(info)
    ensures |Stripped(info)| == |info|
    ensures forall j, k :: 0 <= j < k < |info| ==> Stripped(info)[j].0 != Stripped(info)[k].0
  {
    if info != [] { StrippedAt(info, 0); }
    forall j, k | 0 <= j < k < |info| ensures Stripped(info)[j].0 != Stripped(info)[k].0 {
      StrippedAt(info, j);
      StrippedAt(info, k);
      MarkedApart(info[j].0, info[k].0);
      assert EntryFits(info[j]) && EntryFits(info[k]);
    }
  }

  lemma MarkedApart(a: string, b: string)
    requires a != "" && b != "" && a[0] == b[0]
    ensures a == b <==> a[1..] == b[1..]
  {
    assert a == [a[0]] + a[1..] && b == [b[0]] + b[1..];
  }

  /** Every unused entry comes back from the remainder under its key without the marker. */
  lemma RemainderGivesUnused(info: Query)
    requires Entries(info)
    ensures forall k :: 0 <= k < |info| ==>
      info[k].0[1..] in Parsed(Wild(info)) && Parsed(Wild(info))[info[k].0[1..]] == Some(info[k].1)
    ensures forall key :: key in Parsed(Wild(info)) ==> exists k :: 0 <= k < |info| && info[k].0[1..] == key
  {
    WildWords(info);
    PairsOfFlat(map[], Stripped(info));
    StrippedKeysApart(info);
    forall k | 0 <= k < |info|
      ensures info[k].0[1..] in Parsed(Wild(info)) && Parsed(Wild(info))[info[k].0[1..]] == Some(info[k].1)
    {
      StrippedAt(info, k);
      MapOfGives(map[], Stripped(info), k);
    }
    forall key | key in Parsed(Wild(info)) ensures exists k :: 0 <= k < |info| && info[k].0[1..] == key {
      if forall k :: 0 <= k < |info| ==> info[k].0[1..] != key {
        forall j | 0 <= j < |Stripped(info)| ensures Stripped(info)[j].0 != key { StrippedAt(info, j); }
        MapOfKeeps(map[], Stripped(info), key);
      }
    }
  }

  lemma {:induction false} NamedPartsAre(tokens: seq<string>, info: Query, k: nat)
    requires Canonical(tokens) && Serves(tokens, info) && k < |tokens| && VarToken(tokens[k])
    ensures var t := tokens[k]; var named := NamedParts(tokens, info);
      t[1..] in named && Has(info, t) && named[t[1..]] == ValueOf(info, t)
  {
    CanonicalTail(tokens, info);
    var t := tokens[0];
    if k > 0 {
      NamedPartsAre(tokens[1..], info, k - 1);
      if IsVar(t) {
        assert t[0] in t;
        assert VarToken(t) && !(t <= tokens[k]);
        MarkedApart(t, tokens[k]);
      }
    }
  }

  lemma {:induction false} NamedPartsOnly(tokens: seq<string>, info: Query, name: string)
    requires Canonical(tokens) && Serves(tokens, info) && name in NamedParts(tokens, info)
    ensures exists k :: 0 <= k < |tokens| && VarToken(tokens[k]) && tokens[k][1..] == name
  {
    CanonicalTail(tokens, info);
    var t, more := tokens[0], tokens[1..];
    assert LitToken(t) ==> t[0] in t;
    if IsVar(t) && name == t[1..] {
      assert VarToken(tokens[0]) && tokens[0][1..] == name;
    } else {
      NamedPartsOnly(more, info, name);
      var k :| 0 <= k < |more| && VarToken(more[k]) && more[k][1..] == name;
      assert tokens[k + 1] == more[k];
    }
  }

  // What routing must recover: the value of every ":name", and every entry the star printed.
  ghost predicate Recovered(tokens: seq<string>, info: Query, args: Params) {
    && (forall k :: 0 <= k < |tokens| && VarToken(tokens[k]) ==>
          && tokens[k][1..] in args && Has(info, tokens[k])
          && args[tokens[k][1..]] == Some(ValueOf(info, tokens[k])))
    && (Starred(tokens) ==> forall e :: e in Unused(tokens, info) && e.0 != "" ==>
          e.0[1..] in args && args[e.0[1..]] == Some(e.1))
  }

  lemma CanonicalMatches(tokens: seq<string>, uri: string)
    requires Canonical(tokens) && Tokens(tokens) && tokens != [] && uri != ""
    requires MetaFree(tokens)
    ensures MetaFree(Words(Led(tokens, '/'), "/"))
    ensures Match(Led(tokens, '/'), uri) ==
      var c := SegMatch(tokens, uri); if c.None? then None else Some(Args(c.value))
  {
    WordsOfPattern(tokens);
    LiveIsAll(tokens);
    assert Compiles(tokens) by {
      forall k | 0 <= k < |tokens| && IsVar(tokens[k]) ensures VarToken(tokens[k]) {
        assert tokens[k][0] in tokens[k];
      }
      forall j, k | 0 <= j < k < |tokens| && IsVar(tokens[j]) ensures tokens[j] != tokens[k] {
        assert VarToken(tokens[j]) && !(tokens[j] <= tokens[k]);
      }
    }
    ExecTries(Led(tokens, '/'), uri);
    CompiledReadsSegments(tokens, uri);
  }

  lemma CanonicalMore(tokens: seq<string>)
    requires tokens != [] && Canonical(tokens)
    ensures Canonical(tokens[1..]) && (IsStar(tokens[0]) ==> tokens == ["*"])
  {
    var more := tokens[1..];
    assert forall k :: 0 <= k < |more| ==> more[k] == tokens[k + 1];
    if IsStar(tokens[0]) {
      assert tokens[0][0] in tokens[0];
    }
  }

  lemma {:induction false} LiveIsAll(tokens: seq<string>)
    requires Canonical(tokens)
    ensures Live(tokens) == tokens
  {
    if tokens != [] {
      CanonicalMore(tokens);
      LiveIsAll(tokens[1..]);
      assert tokens == [tokens[0]] + tokens[1..];
    }
  }

  /** The named parts and the remainder together recover the entries. */
  lemma PartsRecover(tokens: seq<string>, info: Query)
    requires Canonical(tokens) && Serves(tokens, info)
    ensures Recovered(tokens, info, Args(Caps(NamedParts(tokens, info),
                                              if Starred(tokens) then Some(Wild(Unused(tokens, info))) else None)))
  {
    var left := Unused(tokens, info);
    var named := NamedParts(tokens, info);
    var args := Args(Caps(named, if Starred(tokens) then Some(Wild(left)) else None));
    if REST in named { NamedPartsOnly(tokens, info, REST); }
    UnusedKeeps(tokens, info);
    RemainderGivesUnused(left);
    forall k | 0 <= k < |tokens| && VarToken(tokens[k])
      ensures tokens[k][1..] in args && Has(info, tokens[k]) && args[tokens[k][1..]] == Some(ValueOf(info, tokens[k]))
    {
      NamedPartsAre(tokens, info, k);
      NameIsNotLeft(tokens, info, k);
    }
    forall e | Starred(tokens) && e in left && e.0 != ""
      ensures e.0[1..] in args && args[e.0[1..]] == Some(e.1)
    {
      var k :| 0 <= k < |left| && left[k] == e;
      assert left[k].0[1..] in Parsed(Wild(left));
    }
  }

  lemma NameIsNotLeft(tokens: seq<string>, info: Query, k: nat)
    requires Canonical(tokens) && Serves(tokens, info) && k < |tokens| && VarToken(tokens[k])
    ensures tokens[k][1..] !in Parsed(Wild(Unused(tokens, info)))
  {
    var left := Unused(tokens, info);
    UnusedKeeps(tokens, info);
    RemainderGivesUnused(left);
    UsesToken(tokens, k);
    if tokens[k][1..] in Parsed(Wild(left)) {
      var j :| 0 <= j < |left| && left[j].0[1..] == tokens[k][1..];
      assert EntryFits(left[j]) && left[j] in left;
      MarkedApart(left[j].0, tokens[k]);
    }
  }

  lemma WordsOfPattern(tokens: seq<string>)
    requires Tokens(tokens)
    ensures Words(Led(tokens, '/'), "/") == tokens
  {
    WordsOfLed(tokens, '/', "/", "");
    assert Led(tokens, '/') + "" == Led(tokens, '/') && tokens + [] == tokens;
  }

  /** What assemble prints for a canonical pattern. */
  lemma AssembleFills(tokens: seq<string>, info: Query)
    requires Canonical(tokens) && Tokens(tokens) && Serves(tokens, info)
    requires Starred(tokens) ==> Unused(tokens, info) != []
    ensures Assembled(Led(tokens, '/'), info, []) == Some(Led(Filled(tokens, info, Wild(Unused(tokens, info))), '/'))
  {
    var filled := Filled(tokens, info, Wild(Unused(tokens, info)));
    WordsOfPattern(tokens);
    ExpandFills([], tokens, info, info);
    assert [] + tokens == tokens && [] + filled == filled;
    assert Led(filled, '/') + "" == Led(filled, '/');
  }

  /**
  Rewrite round trip: for a canonical pattern, routing the URI that assemble printed recovers every
  named parameter and every entry that the star printed.
  */
  lemma RewriteRoundTrip(tokens: seq<string>, info: Query)
    requires tokens != [] && Canonical(tokens) && MetaFree(tokens) && Serves(tokens, info)
    requires Starred(tokens) ==> Unused(tokens, info) != []
    ensures MetaFree(Words(Led(tokens, '/'), "/"))
    ensures var uri := Assembled(Led(tokens, '/'), info, []);
      uri.Some? && var args := Match(Led(tokens, '/'), uri.value); args.Some? && Recovered(tokens, info, args.value)
  {
    var left := Unused(tokens, info);
    CanonicalTokens(tokens);
    WordsOfPattern(tokens);
    AssembleFills(tokens, info);
    assert '\n' !in Wild(left) by {
      UnusedKeeps(tokens, info);
      WildWords(left);
    }
    FilledMatches(tokens, info, Wild(left));
    CanonicalMatches(tokens, Led(Filled(tokens, info, Wild(left)), '/'));
    PartsRecover(tokens, info);
  }

  // The request names a part by ":name": its value arrives.
  ghost predicate Named(conf: Option<string>, tokens: seq<string>, info: Query, got: Option<string>) {
    forall k :: 0 <= k < |tokens| && VarToken(tokens[k]) && Has(info, tokens[k]) && conf == Some(tokens[k]) ==>
      got == Some(ValueOf(info, tokens[k]))
  }

  /**
  The same for the request: the route accepts the URI it printed, the values become parameters of
  the request, and a module, controller or action configured as ":name" gets the value printed for it.
  */
  lemma RewriteRoutesBack(tokens: seq<string>, info: Query, dest: Dest, r: Request)
    requires tokens != [] && Canonical(tokens) && MetaFree(tokens) && Serves(tokens, info)
    requires Starred(tokens) ==> Unused(tokens, info) != []
    requires Assembled(Led(tokens, '/'), info, []) == Some(PathOf(r))
    ensures MetaFree(Words(Led(tokens, '/'), "/"))
    ensures var (ok, out) := (RouteTo(Led(tokens, '/'), dest, r).ok, RouteTo(Led(tokens, '/'), dest, r).request);
      && ok && Recovered(tokens, info, out.params)
      && Named(dest.m, tokens, info, out.module_) && Named(dest.c, tokens, info, out.controller)
      && Named(dest.a, tokens, info, out.action)
  {
    RewriteRoundTrip(tokens, info);
    var args := Match(Led(tokens, '/'), PathOf(r)).value;
    RecoveredStays(tokens, info, r.params, args);
    ChosenIsPrinted(dest.m, tokens, info, args, r.module_);
    ChosenIsPrinted(dest.c, tokens, info, args, r.controller);
    ChosenIsPrinted(dest.a, tokens, info, args, r.action);
  }

  lemma RecoveredStays(tokens: seq<string>, info: Query, params: Params, args: Params)
    requires Recovered(tokens, info, args)
    ensures Recovered(tokens, info, params + args)
  {
  }

  lemma ChosenIsPrinted(conf: Option<string>, tokens: seq<string>, info: Query, args: Params, was: Option<string>)
    requires Recovered(tokens, info, args)
    ensures Named(conf, tokens, info, Chosen(conf, args, was))
  {
  }
}
