/**
The tokenizer of php-7.1.3/TSRM/tsrm_strtok_r.c on a buffer of bytes, against the sequence of
maximal delimiter-free words of a string.  The routers and the INI reader call it as php_strtok_r.
*/
module Strtok {

  datatype Option<+T> = None | Some(value: T)

  const NUL: char := '\0'

  // ---------------------------------------------------------------- words of a string

  predicate IsWord(w: string, delim: string) {
    w != "" && forall k :: 0 <= k < |w| ==> w[k] !in delim
  }

  /** The length of the longest delimiter-free prefix. */
  function Span(s: string, delim: string): (n: nat)
    ensures n <= |s|
    ensures forall k :: 0 <= k < n ==> s[k] !in delim
    ensures n < |s| ==> s[n] in delim
  {
    if s == "" || s[0] in delim then 0 else 1 + Span(s[1..], delim)
  }

  /** The maximal delimiter-free words of s, from left to right. */
  function Words(s: string, delim: string): (ws: seq<string>)
    ensures forall k :: 0 <= k < |ws| ==> IsWord(ws[k], delim)
    decreases |s|
  {
    if s == "" then []
    else if s[0] in delim then Words(s[1..], delim)
    else
      var n := Span(s, delim);
      [s[..n]] + Words(s[n..], delim)
  }

  /** Words with one separator in front of each. */
  function Led(ws: seq<string>, c: char): string {
    if ws == [] then "" else [c] + ws[0] + Led(ws[1..], c)
  }

  /** Words with one separator between them. */
  function Joined(ws: seq<string>, c: char): string {
    if ws == [] then "" else if |ws| == 1 then ws[0] else ws[0] + [c] + Joined(ws[1..], c)
  }

  lemma {:induction false} SpanUpTo(w: string, t: string, delim: string)
    requires (forall k :: 0 <= k < |w| ==> w[k] !in delim) && (t == "" || t[0] in delim)
    ensures Span(w + t, delim) == |w|
  {
    if w == "" {
      assert w + t == t;
    } else {
      assert (w + t)[1..] == w[1..] + t;
      SpanUpTo(w[1..], t, delim);
    }
  }

  /** A word in front of a delimiter, or of nothing, is the first word. */
  lemma WordsAfter(w: string, t: string, delim: string)
    requires IsWord(w, delim) && (t == "" || t[0] in delim)
    ensures Words(w + t, delim) == [w] + Words(t, delim)
  {
    SpanUpTo(w, t, delim);
    assert (w + t)[..|w|] == w && (w + t)[|w|..] == t;
  }

  lemma WordsPastDelim(c: char, t: string, delim: string)
    requires c in delim
    ensures Words([c] + t, delim) == Words(t, delim)
  {
    assert ([c] + t)[1..] == t;
  }

  lemma LedCons(t: string, ts: seq<string>)
    ensures Led([t] + ts, '/') == "/" + (t + Led(ts, '/'))
  {
    assert ([t] + ts)[1..] == ts;
  }

  lemma Associates(a: string, b: string, c: string, d: string)
    ensures a + (b + (c + d)) == a + b + c + d
  {
  }

  lemma LedStep(ws: seq<string>, c: char, t: string)
    requires ws != []
    ensures Led(ws, c) + t == [c] + (ws[0] + (Led(ws[1..], c) + t))
  {
    assert Led(ws, c) == [c] + ws[0] + Led(ws[1..], c);
  }

  lemma LedHead(ws: seq<string>, c: char, t: string)
    ensures ws != [] ==> Led(ws, c) + t != "" && (Led(ws, c) + t)[0] == c
    ensures ws == [] ==> Led(ws, c) + t == t
  {
  }

  lemma FirstOfMany<T>(ws: seq<T>, x: seq<T>)
    requires ws != []
    ensures ws + x == [ws[0]] + (ws[1..] + x)
  {
  }

  lemma {:induction false} WordsOfLed(ws: seq<string>, c: char, delim: string, t: string)
    requires c in delim && (forall k :: 0 <= k < |ws| ==> IsWord(ws[k], delim)) && (t == "" || t[0] in delim)
    ensures Words(Led(ws, c) + t, delim) == ws + Words(t, delim)
  {
    LedHead(ws, c, t);
    if ws != [] {
      var rest := Led(ws[1..], c) + t;
      LedStep(ws, c, t);
      WordsPastDelim(c, ws[0] + rest, delim);
      WordsOfLed(ws[1..], c, delim, t);
      LedHead(ws[1..], c, t);
      WordsAfter(ws[0], rest, delim);
      FirstOfMany(ws, Words(t, delim));
    } else {
      assert ws + Words(t, delim) == Words(t, delim);
    }
  }

  // ---------------------------------------------------------------- trimming

  function LTrim(s: string, cs: string): string {
    if s != "" && s[0] in cs then LTrim(s[1..], cs) else s
  }

  function RTrim(s: string, cs: string): string {
    if s != "" && s[|s| - 1] in cs then RTrim(s[..|s| - 1], cs) else s
  }

  lemma RTrimShorter(s: string, cs: string)
    ensures |RTrim(s, cs)| <= |s| && RTrim(s, cs) == s[..|RTrim(s, cs)|]
  {
  }

  lemma LTrimKeepsEnd(s: string, cs: string)
    requires s != "" && s[|s| - 1] !in cs
    ensures var t := LTrim(s, cs); t != "" && t[|t| - 1] == s[|s| - 1] && t[0] !in cs
  {
  }

  lemma RTrimKeepsFront(s: string, cs: string)
    requires s != "" && s[0] !in cs
    ensures var t := RTrim(s, cs); t != "" && t[0] == s[0] && t[|t| - 1] !in cs
  {
  }

  lemma LTrimFront(s: string, cs: string)
    ensures var t := LTrim(s, cs); t == "" || t[0] !in cs
  {
  }

  lemma RTrimEnd(s: string, cs: string)
    ensures var t := RTrim(s, cs); t == "" || t[|t| - 1] !in cs
  {
  }

  // ---------------------------------------------------------------- strstr

  predicate OccursAt(h: string, n: string, i: nat) { i + |n| <= |h| && h[i..i + |n|] == n }

  /** The first occurrence of n at or after i. */
  function Find(h: string, n: string, i: nat): (r: Option<nat>)
    requires i <= |h|
    ensures r.Some? ==> i <= r.value && r.value + |n| <= |h|
    decreases |h| - i
  {
    if OccursAt(h, n, i) then Some(i) else if i == |h| then None else Find(h, n, i + 1)
  }

  ghost predicate NoneIn(h: string, n: string, lo: nat, hi: nat) { forall k :: lo <= k < hi ==> !OccursAt(h, n, k) }

  lemma {:induction false} FindMeans(h: string, n: string, i: nat)
    requires i <= |h|
    ensures var r := Find(h, n, i);
      if r.Some? then OccursAt(h, n, r.value) && NoneIn(h, n, i, r.value) else NoneIn(h, n, i, |h| + 1)
    decreases |h| - i
  {
    if !OccursAt(h, n, i) && i < |h| { FindMeans(h, n, i + 1); }
  }

  lemma {:induction false} FindIs(h: string, n: string, lo: nat, i: nat)
    requires lo <= i <= |h| && OccursAt(h, n, i) && NoneIn(h, n, lo, i)
    ensures Find(h, n, lo) == Some(i)
    decreases i - lo
  {
    if lo < i { FindIs(h, n, lo + 1, i); }
  }

  /** strstr from position start on. */
  method StrStr(h: string, n: string, start: nat) returns (r: Option<nat>)
    requires start <= |h|
    ensures r == Find(h, n, start)
  {
    var i := start;
    while i < |h| && !OccursAt(h, n, i)
      invariant start <= i <= |h| && Find(h, n, i) == Find(h, n, start)
    {
      i := i + 1;
    }
    if OccursAt(h, n, i) {
      return Some(i);
    }
    return None;
  }

  // ---------------------------------------------------------------- letter case

  function Lower(c: char): char { if 'A' <= c <= 'Z' then (c as int + 32) as char else c }

  // strncasecmp over equal lengths
  predicate SameName(a: string, b: string) {
    |a| == |b| && forall k :: 0 <= k < |a| ==> Lower(a[k]) == Lower(b[k])
  }

  // ---------------------------------------------------------------- C strings in a buffer

  /** The C string that starts at p. */
  function CText(b: seq<char>, p: nat): string
    requires p <= |b|
    decreases |b| - p
  {
    if p == |b| || b[p] == NUL then "" else [b[p]] + CText(b, p + 1)
  }

  // A NUL at or after p.
  predicate Ends(b: seq<char>, p: nat) { exists q :: p <= q < |b| && b[q] == NUL }

  lemma CTextShape(b: seq<char>, p: nat)
    requires p <= |b| && Ends(b, p)
    ensures p + |CText(b, p)| < |b| && b[p + |CText(b, p)|] == NUL
    ensures NUL !in CText(b, p) && CText(b, p) == b[p..p + |CText(b, p)|]
    decreases |b| - p
  {
    if b[p] != NUL { CTextShape(b, p + 1); }
  }

  lemma CTextIs(b: seq<char>, p: nat, s: string)
    requires p + |s| < |b| && b[p + |s|] == NUL && NUL !in s && b[p..p + |s|] == s
    ensures CText(b, p) == s
    decreases |s|
  {
    if s != "" {
      assert b[p] == s[0];
      assert b[p + 1..p + 1 + |s[1..]|] == s[1..];
      CTextIs(b, p + 1, s[1..]);
    }
  }

  /** estrdup: a buffer of its own for a string. */
  method Strdup(s: string) returns (b: array<char>)
    requires NUL !in s
    ensures fresh(b) && Ends(b[..], 0) && CText(b[..], 0) == s && b[..] == s + [NUL]
  {
    b := new char[|s| + 1](k requires 0 <= k => if k < |s| then s[k] else NUL);
    assert b[..][|s|] == NUL;
    CTextIs(b[..], 0, s);
  }

  method InCharacterClass(ch: char, delim: string) returns (r: bool)
    ensures r == (ch in delim)
  {
    var k := 0;
    while k < |delim|
      invariant k <= |delim| && ch !in delim[..k]
    {
      if delim[k] == ch {
        return true;
      }
      k := k + 1;
    }
    return false;
  }

  lemma CTextFrom(b: seq<char>, d: seq<char>, p: nat)
    requires p <= |b| == |d| && b[p..] == d[p..]
    ensures CText(b, p) == CText(d, p)
    decreases |b| - p
  {
    if p < |b| {
      assert b[p] == b[p..][0] && d[p] == d[p..][0];
      assert b[p + 1..] == b[p..][1..] && d[p + 1..] == d[p..][1..];
      CTextFrom(b, d, p + 1);
    }
  }

  lemma SkipOne(b: seq<char>, p: nat, delim: string)
    requires p < |b| && b[p] != NUL && b[p] in delim
    ensures Words(CText(b, p), delim) == Words(CText(b, p + 1), delim)
  {
    assert CText(b, p)[1..] == CText(b, p + 1);
  }

  /** The end of a word in the buffer: there the string ends or a delimiter stands. */
  lemma {:induction false} WordEndsAt(b: seq<char>, p: nat, c: nat, delim: string)
    requires p < c < |b| && (b[c] == NUL || b[c] in delim)
    requires forall k :: p <= k < c ==> b[k] != NUL && b[k] !in delim
    ensures Words(CText(b, p), delim) == [b[p..c]] + Words(CText(b, c), delim)
  {
    TextSplits(b, p, c);
    WordsAfter(b[p..c], CText(b, c), delim);
  }

  lemma {:induction false} TextSplits(b: seq<char>, p: nat, c: nat)
    requires p <= c <= |b| && forall k :: p <= k < c ==> b[k] != NUL
    ensures CText(b, p) == b[p..c] + CText(b, c)
    decreases c - p
  {
    if p < c {
      TextSplits(b, p + 1, c);
      var word, rest := b[p + 1..c], CText(b, c);
      assert b[p..c] == [b[p]] + word;
      assert [b[p]] + (word + rest) == [b[p]] + word + rest;
    }
  }

  method SkipClass(b: array<char>, p: nat, delim: string) returns (c: nat)
    requires p <= b.Length && Ends(b[..], p)
    ensures p <= c < b.Length && Ends(b[..], c) && (b[c] == NUL || b[c] !in delim)
    ensures Words(CText(b[..], c), delim) == Words(CText(b[..], p), delim)
  {
    c := p;
    while true
      invariant p <= c <= b.Length && Ends(b[..], c)
      invariant Words(CText(b[..], c), delim) == Words(CText(b[..], p), delim)
      decreases b.Length - c
    {
      if b[c] == NUL {
        return;
      }
      var skip := InCharacterClass(b[c], delim);
      if !skip {
        return;
      }
      SkipOne(b[..], c, delim);
      c := c + 1;
    }
  }

  method ScanWord(b: array<char>, p: nat, delim: string) returns (c: nat)
    requires p <= b.Length && Ends(b[..], p)
    ensures p <= c < b.Length && Ends(b[..], c) && (b[c] == NUL || b[c] in delim)
    ensures forall k :: p <= k < c ==> b[k] != NUL && b[k] !in delim
  {
    c := p;
    while true
      invariant p <= c <= b.Length && Ends(b[..], c)
      invariant forall k :: p <= k < c ==> b[k] != NUL && b[k] !in delim
      decreases b.Length - c
    {
      if b[c] == NUL {
        return;
      }
      var stop := InCharacterClass(b[c], delim);
      if stop {
        return;
      }
      c := c + 1;
    }
  }

  /** What cutting the word p..c off with a NUL leaves in the buffer. */
  lemma CutWord(b: seq<char>, p: nat, c: nat, delim: string)
    requires p < c < |b| && b[c] in delim && b[c] != NUL && Ends(b, c)
    requires forall k :: p <= k < c ==> b[k] != NUL && b[k] !in delim
    ensures var d := b[c := NUL];
      && CText(d, p) == b[p..c] && Ends(d, c + 1)
      && Words(CText(b, p), delim) == [b[p..c]] + Words(CText(d, c + 1), delim)
  {
    var d := b[c := NUL];
    assert d[p..c] == b[p..c];
    CTextIs(d, p, b[p..c]);
    WordEndsAt(b, p, c, delim);
    SkipOne(b, c, delim);
    assert b[c + 1..] == d[c + 1..];
    CTextFrom(b, d, c + 1);
    var q :| c <= q < |b| && b[q] == NUL;
    assert d[q] == NUL;
  }

  /**
  One call of strtok_r: s is the string passed in, or, when there is none, the call goes on where
  the one before it stopped.  The first word is cut off by at most one NUL; what follows it is
  left for the next call.
  */
  method StrtokR(b: array<char>, s: Option<nat>, delim: string, last: nat) returns (token: Option<nat>, next: nat)
    requires var p := if s.Some? then s.value else last; p <= b.Length && Ends(b[..], p)
    modifies b
    ensures var p := if s.Some? then s.value else last; var ws := Words(old(CText(b[..], p)), delim);
      && (token.None? <==> ws == [])
      && (token.None? ==> b[..] == old(b[..]) && next == last)
      && (token.Some? ==>
            && p <= token.value < next <= b.Length && Ends(b[..], next)
            && CText(b[..], token.value) == ws[0] && Words(CText(b[..], next), delim) == ws[1..]
            && b[..p] == old(b[..p]) && b[next..] == old(b[next..]))
  {
    var p := if s.Some? then s.value else last;
    var start := SkipClass(b, p, delim);
    if b[start] == NUL {
      return None, last;
    }
    token := Some(start);
    var c := ScanWord(b, start, delim);
    if b[c] == NUL {
      next := c;
      WordEndsAt(b[..], start, c, delim);
      CTextIs(b[..], start, b[start..c]);
    } else {
      CutWord(b[..], start, c, delim);
      ghost var d := b[..][c := NUL];
      b[c] := NUL;
      assert b[..] == d;
      next := c + 1;
    }
  }

  // ---------------------------------------------------------------- the callers' view

  // The words that the calls still to come will return.
  ghost predicate Left(b: seq<char>, last: nat, delim: string, ws: seq<string>) {
    last <= |b| && Ends(b, last) && Words(CText(b, last), delim) == ws
  }

  method ReadString(b: array<char>, p: nat) returns (s: string)
    requires p <= b.Length && Ends(b[..], p)
    ensures s == CText(b[..], p)
  {
    s := "";
    var c := p;
    while b[c] != NUL
      invariant p <= c < b.Length && Ends(b[..], c) && s + CText(b[..], c) == CText(b[..], p)
      decreases b.Length - c
    {
      s := s + [b[c]];
      c := c + 1;
    }
  }

  /** strtok_r on a copy of s: the first word, and a buffer that holds the others. */
  method FirstToken(s: string, delim: string) returns (b: array<char>, token: Option<string>, last: nat)
    requires NUL !in s
    ensures fresh(b)
    ensures var ws := Words(s, delim);
      && (token.None? <==> ws == [])
      && (token.Some? ==> token.value == ws[0] && Left(b[..], last, delim, ws[1..]))
  {
    b := Strdup(s);
    var t: Option<nat>;
    t, last := StrtokR(b, Some(0), delim, 0);
    if t.None? {
      return b, None, last;
    }
    var w := ReadString(b, t.value);
    token := Some(w);
  }

  /** strtok_r with no string: the next word. */
  method NextToken(b: array<char>, delim: string, last: nat, ghost ws: seq<string>)
    returns (token: Option<string>, next: nat)
    requires Left(b[..], last, delim, ws)
    modifies b
    ensures token.None? <==> ws == []
    ensures token.Some? ==> token.value == ws[0] && Left(b[..], next, delim, ws[1..])
    ensures token.None? ==> Left(b[..], next, delim, [])
  {
    var t: Option<nat>;
    t, next := StrtokR(b, None, delim, last);
    if t.None? {
      return None, next;
    }
    TokenEnds(b[..], t.value, next);
    var w := ReadString(b, t.value);
    token := Some(w);
  }

  lemma TokenEnds(b: seq<char>, p: nat, next: nat)
    requires p <= next <= |b| && Ends(b, next)
    ensures Ends(b, p)
  {
    var q :| next <= q < |b| && b[q] == NUL;
    assert p <= q;
  }

  // ---------------------------------------------------------------- the first of a character

  lemma {:induction false} SpanIs(s: string, delim: string, n: nat)
    requires n <= |s| && (forall k :: 0 <= k < n ==> s[k] !in delim) && (n < |s| ==> s[n] in delim)
    ensures Span(s, delim) == n
  {
    if n > 0 { SpanIs(s[1..], delim, n - 1); }
  }

  /** strstr for one character from p on: where it stands, or the end of the string. */
  method FirstChar(b: array<char>, p: nat, c: char) returns (pos: nat)
    requires p <= b.Length && Ends(b[..], p) && c != NUL
    ensures var text := CText(b[..], p); var n := Span(text, [c]);
      && pos == p + n && p + |text| < b.Length && b[p..pos] == text[..n] && NUL !in b[p..pos]
      && b[pos] == (if n < |text| then c else NUL) && Ends(b[..], pos)
  {
    pos := ScanWord(b, p, [c]);
    FirstCharIs(b[..], p, c, pos);
  }

  lemma FirstCharIs(b: seq<char>, p: nat, c: char, pos: nat)
    requires p <= pos < |b| && Ends(b, p) && Ends(b, pos) && c != NUL && (b[pos] == NUL || b[pos] == c)
    requires forall k :: p <= k < pos ==> b[k] != NUL && b[k] !in [c]
    ensures var text := CText(b, p); var n := Span(text, [c]);
      && pos == p + n && p + |text| < |b| && b[p..pos] == text[..n] && NUL !in b[p..pos]
      && b[pos] == (if n < |text| then c else NUL)
  {
    var word, rest := b[p..pos], CText(b, pos);
    TextSplits(b, p, pos);
    CTextShape(b, p);
    assert CText(b, p)[..|word|] == word;
    assert rest == "" <==> b[pos] == NUL;
    SpanIs(word + rest, [c], |word|);
  }
}
