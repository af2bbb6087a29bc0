/**
The section headers of configs/yaf_config_ini.c: "child : p1 : ... : pn" cut in place by a scan
that moves pointers and writes NULs, against a split at the colons.
*/
module IniHeader {
  import opened Strtok

  // ---------------------------------------------------------------- names of a header

  function Trim(s: string): string { RTrim(LTrim(s, " "), " ") }

  /** The position of the last colon. */
  function LastColon(s: string): (j: nat)
    requires ':' in s
    ensures j < |s| && s[j] == ':' && ':' !in s[j + 1..]
  {
    if s[|s| - 1] == ':' then |s| - 1 else LastColon(s[..|s| - 1])
  }

  /** The pieces between the colons. */
  function Split(s: string): (pieces: seq<string>)
    ensures pieces != []
    decreases |s|
  {
    if ':' !in s then [s] else var j := LastColon(s); Split(s[..j]) + [s[j + 1..]]
  }

  /** The trimmed pieces that are not blank. */
  function Names(pieces: seq<string>): seq<string> {
    if pieces == [] then []
    else
      var w := Trim(pieces[|pieces| - 1]);
      Names(pieces[..|pieces| - 1]) + if w == "" then [] else [w]
  }

  // The section that a header opens, and the sections it inherits from, the strongest first.
  datatype Header = Header(child: string, parents: seq<string>)

  function Pieced(h: string): Header {
    Header(Trim(Split(h)[0]), Names(Split(h)[1..]))
  }

  /** Child and parents of a header.  A lone colon names the empty section as its own parent. */
  function Read(h: string): Header {
    if LTrim(h, " ") == ":" then Header("", [""]) else Pieced(h)
  }

  // ---------------------------------------------------------------- what the scan computes

  /** The parents below the first colon, found from the last colon backwards. */
  function Parents(seg: string): seq<string>
    decreases |seg|
  {
    if ':' !in seg then [seg]
    else
      var j := LastColon(seg);
      RTrimShorter(seg[..j], " :");
      Parents(RTrim(seg[..j], " :")) + [LTrim(seg[j..], " :")]
  }

  function FirstColon(s: string): (i: nat)
    requires ':' in s
    ensures i < |s| && s[i] == ':' && ':' !in s[..i]
  {
    if s[0] == ':' then 0 else 1 + FirstColon(s[1..])
  }

  function Scan(h: string): Header {
    var s1 := LTrim(h, " ");
    var s2 := if |s1| > 1 then RTrim(s1, " :") else s1;
    if ':' !in s2 then Header(s2, [])
    else
      var i := FirstColon(s2);
      Header(RTrim(s2[..i], " :"), Parents(LTrim(s2[i..], " :")))
  }

  // ---------------------------------------------------------------- the scan reads the pieces

  lemma {:induction false} NamesJoin(p: seq<string>, q: seq<string>)
    ensures Names(p + q) == Names(p) + Names(q)
  {
    if q == [] {
      assert p + q == p;
    } else {
      var front := q[..|q| - 1];
      assert (p + q)[..|p + q| - 1] == p + front;
      NamesJoin(p, front);
    }
  }

  lemma LastColonIs(s: string, j: nat)
    requires j < |s| && s[j] == ':' && ':' !in s[j + 1..]
    ensures LastColon(s) == j
  {
    var k := LastColon(s);
    assert forall q :: k < q < |s| ==> s[q] == s[k + 1..][q - k - 1];
    assert forall q :: j < q < |s| ==> s[q] == s[j + 1..][q - j - 1];
  }

  /** A piece without colons behind the last colon. */
  lemma SplitAt(y: string, w: string)
    requires ':' !in w
    ensures Split(y + ":" + w) == Split(y) + [w]
  {
    var s := y + ":" + w;
    assert s[|y|] == ':' && s[|y| + 1..] == w && s[..|y|] == y;
    LastColonIs(s, |y|);
  }

  /** Every string ends in a piece: the whole string, or what follows its last colon. */
  lemma SplitEnd(y: string)
    ensures ':' in y ==> var j := LastColon(y); y == y[..j] + ":" + y[j + 1..]
  {
  }

  lemma {:induction false} SplitBlankEnd(y: string)
    ensures Split(y + " ") == Split(y)[..|Split(y)| - 1] + [Split(y)[|Split(y)| - 1] + " "]
  {
    if ':' in y {
      var j := LastColon(y);
      SplitEnd(y);
      assert y + " " == y[..j] + ":" + (y[j + 1..] + " ");
      SplitAt(y[..j], y[j + 1..] + " ");
    }
  }

  lemma RTrimBlankEnd(w: string)
    ensures RTrim(w + " ", " ") == RTrim(w, " ")
  {
    assert (w + " ")[..|w|] == w;
  }

  lemma {:induction false} LTrimBlankEnd(w: string)
    ensures LTrim(w + " ", " ") == if LTrim(w, " ") == "" then "" else LTrim(w, " ") + " "
  {
    if w == "" {
      assert (w + " ")[1..] == "";
    } else if w[0] == ' ' {
      assert (w + " ")[1..] == w[1..] + " ";
      LTrimBlankEnd(w[1..]);
    }
  }

  lemma TrimBlankEnd(w: string)
    ensures Trim(w + " ") == Trim(w)
  {
    LTrimBlankEnd(w);
    RTrimBlankEnd(LTrim(w, " "));
  }

  lemma PiecedColonEnd(y: string)
    ensures Pieced(y + ":") == Pieced(y)
  {
    var p := Split(y);
    SplitAt(y, "");
    assert y + ":" + "" == y + ":";
    assert (p + [""])[1..] == p[1..] + [""];
    NamesJoin(p[1..], [""]);
    assert Names([""]) == [];
  }

  lemma PiecedBlankEnd(y: string)
    ensures Pieced(y + " ") == Pieced(y)
  {
    var p := Split(y);
    var front, last := p[..|p| - 1], p[|p| - 1];
    SplitBlankEnd(y);
    TrimBlankEnd(last);
    if |p| > 1 {
      assert (front + [last + " "])[1..] == front[1..] + [last + " "];
      assert p[1..] == front[1..] + [last];
      NamesOfLast(front[1..], last + " ", last);
    } else {
      assert p == [last];
    }
  }

  lemma NamesOfLast(front: seq<string>, w: string, v: string)
    requires Trim(w) == Trim(v)
    ensures Names(front + [w]) == Names(front + [v])
  {
    assert (front + [w])[..|front|] == front && (front + [v])[..|front|] == front;
  }

  lemma {:induction false} PiecedRTrim(y: string)
    ensures Pieced(RTrim(y, " :")) == Pieced(y)
  {
    if y != "" && y[|y| - 1] in " :" {
      var x := y[..|y| - 1];
      PiecedRTrim(x);
      if y[|y| - 1] == ':' {
        assert x + ":" == y;
        PiecedColonEnd(x);
      } else {
        assert x + " " == y;
        PiecedBlankEnd(x);
      }
    }
  }

  function FrontPieces(c: char, p: seq<string>): seq<string>
    requires p != []
  {
    if c == ':' then [""] + p else [[c] + p[0]] + p[1..]
  }

  lemma FrontOfJoin(c: char, p: seq<string>, w: string)
    requires p != []
    ensures FrontPieces(c, p) + [w] == FrontPieces(c, p + [w])
  {
  }

  lemma FrontOfString(c: char, y: string, w: string)
    ensures [c] + (y + ":" + w) == ([c] + y) + ":" + w
  {
  }

  /** A character in front belongs to the first piece, unless it is a colon. */
  lemma {:induction false} SplitFront(c: char, y: string)
    ensures Split([c] + y) == FrontPieces(c, Split(y))
    decreases |y|
  {
    if ':' in y {
      var j := LastColon(y);
      var x, w := y[..j], y[j + 1..];
      SplitEnd(y);
      SplitFront(c, x);
      FrontOfString(c, x, w);
      SplitAt([c] + x, w);
      FrontOfJoin(c, Split(x), w);
    } else if c == ':' {
      SplitAt("", y);
      assert "" + ":" + y == [c] + y;
    }
  }

  lemma {:induction false} PiecedLTrim(y: string)
    ensures Pieced(LTrim(y, " ")) == Pieced(y)
  {
    if y != "" && y[0] == ' ' {
      PiecedLTrim(y[1..]);
      SplitFront(' ', y[1..]);
      assert [' '] + y[1..] == y;
      assert FrontPieces(' ', Split(y[1..]))[1..] == Split(y[1..])[1..];
      TrimFront(Split(y[1..])[0]);
    }
  }

  lemma TrimFront(w: string)
    ensures Trim(" " + w) == Trim(w)
  {
    assert (" " + w)[1..] == w;
  }

  lemma NamesOfFirst(w: string, v: string, q: seq<string>)
    requires Trim(w) == Trim(v)
    ensures Names([w] + q) == Names([v] + q)
  {
    NamesJoin([w], q);
    NamesJoin([v], q);
    assert [w] == [] + [w] && [v] == [] + [v];
    NamesOfLast([], w, v);
  }

  lemma NamesAfterBlank(q: seq<string>)
    ensures Names([""] + q) == Names(q)
  {
    NamesJoin([""], q);
    assert Names([""]) == [];
  }

  /** The names in a string: blanks and colons in front of it do not matter. */
  lemma {:induction false} NamesLTrim(y: string)
    ensures Names(Split(LTrim(y, " :"))) == Names(Split(y))
  {
    if y != "" && y[0] in " :" {
      var p := Split(y[1..]);
      NamesLTrim(y[1..]);
      SplitFront(y[0], y[1..]);
      assert [y[0]] + y[1..] == y;
      if y[0] == ':' {
        NamesAfterBlank(p);
      } else {
        TrimFront(p[0]);
        NamesOfFirst(" " + p[0], p[0], p[1..]);
        assert p == [p[0]] + p[1..];
      }
    }
  }

  lemma {:induction false} NamesRTrim(y: string)
    ensures Names(Split(RTrim(y, " :"))) == Names(Split(y))
  {
    if y != "" && y[|y| - 1] in " :" {
      var x, c := y[..|y| - 1], y[|y| - 1];
      NamesRTrim(x);
      assert x + [c] == y;
      var p := Split(x);
      if c == ':' {
        SplitAt(x, "");
        assert x + ":" + "" == y;
        NamesJoin(p, [""]);
        assert Names([""]) == [];
      } else {
        SplitBlankEnd(x);
        TrimBlankEnd(p[|p| - 1]);
        NamesOfLast(p[..|p| - 1], p[|p| - 1] + " ", p[|p| - 1]);
        assert p == p[..|p| - 1] + [p[|p| - 1]];
      }
    }
  }

  predicate Bare(s: string) { s != "" && s[0] !in " :" && s[|s| - 1] !in " :" }

  lemma {:induction false} TrimsAgree(s: string)
    requires ':' !in s
    ensures LTrim(s, " :") == LTrim(s, " ") && RTrim(s, " :") == RTrim(s, " ")
    decreases |s|
  {
    if s != "" {
      TrimsAgree(s[1..]);
      TrimsAgree(s[..|s| - 1]);
    }
  }

  lemma LastName(w: string)
    requires ':' !in w && w != "" && w[|w| - 1] != ' '
    ensures Names([w]) == [LTrim(":" + w, " :")]
  {
    assert (":" + w)[1..] == w;
    TrimsAgree(w);
    LTrimKeepsEnd(w, " ");
    assert Names([w]) == [] + [Trim(w)];
  }

  lemma ParentsStep(seg: string)
    requires Bare(seg) && ':' in seg
    ensures var j := LastColon(seg); Bare(RTrim(seg[..j], " :")) && Names([seg[j + 1..]]) == [LTrim(seg[j..], " :")]
  {
    var j := LastColon(seg);
    assert seg[..j][0] == seg[0];
    RTrimKeepsFront(seg[..j], " :");
    assert seg[j..] == ":" + seg[j + 1..];
    assert seg[j + 1..][|seg[j + 1..]| - 1] == seg[|seg| - 1];
    LastName(seg[j + 1..]);
  }

  lemma NamesOfSplit(seg: string)
    requires ':' in seg
    ensures var j := LastColon(seg); Names(Split(seg)) == Names(Split(seg[..j])) + Names([seg[j + 1..]])
  {
    var j := LastColon(seg);
    NamesJoin(Split(seg[..j]), [seg[j + 1..]]);
  }

  lemma {:induction false} ParentsAreNames(seg: string)
    requires Bare(seg)
    ensures Parents(seg) == Names(Split(seg))
    decreases |seg|
  {
    if ':' !in seg {
      assert Names([seg]) == [] + [seg];
    } else {
      var j := LastColon(seg);
      RTrimShorter(seg[..j], " :");
      ParentsStep(seg);
      ParentsAreNames(RTrim(seg[..j], " :"));
      NamesRTrim(seg[..j]);
      NamesOfSplit(seg);
    }
  }

  lemma {:induction false} SplitFirst(s: string)
    requires ':' in s
    ensures var i := FirstColon(s); Split(s) == [s[..i]] + Split(s[i + 1..])
    decreases |s|
  {
    var t := s[1..];
    assert s == [s[0]] + t;
    SplitFront(s[0], t);
    if s[0] != ':' {
      SplitFirst(t);
      var i := FirstColon(t);
      FirstFront(s[0], t[..i], Split(t[i + 1..]));
      assert [s[0]] + t[..i] == s[..i + 1] && t[i + 1..] == s[i + 2..];
    } else {
      assert s[..0] == "";
    }
  }

  lemma FirstFront(c: char, w: string, p: seq<string>)
    requires c != ':'
    ensures FrontPieces(c, [w] + p) == [[c] + w] + p
  {
  }

  /** The scan finds the trimmed pieces of the header, whatever blanks and colons surround them. */
  lemma ScanReadsHeader(h: string)
    ensures Scan(h) == Read(h)
  {
    var s1 := LTrim(h, " ");
    var s2 := if |s1| > 1 then RTrim(s1, " :") else s1;
    LTrimFront(h, " ");
    if |s1| <= 1 && ':' in s1 {
      LoneColon(h);
    } else {
      assert Pieced(s2) == Pieced(h) by {
        PiecedLTrim(h);
        PiecedRTrim(s1);
      }
      if ':' in s2 {
        LastIsBare(s1);
        ScanWithColon(s2);
      } else {
        PlainHeader(s1, s2);
      }
    }
  }

  lemma PlainHeader(s1: string, s2: string)
    requires s2 == (if |s1| > 1 then RTrim(s1, " :") else s1) && (s1 == "" || s1[0] != ' ') && ':' !in s2
    ensures Pieced(s2) == Header(s2, [])
  {
    assert Split(s2) == [s2];
    NoBlanksAround(s1, s2);
  }

  lemma LastIsBare(s: string)
    ensures var t := RTrim(s, " :"); t == "" || (t[|t| - 1] !in " :" && t[0] == s[0])
  {
    RTrimShorter(s, " :");
    RTrimEnd(s, " :");
  }

  lemma NoBlanksAround(s1: string, s2: string)
    requires s2 == (if |s1| > 1 then RTrim(s1, " :") else s1) && (s1 == "" || s1[0] != ' ')
    ensures Trim(s2) == s2
  {
    LastIsBare(s1);
  }

  lemma LoneColon(h: string)
    requires var s1 := LTrim(h, " "); |s1| <= 1 && ':' in s1
    ensures Scan(h) == Header("", [""]) && LTrim(h, " ") == ":"
  {
    var s2 := ":";
    assert LTrim(h, " ") == s2;
    assert FirstColon(s2) == 0 && s2[..0] == "" && s2[0..] == s2;
    assert s2[1..] == "" && LTrim("", " :") == "";
    assert LTrim(s2, " :") == "";
    assert Parents("") == [""];
  }

  lemma PiecedOf(s: string, w: string, p: seq<string>)
    requires Split(s) == [w] + p
    ensures Pieced(s) == Header(Trim(w), Names(p))
  {
    assert ([w] + p)[0] == w && ([w] + p)[1..] == p;
  }

  lemma ScanWithColon(s2: string)
    requires ':' in s2 && s2[0] != ' ' && s2[|s2| - 1] !in " :"
    ensures var i := FirstColon(s2);
      Header(RTrim(s2[..i], " :"), Parents(LTrim(s2[i..], " :"))) == Pieced(s2)
  {
    var i := FirstColon(s2);
    var w, rest := s2[..i], s2[i..];
    assert Trim(w) == RTrim(w, " :") by {
      ChildIsTrimmed(w, s2);
    }
    assert rest[1..] == s2[i + 1..] && Parents(LTrim(rest, " :")) == Names(Split(rest[1..])) by {
      BehindColon(s2, i);
      ParentsAreTheRest(rest);
    }
    assert Pieced(s2) == Header(Trim(w), Names(Split(rest[1..]))) by {
      SplitFirst(s2);
      PiecedOf(s2, w, Split(rest[1..]));
    }
  }

  lemma BehindColon(s2: string, i: nat)
    requires i < |s2| && s2[i] == ':'
    ensures var w := s2[i..]; w[0] == ':' && w[|w| - 1] == s2[|s2| - 1] && w[1..] == s2[i + 1..]
  {
  }

  lemma ChildIsTrimmed(w: string, s2: string)
    requires ':' !in w && |w| <= |s2| && w == s2[..|w|] && s2 != "" && s2[0] != ' '
    ensures Trim(w) == RTrim(w, " :")
  {
    TrimsAgree(w);
    assert w != "" ==> w[0] == s2[0];
  }

  lemma ParentsAreTheRest(w: string)
    requires w != "" && w[0] == ':' && w[|w| - 1] !in " :"
    ensures Parents(LTrim(w, " :")) == Names(Split(w[1..]))
  {
    assert w[1..][|w[1..]| - 1] == w[|w| - 1];
    LTrimKeepsEnd(w[1..], " :");
    ParentsAreNames(LTrim(w[1..], " :"));
    NamesLTrim(w[1..]);
  }

  // ---------------------------------------------------------------- the scan in place

  /** while (*p is one of cs) *(p++) = NUL */
  method SkipHead(b: array<char>, p: nat, cs: string) returns (q: nat)
    requires p <= b.Length && Ends(b[..], p) && NUL !in cs
    modifies b
    ensures p <= q < b.Length && Ends(b[..], q) && CText(b[..], q) == LTrim(old(CText(b[..], p)), cs)
    ensures b[..p] == old(b[..p]) && b[q..] == old(b[q..]) && forall k :: p <= k < q ==> b[k] == NUL
  {
    q := p;
    ghost var orig := b[..];
    while b[q] in cs
      invariant p <= q < b.Length && Ends(b[..], q) && b[..p] == orig[..p] && b[q..] == orig[q..]
      invariant forall k :: p <= k < q ==> b[k] == NUL
      invariant LTrim(CText(orig, q), cs) == LTrim(CText(orig, p), cs)
      decreases b.Length - q
    {
      assert b[q] == b[q..][0] == orig[q..][0];
      ghost var e :| q <= e < b.Length && b[e] == NUL;
      assert CText(orig, q)[1..] == CText(orig, q + 1);
      b[q] := NUL;
      q := q + 1;
      assert b[e] == NUL;
      assert b[q..] == orig[q - 1..][1..];
    }
    assert b[q] == b[q..][0] == orig[q..][0];
    CTextFrom(b[..], orig, q);
    assert CText(orig, q) == "" || CText(orig, q)[0] == orig[q];
  }

  /**
  p = hi; while (*p is one of cs) *(p--) = NUL, on the text lo .. hi.  It stays in the buffer only
  if something in the text, or the byte in front of it, stops it.
  */
  method CutTail(b: array<char>, lo: nat, hi: nat, cs: string) returns (n: nat)
    requires lo <= hi < b.Length && NUL !in b[lo..hi + 1]
    requires RTrim(b[lo..hi + 1], cs) != "" || (lo > 0 && b[lo - 1] !in cs)
    modifies b
    ensures var text := old(b[lo..hi + 1]);
      && n == |RTrim(text, cs)| <= hi + 1 - lo
      && b[lo..lo + n] == RTrim(text, cs)
      && (forall k :: lo + n <= k <= hi ==> b[k] == NUL)
      && b[..lo] == old(b[..lo]) && b[hi + 1..] == old(b[hi + 1..])
  {
    ghost var orig := b[..];
    ghost var text := b[lo..hi + 1];
    var p: int := hi;
    while b[p] in cs
      invariant lo - 1 <= p <= hi && (p == lo - 1 ==> lo > 0 && b[lo - 1] !in cs)
      invariant b[..p + 1] == orig[..p + 1] && b[hi + 1..] == orig[hi + 1..]
      invariant forall k :: p < k <= hi ==> b[k] == NUL
      invariant RTrim(orig[lo..p + 1], cs) == RTrim(text, cs)
      decreases p
    {
      assert b[p] == b[..p + 1][p] == orig[p];
      assert orig[lo..p + 1][..p - lo] == orig[lo..p];
      assert p == lo ==> orig[lo..p] == "";
      b[p] := NUL;
      p := p - 1;
      assert b[..p + 1] == orig[..p + 2][..p + 1];
    }
    n := p + 1 - lo;
    if p >= lo {
      assert b[p] == b[..p + 1][p] == orig[p];
      assert orig[lo..p + 1][p - lo] == orig[p];
    } else {
      assert orig[lo..p + 1] == "";
    }
    assert b[lo..lo + n] == b[..p + 1][lo..] == orig[..p + 1][lo..] == orig[lo..p + 1];
    assert b[..lo] == b[..p + 1][..lo] == orig[..p + 1][..lo];
  }

  method StrChr(b: array<char>, p: nat) returns (seg: Option<nat>)
    requires p <= b.Length && Ends(b[..], p)
    ensures seg.None? <==> ':' !in CText(b[..], p)
    ensures seg.Some? ==> seg.value == p + FirstColon(CText(b[..], p))
  {
    var q := p;
    ghost var text := CText(b[..], p);
    CTextShape(b[..], p);
    while b[q] != NUL
      invariant p <= q <= p + |text| < b.Length && b[p + |text|] == NUL && b[p..p + |text|] == text
      invariant ':' !in text[..q - p]
      decreases b.Length - q
    {
      assert b[q] == text[q - p];
      if b[q] == ':' {
        FirstColonIs(text, q - p);
        return Some(q);
      }
      q := q + 1;
    }
    assert NUL !in text ==> q == p + |text|;
    assert text[..|text|] == text;
    return None;
  }

  lemma FirstColonIs(s: string, i: nat)
    requires i < |s| && s[i] == ':' && ':' !in s[..i]
    ensures FirstColon(s) == i
  {
    var k := FirstColon(s);
    assert forall q :: 0 <= q < i ==> s[q] == s[..i][q];
    assert forall q :: 0 <= q < k ==> s[q] == s[..k][q];
  }

  method StrrChr(b: array<char>, p: nat) returns (section: Option<nat>)
    requires p <= b.Length && Ends(b[..], p)
    ensures section.None? <==> ':' !in CText(b[..], p)
    ensures section.Some? ==> section.value == p + LastColon(CText(b[..], p))
  {
    var q := p;
    section := None;
    ghost var text := CText(b[..], p);
    CTextShape(b[..], p);
    while b[q] != NUL
      invariant p <= q <= p + |text| < b.Length && b[p + |text|] == NUL && b[p..p + |text|] == text
      invariant section.None? ==> ':' !in text[..q - p]
      invariant section.Some? ==> p <= section.value < q && text[section.value - p] == ':'
      invariant section.Some? ==> ':' !in text[section.value - p + 1..q - p]
      decreases b.Length - q
    {
      assert b[q] == text[q - p];
      if b[q] == ':' { section := Some(q); }
      q := q + 1;
    }
    assert NUL !in text ==> q == p + |text|;
    assert text[..|text|] == text;
    if section.Some? { LastColonIs(text, section.value - p); }
  }

  lemma CutParts(b: seq<char>, lo: nat, q: nat)
    requires lo <= |b| && Ends(b, lo) && lo <= q < lo + |CText(b, lo)|
    ensures var t := CText(b, lo);
      && q < |b| && b[lo..q] == t[..q - lo] && CText(b, q) == t[q - lo..] && NUL !in b[lo..q] && Ends(b, q)
  {
    var t := CText(b, lo);
    CTextShape(b, lo);
    assert b[lo..q] == b[lo..lo + |t|][..q - lo];
    TextSplits(b, lo, q);
    assert b[lo + |t|] == NUL;
  }

  lemma CutLeft(head: seq<char>, b: seq<char>, lo: nat, q: nat, w: string)
    requires lo + |w| <= q == |head| < |b| && b[..q] == head && b[q] == NUL
    requires head[lo..lo + |w|] == w && NUL !in w && (lo + |w| < q ==> head[lo + |w|] == NUL)
    ensures Ends(b, lo) && CText(b, lo) == w && b[..lo] == head[..lo]
  {
    assert b[lo..lo + |w|] == head[lo..lo + |w|];
    assert lo + |w| < q ==> b[lo + |w|] == head[lo + |w|];
    CTextIs(b, lo, w);
  }

  /** One cut at the colon q: blanks and colons on both sides of it become NULs. */
  method CutAt(b: array<char>, lo: nat, q: nat) returns (r: nat)
    requires lo <= b.Length && Ends(b[..], lo)
    requires var t := CText(b[..], lo); lo <= q < lo + |t| && t[q - lo] == ':'
    requires RTrim(CText(b[..], lo)[..q - lo], " :") != "" || q == lo || (lo > 0 && b[lo - 1] !in " :")
    modifies b
    ensures var t := old(CText(b[..], lo));
      && q < r < b.Length && Ends(b[..], lo) && Ends(b[..], r)
      && CText(b[..], lo) == RTrim(t[..q - lo], " :") && CText(b[..], r) == LTrim(t[q - lo..], " :")
      && b[..lo] == old(b[..lo]) && b[r - 1] == NUL
  {
    CutParts(b[..], lo, q);
    ghost var orig := b[..];
    ghost var w := RTrim(b[lo..q], " :");
    CutFront(b, lo, q);
    CTextFrom(b[..], orig, q);
    ghost var head := b[..q];
    r := SkipPast(b, q);
    CutLeft(head, b[..], lo, q, w);
  }

  method SkipPast(b: array<char>, q: nat) returns (r: nat)
    requires q < b.Length && Ends(b[..], q) && b[q] == ':'
    modifies b
    ensures q < r < b.Length && Ends(b[..], r) && CText(b[..], r) == LTrim(old(CText(b[..], q)), " :")
    ensures b[..q] == old(b[..q]) && b[q] == NUL && b[r - 1] == NUL
  {
    LTrimFront(CText(b[..], q), " :");
    r := SkipHead(b, q, " :");
    assert CText(b[..], r) == "" || CText(b[..], r)[0] !in " :";
  }

  method CutFront(b: array<char>, lo: nat, q: nat)
    requires lo <= q < b.Length && NUL !in b[lo..q]
    requires RTrim(b[lo..q], " :") != "" || q == lo || (lo > 0 && b[lo - 1] !in " :")
    modifies b
    ensures var w := RTrim(old(b[lo..q]), " :");
      && lo + |w| <= q && b[lo..lo + |w|] == w && NUL !in w && (lo + |w| < q ==> b[lo + |w|] == NUL)
      && b[..lo] == old(b[..lo]) && b[q..] == old(b[q..])
  {
    RTrimShorter(b[lo..q], " :");
    if q > lo {
      var n := CutTail(b, lo, q - 1, " :");
    } else {
      assert b[lo..q] == "";
    }
  }
}
