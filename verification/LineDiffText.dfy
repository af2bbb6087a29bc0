/**
The diff as php-7.1.3/run-tests.php prints it: numbered lines joined by CR LF.  The printed text is
read back to the script, so that the output can be rebuilt from the text of the diff alone.
*/
module LineDiffText {
  import opened LineDiff

  // ---------------------------------------------------------------- printing

  function Decimal(n: nat): string {
    (if n < 10 then "" else Decimal(n / 10)) + [('0' as int + n % 10) as char]
  }

  /** A line number as "%03d" prints it. */
  function Padded(n: nat): string {
    var d := Decimal(n);
    if |d| == 1 then "00" + d else if |d| == 2 then "0" + d else d
  }

  function Printed(r: Record): Line {
    Padded(r.no) + (if r.Del? then "- " else "+ ") + r.text
  }

  /** implode("\r\n", diff). */
  function DiffText(diff: seq<Record>): string {
    if diff == [] then ""
    else if |diff| == 1 then Printed(diff[0])
    else Printed(diff[0]) + "\r\n" + DiffText(diff[1..])
  }

  /** generate_diff; the patterns are the wanted lines themselves outside regex mode. */
  method GenerateDiff(wanted: string, patterns: string, isReg: bool, output: string, eq: Comp) returns (text: string)
    ensures var (w, o) := (Explode('\n', wanted), Explode('\n', output));
      var r := if isReg then Explode('\n', patterns) else w;
      text == DiffText(Script(r, o, eq, w, Heuristic(r, o, eq)))
  {
    var w, o := Explode('\n', wanted), Explode('\n', output);
    var r := if isReg then Explode('\n', patterns) else w;
    var diff := GenerateArrayDiff(r, o, eq, w);
    text := ImplodeLines(diff);
  }

  /** implode("\r\n", diff) on the printed lines. */
  method ImplodeLines(diff: seq<Record>) returns (text: string)
    ensures text == DiffText(diff)
  {
    text := "";
    var k := 0;
    while k < |diff|
      invariant 0 <= k <= |diff|
      invariant text + Behind(diff, k) == DiffText(diff)
    {
      BehindStep(diff, k);
      ImplodeStep(text, diff, k);
      text := text + ((if k > 0 then "\r\n" else "") + Printed(diff[k]));
      k := k + 1;
    }
  }

  lemma ImplodeStep(text: string, diff: seq<Record>, k: nat)
    requires k < |diff|
    requires Behind(diff, k) == (if k > 0 then "\r\n" else "") + Printed(diff[k]) + Behind(diff, k + 1)
    ensures text + Behind(diff, k) == text + ((if k > 0 then "\r\n" else "") + Printed(diff[k])) + Behind(diff, k + 1)
  {
  }

  // What is still to be printed behind the first k records.
  function Behind(diff: seq<Record>, k: nat): string
    requires k <= |diff|
  {
    if k == |diff| then "" else (if k > 0 then "\r\n" else "") + DiffText(diff[k..])
  }

  lemma BehindStep(diff: seq<Record>, k: nat)
    requires k < |diff|
    ensures Behind(diff, k) == (if k > 0 then "\r\n" else "") + Printed(diff[k]) + Behind(diff, k + 1)
  {
    assert diff[k..][1..] == diff[k + 1..];
  }

  // ---------------------------------------------------------------- reading

  predicate IsDigit(c: char) { '0' <= c <= '9' }

  predicate Digits(s: string) { forall k :: 0 <= k < |s| ==> IsDigit(s[k]) }

  function Number(s: string): nat
    requires Digits(s)
  {
    if s == "" then 0 else 10 * Number(s[..|s| - 1]) + (s[|s| - 1] as int - '0' as int)
  }

  // How many digits a text starts with.
  function Leading(s: string): (n: nat)
    ensures n <= |s| && Digits(s[..n])
  {
    if s == "" || !IsDigit(s[0]) then 0 else 1 + Leading(s[1..])
  }

  /** A line number, "-" or "+", a blank, and the text; anything else is no record. */
  function ReadRecord(line: Line): seq<Record> {
    var n := Leading(line);
    if |line| < n + 2 || line[n + 1] != ' ' then []
    else if line[n] == '-' then [Del(Number(line[..n]), line[n + 2..])]
    else if line[n] == '+' then [Add(Number(line[..n]), line[n + 2..])]
    else []
  }

  // The last character of a line in front of a line feed is the carriage return.
  function ReadLines(lines: seq<Line>): seq<Record> {
    if lines == [] then []
    else if |lines| == 1 then ReadRecord(lines[0])
    else ReadRecord(if lines[0] == "" then "" else lines[0][..|lines[0]| - 1]) + ReadLines(lines[1..])
  }

  function ReadDiff(text: string): seq<Record> {
    if text == "" then [] else ReadLines(Explode('\n', text))
  }

  // ---------------------------------------------------------------- what is printed is read back

  lemma {:induction false} NumberOfDecimal(n: nat)
    ensures Digits(Decimal(n)) && Number(Decimal(n)) == n && Decimal(n) != "" && (n > 0 ==> Decimal(n)[0] != '0')
  {
    if n >= 10 { NumberOfDecimal(n / 10); }
    var d := Decimal(n);
    var front := if n < 10 then "" else Decimal(n / 10);
    assert d[..|d| - 1] == front;
  }

  lemma {:induction false} LeadingZero(s: string)
    requires Digits(s)
    ensures Digits("0" + s) && Number("0" + s) == Number(s)
  {
    if s != "" {
      LeadingZero(s[..|s| - 1]);
      assert ("0" + s)[..|s|] == "0" + s[..|s| - 1];
    } else {
      assert ("0" + s)[..0] == "";
    }
  }

  lemma NumberOfPadded(n: nat)
    ensures Digits(Padded(n)) && Number(Padded(n)) == n
    ensures |Padded(n)| >= 3 && (|Padded(n)| > 3 ==> Padded(n)[0] != '0')
  {
    var d := Decimal(n);
    NumberOfDecimal(n);
    LeadingZero(d);
    LeadingZero("0" + d);
    assert "0" + ("0" + d) == "00" + d;
  }

  lemma {:induction false} LeadingIs(d: string, rest: string)
    requires Digits(d) && (rest == "" || !IsDigit(rest[0]))
    ensures Leading(d + rest) == |d|
  {
    if d == "" {
      assert d + rest == rest;
    } else {
      assert (d + rest)[1..] == d[1..] + rest;
      LeadingIs(d[1..], rest);
    }
  }

  lemma ReadPrinted(r: Record)
    ensures ReadRecord(Printed(r)) == [r]
  {
    var d, sign := Padded(r.no), if r.Del? then "- " else "+ ";
    var line := Printed(r);
    NumberOfPadded(r.no);
    assert line == d + (sign + r.text);
    LeadingIs(d, sign + r.text);
    assert line[..|d|] == d && line[|d| + 2..] == r.text;
  }

  lemma {:induction false} ExplodePlain(c: char, x: string)
    requires c !in x
    ensures Explode(c, x) == [x]
  {
    if x != "" {
      ExplodePlain(c, x[1..]);
      assert [x[0]] + x[1..] == x;
    }
  }

  lemma {:induction false} ExplodeFirst(c: char, x: string, rest: string)
    requires c !in x
    ensures Explode(c, x + [c] + rest) == [x] + Explode(c, rest)
  {
    var text := x + [c] + rest;
    if x == "" {
      assert text[1..] == rest;
    } else {
      assert text[1..] == x[1..] + [c] + rest;
      ExplodeFirst(c, x[1..], rest);
      assert [x[0]] + x[1..] == x;
    }
  }

  // No record has a line feed in its text.
  predicate OneLined(diff: seq<Record>) { forall k :: 0 <= k < |diff| ==> '\n' !in diff[k].text }

  lemma PrintedOneLined(r: Record)
    requires '\n' !in r.text
    ensures '\n' !in Printed(r) && Printed(r) != ""
  {
    NumberOfPadded(r.no);
  }

  /** Reading the printed diff gives the script. */
  lemma {:induction false} DiffReadsBack(diff: seq<Record>)
    requires OneLined(diff)
    ensures ReadDiff(DiffText(diff)) == diff && (DiffText(diff) == "" <==> diff == [])
  {
    if diff != [] {
      PrintedOneLined(diff[0]);
      LinesReadBack(diff);
    }
  }

  lemma {:induction false} LinesReadBack(diff: seq<Record>)
    requires diff != [] && OneLined(diff)
    ensures ReadLines(Explode('\n', DiffText(diff))) == diff
  {
    hide Printed, Explode, ReadRecord;
    var line := Printed(diff[0]);
    PrintedOneLined(diff[0]);
    ReadPrinted(diff[0]);
    if |diff| == 1 {
      ExplodePlain('\n', line);
    } else {
      var rest := DiffText(diff[1..]);
      LinesReadBack(diff[1..]);
      LineCut(line, rest);
      LineRead(line, Explode('\n', rest));
    }
  }

  lemma LineCut(line: Line, rest: string)
    requires '\n' !in line
    ensures Explode('\n', line + "\r\n" + rest) == [line + "\r"] + Explode('\n', rest)
  {
    assert line + "\r\n" + rest == line + "\r" + "\n" + rest;
    ExplodeFirst('\n', line + "\r", rest);
  }

  lemma LineRead(line: Line, lines: seq<Line>)
    requires lines != []
    ensures ReadLines([line + "\r"] + lines) == ReadRecord(line) + ReadLines(lines)
  {
    assert ([line + "\r"] + lines)[1..] == lines && (line + "\r")[..|line|] == line;
  }

  // ---------------------------------------------------------------- the script has no line feeds

  lemma {:induction false} NumberedOneLined(rs: seq<Record>, del: bool, lo: nat, hi: nat, w: seq<Line>)
    requires Numbered(rs, del, lo, hi, w) && forall k :: 0 <= k < |w| ==> '\n' !in w[k]
    ensures OneLined(rs)
  {
    NumberedMeans(rs, del, lo, hi, w);
  }

  lemma {:induction false} SidesOneLined(diff: seq<Record>)
    requires OneLined(Dels(diff)) && OneLined(Adds(diff))
    ensures OneLined(diff)
  {
    if diff != [] {
      var more := diff[1..];
      if diff[0].Del? {
        assert Dels(diff)[1..] == Dels(more) && Dels(diff)[0] == diff[0];
        assert forall k :: 0 <= k < |Dels(more)| ==> Dels(more)[k] == Dels(diff)[k + 1];
      } else {
        assert Adds(diff)[1..] == Adds(more) && Adds(diff)[0] == diff[0];
        assert forall k :: 0 <= k < |Adds(more)| ==> Adds(more)[k] == Adds(diff)[k + 1];
      }
      SidesOneLined(more);
    }
  }

  /** Any script of texts that were cut at line feeds is read back from its printed text. */
  lemma ScriptReadsBack(a: seq<Line>, output: string, eq: Comp, wanted: string, counts: Oracle)
    ensures var (w, o) := (Explode('\n', wanted), Explode('\n', output));
      var diff := Script(a, o, eq, w, counts); ReadDiff(DiffText(diff)) == diff
  {
    var w, o := Explode('\n', wanted), Explode('\n', output);
    var diff := Script(a, o, eq, w, counts);
    PatchRoundTrip(a, o, eq, w, counts);
    NumberedOneLined(Dels(diff), true, 0, |a|, w);
    NumberedOneLined(Adds(diff), false, 0, |o|, o);
    SidesOneLined(diff);
    DiffReadsBack(diff);
  }

  /** From the wanted text and the text that generate_diff returns, the output text can be rebuilt. */
  lemma OutputIsRecoverable(wanted: string, output: string, counts: Oracle)
    ensures var (w, o) := (Explode('\n', wanted), Explode('\n', output));
      var read := ReadDiff(DiffText(Script(w, o, Same(), w, counts)));
      Implode('\n', Patch(w, Dels(read), Adds(read), 0, 0)) == output
  {
    var w := Explode('\n', wanted);
    ScriptReadsBack(w, output, Same(), wanted, counts);
    PlainPatchIsExact(w, Explode('\n', output), counts);
    ImplodeExplode('\n', output);
  }
}
