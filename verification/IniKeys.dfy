/**
The keys of configs/yaf_config_ini.c: a segment of a dotted name is read in two ways, one when a value
is stored under it and one when it is looked up.
*/
module IniKeys {
  // A key of a PHP array.  Strings that spell a number in canonical form become integers.
  datatype Key = Index(i: int) | Name(s: string)

  // ---------------------------------------------------------------- the two readings of a key

  const LONG_MAX := 0x7fff_ffff_ffff_ffff

  predicate Digits(s: string) { s != "" && forall k :: 0 <= k < |s| ==> '0' <= s[k] <= '9' }

  function Digit(c: char): (d: nat)
    requires '0' <= c <= '9'
    ensures d <= 9
  {
    c as int - '0' as int
  }

  function Decimal(s: string): nat
    requires forall k :: 0 <= k < |s| ==> '0' <= s[k] <= '9'
  {
    if s == "" then 0 else 10 * Decimal(s[..|s| - 1]) + Digit(s[|s| - 1])
  }

  predicate Fits(negative: bool, n: nat) { n <= LONG_MAX || (negative && n == LONG_MAX + 1) }

  function Signed(negative: bool, n: nat): int { if negative then -(n as int) else n }

  /** The key that storing under s uses (the symtable functions): only canonical integers become numbers. */
  function SymKey(s: string): Key {
    var negative := s != "" && s[0] == '-';
    var d := if negative then s[1..] else s;
    if Digits(d) && (d[0] != '0' || s == "0") && Fits(negative, Decimal(d)) then Index(Signed(negative, Decimal(d)))
    else Name(s)
  }

  const BLANKS := " \t\n\r\U{0B}\U{0C}"

  function SkipBlanks(s: string): string {
    if s != "" && s[0] in BLANKS then SkipBlanks(s[1..]) else s
  }

  /** The key that get uses (is_numeric_string): blanks, a sign and leading zeros are read over. */
  function NumKey(s: string): Key {
    var t := SkipBlanks(s);
    var negative := t != "" && t[0] == '-';
    var d := if t != "" && (t[0] == '-' || t[0] == '+') then t[1..] else t;
    if Digits(d) && Fits(negative, Decimal(d)) then Index(Signed(negative, Decimal(d))) else Name(s)
  }

  // ---------------------------------------------------------------- decimal numbers

  lemma TensApart(p: int, d: int, q: int, e: int)
    requires 10 * p + d == 10 * q + e && 0 <= d <= 9 && 0 <= e <= 9
    ensures p == q && d == e
  {
  }

  lemma LastDigit(a: string)
    requires Digits(a)
    ensures Decimal(a) == 10 * Decimal(a[..|a| - 1]) + Digit(a[|a| - 1])
  {
  }

  lemma SameDigits(a: string, b: string)
    requires Digits(a) && Digits(b) && a[..|a| - 1] == b[..|b| - 1] && Digit(a[|a| - 1]) == Digit(b[|b| - 1])
    ensures a == b
  {
    assert a == a[..|a| - 1] + [a[|a| - 1]];
    assert b == b[..|b| - 1] + [b[|b| - 1]];
  }

  lemma {:induction false} DecimalDigits(a: string, b: string)
    requires Digits(a) && Digits(b) && Decimal(a) == Decimal(b)
    requires (a[0] != '0' || |a| == 1) && (b[0] != '0' || |b| == 1)
    ensures a == b
    decreases |a|
  {
    var x, y := a[..|a| - 1], b[..|b| - 1];
    LastDigit(a);
    LastDigit(b);
    TensApart(Decimal(x), Digit(a[|a| - 1]), Decimal(y), Digit(b[|b| - 1]));
    if x != "" {
      DecimalPositive(x);
      if y != "" { DecimalDigits(x, y); }
    } else if y != "" {
      DecimalPositive(y);
    }
    SameDigits(a, b);
  }

  lemma {:induction false} DecimalPositive(a: string)
    requires Digits(a) && a[0] != '0'
    ensures Decimal(a) > 0
  {
    if |a| > 1 { DecimalPositive(a[..|a| - 1]); }
  }

  /** Storing keys apart: two names share a key only if they are the same name. */
  lemma KeysApart(a: string, b: string)
    requires SymKey(a) == SymKey(b)
    ensures a == b
  {
    if SymKey(a).Index? {
      var na, nb := a[0] == '-', b[0] == '-';
      var x, y := if na then a[1..] else a, if nb then b[1..] else b;
      assert na ==> a == "-" + x;
      assert nb ==> b == "-" + y;
      if x[0] != '0' { DecimalPositive(x); }
      if y[0] != '0' { DecimalPositive(y); }
      DecimalDigits(x, y);
    }
  }

  // ---------------------------------------------------------------- what the readings mean

  function Decimals(n: nat): string {
    (if n < 10 then "" else Decimals(n / 10)) + [('0' as int + n % 10) as char]
  }

  /** An integer as it is printed. */
  function Printed(i: int): string { if i < 0 then "-" + Decimals(-i) else Decimals(i) }

  predicate InRange(i: int) { -0x8000_0000_0000_0000 <= i < 0x8000_0000_0000_0000 }

  // Blanks, at most one sign, and digits.
  ghost predicate Spells(s: string, blanks: string, sign: string, d: string) {
    && s == blanks + sign + d && (forall k :: 0 <= k < |blanks| ==> blanks[k] in BLANKS)
    && (sign == "" || sign == "+" || sign == "-") && Digits(d)
  }

  /** The text stands for the integer i, in some spelling. */
  ghost predicate ReadsAs(s: string, i: int) {
    && InRange(i)
    && exists blanks, sign, d :: Spells(s, blanks, sign, d) && i == Signed(sign == "-", Decimal(d))
  }

  /** Whatever number the text stands for, it is that number as printed. */
  ghost predicate PlainKey(s: string) { forall i :: ReadsAs(s, i) ==> s == Printed(i) }

  lemma {:induction false} DecimalsRead(n: nat)
    ensures Digits(Decimals(n)) && Decimal(Decimals(n)) == n
    ensures Decimals(n)[0] == '0' ==> n == 0 && Decimals(n) == "0"
  {
    if n >= 10 {
      DecimalsRead(n / 10);
      OneMoreDigit(Decimals(n / 10), n % 10);
    } else {
      OneMoreDigit("", n);
    }
  }

  lemma OneMoreDigit(front: string, e: nat)
    requires e < 10 && (front == "" || Digits(front))
    ensures var d := front + [('0' as int + e) as char]; Digits(d) && Decimal(d) == 10 * Decimal(front) + e
  {
    var d := front + [('0' as int + e) as char];
    assert d[..|d| - 1] == front;
  }

  /** The digits of a number without leading zeros are the printed ones. */
  lemma DecimalsAreDigits(d: string)
    requires Digits(d) && (d[0] != '0' || |d| == 1)
    ensures d == Decimals(Decimal(d))
  {
    DecimalsRead(Decimal(d));
    DecimalDigits(d, Decimals(Decimal(d)));
  }

  /** Storing makes numbers of exactly the printed integers in range. */
  lemma SymKeyIs(s: string, i: int)
    ensures SymKey(s) == Index(i) <==> InRange(i) && s == Printed(i)
    ensures SymKey(s).Name? ==> SymKey(s) == Name(s)
  {
    if InRange(i) && s == Printed(i) { PrintedIsIndex(i); }
    if SymKey(s) == Index(i) { IndexIsPrinted(s, i); }
  }

  lemma PrintedIsIndex(i: int)
    requires InRange(i)
    ensures SymKey(Printed(i)) == Index(i)
  {
    hide Decimal;
    var s, n: nat := Printed(i), if i < 0 then -i else i;
    DecimalsRead(n);
    if i < 0 { assert s[1..] == Decimals(n); }
  }

  lemma IndexIsPrinted(s: string, i: int)
    requires SymKey(s) == Index(i)
    ensures InRange(i) && s == Printed(i)
  {
    hide Decimal;
    var negative := s != "" && s[0] == '-';
    var d := if negative then s[1..] else s;
    DecimalsAreDigits(d);
    if negative {
      assert s == "-" + d;
      DecimalPositive(d);
    }
  }

  lemma {:induction false} SkipBlanksSplits(s: string) returns (blanks: string)
    ensures s == blanks + SkipBlanks(s) && forall k :: 0 <= k < |blanks| ==> blanks[k] in BLANKS
  {
    if s != "" && s[0] in BLANKS {
      var more := SkipBlanksSplits(s[1..]);
      blanks := [s[0]] + more;
      assert s == [s[0]] + s[1..];
    } else {
      blanks := "";
    }
  }

  lemma {:induction false} SkipBlanksPast(blanks: string, t: string)
    requires (forall k :: 0 <= k < |blanks| ==> blanks[k] in BLANKS) && (t == "" || t[0] !in BLANKS)
    ensures SkipBlanks(blanks + t) == t
  {
    if blanks == "" {
      assert blanks + t == t;
    } else {
      assert (blanks + t)[1..] == blanks[1..] + t;
      SkipBlanksPast(blanks[1..], t);
    }
  }

  /** Looking up makes numbers of exactly the texts that stand for one in range, in whatever spelling. */
  lemma NumKeyIs(s: string, i: int)
    ensures NumKey(s) == Index(i) <==> ReadsAs(s, i)
    ensures NumKey(s).Name? ==> NumKey(s) == Name(s)
  {
    if NumKey(s) == Index(i) { IndexIsRead(s, i); }
    if ReadsAs(s, i) {
      var blanks, sign, d :| Spells(s, blanks, sign, d) && i == Signed(sign == "-", Decimal(d));
      SpelledIsIndex(s, blanks, sign, d);
    }
  }

  lemma IndexIsRead(s: string, i: int)
    requires NumKey(s) == Index(i)
    ensures ReadsAs(s, i)
  {
    hide Decimal;
    var t := SkipBlanks(s);
    var sign, d := SignSplits(t);
    var blanks := SkipBlanksSplits(s);
    SpellsJoined(s, blanks, sign, d);
  }

  lemma SignSplits(t: string) returns (sign: string, d: string)
    ensures t == sign + d && (sign == "" || sign == "+" || sign == "-")
    ensures d == if t != "" && (t[0] == '-' || t[0] == '+') then t[1..] else t
    ensures sign == "-" <==> t != "" && t[0] == '-'
  {
    if t != "" && (t[0] == '-' || t[0] == '+') {
      sign, d := t[..1], t[1..];
    } else {
      sign, d := "", t;
    }
  }

  lemma SpellsJoined(s: string, blanks: string, sign: string, d: string)
    requires s == blanks + (sign + d) && Digits(d)
    requires (forall k :: 0 <= k < |blanks| ==> blanks[k] in BLANKS) && (sign == "" || sign == "+" || sign == "-")
    ensures Spells(s, blanks, sign, d)
  {
    assert blanks + (sign + d) == blanks + sign + d;
  }

  lemma SpelledIsIndex(s: string, blanks: string, sign: string, d: string)
    requires Spells(s, blanks, sign, d)
    ensures var i := Signed(sign == "-", Decimal(d)); InRange(i) ==> NumKey(s) == Index(i)
  {
    hide Decimal;
    assert blanks + sign + d == blanks + (sign + d);
    assert (sign + d)[0] !in BLANKS;
    SkipBlanksPast(blanks, sign + d);
    if sign != "" { assert (sign + d)[1..] == d; } else { assert sign + d == d; }
  }

  /** The two readings agree exactly on the segments that are no number, or a number as printed. */
  lemma KeysAgree(s: string)
    ensures SymKey(s) == NumKey(s) <==> PlainKey(s)
  {
    hide Decimal, Spells, Printed;
    forall i ensures SymKey(s) == Index(i) <==> InRange(i) && s == Printed(i) { SymKeyIs(s, i); }
    forall i ensures NumKey(s) == Index(i) <==> ReadsAs(s, i) { NumKeyIs(s, i); }
    hide SymKey, NumKey;
    NamesAreThemselves(s);
    if SymKey(s).Index? && NumKey(s).Name? {
      var i := SymKey(s).i;
      PrintedReads(i);
    }
  }

  lemma NamesAreThemselves(s: string)
    ensures SymKey(s).Name? ==> SymKey(s) == Name(s)
    ensures NumKey(s).Name? ==> NumKey(s) == Name(s)
  {
  }

  lemma PrintedReads(i: int)
    requires InRange(i)
    ensures ReadsAs(Printed(i), i)
  {
    hide Decimal;
    var n: nat := if i < 0 then -i else i;
    DecimalsRead(n);
    assert Spells(Printed(i), "", if i < 0 then "-" else "", Decimals(n));
  }

  /** A segment with any character that is no blank, sign or digit is plain. */
  lemma WordsArePlain(s: string, k: nat)
    requires k < |s| && s[k] !in BLANKS && s[k] !in "+-0123456789"
    ensures PlainKey(s) && SymKey(s) == Name(s) && NumKey(s) == Name(s)
  {
    hide SymKey, NumKey, Printed;
    forall i ensures !ReadsAs(s, i) { NotRead(s, k, i); }
    KeysAgree(s);
    if NumKey(s).Index? { NumKeyIs(s, NumKey(s).i); }
    NamesAreThemselves(s);
  }

  lemma NotRead(s: string, k: nat, i: int)
    requires k < |s| && s[k] !in BLANKS && s[k] !in "+-0123456789"
    ensures !ReadsAs(s, i)
  {
    forall blanks, sign, d ensures !Spells(s, blanks, sign, d) {
      if Spells(s, blanks, sign, d) { NothingElse(s, blanks, sign, d, k); }
    }
  }

  lemma NothingElse(s: string, blanks: string, sign: string, d: string, k: nat)
    requires Spells(s, blanks, sign, d) && k < |s|
    ensures s[k] in BLANKS || s[k] in "+-0123456789"
  {
  }
}
