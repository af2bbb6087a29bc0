/**
The line diff of php-7.1.3/run-tests.php: a heuristic with bounded lookahead drives the builder
of an edit script.  The script is proved right whatever the heuristic answers; the heuristic is
proved never to over-count, and to be exact once its budget is large enough.
*/
module LineDiff {

  type Line = string

  // comp_line: string equality, or a regular-expression match in regex mode.
  type Comp = (Line, Line) -> bool

  function Max(a: nat, b: nat): nat { if a > b then a else b }

  // ---------------------------------------------------------------- common subsequences

  // Pairs of positions, both strictly increasing, whose lines compare equal.
  type Matching = seq<(nat, nat)>

  ghost predicate IsMatching(a: seq<Line>, b: seq<Line>, eq: Comp, i: nat, j: nat, m: Matching) {
    && (forall q {:trigger m[q]} :: 0 <= q < |m| ==>
          i <= m[q].0 < |a| && j <= m[q].1 < |b| && eq(a[m[q].0], b[m[q].1]))
    && (forall q, r {:trigger m[q], m[r]} :: 0 <= q < r < |m| ==> m[q].0 < m[r].0 && m[q].1 < m[r].1)
  }

  /** The length of a longest common subsequence of the suffixes from i and from j. */
  function Lcs(a: seq<Line>, b: seq<Line>, eq: Comp, i: nat, j: nat): nat
    decreases |a| - i, |b| - j
  {
    if i >= |a| || j >= |b| then 0
    else
      var skip := Max(Lcs(a, b, eq, i + 1, j), Lcs(a, b, eq, i, j + 1));
      if eq(a[i], b[j]) then Max(1 + Lcs(a, b, eq, i + 1, j + 1), skip) else skip
  }

  lemma {:induction false} LcsBoundsMatchings(a: seq<Line>, b: seq<Line>, eq: Comp, i: nat, j: nat, m: Matching)
    requires IsMatching(a, b, eq, i, j, m)
    ensures |m| <= Lcs(a, b, eq, i, j)
    decreases |a| - i, |b| - j
  {
    if |m| > 0 {
      if m[0].0 > i {
        LcsBoundsMatchings(a, b, eq, i + 1, j, m);
      } else if m[0].1 > j {
        LcsBoundsMatchings(a, b, eq, i, j + 1, m);
      } else {
        assert forall q :: 0 < q < |m| ==> m[0].0 < m[q].0 && m[0].1 < m[q].1;
        LcsBoundsMatchings(a, b, eq, i + 1, j + 1, m[1..]);
      }
    }
  }

  lemma {:induction false} LcsIsAttained(a: seq<Line>, b: seq<Line>, eq: Comp, i: nat, j: nat) returns (m: Matching)
    ensures IsMatching(a, b, eq, i, j, m) && |m| == Lcs(a, b, eq, i, j)
    decreases |a| - i, |b| - j
  {
    if i >= |a| || j >= |b| {
      m := [];
    } else {
      var m1 := LcsIsAttained(a, b, eq, i + 1, j);
      var m2 := LcsIsAttained(a, b, eq, i, j + 1);
      m := if |m1| > |m2| then m1 else m2;
      if eq(a[i], b[j]) {
        var m3 := LcsIsAttained(a, b, eq, i + 1, j + 1);
        if 1 + |m3| > |m| {
          MatchingAfter(a, b, eq, i, j, m3);
          m := [(i, j)] + m3;
        }
      }
    }
  }

  /** Dropping one line of either side costs a common subsequence at most one line. */
  lemma {:induction false} LcsStep(a: seq<Line>, b: seq<Line>, eq: Comp, i: nat, j: nat)
    requires i < |a| && j < |b|
    ensures Lcs(a, b, eq, i + 1, j) <= 1 + Lcs(a, b, eq, i + 1, j + 1)
    ensures Lcs(a, b, eq, i, j + 1) <= 1 + Lcs(a, b, eq, i + 1, j + 1)
  {
    LcsDrop(a, b, eq, i + 1, j);
    LcsDrop(a, b, eq, i, j + 1);
  }

  lemma {:induction false} LcsDrop(a: seq<Line>, b: seq<Line>, eq: Comp, i: nat, j: nat)
    ensures Lcs(a, b, eq, i, j) <= 1 + Lcs(a, b, eq, i + 1, j)
    ensures Lcs(a, b, eq, i, j) <= 1 + Lcs(a, b, eq, i, j + 1)
  {
    var m := LcsIsAttained(a, b, eq, i, j);
    if |m| > 0 {
      var rest := m[1..];
      assert forall q :: 0 < q < |m| ==> m[0].0 < m[q].0 && m[0].1 < m[q].1;
      LcsBoundsMatchings(a, b, eq, i + 1, j, rest);
      LcsBoundsMatchings(a, b, eq, i, j + 1, rest);
    }
  }

  // ---------------------------------------------------------------- count_array_diff

  /** Lines that compare equal from i and j on, one with one. */
  function Run(a: seq<Line>, b: seq<Line>, eq: Comp, i: nat, j: nat): nat
    decreases |a| - i
  {
    if i < |a| && j < |b| && eq(a[i], b[j]) then 1 + Run(a, b, eq, i + 1, j + 1) else 0
  }

  /** count_array_diff as a function.  The budget steps is real: halving makes it fractional. */
  function Count(a: seq<Line>, b: seq<Line>, eq: Comp, i: nat, j: nat, steps: real): nat
    decreases steps
  {
    var n := Run(a, b, eq, i, j);
    var left := steps - n as real - 1.0;
    if left > 0.0 then
      n + Max(SkipLeft(a, b, eq, i + n + 1, j + n, left / 2.0), SkipRight(a, b, eq, i + n, j + n + 1, left))
    else n
  }

  /** The best count after skipping lines of a up to position o or further, while the budget lasts. */
  function SkipLeft(a: seq<Line>, b: seq<Line>, eq: Comp, o: nat, j: nat, st: real): nat
    decreases st
  {
    if o < |a| && st > 0.0 then
      Max(Count(a, b, eq, o, j, st - 1.0), SkipLeft(a, b, eq, o + 1, j, st - 1.0))
    else 0
  }

  function SkipRight(a: seq<Line>, b: seq<Line>, eq: Comp, i: nat, o: nat, st: real): nat
    decreases st
  {
    if o < |b| && st > 0.0 then
      Max(Count(a, b, eq, i, o, st - 1.0), SkipRight(a, b, eq, i, o + 1, st - 1.0))
    else 0
  }

  method CountArrayDiff(a: seq<Line>, b: seq<Line>, eq: Comp, idx1: nat, idx2: nat, budget: real)
    returns (equal: nat)
    ensures equal == Count(a, b, eq, idx1, idx2, budget)
    decreases budget
  {
    var i, j, steps := idx1, idx2, budget;
    equal := 0;
    while i < |a| && j < |b| && eq(a[i], b[j])
      invariant i == idx1 + equal && j == idx2 + equal && steps == budget - equal as real
      invariant equal + Run(a, b, eq, i, j) == Run(a, b, eq, idx1, idx2)
      decreases |a| - i
    {
      i, j, equal, steps := i + 1, j + 1, equal + 1, steps - 1.0;
    }
    steps := steps - 1.0;
    if steps > 0.0 {
      var eq1 := TryLeft(a, b, eq, i + 1, j, steps / 2.0);
      var eq2 := TryRight(a, b, eq, i, j + 1, steps);
      if eq1 > eq2 {
        equal := equal + eq1;
      } else if eq2 > 0 {
        equal := equal + eq2;
      }
    }
  }

  method TryLeft(a: seq<Line>, b: seq<Line>, eq: Comp, ofs1: nat, j: nat, budget: real) returns (eq1: nat)
    ensures eq1 == SkipLeft(a, b, eq, ofs1, j, budget)
    decreases budget, 0
  {
    var o, st := ofs1, budget;
    eq1 := 0;
    while o < |a| && st > 0.0
      invariant st <= budget
      invariant Max(eq1, SkipLeft(a, b, eq, o, j, st)) == SkipLeft(a, b, eq, ofs1, j, budget)
      decreases |a| - o
    {
      st := st - 1.0;
      var c := CountArrayDiff(a, b, eq, o, j, st);
      if c > eq1 { eq1 := c; }
      o := o + 1;
    }
  }

  method TryRight(a: seq<Line>, b: seq<Line>, eq: Comp, i: nat, ofs2: nat, budget: real) returns (eq2: nat)
    ensures eq2 == SkipRight(a, b, eq, i, ofs2, budget)
    decreases budget, 0
  {
    var o, st := ofs2, budget;
    eq2 := 0;
    while o < |b| && st > 0.0
      invariant st <= budget
      invariant Max(eq2, SkipRight(a, b, eq, i, o, st)) == SkipRight(a, b, eq, i, ofs2, budget)
      decreases |b| - o
    {
      st := st - 1.0;
      var c := CountArrayDiff(a, b, eq, i, o, st);
      if c > eq2 { eq2 := c; }
      o := o + 1;
    }
  }

  lemma MatchingAfter(a: seq<Line>, b: seq<Line>, eq: Comp, i: nat, j: nat, m: Matching)
    requires i < |a| && j < |b| && eq(a[i], b[j]) && IsMatching(a, b, eq, i + 1, j + 1, m)
    ensures IsMatching(a, b, eq, i, j, [(i, j)] + m)
  {
    var all := [(i, j)] + m;
    assert forall q :: 0 < q < |all| ==> all[q] == m[q - 1];
  }

  lemma MatchingWider(a: seq<Line>, b: seq<Line>, eq: Comp, i: nat, j: nat, m: Matching)
    requires IsMatching(a, b, eq, i + 1, j, m) || IsMatching(a, b, eq, i, j + 1, m) || IsMatching(a, b, eq, i + 1, j + 1, m)
    ensures IsMatching(a, b, eq, i, j, m)
  {
  }

  /** The lines of a run, paired one with one, in front of a matching of what follows the run. */
  lemma {:induction false} RunJoins(a: seq<Line>, b: seq<Line>, eq: Comp, i: nat, j: nat, rest: Matching)
    returns (m: Matching)
    requires var n := Run(a, b, eq, i, j); IsMatching(a, b, eq, i + n, j + n, rest)
    ensures IsMatching(a, b, eq, i, j, m) && |m| == Run(a, b, eq, i, j) + |rest|
    decreases |a| - i
  {
    if i < |a| && j < |b| && eq(a[i], b[j]) {
      var m1 := RunJoins(a, b, eq, i + 1, j + 1, rest);
      MatchingAfter(a, b, eq, i, j, m1);
      m := [(i, j)] + m1;
    } else {
      m := rest;
    }
  }

  /** For every budget, fractional ones included, the count is the length of a common subsequence. */
  lemma {:induction false} CountIsAttained(a: seq<Line>, b: seq<Line>, eq: Comp, i: nat, j: nat, steps: real)
    returns (m: Matching)
    ensures IsMatching(a, b, eq, i, j, m) && |m| == Count(a, b, eq, i, j, steps)
    decreases steps, 1
  {
    var n := Run(a, b, eq, i, j);
    var left := steps - n as real - 1.0;
    var rest: Matching := [];
    if left > 0.0 {
      rest := BehindRunIsAttained(a, b, eq, i + n, j + n, left);
    }
    CountUnfolds(a, b, eq, i, j, steps);
    m := RunJoins(a, b, eq, i, j, rest);
  }

  // The count behind a run of equal lines.
  function BehindRun(a: seq<Line>, b: seq<Line>, eq: Comp, i: nat, j: nat, left: real): nat {
    if left > 0.0 then Max(SkipLeft(a, b, eq, i + 1, j, left / 2.0), SkipRight(a, b, eq, i, j + 1, left)) else 0
  }

  lemma CountUnfolds(a: seq<Line>, b: seq<Line>, eq: Comp, i: nat, j: nat, steps: real)
    ensures var n := Run(a, b, eq, i, j);
      Count(a, b, eq, i, j, steps) == n + BehindRun(a, b, eq, i + n, j + n, steps - n as real - 1.0)
  {
  }

  lemma {:induction false} BehindRunIsAttained(a: seq<Line>, b: seq<Line>, eq: Comp, i: nat, j: nat, left: real)
    returns (m: Matching)
    requires left > 0.0
    ensures IsMatching(a, b, eq, i, j, m) && |m| == BehindRun(a, b, eq, i, j, left)
    decreases left + 1.0, 0
  {
    var m1 := SkipLeftIsAttained(a, b, eq, i + 1, j, left / 2.0);
    var m2 := SkipRightIsAttained(a, b, eq, i, j + 1, left);
    MatchingFrom(a, b, eq, i, j, i + 1, j, m1);
    MatchingFrom(a, b, eq, i, j, i, j + 1, m2);
    m := Longer(m1, m2);
  }

  function Longer(m1: Matching, m2: Matching): Matching { if |m1| > |m2| then m1 else m2 }

  lemma MatchingFrom(a: seq<Line>, b: seq<Line>, eq: Comp, i: nat, j: nat, i2: nat, j2: nat, m: Matching)
    requires IsMatching(a, b, eq, i2, j2, m) && i <= i2 && j <= j2
    ensures IsMatching(a, b, eq, i, j, m)
  {
  }

  lemma {:induction false} SkipLeftIsAttained(a: seq<Line>, b: seq<Line>, eq: Comp, o: nat, j: nat, st: real)
    returns (m: Matching)
    ensures IsMatching(a, b, eq, o, j, m) && |m| == SkipLeft(a, b, eq, o, j, st)
    decreases st, 0
  {
    if o < |a| && st > 0.0 {
      var m1 := CountIsAttained(a, b, eq, o, j, st - 1.0);
      var m2 := SkipLeftIsAttained(a, b, eq, o + 1, j, st - 1.0);
      m := if |m1| > |m2| then m1 else m2;
    } else {
      m := [];
    }
  }

  lemma {:induction false} SkipRightIsAttained(a: seq<Line>, b: seq<Line>, eq: Comp, i: nat, o: nat, st: real)
    returns (m: Matching)
    ensures IsMatching(a, b, eq, i, o, m) && |m| == SkipRight(a, b, eq, i, o, st)
    decreases st, 0
  {
    if o < |b| && st > 0.0 {
      var m1 := CountIsAttained(a, b, eq, i, o, st - 1.0);
      var m2 := SkipRightIsAttained(a, b, eq, i, o + 1, st - 1.0);
      m := if |m1| > |m2| then m1 else m2;
    } else {
      m := [];
    }
  }

  lemma {:induction false} CountNeverExceedsLcs(a: seq<Line>, b: seq<Line>, eq: Comp, i: nat, j: nat, steps: real)
    ensures Count(a, b, eq, i, j, steps) <= Lcs(a, b, eq, i, j)
  {
    var m := CountIsAttained(a, b, eq, i, j, steps);
    LcsBoundsMatchings(a, b, eq, i, j, m);
  }

  /** A budget that lets the lookahead reach every way of skipping k remaining lines. */
  function Ample(k: nat): real {
    if k == 0 then 0.0 else 2.0 * (Ample(k - 1) + 1.0) + k as real + 2.0
  }

  lemma {:induction false} AmpleGrows(k: nat, l: nat)
    requires k <= l
    ensures 0.0 <= Ample(k) <= Ample(l)
    decreases l
  {
    if k < l {
      AmpleGrows(k, l - 1);
    } else if l > 0 {
      AmpleGrows(l - 1, l - 1);
    }
  }

  lemma {:induction false} RunStops(a: seq<Line>, b: seq<Line>, eq: Comp, i: nat, j: nat)
    requires i <= |a| && j <= |b|
    ensures var n := Run(a, b, eq, i, j);
      && i + n <= |a| && j + n <= |b|
      && (i + n < |a| && j + n < |b| ==> !eq(a[i + n], b[j + n]))
    decreases |a| - i
  {
    if i < |a| && j < |b| && eq(a[i], b[j]) {
      RunStops(a, b, eq, i + 1, j + 1);
    }
  }

  /** Taking equal lines at once loses nothing, whatever relation compares them. */
  lemma {:induction false} RunIsBest(a: seq<Line>, b: seq<Line>, eq: Comp, i: nat, j: nat)
    ensures var n := Run(a, b, eq, i, j); Lcs(a, b, eq, i, j) == n + Lcs(a, b, eq, i + n, j + n)
    decreases |a| - i
  {
    if i < |a| && j < |b| && eq(a[i], b[j]) {
      RunIsBest(a, b, eq, i + 1, j + 1);
      LcsEqual(a, b, eq, i, j);
    }
  }

  lemma LcsEqual(a: seq<Line>, b: seq<Line>, eq: Comp, i: nat, j: nat)
    requires i < |a| && j < |b| && eq(a[i], b[j])
    ensures Lcs(a, b, eq, i, j) == 1 + Lcs(a, b, eq, i + 1, j + 1)
  {
    LcsStep(a, b, eq, i, j);
  }

  lemma LcsUnequal(a: seq<Line>, b: seq<Line>, eq: Comp, i: nat, j: nat)
    requires i < |a| && j < |b| && !eq(a[i], b[j])
    ensures Lcs(a, b, eq, i, j) == Max(Lcs(a, b, eq, i + 1, j), Lcs(a, b, eq, i, j + 1))
  {
  }

  /** With an ample budget the heuristic is exact: it returns the length of a longest common subsequence. */
  lemma {:induction false} AmpleBudgetIsExact(a: seq<Line>, b: seq<Line>, eq: Comp, i: nat, j: nat, steps: real)
    requires i <= |a| && j <= |b| && steps >= Ample(|a| - i + |b| - j)
    ensures Count(a, b, eq, i, j, steps) == Lcs(a, b, eq, i, j)
    decreases |a| - i + |b| - j, 1
  {
    CountNeverExceedsLcs(a, b, eq, i, j, steps);
    var n := Run(a, b, eq, i, j);
    RunStops(a, b, eq, i, j);
    RunIsBest(a, b, eq, i, j);
    if i + n < |a| && j + n < |b| {
      AmpleLeaves(|a| - i + |b| - j, |a| - (i + n) + |b| - (j + n), n, steps);
      ExactBeyond(a, b, eq, i + n, j + n, steps - n as real - 1.0);
      CountReaches(a, b, eq, i, j, steps);
    }
  }

  lemma {:induction false} ExactBeyond(a: seq<Line>, b: seq<Line>, eq: Comp, i: nat, j: nat, left: real)
    requires i < |a| && j < |b| && !eq(a[i], b[j]) && left >= 2.0
    requires left / 2.0 - 1.0 >= Ample(|a| - i + |b| - j - 1)
    ensures var c1, c2 := Count(a, b, eq, i + 1, j, left / 2.0 - 1.0), Count(a, b, eq, i, j + 1, left - 1.0);
      && c1 <= Lcs(a, b, eq, i, j) && c2 <= Lcs(a, b, eq, i, j)
      && (c1 == Lcs(a, b, eq, i, j) || c2 == Lcs(a, b, eq, i, j))
      && (i + 1 == |a| ==> c1 == 0) && (j + 1 == |b| ==> c2 == 0)
    decreases |a| - i + |b| - j, 0
  {
    AmpleBudgetIsExact(a, b, eq, i + 1, j, left / 2.0 - 1.0);
    AmpleBudgetIsExact(a, b, eq, i, j + 1, left - 1.0);
    LcsUnequal(a, b, eq, i, j);
  }

  lemma AmpleLeaves(k: nat, rest: nat, n: nat, steps: real)
    requires steps >= Ample(k) && 0 < rest && rest + 2 * n == k
    ensures var left := steps - n as real - 1.0; left >= 2.0 && left / 2.0 - 1.0 >= Ample(rest - 1)
  {
    AmpleGrows(rest - 1, k - 1);
    assert n as real <= k as real;
  }

  /** The lookahead tries at least the skips of a single line. */
  lemma CountReaches(a: seq<Line>, b: seq<Line>, eq: Comp, i: nat, j: nat, steps: real)
    requires steps - Run(a, b, eq, i, j) as real - 1.0 > 0.0
    ensures var n := Run(a, b, eq, i, j); var left := steps - n as real - 1.0;
      && (i + n + 1 < |a| ==>
            Count(a, b, eq, i, j, steps) >= n + Count(a, b, eq, i + n + 1, j + n, left / 2.0 - 1.0))
      && (j + n + 1 < |b| ==>
            Count(a, b, eq, i, j, steps) >= n + Count(a, b, eq, i + n, j + n + 1, left - 1.0))
      && Count(a, b, eq, i, j, steps) >= n
  {
    var n := Run(a, b, eq, i, j);
    var left := steps - n as real - 1.0;
    SkipLeftReaches(a, b, eq, i + n + 1, j + n, left / 2.0);
    SkipRightReaches(a, b, eq, i + n, j + n + 1, left);
  }

  lemma SkipLeftReaches(a: seq<Line>, b: seq<Line>, eq: Comp, o: nat, j: nat, st: real)
    ensures o < |a| && st > 0.0 ==> SkipLeft(a, b, eq, o, j, st) >= Count(a, b, eq, o, j, st - 1.0)
  {
  }

  lemma SkipRightReaches(a: seq<Line>, b: seq<Line>, eq: Comp, i: nat, o: nat, st: real)
    ensures o < |b| && st > 0.0 ==> SkipRight(a, b, eq, i, o, st) >= Count(a, b, eq, i, o, st - 1.0)
  {
  }

  // ---------------------------------------------------------------- generate_array_diff

  // One line of the script: "%03d- " or "%03d+ " with a line number, then the text of the line.
  datatype Record = Del(no: nat, text: Line) | Add(no: nat, text: Line)

  // What the two counts at a pair of positions are, from any source whatever.
  type Oracle = (nat, nat) -> (nat, nat)

  // The arrays old1 and old2, in key order, and the positions at which the main loop stopped.
  datatype Sides = Sides(dels: seq<Record>, adds: seq<Record>, i: nat, j: nat)

  datatype Side = Left | Right | Both

  function Choose(c: (nat, nat)): Side {
    if c.0 > c.1 then Left else if c.1 > 0 then Right else Both
  }

  // In regex mode the wanted text may have fewer lines than the patterns; such a line reads as empty.
  function TextAt(w: seq<Line>, i: nat): Line { if i < |w| then w[i] else "" }

  function Before(d: seq<Record>, e: seq<Record>, s: Sides): Sides {
    s.(dels := d + s.dels, adds := e + s.adds)
  }

  lemma BeforeTwice(d1: seq<Record>, e1: seq<Record>, d2: seq<Record>, e2: seq<Record>, s: Sides)
    ensures Before(d1, e1, Before(d2, e2, s)) == Before(d1 + d2, e1 + e2, s)
  {
    assert d1 + (d2 + s.dels) == d1 + d2 + s.dels;
    assert e1 + (e2 + s.adds) == e1 + e2 + s.adds;
  }

  /** The main loop from a pair of positions on. */
  function Walk(a: seq<Line>, b: seq<Line>, eq: Comp, w: seq<Line>, counts: Oracle, i: nat, j: nat): Sides
    decreases |a| - i + |b| - j
  {
    if i < |a| && j < |b| then
      if eq(a[i], b[j]) then Walk(a, b, eq, w, counts, i + 1, j + 1)
      else
        var del, add := Del(i + 1, TextAt(w, i)), Add(j + 1, b[j]);
        match Choose(counts(i, j))
        case Left => Before([del], [], Walk(a, b, eq, w, counts, i + 1, j))
        case Right => Before([], [add], Walk(a, b, eq, w, counts, i, j + 1))
        case Both => Before([del], [add], Walk(a, b, eq, w, counts, i + 1, j + 1))
    else Sides([], [], i, j)
  }

  /** The second loop: both sides into one script, l1 and l2 the line numbers written last. */
  function Merge(d: seq<Record>, e: seq<Record>, l1: int, l2: int): seq<Record>
    decreases |d| + |e|
  {
    if d == [] && e == [] then []
    else if e == [] || (d != [] && d[0].no == l1 + 1) then [d[0]] + Merge(d[1..], e, d[0].no, l2)
    else if d == [] || e[0].no == l2 + 1 then [e[0]] + Merge(d, e[1..], l1, e[0].no)
    else if d[0].no < e[0].no then [d[0]] + Merge(d[1..], e, d[0].no, l2)
    else [e[0]] + Merge(d, e[1..], l1, e[0].no)
  }

  function TailDels(w: seq<Line>, i: nat, n: nat): seq<Record>
    decreases n - i
  {
    if i < n then [Del(i + 1, TextAt(w, i))] + TailDels(w, i + 1, n) else []
  }

  function TailAdds(b: seq<Line>, j: nat): seq<Record>
    decreases |b| - j
  {
    if j < |b| then [Add(j + 1, b[j])] + TailAdds(b, j + 1) else []
  }

  /** generate_array_diff, for any counts. */
  function Script(a: seq<Line>, b: seq<Line>, eq: Comp, w: seq<Line>, counts: Oracle): seq<Record> {
    var s := Walk(a, b, eq, w, counts, 0, 0);
    Merge(s.dels, s.adds, -2, -2) + TailDels(w, s.i, |a|) + TailAdds(b, s.j)
  }

  /** The counts that generate_array_diff asks for, each with a budget of ten. */
  function Heuristic(a: seq<Line>, b: seq<Line>, eq: Comp): Oracle {
    (i: nat, j: nat) => (Count(a, b, eq, i + 1, j, 10.0), Count(a, b, eq, i, j + 1, 10.0))
  }

  method GenerateArrayDiff(a: seq<Line>, b: seq<Line>, eq: Comp, w: seq<Line>) returns (diff: seq<Record>)
    ensures diff == Script(a, b, eq, w, Heuristic(a, b, eq))
  {
    var old1, old2, idx1, idx2 := WalkBoth(a, b, eq, w);
    diff := MergeSides(old1, old2);
    diff := AppendTails(diff, w, idx1, |a|, b, idx2);
  }

  // What the main loop keeps: the records collected so far, in front of those still to come, are all.
  ghost predicate Reached(all: Sides, a: seq<Line>, b: seq<Line>, eq: Comp, w: seq<Line>, counts: Oracle,
                          old1: seq<Record>, old2: seq<Record>, i: nat, j: nat) {
    all == Before(old1, old2, Walk(a, b, eq, w, counts, i, j))
  }

  lemma ReachedUnequal(all: Sides, a: seq<Line>, b: seq<Line>, eq: Comp, w: seq<Line>, counts: Oracle,
                       old1: seq<Record>, old2: seq<Record>, i: nat, j: nat)
    requires i < |a| && j < |b| && !eq(a[i], b[j]) && Reached(all, a, b, eq, w, counts, old1, old2, i, j)
    ensures var d, e := [Del(i + 1, TextAt(w, i))], [Add(j + 1, b[j])];
      match Choose(counts(i, j))
      case Left => Reached(all, a, b, eq, w, counts, old1 + d, old2, i + 1, j)
      case Right => Reached(all, a, b, eq, w, counts, old1, old2 + e, i, j + 1)
      case Both => Reached(all, a, b, eq, w, counts, old1 + d, old2 + e, i + 1, j + 1)
  {
    var d, e := [Del(i + 1, TextAt(w, i))], [Add(j + 1, b[j])];
    match Choose(counts(i, j))
    case Left =>
      BeforeTwice(old1, old2, d, [], Walk(a, b, eq, w, counts, i + 1, j));
      assert old2 + [] == old2;
    case Right =>
      BeforeTwice(old1, old2, [], e, Walk(a, b, eq, w, counts, i, j + 1));
      assert old1 + [] == old1;
    case Both =>
      BeforeTwice(old1, old2, d, e, Walk(a, b, eq, w, counts, i + 1, j + 1));
  }

  method WalkBoth(a: seq<Line>, b: seq<Line>, eq: Comp, w: seq<Line>)
    returns (old1: seq<Record>, old2: seq<Record>, idx1: nat, idx2: nat)
    ensures Walk(a, b, eq, w, Heuristic(a, b, eq), 0, 0) == Sides(old1, old2, idx1, idx2)
  {
    idx1, idx2 := 0, 0;
    old1, old2 := [], [];
    ghost var counts := Heuristic(a, b, eq);
    ghost var all := Walk(a, b, eq, w, counts, 0, 0);
    while idx1 < |a| && idx2 < |b|
      invariant Reached(all, a, b, eq, w, counts, old1, old2, idx1, idx2)
      decreases |a| - idx1 + |b| - idx2
    {
      if eq(a[idx1], b[idx2]) {
        idx1, idx2 := idx1 + 1, idx2 + 1;
      } else {
        old1, old2, idx1, idx2 := WalkUnequal(a, b, eq, w, old1, old2, idx1, idx2, counts, all);
      }
    }
  }

  method WalkUnequal(a: seq<Line>, b: seq<Line>, eq: Comp, w: seq<Line>, had1: seq<Record>, had2: seq<Record>,
                     i: nat, j: nat, ghost counts: Oracle, ghost all: Sides)
    returns (old1: seq<Record>, old2: seq<Record>, idx1: nat, idx2: nat)
    requires i < |a| && j < |b| && !eq(a[i], b[j]) && counts == Heuristic(a, b, eq)
    requires Reached(all, a, b, eq, w, counts, had1, had2, i, j)
    ensures i <= idx1 <= |a| && j <= idx2 <= |b| && i + j < idx1 + idx2
    ensures Reached(all, a, b, eq, w, counts, old1, old2, idx1, idx2)
  {
    old1, old2, idx1, idx2 := had1, had2, i, j;
    var c1 := CountArrayDiff(a, b, eq, idx1 + 1, idx2, 10.0);
    var c2 := CountArrayDiff(a, b, eq, idx1, idx2 + 1, 10.0);
    assert counts(i, j) == (c1, c2);
    ReachedUnequal(all, a, b, eq, w, counts, old1, old2, idx1, idx2);
    if c1 > c2 {
      old1 := old1 + [Del(idx1 + 1, TextAt(w, idx1))];
      idx1 := idx1 + 1;
    } else if c2 > 0 {
      old2 := old2 + [Add(idx2 + 1, b[idx2])];
      idx2 := idx2 + 1;
    } else {
      old1 := old1 + [Del(idx1 + 1, TextAt(w, idx1))];
      old2 := old2 + [Add(idx2 + 1, b[idx2])];
      idx1, idx2 := idx1 + 1, idx2 + 1;
    }
  }

  // The merge writes a "-" record next.
  predicate TakesDel(d: seq<Record>, e: seq<Record>, l1: int, l2: int)
    requires d != [] || e != []
    ensures TakesDel(d, e, l1, l2) ==> d != [] && Merge(d, e, l1, l2) == [d[0]] + Merge(d[1..], e, d[0].no, l2)
    ensures !TakesDel(d, e, l1, l2) ==> e != [] && Merge(d, e, l1, l2) == [e[0]] + Merge(d, e[1..], l1, e[0].no)
    ensures d != [] && d[0].no == l1 + 1 ==> TakesDel(d, e, l1, l2)
    ensures !TakesDel(d, e, l1, l2) ==> d == [] || d[0].no != l1 + 1
    ensures e != [] && e[0].no == l2 + 1 && (d == [] || d[0].no != l1 + 1) ==> !TakesDel(d, e, l1, l2)
  {
    e == [] || (d != [] && (d[0].no == l1 + 1 || (e[0].no != l2 + 1 && d[0].no < e[0].no)))
  }

  lemma JoinAssociates(x: seq<Record>, r: Record, y: seq<Record>)
    ensures x + ([r] + y) == x + [r] + y
  {
  }

  lemma MergeOn(diff: seq<Record>, d: seq<Record>, e: seq<Record>, l1: int, l2: int)
    requires d != [] || e != []
    ensures TakesDel(d, e, l1, l2) ==>
              diff + Merge(d, e, l1, l2) == diff + [d[0]] + Merge(d[1..], e, d[0].no, l2)
    ensures !TakesDel(d, e, l1, l2) ==>
              diff + Merge(d, e, l1, l2) == diff + [e[0]] + Merge(d, e[1..], l1, e[0].no)
  {
    if TakesDel(d, e, l1, l2) {
      JoinAssociates(diff, d[0], Merge(d[1..], e, d[0].no, l2));
    } else {
      JoinAssociates(diff, e[0], Merge(d, e[1..], l1, e[0].no));
    }
  }

  method MergeSides(old1: seq<Record>, old2: seq<Record>) returns (diff: seq<Record>)
    ensures diff == Merge(old1, old2, -2, -2)
  {
    diff := [];
    var k1, k2 := 0, 0;
    var l1: int, l2: int := -2, -2;
    ghost var d, e := old1, old2;
    while k1 < |old1| || k2 < |old2|
      invariant k1 <= |old1| && k2 <= |old2| && d == old1[k1..] && e == old2[k2..]
      invariant diff + Merge(d, e, l1, l2) == Merge(old1, old2, -2, -2)
      decreases |old1| - k1 + |old2| - k2
    {
      MergeOn(diff, d, e, l1, l2);
      if k2 == |old2| || (k1 < |old1| && old1[k1].no == l1 + 1) {
        d, l1, diff, k1 := d[1..], old1[k1].no, diff + [old1[k1]], k1 + 1;
      } else if k1 == |old1| || old2[k2].no == l2 + 1 {
        e, l2, diff, k2 := e[1..], old2[k2].no, diff + [old2[k2]], k2 + 1;
      } else if old1[k1].no < old2[k2].no {
        d, l1, diff, k1 := d[1..], old1[k1].no, diff + [old1[k1]], k1 + 1;
      } else {
        e, l2, diff, k2 := e[1..], old2[k2].no, diff + [old2[k2]], k2 + 1;
      }
    }
  }

  method AppendTails(start: seq<Record>, w: seq<Line>, idx1: nat, cnt1: nat, b: seq<Line>, idx2: nat)
    returns (diff: seq<Record>)
    ensures diff == start + TailDels(w, idx1, cnt1) + TailAdds(b, idx2)
  {
    var i, j := idx1, idx2;
    diff := start;
    while i < cnt1
      invariant diff + TailDels(w, i, cnt1) == start + TailDels(w, idx1, cnt1)
    {
      diff, i := diff + [Del(i + 1, TextAt(w, i))], i + 1;
    }
    ghost var mid := diff;
    assert mid == start + TailDels(w, idx1, cnt1);
    while j < |b|
      invariant diff + TailAdds(b, j) == mid + TailAdds(b, idx2)
    {
      diff, j := diff + [Add(j + 1, b[j])], j + 1;
    }
  }

  // ---------------------------------------------------------------- what the script means

  function Dels(diff: seq<Record>): seq<Record> {
    if diff == [] then []
    else if diff[0].Del? then [diff[0]] + Dels(diff[1..])
    else Dels(diff[1..])
  }

  function Adds(diff: seq<Record>): seq<Record> {
    if diff == [] then []
    else if diff[0].Add? then [diff[0]] + Adds(diff[1..])
    else Adds(diff[1..])
  }

  /**
  An independent reader of scripts: line numbers of "-" records are lines of src to leave out,
  line numbers of "+" records are lines of the result to put in.
  */
  function Patch(src: seq<Line>, dels: seq<Record>, adds: seq<Record>, i: nat, j: nat): seq<Line>
    decreases |adds|, |src| - i
  {
    if adds != [] && adds[0].no == j + 1 then [adds[0].text] + Patch(src, dels, adds[1..], i, j + 1)
    else if i >= |src| then []
    else if dels != [] && dels[0].no == i + 1 then Patch(src, dels[1..], adds, i + 1, j)
    else [src[i]] + Patch(src, dels, adds, i + 1, j + 1)
  }

  /** Lines equal to those of b, or taken from the other side as comparing equal to them. */
  ghost predicate Agrees(x: seq<Line>, b: seq<Line>, eq: Comp) {
    |x| == |b| && forall k :: 0 <= k < |x| ==> x[k] == b[k] || eq(x[k], b[k])
  }

  // Line numbers lo+1 .. hi in increasing order, and texts taken from the lines they number.
  ghost predicate Numbered(rs: seq<Record>, del: bool, lo: nat, hi: nat, w: seq<Line>) {
    rs == [] || (
      && lo < rs[0].no <= hi && rs[0].text == TextAt(w, rs[0].no - 1) && rs[0].Del? == del
      && Numbered(rs[1..], del, rs[0].no, hi, w))
  }

  lemma {:induction false} NumberedMeans(rs: seq<Record>, del: bool, lo: nat, hi: nat, w: seq<Line>)
    requires Numbered(rs, del, lo, hi, w)
    ensures forall k :: 0 <= k < |rs| ==>
              lo < rs[k].no <= hi && rs[k].text == TextAt(w, rs[k].no - 1) && rs[k].Del? == del
    ensures forall k, l :: 0 <= k < l < |rs| ==> rs[k].no < rs[l].no
  {
    if rs != [] {
      NumberedMeans(rs[1..], del, rs[0].no, hi, w);
      assert forall k :: 0 < k < |rs| ==> rs[k] == rs[1..][k - 1];
    }
  }

  lemma NumberedAfter(d: seq<Record>, rs: seq<Record>, del: bool, lo: nat, hi: nat, w: seq<Line>)
    requires |d| <= 1 && Numbered(rs, del, lo + 1, hi, w)
    requires d != [] ==> d[0].no == lo + 1 <= hi && d[0].text == TextAt(w, lo) && d[0].Del? == del
    ensures Numbered(d + rs, del, lo, hi, w)
  {
    if d == [] {
      assert d + rs == rs;
      assert rs != [] ==> lo < rs[0].no;
    } else {
      assert (d + rs)[1..] == rs;
    }
  }

  function AllDels(a: seq<Line>, w: seq<Line>, s: Sides): seq<Record> { s.dels + TailDels(w, s.i, |a|) }

  function AllAdds(b: seq<Line>, s: Sides): seq<Record> { s.adds + TailAdds(b, s.j) }

  lemma {:induction false} TailDelsNumbered(w: seq<Line>, i: nat, n: nat)
    requires i <= n
    ensures Numbered(TailDels(w, i, n), true, i, n, w) && |TailDels(w, i, n)| == n - i
    decreases n - i
  {
    if i < n {
      TailDelsNumbered(w, i + 1, n);
      NumberedAfter([Del(i + 1, TextAt(w, i))], TailDels(w, i + 1, n), true, i, n, w);
    }
  }

  lemma {:induction false} TailAddsNumbered(b: seq<Line>, j: nat)
    requires j <= |b|
    ensures Numbered(TailAdds(b, j), false, j, |b|, b) && |TailAdds(b, j)| == |b| - j
    decreases |b| - j
  {
    if j < |b| {
      TailAddsNumbered(b, j + 1);
      NumberedAfter([Add(j + 1, b[j])], TailAdds(b, j + 1), false, j, |b|, b);
    }
  }

  lemma AllBefore(a: seq<Line>, b: seq<Line>, w: seq<Line>, d: seq<Record>, e: seq<Record>, s: Sides)
    ensures AllDels(a, w, Before(d, e, s)) == d + AllDels(a, w, s)
    ensures AllAdds(b, Before(d, e, s)) == e + AllAdds(b, s)
  {
  }

  lemma AllAtEnd(a: seq<Line>, b: seq<Line>, w: seq<Line>, i: nat, j: nat)
    ensures AllDels(a, w, Sides([], [], i, j)) == TailDels(w, i, |a|)
    ensures AllAdds(b, Sides([], [], i, j)) == TailAdds(b, j)
  {
  }

  ghost predicate SidesNumbered(a: seq<Line>, b: seq<Line>, w: seq<Line>, s: Sides, i: nat, j: nat) {
    Numbered(AllDels(a, w, s), true, i, |a|, w) && Numbered(AllAdds(b, s), false, j, |b|, b)
  }

  lemma SidesNumberedBefore(a: seq<Line>, b: seq<Line>, w: seq<Line>, s: Sides, i: nat, j: nat,
                            d: seq<Record>, e: seq<Record>)
    requires i < |a| && j < |b| && SidesNumbered(a, b, w, s, i + |d|, j + |e|)
    requires d == [] || d == [Del(i + 1, TextAt(w, i))]
    requires e == [] || e == [Add(j + 1, b[j])]
    ensures SidesNumbered(a, b, w, Before(d, e, s), i, j)
  {
    AllBefore(a, b, w, d, e, s);
    if d == [] {
      assert d + AllDels(a, w, s) == AllDels(a, w, s);
    } else {
      NumberedAfter(d, AllDels(a, w, s), true, i, |a|, w);
    }
    if e == [] {
      assert e + AllAdds(b, s) == AllAdds(b, s);
    } else {
      NumberedAfter(e, AllAdds(b, s), false, j, |b|, b);
    }
  }

  lemma SidesNumberedWider(a: seq<Line>, b: seq<Line>, w: seq<Line>, s: Sides, i: nat, j: nat)
    requires SidesNumbered(a, b, w, s, i + 1, j + 1)
    ensures SidesNumbered(a, b, w, s, i, j)
  {
  }

  /** Every line number at most once on its side, in increasing order, with the text it stands for. */
  lemma {:induction false} AllNumbered(a: seq<Line>, b: seq<Line>, eq: Comp, w: seq<Line>, counts: Oracle, i: nat, j: nat)
    requires i <= |a| && j <= |b|
    ensures SidesNumbered(a, b, w, Walk(a, b, eq, w, counts, i, j), i, j)
    decreases |a| - i + |b| - j
  {
    if i < |a| && j < |b| {
      if eq(a[i], b[j]) {
        AllNumbered(a, b, eq, w, counts, i + 1, j + 1);
        SidesNumberedWider(a, b, w, Walk(a, b, eq, w, counts, i + 1, j + 1), i, j);
      } else {
        match Choose(counts(i, j))
        case Left =>
          AllNumbered(a, b, eq, w, counts, i + 1, j);
          SidesNumberedBefore(a, b, w, Walk(a, b, eq, w, counts, i + 1, j), i, j, [Del(i + 1, TextAt(w, i))], []);
        case Right =>
          AllNumbered(a, b, eq, w, counts, i, j + 1);
          SidesNumberedBefore(a, b, w, Walk(a, b, eq, w, counts, i, j + 1), i, j, [], [Add(j + 1, b[j])]);
        case Both =>
          AllNumbered(a, b, eq, w, counts, i + 1, j + 1);
          SidesNumberedBefore(a, b, w, Walk(a, b, eq, w, counts, i + 1, j + 1), i, j,
                              [Del(i + 1, TextAt(w, i))], [Add(j + 1, b[j])]);
      }
    } else {
      AllAtEnd(a, b, w, i, j);
      TailDelsNumbered(w, i, |a|);
      TailAddsNumbered(b, j);
    }
  }

  lemma HeadsLieAhead(a: seq<Line>, b: seq<Line>, eq: Comp, w: seq<Line>, counts: Oracle, i: nat, j: nat)
    requires i <= |a| && j <= |b|
    ensures var s := Walk(a, b, eq, w, counts, i, j);
      && (AllDels(a, w, s) != [] ==> AllDels(a, w, s)[0].no > i)
      && (AllAdds(b, s) != [] ==> AllAdds(b, s)[0].no > j)
  {
    AllNumbered(a, b, eq, w, counts, i, j);
  }

  /** A deletion at the current line may be read before the insertions that stand in front of it. */
  lemma {:induction false} PatchDel(src: seq<Line>, dels: seq<Record>, adds: seq<Record>, i: nat, j: nat)
    requires i < |src| && dels != [] && dels[0].no == i + 1
    ensures Patch(src, dels, adds, i, j) == Patch(src, dels[1..], adds, i + 1, j)
    decreases |adds|
  {
    if adds != [] && adds[0].no == j + 1 {
      PatchDel(src, dels, adds[1..], i, j + 1);
    }
  }

  lemma AgreesAfter(x: Line, xs: seq<Line>, b: seq<Line>, eq: Comp, j: nat)
    requires j < |b| && (x == b[j] || eq(x, b[j])) && Agrees(xs, b[j + 1..], eq)
    ensures Agrees([x] + xs, b[j..], eq)
  {
    assert b[j..] == [b[j]] + b[j + 1..];
  }

  /** Patching from any pair of positions that the main loop passes rebuilds what is left of b. */
  lemma {:induction false} PatchRebuilds(a: seq<Line>, b: seq<Line>, eq: Comp, w: seq<Line>, counts: Oracle, i: nat, j: nat)
    requires i <= |a| && j <= |b|
    ensures var s := Walk(a, b, eq, w, counts, i, j);
      Agrees(Patch(a, AllDels(a, w, s), AllAdds(b, s), i, j), b[j..], eq)
    decreases |a| - i + |b| - j
  {
    if i < |a| && j < |b| {
      var del, add := Del(i + 1, TextAt(w, i)), Add(j + 1, b[j]);
      var s := Walk(a, b, eq, w, counts, i, j);
      if eq(a[i], b[j]) {
        PatchRebuilds(a, b, eq, w, counts, i + 1, j + 1);
        HeadsLieAhead(a, b, eq, w, counts, i + 1, j + 1);
        AgreesAfter(a[i], Patch(a, AllDels(a, w, s), AllAdds(b, s), i + 1, j + 1), b, eq, j);
      } else {
        match Choose(counts(i, j))
        case Left =>
          var t := Walk(a, b, eq, w, counts, i + 1, j);
          PatchRebuilds(a, b, eq, w, counts, i + 1, j);
          AllBefore(a, b, w, [del], [], t);
          assert [] + AllAdds(b, t) == AllAdds(b, t);
          PatchDel(a, [del] + AllDels(a, w, t), AllAdds(b, t), i, j);
        case Right =>
          var t := Walk(a, b, eq, w, counts, i, j + 1);
          PatchRebuilds(a, b, eq, w, counts, i, j + 1);
          AllBefore(a, b, w, [], [add], t);
          assert [] + AllDels(a, w, t) == AllDels(a, w, t);
          AgreesAfter(b[j], Patch(a, AllDels(a, w, t), AllAdds(b, t), i, j + 1), b, eq, j);
        case Both =>
          var t := Walk(a, b, eq, w, counts, i + 1, j + 1);
          PatchRebuilds(a, b, eq, w, counts, i + 1, j + 1);
          AllBefore(a, b, w, [del], [add], t);
          PatchDel(a, [del] + AllDels(a, w, t), AllAdds(b, t), i, j + 1);
          AgreesAfter(b[j], Patch(a, AllDels(a, w, t), AllAdds(b, t), i + 1, j + 1), b, eq, j);
      }
    } else {
      AllAtEnd(a, b, w, i, j);
      PatchTails(a, b, w, i, j);
    }
  }

  lemma PatchTails(a: seq<Line>, b: seq<Line>, w: seq<Line>, i: nat, j: nat)
    requires i <= |a| && j <= |b| && (i == |a| || j == |b|)
    ensures Patch(a, TailDels(w, i, |a|), TailAdds(b, j), i, j) == b[j..]
  {
    if i == |a| { PatchTailAdds(a, b, j); } else { PatchTailDels(a, w, i, j); }
  }

  lemma {:induction false} PatchTailAdds(a: seq<Line>, b: seq<Line>, j: nat)
    requires j <= |b|
    ensures Patch(a, [], TailAdds(b, j), |a|, j) == b[j..]
    decreases |b| - j
  {
    if j < |b| { PatchTailAdds(a, b, j + 1); }
  }

  lemma {:induction false} PatchTailDels(a: seq<Line>, w: seq<Line>, i: nat, j: nat)
    requires i <= |a|
    ensures Patch(a, TailDels(w, i, |a|), [], i, j) == []
    decreases |a| - i
  {
    if i < |a| { PatchTailDels(a, w, i + 1, j); }
  }

  // ---------------------------------------------------------------- the merge of the two sides

  lemma {:induction false} SidesOfJoin(x: seq<Record>, y: seq<Record>)
    ensures Dels(x + y) == Dels(x) + Dels(y) && Adds(x + y) == Adds(x) + Adds(y)
  {
    if x == [] {
      assert x + y == y;
    } else {
      assert (x + y)[1..] == x[1..] + y;
      SidesOfJoin(x[1..], y);
    }
  }

  lemma {:induction false} OneSided(rs: seq<Record>, del: bool, lo: nat, hi: nat, w: seq<Line>)
    requires Numbered(rs, del, lo, hi, w)
    ensures Dels(rs) == (if del then rs else []) && Adds(rs) == (if del then [] else rs)
  {
    if rs != [] {
      OneSided(rs[1..], del, rs[0].no, hi, w);
      assert [rs[0]] + rs[1..] == rs;
    }
  }

  lemma SidesOfFirst(r: Record, rest: seq<Record>)
    ensures Dels([r] + rest) == (if r.Del? then [r] + Dels(rest) else Dels(rest))
    ensures Adds([r] + rest) == (if r.Add? then [r] + Adds(rest) else Adds(rest))
  {
    assert ([r] + rest)[1..] == rest;
  }

  /** The merge keeps the order of either side and every record once. */
  lemma {:induction false} MergeKeepsSides(d: seq<Record>, e: seq<Record>, l1: int, l2: int)
    requires (forall r :: r in d ==> r.Del?) && (forall r :: r in e ==> r.Add?)
    ensures Dels(Merge(d, e, l1, l2)) == d && Adds(Merge(d, e, l1, l2)) == e
    decreases |d| + |e|
  {
    if d == [] && e == [] {
    } else if TakesDel(d, e, l1, l2) {
      MergeKeepsSides(d[1..], e, d[0].no, l2);
      SidesOfFirst(d[0], Merge(d[1..], e, d[0].no, l2));
      assert d == [d[0]] + d[1..];
    } else {
      MergeKeepsSides(d, e[1..], l1, e[0].no);
      SidesOfFirst(e[0], Merge(d, e[1..], l1, e[0].no));
      assert e == [e[0]] + e[1..];
    }
  }

  lemma {:induction false} OnItsSide(diff: seq<Record>, r: Record)
    requires r in diff
    ensures r in (if r.Del? then Dels(diff) else Adds(diff))
  {
    if r != diff[0] { OnItsSide(diff[1..], r); }
  }

  // Records of one side that number adjacent lines stand next to each other.
  ghost predicate Grouped(m: seq<Record>) {
    m == [] || (Grouped(m[1..])
                && forall r :: r in m[1..] && r.Del? == m[0].Del? && r.no == m[0].no + 1 ==> r == m[1])
  }

  lemma {:induction false} MergeGroups(d: seq<Record>, e: seq<Record>, l1: int, l2: int,
                                       lo1: nat, hi1: nat, w1: seq<Line>, lo2: nat, hi2: nat, w2: seq<Line>)
    requires Numbered(d, true, lo1, hi1, w1) && Numbered(e, false, lo2, hi2, w2)
    ensures Grouped(Merge(d, e, l1, l2))
    decreases |d| + |e|
  {
    NumberedMeans(d, true, lo1, hi1, w1);
    NumberedMeans(e, false, lo2, hi2, w2);
    if d == [] && e == [] {
    } else if TakesDel(d, e, l1, l2) {
      var rest := Merge(d[1..], e, d[0].no, l2);
      MergeGroups(d[1..], e, d[0].no, l2, d[0].no, hi1, w1, lo2, hi2, w2);
      MergeKeepsSides(d[1..], e, d[0].no, l2);
      forall r | r in rest && r.Del? && r.no == d[0].no + 1 ensures r == rest[0] {
        OnItsSide(rest, r);
        FollowsFirst(d, true, lo1, hi1, w1, r);
        assert TakesDel(d[1..], e, d[0].no, l2);
      }
      assert ([d[0]] + rest)[1..] == rest;
    } else {
      var rest := Merge(d, e[1..], l1, e[0].no);
      MergeGroups(d, e[1..], l1, e[0].no, lo1, hi1, w1, e[0].no, hi2, w2);
      MergeKeepsSides(d, e[1..], l1, e[0].no);
      forall r | r in rest && r.Add? && r.no == e[0].no + 1 ensures r == rest[0] {
        OnItsSide(rest, r);
        FollowsFirst(e, false, lo2, hi2, w2, r);
        assert !TakesDel(d, e[1..], l1, e[0].no);
      }
      assert ([e[0]] + rest)[1..] == rest;
    }
  }

  lemma FollowsFirst(rs: seq<Record>, del: bool, lo: nat, hi: nat, w: seq<Line>, r: Record)
    requires Numbered(rs, del, lo, hi, w) && rs != [] && r in rs[1..] && r.no == rs[0].no + 1
    ensures |rs| > 1 && r == rs[1]
  {
    var k :| 0 <= k < |rs[1..]| && rs[1..][k] == r;
    NumberedMeans(rs[1..], del, rs[0].no, hi, w);
  }

  // ---------------------------------------------------------------- main results

  lemma ScriptSides(a: seq<Line>, b: seq<Line>, eq: Comp, w: seq<Line>, counts: Oracle)
    ensures var s := Walk(a, b, eq, w, counts, 0, 0); var diff := Script(a, b, eq, w, counts);
      && Dels(diff) == AllDels(a, w, s) && Adds(diff) == AllAdds(b, s) && SidesNumbered(a, b, w, s, 0, 0)
      && |diff| == |Dels(diff)| + |Adds(diff)|
  {
    var s := Walk(a, b, eq, w, counts, 0, 0);
    AllNumbered(a, b, eq, w, counts, 0, 0);
    WalkStops(a, b, eq, w, counts, 0, 0);
    MergedSides(a, b, w, s);
    CountSides(Script(a, b, eq, w, counts));
  }

  lemma MergedSides(a: seq<Line>, b: seq<Line>, w: seq<Line>, s: Sides)
    requires s.i <= |a| && s.j <= |b| && SidesNumbered(a, b, w, s, 0, 0)
    ensures var diff := Merge(s.dels, s.adds, -2, -2) + TailDels(w, s.i, |a|) + TailAdds(b, s.j);
      Dels(diff) == AllDels(a, w, s) && Adds(diff) == AllAdds(b, s)
  {
    var m, x, y := Merge(s.dels, s.adds, -2, -2), TailDels(w, s.i, |a|), TailAdds(b, s.j);
    MergePart(a, b, w, s);
    TailParts(a, b, w, s.i, s.j);
    SidesOfThree(m, x, y);
  }

  lemma SidesOfThree(m: seq<Record>, x: seq<Record>, y: seq<Record>)
    requires Dels(x) == x && Adds(x) == [] && Dels(y) == [] && Adds(y) == y
    ensures Dels(m + x + y) == Dels(m) + x && Adds(m + x + y) == Adds(m) + y
  {
    SidesOfJoin(m + x, y);
    SidesOfJoin(m, x);
    assert Dels(m) + x + [] == Dels(m) + x;
    assert Adds(m) + [] == Adds(m);
  }

  lemma MergePart(a: seq<Line>, b: seq<Line>, w: seq<Line>, s: Sides)
    requires SidesNumbered(a, b, w, s, 0, 0)
    ensures var m := Merge(s.dels, s.adds, -2, -2); Dels(m) == s.dels && Adds(m) == s.adds
  {
    NumberedPrefix(s.dels, TailDels(w, s.i, |a|), true, 0, |a|, w);
    NumberedPrefix(s.adds, TailAdds(b, s.j), false, 0, |b|, b);
    NumberedMeans(s.dels, true, 0, |a|, w);
    NumberedMeans(s.adds, false, 0, |b|, b);
    MergeKeepsSides(s.dels, s.adds, -2, -2);
  }

  lemma TailParts(a: seq<Line>, b: seq<Line>, w: seq<Line>, i: nat, j: nat)
    requires i <= |a| && j <= |b|
    ensures var x, y := TailDels(w, i, |a|), TailAdds(b, j);
      Dels(x) == x && Adds(x) == [] && Dels(y) == [] && Adds(y) == y
  {
    TailDelsNumbered(w, i, |a|);
    TailAddsNumbered(b, j);
    OneSided(TailDels(w, i, |a|), true, i, |a|, w);
    OneSided(TailAdds(b, j), false, j, |b|, b);
  }

  lemma {:induction false} WalkStops(a: seq<Line>, b: seq<Line>, eq: Comp, w: seq<Line>, counts: Oracle, i: nat, j: nat)
    requires i <= |a| && j <= |b|
    ensures var s := Walk(a, b, eq, w, counts, i, j); i <= s.i <= |a| && j <= s.j <= |b|
    decreases |a| - i + |b| - j
  {
    if i < |a| && j < |b| {
      WalkStops(a, b, eq, w, counts, i + 1, j);
      WalkStops(a, b, eq, w, counts, i, j + 1);
      WalkStops(a, b, eq, w, counts, i + 1, j + 1);
    }
  }

  lemma {:induction false} CountSides(diff: seq<Record>)
    ensures |diff| == |Dels(diff)| + |Adds(diff)|
  {
    if diff != [] { CountSides(diff[1..]); }
  }

  /**
  Whatever the heuristic answers, the script turns the wanted lines into the output lines, names
  every line at most once and in order, and quotes the lines it names.
  */
  lemma PatchRoundTrip(a: seq<Line>, b: seq<Line>, eq: Comp, w: seq<Line>, counts: Oracle)
    ensures var diff := Script(a, b, eq, w, counts);
      && Agrees(Patch(a, Dels(diff), Adds(diff), 0, 0), b, eq)
      && Numbered(Dels(diff), true, 0, |a|, w) && Numbered(Adds(diff), false, 0, |b|, b)
  {
    ScriptSides(a, b, eq, w, counts);
    PatchRebuilds(a, b, eq, w, counts, 0, 0);
    assert b[0..] == b;
  }

  /** Every record quotes the line it names; behind the end of the wanted text, which may be shorter than the patterns, it is empty. */
  lemma RecordsQuoteLines(a: seq<Line>, b: seq<Line>, eq: Comp, w: seq<Line>, counts: Oracle, r: Record)
    requires r in Script(a, b, eq, w, counts)
    ensures match r
      case Del(no, text) => 0 < no <= |a| && if no <= |w| then text == w[no - 1] else text == ""
      case Add(no, text) => 0 < no <= |b| && text == b[no - 1]
  {
    hide Script, Numbered, Patch, Agrees, Dels, Adds;
    var diff := Script(a, b, eq, w, counts);
    PatchRoundTrip(a, b, eq, w, counts);
    OnItsSide(diff, r);
    NumberedMeans(Dels(diff), true, 0, |a|, w);
    NumberedMeans(Adds(diff), false, 0, |b|, b);
  }

  function Same(): Comp { (x: Line, y: Line) => x == y }

  /** Outside regex mode the patched text is the output, line for line. */
  lemma PlainPatchIsExact(a: seq<Line>, b: seq<Line>, counts: Oracle)
    ensures var diff := Script(a, b, Same(), a, counts); Patch(a, Dels(diff), Adds(diff), 0, 0) == b
  {
    PatchRoundTrip(a, b, Same(), a, counts);
  }

  /** The lines that the script leaves alone are a common subsequence. */
  lemma {:induction false} KeptLines(a: seq<Line>, b: seq<Line>, eq: Comp, w: seq<Line>, counts: Oracle, i: nat, j: nat)
    returns (m: Matching)
    requires i <= |a| && j <= |b|
    ensures IsMatching(a, b, eq, i, j, m)
    ensures var s := Walk(a, b, eq, w, counts, i, j);
      |AllDels(a, w, s)| == |a| - i - |m| && |AllAdds(b, s)| == |b| - j - |m|
    decreases |a| - i + |b| - j
  {
    if i < |a| && j < |b| {
      var d, e := [Del(i + 1, TextAt(w, i))], [Add(j + 1, b[j])];
      if eq(a[i], b[j]) {
        m := KeptLines(a, b, eq, w, counts, i + 1, j + 1);
        MatchingAfter(a, b, eq, i, j, m);
        m := [(i, j)] + m;
      } else {
        match Choose(counts(i, j))
        case Left =>
          m := KeptLines(a, b, eq, w, counts, i + 1, j);
          MatchingWider(a, b, eq, i, j, m);
          AllBefore(a, b, w, d, [], Walk(a, b, eq, w, counts, i + 1, j));
        case Right =>
          m := KeptLines(a, b, eq, w, counts, i, j + 1);
          MatchingWider(a, b, eq, i, j, m);
          AllBefore(a, b, w, [], e, Walk(a, b, eq, w, counts, i, j + 1));
        case Both =>
          m := KeptLines(a, b, eq, w, counts, i + 1, j + 1);
          MatchingWider(a, b, eq, i, j, m);
          AllBefore(a, b, w, d, e, Walk(a, b, eq, w, counts, i + 1, j + 1));
      }
    } else {
      m := [];
      AllAtEnd(a, b, w, i, j);
      TailDelsNumbered(w, i, |a|);
      TailAddsNumbered(b, j);
    }
  }

  /** No script is shorter than what a longest common subsequence forces, and the lengths balance. */
  lemma ScriptIsNoShorterThanForced(a: seq<Line>, b: seq<Line>, eq: Comp, w: seq<Line>, counts: Oracle)
    ensures var diff := Script(a, b, eq, w, counts);
      && |diff| + 2 * Lcs(a, b, eq, 0, 0) >= |a| + |b|
      && |a| - |Dels(diff)| == |b| - |Adds(diff)|
  {
    var m := KeptLines(a, b, eq, w, counts, 0, 0);
    LcsBoundsMatchings(a, b, eq, 0, 0, m);
    ScriptSides(a, b, eq, w, counts);
  }

  /** The script is empty exactly when the two texts agree line by line. */
  lemma EmptyScript(a: seq<Line>, b: seq<Line>, eq: Comp, w: seq<Line>, counts: Oracle)
    ensures Script(a, b, eq, w, counts) == [] <==>
            |a| == |b| && forall k :: 0 <= k < |a| ==> eq(a[k], b[k])
  {
    ScriptSides(a, b, eq, w, counts);
    EmptyFrom(a, b, eq, w, counts, 0, 0);
  }

  lemma {:induction false} EmptyFrom(a: seq<Line>, b: seq<Line>, eq: Comp, w: seq<Line>, counts: Oracle, i: nat, j: nat)
    requires i == j && i <= |a| && j <= |b|
    ensures var s := Walk(a, b, eq, w, counts, i, j);
      AllDels(a, w, s) == [] && AllAdds(b, s) == [] <==> |a| == |b| && forall k :: i <= k < |a| ==> eq(a[k], b[k])
    decreases |a| - i
  {
    if i < |a| && j < |b| {
      if eq(a[i], b[j]) {
        EmptyFrom(a, b, eq, w, counts, i + 1, j + 1);
      }
    } else {
      TailDelsNumbered(w, i, |a|);
      TailAddsNumbered(b, j);
    }
  }

  /** Lines with adjacent numbers on one side come out as one block. */
  lemma BlocksStayTogether(a: seq<Line>, b: seq<Line>, eq: Comp, w: seq<Line>, counts: Oracle)
    ensures var s := Walk(a, b, eq, w, counts, 0, 0); Grouped(Merge(s.dels, s.adds, -2, -2))
  {
    var s := Walk(a, b, eq, w, counts, 0, 0);
    AllNumbered(a, b, eq, w, counts, 0, 0);
    NumberedPrefix(s.dels, TailDels(w, s.i, |a|), true, 0, |a|, w);
    NumberedPrefix(s.adds, TailAdds(b, s.j), false, 0, |b|, b);
    MergeGroups(s.dels, s.adds, -2, -2, 0, |a|, w, 0, |b|, b);
  }

  lemma {:induction false} NumberedPrefix(x: seq<Record>, y: seq<Record>, del: bool, lo: nat, hi: nat, w: seq<Line>)
    requires Numbered(x + y, del, lo, hi, w)
    ensures Numbered(x, del, lo, hi, w)
  {
    if x != [] {
      assert (x + y)[1..] == x[1..] + y;
      NumberedPrefix(x[1..], y, del, x[0].no, hi, w);
    }
  }

  // ---------------------------------------------------------------- generate_diff

  // explode: the pieces between the separators, empty ones included.
  function Explode(c: char, text: string): (lines: seq<Line>)
    ensures |lines| > 0 && forall k :: 0 <= k < |lines| ==> c !in lines[k]
  {
    if text == [] then [""]
    else
      var rest := Explode(c, text[1..]);
      if text[0] == c then [""] + rest else [[text[0]] + rest[0]] + rest[1..]
  }

  function Implode(c: char, lines: seq<Line>): string {
    if |lines| == 0 then "" else if |lines| == 1 then lines[0] else lines[0] + [c] + Implode(c, lines[1..])
  }

  lemma {:induction false} ImplodeExplode(c: char, text: string)
    ensures Implode(c, Explode(c, text)) == text
  {
    if text != [] {
      ImplodeExplode(c, text[1..]);
      var rest := Explode(c, text[1..]);
      if text[0] == c {
        assert ([""] + rest)[1..] == rest;
      } else {
        assert Implode(c, [[text[0]] + rest[0]] + rest[1..]) == [text[0]] + Implode(c, rest);
      }
    }
  }
}
