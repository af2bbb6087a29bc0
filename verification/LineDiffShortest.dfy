/**
How short the diff of php-7.1.3/run-tests.php is.  With exact counts no script is shorter.  With the
counts of the bounded heuristic a block of up to six deleted or ten inserted lines is reported as just
these lines, while eleven inserted lines may hide a line that both texts end with.
*/
module LineDiffShortest {
  import opened LineDiff

  // ---------------------------------------------------------------- exact counts

  // The counts at a pair of lines that differ are the lengths of longest common subsequences.
  ghost predicate Exact(a: seq<Line>, b: seq<Line>, eq: Comp, counts: Oracle) {
    forall i: nat, j: nat :: i < |a| && j < |b| && !eq(a[i], b[j]) ==>
      counts(i, j) == (Lcs(a, b, eq, i + 1, j), Lcs(a, b, eq, i, j + 1))
  }

  lemma LcsShrinks(a: seq<Line>, b: seq<Line>, eq: Comp, i: nat, j: nat)
    ensures Lcs(a, b, eq, i + 1, j + 1) <= Lcs(a, b, eq, i + 1, j)
  {
    var m := LcsIsAttained(a, b, eq, i + 1, j + 1);
    MatchingFrom(a, b, eq, i + 1, j, i + 1, j + 1, m);
    LcsBoundsMatchings(a, b, eq, i + 1, j, m);
  }

  lemma {:induction false} WalkIsShortest(a: seq<Line>, b: seq<Line>, eq: Comp, w: seq<Line>, counts: Oracle, i: nat, j: nat)
    requires i <= |a| && j <= |b| && Exact(a, b, eq, counts)
    ensures var s := Walk(a, b, eq, w, counts, i, j);
      |AllDels(a, w, s)| + |AllAdds(b, s)| + 2 * Lcs(a, b, eq, i, j) == |a| - i + |b| - j
    decreases |a| - i + |b| - j
  {
    if i < |a| && j < |b| {
      if eq(a[i], b[j]) {
        LcsEqual(a, b, eq, i, j);
        WalkIsShortest(a, b, eq, w, counts, i + 1, j + 1);
      } else {
        LcsUnequal(a, b, eq, i, j);
        assert counts(i, j) == (Lcs(a, b, eq, i + 1, j), Lcs(a, b, eq, i, j + 1));
        StepIsShortest(a, b, eq, w, counts, i, j);
      }
    } else {
      AllAtEnd(a, b, w, i, j);
      TailDelsNumbered(w, i, |a|);
      TailAddsNumbered(b, j);
    }
  }

  lemma {:induction false} StepIsShortest(a: seq<Line>, b: seq<Line>, eq: Comp, w: seq<Line>, counts: Oracle, i: nat, j: nat)
    requires i < |a| && j < |b| && !eq(a[i], b[j]) && Exact(a, b, eq, counts)
    requires counts(i, j) == (Lcs(a, b, eq, i + 1, j), Lcs(a, b, eq, i, j + 1))
    requires Lcs(a, b, eq, i, j) == Max(Lcs(a, b, eq, i + 1, j), Lcs(a, b, eq, i, j + 1))
    ensures var s := Walk(a, b, eq, w, counts, i, j);
      |AllDels(a, w, s)| + |AllAdds(b, s)| + 2 * Lcs(a, b, eq, i, j) == |a| - i + |b| - j
    decreases |a| - i + |b| - j, 0
  {
    hide Exact, Lcs, AllDels, AllAdds;
    var d, e := [Del(i + 1, TextAt(w, i))], [Add(j + 1, b[j])];
    match Choose(counts(i, j))
    case Left =>
      WalkIsShortest(a, b, eq, w, counts, i + 1, j);
      AllBefore(a, b, w, d, [], Walk(a, b, eq, w, counts, i + 1, j));
    case Right =>
      WalkIsShortest(a, b, eq, w, counts, i, j + 1);
      AllBefore(a, b, w, [], e, Walk(a, b, eq, w, counts, i, j + 1));
    case Both =>
      LcsShrinks(a, b, eq, i, j);
      WalkIsShortest(a, b, eq, w, counts, i + 1, j + 1);
      AllBefore(a, b, w, d, e, Walk(a, b, eq, w, counts, i + 1, j + 1));
  }

  /** With exact counts the script is as short as a longest common subsequence allows. */
  lemma ExactCountsAreShortest(a: seq<Line>, b: seq<Line>, eq: Comp, w: seq<Line>, counts: Oracle)
    requires Exact(a, b, eq, counts)
    ensures |Script(a, b, eq, w, counts)| + 2 * Lcs(a, b, eq, 0, 0) == |a| + |b|
  {
    WalkIsShortest(a, b, eq, w, counts, 0, 0);
    ScriptSides(a, b, eq, w, counts);
    CountSides(Script(a, b, eq, w, counts));
  }

  // ---------------------------------------------------------------- a block of lines, with the heuristic

  // n pairs of lines that compare equal, from i and j on.
  ghost predicate Paired(a: seq<Line>, b: seq<Line>, eq: Comp, i: nat, j: nat, n: nat)
    decreases n
  {
    n == 0 || (i < |a| && j < |b| && eq(a[i], b[j]) && Paired(a, b, eq, i + 1, j + 1, n - 1))
  }

  lemma {:induction false} PairedIs(a: seq<Line>, b: seq<Line>, eq: Comp, i: nat, j: nat, n: nat)
    requires i + n <= |a| && j + n <= |b| && forall x :: i <= x < i + n ==> eq(a[x], b[x + (j - i)])
    ensures Paired(a, b, eq, i, j, n)
    decreases n
  {
    if n > 0 { PairedIs(a, b, eq, i + 1, j + 1, n - 1); }
  }

  lemma {:induction false} RunOf(a: seq<Line>, b: seq<Line>, eq: Comp, i: nat, j: nat, n: nat)
    requires Paired(a, b, eq, i, j, n)
    ensures Run(a, b, eq, i, j) >= n
    decreases n
  {
    if n > 0 { RunOf(a, b, eq, i + 1, j + 1, n - 1); }
  }

  lemma {:induction false} LcsIsShort(a: seq<Line>, b: seq<Line>, eq: Comp, i: nat, j: nat)
    ensures Lcs(a, b, eq, i, j) <= (if i <= |a| then |a| - i else 0) && Lcs(a, b, eq, i, j) <= (if j <= |b| then |b| - j else 0)
    decreases |a| - i, |b| - j
  {
    if i < |a| && j < |b| {
      LcsIsShort(a, b, eq, i + 1, j);
      LcsIsShort(a, b, eq, i, j + 1);
      LcsIsShort(a, b, eq, i + 1, j + 1);
      LcsDrop(a, b, eq, i, j);
    }
  }

  // The walk passes pairs of equal lines.
  lemma {:induction false} WalkPasses(a: seq<Line>, b: seq<Line>, eq: Comp, w: seq<Line>, counts: Oracle, i: nat, j: nat, n: nat)
    requires Paired(a, b, eq, i, j, n)
    ensures Walk(a, b, eq, w, counts, i, j) == Walk(a, b, eq, w, counts, i + n, j + n)
    decreases n
  {
    if n > 0 { WalkPasses(a, b, eq, w, counts, i + 1, j + 1, n - 1); }
  }

  lemma WalkAtEnd(a: seq<Line>, b: seq<Line>, eq: Comp, w: seq<Line>, counts: Oracle, i: nat, j: nat)
    requires i >= |a| || j >= |b|
    ensures Walk(a, b, eq, w, counts, i, j) == Sides([], [], i, j)
  {
  }

  // b is a without its lines i .. i + n - 1, as the comparison sees it, and none of them equals the line behind them.
  ghost predicate BlockOut(a: seq<Line>, b: seq<Line>, eq: Comp, i: nat, n: nat) {
    && |a| == |b| + n && i < |b| && (forall k :: i <= k < i + n ==> !eq(a[k], b[i]))
    && Paired(a, b, eq, 0, 0, i) && Paired(a, b, eq, i + n, i, |b| - i)
  }

  // a is b without its lines i .. i + n - 1.
  ghost predicate BlockIn(a: seq<Line>, b: seq<Line>, eq: Comp, i: nat, n: nat) {
    && |b| == |a| + n && i < |a| && (forall k :: i <= k < i + n ==> !eq(a[i], b[k]))
    && Paired(a, b, eq, 0, 0, i) && Paired(a, b, eq, i, i + n, |a| - i)
  }

  lemma CountReachesRun(a: seq<Line>, b: seq<Line>, eq: Comp, i: nat, j: nat, steps: real)
    ensures Count(a, b, eq, i, j, steps) >= Run(a, b, eq, i, j)
  {
    CountUnfolds(a, b, eq, i, j, steps);
  }

  // Skipping finds a run that starts within the budget.
  lemma {:induction false} SkipLeftFinds(a: seq<Line>, b: seq<Line>, eq: Comp, o: nat, j: nat, st: real, t: nat)
    requires o <= t < |a| && st > (t - o) as real
    ensures SkipLeft(a, b, eq, o, j, st) >= Run(a, b, eq, t, j)
    decreases t - o
  {
    if o == t { CountReachesRun(a, b, eq, o, j, st - 1.0); } else { SkipLeftFinds(a, b, eq, o + 1, j, st - 1.0, t); }
  }

  lemma {:induction false} SkipRightFinds(a: seq<Line>, b: seq<Line>, eq: Comp, i: nat, o: nat, st: real, t: nat)
    requires o <= t < |b| && st > (t - o) as real
    ensures SkipRight(a, b, eq, i, o, st) >= Run(a, b, eq, i, t)
    decreases t - o
  {
    if o == t { CountReachesRun(a, b, eq, i, o, st - 1.0); } else { SkipRightFinds(a, b, eq, i, o + 1, st - 1.0, t); }
  }

  // A count with a budget of ten finds a run behind up to five lines of a, or up to nine lines of b.
  lemma CountFindsLeft(a: seq<Line>, b: seq<Line>, eq: Comp, i: nat, j: nat, t: nat)
    requires i <= t < |a| && t - i <= 5 && (i < t ==> Run(a, b, eq, i, j) == 0)
    ensures Count(a, b, eq, i, j, 10.0) >= Run(a, b, eq, t, j)
  {
    hide Count, SkipLeft, SkipRight, Run;
    if i == t {
      CountReachesRun(a, b, eq, i, j, 10.0);
    } else {
      CountUnfolds(a, b, eq, i, j, 10.0);
      SkipLeftFinds(a, b, eq, i + 1, j, 4.5, t);
    }
  }

  lemma CountFindsRight(a: seq<Line>, b: seq<Line>, eq: Comp, i: nat, j: nat, t: nat)
    requires j <= t < |b| && t - j <= 9 && (j < t ==> Run(a, b, eq, i, j) == 0)
    ensures Count(a, b, eq, i, j, 10.0) >= Run(a, b, eq, i, t)
  {
    hide Count, SkipLeft, SkipRight, Run;
    if j == t {
      CountReachesRun(a, b, eq, i, j, 10.0);
    } else {
      CountUnfolds(a, b, eq, i, j, 10.0);
      SkipRightFinds(a, b, eq, i, j + 1, 9.0, t);
    }
  }

  lemma CountIsShort(a: seq<Line>, b: seq<Line>, eq: Comp, i: nat, j: nat)
    requires i <= |a| && j <= |b|
    ensures Count(a, b, eq, i, j, 10.0) <= |a| - i && Count(a, b, eq, i, j, 10.0) <= |b| - j
  {
    CountNeverExceedsLcs(a, b, eq, i, j, 10.0);
    LcsIsShort(a, b, eq, i, j);
  }

  // In front of the rest of the block, the deletion of its first line is what counts more.
  lemma CountsOfBlockOut(a: seq<Line>, b: seq<Line>, eq: Comp, i: nat, n: nat, x: nat)
    requires BlockOut(a, b, eq, i, n) && n <= 6 && i <= x < i + n
    ensures Choose(Heuristic(a, b, eq)(x, i)) == Left
  {
    RunOf(a, b, eq, i + n, i, |b| - i);
    assert x + 1 < i + n ==> Run(a, b, eq, x + 1, i) == 0;
    hide Count, Run, Paired;
    CountFindsLeft(a, b, eq, x + 1, i, i + n);
    CountIsShort(a, b, eq, x, i + 1);
  }

  lemma CountsOfBlockIn(a: seq<Line>, b: seq<Line>, eq: Comp, i: nat, n: nat, y: nat)
    requires BlockIn(a, b, eq, i, n) && n <= 10 && i <= y < i + n
    ensures Choose(Heuristic(a, b, eq)(i, y)) == Right
  {
    RunOf(a, b, eq, i, i + n, |a| - i);
    assert y + 1 < i + n ==> Run(a, b, eq, i, y + 1) == 0;
    hide Count, Run, Paired;
    CountFindsRight(a, b, eq, i, y + 1, i + n);
    CountIsShort(a, b, eq, i + 1, y);
  }

  // The lines j .. n - 1 of b as records.
  function BlockAdds(b: seq<Line>, j: nat, n: nat): seq<Record>
    requires n <= |b|
    decreases n - j
  {
    if j < n then [Add(j + 1, b[j])] + BlockAdds(b, j + 1, n) else []
  }

  lemma {:induction false} WalkBlockOut(a: seq<Line>, b: seq<Line>, eq: Comp, w: seq<Line>, i: nat, n: nat, x: nat)
    requires BlockOut(a, b, eq, i, n) && n <= 6 && i <= x <= i + n
    ensures Walk(a, b, eq, w, Heuristic(a, b, eq), x, i) == Sides(TailDels(w, x, i + n), [], |a|, |b|)
    decreases i + n - x
  {
    var counts := Heuristic(a, b, eq);
    if x == i + n {
      WalkPasses(a, b, eq, w, counts, x, i, |b| - i);
    } else {
      CountsOfBlockOut(a, b, eq, i, n, x);
      WalkBlockOut(a, b, eq, w, i, n, x + 1);
    }
  }

  lemma {:induction false} WalkBlockIn(a: seq<Line>, b: seq<Line>, eq: Comp, w: seq<Line>, i: nat, n: nat, y: nat)
    requires BlockIn(a, b, eq, i, n) && n <= 10 && i <= y <= i + n
    ensures Walk(a, b, eq, w, Heuristic(a, b, eq), i, y) == Sides([], BlockAdds(b, y, i + n), |a|, |b|)
    decreases i + n - y
  {
    var counts := Heuristic(a, b, eq);
    if y == i + n {
      WalkPasses(a, b, eq, w, counts, i, y, |a| - i);
    } else {
      CountsOfBlockIn(a, b, eq, i, n, y);
      WalkBlockIn(a, b, eq, w, i, n, y + 1);
    }
  }

  lemma {:induction false} MergeOneSide(d: seq<Record>, l1: int, l2: int)
    ensures Merge(d, [], l1, l2) == d == Merge([], d, l1, l2)
  {
    if d != [] {
      MergeOneSide(d[1..], d[0].no, l2);
      MergeOneSide(d[1..], l1, d[0].no);
    }
  }

  /** Up to six lines in front of equal lines that are missing from the output are exactly the records of the diff. */
  lemma MissingBlockIsItsLines(a: seq<Line>, b: seq<Line>, eq: Comp, w: seq<Line>, i: nat, n: nat)
    requires BlockOut(a, b, eq, i, n) && n <= 6
    ensures Script(a, b, eq, w, Heuristic(a, b, eq)) == TailDels(w, i, i + n)
  {
    WalkPasses(a, b, eq, w, Heuristic(a, b, eq), 0, 0, i);
    WalkBlockOut(a, b, eq, w, i, n, i);
    hide BlockOut, Walk, Heuristic;
    MergeOneSide(TailDels(w, i, i + n), -2, -2);
  }

  /** Up to ten lines in front of equal lines that are new in the output are exactly the records of the diff. */
  lemma NewBlockIsItsLines(a: seq<Line>, b: seq<Line>, eq: Comp, w: seq<Line>, i: nat, n: nat)
    requires BlockIn(a, b, eq, i, n) && n <= 10
    ensures Script(a, b, eq, w, Heuristic(a, b, eq)) == BlockAdds(b, i, i + n)
  {
    WalkPasses(a, b, eq, w, Heuristic(a, b, eq), 0, 0, i);
    WalkBlockIn(a, b, eq, w, i, n, i);
    hide BlockIn, Walk, Heuristic;
    MergeOneSide(BlockAdds(b, i, i + n), -2, -2);
  }

  // ---------------------------------------------------------------- how far the heuristic sees

  // No line of a from i on equals line j of b or one behind it that is less than steps away.
  ghost predicate Unlike(a: seq<Line>, b: seq<Line>, eq: Comp, i: nat, j: nat, steps: real) {
    forall x: nat, y: nat :: i <= x < |a| && j <= y < |b| && (y == j || (y - j) as real < steps) ==> !eq(a[x], b[y])
  }

  lemma UnlikeAhead(a: seq<Line>, b: seq<Line>, eq: Comp, i: nat, j: nat, steps: real, i2: nat, j2: nat, steps2: real)
    requires Unlike(a, b, eq, i, j, steps) && i <= i2 && (j == j2 || (j < j2 && (j2 - j) as real < steps))
    requires steps2 <= steps - (j2 - j) as real
    ensures Unlike(a, b, eq, i2, j2, steps2)
  {
    forall x: nat, y: nat | i2 <= x < |a| && j2 <= y < |b| && (y == j2 || (y - j2) as real < steps2)
      ensures !eq(a[x], b[y])
    {
      assert (y - j) as real == (y - j2) as real + (j2 - j) as real;
    }
  }

  /** A count is zero if nothing matches within its budget, however far behind it the texts agree. */
  lemma {:induction false} CountSeesNoFurther(a: seq<Line>, b: seq<Line>, eq: Comp, i: nat, j: nat, steps: real)
    requires Unlike(a, b, eq, i, j, steps)
    ensures Count(a, b, eq, i, j, steps) == 0
    decreases steps + 1.0
  {
    if i < |a| && j < |b| { assert !eq(a[i], b[j]); }
    CountUnfolds(a, b, eq, i, j, steps);
    var left := steps - 1.0;
    if left > 0.0 {
      UnlikeAhead(a, b, eq, i, j, steps, i + 1, j, left / 2.0);
      SkipLeftSeesNoFurther(a, b, eq, i + 1, j, left / 2.0);
      UnlikeAhead(a, b, eq, i, j, steps, i, j + 1, left);
      SkipRightSeesNoFurther(a, b, eq, i, j + 1, left);
    }
  }

  lemma {:induction false} SkipLeftSeesNoFurther(a: seq<Line>, b: seq<Line>, eq: Comp, o: nat, j: nat, st: real)
    requires Unlike(a, b, eq, o, j, st)
    ensures SkipLeft(a, b, eq, o, j, st) == 0
    decreases st + 1.0
  {
    if o < |a| && st > 0.0 {
      UnlikeAhead(a, b, eq, o, j, st, o, j, st - 1.0);
      CountSeesNoFurther(a, b, eq, o, j, st - 1.0);
      UnlikeAhead(a, b, eq, o, j, st, o + 1, j, st - 1.0);
      SkipLeftSeesNoFurther(a, b, eq, o + 1, j, st - 1.0);
    }
  }

  lemma {:induction false} SkipRightSeesNoFurther(a: seq<Line>, b: seq<Line>, eq: Comp, i: nat, o: nat, st: real)
    requires st > 0.0 ==> Unlike(a, b, eq, i, o, st)
    ensures SkipRight(a, b, eq, i, o, st) == 0
    decreases st + 1.0
  {
    if o < |b| && st > 0.0 {
      UnlikeAhead(a, b, eq, i, o, st, i, o, st - 1.0);
      CountSeesNoFurther(a, b, eq, i, o, st - 1.0);
      if st > 1.0 { UnlikeAhead(a, b, eq, i, o, st, i, o + 1, st - 1.0); }
      SkipRightSeesNoFurther(a, b, eq, i, o + 1, st - 1.0);
    }
  }

  lemma NothingInSight(a: seq<Line>, b: seq<Line>, eq: Comp, i: nat, j: nat)
    requires Unlike(a, b, eq, i, j, 11.0)
    ensures Choose(Heuristic(a, b, eq)(i, j)) == Both
  {
    hide Count;
    UnlikeAhead(a, b, eq, i, j, 11.0, i + 1, j, 10.0);
    CountSeesNoFurther(a, b, eq, i + 1, j, 10.0);
    UnlikeAhead(a, b, eq, i, j, 11.0, i, j + 1, 10.0);
    CountSeesNoFurther(a, b, eq, i, j + 1, 10.0);
  }

  lemma MergeAlike(d: Record, e: Record)
    requires d.no == e.no
    ensures Merge([d], [e], -2, -2) == [e, d]
  {
    assert [d][1..] == [] && [e][1..] == [];
    assert Merge([d], [], -2, e.no) == [d];
  }

  lemma WalkBothEnds(a: seq<Line>, b: seq<Line>, eq: Comp, w: seq<Line>, counts: Oracle, i: nat)
    requires |a| == i + 1 <= |b| && Paired(a, b, eq, 0, 0, i) && !eq(a[i], b[i]) && Choose(counts(i, i)) == Both
    ensures Walk(a, b, eq, w, counts, 0, 0) == Sides([Del(i + 1, TextAt(w, i))], [Add(i + 1, b[i])], i + 1, i + 1)
  {
    WalkPasses(a, b, eq, w, counts, 0, 0, i);
    WalkAtEnd(a, b, eq, w, counts, i + 1, i + 1);
    hide Paired, Choose;
  }

  /**
  Eleven new lines are more than the heuristic sees past: a last wanted line that no line of the next
  eleven equals is reported as missing, and all lines from there on as new, even if it follows right
  behind them.
  */
  lemma LongBlockHidesLastLine(a: seq<Line>, b: seq<Line>, eq: Comp, w: seq<Line>, i: nat)
    requires |a| == i + 1 <= |b| && Paired(a, b, eq, 0, 0, i) && Unlike(a, b, eq, i, i, 11.0)
    ensures Script(a, b, eq, w, Heuristic(a, b, eq)) ==
              [Add(i + 1, b[i]), Del(i + 1, TextAt(w, i))] + TailAdds(b, i + 1)
  {
    var d, e := Del(i + 1, TextAt(w, i)), Add(i + 1, b[i]);
    NothingInSight(a, b, eq, i, i);
    assert !eq(a[i], b[i]);
    hide Heuristic, Unlike, Paired, Merge, TextAt, Walk, Choose;
    WalkBothEnds(a, b, eq, w, Heuristic(a, b, eq), i);
    MergeAlike(d, e);
    assert TailDels(w, i + 1, |a|) == [];
  }

  // ---------------------------------------------------------------- two lines that changed places

  // The lines i and i + 1 changed places; the lines around them are unlike them.
  ghost predicate SwappedAt(a: seq<Line>, b: seq<Line>, eq: Comp, i: nat) {
    && |a| == |b| && i + 2 <= |a| && Paired(a, b, eq, 0, 0, i) && Paired(a, b, eq, i + 2, i + 2, |a| - i - 2)
    && !eq(a[i], b[i]) && eq(a[i], b[i + 1]) && eq(a[i + 1], b[i])
    && (i + 2 < |a| ==> !eq(a[i + 1], b[i + 2]) && !eq(a[i + 2], b[i + 1]))
  }

  // Past either of the two lines all lines behind them are found.
  lemma CountsBesideSwapped(a: seq<Line>, b: seq<Line>, eq: Comp, i: nat)
    requires SwappedAt(a, b, eq, i)
    ensures Count(a, b, eq, i + 1, i, 10.0) == |a| - i - 1 == Count(a, b, eq, i, i + 1, 10.0)
  {
    var n := |a| - i - 2;
    RunOf(a, b, eq, i + 2, i + 2, n);
    assert Run(a, b, eq, i + 2, i + 1) == 0 && Run(a, b, eq, i + 1, i) == 1;
    assert Run(a, b, eq, i + 1, i + 2) == 0 && Run(a, b, eq, i, i + 1) == 1;
    hide Count, Run, Paired;
    CountReaches(a, b, eq, i + 1, i, 10.0);
    CountReaches(a, b, eq, i, i + 1, 10.0);
    CountReachesRun(a, b, eq, i + 2, i + 2, 7.0);
    CountReachesRun(a, b, eq, i + 2, i + 2, 3.0);
    CountIsShort(a, b, eq, i + 1, i);
    CountIsShort(a, b, eq, i, i + 1);
  }

  lemma CountsBehindSwapped(a: seq<Line>, b: seq<Line>, eq: Comp, i: nat)
    requires SwappedAt(a, b, eq, i) && i + 2 < |a|
    ensures Count(a, b, eq, i + 2, i + 2, 10.0) > Count(a, b, eq, i + 1, i + 3, 10.0)
  {
    RunOf(a, b, eq, i + 2, i + 2, |a| - i - 2);
    hide Count, Run, Paired;
    CountReachesRun(a, b, eq, i + 2, i + 2, 10.0);
    CountIsShort(a, b, eq, i + 1, i + 3);
  }

  lemma ChoicesAtSwapped(a: seq<Line>, b: seq<Line>, eq: Comp, i: nat)
    requires SwappedAt(a, b, eq, i)
    ensures Choose(Heuristic(a, b, eq)(i, i)) == Right
    ensures i + 2 < |a| ==> Choose(Heuristic(a, b, eq)(i + 1, i + 2)) == Left
  {
    hide Count;
    CountsBesideSwapped(a, b, eq, i);
    if i + 2 < |a| { CountsBehindSwapped(a, b, eq, i); }
  }

  lemma WalkSwapped(a: seq<Line>, b: seq<Line>, eq: Comp, w: seq<Line>, counts: Oracle, i: nat)
    requires SwappedAt(a, b, eq, i)
    requires Choose(counts(i, i)) == Right && (i + 2 < |a| ==> Choose(counts(i + 1, i + 2)) == Left)
    ensures var d, e := [Del(i + 2, TextAt(w, i + 1))], [Add(i + 1, b[i])];
      Walk(a, b, eq, w, counts, 0, 0) == if i + 2 == |a| then Sides([], e, i + 1, i + 2) else Sides(d, e, |a|, |b|)
  {
    WalkPasses(a, b, eq, w, counts, 0, 0, i);
    WalkPasses(a, b, eq, w, counts, i + 2, i + 2, |a| - i - 2);
    hide Paired, Choose;
    assert Walk(a, b, eq, w, counts, i, i + 1) == Walk(a, b, eq, w, counts, i + 1, i + 2);
  }

  lemma MergeTwo(d: Record, e: Record)
    requires d.no > e.no
    ensures Merge([d], [e], -2, -2) == [e, d] && Merge([], [e], -2, -2) == [e]
  {
    assert [d][1..] == [] && [e][1..] == [];
    assert Merge([d], [], -2, e.no) == [d];
  }

  /** Two lines that changed places: the output's first one is new, and its old place is deleted. */
  lemma SwappedLinesAddFirst(a: seq<Line>, b: seq<Line>, eq: Comp, w: seq<Line>, i: nat)
    requires SwappedAt(a, b, eq, i)
    ensures Script(a, b, eq, w, Heuristic(a, b, eq)) == [Add(i + 1, b[i]), Del(i + 2, TextAt(w, i + 1))]
  {
    var counts := Heuristic(a, b, eq);
    var d, e := Del(i + 2, TextAt(w, i + 1)), Add(i + 1, b[i]);
    ChoicesAtSwapped(a, b, eq, i);
    WalkSwapped(a, b, eq, w, counts, i);
    MergeTwo(d, e);
    assert |a| == |b| && i + 2 <= |a|;
    hide Heuristic, SwappedAt, Walk, Merge, TextAt;
    assert TailDels(w, |a|, |a|) == [] && TailAdds(b, |b|) == [];
    if i + 2 == |a| { assert TailDels(w, i + 1, |a|) == [d] + TailDels(w, i + 2, |a|); }
    assert [e] + [d] == [e, d];
  }

  // ---------------------------------------------------------------- one line, outside regex mode

  lemma PairedFront(a: seq<Line>, b: seq<Line>, eq: Comp, n: nat)
    requires n <= |a| && n <= |b| && forall k :: 0 <= k < n ==> eq(a[k], b[k])
    ensures Paired(a, b, eq, 0, 0, n)
  {
    PairedIs(a, b, eq, 0, 0, n);
  }

  lemma PairedUp(a: seq<Line>, b: seq<Line>, eq: Comp, i: nat)
    requires i <= |b| && |a| == |b| + 1 && forall k :: i <= k < |b| ==> eq(a[k + 1], b[k])
    ensures Paired(a, b, eq, i + 1, i, |b| - i)
  {
    forall x | i + 1 <= x < |a| ensures eq(a[x], b[x - 1]) {
      var k := x - 1;
      assert eq(a[k + 1], b[k]);
    }
    PairedIs(a, b, eq, i + 1, i, |b| - i);
  }

  lemma PairedDown(a: seq<Line>, b: seq<Line>, eq: Comp, i: nat)
    requires i <= |a| && |b| == |a| + 1 && forall k :: i <= k < |a| ==> eq(a[k], b[k + 1])
    ensures Paired(a, b, eq, i, i + 1, |a| - i)
  {
    PairedIs(a, b, eq, i, i + 1, |a| - i);
  }

  // The first position from p on where the line differs from the one behind it; the end if there is none.
  function Differs(a: seq<Line>, p: nat): (i: nat)
    requires p < |a|
    ensures p <= i < |a| && (forall k :: p <= k <= i ==> a[k] == a[p]) && (i + 1 < |a| ==> a[i] != a[i + 1])
    decreases |a| - p
  {
    if p + 1 < |a| && a[p] == a[p + 1] then Differs(a, p + 1) else p
  }

  // b is a without its line p.
  ghost predicate Without(a: seq<Line>, b: seq<Line>, p: nat) {
    && p < |a| == |b| + 1
    && (forall k :: 0 <= k < p ==> b[k] == a[k]) && forall k :: p <= k < |b| ==> b[k] == a[k + 1]
  }

  lemma OutBehindRepeats(a: seq<Line>, b: seq<Line>, p: nat)
    requires Without(a, b, p)
    ensures var i := Differs(a, p); |a| == |b| + 1 && a[i] == a[p] && if i < |b| then BlockOut(a, b, Same(), i, 1) else Paired(a, b, Same(), 0, 0, |b|)
  {
    var i := Differs(a, p);
    PairedFront(a, b, Same(), i);
    if i < |b| { PairedUp(a, b, Same(), i); }
  }

  lemma InBehindRepeats(a: seq<Line>, b: seq<Line>, p: nat)
    requires Without(b, a, p)
    ensures var i := Differs(b, p); |b| == |a| + 1 && b[i] == b[p] && if i < |a| then BlockIn(a, b, Same(), i, 1) else Paired(a, b, Same(), 0, 0, |a|)
  {
    var i := Differs(b, p);
    PairedFront(a, b, Same(), i);
    if i < |a| { PairedDown(a, b, Same(), i); }
  }

  /** Outside regex mode: a line deleted anywhere is exactly one record, which quotes that line. */
  lemma OneLineDeleted(a: seq<Line>, b: seq<Line>, p: nat)
    requires Without(a, b, p)
    ensures Script(a, b, Same(), a, Heuristic(a, b, Same())) == [Del(Differs(a, p) + 1, a[p])]
  {
    hide Script, Heuristic, Without, BlockOut, Paired, Same;
    OutBehindRepeats(a, b, p);
    OutIsOneRecord(a, b, Differs(a, p));
  }

  lemma OutIsOneRecord(a: seq<Line>, b: seq<Line>, i: nat)
    requires i < |a| == |b| + 1 && if i < |b| then BlockOut(a, b, Same(), i, 1) else Paired(a, b, Same(), 0, 0, |b|)
    ensures Script(a, b, Same(), a, Heuristic(a, b, Same())) == [Del(i + 1, a[i])]
  {
    hide *;
    if i < |b| {
      MissingBlockIsItsLines(a, b, Same(), a, i, 1);
      OneDel(a, i);
    } else {
      LastLineOut(a, b, Heuristic(a, b, Same()));
    }
  }

  lemma OneDel(w: seq<Line>, i: nat)
    requires i < |w|
    ensures TailDels(w, i, i + 1) == [Del(i + 1, w[i])]
  {
    assert TailDels(w, i + 1, i + 1) == [];
  }

  lemma OneAdd(b: seq<Line>, i: nat)
    requires i < |b|
    ensures BlockAdds(b, i, i + 1) == [Add(i + 1, b[i])]
  {
    assert BlockAdds(b, i + 1, i + 1) == [];
  }

  lemma LastLineOut(a: seq<Line>, b: seq<Line>, counts: Oracle)
    requires |a| == |b| + 1 && Paired(a, b, Same(), 0, 0, |b|)
    ensures Script(a, b, Same(), a, counts) == [Del(|b| + 1, a[|b|])]
  {
    WalkPasses(a, b, Same(), a, counts, 0, 0, |b|);
    WalkAtEnd(a, b, Same(), a, counts, |b|, |b|);
    hide Walk, Paired;
    assert TailDels(a, |b|, |a|) == [Del(|b| + 1, a[|b|])] + TailDels(a, |a|, |a|);
  }

  /** And so is a line inserted anywhere. */
  lemma OneLineInserted(a: seq<Line>, b: seq<Line>, p: nat)
    requires Without(b, a, p)
    ensures Script(a, b, Same(), a, Heuristic(a, b, Same())) == [Add(Differs(b, p) + 1, b[p])]
  {
    hide Script, Heuristic, Without, BlockIn, Paired, Same;
    InBehindRepeats(a, b, p);
    InIsOneRecord(a, b, Differs(b, p));
  }

  lemma InIsOneRecord(a: seq<Line>, b: seq<Line>, i: nat)
    requires i < |b| == |a| + 1 && if i < |a| then BlockIn(a, b, Same(), i, 1) else Paired(a, b, Same(), 0, 0, |a|)
    ensures Script(a, b, Same(), a, Heuristic(a, b, Same())) == [Add(i + 1, b[i])]
  {
    hide *;
    if i < |a| {
      NewBlockIsItsLines(a, b, Same(), a, i, 1);
      OneAdd(b, i);
    } else {
      LastLineIn(a, b, Heuristic(a, b, Same()));
    }
  }

  lemma LastLineIn(a: seq<Line>, b: seq<Line>, counts: Oracle)
    requires |b| == |a| + 1 && Paired(a, b, Same(), 0, 0, |a|)
    ensures Script(a, b, Same(), a, counts) == [Add(|a| + 1, b[|a|])]
  {
    WalkPasses(a, b, Same(), a, counts, 0, 0, |a|);
    WalkAtEnd(a, b, Same(), a, counts, |a|, |a|);
    hide Walk, Paired;
    assert TailAdds(b, |a|) == [Add(|a| + 1, b[|a|])] + TailAdds(b, |b|);
  }
}
