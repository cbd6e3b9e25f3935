/**
 * The sample sequences that drive day and year averaging in Shady
 * Business: bisection of an interval, round after round, yielding first
 * the two ends and then, each round, the midpoints that round inserts.
 */
module Refiners {

  function Pow2(n: nat): (p: nat)
    ensures p >= 1
  {
    if n == 0 then 1 else 2 * Pow2(n - 1)
  }

  lemma {:induction false} Pow2Exceeds(n: nat)
    ensures Pow2(n) >= n
  {
    if n > 0 {
      Pow2Exceeds(n - 1);
    }
  }

  function Mid(a: real, b: real): real {
    0.5 * (a + b)
  }

  /**
   * One refinement of the working list: its entries in order, each
   * followed by the midpoint with the next one, so n entries become 2n - 1.
   */
  function Refined(next: seq<real>): (r: seq<real>)
    requires |next| >= 1
    ensures |r| == 2 * |next| - 1
    ensures forall i :: 0 <= i < |next| ==> r[2 * i] == next[i]
    ensures forall i :: 0 <= i < |next| - 1 ==> r[2 * i + 1] == Mid(next[i], next[i + 1])
  {
    if |next| == 1 then next
    else
      var rest := Refined(next[1..]);
      assert forall i :: 1 <= i < |next| ==> next[1..][i - 1] == next[i];
      [next[0], Mid(next[0], next[1])] + rest
  }

  /** The loop that builds `refined` from `next`. */
  method RefineStep(next: seq<real>) returns (refined: seq<real>)
    requires |next| >= 1
    ensures refined == Refined(next)
  {
    ghost var whole := Refined(next);
    refined := [];
    for i := 0 to |next| - 1
      invariant refined == whole[..2 * i]
    {
      refined := refined + [next[i]];
      refined := refined + [Mid(next[i], next[i + 1])];
      assert whole[..2 * i + 2] == whole[..2 * i] + [whole[2 * i], whole[2 * i + 1]];
    }
    refined := refined + [next[|next| - 1]];
    assert whole == whole[..2 * |next| - 2] + [whole[2 * |next| - 2]];
  }

  /** The working list in round `r`: [start, mid, stop] refined r times. */
  function Level(start: real, stop: real, r: nat): (l: seq<real>)
    ensures |l| == Pow2(r + 1) + 1
  {
    if r == 0 then [start, Mid(start, stop), stop] else Refined(Level(start, stop, r - 1))
  }

  /** The entries at odd positions: what one round of `refine` yields. */
  function Odds(s: seq<real>): (o: seq<real>)
    ensures |o| == |s| / 2
    ensures forall j :: 0 <= j < |o| ==> o[j] == s[2 * j + 1]
  {
    seq(|s| / 2, j requires 0 <= j < |s| / 2 => s[2 * j + 1])
  }

  /** Everything `refine(start, stop)` yields before round `rounds` begins. */
  function Yields(start: real, stop: real, rounds: nat): (y: seq<real>)
    ensures |y| == Pow2(rounds) + 1
  {
    if rounds == 0 then [start, stop]
    else
      var l := Level(start, stop, rounds - 1);
      assert |l| / 2 == Pow2(rounds - 1);
      Yields(start, stop, rounds - 1) + Odds(l)
  }

  /** The k-th value `refine(start, stop)` yields, counting from 0. */
  function Nth(start: real, stop: real, k: nat): real {
    Pow2Exceeds(k);
    Yields(start, stop, k)[k]
  }

  /** Later rounds only add to what earlier rounds yielded. */
  lemma {:induction false} YieldsPrefix(start: real, stop: real, r1: nat, r2: nat)
    requires r1 <= r2
    ensures |Yields(start, stop, r1)| <= |Yields(start, stop, r2)|
    ensures Yields(start, stop, r2)[..|Yields(start, stop, r1)|] == Yields(start, stop, r1)
  {
    if r1 < r2 {
      YieldsPrefix(start, stop, r1, r2 - 1);
      var y := Yields(start, stop, r2 - 1);
      PrefixOfAppend(y, Odds(Level(start, stop, r2 - 1)));
      PrefixTransitive(Yields(start, stop, r1), y, Yields(start, stop, r2));
    }
  }

  lemma PrefixOfAppend<T>(a: seq<T>, b: seq<T>)
    ensures (a + b)[..|a|] == a
  {
  }

  lemma PrefixTransitive<T>(a: seq<T>, b: seq<T>, c: seq<T>)
    requires |a| <= |b| <= |c| && a == b[..|a|] && b == c[..|b|]
    ensures a == c[..|a|]
  {
    assert c[..|a|] == c[..|b|][..|a|];
  }

  /** `refine` yields `start`, then `stop`, before anything else. */
  lemma YieldsStartStop(start: real, stop: real, rounds: nat)
    ensures Yields(start, stop, rounds)[0] == start && Yields(start, stop, rounds)[1] == stop
  {
    YieldsPrefix(start, stop, 0, rounds);
  }

  lemma NthStartStop(start: real, stop: real)
    ensures Nth(start, stop, 0) == start && Nth(start, stop, 1) == stop
  {
    YieldsStartStop(start, stop, 1);
  }

  /** A prefix of what the rounds so far yield is the first samples `refine` yields. */
  lemma YieldsPrefixNth(start: real, stop: real, rounds: nat, out: seq<real>)
    requires |out| <= |Yields(start, stop, rounds)| && out == Yields(start, stop, rounds)[..|out|]
    ensures forall k :: 0 <= k < |out| ==> out[k] == Nth(start, stop, k)
  {
    forall k | 0 <= k < |out| ensures out[k] == Nth(start, stop, k) {
      NthFromYields(start, stop, rounds, k);
    }
  }

  /** Any round long enough gives the same k-th value. */
  lemma NthFromYields(start: real, stop: real, rounds: nat, k: nat)
    requires k < |Yields(start, stop, rounds)|
    ensures Nth(start, stop, k) == Yields(start, stop, rounds)[k]
  {
    Pow2Exceeds(k);
    if rounds <= k {
      YieldsPrefix(start, stop, rounds, k);
    } else {
      YieldsPrefix(start, stop, k, rounds);
    }
  }

  /**
   * A refinement keeps the first and last entries and keeps the old list
   * at the even positions: the odd positions are all it adds.
   */
  lemma RefinedProps(next: seq<real>)
    requires |next| >= 1
    ensures Refined(next)[0] == next[0] && Refined(next)[|Refined(next)| - 1] == next[|next| - 1]
    ensures seq(|next|, i requires 0 <= i < |next| => Refined(next)[2 * i]) == next
  {
    var r := Refined(next);
    assert r[2 * (|next| - 1)] == next[|next| - 1];
  }

  /** Every value between `lo` and `hi`. */
  predicate Within(s: seq<real>, lo: real, hi: real) {
    forall k :: 0 <= k < |s| ==> lo <= s[k] <= hi
  }

  predicate Sorted(s: seq<real>) {
    forall i, j :: 0 <= i < j < |s| ==> s[i] <= s[j]
  }

  /** The spacing of the grid in round `r`: half the interval, halved every round. */
  function GridStep(start: real, stop: real, r: nat): real {
    if r == 0 then 0.5 * (stop - start) else 0.5 * GridStep(start, stop, r - 1)
  }

  /** Point m of the grid from `start` with spacing `step`: start + m * step, built by adding. */
  function GridPoint(start: real, step: real, m: nat): real {
    if m == 0 then start else GridPoint(start, step, m - 1) + step
  }

  lemma {:induction false} GridPointIsProduct(start: real, step: real, m: nat)
    ensures GridPoint(start, step, m) == start + (m as real) * step
  {
    if m > 0 {
      GridPointIsProduct(start, step, m - 1);
      assert (m as real) * step == ((m - 1) as real) * step + step;
    }
  }

  /** Point i of a grid is point 2i of the grid with half the spacing. */
  lemma {:induction false} GridPointHalf(start: real, step: real, i: nat)
    ensures GridPoint(start, 2.0 * step, i) == GridPoint(start, step, 2 * i)
  {
    if i > 0 {
      GridPointHalf(start, step, i - 1);
    }
  }

  lemma {:induction false} GridPointMono(start: real, step: real, i: nat, j: nat)
    requires i <= j && step >= 0.0
    ensures GridPoint(start, step, i) <= GridPoint(start, step, j)
  {
    if i < j {
      GridPointMono(start, step, i, j - 1);
    }
  }

  /** 2^(r+1) steps of round r span the interval. */
  lemma {:induction false} GridSpans(start: real, stop: real, r: nat)
    ensures GridPoint(start, GridStep(start, stop, r), Pow2(r + 1)) == stop
  {
    var step := GridStep(start, stop, r);
    if r == 0 {
      assert GridPoint(start, step, 1) == start + step;
      assert GridPoint(start, step, 2) == start + step + step;
    } else {
      GridSpans(start, stop, r - 1);
      assert GridStep(start, stop, r - 1) == 2.0 * step;
      GridPointHalf(start, step, Pow2(r));
    }
  }

  lemma MidOfGrid(a: real, step: real)
    ensures Mid(a, a + step + step) == a + step
  {
  }

  /** A list on the grid of spacing 2 * step refines to the grid of spacing step. */
  lemma RefinedGridAt(prev: seq<real>, start: real, step: real, m: nat)
    requires |prev| >= 1
    requires forall i :: 0 <= i < |prev| ==> prev[i] == GridPoint(start, 2.0 * step, i)
    requires m < 2 * |prev| - 1
    ensures Refined(prev)[m] == GridPoint(start, step, m)
  {
    var i := m / 2;
    GridPointHalf(start, step, i);
    if m % 2 == 0 {
      assert m == 2 * i;
    } else {
      assert m == 2 * i + 1;
      assert Refined(prev)[m] == Mid(prev[i], prev[i + 1]);
      GridPointHalf(start, step, i + 1);
      var a := GridPoint(start, step, 2 * i);
      var b := GridPoint(start, step, 2 * i + 1);
      assert b == a + step;
      assert GridPoint(start, step, 2 * i + 2) == b + step;
      MidOfGrid(a, step);
    }
  }

  /** Round 0, [start, mid, stop], is the grid of spacing (stop - start) / 2. */
  lemma LevelGridFirst(start: real, stop: real, m: nat)
    requires m < 3
    ensures Level(start, stop, 0)[m] == GridPoint(start, GridStep(start, stop, 0), m)
  {
    var step := GridStep(start, stop, 0);
    assert GridPoint(start, step, 1) == start + step;
    assert GridPoint(start, step, 2) == start + step + step;
    assert Level(start, stop, 0) == [start, start + step, start + step + step];
  }

  /**
   * The dyadic grid: entry m of round r is point m of the grid from start
   * with spacing (stop - start) / 2^(r+1).
   */
  lemma {:induction false} LevelGrid(start: real, stop: real, r: nat, m: nat)
    requires m < |Level(start, stop, r)|
    ensures Level(start, stop, r)[m] == GridPoint(start, GridStep(start, stop, r), m)
  {
    if r == 0 {
      LevelGridFirst(start, stop, m);
    } else {
      var prev := Level(start, stop, r - 1);
      forall i | 0 <= i < |prev| ensures prev[i] == GridPoint(start, GridStep(start, stop, r - 1), i) {
        LevelGrid(start, stop, r - 1, i);
      }
      LevelGridNext(start, stop, r, prev, m);
    }
  }

  /** If round r - 1 lies on its grid, round r lies on the grid of half the spacing. */
  lemma LevelGridNext(start: real, stop: real, r: nat, prev: seq<real>, m: nat)
    requires r > 0 && prev == Level(start, stop, r - 1) && m < |Level(start, stop, r)|
    requires forall i :: 0 <= i < |prev| ==> prev[i] == GridPoint(start, GridStep(start, stop, r - 1), i)
    ensures Level(start, stop, r)[m] == GridPoint(start, GridStep(start, stop, r), m)
  {
    var step := GridStep(start, stop, r);
    assert GridStep(start, stop, r - 1) == 2.0 * step;
    RefinedGridAt(prev, start, step, m);
  }

  /** The spacing of round r is (stop - start) / 2^(r+1). */
  lemma {:induction false} GridStepValue(start: real, stop: real, r: nat)
    ensures (Pow2(r + 1) as real) * GridStep(start, stop, r) == stop - start
  {
    GridSpans(start, stop, r);
    GridPointIsProduct(start, GridStep(start, stop, r), Pow2(r + 1));
  }

  lemma {:induction false} GridStepNonNegative(start: real, stop: real, r: nat)
    requires start <= stop
    ensures GridStep(start, stop, r) >= 0.0
  {
    if r > 0 {
      GridStepNonNegative(start, stop, r - 1);
    }
  }

  /** For start <= stop the working list is sorted, runs from start to stop, and stays within them. */
  lemma LevelSorted(start: real, stop: real, r: nat)
    requires start <= stop
    ensures var l := Level(start, stop, r);
      l[0] == start && l[|l| - 1] == stop && Within(l, start, stop) && Sorted(l)
  {
    var l := Level(start, stop, r);
    var step := GridStep(start, stop, r);
    var p := Pow2(r + 1);
    GridStepNonNegative(start, stop, r);
    GridSpans(start, stop, r);
    LevelGrid(start, stop, r, 0);
    LevelGrid(start, stop, r, p);
    forall i, j | 0 <= i < j < |l| ensures l[i] <= l[j] {
      LevelGrid(start, stop, r, i);
      LevelGrid(start, stop, r, j);
      GridPointMono(start, step, i, j);
    }
    forall k | 0 <= k < |l| ensures start <= l[k] <= stop {
      LevelGrid(start, stop, r, k);
      GridPointMono(start, step, 0, k);
      GridPointMono(start, step, k, p);
    }
  }

  /** For start <= stop, every value `refine` yields lies in [start, stop]. */
  lemma {:induction false} YieldsWithin(start: real, stop: real, rounds: nat)
    requires start <= stop
    ensures Within(Yields(start, stop, rounds), start, stop)
  {
    if rounds > 0 {
      YieldsWithin(start, stop, rounds - 1);
      var l := Level(start, stop, rounds - 1);
      LevelWithin(start, stop, rounds - 1);
      OddsWithin(l, start, stop);
      WithinAppend(Yields(start, stop, rounds - 1), Odds(l), start, stop);
    }
  }

  lemma LevelWithin(start: real, stop: real, r: nat)
    requires start <= stop
    ensures Within(Level(start, stop, r), start, stop)
  {
    LevelSorted(start, stop, r);
  }

  lemma OddsWithin(l: seq<real>, lo: real, hi: real)
    requires Within(l, lo, hi)
    ensures Within(Odds(l), lo, hi)
  {
  }

  lemma WithinAppend(a: seq<real>, b: seq<real>, lo: real, hi: real)
    requires Within(a, lo, hi) && Within(b, lo, hi)
    ensures Within(a + b, lo, hi)
  {
    forall k | 0 <= k < |a + b| ensures lo <= (a + b)[k] <= hi {
      if k >= |a| {
        assert (a + b)[k] == b[k - |a|];
      }
    }
  }

  lemma NthWithin(start: real, stop: real, k: nat)
    requires start <= stop
    ensures start <= Nth(start, stop, k) <= stop
  {
    Pow2Exceeds(k);
    YieldsWithin(start, stop, k);
  }

  function Min(a: nat, b: nat): nat {
    if a <= b then a else b
  }

  /**
   * The inner loop of one round: yield the entries at odd positions, the
   * caller stopping after `want` of them.
   */
  method TakeOdds(next: seq<real>, want: nat) returns (taken: seq<real>)
    ensures taken == Odds(next)[..Min(want, |next| / 2)]
  {
    taken := [];
    var i := 1;
    ghost var j := 0;
    while i < |next| && |taken| < want
      invariant i == 2 * j + 1 && 0 <= j <= |next| / 2 && j <= want
      invariant taken == Odds(next)[..j]
      decreases |next| - i
    {
      assert Odds(next)[..j + 1] == Odds(next)[..j] + [next[i]];
      taken := taken + [next[i]];
      i := i + 2;
      j := j + 1;
    }
  }

  /** Part of round r's yield extends what earlier rounds yielded to a prefix of the next. */
  lemma YieldsExtend(start: real, stop: real, r: nat, m: nat)
    requires m <= |Level(start, stop, r)| / 2
    ensures Yields(start, stop, r) + Odds(Level(start, stop, r))[..m]
         == Yields(start, stop, r + 1)[..|Yields(start, stop, r)| + m]
  {
    var y := Yields(start, stop, r);
    var o := Odds(Level(start, stop, r));
    assert Yields(start, stop, r + 1) == y + o;
    assert (y + o)[..|y| + m] == y + o[..m];
  }

  /**
   * After round r's yield, taken up to `count` values in all, the output is a
   * prefix of the next round's yields, and all of them unless `count` was reached.
   */
  lemma YieldsRound(start: real, stop: real, r: nat, count: nat, out: seq<real>, taken: seq<real>)
    requires out == Yields(start, stop, r) && |out| < count
    requires taken == Odds(Level(start, stop, r))[..Min(count - |out|, |Level(start, stop, r)| / 2)]
    ensures var after := Yields(start, stop, r + 1);
      |out + taken| <= count && |out + taken| <= |after| && out + taken == after[..|out + taken|] &&
      (|out + taken| < count ==> out + taken == after)
  {
    YieldsExtend(start, stop, r, |taken|);
    var after := Yields(start, stop, r + 1);
    assert |out + taken| < count ==> out + taken == after[..|after|] == after;
  }

  /**
   * The generator `refine(start, stop)` pulled `count` times: the two ends,
   * then round by round the odd entries of the working list, refining it
   * after each round.
   */
  method Refine(start: real, stop: real, count: nat) returns (out: seq<real>)
    ensures |out| == count
    ensures forall k :: 0 <= k < count ==> out[k] == Nth(start, stop, k)
  {
    var next := [start, Mid(start, stop), stop];
    out := [];
    if count >= 1 {
      out := out + [start];
    }
    if count >= 2 {
      out := out + [stop];
    }
    out := RefineRounds(start, stop, count, next, out);
  }

  /**
   * The rounds of `refine`, from the working list [start, mid, stop] and the
   * two ends already pulled, until `count` values have been pulled.
   */
  method RefineRounds(start: real, stop: real, count: nat, next0: seq<real>, out0: seq<real>) returns (out: seq<real>)
    requires next0 == Level(start, stop, 0)
    requires |out0| == if count < 2 then count else 2
    requires out0 == Yields(start, stop, 0)[..|out0|]
    ensures |out| == count
    ensures forall k :: 0 <= k < count ==> out[k] == Nth(start, stop, k)
  {
    var next := next0;
    out := out0;
    var round := 0;
    assert |Yields(start, stop, 0)| == 2;
    while |out| < count
      invariant |out| <= count
      invariant next == Level(start, stop, round)
      invariant |out| < count ==> out == Yields(start, stop, round)
      invariant |out| <= |Yields(start, stop, round)|
      invariant out == Yields(start, stop, round)[..|out|]
      decreases count - |out|
    {
      out, next := RefineRound(start, stop, count, round, next, out);
      round := round + 1;
    }
    assert |out| == count;
    YieldsPrefixNth(start, stop, round, out);
  }

  /** One round: pull the odd entries that are still wanted, then refine the working list. */
  method RefineRound(start: real, stop: real, count: nat, round: nat, next: seq<real>, out: seq<real>)
    returns (out': seq<real>, next': seq<real>)
    requires next == Level(start, stop, round)
    requires |out| < count && out == Yields(start, stop, round)
    ensures |out| < |out'| <= count
    ensures next' == Level(start, stop, round + 1)
    ensures |out'| < count ==> out' == Yields(start, stop, round + 1)
    ensures |out'| <= |Yields(start, stop, round + 1)|
    ensures out' == Yields(start, stop, round + 1)[..|out'|]
  {
    var taken := TakeOdds(next, count - |out|);
    YieldsRound(start, stop, round, count, out, taken);
    out' := out + taken;
    next' := RefineStep(next);
  }

  // ---------------------------------------------------------------------
  // Day and year refiners

  /** The sun parameters; the refiners set the hour and, for a year, the day. */
  datatype SunParams = SunParams(dayOfYear: real, hourOfDay: real, minOfHour: real, secOfMin: real,
                                 latDeg: real, longDeg: real)

  /** One yielded step: the parameters to render, the step index and the requested number of steps. */
  datatype Step = Step(sunParams: SunParams, i: int, numIter: int)

  datatype Kind = Day | Year

  /** The interval a refiner bisects: the hours of a day or the days of a year. */
  function Span(kind: Kind): real {
    match kind
    case Day => 24.0
    case Year => 364.0
  }

  /** `Math.floor`. */
  function Floor(v: real): (f: real)
    ensures f <= v < f + 1.0
  {
    v.Floor as real
  }

  /** The parameters for sample value `v`. */
  function Place(sun: SunParams, kind: Kind, v: real): SunParams {
    match kind
    case Day => sun.(hourOfDay := v)
    case Year => sun.(dayOfYear := Floor(v), hourOfDay := 24.0 * (v - Floor(v)))
  }

  /** The loop stops once `i > numIter`: numIter + 1 steps, none for a negative numIter. */
  function StepCount(numIter: int): nat {
    if numIter >= 0 then numIter + 1 else 0
  }

  /** The steps `dayRefiner` / `yearRefiner` yield. */
  function Steps(sun: SunParams, numIter: int, kind: Kind): (steps: seq<Step>)
    ensures |steps| == StepCount(numIter)
    ensures forall k :: 0 <= k < |steps| ==> steps[k].i == k && steps[k].numIter == numIter
  {
    seq(StepCount(numIter), k requires 0 <= k => Step(Place(sun, kind, Nth(0.0, Span(kind), k)), k, numIter))
  }

  /** The refiner loop: pull samples, stop once `i > numIter`, yield one step per sample. */
  method Refiner(sun: SunParams, numIter: int, kind: Kind) returns (steps: seq<Step>)
    ensures steps == Steps(sun, numIter, kind)
  {
    var samples := Refine(0.0, Span(kind), StepCount(numIter));
    steps := [];
    var i := 0;
    while i < |samples|
      invariant 0 <= i <= |samples|
      invariant steps == Steps(sun, numIter, kind)[..i]
    {
      if i > numIter {
        break;
      }
      steps := steps + [Step(Place(sun, kind, samples[i]), i, numIter)];
      i := i + 1;
    }
    assert i == |samples|;
  }

  /**
   * `dayRefiner` yields numIter + 1 steps numbered 0 .. numIter, passing
   * numIter through; each changes only the hour, to a value in [0, 24],
   * the first two being 0 and 24.
   */
  lemma DayRefinerProps(sun: SunParams, numIter: int)
    ensures var s := Steps(sun, numIter, Day);
      |s| == (if numIter >= 0 then numIter + 1 else 0) &&
      (forall k :: 0 <= k < |s| ==>
        s[k].i == k && s[k].numIter == numIter &&
        s[k].sunParams == sun.(hourOfDay := s[k].sunParams.hourOfDay) &&
        0.0 <= s[k].sunParams.hourOfDay <= 24.0) &&
      (|s| > 0 ==> s[0].sunParams.hourOfDay == 0.0) &&
      (|s| > 1 ==> s[1].sunParams.hourOfDay == 24.0)
  {
    var s := Steps(sun, numIter, Day);
    forall k | 0 <= k < |s| ensures 0.0 <= s[k].sunParams.hourOfDay <= 24.0 {
      NthWithin(0.0, 24.0, k);
    }
    NthStartStop(0.0, 24.0);
  }

  /**
   * `yearRefiner` sets the day to the sample rounded down and the hour to
   * 24 times the fraction left over, which lies in [0, 24); the other
   * parameters are passed through.
   */
  lemma YearRefinerProps(sun: SunParams, numIter: int)
    ensures var s := Steps(sun, numIter, Year);
      |s| == (if numIter >= 0 then numIter + 1 else 0) &&
      forall k :: 0 <= k < |s| ==>
        var p := s[k].sunParams;
        var day := Nth(0.0, 364.0, k);
        s[k].i == k && s[k].numIter == numIter &&
        p.dayOfYear == Floor(day) && p.hourOfDay == 24.0 * (day - Floor(day)) &&
        0.0 <= p.hourOfDay < 24.0 && 0.0 <= p.dayOfYear <= 364.0 &&
        p.minOfHour == sun.minOfHour && p.secOfMin == sun.secOfMin &&
        p.latDeg == sun.latDeg && p.longDeg == sun.longDeg
  {
    var s := Steps(sun, numIter, Year);
    forall k | 0 <= k < |s| ensures 0.0 <= s[k].sunParams.dayOfYear <= 364.0 {
      NthWithin(0.0, 364.0, k);
    }
  }
}
