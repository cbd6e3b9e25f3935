/**
 * The figure list of MaTSlab: figures are numbered, added with the next
 * free number, removed by number, and plotting to a number either adds a
 * figure or replaces the data of the existing one.
 */
module UseFigs {
  import opened Wrappers

  /** One plotted trace; styling fields are not modelled. */
  datatype Trace = Trace(x: seq<real>, y: seq<real>)

  /**
   * A figure: its number, its data (null until first plotted) and whether
   * an `onAfterPlot` callback is pending.
   */
  datatype Fig = Fig(figNum: int, data: Option<seq<Trace>>, afterPlot: bool)

  function FigNums(figs: seq<Fig>): (r: seq<int>)
    ensures |r| == |figs| && forall i :: 0 <= i < |figs| ==> r[i] == figs[i].figNum
  {
    seq(|figs|, i requires 0 <= i < |figs| => figs[i].figNum)
  }

  predicate HasFig(figs: seq<Fig>, n: int) {
    exists i :: 0 <= i < |figs| && figs[i].figNum == n
  }

  /** No two figures share a number. */
  predicate DistinctNums(figs: seq<Fig>) {
    forall i, j :: 0 <= i < j < |figs| ==> figs[i].figNum != figs[j].figNum
  }

  /** `figs.reduce((acc, curr) => Math.max(curr.figNum, acc), acc)`. */
  function MaxFrom(figs: seq<Fig>, acc: int): (m: int)
    ensures m >= acc && forall i :: 0 <= i < |figs| ==> m >= figs[i].figNum
    ensures m == acc || exists i :: 0 <= i < |figs| && m == figs[i].figNum
  {
    if |figs| == 0 then acc
    else
      var m := MaxFrom(figs[1..], if figs[0].figNum > acc then figs[0].figNum else acc);
      assert forall i :: 0 < i < |figs| ==> figs[i] == figs[1..][i - 1];
      m
  }

  /**
   * `addFig`: one more than the largest number in use (at least 1), and the
   * list with a new figure under that number with no data appended.
   */
  function AddFig(figs: seq<Fig>): (r: (seq<Fig>, int))
    ensures r.1 >= 1 && !HasFig(figs, r.1)
    ensures |figs| == 0 ==> r.1 == 1
    ensures r.0 == figs + [Fig(r.1, None, false)]
  {
    var maxFigNum := MaxFrom(figs, 0);
    (figs + [Fig(maxFigNum + 1, None, false)], maxFigNum + 1)
  }

  /** The number `addFig` picks is the least one above every number in use and above 0. */
  lemma AddFigIsLeastAbove(figs: seq<Fig>, n: int)
    requires n >= 1 && forall i :: 0 <= i < |figs| ==> figs[i].figNum < n
    ensures AddFig(figs).1 <= n
  {
  }

  /** Adding a figure keeps the numbers distinct. */
  lemma AddFigDistinct(figs: seq<Fig>)
    requires DistinctNums(figs)
    ensures DistinctNums(AddFig(figs).0)
  {
    var r := AddFig(figs);
    assert forall i :: 0 <= i < |figs| ==> r.0[i] == figs[i];
  }

  /** `removeFig`: the figures with another number, in order. */
  function RemoveFig(figs: seq<Fig>, n: int): (r: seq<Fig>)
    ensures |r| <= |figs|
  {
    if |figs| == 0 then []
    else (if figs[0].figNum == n then [] else [figs[0]]) + RemoveFig(figs[1..], n)
  }

  /** The figures kept are exactly those of the list with another number. */
  lemma {:induction false} RemoveFigMembers(figs: seq<Fig>, n: int)
    ensures forall f :: f in RemoveFig(figs, n) <==> f in figs && f.figNum != n
  {
    if |figs| > 0 {
      RemoveFigMembers(figs[1..], n);
      assert figs == [figs[0]] + figs[1..];
    }
  }

  /** Removing a number that is not in use changes nothing. */
  lemma {:induction false} RemoveFigAbsent(figs: seq<Fig>, n: int)
    requires !HasFig(figs, n)
    ensures RemoveFig(figs, n) == figs
  {
    if |figs| > 0 {
      assert figs[0].figNum != n;
      assert !HasFig(figs[1..], n) by {
        forall i | 0 <= i < |figs[1..]| ensures figs[1..][i].figNum != n { assert figs[1..][i] == figs[i + 1]; }
      }
      RemoveFigAbsent(figs[1..], n);
      assert figs == [figs[0]] + figs[1..];
    }
  }

  /** After removing a number it is gone, so removing it again changes nothing. */
  lemma RemoveFigIdempotent(figs: seq<Fig>, n: int)
    ensures !HasFig(RemoveFig(figs, n), n)
    ensures RemoveFig(RemoveFig(figs, n), n) == RemoveFig(figs, n)
  {
    RemoveFigMembers(figs, n);
    var r := RemoveFig(figs, n);
    assert !HasFig(r, n) by {
      forall i | 0 <= i < |r| ensures r[i].figNum != n { assert r[i] in r; }
    }
    RemoveFigAbsent(r, n);
  }

  /** Removing works run by run, so the figures kept stay in their order. */
  lemma {:induction false} RemoveFigAppend(a: seq<Fig>, b: seq<Fig>, n: int)
    ensures RemoveFig(a + b, n) == RemoveFig(a, n) + RemoveFig(b, n)
  {
    if |a| > 0 {
      RemoveFigAppend(a[1..], b, n);
      assert (a + b)[1..] == a[1..] + b;
      var head := if a[0].figNum == n then [] else [a[0]];
      assert RemoveFig(a + b, n) == head + RemoveFig(a[1..] + b, n);
      assert RemoveFig(a, n) == head + RemoveFig(a[1..], n);
    } else {
      assert a + b == b;
    }
  }

  /** The figure list after plotting `data` to an existing number: only that figure changes. */
  function ReplaceData(figs: seq<Fig>, figNum: int, data: seq<Trace>): (r: seq<Fig>)
    ensures |r| == |figs|
    ensures forall i :: 0 <= i < |figs| ==>
      r[i] == if figs[i].figNum == figNum then Fig(figNum, Some(data), true) else figs[i]
  {
    seq(|figs|, i requires 0 <= i < |figs| =>
      if figs[i].figNum == figNum then figs[i].(data := Some(data), afterPlot := true) else figs[i])
  }

  /**
   * The state update of `plotImpl` as written: whether the figure is new is
   * decided on `snapshot`, the list the plotting functions were created
   * with, while the update applies to `current`, the latest list.
   */
  function PlotAsWritten(snapshot: seq<Fig>, current: seq<Fig>, figNum: int, data: seq<Trace>): (r: seq<Fig>)
    ensures !HasFig(snapshot, figNum) ==> r == current + [Fig(figNum, Some(data), true)]
    ensures HasFig(snapshot, figNum) ==> r == ReplaceData(current, figNum, data)
  {
    if !HasFig(snapshot, figNum) then current + [Fig(figNum, Some(data), true)]
    else ReplaceData(current, figNum, data)
  }

  /**
   * Two plots to a new number from the same cell run add two figures with
   * that number: the second call still sees the old snapshot.
   */
  lemma PlotAsWrittenDuplicates(data: seq<Trace>)
    ensures var once := PlotAsWritten([], [], 1, data);
      var twice := PlotAsWritten([], once, 1, data);
      |twice| == 2 && twice[0].figNum == 1 && twice[1].figNum == 1 && !DistinctNums(twice)
  {
  }

  /**
   * Plotting, deciding on the latest list: an unknown number gains one
   * figure holding the data, a known one has its data replaced, and every
   * other figure is left alone.
   */
  function Plot(figs: seq<Fig>, figNum: int, data: seq<Trace>): (r: seq<Fig>)
    ensures HasFig(r, figNum)
    ensures forall i :: 0 <= i < |r| && r[i].figNum == figNum ==> r[i].data == Some(data)
    ensures HasFig(figs, figNum) ==> |r| == |figs|
    ensures !HasFig(figs, figNum) ==> |r| == |figs| + 1
    ensures forall i :: 0 <= i < |figs| && figs[i].figNum != figNum ==> r[i] == figs[i]
  {
    var r := PlotAsWritten(figs, figs, figNum, data);
    assert !HasFig(figs, figNum) ==> r[|figs|].figNum == figNum;
    r
  }

  /** Plotting keeps the figure numbers distinct. */
  lemma PlotProps(figs: seq<Fig>, figNum: int, data: seq<Trace>)
    requires DistinctNums(figs)
    ensures DistinctNums(Plot(figs, figNum, data))
  {
    var r := Plot(figs, figNum, data);
    if !HasFig(figs, figNum) {
      assert r[|figs|].figNum == figNum;
      assert forall i :: 0 <= i < |figs| ==> r[i] == figs[i];
    }
  }

  /** A list of traces that `push` appends to. */
  class TraceList {
    var items: seq<Trace>

    constructor(items: seq<Trace>)
      ensures this.items == items
    {
      this.items := items;
    }

    method Push(data: seq<Trace>)
      modifies this
      ensures items == old(items) + data
    {
      items := items + data;
    }
  }

  /**
   * `plotImpl`: appends the traces to the accumulator when one is given,
   * then computes the new figure list from the snapshot and the latest list.
   */
  method PlotImpl(snapshot: seq<Fig>, current: seq<Fig>, figNum: int, data: seq<Trace>, accumulator: TraceList?)
    returns (figs: seq<Fig>)
    modifies accumulator
    ensures accumulator != null ==> accumulator.items == old(accumulator.items) + data
    ensures figs == PlotAsWritten(snapshot, current, figNum, data)
  {
    if accumulator != null {
      accumulator.Push(data);
    }
    figs := PlotAsWritten(snapshot, current, figNum, data);
  }
}
