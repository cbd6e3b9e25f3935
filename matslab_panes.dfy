/**
 * The MaTSlab figure-pane layout: a tree whose inner nodes split their area
 * between weighted children (`frac`) and whose leaves hold a list of figure
 * numbers with one of them active. The handlers of the pane component edit
 * the tree at an index path and then normalise it.
 *
 * The source edits one mutable object tree in place; here a tree is a value
 * and an edit returns the new tree, which is what the component hands to
 * `onPanesChange`.
 */
module FigurePanes {
  import opened Wrappers

  /** Thrown when a path steps through a leaf. */
  const LackOfArray: string := "Unexpected lack of Array"
  /** Thrown when a path that should end at a leaf ends at a split. */
  const UnexpectedArray: string := "Unexpected Array"
  /** Reading `.pane` or `.frac` of a missing slot: a TypeError in the source. */
  const MissingSlot: string := "TypeError: no pane at this index"

  datatype Direction = H | V

  datatype Leaf = Leaf(figNums: seq<int>, active: Option<int>)

  datatype Content = LeafPane(leaf: Leaf) | PaneArray(items: seq<Item>)

  datatype Item = Item(frac: real, pane: Panes)

  datatype Panes = Panes(split: Direction, panes: Content)

  const EmptyLeaf: Leaf := Leaf([], None)

  // ---------------------------------------------------------------------
  // Figure enumeration
  // ---------------------------------------------------------------------

  function Concat(ss: seq<seq<int>>): (s: seq<int>)
  {
    if |ss| == 0 then [] else ss[0] + Concat(ss[1..])
  }

  lemma {:induction false} ConcatAppend(a: seq<seq<int>>, b: seq<seq<int>>)
    ensures Concat(a + b) == Concat(a) + Concat(b)
  {
    if |a| > 0 {
      assert (a + b)[1..] == a[1..] + b;
      ConcatAppend(a[1..], b);
    } else {
      assert a + b == b;
    }
  }

  lemma {:induction false} ConcatUpdate(ss: seq<seq<int>>, i: int, x: seq<int>)
    requires 0 <= i < |ss|
    ensures multiset(Concat(ss[i := x])) + multiset(ss[i]) == multiset(Concat(ss)) + multiset(x)
  {
    if i > 0 {
      var t := ss[1..];
      var u := ss[i := x];
      assert u[0] == ss[0] && u[1..] == t[i - 1 := x];
      assert ss[i] == t[i - 1];
      ConcatUpdate(t, i - 1, x);
      assert multiset(Concat(u)) == multiset(ss[0]) + multiset(Concat(t[i - 1 := x]));
      assert multiset(Concat(ss)) == multiset(ss[0]) + multiset(Concat(t));
      AddToBoth(multiset(ss[0]), multiset(Concat(t[i - 1 := x])), multiset(ss[i]), multiset(Concat(t)), multiset(x));
    } else {
      assert ss[i := x][1..] == ss[1..];
    }
  }

  /** Adding the same multiset to both sides of an equation of sums keeps it. */
  lemma AddToBoth(h: multiset<int>, a: multiset<int>, c: multiset<int>, b: multiset<int>, d: multiset<int>)
    requires a + c == b + d
    ensures (h + a) + c == (h + b) + d
  {
    assert (h + a) + c == h + (a + c);
    assert (h + b) + d == h + (b + d);
  }

  /** The figure numbers of a tree, leaves left to right: what `enumerateFigs` collects. */
  function Figs(p: Panes): seq<int>
    decreases p
  {
    match p.panes
    case LeafPane(l) => l.figNums
    case PaneArray(items) => Concat(seq(|items|, i requires 0 <= i < |items| => Figs(items[i].pane)))
  }

  /** The figure lists of the children, in order. */
  function FigsList(items: seq<Item>): (fs: seq<seq<int>>)
    ensures |fs| == |items|
  {
    seq(|items|, i requires 0 <= i < |items| => Figs(items[i].pane))
  }

  /** The figure lists of two runs of children, one after the other. */
  lemma FigsListSplit(a: seq<Item>, b: seq<Item>)
    ensures FigsList(a + b) == FigsList(a) + FigsList(b)
  {
    forall i | 0 <= i < |a| + |b|
      ensures FigsList(a + b)[i] == (FigsList(a) + FigsList(b))[i]
    {
      if i >= |a| {
        assert (a + b)[i] == b[i - |a|];
      }
    }
  }

  lemma FigsOfSplit(d: Direction, items: seq<Item>)
    ensures Figs(Panes(d, PaneArray(items))) == Concat(FigsList(items))
  {
    assert seq(|items|, i requires 0 <= i < |items| => Figs(items[i].pane)) == FigsList(items);
  }

  /**
   * `enumerateFigs`: walks the tree, pushing every leaf's figure numbers
   * onto the accumulator.
   */
  method EnumerateFigs(p: Panes, accumulator: seq<int>) returns (acc: seq<int>)
    ensures acc == accumulator + Figs(p)
    decreases p
  {
    match p.panes
    case LeafPane(l) =>
      acc := accumulator + l.figNums;
    case PaneArray(items) =>
      acc := accumulator;
      for i := 0 to |items|
        invariant acc == accumulator + Concat(FigsList(items)[..i])
      {
        acc := EnumerateFigs(items[i].pane, acc);
        ConcatAppend(FigsList(items)[..i], [Figs(items[i].pane)]);
        assert FigsList(items)[..i + 1] == FigsList(items)[..i] + [Figs(items[i].pane)];
        assert Concat([Figs(items[i].pane)]) == Figs(items[i].pane);
      }
      assert FigsList(items)[..|items|] == FigsList(items);
      FigsOfSplit(p.split, items);
  }

  /** The path that takes the first child `n` times. */
  function Zeros(n: nat): (z: seq<int>)
    ensures |z| == n && forall i :: 0 <= i < n ==> z[i] == 0
  {
    seq(n, _ => 0)
  }

  /** How many times the first child can be taken: until a leaf or an empty pane array. */
  function LeftDepth(p: Panes): nat
    decreases p
  {
    match p.panes
    case LeafPane(_) => 0
    case PaneArray(items) => if |items| == 0 then 0 else 1 + LeftDepth(items[0].pane)
  }

  /**
   * `findFirstLeaf`: follows the first child down to a leaf. The all-zeros
   * path of length `LeftDepth(p)` always exists; the result is the leaf it
   * reaches, and the missing-slot error exactly when it ends at an empty
   * pane array instead.
   */
  function FindFirstLeaf(p: Panes): (r: Result<Leaf, string>)
    ensures r.Success? ==> r.value.figNums <= Figs(p)
    ensures r.Failure? ==> r.error == MissingSlot
    ensures Descend(p, Zeros(LeftDepth(p))).Success?
    ensures r.Success? <==> Descend(p, Zeros(LeftDepth(p))).value.panes.LeafPane?
    ensures r.Success? ==> LeafAt(p, Zeros(LeftDepth(p))) == r
    ensures r.Failure? ==> Descend(p, Zeros(LeftDepth(p))).value.panes == PaneArray([])
    decreases p
  {
    match p.panes
    case LeafPane(l) => Success(l)
    case PaneArray(items) =>
      if |items| == 0 then Failure(MissingSlot)
      else
        var r := FindFirstLeaf(items[0].pane);
        FigsOfSplit(p.split, items);
        assert Concat(FigsList(items)) == Figs(items[0].pane) + Concat(FigsList(items)[1..]);
        assert Zeros(LeftDepth(p))[1..] == Zeros(LeftDepth(items[0].pane));
        r
  }

  function Descend(p: Panes, path: seq<int>): (r: Result<Panes, string>)
    ensures r.Failure? ==> r.error == LackOfArray || r.error == MissingSlot
    decreases |path|
  {
    if |path| == 0 then Success(p)
    else
      match p.panes
      case LeafPane(_) => Failure(LackOfArray)
      case PaneArray(items) =>
        if 0 <= path[0] < |items| then Descend(items[path[0]].pane, path[1..]) else Failure(MissingSlot)
  }

  /** A path is followed one index at a time. */
  lemma {:induction false} DescendAppend(p: Panes, path: seq<int>, i: int)
    requires Descend(p, path).Success?
    ensures Descend(p, path + [i]) == Descend(Descend(p, path).value, [i])
    decreases |path|
  {
    if |path| > 0 {
      assert (path + [i])[1..] == path[1..] + [i];
      DescendAppend(p.panes.items[path[0]].pane, path[1..], i);
    } else {
      assert path + [i] == [i];
    }
  }

  /**
   * The navigation loop: `p = p.panes[index].pane` for every index of the
   * path, checking at each step that `p` is a split.
   */
  method Navigate(root: Panes, path: seq<int>) returns (res: Result<Panes, string>)
    ensures res == Descend(root, path)
  {
    var p := root;
    var k := 0;
    while k < |path|
      invariant 0 <= k <= |path|
      invariant Descend(root, path[..k]) == Success(p)
    {
      if p.panes.LeafPane? {
        DescendPrefixFails(root, path, k);
        return Failure(LackOfArray);
      }
      var index := path[k];
      if !(0 <= index < |p.panes.items|) {
        DescendPrefixFails(root, path, k);
        return Failure(MissingSlot);
      }
      DescendAppend(root, path[..k], index);
      assert path[..k + 1] == path[..k] + [index];
      p := p.panes.items[index].pane;
      k := k + 1;
    }
    assert path[..k] == path;
    res := Success(p);
  }

  /** Once a step fails, the rest of the path fails with the same error. */
  lemma {:induction false} DescendPrefixFails(root: Panes, path: seq<int>, k: int)
    requires 0 <= k < |path| && Descend(root, path[..k]).Success?
    requires Descend(Descend(root, path[..k]).value, [path[k]]).Failure?
    ensures Descend(root, path) == Descend(Descend(root, path[..k]).value, [path[k]])
    decreases k
  {
    if k == 0 {
      var items := root.panes;
      assert path[..0] == [];
    } else {
      assert path[..k][1..] == path[1..][..k - 1];
      DescendPrefixFails(root.panes.items[path[0]].pane, path[1..], k - 1);
    }
  }

  /** The tree with the subtree at `path` replaced by `q`. */
  function ReplaceAt(p: Panes, path: seq<int>, q: Panes): Panes
    requires Descend(p, path).Success?
    decreases |path|
  {
    if |path| == 0 then q
    else
      var items := p.panes.items;
      var i := path[0];
      Panes(p.split, PaneArray(items[i := Item(items[i].frac, ReplaceAt(items[i].pane, path[1..], q))]))
  }

  /** After a replacement the path leads to the new subtree. */
  lemma {:induction false} DescendReplace(p: Panes, path: seq<int>, q: Panes)
    requires Descend(p, path).Success?
    ensures Descend(ReplaceAt(p, path, q), path) == Success(q)
    decreases |path|
  {
    if |path| > 0 {
      DescendReplace(p.panes.items[path[0]].pane, path[1..], q);
    }
  }

  /** Replacing a subtree by itself changes nothing. */
  lemma {:induction false} ReplaceSelf(p: Panes, path: seq<int>)
    requires Descend(p, path).Success?
    ensures ReplaceAt(p, path, Descend(p, path).value) == p
    decreases |path|
  {
    if |path| > 0 {
      var items := p.panes.items;
      ReplaceSelf(items[path[0]].pane, path[1..]);
      assert items[path[0] := Item(items[path[0]].frac, items[path[0]].pane)] == items;
    }
  }

  /**
   * Replacing the subtree `o` at `path` by `q` trades o's figures for q's:
   * figures elsewhere in the tree are kept.
   */
  lemma {:induction false} FigsReplace(p: Panes, path: seq<int>, q: Panes)
    requires Descend(p, path).Success?
    ensures multiset(Figs(ReplaceAt(p, path, q))) + multiset(Figs(Descend(p, path).value))
         == multiset(Figs(p)) + multiset(Figs(q))
    decreases |path|
  {
    if |path| > 0 {
      var items := p.panes.items;
      var i := path[0];
      var child := ReplaceAt(items[i].pane, path[1..], q);
      var items' := items[i := Item(items[i].frac, child)];
      FigsReplace(items[i].pane, path[1..], q);
      FigsOfSplit(p.split, items);
      FigsOfSplit(p.split, items');
      assert FigsList(items') == FigsList(items)[i := Figs(child)];
      ConcatUpdate(FigsList(items), i, Figs(child));
      var a := multiset(Figs(ReplaceAt(p, path, q)));
      var b := multiset(Figs(p));
      var c := multiset(Figs(items[i].pane));
      var c' := multiset(Figs(child));
      var o := multiset(Figs(Descend(p, path).value));
      var m := multiset(Figs(q));
      assert a + c == b + c';
      assert c' + o == c + m;
      assert a + o == b + m by {
        forall z ensures (a + o)[z] == (b + m)[z] {
          assert (a + c)[z] == (b + c')[z];
          assert (c' + o)[z] == (c + m)[z];
        }
      }
    }
  }

  // ---------------------------------------------------------------------
  // Leaves at a path
  // ---------------------------------------------------------------------

  /** `getLeaf`: the leaf at the end of a path, or the error the source throws. */
  function LeafAt(root: Panes, path: seq<int>): (r: Result<Leaf, string>)
    ensures r.Success? <==> Descend(root, path).Success? && Descend(root, path).value.panes.LeafPane?
    ensures r.Success? ==> Descend(root, path).value.panes == LeafPane(r.value)
    ensures Descend(root, path).Failure? ==> r.error == Descend(root, path).error
    ensures Descend(root, path).Success? && r.Failure? ==> r.error == UnexpectedArray
  {
    match Descend(root, path)
    case Failure(e) => Failure(e)
    case Success(node) => if node.panes.PaneArray? then Failure(UnexpectedArray) else Success(node.panes.leaf)
  }

  /** `getLeaf` as the source writes it: the navigation loop, then the leaf check. */
  method GetLeaf(root: Panes, path: seq<int>) returns (res: Result<Leaf, string>)
    ensures res == LeafAt(root, path)
  {
    var nav := Navigate(root, path);
    if nav.Failure? {
      return Failure(nav.error);
    }
    var p := nav.value;
    if p.panes.PaneArray? {
      return Failure(UnexpectedArray);
    }
    res := Success(p.panes.leaf);
  }

  /** The tree with the leaf at `path` replaced, keeping that node's `split` tag. */
  function SetLeaf(root: Panes, path: seq<int>, l: Leaf): Panes
    requires LeafAt(root, path).Success?
  {
    ReplaceAt(root, path, Panes(Descend(root, path).value.split, LeafPane(l)))
  }

  /** Setting one leaf moves no path: every other leaf is read back unchanged. */
  lemma {:induction false} LeafAtSetLeaf(root: Panes, path: seq<int>, l: Leaf, other: seq<int>)
    requires LeafAt(root, path).Success? && LeafAt(root, other).Success?
    ensures LeafAt(SetLeaf(root, path, l), other) == (if other == path then Success(l) else LeafAt(root, other))
    decreases |path|
  {
    var node := Panes(Descend(root, path).value.split, LeafPane(l));
    if other == path {
      DescendReplace(root, path, node);
    } else if |path| == 0 {
      assert false;
    } else if |other| == 0 {
      assert false;
    } else {
      var items := root.panes.items;
      var i := path[0];
      var child := items[i].pane;
      if other[0] == i {
        assert path[1..] != other[1..];
        LeafAtSetLeaf(child, path[1..], l, other[1..]);
      }
    }
  }

  /** A replaced subtree that holds the same figures leaves the tree's figures as they were. */
  lemma SetLeafFigs(root: Panes, path: seq<int>, l: Leaf)
    requires LeafAt(root, path).Success?
    ensures multiset(Figs(SetLeaf(root, path, l))) + multiset(LeafAt(root, path).value.figNums)
         == multiset(Figs(root)) + multiset(l.figNums)
  {
    FigsReplace(root, path, Panes(Descend(root, path).value.split, LeafPane(l)));
  }

  // ---------------------------------------------------------------------
  // Fractions
  // ---------------------------------------------------------------------

  /** The children's total fraction, as the `reduce` calls compute it. */
  function SumFracs(items: seq<Item>): real
  {
    if |items| == 0 then 0.0 else items[0].frac + SumFracs(items[1..])
  }

  lemma {:induction false} SumFracsAppend(a: seq<Item>, b: seq<Item>)
    ensures SumFracs(a + b) == SumFracs(a) + SumFracs(b)
  {
    if |a| > 0 {
      assert (a + b)[1..] == a[1..] + b;
      SumFracsAppend(a[1..], b);
    } else {
      assert a + b == b;
    }
  }

  /** Only the fractions enter the total. */
  lemma {:induction false} SumFracsSameFracs(a: seq<Item>, b: seq<Item>)
    requires |a| == |b| && forall i :: 0 <= i < |a| ==> a[i].frac == b[i].frac
    ensures SumFracs(a) == SumFracs(b)
  {
    if |a| > 0 {
      SumFracsSameFracs(a[1..], b[1..]);
    }
  }

  /** Scaling every fraction by `c` scales the total by `c`. */
  lemma {:induction false} SumFracsScaled(a: seq<Item>, b: seq<Item>, c: real)
    requires |a| == |b| && forall i :: 0 <= i < |a| ==> b[i].frac == a[i].frac * c
    ensures SumFracs(b) == SumFracs(a) * c
  {
    if |a| > 0 {
      SumFracsScaled(a[1..], b[1..], c);
    }
  }

  /** Dividing every fraction by `t` divides the total by `t`. */
  lemma {:induction false} SumFracsDivided(a: seq<Item>, b: seq<Item>, t: real)
    requires t != 0.0
    requires |a| == |b| && forall i :: 0 <= i < |a| ==> b[i].frac == a[i].frac / t
    ensures SumFracs(b) == SumFracs(a) / t
  {
    if |a| > 0 {
      SumFracsDivided(a[1..], b[1..], t);
    }
  }

  /**
   * Every split with children has a nonzero total fraction, so that
   * `ensureFill` divides by a nonzero number (a zero total gives NaN
   * fractions in the source).
   */
  ghost predicate Fillable(p: Panes)
    decreases p
  {
    match p.panes
    case LeafPane(_) => true
    case PaneArray(items) =>
      (|items| > 0 ==> SumFracs(items) != 0.0) &&
      forall i :: 0 <= i < |items| ==> Fillable(items[i].pane)
  }

  /** Every split with children has fractions summing to 1. */
  ghost predicate Filled(p: Panes)
    decreases p
  {
    match p.panes
    case LeafPane(_) => true
    case PaneArray(items) =>
      (|items| > 0 ==> SumFracs(items) == 1.0) &&
      forall i :: 0 <= i < |items| ==> Filled(items[i].pane)
  }

  /** No split has exactly one child. */
  ghost predicate NoSingle(p: Panes)
    decreases p
  {
    match p.panes
    case LeafPane(_) => true
    case PaneArray(items) =>
      |items| != 1 && forall i :: 0 <= i < |items| ==> NoSingle(items[i].pane)
  }

  /** Replacing a subtree by a fillable one keeps the tree fillable: no fraction moves. */
  lemma {:induction false} ReplaceFillable(p: Panes, path: seq<int>, q: Panes)
    requires Descend(p, path).Success? && Fillable(p) && Fillable(q)
    ensures Fillable(ReplaceAt(p, path, q))
    decreases |path|
  {
    if |path| > 0 {
      var items := p.panes.items;
      var i := path[0];
      var items' := items[i := Item(items[i].frac, ReplaceAt(items[i].pane, path[1..], q))];
      ReplaceFillable(items[i].pane, path[1..], q);
      SumFracsSameFracs(items, items');
      assert forall j :: 0 <= j < |items'| ==> Fillable(items'[j].pane);
    }
  }

  // ---------------------------------------------------------------------
  // Normalisation passes
  // ---------------------------------------------------------------------

  /**
   * `removeSingle`: at every depth, a split with exactly one child is
   * replaced by that (already normalised) child.
   */
  function RemoveSingle(p: Panes): (r: Panes)
    ensures NoSingle(r)
    decreases p
  {
    match p.panes
    case LeafPane(_) => p
    case PaneArray(items) =>
      var items' := seq(|items|, i requires 0 <= i < |items| => Item(items[i].frac, RemoveSingle(items[i].pane)));
      if |items'| == 1 then items'[0].pane else Panes(p.split, PaneArray(items'))
  }

  /** A tree without single-child splits is left as it is: `removeSingle` is idempotent. */
  lemma {:induction false} RemoveSingleFixes(p: Panes)
    requires NoSingle(p)
    ensures RemoveSingle(p) == p
    decreases p
  {
    match p.panes
    case LeafPane(_) =>
    case PaneArray(items) =>
      forall i | 0 <= i < |items|
        ensures RemoveSingle(items[i].pane) == items[i].pane
      {
        RemoveSingleFixes(items[i].pane);
      }
      var items' := seq(|items|, i requires 0 <= i < |items| => Item(items[i].frac, RemoveSingle(items[i].pane)));
      assert items' == items;
  }

  /** `removeSingle` keeps every figure, in order. */
  lemma {:induction false} RemoveSingleFigs(p: Panes)
    ensures Figs(RemoveSingle(p)) == Figs(p)
    decreases p
  {
    match p.panes
    case LeafPane(_) =>
    case PaneArray(items) =>
      var items' := seq(|items|, i requires 0 <= i < |items| => Item(items[i].frac, RemoveSingle(items[i].pane)));
      forall i | 0 <= i < |items|
        ensures Figs(items'[i].pane) == Figs(items[i].pane)
      {
        RemoveSingleFigs(items[i].pane);
      }
      assert FigsList(items') == FigsList(items);
      FigsOfSplit(p.split, items);
      if |items| == 1 {
        assert Concat(FigsList(items)) == Figs(items[0].pane) + Concat([]);
      } else {
        FigsOfSplit(p.split, items');
      }
  }

  /** `removeSingle` keeps a tree fillable: the surviving splits keep their fractions. */
  lemma {:induction false} RemoveSingleFillable(p: Panes)
    requires Fillable(p)
    ensures Fillable(RemoveSingle(p))
    decreases p
  {
    match p.panes
    case LeafPane(_) =>
    case PaneArray(items) =>
      var items' := seq(|items|, i requires 0 <= i < |items| => Item(items[i].frac, RemoveSingle(items[i].pane)));
      forall i | 0 <= i < |items|
        ensures Fillable(items'[i].pane)
      {
        RemoveSingleFillable(items[i].pane);
      }
      SumFracsSameFracs(items, items');
  }

  /** `isEmpty`: a split with no children. */
  predicate IsEmpty(p: Panes)
  {
    p.panes.PaneArray? && |p.panes.items| == 0
  }

  /** The children that are not empty splits, in order. */
  function Keep(items: seq<Item>): (kept: seq<Item>)
    ensures forall x :: x in kept <==> x in items && !IsEmpty(x.pane)
    ensures |kept| <= |items|
  {
    if |items| == 0 then []
    else (if IsEmpty(items[0].pane) then [] else [items[0]]) + Keep(items[1..])
  }

  /** `filterEmpty`: one level of filtering, dropping the children that are empty splits. */
  function FilterEmpty(p: Panes): (r: Panes)
    ensures r.split == p.split
    ensures r.panes.PaneArray? <==> p.panes.PaneArray?
    ensures r.panes.PaneArray? ==> forall x :: x in r.panes.items <==> x in p.panes.items && !IsEmpty(x.pane)
    ensures p.panes.LeafPane? ==> r == p
  {
    if p.panes.PaneArray? then Panes(p.split, PaneArray(Keep(p.panes.items))) else p
  }

  /**
   * The recursive filter `filterAllEmpty` is meant to be: at every depth,
   * children that are empty splits (before their own children are filtered)
   * are dropped.
   */
  function FilterAll(p: Panes): (r: Panes)
    ensures Figs(r) == Figs(p)
    decreases p
  {
    match p.panes
    case LeafPane(_) => p
    case PaneArray(items) =>
      var kept := Keep(items);
      var kept' := seq(|kept|, i requires 0 <= i < |kept| =>
        Item(kept[i].frac, (assert kept[i] in items; FilterAll(kept[i].pane))));
      assert FigsList(kept') == FigsList(kept);
      FigsOfSplit(p.split, kept');
      FigsOfSplit(p.split, items);
      KeepFigs(items);
      Panes(p.split, PaneArray(kept'))
  }

  /**
   * `filterAllEmpty` as written works through aliasing: it returns a fresh
   * node `thisP` holding the original child entries, and assigns the
   * recursively filtered children to the ORIGINAL node `p`. The recursive
   * calls mutate the child objects that `thisP` still points to. The result
   * is the pair (value returned, new value of `p` itself).
   */
  function FilterAllEmpty(p: Panes): (rm: (Panes, Panes))
    ensures rm == (FilterAll(p), FilterAll(p))
    decreases p
  {
    match p.panes
    case LeafPane(_) => (p, p)
    case PaneArray(items) =>
      var kept := Keep(items);
      var returned := Panes(p.split, PaneArray(seq(|kept|, i requires 0 <= i < |kept| =>
        Item(kept[i].frac, (assert kept[i] in items; FilterAllEmpty(kept[i].pane).1)))));
      var mutated := Panes(p.split, PaneArray(seq(|kept|, i requires 0 <= i < |kept| =>
        Item(kept[i].frac, (assert kept[i] in items; FilterAllEmpty(kept[i].pane).0)))));
      assert FilterAll(p).panes.items == returned.panes.items == mutated.panes.items;
      (returned, mutated)
  }

  lemma {:induction false} KeepFigs(items: seq<Item>)
    ensures Concat(FigsList(Keep(items))) == Concat(FigsList(items))
  {
    if |items| > 0 {
      var head := if IsEmpty(items[0].pane) then [] else [items[0]];
      KeepFigs(items[1..]);
      FigsListSplit(head, Keep(items[1..]));
      ConcatAppend(FigsList(head), FigsList(Keep(items[1..])));
      assert FigsList(items)[1..] == FigsList(items[1..]);
      if IsEmpty(items[0].pane) {
        assert Figs(items[0].pane) == [];
      } else {
        assert Concat(FigsList(head)) == Figs(items[0].pane) + Concat([]);
      }
    }
  }

  /** No child of a filtered split is an empty split of the input. */
  lemma FilterAllDropsEmpty(p: Panes, i: int)
    requires FilterAll(p).panes.PaneArray? && 0 <= i < |FilterAll(p).panes.items|
    ensures exists x :: x in p.panes.items && !IsEmpty(x.pane) && FilterAll(p).panes.items[i] == Item(x.frac, FilterAll(x.pane))
  {
    var kept := Keep(p.panes.items);
    assert kept[i] in kept;
  }

  /**
   * `ensureFill`: every split's child fractions are divided by their total,
   * at every depth.
   */
  function EnsureFill(p: Panes): (r: Panes)
    requires Fillable(p)
    ensures Filled(r)
    ensures Figs(r) == Figs(p)
    ensures NoSingle(p) ==> NoSingle(r)
    decreases p
  {
    match p.panes
    case LeafPane(_) => p
    case PaneArray(items) =>
      var total := SumFracs(items);
      var items' := seq(|items|, i requires 0 <= i < |items| => Item(items[i].frac / total, EnsureFill(items[i].pane)));
      FillLevel(p.split, items, items');
      Panes(p.split, PaneArray(items'))
  }

  /**
   * One level of `ensureFill`: when every child has been filled and keeps
   * its figures, dividing the fractions by their total fills the split.
   */
  lemma FillLevel(split: Direction, items: seq<Item>, items': seq<Item>)
    requires |items| > 0 ==> SumFracs(items) != 0.0
    requires |items'| == |items|
    requires forall i :: 0 <= i < |items| ==> items'[i].frac == items[i].frac / SumFracs(items)
    requires forall i :: 0 <= i < |items| ==> Filled(items'[i].pane)
    requires forall i :: 0 <= i < |items| ==> Figs(items'[i].pane) == Figs(items[i].pane)
    requires forall i :: 0 <= i < |items| ==> NoSingle(items[i].pane) ==> NoSingle(items'[i].pane)
    ensures Filled(Panes(split, PaneArray(items')))
    ensures Figs(Panes(split, PaneArray(items'))) == Figs(Panes(split, PaneArray(items)))
    ensures NoSingle(Panes(split, PaneArray(items))) ==> NoSingle(Panes(split, PaneArray(items')))
  {
    assert FigsList(items') == FigsList(items);
    FigsOfSplit(split, items);
    FigsOfSplit(split, items');
    if |items| > 0 {
      var total := SumFracs(items);
      SumFracsDivided(items, items', total);
      DivSelf(total);
    }
  }

  lemma DivSelf(x: real)
    requires x != 0.0
    ensures x / x == 1.0
  {
  }

  /** `ensureRoot`: a root split with no children becomes an empty leaf. */
  function EnsureRoot(p: Panes): (r: Panes)
    ensures !IsEmpty(r)
    ensures !IsEmpty(p) ==> r == p
    ensures IsEmpty(p) ==> r.panes == LeafPane(EmptyLeaf)
    ensures Figs(r) == Figs(p)
    ensures Fillable(p) ==> Fillable(r)
  {
    if IsEmpty(p) then Panes(p.split, LeafPane(EmptyLeaf)) else p
  }

  /** `chain([removeSingle, ensureFill])`, run after every edit but a close. */
  function NormaliseEdit(p: Panes): (r: Panes)
    requires Fillable(p)
    ensures Figs(r) == Figs(p)
    ensures Filled(r) && NoSingle(r)
  {
    RemoveSingleFillable(p);
    RemoveSingleFigs(p);
    EnsureFill(RemoveSingle(p))
  }

  /** `chain([removeSingle, ensureRoot, ensureFill, filterAllEmpty])`, run after a close. */
  function NormaliseClose(p: Panes): (r: Panes)
    requires Fillable(p)
    ensures Figs(r) == Figs(p)
  {
    RemoveSingleFillable(p);
    RemoveSingleFigs(p);
    FilterAllEmpty(EnsureFill(EnsureRoot(RemoveSingle(p)))).0
  }

  // ---------------------------------------------------------------------
  // Handlers
  // ---------------------------------------------------------------------

  /** A path that leads somewhere has a parent split holding the last index. */
  lemma {:induction false} DescendParent(root: Panes, path: seq<int>)
    requires |path| > 0 && Descend(root, path).Success?
    ensures Descend(root, path[..|path| - 1]).Success?
    ensures Descend(root, path[..|path| - 1]).value.panes.PaneArray?
    ensures 0 <= path[|path| - 1] < |Descend(root, path[..|path| - 1]).value.panes.items|
    ensures Descend(root, path).value == Descend(root, path[..|path| - 1]).value.panes.items[path[|path| - 1]].pane
    decreases |path|
  {
    if |path| > 1 {
      assert path[1..][..|path| - 2] == path[..|path| - 1][1..];
      DescendParent(root.panes.items[path[0]].pane, path[1..]);
    }
  }

  lemma SetLeafFillable(root: Panes, path: seq<int>, l: Leaf)
    requires LeafAt(root, path).Success? && Fillable(root)
    ensures Fillable(SetLeaf(root, path, l))
  {
    ReplaceFillable(root, path, Panes(Descend(root, path).value.split, LeafPane(l)));
  }

  /** `newFrac` clamped to [0.1, 0.9], the lower bound applied first as in the source. */
  function Clamp(v: real): (r: real)
    ensures 0.1 <= r <= 0.9
    ensures 0.1 <= v <= 0.9 ==> r == v
    ensures v < 0.1 ==> r == 0.1
    ensures v > 0.9 ==> r == 0.9
  {
    var a := if v < 0.1 then 0.1 else v;
    if a > 0.9 then 0.9 else a
  }

  /** Every fraction multiplied by `c`. */
  function Scale(items: seq<Item>, c: real): (r: seq<Item>)
    ensures |r| == |items|
    ensures forall j :: 0 <= j < |r| ==> r[j] == Item(items[j].frac * c, items[j].pane)
  {
    seq(|items|, j requires 0 <= j < |items| => Item(items[j].frac * c, items[j].pane))
  }

  /**
   * The drag on one split: the dragged child's fraction moves by `delta`,
   * clamped, and the later children are scaled by one common factor.
   */
  function DragItems(items: seq<Item>, last: int, delta: real): (r: seq<Item>)
    requires 0 <= last < |items|
    requires last + 1 < |items| ==> SumFracs(items[last + 1..]) != 0.0
    ensures |r| == |items|
    ensures forall j :: 0 <= j < |items| ==> r[j].pane == items[j].pane
    ensures r[..last] == items[..last]
    ensures r[last].frac == Clamp(items[last].frac + delta)
  {
    var newFrac := Clamp(items[last].frac + delta);
    var fraction := DragFactor(items, last, newFrac);
    seq(|items|, j requires 0 <= j < |items| =>
      if j < last then items[j]
      else if j == last then Item(newFrac, items[j].pane)
      else Item(items[j].frac * fraction, items[j].pane))
  }

  /**
   * The factor applied to the later siblings: their total, less what the
   * dragged pane gained, over their total (1 when there are none).
   */
  function DragFactor(items: seq<Item>, last: int, newFrac: real): real
    requires 0 <= last < |items|
    requires last + 1 < |items| ==> SumFracs(items[last + 1..]) != 0.0
  {
    var remaining := SumFracs(items[last + 1..]);
    if last + 1 < |items| then (remaining - (newFrac - items[last].frac)) / remaining else 1.0
  }

  /** The dragged child and its later siblings keep their total. */
  lemma DragItemsKeepsSum(items: seq<Item>, last: int, delta: real)
    requires 0 <= last && last + 1 < |items|
    requires SumFracs(items[last + 1..]) != 0.0
    ensures SumFracs(DragItems(items, last, delta)[last..]) == SumFracs(items[last..])
  {
    var newFrac := Clamp(items[last].frac + delta);
    DragItemsTail(items, last, delta);
    assert items[last..] == [items[last]] + items[last + 1..];
    RescaledKeepsSum(items[last], items[last + 1..], newFrac, DragFactor(items, last, newFrac));
  }

  /**
   * Giving the first item the fraction `newFrac` and scaling the rest by
   * their total less the gain, over their total, keeps the sum.
   */
  lemma RescaledKeepsSum(first: Item, tail: seq<Item>, newFrac: real, fraction: real)
    requires SumFracs(tail) != 0.0
    requires fraction == (SumFracs(tail) - (newFrac - first.frac)) / SumFracs(tail)
    ensures SumFracs([Item(newFrac, first.pane)] + Scale(tail, fraction)) == SumFracs([first] + tail)
  {
    var remaining := SumFracs(tail);
    var scaled := Scale(tail, fraction);
    SumFracsScaled(tail, scaled, fraction);
    CancelDivision(remaining, newFrac - first.frac, fraction);
    assert SumFracs(scaled) == remaining - (newFrac - first.frac);
    SumFracsAppend([first], tail);
    SumFracsAppend([Item(newFrac, first.pane)], scaled);
  }

  /** Multiplying back by a nonzero divisor cancels the division. */
  lemma CancelDivision(a: real, b: real, f: real)
    requires a != 0.0 && f == (a - b) / a
    ensures a * f == a - b
  {
  }

  /** From the dragged child on, a drag is the clamped child followed by the scaled tail. */
  lemma DragItemsTail(items: seq<Item>, last: int, delta: real)
    requires 0 <= last && last + 1 < |items|
    requires SumFracs(items[last + 1..]) != 0.0
    ensures var newFrac := Clamp(items[last].frac + delta);
      DragItems(items, last, delta)[last..]
      == [Item(newFrac, items[last].pane)] + Scale(items[last + 1..], DragFactor(items, last, newFrac))
  {
    var r := DragItems(items, last, delta);
    var newFrac := Clamp(items[last].frac + delta);
    var tail := items[last + 1..];
    var fraction := DragFactor(items, last, newFrac);
    var scaled := [Item(newFrac, items[last].pane)] + Scale(tail, fraction);
    forall j | 0 <= j < |r| - last
      ensures r[last..][j] == scaled[j]
    {
      assert r[last..][j] == r[last + j];
      if j > 0 {
        assert tail[j - 1] == items[last + j];
        assert scaled[j] == Scale(tail, fraction)[j - 1];
      }
    }
  }

  /** A drag can push a later sibling's fraction below zero. */
  lemma DragItemsCanGoNegative()
    ensures var leaf := Panes(H, LeafPane(EmptyLeaf));
      var items := [Item(0.45, leaf), Item(0.1, leaf), Item(0.45, leaf)];
      DragItems(items, 1, 0.8)[2].frac < 0.0
  {
    var leaf := Panes(H, LeafPane(EmptyLeaf));
    var items := [Item(0.45, leaf), Item(0.1, leaf), Item(0.45, leaf)];
    assert items[2..] == [Item(0.45, leaf)];
    assert SumFracs(items[2..]) == 0.45;
  }

  /** The drag delta: the mouse movement as a fraction of the parent's extent. */
  function DeltaFrac(x: real, y: real, w: real, h: real, dir: Direction): (r: real)
    requires dir == H ==> w != 0.0
    requires dir == V ==> h != 0.0
    ensures dir == H ==> r * w == x
    ensures dir == V ==> r * h == y
  {
    if dir == H then x / w else y / h
  }

  /**
   * The later siblings of the dragged pane do not all have zero fractions
   * (the source would divide zero by zero).
   */
  ghost predicate DragDefined(root: Panes, path: seq<int>)
  {
    |path| > 0 && Descend(root, path[..|path| - 1]).Success? ==>
      (var node := Descend(root, path[..|path| - 1]).value;
       var last := path[|path| - 1];
       node.panes.PaneArray? && 0 <= last && last + 1 < |node.panes.items| ==>
         SumFracs(node.panes.items[last + 1..]) != 0.0)
  }

  /** `onDrag`: the new tree, before the shallow copy handed to `onPanesChange`. */
  function Drag(root: Panes, x: real, y: real, path: seq<int>, w: real, h: real, dir: Direction): (r: Result<Panes, string>)
    requires dir == H ==> w != 0.0
    requires dir == V ==> h != 0.0
    requires DragDefined(root, path)
    ensures r.Success? <==>
      |path| > 0 && Descend(root, path[..|path| - 1]).Success? &&
      Descend(root, path[..|path| - 1]).value.panes.PaneArray? &&
      0 <= path[|path| - 1] < |Descend(root, path[..|path| - 1]).value.panes.items|
    ensures |path| == 0 ==> r.Failure?
  {
    var delta := DeltaFrac(x, y, w, h, dir);
    if |path| == 0 then
      (if root.panes.LeafPane? then Failure(LackOfArray) else Failure(MissingSlot))
    else
      var parentPath := path[..|path| - 1];
      var last := path[|path| - 1];
      match Descend(root, parentPath)
      case Failure(e) => Failure(e)
      case Success(node) =>
        if node.panes.LeafPane? then Failure(LackOfArray)
        else if !(0 <= last < |node.panes.items|) then Failure(MissingSlot)
        else Success(ReplaceAt(root, parentPath, Panes(node.split, PaneArray(DragItems(node.panes.items, last, delta)))))
  }

  /**
   * A drag succeeds exactly when the path's parent is a split holding the
   * last index.
   */
  lemma DragSucceedsIff(root: Panes, x: real, y: real, path: seq<int>, w: real, h: real, dir: Direction)
    requires dir == H ==> w != 0.0
    requires dir == V ==> h != 0.0
    requires DragDefined(root, path)
    ensures Drag(root, x, y, path, w, h, dir).Success? <==> |path| > 0 && Descend(root, path).Success?
  {
    if |path| > 0 {
      DescendIffParent(root, path);
    }
  }

  /** A path leads somewhere exactly when its parent is a split holding the last index. */
  lemma DescendIffParent(root: Panes, path: seq<int>)
    requires |path| > 0
    ensures Descend(root, path).Success? <==>
      Descend(root, path[..|path| - 1]).Success? &&
      Descend(root, path[..|path| - 1]).value.panes.PaneArray? &&
      0 <= path[|path| - 1] < |Descend(root, path[..|path| - 1]).value.panes.items|
  {
    var parentPath := path[..|path| - 1];
    var last := path[|path| - 1];
    if Descend(root, path).Success? {
      DescendParent(root, path);
    }
    if Descend(root, parentPath).Success? {
      DescendAppend(root, parentPath, last);
      assert parentPath + [last] == path;
    }
  }

  /** A successful drag rewrites the fractions of the parent split and moves no figure. */
  lemma DragEffect(root: Panes, x: real, y: real, path: seq<int>, w: real, h: real, dir: Direction)
    requires dir == H ==> w != 0.0
    requires dir == V ==> h != 0.0
    requires DragDefined(root, path)
    requires Drag(root, x, y, path, w, h, dir).Success?
    ensures |path| > 0 && Descend(root, path[..|path| - 1]).Success?
    ensures Descend(root, path[..|path| - 1]).value.panes.PaneArray?
    ensures 0 <= path[|path| - 1] < |Descend(root, path[..|path| - 1]).value.panes.items|
    ensures Descend(Drag(root, x, y, path, w, h, dir).value, path[..|path| - 1])
         == Success(Panes(Descend(root, path[..|path| - 1]).value.split,
              PaneArray(DragItems(Descend(root, path[..|path| - 1]).value.panes.items, path[|path| - 1], DeltaFrac(x, y, w, h, dir)))))
    ensures multiset(Figs(Drag(root, x, y, path, w, h, dir).value)) == multiset(Figs(root))
  {
    var parentPath := path[..|path| - 1];
    var node := Descend(root, parentPath).value;
    var items := node.panes.items;
    var last := path[|path| - 1];
    var items' := DragItems(items, last, DeltaFrac(x, y, w, h, dir));
    var node' := Panes(node.split, PaneArray(items'));
    DescendReplace(root, parentPath, node');
    FigsReplace(root, parentPath, node');
    assert FigsList(items') == FigsList(items);
    FigsOfSplit(node.split, items);
    FigsOfSplit(node.split, items');
    MultisetCancel(multiset(Figs(Drag(root, x, y, path, w, h, dir).value)), multiset(Figs(root)), multiset(Figs(node)));
  }

  /** Multiset union cancels. */
  lemma MultisetCancel(a: multiset<int>, b: multiset<int>, c: multiset<int>)
    requires a + c == b + c
    ensures a == b
  {
    forall z
      ensures a[z] == b[z]
    {
      assert (a + c)[z] == (b + c)[z];
    }
  }

  /**
   * `onDrag` as the source runs it: the navigation loop to the parent
   * split, then the fraction update of `DragNode`.
   */
  method OnDrag(root: Panes, x: real, y: real, path: seq<int>, w: real, h: real, dir: Direction)
    returns (res: Result<Panes, string>)
    requires dir == H ==> w != 0.0
    requires dir == V ==> h != 0.0
    requires DragDefined(root, path)
    ensures res == Drag(root, x, y, path, w, h, dir)
  {
    var deltaFrac := DeltaFrac(x, y, w, h, dir);
    if |path| == 0 {
      if root.panes.LeafPane? {
        return Failure(LackOfArray);
      }
      return Failure(MissingSlot);
    }
    var lastIndex := path[|path| - 1];
    var nav := Navigate(root, path[..|path| - 1]);
    if nav.Failure? {
      return Failure(nav.error);
    }
    var p := nav.value;
    if p.panes.LeafPane? {
      return Failure(LackOfArray);
    }
    if !(0 <= lastIndex < |p.panes.items|) {
      return Failure(MissingSlot);
    }
    var items := DragNode(p.panes.items, lastIndex, deltaFrac);
    res := Success(ReplaceAt(root, path[..|path| - 1], Panes(p.split, PaneArray(items))));
  }

  /**
   * The body of `onDrag` once the parent split is found: the clamped new
   * fraction, the `reduce` over the later siblings, then the loop that
   * rescales them.
   */
  method DragNode(original: seq<Item>, lastIndex: int, deltaFrac: real) returns (items: seq<Item>)
    requires 0 <= lastIndex < |original|
    requires lastIndex + 1 < |original| ==> SumFracs(original[lastIndex + 1..]) != 0.0
    ensures items == DragItems(original, lastIndex, deltaFrac)
  {
    items := original;
    var oldFrac := items[lastIndex].frac;
    var newFrac := oldFrac + deltaFrac;
    if newFrac < 0.1 {
      newFrac := 0.1;
    }
    if newFrac > 0.9 {
      newFrac := 0.9;
    }
    items := items[lastIndex := Item(newFrac, items[lastIndex].pane)];
    assert items[lastIndex + 1..] == original[lastIndex + 1..];
    var remainingFrac := SumFracs(items[lastIndex + 1..]);
    var fraction := 1.0;
    if lastIndex + 1 < |items| {
      var newRemainingFrac := remainingFrac - (newFrac - oldFrac);
      fraction := newRemainingFrac / remainingFrac;
    }
    assert fraction == DragFactor(original, lastIndex, newFrac);
    assert newFrac == Clamp(oldFrac + deltaFrac);
    ghost var clamped := items;
    items := ScaleFrom(items, lastIndex + 1, fraction);
    DragItemsSplit(original, lastIndex, deltaFrac);
    assert clamped[..lastIndex + 1] == original[..lastIndex] + [Item(newFrac, original[lastIndex].pane)];
  }

  /** The loop of `onDrag` that rescales every sibling from index `from` on. */
  method ScaleFrom(original: seq<Item>, from: int, fraction: real) returns (items: seq<Item>)
    requires 0 <= from <= |original|
    ensures items == original[..from] + Scale(original[from..], fraction)
  {
    items := original;
    var i := from;
    while i < |items|
      invariant from <= i <= |items| == |original|
      invariant items[..from] == original[..from]
      invariant forall j :: from <= j < i ==> items[j] == Item(original[j].frac * fraction, original[j].pane)
      invariant items[i..] == original[i..]
    {
      assert items[i] == original[i];
      items := items[i := Item(items[i].frac * fraction, items[i].pane)];
      i := i + 1;
    }
    var scaled := original[..from] + Scale(original[from..], fraction);
    forall j | 0 <= j < |items|
      ensures items[j] == scaled[j]
    {
      if j < from {
        assert items[j] == items[..from][j];
      }
    }
  }

  /** A drag is the untouched prefix, the clamped child and the rescaled tail. */
  lemma DragItemsSplit(items: seq<Item>, last: int, delta: real)
    requires 0 <= last < |items|
    requires last + 1 < |items| ==> SumFracs(items[last + 1..]) != 0.0
    ensures var newFrac := Clamp(items[last].frac + delta);
      DragItems(items, last, delta)
      == items[..last] + [Item(newFrac, items[last].pane)] + Scale(items[last + 1..], DragFactor(items, last, newFrac))
  {
    var newFrac := Clamp(items[last].frac + delta);
    var r := DragItems(items, last, delta);
    var parts := items[..last] + [Item(newFrac, items[last].pane)] + Scale(items[last + 1..], DragFactor(items, last, newFrac));
    forall j | 0 <= j < |r|
      ensures r[j] == parts[j]
    {
      if j < last {
        assert r[j] == items[j];
        assert parts[j] == items[..last][j];
      } else if j == last {
        assert r[j] == Item(newFrac, items[last].pane);
        assert parts[j] == Item(newFrac, items[last].pane);
      } else {
        assert r[j] == Item(items[j].frac * DragFactor(items, last, newFrac), items[j].pane);
        assert items[last + 1..][j - last - 1] == items[j];
        assert parts[j] == Scale(items[last + 1..], DragFactor(items, last, newFrac))[j - last - 1];
      }
    }
  }

  /** The figure `onClose` removes: the active one, or else the last one. */
  function ToRemove(l: Leaf): (r: Option<int>)
    ensures r.Some? <==> l.active.Some? || |l.figNums| > 0
    ensures l.active.None? && |l.figNums| > 0 ==> r == Some(l.figNums[|l.figNums| - 1])
  {
    if l.active.Some? then l.active
    else if |l.figNums| > 0 then Some(l.figNums[|l.figNums| - 1])
    else None
  }

  /** The list without any copy of `v`, in order: `filter(num => num !== v)`. */
  function Without(s: seq<int>, v: int): (r: seq<int>)
    ensures multiset(r)[v] == 0
    ensures forall z :: z != v ==> multiset(r)[z] == multiset(s)[z]
  {
    if |s| == 0 then []
    else
      var rest := Without(s[1..], v);
      var head := if s[0] == v then [] else [s[0]];
      assert s == [s[0]] + s[1..];
      assert multiset(s) == multiset([s[0]]) + multiset(s[1..]);
      assert multiset(head + rest) == multiset(head) + multiset(rest);
      head + rest
  }

  /**
   * Closing a figure as the source writes it: the figure is filtered out
   * and the figure that was second to last before removal becomes active.
   */
  function CloseFigureAsWritten(l: Leaf): (r: Leaf)
    requires |l.figNums| > 0
    ensures r.figNums == Without(l.figNums, ToRemove(l).value)
    ensures |l.figNums| > 1 ==> r.active == Some(l.figNums[|l.figNums| - 2])
    ensures |l.figNums| == 1 ==> r.active == None
  {
    var focusAfter := if |l.figNums| > 1 then Some(l.figNums[|l.figNums| - 2]) else None;
    Leaf(Without(l.figNums, ToRemove(l).value), focusAfter)
  }

  /** Closing the second-to-last figure while it is active leaves the removed figure active. */
  lemma CloseFigureAsWrittenKeepsRemoved()
    ensures CloseFigureAsWritten(Leaf([2, 3], Some(2))) == Leaf([3], Some(2))
  {
    assert [3][1..] == [] && Without([3], 2) == [3];
    assert [2, 3][1..] == [3];
  }

  /**
   * Closing a figure, corrected: the second-to-last figure becomes active
   * as in the source when it survives the removal, otherwise the last
   * remaining figure does.
   */
  function CloseFigure(l: Leaf): (r: Leaf)
    requires |l.figNums| > 0
    ensures r.figNums == Without(l.figNums, ToRemove(l).value)
    ensures r.active.Some? <==> |r.figNums| > 0
    ensures r.active.Some? ==> r.active.value in r.figNums
    ensures CloseFigureAsWritten(l).active.Some? && CloseFigureAsWritten(l).active.value in r.figNums ==> r == CloseFigureAsWritten(l)
  {
    var written := CloseFigureAsWritten(l);
    var figNums := written.figNums;
    var active :=
      if written.active.Some? && written.active.value in figNums then written.active
      else if |figNums| > 0 then Some(figNums[|figNums| - 1])
      else None;
    Leaf(figNums, active)
  }

  /**
   * The edit `onClose` makes before normalising, with the figure to hand
   * to `removeFig`: a non-empty leaf loses a figure; an empty leaf is
   * removed from its parent (the root has none, and stays).
   */
  function CloseEdit(root: Panes, path: seq<int>): (r: Result<(Panes, Option<int>), string>)
    ensures r.Failure? <==> LeafAt(root, path).Failure?
    ensures r.Failure? ==> r.error == LeafAt(root, path).error
    ensures r.Success? ==> r.value.1 == ToRemove(LeafAt(root, path).value)
  {
    match LeafAt(root, path)
    case Failure(e) => Failure(e)
    case Success(l) =>
      var toRemove := ToRemove(l);
      if |l.figNums| > 0 then Success((SetLeaf(root, path, CloseFigure(l)), toRemove))
      else if |path| == 0 then Success((root, toRemove))
      else
        DescendParent(root, path);
        var parentPath := path[..|path| - 1];
        var parent := Descend(root, parentPath).value;
        var i := path[|path| - 1];
        var items := parent.panes.items;
        Success((ReplaceAt(root, parentPath, Panes(parent.split, PaneArray(items[..i] + items[i + 1..]))), toRemove))
  }

  /** `onClose`: the edit, then `removeSingle`, `ensureRoot`, `ensureFill` and `filterAllEmpty`. */
  function OnClose(root: Panes, path: seq<int>): (r: Result<(Panes, Option<int>), string>)
    requires CloseEdit(root, path).Success? ==> Fillable(CloseEdit(root, path).value.0)
    ensures r.Failure? <==> LeafAt(root, path).Failure?
    ensures r.Failure? ==> r.error == LeafAt(root, path).error
    ensures r.Success? ==> r.value.1 == ToRemove(LeafAt(root, path).value)
    ensures r.Success? ==> Figs(r.value.0) == Figs(CloseEdit(root, path).value.0)
  {
    match CloseEdit(root, path)
    case Failure(e) => Failure(e)
    case Success((t, toRemove)) => Success((NormaliseClose(t), toRemove))
  }

  /** Dropping a slot whose pane holds no figure keeps the figures of the split. */
  lemma {:induction false} DropSlotFigs(items: seq<Item>, i: int)
    requires 0 <= i < |items| && Figs(items[i].pane) == []
    ensures Concat(FigsList(items[..i] + items[i + 1..])) == Concat(FigsList(items))
  {
    assert items == items[..i] + [items[i]] + items[i + 1..];
    FigsListSplit(items[..i] + [items[i]], items[i + 1..]);
    FigsListSplit(items[..i], [items[i]]);
    FigsListSplit(items[..i], items[i + 1..]);
    ConcatAppend(FigsList(items[..i]) + FigsList([items[i]]), FigsList(items[i + 1..]));
    ConcatAppend(FigsList(items[..i]), FigsList([items[i]]));
    ConcatAppend(FigsList(items[..i]), FigsList(items[i + 1..]));
    assert FigsList([items[i]]) == [[]];
    assert Concat([[]]) == [] + Concat([]);
  }

  /** Closing an empty pane keeps every figure of the tree. */
  lemma ClosePaneFigs(root: Panes, path: seq<int>)
    requires LeafAt(root, path).Success? && |LeafAt(root, path).value.figNums| == 0
    ensures multiset(Figs(CloseEdit(root, path).value.0)) == multiset(Figs(root))
  {
    if |path| > 0 {
      DescendParent(root, path);
      var parentPath := path[..|path| - 1];
      var parent := Descend(root, parentPath).value;
      var i := path[|path| - 1];
      var items := parent.panes.items;
      var items' := items[..i] + items[i + 1..];
      FigsReplace(root, parentPath, Panes(parent.split, PaneArray(items')));
      DropSlotFigs(items, i);
      FigsOfSplit(parent.split, items);
      FigsOfSplit(parent.split, items');
      MultisetCancel(multiset(Figs(CloseEdit(root, path).value.0)), multiset(Figs(root)), multiset(Figs(parent)));
    }
  }

  /**
   * Closing a figure trades the leaf's list for the list without the
   * removed figure, and nothing else in the tree changes its figures;
   * closing an empty pane keeps every figure.
   */
  lemma OnCloseFigs(root: Panes, path: seq<int>)
    requires CloseEdit(root, path).Success? ==> Fillable(CloseEdit(root, path).value.0)
    requires OnClose(root, path).Success?
    ensures var l := LeafAt(root, path).value;
      var res := OnClose(root, path).value;
      multiset(Figs(res.0)) + multiset(l.figNums)
        == multiset(Figs(root)) + (if |l.figNums| > 0 then multiset(Without(l.figNums, res.1.value)) else multiset{})
  {
    var l := LeafAt(root, path).value;
    var t := CloseEdit(root, path).value.0;
    if |l.figNums| > 0 {
      SetLeafFigs(root, path, CloseFigure(l));
    } else {
      ClosePaneFigs(root, path);
    }
  }

  /** Closing an empty pane removes exactly that slot from its parent. */
  lemma CloseEmptyPane(root: Panes, path: seq<int>)
    requires LeafAt(root, path).Success? && |LeafAt(root, path).value.figNums| == 0 && |path| > 0
    ensures Descend(root, path[..|path| - 1]).Success?
    ensures Descend(root, path[..|path| - 1]).value.panes.PaneArray?
    ensures 0 <= path[|path| - 1] < |Descend(root, path[..|path| - 1]).value.panes.items|
    ensures var parent := Descend(root, path[..|path| - 1]).value;
      var i := path[|path| - 1];
      Descend(CloseEdit(root, path).value.0, path[..|path| - 1])
        == Success(Panes(parent.split, PaneArray(parent.panes.items[..i] + parent.panes.items[i + 1..])))
  {
    DescendParent(root, path);
    var parentPath := path[..|path| - 1];
    var parent := Descend(root, parentPath).value;
    var i := path[|path| - 1];
    DescendReplace(root, parentPath, Panes(parent.split, PaneArray(parent.panes.items[..i] + parent.panes.items[i + 1..])));
  }

  /** Closing a figure leaves its leaf without the figure and with a surviving figure active. */
  lemma CloseFigureLeaf(root: Panes, path: seq<int>)
    requires LeafAt(root, path).Success? && |LeafAt(root, path).value.figNums| > 0
    ensures var l := LeafAt(root, path).value;
      var v := ToRemove(l).value;
      LeafAt(CloseEdit(root, path).value.0, path) == Success(CloseFigure(l)) &&
      v !in CloseFigure(l).figNums &&
      (CloseFigure(l).active.Some? ==> CloseFigure(l).active.value in CloseFigure(l).figNums)
  {
    var l := LeafAt(root, path).value;
    LeafAtSetLeaf(root, path, CloseFigure(l), path);
  }

  /** The split `onSplit` puts in place of a leaf: the old leaf, then an empty one, each with 0.5. */
  function SplitNode(l: Leaf, d: Direction): (r: Panes)
    ensures Fillable(r) && Filled(r) && NoSingle(r)
    ensures Figs(r) == l.figNums
  {
    var items := [Item(0.5, Panes(d, LeafPane(l))), Item(0.5, Panes(d, LeafPane(EmptyLeaf)))];
    assert items[1..][1..] == [];
    assert SumFracs(items[1..]) == 0.5 + SumFracs(items[1..][1..]);
    assert SumFracs(items) == 1.0;
    FigsOfSplit(d, items);
    assert FigsList(items) == [l.figNums, []];
    assert FigsList(items)[1..] == [[]];
    assert Concat([[]]) == [] + Concat([]);
    assert Concat(FigsList(items)) == l.figNums + Concat([[]]);
    Panes(d, PaneArray(items))
  }

  /** `onSplit` before normalisation. */
  function SplitEdit(root: Panes, path: seq<int>, d: Direction): (r: Result<Panes, string>)
    ensures r.Failure? <==> LeafAt(root, path).Failure?
    ensures r.Failure? ==> r.error == LeafAt(root, path).error
  {
    match LeafAt(root, path)
    case Failure(e) => Failure(e)
    case Success(l) => Success(ReplaceAt(root, path, SplitNode(l, d)))
  }

  /** `onSplit`: the split, then `removeSingle` and `ensureFill`. */
  function OnSplit(root: Panes, path: seq<int>, d: Direction): (r: Result<Panes, string>)
    requires Fillable(root)
    ensures r.Failure? <==> LeafAt(root, path).Failure?
    ensures r.Failure? ==> r.error == LeafAt(root, path).error
    ensures r.Success? ==> Filled(r.value) && NoSingle(r.value)
  {
    match SplitEdit(root, path, d)
    case Failure(e) => Failure(e)
    case Success(t) =>
      ReplaceFillable(root, path, SplitNode(LeafAt(root, path).value, d));
      Success(NormaliseEdit(t))
  }

  /**
   * A split puts the old leaf and an empty leaf side by side at the path,
   * and the normalised result holds the same figures.
   */
  lemma OnSplitProps(root: Panes, path: seq<int>, d: Direction)
    requires Fillable(root) && LeafAt(root, path).Success?
    ensures Descend(SplitEdit(root, path, d).value, path) == Success(SplitNode(LeafAt(root, path).value, d))
    ensures multiset(Figs(OnSplit(root, path, d).value)) == multiset(Figs(root))
  {
    var l := LeafAt(root, path).value;
    var node := SplitNode(l, d);
    var t := ReplaceAt(root, path, node);
    DescendReplace(root, path, node);
    ReplaceFillable(root, path, node);
    FigsReplace(root, path, node);
    MultisetCancel(multiset(Figs(t)), multiset(Figs(root)), multiset(l.figNums));
  }

  /** `onAddFig` before normalisation: the new number is appended and made active. */
  function AddFigEdit(root: Panes, path: seq<int>, newFigNum: int): (r: Result<Panes, string>)
    ensures r.Failure? <==> LeafAt(root, path).Failure?
    ensures r.Failure? ==> r.error == LeafAt(root, path).error
  {
    match LeafAt(root, path)
    case Failure(e) => Failure(e)
    case Success(l) => Success(SetLeaf(root, path, Leaf(l.figNums + [newFigNum], Some(newFigNum))))
  }

  /** `onAddFig`: the edit, then `removeSingle` and `ensureFill`. */
  function OnAddFig(root: Panes, path: seq<int>, newFigNum: int): (r: Result<Panes, string>)
    requires Fillable(root)
    ensures r.Failure? <==> LeafAt(root, path).Failure?
    ensures r.Failure? ==> r.error == LeafAt(root, path).error
    ensures r.Success? ==> Filled(r.value) && NoSingle(r.value)
  {
    match AddFigEdit(root, path, newFigNum)
    case Failure(e) => Failure(e)
    case Success(t) =>
      SetLeafFillable(root, path, Leaf(LeafAt(root, path).value.figNums + [newFigNum], Some(newFigNum)));
      Success(NormaliseEdit(t))
  }

  /** Adding a figure appends it to the leaf and activates it; the tree gains exactly that figure. */
  lemma OnAddFigProps(root: Panes, path: seq<int>, newFigNum: int)
    requires Fillable(root) && LeafAt(root, path).Success?
    ensures var l := LeafAt(root, path).value;
      LeafAt(AddFigEdit(root, path, newFigNum).value, path) == Success(Leaf(l.figNums + [newFigNum], Some(newFigNum)))
    ensures multiset(Figs(OnAddFig(root, path, newFigNum).value)) == multiset(Figs(root)) + multiset{newFigNum}
  {
    var l := LeafAt(root, path).value;
    var l' := Leaf(l.figNums + [newFigNum], Some(newFigNum));
    LeafAtSetLeaf(root, path, l', path);
    SetLeafFillable(root, path, l');
    SetLeafFigs(root, path, l');
    MultisetCancel(multiset(Figs(SetLeaf(root, path, l'))), multiset(Figs(root)) + multiset{newFigNum}, multiset(l.figNums));
  }

  /** `onSetActive`: `None` when the figure is not in the leaf and nothing changes. */
  function OnSetActive(root: Panes, path: seq<int>, active: int): (r: Result<Option<Panes>, string>)
    requires Fillable(root)
    ensures r.Failure? <==> LeafAt(root, path).Failure?
    ensures r == Success(None) <==> LeafAt(root, path).Success? && active !in LeafAt(root, path).value.figNums
  {
    match LeafAt(root, path)
    case Failure(e) => Failure(e)
    case Success(l) =>
      if active !in l.figNums then Success(None)
      else
        SetLeafFillable(root, path, Leaf(l.figNums, Some(active)));
        Success(Some(NormaliseEdit(SetLeaf(root, path, Leaf(l.figNums, Some(active))))))
  }

  /** Activating a figure of the leaf keeps every figure of the tree. */
  lemma OnSetActiveFigs(root: Panes, path: seq<int>, active: int)
    requires Fillable(root) && OnSetActive(root, path, active).Success? && OnSetActive(root, path, active).value.Some?
    ensures multiset(Figs(OnSetActive(root, path, active).value.value)) == multiset(Figs(root))
  {
    var l := LeafAt(root, path).value;
    SetLeafFillable(root, path, Leaf(l.figNums, Some(active)));
    SetLeafFigs(root, path, Leaf(l.figNums, Some(active)));
    MultisetCancel(multiset(Figs(SetLeaf(root, path, Leaf(l.figNums, Some(active))))), multiset(Figs(root)), multiset(l.figNums));
  }

  /** The tab being dragged: its figure and the path of the leaf it came from. */
  datatype DragTab = DragTab(figNum: int, indices: seq<int>)

  /** The target leaf after the dragged figure leaves it. */
  function LeaveTarget(target: Leaf, figNum: int): (r: Leaf)
    ensures r.figNums == Without(target.figNums, figNum)
    ensures target.active != Some(figNum) ==> r.active == target.active
    ensures target.active == Some(figNum) ==> (r.active.Some? <==> |r.figNums| > 0)
    ensures r.active != Some(figNum)
  {
    var figNums := Without(target.figNums, figNum);
    var active :=
      if target.active == Some(figNum) then (if |figNums| > 0 then Some(figNums[|figNums| - 1]) else None)
      else target.active;
    Leaf(figNums, active)
  }

  /**
   * `onDragTabEnd` before normalisation. `dragOver` is the leaf the tab was
   * dropped on (the "source" in the code) and `dragTab.indices` the leaf it
   * came from (the "target"). The target is read after the source has been
   * updated, so a drop on the tab's own leaf sees the pushed figure.
   */
  function DragTabEdit(root: Panes, dragOver: Option<seq<int>>, dragTab: Option<DragTab>, figNum: int): (r: Result<Option<Panes>, string>)
    ensures dragOver.None? || dragTab.None? ==> r == Success(None)
    ensures dragOver.Some? && dragTab.Some? ==>
      (r.Failure? <==> LeafAt(root, dragOver.value).Failure? || LeafAt(root, dragTab.value.indices).Failure?)
    ensures dragOver.Some? && dragTab.Some? && r.Success? ==>
      (r.value.None? <==> figNum in LeafAt(root, dragOver.value).value.figNums)
  {
    if dragOver.None? || dragTab.None? then Success(None)
    else match LeafAt(root, dragOver.value)
      case Failure(e) => Failure(e)
      case Success(source) =>
        match LeafAt(root, dragTab.value.indices)
        case Failure(e) => Failure(e)
        case Success(_) =>
          if figNum in source.figNums then Success(None)
          else
            var source' := Leaf(source.figNums + [figNum], Some(figNum));
            var t1 := SetLeaf(root, dragOver.value, source');
            LeafAtSetLeaf(root, dragOver.value, source', dragTab.value.indices);
            var target := LeafAt(t1, dragTab.value.indices).value;
            Success(Some(SetLeaf(t1, dragTab.value.indices, LeaveTarget(target, figNum))))
  }

  /** `onDragTabEnd`: the edit, then `removeSingle` and `ensureFill`; `None` when nothing changes. */
  function OnDragTabEnd(root: Panes, dragOver: Option<seq<int>>, dragTab: Option<DragTab>, figNum: int): (r: Result<Option<Panes>, string>)
    requires Fillable(root)
    ensures dragOver.None? || dragTab.None? ==> r == Success(None)
    ensures dragOver.Some? && dragTab.Some? ==>
      (r.Failure? <==> LeafAt(root, dragOver.value).Failure? || LeafAt(root, dragTab.value.indices).Failure?)
    ensures dragOver.Some? && dragTab.Some? && r.Success? ==>
      (r.value.None? <==> figNum in LeafAt(root, dragOver.value).value.figNums)
    ensures r.Success? && r.value.Some? ==> Filled(r.value.value) && NoSingle(r.value.value)
  {
    match DragTabEdit(root, dragOver, dragTab, figNum)
    case Failure(e) => Failure(e)
    case Success(None) => Success(None)
    case Success(Some(t)) =>
      DragTabFillable(root, dragOver.value, dragTab.value, figNum);
      Success(Some(NormaliseEdit(t)))
  }

  lemma DragTabFillable(root: Panes, over: seq<int>, tab: DragTab, figNum: int)
    requires Fillable(root)
    requires DragTabEdit(root, Some(over), Some(tab), figNum).Success?
    requires DragTabEdit(root, Some(over), Some(tab), figNum).value.Some?
    ensures Fillable(DragTabEdit(root, Some(over), Some(tab), figNum).value.value)
  {
    var source := LeafAt(root, over).value;
    var source' := Leaf(source.figNums + [figNum], Some(figNum));
    var t1 := SetLeaf(root, over, source');
    SetLeafFillable(root, over, source');
    LeafAtSetLeaf(root, over, source', tab.indices);
    var target := LeafAt(t1, tab.indices).value;
    SetLeafFillable(t1, tab.indices, LeaveTarget(target, figNum));
  }

  /**
   * Dropping a tab on another leaf that lacks the figure moves it there and
   * activates it, and the leaf it came from keeps all its other figures.
   */
  lemma DragTabMoves(root: Panes, over: seq<int>, tab: DragTab, figNum: int)
    requires LeafAt(root, over).Success? && LeafAt(root, tab.indices).Success?
    requires over != tab.indices && figNum !in LeafAt(root, over).value.figNums
    ensures var source := LeafAt(root, over).value;
      var target := LeafAt(root, tab.indices).value;
      var t := DragTabEdit(root, Some(over), Some(tab), figNum).value.value;
      LeafAt(t, over) == Success(Leaf(source.figNums + [figNum], Some(figNum))) &&
      LeafAt(t, tab.indices) == Success(LeaveTarget(target, figNum)) &&
      figNum !in LeafAt(t, tab.indices).value.figNums
  {
    var source := LeafAt(root, over).value;
    var source' := Leaf(source.figNums + [figNum], Some(figNum));
    var t1 := SetLeaf(root, over, source');
    LeafAtSetLeaf(root, over, source', tab.indices);
    LeafAtSetLeaf(root, over, source', over);
    var target := LeafAt(t1, tab.indices).value;
    LeafAtSetLeaf(t1, tab.indices, LeaveTarget(target, figNum), over);
    LeafAtSetLeaf(t1, tab.indices, LeaveTarget(target, figNum), tab.indices);
  }
}
