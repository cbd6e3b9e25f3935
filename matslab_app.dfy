/**
 * The application state of MaTSlab: the list of notebook cells, the figure
 * list and the pane layout, and the reducers the cells and buttons apply
 * to them.
 */
module MatslabApp {
  import opened Wrappers
  import FigurePanes
  import UseFigs
  import CellSource

  /**
   * One notebook cell. The cell's `onExecute` callback and its exported
   * `results` object are foreign values; the model keeps an opaque handle
   * for each (None when unset).
   */
  datatype CellState = CellState(cellName: string, text: string, onExecute: Option<int>, results: Option<int>)

  /** The whole state the application keeps. */
  datatype AppState = AppState(cells: seq<CellState>, figs: seq<UseFigs.Fig>, panes: FigurePanes.Panes)

  /** The part of the state that is saved in and restored from the URL. */
  datatype InitialState = InitialState(cells: seq<CellState>, panes: FigurePanes.Panes)

  function CellNames(cells: seq<CellState>): (r: seq<string>)
    ensures |r| == |cells| && forall i :: 0 <= i < |cells| ==> r[i] == cells[i].cellName
  {
    seq(|cells|, i requires 0 <= i < |cells| => cells[i].cellName)
  }

  predicate HasCell(cells: seq<CellState>, name: string) {
    exists i :: 0 <= i < |cells| && cells[i].cellName == name
  }

  // ---------------------------------------------------------------------
  // getStateFromURL

  /**
   * `getStateFromURL`: a hash shorter than two characters (empty, or only
   * the `#`) gives no state; otherwise the text after the `#` is decoded.
   * Decompression and JSON parsing are the parameter `decode`, which gives
   * None where they throw.
   */
  function StateFromUrl(hash: string, decode: string -> Option<InitialState>): (r: Option<InitialState>)
    ensures |hash| < 2 ==> r == None
    ensures r.Some? ==> |hash| >= 2 && decode(hash[1..]) == r
  {
    if |hash| < 2 then None else decode(hash[1..])
  }

  /** Only what follows the leading `#` matters, and any decodable tail is restored. */
  lemma StateFromUrlTail(h1: string, h2: string, decode: string -> Option<InitialState>)
    requires |h1| >= 2 && |h2| >= 2 && h1[1..] == h2[1..]
    ensures StateFromUrl(h1, decode) == StateFromUrl(h2, decode) == decode(h1[1..])
  {
  }

  // ---------------------------------------------------------------------
  // Adding and removing cells

  /** The one-character name `String.fromCharCode(count + 97)`: 'a' for the first cell. */
  function NewCellName(count: nat): (name: string)
    requires count + 97 < 0xD800
    ensures |name| == 1 && name[0] as int == count + 97
  {
    [(count + 97) as char]
  }

  /**
   * `onAddCell`: a new cell named after the current number of cells, with
   * the text of an empty module, is appended.
   */
  function AddCell(cells: seq<CellState>): (r: seq<CellState>)
    requires |cells| + 97 < 0xD800
    ensures |r| == |cells| + 1 && r[..|cells|] == cells
    ensures r[|cells|].cellName == NewCellName(|cells|)
    ensures r[|cells|].text == "\nexport {};"
    ensures r[|cells|].onExecute == None && r[|cells|].results == None
  {
    cells + [CellState(NewCellName(|cells|), "\nexport {};", None, None)]
  }

  /** `onRemoveCell`: the cells with another name, in order. */
  function RemoveCell(cells: seq<CellState>, name: string): (r: seq<CellState>)
    ensures |r| <= |cells|
  {
    if |cells| == 0 then []
    else (if cells[0].cellName == name then [] else [cells[0]]) + RemoveCell(cells[1..], name)
  }

  /** The cells kept are exactly those with another name. */
  lemma {:induction false} RemoveCellMembers(cells: seq<CellState>, name: string)
    ensures forall c :: c in RemoveCell(cells, name) <==> c in cells && c.cellName != name
  {
    if |cells| > 0 {
      RemoveCellMembers(cells[1..], name);
      assert cells == [cells[0]] + cells[1..];
    }
  }

  /** Removing a name no cell has changes nothing. */
  lemma {:induction false} RemoveCellAbsent(cells: seq<CellState>, name: string)
    requires !HasCell(cells, name)
    ensures RemoveCell(cells, name) == cells
  {
    if |cells| > 0 {
      assert cells[0].cellName != name;
      assert !HasCell(cells[1..], name) by {
        forall i | 0 <= i < |cells[1..]| ensures cells[1..][i].cellName != name { assert cells[1..][i] == cells[i + 1]; }
      }
      RemoveCellAbsent(cells[1..], name);
      assert cells == [cells[0]] + cells[1..];
    }
  }

  /** Removal works run by run, so the cells kept stay in their order. */
  lemma {:induction false} RemoveCellAppend(a: seq<CellState>, b: seq<CellState>, name: string)
    ensures RemoveCell(a + b, name) == RemoveCell(a, name) + RemoveCell(b, name)
  {
    if |a| > 0 {
      RemoveCellAppend(a[1..], b, name);
      assert (a + b)[1..] == a[1..] + b;
      var head := if a[0].cellName == name then [] else [a[0]];
      assert RemoveCell(a + b, name) == head + RemoveCell(a[1..] + b, name);
      assert RemoveCell(a, name) == head + RemoveCell(a[1..], name);
    } else {
      assert a + b == b;
    }
  }

  /** Removing a cell just added under an unused name gives back the list before the addition. */
  lemma AddCellThenRemove(cells: seq<CellState>)
    requires |cells| + 97 < 0xD800
    requires !HasCell(cells, NewCellName(|cells|))
    ensures RemoveCell(AddCell(cells), NewCellName(|cells|)) == cells
  {
    var added := CellState(NewCellName(|cells|), "\nexport {};", None, None);
    RemoveCellAppend(cells, [added], NewCellName(|cells|));
    RemoveCellAbsent(cells, NewCellName(|cells|));
    assert RemoveCell([added], NewCellName(|cells|)) == [];
  }

  /**
   * New names come from the number of cells, not from the names in use:
   * after removing the first of two cells, adding one repeats the name of
   * the cell that is left.
   */
  lemma AddCellCanRepeatName()
    ensures var cells := [CellState("a", "", None, None), CellState("b", "", None, None)];
      var after := AddCell(RemoveCell(cells, "a"));
      |after| == 2 && after[0].cellName == after[1].cellName == "b"
  {
    var cells := [CellState("a", "", None, None), CellState("b", "", None, None)];
    assert cells[1..][1..] == [];
    assert RemoveCell(cells, "a") == [CellState("b", "", None, None)];
  }

  // ---------------------------------------------------------------------
  // Updating one named cell

  /** The field a reducer sets on the matching cells. */
  datatype Change =
    | SetResults(results: Option<int>)
    | SetOnExecute(onExecute: int)
    | SetText(text: string)
    | SetName(name: string)

  function Apply(c: CellState, ch: Change): CellState {
    match ch
    case SetResults(v) => c.(results := v)
    case SetOnExecute(h) => c.(onExecute := Some(h))
    case SetText(t) => c.(text := t)
    case SetName(n) => c.(cellName := n)
  }

  /** Every cell with the given name gets the change; the other cells are kept as they are. */
  function UpdateNamed(cells: seq<CellState>, name: string, ch: Change): (r: seq<CellState>)
    ensures |r| == |cells|
  {
    seq(|cells|, i requires 0 <= i < |cells| => if cells[i].cellName == name then Apply(cells[i], ch) else cells[i])
  }

  /** `onUpdate`: the exported results of the cell. */
  function OnUpdate(cells: seq<CellState>, name: string, results: Option<int>): (r: seq<CellState>)
    ensures |r| == |cells|
    ensures forall i :: 0 <= i < |cells| ==>
      r[i].cellName == cells[i].cellName && r[i].text == cells[i].text && r[i].onExecute == cells[i].onExecute
    ensures forall i :: 0 <= i < |cells| && cells[i].cellName == name ==> r[i].results == results
    ensures forall i :: 0 <= i < |cells| && cells[i].cellName != name ==> r[i] == cells[i]
  {
    UpdateNamed(cells, name, SetResults(results))
  }

  /** `onReportOnExecute`: the callback that runs the cell. */
  function OnReportOnExecute(cells: seq<CellState>, name: string, onExecute: int): (r: seq<CellState>)
    ensures |r| == |cells|
    ensures forall i :: 0 <= i < |cells| ==>
      r[i].cellName == cells[i].cellName && r[i].text == cells[i].text && r[i].results == cells[i].results
    ensures forall i :: 0 <= i < |cells| && cells[i].cellName == name ==> r[i].onExecute == Some(onExecute)
    ensures forall i :: 0 <= i < |cells| && cells[i].cellName != name ==> r[i] == cells[i]
  {
    UpdateNamed(cells, name, SetOnExecute(onExecute))
  }

  /** The text update the debounced `onChangeCellContentsWithSetter` applies. */
  function OnChangeText(cells: seq<CellState>, name: string, text: string): (r: seq<CellState>)
    ensures |r| == |cells|
    ensures forall i :: 0 <= i < |cells| ==>
      r[i].cellName == cells[i].cellName && r[i].onExecute == cells[i].onExecute && r[i].results == cells[i].results
    ensures forall i :: 0 <= i < |cells| && cells[i].cellName == name ==> r[i].text == text
    ensures forall i :: 0 <= i < |cells| && cells[i].cellName != name ==> r[i] == cells[i]
  {
    UpdateNamed(cells, name, SetText(text))
  }

  /** Setting a field twice is setting it once. */
  lemma UpdateNamedIdempotent(cells: seq<CellState>, name: string, ch: Change)
    requires !ch.SetName?
    ensures UpdateNamed(UpdateNamed(cells, name, ch), name, ch) == UpdateNamed(cells, name, ch)
  {
    var once := UpdateNamed(cells, name, ch);
    var twice := UpdateNamed(once, name, ch);
    forall i | 0 <= i < |cells| ensures twice[i] == once[i] {
    }
    assert twice == once;
  }

  /** Updates of two different fields can be applied in either order. */
  lemma UpdateNamedCommutes(cells: seq<CellState>, n1: string, c1: Change, n2: string, c2: Change)
    requires !c1.SetName? && !c2.SetName?
    requires c1.SetResults? != c2.SetResults? || c1.SetOnExecute? != c2.SetOnExecute?
    ensures UpdateNamed(UpdateNamed(cells, n1, c1), n2, c2) == UpdateNamed(UpdateNamed(cells, n2, c2), n1, c1)
  {
    var l := UpdateNamed(UpdateNamed(cells, n1, c1), n2, c2);
    var r := UpdateNamed(UpdateNamed(cells, n2, c2), n1, c1);
    forall i | 0 <= i < |cells| ensures l[i] == r[i] {
    }
    assert l == r;
  }

  // ---------------------------------------------------------------------
  // Renaming

  /** The new name holds a character the regular expression `\s` matches. */
  predicate HasSpace(s: string) {
    exists i :: 0 <= i < |s| && CellSource.IsSpace(s[i])
  }

  /**
   * `onChangeCellName` of the cell named `current`: ignored when the new
   * name holds white space, otherwise that cell takes the new name.
   */
  function Rename(cells: seq<CellState>, current: string, newName: string): (r: seq<CellState>)
    ensures |r| == |cells|
  {
    if HasSpace(newName) then cells else UpdateNamed(cells, current, SetName(newName))
  }

  /**
   * A name with white space leaves the cells as they are; any other name
   * replaces exactly the matching names, and nothing else changes.
   */
  lemma RenameProps(cells: seq<CellState>, current: string, newName: string)
    ensures HasSpace(newName) ==> Rename(cells, current, newName) == cells
    ensures !HasSpace(newName) ==>
      var r := Rename(cells, current, newName);
      forall i :: 0 <= i < |cells| ==>
        r[i].text == cells[i].text && r[i].onExecute == cells[i].onExecute && r[i].results == cells[i].results &&
        r[i].cellName == (if cells[i].cellName == current then newName else cells[i].cellName)
  {
  }

  /** Renaming back undoes a rename to a name no cell had. */
  lemma RenameRoundTrip(cells: seq<CellState>, a: string, b: string)
    requires !HasSpace(a) && !HasSpace(b)
    requires !HasCell(cells, b)
    ensures Rename(Rename(cells, a, b), b, a) == cells
  {
    var r := Rename(Rename(cells, a, b), b, a);
    forall i | 0 <= i < |cells| ensures r[i] == cells[i] {
      assert cells[i].cellName != b;
    }
    assert r == cells;
  }

  /** Renaming to an unused name keeps the names distinct when they were. */
  lemma RenameKeepsDistinct(cells: seq<CellState>, current: string, newName: string)
    requires forall i, j :: 0 <= i < j < |cells| ==> cells[i].cellName != cells[j].cellName
    requires !HasCell(cells, newName)
    ensures var r := Rename(cells, current, newName);
      forall i, j :: 0 <= i < j < |r| ==> r[i].cellName != r[j].cellName
  {
    var r := Rename(cells, current, newName);
    forall i, j | 0 <= i < j < |r| ensures r[i].cellName != r[j].cellName {
      assert cells[i].cellName != newName && cells[j].cellName != newName;
    }
  }

  // ---------------------------------------------------------------------
  // The debounced content update

  /**
   * `onChangeCellContentsWithSetter` keeps one module-level timer: each
   * change cancels the pending one and schedules its own update; when the
   * timer fires, that update is applied to the cells.
   */
  class ContentDebouncer {
    /** The update the live timer will apply: a cell name and its new text. */
    var pending: Option<(string, string)>

    constructor()
      ensures pending == None
    {
      pending := None;
    }

    /** A new edit replaces whatever was pending. */
    method ChangeCellContents(cellName: string, text: string)
      modifies this
      ensures pending == Some((cellName, text))
    {
      pending := Some((cellName, text));
    }

    /** The timer fires: the cells receive the last pending text, and nothing stays pending. */
    method Fire(cells: seq<CellState>) returns (r: seq<CellState>)
      modifies this
      ensures old(pending) == None ==> r == cells
      ensures old(pending).Some? ==> r == OnChangeText(cells, old(pending).value.0, old(pending).value.1)
      ensures pending == None
    {
      r := cells;
      if pending.Some? {
        r := OnChangeText(cells, pending.value.0, pending.value.1);
      }
      pending := None;
    }
  }

  // ---------------------------------------------------------------------
  // Clearing

  /** One split holding one empty leaf with fraction 1. */
  function ClearedPanes(): (p: FigurePanes.Panes)
    ensures p.panes.PaneArray? && |p.panes.items| == 1 && p.panes.items[0].frac == 1.0
    ensures p.panes.items[0].pane.panes == FigurePanes.LeafPane(FigurePanes.EmptyLeaf)
  {
    FigurePanes.Panes(FigurePanes.V, FigurePanes.PaneArray([
      FigurePanes.Item(1.0, FigurePanes.Panes(FigurePanes.V, FigurePanes.LeafPane(FigurePanes.EmptyLeaf)))]))
  }

  /** `onClearAll`: no cells, no figures, and the panes reset. */
  function ClearAll(s: AppState): (r: AppState)
    ensures r.cells == [] && r.figs == [] && r.panes == ClearedPanes()
  {
    AppState([], [], ClearedPanes())
  }

  /**
   * The cleared panes show no figure and their fractions sum to 1; the later
   * edits apply to them (drags and `ensureFill` need `Fillable`), and the
   * pane at path [0] is the empty leaf that `getLeaf` and `findFirstLeaf`
   * return, where the next figure is added.
   */
  lemma ClearAllProps(s: AppState)
    ensures FigurePanes.Figs(ClearAll(s).panes) == []
    ensures FigurePanes.Filled(ClearAll(s).panes)
    ensures FigurePanes.Fillable(ClearAll(s).panes)
    ensures FigurePanes.LeafAt(ClearAll(s).panes, [0]) == Success(FigurePanes.EmptyLeaf)
    ensures FigurePanes.FindFirstLeaf(ClearAll(s).panes) == Success(FigurePanes.EmptyLeaf)
  {
    var p := ClearedPanes();
    var leafFigs := seq(1, i requires 0 <= i < 1 => FigurePanes.Figs(p.panes.items[i].pane));
    assert leafFigs == [[]];
    assert FigurePanes.Concat(leafFigs) == [] + FigurePanes.Concat([]);
    assert FigurePanes.SumFracs(p.panes.items) == 1.0 + FigurePanes.SumFracs([]);
  }
}
