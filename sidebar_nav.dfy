/** The side bar's keyboard navigation and resize handle (src/components/sidebar/index.tsx).
    A key press is a transition from the focused id and the rows `collectVisibleNodes`
    lays out to a new focus and the callbacks to fire; the resize handle keeps the drag
    origin between mouse events and reports a clamped width. */
module SidebarNav {
  import opened Wrappers
  import opened VirtualNodes
  import opened VfsTree
  import opened SidebarUtils
  import opened ActivityBar

  /** The keys the window listener handles; every other key does nothing. */
  datatype NavKey = ArrowDown | ArrowUp | ArrowRight | ArrowLeft | Enter | AnyOtherKey

  /** A callback a key press fires. */
  datatype NavAction = Toggle(id: Id) | Select(id: Id)

  /** The outcome of a key press: the focused id afterwards and the callbacks fired. */
  datatype Step = Step(focus: Option<Id>, actions: seq<NavAction>)

  /** `visibleNodes.findIndex(n => n.node.id === focusedNodeId)`: the first row holding the
      focused id, or -1. */
  function FocusIndex(v: seq<VisibleNode>, focus: Option<Id>): (r: int)
    ensures -1 <= r < |v|
    ensures r >= 0 ==> focus == Some(v[r].node.id) && forall j :: 0 <= j < r ==> focus != Some(v[j].node.id)
    ensures r == -1 <==> forall j :: 0 <= j < |v| ==> focus != Some(v[j].node.id)
    decreases |v|
  {
    if v == [] then -1
    else if focus == Some(v[0].node.id) then 0
    else
      var k := FocusIndex(v[1..], focus);
      assert forall j :: 1 <= j < |v| ==> v[j] == v[1..][j - 1];
      if k == -1 then -1 else k + 1
  }

  /** JavaScript truthiness of `focusedNodeId`: neither null nor the empty id. */
  predicate Focused(focus: Option<Id>) {
    focus.Some? && focus.value != ""
  }

  /** The handler for a row that is not in the list or a key that does nothing. */
  function Stay(focus: Option<Id>): Step {
    Step(focus, [])
  }

  /** `handleKeyDown`: the transition for key `key` with panel `tab` shown, on the tree
      `root` laid out with the name order `le`. */
  function Navigate(le: (string, string) -> bool, tab: Tab, key: NavKey, root: VirtualNode,
                    focus: Option<Id>): Step
  {
    if tab != Files then Stay(focus) else KeyStep(Visible(le, root, 0), key, root, focus)
  }

  /** The switch over the key, on the rows `v` of the tree `root`. */
  function KeyStep(v: seq<VisibleNode>, key: NavKey, root: VirtualNode, focus: Option<Id>): Step
  {
    var i := FocusIndex(v, focus);
    match key
    case ArrowDown =>
      if i < |v| - 1 then Step(Some(v[i + 1].node.id), [])
      else if !Focused(focus) && |v| > 0 then Step(Some(v[0].node.id), [])
      else Stay(focus)
    case ArrowUp =>
      if i > 0 then Step(Some(v[i - 1].node.id), []) else Stay(focus)
    case ArrowRight =>
      if i < 0 then Stay(focus)
      else
        var n := v[i].node;
        if n.kind == Folder && !n.isExpanded then Step(focus, [Toggle(n.id)])
        else if n.kind == Folder && n.isExpanded && |n.children| > 0 then Step(Some(n.children[0].id), [])
        else Stay(focus)
    case ArrowLeft =>
      if i < 0 then Stay(focus)
      else
        var n := v[i].node;
        if n.kind == Folder && n.isExpanded then Step(focus, [Toggle(n.id)])
        else
          (match FindParent(root, n.id)
           case Some(p) => Step(Some(p.id), [])
           case None => Stay(focus))
    case Enter =>
      if i < 0 then Stay(focus)
      else
        var n := v[i].node;
        if n.kind == Folder then Step(focus, [Toggle(n.id)]) else Step(focus, [Select(n.id)])
    case AnyOtherKey => Stay(focus)
  }

  // ---------------------------------------------------------------------------
  // Properties of the transition

  /** Outside the Files panel no key does anything. */
  lemma OtherPanelIgnored(le: (string, string) -> bool, tab: Tab, key: NavKey, root: VirtualNode, focus: Option<Id>)
    requires tab != Files
    ensures Navigate(le, tab, key, root, focus) == Step(focus, [])
  {
  }

  /** Only Enter and ArrowLeft/ArrowRight fire callbacks, at most one, and always on the
      focused row; a key that fires one keeps the focus. */
  lemma ActionsOnFocusedRow(le: (string, string) -> bool, tab: Tab, key: NavKey, root: VirtualNode, focus: Option<Id>)
    ensures var r := Navigate(le, tab, key, root, focus);
      |r.actions| <= 1 &&
      (r.actions != [] ==>
        tab == Files && key in {Enter, ArrowLeft, ArrowRight} && r.focus == focus &&
        var v := Visible(le, root, 0);
        var i := FocusIndex(v, focus);
        0 <= i < |v| && r.actions[0].id == v[i].node.id)
  {
    if tab == Files {
      KeyStepActions(Visible(le, root, 0), key, root, focus);
    }
  }

  lemma KeyStepActions(v: seq<VisibleNode>, key: NavKey, root: VirtualNode, focus: Option<Id>)
    ensures var r := KeyStep(v, key, root, focus);
      |r.actions| <= 1 &&
      (r.actions != [] ==>
        key in {Enter, ArrowLeft, ArrowRight} && r.focus == focus &&
        var i := FocusIndex(v, focus);
        0 <= i < |v| && r.actions[0].id == v[i].node.id)
  {
  }

  /** ArrowDown moves the focus to the row below the focused one. */
  lemma DownMovesToNextRow(le: (string, string) -> bool, root: VirtualNode, focus: Option<Id>, k: int)
    requires var v := Visible(le, root, 0); 0 <= k < |v| - 1 && k == FocusIndex(v, focus)
    ensures Navigate(le, Files, ArrowDown, root, focus) == Step(Some(Visible(le, root, 0)[k + 1].node.id), [])
  {
  }

  /** ArrowDown with a focus that is no row of the tree focuses the root row. */
  lemma DownFromNowhereFocusesRoot(le: (string, string) -> bool, root: VirtualNode, focus: Option<Id>)
    requires forall j :: 0 <= j < |Visible(le, root, 0)| ==> focus != Some(Visible(le, root, 0)[j].node.id)
    ensures Navigate(le, Files, ArrowDown, root, focus) == Step(Some(root.id), [])
  {
    VisibleHead(le, root, 0);
  }

  /** ArrowDown on the last row, with a real focus, keeps the focus. */
  lemma DownStopsAtLastRow(le: (string, string) -> bool, root: VirtualNode, focus: Option<Id>)
    requires Focused(focus) && FocusIndex(Visible(le, root, 0), focus) == |Visible(le, root, 0)| - 1
    ensures Navigate(le, Files, ArrowDown, root, focus) == Step(focus, [])
  {
  }

  /** ArrowUp moves to the row above, and keeps the focus on the first row or off the list. */
  lemma UpMovesToPreviousRow(le: (string, string) -> bool, root: VirtualNode, focus: Option<Id>)
    ensures var v := Visible(le, root, 0);
      var i := FocusIndex(v, focus);
      Navigate(le, Files, ArrowUp, root, focus) ==
        if i > 0 then Step(Some(v[i - 1].node.id), []) else Step(focus, [])
  {
  }

  /** ArrowUp on the root row keeps the focus there. */
  lemma UpStopsAtRoot(le: (string, string) -> bool, root: VirtualNode)
    ensures Navigate(le, Files, ArrowUp, root, Some(root.id)) == Step(Some(root.id), [])
  {
    VisibleHead(le, root, 0);
    assert FocusIndex(Visible(le, root, 0), Some(root.id)) == 0;
  }

  /** ArrowDown then ArrowUp comes back to the focused row, when the row below holds the
      first occurrence of its id. */
  lemma DownUpReturns(le: (string, string) -> bool, root: VirtualNode, focus: Option<Id>)
    requires var v := Visible(le, root, 0);
      var i := FocusIndex(v, focus);
      0 <= i < |v| - 1 && FocusIndex(v, Some(v[i + 1].node.id)) == i + 1
    ensures var down := Navigate(le, Files, ArrowDown, root, focus);
      Navigate(le, Files, ArrowUp, root, down.focus).focus == focus
  {
  }

  /** ArrowRight on a collapsed folder toggles it and keeps the focus; on an open folder it
      focuses one of the folder's own children, the first in insertion order. */
  lemma RightOpensOrDescends(le: (string, string) -> bool, root: VirtualNode, focus: Option<Id>)
    requires var v := Visible(le, root, 0); 0 <= FocusIndex(v, focus)
    ensures var v := Visible(le, root, 0);
      var n := v[FocusIndex(v, focus)].node;
      var r := Navigate(le, Files, ArrowRight, root, focus);
      (n.kind == Folder && !n.isExpanded ==> r == Step(focus, [Toggle(n.id)])) &&
      (Open(n) ==> r == Step(Some(n.children[0].id), []) && r.focus.value in Kids(n)) &&
      (n.kind == File ==> r == Step(focus, []))
  {
    var v := Visible(le, root, 0);
    var n := v[FocusIndex(v, focus)].node;
    if Open(n) {
      assert Kids(n)[0] == n.children[0].id;
    }
  }

  /** Insertion order is not display order: on an open folder whose first child is a file
      and whose second is a folder, ArrowRight skips the folder row shown first. */
  lemma RightSkipsSortedFirst(le: (string, string) -> bool, root: VirtualNode, file: VirtualNode, folder: VirtualNode)
    requires file.kind == File && folder.kind == Folder && file.id != folder.id
    requires root.kind == Folder && root.isExpanded && root.children == [file, folder]
    ensures Navigate(le, Files, ArrowRight, root, Some(root.id)) == Step(Some(file.id), [])
    ensures SortChildren(le, root.children)[0] == folder
  {
    VisibleHead(le, root, 0);
    var v := Visible(le, root, 0);
    assert FocusIndex(v, Some(root.id)) == 0;
    FolderSortsFirst(le, file, folder);
  }

  lemma FolderSortsFirst(le: (string, string) -> bool, file: VirtualNode, folder: VirtualNode)
    requires file.kind == File && folder.kind == Folder
    ensures SortChildren(le, [file, folder]) == [folder, file]
  {
    assert [file, folder][1..] == [folder];
    assert SortChildren(le, [folder]) == [folder] by {
      assert [folder][1..] == [];
    }
    assert Insert(le, file, [folder]) == [folder, file] by {
      assert !NodeLe(le, file, folder);
      assert [folder][1..] == [];
    }
  }

  /** ArrowLeft collapses an open folder; from any other row it focuses the parent, and on
      the root of a tree with unique ids it does nothing. */
  lemma LeftClosesOrAscends(le: (string, string) -> bool, root: VirtualNode, focus: Option<Id>)
    requires var v := Visible(le, root, 0); 0 <= FocusIndex(v, focus)
    ensures var v := Visible(le, root, 0);
      var n := v[FocusIndex(v, focus)].node;
      var r := Navigate(le, Files, ArrowLeft, root, focus);
      (n.kind == Folder && n.isExpanded ==> r == Step(focus, [Toggle(n.id)])) &&
      (!(n.kind == Folder && n.isExpanded) ==>
        r == if FindParent(root, n.id).Some? then Step(Some(FindParent(root, n.id).value.id), [])
             else Step(focus, [])) &&
      (!(n.kind == Folder && n.isExpanded) && r.focus != focus ==>
        r.actions == [] && FindParent(root, n.id).Some? &&
        r.focus == Some(FindParent(root, n.id).value.id) &&
        n.id in Kids(FindParent(root, n.id).value) && FindParent(root, n.id).value.id in Ids(root))
  {
  }

  /** ArrowLeft on the root row keeps the focus when ids are unique. */
  lemma LeftStopsAtRoot(le: (string, string) -> bool, root: VirtualNode)
    requires UniqueIds(root) && !(root.kind == Folder && root.isExpanded)
    ensures Navigate(le, Files, ArrowLeft, root, Some(root.id)) == Step(Some(root.id), [])
  {
    VisibleHead(le, root, 0);
    assert FocusIndex(Visible(le, root, 0), Some(root.id)) == 0;
    RootHasNoParent(root);
  }

  /** Enter toggles a focused folder and selects a focused file, keeping the focus. */
  lemma EnterActivates(le: (string, string) -> bool, root: VirtualNode, focus: Option<Id>)
    requires var v := Visible(le, root, 0); 0 <= FocusIndex(v, focus)
    ensures var v := Visible(le, root, 0);
      var n := v[FocusIndex(v, focus)].node;
      Navigate(le, Files, Enter, root, focus) ==
        Step(focus, [if n.kind == Folder then Toggle(n.id) else Select(n.id)])
  {
  }

  // ---------------------------------------------------------------------------
  // The resize handle

  const MinWidth: real := 150.0
  const MaxWidth: real := 500.0

  /** `Math.max(150, Math.min(500, w))`. */
  function ClampWidth(w: real): (r: real)
    ensures MinWidth <= r <= MaxWidth
    ensures MinWidth <= w <= MaxWidth ==> r == w
    ensures w < MinWidth ==> r == MinWidth
    ensures w > MaxWidth ==> r == MaxWidth
  {
    var m := if MaxWidth < w then MaxWidth else w;
    if MinWidth < m then m else MinWidth
  }

  /** Clamping twice is clamping once, and a wider drag never gives a narrower side bar. */
  lemma ClampMonotone(a: real, b: real)
    requires a <= b
    ensures ClampWidth(a) <= ClampWidth(b)
    ensures ClampWidth(ClampWidth(a)) == ClampWidth(a)
  {
  }

  /** The closure variables of the resize effect. */
  class ResizeHandle {
    var isResizing: bool
    var startX: real
    var startWidth: real

    constructor ()
      ensures !isResizing && startX == 0.0 && startWidth == 0.0
    {
      isResizing := false;
      startX := 0.0;
      startWidth := 0.0;
    }

    /** `handleMouseDown`: start a drag at `clientX` from the current width. */
    method MouseDown(clientX: real, sidebarWidth: real)
      modifies this
      ensures isResizing && startX == clientX && startWidth == sidebarWidth
    {
      isResizing := true;
      startX := clientX;
      startWidth := sidebarWidth;
    }

    /** `handleMouseMove`: during a drag, the width passed to `onResize`: the start width
        moved by the pointer's travel, clamped to the allowed range. */
    method MouseMove(clientX: real) returns (width: Option<real>)
      ensures width.Some? <==> isResizing
      ensures width.Some? ==> MinWidth <= width.value <= MaxWidth
      ensures width.Some? ==> width.value == ClampWidth(startWidth + (clientX - startX))
    {
      if !isResizing {
        return None;
      }
      var delta := clientX - startX;
      var newWidth := ClampWidth(startWidth + delta);
      width := Some(newWidth);
    }

    /** `handleMouseUp`: end the drag. */
    method MouseUp()
      modifies this`isResizing
      ensures !isResizing
    {
      isResizing := false;
    }

    /** The effect runs again when `sidebarWidth` or `onResize` changes: the old listeners
        are removed and a fresh closure starts, not resizing, whatever drag was under way. */
    method Rerun()
      modifies this
      ensures !isResizing && startX == 0.0 && startWidth == 0.0
    {
      isResizing := false;
      startX := 0.0;
      startWidth := 0.0;
    }
  }

  /** The widths `onResize` receives over one drag from `startX` at width `width`, with the
      pointer at each of `moves` in turn, when the parent feeds every reported width back as
      `sidebarWidth`, as written. A width that differs from the current one re-runs the
      effect (`Rerun`), so the drag stops there; an unchanged width re-runs nothing. */
  function DragAsWritten(startX: real, width: real, moves: seq<real>): seq<real>
  {
    if moves == [] then []
    else
      var w := ClampWidth(width + (moves[0] - startX));
      if w != width then [w] else [w] + DragAsWritten(startX, width, moves[1..])
  }

  /** The widths a drag evidently should report: one per move, the start width moved by the
      pointer's travel and clamped, until the mouse is released. */
  function DragWidths(startX: real, width: real, moves: seq<real>): (r: seq<real>)
    ensures |r| == |moves|
    ensures forall i :: 0 <= i < |moves| ==> r[i] == ClampWidth(width + (moves[i] - startX))
  {
    if moves == [] then []
    else [ClampWidth(width + (moves[0] - startX))] + DragWidths(startX, width, moves[1..])
  }

  /** One drag on the handle as written: the mouse goes down at `startX` on a bar of width
      `width` and the pointer visits `moves`; a reported width that changes the bar is fed
      back as `sidebarWidth`, which re-runs the effect. */
  method Drag(h: ResizeHandle, startX: real, width: real, moves: seq<real>) returns (reported: seq<real>)
    modifies h
    ensures reported == DragAsWritten(startX, width, moves)
  {
    h.MouseDown(startX, width);
    reported := [];
    var i := 0;
    while i < |moves|
      invariant 0 <= i <= |moves|
      invariant h.isResizing ==> h.startX == startX && h.startWidth == width
      invariant h.isResizing ==>
        reported + DragAsWritten(startX, width, moves[i..]) == DragAsWritten(startX, width, moves)
      invariant !h.isResizing ==> reported == DragAsWritten(startX, width, moves)
    {
      var w := h.MouseMove(moves[i]);
      if w.Some? {
        assert moves[i..][1..] == moves[i + 1..];
        reported := reported + [w.value];
        if w.value != width {
          h.Rerun();
        }
      }
      i := i + 1;
    }
  }

  /** As written, a drag reports a prefix of the intended widths, and it stops after the
      first width that changes the side bar. */
  lemma {:induction false} DragAsWrittenPrefix(startX: real, width: real, moves: seq<real>)
    ensures var r := DragAsWritten(startX, width, moves);
      r <= DragWidths(startX, width, moves) &&
      (forall i :: 0 <= i < |r| - 1 ==> r[i] == width) &&
      (|r| < |moves| ==> |r| > 0 && r[|r| - 1] != width)
  {
    if moves != [] {
      DragAsWrittenPrefix(startX, width, moves[1..]);
    }
  }

  /** As written: dragging the 200-wide bar by 10 and then by 20 reports only the first
      width, so the bar stops at 210 although the pointer went on to 220. */
  lemma DragStopsAfterFirstCommit()
    ensures DragAsWritten(0.0, 200.0, [10.0, 20.0]) == [210.0]
    ensures DragWidths(0.0, 200.0, [10.0, 20.0]) == [210.0, 220.0]
  {
  }

  /** Corrected: a drag that keeps its closure follows the pointer to the last move, and
      a bar dragged within range ends exactly where the pointer left it. */
  lemma DragFollowsPointer(startX: real, width: real, moves: seq<real>)
    requires moves != []
    ensures var r := DragWidths(startX, width, moves);
      var last := width + (moves[|moves| - 1] - startX);
      r[|r| - 1] == ClampWidth(last) && (MinWidth <= last <= MaxWidth ==> r[|r| - 1] == last)
  {
  }
}
