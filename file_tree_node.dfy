/** The behaviour of one row of the tree view (src/components/sidebar/FileTreeNode.tsx):
    the subtree test behind drag and drop, the drop guard, and the rename, create and
    keyboard handlers with the component state they update and the callbacks they fire. */
module FileTreeNodes {
  import opened Wrappers
  import opened Seqs
  import opened VirtualNodes
  import opened VfsTree
  import opened SidebarUtils

  /** Where a dragged row would land relative to this one. */
  datatype DropPosition = Before | After | Inside

  /** A callback the component fires, recorded in the order it is fired. */
  datatype Action =
    | RenameFile(id: Id, newName: string)
    | CreateFile(parentId: Id, name: string, kind: Option<FileType>)
    | MoveFile(fileId: Id, targetFolderId: Id)
    | ToggleFolder(id: Id)
    | FinishCreating
    | DeleteFile(id: Id)
    | FocusNode(id: Id)
    | SelectFile(id: Id)

  /** The keys the row reacts to. */
  datatype RowKey = F2 | Delete | OtherKey

  // ---------------------------------------------------------------------------
  // checkCircular

  /** `checkCircular(n, targetId)`: whether `targetId` is `n` or one of its descendants. */
  function CheckCircular(n: VirtualNode, targetId: Id): (r: bool)
    ensures r <==> targetId in Ids(n)
    decreases n, 1
  {
    n.id == targetId || CheckCircularIn(n, n.children, targetId)
  }

  /** The early-exit loop over the children of `n`. */
  function CheckCircularIn(n: VirtualNode, cs: seq<VirtualNode>, targetId: Id): (r: bool)
    requires forall k :: 0 <= k < |cs| ==> cs[k] in n.children
    ensures r <==> targetId in IdsOf(cs)
    decreases n, 0, |cs|
  {
    if cs == [] then false
    else
      assert cs[0] in n.children;
      assert IdsOf(cs) == Ids(cs[0]) + IdsOf(cs[1..]);
      CheckCircular(cs[0], targetId) || CheckCircularIn(n, cs[1..], targetId)
  }

  // ---------------------------------------------------------------------------
  // handleDragOver

  /** The drop zone under the pointer, `y` pixels below the top of a row `height` high:
      a folder row splits into a top quarter, a middle half and a bottom quarter, a file
      row into two halves. */
  function DropZone(kind: FileType, y: real, height: real): (r: DropPosition)
    ensures r == Inside ==> kind == Folder
    ensures kind == Folder && 4.0 * y < height ==> r == Before
    ensures kind == File ==> (r == Before <==> 2.0 * y < height)
  {
    if kind == Folder then
      if y < height * 0.25 then Before
      else if y > height * 0.75 then After
      else Inside
    else if y < height / 2.0 then Before else After
  }

  /** On a folder row of positive height the middle band is `inside`: a drop there is the
      only way to move a node into a folder. */
  lemma FolderMiddleInside(y: real, height: real)
    requires height > 0.0 && height / 4.0 <= y <= 3.0 * height / 4.0
    ensures DropZone(Folder, y, height) == Inside
  {
  }

  // ---------------------------------------------------------------------------
  // handleDrop

  /** The guard of `handleDrop` as written, on the row `node`: a non-empty dragged id other
      than the row's own, a move handler, a folder row, the `inside` zone, and the dragged
      id not already in the row's subtree. */
  predicate DropMovesAsWritten(node: VirtualNode, draggedId: Id, position: Option<DropPosition>, hasMoveHandler: bool)
  {
    hasMoveHandler && draggedId != "" && draggedId != node.id &&
    node.kind == Folder && position == Some(Inside) && !CheckCircular(node, draggedId)
  }

  /** The guard with the cycle test the source misses: the row must not lie in the
      subtree of the dragged node either, found in the whole tree `root`. */
  predicate DropMoves(root: VirtualNode, node: VirtualNode, draggedId: Id, position: Option<DropPosition>,
                      hasMoveHandler: bool)
  {
    DropMovesAsWritten(node, draggedId, position, hasMoveHandler) &&
    match Find(root, draggedId)
    case Some(dragged) => !CheckCircular(dragged, node.id)
    case None => true
  }

  /** What a drop fires under the guard as written: the move, then the expansion of a
      collapsed target. */
  function DropActionsAsWritten(node: VirtualNode, draggedId: Id, position: Option<DropPosition>,
                                hasMoveHandler: bool): (r: seq<Action>)
    ensures r != [] <==> DropMovesAsWritten(node, draggedId, position, hasMoveHandler)
    ensures r != [] ==> r[0] == MoveFile(draggedId, node.id)
    ensures r != [] ==> (|r| == 2 <==> !node.isExpanded) && |r| <= 2
    ensures |r| == 2 ==> r[1] == ToggleFolder(node.id)
  {
    if !DropMovesAsWritten(node, draggedId, position, hasMoveHandler) then []
    else [MoveFile(draggedId, node.id)] + (if !node.isExpanded then [ToggleFolder(node.id)] else [])
  }

  /** What a drop fires under the corrected guard. */
  function DropActions(root: VirtualNode, node: VirtualNode, draggedId: Id, position: Option<DropPosition>,
                       hasMoveHandler: bool): (r: seq<Action>)
    ensures r != [] <==> DropMoves(root, node, draggedId, position, hasMoveHandler)
    ensures r != [] ==> r[0] == MoveFile(draggedId, node.id)
    ensures r != [] ==> (|r| == 2 <==> !node.isExpanded) && |r| <= 2
    ensures |r| == 2 ==> r[1] == ToggleFolder(node.id)
  {
    if !DropMoves(root, node, draggedId, position, hasMoveHandler) then []
    else DropActionsAsWritten(node, draggedId, position, hasMoveHandler)
  }

  /** The corrected handler fires what the handler as written fires, except that it fires
      nothing when the target row lies in the subtree of the dragged node. */
  lemma DropActionsCorrection(root: VirtualNode, node: VirtualNode, draggedId: Id, position: Option<DropPosition>,
                              hasMoveHandler: bool)
    ensures DropActions(root, node, draggedId, position, hasMoveHandler) ==
      if node.id in SubtreeIds(root, draggedId) then []
      else DropActionsAsWritten(node, draggedId, position, hasMoveHandler)
  {
  }

  /** No drop the corrected guard lets through puts a folder inside its own subtree: the
      target row is neither the dragged node nor one of its descendants. */
  lemma DropKeepsTree(root: VirtualNode, node: VirtualNode, draggedId: Id, position: Option<DropPosition>,
                      hasMoveHandler: bool)
    requires DropMoves(root, node, draggedId, position, hasMoveHandler)
    ensures node.id !in SubtreeIds(root, draggedId)
    ensures draggedId != "" && draggedId != node.id && draggedId !in Ids(node)
  {
  }

  /** A child is in its parent's subtree, and with distinct ids the parent is not in the
      child's. */
  lemma ChildBelow(a: VirtualNode, b: VirtualNode)
    requires UniqueIds(a) && b in a.children
    ensures b.id in Ids(a) && a.id !in Ids(b)
  {
    InChildrenIds(b, a.children);
    assert Ids(a) == [a.id] + IdsOf(a.children);
    DistinctSplit([a.id], IdsOf(a.children));
  }

  /** The guard as written lets a folder `a` be dropped inside its own child folder `b`:
      `checkCircular(b, a.id)` looks for `a` below `b`, where it never is. */
  lemma DropIntoOwnChild(a: VirtualNode, b: VirtualNode)
    requires UniqueIds(a) && b in a.children && b.kind == Folder && a.id != ""
    ensures DropMovesAsWritten(b, a.id, Some(Inside), true)
    ensures DropActionsAsWritten(b, a.id, Some(Inside), true)[0] == MoveFile(a.id, b.id)
    ensures b.id in Ids(a)
  {
    ChildBelow(a, b);
  }

  /** The corrected guard refuses that drop whenever the tree holds `a`. */
  lemma DropIntoOwnChildRefused(root: VirtualNode, a: VirtualNode, b: VirtualNode)
    requires Find(root, a.id) == Some(a) && b in a.children
    ensures !DropMoves(root, b, a.id, Some(Inside), true)
  {
    InChildrenIds(b, a.children);
    assert Ids(a) == [a.id] + IdsOf(a.children);
  }

  // ---------------------------------------------------------------------------
  // The component

  class FileTreeNode {
    /** The `node` prop. */
    const node: VirtualNode
    var isRenaming: bool
    var renameValue: string
    var createValue: string
    var isDragOver: bool
    var dropPosition: Option<DropPosition>
    /** The callbacks fired so far. */
    var fired: seq<Action>

    constructor (node: VirtualNode)
      ensures this.node == node && !isRenaming && renameValue == node.name && createValue == ""
      ensures !isDragOver && dropPosition == None && fired == []
    {
      this.node := node;
      isRenaming := false;
      renameValue := node.name;
      createValue := "";
      isDragOver := false;
      dropPosition := None;
      fired := [];
    }

    /** `handleRename`: enter renaming mode with the current name in the input. */
    method HandleRename()
      modifies this`isRenaming, this`renameValue
      ensures isRenaming && renameValue == node.name
    {
      isRenaming := true;
      renameValue := node.name;
    }

    /** The input's `onChange` while renaming. */
    method SetRenameValue(value: string)
      modifies this`renameValue
      ensures renameValue == value
    {
      renameValue := value;
    }

    /** `handleRenameSubmit`: rename only to a non-empty, different name; leave renaming mode. */
    method HandleRenameSubmit()
      modifies this`isRenaming, this`fired
      ensures !isRenaming
      ensures fired == old(fired) + (if renameValue != "" && renameValue != node.name
                                     then [RenameFile(node.id, renameValue)] else [])
    {
      if renameValue != "" && renameValue != node.name {
        fired := fired + [RenameFile(node.id, renameValue)];
      }
      isRenaming := false;
    }

    /** `handleRenameCancel`: restore the name and leave renaming mode, firing nothing. */
    method HandleRenameCancel()
      modifies this`isRenaming, this`renameValue
      ensures !isRenaming && renameValue == node.name
    {
      renameValue := node.name;
      isRenaming := false;
    }

    /** The create input's `onChange`. */
    method SetCreateValue(value: string)
      modifies this`createValue
      ensures createValue == value
    {
      createValue := value;
    }

    /** `handleCreateSubmit`: create only a non-empty name under a folder; then clear the
        input and finish creating. */
    method HandleCreateSubmit(createType: Option<FileType>)
      modifies this`createValue, this`fired
      ensures createValue == ""
      ensures fired == old(fired) + (if old(createValue) != "" && node.kind == Folder
                                     then [CreateFile(node.id, old(createValue), createType)] else [])
                                  + [FinishCreating]
    {
      if createValue != "" && node.kind == Folder {
        fired := fired + [CreateFile(node.id, createValue, createType)];
      }
      createValue := "";
      fired := fired + [FinishCreating];
    }

    /** `handleCreateCancel`: clear the input and finish creating. */
    method HandleCreateCancel()
      modifies this`createValue, this`fired
      ensures createValue == "" && fired == old(fired) + [FinishCreating]
    {
      createValue := "";
      fired := fired + [FinishCreating];
    }

    /** `handleClick`: focus the row, then toggle a folder or select a file. */
    method HandleClick()
      modifies this`fired
      ensures fired == old(fired) + [FocusNode(node.id)] +
        (if node.kind == Folder then [ToggleFolder(node.id)] else [SelectFile(node.id)])
    {
      fired := fired + [FocusNode(node.id)];
      if node.kind == Folder {
        fired := fired + [ToggleFolder(node.id)];
      } else {
        fired := fired + [SelectFile(node.id)];
      }
    }

    /** `handleDragOver`: with a move handler, record the zone under the pointer. */
    method HandleDragOver(y: real, height: real, hasMoveHandler: bool)
      modifies this`dropPosition, this`isDragOver
      ensures hasMoveHandler ==> dropPosition == Some(DropZone(node.kind, y, height)) && isDragOver
      ensures !hasMoveHandler ==> dropPosition == old(dropPosition) && isDragOver == old(isDragOver)
    {
      if !hasMoveHandler {
        return;
      }
      if node.kind == Folder {
        if y < height * 0.25 {
          dropPosition := Some(Before);
        } else if y > height * 0.75 {
          dropPosition := Some(After);
        } else {
          dropPosition := Some(Inside);
        }
      } else {
        dropPosition := Some(if y < height / 2.0 then Before else After);
      }
      isDragOver := true;
    }

    /** `handleDragLeave`. */
    method HandleDragLeave()
      modifies this`dropPosition, this`isDragOver
      ensures dropPosition == None && !isDragOver
    {
      isDragOver := false;
      dropPosition := None;
    }

    /** `handleDrop` with the corrected guard: the drop zone is consumed, and the move and
        the expansion are fired exactly when `DropMoves` holds. */
    method HandleDrop(root: VirtualNode, draggedId: Id, hasMoveHandler: bool)
      modifies this`dropPosition, this`isDragOver, this`fired
      ensures dropPosition == None && !isDragOver
      ensures fired == old(fired) + DropActions(root, node, draggedId, old(dropPosition), hasMoveHandler)
    {
      isDragOver := false;
      var currentDropPosition := dropPosition;
      dropPosition := None;
      if !hasMoveHandler {
        return;
      }
      if draggedId == "" || draggedId == node.id {
        return;
      }
      if node.kind == Folder && currentDropPosition == Some(Inside) {
        var circular := CheckCircular(node, draggedId);
        var dragged := Find(root, draggedId);
        var cycle := dragged.Some? && CheckCircular(dragged.value, node.id);
        if !circular && !cycle {
          fired := fired + [MoveFile(draggedId, node.id)];
          if !node.isExpanded {
            fired := fired + [ToggleFolder(node.id)];
          }
        }
      }
    }

    /** `handleDrop` as written: the drop zone is consumed, and the move and the expansion
        are fired exactly when `DropMovesAsWritten` holds, a folder dropped on one of its
        own descendants included. */
    method HandleDropAsWritten(draggedId: Id, hasMoveHandler: bool)
      modifies this`dropPosition, this`isDragOver, this`fired
      ensures dropPosition == None && !isDragOver
      ensures fired == old(fired) + DropActionsAsWritten(node, draggedId, old(dropPosition), hasMoveHandler)
    {
      isDragOver := false;
      var currentDropPosition := dropPosition;
      dropPosition := None;
      if !hasMoveHandler {
        return;
      }
      if draggedId == "" || draggedId == node.id {
        return;
      }
      if node.kind == Folder && currentDropPosition == Some(Inside) {
        if !CheckCircular(node, draggedId) {
          fired := fired + [MoveFile(draggedId, node.id)];
          if !node.isExpanded {
            fired := fired + [ToggleFolder(node.id)];
          }
        }
      }
    }

    /** `handleKeyDown`: F2 starts renaming and Delete, once confirmed, deletes the node,
        but only on the focused row and only while it is neither renaming nor creating. */
    method HandleKeyDown(key: RowKey, isFocused: bool, isCreatingHere: bool, confirmed: bool)
      modifies this`isRenaming, this`renameValue, this`fired
      ensures !(isFocused && !old(isRenaming) && !isCreatingHere) ==>
        isRenaming == old(isRenaming) && renameValue == old(renameValue) && fired == old(fired)
      ensures isFocused && !old(isRenaming) && !isCreatingHere && key == F2 ==>
        isRenaming && renameValue == node.name && fired == old(fired)
      ensures isFocused && !old(isRenaming) && !isCreatingHere && key == Delete ==>
        !isRenaming && renameValue == old(renameValue) &&
        fired == old(fired) + (if confirmed then [DeleteFile(node.id)] else [])
      ensures key == OtherKey ==>
        isRenaming == old(isRenaming) && renameValue == old(renameValue) && fired == old(fired)
    {
      if isFocused && !isRenaming && !isCreatingHere {
        match key {
          case F2 => HandleRename();
          case Delete =>
            if confirmed {
              fired := fired + [DeleteFile(node.id)];
            }
          case OtherKey =>
        }
      }
    }
  }
}
