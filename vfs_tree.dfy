/** The recursive walks that src/stores/fileStore.ts performs over the tree
    (`traverse`, the early-exit `updateNode`/`addToParent`/`renameNode`/`toggleNode`
    searches and `removeFromParent`), and a flat view of the tree that lets each
    walk's effect be stated node by node. */
module VfsTree {
  import opened Wrappers
  import opened Seqs
  import opened OrderedMap
  import opened VirtualNodes
  import opened Maps

  // ---------------------------------------------------------------------------
  // Ids and lookup

  /** Ids of `n` and of all its descendants, in pre-order. */
  function Ids(n: VirtualNode): seq<Id>
    decreases n
  {
    [n.id] + IdsOf(n.children)
  }

  function IdsOf(cs: seq<VirtualNode>): seq<Id>
    decreases cs
  {
    if cs == [] then [] else Ids(cs[0]) + IdsOf(cs[1..])
  }

  /** All nodes of the tree, in pre-order. */
  function Nodes(n: VirtualNode): seq<VirtualNode>
    decreases n
  {
    [n] + NodesOf(n.children)
  }

  function NodesOf(cs: seq<VirtualNode>): seq<VirtualNode>
    decreases cs
  {
    if cs == [] then [] else Nodes(cs[0]) + NodesOf(cs[1..])
  }

  /** Ids of the direct children, in the order of the children map. */
  function ChildIds(cs: seq<VirtualNode>): (r: seq<Id>)
    ensures |r| == |cs|
    ensures forall i :: 0 <= i < |cs| ==> r[i] == cs[i].id
  {
    if cs == [] then [] else [cs[0].id] + ChildIds(cs[1..])
  }

  /** No id occurs twice in the tree: what lets the store's `Map` be keyed by id. */
  ghost predicate UniqueIds(n: VirtualNode) {
    Distinct(Ids(n))
  }

  /** The first node with id `id` in pre-order, as the store's depth-first searches find it. */
  function Find(n: VirtualNode, id: Id): (r: Option<VirtualNode>)
    ensures r.Some? <==> id in Ids(n)
    ensures r.Some? ==> r.value.id == id
    decreases n
  {
    if n.id == id then Some(n) else FindIn(n.children, id)
  }

  function FindIn(cs: seq<VirtualNode>, id: Id): (r: Option<VirtualNode>)
    ensures r.Some? <==> id in IdsOf(cs)
    ensures r.Some? ==> r.value.id == id
    decreases cs
  {
    if cs == [] then None
    else
      match Find(cs[0], id)
      case Some(m) => Some(m)
      case None => FindIn(cs[1..], id)
  }

  /** The ids of the subtree rooted at the node with id `id` (none if there is no such node). */
  function SubtreeIds(n: VirtualNode, id: Id): seq<Id>
  {
    match Find(n, id)
    case Some(m) => Ids(m)
    case None => []
  }

  lemma ChildIdsInIds(cs: seq<VirtualNode>)
    ensures forall x :: x in ChildIds(cs) ==> x in IdsOf(cs)
  {
    if cs != [] {
      ChildIdsInIds(cs[1..]);
      assert ChildIds(cs) == [cs[0].id] + ChildIds(cs[1..]);
    }
  }

  lemma IdsOfAppend(cs: seq<VirtualNode>, c: VirtualNode)
    ensures IdsOf(cs + [c]) == IdsOf(cs) + Ids(c)
  {
    if cs == [] {
      assert cs + [c] == [c];
      assert IdsOf([c]) == Ids(c) + IdsOf([]);
    } else {
      assert (cs + [c])[1..] == cs[1..] + [c];
      IdsOfAppend(cs[1..], c);
    }
  }

  // ---------------------------------------------------------------------------
  // The flat view: every node's own fields and the ids of its children, by id

  datatype Slot = Slot(own: VirtualNode, kids: seq<Id>)

  /** A node's own fields, without its subtree. */
  function Strip(n: VirtualNode): VirtualNode {
    n.(children := [])
  }

  function SlotOf(n: VirtualNode): Slot {
    Slot(Strip(n), ChildIds(n.children))
  }

  /** Every node of the tree, keyed by id. */
  function Flat(n: VirtualNode): map<Id, Slot>
    decreases n
  {
    FlatOf(n.children)[n.id := SlotOf(n)]
  }

  function FlatOf(cs: seq<VirtualNode>): map<Id, Slot>
    decreases cs
  {
    if cs == [] then map[] else Flat(cs[0]) + FlatOf(cs[1..])
  }

  /** The flat view is keyed by exactly the tree's ids. */
  lemma {:induction false} FlatKeys(n: VirtualNode)
    ensures forall k :: k in Flat(n) <==> k in Ids(n)
    decreases n
  {
    FlatOfKeys(n.children);
  }

  lemma {:induction false} FlatOfKeys(cs: seq<VirtualNode>)
    ensures forall k :: k in FlatOf(cs) <==> k in IdsOf(cs)
    decreases cs
  {
    if cs != [] {
      FlatKeys(cs[0]);
      FlatOfKeys(cs[1..]);
    }
  }

  lemma {:induction false} FlatOfAppend(cs: seq<VirtualNode>, c: VirtualNode)
    ensures FlatOf(cs + [c]) == FlatOf(cs) + Flat(c)
    decreases cs
  {
    if cs == [] {
      assert cs + [c] == [c];
      assert FlatOf([c]) == Flat(c) + FlatOf([]);
    } else {
      var ds := cs + [c];
      assert ds[0] == cs[0] && ds[1..] == cs[1..] + [c];
      FlatOfAppend(cs[1..], c);
      assert FlatOf(ds) == Flat(cs[0]) + (FlatOf(cs[1..]) + Flat(c));
      UnionAssoc(Flat(cs[0]), FlatOf(cs[1..]), Flat(c));
    }
  }

  /** With unique ids, the flat view holds each node's own slot. */
  lemma {:induction false} FlatAtFind(n: VirtualNode, id: Id)
    requires UniqueIds(n) && id in Ids(n)
    ensures id in Flat(n) && Flat(n)[id] == SlotOf(Find(n, id).value)
    decreases n
  {
    FlatKeys(n);
    if n.id != id {
      DistinctSplit([n.id], IdsOf(n.children));
      FlatOfAtFind(n.children, id);
    }
  }

  lemma {:induction false} FlatOfAtFind(cs: seq<VirtualNode>, id: Id)
    requires Distinct(IdsOf(cs)) && id in IdsOf(cs)
    ensures id in FlatOf(cs) && FlatOf(cs)[id] == SlotOf(FindIn(cs, id).value)
    decreases cs
  {
    DistinctSplit(Ids(cs[0]), IdsOf(cs[1..]));
    FlatKeys(cs[0]);
    FlatOfKeys(cs[1..]);
    if id in Ids(cs[0]) {
      FlatAtFind(cs[0], id);
    } else {
      FlatOfAtFind(cs[1..], id);
    }
  }

  /** Every child id recorded in the tree names a proper descendant of the root. */
  lemma {:induction false} KidsBelow(n: VirtualNode)
    ensures forall k, x :: k in Flat(n) && x in Flat(n)[k].kids ==> x in IdsOf(n.children)
    decreases n
  {
    KidsBelowIn(n.children);
    ChildIdsInIds(n.children);
  }

  lemma {:induction false} KidsBelowIn(cs: seq<VirtualNode>)
    ensures forall k, x :: k in FlatOf(cs) && x in FlatOf(cs)[k].kids ==> x in IdsOf(cs)
    decreases cs
  {
    if cs != [] {
      KidsBelow(cs[0]);
      KidsBelowIn(cs[1..]);
      var a, b := Ids(cs[0]), IdsOf(cs[1..]);
      assert IdsOf(cs) == a + b;
      assert forall x :: x in IdsOf(cs[0].children) ==> x in a;
    }
  }

  // ---------------------------------------------------------------------------
  // In-place edits reached by an early-exit depth-first search

  /** What the store does to the node it finds. `Rename` carries the language of the
      new name and the `allFiles` index that the source consults for the parent's path. */
  datatype Edit =
    | SetContent(content: string)
    | MarkClosed
    | Rename(newName: string, newLanguage: Language, index: seq<Entry<VirtualNode>>)
    | ToggleExpanded
    | AddChild(child: VirtualNode)

  /** The path a renamed node gets: under its parent's path when the parent is in the index. */
  function RenamedPath(n: VirtualNode, newName: string, index: seq<Entry<VirtualNode>>): string
  {
    var parent := if n.parentId.Some? && n.parentId.value != "" then Get(index, n.parentId.value) else None;
    if parent.Some? then parent.value.path + "/" + newName else n.path
  }

  function ApplyEdit(n: VirtualNode, e: Edit): VirtualNode
  {
    match e
    case SetContent(c) => if n.kind == File then n.(content := c, isDirty := true) else n
    case MarkClosed => n.(isOpen := false)
    case Rename(newName, newLanguage, index) =>
      n.(name := newName,
         path := RenamedPath(n, newName, index),
         language := if n.kind == File then Some(newLanguage) else n.language)
    case ToggleExpanded => n.(isExpanded := !n.isExpanded)
    case AddChild(c) => n.(children := n.children + [c])
  }

  /** The effect of an edit on the flat view's slot of the edited node. */
  function EditSlot(s: Slot, e: Edit): Slot
  {
    match e
    case AddChild(c) => Slot(s.own, s.kids + [c.id])
    case _ => Slot(ApplyEdit(s.own, e), s.kids)
  }

  /** Nodes an edit brings into the tree. */
  function Added(e: Edit): map<Id, Slot>
  {
    match e
    case AddChild(c) => Flat(c)
    case _ => map[]
  }

  /** The ids an edit brings into the tree. */
  function AddedIds(e: Edit): seq<Id>
  {
    match e
    case AddChild(c) => Ids(c)
    case _ => []
  }

  /** The flat view after editing the node keyed `id`, when there is one. */
  function Edited(m: map<Id, Slot>, id: Id, e: Edit): map<Id, Slot> {
    if id in m then m[id := EditSlot(m[id], e)] + Added(e) else m
  }

  /** Applies `e` to the first node with id `id` in pre-order; reports whether there was one. */
  function Modify(n: VirtualNode, id: Id, e: Edit): (bool, VirtualNode)
    decreases n
  {
    if n.id == id then (true, ApplyEdit(n, e))
    else
      var (found, cs) := ModifyIn(n.children, id, e);
      (found, n.(children := cs))
  }

  function ModifyIn(cs: seq<VirtualNode>, id: Id, e: Edit): (bool, seq<VirtualNode>)
    decreases cs
  {
    if cs == [] then (false, [])
    else
      var (found, c) := Modify(cs[0], id, e);
      if found then (true, [c] + cs[1..])
      else
        var (foundLater, rest) := ModifyIn(cs[1..], id, e);
        (foundLater, [cs[0]] + rest)
  }

  /** A search reports whether the id occurs; one that finds nothing changes nothing. */
  lemma {:induction false} ModifyFound(n: VirtualNode, id: Id, e: Edit)
    ensures Modify(n, id, e).0 == (id in Ids(n))
    ensures !Modify(n, id, e).0 ==> Modify(n, id, e).1 == n
    ensures Modify(n, id, e).1.id == n.id
    decreases n
  {
    if n.id != id {
      ModifyInFound(n.children, id, e);
    }
  }

  lemma {:induction false} ModifyInFound(cs: seq<VirtualNode>, id: Id, e: Edit)
    ensures ModifyIn(cs, id, e).0 == (id in IdsOf(cs))
    ensures !ModifyIn(cs, id, e).0 ==> ModifyIn(cs, id, e).1 == cs
    ensures ChildIds(ModifyIn(cs, id, e).1) == ChildIds(cs)
    decreases cs
  {
    if cs != [] {
      ModifyFound(cs[0], id, e);
      var c := Modify(cs[0], id, e).1;
      var cs' := ModifyIn(cs, id, e).1;
      assert ChildIds(cs) == [cs[0].id] + ChildIds(cs[1..]);
      if Modify(cs[0], id, e).0 {
        assert cs' == [c] + cs[1..];
        assert ChildIds(cs') == [c.id] + ChildIds(cs'[1..]);
        assert cs'[1..] == cs[1..];
      } else {
        ModifyInFound(cs[1..], id, e);
        var rest := ModifyIn(cs[1..], id, e).1;
        assert cs' == [cs[0]] + rest;
        assert ChildIds(cs') == [cs[0].id] + ChildIds(cs'[1..]);
        assert cs'[1..] == rest;
      }
    }
  }

  /** Editing a node keeps its own id and adds the ids an added child brings. */
  lemma EditIds(n: VirtualNode, e: Edit)
    ensures ApplyEdit(n, e).id == n.id
    ensures Ids(ApplyEdit(n, e)) == Ids(n) + AddedIds(e)
  {
    if e.AddChild? {
      IdsOfAppend(n.children, e.child);
    }
  }

  /** The edited tree holds the old ids plus the ones the edit brings. */
  lemma {:induction false} ModifyIds(n: VirtualNode, id: Id, e: Edit)
    ensures multiset(Ids(Modify(n, id, e).1)) ==
      multiset(Ids(n)) + (if id in Ids(n) then multiset(AddedIds(e)) else multiset{})
    decreases n
  {
    if n.id == id {
      EditIds(n, e);
    } else {
      ModifyInIds(n.children, id, e);
      var cs' := ModifyIn(n.children, id, e).1;
      assert Ids(Modify(n, id, e).1) == [n.id] + IdsOf(cs');
    }
  }

  lemma {:induction false} ModifyInIds(cs: seq<VirtualNode>, id: Id, e: Edit)
    ensures multiset(IdsOf(ModifyIn(cs, id, e).1)) ==
      multiset(IdsOf(cs)) + (if id in IdsOf(cs) then multiset(AddedIds(e)) else multiset{})
    decreases cs
  {
    if cs != [] {
      ModifyFound(cs[0], id, e);
      IdsOfCons(cs[0], cs[1..]);
      assert [cs[0]] + cs[1..] == cs;
      var m0, mt := multiset(Ids(cs[0])), multiset(IdsOf(cs[1..]));
      if Modify(cs[0], id, e).0 {
        var c := Modify(cs[0], id, e).1;
        ModifyIds(cs[0], id, e);
        IdsOfCons(c, cs[1..]);
        assert id in IdsOf(cs);
        MultisetSwap(m0, multiset(AddedIds(e)), mt);
      } else {
        ModifyInIds(cs[1..], id, e);
        IdsOfCons(cs[0], ModifyIn(cs[1..], id, e).1);
        assert (id in IdsOf(cs)) == (id in IdsOf(cs[1..]));
      }
    }
  }

  lemma MultisetSwap(x: multiset<Id>, y: multiset<Id>, z: multiset<Id>)
    ensures (x + y) + z == (x + z) + y
  {
  }

  /** The ids of a non-empty list of siblings: the first one's, then the others'. */
  lemma IdsOfCons(c: VirtualNode, rest: seq<VirtualNode>)
    ensures IdsOf([c] + rest) == Ids(c) + IdsOf(rest)
  {
    assert ([c] + rest)[0] == c && ([c] + rest)[1..] == rest;
  }

  /** An edit that adds no child keeps the tree's ids, in order. */
  lemma {:induction false} OwnEditIds(n: VirtualNode, id: Id, e: Edit)
    requires !e.AddChild?
    ensures Ids(Modify(n, id, e).1) == Ids(n)
    decreases n
  {
    if n.id != id {
      OwnEditIdsIn(n.children, id, e);
    }
  }

  lemma {:induction false} OwnEditIdsIn(cs: seq<VirtualNode>, id: Id, e: Edit)
    requires !e.AddChild?
    ensures IdsOf(ModifyIn(cs, id, e).1) == IdsOf(cs)
    decreases cs
  {
    if cs != [] {
      OwnEditIds(cs[0], id, e);
      var c := Modify(cs[0], id, e).1;
      var cs' := ModifyIn(cs, id, e).1;
      if Modify(cs[0], id, e).0 {
        assert cs' == [c] + cs[1..] && cs'[0] == c && cs'[1..] == cs[1..];
      } else {
        OwnEditIdsIn(cs[1..], id, e);
        var rest := ModifyIn(cs[1..], id, e).1;
        assert cs' == [cs[0]] + rest && cs'[0] == cs[0] && cs'[1..] == rest;
        assert c == cs[0] by { ModifyFound(cs[0], id, e); }
      }
    }
  }

  /** ... and the ids of every subtree. */
  lemma {:induction false} OwnEditSubtree(n: VirtualNode, id: Id, e: Edit, k: Id)
    requires !e.AddChild?
    ensures SubtreeIds(Modify(n, id, e).1, k) == SubtreeIds(n, k)
    decreases n
  {
    var n' := Modify(n, id, e).1;
    ModifyHead(n, id, e);
    if n.id == k {
      OwnEditIds(n, id, e);
    } else if n.id == id {
      assert n'.children == n.children;
    } else {
      OwnEditSubtreeIn(n.children, id, e, k);
    }
  }

  lemma {:induction false} OwnEditSubtreeIn(cs: seq<VirtualNode>, id: Id, e: Edit, k: Id)
    requires !e.AddChild?
    ensures match FindIn(ModifyIn(cs, id, e).1, k)
      case Some(m) => FindIn(cs, k).Some? && Ids(m) == Ids(FindIn(cs, k).value)
      case None => FindIn(cs, k).None?
    decreases cs
  {
    OwnEditIdsIn(cs, id, e);
    if cs != [] {
      var c := Modify(cs[0], id, e).1;
      var cs' := ModifyIn(cs, id, e).1;
      OwnEditIds(cs[0], id, e);
      OwnEditSubtree(cs[0], id, e, k);
      if Modify(cs[0], id, e).0 {
        assert cs' == [c] + cs[1..] && cs'[0] == c && cs'[1..] == cs[1..];
      } else {
        OwnEditSubtreeIn(cs[1..], id, e, k);
        var rest := ModifyIn(cs[1..], id, e).1;
        assert cs' == [cs[0]] + rest && cs'[0] == cs[0] && cs'[1..] == rest;
      }
    }
  }

  /** So such an edit leaves what a later removal of any id takes out unchanged. */
  lemma OwnEditDetached(n: VirtualNode, id: Id, e: Edit, k: Id)
    requires !e.AddChild?
    ensures Detached(Modify(n, id, e).1, k) == Detached(n, k)
  {
    var n' := Modify(n, id, e).1;
    OwnEditIds(n, id, e);
    OwnEditSubtree(n, id, e, k);
    ModifyHead(n, id, e);
    assert Ids(n') == [n.id] + IdsOf(n'.children);
    assert IdsOf(n'.children) == Ids(n')[1..];
  }

  /** Stripping the subtree commutes with every edit that does not add a child. */
  lemma StripEdit(n: VirtualNode, e: Edit)
    requires !e.AddChild?
    ensures Strip(ApplyEdit(n, e)) == ApplyEdit(Strip(n), e)
  {
  }

  lemma AddedKeys(e: Edit)
    ensures forall k :: k in Added(e) <==> k in AddedIds(e)
  {
    if e.AddChild? {
      FlatKeys(e.child);
    }
  }

  /** Adding a child records its id among the parent's kids and brings its nodes. */
  lemma AddChildFlat(n: VirtualNode, c: VirtualNode)
    requires n.id !in Ids(c)
    ensures Flat(ApplyEdit(n, AddChild(c))) == Flat(n)[n.id := EditSlot(SlotOf(n), AddChild(c))] + Flat(c)
  {
    var cs := n.children;
    var s := EditSlot(SlotOf(n), AddChild(c));
    var n' := n.(children := cs + [c]);
    assert ApplyEdit(n, AddChild(c)) == n';
    FlatOfAppend(cs, c);
    FlatKeys(c);
    assert ChildIds(cs + [c]) == ChildIds(cs) + [c.id];
    assert SlotOf(n') == s;
    assert Flat(n') == (FlatOf(cs) + Flat(c))[n.id := s];
    UpdateLeft(FlatOf(cs), Flat(c), n.id, s);
    UpdateTwice(FlatOf(cs), n.id, SlotOf(n), s);
  }

  /** Any other edit changes only the node's own slot. */
  lemma OwnEditFlat(n: VirtualNode, e: Edit)
    requires !e.AddChild?
    ensures Flat(ApplyEdit(n, e)) == Flat(n)[n.id := EditSlot(SlotOf(n), e)]
  {
    var n' := ApplyEdit(n, e);
    StripEdit(n, e);
    assert n'.id == n.id && n'.children == n.children;
    var s := EditSlot(SlotOf(n), e);
    assert SlotOf(n') == s;
    UpdateTwice(FlatOf(n.children), n.id, SlotOf(n), s);
  }

  /** Editing a node changes its own slot and brings the added child's nodes. */
  lemma EditFlat(n: VirtualNode, e: Edit)
    requires forall k :: k in AddedIds(e) ==> k !in Ids(n)
    ensures Flat(ApplyEdit(n, e)) == Flat(n)[n.id := EditSlot(SlotOf(n), e)] + Added(e)
  {
    if e.AddChild? {
      assert n.id in Ids(n);
      AddChildFlat(n, e.child);
    } else {
      OwnEditFlat(n, e);
    }
  }

  /** The effect of a search-and-edit on the flat view: exactly the found node's slot
      changes, and an added child brings its own nodes. */
  lemma {:induction false} ModifyFlat(n: VirtualNode, id: Id, e: Edit)
    requires UniqueIds(n)
    requires forall k :: k in AddedIds(e) ==> k !in Ids(n)
    ensures Flat(Modify(n, id, e).1) == Edited(Flat(n), id, e)
    decreases n
  {
    FlatKeys(n);
    ModifyFound(n, id, e);
    var cs := n.children;
    if n.id == id {
      EditFlat(n, e);
    } else if id in IdsOf(cs) {
      DistinctSplit([n.id], IdsOf(cs));
      ModifyInFlat(cs, id, e);
      ModifyInFound(cs, id, e);
      FlatOfKeys(cs);
      AddedKeys(e);
      assert n.id in Ids(n);
      var cs' := ModifyIn(cs, id, e).1;
      var m := FlatOf(cs);
      var v := EditSlot(m[id], e);
      assert Modify(n, id, e).1 == n.(children := cs');
      assert SlotOf(n.(children := cs')) == SlotOf(n);
      assert Flat(n)[id] == m[id];
      Relink(m, Added(e), n.id, SlotOf(n), id, v);
    }
  }

  lemma {:induction false} ModifyInFlat(cs: seq<VirtualNode>, id: Id, e: Edit)
    requires Distinct(IdsOf(cs))
    requires forall k :: k in AddedIds(e) ==> k !in IdsOf(cs)
    ensures FlatOf(ModifyIn(cs, id, e).1) == Edited(FlatOf(cs), id, e)
    decreases cs
  {
    ModifyInFound(cs, id, e);
    FlatOfKeys(cs);
    if cs != [] && id in IdsOf(cs) {
      DistinctSplit(Ids(cs[0]), IdsOf(cs[1..]));
      FlatKeys(cs[0]);
      FlatOfKeys(cs[1..]);
      AddedKeys(e);
      var f, g := Flat(cs[0]), FlatOf(cs[1..]);
      assert FlatOf(cs) == f + g;
      ModifyFound(cs[0], id, e);
      if id in Ids(cs[0]) {
        ModifyFlat(cs[0], id, e);
        var c := Modify(cs[0], id, e).1;
        var v := EditSlot(f[id], e);
        assert ModifyIn(cs, id, e).1 == [c] + cs[1..];
        assert ([c] + cs[1..])[1..] == cs[1..];
        assert FlatOf(cs)[id] == f[id];
        EditLeft(f, g, Added(e), id, v);
      } else {
        ModifyInFlat(cs[1..], id, e);
        var tail := ModifyIn(cs[1..], id, e).1;
        var v := EditSlot(g[id], e);
        assert ModifyIn(cs, id, e).1 == [cs[0]] + tail;
        assert ([cs[0]] + tail)[1..] == tail;
        assert FlatOf(cs)[id] == g[id];
        EditRight(f, g, Added(e), id, v);
      }
    }
  }

  /** Ids stay unique when an edit adds only fresh ids. */
  lemma ModifyUnique(n: VirtualNode, id: Id, e: Edit)
    requires UniqueIds(n) && Distinct(AddedIds(e))
    requires forall k :: k in AddedIds(e) ==> k !in Ids(n)
    ensures UniqueIds(Modify(n, id, e).1)
  {
    ModifyIds(n, id, e);
    DistinctConcat(Ids(n), AddedIds(e));
    DistinctSub(Ids(n) + AddedIds(e), Ids(Modify(n, id, e).1));
  }

  /** What the store relies on after each search-and-edit: ids stay unique, the root keeps
      its id and kind, and the flat view changes exactly as `Edited` says. */
  lemma EditKeeps(n: VirtualNode, id: Id, e: Edit)
    requires UniqueIds(n) && Distinct(AddedIds(e))
    requires forall k :: k in AddedIds(e) ==> k !in Ids(n)
    ensures UniqueIds(Modify(n, id, e).1)
    ensures Modify(n, id, e).1.id == n.id && Modify(n, id, e).1.kind == n.kind
    ensures Flat(Modify(n, id, e).1) == Edited(Flat(n), id, e)
  {
    ModifyFlat(n, id, e);
    ModifyUnique(n, id, e);
    ModifyHead(n, id, e);
  }

  // ---------------------------------------------------------------------------
  // removeFromParent

  /** The children without the one keyed `id` (`children.delete(id)`). */
  function RemoveChild(cs: seq<VirtualNode>, id: Id): (r: seq<VirtualNode>)
    ensures ChildIds(r) == RemoveAll(ChildIds(cs), id)
  {
    if cs == [] then []
    else
      assert ChildIds(cs) == [cs[0].id] + ChildIds(cs[1..]);
      var rest := RemoveChild(cs[1..], id);
      if cs[0].id == id then rest
      else
        assert ChildIds([cs[0]] + rest) == [cs[0].id] + ChildIds(rest);
        [cs[0]] + rest
  }

  /** Removes the node with id `id` from the first folder, in pre-order, listing it as a child. */
  function Detach(n: VirtualNode, id: Id): (bool, VirtualNode)
    decreases n
  {
    if id in ChildIds(n.children) then (true, n.(children := RemoveChild(n.children, id)))
    else
      var (found, cs) := DetachIn(n.children, id);
      (found, n.(children := cs))
  }

  function DetachIn(cs: seq<VirtualNode>, id: Id): (bool, seq<VirtualNode>)
    decreases cs
  {
    if cs == [] then (false, [])
    else
      var (found, c) := Detach(cs[0], id);
      if found then (true, [c] + cs[1..])
      else
        var (foundLater, rest) := DetachIn(cs[1..], id);
        (foundLater, [cs[0]] + rest)
  }

  /** Ids of a node's direct children. */
  function Kids(n: VirtualNode): seq<Id> {
    ChildIds(n.children)
  }

  /** The ids a removal takes out of the tree: the subtree of `id` when `id` is a proper
      descendant of the root (the root is nobody's child). */
  function Detached(n: VirtualNode, id: Id): seq<Id> {
    if id in IdsOf(n.children) then SubtreeIds(n, id) else []
  }

  /** A node's children are proper descendants of the subtree it is found in. */
  lemma {:induction false} FindKidsBelow(c: VirtualNode, k: Id)
    requires k in Ids(c)
    ensures forall x :: x in Kids(Find(c, k).value) ==> x in IdsOf(c.children)
    decreases c
  {
    if c.id == k {
      ChildIdsInIds(c.children);
    } else {
      FindInKidsBelow(c.children, k);
    }
  }

  lemma {:induction false} FindInKidsBelow(cs: seq<VirtualNode>, k: Id)
    requires k in IdsOf(cs)
    ensures forall x :: x in Kids(FindIn(cs, k).value) ==> x in IdsOf(cs)
    decreases cs
  {
    var a, b := Ids(cs[0]), IdsOf(cs[1..]);
    assert IdsOf(cs) == a + b;
    if k in a {
      FindKidsBelow(cs[0], k);
      assert forall x :: x in IdsOf(cs[0].children) ==> x in a;
    } else {
      FindInKidsBelow(cs[1..], k);
    }
  }

  lemma RemoveChildAbsent(cs: seq<VirtualNode>, id: Id)
    requires id !in ChildIds(cs)
    ensures RemoveChild(cs, id) == cs
  {
    if cs != [] {
      assert ChildIds(cs) == [cs[0].id] + ChildIds(cs[1..]);
      RemoveChildAbsent(cs[1..], id);
    }
  }

  /** A removal succeeds exactly when `id` is a proper descendant of the root; a failed
      one changes nothing, and the root keeps its id. */
  lemma {:induction false} DetachFound(n: VirtualNode, id: Id)
    requires UniqueIds(n)
    ensures Detach(n, id).0 == (id in IdsOf(n.children))
    ensures !Detach(n, id).0 ==> Detach(n, id).1 == n
    ensures Detach(n, id).1.id == n.id
    decreases n
  {
    var cs := n.children;
    DistinctSplit([n.id], IdsOf(cs));
    if id in ChildIds(cs) {
      ChildIdsInIds(cs);
    } else {
      DetachInFound(cs, id);
    }
  }

  lemma {:induction false} DetachInFound(cs: seq<VirtualNode>, id: Id)
    requires Distinct(IdsOf(cs))
    ensures DetachIn(cs, id).0 == (id in IdsOf(cs) && id !in ChildIds(cs))
    ensures !DetachIn(cs, id).0 ==> DetachIn(cs, id).1 == cs
    decreases cs
  {
    if cs != [] {
      var a, b := Ids(cs[0]), IdsOf(cs[1..]);
      assert IdsOf(cs) == a + b;
      assert ChildIds(cs) == [cs[0].id] + ChildIds(cs[1..]);
      DistinctSplit(a, b);
      DistinctSplit([cs[0].id], IdsOf(cs[0].children));
      ChildIdsInIds(cs[1..]);
      DetachFound(cs[0], id);
      if Detach(cs[0], id).0 {
        assert id in a && id != cs[0].id && id !in b;
      } else {
        DetachInFound(cs[1..], id);
        DetachInSkip(cs, id);
        assert id == cs[0].id ==> id !in b;
      }
    }
  }

  /** When the first child does not hold the node, the search goes on in the others. */
  lemma DetachInSkip(cs: seq<VirtualNode>, id: Id)
    requires cs != [] && !Detach(cs[0], id).0
    requires !DetachIn(cs[1..], id).0 ==> DetachIn(cs[1..], id).1 == cs[1..]
    ensures DetachIn(cs, id).0 == DetachIn(cs[1..], id).0
    ensures !DetachIn(cs, id).0 ==> DetachIn(cs, id).1 == cs
  {
    assert DetachIn(cs, id).1 == [cs[0]] + DetachIn(cs[1..], id).1;
    assert [cs[0]] + cs[1..] == cs;
  }

  lemma RemoveChildStep(cs: seq<VirtualNode>, id: Id)
    requires Distinct(IdsOf(cs)) && id in ChildIds(cs)
    ensures IdsOf(cs) == Ids(cs[0]) + IdsOf(cs[1..])
    ensures cs[0].id == id ==> RemoveChild(cs, id) == cs[1..] && FindIn(cs, id) == Some(cs[0])
    ensures cs[0].id != id ==>
      id in ChildIds(cs[1..]) && id in IdsOf(cs[1..]) && FindIn(cs, id) == FindIn(cs[1..], id) &&
      IdsOf(RemoveChild(cs, id)) == Ids(cs[0]) + IdsOf(RemoveChild(cs[1..], id))
  {
    var a, b := Ids(cs[0]), IdsOf(cs[1..]);
    assert IdsOf(cs) == a + b;
    assert ChildIds(cs) == [cs[0].id] + ChildIds(cs[1..]);
    DistinctSplit(a, b);
    ChildIdsInIds(cs[1..]);
    assert cs[0].id in a;
    if cs[0].id == id {
      RemoveChildAbsent(cs[1..], id);
    } else {
      var r := RemoveChild(cs[1..], id);
      assert ([cs[0]] + r)[0] == cs[0] && ([cs[0]] + r)[1..] == r;
    }
  }

  /** Filtering out a direct child takes out exactly that child's subtree. */
  lemma {:induction false} RemoveChildIds(cs: seq<VirtualNode>, id: Id)
    requires Distinct(IdsOf(cs)) && id in ChildIds(cs) && id in IdsOf(cs)
    ensures multiset(IdsOf(RemoveChild(cs, id))) + multiset(Ids(FindIn(cs, id).value)) == multiset(IdsOf(cs))
    decreases cs
  {
    RemoveChildStep(cs, id);
    if cs[0].id != id {
      DistinctSplit(Ids(cs[0]), IdsOf(cs[1..]));
      RemoveChildIds(cs[1..], id);
    }
  }

  /** A removal takes out exactly the detached subtree's ids. */
  lemma {:induction false} DetachIds(n: VirtualNode, id: Id)
    requires UniqueIds(n)
    ensures multiset(Ids(Detach(n, id).1)) + multiset(Detached(n, id)) == multiset(Ids(n))
    decreases n, 1
  {
    DetachFound(n, id);
    if id in IdsOf(n.children) {
      DistinctSplit([n.id], IdsOf(n.children));
      assert Find(n, id) == FindIn(n.children, id);
      DetachChildrenIds(n, id);
    }
  }

  lemma {:induction false} DetachChildrenIds(n: VirtualNode, id: Id)
    requires UniqueIds(n) && id in IdsOf(n.children)
    ensures multiset(IdsOf(Detach(n, id).1.children)) + multiset(Ids(FindIn(n.children, id).value)) ==
      multiset(IdsOf(n.children))
    decreases n, 0
  {
    var cs := n.children;
    DistinctSplit([n.id], IdsOf(cs));
    if id in ChildIds(cs) {
      RemoveChildIds(cs, id);
    } else {
      DetachInFound(cs, id);
      DetachInIds(cs, id);
    }
  }

  lemma {:induction false} DetachInIds(cs: seq<VirtualNode>, id: Id)
    requires Distinct(IdsOf(cs)) && id in IdsOf(cs) && id !in ChildIds(cs)
    ensures multiset(IdsOf(DetachIn(cs, id).1)) + multiset(Ids(FindIn(cs, id).value)) == multiset(IdsOf(cs))
    decreases cs
  {
    var a, b := Ids(cs[0]), IdsOf(cs[1..]);
    IdsOfCons(cs[0], cs[1..]);
    assert [cs[0]] + cs[1..] == cs;
    assert ChildIds(cs) == [cs[0].id] + ChildIds(cs[1..]);
    DistinctSplit(a, b);
    DetachFound(cs[0], id);
    if Detach(cs[0], id).0 {
      var c := Detach(cs[0], id).1;
      DetachIds(cs[0], id);
      IdsOfCons(c, cs[1..]);
      MultisetSwap(multiset(Ids(c)), multiset(b), multiset(Ids(FindIn(cs, id).value)));
    } else {
      assert id !in a;
      DetachInIds(cs[1..], id);
      IdsOfCons(cs[0], DetachIn(cs[1..], id).1);
    }
  }

  /** After a removal the tree holds exactly the ids that were not detached: in
      particular the removed node itself is gone, and ids stay unique. */
  lemma DetachKeeps(n: VirtualNode, id: Id)
    requires UniqueIds(n)
    ensures UniqueIds(Detach(n, id).1)
    ensures forall x :: x in Ids(Detach(n, id).1) <==> x in Ids(n) && x !in Detached(n, id)
    ensures id in IdsOf(n.children) ==> id !in Ids(Detach(n, id).1)
  {
    var n' := Detach(n, id).1;
    DetachIds(n, id);
    DistinctSub(Ids(n), Ids(n'));
    DistinctCount(Ids(n));
    var m, m', d := multiset(Ids(n)), multiset(Ids(n')), multiset(Detached(n, id));
    forall x ensures x in Ids(n') <==> x in Ids(n) && x !in Detached(n, id) {
      assert m'[x] + d[x] == m[x] <= 1;
    }
    if id in IdsOf(n.children) {
      assert id in Detached(n, id);
    }
  }

  /** What the store relies on after a removal. */
  lemma DetachPreserves(n: VirtualNode, id: Id)
    requires UniqueIds(n)
    ensures UniqueIds(Detach(n, id).1) && Detach(n, id).1.kind == n.kind
    ensures forall x :: x in Ids(Detach(n, id).1) <==> x in Ids(n) && x !in Detached(n, id)
    ensures PathConsistent(n) ==> PathConsistent(Detach(n, id).1)
  {
    DetachKeeps(n, id);
    if PathConsistent(n) {
      DetachPaths(n, id);
    }
  }

  /** Filtering out a direct child leaves every other node found in the children as it was. */
  lemma {:induction false} RemoveChildFind(cs: seq<VirtualNode>, id: Id, k: Id)
    requires Distinct(IdsOf(cs)) && id in ChildIds(cs) && k in IdsOf(RemoveChild(cs, id))
    ensures k in IdsOf(cs) && FindIn(RemoveChild(cs, id), k) == FindIn(cs, k)
    ensures id !in Kids(FindIn(cs, k).value)
    decreases cs
  {
    var a, b := Ids(cs[0]), IdsOf(cs[1..]);
    assert IdsOf(cs) == a + b;
    assert ChildIds(cs) == [cs[0].id] + ChildIds(cs[1..]);
    DistinctSplit(a, b);
    ChildIdsInIds(cs[1..]);
    assert cs[0].id in a;
    if cs[0].id == id {
      RemoveChildAbsent(cs[1..], id);
      FindInKidsBelow(cs[1..], k);
    } else {
      var r := RemoveChild(cs[1..], id);
      assert ([cs[0]] + r)[0] == cs[0] && ([cs[0]] + r)[1..] == r;
      if k in a {
        FindKidsBelow(cs[0], k);
        assert forall x :: x in IdsOf(cs[0].children) ==> x in a;
      } else {
        assert IdsOf([cs[0]] + r) == a + IdsOf(r);
        RemoveChildFind(cs[1..], id, k);
      }
    }
  }

  /** Every node that survives a removal keeps its own fields, and its children lose
      at most the removed node. */
  lemma {:induction false} DetachFind(n: VirtualNode, id: Id, k: Id)
    requires UniqueIds(n) && k in Ids(Detach(n, id).1)
    ensures k in Ids(n)
    ensures Strip(Find(Detach(n, id).1, k).value) == Strip(Find(n, k).value)
    ensures Kids(Find(Detach(n, id).1, k).value) == RemoveAll(Kids(Find(n, k).value), id)
    decreases n
  {
    var cs := n.children;
    var n' := Detach(n, id).1;
    DistinctSplit([n.id], IdsOf(cs));
    DetachFound(n, id);
    if id in ChildIds(cs) {
      assert n' == n.(children := RemoveChild(cs, id));
      if k != n.id {
        RemoveChildFind(cs, id, k);
        RemoveAllAbsent(Kids(FindIn(cs, k).value), id);
      }
    } else {
      DetachInFound(cs, id);
      var cs' := DetachIn(cs, id).1;
      assert n' == n.(children := cs');
      if k == n.id {
        DetachInKids(cs, id);
        RemoveAllAbsent(Kids(n), id);
      } else {
        DetachInFind(cs, id, k);
      }
    }
  }

  lemma {:induction false} DetachInKids(cs: seq<VirtualNode>, id: Id)
    ensures ChildIds(DetachIn(cs, id).1) == ChildIds(cs)
    decreases cs
  {
    if cs != [] {
      var (found, c) := Detach(cs[0], id);
      assert c.id == cs[0].id;
      assert ChildIds(cs) == [cs[0].id] + ChildIds(cs[1..]);
      var cs' := DetachIn(cs, id).1;
      if found {
        assert cs' == [c] + cs[1..] && cs'[1..] == cs[1..];
      } else {
        DetachInKids(cs[1..], id);
        assert cs'[1..] == DetachIn(cs[1..], id).1;
      }
      assert ChildIds(cs') == [cs'[0].id] + ChildIds(cs'[1..]);
    }
  }

  lemma {:induction false} DetachInFind(cs: seq<VirtualNode>, id: Id, k: Id)
    requires Distinct(IdsOf(cs)) && k in IdsOf(DetachIn(cs, id).1)
    ensures k in IdsOf(cs)
    ensures Strip(FindIn(DetachIn(cs, id).1, k).value) == Strip(FindIn(cs, k).value)
    ensures Kids(FindIn(DetachIn(cs, id).1, k).value) == RemoveAll(Kids(FindIn(cs, k).value), id)
    decreases cs
  {
    var a, b := Ids(cs[0]), IdsOf(cs[1..]);
    assert IdsOf(cs) == a + b;
    DistinctSplit(a, b);
    DetachFound(cs[0], id);
    var c := Detach(cs[0], id).1;
    if Detach(cs[0], id).0 {
      var cs' := [c] + cs[1..];
      assert DetachIn(cs, id).1 == cs';
      assert cs'[0] == c && cs'[1..] == cs[1..];
      if k in Ids(c) {
        DetachFind(cs[0], id, k);
      } else {
        assert forall x :: x in IdsOf(cs[0].children) ==> x in a;
        FindInKidsBelow(cs[1..], k);
        RemoveAllAbsent(Kids(FindIn(cs[1..], k).value), id);
      }
    } else {
      var r := DetachIn(cs[1..], id).1;
      var cs' := [cs[0]] + r;
      assert DetachIn(cs, id).1 == cs';
      assert cs'[0] == cs[0] && cs'[1..] == r;
      if k in a {
        FindKidsBelow(cs[0], k);
        RemoveAllAbsent(Kids(Find(cs[0], k).value), id);
      } else {
        DetachInFind(cs[1..], id, k);
      }
    }
  }

  // ---------------------------------------------------------------------------
  // traverse: the allFiles index

  /** The source's `traverse` filling `files` with `files.set(node.id, node)` in pre-order. */
  function Traverse(n: VirtualNode, files: seq<Entry<VirtualNode>>): seq<Entry<VirtualNode>>
    decreases n
  {
    TraverseIn(n.children, Put(files, n.id, n))
  }

  function TraverseIn(cs: seq<VirtualNode>, files: seq<Entry<VirtualNode>>): seq<Entry<VirtualNode>>
    decreases cs
  {
    if cs == [] then files else TraverseIn(cs[1..], Traverse(cs[0], files))
  }

  /** `allFiles`: every node of the tree, keyed by id. */
  function AllFiles(root: VirtualNode): seq<Entry<VirtualNode>>
  {
    Traverse(root, [])
  }

  /** From an index whose keys, followed by the tree's ids, are all distinct, the
      traversal appends the tree's ids in pre-order. */
  lemma {:induction false} TraverseKeys(n: VirtualNode, files: seq<Entry<VirtualNode>>)
    requires Distinct(Keys(files) + Ids(n))
    ensures Keys(Traverse(n, files)) == Keys(files) + Ids(n)
    decreases n
  {
    TraverseFresh(n, files);
    TraversePut(n, files);
    TraverseInKeys(n.children, Put(files, n.id, n));
  }

  /** In a tree whose ids are distinct from the index's keys, a node's own id is neither
      a key yet nor an id below it. */
  lemma TraverseFresh(n: VirtualNode, files: seq<Entry<VirtualNode>>)
    requires Distinct(Keys(files) + Ids(n))
    ensures n.id !in Keys(files) && n.id !in IdsOf(n.children)
  {
    assert Ids(n) == [n.id] + IdsOf(n.children) && n.id in Ids(n);
    DistinctSplit(Keys(files), Ids(n));
    DistinctSplit([n.id], IdsOf(n.children));
  }

  /** Entering a node with a fresh id puts that id behind the index's keys. */
  lemma TraversePut(n: VirtualNode, files: seq<Entry<VirtualNode>>)
    requires n.id !in Keys(files)
    ensures Keys(Put(files, n.id, n)) == Keys(files) + [n.id]
    ensures Keys(files) + Ids(n) == Keys(Put(files, n.id, n)) + IdsOf(n.children)
  {
    var ks, c := Keys(files), IdsOf(n.children);
    assert Ids(n) == [n.id] + c;
    assert ks + ([n.id] + c) == (ks + [n.id]) + c;
  }

  lemma {:induction false} TraverseInKeys(cs: seq<VirtualNode>, files: seq<Entry<VirtualNode>>)
    requires Distinct(Keys(files) + IdsOf(cs))
    ensures Keys(TraverseIn(cs, files)) == Keys(files) + IdsOf(cs)
    decreases cs
  {
    if cs != [] {
      var ks := Keys(files);
      assert ks + IdsOf(cs) == (ks + Ids(cs[0])) + IdsOf(cs[1..]);
      DistinctSplit(ks + Ids(cs[0]), IdsOf(cs[1..]));
      TraverseKeys(cs[0], files);
      TraverseInKeys(cs[1..], Traverse(cs[0], files));
    }
  }

  /** The traversal maps each of the tree's ids to the node the depth-first search finds,
      and leaves every other key as it was. */
  lemma {:induction false} TraverseGet(n: VirtualNode, files: seq<Entry<VirtualNode>>, k: Id)
    requires Distinct(Keys(files) + Ids(n))
    ensures Get(Traverse(n, files), k) == if k in Ids(n) then Find(n, k) else Get(files, k)
    decreases n
  {
    TraverseFresh(n, files);
    TraversePut(n, files);
    var files' := Put(files, n.id, n);
    GetPut(files, n.id, n, k);
    TraverseInGet(n.children, files', k);
    if k == n.id {
      assert Get(Traverse(n, files), k) == Get(files', k) == Some(n);
    } else {
      assert k in Ids(n) <==> k in IdsOf(n.children);
    }
  }

  lemma {:induction false} TraverseInGet(cs: seq<VirtualNode>, files: seq<Entry<VirtualNode>>, k: Id)
    requires Distinct(Keys(files) + IdsOf(cs))
    ensures Get(TraverseIn(cs, files), k) == if k in IdsOf(cs) then FindIn(cs, k) else Get(files, k)
    decreases cs
  {
    if cs != [] {
      var ks := Keys(files);
      assert ks + IdsOf(cs) == (ks + Ids(cs[0])) + IdsOf(cs[1..]);
      DistinctSplit(ks + Ids(cs[0]), IdsOf(cs[1..]));
      DistinctSplit(ks, IdsOf(cs));
      DistinctSplit(Ids(cs[0]), IdsOf(cs[1..]));
      TraverseKeys(cs[0], files);
      TraverseGet(cs[0], files, k);
      TraverseInGet(cs[1..], Traverse(cs[0], files), k);
    }
  }

  /** `allFiles` lists the tree's ids in pre-order, and `allFiles.get(id)` is the node
      with that id. */
  lemma AllFilesSpec(root: VirtualNode, id: Id)
    requires UniqueIds(root)
    ensures Keys(AllFiles(root)) == Ids(root)
    ensures Get(AllFiles(root), id) == Find(root, id)
  {
    var empty: seq<Entry<VirtualNode>> := [];
    assert Keys(empty) + Ids(root) == Ids(root);
    TraverseKeys(root, []);
    TraverseGet(root, [], id);
  }

  // ---------------------------------------------------------------------------
  // Path consistency

  /** Every child's path is its parent's path, a slash, and its own name, all the way down. */
  ghost predicate PathConsistent(n: VirtualNode)
    decreases n, 1
  {
    ChildrenUnder(n.children, n.path)
  }

  ghost predicate ChildrenUnder(cs: seq<VirtualNode>, p: string)
    decreases cs, 0
  {
    forall c :: c in cs ==> c.path == p + "/" + c.name && PathConsistent(c)
  }

  /** An edit other than a rename keeps the name and path of the root it is applied
      under; every edit keeps its id and kind. */
  lemma ModifyHead(n: VirtualNode, id: Id, e: Edit)
    ensures Modify(n, id, e).1.id == n.id && Modify(n, id, e).1.kind == n.kind
    ensures !e.Rename? ==> Modify(n, id, e).1.name == n.name && Modify(n, id, e).1.path == n.path
  {
  }

  /** An added child fits under the node the search finds. */
  ghost predicate Fits(n: VirtualNode, id: Id, e: Edit) {
    e.AddChild? && id in Ids(n) ==>
      e.child.path == Find(n, id).value.path + "/" + e.child.name && PathConsistent(e.child)
  }

  ghost predicate FitsIn(cs: seq<VirtualNode>, id: Id, e: Edit) {
    e.AddChild? && id in IdsOf(cs) ==>
      e.child.path == FindIn(cs, id).value.path + "/" + e.child.name && PathConsistent(e.child)
  }

  /** Edits that leave names and paths alone, and children added under their parent's
      path, keep the tree's paths consistent. */
  lemma {:induction false} ModifyPaths(n: VirtualNode, id: Id, e: Edit)
    requires PathConsistent(n) && !e.Rename? && Fits(n, id, e)
    ensures PathConsistent(Modify(n, id, e).1)
    decreases n
  {
    if n.id == id {
      if e.AddChild? {
        assert forall c :: c in n.children + [e.child] ==> c in n.children || c == e.child;
      }
    } else {
      ModifyInPaths(n.children, id, e, n.path);
    }
  }

  lemma {:induction false} ModifyInPaths(cs: seq<VirtualNode>, id: Id, e: Edit, p: string)
    requires ChildrenUnder(cs, p) && !e.Rename? && FitsIn(cs, id, e)
    ensures ChildrenUnder(ModifyIn(cs, id, e).1, p)
    decreases cs
  {
    if cs != [] {
      assert cs[0] in cs;
      assert forall c :: c in cs[1..] ==> c in cs;
      var c := Modify(cs[0], id, e).1;
      ModifyHead(cs[0], id, e);
      ModifyFound(cs[0], id, e);
      if Modify(cs[0], id, e).0 {
        ModifyPaths(cs[0], id, e);
        assert forall x :: x in [c] + cs[1..] ==> x == c || x in cs[1..];
      } else {
        ModifyInPaths(cs[1..], id, e, p);
        var rest := ModifyIn(cs[1..], id, e).1;
        assert forall x :: x in [cs[0]] + rest ==> x == cs[0] || x in rest;
      }
    }
  }

  lemma {:induction false} RemoveChildMembers(cs: seq<VirtualNode>, id: Id)
    ensures forall x :: x in RemoveChild(cs, id) ==> x in cs
    decreases cs
  {
    if cs != [] {
      RemoveChildMembers(cs[1..], id);
      var rest := RemoveChild(cs[1..], id);
      assert RemoveChild(cs, id) == if cs[0].id == id then rest else [cs[0]] + rest;
      assert forall x :: x in cs[1..] ==> x in cs;
    }
  }

  /** Removing a node keeps the tree's paths consistent. */
  lemma {:induction false} DetachPaths(n: VirtualNode, id: Id)
    requires PathConsistent(n)
    ensures PathConsistent(Detach(n, id).1)
    decreases n
  {
    if id in ChildIds(n.children) {
      RemoveChildMembers(n.children, id);
    } else {
      DetachInPaths(n.children, id, n.path);
    }
  }

  lemma {:induction false} DetachInPaths(cs: seq<VirtualNode>, id: Id, p: string)
    requires ChildrenUnder(cs, p)
    ensures ChildrenUnder(DetachIn(cs, id).1, p)
    decreases cs
  {
    if cs != [] {
      assert cs[0] in cs;
      assert forall c :: c in cs[1..] ==> c in cs;
      var c := Detach(cs[0], id).1;
      assert c.path == cs[0].path && c.name == cs[0].name;
      if Detach(cs[0], id).0 {
        DetachPaths(cs[0], id);
        assert forall x :: x in [c] + cs[1..] ==> x == c || x in cs[1..];
      } else {
        DetachInPaths(cs[1..], id, p);
        var rest := DetachIn(cs[1..], id).1;
        assert forall x :: x in [cs[0]] + rest ==> x == cs[0] || x in rest;
      }
    }
  }
}
