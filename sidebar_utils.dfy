/** The tree-view helpers of src/components/sidebar/utils.ts: the order siblings are shown
    in, the flattening of the expanded part of the tree into visible rows, and the parent
    lookup.

    `String.localeCompare` depends on the user's locale; it is modelled by a parameter `le`,
    any total preorder on names (two names may tie). */
module SidebarUtils {
  import opened Wrappers
  import opened VirtualNodes
  import opened VfsTree
  import Seqs

  /** `le` is reflexive-total and transitive, as a locale collation is. */
  ghost predicate TotalPreorder(le: (string, string) -> bool)
  {
    (forall a, b :: le(a, b) || le(b, a)) &&
    (forall a, b, c :: le(a, b) && le(b, c) ==> le(a, c))
  }

  /** The comparator of `sortChildren`: folders before files, then by name. */
  predicate NodeLe(le: (string, string) -> bool, a: VirtualNode, b: VirtualNode)
  {
    if a.kind != b.kind then a.kind == Folder else le(a.name, b.name)
  }

  lemma NodeLeTotal(le: (string, string) -> bool, a: VirtualNode, b: VirtualNode)
    requires TotalPreorder(le)
    ensures NodeLe(le, a, b) || NodeLe(le, b, a)
  {
    if a.kind == b.kind {
      assert le(a.name, b.name) || le(b.name, a.name);
    }
  }

  lemma NodeLeTrans(le: (string, string) -> bool, a: VirtualNode, b: VirtualNode, c: VirtualNode)
    requires TotalPreorder(le) && NodeLe(le, a, b) && NodeLe(le, b, c)
    ensures NodeLe(le, a, c)
  {
    if a.kind == b.kind && b.kind == c.kind {
      assert le(a.name, b.name) && le(b.name, c.name);
    }
  }

  predicate Sorted(le: (string, string) -> bool, s: seq<VirtualNode>)
  {
    forall i, j :: 0 <= i < j < |s| ==> NodeLe(le, s[i], s[j])
  }

  // ---------------------------------------------------------------------------
  // sortChildren

  /** Places `x` before the first element it does not come after, so that an element
      keeps its place ahead of the later elements it ties with. */
  function Insert(le: (string, string) -> bool, x: VirtualNode, s: seq<VirtualNode>): (r: seq<VirtualNode>)
    ensures multiset(r) == multiset(s) + multiset{x}
  {
    if s == [] then [x]
    else if NodeLe(le, x, s[0]) then [x] + s
    else
      assert s == [s[0]] + s[1..];
      [s[0]] + Insert(le, x, s[1..])
  }

  /** `sortChildren`: a sorted copy of the children; the argument, a value, is untouched. */
  function SortChildren(le: (string, string) -> bool, children: seq<VirtualNode>): (r: seq<VirtualNode>)
    ensures multiset(r) == multiset(children)
  {
    if children == [] then []
    else
      assert children == [children[0]] + children[1..];
      Insert(le, children[0], SortChildren(le, children[1..]))
  }

  lemma {:induction false} InsertSorted(le: (string, string) -> bool, x: VirtualNode, s: seq<VirtualNode>)
    requires TotalPreorder(le) && Sorted(le, s)
    ensures Sorted(le, Insert(le, x, s))
  {
    if s != [] && !NodeLe(le, x, s[0]) {
      NodeLeTotal(le, x, s[0]);
      InsertSorted(le, x, s[1..]);
      InsertBehindHead(le, x, s);
    } else if s != [] {
      forall j | 0 <= j < |s|
        ensures NodeLe(le, x, s[j])
      {
        if j > 0 {
          NodeLeTrans(le, x, s[0], s[j]);
        }
      }
      ConsSorted(le, x, s);
    }
  }

  /** An element that goes after the head keeps the head in front of everything. */
  lemma InsertBehindHead(le: (string, string) -> bool, x: VirtualNode, s: seq<VirtualNode>)
    requires Sorted(le, s) && s != [] && NodeLe(le, s[0], x) && !NodeLe(le, x, s[0])
    requires Sorted(le, Insert(le, x, s[1..]))
    ensures Sorted(le, Insert(le, x, s))
  {
    var t := Insert(le, x, s[1..]);
    forall j | 0 <= j < |t|
      ensures NodeLe(le, s[0], t[j])
    {
      assert t[j] in multiset(s[1..]) + multiset{x};
      if t[j] != x {
        var k :| 0 <= k < |s[1..]| && s[1..][k] == t[j];
        assert s[k + 1] == t[j];
      }
    }
    ConsSorted(le, s[0], t);
  }

  /** A head that comes before every element of a sorted tail gives a sorted sequence. */
  lemma ConsSorted(le: (string, string) -> bool, h: VirtualNode, t: seq<VirtualNode>)
    requires Sorted(le, t) && forall j :: 0 <= j < |t| ==> NodeLe(le, h, t[j])
    ensures Sorted(le, [h] + t)
  {
    var r := [h] + t;
    forall i, j | 0 <= i < j < |r|
      ensures NodeLe(le, r[i], r[j])
    {
      assert r[j] == t[j - 1];
      if i > 0 {
        assert r[i] == t[i - 1];
      }
    }
  }

  /** The result of `sortChildren` lists folders first, each kind ordered by name. */
  lemma {:induction false} SortChildrenSorted(le: (string, string) -> bool, children: seq<VirtualNode>)
    requires TotalPreorder(le)
    ensures Sorted(le, SortChildren(le, children))
  {
    if children != [] {
      SortChildrenSorted(le, children[1..]);
      InsertSorted(le, children[0], SortChildren(le, children[1..]));
    }
  }

  /** Sorting a sorted list changes nothing; in particular sorting twice is sorting once. */
  lemma {:induction false} SortChildrenIdempotent(le: (string, string) -> bool, children: seq<VirtualNode>)
    requires Sorted(le, children)
    ensures SortChildren(le, children) == children
  {
    if children != [] {
      assert Sorted(le, children[1..]) by {
        forall i, j | 0 <= i < j < |children| - 1
          ensures NodeLe(le, children[1..][i], children[1..][j])
        {
          assert children[1..][i] == children[i + 1] && children[1..][j] == children[j + 1];
        }
      }
      SortChildrenIdempotent(le, children[1..]);
      if |children| > 1 {
        assert NodeLe(le, children[0], children[1]);
        assert children[1..][0] == children[1];
      }
    }
  }

  lemma SortTwice(le: (string, string) -> bool, children: seq<VirtualNode>)
    requires TotalPreorder(le)
    ensures SortChildren(le, SortChildren(le, children)) == SortChildren(le, children)
  {
    SortChildrenSorted(le, children);
    SortChildrenIdempotent(le, SortChildren(le, children));
  }

  // ---------------------------------------------------------------------------
  // collectVisibleNodes

  /** One row of the tree view. */
  datatype VisibleNode = VisibleNode(node: VirtualNode, level: nat)

  /** A folder whose children are shown. */
  predicate Open(n: VirtualNode)
  {
    n.kind == Folder && n.isExpanded && n.children != []
  }

  /** The rows of `n` at `level`: itself, then, when it is an open folder, the rows of
      each child in sorted order, one level deeper. */
  function Visible(le: (string, string) -> bool, n: VirtualNode, level: nat): seq<VisibleNode>
    decreases n, 1
  {
    var sorted := SortChildren(le, n.children);
    ChildrenOf(n, sorted);
    [VisibleNode(n, level)] + (if Open(n) then Rows(le, sorted, |sorted|, level + 1, n) else [])
  }

  /** The rows of `n` begin with `n` itself at `level`, so there is always one; there is
      exactly one when `n` is a file, a collapsed folder or a folder without children. */
  lemma VisibleHead(le: (string, string) -> bool, n: VirtualNode, level: nat)
    ensures |Visible(le, n, level)| >= 1 && Visible(le, n, level)[0] == VisibleNode(n, level)
    ensures |Visible(le, n, level)| == 1 <==> !Open(n)
  {
    if Open(n) {
      var sorted := SortChildren(le, n.children);
      ChildrenOf(n, sorted);
      assert |sorted| > 0 by { assert |multiset(sorted)| == |multiset(n.children)|; }
      RowsNonEmpty(le, sorted, |sorted|, level + 1, n);
    }
  }

  lemma {:induction false} RowsNonEmpty(le: (string, string) -> bool, cs: seq<VirtualNode>, m: nat, level: nat, parent: VirtualNode)
    requires 0 < m <= |cs| && Among(cs, parent)
    ensures Rows(le, cs, m, level, parent) != []
  {
    assert cs[m - 1] in parent.children;
    assert |Visible(le, cs[m - 1], level)| >= 1;
  }

  /** The children of `parent`, in some order: what its rows are drawn from. */
  predicate Among(cs: seq<VirtualNode>, parent: VirtualNode)
  {
    forall k :: 0 <= k < |cs| ==> cs[k] in parent.children
  }

  /** The rows of the first `m` of the siblings `cs`. */
  function Rows(le: (string, string) -> bool, cs: seq<VirtualNode>, m: nat, level: nat, parent: VirtualNode): seq<VisibleNode>
    requires m <= |cs| && Among(cs, parent)
    decreases parent, 0, m
  {
    if m == 0 then []
    else
      assert cs[m - 1] in parent.children;
      Rows(le, cs, m - 1, level, parent) + Visible(le, cs[m - 1], level)
  }

  /** The sorted children are the children. */
  lemma ChildrenOf(n: VirtualNode, sorted: seq<VirtualNode>)
    requires multiset(sorted) == multiset(n.children)
    ensures Among(sorted, n)
  {
    forall k | 0 <= k < |sorted|
      ensures sorted[k] in n.children
    {
      assert sorted[k] in multiset(sorted);
    }
  }

  /** `collectVisibleNodes(node, result, level)`: pushes the rows of `node` onto `result`. */
  method CollectVisibleNodes(le: (string, string) -> bool, node: VirtualNode, result: seq<VisibleNode>, level: nat)
    returns (r: seq<VisibleNode>)
    ensures r == result + Visible(le, node, level)
    decreases node, 1
  {
    r := result + [VisibleNode(node, level)];
    var sorted := SortChildren(le, node.children);
    ChildrenOf(node, sorted);
    if node.kind == Folder && node.isExpanded && node.children != [] {
      r := CollectChildren(le, node, sorted, r, level + 1);
      assert Visible(le, node, level) == [VisibleNode(node, level)] + Rows(le, sorted, |sorted|, level + 1, node);
    } else {
      assert Visible(le, node, level) == [VisibleNode(node, level)];
    }
  }

  /** The `forEach` over the sorted children of `node`. */
  method CollectChildren(le: (string, string) -> bool, node: VirtualNode, sorted: seq<VirtualNode>,
                         result: seq<VisibleNode>, level: nat) returns (r: seq<VisibleNode>)
    requires Among(sorted, node)
    ensures r == result + Rows(le, sorted, |sorted|, level, node)
    decreases node, 0
  {
    r := result;
    var i := 0;
    while i < |sorted|
      invariant 0 <= i <= |sorted|
      invariant r == result + Rows(le, sorted, i, level, node)
    {
      assert sorted[i] in node.children;
      r := CollectVisibleNodes(le, sorted[i], r, level);
      i := i + 1;
    }
  }

  /** The nodes shown at exactly `level`, in order. */
  function AtLevel(vs: seq<VisibleNode>, level: nat): (r: seq<VirtualNode>)
  {
    if vs == [] then []
    else (if vs[0].level == level then [vs[0].node] else []) + AtLevel(vs[1..], level)
  }

  lemma {:induction false} AtLevelAppend(a: seq<VisibleNode>, b: seq<VisibleNode>, level: nat)
    ensures AtLevel(a + b, level) == AtLevel(a, level) + AtLevel(b, level)
  {
    if a != [] {
      assert (a + b)[0] == a[0] && (a + b)[1..] == a[1..] + b;
      AtLevelAppend(a[1..], b, level);
      var h := if a[0].level == level then [a[0].node] else [];
      assert AtLevel(a + b, level) == h + (AtLevel(a[1..], level) + AtLevel(b, level));
      assert AtLevel(a, level) == h + AtLevel(a[1..], level);
    } else {
      assert a + b == b;
    }
  }

  /** Every row below `n`'s own is deeper than `n`, and it shows a node of `n`'s subtree. */
  lemma {:induction false} VisibleBelow(le: (string, string) -> bool, n: VirtualNode, level: nat)
    ensures forall k :: 1 <= k < |Visible(le, n, level)| ==>
      Visible(le, n, level)[k].level > level && Visible(le, n, level)[k].node.id in IdsOf(n.children)
    decreases n, 1
  {
    var sorted := SortChildren(le, n.children);
    ChildrenOf(n, sorted);
    if Open(n) {
      RowsBelow(le, sorted, |sorted|, level + 1, n);
      var r := Visible(le, n, level);
      assert r[1..] == Rows(le, sorted, |sorted|, level + 1, n);
      forall k | 1 <= k < |r|
        ensures r[k].level > level && r[k].node.id in IdsOf(n.children)
      {
        assert r[k] == r[1..][k - 1];
      }
    }
  }

  lemma {:induction false} RowsBelow(le: (string, string) -> bool, cs: seq<VirtualNode>, m: nat, level: nat, parent: VirtualNode)
    requires m <= |cs| && Among(cs, parent)
    ensures forall k :: 0 <= k < |Rows(le, cs, m, level, parent)| ==>
      Rows(le, cs, m, level, parent)[k].level >= level && Rows(le, cs, m, level, parent)[k].node.id in IdsOf(parent.children)
    decreases parent, 0, m
  {
    if m > 0 {
      var c := cs[m - 1];
      assert c in parent.children;
      VisibleBelow(le, c, level);
      RowsBelow(le, cs, m - 1, level, parent);
      var a, b := Rows(le, cs, m - 1, level, parent), Visible(le, c, level);
      InChildrenIds(c, parent.children);
      forall k | 0 <= k < |b|
        ensures b[k].node.id in IdsOf(parent.children)
      {
        if k > 0 {
          assert b[k].node.id in Ids(c);
        }
      }
      assert Rows(le, cs, m, level, parent) == a + b;
    }
  }

  /** The ids of a child are ids of the children's subtrees. */
  lemma {:induction false} InChildrenIds(c: VirtualNode, cs: seq<VirtualNode>)
    requires c in cs
    ensures forall x :: x in Ids(c) ==> x in IdsOf(cs)
  {
    if cs[0] != c {
      InChildrenIds(c, cs[1..]);
    }
    assert IdsOf(cs) == Ids(cs[0]) + IdsOf(cs[1..]);
  }

  /** The rows one level below `n` are exactly its children, in sorted order, when it is
      open, and there are none when it is not: the walk is a pre-order of the sorted tree. */
  lemma VisibleChildren(le: (string, string) -> bool, n: VirtualNode, level: nat)
    ensures AtLevel(Visible(le, n, level), level + 1) == if Open(n) then SortChildren(le, n.children) else []
  {
    var sorted := SortChildren(le, n.children);
    ChildrenOf(n, sorted);
    var head := [VisibleNode(n, level)];
    assert AtLevel(head, level + 1) == [] by {
      assert head[1..] == [];
    }
    if Open(n) {
      var rows := Rows(le, sorted, |sorted|, level + 1, n);
      assert Visible(le, n, level) == head + rows;
      AtLevelAppend(head, rows, level + 1);
      RowsChildren(le, sorted, |sorted|, level + 1, n);
      assert sorted[..|sorted|] == sorted;
    } else {
      assert Visible(le, n, level) == head;
    }
  }

  lemma {:induction false} RowsChildren(le: (string, string) -> bool, cs: seq<VirtualNode>, m: nat, level: nat, parent: VirtualNode)
    requires m <= |cs| && Among(cs, parent)
    ensures AtLevel(Rows(le, cs, m, level, parent), level) == cs[..m]
    decreases m
  {
    if m > 0 {
      var c := cs[m - 1];
      VisibleAtLevel(le, c, level);
      AtLevelAppend(Rows(le, cs, m - 1, level, parent), Visible(le, c, level), level);
      RowsChildren(le, cs, m - 1, level, parent);
      assert cs[..m] == cs[..m - 1] + [c];
    }
  }

  /** Of a node's rows, only its own is at the node's level. */
  lemma VisibleAtLevel(le: (string, string) -> bool, c: VirtualNode, level: nat)
    ensures AtLevel(Visible(le, c, level), level) == [c]
  {
    var b := Visible(le, c, level);
    VisibleBelow(le, c, level);
    assert b == [b[0]] + b[1..];
    AtLevelAppend([b[0]], b[1..], level);
    Deeper(b[1..], level);
  }

  lemma {:induction false} Deeper(vs: seq<VisibleNode>, level: nat)
    requires forall k :: 0 <= k < |vs| ==> vs[k].level > level
    ensures AtLevel(vs, level) == []
  {
    if vs != [] {
      Deeper(vs[1..], level);
    }
  }

  // ---------------------------------------------------------------------------
  // findParentNode

  /** `findParentNode`: the first node, in the order of the search, one of whose
      children has id `target`. */
  function FindParent(n: VirtualNode, target: Id): (r: Option<VirtualNode>)
    ensures r.Some? <==> target in IdsOf(n.children)
    ensures r.Some? ==> target in Kids(r.value) && r.value.id in Ids(n)
    decreases n, 1
  {
    FindParentIn(n, n.children, target)
  }

  /** The `for` loop over the children of `p`, which are `cs` and those before them. */
  function FindParentIn(p: VirtualNode, cs: seq<VirtualNode>, target: Id): (r: Option<VirtualNode>)
    requires forall c :: c in cs ==> c in p.children
    ensures r.Some? <==> target in IdsOf(cs)
    ensures r.Some? ==> target in Kids(r.value) && (r.value == p || r.value.id in IdsOf(cs))
    decreases p, 0, |cs|
  {
    if cs == [] then None
    else
      var c := cs[0];
      assert c in p.children;
      assert IdsOf(cs) == Ids(c) + IdsOf(cs[1..]);
      if c.id == target then
        assert target in ChildIds(p.children) by { ChildIdIn(c, p.children); }
        Some(p)
      else
        match FindParent(c, target)
        case Some(q) => Some(q)
        case None => FindParentIn(p, cs[1..], target)
  }

  lemma {:induction false} ChildIdIn(c: VirtualNode, cs: seq<VirtualNode>)
    requires c in cs
    ensures c.id in ChildIds(cs)
  {
    if cs[0] != c {
      ChildIdIn(c, cs[1..]);
    }
  }

  /** The root is nobody's child: asking for its parent gives nothing. */
  lemma RootHasNoParent(root: VirtualNode)
    requires UniqueIds(root)
    ensures FindParent(root, root.id).None?
  {
    assert Ids(root) == [root.id] + IdsOf(root.children);
    Seqs.DistinctSplit([root.id], IdsOf(root.children));
  }
}
