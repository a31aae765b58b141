/** The file store of src/stores/fileStore.ts: the tree, the open tabs and the active
    file, the values the store derives from them, and the operations that change them. */
module FileStore {
  import opened Wrappers
  import opened Seqs
  import opened OrderedMap
  import opened VirtualNodes
  import opened VfsTree

  // ---------------------------------------------------------------------------
  // The seed state

  const RootName: string := "NEVERVIEW"
  const RootPath: string := "/NEVERVIEW"
  const IndexName: string := "index.html"
  const IndexPath: string := "/NEVERVIEW/index.html"

  /** The tree the store starts with: the NEVERVIEW folder holding index.html, whose
      content is `html` (the store seeds it with `DefaultHtml`). */
  function SeedRoot(rootId: Id, indexHtmlId: Id, html: string): VirtualNode {
    var index := VirtualNode(indexHtmlId, IndexName, File, IndexPath, html, Some(Html),
      false, true, false, [], Some(rootId));
    VirtualNode(rootId, RootName, Folder, RootPath, "", None, false, false, true, [index], None)
  }

  /** The id of the first child called `name`, as `entries.find(...)` finds it. */
  function FirstNamed(cs: seq<VirtualNode>, name: string): (r: Option<Id>)
    ensures r.None? <==> forall i :: 0 <= i < |cs| ==> cs[i].name != name
    ensures r.Some? ==>
      exists i :: 0 <= i < |cs| && cs[i].name == name && cs[i].id == r.value &&
        (forall j :: 0 <= j < i ==> cs[j].name != name)
  {
    if cs == [] then None
    else if cs[0].name == name then Some(cs[0].id)
    else
      var r := FirstNamed(cs[1..], name);
      assert forall i :: 1 <= i < |cs| ==> cs[i] == cs[1..][i - 1];
      r
  }

  /** The seed tree has unique ids and consistent paths, and its first child called
      index.html is the seeded file. */
  lemma SeedValid(rootId: Id, indexHtmlId: Id, html: string)
    requires rootId != indexHtmlId
    ensures UniqueIds(SeedRoot(rootId, indexHtmlId, html))
    ensures PathConsistent(SeedRoot(rootId, indexHtmlId, html))
    ensures FirstNamed(SeedRoot(rootId, indexHtmlId, html).children, IndexName) == Some(indexHtmlId)
  {
    var root := SeedRoot(rootId, indexHtmlId, html);
    var index := root.children[0];
    assert Ids(index) == [indexHtmlId];
    assert IdsOf(root.children) == Ids(index) + IdsOf([]);
    assert Ids(root) == [rootId, indexHtmlId];
    assert PathConsistent(index);
    assert IndexPath == RootPath + "/" + IndexName;
  }

  // ---------------------------------------------------------------------------
  // Derived values

  /** `activeFile`: the node the active id names, if any. */
  function ActiveFile(activeId: Id, index: seq<Entry<VirtualNode>>): Option<VirtualNode> {
    if activeId == "" then None else Get(index, activeId)
  }

  /** With the index the traversal builds, the active file is the node with the active id. */
  lemma ActiveFileFind(root: VirtualNode, activeId: Id)
    requires UniqueIds(root)
    ensures ActiveFile(activeId, AllFiles(root)) == if activeId == "" then None else Find(root, activeId)
  {
    AllFilesSpec(root, activeId);
  }

  /** `getFileContent`: the content of the file with that id, or "" when there is none. */
  function GetFileContent(index: seq<Entry<VirtualNode>>, fileId: Id): (r: string)
    ensures Get(index, fileId).None? ==> r == ""
  {
    match Get(index, fileId)
    case Some(f) => f.content
    case None => ""
  }

  lemma FileContentFind(root: VirtualNode, fileId: Id)
    requires UniqueIds(root)
    ensures GetFileContent(AllFiles(root), fileId) ==
      if fileId in Ids(root) then Find(root, fileId).value.content else ""
  {
    AllFilesSpec(root, fileId);
  }

  /** `getActiveFileContent`. */
  function GetActiveFileContent(active: Option<VirtualNode>): string {
    match active
    case Some(f) => f.content
    case None => ""
  }

  /** The tab shown for a file. */
  function TabOf(f: VirtualNode): TabInfo {
    TabInfo(f.id, f.name, f.path, f.language, f.isDirty)
  }

  /** `tabs`: one tab per open id that names a file, in tab order; ids naming a folder
      or nothing are skipped. */
  function Tabs(openFiles: seq<Id>, index: seq<Entry<VirtualNode>>): (r: seq<TabInfo>)
    ensures |r| <= |openFiles|
  {
    if openFiles == [] then []
    else
      var rest := Tabs(openFiles[1..], index);
      match Get(index, openFiles[0])
      case Some(f) => if f.kind == File then [TabOf(f)] + rest else rest
      case None => rest
  }

  function TabIds(tabs: seq<TabInfo>): (r: seq<Id>)
    ensures |r| == |tabs|
    ensures forall i :: 0 <= i < |tabs| ==> r[i] == tabs[i].id
  {
    if tabs == [] then [] else [tabs[0].id] + TabIds(tabs[1..])
  }

  /** A file node with id `id` in the tree. */
  ghost predicate IsFileIn(root: VirtualNode, id: Id) {
    id in Ids(root) && Find(root, id).value.kind == File
  }

  /** The ids of `ids` that name file nodes of the tree, in their order, with repeats kept. */
  ghost function FileIdsAmong(root: VirtualNode, ids: seq<Id>): seq<Id>
  {
    if ids == [] then []
    else (if IsFileIn(root, ids[0]) then [ids[0]] else []) + FileIdsAmong(root, ids[1..])
  }

  /** Over the store's index, the tabs are the open ids that name files, in tab order, and
      each tab shows its file's name, path, language and dirty flag. */
  lemma {:induction false} TabsSpec(root: VirtualNode, openFiles: seq<Id>)
    requires UniqueIds(root)
    ensures TabIds(Tabs(openFiles, AllFiles(root))) == FileIdsAmong(root, openFiles)
    ensures forall x :: x in TabIds(Tabs(openFiles, AllFiles(root))) <==> x in openFiles && IsFileIn(root, x)
    ensures forall t :: t in Tabs(openFiles, AllFiles(root)) ==> IsFileIn(root, t.id) && t == TabOf(Find(root, t.id).value)
    decreases openFiles
  {
    if openFiles != [] {
      var x := openFiles[0];
      TabsSpec(root, openFiles[1..]);
      AllFilesSpec(root, x);
      var rest := Tabs(openFiles[1..], AllFiles(root));
      var tabs := Tabs(openFiles, AllFiles(root));
      assert forall y :: y in openFiles <==> y == x || y in openFiles[1..];
      if IsFileIn(root, x) {
        assert tabs == [TabOf(Find(root, x).value)] + rest;
        assert TabIds(tabs) == [x] + TabIds(rest);
      } else {
        assert tabs == rest;
      }
    }
  }

  // ---------------------------------------------------------------------------
  // Open tabs and the active file

  /** `openFile`'s update of the tab list: the id is appended unless already open. */
  function OpenAfterOpen(openFiles: seq<Id>, fileId: Id): (r: seq<Id>)
    ensures openFiles <= r && fileId in r
    ensures forall x :: x in r <==> x in openFiles || x == fileId
  {
    if fileId in openFiles then openFiles else openFiles + [fileId]
  }

  /** Opening never repeats a tab. */
  lemma OpenDistinct(openFiles: seq<Id>, fileId: Id)
    requires Distinct(openFiles)
    ensures Distinct(OpenAfterOpen(openFiles, fileId))
  {
    if fileId !in openFiles {
      assert Distinct([fileId]);
      DistinctConcat(openFiles, [fileId]);
    }
  }

  /** `closeFile`'s choice of the next active file. */
  function ActiveAfterClose(openFiles: seq<Id>, activeId: Id, fileId: Id): (r: Id)
    ensures r == "" || r == activeId || r in RemoveAll(openFiles, fileId)
  {
    var remaining := RemoveAll(openFiles, fileId);
    if activeId == fileId && |remaining| > 0 then
      var index := IndexOf(openFiles, fileId);
      if index > 0 then
        RemoveAllPrefix(openFiles, fileId, index);
        remaining[index - 1]
      else remaining[0]
    else if |remaining| == 0 then ""
    else activeId
  }

  /** Closing the active tab activates the tab to its left, or the new first tab when it
      was the first. */
  lemma CloseActive(openFiles: seq<Id>, i: nat)
    requires Distinct(openFiles) && i < |openFiles| && |openFiles| > 1
    ensures ActiveAfterClose(openFiles, openFiles[i], openFiles[i]) ==
      if i > 0 then openFiles[i - 1] else openFiles[1]
  {
    var x := openFiles[i];
    RemoveAllAt(openFiles, i);
    DistinctIndexOf(openFiles, i);
    assert |RemoveAll(openFiles, x)| == |openFiles| - 1;
  }

  /** Closing another tab leaves the active file alone while any tab remains. */
  lemma CloseOther(openFiles: seq<Id>, activeId: Id, fileId: Id)
    requires activeId != fileId && RemoveAll(openFiles, fileId) != []
    ensures ActiveAfterClose(openFiles, activeId, fileId) == activeId
  {
  }

  /** Closing the last tab clears the active file, whichever it was. */
  lemma CloseLast(openFiles: seq<Id>, activeId: Id, fileId: Id)
    requires RemoveAll(openFiles, fileId) == []
    ensures ActiveAfterClose(openFiles, activeId, fileId) == ""
  {
  }

  // ---------------------------------------------------------------------------
  // HTML sources and the preview

  /** A node `getAllHtmlContent` records: an HTML file with non-empty content. */
  predicate IsHtmlSource(n: VirtualNode) {
    n.kind == File && n.language == Some(Html) && n.content != ""
  }

  /** `getAllHtmlContent`'s traversal: `htmlFiles[node.path] = node.content` in pre-order. */
  function CollectHtml(n: VirtualNode, acc: seq<Entry<string>>): seq<Entry<string>>
    decreases n
  {
    CollectHtmlIn(n.children, if IsHtmlSource(n) then Put(acc, n.path, n.content) else acc)
  }

  function CollectHtmlIn(cs: seq<VirtualNode>, acc: seq<Entry<string>>): seq<Entry<string>>
    decreases cs
  {
    if cs == [] then acc else CollectHtmlIn(cs[1..], CollectHtml(cs[0], acc))
  }

  function GetAllHtmlContent(root: VirtualNode): seq<Entry<string>> {
    CollectHtml(root, [])
  }

  /** The same record built from the pre-order list of nodes. */
  function HtmlOfList(ns: seq<VirtualNode>, acc: seq<Entry<string>>): seq<Entry<string>>
    decreases ns
  {
    if ns == [] then acc
    else HtmlOfList(ns[1..], if IsHtmlSource(ns[0]) then Put(acc, ns[0].path, ns[0].content) else acc)
  }

  lemma {:induction false} HtmlOfListAppend(a: seq<VirtualNode>, b: seq<VirtualNode>, acc: seq<Entry<string>>)
    ensures HtmlOfList(a + b, acc) == HtmlOfList(b, HtmlOfList(a, acc))
    decreases a
  {
    if a == [] {
      assert a + b == b;
    } else {
      assert (a + b)[0] == a[0] && (a + b)[1..] == a[1..] + b;
      var acc' := if IsHtmlSource(a[0]) then Put(acc, a[0].path, a[0].content) else acc;
      HtmlOfListAppend(a[1..], b, acc');
    }
  }

  /** The recursive traversal visits the nodes in pre-order. */
  lemma {:induction false} CollectHtmlList(n: VirtualNode, acc: seq<Entry<string>>)
    ensures CollectHtml(n, acc) == HtmlOfList(Nodes(n), acc)
    decreases n
  {
    var acc' := if IsHtmlSource(n) then Put(acc, n.path, n.content) else acc;
    CollectHtmlInList(n.children, acc');
    assert ([n] + NodesOf(n.children))[0] == n && ([n] + NodesOf(n.children))[1..] == NodesOf(n.children);
  }

  lemma {:induction false} CollectHtmlInList(cs: seq<VirtualNode>, acc: seq<Entry<string>>)
    ensures CollectHtmlIn(cs, acc) == HtmlOfList(NodesOf(cs), acc)
    decreases cs
  {
    if cs != [] {
      CollectHtmlList(cs[0], acc);
      CollectHtmlInList(cs[1..], CollectHtml(cs[0], acc));
      HtmlOfListAppend(Nodes(cs[0]), NodesOf(cs[1..]), acc);
    }
  }

  /** Only non-empty contents are recorded. */
  lemma {:induction false} HtmlValues(ns: seq<VirtualNode>, acc: seq<Entry<string>>)
    requires forall v :: v in Values(acc) ==> v != ""
    ensures forall v :: v in Values(HtmlOfList(ns, acc)) ==> v != ""
    decreases ns
  {
    if ns != [] {
      var n := ns[0];
      if IsHtmlSource(n) {
        PutValues(acc, n.path, n.content);
      }
      HtmlValues(ns[1..], if IsHtmlSource(n) then Put(acc, n.path, n.content) else acc);
    }
  }

  /** A path is recorded exactly when some HTML source has it. */
  lemma {:induction false} HtmlKeys(ns: seq<VirtualNode>, acc: seq<Entry<string>>, k: string)
    ensures k in Keys(HtmlOfList(ns, acc)) <==>
      k in Keys(acc) || exists i :: 0 <= i < |ns| && IsHtmlSource(ns[i]) && ns[i].path == k
    decreases ns
  {
    if ns != [] {
      var n := ns[0];
      HtmlKeys(ns[1..], if IsHtmlSource(n) then Put(acc, n.path, n.content) else acc, k);
      assert forall i :: 1 <= i < |ns| ==> ns[i] == ns[1..][i - 1];
      assert forall i :: 0 <= i < |ns| - 1 ==> ns[1..][i] == ns[i + 1];
    }
  }

  /** A recorded path maps to the content of an HTML source with that path. */
  lemma {:induction false} HtmlGet(ns: seq<VirtualNode>, acc: seq<Entry<string>>, k: string)
    ensures Get(HtmlOfList(ns, acc), k).Some? ==>
      Get(HtmlOfList(ns, acc), k) == Get(acc, k) ||
      exists i :: 0 <= i < |ns| && IsHtmlSource(ns[i]) && ns[i].path == k &&
        ns[i].content == Get(HtmlOfList(ns, acc), k).value
    decreases ns
  {
    if ns != [] {
      var n := ns[0];
      var acc' := if IsHtmlSource(n) then Put(acc, n.path, n.content) else acc;
      if IsHtmlSource(n) {
        GetPut(acc, n.path, n.content, k);
      }
      HtmlGet(ns[1..], acc', k);
      assert forall i :: 0 <= i < |ns| - 1 ==> ns[1..][i] == ns[i + 1];
    }
  }

  /** `getPreviewContent`: the active file when it is HTML, otherwise index.html at the
      top of the project, otherwise the first recorded HTML file, otherwise nothing. */
  function GetPreviewContent(active: Option<VirtualNode>, htmlFiles: seq<Entry<string>>): string {
    if active.Some? && active.value.language == Some(Html) then active.value.content
    else
      match Get(htmlFiles, IndexPath)
      case Some(c) => if c != "" then c else if |htmlFiles| > 0 then htmlFiles[0].value else ""
      case None => if |htmlFiles| > 0 then htmlFiles[0].value else ""
  }

  /** Position of the first HTML source of the node list. */
  function FirstHtml(ns: seq<VirtualNode>): (r: Option<nat>)
    ensures r.Some? ==> r.value < |ns| && IsHtmlSource(ns[r.value])
    ensures r.Some? ==> forall j :: 0 <= j < r.value ==> !IsHtmlSource(ns[j])
    ensures r.None? ==> forall j :: 0 <= j < |ns| ==> !IsHtmlSource(ns[j])
  {
    if ns == [] then None
    else if IsHtmlSource(ns[0]) then Some(0)
    else
      var t := FirstHtml(ns[1..]);
      assert forall j :: 1 <= j < |ns| ==> ns[j] == ns[1..][j - 1];
      if t.Some? then Some(t.value + 1) else None
  }

  /** Position of the last HTML source at path `k`: the write that survives in the record. */
  function LastHtmlAt(ns: seq<VirtualNode>, k: string): (r: Option<nat>)
    ensures r.Some? ==> r.value < |ns| && IsHtmlSource(ns[r.value]) && ns[r.value].path == k
    ensures r.Some? ==> forall j :: r.value < j < |ns| ==> !(IsHtmlSource(ns[j]) && ns[j].path == k)
    ensures r.None? ==> forall j :: 0 <= j < |ns| ==> !(IsHtmlSource(ns[j]) && ns[j].path == k)
  {
    if ns == [] then None
    else
      var t := LastHtmlAt(ns[1..], k);
      assert forall j :: 1 <= j < |ns| ==> ns[j] == ns[1..][j - 1];
      if t.Some? then Some(t.value + 1)
      else if IsHtmlSource(ns[0]) && ns[0].path == k then Some(0)
      else None
  }

  /** What the preview shows, read off the pre-order node list: the last HTML source at
      /NEVERVIEW/index.html; failing that, the last HTML source at the path of the first
      HTML source; failing that, nothing. */
  function PreviewOfNodes(ns: seq<VirtualNode>): string
  {
    match LastHtmlAt(ns, IndexPath)
    case Some(j) => ns[j].content
    case None =>
      match FirstHtml(ns)
      case None => ""
      case Some(i) => ns[LastHtmlAt(ns, ns[i].path).value].content
  }

  /** The record maps a path to the content of the last HTML source at it. */
  lemma HtmlGetLast(ns: seq<VirtualNode>, acc: seq<Entry<string>>, k: string)
    ensures LastHtmlAt(ns, k).Some? ==> Get(HtmlOfList(ns, acc), k) == Some(ns[LastHtmlAt(ns, k).value].content)
    ensures LastHtmlAt(ns, k).None? ==> Get(HtmlOfList(ns, acc), k) == Get(acc, k)
  {
    if LastHtmlAt(ns, k).Some? {
      HtmlGetFound(ns, acc, k);
    } else {
      HtmlGetMissing(ns, acc, k);
    }
  }

  /** A path with an HTML source in the list ends with the content of the last one. */
  lemma {:induction false} HtmlGetFound(ns: seq<VirtualNode>, acc: seq<Entry<string>>, k: string)
    requires LastHtmlAt(ns, k).Some?
    ensures Get(HtmlOfList(ns, acc), k) == Some(ns[LastHtmlAt(ns, k).value].content)
    decreases ns, 1
  {
    var n, rest := ns[0], ns[1..];
    var acc' := if IsHtmlSource(n) then Put(acc, n.path, n.content) else acc;
    if LastHtmlAt(rest, k).Some? {
      HtmlGetFound(rest, acc', k);
      LastHtmlAtTail(ns, k);
      assert HtmlOfList(ns, acc) == HtmlOfList(rest, acc');
    } else {
      HtmlGetMissing(rest, acc', k);
      GetPut(acc, n.path, n.content, k);
      assert HtmlOfList(ns, acc) == HtmlOfList(rest, acc');
    }
  }

  /** When a later node holds the last HTML source at `k`, so it does in the whole list. */
  lemma LastHtmlAtTail(ns: seq<VirtualNode>, k: string)
    requires ns != [] && LastHtmlAt(ns[1..], k).Some?
    ensures LastHtmlAt(ns, k) == Some(LastHtmlAt(ns[1..], k).value + 1)
    ensures ns[LastHtmlAt(ns, k).value] == ns[1..][LastHtmlAt(ns[1..], k).value]
  {
  }

  /** A path with no HTML source in the list keeps what the record started with. */
  lemma {:induction false} HtmlGetMissing(ns: seq<VirtualNode>, acc: seq<Entry<string>>, k: string)
    requires LastHtmlAt(ns, k).None?
    ensures Get(HtmlOfList(ns, acc), k) == Get(acc, k)
    decreases ns, 0
  {
    if ns != [] {
      var n, rest := ns[0], ns[1..];
      var acc' := if IsHtmlSource(n) then Put(acc, n.path, n.content) else acc;
      assert HtmlOfList(ns, acc) == HtmlOfList(rest, acc');
      HtmlGetMissing(rest, acc', k);
      if IsHtmlSource(n) {
        GetPut(acc, n.path, n.content, k);
      }
    }
  }

  /** The record's first key is the first key it started with, or else the path of the
      first HTML source. */
  lemma {:induction false} HtmlFirstKey(ns: seq<VirtualNode>, acc: seq<Entry<string>>)
    requires acc != [] || FirstHtml(ns).Some?
    ensures HtmlOfList(ns, acc) != []
    ensures HtmlOfList(ns, acc)[0].key == if acc != [] then acc[0].key else ns[FirstHtml(ns).value].path
    decreases ns
  {
    if ns != [] {
      var n := ns[0];
      var acc' := if IsHtmlSource(n) then Put(acc, n.path, n.content) else acc;
      if acc != [] || IsHtmlSource(n) {
        assert acc' != [] && acc'[0].key == if acc != [] then acc[0].key else n.path;
        HtmlFirstKey(ns[1..], acc');
      } else {
        assert ns[1..][FirstHtml(ns[1..]).value] == ns[FirstHtml(ns).value];
        HtmlFirstKey(ns[1..], acc');
      }
    }
  }

  /** The record's preview is the one read off the node list. */
  lemma PreviewOfRecord(ns: seq<VirtualNode>, active: Option<VirtualNode>)
    requires !(active.Some? && active.value.language == Some(Html))
    ensures GetPreviewContent(active, HtmlOfList(ns, [])) == PreviewOfNodes(ns)
  {
    var empty: seq<Entry<string>> := [];
    var h := HtmlOfList(ns, empty);
    HtmlGetLast(ns, empty, IndexPath);
    if FirstHtml(ns).Some? {
      var i := FirstHtml(ns).value;
      HtmlFirstKey(ns, empty);
      HtmlGetLast(ns, empty, ns[i].path);
      assert Get(h, h[0].key) == Some(h[0].value);
    } else if h != [] {
      assert h[0].key in Keys(h);
      HtmlKeys(ns, empty, h[0].key);
    }
  }

  /** What `PreviewOfNodes` shows: nothing exactly when no node is an HTML source, and
      otherwise some HTML source's content, the first one's when no later one shares its path. */
  lemma PreviewOfNodesFacts(ns: seq<VirtualNode>)
    ensures var p := PreviewOfNodes(ns);
      && (p == "" <==> forall i :: 0 <= i < |ns| ==> !IsHtmlSource(ns[i]))
      && (p != "" ==> exists i :: 0 <= i < |ns| && IsHtmlSource(ns[i]) && ns[i].content == p)
      && (LastHtmlAt(ns, IndexPath).None? && FirstHtml(ns).Some? &&
          (forall j :: FirstHtml(ns).value < j < |ns| && IsHtmlSource(ns[j]) ==> ns[j].path != ns[FirstHtml(ns).value].path)
          ==> p == ns[FirstHtml(ns).value].content)
  {
    PreviewShowsSource(ns);
    PreviewShowsFirst(ns);
  }

  /** The preview is the content of some HTML source, and empty only when there is none. */
  lemma PreviewShowsSource(ns: seq<VirtualNode>)
    ensures var p := PreviewOfNodes(ns);
      && (p == "" <==> forall i :: 0 <= i < |ns| ==> !IsHtmlSource(ns[i]))
      && (p != "" ==> exists i :: 0 <= i < |ns| && IsHtmlSource(ns[i]) && ns[i].content == p)
  {
    var j: nat;
    if LastHtmlAt(ns, IndexPath).Some? {
      j := LastHtmlAt(ns, IndexPath).value;
    } else if FirstHtml(ns).Some? {
      j := LastHtmlAt(ns, ns[FirstHtml(ns).value].path).value;
    } else {
      return;
    }
    assert IsHtmlSource(ns[j]) && ns[j].content == PreviewOfNodes(ns);
  }

  /** Without index.html, the first HTML source is shown when no later one shares its path. */
  lemma PreviewShowsFirst(ns: seq<VirtualNode>)
    ensures LastHtmlAt(ns, IndexPath).None? && FirstHtml(ns).Some? &&
      (forall j :: FirstHtml(ns).value < j < |ns| && IsHtmlSource(ns[j]) ==> ns[j].path != ns[FirstHtml(ns).value].path)
      ==> PreviewOfNodes(ns) == ns[FirstHtml(ns).value].content
  {
    if LastHtmlAt(ns, IndexPath).None? && FirstHtml(ns).Some? {
      var i := FirstHtml(ns).value;
      var j := LastHtmlAt(ns, ns[i].path).value;
      assert i <= j;
    }
  }

  /** When the active file is not HTML, the preview is what `PreviewOfNodes` reads off the
      tree in pre-order: index.html first, then the first HTML source recorded. It is empty
      exactly when the project has no HTML file with content, and when no later HTML source
      shares the first one's path, it is that first one's content. */
  lemma PreviewContentSpec(root: VirtualNode, active: Option<VirtualNode>)
    requires !(active.Some? && active.value.language == Some(Html))
    ensures var p := GetPreviewContent(active, GetAllHtmlContent(root));
      var ns := Nodes(root);
      && p == PreviewOfNodes(ns)
      && (p == "" <==> forall i :: 0 <= i < |ns| ==> !IsHtmlSource(ns[i]))
      && (p != "" ==> exists i :: 0 <= i < |ns| && IsHtmlSource(ns[i]) && ns[i].content == p)
      && (LastHtmlAt(ns, IndexPath).None? && FirstHtml(ns).Some? &&
          (forall j :: FirstHtml(ns).value < j < |ns| && IsHtmlSource(ns[j]) ==> ns[j].path != ns[FirstHtml(ns).value].path)
          ==> p == ns[FirstHtml(ns).value].content)
  {
    var empty: seq<Entry<string>> := [];
    CollectHtmlList(root, empty);
    PreviewOfRecord(Nodes(root), active);
    PreviewOfNodesFacts(Nodes(root));
  }

  /** When the active file is not HTML and the project has a non-empty
      /NEVERVIEW/index.html, the preview shows an index.html at that path. */
  lemma PreviewPrefersIndex(root: VirtualNode, active: Option<VirtualNode>, j: nat)
    requires !(active.Some? && active.value.language == Some(Html))
    requires j < |Nodes(root)| && IsHtmlSource(Nodes(root)[j]) && Nodes(root)[j].path == IndexPath
    ensures var p := GetPreviewContent(active, GetAllHtmlContent(root));
      var ns := Nodes(root);
      exists i :: 0 <= i < |ns| && IsHtmlSource(ns[i]) && ns[i].path == IndexPath && ns[i].content == p
  {
    var ns := Nodes(root);
    var empty: seq<Entry<string>> := [];
    CollectHtmlList(root, empty);
    HtmlValues(ns, empty);
    HtmlKeys(ns, empty, IndexPath);
    HtmlGet(ns, empty, IndexPath);
  }

  // ---------------------------------------------------------------------------
  // The store

  /** A new node as `createFile` builds it under a parent with path `parentPath`: a file
      gets the language of its extension and that language's template; a folder gets
      neither. Nothing is dirty, open or expanded, and the parent is recorded. */
  function NewNode(newId: Id, name: string, kind: FileType, parentPath: string, parentId: Id): (r: VirtualNode)
    ensures Ids(r) == [newId] && r.path == parentPath + "/" + name && PathConsistent(r)
    ensures r.name == name && r.kind == kind && r.parentId == Some(parentId)
    ensures r.language == (if kind == File then Some(GetLanguageFromExtension(name)) else None)
    ensures kind == File ==> r.content == GetDefaultContent(GetLanguageFromExtension(name))
    ensures kind != File ==> r.content == ""
    ensures !r.isDirty && !r.isOpen && !r.isExpanded && r.children == []
  {
    var language := GetLanguageFromExtension(name);
    VirtualNode(newId, name, kind, parentPath + "/" + name,
      if kind == File then GetDefaultContent(language) else "",
      if kind == File then Some(language) else None,
      false, false, false, [], Some(parentId))
  }

  /** Hanging a fresh single node under a folder found by the search keeps ids unique, the
      root's kind, and consistent paths, and changes the flat view as `Edited` says. */
  lemma CreateKeeps(root: VirtualNode, parentId: Id, node: VirtualNode)
    requires UniqueIds(root) && Find(root, parentId).Some?
    requires Ids(node) == [node.id] && node.id !in Ids(root)
    requires node.path == Find(root, parentId).value.path + "/" + node.name && PathConsistent(node)
    ensures var r := Modify(root, parentId, AddChild(node)).1;
      && UniqueIds(r) && r.kind == root.kind
      && Flat(r) == Edited(Flat(root), parentId, AddChild(node))
      && (PathConsistent(root) ==> PathConsistent(r))
  {
    assert Distinct(Ids(node));
    EditKeeps(root, parentId, AddChild(node));
    if PathConsistent(root) {
      ModifyPaths(root, parentId, AddChild(node));
    }
  }

  /** Two paths that differ only in one middle segment differ. */
  lemma MiddleDiffers(p: string, a: string, b: string, t: string)
    requires a != b
    ensures p + "/" + a + "/" + t != p + "/" + b + "/" + t
  {
    var x := p + "/" + a + "/" + t;
    var y := p + "/" + b + "/" + t;
    if |a| == |b| {
      assert x[|p| + 1..|p| + 1 + |a|] == a;
      assert y[|p| + 1..|p| + 1 + |a|] == b;
    } else {
      assert |x| != |y|;
    }
  }

  /** Renaming touches only the renamed node: a folder's descendants keep their old paths,
      so renaming the first child folder of the root, when it has children of its own, to
      another name leaves the tree's paths inconsistent. */
  lemma RenameLeavesDescendantPaths(root: VirtualNode, newName: string, language: Language,
                                    index: seq<Entry<VirtualNode>>)
    requires UniqueIds(root) && PathConsistent(root)
    requires root.children != [] && root.children[0].children != []
    requires root.children[0].parentId == Some(root.id) && root.id != ""
    requires Get(index, root.id) == Some(root) && newName != root.children[0].name
    ensures !PathConsistent(Modify(root, root.children[0].id, Rename(newName, language, index)).1)
  {
    var src := root.children[0];
    var leaf := src.children[0];
    var e := Rename(newName, language, index);
    assert root.id != src.id by {
      assert Ids(src) == [src.id] + IdsOf(src.children);
      assert IdsOf(root.children) == Ids(src) + IdsOf(root.children[1..]);
      assert Ids(root) == [root.id] + IdsOf(root.children);
      assert Ids(root)[0] == root.id && Ids(root)[1] == src.id;
    }
    var lib := ApplyEdit(src, e);
    assert Modify(src, src.id, e) == (true, lib);
    assert ModifyIn(root.children, src.id, e) == (true, [lib] + root.children[1..]);
    assert Modify(root, src.id, e).1 == root.(children := [lib] + root.children[1..]);
    assert lib.path == root.path + "/" + newName;
    assert src in root.children && leaf in src.children;
    assert PathConsistent(src);
    assert ChildrenUnder(src.children, src.path);
    MiddleDiffers(root.path, src.name, newName, leaf.name);
    assert leaf.path != lib.path + "/" + leaf.name;
    assert !ChildrenUnder(lib.children, lib.path);
    assert !PathConsistent(lib);
    var renamed := Modify(root, src.id, e).1;
    assert lib in renamed.children;
    assert !ChildrenUnder(renamed.children, renamed.path);
  }

  class Store {
    var rootFolder: VirtualNode
    var openFiles: seq<Id>
    var activeFileId: Id

    /** A node whose deletion first closes its tab: an open file. */
    static predicate IsOpenFile(n: VirtualNode)
    {
      n.kind == File && n.isOpen
    }

    /** Ids are unique, the root is a folder, and no tab is listed twice. */
    ghost predicate Valid()
      reads this
    {
      UniqueIds(rootFolder) && rootFolder.kind == Folder && Distinct(openFiles)
    }

    /** The seed state; the two generated ids are parameters. */
    constructor (rootId: Id, indexHtmlId: Id)
      requires rootId != indexHtmlId
      ensures Valid() && PathConsistent(rootFolder)
      ensures rootFolder == SeedRoot(rootId, indexHtmlId, DefaultHtml)
      ensures openFiles == [indexHtmlId] && activeFileId == indexHtmlId
    {
      var root := SeedRoot(rootId, indexHtmlId, DefaultHtml);
      SeedValid(rootId, indexHtmlId, DefaultHtml);
      rootFolder := root;
      var found := FirstNamed(root.children, IndexName);
      activeFileId := found.GetOr("");
      openFiles := if found.Some? then [found.value] else [];
    }

    /** `updateFileContent`: the first node with that id gets the content and is marked
        dirty if it is a file; nothing else changes. */
    method UpdateFileContent(fileId: Id, content: string)
      requires Valid()
      modifies this`rootFolder
      ensures Valid()
      ensures rootFolder == Modify(old(rootFolder), fileId, SetContent(content)).1
      ensures Flat(rootFolder) == Edited(Flat(old(rootFolder)), fileId, SetContent(content))
      ensures PathConsistent(old(rootFolder)) ==> PathConsistent(rootFolder)
    {
      var e := SetContent(content);
      EditKeeps(rootFolder, fileId, e);
      if PathConsistent(rootFolder) {
        ModifyPaths(rootFolder, fileId, e);
      }
      rootFolder := Modify(rootFolder, fileId, e).1;
    }

    /** `openFile`. */
    method OpenFile(fileId: Id)
      requires Valid()
      modifies this`openFiles, this`activeFileId
      ensures Valid()
      ensures openFiles == OpenAfterOpen(old(openFiles), fileId) && activeFileId == fileId
    {
      OpenDistinct(openFiles, fileId);
      openFiles := OpenAfterOpen(openFiles, fileId);
      activeFileId := fileId;
    }

    /** `closeFile`: drops the tab, picks the next active file, and clears the node's
        open flag. */
    method CloseFile(fileId: Id)
      requires Valid()
      modifies this
      ensures Valid()
      ensures openFiles == RemoveAll(old(openFiles), fileId)
      ensures activeFileId == ActiveAfterClose(old(openFiles), old(activeFileId), fileId)
      ensures rootFolder == Modify(old(rootFolder), fileId, MarkClosed).1
      ensures Flat(rootFolder) == Edited(Flat(old(rootFolder)), fileId, MarkClosed)
      ensures PathConsistent(old(rootFolder)) ==> PathConsistent(rootFolder)
    {
      DistinctRemoveAll(openFiles, fileId);
      activeFileId := ActiveAfterClose(openFiles, activeFileId, fileId);
      openFiles := RemoveAll(openFiles, fileId);
      EditKeeps(rootFolder, fileId, MarkClosed);
      if PathConsistent(rootFolder) {
        ModifyPaths(rootFolder, fileId, MarkClosed);
      }
      rootFolder := Modify(rootFolder, fileId, MarkClosed).1;
    }

    /** `setActiveFile`. */
    method SetActiveFile(fileId: Id)
      modifies this`activeFileId
      ensures activeFileId == fileId
    {
      activeFileId := fileId;
    }

    /** `addToParent` inside `createFile`: the node is appended to the children of the
        first node with the parent's id. */
    method AddToParent(parentFolderId: Id, node: VirtualNode)
      requires Valid() && Find(rootFolder, parentFolderId).Some?
      requires Ids(node) == [node.id] && node.id !in Ids(rootFolder)
      requires node.path == Find(rootFolder, parentFolderId).value.path + "/" + node.name
      requires PathConsistent(node)
      modifies this`rootFolder
      ensures Valid()
      ensures rootFolder == Modify(old(rootFolder), parentFolderId, AddChild(node)).1
      ensures Flat(rootFolder) == Edited(Flat(old(rootFolder)), parentFolderId, AddChild(node))
      ensures PathConsistent(old(rootFolder)) ==> PathConsistent(rootFolder)
    {
      CreateKeeps(rootFolder, parentFolderId, node);
      rootFolder := Modify(rootFolder, parentFolderId, AddChild(node)).1;
    }

    /** `allFiles.get(id)`: the index rebuilt from the tree finds what the tree search finds. */
    method LookUp(id: Id) returns (n: Option<VirtualNode>)
      requires Valid()
      ensures n == Find(rootFolder, id)
    {
      AllFilesSpec(rootFolder, id);
      n := Get(AllFiles(rootFolder), id);
    }

    /** `createFile`: under a folder found in the index, adds a node with the fresh id
        `newId`; a new file is opened and made active. An id that names no folder
        changes nothing. */
    method CreateFile(parentFolderId: Id, name: string, kind: FileType, newId: Id) returns (r: Option<VirtualNode>)
      requires Valid() && newId !in Ids(rootFolder) && newId !in openFiles
      modifies this
      ensures Valid()
      ensures var p := Find(old(rootFolder), parentFolderId);
        r.Some? <==> p.Some? && p.value.kind == Folder
      ensures r.None? ==>
        rootFolder == old(rootFolder) && openFiles == old(openFiles) && activeFileId == old(activeFileId)
      ensures r.Some? ==>
        && r.value == NewNode(newId, name, kind, Find(old(rootFolder), parentFolderId).value.path, parentFolderId)
        && rootFolder == Modify(old(rootFolder), parentFolderId, AddChild(r.value)).1
        && Flat(rootFolder) == Edited(Flat(old(rootFolder)), parentFolderId, AddChild(r.value))
        && openFiles == (if kind == File then old(openFiles) + [newId] else old(openFiles))
        && activeFileId == (if kind == File then newId else old(activeFileId))
      ensures PathConsistent(old(rootFolder)) ==> PathConsistent(rootFolder)
    {
      var parent := LookUp(parentFolderId);
      if parent.None? || parent.value.kind != Folder {
        return None;
      }
      var node := NewNode(newId, name, kind, parent.value.path, parentFolderId);
      AddToParent(parentFolderId, node);
      if kind == File {
        assert Distinct([newId]);
        DistinctConcat(openFiles, [newId]);
        openFiles := openFiles + [newId];
        activeFileId := newId;
      }
      r := Some(node);
    }

    /** `deleteFile`: a file whose node is marked open is closed first; then the node and
        its subtree leave the first folder listing it as a child. */
    method DeleteFile(fileId: Id)
      requires Valid()
      modifies this
      ensures Valid()
      ensures Find(old(rootFolder), fileId).None? ==>
        rootFolder == old(rootFolder) && openFiles == old(openFiles) && activeFileId == old(activeFileId)
      ensures Find(old(rootFolder), fileId).Some? && IsOpenFile(Find(old(rootFolder), fileId).value) ==>
        && openFiles == RemoveAll(old(openFiles), fileId)
        && activeFileId == ActiveAfterClose(old(openFiles), old(activeFileId), fileId)
        && rootFolder == Detach(Modify(old(rootFolder), fileId, MarkClosed).1, fileId).1
      ensures Find(old(rootFolder), fileId).Some? && !IsOpenFile(Find(old(rootFolder), fileId).value) ==>
        openFiles == old(openFiles) && activeFileId == old(activeFileId) && rootFolder == Detach(old(rootFolder), fileId).1
      ensures forall x :: x in Ids(rootFolder) <==> x in Ids(old(rootFolder)) && x !in Detached(old(rootFolder), fileId)
      ensures PathConsistent(old(rootFolder)) ==> PathConsistent(rootFolder)
    {
      var file := LookUp(fileId);
      if file.None? {
        return;
      }
      ghost var before := rootFolder;
      assert file.value == Find(before, fileId).value;
      if IsOpenFile(file.value) {
        CloseFile(fileId);
        OwnEditIds(before, fileId, MarkClosed);
        OwnEditDetached(before, fileId, MarkClosed, fileId);
      }
      RemoveFromParent(fileId);
    }

    /** The `setRootFolder` update of `deleteFile`: the node leaves the first folder, in
        depth-first order, that lists it as a child; nothing else changes. */
    method RemoveFromParent(fileId: Id)
      requires Valid()
      modifies this`rootFolder
      ensures Valid()
      ensures rootFolder == Detach(old(rootFolder), fileId).1
      ensures forall x :: x in Ids(rootFolder) <==> x in Ids(old(rootFolder)) && x !in Detached(old(rootFolder), fileId)
      ensures PathConsistent(old(rootFolder)) ==> PathConsistent(rootFolder)
    {
      DetachPreserves(rootFolder, fileId);
      rootFolder := Detach(rootFolder, fileId).1;
    }

    /** `renameFile`: the node gets the new name, a path under its parent's when the
        parent is in the index, and for a file the language of the new name. */
    method RenameFile(fileId: Id, newName: string)
      requires Valid()
      modifies this`rootFolder
      ensures Valid()
      ensures var e := Rename(newName, GetLanguageFromExtension(newName), AllFiles(old(rootFolder)));
        && rootFolder == Modify(old(rootFolder), fileId, e).1
        && Flat(rootFolder) == Edited(Flat(old(rootFolder)), fileId, e)
    {
      var e := Rename(newName, GetLanguageFromExtension(newName), AllFiles(rootFolder));
      EditKeeps(rootFolder, fileId, e);
      rootFolder := Modify(rootFolder, fileId, e).1;
    }

    /** `toggleFolder`: flips the expanded flag of the first node with that id. */
    method ToggleFolder(folderId: Id)
      requires Valid()
      modifies this`rootFolder
      ensures Valid()
      ensures rootFolder == Modify(old(rootFolder), folderId, ToggleExpanded).1
      ensures Flat(rootFolder) == Edited(Flat(old(rootFolder)), folderId, ToggleExpanded)
      ensures PathConsistent(old(rootFolder)) ==> PathConsistent(rootFolder)
    {
      EditKeeps(rootFolder, folderId, ToggleExpanded);
      if PathConsistent(rootFolder) {
        ModifyPaths(rootFolder, folderId, ToggleExpanded);
      }
      rootFolder := Modify(rootFolder, folderId, ToggleExpanded).1;
    }
  }
}
