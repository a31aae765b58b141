# NeverView core, modelled in Dafny

NeverView is an in-browser playground. The user edits a small virtual file tree of HTML, CSS
and JavaScript files. A preview pane shows the page with its local stylesheets and scripts
inlined. This project models the parts of NeverView that hold its logic:

- **The file store** (`src/stores/fileStore.ts`). It holds:
  - the tree under the `NEVERVIEW` root folder;
  - the open tabs;
  - the active file.

  This project models the values the store derives (the id index, the tabs, the HTML record,
  the preview content) and the operations that edit the tree in place:
  - update content;
  - open, close and activate tabs;
  - create, delete and rename nodes;
  - toggle folders.
- **The preview engine** (`src/utils/previewEngine.ts`). This project models:
  - path resolution and lookup by path;
  - the recursive rewriting of CSS `@import`s and ES module imports into blob URLs;
  - the two element loops of `processHtmlForPreview` that inline stylesheets and scripts;
  - `getAllDependencies`.
- **The tree view** (`src/components/sidebar/utils.ts`, `FileTreeNode.tsx`, `index.tsx`). This
  project models:
  - the visible-row layout;
  - the folders-first sort;
  - the parent lookup;
  - the subtree test and drop guard of a row;
  - a row's rename, create, click, drag and key handlers;
  - the keyboard navigation;
  - the resize handle.
- **The activity bar** (`src/components/ActivityBar.tsx`). It has the tab-button click rule,
  the highlight predicate and the bottom visibility toggle.

## How the model is built

- **Tree and ids.** The tree is a recursive datatype `VirtualNode`. Its children list keeps
  the insertion order of the source's `Map`.
  - `VfsTree.Ids` lists the ids in pre-order.
  - `VfsTree.Find` is the depth-first search the store performs.
  - The store does not check that ids are unique, so this property is a precondition
    (`UniqueIds`).
- **The store.** The store is an imperative class, `FileStore.Store`, whose methods reassign
  its fields. Its edits use one search-and-edit walk, `VfsTree.Modify`, or one removal walk,
  `VfsTree.Detach`.
  - Each method's contract gives the new state. It states the change on a flat view, `Flat`,
    which maps an id to the node without its children plus its child ids.
  - The contract also states that all other nodes are unchanged, that ids stay unique, and
    that paths stay consistent where the source keeps them so.
- **Preview engine and ids.** The preview engine is the class `PreviewEngine.Previewer`. It
  holds the memo (`processedFiles`) and the blobs created so far.
- **Two preview engines.** `PreviewEngine` is the engine with two corrections, and the rest
  of the model uses it. `PreviewAsWritten` holds the code as written.
  - The corrected engine marks the files on the current import chain as in progress and
    leaves an import of one of them as written (finding 1).
  - It resolves every reference with `ResolveInDir`, which keeps the directory it is given.
    `resolvePath` drops that directory's last segment when it contains a dot (finding 3).
  - The engine as written resolves with `resolvePath` and marks nothing in progress. Its
    transformers are synchronous recursive functions with no bound on their depth, so the
    model spends one unit of fuel per file entered and yields `None` when the fuel runs out.
  - A run that is `None` at every fuel stands for the source's behaviour on it: the
    recursion re-enters until the JavaScript call stack overflows, and the `RangeError`
    leaves `processHtmlForPreview`, which has no `try`/`catch`. A run that reaches a file
    already on its import chain is such a run.
  - Whenever a run as written ends, and no folder's last segment has a dot, the corrected
    engine gives the same text, dependencies and state (`PreviewAsWritten.PreviewAgrees`,
    `PreviewAsWritten.AllDependenciesAgree`).
  - Conversely, when the import graphs are acyclic, a run as written with more fuel than
    there are file paths ends, with the corrected result (`PreviewAsWritten.PreviewEnds`,
    `PreviewAsWritten.AllDependenciesEnd`).
- **Transformers.** Each transformer method is proved equal to a function on the state.
  Those functions carry the lemmas.
  - The import regular expressions become a scanner parameter, which cuts a text into literal
    chunks and import matches.
  - `DOMParser` becomes a parser parameter, which yields a sequence of elements.
  - `URL.createObjectURL` issues `blob:<n>` for the n-th blob.
- **Components.** The React components become two kinds of thing.
  - Classes with the component's state as fields. Callbacks a handler fires are appended to
    a `fired` sequence.
  - Pure transition functions, for the keyboard navigation and the activity bar.
  - `localeCompare` is an abstract comparison `le` on names. The lemmas that need it assume it
    is a total preorder.

In these places the model follows the code as written, which a reader might not expect:

- `toggleFolder` flips `isExpanded` on whatever node has the id, files included.
- `renameFile` does not update the paths of a renamed folder's descendants.
  `FileStore.RenameLeavesDescendantPaths` shows the resulting inconsistency.
- `deleteFile` closes the tab only of a node whose `isOpen` flag is set. `createFile` sets that
  flag to false and `openFile` never sets it, so deleting an open tab's file leaves the tab
  listed in `openFiles`. `tabs` then skips it.
- The top-level CSS and JavaScript transforms of `processHtmlForPreview` resolve nested
  imports against the HTML page's directory. They do not use the stylesheet's or script's own
  directory. The nested recursion uses the imported file's directory.
- The CSS transformer never consults the memo, and there is no exception fallback around the
  render.

## Model

| member | source | states |
|---|---|---|
| VirtualNodes.GetLanguageFromExtension | src/stores/fileStore.ts:28-45 | The language is chosen by the lower-cased text after the last dot of the name. It is `html` exactly for `html`/`htm`, and `css`, `javascript`, `typescript` and `json` exactly for their extensions. Every other name is `plaintext`. |
| VirtualNodes.DefaultContentEmpty | src/stores/fileStore.ts:91-102 | A new file has a template exactly when its language is HTML, CSS or JavaScript. |
| FileStore.SeedValid | src/stores/fileStore.ts:106-130 | The seed tree has unique ids and consistent paths, and its first child named index.html is the seeded page. |
| FileStore.FirstNamed | src/stores/fileStore.ts:132-143 | `entries.find` by name: it returns the id of the first child with that name, or none exactly when no child has it. |
| FileStore.Store.constructor | src/stores/fileStore.ts:106-143 | The store starts with the seed tree, index.html as the only tab and as the active file, and a valid state. |
| VfsTree.AllFilesSpec | src/stores/fileStore.ts:146-158 | `allFiles` lists every id of the tree in pre-order, and looking an id up gives the node the depth-first search finds. |
| VfsTree.Find | src/stores/fileStore.ts:191-207 | The depth-first search finds a node exactly when the id occurs in the tree, and the node found has that id. |
| FileStore.ActiveFileFind | src/stores/fileStore.ts:160-162 | `activeFile` is the node with the active id, or none for the empty id. |
| FileStore.TabsSpec | src/stores/fileStore.ts:164-176 | The tab ids are the open ids that name files, in tab order with repeats kept (`FileIdsAmong`). An id is a tab exactly when it is open and names a file, and each tab shows that file's name, path, language and dirty flag. |
| FileStore.FileContentFind | src/stores/fileStore.ts:178-185 | `getFileContent` gives the content of the node with that id, and "" for an unknown id. |
| VfsTree.EditKeeps | src/stores/fileStore.ts:191-207 | A search-and-edit walk edits only the first node with the id, in the way the flat view says. Ids stay unique, and the root keeps its id and kind. |
| VfsTree.ModifyPaths | src/stores/fileStore.ts:191-207 | An edit that changes no name, or that adds a child under its parent's path, keeps every path equal to its parent's path plus its name. |
| FileStore.Store.UpdateFileContent | src/stores/fileStore.ts:187-210 | Only the node with the id gets the new content, and it is marked dirty if it is a file. Validity and path consistency are kept. |
| FileStore.OpenAfterOpen | src/stores/fileStore.ts:212-217 | Opening appends the id unless it is already open. The old tabs are a prefix of the new ones, and the new tab set is the old set plus the id. |
| FileStore.OpenDistinct | src/stores/fileStore.ts:212-217 | Opening never lists a tab twice. |
| FileStore.Store.OpenFile | src/stores/fileStore.ts:212-218 | The tab list becomes `OpenAfterOpen`, and the file becomes active. |
| FileStore.ActiveAfterClose | src/stores/fileStore.ts:220-235 | After a close, the active id is empty, unchanged, or one of the remaining tabs. |
| FileStore.CloseActive | src/stores/fileStore.ts:224-230 | Closing the active tab activates the tab on its left, or the new first tab when it was first. |
| FileStore.CloseOther | src/stores/fileStore.ts:221-234 | Closing another tab keeps the active file while tabs remain. |
| FileStore.CloseLast | src/stores/fileStore.ts:221-234 | Closing the last tab clears the active file. |
| FileStore.Store.CloseFile | src/stores/fileStore.ts:220-256 | The tab is dropped and the next active file chosen. The node's open flag is cleared, and nothing else in the tree changes. |
| FileStore.Store.SetActiveFile | src/stores/fileStore.ts:258-260 | The active id becomes the given id. |
| FileStore.NewNode | src/stores/fileStore.ts:268-284 | A new node has a single id, the path `parent/name`, and consistent paths. A file gets the language of its extension and that language's template; a folder gets no language and no content. It is not dirty, open or expanded, has no children, and records its parent. |
| FileStore.CreateKeeps | src/stores/fileStore.ts:286-307 | Hanging a fresh node under the found folder keeps ids unique and paths consistent, and adds exactly that child in the flat view. |
| FileStore.Store.AddToParent | src/stores/fileStore.ts:286-307 | The node is appended to the children of the first node with the parent's id, and nothing else changes. |
| FileStore.Store.LookUp | src/stores/fileStore.ts:264 | `allFiles.get(id)` finds what the depth-first search finds. |
| FileStore.Store.CreateFile | src/stores/fileStore.ts:262-316 | A node is created exactly when the parent id names a folder, and otherwise nothing changes. The node is built by `NewNode` and appended to that folder. A new file also becomes an open and active tab. |
| VfsTree.DetachPreserves | src/stores/fileStore.ts:327-345 | Removing a node keeps ids unique and paths consistent. The remaining ids are the old ones minus the removed subtree. |
| VfsTree.DetachPaths | src/stores/fileStore.ts:327-345 | Removing a subtree keeps every remaining path consistent. |
| FileStore.Store.DeleteFile | src/stores/fileStore.ts:318-346 | An unknown id changes nothing. Otherwise a file flagged open is closed first, then the node and its subtree leave their parent; exactly the detached ids disappear. |
| FileStore.Store.RemoveFromParent | src/stores/fileStore.ts:327-345 | The node leaves the first folder, in depth-first order, that lists it as a child. The store stays valid, paths stay consistent, and exactly the detached ids disappear; the tabs are untouched. |
| FileStore.Store.RenameFile | src/stores/fileStore.ts:348-377 | The node gets the new name. It gets a path under its parent's when the parent is indexed, and, if it is a file, the language of the new name; nothing else changes. |
| FileStore.RenameLeavesDescendantPaths | src/stores/fileStore.ts:352-366 | Renaming a folder that has children leaves the tree's paths inconsistent, because descendants keep their old paths. |
| FileStore.Store.ToggleFolder | src/stores/fileStore.ts:379-398 | The expanded flag of the first node with the id flips, and nothing else changes. |
| FileStore.HtmlKeys | src/stores/fileStore.ts:400-414 | A path is in `getAllHtmlContent` exactly when some HTML file with content has it. |
| FileStore.HtmlGet | src/stores/fileStore.ts:400-414 | A recorded path maps to the content of an HTML file with that path. |
| FileStore.HtmlValues | src/stores/fileStore.ts:403-406 | Only non-empty contents are recorded. |
| FileStore.CollectHtmlList | src/stores/fileStore.ts:403-412 | The recursive traversal visits the nodes in pre-order. |
| FileStore.FirstHtml | src/stores/fileStore.ts:403-412 | The position found is the first HTML source of the pre-order node list, and none exactly when there is none. |
| FileStore.LastHtmlAt | src/stores/fileStore.ts:400-414 | The position found is the last HTML source at the path, the write `htmlFiles[node.path] = ...` that survives, and none exactly when there is none. |
| FileStore.HtmlGetLast | src/stores/fileStore.ts:400-414 | The record maps a path to the content of the last HTML source at it, and keeps its old value for a path with none. |
| FileStore.HtmlFirstKey | src/stores/fileStore.ts:400-414 | The record's first key is the path of the first HTML source in pre-order. |
| FileStore.PreviewOfRecord | src/stores/fileStore.ts:416-425 | With a non-HTML active file, the preview chosen from the record is `PreviewOfNodes` of the pre-order node list: the last source at index.html, else the last source at the first source's path. |
| FileStore.PreviewOfNodesFacts | src/stores/fileStore.ts:416-425 | That preview is empty exactly when there is no HTML source, is otherwise some source's content, and is the first source's content when no later source shares its path. |
| FileStore.GetPreviewContent | src/stores/fileStore.ts:416-426 | `getPreviewContent` on the active file and the record: `PreviewContentSpec`, `PreviewPrefersIndex` and `PreviewOfRecord` state what it returns. |
| FileStore.PreviewContentSpec | src/stores/fileStore.ts:416-425 | With a non-HTML active file, the preview is `PreviewOfNodes` of the tree in pre-order. It is empty exactly when no HTML file has content, otherwise one such file's content, and the first one's in traversal order when no later one shares its path. |
| FileStore.PreviewPrefersIndex | src/stores/fileStore.ts:423-424 | With a non-HTML active file, a non-empty `/NEVERVIEW/index.html` is what the preview shows. |
| PathResolver.ResolvePath | src/utils/previewEngine.ts:10-40 | The pop-and-push loop over the base's segments computes `Resolve`. |
| PathResolver.ResolveShape | src/utils/previewEngine.ts:10-40 | A relative reference resolves to `/` followed by the walked segment stack. No segment of the result is empty, and none is `.` or `..` when the base's segments have neither. |
| PathResolver.ResolveIdempotent | src/utils/previewEngine.ts:11-13 | A resolved path resolves to itself against any base. |
| PathResolver.ResolveBelow | src/utils/previewEngine.ts:15-38 | References without `.` and `..` are appended to the base's folder segments. |
| PathResolver.UpFromRoot | src/utils/previewEngine.ts:24-30 | A `..` at the root does nothing. |
| PathResolver.ResolveSibling | src/utils/previewEngine.ts:15-38 | `./name` against a file gives the sibling in the file's folder. |
| PathResolver.ResolveUncle | src/utils/previewEngine.ts:15-38 | `../name` against a file gives `name` in the folder above. |
| PathResolver.DirName | src/utils/previewEngine.ts:164 | The directory of a path is never empty; for a top-level name it is the root `/`. |
| PathResolver.DirNameParent | src/utils/previewEngine.ts:164 | The directory of a resolved path is its parent folder's path. |
| PathResolver.ResolveInDirAgrees | src/utils/previewEngine.ts:15-20 | Resolving in a directory agrees with `resolvePath` unless the directory's last segment contains a dot. |
| PathResolver.ResolveInFolder | src/utils/previewEngine.ts:15-38 | A reference resolved against a file's directory lands in that file's folder. |
| PathResolver.DottedFolderDropped | src/utils/previewEngine.ts:15-20 | `resolvePath` drops a dotted folder from the directory it is given (finding 3). The corrected resolution keeps it. |
| PreviewEngine.FileAt | src/utils/previewEngine.ts:43-53 | Lookup by path gives a file of the index at exactly that path, and none exactly when no file there exists. |
| PreviewEngine.FindFileByPath | src/utils/previewEngine.ts:43-53 | The search loop returns `FileAt`. |
| PreviewEngine.BlobUrlInjective | src/utils/previewEngine.ts:85-86 | Different blobs get different URLs. |
| PreviewEngine.Target | src/utils/previewEngine.ts:170-179 | Empty references and URLs with a scheme are never inlined. Any other reference that is followed resolves in the page's directory to a file of the index. |
| PreviewEngine.CssImportFound | src/utils/previewEngine.ts:65-95 | A found CSS import becomes an `@import` of the blob just created. The memo maps the path to that blob and its transformed content. |
| PreviewEngine.CssUntouched | src/utils/previewEngine.ts:65-75 | When no import leads to a file that may be entered, the CSS text comes back unchanged and so does the state. |
| PreviewEngine.JsUntouched | src/utils/previewEngine.ts:108-125 | The same holds for module imports, where URLs and bare package names are also left alone. |
| PreviewEngine.CssImportsGrow | src/utils/previewEngine.ts:56-96 | The CSS transformer keeps every memo entry pointing at a blob with its content, and only appends blobs. |
| PreviewEngine.JsImportsGrow | src/utils/previewEngine.ts:99-151 | The JS transformer keeps the memo sound, only appends blobs, and never replaces a memo entry. |
| PreviewEngine.CssCycleInner | src/utils/previewEngine.ts:65-95 | With `b.css` in progress inside `a.css`, the corrected transformer leaves the import of `a.css` as written and makes one blob for `b.css`. |
| PreviewEngine.CssCycleSettles | src/utils/previewEngine.ts:65-95 | On two stylesheets that import each other, the corrected transformer ends after two blobs, one per file (finding 1). |
| PreviewEngine.CssImports | src/utils/previewEngine.ts:56-96 | The corrected CSS transformer as a value. `CssImportsGrow`, `CssUntouched` and `CssCycleSettles` state its properties; `PreviewAsWritten.CssAgree` and `CssEndsAgree` tie it to the code as written. |
| PreviewEngine.CssImport | src/utils/previewEngine.ts:65-95 | One CSS import, corrected. `CssImportFound`, `CssImportEnters` and `CssImportSkips` state what it does. |
| PreviewEngine.JsImports | src/utils/previewEngine.ts:99-151 | The corrected JS transformer as a value. `JsImportsGrow` and `JsUntouched` state its properties; `PreviewAsWritten.JsAgree` and `JsEndsAgree` tie it to the code as written. |
| PreviewEngine.JsImport | src/utils/previewEngine.ts:108-150 | One JS import, corrected. `JsImportEnters` states how it enters a file. |
| PreviewEngine.Link | src/utils/previewEngine.ts:168-191 | One stylesheet element, corrected. `LinksShape` and `LinkDepsFound` state what it yields. |
| PreviewEngine.Links | src/utils/previewEngine.ts:166-192 | The corrected stylesheet loop. `LinksShape`, `LinkDepsFound` and `PreviewAsWritten.LinksAgree` state its properties. |
| PreviewEngine.Script | src/utils/previewEngine.ts:196-225 | One script element, corrected. `ScriptsShape` states what it yields. |
| PreviewEngine.Scripts | src/utils/previewEngine.ts:194-226 | The corrected script loop. `ScriptsShape` and `PreviewAsWritten.ScriptsAgree` state its properties. |
| PreviewEngine.Preview | src/utils/previewEngine.ts:154-237 | The corrected render. `PreviewDeps`, `PreviewGrows`, `PreviewAsWritten.PreviewAgrees` and `PreviewEnds` state its properties. |
| PreviewEngine.AllDependencies | src/utils/previewEngine.ts:240-249 | The corrected dependency list, stated without running the transformers. `PreviewDeps` shows it is the render's list. |
| PreviewEngine.Previewer.CreateObjectUrl | src/utils/previewEngine.ts:85-86 | One blob is appended, and its URL is the new blob's. |
| PreviewEngine.Previewer.constructor | src/utils/previewEngine.ts:159 | The engine starts with an empty memo and no blobs. |
| PreviewEngine.Previewer.TransformCssImports | src/utils/previewEngine.ts:56-96 | The replace loop's text and state are those of `CssImports`. |
| PreviewEngine.Previewer.TransformCssImport | src/utils/previewEngine.ts:65-95 | The replace callback's text and state are those of `CssImport`. |
| PreviewEngine.Previewer.TransformJsImports | src/utils/previewEngine.ts:99-151 | The replace loop's text and state are those of `JsImports`. |
| PreviewEngine.Previewer.TransformJsImport | src/utils/previewEngine.ts:108-150 | The replace callback's text and state are those of `JsImport`. |
| PreviewEngine.LinksShape | src/utils/previewEngine.ts:166-192 | The stylesheet loop keeps the document's length and records the inlined stylesheets. Exactly the local stylesheets with found content become inline styles, and every other element is kept. |
| PreviewEngine.ScriptsShape | src/utils/previewEngine.ts:194-226 | Exactly the local scripts with found content become inline scripts of the same kind. A classic script keeps its code verbatim, and every other element is kept. |
| PreviewEngine.LinkDepsFound | src/utils/previewEngine.ts:178-179 | Every recorded dependency is a file of the index with content. |
| PreviewEngine.PreviewDeps | src/utils/previewEngine.ts:154-237 | A render's dependencies are the inlined stylesheets followed by the inlined scripts, independent of the memo and blobs. |
| PreviewEngine.PreviewGrows | src/utils/previewEngine.ts:154-237 | After a render, every memo entry points at a blob with its content, and earlier blobs remain in order. |
| PreviewEngine.Previewer.ReplaceLink | src/utils/previewEngine.ts:168-191 | The per-link callback computes `Link`. |
| PreviewEngine.Previewer.ReplaceScript | src/utils/previewEngine.ts:196-225 | The per-script callback computes `Script`. |
| PreviewEngine.Previewer.InlineStylesheets | src/utils/previewEngine.ts:166-192 | The loop over the link elements produces the document, dependencies and state of `Links`. |
| PreviewEngine.Previewer.InlineScripts | src/utils/previewEngine.ts:194-226 | The loop over the script elements produces the document, dependencies and state of `Scripts`. |
| PreviewEngine.Previewer.ProcessHtmlForPreview | src/utils/previewEngine.ts:154-237 | Output, dependencies and state are those of `Preview`, starting from a fresh memo. |
| PreviewEngine.Previewer.GetAllDependencies | src/utils/previewEngine.ts:240-249 | The result is empty without a page with content. Otherwise it is that page's stylesheet dependencies, then its script dependencies. |
| PreviewAsWritten.CssImports | src/utils/previewEngine.ts:56-96 | `transformCssImports` as written, with fuel. `CssCycleDiverges`, `CssTrapStuck`, `CssAgree` and `CssEnds` state when it ends and what it gives. |
| PreviewAsWritten.CssImport | src/utils/previewEngine.ts:65-95 | One CSS import as written. `CssImportPlain`, `CssImportEntersAsWritten` and `CssImportStuck` state what it does. |
| PreviewAsWritten.JsImports | src/utils/previewEngine.ts:99-151 | `transformJsImports` as written, with fuel. `JsCycleDiverges`, `JsTrapStuck`, `JsAgree` and `JsEnds` state when it ends and what it gives. |
| PreviewAsWritten.JsImport | src/utils/previewEngine.ts:108-150 | One JS import as written. `JsImportPlain`, `JsImportEntersAsWritten` and `JsImportStuck` state what it does. |
| PreviewAsWritten.Link | src/utils/previewEngine.ts:168-191 | One stylesheet element as written. `LinkAgrees` and `LinkEnds` state what it gives. |
| PreviewAsWritten.Links | src/utils/previewEngine.ts:166-192 | The stylesheet loop as written. `LinksAgree` and `LinksEnd` state what it gives. |
| PreviewAsWritten.Script | src/utils/previewEngine.ts:196-225 | One script element as written. `ScriptAgrees` and `ScriptEnds` state what it gives. |
| PreviewAsWritten.Scripts | src/utils/previewEngine.ts:194-226 | The script loop as written. `ScriptsAgree` and `ScriptsEnd` state what it gives. |
| PreviewAsWritten.Preview | src/utils/previewEngine.ts:154-237 | `processHtmlForPreview` as written. `PreviewAgrees` and `PreviewEnds` state what it gives. |
| PreviewAsWritten.AllDependencies | src/utils/previewEngine.ts:240-249 | `getAllDependencies` as written. `AllDependenciesAgree` and `AllDependenciesEnd` state what it gives. |
| PreviewAsWritten.CssCycleDiverges | src/utils/previewEngine.ts:65-95 | As written, the CSS transformer on two stylesheets that import each other recurses without bound: it runs out of every fuel, standing for the stack overflow the source throws (finding 1). |
| PreviewAsWritten.JsCycleDiverges | src/utils/previewEngine.ts:114-147 | As written, the JS transformer on two modules that import each other recurses without bound, because the memo is written only after the recursion (finding 1). |
| PreviewAsWritten.Target | src/utils/previewEngine.ts:169-206 | As written, a followed reference of the page resolves with `resolvePath` to a file of the index. |
| PreviewAsWritten.CssTrapStuck | src/utils/previewEngine.ts:65-95 | As written, a stylesheet with an import into a set of files that all import into the set recurses without bound: it runs out of every fuel. |
| PreviewAsWritten.JsTrapStuck | src/utils/previewEngine.ts:114-147 | As written, a module with an import into such a set none of whose files is memoised recurses without bound. |
| PreviewAsWritten.JsKeepsOut | src/utils/previewEngine.ts:114-147 | A JS import as written whose run ends memoises no file of such a set. |
| PreviewAsWritten.CssAgree | src/utils/previewEngine.ts:56-96 | Whenever the CSS transformer as written ends, the corrected one, with the files of the import chain in progress, gives the same text and state. |
| PreviewAsWritten.JsAgree | src/utils/previewEngine.ts:99-151 | Whenever the JS transformer as written ends, the corrected one, with the chain in progress and none of it memoised, gives the same text and state. |
| PreviewAsWritten.TargetAgrees | src/utils/previewEngine.ts:169-206 | In an undotted page folder, `resolvePath` and the corrected resolution pick the same file. |
| PreviewAsWritten.LinksAgree | src/utils/previewEngine.ts:166-192 | Whenever the stylesheet loop as written ends, the corrected loop gives the same document, dependencies and state. |
| PreviewAsWritten.ScriptsAgree | src/utils/previewEngine.ts:194-226 | Whenever the script loop as written ends, the corrected loop gives the same document, dependencies and state. |
| PreviewAsWritten.PreviewAgrees | src/utils/previewEngine.ts:154-237 | Whenever `processHtmlForPreview` as written ends, with no dotted folder, the corrected render gives the same result. |
| PreviewAsWritten.AllDependenciesAgree | src/utils/previewEngine.ts:240-249 | Whenever `getAllDependencies` as written ends, with no dotted folder, its list is the corrected engine's. |
| PreviewAsWritten.RankedTop | src/utils/previewEngine.ts:56-151 | In an acyclic import graph (a rank on paths drops along every followed import), no import reachable from a page's stylesheet or module returns onto the chain. |
| PreviewAsWritten.CssEnds | src/utils/previewEngine.ts:56-96 | As written, the CSS transformer ends when no reachable import returns onto the chain and the fuel exceeds the number of file paths off the chain. |
| PreviewAsWritten.JsEnds | src/utils/previewEngine.ts:99-151 | The JS transformer as written ends under the same conditions, whatever the memo. |
| PreviewAsWritten.CssEndsAgree | src/utils/previewEngine.ts:56-96 | The converse of `CssAgree`: under those conditions the CSS transformer as written ends with exactly the corrected text and state. |
| PreviewAsWritten.JsEndsAgree | src/utils/previewEngine.ts:99-151 | The converse of `JsAgree`: under those conditions, with the chain not memoised, the JS transformer as written ends with exactly the corrected code and state. |
| PreviewAsWritten.LinksEnd | src/utils/previewEngine.ts:166-192 | In an acyclic CSS import graph, the stylesheet loop as written ends with more fuel than there are file paths. |
| PreviewAsWritten.ScriptsEnd | src/utils/previewEngine.ts:194-226 | In an acyclic JS import graph, the script loop as written ends with more fuel than there are file paths. |
| PreviewAsWritten.PreviewEnds | src/utils/previewEngine.ts:154-237 | The converse of `PreviewAgrees`: with acyclic import graphs and no dotted folder, `processHtmlForPreview` as written ends, with exactly the corrected render. |
| PreviewAsWritten.AllDependenciesEnd | src/utils/previewEngine.ts:240-249 | The converse of `AllDependenciesAgree`: under the same conditions `getAllDependencies` as written ends with the corrected list. |
| SidebarUtils.SortChildren | src/components/sidebar/utils.ts:40-47 | Sorting returns a permutation of the children. The input, a value, is untouched. |
| SidebarUtils.SortChildrenSorted | src/components/sidebar/utils.ts:41-46 | The result has folders before files, then orders by name. |
| SidebarUtils.SortTwice | src/components/sidebar/utils.ts:40-47 | Sorting twice is sorting once. |
| SidebarUtils.SortChildrenIdempotent | src/components/sidebar/utils.ts:40-47 | Sorting an already sorted list leaves it as it is. |
| SidebarUtils.CollectVisibleNodes | src/components/sidebar/utils.ts:4-25 | The row accumulator grows by exactly the node's visible rows. |
| SidebarUtils.CollectChildren | src/components/sidebar/utils.ts:19-21 | The loop over the sorted children appends their rows in order. |
| SidebarUtils.VisibleHead | src/components/sidebar/utils.ts:9-11 | The rows start with the node at its level, and a collapsed folder or a file gives exactly one row. |
| SidebarUtils.VisibleChildren | src/components/sidebar/utils.ts:11-22 | The rows one level below are the sorted children of an open folder, and none otherwise. |
| SidebarUtils.VisibleBelow | src/components/sidebar/utils.ts:19-21 | Every later row is deeper than the node and belongs to one of its descendants. |
| SidebarUtils.FindParent | src/components/sidebar/utils.ts:27-38 | A parent is found exactly when the target is a descendant of the root. It is a node of the tree that lists the target among its children. |
| SidebarUtils.RootHasNoParent | src/components/sidebar/utils.ts:27-38 | With unique ids, the root has no parent. |
| FileTreeNodes.CheckCircular | src/components/sidebar/FileTreeNode.tsx:132-140 | True exactly when the target is the node or one of its descendants. |
| FileTreeNodes.DropActionsAsWritten | src/components/sidebar/FileTreeNode.tsx:149-161 | Under the guard as written, a drop fires something exactly when the guard holds. It fires the move, then the expansion exactly when the target is collapsed. |
| FileTreeNodes.DropActionsCorrection | src/components/sidebar/FileTreeNode.tsx:154-156 | The corrected drop fires what the drop as written fires, except nothing when the target row lies in the dragged node's subtree. |
| FileTreeNodes.DropActions | src/components/sidebar/FileTreeNode.tsx:149-161 | A drop fires something exactly when the corrected guard holds. It fires the move, then the expansion exactly when the target is collapsed. |
| FileTreeNodes.DropKeepsTree | src/components/sidebar/FileTreeNode.tsx:151-155 | An accepted drop never puts a node inside its own subtree. The dragged id is non-empty, differs from the target, and is not below it. |
| FileTreeNodes.DropIntoOwnChild | src/components/sidebar/FileTreeNode.tsx:154-156 | The guard as written accepts dropping a folder into its own child folder (finding 2). |
| FileTreeNodes.DropIntoOwnChildRefused | src/components/sidebar/FileTreeNode.tsx:154-156 | The corrected guard refuses that drop. |
| FileTreeNodes.DropZone | src/components/sidebar/FileTreeNode.tsx:112-122 | Only a folder row has an `inside` zone. The top quarter of a folder is `before`, and a file row splits into halves. |
| FileTreeNodes.FolderMiddleInside | src/components/sidebar/FileTreeNode.tsx:112-118 | The middle half of a folder row is the `inside` zone. |
| FileTreeNodes.FileTreeNode.constructor | src/components/sidebar/FileTreeNode.tsx:26-31 | A row starts neither renaming nor dragged over. Its rename input holds the node's name, its create input is empty, and nothing has been fired. |
| FileTreeNodes.FileTreeNode.HandleClick | src/components/sidebar/FileTreeNode.tsx:51-59 | The click focuses the row, then toggles a folder or selects a file. |
| FileTreeNodes.FileTreeNode.HandleRename | src/components/sidebar/FileTreeNode.tsx:61-64 | Renaming mode starts with the current name in the input. |
| FileTreeNodes.FileTreeNode.SetRenameValue | src/components/sidebar/FileTreeNode.tsx:238 | Typing sets the rename input. |
| FileTreeNodes.FileTreeNode.HandleRenameSubmit | src/components/sidebar/FileTreeNode.tsx:66-71 | A rename fires only for a non-empty, different name, and renaming mode ends. |
| FileTreeNodes.FileTreeNode.HandleRenameCancel | src/components/sidebar/FileTreeNode.tsx:73-76 | The name is restored and renaming mode ends, with nothing fired. |
| FileTreeNodes.FileTreeNode.SetCreateValue | src/components/sidebar/FileTreeNode.tsx:269 | Typing sets the create input. |
| FileTreeNodes.FileTreeNode.HandleCreateSubmit | src/components/sidebar/FileTreeNode.tsx:78-84 | A create fires only for a non-empty name under a folder. The input is cleared and creating finishes. |
| FileTreeNodes.FileTreeNode.HandleCreateCancel | src/components/sidebar/FileTreeNode.tsx:86-89 | The input is cleared and creating finishes. |
| FileTreeNodes.FileTreeNode.HandleDragOver | src/components/sidebar/FileTreeNode.tsx:102-125 | With a move handler, the zone under the pointer is recorded; otherwise nothing changes. |
| FileTreeNodes.FileTreeNode.HandleDragLeave | src/components/sidebar/FileTreeNode.tsx:127-130 | The drop zone is cleared. |
| FileTreeNodes.FileTreeNode.HandleDropAsWritten | src/components/sidebar/FileTreeNode.tsx:142-162 | The drop zone is consumed, and exactly `DropActionsAsWritten` is fired. |
| FileTreeNodes.FileTreeNode.HandleDrop | src/components/sidebar/FileTreeNode.tsx:142-162 | The drop zone is consumed, and exactly `DropActions` is fired. |
| FileTreeNodes.FileTreeNode.HandleKeyDown | src/components/sidebar/FileTreeNode.tsx:164-179 | Keys act only on the focused row, while it is neither renaming nor creating. F2 starts renaming, Delete fires a delete once confirmed, and other keys do nothing. |
| SidebarNav.Navigate | src/components/sidebar/index.tsx:91-152 | `handleKeyDown` as a transition: the rows below state what it does (`OtherPanelIgnored`, `ActionsOnFocusedRow`, the Down/Up/Right/Left/Enter lemmas). |
| SidebarNav.KeyStep | src/components/sidebar/index.tsx:95-151 | The switch over the key on the visible rows. Its contract is carried by the same lemmas, through `KeyStepActions`. |
| SidebarNav.FocusIndex | src/components/sidebar/index.tsx:95 | `findIndex` gives the first row holding the focused id, or -1 exactly when none does. |
| SidebarNav.OtherPanelIgnored | src/components/sidebar/index.tsx:92 | Outside the Files panel no key does anything. |
| SidebarNav.ActionsOnFocusedRow | src/components/sidebar/index.tsx:97-151 | A key fires at most one callback. Only Enter, ArrowLeft and ArrowRight fire one, always on the focused row, and the focus is then kept. |
| SidebarNav.DownMovesToNextRow | src/components/sidebar/index.tsx:98-101 | ArrowDown focuses the row below the focused one. |
| SidebarNav.DownFromNowhereFocusesRoot | src/components/sidebar/index.tsx:98-104 | ArrowDown with no focused row focuses the root row. |
| SidebarNav.DownStopsAtLastRow | src/components/sidebar/index.tsx:100-104 | ArrowDown on the last row keeps the focus. |
| SidebarNav.UpMovesToPreviousRow | src/components/sidebar/index.tsx:106-111 | ArrowUp focuses the row above when there is one, and otherwise keeps the focus. |
| SidebarNav.UpStopsAtRoot | src/components/sidebar/index.tsx:106-111 | ArrowUp on the root row keeps the focus. |
| SidebarNav.DownUpReturns | src/components/sidebar/index.tsx:98-111 | ArrowDown then ArrowUp returns to the focused row. |
| SidebarNav.RightOpensOrDescends | src/components/sidebar/index.tsx:112-125 | ArrowRight toggles a collapsed folder and focuses an open folder's first child in insertion order. It does nothing on a file. |
| SidebarNav.RightSkipsSortedFirst | src/components/sidebar/index.tsx:119-121 | Because insertion order is not display order, ArrowRight can skip the child row shown first. |
| SidebarNav.LeftClosesOrAscends | src/components/sidebar/index.tsx:126-139 | ArrowLeft collapses an open folder. Otherwise the focus moves to exactly the parent that `FindParent` finds, a tree node listing the row among its children, and stays put when there is none; no action fires. |
| SidebarNav.LeftStopsAtRoot | src/components/sidebar/index.tsx:132-137 | With unique ids, ArrowLeft on a closed root keeps the focus. |
| SidebarNav.EnterActivates | src/components/sidebar/index.tsx:140-150 | Enter toggles a focused folder or selects a focused file, keeping the focus. |
| SidebarNav.ClampWidth | src/components/sidebar/index.tsx:188 | The width lies in [150, 500]. It equals the requested width inside that range and the nearer bound outside it. |
| SidebarNav.ClampMonotone | src/components/sidebar/index.tsx:188 | A wider drag never gives a narrower bar, and clamping is idempotent. |
| SidebarNav.ResizeHandle.constructor | src/components/sidebar/index.tsx:173-175 | The handle starts with no drag in progress. |
| SidebarNav.ResizeHandle.MouseDown | src/components/sidebar/index.tsx:177-180 | A drag starts at the pointer from the current width. |
| SidebarNav.ResizeHandle.MouseMove | src/components/sidebar/index.tsx:185-190 | A width is reported exactly during a drag, and it is `ClampWidth` of the start width plus the pointer's travel: that sum inside [150, 500], otherwise the nearer bound. |
| SidebarNav.ResizeHandle.Rerun | src/components/sidebar/index.tsx:169-207 | When `sidebarWidth` or `onResize` changes the effect runs again, and its fresh closure is not resizing, whatever drag was under way. |
| SidebarNav.Drag | src/components/sidebar/index.tsx:169-207 | A drag on the handle, with each width that changes the bar fed back as `sidebarWidth`, reports exactly `DragAsWritten`. |
| SidebarNav.DragWidths | src/components/sidebar/index.tsx:185-190 | The intended drag reports one width per move: the start width moved by that move's travel, clamped. |
| SidebarNav.DragAsWrittenPrefix | src/components/sidebar/index.tsx:169-207 | As written, a drag reports a prefix of the intended widths; every width but the last leaves the bar unchanged; a drag cut short ends on the first width that changes the bar (finding 4). |
| SidebarNav.DragStopsAfterFirstCommit | src/components/sidebar/index.tsx:169-207 | Dragging a 200-wide bar by 10 and then by 20 reports only 210 as written, where 210 and 220 are intended. |
| SidebarNav.DragFollowsPointer | src/components/sidebar/index.tsx:185-190 | The intended drag ends at the clamped width of the last move, exactly where the pointer left it when that is in range. |
| SidebarNav.ResizeHandle.MouseUp | src/components/sidebar/index.tsx:192-193 | The drag ends. |
| ActivityBar.Click | src/components/ActivityBar.tsx:41-49 | The highlighted tab fires only the toggle. Any other tab fires the tab change first, and the toggle exactly when the bar is hidden. |
| ActivityBar.ClickActiveHides | src/components/ActivityBar.tsx:42-43 | Clicking the highlighted tab hides the side bar and keeps the tab. |
| ActivityBar.ClickOtherShows | src/components/ActivityBar.tsx:44-48 | Any other click shows the side bar on that tab, which is then highlighted. |
| ActivityBar.ClickFlipsHighlight | src/components/ActivityBar.tsx:35-49 | After a click, the clicked tab is highlighted exactly when it was not before, and no other tab is. |
| ActivityBar.ClickTwiceRestores | src/components/ActivityBar.tsx:41-49 | Clicking the highlighted tab twice restores the layout. |
| ActivityBar.BottomFlips | src/components/ActivityBar.tsx:61-63 | The bottom button flips visibility, keeps the tab, and undoes itself. |

## Left out

- Tree UI rendering, focus side effects, `confirm()`, `document.querySelector`, `setTimeout`,
  `scrollIntoView` and listener wiring are browser calls. A confirmation is a boolean parameter.
- The context-menu and header handlers of `src/components/sidebar/index.tsx` (lines 29-87,
  209-215) only set UI state.
- React's update batching and memoisation are not modelled. Each store method updates the
  state at once. The stale `activeFileId` that `closeFile` captures is modelled as the value
  held when it is called.
- `Math.random` id generation is not modelled. The fresh id is a parameter, with the
  precondition that it names no node and no tab.
- The regular expressions of both transformers are a scanner parameter. The model states no
  regex semantics.
- `DOMParser`, `XMLSerializer` and the wrapper-stripping regexes are not modelled. A document
  is a sequence of elements from a parser parameter. The serialised HTML is that sequence.
- `Blob` and `URL.createObjectURL` are modelled only as an ever-growing blob list. Blobs are
  never revoked, as in the source.
- `console.warn` is a side effect without state, and is not modelled.
- `localeCompare` is an abstract comparison on names. Sortedness is proved for any total
  preorder.
- `SidebarNav.ResizeHandle.MouseMove`: pointer positions and widths are exact reals.
  The source's floating-point rounding is not modelled. The handle's listeners stay on
  `document`; when the effect re-runs, `SidebarNav.ResizeHandle.Rerun` stands for the removal
  of the old listeners and the fresh closure (finding 4).
- `FileTreeNodes.DropZone`: the same holds for the drop-zone fractions.
- `onMoveFile`: `src/stores/fileStore.ts` has no move operation, so only the guard before
  the call is modelled. No caller in the repository passes `onMoveFile`: `src/App.tsx`
  renders `src/components/Sidebar.tsx`, not `src/components/sidebar/index.tsx`, so finding 2
  is latent in the shipped app. The same holds for the resize handle of finding 4.
- `FileStore.Store.RenameFile`: does not promise path consistency, because the source does not
  keep it (`FileStore.RenameLeavesDescendantPaths`).
- `PreviewEngine.CssImports`: the corrected transformer, with `ResolveInDir` and the in-progress cut; `PreviewAsWritten.CssImports` is the code as written.
- `PreviewEngine.CssImport`: the same correction, for one import.
- `PreviewEngine.JsImports`: the corrected transformer; `PreviewAsWritten.JsImports` is the code as written.
- `PreviewEngine.JsImport`: the same correction, for one import.
- `PreviewEngine.Link`: resolves with `ResolveInDir` and runs the corrected CSS transformer.
- `PreviewEngine.Links`: the loop over the corrected `Link`.
- `PreviewEngine.Script`: resolves with `ResolveInDir` and runs the corrected JS transformer.
- `PreviewEngine.Scripts`: the loop over the corrected `Script`.
- `PreviewEngine.Preview`: the corrected render; `PreviewAsWritten.Preview` is the code as written.
- `PreviewEngine.AllDependencies`: the corrected render's list; `PreviewAsWritten.AllDependencies` is the code as written.
- `PreviewEngine.Target`: resolves with `ResolveInDir` rather than `resolvePath` (finding 3). `PreviewAsWritten.TargetAgrees` proves the two agree when the page's folder is undotted.
- `PreviewEngine.CssImportFound`: is about the corrected CSS transformer, which resolves with `ResolveInDir` and enters no file on the import chain. `PreviewAsWritten.CssAgree` gives the same result for every run as written that ends, when no folder's last segment has a dot.
- `PreviewEngine.CssUntouched`: is about the corrected CSS transformer, whose files that may be entered exclude those on the import chain. `PreviewAsWritten.CssAgree` relates it to every run as written that ends, with no dotted folder.
- `PreviewEngine.JsUntouched`: is about the corrected JS transformer, with the same in-progress set and resolution. `PreviewAsWritten.JsAgree` relates it to every run as written that ends, with no dotted folder.
- `PreviewEngine.CssImportsGrow`: is proved of the corrected CSS transformer. `PreviewAsWritten.CssAgree` carries it to every run as written that ends, with no dotted folder.
- `PreviewEngine.JsImportsGrow`: is proved of the corrected JS transformer. `PreviewAsWritten.JsAgree` carries it to every run as written that ends, with no dotted folder.
- `PreviewEngine.Previewer.TransformCssImports`: computes the corrected `CssImports`. The code as written is `PreviewAsWritten.CssImports`, and `PreviewAsWritten.CssAgree` states when the two are equal.
- `PreviewEngine.Previewer.TransformCssImport`: computes the corrected `CssImport`, with `ResolveInDir` and the in-progress cut. `PreviewAsWritten.CssAgree` states when it equals the code as written.
- `PreviewEngine.Previewer.TransformJsImports`: computes the corrected `JsImports`. The code as written is `PreviewAsWritten.JsImports`, and `PreviewAsWritten.JsAgree` states when the two are equal.
- `PreviewEngine.Previewer.TransformJsImport`: computes the corrected `JsImport`. `PreviewAsWritten.JsAgree` states when it equals the code as written.
- `PreviewEngine.LinksShape`: decides which stylesheets are found with `ResolveInDir`. `PreviewAsWritten.LinksAgree` gives the same document for every loop as written that ends, with no dotted folder.
- `PreviewEngine.ScriptsShape`: decides which scripts are found with `ResolveInDir`. `PreviewAsWritten.ScriptsAgree` gives the same document for every loop as written that ends, with no dotted folder.
- `PreviewEngine.LinkDepsFound`: is proved of the corrected stylesheet loop. `PreviewAsWritten.LinksAgree` carries it to every loop as written that ends, with no dotted folder.
- `PreviewEngine.PreviewDeps`: gives the dependencies of the corrected render. `PreviewAsWritten.PreviewAgrees` carries it to every render as written that ends, with no dotted folder.
- `PreviewEngine.PreviewGrows`: is proved of the corrected render. `PreviewAsWritten.PreviewAgrees` carries it to every render as written that ends, with no dotted folder.
- `PreviewEngine.Previewer.ReplaceLink`: computes the corrected `Link`. `PreviewAsWritten.LinkAgrees` states when it equals the code as written.
- `PreviewEngine.Previewer.ReplaceScript`: computes the corrected `Script`. `PreviewAsWritten.ScriptAgrees` states when it equals the code as written.
- `PreviewEngine.Previewer.InlineStylesheets`: produces the corrected `Links`. `PreviewAsWritten.LinksAgree` states when it equals the loop as written.
- `PreviewEngine.Previewer.InlineScripts`: produces the corrected `Scripts`. `PreviewAsWritten.ScriptsAgree` states when it equals the loop as written.
- `PreviewEngine.Previewer.ProcessHtmlForPreview`: produces the corrected `Preview`. `PreviewAsWritten.PreviewAgrees` states when it equals the render as written: the two differ only on a render whose recursion has no bound (a thrown `RangeError` in the source) or a dotted folder. `PreviewAsWritten.PreviewEnds` shows the render as written ends on acyclic import graphs.
- `PreviewEngine.Previewer.GetAllDependencies`: gives the dependencies of the corrected render. `PreviewAsWritten.AllDependenciesAgree` states when they are those of the code as written.
- `FileTreeNodes.DropActions`: fires under the corrected guard of finding 2. `FileTreeNodes.DropActionsAsWritten` is the code as written, and `FileTreeNodes.DropActionsCorrection` relates the two.
- `FileTreeNodes.FileTreeNode.HandleDrop`: fires `DropActions`, under the corrected guard. `FileTreeNodes.FileTreeNode.HandleDropAsWritten` is the handler as written.
- `SidebarUtils.SortChildren`: the source sorts with the stable `Array.prototype.sort`. The model
  proves a sorted permutation, but not that ties keep their insertion order.
- `src/App.tsx`, `src/components/Preview.tsx`, `src/components/Editor.tsx` and the other
  presentational components are not part of this model. The activity bar's callbacks are
  applied as `src/App.tsx` wires them: set the tab, flip the visibility.

## Findings

| source | as written | input that shows it | evidently intended | confidence | as-written member | corrected member |
|---|---|---|---|---|---|---|
| src/utils/previewEngine.ts:65-95, 114-147 | Neither transformer marks a file in progress before recursing into it. The CSS transformer never reads the memo, and the JS one writes it only after the recursion returns. On a cycle the synchronous recursion re-enters until the call stack overflows, and the `RangeError` leaves `processHtmlForPreview` uncaught; the model's `None` at every fuel stands for that error. | `a.css` holding `@import "b.css";` and `b.css` holding `@import "a.css";`, or two modules importing each other | A file already on the import chain is left as written, so the transform ends | high (not executed) | PreviewAsWritten.CssCycleDiverges | PreviewEngine.CssCycleSettles |
| src/components/sidebar/FileTreeNode.tsx:154-156 | `checkCircular(node, draggedId)` tests whether the dragged node is already inside the target | dragging folder `a` onto its child folder `b` | The drop is refused when the target lies inside the dragged node's subtree. Latent: no caller in the repository passes `onMoveFile` | high (not executed) | FileTreeNodes.DropIntoOwnChild | FileTreeNodes.DropKeepsTree |
| src/utils/previewEngine.ts:15-20, 164 | `resolvePath` drops the base's last segment when it contains a dot, even when the base is already a directory | a page `/NEVERVIEW/my.app/index.html` linking `style.css` resolves to `/NEVERVIEW/style.css` | References resolve inside the page's folder `/NEVERVIEW/my.app` | medium (not executed) | PathResolver.DottedFolderDropped | PathResolver.ResolveInFolder |
| src/components/sidebar/index.tsx:169-207 | The resize effect depends on `[sidebarWidth, onResize]` and keeps `isResizing` in its closure. A width fed back as `sidebarWidth` re-runs it, and the fresh closure is not resizing. | a parent that stores each reported width: dragging a 200-wide bar by 10, then by 20, reports only 210 | The drag follows the pointer until the mouse is released, reporting 210 then 220. Latent: `src/App.tsx` renders `src/components/Sidebar.tsx` instead | medium (not executed) | SidebarNav.DragStopsAfterFirstCommit | SidebarNav.DragFollowsPointer |
