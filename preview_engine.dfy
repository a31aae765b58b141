/** The preview engine of src/utils/previewEngine.ts: looking files up by path, rewriting
    CSS `@import`s and ES module imports into blob URLs of their transformed content, and
    the element loops of `processHtmlForPreview` that inline stylesheets and scripts.

    The import regular expressions are modelled by a scanner that cuts a text into
    literal chunks and import matches; `DOMParser` by a parser that yields the document's
    elements; `URL.createObjectURL` by a registry that issues `blob:<n>` for the n-th blob.

    This is the engine with two corrections. A file on the current import chain is in
    progress, and an import of it stays as written, so every transform ends. A reference
    resolves inside the directory it is given (`ResolveInDir`), where `resolvePath` drops a
    last segment with a dot. `PreviewAsWritten` holds the code as written and proves that
    whenever a run of it ends, and no folder's last segment has a dot, this engine gives
    the same result. */
module PreviewEngine {
  import opened Wrappers
  import opened Text
  import opened OrderedMap
  import opened VirtualNodes
  import opened PathResolver
  import Seqs

  // ---------------------------------------------------------------------------
  // Scanned text

  /** A stretch of text between matches, or one match of an import pattern: the whole
      matched statement and the quoted path it captured. */
  datatype Piece = Chunk(text: string) | Import(statement: string, target: string)

  /** The text a scan covers. */
  function Unscan(ps: seq<Piece>): string
  {
    if ps == [] then ""
    else
      (match ps[0] case Chunk(t) => t case Import(s, _) => s) + Unscan(ps[1..])
  }

  // ---------------------------------------------------------------------------
  // findFileByPath

  /** Position of the first entry of the index holding a file at exactly `path`, or -1. */
  function FileIndex(files: seq<Entry<VirtualNode>>, path: string): (r: int)
    ensures -1 <= r < |files|
    ensures 0 <= r ==> files[r].value.path == path && files[r].value.kind == File
    ensures forall j :: 0 <= j < |files| && (r < 0 || j < r) ==>
      !(files[j].value.path == path && files[j].value.kind == File)
  {
    if files == [] then -1
    else if files[0].value.path == path && files[0].value.kind == File then 0
    else
      var k := FileIndex(files[1..], path);
      assert forall j :: 1 <= j < |files| ==> files[j] == files[1..][j - 1];
      if k < 0 then -1 else k + 1
  }

  /** `findFileByPath`: the first file of the index whose path is exactly `path`. */
  function FileAt(files: seq<Entry<VirtualNode>>, path: string): (r: Option<VirtualNode>)
    ensures r.Some? ==> r.value.path == path && r.value.kind == File && r.value in Values(files)
    ensures r.None? <==> forall v :: v in Values(files) ==> !(v.path == path && v.kind == File)
  {
    var i := FileIndex(files, path);
    if i < 0 then None else Some(files[i].value)
  }

  /** `findFileByPath` as the loop over `files.values()` it is. */
  method FindFileByPath(files: seq<Entry<VirtualNode>>, path: string) returns (r: Option<VirtualNode>)
    ensures r == FileAt(files, path)
  {
    var i := 0;
    while i < |files|
      invariant 0 <= i <= |files|
      invariant forall j :: 0 <= j < i ==> !(files[j].value.path == path && files[j].value.kind == File)
    {
      var file := files[i].value;
      if file.path == path && file.kind == File {
        return Some(file);
      }
      i := i + 1;
    }
    return None;
  }

  /** The paths of the files in the index: each can be entered at most once on an
      import chain, which bounds the corrected recursion. */
  function FilePaths(files: seq<Entry<VirtualNode>>): set<string>
  {
    set i | 0 <= i < |files| && files[i].value.kind == File :: files[i].value.path
  }

  /** A file found by path is one of the index's file paths. */
  lemma FoundPath(files: seq<Entry<VirtualNode>>, path: string)
    requires FileAt(files, path).Some?
    ensures path in FilePaths(files)
  {
    var i := FileIndex(files, path);
    assert files[i].value.path == path;
  }

  /** Marking one more path in progress shrinks the set of paths still enterable. */
  lemma Shrink(all: set<string>, active: set<string>, x: string)
    requires x in all && x !in active
    ensures |all - (active + {x})| < |all - active|
  {
    assert all - (active + {x}) == (all - active) - {x};
  }

  // ---------------------------------------------------------------------------
  // The state of a render

  /** An entry of `processedFiles`. */
  datatype ProcessedFile = ProcessedFile(content: string, blobUrl: string, dependencies: seq<string>)

  /** A blob created by `new Blob([content], { type })`. */
  datatype Blob = Blob(content: string, mime: string)

  const CssMime: string := "text/css"
  const JsMime: string := "application/javascript"

  /** The URL of the n-th blob ever created. */
  function BlobUrl(n: nat): string
  {
    "blob:" + NatToString(n)
  }

  /** Different blobs have different URLs. */
  lemma BlobUrlInjective(a: nat, b: nat)
    requires BlobUrl(a) == BlobUrl(b)
    ensures a == b
  {
    assert NatToString(a) == BlobUrl(a)[5..];
    assert NatToString(b) == BlobUrl(b)[5..];
    NatToStringInjective(a, b);
  }

  /** The memo of one render and the blobs created so far. */
  datatype Render = Render(processed: map<string, ProcessedFile>, blobs: seq<Blob>)

  /** Materialising `content` for `path`: a new blob, and the memo entry pointing at it. */
  function Materialise(st: Render, path: string, content: string, mime: string): (r: Render)
  {
    Render(st.processed[path := ProcessedFile(content, BlobUrl(|st.blobs|), [])],
           st.blobs + [Blob(content, mime)])
  }

  /** The rewritten `@import` that points at a blob. */
  function CssRewrite(url: string): string
  {
    "@import url(\"" + url + "\");"
  }

  /** A JS specifier left to the browser: a URL, or a bare package name. */
  predicate External(specifier: string)
  {
    HasScheme(specifier) || (!StartsWith(specifier, ".") && !StartsWith(specifier, "/"))
  }

  // ---------------------------------------------------------------------------
  // transformCssImports, with every file on the current import chain marked in progress

  /** The stylesheet import loop's invariant carried over one piece: the text built so far,
      followed by the rest of the pieces from the state this piece leaves, is the whole result. */
  lemma CssImportsAdvance(ps: seq<Piece>, i: nat, base: string, files: seq<Entry<VirtualNode>>,
                   scan: string -> seq<Piece>, active: set<string>, r: string, h: string,
                   before: Render, after: Render, total: (string, Render))
    requires i < |ps|
    requires var rest := CssImports(ps[i..], base, files, scan, active, before);
      r + rest.0 == total.0 && rest.1 == total.1
    requires (h, after) == CssImport(ps[i], base, files, scan, active, before)
    ensures var rest := CssImports(ps[i + 1..], base, files, scan, active, after);
      (r + h) + rest.0 == total.0 && rest.1 == total.1
  {
    assert ps[i..][0] == ps[i] && ps[i..][1..] == ps[i + 1..];
    var rest := CssImports(ps[i + 1..], base, files, scan, active, after);
    assert r + (h + rest.0) == (r + h) + rest.0;
  }

  /** The scanned CSS with each import rewritten, and the state after its materialisations. */
  function CssImports(ps: seq<Piece>, base: string, files: seq<Entry<VirtualNode>>,
                      scan: string -> seq<Piece>, active: set<string>, st: Render): (string, Render)
    decreases |FilePaths(files) - active|, |ps|
  {
    if ps == [] then ("", st)
    else
      var (h, st1) := CssImport(ps[0], base, files, scan, active, st);
      var (t, st2) := CssImports(ps[1..], base, files, scan, active, st1);
      (h + t, st2)
  }

  /** One piece: a found, non-empty file not already in progress is transformed against
      its own directory, materialised and memoised, and the import points at the blob;
      any other import stays as it was. */
  function CssImport(p: Piece, base: string, files: seq<Entry<VirtualNode>>,
                     scan: string -> seq<Piece>, active: set<string>, st: Render): (string, Render)
    decreases |FilePaths(files) - active|, 0
  {
    match p
    case Chunk(t) => (t, st)
    case Import(statement, target) =>
      var resolved := ResolveInDir(base, target);
      var file := FileAt(files, resolved);
      if file.None? || file.value.content == "" || resolved in active then (statement, st)
      else
        FoundPath(files, resolved);
        Shrink(FilePaths(files), active, resolved);
        var (content, st1) := CssImports(scan(file.value.content), DirName(resolved), files, scan,
                                         active + {resolved}, st);
        (CssRewrite(BlobUrl(|st1.blobs|)), Materialise(st1, resolved, content, CssMime))
  }

  // ---------------------------------------------------------------------------
  // transformJsImports, with every file on the current import chain marked in progress

  /** The module import loop's invariant carried over one piece: the text built so far,
      followed by the rest of the pieces from the state this piece leaves, is the whole result. */
  lemma JsImportsAdvance(ps: seq<Piece>, i: nat, base: string, files: seq<Entry<VirtualNode>>,
                   scan: string -> seq<Piece>, active: set<string>, r: string, h: string,
                   before: Render, after: Render, total: (string, Render))
    requires i < |ps|
    requires var rest := JsImports(ps[i..], base, files, scan, active, before);
      r + rest.0 == total.0 && rest.1 == total.1
    requires (h, after) == JsImport(ps[i], base, files, scan, active, before)
    ensures var rest := JsImports(ps[i + 1..], base, files, scan, active, after);
      (r + h) + rest.0 == total.0 && rest.1 == total.1
  {
    assert ps[i..][0] == ps[i] && ps[i..][1..] == ps[i + 1..];
    var rest := JsImports(ps[i + 1..], base, files, scan, active, after);
    assert r + (h + rest.0) == (r + h) + rest.0;
  }

  function JsImports(ps: seq<Piece>, base: string, files: seq<Entry<VirtualNode>>,
                     scan: string -> seq<Piece>, active: set<string>, st: Render): (string, Render)
    decreases |FilePaths(files) - active|, |ps|
  {
    if ps == [] then ("", st)
    else
      var (h, st1) := JsImport(ps[0], base, files, scan, active, st);
      var (t, st2) := JsImports(ps[1..], base, files, scan, active, st1);
      (h + t, st2)
  }

  /** One piece: external specifiers stay; a memoised path reuses its blob; a found,
      non-empty file not already in progress is transformed, materialised and memoised;
      the specifier inside the statement is replaced by the blob's URL. */
  function JsImport(p: Piece, base: string, files: seq<Entry<VirtualNode>>,
                    scan: string -> seq<Piece>, active: set<string>, st: Render): (string, Render)
    decreases |FilePaths(files) - active|, 0
  {
    match p
    case Chunk(t) => (t, st)
    case Import(statement, target) =>
      if External(target) then (statement, st)
      else
        var resolved := ResolveInDir(base, target);
        if resolved in st.processed then
          (ReplaceFirst(statement, target, st.processed[resolved].blobUrl), st)
        else
          var file := FileAt(files, resolved);
          if file.None? || file.value.content == "" || resolved in active then (statement, st)
          else
            FoundPath(files, resolved);
            Shrink(FilePaths(files), active, resolved);
            var (content, st1) := JsImports(scan(file.value.content), DirName(resolved), files, scan,
                                            active + {resolved}, st);
            (ReplaceFirst(statement, target, BlobUrl(|st1.blobs|)), Materialise(st1, resolved, content, JsMime))
  }

  // ---------------------------------------------------------------------------
  // The document

  /** The elements `processHtmlForPreview` looks at. A missing or empty `href`/`src` is "". */
  datatype Element =
    | Stylesheet(href: string)
    | ExternalScript(src: string, isModule: bool)
    | InlineStyle(css: string)
    | InlineScript(js: string, isModule: bool)
    | Other(markup: string)

  /** The path a local reference of the page resolves to, when a file with content is there. */
  function Target(base: string, ref: string, files: seq<Entry<VirtualNode>>): (r: Option<string>)
    ensures r.Some? ==> r.value == ResolveInDir(base, ref) && FileAt(files, r.value).Some?
  {
    if ref == "" || HasScheme(ref) then None
    else
      var resolved := ResolveInDir(base, ref);
      var file := FileAt(files, resolved);
      if file.Some? && file.value.content != "" then Some(resolved) else None
  }

  /** Moving one block from the rest onto what is built so far leaves the total unchanged. */
  lemma Regroup<T>(built: seq<T>, step: seq<T>, rest: seq<T>, total: seq<T>)
    requires built + (step + rest) == total
    ensures (built + step) + rest == total
  {
    assert built + (step + rest) == (built + step) + rest;
  }

  /** The link loop's invariant carried over one element: what is built so far, followed
      by the rest of the document from the state the element leaves, is the whole result. */
  lemma LinksAdvance(doc: seq<Element>, i: nat, base: string, files: seq<Entry<VirtualNode>>,
                   scan: string -> seq<Piece>, html: seq<Element>, deps: seq<string>,
                   e: Element, d: seq<string>, before: Render, after: Render,
                   total: (seq<Element>, seq<string>, Render))
    requires i < |doc|
    requires var rest := Links(doc[i..], base, files, scan, before);
      html + rest.0 == total.0 && deps + rest.1 == total.1 && rest.2 == total.2
    requires (e, d, after) == Link(doc[i], base, files, scan, before)
    ensures var rest := Links(doc[i + 1..], base, files, scan, after);
      (html + [e]) + rest.0 == total.0 && (deps + d) + rest.1 == total.1 && rest.2 == total.2
  {
    LinksStep(doc, i, base, files, scan, before);
    var rest := Links(doc[i + 1..], base, files, scan, after);
    var whole := Links(doc[i..], base, files, scan, before);
    assert whole == ([e] + rest.0, d + rest.1, rest.2);
    Regroup(html, [e], rest.0, total.0);
    Regroup(deps, d, rest.1, total.1);
  }

  /** One step of the link loop: the element at `i`, then the rest from the state it leaves. */
  lemma LinksStep(doc: seq<Element>, i: nat, base: string, files: seq<Entry<VirtualNode>>,
                scan: string -> seq<Piece>, st: Render)
    requires i < |doc|
    ensures var (e, d, st1) := Link(doc[i], base, files, scan, st);
            var rest := Links(doc[i + 1..], base, files, scan, st1);
            Links(doc[i..], base, files, scan, st) == ([e] + rest.0, d + rest.1, rest.2)
  {
    assert doc[i..][0] == doc[i] && doc[i..][1..] == doc[i + 1..];
  }

  /** The stylesheet loop: each local stylesheet whose file has content becomes an inline
      style holding its transformed CSS, and its path is recorded. Its imports resolve
      against the page's directory, and no file is in progress yet. */
  function Links(doc: seq<Element>, base: string, files: seq<Entry<VirtualNode>>,
                 scan: string -> seq<Piece>, st: Render): (seq<Element>, seq<string>, Render)
  {
    if doc == [] then ([], [], st)
    else
      var (e, d, st1) := Link(doc[0], base, files, scan, st);
      var (rest, ds, st2) := Links(doc[1..], base, files, scan, st1);
      ([e] + rest, d + ds, st2)
  }

  function Link(e: Element, base: string, files: seq<Entry<VirtualNode>>,
                scan: string -> seq<Piece>, st: Render): (Element, seq<string>, Render)
  {
    if !e.Stylesheet? then (e, [], st)
    else
      match Target(base, e.href, files)
      case None => (e, [], st)
      case Some(path) =>
        var (css, st1) := CssImports(scan(FileAt(files, path).value.content), base, files, scan, {}, st);
        (InlineStyle(css), [path], st1)
  }

  /** The script loop's invariant carried over one element: what is built so far, followed
      by the rest of the document from the state the element leaves, is the whole result. */
  lemma ScriptsAdvance(doc: seq<Element>, i: nat, base: string, files: seq<Entry<VirtualNode>>,
                   scan: string -> seq<Piece>, html: seq<Element>, deps: seq<string>,
                   e: Element, d: seq<string>, before: Render, after: Render,
                   total: (seq<Element>, seq<string>, Render))
    requires i < |doc|
    requires var rest := Scripts(doc[i..], base, files, scan, before);
      html + rest.0 == total.0 && deps + rest.1 == total.1 && rest.2 == total.2
    requires (e, d, after) == Script(doc[i], base, files, scan, before)
    ensures var rest := Scripts(doc[i + 1..], base, files, scan, after);
      (html + [e]) + rest.0 == total.0 && (deps + d) + rest.1 == total.1 && rest.2 == total.2
  {
    ScriptsStep(doc, i, base, files, scan, before);
    var rest := Scripts(doc[i + 1..], base, files, scan, after);
    var whole := Scripts(doc[i..], base, files, scan, before);
    assert whole == ([e] + rest.0, d + rest.1, rest.2);
    Regroup(html, [e], rest.0, total.0);
    Regroup(deps, d, rest.1, total.1);
  }

  /** One step of the script loop: the element at `i`, then the rest from the state it leaves. */
  lemma ScriptsStep(doc: seq<Element>, i: nat, base: string, files: seq<Entry<VirtualNode>>,
                scan: string -> seq<Piece>, st: Render)
    requires i < |doc|
    ensures var (e, d, st1) := Script(doc[i], base, files, scan, st);
            var rest := Scripts(doc[i + 1..], base, files, scan, st1);
            Scripts(doc[i..], base, files, scan, st) == ([e] + rest.0, d + rest.1, rest.2)
  {
    assert doc[i..][0] == doc[i] && doc[i..][1..] == doc[i + 1..];
  }

  /** The script loop: each local script whose file has content becomes an inline script;
      only a module has its imports transformed, and only a module keeps `type="module"`. */
  function Scripts(doc: seq<Element>, base: string, files: seq<Entry<VirtualNode>>,
                   scan: string -> seq<Piece>, st: Render): (seq<Element>, seq<string>, Render)
  {
    if doc == [] then ([], [], st)
    else
      var (e, d, st1) := Script(doc[0], base, files, scan, st);
      var (rest, ds, st2) := Scripts(doc[1..], base, files, scan, st1);
      ([e] + rest, d + ds, st2)
  }

  function Script(e: Element, base: string, files: seq<Entry<VirtualNode>>,
                  scan: string -> seq<Piece>, st: Render): (Element, seq<string>, Render)
  {
    if !e.ExternalScript? then (e, [], st)
    else
      match Target(base, e.src, files)
      case None => (e, [], st)
      case Some(path) =>
        var content := FileAt(files, path).value.content;
        if e.isModule then
          var (js, st1) := JsImports(scan(content), base, files, scan, {}, st);
          (InlineScript(js, true), [path], st1)
        else (InlineScript(content, false), [path], st)
  }

  /** The whole render: a fresh memo, the stylesheet loop, then the script loop. */
  function Preview(doc: seq<Element>, htmlPath: string, files: seq<Entry<VirtualNode>>,
                   cssScan: string -> seq<Piece>, jsScan: string -> seq<Piece>,
                   blobs: seq<Blob>): (seq<Element>, seq<string>, Render)
  {
    var base := DirName(htmlPath);
    var (d1, deps1, st1) := Links(doc, base, files, cssScan, Render(map[], blobs));
    var (d2, deps2, st2) := Scripts(d1, base, files, jsScan, st1);
    (d2, deps1 + deps2, st2)
  }

  /** The paths of the stylesheets that get inlined, in document order. */
  function LinkDeps(doc: seq<Element>, base: string, files: seq<Entry<VirtualNode>>): seq<string>
  {
    if doc == [] then [] else LinkDep(doc[0], base, files) + LinkDeps(doc[1..], base, files)
  }

  /** The path a stylesheet element contributes, if it gets inlined. */
  function LinkDep(e: Element, base: string, files: seq<Entry<VirtualNode>>): seq<string>
  {
    if e.Stylesheet? && Target(base, e.href, files).Some? then [Target(base, e.href, files).value] else []
  }

  /** The paths of the scripts that get inlined, in document order. */
  function ScriptDeps(doc: seq<Element>, base: string, files: seq<Entry<VirtualNode>>): seq<string>
  {
    if doc == [] then [] else ScriptDep(doc[0], base, files) + ScriptDeps(doc[1..], base, files)
  }

  /** The path a script element contributes, if it gets inlined. */
  function ScriptDep(e: Element, base: string, files: seq<Entry<VirtualNode>>): seq<string>
  {
    if e.ExternalScript? && Target(base, e.src, files).Some? then [Target(base, e.src, files).value] else []
  }

  /** `getAllDependencies`, stated without running the transformers: the inlined
      stylesheets, then the inlined scripts, of the page at `htmlPath`. */
  function AllDependencies(htmlPath: string, files: seq<Entry<VirtualNode>>, parse: string -> seq<Element>,
                           cssScan: string -> seq<Piece>, jsScan: string -> seq<Piece>): seq<string>
  {
    var page := FileAt(files, htmlPath);
    if page.None? || page.value.content == "" then []
    else
      var doc := parse(page.value.content);
      LinkDeps(doc, DirName(htmlPath), files) + ScriptDeps(doc, DirName(htmlPath), files)
  }

  // ---------------------------------------------------------------------------
  // What a render does to the document

  /** What the stylesheet loop does to one element: an inlined stylesheet becomes an inline
      style, and every other element is kept. */
  predicate LinkShaped(d: Element, o: Element, base: string, files: seq<Entry<VirtualNode>>)
  {
    if d.Stylesheet? && Target(base, d.href, files).Some? then o.InlineStyle? else o == d
  }

  /** What the script loop does to one element: an inlined script becomes an inline script
      of the same kind, a classic one holding the file's code verbatim. */
  predicate ScriptShaped(d: Element, o: Element, base: string, files: seq<Entry<VirtualNode>>)
  {
    if d.ExternalScript? && Target(base, d.src, files).Some? then
      o.InlineScript? && o.isModule == d.isModule &&
      (!d.isModule ==> o.js == FileAt(files, Target(base, d.src, files).value).value.content)
    else o == d
  }

  /** The stylesheet loop keeps the document's length, reports the inlined stylesheets,
      turns exactly those into inline styles and leaves every other element as it was. */
  lemma {:induction false} LinksShape(doc: seq<Element>, base: string, files: seq<Entry<VirtualNode>>,
                                      scan: string -> seq<Piece>, st: Render)
    ensures var (out, deps, _) := Links(doc, base, files, scan, st);
      |out| == |doc| && deps == LinkDeps(doc, base, files) &&
      forall i :: 0 <= i < |doc| ==> LinkShaped(doc[i], out[i], base, files)
  {
    if doc != [] {
      var (e, d, st1) := Link(doc[0], base, files, scan, st);
      LinkShape(doc[0], base, files, scan, st);
      LinksShape(doc[1..], base, files, scan, st1);
      var (rest, _, _) := Links(doc[1..], base, files, scan, st1);
      LinksCons(doc, e, rest, base, files);
    }
  }

  /** One element of the stylesheet loop. */
  lemma LinkShape(e: Element, base: string, files: seq<Entry<VirtualNode>>,
                  scan: string -> seq<Piece>, st: Render)
    ensures LinkShaped(e, Link(e, base, files, scan, st).0, base, files)
    ensures Link(e, base, files, scan, st).1 == LinkDep(e, base, files)
  {
  }

  lemma LinksCons(doc: seq<Element>, e: Element, rest: seq<Element>, base: string,
                  files: seq<Entry<VirtualNode>>)
    requires doc != [] && |rest| == |doc| - 1 && LinkShaped(doc[0], e, base, files)
    requires forall i :: 0 <= i < |doc| - 1 ==> LinkShaped(doc[1..][i], rest[i], base, files)
    ensures forall i :: 0 <= i < |doc| ==> LinkShaped(doc[i], ([e] + rest)[i], base, files)
  {
    Seqs.PairwiseCons((d, o) => LinkShaped(d, o, base, files), doc, e, rest);
  }

  /** The script loop keeps the document's length, reports the inlined scripts, turns
      exactly those into inline scripts of the same kind, and leaves a classic script's
      code as the file holds it. */
  lemma {:induction false} ScriptsShape(doc: seq<Element>, base: string, files: seq<Entry<VirtualNode>>,
                                        scan: string -> seq<Piece>, st: Render)
    ensures var (out, deps, _) := Scripts(doc, base, files, scan, st);
      |out| == |doc| && deps == ScriptDeps(doc, base, files) &&
      forall i :: 0 <= i < |doc| ==> ScriptShaped(doc[i], out[i], base, files)
  {
    if doc != [] {
      var (e, d, st1) := Script(doc[0], base, files, scan, st);
      ScriptShape(doc[0], base, files, scan, st);
      ScriptsShape(doc[1..], base, files, scan, st1);
      var (rest, _, _) := Scripts(doc[1..], base, files, scan, st1);
      ScriptsCons(doc, e, rest, base, files);
    }
  }

  /** One element of the script loop. */
  lemma ScriptShape(e: Element, base: string, files: seq<Entry<VirtualNode>>,
                    scan: string -> seq<Piece>, st: Render)
    ensures ScriptShaped(e, Script(e, base, files, scan, st).0, base, files)
    ensures Script(e, base, files, scan, st).1 == ScriptDep(e, base, files)
  {
  }

  lemma ScriptsCons(doc: seq<Element>, e: Element, rest: seq<Element>, base: string,
                    files: seq<Entry<VirtualNode>>)
    requires doc != [] && |rest| == |doc| - 1 && ScriptShaped(doc[0], e, base, files)
    requires forall i :: 0 <= i < |doc| - 1 ==> ScriptShaped(doc[1..][i], rest[i], base, files)
    ensures forall i :: 0 <= i < |doc| ==> ScriptShaped(doc[i], ([e] + rest)[i], base, files)
  {
    Seqs.PairwiseCons((d, o) => ScriptShaped(d, o, base, files), doc, e, rest);
  }

  /** Replacing stylesheets by inline styles changes no element the script loop looks at. */
  lemma {:induction false} ScriptDepsAfterLinks(doc: seq<Element>, out: seq<Element>, base: string,
                                                files: seq<Entry<VirtualNode>>)
    requires |out| == |doc|
    requires forall i :: 0 <= i < |doc| ==> out[i] == doc[i] || (!out[i].ExternalScript? && !doc[i].ExternalScript?)
    ensures ScriptDeps(out, base, files) == ScriptDeps(doc, base, files)
  {
    if doc != [] {
      assert forall i :: 0 <= i < |doc| - 1 ==> out[1..][i] == out[i + 1] && doc[1..][i] == doc[i + 1];
      ScriptDepsAfterLinks(doc[1..], out[1..], base, files);
    }
  }

  /** The dependency list of a render does not depend on the memo, the blobs or the
      transformed contents: stylesheets first, then scripts, each in document order. */
  lemma PreviewDeps(doc: seq<Element>, htmlPath: string, files: seq<Entry<VirtualNode>>,
                    cssScan: string -> seq<Piece>, jsScan: string -> seq<Piece>, blobs: seq<Blob>)
    ensures Preview(doc, htmlPath, files, cssScan, jsScan, blobs).1
      == LinkDeps(doc, DirName(htmlPath), files) + ScriptDeps(doc, DirName(htmlPath), files)
  {
    var base := DirName(htmlPath);
    var (d1, _, st1) := Links(doc, base, files, cssScan, Render(map[], blobs));
    LinksShape(doc, base, files, cssScan, Render(map[], blobs));
    ScriptsShape(d1, base, files, jsScan, st1);
    ScriptDepsAfterLinks(doc, d1, base, files);
  }

  /** Every dependency is a file of the index with content. */
  lemma {:induction false} LinkDepsFound(doc: seq<Element>, base: string, files: seq<Entry<VirtualNode>>)
    ensures forall p :: p in LinkDeps(doc, base, files) ==> FileAt(files, p).Some? && FileAt(files, p).value.content != ""
  {
    if doc != [] {
      LinkDepsFound(doc[1..], base, files);
    }
  }

  // ---------------------------------------------------------------------------
  // What the transformers do to the memo and the blobs

  /** Every memo entry names a file of the index and points at a blob holding its
      transformed content. */
  predicate MemoSound(st: Render, files: seq<Entry<VirtualNode>>)
  {
    forall p :: p in st.processed ==>
      FileAt(files, p).Some? &&
      exists k :: 0 <= k < |st.blobs| && st.processed[p].blobUrl == BlobUrl(k) && st.blobs[k].content == st.processed[p].content
  }

  /** How a transformer may change the state: blobs are only appended, memo entries are
      only added or replaced, and no path in progress gains or changes an entry. */
  predicate Grows(st: Render, st': Render, active: set<string>)
  {
    st.blobs <= st'.blobs &&
    st.processed.Keys <= st'.processed.Keys &&
    forall p :: p in active ==>
      (p in st'.processed <==> p in st.processed) &&
      (p in st.processed ==> st'.processed[p] == st.processed[p])
  }

  lemma GrowsTrans(a: Render, b: Render, c: Render, active: set<string>)
    requires Grows(a, b, active) && Grows(b, c, active)
    ensures Grows(a, c, active)
  {
  }

  /** Materialising a file keeps the memo sound. */
  lemma MaterialiseSound(st: Render, files: seq<Entry<VirtualNode>>, path: string, content: string, mime: string,
                         active: set<string>)
    requires MemoSound(st, files) && FileAt(files, path).Some? && path !in active
    ensures MemoSound(Materialise(st, path, content, mime), files)
    ensures Grows(st, Materialise(st, path, content, mime), active)
  {
    var st' := Materialise(st, path, content, mime);
    forall p | p in st'.processed
      ensures exists k :: 0 <= k < |st'.blobs| && st'.processed[p].blobUrl == BlobUrl(k) && st'.blobs[k].content == st'.processed[p].content
    {
      if p == path {
        assert st'.blobs[|st.blobs|].content == content;
      } else {
        var k :| 0 <= k < |st.blobs| && st.processed[p].blobUrl == BlobUrl(k) && st.blobs[k].content == st.processed[p].content;
        assert st'.blobs[k] == st.blobs[k];
      }
    }
  }

  /** The CSS transformer keeps the memo sound, and changes the state only as `Grows` allows. */
  lemma {:induction false} CssImportsGrow(ps: seq<Piece>, base: string, files: seq<Entry<VirtualNode>>,
                                          scan: string -> seq<Piece>, active: set<string>, st: Render)
    requires MemoSound(st, files)
    ensures MemoSound(CssImports(ps, base, files, scan, active, st).1, files)
    ensures Grows(st, CssImports(ps, base, files, scan, active, st).1, active)
    decreases |FilePaths(files) - active|, |ps|
  {
    if ps != [] {
      var (_, st1) := CssImport(ps[0], base, files, scan, active, st);
      CssImportGrows(ps[0], base, files, scan, active, st);
      CssImportsGrow(ps[1..], base, files, scan, active, st1);
      GrowsTrans(st, st1, CssImports(ps, base, files, scan, active, st).1, active);
    }
  }

  lemma {:induction false} CssImportGrows(p: Piece, base: string, files: seq<Entry<VirtualNode>>,
                                          scan: string -> seq<Piece>, active: set<string>, st: Render)
    requires MemoSound(st, files)
    ensures MemoSound(CssImport(p, base, files, scan, active, st).1, files)
    ensures Grows(st, CssImport(p, base, files, scan, active, st).1, active)
    decreases |FilePaths(files) - active|, 0
  {
    if p.Import? {
      var resolved := ResolveInDir(base, p.target);
      var file := FileAt(files, resolved);
      if !(file.None? || file.value.content == "" || resolved in active) {
        FoundPath(files, resolved);
        Shrink(FilePaths(files), active, resolved);
        var (content, st1) := CssImports(scan(file.value.content), DirName(resolved), files, scan, active + {resolved}, st);
        CssImportsGrow(scan(file.value.content), DirName(resolved), files, scan, active + {resolved}, st);
        MaterialiseSound(st1, files, resolved, content, CssMime, active);
        GrowsTrans(st, st1, Materialise(st1, resolved, content, CssMime), active);
      }
    }
  }

  /** The JS transformer keeps the memo sound and, besides, never replaces a memo entry:
      a path is materialised at most once per render. */
  lemma {:induction false} JsImportsGrow(ps: seq<Piece>, base: string, files: seq<Entry<VirtualNode>>,
                                         scan: string -> seq<Piece>, active: set<string>, st: Render)
    requires MemoSound(st, files)
    ensures var st' := JsImports(ps, base, files, scan, active, st).1;
      MemoSound(st', files) && Grows(st, st', active) &&
      forall p :: p in st.processed ==> st'.processed[p] == st.processed[p]
    decreases |FilePaths(files) - active|, |ps|
  {
    if ps != [] {
      var (_, st1) := JsImport(ps[0], base, files, scan, active, st);
      JsImportGrows(ps[0], base, files, scan, active, st);
      JsImportsGrow(ps[1..], base, files, scan, active, st1);
      GrowsTrans(st, st1, JsImports(ps, base, files, scan, active, st).1, active);
    }
  }

  lemma {:induction false} JsImportGrows(p: Piece, base: string, files: seq<Entry<VirtualNode>>,
                                         scan: string -> seq<Piece>, active: set<string>, st: Render)
    requires MemoSound(st, files)
    ensures var st' := JsImport(p, base, files, scan, active, st).1;
      MemoSound(st', files) && Grows(st, st', active) &&
      forall q :: q in st.processed ==> st'.processed[q] == st.processed[q]
    decreases |FilePaths(files) - active|, 0
  {
    var st' := JsImport(p, base, files, scan, active, st).1;
    if p.Chunk? || External(p.target) {
      assert st' == st;
    } else {
      var resolved := ResolveInDir(base, p.target);
      var file := FileAt(files, resolved);
      if resolved in st.processed || file.None? || file.value.content == "" || resolved in active {
        assert st' == st;
      } else {
        FoundPath(files, resolved);
        Shrink(FilePaths(files), active, resolved);
        var (content, st1) := JsImports(scan(file.value.content), DirName(resolved), files, scan, active + {resolved}, st);
        assert st' == Materialise(st1, resolved, content, JsMime);
        JsImportsGrow(scan(file.value.content), DirName(resolved), files, scan, active + {resolved}, st);
        EnterGrows(st, st1, files, resolved, content, JsMime, active);
      }
    }
  }

  /** Materialising a path that was in progress, and not memoised, after the recursion
      into it: no entry of before the recursion is replaced. */
  lemma EnterGrows(st: Render, st1: Render, files: seq<Entry<VirtualNode>>, path: string, content: string,
                   mime: string, active: set<string>)
    requires MemoSound(st1, files) && FileAt(files, path).Some? && path !in active && path !in st.processed
    requires Grows(st, st1, active + {path})
    requires forall q :: q in st.processed ==> st1.processed[q] == st.processed[q]
    ensures var st' := Materialise(st1, path, content, mime);
      MemoSound(st', files) && Grows(st, st', active) &&
      forall q :: q in st.processed ==> st'.processed[q] == st.processed[q]
  {
    var st' := Materialise(st1, path, content, mime);
    MaterialiseSound(st1, files, path, content, mime, active);
    GrowsTrans(st, st1, st', active);
    assert path !in st1.processed;
  }

  /** The stylesheet loop keeps the memo sound and only appends blobs. */
  lemma {:induction false} LinksGrow(doc: seq<Element>, base: string, files: seq<Entry<VirtualNode>>,
                                     scan: string -> seq<Piece>, st: Render)
    requires MemoSound(st, files)
    ensures MemoSound(Links(doc, base, files, scan, st).2, files)
    ensures st.blobs <= Links(doc, base, files, scan, st).2.blobs
  {
    if doc != [] {
      var st1 := Link(doc[0], base, files, scan, st).2;
      if doc[0].Stylesheet? && Target(base, doc[0].href, files).Some? {
        var path := Target(base, doc[0].href, files).value;
        CssImportsGrow(scan(FileAt(files, path).value.content), base, files, scan, {}, st);
      }
      LinksGrow(doc[1..], base, files, scan, st1);
    }
  }

  /** The script loop keeps the memo sound and only appends blobs. */
  lemma {:induction false} ScriptsGrow(doc: seq<Element>, base: string, files: seq<Entry<VirtualNode>>,
                                       scan: string -> seq<Piece>, st: Render)
    requires MemoSound(st, files)
    ensures MemoSound(Scripts(doc, base, files, scan, st).2, files)
    ensures st.blobs <= Scripts(doc, base, files, scan, st).2.blobs
  {
    if doc != [] {
      var st1 := Script(doc[0], base, files, scan, st).2;
      if doc[0].ExternalScript? && doc[0].isModule && Target(base, doc[0].src, files).Some? {
        var path := Target(base, doc[0].src, files).value;
        JsImportsGrow(scan(FileAt(files, path).value.content), base, files, scan, {}, st);
      }
      ScriptsGrow(doc[1..], base, files, scan, st1);
    }
  }

  /** After a render every memo entry points at a blob with its content, and the blobs of
      earlier renders are still there, in order. */
  lemma PreviewGrows(doc: seq<Element>, htmlPath: string, files: seq<Entry<VirtualNode>>,
                     cssScan: string -> seq<Piece>, jsScan: string -> seq<Piece>, blobs: seq<Blob>)
    ensures MemoSound(Preview(doc, htmlPath, files, cssScan, jsScan, blobs).2, files)
    ensures blobs <= Preview(doc, htmlPath, files, cssScan, jsScan, blobs).2.blobs
  {
    var base := DirName(htmlPath);
    var (d1, _, st1) := Links(doc, base, files, cssScan, Render(map[], blobs));
    LinksGrow(doc, base, files, cssScan, Render(map[], blobs));
    ScriptsGrow(d1, base, files, jsScan, st1);
  }

  /** When no import of the scan leads to a file it may enter, the CSS transformer gives
      back the text it scanned and changes nothing. */
  lemma {:induction false} CssUntouched(ps: seq<Piece>, base: string, files: seq<Entry<VirtualNode>>,
                                        scan: string -> seq<Piece>, active: set<string>, st: Render)
    requires forall i :: 0 <= i < |ps| && ps[i].Import? ==>
      var resolved := ResolveInDir(base, ps[i].target);
      FileAt(files, resolved).None? || FileAt(files, resolved).value.content == "" || resolved in active
    ensures CssImports(ps, base, files, scan, active, st) == (Unscan(ps), st)
    decreases |ps|
  {
    if ps != [] {
      assert forall i :: 0 <= i < |ps| - 1 ==> ps[1..][i] == ps[i + 1];
      CssUntouched(ps[1..], base, files, scan, active, st);
    }
  }

  /** The same for the JS transformer, where external specifiers are left alone too. */
  lemma {:induction false} JsUntouched(ps: seq<Piece>, base: string, files: seq<Entry<VirtualNode>>,
                                       scan: string -> seq<Piece>, active: set<string>, st: Render)
    requires forall i :: 0 <= i < |ps| && ps[i].Import? && !External(ps[i].target) ==>
      var resolved := ResolveInDir(base, ps[i].target);
      resolved !in st.processed &&
      (FileAt(files, resolved).None? || FileAt(files, resolved).value.content == "" || resolved in active)
    ensures JsImports(ps, base, files, scan, active, st) == (Unscan(ps), st)
    decreases |ps|
  {
    if ps != [] {
      assert forall i :: 0 <= i < |ps| - 1 ==> ps[1..][i] == ps[i + 1];
      JsUntouched(ps[1..], base, files, scan, active, st);
    }
  }

  /** A found CSS import becomes an `@import` of the blob just created, and the memo maps
      the imported path to that blob and the transformed content. */
  lemma CssImportFound(statement: string, target: string, base: string, files: seq<Entry<VirtualNode>>,
                       scan: string -> seq<Piece>, active: set<string>, st: Render)
    requires var resolved := ResolveInDir(base, target);
      FileAt(files, resolved).Some? && FileAt(files, resolved).value.content != "" && resolved !in active
    ensures var (out, st') := CssImport(Import(statement, target), base, files, scan, active, st);
      var resolved := ResolveInDir(base, target);
      |st'.blobs| > 0 && out == CssRewrite(BlobUrl(|st'.blobs| - 1)) &&
      resolved in st'.processed && st'.processed[resolved].blobUrl == BlobUrl(|st'.blobs| - 1) &&
      st'.blobs[|st'.blobs| - 1] == Blob(st'.processed[resolved].content, CssMime)
  {
    var resolved := ResolveInDir(base, target);
    var file := FileAt(files, resolved).value;
    var (content, st1) := CssImports(scan(file.content), DirName(resolved), files, scan, active + {resolved}, st);
    assert CssImport(Import(statement, target), base, files, scan, active, st)
      == (CssRewrite(BlobUrl(|st1.blobs|)), Materialise(st1, resolved, content, CssMime));
  }

  /** Two stylesheets at `pa` and `pb`, each holding one `@import` of the other. */
  predicate CssCycle(files: seq<Entry<VirtualNode>>, scan: string -> seq<Piece>, pa: string, pb: string)
  {
    FileAt(files, pa).Some? && FileAt(files, pa).value.content != "" &&
    FileAt(files, pb).Some? && FileAt(files, pb).value.content != "" &&
    |scan(FileAt(files, pa).value.content)| == 1 && scan(FileAt(files, pa).value.content)[0].Import? &&
    ResolveInDir(DirName(pa), scan(FileAt(files, pa).value.content)[0].target) == pb &&
    |scan(FileAt(files, pb).value.content)| == 1 && scan(FileAt(files, pb).value.content)[0].Import? &&
    ResolveInDir(DirName(pb), scan(FileAt(files, pb).value.content)[0].target) == pa
  }

  /** With nothing in progress, as when a page in the folder of `a.css` links it, the text
      of `a.css` enters `b.css`, which enters `a.css` again; there the import of `b.css`,
      now in progress, stays as written. Two blobs are made and the transform ends. */
  lemma CssCycleSettles(files: seq<Entry<VirtualNode>>, scan: string -> seq<Piece>, pa: string, pb: string, st: Render)
    requires CssCycle(files, scan, pa, pb) && pa != pb
    ensures var a := scan(FileAt(files, pa).value.content)[0].statement;
      var st1 := Materialise(st, pa, a, CssMime);
      CssImports(scan(FileAt(files, pa).value.content), DirName(pa), files, scan, {}, st)
        == (CssRewrite(BlobUrl(|st.blobs| + 1)), Materialise(st1, pb, CssRewrite(BlobUrl(|st.blobs|)), CssMime))
  {
    var ps := scan(FileAt(files, pa).value.content);
    var none: set<string> := {};
    assert ps == [ps[0]];
    CssCycleInner(files, scan, pa, pb, st);
    CssImportEnters(ps[0], DirName(pa), files, scan, none, st);
    CssSingle(ps[0], DirName(pa), files, scan, none, st);
  }

  /** Inside that run, with `b.css` in progress: `b.css` enters `a.css`, whose import of
      `b.css` stays as written, and one blob is made. */
  lemma CssCycleInner(files: seq<Entry<VirtualNode>>, scan: string -> seq<Piece>, pa: string, pb: string, st: Render)
    requires CssCycle(files, scan, pa, pb) && pa != pb
    ensures var a := scan(FileAt(files, pa).value.content)[0].statement;
      var none: set<string> := {};
      CssImports(scan(FileAt(files, pb).value.content), DirName(pb), files, scan, none + {pb}, st)
        == (CssRewrite(BlobUrl(|st.blobs|)), Materialise(st, pa, a, CssMime))
  {
    var ps := scan(FileAt(files, pa).value.content);
    var qs := scan(FileAt(files, pb).value.content);
    var none: set<string> := {};
    assert ps == [ps[0]] && qs == [qs[0]];
    CssSingle(ps[0], DirName(pa), files, scan, (none + {pb}) + {pa}, st);
    CssImportSkips(ps[0], DirName(pa), files, scan, (none + {pb}) + {pa}, st);
    CssImportEnters(qs[0], DirName(pb), files, scan, none + {pb}, st);
    CssSingle(qs[0], DirName(pb), files, scan, none + {pb}, st);
  }

  /** Transforming a single piece is transforming that piece. */
  lemma CssSingle(p: Piece, base: string, files: seq<Entry<VirtualNode>>,
                  scan: string -> seq<Piece>, active: set<string>, st: Render)
    ensures CssImports([p], base, files, scan, active, st) == CssImport(p, base, files, scan, active, st)
  {
    assert [p][1..] == [];
    var (h, _) := CssImport(p, base, files, scan, active, st);
    assert h + "" == h;
  }

  /** An import of a file in progress stays as written. */
  lemma CssImportSkips(p: Piece, base: string, files: seq<Entry<VirtualNode>>,
                       scan: string -> seq<Piece>, active: set<string>, st: Render)
    requires p.Import? && ResolveInDir(base, p.target) in active
    ensures CssImport(p, base, files, scan, active, st) == (p.statement, st)
  {
  }

  /** An import of a found file not in progress is transformed, materialised and memoised. */
  lemma CssImportEnters(p: Piece, base: string, files: seq<Entry<VirtualNode>>,
                        scan: string -> seq<Piece>, active: set<string>, st: Render)
    requires p.Import?
    requires var resolved := ResolveInDir(base, p.target);
      FileAt(files, resolved).Some? && FileAt(files, resolved).value.content != "" && resolved !in active
    ensures var resolved := ResolveInDir(base, p.target);
      var (content, st1) := CssImports(scan(FileAt(files, resolved).value.content), DirName(resolved), files,
                                       scan, active + {resolved}, st);
      CssImport(p, base, files, scan, active, st)
        == (CssRewrite(BlobUrl(|st1.blobs|)), Materialise(st1, resolved, content, CssMime))
  {
  }

  /** A relative import of a found module neither memoised nor in progress is transformed,
      materialised and memoised. */
  lemma JsImportEnters(p: Piece, base: string, files: seq<Entry<VirtualNode>>,
                       scan: string -> seq<Piece>, active: set<string>, st: Render)
    requires p.Import? && !External(p.target)
    requires var resolved := ResolveInDir(base, p.target);
      FileAt(files, resolved).Some? && FileAt(files, resolved).value.content != "" &&
      resolved !in active && resolved !in st.processed
    ensures var resolved := ResolveInDir(base, p.target);
      var (content, st1) := JsImports(scan(FileAt(files, resolved).value.content), DirName(resolved), files,
                                      scan, active + {resolved}, st);
      JsImport(p, base, files, scan, active, st)
        == (ReplaceFirst(p.statement, p.target, BlobUrl(|st1.blobs|)), Materialise(st1, resolved, content, JsMime))
  {
  }

  // ---------------------------------------------------------------------------
  // The engine's state and loops, over the corrected transformers above

  class Previewer {
    /** `processedFiles` of the render in progress. */
    var processed: map<string, ProcessedFile>
    /** Every blob created so far; none is ever released. */
    var blobs: seq<Blob>

    function State(): Render
      reads this
    {
      Render(processed, blobs)
    }

    constructor ()
      ensures processed == map[] && blobs == []
    {
      processed := map[];
      blobs := [];
    }

    /** `URL.createObjectURL(new Blob([content], { type: mime }))`. */
    method CreateObjectUrl(content: string, mime: string) returns (url: string)
      modifies this`blobs
      ensures blobs == old(blobs) + [Blob(content, mime)]
      ensures url == BlobUrl(|old(blobs)|)
    {
      url := BlobUrl(|blobs|);
      blobs := blobs + [Blob(content, mime)];
    }

    /** `transformCssImports`: `css.replace` runs the callback on each match in turn. */
    method TransformCssImports(css: string, basePath: string, files: seq<Entry<VirtualNode>>,
                               scan: string -> seq<Piece>, active: set<string>) returns (r: string)
      modifies this
      ensures (r, State()) == CssImports(scan(css), basePath, files, scan, active, old(State()))
      decreases |FilePaths(files) - active|, 1
    {
      var ps := scan(css);
      ghost var total := CssImports(ps, basePath, files, scan, active, State());
      r := "";
      var i := 0;
      assert ps[0..] == ps && r + total.0 == total.0;
      while i < |ps|
        invariant 0 <= i <= |ps|
        invariant var rest := CssImports(ps[i..], basePath, files, scan, active, State());
          r + rest.0 == total.0 && rest.1 == total.1
      {
        ghost var before := State();
        var h := TransformCssImport(ps[i], basePath, files, scan, active);
        CssImportsAdvance(ps, i, basePath, files, scan, active, r, h, before, State(), total);
        r := r + h;
        i := i + 1;
      }
      assert ps[i..] == [] && r + "" == r;
    }

    /** The replace callback of `transformCssImports` for one piece of the scan. */
    method TransformCssImport(p: Piece, basePath: string, files: seq<Entry<VirtualNode>>,
                              scan: string -> seq<Piece>, active: set<string>) returns (h: string)
      modifies this
      ensures (h, State()) == CssImport(p, basePath, files, scan, active, old(State()))
      decreases |FilePaths(files) - active|, 0
    {
      match p {
        case Chunk(t) =>
          h := t;
        case Import(statement, target) =>
          var resolved := ResolveInDir(basePath, target);
          var file := FindFileByPath(files, resolved);
          if file.None? || file.value.content == "" || resolved in active {
            h := statement;
          } else {
            FoundPath(files, resolved);
            Shrink(FilePaths(files), active, resolved);
            var content := TransformCssImports(file.value.content, DirName(resolved), files, scan,
                                               active + {resolved});
            var url := CreateObjectUrl(content, CssMime);
            processed := processed[resolved := ProcessedFile(content, url, [])];
            h := CssRewrite(url);
          }
      }
    }

    /** `transformJsImports`: `js.replace` runs the callback on each match in turn. */
    method TransformJsImports(js: string, basePath: string, files: seq<Entry<VirtualNode>>,
                              scan: string -> seq<Piece>, active: set<string>) returns (r: string)
      modifies this
      ensures (r, State()) == JsImports(scan(js), basePath, files, scan, active, old(State()))
      decreases |FilePaths(files) - active|, 1
    {
      var ps := scan(js);
      ghost var total := JsImports(ps, basePath, files, scan, active, State());
      r := "";
      var i := 0;
      assert ps[0..] == ps && r + total.0 == total.0;
      while i < |ps|
        invariant 0 <= i <= |ps|
        invariant var rest := JsImports(ps[i..], basePath, files, scan, active, State());
          r + rest.0 == total.0 && rest.1 == total.1
      {
        ghost var before := State();
        var h := TransformJsImport(ps[i], basePath, files, scan, active);
        JsImportsAdvance(ps, i, basePath, files, scan, active, r, h, before, State(), total);
        r := r + h;
        i := i + 1;
      }
      assert ps[i..] == [] && r + "" == r;
    }

    /** The replace callback of `transformJsImports` for one piece of the scan. */
    method TransformJsImport(p: Piece, basePath: string, files: seq<Entry<VirtualNode>>,
                             scan: string -> seq<Piece>, active: set<string>) returns (h: string)
      modifies this
      ensures (h, State()) == JsImport(p, basePath, files, scan, active, old(State()))
      decreases |FilePaths(files) - active|, 0
    {
      match p {
        case Chunk(t) =>
          h := t;
        case Import(statement, target) =>
          if External(target) {
            h := statement;
          } else {
            var resolved := ResolveInDir(basePath, target);
            if resolved in processed {
              h := ReplaceFirst(statement, target, processed[resolved].blobUrl);
            } else {
              var file := FindFileByPath(files, resolved);
              if file.None? || file.value.content == "" || resolved in active {
                h := statement;
              } else {
                FoundPath(files, resolved);
                Shrink(FilePaths(files), active, resolved);
                var content := TransformJsImports(file.value.content, DirName(resolved), files, scan,
                                                  active + {resolved});
                var url := CreateObjectUrl(content, JsMime);
                processed := processed[resolved := ProcessedFile(content, url, [])];
                h := ReplaceFirst(statement, target, url);
              }
            }
          }
      }
    }

    /** The `forEach` callback of the stylesheet loop, for one element. */
    method ReplaceLink(e: Element, basePath: string, files: seq<Entry<VirtualNode>>,
                            scan: string -> seq<Piece>) returns (e': Element, d: seq<string>)
      modifies this
      ensures (e', d, State()) == Link(e, basePath, files, scan, old(State()))
    {
      e', d := e, [];
      if e.Stylesheet? && e.href != "" && !HasScheme(e.href) {
        var resolved := ResolveInDir(basePath, e.href);
        var cssFile := FindFileByPath(files, resolved);
        if cssFile.Some? && cssFile.value.content != "" {
          d := [resolved];
          var css := TransformCssImports(cssFile.value.content, basePath, files, scan, {});
          e' := InlineStyle(css);
        }
      }
    }

    /** The `forEach` callback of the script loop, for one element. */
    method ReplaceScript(e: Element, basePath: string, files: seq<Entry<VirtualNode>>,
                        scan: string -> seq<Piece>) returns (e': Element, d: seq<string>)
      modifies this
      ensures (e', d, State()) == Script(e, basePath, files, scan, old(State()))
    {
      e', d := e, [];
      if e.ExternalScript? && e.src != "" && !HasScheme(e.src) {
        var resolved := ResolveInDir(basePath, e.src);
        var jsFile := FindFileByPath(files, resolved);
        if jsFile.Some? && jsFile.value.content != "" {
          d := [resolved];
          var js := jsFile.value.content;
          if e.isModule {
            js := TransformJsImports(js, basePath, files, scan, {});
          }
          e' := InlineScript(js, e.isModule);
        }
      }
    }

    /** The stylesheet loop over the document. */
    method InlineStylesheets(doc: seq<Element>, basePath: string, files: seq<Entry<VirtualNode>>,
                             scan: string -> seq<Piece>) returns (html: seq<Element>, deps: seq<string>)
      modifies this
      ensures (html, deps, State()) == Links(doc, basePath, files, scan, old(State()))
    {
      ghost var total := Links(doc, basePath, files, scan, State());
      html, deps := [], [];
      var i := 0;
      assert doc[0..] == doc && html + total.0 == total.0 && deps + total.1 == total.1;
      while i < |doc|
        invariant 0 <= i <= |doc|
        invariant var rest := Links(doc[i..], basePath, files, scan, State());
          html + rest.0 == total.0 && deps + rest.1 == total.1 && rest.2 == total.2
      {
        ghost var before := State();
        var e, d := ReplaceLink(doc[i], basePath, files, scan);
        LinksAdvance(doc, i, basePath, files, scan, html, deps, e, d, before, State(), total);
        html, deps := html + [e], deps + d;
        i := i + 1;
      }
      assert doc[i..] == [] && html + [] == html && deps + [] == deps;
    }

    /** The script loop over the document. */
    method InlineScripts(doc: seq<Element>, basePath: string, files: seq<Entry<VirtualNode>>,
                         scan: string -> seq<Piece>) returns (html: seq<Element>, deps: seq<string>)
      modifies this
      ensures (html, deps, State()) == Scripts(doc, basePath, files, scan, old(State()))
    {
      ghost var total := Scripts(doc, basePath, files, scan, State());
      html, deps := [], [];
      var i := 0;
      assert doc[0..] == doc && html + total.0 == total.0 && deps + total.1 == total.1;
      while i < |doc|
        invariant 0 <= i <= |doc|
        invariant var rest := Scripts(doc[i..], basePath, files, scan, State());
          html + rest.0 == total.0 && deps + rest.1 == total.1 && rest.2 == total.2
      {
        ghost var before := State();
        var e, d := ReplaceScript(doc[i], basePath, files, scan);
        ScriptsAdvance(doc, i, basePath, files, scan, html, deps, e, d, before, State(), total);
        html, deps := html + [e], deps + d;
        i := i + 1;
      }
      assert doc[i..] == [] && html + [] == html && deps + [] == deps;
    }

    /** `processHtmlForPreview` on the parsed document: a fresh memo, the stylesheet
        loop, then the script loop over the result; blobs of earlier renders stay. */
    method ProcessHtmlForPreview(doc: seq<Element>, htmlPath: string, files: seq<Entry<VirtualNode>>,
                                 cssScan: string -> seq<Piece>, jsScan: string -> seq<Piece>)
      returns (html: seq<Element>, dependencies: seq<string>)
      modifies this
      ensures (html, dependencies, State()) == Preview(doc, htmlPath, files, cssScan, jsScan, old(blobs))
    {
      processed := map[];
      var basePath := DirName(htmlPath);
      var linked, cssDeps := InlineStylesheets(doc, basePath, files, cssScan);
      var jsDeps;
      html, jsDeps := InlineScripts(linked, basePath, files, jsScan);
      dependencies := cssDeps + jsDeps;
    }

    /** `getAllDependencies`: the dependency list of a render of the page at `htmlPath`,
        or nothing when that page is missing or empty. */
    method GetAllDependencies(htmlPath: string, files: seq<Entry<VirtualNode>>, parse: string -> seq<Element>,
                              cssScan: string -> seq<Piece>, jsScan: string -> seq<Piece>)
      returns (dependencies: seq<string>)
      modifies this
      ensures dependencies == AllDependencies(htmlPath, files, parse, cssScan, jsScan)
    {
      var htmlFile := FindFileByPath(files, htmlPath);
      if htmlFile.None? || htmlFile.value.content == "" {
        return [];
      }
      var html;
      html, dependencies := ProcessHtmlForPreview(parse(htmlFile.value.content), htmlPath, files, cssScan, jsScan);
      PreviewDeps(parse(htmlFile.value.content), htmlPath, files, cssScan, jsScan, old(blobs));
    }
  }
}
