/** The preview engine of src/utils/previewEngine.ts exactly as written: every path
    resolves with `resolvePath`, nothing is marked in progress before the recursion, the
    CSS transformer never reads the memo and the JS transformer writes it only after the
    recursion returns. Both are synchronous recursive functions with no bound on their
    depth, so each call here spends one unit of `fuel` per file it enters and yields `None`
    when the fuel is gone. A run that is `None` at every fuel is one whose recursion
    re-enters until the JavaScript call stack overflows: the `RangeError` it throws leaves
    `processHtmlForPreview`, which catches nothing.

    Whenever a run as written ends, the corrected engine of `PreviewEngine` gives the same
    text, dependencies and state, provided no file's folder has a dot in its last segment:
    a file already on the import chain is only ever reached again in a run that cannot end.
    Conversely, when no import leads back onto the chain (in particular, when the import
    graph is acyclic), a run as written with more fuel than there are file paths ends. */
module PreviewAsWritten {
  import opened Wrappers
  import opened OrderedMap
  import opened VirtualNodes
  import opened PathResolver
  import opened Text
  import opened PreviewEngine

  // ---------------------------------------------------------------------------
  // transformCssImports and transformJsImports as written

  function CssImports(fuel: nat, ps: seq<Piece>, base: string, files: seq<Entry<VirtualNode>>,
                      scan: string -> seq<Piece>, st: Render): Option<(string, Render)>
    decreases fuel, |ps|
  {
    if ps == [] then Some(("", st))
    else
      match CssImport(fuel, ps[0], base, files, scan, st)
      case None => None
      case Some((h, st1)) =>
        match CssImports(fuel, ps[1..], base, files, scan, st1)
        case None => None
        case Some((t, st2)) => Some((h + t, st2))
  }

  function CssImport(fuel: nat, p: Piece, base: string, files: seq<Entry<VirtualNode>>,
                     scan: string -> seq<Piece>, st: Render): Option<(string, Render)>
    decreases fuel, 0
  {
    match p
    case Chunk(t) => Some((t, st))
    case Import(statement, target) =>
      var resolved := Resolve(base, target);
      var file := FileAt(files, resolved);
      if file.None? || file.value.content == "" then Some((statement, st))
      else if fuel == 0 then None
      else
        match CssImports(fuel - 1, scan(file.value.content), DirName(resolved), files, scan, st)
        case None => None
        case Some((content, st1)) =>
          Some((CssRewrite(BlobUrl(|st1.blobs|)), Materialise(st1, resolved, content, CssMime)))
  }

  function JsImports(fuel: nat, ps: seq<Piece>, base: string, files: seq<Entry<VirtualNode>>,
                     scan: string -> seq<Piece>, st: Render): Option<(string, Render)>
    decreases fuel, |ps|
  {
    if ps == [] then Some(("", st))
    else
      match JsImport(fuel, ps[0], base, files, scan, st)
      case None => None
      case Some((h, st1)) =>
        match JsImports(fuel, ps[1..], base, files, scan, st1)
        case None => None
        case Some((t, st2)) => Some((h + t, st2))
  }

  function JsImport(fuel: nat, p: Piece, base: string, files: seq<Entry<VirtualNode>>,
                    scan: string -> seq<Piece>, st: Render): Option<(string, Render)>
    decreases fuel, 0
  {
    match p
    case Chunk(t) => Some((t, st))
    case Import(statement, target) =>
      if External(target) then Some((statement, st))
      else
        var resolved := Resolve(base, target);
        if resolved in st.processed then
          Some((ReplaceFirst(statement, target, st.processed[resolved].blobUrl), st))
        else
          var file := FileAt(files, resolved);
          if file.None? || file.value.content == "" then Some((statement, st))
          else if fuel == 0 then None
          else
            match JsImports(fuel - 1, scan(file.value.content), DirName(resolved), files, scan, st)
            case None => None
            case Some((content, st1)) =>
              Some((ReplaceFirst(statement, target, BlobUrl(|st1.blobs|)), Materialise(st1, resolved, content, JsMime)))
  }

  /** Two stylesheets at `pa` and `pb`, each holding one `@import` of the other. */
  predicate CssCycleAsWritten(files: seq<Entry<VirtualNode>>, scan: string -> seq<Piece>, pa: string, pb: string)
  {
    FileAt(files, pa).Some? && FileAt(files, pa).value.content != "" &&
    FileAt(files, pb).Some? && FileAt(files, pb).value.content != "" &&
    |scan(FileAt(files, pa).value.content)| == 1 && scan(FileAt(files, pa).value.content)[0].Import? &&
    Resolve(DirName(pa), scan(FileAt(files, pa).value.content)[0].target) == pb &&
    |scan(FileAt(files, pb).value.content)| == 1 && scan(FileAt(files, pb).value.content)[0].Import? &&
    Resolve(DirName(pb), scan(FileAt(files, pb).value.content)[0].target) == pa
  }

  /** On `a.css` importing `b.css` importing `a.css`, the CSS transformer as written
      recurses without bound: whatever the fuel and the memo, transforming `a.css` runs
      out, which stands for the stack overflow the source throws. */
  lemma {:induction false} CssCycleDiverges(fuel: nat, files: seq<Entry<VirtualNode>>, scan: string -> seq<Piece>,
                                            pa: string, pb: string, st: Render)
    requires CssCycleAsWritten(files, scan, pa, pb)
    ensures CssImports(fuel, scan(FileAt(files, pa).value.content), DirName(pa), files, scan, st).None?
    decreases fuel
  {
    var ps := scan(FileAt(files, pa).value.content);
    forall f: nat | f < fuel
      ensures CssImports(f, scan(FileAt(files, pb).value.content), DirName(pb), files, scan, st).None?
    {
      CssCycleDiverges(f, files, scan, pb, pa, st);
    }
    CssImportStuck(fuel, ps[0], DirName(pa), pb, files, scan, st);
    CssSingleStuck(fuel, ps, DirName(pa), files, scan, st);
  }

  /** An import of a missing or empty file stays as written. */
  lemma CssImportPlain(fuel: nat, p: Piece, base: string, files: seq<Entry<VirtualNode>>,
                       scan: string -> seq<Piece>, st: Render)
    requires p.Import? && !HasContent(files, Resolve(base, p.target))
    ensures CssImport(fuel, p, base, files, scan, st) == Some((p.statement, st))
  {
  }

  /** With fuel left, an import of a found file is transformed, materialised and memoised. */
  lemma CssImportEntersAsWritten(fuel: nat, p: Piece, base: string, files: seq<Entry<VirtualNode>>,
                                 scan: string -> seq<Piece>, st: Render)
    requires p.Import? && HasContent(files, Resolve(base, p.target)) && fuel > 0
    ensures var resolved := Resolve(base, p.target);
      CssImport(fuel, p, base, files, scan, st) ==
        match CssImports(fuel - 1, scan(FileAt(files, resolved).value.content), DirName(resolved), files, scan, st)
        case None => None
        case Some((content, st1)) => Some((CssRewrite(BlobUrl(|st1.blobs|)), Materialise(st1, resolved, content, CssMime)))
  {
  }

  /** A single-piece text whose piece runs out of fuel runs out of fuel. */
  lemma CssSingleStuck(fuel: nat, ps: seq<Piece>, base: string, files: seq<Entry<VirtualNode>>,
                       scan: string -> seq<Piece>, st: Render)
    requires |ps| == 1 && CssImport(fuel, ps[0], base, files, scan, st).None?
    ensures CssImports(fuel, ps, base, files, scan, st).None?
  {
  }

  /** An import of a found file runs out of fuel when the file's own imports do. */
  lemma CssImportStuck(fuel: nat, p: Piece, base: string, resolved: string, files: seq<Entry<VirtualNode>>,
                       scan: string -> seq<Piece>, st: Render)
    requires p.Import?
    requires resolved == Resolve(base, p.target)
    requires FileAt(files, resolved).Some? && FileAt(files, resolved).value.content != "" &&
      (fuel > 0 ==> CssImports(fuel - 1, scan(FileAt(files, resolved).value.content), DirName(resolved),
                               files, scan, st).None?)
    ensures CssImport(fuel, p, base, files, scan, st).None?
  {
  }

  /** Two modules at `pa` and `pb`, each holding one relative import of the other. */
  predicate JsCycleAsWritten(files: seq<Entry<VirtualNode>>, scan: string -> seq<Piece>, pa: string, pb: string)
  {
    FileAt(files, pa).Some? && FileAt(files, pa).value.content != "" &&
    FileAt(files, pb).Some? && FileAt(files, pb).value.content != "" &&
    |scan(FileAt(files, pa).value.content)| == 1 && scan(FileAt(files, pa).value.content)[0].Import? &&
    !External(scan(FileAt(files, pa).value.content)[0].target) &&
    Resolve(DirName(pa), scan(FileAt(files, pa).value.content)[0].target) == pb &&
    |scan(FileAt(files, pb).value.content)| == 1 && scan(FileAt(files, pb).value.content)[0].Import? &&
    !External(scan(FileAt(files, pb).value.content)[0].target) &&
    Resolve(DirName(pb), scan(FileAt(files, pb).value.content)[0].target) == pa
  }

  /** On two modules importing each other, the memo check does not help: neither entry is
      written before the recursion returns, so transforming the first recurses without
      bound and runs out of every fuel. */
  lemma {:induction false} JsCycleDiverges(fuel: nat, files: seq<Entry<VirtualNode>>, scan: string -> seq<Piece>,
                                           pa: string, pb: string, st: Render)
    requires JsCycleAsWritten(files, scan, pa, pb)
    requires pa !in st.processed && pb !in st.processed
    ensures JsImports(fuel, scan(FileAt(files, pa).value.content), DirName(pa), files, scan, st).None?
    decreases fuel
  {
    var ps := scan(FileAt(files, pa).value.content);
    forall f: nat | f < fuel
      ensures JsImports(f, scan(FileAt(files, pb).value.content), DirName(pb), files, scan, st).None?
    {
      JsCycleDiverges(f, files, scan, pb, pa, st);
    }
    JsImportStuck(fuel, ps[0], DirName(pa), pb, files, scan, st);
    JsSingleStuck(fuel, ps, DirName(pa), files, scan, st);
  }

  lemma JsSingleStuck(fuel: nat, ps: seq<Piece>, base: string, files: seq<Entry<VirtualNode>>,
                      scan: string -> seq<Piece>, st: Render)
    requires |ps| == 1 && JsImport(fuel, ps[0], base, files, scan, st).None?
    ensures JsImports(fuel, ps, base, files, scan, st).None?
  {
  }

  /** An import of a found module not yet memoised runs out of fuel when the module's own
      imports do. */
  lemma JsImportStuck(fuel: nat, p: Piece, base: string, resolved: string, files: seq<Entry<VirtualNode>>,
                      scan: string -> seq<Piece>, st: Render)
    requires p.Import? && !External(p.target)
    requires resolved == Resolve(base, p.target)
    requires resolved !in st.processed &&
      FileAt(files, resolved).Some? && FileAt(files, resolved).value.content != "" &&
      (fuel > 0 ==> JsImports(fuel - 1, scan(FileAt(files, resolved).value.content), DirName(resolved),
                              files, scan, st).None?)
    ensures JsImport(fuel, p, base, files, scan, st).None?
  {
  }

  /** A relative import of a memoised file, or of a missing or empty one, leaves the state
      as it is; so does everything else the transformer does not follow. */
  lemma JsImportPlain(fuel: nat, p: Piece, base: string, files: seq<Entry<VirtualNode>>,
                      scan: string -> seq<Piece>, st: Render)
    requires Follows(true, p) ==>
      var resolved := Resolve(base, p.target); resolved in st.processed || !HasContent(files, resolved)
    ensures var aw := JsImport(fuel, p, base, files, scan, st); aw.Some? && aw.value.1 == st
  {
  }

  /** With fuel left, a relative import of a found file not memoised is transformed,
      materialised and memoised. */
  lemma JsImportEntersAsWritten(fuel: nat, p: Piece, base: string, files: seq<Entry<VirtualNode>>,
                                scan: string -> seq<Piece>, st: Render)
    requires Follows(true, p) && fuel > 0
    requires var resolved := Resolve(base, p.target); resolved !in st.processed && HasContent(files, resolved)
    ensures var resolved := Resolve(base, p.target);
      JsImport(fuel, p, base, files, scan, st) ==
        match JsImports(fuel - 1, scan(FileAt(files, resolved).value.content), DirName(resolved), files, scan, st)
        case None => None
        case Some((content, st1)) =>
          Some((ReplaceFirst(p.statement, p.target, BlobUrl(|st1.blobs|)), Materialise(st1, resolved, content, JsMime)))
  {
  }

  // ---------------------------------------------------------------------------
  // processHtmlForPreview and getAllDependencies as written

  /** The path a local reference of the page resolves to with `resolvePath`, when a file
      with content is there. */
  function Target(base: string, ref: string, files: seq<Entry<VirtualNode>>): (r: Option<string>)
    ensures r.Some? ==> r.value == Resolve(base, ref) && FileAt(files, r.value).Some?
  {
    if ref == "" || HasScheme(ref) then None
    else
      var resolved := Resolve(base, ref);
      var file := FileAt(files, resolved);
      if file.Some? && file.value.content != "" then Some(resolved) else None
  }

  function Link(fuel: nat, e: Element, base: string, files: seq<Entry<VirtualNode>>,
                scan: string -> seq<Piece>, st: Render): Option<(Element, seq<string>, Render)>
  {
    if !e.Stylesheet? then Some((e, [], st))
    else
      match Target(base, e.href, files)
      case None => Some((e, [], st))
      case Some(path) =>
        match CssImports(fuel, scan(FileAt(files, path).value.content), base, files, scan, st)
        case None => None
        case Some((css, st1)) => Some((InlineStyle(css), [path], st1))
  }

  function Links(fuel: nat, doc: seq<Element>, base: string, files: seq<Entry<VirtualNode>>,
                 scan: string -> seq<Piece>, st: Render): Option<(seq<Element>, seq<string>, Render)>
  {
    if doc == [] then Some(([], [], st))
    else
      match Link(fuel, doc[0], base, files, scan, st)
      case None => None
      case Some((e, d, st1)) =>
        match Links(fuel, doc[1..], base, files, scan, st1)
        case None => None
        case Some((rest, ds, st2)) => Some(([e] + rest, d + ds, st2))
  }

  function Script(fuel: nat, e: Element, base: string, files: seq<Entry<VirtualNode>>,
                  scan: string -> seq<Piece>, st: Render): Option<(Element, seq<string>, Render)>
  {
    if !e.ExternalScript? then Some((e, [], st))
    else
      match Target(base, e.src, files)
      case None => Some((e, [], st))
      case Some(path) =>
        var content := FileAt(files, path).value.content;
        if e.isModule then
          match JsImports(fuel, scan(content), base, files, scan, st)
          case None => None
          case Some((js, st1)) => Some((InlineScript(js, true), [path], st1))
        else Some((InlineScript(content, false), [path], st))
  }

  function Scripts(fuel: nat, doc: seq<Element>, base: string, files: seq<Entry<VirtualNode>>,
                   scan: string -> seq<Piece>, st: Render): Option<(seq<Element>, seq<string>, Render)>
  {
    if doc == [] then Some(([], [], st))
    else
      match Script(fuel, doc[0], base, files, scan, st)
      case None => None
      case Some((e, d, st1)) =>
        match Scripts(fuel, doc[1..], base, files, scan, st1)
        case None => None
        case Some((rest, ds, st2)) => Some(([e] + rest, d + ds, st2))
  }

  /** `processHtmlForPreview` as written: a fresh memo, the stylesheet loop, the script loop. */
  function Preview(fuel: nat, doc: seq<Element>, htmlPath: string, files: seq<Entry<VirtualNode>>,
                   cssScan: string -> seq<Piece>, jsScan: string -> seq<Piece>,
                   blobs: seq<Blob>): Option<(seq<Element>, seq<string>, Render)>
  {
    var base := DirName(htmlPath);
    match Links(fuel, doc, base, files, cssScan, Render(map[], blobs))
    case None => None
    case Some((d1, deps1, st1)) =>
      match Scripts(fuel, d1, base, files, jsScan, st1)
      case None => None
      case Some((d2, deps2, st2)) => Some((d2, deps1 + deps2, st2))
  }

  /** `getAllDependencies` as written. */
  function AllDependencies(fuel: nat, htmlPath: string, files: seq<Entry<VirtualNode>>,
                           parse: string -> seq<Element>, cssScan: string -> seq<Piece>,
                           jsScan: string -> seq<Piece>, blobs: seq<Blob>): Option<seq<string>>
  {
    var page := FileAt(files, htmlPath);
    if page.None? || page.value.content == "" then Some([])
    else
      match Preview(fuel, parse(page.value.content), htmlPath, files, cssScan, jsScan, blobs)
      case None => None
      case Some((_, deps, _)) => Some(deps)
  }

  // ---------------------------------------------------------------------------
  // Import chains, and sets of files a run as written cannot leave

  /** The index holds a file with content at `path`. */
  predicate HasContent(files: seq<Entry<VirtualNode>>, path: string)
  {
    FileAt(files, path).Some? && FileAt(files, path).value.content != ""
  }

  /** A piece the transformer follows: any import for CSS, a relative one for JS. */
  predicate Follows(js: bool, p: Piece)
  {
    p.Import? && (js ==> !External(p.target))
  }

  /** The file at `x` has content and holds a followed import that resolves into `s`. */
  ghost predicate ImportsInto(js: bool, files: seq<Entry<VirtualNode>>, scan: string -> seq<Piece>,
                              x: string, s: set<string>)
  {
    HasContent(files, x) &&
    exists p :: p in scan(FileAt(files, x).value.content) && Follows(js, p) && Resolve(DirName(x), p.target) in s
  }

  /** Every file of `s` imports a file of `s`: once a run enters `s` it never comes out. */
  ghost predicate Trap(js: bool, files: seq<Entry<VirtualNode>>, scan: string -> seq<Piece>, s: set<string>)
  {
    forall x {:trigger ImportsInto(js, files, scan, x, s)} :: x in s ==> ImportsInto(js, files, scan, x, s)
  }

  /** The file at `a` holds a followed import that resolves to `b`. */
  ghost predicate Edge(js: bool, files: seq<Entry<VirtualNode>>, scan: string -> seq<Piece>, a: string, b: string)
  {
    FileAt(files, a).Some? &&
    exists p :: p in scan(FileAt(files, a).value.content) && Follows(js, p) && Resolve(DirName(a), p.target) == b
  }

  /** Files with content, each holding a followed import of the next. */
  ghost predicate Chain(js: bool, files: seq<Entry<VirtualNode>>, scan: string -> seq<Piece>, chain: seq<string>)
  {
    (forall i :: 0 <= i < |chain| ==> HasContent(files, chain[i])) &&
    forall i :: 0 <= i < |chain| - 1 ==> Edge(js, files, scan, chain[i], chain[i + 1])
  }

  /** A followed import of a file is an edge to where it resolves. */
  lemma PieceEdge(js: bool, files: seq<Entry<VirtualNode>>, scan: string -> seq<Piece>, x: string, p: Piece)
    requires FileAt(files, x).Some? && p in scan(FileAt(files, x).value.content) && Follows(js, p)
    ensures Edge(js, files, scan, x, Resolve(DirName(x), p.target))
  {
  }

  /** A file with content and an edge into `s` imports into `s`. */
  lemma EdgeInto(js: bool, files: seq<Entry<VirtualNode>>, scan: string -> seq<Piece>, x: string, y: string,
                 s: set<string>)
    requires HasContent(files, x) && Edge(js, files, scan, x, y) && y in s
    ensures ImportsInto(js, files, scan, x, s)
  {
    var p :| p in scan(FileAt(files, x).value.content) && Follows(js, p) && Resolve(DirName(x), p.target) == y;
  }

  /** Every file of the index lies in a folder whose last segment has no dot. */
  predicate UndottedFolders(files: seq<Entry<VirtualNode>>)
  {
    forall i :: 0 <= i < |files| && files[i].value.kind == File ==> UndottedDir(DirName(files[i].value.path))
  }

  lemma FoundUndotted(files: seq<Entry<VirtualNode>>, path: string)
    requires UndottedFolders(files) && FileAt(files, path).Some?
    ensures UndottedDir(DirName(path))
  {
    var i := FileIndex(files, path);
    assert files[i].value.path == path;
  }

  /** An import from the end of a chain back to its `j`-th file closes a trap. */
  lemma ChainTrap(js: bool, files: seq<Entry<VirtualNode>>, scan: string -> seq<Piece>, chain: seq<string>, j: nat)
    requires Chain(js, files, scan, chain) && j < |chain|
    requires Edge(js, files, scan, chain[|chain| - 1], chain[j])
    ensures Trap(js, files, scan, set i | j <= i < |chain| :: chain[i])
  {
    var s := set i | j <= i < |chain| :: chain[i];
    forall x | x in s
      ensures ImportsInto(js, files, scan, x, s)
    {
      var i :| j <= i < |chain| && chain[i] == x;
      ChainMemberInto(js, files, scan, chain, j, i, s);
    }
  }

  /** The `i`-th file of such a chain imports into the chain's tail from `j`. */
  lemma ChainMemberInto(js: bool, files: seq<Entry<VirtualNode>>, scan: string -> seq<Piece>, chain: seq<string>,
                        j: nat, i: nat, s: set<string>)
    requires Chain(js, files, scan, chain) && j <= i < |chain|
    requires Edge(js, files, scan, chain[|chain| - 1], chain[j])
    requires s == set k | j <= k < |chain| :: chain[k]
    ensures ImportsInto(js, files, scan, chain[i], s)
  {
    var y := if i < |chain| - 1 then chain[i + 1] else chain[j];
    assert Edge(js, files, scan, chain[i], y);
    assert y in s;
    EdgeInto(js, files, scan, chain[i], y, s);
  }

  /** A chain grows by a file with content that its last file imports. */
  lemma ChainExtend(js: bool, files: seq<Entry<VirtualNode>>, scan: string -> seq<Piece>, chain: seq<string>, r: string)
    requires Chain(js, files, scan, chain) && HasContent(files, r)
    requires chain != [] ==> Edge(js, files, scan, chain[|chain| - 1], r)
    ensures Chain(js, files, scan, chain + [r])
  {
    var c := chain + [r];
    forall i | 0 <= i < |c| - 1
      ensures Edge(js, files, scan, c[i], c[i + 1])
    {
      ExtendedEdge(js, files, scan, chain, r, i);
    }
  }

  /** Each step of the grown chain is an edge. */
  lemma ExtendedEdge(js: bool, files: seq<Entry<VirtualNode>>, scan: string -> seq<Piece>, chain: seq<string>,
                     r: string, i: nat)
    requires Chain(js, files, scan, chain) && i < |chain|
    requires Edge(js, files, scan, chain[|chain| - 1], r)
    ensures Edge(js, files, scan, (chain + [r])[i], (chain + [r])[i + 1])
  {
    var c := chain + [r];
    assert c[i] == chain[i];
    if i < |chain| - 1 {
      assert c[i + 1] == chain[i + 1];
      assert Edge(js, files, scan, chain[i], chain[i + 1]);
    } else {
      assert c[i + 1] == r;
    }
  }

  // ---------------------------------------------------------------------------
  // A run as written that enters a trap recurses without bound

  /** When the first piece does not lead into `s`, a later one does. */
  lemma TrapInRest(js: bool, s: set<string>, ps: seq<Piece>, base: string)
    requires exists p :: p in ps && Follows(js, p) && Resolve(base, p.target) in s
    requires !(Follows(js, ps[0]) && Resolve(base, ps[0].target) in s)
    ensures exists p :: p in ps[1..] && Follows(js, p) && Resolve(base, p.target) in s
  {
    var p :| p in ps && Follows(js, p) && Resolve(base, p.target) in s;
    var i :| 0 <= i < |ps| && ps[i] == p;
    assert ps[1..][i - 1] == p;
  }

  /** The CSS transformer on a text with an import into a trap runs out of fuel. */
  lemma {:induction false} CssTrapStuck(fuel: nat, s: set<string>, ps: seq<Piece>, base: string,
                                        files: seq<Entry<VirtualNode>>, scan: string -> seq<Piece>, st: Render)
    requires Trap(false, files, scan, s)
    requires exists p :: p in ps && Follows(false, p) && Resolve(base, p.target) in s
    ensures CssImports(fuel, ps, base, files, scan, st).None?
    decreases fuel, |ps|
  {
    var p0 := ps[0];
    if Follows(false, p0) && Resolve(base, p0.target) in s {
      CssTrapEnter(fuel, s, p0, base, files, scan, st);
    } else {
      TrapInRest(false, s, ps, base);
      match CssImport(fuel, p0, base, files, scan, st)
      case None =>
      case Some((_, st1)) =>
        CssTrapStuck(fuel, s, ps[1..], base, files, scan, st1);
    }
  }

  /** An import into a trap runs out of fuel. */
  lemma {:induction false} CssTrapEnter(fuel: nat, s: set<string>, p: Piece, base: string,
                                        files: seq<Entry<VirtualNode>>, scan: string -> seq<Piece>, st: Render)
    requires Trap(false, files, scan, s) && Follows(false, p) && Resolve(base, p.target) in s
    ensures CssImport(fuel, p, base, files, scan, st).None?
    decreases fuel, 0
  {
    var r := Resolve(base, p.target);
    assert ImportsInto(false, files, scan, r, s);
    var qs := scan(FileAt(files, r).value.content);
    var q :| q in qs && Follows(false, q) && Resolve(DirName(r), q.target) in s;
    forall f: nat | f < fuel
      ensures CssImports(f, qs, DirName(r), files, scan, st).None?
    {
      CssTrapStuck(f, s, qs, DirName(r), files, scan, st);
    }
    CssImportStuck(fuel, p, base, r, files, scan, st);
  }

  /** The JS transformer on a text with a relative import into a trap none of whose files
      is memoised runs out of fuel: a file of the trap is memoised only once its own run
      ends, and none does. */
  lemma {:induction false} JsTrapStuck(fuel: nat, s: set<string>, ps: seq<Piece>, base: string,
                                       files: seq<Entry<VirtualNode>>, scan: string -> seq<Piece>, st: Render)
    requires Trap(true, files, scan, s) && forall x :: x in s ==> x !in st.processed
    requires exists p :: p in ps && Follows(true, p) && Resolve(base, p.target) in s
    ensures JsImports(fuel, ps, base, files, scan, st).None?
    decreases fuel, |ps| + 1
  {
    var p0 := ps[0];
    if Follows(true, p0) && Resolve(base, p0.target) in s {
      JsTrapEnter(fuel, s, p0, base, files, scan, st);
    } else {
      TrapInRest(true, s, ps, base);
      JsKeepsOut(fuel, p0, base, files, scan, s, st);
      match JsImport(fuel, p0, base, files, scan, st)
      case None =>
      case Some((_, st1)) =>
        JsTrapStuck(fuel, s, ps[1..], base, files, scan, st1);
    }
  }

  /** A relative import into a trap none of whose files is memoised runs out of fuel. */
  lemma {:induction false} JsTrapEnter(fuel: nat, s: set<string>, p: Piece, base: string,
                                       files: seq<Entry<VirtualNode>>, scan: string -> seq<Piece>, st: Render)
    requires Trap(true, files, scan, s) && forall x :: x in s ==> x !in st.processed
    requires Follows(true, p) && Resolve(base, p.target) in s
    ensures JsImport(fuel, p, base, files, scan, st).None?
    decreases fuel, 0
  {
    var r := Resolve(base, p.target);
    assert ImportsInto(true, files, scan, r, s);
    var qs := scan(FileAt(files, r).value.content);
    var q :| q in qs && Follows(true, q) && Resolve(DirName(r), q.target) in s;
    forall f: nat | f < fuel
      ensures JsImports(f, qs, DirName(r), files, scan, st).None?
    {
      JsTrapStuck(f, s, qs, DirName(r), files, scan, st);
    }
    JsImportStuck(fuel, p, base, r, files, scan, st);
  }

  /** A JS import whose run ends memoises no file of a trap that was not memoised before. */
  lemma {:induction false} JsKeepsOut(fuel: nat, p: Piece, base: string, files: seq<Entry<VirtualNode>>,
                                      scan: string -> seq<Piece>, s: set<string>, st: Render)
    requires Trap(true, files, scan, s) && forall x :: x in s ==> x !in st.processed
    ensures var aw := JsImport(fuel, p, base, files, scan, st);
      aw.Some? ==> forall x :: x in s ==> x !in aw.value.1.processed
    decreases fuel, 1
  {
    if Follows(true, p) {
      var r := Resolve(base, p.target);
      if r in st.processed || !HasContent(files, r) {
        JsImportPlain(fuel, p, base, files, scan, st);
      } else if fuel == 0 {
        JsImportStuck(fuel, p, base, r, files, scan, st);
      } else if r in s {
        JsTrapEnter(fuel, s, p, base, files, scan, st);
      } else {
        forall f: nat | f < fuel
          ensures var sub := JsImports(f, scan(FileAt(files, r).value.content), DirName(r), files, scan, st);
            sub.Some? ==> forall x :: x in s ==> x !in sub.value.1.processed
        {
          JsKeepsOutAll(f, scan(FileAt(files, r).value.content), DirName(r), files, scan, s, st);
        }
        JsKeepsOutEnter(fuel, p, base, files, scan, s, st);
      }
    }
  }

  /** Materialising a file outside the trap, after a run that kept the trap out of the
      memo, keeps it out. */
  lemma JsKeepsOutEnter(fuel: nat, p: Piece, base: string, files: seq<Entry<VirtualNode>>,
                        scan: string -> seq<Piece>, s: set<string>, st: Render)
    requires Follows(true, p) && fuel > 0
    requires var resolved := Resolve(base, p.target); resolved !in st.processed && HasContent(files, resolved) && resolved !in s
    requires var resolved := Resolve(base, p.target);
      var sub := JsImports(fuel - 1, scan(FileAt(files, resolved).value.content), DirName(resolved), files, scan, st);
      sub.Some? ==> forall x :: x in s ==> x !in sub.value.1.processed
    ensures var aw := JsImport(fuel, p, base, files, scan, st);
      aw.Some? ==> forall x :: x in s ==> x !in aw.value.1.processed
  {
    JsImportEntersAsWritten(fuel, p, base, files, scan, st);
  }

  lemma {:induction false} JsKeepsOutAll(fuel: nat, ps: seq<Piece>, base: string, files: seq<Entry<VirtualNode>>,
                                         scan: string -> seq<Piece>, s: set<string>, st: Render)
    requires Trap(true, files, scan, s) && forall x :: x in s ==> x !in st.processed
    ensures var aw := JsImports(fuel, ps, base, files, scan, st);
      aw.Some? ==> forall x :: x in s ==> x !in aw.value.1.processed
    decreases fuel, |ps| + 1
  {
    if ps != [] {
      JsKeepsOut(fuel, ps[0], base, files, scan, s, st);
      match JsImport(fuel, ps[0], base, files, scan, st)
      case None =>
      case Some((_, st1)) =>
        JsKeepsOutAll(fuel, ps[1..], base, files, scan, s, st1);
    }
  }

  // ---------------------------------------------------------------------------
  // A run as written that ends agrees with the corrected engine

  /** The corrected engine's invariant along an import chain: the files on the chain are
      exactly those in progress, and the pieces come from the chain's last file, resolved
      against its folder. */
  ghost predicate OnChain(js: bool, files: seq<Entry<VirtualNode>>, scan: string -> seq<Piece>,
                          chain: seq<string>, active: set<string>, base: string, ps: seq<Piece>)
  {
    Chain(js, files, scan, chain) && (forall x :: x in active <==> x in chain) &&
    (chain != [] ==> var last := chain[|chain| - 1];
      base == DirName(last) && forall p :: p in ps ==> p in scan(FileAt(files, last).value.content))
  }

  /** An import back onto the chain closes a trap, so the run as written runs out of fuel. */
  lemma CssCutStuck(fuel: nat, p: Piece, base: string, files: seq<Entry<VirtualNode>>,
                    scan: string -> seq<Piece>, chain: seq<string>, active: set<string>, st: Render)
    requires OnChain(false, files, scan, chain, active, base, [p])
    requires p.Import? && Resolve(base, p.target) in active
    ensures CssImport(fuel, p, base, files, scan, st).None?
  {
    var j :| 0 <= j < |chain| && chain[j] == Resolve(base, p.target);
    PieceEdge(false, files, scan, chain[|chain| - 1], p);
    ChainTrap(false, files, scan, chain, j);
    CssTrapEnter(fuel, set i | j <= i < |chain| :: chain[i], p, base, files, scan, st);
  }

  /** Entering a file off the chain extends the chain by it. */
  lemma OnChainEnter(js: bool, p: Piece, base: string, files: seq<Entry<VirtualNode>>,
                     scan: string -> seq<Piece>, chain: seq<string>, active: set<string>)
    requires OnChain(js, files, scan, chain, active, base, [p]) && Follows(js, p)
    requires var r := Resolve(base, p.target); HasContent(files, r) && r !in active
    ensures var r := Resolve(base, p.target);
      OnChain(js, files, scan, chain + [r], active + {r}, DirName(r), scan(FileAt(files, r).value.content))
  {
    var r := Resolve(base, p.target);
    if chain != [] {
      PieceEdge(js, files, scan, chain[|chain| - 1], p);
    }
    ChainExtend(js, files, scan, chain, r);
  }

  /** Whenever the CSS transformer as written ends, the corrected one, with the files of
      the import chain in progress, gives the same text and state. */
  lemma {:induction false} CssAgree(fuel: nat, ps: seq<Piece>, base: string, files: seq<Entry<VirtualNode>>,
                                    scan: string -> seq<Piece>, chain: seq<string>, active: set<string>, st: Render)
    requires UndottedFolders(files) && UndottedDir(base) && OnChain(false, files, scan, chain, active, base, ps)
    ensures var aw := CssImports(fuel, ps, base, files, scan, st);
      aw.Some? ==> PreviewEngine.CssImports(ps, base, files, scan, active, st) == aw.value
    decreases fuel, |ps| + 1
  {
    if ps != [] {
      assert OnChain(false, files, scan, chain, active, base, [ps[0]]);
      CssAgreeOne(fuel, ps[0], base, files, scan, chain, active, st);
      match CssImport(fuel, ps[0], base, files, scan, st)
      case None =>
      case Some((_, st1)) =>
        assert OnChain(false, files, scan, chain, active, base, ps[1..]);
        CssAgree(fuel, ps[1..], base, files, scan, chain, active, st1);
    }
  }

  lemma {:induction false} CssAgreeOne(fuel: nat, p: Piece, base: string, files: seq<Entry<VirtualNode>>,
                                       scan: string -> seq<Piece>, chain: seq<string>, active: set<string>, st: Render)
    requires UndottedFolders(files) && UndottedDir(base) && OnChain(false, files, scan, chain, active, base, [p])
    ensures var aw := CssImport(fuel, p, base, files, scan, st);
      aw.Some? ==> PreviewEngine.CssImport(p, base, files, scan, active, st) == aw.value
    decreases fuel, 1
  {
    if p.Import? {
      var r := Resolve(base, p.target);
      ResolveInDirAgrees(base, p.target);
      if !HasContent(files, r) {
        CssImportPlain(fuel, p, base, files, scan, st);
      } else if r in active {
        CssCutStuck(fuel, p, base, files, scan, chain, active, st);
      } else if fuel == 0 {
        CssImportStuck(fuel, p, base, r, files, scan, st);
      } else {
        CssEnterAgrees(fuel, p, base, files, scan, chain, active, st);
      }
    }
  }

  /** Entering a file off the chain: both transformers recurse into it and materialise it. */
  lemma {:induction false} CssEnterAgrees(fuel: nat, p: Piece, base: string, files: seq<Entry<VirtualNode>>,
                                          scan: string -> seq<Piece>, chain: seq<string>, active: set<string>,
                                          st: Render)
    requires UndottedFolders(files) && UndottedDir(base) && OnChain(false, files, scan, chain, active, base, [p])
    requires p.Import? && fuel > 0
    requires var r := Resolve(base, p.target); HasContent(files, r) && r !in active
    ensures var aw := CssImport(fuel, p, base, files, scan, st);
      aw.Some? ==> PreviewEngine.CssImport(p, base, files, scan, active, st) == aw.value
    decreases fuel, 0
  {
    var r := Resolve(base, p.target);
    ResolveInDirAgrees(base, p.target);
    FoundUndotted(files, r);
    OnChainEnter(false, p, base, files, scan, chain, active);
    forall f: nat | f < fuel
      ensures var sub := CssImports(f, scan(FileAt(files, r).value.content), DirName(r), files, scan, st);
        sub.Some? ==>
          PreviewEngine.CssImports(scan(FileAt(files, r).value.content), DirName(r), files, scan, active + {r}, st) == sub.value
    {
      CssAgree(f, scan(FileAt(files, r).value.content), DirName(r), files, scan, chain + [r], active + {r}, st);
    }
    CssEnterCombine(fuel, p, base, files, scan, active, st);
  }

  /** The step of `CssEnterAgrees` once the recursion into the file agrees. */
  lemma CssEnterCombine(fuel: nat, p: Piece, base: string, files: seq<Entry<VirtualNode>>,
                        scan: string -> seq<Piece>, active: set<string>, st: Render)
    requires UndottedDir(base) && p.Import? && fuel > 0
    requires HasContent(files, Resolve(base, p.target)) && Resolve(base, p.target) !in active
    requires var r := Resolve(base, p.target);
      var sub := CssImports(fuel - 1, scan(FileAt(files, r).value.content), DirName(r), files, scan, st);
      sub.Some? ==>
        PreviewEngine.CssImports(scan(FileAt(files, r).value.content), DirName(r), files, scan, active + {r}, st)
          == sub.value
    ensures var aw := CssImport(fuel, p, base, files, scan, st);
      aw.Some? ==> PreviewEngine.CssImport(p, base, files, scan, active, st) == aw.value
  {
    ResolveInDirAgrees(base, p.target);
    CssImportEnters(p, base, files, scan, active, st);
    CssImportEntersAsWritten(fuel, p, base, files, scan, st);
  }

  /** An import back onto the chain, none of whose files is memoised, closes a trap. */
  lemma JsCutStuck(fuel: nat, p: Piece, base: string, files: seq<Entry<VirtualNode>>,
                   scan: string -> seq<Piece>, chain: seq<string>, active: set<string>, st: Render)
    requires OnChain(true, files, scan, chain, active, base, [p]) && forall x :: x in chain ==> x !in st.processed
    requires Follows(true, p) && Resolve(base, p.target) in active
    ensures JsImport(fuel, p, base, files, scan, st).None?
  {
    var j :| 0 <= j < |chain| && chain[j] == Resolve(base, p.target);
    PieceEdge(true, files, scan, chain[|chain| - 1], p);
    ChainTrap(true, files, scan, chain, j);
    JsTrapEnter(fuel, set i | j <= i < |chain| :: chain[i], p, base, files, scan, st);
  }

  /** A JS piece the transformer leaves as it is reads the same in both transformers. */
  lemma JsPlainAgrees(fuel: nat, p: Piece, base: string, files: seq<Entry<VirtualNode>>,
                      scan: string -> seq<Piece>, active: set<string>, st: Render)
    requires UndottedDir(base)
    requires Follows(true, p) ==>
      var resolved := Resolve(base, p.target); resolved in st.processed || !HasContent(files, resolved)
    ensures var aw := JsImport(fuel, p, base, files, scan, st);
      aw.Some? && PreviewEngine.JsImport(p, base, files, scan, active, st) == aw.value
  {
    if p.Import? {
      ResolveInDirAgrees(base, p.target);
    }
  }

  /** Whenever the JS transformer as written ends, the corrected one, with the files of the
      import chain in progress and none of them memoised, gives the same text and state. */
  lemma {:induction false} JsAgree(fuel: nat, ps: seq<Piece>, base: string, files: seq<Entry<VirtualNode>>,
                                   scan: string -> seq<Piece>, chain: seq<string>, active: set<string>, st: Render)
    requires UndottedFolders(files) && UndottedDir(base) && MemoSound(st, files)
    requires OnChain(true, files, scan, chain, active, base, ps) && forall x :: x in chain ==> x !in st.processed
    ensures var aw := JsImports(fuel, ps, base, files, scan, st);
      aw.Some? ==> PreviewEngine.JsImports(ps, base, files, scan, active, st) == aw.value
    decreases fuel, |ps| + 1
  {
    if ps != [] {
      assert OnChain(true, files, scan, chain, active, base, [ps[0]]);
      JsAgreeOne(fuel, ps[0], base, files, scan, chain, active, st);
      JsImportGrows(ps[0], base, files, scan, active, st);
      match JsImport(fuel, ps[0], base, files, scan, st)
      case None =>
      case Some((_, st1)) =>
        assert OnChain(true, files, scan, chain, active, base, ps[1..]);
        JsAgree(fuel, ps[1..], base, files, scan, chain, active, st1);
    }
  }

  lemma {:induction false} JsAgreeOne(fuel: nat, p: Piece, base: string, files: seq<Entry<VirtualNode>>,
                                      scan: string -> seq<Piece>, chain: seq<string>, active: set<string>, st: Render)
    requires UndottedFolders(files) && UndottedDir(base) && MemoSound(st, files)
    requires OnChain(true, files, scan, chain, active, base, [p]) && forall x :: x in chain ==> x !in st.processed
    ensures var aw := JsImport(fuel, p, base, files, scan, st);
      aw.Some? ==> PreviewEngine.JsImport(p, base, files, scan, active, st) == aw.value
    decreases fuel, 1
  {
    if !Follows(true, p) || Resolve(base, p.target) in st.processed || !HasContent(files, Resolve(base, p.target)) {
      JsPlainAgrees(fuel, p, base, files, scan, active, st);
    } else if Resolve(base, p.target) in active {
      JsCutStuck(fuel, p, base, files, scan, chain, active, st);
    } else if fuel == 0 {
      JsImportStuck(fuel, p, base, Resolve(base, p.target), files, scan, st);
    } else {
      JsEnterAgrees(fuel, p, base, files, scan, chain, active, st);
    }
  }

  /** Entering a module off the chain and not memoised: both transformers recurse into it
      and materialise it. */
  lemma {:induction false} JsEnterAgrees(fuel: nat, p: Piece, base: string, files: seq<Entry<VirtualNode>>,
                                         scan: string -> seq<Piece>, chain: seq<string>, active: set<string>,
                                         st: Render)
    requires UndottedFolders(files) && UndottedDir(base) && MemoSound(st, files)
    requires OnChain(true, files, scan, chain, active, base, [p]) && forall x :: x in chain ==> x !in st.processed
    requires Follows(true, p) && fuel > 0
    requires var r := Resolve(base, p.target); HasContent(files, r) && r !in active && r !in st.processed
    ensures var aw := JsImport(fuel, p, base, files, scan, st);
      aw.Some? ==> PreviewEngine.JsImport(p, base, files, scan, active, st) == aw.value
    decreases fuel, 0
  {
    var r := Resolve(base, p.target);
    ResolveInDirAgrees(base, p.target);
    FoundUndotted(files, r);
    OnChainEnter(true, p, base, files, scan, chain, active);
    forall f: nat | f < fuel
      ensures var sub := JsImports(f, scan(FileAt(files, r).value.content), DirName(r), files, scan, st);
        sub.Some? ==>
          PreviewEngine.JsImports(scan(FileAt(files, r).value.content), DirName(r), files, scan, active + {r}, st) == sub.value
    {
      JsAgree(f, scan(FileAt(files, r).value.content), DirName(r), files, scan, chain + [r], active + {r}, st);
    }
    JsEnterCombine(fuel, p, base, files, scan, active, st);
  }

  /** The step of `JsEnterAgrees` once the recursion into the module agrees. */
  lemma JsEnterCombine(fuel: nat, p: Piece, base: string, files: seq<Entry<VirtualNode>>,
                       scan: string -> seq<Piece>, active: set<string>, st: Render)
    requires UndottedDir(base) && Follows(true, p) && fuel > 0
    requires var r := Resolve(base, p.target); HasContent(files, r) && r !in active && r !in st.processed
    requires var r := Resolve(base, p.target);
      var sub := JsImports(fuel - 1, scan(FileAt(files, r).value.content), DirName(r), files, scan, st);
      sub.Some? ==>
        PreviewEngine.JsImports(scan(FileAt(files, r).value.content), DirName(r), files, scan, active + {r}, st)
          == sub.value
    ensures var aw := JsImport(fuel, p, base, files, scan, st);
      aw.Some? ==> PreviewEngine.JsImport(p, base, files, scan, active, st) == aw.value
  {
    ResolveInDirAgrees(base, p.target);
    JsImportEnters(p, base, files, scan, active, st);
    JsImportEntersAsWritten(fuel, p, base, files, scan, st);
  }

  /** With an undotted page folder, the page's references resolve as the corrected engine
      resolves them. */
  lemma TargetAgrees(base: string, ref: string, files: seq<Entry<VirtualNode>>)
    requires UndottedDir(base)
    ensures Target(base, ref, files) == PreviewEngine.Target(base, ref, files)
  {
    ResolveInDirAgrees(base, ref);
  }

  /** Whenever one stylesheet link as written ends, the corrected engine gives the same
      element, dependency and state. */
  lemma LinkAgrees(fuel: nat, e: Element, base: string, files: seq<Entry<VirtualNode>>,
                   scan: string -> seq<Piece>, st: Render)
    requires UndottedFolders(files) && UndottedDir(base)
    ensures var aw := Link(fuel, e, base, files, scan, st);
      aw.Some? ==> PreviewEngine.Link(e, base, files, scan, st) == aw.value
  {
    TargetAgrees(base, if e.Stylesheet? then e.href else "", files);
    if e.Stylesheet? && Target(base, e.href, files).Some? {
      var path := Target(base, e.href, files).value;
      CssAgree(fuel, scan(FileAt(files, path).value.content), base, files, scan, [], {}, st);
    }
  }

  /** Whenever the stylesheet loop as written ends, the corrected loop gives the same
      document, dependencies and state. */
  lemma {:induction false} LinksAgree(fuel: nat, doc: seq<Element>, base: string, files: seq<Entry<VirtualNode>>,
                                      scan: string -> seq<Piece>, st: Render)
    requires UndottedFolders(files) && UndottedDir(base)
    ensures var aw := Links(fuel, doc, base, files, scan, st);
      aw.Some? ==> PreviewEngine.Links(doc, base, files, scan, st) == aw.value
  {
    if doc != [] {
      LinkAgrees(fuel, doc[0], base, files, scan, st);
      match Link(fuel, doc[0], base, files, scan, st)
      case None =>
      case Some((_, _, st1)) =>
        LinksAgree(fuel, doc[1..], base, files, scan, st1);
    }
  }

  /** Whenever one script as written ends, the corrected engine gives the same element,
      dependency and state, and the memo stays sound. */
  lemma ScriptAgrees(fuel: nat, e: Element, base: string, files: seq<Entry<VirtualNode>>,
                     scan: string -> seq<Piece>, st: Render)
    requires UndottedFolders(files) && UndottedDir(base) && MemoSound(st, files)
    ensures var aw := Script(fuel, e, base, files, scan, st);
      aw.Some? ==> PreviewEngine.Script(e, base, files, scan, st) == aw.value && MemoSound(aw.value.2, files)
  {
    TargetAgrees(base, if e.ExternalScript? then e.src else "", files);
    if e.ExternalScript? && e.isModule && Target(base, e.src, files).Some? {
      var path := Target(base, e.src, files).value;
      ModuleAgrees(fuel, scan(FileAt(files, path).value.content), base, files, scan, st);
    }
  }

  /** Whenever a module's imports as written end, the corrected engine gives the same
      code and state, and the memo stays sound. */
  lemma ModuleAgrees(fuel: nat, qs: seq<Piece>, base: string, files: seq<Entry<VirtualNode>>,
                     scan: string -> seq<Piece>, st: Render)
    requires UndottedFolders(files) && UndottedDir(base) && MemoSound(st, files)
    ensures var aw := JsImports(fuel, qs, base, files, scan, st);
      aw.Some? ==> PreviewEngine.JsImports(qs, base, files, scan, {}, st) == aw.value && MemoSound(aw.value.1, files)
  {
    JsAgree(fuel, qs, base, files, scan, [], {}, st);
    JsImportsGrow(qs, base, files, scan, {}, st);
  }

  /** Whenever the script loop as written ends, the corrected loop gives the same
      document, dependencies and state. */
  lemma {:induction false} ScriptsAgree(fuel: nat, doc: seq<Element>, base: string, files: seq<Entry<VirtualNode>>,
                                        scan: string -> seq<Piece>, st: Render)
    requires UndottedFolders(files) && UndottedDir(base) && MemoSound(st, files)
    ensures var aw := Scripts(fuel, doc, base, files, scan, st);
      aw.Some? ==> PreviewEngine.Scripts(doc, base, files, scan, st) == aw.value
  {
    if doc != [] {
      ScriptAgrees(fuel, doc[0], base, files, scan, st);
      match Script(fuel, doc[0], base, files, scan, st)
      case None =>
      case Some((_, _, st1)) =>
        ScriptsAgree(fuel, doc[1..], base, files, scan, st1);
    }
  }

  /** Whenever a render as written ends, the corrected render gives the same document,
      dependencies and state. */
  lemma PreviewAgrees(fuel: nat, doc: seq<Element>, htmlPath: string, files: seq<Entry<VirtualNode>>,
                      cssScan: string -> seq<Piece>, jsScan: string -> seq<Piece>, blobs: seq<Blob>)
    requires UndottedFolders(files) && UndottedDir(DirName(htmlPath))
    ensures var aw := Preview(fuel, doc, htmlPath, files, cssScan, jsScan, blobs);
      aw.Some? ==> PreviewEngine.Preview(doc, htmlPath, files, cssScan, jsScan, blobs) == aw.value
  {
    var base := DirName(htmlPath);
    var st0 := Render(map[], blobs);
    LinksAgree(fuel, doc, base, files, cssScan, st0);
    LinksGrow(doc, base, files, cssScan, st0);
    match Links(fuel, doc, base, files, cssScan, st0)
    case None =>
    case Some((d1, _, st1)) =>
      ScriptsAgree(fuel, d1, base, files, jsScan, st1);
  }

  /** Whenever `getAllDependencies` as written ends, its list is the corrected engine's. */
  lemma AllDependenciesAgree(fuel: nat, htmlPath: string, files: seq<Entry<VirtualNode>>,
                             parse: string -> seq<Element>, cssScan: string -> seq<Piece>,
                             jsScan: string -> seq<Piece>, blobs: seq<Blob>)
    requires UndottedFolders(files)
    ensures var aw := AllDependencies(fuel, htmlPath, files, parse, cssScan, jsScan, blobs);
      aw.Some? ==> aw.value == PreviewEngine.AllDependencies(htmlPath, files, parse, cssScan, jsScan)
  {
    var page := FileAt(files, htmlPath);
    if page.Some? && page.value.content != "" {
      FoundUndotted(files, htmlPath);
      PreviewAgrees(fuel, parse(page.value.content), htmlPath, files, cssScan, jsScan, blobs);
      PreviewDeps(parse(page.value.content), htmlPath, files, cssScan, jsScan, blobs);
    }
  }

  // ---------------------------------------------------------------------------
  // A run as written with no import back onto its chain ends

  /** No import the run can follow from `ps` leads back onto the chain: every followed
      import of a file with content resolves outside `active`, and so do the imports of
      that file, with it added to the chain, and so on down. */
  ghost predicate NoReturn(js: bool, ps: seq<Piece>, base: string, files: seq<Entry<VirtualNode>>,
                           scan: string -> seq<Piece>, active: set<string>)
    decreases |FilePaths(files) - active|, |ps|
  {
    ps != [] ==> NoReturnOne(js, ps[0], base, files, scan, active) && NoReturn(js, ps[1..], base, files, scan, active)
  }

  ghost predicate NoReturnOne(js: bool, p: Piece, base: string, files: seq<Entry<VirtualNode>>,
                              scan: string -> seq<Piece>, active: set<string>)
    decreases |FilePaths(files) - active|, 0
  {
    var r := if p.Import? then Resolve(base, p.target) else "";
    Follows(js, p) && HasContent(files, r) ==>
      r !in active &&
      (FoundPath(files, r);
       Shrink(FilePaths(files), active, r);
       NoReturn(js, scan(FileAt(files, r).value.content), DirName(r), files, scan, active + {r}))
  }

  /** The import graph is acyclic: a rank on paths drops along every followed import
      between files with content. */
  ghost predicate Ranked(js: bool, files: seq<Entry<VirtualNode>>, scan: string -> seq<Piece>, rank: string -> nat)
  {
    forall x, y {:trigger Edge(js, files, scan, x, y)} ::
      HasContent(files, x) && HasContent(files, y) && Edge(js, files, scan, x, y) ==> rank(y) < rank(x)
  }

  /** In a ranked graph, nothing below a file leads back to a chain ranked no lower. */
  lemma {:induction false} RankedNoReturn(js: bool, ps: seq<Piece>, files: seq<Entry<VirtualNode>>,
                                          scan: string -> seq<Piece>, active: set<string>,
                                          rank: string -> nat, x: string)
    requires Ranked(js, files, scan, rank) && HasContent(files, x)
    requires forall p :: p in ps ==> p in scan(FileAt(files, x).value.content)
    requires forall a :: a in active ==> rank(x) <= rank(a)
    ensures NoReturn(js, ps, DirName(x), files, scan, active)
    decreases |FilePaths(files) - active|, |ps|
  {
    if ps != [] {
      RankedNoReturnOne(js, ps[0], files, scan, active, rank, x);
      RankedNoReturn(js, ps[1..], files, scan, active, rank, x);
    }
  }

  lemma {:induction false} RankedNoReturnOne(js: bool, p: Piece, files: seq<Entry<VirtualNode>>,
                                             scan: string -> seq<Piece>, active: set<string>,
                                             rank: string -> nat, x: string)
    requires Ranked(js, files, scan, rank) && HasContent(files, x)
    requires p in scan(FileAt(files, x).value.content)
    requires forall a :: a in active ==> rank(x) <= rank(a)
    ensures NoReturnOne(js, p, DirName(x), files, scan, active)
    decreases |FilePaths(files) - active|, 0
  {
    if Follows(js, p) && HasContent(files, Resolve(DirName(x), p.target)) {
      var r := Resolve(DirName(x), p.target);
      RankDrops(js, files, scan, active, rank, x, p);
      FoundPath(files, r);
      Shrink(FilePaths(files), active, r);
      RankedNoReturn(js, scan(FileAt(files, r).value.content), files, scan, active + {r}, rank, r);
    }
  }

  /** A followed import of a ranked file leads below every file of a chain ranked no lower. */
  lemma RankDrops(js: bool, files: seq<Entry<VirtualNode>>, scan: string -> seq<Piece>, active: set<string>,
                  rank: string -> nat, x: string, p: Piece)
    requires Ranked(js, files, scan, rank) && HasContent(files, x)
    requires p in scan(FileAt(files, x).value.content) && Follows(js, p)
    requires HasContent(files, Resolve(DirName(x), p.target))
    requires forall a :: a in active ==> rank(x) <= rank(a)
    ensures var r := Resolve(DirName(x), p.target);
      r !in active && forall a :: a in active + {r} ==> rank(r) <= rank(a)
  {
    PieceEdge(js, files, scan, x, p);
  }

  /** In a ranked graph, nothing a page's stylesheet or module imports leads back onto
      the empty chain it starts from, whatever folder the page lies in. */
  lemma {:induction false} RankedTop(js: bool, ps: seq<Piece>, base: string, files: seq<Entry<VirtualNode>>,
                                     scan: string -> seq<Piece>, rank: string -> nat)
    requires Ranked(js, files, scan, rank)
    ensures NoReturn(js, ps, base, files, scan, {})
    decreases |ps|
  {
    if ps != [] {
      var p := ps[0];
      if Follows(js, p) && HasContent(files, Resolve(base, p.target)) {
        var r := Resolve(base, p.target);
        RankedNoReturn(js, scan(FileAt(files, r).value.content), files, scan, {r}, rank, r);
        assert {} + {r} == {r};
      }
      RankedTop(js, ps[1..], base, files, scan, rank);
    }
  }

  /** The CSS transformer as written ends when no import leads back onto the chain and
      the fuel exceeds the number of file paths off the chain. */
  lemma {:induction false} CssEnds(fuel: nat, ps: seq<Piece>, base: string, files: seq<Entry<VirtualNode>>,
                                   scan: string -> seq<Piece>, active: set<string>, st: Render)
    requires NoReturn(false, ps, base, files, scan, active) && fuel > |FilePaths(files) - active|
    ensures CssImports(fuel, ps, base, files, scan, st).Some?
    decreases fuel, |ps| + 1
  {
    if ps != [] {
      CssEndsOne(fuel, ps[0], base, files, scan, active, st);
      var st1 := CssImport(fuel, ps[0], base, files, scan, st).value.1;
      CssEnds(fuel, ps[1..], base, files, scan, active, st1);
    }
  }

  lemma {:induction false} CssEndsOne(fuel: nat, p: Piece, base: string, files: seq<Entry<VirtualNode>>,
                                      scan: string -> seq<Piece>, active: set<string>, st: Render)
    requires NoReturnOne(false, p, base, files, scan, active) && fuel > |FilePaths(files) - active|
    ensures CssImport(fuel, p, base, files, scan, st).Some?
    decreases fuel, 0
  {
    if p.Import? {
      var r := Resolve(base, p.target);
      if !HasContent(files, r) {
        CssImportPlain(fuel, p, base, files, scan, st);
      } else {
        FoundPath(files, r);
        Shrink(FilePaths(files), active, r);
        var qs := scan(FileAt(files, r).value.content);
        forall f: nat | |FilePaths(files) - (active + {r})| < f < fuel
          ensures CssImports(f, qs, DirName(r), files, scan, st).Some?
        {
          CssEnds(f, qs, DirName(r), files, scan, active + {r}, st);
        }
        CssImportEntersAsWritten(fuel, p, base, files, scan, st);
      }
    }
  }

  /** The JS transformer as written ends under the same conditions, whatever the memo. */
  lemma {:induction false} JsEnds(fuel: nat, ps: seq<Piece>, base: string, files: seq<Entry<VirtualNode>>,
                                  scan: string -> seq<Piece>, active: set<string>, st: Render)
    requires NoReturn(true, ps, base, files, scan, active) && fuel > |FilePaths(files) - active|
    ensures JsImports(fuel, ps, base, files, scan, st).Some?
    decreases fuel, |ps| + 1
  {
    if ps != [] {
      JsEndsOne(fuel, ps[0], base, files, scan, active, st);
      var st1 := JsImport(fuel, ps[0], base, files, scan, st).value.1;
      JsEnds(fuel, ps[1..], base, files, scan, active, st1);
    }
  }

  lemma {:induction false} JsEndsOne(fuel: nat, p: Piece, base: string, files: seq<Entry<VirtualNode>>,
                                     scan: string -> seq<Piece>, active: set<string>, st: Render)
    requires NoReturnOne(true, p, base, files, scan, active) && fuel > |FilePaths(files) - active|
    ensures JsImport(fuel, p, base, files, scan, st).Some?
    decreases fuel, 0
  {
    if !Follows(true, p) || Resolve(base, p.target) in st.processed || !HasContent(files, Resolve(base, p.target)) {
      JsImportPlain(fuel, p, base, files, scan, st);
    } else {
      var r := Resolve(base, p.target);
      FoundPath(files, r);
      Shrink(FilePaths(files), active, r);
      var qs := scan(FileAt(files, r).value.content);
      forall f: nat | |FilePaths(files) - (active + {r})| < f < fuel
        ensures JsImports(f, qs, DirName(r), files, scan, st).Some?
      {
        JsEnds(f, qs, DirName(r), files, scan, active + {r}, st);
      }
      JsImportEntersAsWritten(fuel, p, base, files, scan, st);
    }
  }

  /** The converse of `CssAgree`: with no import back onto the chain and enough fuel, the
      CSS transformer as written ends, with the corrected transformer's text and state. */
  lemma CssEndsAgree(fuel: nat, ps: seq<Piece>, base: string, files: seq<Entry<VirtualNode>>,
                     scan: string -> seq<Piece>, chain: seq<string>, active: set<string>, st: Render)
    requires UndottedFolders(files) && UndottedDir(base) && OnChain(false, files, scan, chain, active, base, ps)
    requires NoReturn(false, ps, base, files, scan, active) && fuel > |FilePaths(files) - active|
    ensures CssImports(fuel, ps, base, files, scan, st) == Some(PreviewEngine.CssImports(ps, base, files, scan, active, st))
  {
    CssEnds(fuel, ps, base, files, scan, active, st);
    CssAgree(fuel, ps, base, files, scan, chain, active, st);
  }

  /** The converse of `JsAgree`: with no import back onto the chain and enough fuel, the
      JS transformer as written ends, with the corrected transformer's code and state. */
  lemma JsEndsAgree(fuel: nat, ps: seq<Piece>, base: string, files: seq<Entry<VirtualNode>>,
                    scan: string -> seq<Piece>, chain: seq<string>, active: set<string>, st: Render)
    requires UndottedFolders(files) && UndottedDir(base) && MemoSound(st, files)
    requires OnChain(true, files, scan, chain, active, base, ps) && forall x :: x in chain ==> x !in st.processed
    requires NoReturn(true, ps, base, files, scan, active) && fuel > |FilePaths(files) - active|
    ensures JsImports(fuel, ps, base, files, scan, st) == Some(PreviewEngine.JsImports(ps, base, files, scan, active, st))
  {
    JsEnds(fuel, ps, base, files, scan, active, st);
    JsAgree(fuel, ps, base, files, scan, chain, active, st);
  }

  /** In a ranked CSS import graph, the stylesheet loop as written ends with more fuel
      than there are file paths. */
  lemma {:induction false} LinksEnd(fuel: nat, doc: seq<Element>, base: string, files: seq<Entry<VirtualNode>>,
                                    scan: string -> seq<Piece>, rank: string -> nat, st: Render)
    requires Ranked(false, files, scan, rank) && fuel > |FilePaths(files)|
    ensures Links(fuel, doc, base, files, scan, st).Some?
  {
    if doc != [] {
      LinkEnds(fuel, doc[0], base, files, scan, rank, st);
      var st1 := Link(fuel, doc[0], base, files, scan, st).value.2;
      LinksEnd(fuel, doc[1..], base, files, scan, rank, st1);
    }
  }

  lemma LinkEnds(fuel: nat, e: Element, base: string, files: seq<Entry<VirtualNode>>,
                 scan: string -> seq<Piece>, rank: string -> nat, st: Render)
    requires Ranked(false, files, scan, rank) && fuel > |FilePaths(files)|
    ensures Link(fuel, e, base, files, scan, st).Some?
  {
    if e.Stylesheet? && Target(base, e.href, files).Some? {
      var path := Target(base, e.href, files).value;
      RankedTop(false, scan(FileAt(files, path).value.content), base, files, scan, rank);
      assert FilePaths(files) - {} == FilePaths(files);
      CssEnds(fuel, scan(FileAt(files, path).value.content), base, files, scan, {}, st);
    }
  }

  /** In a ranked JS import graph, the script loop as written ends with more fuel than
      there are file paths. */
  lemma {:induction false} ScriptsEnd(fuel: nat, doc: seq<Element>, base: string, files: seq<Entry<VirtualNode>>,
                                      scan: string -> seq<Piece>, rank: string -> nat, st: Render)
    requires Ranked(true, files, scan, rank) && fuel > |FilePaths(files)|
    ensures Scripts(fuel, doc, base, files, scan, st).Some?
  {
    if doc != [] {
      ScriptEnds(fuel, doc[0], base, files, scan, rank, st);
      var st1 := Script(fuel, doc[0], base, files, scan, st).value.2;
      ScriptsEnd(fuel, doc[1..], base, files, scan, rank, st1);
    }
  }

  lemma ScriptEnds(fuel: nat, e: Element, base: string, files: seq<Entry<VirtualNode>>,
                   scan: string -> seq<Piece>, rank: string -> nat, st: Render)
    requires Ranked(true, files, scan, rank) && fuel > |FilePaths(files)|
    ensures Script(fuel, e, base, files, scan, st).Some?
  {
    if e.ExternalScript? && e.isModule && Target(base, e.src, files).Some? {
      var path := Target(base, e.src, files).value;
      RankedTop(true, scan(FileAt(files, path).value.content), base, files, scan, rank);
      assert FilePaths(files) - {} == FilePaths(files);
      JsEnds(fuel, scan(FileAt(files, path).value.content), base, files, scan, {}, st);
    }
  }

  /** The converse of `PreviewAgrees`: when the CSS and the JS import graphs are acyclic
      and no folder is dotted, `processHtmlForPreview` as written ends with more fuel than
      there are file paths, and gives the corrected render. */
  lemma PreviewEnds(fuel: nat, doc: seq<Element>, htmlPath: string, files: seq<Entry<VirtualNode>>,
                    cssScan: string -> seq<Piece>, jsScan: string -> seq<Piece>, blobs: seq<Blob>,
                    cssRank: string -> nat, jsRank: string -> nat)
    requires UndottedFolders(files) && UndottedDir(DirName(htmlPath))
    requires Ranked(false, files, cssScan, cssRank) && Ranked(true, files, jsScan, jsRank)
    requires fuel > |FilePaths(files)|
    ensures Preview(fuel, doc, htmlPath, files, cssScan, jsScan, blobs) ==
      Some(PreviewEngine.Preview(doc, htmlPath, files, cssScan, jsScan, blobs))
  {
    var base := DirName(htmlPath);
    var st0 := Render(map[], blobs);
    LinksEnd(fuel, doc, base, files, cssScan, cssRank, st0);
    var (d1, _, st1) := Links(fuel, doc, base, files, cssScan, st0).value;
    ScriptsEnd(fuel, d1, base, files, jsScan, jsRank, st1);
    PreviewAgrees(fuel, doc, htmlPath, files, cssScan, jsScan, blobs);
  }

  /** The converse of `AllDependenciesAgree`: on acyclic import graphs with no dotted
      folder, `getAllDependencies` as written ends and lists the corrected engine's files. */
  lemma AllDependenciesEnd(fuel: nat, htmlPath: string, files: seq<Entry<VirtualNode>>,
                           parse: string -> seq<Element>, cssScan: string -> seq<Piece>,
                           jsScan: string -> seq<Piece>, blobs: seq<Blob>,
                           cssRank: string -> nat, jsRank: string -> nat)
    requires UndottedFolders(files)
    requires Ranked(false, files, cssScan, cssRank) && Ranked(true, files, jsScan, jsRank)
    requires fuel > |FilePaths(files)|
    ensures AllDependencies(fuel, htmlPath, files, parse, cssScan, jsScan, blobs) ==
      Some(PreviewEngine.AllDependencies(htmlPath, files, parse, cssScan, jsScan))
  {
    var page := FileAt(files, htmlPath);
    if page.Some? && page.value.content != "" {
      FoundUndotted(files, htmlPath);
      PreviewEnds(fuel, parse(page.value.content), htmlPath, files, cssScan, jsScan, blobs, cssRank, jsRank);
      AllDependenciesAgree(fuel, htmlPath, files, parse, cssScan, jsScan, blobs);
    }
  }
}
