/** `resolvePath` of src/utils/previewEngine.ts: turning an `href`, `src` or import
    specifier into an absolute path of the virtual file tree. */
module PathResolver {
  import opened Text

  // ---------------------------------------------------------------------------
  // Segments

  /** `filter(Boolean)` on a list of strings: the empty strings are dropped. */
  function NonEmpty(parts: seq<string>): (r: seq<string>)
    ensures forall p :: p in r ==> p != "" && p in parts
    ensures forall p :: p in parts && p != "" ==> p in r
  {
    if parts == [] then []
    else if parts[0] == "" then NonEmpty(parts[1..])
    else [parts[0]] + NonEmpty(parts[1..])
  }

  /** `path.split('/').filter(Boolean)`. */
  function Segments(path: string): (r: seq<string>)
    ensures forall p :: p in r ==> p != "" && '/' !in p
  {
    SplitPieces(path, '/');
    NonEmpty(Split(path, '/'))
  }

  /** Segments that a resolved path may hold: non-empty, without a slash. */
  ghost predicate Plain(stack: seq<string>) {
    forall p :: p in stack ==> p != "" && '/' !in p
  }

  /** Segments that are also neither `.` nor `..`. */
  ghost predicate Clean(stack: seq<string>) {
    Plain(stack) && forall p :: p in stack ==> p != "." && p != ".."
  }

  /** One relative segment applied to the stack: `..` pops (and does nothing on an empty
      stack), `.` is ignored, anything else is pushed. */
  function Step(stack: seq<string>, part: string): seq<string>
  {
    if part == ".." then (if stack == [] then [] else stack[..|stack| - 1])
    else if part == "." then stack
    else stack + [part]
  }

  /** The segments of a reference applied one after the other. */
  function Walk(stack: seq<string>, parts: seq<string>): seq<string>
    decreases |parts|
  {
    if parts == [] then stack else Walk(Step(stack, parts[0]), parts[1..])
  }

  /** The base's segments, without the last one when it contains a dot (a file name). */
  function BaseParts(basePath: string): seq<string>
  {
    var parts := Segments(basePath);
    if |parts| > 0 && '.' in parts[|parts| - 1] then parts[..|parts| - 1] else parts
  }

  /** A reference that is already absolute or carries a URL scheme. */
  predicate Unresolved(relativePath: string)
  {
    StartsWith(relativePath, "/") || HasScheme(relativePath)
  }

  /** The resolver as written. */
  function Resolve(basePath: string, relativePath: string): string
  {
    if Unresolved(relativePath) then relativePath
    else "/" + Join(Walk(BaseParts(basePath), Segments(relativePath)), '/')
  }

  /** `resolvePath`: the relative segments are applied to an array of base segments in a
      loop that pops and pushes. */
  method ResolvePath(basePath: string, relativePath: string) returns (r: string)
    ensures r == Resolve(basePath, relativePath)
  {
    if StartsWith(relativePath, "/") {
      return relativePath;
    }
    if HasScheme(relativePath) {
      return relativePath;
    }
    var baseParts := Segments(basePath);
    var relParts := Segments(relativePath);
    if |baseParts| > 0 && '.' in baseParts[|baseParts| - 1] {
      baseParts := baseParts[..|baseParts| - 1];
    }
    var i := 0;
    while i < |relParts|
      invariant 0 <= i <= |relParts|
      invariant Walk(baseParts, relParts[i..]) == Walk(BaseParts(basePath), relParts)
    {
      assert relParts[i..][1..] == relParts[i + 1..];
      var part := relParts[i];
      if part == ".." {
        if |baseParts| > 0 {
          baseParts := baseParts[..|baseParts| - 1];
        }
      } else if part != "." {
        baseParts := baseParts + [part];
      }
      i := i + 1;
    }
    r := "/" + Join(baseParts, '/');
  }

  // ---------------------------------------------------------------------------
  // What a resolved path looks like

  /** Walking keeps segments plain, and clean ones clean. */
  lemma {:induction false} WalkPlain(stack: seq<string>, parts: seq<string>)
    requires Plain(stack) && Plain(parts)
    ensures Plain(Walk(stack, parts))
    ensures Clean(stack) ==> Clean(Walk(stack, parts))
    decreases |parts|
  {
    if parts != [] {
      assert parts[0] in parts;
      assert forall p :: p in parts[1..] ==> p in parts;
      StepPlain(stack, parts[0]);
      WalkPlain(Step(stack, parts[0]), parts[1..]);
    }
  }

  /** One step keeps segments plain, and clean ones clean. */
  lemma StepPlain(stack: seq<string>, part: string)
    requires Plain(stack) && part != "" && '/' !in part
    ensures Plain(Step(stack, part))
    ensures Clean(stack) ==> Clean(Step(stack, part))
  {
    var s := Step(stack, part);
    assert forall p :: p in s ==> p in stack || (p == part && part != "." && part != "..");
  }

  /** Walking `p + q` is walking `p`, then `q`. */
  lemma {:induction false} WalkAppend(stack: seq<string>, p: seq<string>, q: seq<string>)
    ensures Walk(stack, p + q) == Walk(Walk(stack, p), q)
    decreases |p|
  {
    if p == [] {
      assert p + q == q;
    } else {
      assert (p + q)[0] == p[0] && (p + q)[1..] == p[1..] + q;
      WalkAppend(Step(stack, p[0]), p[1..], q);
      assert Walk(stack, p) == Walk(Step(stack, p[0]), p[1..]);
      assert Walk(stack, p + q) == Walk(Step(stack, p[0]), p[1..] + q);
    }
  }

  /** Segments without `.` and `..` are simply pushed. */
  lemma {:induction false} WalkPushes(stack: seq<string>, parts: seq<string>)
    requires Clean(parts)
    ensures Walk(stack, parts) == stack + parts
    decreases |parts|
  {
    if parts != [] {
      assert parts[0] in parts;
      assert forall p :: p in parts[1..] ==> p in parts;
      WalkPushes(stack + [parts[0]], parts[1..]);
      assert stack + [parts[0]] + parts[1..] == stack + parts;
    }
  }

  /** A walk never leaves more segments than the stack had plus the reference's. */
  lemma {:induction false} WalkLength(stack: seq<string>, parts: seq<string>)
    ensures |Walk(stack, parts)| <= |stack| + |parts|
    decreases |parts|
  {
    if parts != [] {
      WalkLength(Step(stack, parts[0]), parts[1..]);
    }
  }

  /** Joining plain segments behind a slash and splitting again gives them back. */
  lemma JoinedSegments(stack: seq<string>)
    requires Plain(stack)
    ensures Segments("/" + Join(stack, '/')) == stack
  {
    if stack == [] {
      assert "/" + Join(stack, '/') == "/";
      assert Split("/", '/') == [""] + Split("", '/');
    } else {
      var s := Join(stack, '/');
      SplitJoin(stack, '/');
      IndexOfAfterPrefix("", '/', s);
      assert "" + ['/'] + s == "/" + s;
      assert ("/" + s)[1..] == s;
      assert Split("/" + s, '/') == [""] + stack;
      NonEmptyPlain(stack);
    }
  }

  lemma {:induction false} NonEmptyPlain(stack: seq<string>)
    requires forall p :: p in stack ==> p != ""
    ensures NonEmpty([""] + stack) == stack
    ensures NonEmpty(stack) == stack
    decreases |stack|
  {
    assert ([""] + stack)[1..] == stack;
    if stack != [] {
      assert forall p :: p in stack[1..] ==> p in stack;
      assert stack[0] in stack;
      NonEmptyPlain(stack[1..]);
      assert stack == [stack[0]] + stack[1..];
    }
  }

  /** A relative reference resolves to a slash followed by its segment stack: the result's
      segments are exactly that stack, none is empty, and none is `.` or `..` when the
      base's were not. */
  lemma ResolveShape(basePath: string, relativePath: string)
    requires !Unresolved(relativePath)
    ensures var stack := Walk(BaseParts(basePath), Segments(relativePath));
      && StartsWith(Resolve(basePath, relativePath), "/")
      && Segments(Resolve(basePath, relativePath)) == stack
      && Plain(stack)
      && (Clean(BaseParts(basePath)) ==> Clean(stack))
  {
    var stack := Walk(BaseParts(basePath), Segments(relativePath));
    var base := Segments(basePath);
    assert forall p :: p in BaseParts(basePath) ==> p in base;
    WalkPlain(BaseParts(basePath), Segments(relativePath));
    JoinedSegments(stack);
  }

  /** A resolved path resolves to itself against any base. */
  lemma ResolveIdempotent(basePath: string, relativePath: string, otherBase: string)
    ensures var r := Resolve(basePath, relativePath);
      Resolve(otherBase, r) == r
  {
    if !Unresolved(relativePath) {
      ResolveShape(basePath, relativePath);
    }
  }

  /** References without `.` or `..` segments land under the base's directory. */
  lemma ResolveBelow(basePath: string, relativePath: string)
    requires !Unresolved(relativePath) && Clean(Segments(relativePath))
    ensures Resolve(basePath, relativePath) ==
      "/" + Join(BaseParts(basePath) + Segments(relativePath), '/')
  {
    WalkPushes(BaseParts(basePath), Segments(relativePath));
  }

  /** A leading `..` on an empty stack is a no-op: resolution never climbs above the root. */
  lemma UpFromRoot(parts: seq<string>)
    ensures Walk([], [".."] + parts) == Walk([], parts)
  {
    assert ([".."] + parts)[1..] == parts;
  }

  // ---------------------------------------------------------------------------
  // Directory of a path

  /** `path.substring(0, path.lastIndexOf('/')) || '/'`. */
  function DirName(path: string): (r: string)
    ensures r != ""
  {
    var i := LastIndexOf(path, '/');
    if i <= 0 then "/" else path[..i]
  }

  /** The directory of `p/last` is `p`, or the root when `p` is empty. */
  lemma DirNameOf(p: string, last: string)
    requires '/' !in last
    ensures DirName(p + "/" + last) == if p == "" then "/" else p
  {
    var s := p + "/" + last;
    assert s[|p|] == '/' && s[|p| + 1..] == last;
    assert forall k :: |p| < k < |s| ==> s[k] == last[k - |p| - 1];
    LastIndexOfUnique(s, '/', |p|);
    assert s[..|p|] == p;
  }

  /** The directory of a resolved path is the path of its parent folder (the root for a
      top-level name). */
  lemma DirNameParent(stack: seq<string>)
    requires Plain(stack) && stack != []
    ensures DirName("/" + Join(stack, '/')) == "/" + Join(stack[..|stack| - 1], '/')
  {
    var init := stack[..|stack| - 1];
    var last := stack[|stack| - 1];
    assert '/' !in last by {
      assert last in stack;
    }
    SlashJoinLast(stack);
    DirNameOf(if init == [] then "" else "/" + Join(init, '/'), last);
  }

  /** A slash-joined path is its parent's path, a slash and the last segment. */
  lemma SlashJoinLast(stack: seq<string>)
    requires stack != []
    ensures var init := stack[..|stack| - 1];
      "/" + Join(stack, '/') == (if init == [] then "" else "/" + Join(init, '/')) + "/" + stack[|stack| - 1]
  {
    JoinLast(stack);
  }

  /** Joining appends the last segment behind a separator. */
  lemma {:induction false} JoinLast(stack: seq<string>)
    requires |stack| >= 1
    ensures |stack| == 1 ==> Join(stack, '/') == stack[0]
    ensures |stack| > 1 ==>
      Join(stack, '/') == Join(stack[..|stack| - 1], '/') + ['/'] + stack[|stack| - 1]
    decreases |stack|
  {
    if |stack| > 2 {
      JoinLast(stack[1..]);
      assert stack[1..][..|stack| - 2] == stack[..|stack| - 1][1..];
    }
  }

  // ---------------------------------------------------------------------------
  // Resolution against a directory

  /** The corrected resolution against a directory: the reference is applied to the
      segments of the directory it is given, all of them kept. */
  function ResolveInDir(dir: string, relativePath: string): (r: string)
  {
    if Unresolved(relativePath) then relativePath
    else "/" + Join(Walk(Segments(dir), Segments(relativePath)), '/')
  }

  /** A directory whose last segment has no dot, which `resolvePath` keeps whole. */
  predicate UndottedDir(dir: string)
  {
    var parts := Segments(dir); parts == [] || '.' !in parts[|parts| - 1]
  }

  /** The two agree unless the directory's last segment contains a dot. */
  lemma ResolveInDirAgrees(dir: string, relativePath: string)
    requires UndottedDir(dir)
    ensures ResolveInDir(dir, relativePath) == Resolve(dir, relativePath)
  {
  }

  /** A reference resolved against the directory of a file lands in that file's folder. */
  lemma ResolveInFolder(folder: seq<string>, name: string, relativePath: string)
    requires Plain(folder + [name]) && !Unresolved(relativePath)
    ensures ResolveInDir(DirName("/" + Join(folder + [name], '/')), relativePath)
         == "/" + Join(Walk(folder, Segments(relativePath)), '/')
  {
    var stack := folder + [name];
    assert stack[..|stack| - 1] == folder;
    DirNameParent(stack);
    assert Plain(folder) by {
      assert forall p :: p in folder ==> p in stack;
    }
    JoinedSegments(folder);
  }

  /** Splitting a joined relative reference gives its segments back. */
  lemma RelativeSegments(parts: seq<string>)
    requires Plain(parts) && parts != []
    ensures Segments(Join(parts, '/')) == parts
  {
    SplitJoin(parts, '/');
    NonEmptyPlain(parts);
  }

  /** A plain name without a colon is a relative reference of one segment. */
  lemma NameReference(name: string)
    requires name != "" && '/' !in name && ':' !in name
    ensures !Unresolved(name) && Segments(name) == [name]
  {
    assert Join([name], '/') == name;
    RelativeSegments([name]);
    assert forall k :: 0 <= k < |name| ==> name[k] != ':';
  }

  /** A file plainly named `name` referenced from a page in a folder whose name contains a
      dot: the resolver as written, given the page's directory as the preview engine
      gives it, drops that folder (for `/NEVERVIEW/my.app/index.html` and `style.css`
      it yields `/NEVERVIEW/style.css`); resolving in the directory keeps it. */
  lemma DottedFolderDropped(folder: seq<string>, dotted: string, file: string, name: string)
    requires Plain(folder + [dotted, file]) && '.' in dotted
    requires name != "" && '/' !in name && ':' !in name && name != "." && name != ".."
    ensures var page := "/" + Join(folder + [dotted, file], '/');
      && Resolve(DirName(page), name) == "/" + Join(folder + [name], '/')
      && ResolveInDir(DirName(page), name) == "/" + Join(folder + [dotted, name], '/')
  {
    var stack := folder + [dotted, file];
    var dir := folder + [dotted];
    assert stack[..|stack| - 1] == dir;
    DirNameParent(stack);
    assert Plain(dir) by {
      assert forall p :: p in dir ==> p in stack;
    }
    JoinedSegments(dir);
    assert dir[..|dir| - 1] == folder;
    NameReference(name);
    assert [name][1..] == [];
    assert Walk(folder, [name]) == Step(folder, name) == folder + [name];
    assert Walk(dir, [name]) == Step(dir, name) == folder + [dotted, name];
  }

  /** `./name` against a file resolves to the sibling `name` in the file's folder (as
      `./d.css` against `/a/b/c.css` gives `/a/b/d.css`). */
  lemma ResolveSibling(folder: seq<string>, file: string, name: string)
    requires Plain(folder + [file]) && '.' in file
    requires name != "" && '/' !in name && name != "." && name != ".."
    ensures Resolve("/" + Join(folder + [file], '/'), "./" + name) == "/" + Join(folder + [name], '/')
  {
    JoinedSegments(folder + [file]);
    assert (folder + [file])[..|folder|] == folder;
    assert Join([".", name], '/') == "./" + name;
    RelativeSegments([".", name]);
    assert ("./" + name)[0] == '.';
    assert Walk(folder, [".", name]) == folder + [name] by {
      assert [".", name][1..] == [name] && [name][1..] == [];
      assert Walk(folder, [".", name]) == Walk(folder, [name]);
      assert Walk(folder, [name]) == Step(folder, name);
    }
  }

  /** `../name` against a file resolves to `name` in the folder above the file's (as
      `../d.css` against `/a/b/c.css` gives `/a/d.css`). */
  lemma ResolveUncle(folder: seq<string>, dir: string, file: string, name: string)
    requires Plain(folder + [dir, file]) && '.' in file
    requires name != "" && '/' !in name && name != "." && name != ".."
    ensures Resolve("/" + Join(folder + [dir, file], '/'), "../" + name) == "/" + Join(folder + [name], '/')
  {
    var stack := folder + [dir, file];
    JoinedSegments(stack);
    assert stack[..|stack| - 1] == folder + [dir];
    assert Join(["..", name], '/') == "../" + name;
    RelativeSegments(["..", name]);
    assert ("../" + name)[0] == '.';
    assert Step(folder + [dir], "..") == folder;
    assert Walk(folder + [dir], ["..", name]) == folder + [name] by {
      assert ["..", name][1..] == [name] && [name][1..] == [];
      assert Walk(folder + [dir], ["..", name]) == Walk(folder, [name]);
      assert Walk(folder, [name]) == Step(folder, name);
    }
  }
}
