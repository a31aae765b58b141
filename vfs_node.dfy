/** The entities of the virtual file system: nodes, tabs, languages, and the
    templates a new file starts with (src/stores/fileStore.ts). */
module VirtualNodes {
  import opened Wrappers
  import opened Text

  /** Node ids are the short random strings the store generates. */
  type Id = string

  datatype FileType = File | Folder

  datatype Language = Html | Css | JavaScript | TypeScript | Json | PlainText

  /** One node of the tree. Optional fields of the source are modelled as follows:
      a missing `content` is "", a missing `isDirty`, `isOpen` or `isExpanded` is
      false, a missing `children` map is the empty sequence, and `children` keeps
      the insertion order of the source's `Map`. */
  datatype VirtualNode = VirtualNode(
    id: Id,
    name: string,
    kind: FileType,
    path: string,
    content: string,
    language: Option<Language>,
    isDirty: bool,
    isOpen: bool,
    isExpanded: bool,
    children: seq<VirtualNode>,
    parentId: Option<Id>)

  /** What the editor's tab bar shows for one open file. */
  datatype TabInfo = TabInfo(id: Id, name: string, path: string, language: Option<Language>, isDirty: bool)

  /** The language that a lower-cased extension selects. */
  function LanguageOfExtension(ext: string): Language
  {
    if ext == "html" || ext == "htm" then Html
    else if ext == "css" then Css
    else if ext == "js" then JavaScript
    else if ext == "ts" then TypeScript
    else if ext == "json" then Json
    else PlainText
  }

  /** The language is chosen by the text after the last dot of the name, case-insensitively;
      a name without a dot is its own extension. */
  function GetLanguageFromExtension(filename: string): (r: Language)
    ensures var ext := ToLower(AfterLast(filename, '.'));
      && (r == Html <==> ext == "html" || ext == "htm")
      && (r == Css <==> ext == "css")
      && (r == JavaScript <==> ext == "js")
      && (r == TypeScript <==> ext == "ts")
      && (r == Json <==> ext == "json")
      && (r == PlainText <==> ext !in {"html", "htm", "css", "js", "ts", "json"})
  {
    var parts := Split(filename, '.');
    LastOfSplit(filename, '.');
    LanguageOfExtension(ToLower(Last(parts)))
  }

  /** The lines of a template joined by line breaks. */
  function Lines(ls: seq<string>): (r: string)
    ensures ls != [] ==> |r| >= |ls[0]|
  {
    if ls == [] then "" else if |ls| == 1 then ls[0] else ls[0] + "\n" + Lines(ls[1..])
  }

  const HtmlTemplate: seq<string> := [
    "<!DOCTYPE html>",
    "<html lang=\"en\">",
    "<head>",
    "    <meta charset=\"UTF-8\">",
    "    <meta name=\"viewport\" content=\"width=device-width, initial-scale=1.0\">",
    "    <title>Preview</title>",
    "    <style>",
    "        body {",
    "            font-family: system-ui, -apple-system, sans-serif;",
    "            max-width: 800px;",
    "            margin: 0 auto;",
    "            padding: 2rem;",
    "            line-height: 1.6;",
    "        }",
    "        h1 { color: #333; }",
    "        .card {",
    "            background: #f5f5f5;",
    "            padding: 1.5rem;",
    "            border-radius: 8px;",
    "            margin: 1rem 0;",
    "        }",
    "    </style>",
    "</head>",
    "<body>",
    "    <h1>Hello World!</h1>",
    "    <div class=\"card\">",
    "        <p>Edit the HTML code on the left to see changes here.</p>",
    "    </div>",
    "</body>",
    "</html>"]

  const CssTemplate: seq<string> := [
    "/* Add your CSS styles here */",
    "",
    "body {",
    "  margin: 0;",
    "  padding: 0;",
    "}"]

  const JsTemplate: seq<string> := [
    "// Add your JavaScript code here",
    "",
    "console.log('Hello from NeverView!');"]

  /** The seed page's content. */
  const DefaultHtml: string := Lines(HtmlTemplate)

  /** The lines of the template a new file of the given language starts from. */
  function TemplateLines(language: Language): seq<string>
  {
    match language
    case Html => HtmlTemplate
    case Css => CssTemplate
    case JavaScript => JsTemplate
    case _ => []
  }

  /** HTML, CSS and JavaScript files start from a template; every other language starts empty. */
  function GetDefaultContent(language: Language): (r: string)
  {
    Lines(TemplateLines(language))
  }

  /** Only HTML, CSS and JavaScript files start with a template; every other language
      starts empty. */
  lemma DefaultContentEmpty(language: Language)
    ensures GetDefaultContent(language) == "" <==> language !in {Html, Css, JavaScript}
  {
    assert HtmlTemplate[0] == "<!DOCTYPE html>";
    assert CssTemplate[0] == "/* Add your CSS styles here */";
    assert JsTemplate[0] == "// Add your JavaScript code here";
  }
}
