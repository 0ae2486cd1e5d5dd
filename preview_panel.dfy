/** The preview composer of src/components/PreviewPanel.tsx: from the files
    of a project it builds one document to render. The first html file is
    the base; the css files are injected as one style block before the first
    `</head>` and the js files as one script block before the first `</body>`
    (with fallbacks when those tags are missing). Without an html file, the
    first markdown file is shown as raw text in a fixed page; otherwise there
    is nothing to preview. */
module PreviewPanel {
  import opened Types
  import Text
  import Lists
  import FileUtils

  /** The three preview kinds `'html' | 'markdown' | 'none'`. */
  datatype PreviewType = Html | Markdown | NoPreview

  datatype Preview = Preview(previewType: PreviewType, content: string)

  /** The page a markdown file is shown in: its raw text goes between these
      two halves, inside a `<pre>` element. The first half is kept as its
      lines, joined by newlines. */
  const MarkdownPrefixLines: seq<string> := [
    "",
    "          <!DOCTYPE html>",
    "          <html>",
    "          <head>",
    "            <style>",
    "              body { font-family: -apple-system, BlinkMacSystemFont, 'Segoe UI', Roboto, sans-serif; padding: 20px; max-width: 800px; margin: 0 auto; }",
    "              h1, h2, h3, h4, h5, h6 { color: #333; }",
    "              code { background: #f4f4f4; padding: 2px 4px; border-radius: 3px; }",
    "              pre { background: #f4f4f4; padding: 10px; border-radius: 5px; overflow-x: auto; }",
    "              blockquote { border-left: 4px solid #ddd; margin: 0; padding-left: 20px; }",
    "            </style>",
    "          </head>",
    "          <body>",
    "            <pre style=\"white-space: pre-wrap; font-family: inherit;\">"
  ]
  const MarkdownPrefix: string := Text.Join(MarkdownPrefixLines, "\n")
  const MarkdownSuffix: string := "</pre>\n          </body>\n          </html>\n        "

  /** The extension that decides a file's role in the preview. */
  function Extension(f: File): string
  {
    FileUtils.GetFileExtension(f.name)
  }

  /** `files.map(f => f.content)`. */
  function Contents(files: seq<File>): seq<string>
  {
    seq(|files|, i requires 0 <= i < |files| => files[i].content)
  }

  function StyleTag(css: string): string
  {
    "<style>\n" + css + "\n</style>"
  }

  function ScriptTag(js: string): string
  {
    "<script>\n" + js + "\n</script>"
  }

  /** The css step: nothing without css files; otherwise their contents
      joined by newlines, as a style block replacing the first `</head>` by
      the block, a newline and `</head>`, or, without a `</head>`, wrapped in
      a head element in front of the document. */
  function InjectStyles(html: string, cssFiles: seq<File>): string
  {
    if |cssFiles| == 0 then html
    else
      var styleTag := StyleTag(Text.Join(Contents(cssFiles), "\n"));
      if Text.Includes(html, "</head>") then Text.ReplaceFirst(html, "</head>", styleTag + "\n</head>")
      else "<head>" + styleTag + "</head>" + html
  }

  /** The js step: nothing without js files; otherwise their contents joined
      by newlines, as a script block replacing the first `</body>` by the
      block, a newline and `</body>`, or, without a `</body>`, appended after
      a newline. */
  function InjectScripts(html: string, jsFiles: seq<File>): string
  {
    if |jsFiles| == 0 then html
    else
      var scriptTag := ScriptTag(Text.Join(Contents(jsFiles), "\n"));
      if Text.Includes(html, "</body>") then Text.ReplaceFirst(html, "</body>", scriptTag + "\n</body>")
      else html + "\n" + scriptTag
  }

  /** The html preview of a document: the css files injected first, then
      the js files into the result. */
  function HtmlPage(html: string, files: seq<File>): string
  {
    InjectScripts(InjectStyles(html, Lists.Keep(files, Extension, "css")), Lists.Keep(files, Extension, "js"))
  }

  /** The markdown preview: the raw text inside the fixed page. */
  function MarkdownPage(raw: string): string
  {
    MarkdownPrefix + raw + MarkdownSuffix
  }

  /** `generatePreview` as a function of the file list. */
  function Compose(files: seq<File>): (p: Preview)
    ensures p.previewType == Html <==> "html" in Lists.Keys(files, Extension)
    ensures p.previewType == Markdown <==>
              "html" !in Lists.Keys(files, Extension) && "md" in Lists.Keys(files, Extension)
    ensures p.previewType == NoPreview ==> p.content == ""
  {
    var htmlFile := Lists.Find(files, Extension, "html");
    if htmlFile.Some? then Preview(Html, HtmlPage(htmlFile.value.content, files))
    else
      var mdFile := Lists.Find(files, Extension, "md");
      if mdFile.Some? then Preview(Markdown, MarkdownPage(mdFile.value.content))
      else Preview(NoPreview, "")
  }

  /** With css files and a `</head>` in the document, and no `$` in the css
      (which `replace` would expand), the style block followed by a newline
      is inserted immediately before the first `</head>`, and nothing else
      changes. */
  lemma StylesBeforeHeadClose(html: string, cssFiles: seq<File>)
    requires |cssFiles| > 0
    requires forall i :: 0 <= i < |cssFiles| ==> '$' !in cssFiles[i].content
    requires Text.Includes(html, "</head>")
    ensures var at := Text.IndexOf(html, "</head>");
            InjectStyles(html, cssFiles)
            == html[..at] + StyleTag(Text.Join(Contents(cssFiles), "\n")) + "\n" + html[at..]
  {
    var css := Text.Join(Contents(cssFiles), "\n");
    Text.JoinAvoids(Contents(cssFiles), "\n", '$');
    var rep := StyleTag(css) + "\n</head>";
    assert '$' !in rep;
    Text.ReplaceFirstSplices(html, "</head>", rep);
    var at := Text.IndexOf(html, "</head>");
    Text.SplitAtOccurrence(html, "</head>", at);
  }

  /** With css files but no `</head>`, a head element holding the style block
      is put in front of the document. */
  lemma StylesWithoutHead(html: string, cssFiles: seq<File>)
    requires |cssFiles| > 0
    requires !Text.Includes(html, "</head>")
    ensures InjectStyles(html, cssFiles)
            == "<head>" + StyleTag(Text.Join(Contents(cssFiles), "\n")) + "</head>" + html
  {
  }

  /** With js files and a `</body>` in the document, and no `$` in the js,
      the script block followed by a newline is inserted immediately before
      the first `</body>`, and nothing else changes. */
  lemma ScriptsBeforeBodyClose(html: string, jsFiles: seq<File>)
    requires |jsFiles| > 0
    requires forall i :: 0 <= i < |jsFiles| ==> '$' !in jsFiles[i].content
    requires Text.Includes(html, "</body>")
    ensures var at := Text.IndexOf(html, "</body>");
            InjectScripts(html, jsFiles)
            == html[..at] + ScriptTag(Text.Join(Contents(jsFiles), "\n")) + "\n" + html[at..]
  {
    var js := Text.Join(Contents(jsFiles), "\n");
    Text.JoinAvoids(Contents(jsFiles), "\n", '$');
    var rep := ScriptTag(js) + "\n</body>";
    assert '$' !in rep;
    Text.ReplaceFirstSplices(html, "</body>", rep);
    var at := Text.IndexOf(html, "</body>");
    Text.SplitAtOccurrence(html, "</body>", at);
  }

  /** With js files but no `</body>`, the script block is appended after a
      newline. */
  lemma ScriptsWithoutBody(html: string, jsFiles: seq<File>)
    requires |jsFiles| > 0
    requires !Text.Includes(html, "</body>")
    ensures InjectScripts(html, jsFiles) == html + "\n" + ScriptTag(Text.Join(Contents(jsFiles), "\n"))
  {
  }

  /** The html preview is built from the first html file: its content, with
      the css files (in list order) and then the js files (in list order)
      injected by `HtmlPage`. */
  lemma HtmlFromFirstHtmlFile(files: seq<File>, i: nat)
    requires i < |files| && Extension(files[i]) == "html"
    requires forall j :: 0 <= j < i ==> Extension(files[j]) != "html"
    ensures Compose(files) == Preview(Html, HtmlPage(files[i].content, files))
  {
    Lists.FindFirst(files, Extension, "html", i);
    assert Lists.Find(files, Extension, "html") == Some(files[i]);
  }

  /** Without css and js files, the html preview is the first html file's
      content unchanged. */
  lemma HtmlAloneUnchanged(files: seq<File>, i: nat)
    requires i < |files| && Extension(files[i]) == "html"
    requires forall j :: 0 <= j < i ==> Extension(files[j]) != "html"
    requires "css" !in Lists.Keys(files, Extension) && "js" !in Lists.Keys(files, Extension)
    ensures Compose(files) == Preview(Html, files[i].content)
  {
    HtmlFromFirstHtmlFile(files, i);
    assert HtmlPage(files[i].content, files) == files[i].content by {
      Lists.KeepAbsent(files, Extension, "css");
      Lists.KeepAbsent(files, Extension, "js");
    }
  }

  /** Without an html file, the first markdown file's raw text is wrapped in
      the fixed page, unconverted. */
  lemma MarkdownWrapsRawText(files: seq<File>, i: nat)
    requires "html" !in Lists.Keys(files, Extension)
    requires i < |files| && Extension(files[i]) == "md"
    requires forall j :: 0 <= j < i ==> Extension(files[j]) != "md"
    ensures Compose(files) == Preview(Markdown, MarkdownPrefix + files[i].content + MarkdownSuffix)
  {
    Lists.FindFirst(files, Extension, "md", i);
  }

  /** The preview depends on the file list only through the first html file,
      the css files and the js files, and, when there is no html file, the
      first markdown file. */
  lemma ComposeBySelection(files: seq<File>, others: seq<File>)
    requires Lists.Find(files, Extension, "html") == Lists.Find(others, Extension, "html")
    requires Lists.Keep(files, Extension, "css") == Lists.Keep(others, Extension, "css")
    requires Lists.Keep(files, Extension, "js") == Lists.Keep(others, Extension, "js")
    requires Lists.Find(files, Extension, "html").None? ==>
               Lists.Find(files, Extension, "md") == Lists.Find(others, Extension, "md")
    ensures Compose(files) == Compose(others)
  {
  }

  /** Once there is an html file, a further html file added at the end does
      not change the preview. */
  lemma LaterHtmlFileIgnored(files: seq<File>, g: File)
    requires "html" in Lists.Keys(files, Extension)
    requires Extension(g) == "html"
    ensures Compose(files + [g]) == Compose(files)
  {
    Lists.FindIgnoresLater(files, [g], Extension, "html");
    Lists.KeepAppend(files, [g], Extension, "css");
    Lists.KeepAppend(files, [g], Extension, "js");
    assert Lists.Keep([g], Extension, "css") == [] && Lists.Keep([g], Extension, "js") == [];
    ComposeBySelection(files + [g], files);
  }

  /** A file whose extension is not html, css, js or md (jsx, ts, json, ...)
      never affects the preview, wherever it sits in the list. */
  lemma OtherFilesIgnored(a: seq<File>, g: File, b: seq<File>)
    requires Extension(g) !in {"html", "css", "js", "md"}
    ensures Compose(a + [g] + b) == Compose(a + b)
  {
    Lists.FindSkips(a, g, b, Extension, "html");
    Lists.FindSkips(a, g, b, Extension, "md");
    Lists.KeepSkips(a, g, b, Extension, "css");
    Lists.KeepSkips(a, g, b, Extension, "js");
    ComposeBySelection(a + [g] + b, a + b);
  }

  /** The panel's state: the composed document and its kind. */
  class Panel {
    var previewContent: string
    var previewType: PreviewType

    constructor ()
      ensures previewContent == "" && previewType == NoPreview
    {
      previewContent := "";
      previewType := NoPreview;
    }

    /** `generatePreview`: recomposes the preview from the files and stores it. */
    method GeneratePreview(files: seq<File>)
      modifies this
      ensures Preview(previewType, previewContent) == Compose(files)
    {
      var htmlFile := Lists.Find(files, Extension, "html");
      var cssFiles := Lists.Keep(files, Extension, "css");
      var jsFiles := Lists.Keep(files, Extension, "js");
      if htmlFile.Some? {
        var html := htmlFile.value.content;
        if |cssFiles| > 0 {
          var styleTag := StyleTag(Text.Join(Contents(cssFiles), "\n"));
          if Text.Includes(html, "</head>") {
            html := Text.ReplaceFirst(html, "</head>", styleTag + "\n</head>");
          } else {
            html := "<head>" + styleTag + "</head>" + html;
          }
        }
        if |jsFiles| > 0 {
          var scriptTag := ScriptTag(Text.Join(Contents(jsFiles), "\n"));
          if Text.Includes(html, "</body>") {
            html := Text.ReplaceFirst(html, "</body>", scriptTag + "\n</body>");
          } else {
            html := html + "\n" + scriptTag;
          }
        }
        previewContent := html;
        previewType := Html;
      } else {
        var mdFile := Lists.Find(files, Extension, "md");
        if mdFile.Some? {
          previewContent := MarkdownPrefix + mdFile.value.content + MarkdownSuffix;
          previewType := Markdown;
        } else {
          previewContent := "";
          previewType := NoPreview;
        }
      }
    }
  }
}
