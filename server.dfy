/** The request handler: the request path selects a markdown file under
    `content/`, whose navigation directives are expanded before it is turned
    into a document; a page that cannot be read gets a fixed 404 document. */
module Server {
  import opened Wrappers
  import opened Strings
  import opened NavListing
  import opened NavExpander
  import opened Markdown
  import opened PdfTree

  /** `req.path === "/" ? "index" : req.path.slice(1)`. */
  function PathName(path: string): (name: string)
    ensures path == "/" ==> name == "index"
    ensures path != "/" && path != "" ==> [path[0]] + name == path
    ensures path == "" ==> name == ""
  {
    if path == "/" then "index" else if path == "" then "" else path[1..]
  }

  /** The page file of a request path: `content/<pathName>.md`. */
  function ContentFile(path: string): string {
    "content/" + PathName(path) + ".md"
  }

  /** A request for a page name other than the root reads the file of that
      name, and the root reads `content/index.md`. */
  lemma ContentFileOf(name: string)
    ensures ContentFile("/") == "content/index.md"
    ensures name != [] ==> ContentFile("/" + name) == "content/" + name + ".md"
  {
    if name != [] {
      assert ("/" + name)[1..] == name;
    }
  }

  /** A generated navigation link leads back to the entry it was made from:
      requesting `/<route>/<name>` reads `content/<route>/<entry>` when the
      entry's only `.md` is its extension. */
  lemma NavLinkResolves(route: string, file: string)
    requires EndsWith(file, MarkdownExtension)
    requires forall k: nat :: k < |file| - |MarkdownExtension| ==> !OccursAt(file, MarkdownExtension, k)
    ensures ContentFile("/" + route + "/" + EntryName(file)) == "content/" + route + "/" + file
  {
    EntryNameOfMarkdownFile(file);
    var name := EntryName(file);
    var rest := route + "/" + name;
    var path := "/" + route + "/" + name;
    assert path == "/" + rest && |path| >= 2;
    assert PathName(path) == rest by { assert path[1..] == rest; }
    assert rest + MarkdownExtension == route + "/" + file by {
      assert file == name + MarkdownExtension;
    }
    assert ContentFile(path) == "content/" + (rest + MarkdownExtension);
  }

  /** The document served when the page cannot be read. */
  const NotFoundDocument := Document([Page(A4, PageStyle, [
    Text(Some(Heading1), [Str("404 - Page Not Found")]),
    Text(Some(ParagraphStyle), [Str("The requested page could not be found.")])
  ])])

  /** What the handler sends back: a rendered page, or the 404 document. */
  datatype Reply = Served(doc: Document) | NotFound(doc: Document)

  /** `app.get("*", ...)`: read the page file, expand its navigation
      directives, convert it. `readFile` is `None` when the file cannot be
      read; `lex` and `decode` are the markdown lexer and the HTML entity
      decoder. */
  method HandleRequest(path: string, rootUrl: string,
                       readFile: string -> Option<string>,
                       listDir: string -> Option<seq<string>>,
                       lex: string -> seq<Token>, decode: string -> string)
    returns (reply: Reply)
    ensures readFile(ContentFile(path)).None? ==> reply == NotFound(NotFoundDocument)
    ensures readFile(ContentFile(path)).Some? ==>
      reply == Served(MarkdownToPdf(Expand(readFile(ContentFile(path)).value, rootUrl, listDir), lex, decode))
  {
    var pathName := PathName(path);
    var filePath := "content/" + pathName + ".md";
    match readFile(filePath) {
      case None =>
        reply := NotFound(NotFoundDocument);
      case Some(markdown) =>
        var expanded := ProcessNavTags(markdown, rootUrl, listDir);
        reply := Served(MarkdownToPdf(expanded, lex, decode));
    }
  }
}
