# md-pdf-server, modelled in Dafny

md-pdf-server serves the markdown pages of a `content/` directory as PDF
documents. A request path selects a page file. The page's navigation
directives `<nav route="R"/>` are replaced by markdown links to the pages in
the directory `content/R`. The markdown tokens then become a React-PDF
document tree: headings, paragraphs with links, and bulleted lists. A page
that cannot be read gets a fixed "404" document.

This project models that core as Dafny definitions and proves properties of
them:

- `strings.dfy` (`Strings`): the JavaScript string operations the server
  relies on. These are `indexOf`, `replace` with a string pattern (leftmost
  occurrence only), `endsWith`, a global one-character `replace`, `join("")`
  and ASCII upper-casing.
- `match_all.dfy` (`MatchAll`): the global left-to-right scan that
  `matchAll` performs with a regular expression flagged `g`, for any matcher
  anchored at the front of a text. After a match the scan resumes at its
  end; where nothing matches it moves on by one character. The scan is
  proved to report matches in order, without overlap, and to miss none.
- `nav_directive.dfy` (`NavDirective`): the regular expression
  `<nav\s+route="([^"]+)"\s*\/?>` as a small automaton. It includes the exact
  ECMAScript `\s` character set. The automaton is proved to accept exactly
  the texts of the grammar, and the scan of `MatchAll` is run with it.
- `nav_listing.dfy` (`NavListing`): the link markdown generated from a
  directory listing. The model keeps the filter on `.md`, the removal of the
  first `.md`, the title built from the name, and one line per entry.
- `nav_expander.dfy` (`NavExpander`): `processNavTags`. It is an imperative
  loop over the matches of the original page that rewrites a running result
  string. The loop is proved against a fold, and lemmas are proved about that
  fold.
- `markdown.dfy` (`Markdown`): the token shapes of the markdown lexer that the
  document builder reads.
- `pdf_tree.dfy` (`PdfTree`): `MarkdownToPDF`, the total map from tokens to a
  styled tree of `Text`, `Link` and `View` elements on one LETTER page.
- `server.dfy` (`Server`): path selection, the page file name, the 404
  document and the request handler.

These are parameters of the model: the directory listing, the file read, the
markdown lexer and the HTML-entity decoder. A failed read or listing is
`None`.

Where the code behaves differently from what a reader might expect, the
model follows the code:

- The entry name removes the first `.md` anywhere in the file name, not the
  extension.
- A leading `-` of a name survives into the title.
- Each match replaces the first remaining occurrence of its matched text in
  the running result, not the text at the match's own position. When an
  earlier replacement contains the text of a later directive, that copy is
  replaced and the directive itself stays in the page
  (`NavExpander.LaterDirectiveReplacedElsewhere`).

## Model

| member | source | states |
|---|---|---|
| Strings.IndexFrom | server.tsx:154 | the index found is an occurrence at or after the start, and no earlier one exists from the start on; `None` means there is no occurrence from the start on |
| Strings.ReplaceFirst | server.tsx:154 | only the leftmost occurrence of the pattern is replaced; the text is unchanged when the pattern does not occur |
| Strings.ReplaceChar | server.tsx:147 | the length is kept; every occurrence of the character is replaced, and every other character is kept |
| Strings.ReplaceFirstAfter | server.tsx:154 | when no occurrence of the pattern starts inside the text before a given occurrence, that occurrence is the one replaced, and the text around it is kept |
| Strings.ConcatAppend | server.tsx:152 | joining with no separator distributes over concatenation of the parts |
| Strings.UpperCase | server.tsx:147 | lower-case ASCII letters become their upper-case letter, and every other character is unchanged |
| NavDirective.MatchComplete | server.tsx:131 | every text of the grammar (`<nav`, whitespace, `route="`, non-empty route without quotes, `"`, optional whitespace, optional `/`, `>`) is matched whatever follows it; the match spans exactly that text and captures its route |
| NavDirective.MatchSound | server.tsx:131 | every match is such a grammar text, with a well-formed route and whitespace, and the route captured is the route of that text |
| NavDirective.MatchLocal | server.tsx:131 | a match depends only on the characters it spans |
| NavDirective.SelfClosingExample | server.tsx:131 | `<nav route="guides"/>` followed by more text matches its 21 characters and captures `guides` |
| NavDirective.OpenTagExample | server.tsx:131 | `<nav \t route="a/b" >` matches in full, with mixed whitespace and no slash, and captures `a/b` |
| MatchAll.ScanOrdered | server.tsx:132 | the matches reported lie at or after the start of the scan, in order, and do not overlap |
| MatchAll.ScanFound | server.tsx:132 | every match reported is a match of the matcher at its own position, spanning the text it reports |
| MatchAll.ScanLead | server.tsx:132 | no match starts before the first match reported; when none is reported, no match starts anywhere |
| MatchAll.ScanTail | server.tsx:132 | no match starts after the end of the last match reported |
| MatchAll.ScanGaps | server.tsx:132 | no match starts between the end of a match reported and the start of the next |
| MatchAll.ScanComplete | server.tsx:132 | the scan misses nothing: no match starts before the first match reported, between two consecutive ones, or after the last |
| NavDirective.Directives | server.tsx:132 | all directives of the page are matches at their positions, in order and without overlap |
| NavDirective.DirectivesEmpty | server.tsx:132-135 | the scan reports no directive exactly when the pattern matches nowhere in the page |
| NavDirective.FirstDirectiveIsFirstOccurrence | server.tsx:132-154 | the text of the first directive does not occur earlier in the page |
| NavListing.EntryName | server.tsx:145 | the name is the entry with its first `.md` removed, wherever that is; an entry without `.md` is kept unchanged |
| NavListing.EntryNameOfMarkdownFile | server.tsx:145 | for an entry whose only `.md` is its extension, the name is the entry without the extension, and adding the extension back gives the entry |
| NavListing.InnerExtensionExample | server.tsx:145 | `x.mdfoo.md` is named `xfoo.md`: the inner `.md` is removed, not the extension |
| NavListing.Title | server.tsx:146-147 | the title is as long as the name; its first character is the name's first character upper-cased, so a leading `-` stays; after that, every `-` is a space and every other character is kept |
| NavListing.KeepMarkdown | server.tsx:143 | the kept entries are exactly the entries that end in `.md` |
| NavListing.KeepMarkdownAppend | server.tsx:143 | the filter keeps listing order: it distributes over concatenation of listings |
| NavListing.EntryNameWithoutDot | server.tsx:145 | an entry `name.md` whose name holds no `.` is named `name` |
| NavListing.TitleUnchanged | server.tsx:146-147 | a name without `-` that does not start with a lower-case letter is its own title |
| NavListing.NavLinksPerEntry | server.tsx:142-152 | the links of a listing are the links of its entries taken one at a time, joined in listing order with no separator |
| NavListing.NavLinksSingle | server.tsx:142-152 | one entry gives its link line and `\n\n` if it ends in `.md`, and nothing otherwise |
| NavListing.NavLinksAppend | server.tsx:142-152 | the links of a listing are the links of its parts, in order, joined with no separator |
| NavListing.LinkLineOfMarkdownFile | server.tsx:149 | the link of an entry whose only `.md` is its extension is `[title](rootUrl/route/name)`, where name is the entry without the extension |
| NavExpander.ProcessNavTags | server.tsx:130-162 | the loop computes the expansion: each match of the original page, in order, replaces the first remaining occurrence of its text in the running result; a page without matches is returned unchanged |
| NavExpander.FirstDirectiveInPlace | server.tsx:133-135 | the first directive is replaced where it stands, and the loop goes on with the remaining directives |
| NavExpander.FailedListingIsolated | server.tsx:155-158 | when the listing of the first directive's route fails, that directive becomes exactly `Error loading navigation`, and the remaining directives are still processed |
| NavExpander.SingleDirective | server.tsx:154 | a page with one directive keeps the text around it, and the directive becomes its replacement |
| NavExpander.TwoDirectivesExample | server.tsx:131-132 | in `<nav route="r"/> <nav route="a">` the scan finds the self-closing directive at 0 and the open tag at 17 |
| NavExpander.LaterDirectiveReplacedElsewhere | server.tsx:132-158 | when the listing of `r` holds one file named `<nav route="a">.md` and `a` cannot be listed, the error text lands inside the first link's title, and `<nav route="a">` stays at the end of the expanded page |
| PdfTree.ItemRow | server.tsx:105-116 | a list row holds two elements, a bullet `• ` Text and then the content. The content is a Link exactly when the item's first inline token is a link; that Link targets the token's `href` and shows its decoded text. Otherwise the content is an unstyled Text showing the item's decoded text |
| PdfTree.Block | server.tsx:68-121 | only the ignored token types render to nothing. A heading has role heading1 exactly when its depth is 1, otherwise heading2. A paragraph with inline tokens has one child per token, in order. A paragraph without them shows its decoded text. A list is an unstyled View with one row per item, in order |
| PdfTree.Rendered | server.tsx:120-121 | the rendered tokens are exactly the heading, paragraph and list tokens of the input |
| PdfTree.RenderedAppend | server.tsx:120-121 | the selection of rendered tokens keeps their order: it distributes over concatenation of token sequences |
| PdfTree.BlocksOneToOne | server.tsx:68-123 | the page has exactly one element per heading, paragraph or list token, in input order, and none for any other token |
| PdfTree.BlocksAppend | server.tsx:68-123 | rendering distributes over concatenation of token sequences |
| PdfTree.PageOfMarkdown | server.tsx:57-127 | the document is one LETTER page with the page style, showing one element per rendered token of the lexed markdown, in order |
| PdfTree.ItemRowFirstOnly | server.tsx:108-111 | inline tokens of a list item after the first are never consulted |
| PdfTree.DecodeItemBody | server.tsx:108-114 | a row's content decodes the item's text or link text once, and never the link target |
| PdfTree.DecodeOnce | server.tsx:61-63 | decoding is applied exactly once to each displayed string of a token, and never to link targets or the bullet |
| Server.PathName | server.tsx:166 | `/` selects `index`; any other path selects the path without its first character |
| Server.ContentFileOf | server.tsx:166-167 | `/` reads `content/index.md`; `/name` reads `content/name.md` |
| Server.NavLinkResolves | server.tsx:149-167 | requesting the path of a generated link, `/route/name`, reads `content/route/` followed by the original entry, when the entry's only `.md` is its extension |
| Server.HandleRequest | server.tsx:164-199 | an unreadable page gives the 404 document (one A4 page, a heading1 and a paragraph); a readable page gives the document of its expanded markdown |

## Left out

- HTTP: Express routing, the listener, `PORT`, content types, status codes and
  stream piping are left out. The handler returns `Served(doc)` or
  `NotFound(doc)` instead of setting status 404.
- I/O: `readFile` and `readdir` and their `async` behaviour are function
  parameters. A failure is `None`, and a listing is taken in the order given.
  The file system is one snapshot per request: two directives with the same
  route see the same listing, where the source reads the directory once per
  directive.
- The markdown lexer (`marked.lexer`) is a parameter that returns tokens. Only
  the token fields the builder reads are modelled. Tokens with missing fields
  are not modelled.
- The HTML-entity decoder is a parameter, not a definition.
- React-PDF rendering and the numeric values of the stylesheet are left out.
  Only the style roles and the page sizes LETTER and A4 are kept, and React
  keys are dropped. A `null` child renders nothing, so it is dropped from the
  page.
- `path.join` normalisation and `process.cwd()` are left out. File paths are
  plain concatenations with `/`.
- `matchAll` steps one character past an empty match. The pattern never
  matches the empty string, so the scan treats an empty match as no match.
- `console.error` logging is left out. `ROOT_URL` is the `rootUrl` parameter.
- ReplaceFirst: the replacement text is taken literally. JavaScript's `$&`,
  `$1` and similar patterns in replacement strings are not interpreted.
- UpperCase: only ASCII letters are upper-cased. Unicode case mapping is left
  out, including mappings that change the length of a string.
- Title: a character is one `char`. JavaScript works on UTF-16 code units, so
  `charAt(0)` of a name that starts with an astral character differs.
- FirstDirectiveInPlace: only the first directive is proved to be replaced
  where it stands. A later directive is replaced at the first remaining copy
  of its text, which can lie inside an earlier replacement
  (`LaterDirectiveReplacedElsewhere`). No general statement about where
  later replacements land is proved.
- FailedListingIsolated: the error text is proved to stand in place of the
  first directive only, for the same reason.
- HandleRequest: exceptions thrown while lexing, decoding or rendering a
  readable page are not modelled. The source would answer those with the 404
  document too.
