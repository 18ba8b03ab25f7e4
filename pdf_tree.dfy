/** `MarkdownToPDF`: the token sequence of a page becomes a styled document
    tree of `Text`, `Link` and `View` elements on one LETTER page. */
module PdfTree {
  import opened Wrappers
  import opened Markdown

  /** The style roles of the stylesheet; their numeric values are not modelled. */
  datatype Style = PageStyle | Heading1 | Heading2 | ParagraphStyle | LinkStyle | ListItemStyle | BulletStyle

  /** An element of the document tree; `Str` is a bare string child. */
  datatype Node =
    | Str(value: string)
    | Text(style: Option<Style>, children: seq<Node>)
    | Link(style: Option<Style>, src: string, text: string)
    | View(style: Option<Style>, children: seq<Node>)

  datatype PageSize = Letter | A4

  datatype Page = Page(size: PageSize, style: Style, children: seq<Node>)

  datatype Document = Document(pages: seq<Page>)

  const Bullet := "• "

  /** One inline token of a paragraph: a link keeps its target and shows its
      decoded text; any other token becomes its decoded text. */
  function InlineNode(t: Inline, decode: string -> string): Node {
    match t
    case InlineLink(href, text) => Link(Some(LinkStyle), href, decode(text))
    case InlineText(text) => Str(decode(text))
  }

  /** The content of a list row: a link when the item's first inline token is
      a link, otherwise the decoded text of the whole item. */
  function ItemBody(item: Item, decode: string -> string): Node {
    if item.tokens.Some? && |item.tokens.value| > 0 && item.tokens.value[0].InlineLink? then
      Link(Some(LinkStyle), item.tokens.value[0].href, decode(item.tokens.value[0].text))
    else
      Text(None, [Str(decode(item.text))])
  }

  /** One row of a list: a bullet followed by the item's content. */
  function ItemRow(item: Item, decode: string -> string): (row: Node)
    ensures row.View? && row.style == Some(ListItemStyle) && |row.children| == 2
    ensures row.children[0] == Text(Some(BulletStyle), [Str(Bullet)])
    ensures row.children[1].Link? <==> item.tokens.Some? && |item.tokens.value| > 0 && item.tokens.value[0].InlineLink?
    ensures row.children[1].Link? ==>
      row.children[1] == Link(Some(LinkStyle), item.tokens.value[0].href, decode(item.tokens.value[0].text))
    ensures !row.children[1].Link? ==> row.children[1] == Text(None, [Str(decode(item.text))])
  {
    View(Some(ListItemStyle), [Text(Some(BulletStyle), [Str(Bullet)]), ItemBody(item, decode)])
  }

  /** What one token renders to, `None` for the token types rendered as
      `null`. */
  function Block(t: Token, decode: string -> string): (r: Option<Node>)
    ensures r.None? <==> t.Other?
    ensures t.Heading? ==> r.value.Text? && r.value.children == [Str(decode(t.text))]
    ensures t.Heading? ==> (r.value.style == Some(Heading1) <==> t.depth == 1)
    ensures t.Heading? ==> (r.value.style == Some(Heading2) <==> t.depth != 1)
    ensures t.Paragraph? ==> r.value.Text? && r.value.style == Some(ParagraphStyle)
    ensures t.Paragraph? && t.tokens.Some? ==>
      |r.value.children| == |t.tokens.value|
      && forall j :: 0 <= j < |t.tokens.value| ==> r.value.children[j] == InlineNode(t.tokens.value[j], decode)
    ensures t.Paragraph? && t.tokens.None? ==> r.value.children == [Str(decode(t.text))]
    ensures t.List? ==> r.value.View? && r.value.style.None? && |r.value.children| == |t.items|
    ensures t.List? ==> forall j :: 0 <= j < |t.items| ==> r.value.children[j] == ItemRow(t.items[j], decode)
  {
    match t
    case Heading(depth, text) =>
      Some(Text(Some(if depth == 1 then Heading1 else Heading2), [Str(decode(text))]))
    case Paragraph(text, tokens) =>
      if tokens.Some? then
        Some(Text(Some(ParagraphStyle),
                  seq(|tokens.value|, j requires 0 <= j < |tokens.value| => InlineNode(tokens.value[j], decode))))
      else
        Some(Text(Some(ParagraphStyle), [Str(decode(text))]))
    case List(items) =>
      Some(View(None, seq(|items|, j requires 0 <= j < |items| => ItemRow(items[j], decode))))
    case Other => None
  }

  /** What one token adds to the page: its block, or nothing for `null`. */
  function BlockSeq(t: Token, decode: string -> string): seq<Node> {
    match Block(t, decode)
    case None => []
    case Some(n) => [n]
  }

  /** The children of the page: the tokens mapped in order, the `null`s
      dropped. */
  function Blocks(ts: seq<Token>, decode: string -> string): seq<Node> {
    if ts == [] then [] else BlockSeq(ts[0], decode) + Blocks(ts[1..], decode)
  }

  /** The document of a page: one LETTER page holding the blocks of the
      lexer's tokens. */
  function MarkdownToPdf(markdown: string, lex: string -> seq<Token>, decode: string -> string): Document {
    Document([Page(Letter, PageStyle, Blocks(lex(markdown), decode))])
  }

  /** The tokens that render to something, in order: an independent
      description of which tokens the page shows. */
  function Rendered(ts: seq<Token>): (kept: seq<Token>)
    ensures forall t :: t in kept <==> t in ts && !t.Other?
  {
    if ts == [] then []
    else (if ts[0].Other? then [] else [ts[0]]) + Rendered(ts[1..])
  }

  /** The selection keeps the order of the tokens: it distributes over
      concatenation of token sequences. */
  lemma {:induction false} RenderedAppend(a: seq<Token>, b: seq<Token>)
    ensures Rendered(a + b) == Rendered(a) + Rendered(b)
  {
    if a == [] {
      assert a + b == b;
    } else {
      assert (a + b)[0] == a[0] && (a + b)[1..] == a[1..] + b;
      RenderedAppend(a[1..], b);
    }
  }

  /** Exactly one block per heading, paragraph or list token, in input
      order, and nothing for any other token. */
  lemma {:induction false} BlocksOneToOne(ts: seq<Token>, decode: string -> string)
    ensures |Blocks(ts, decode)| == |Rendered(ts)|
    ensures forall i :: 0 <= i < |Rendered(ts)| ==> Blocks(ts, decode)[i] == Block(Rendered(ts)[i], decode).value
  {
    if ts != [] {
      BlocksOneToOne(ts[1..], decode);
    }
  }

  /** The document has a single LETTER page, and the page shows one block
      per rendered token of the lexed markdown, in order. */
  lemma PageOfMarkdown(markdown: string, lex: string -> seq<Token>, decode: string -> string)
    ensures var doc := MarkdownToPdf(markdown, lex, decode);
      && |doc.pages| == 1 && doc.pages[0].size == Letter && doc.pages[0].style == PageStyle
      && |doc.pages[0].children| == |Rendered(lex(markdown))|
      && forall i :: 0 <= i < |Rendered(lex(markdown))| ==>
           doc.pages[0].children[i] == Block(Rendered(lex(markdown))[i], decode).value
  {
    BlocksOneToOne(lex(markdown), decode);
  }

  /** Rendering distributes over concatenation of token sequences. */
  lemma {:induction false} BlocksAppend(a: seq<Token>, b: seq<Token>, decode: string -> string)
    ensures Blocks(a + b, decode) == Blocks(a, decode) + Blocks(b, decode)
  {
    if a == [] {
      assert a + b == b;
    } else {
      assert (a + b)[0] == a[0] && (a + b)[1..] == a[1..] + b;
      BlocksAppend(a[1..], b, decode);
    }
  }

  /** Inline tokens after the first one of a list item are never consulted. */
  lemma ItemRowFirstOnly(text: string, first: Inline, rest: seq<Inline>, decode: string -> string)
    ensures ItemRow(Item(text, Some([first] + rest)), decode) == ItemRow(Item(text, Some([first])), decode)
  {
  }

  /** Applies `decode` to every string a tree displays that came from a
      token: bare strings and link texts, but not link targets and not the
      bullet, which is a fixed string. */
  function DecodeTree(n: Node, decode: string -> string): Node
    decreases n
  {
    match n
    case Str(v) => Str(decode(v))
    case Text(style, children) =>
      if style == Some(BulletStyle) then n
      else Text(style, seq(|children|, i requires 0 <= i < |children| => DecodeTree(children[i], decode)))
    case Link(style, src, text) => Link(style, src, decode(text))
    case View(style, children) =>
      View(style, seq(|children|, i requires 0 <= i < |children| => DecodeTree(children[i], decode)))
  }

  /** No decoding at all. */
  function Verbatim(s: string): string {
    s
  }

  lemma DecodeItemBody(item: Item, decode: string -> string)
    ensures DecodeTree(ItemBody(item, Verbatim), decode) == ItemBody(item, decode)
  {
    var body := ItemBody(item, Verbatim);
    if body.Text? {
      assert DecodeTree(body, decode).children == [DecodeTree(Str(item.text), decode)];
    }
  }

  /** `decode` is applied exactly once to each displayed string of a token:
      rendering with `decode` is rendering with no decoding at all, then
      decoding each displayed string. */
  lemma DecodeOnce(t: Token, decode: string -> string)
    requires !t.Other?
    ensures Block(t, decode) == Some(DecodeTree(Block(t, Verbatim).value, decode))
  {
    var plain := Block(t, Verbatim).value;
    var decoded := DecodeTree(plain, decode);
    match t
    case Heading(_, text) =>
      assert decoded.children == [DecodeTree(Str(text), decode)];
    case Paragraph(text, tokens) =>
      if tokens.Some? {
        var ts := tokens.value;
        forall j | 0 <= j < |ts|
          ensures decoded.children[j] == InlineNode(ts[j], decode)
        {
          assert plain.children[j] == InlineNode(ts[j], Verbatim);
          assert decoded.children[j] == DecodeTree(plain.children[j], decode);
          match ts[j]
          case InlineLink(_, _) =>
          case InlineText(_) =>
        }
        assert decoded.children == Block(t, decode).value.children;
      } else {
        assert decoded.children == [DecodeTree(Str(text), decode)];
      }
    case List(items) =>
      forall j | 0 <= j < |items|
        ensures decoded.children[j] == ItemRow(items[j], decode)
      {
        var row := ItemRow(items[j], Verbatim);
        assert plain.children[j] == row;
        DecodeItemBody(items[j], decode);
        var bullet := Text(Some(BulletStyle), [Str(Bullet)]);
        assert DecodeTree(row, decode).children == [DecodeTree(bullet, decode), DecodeTree(row.children[1], decode)];
      }
      assert decoded.children == Block(t, decode).value.children;
  }
}
