/** The shapes of the `marked` lexer's tokens that the document builder reads.
    Only the fields it consults are kept. */
module Markdown {
  import opened Wrappers

  /** An inline token inside a paragraph or a list item: a link, or any
      other inline token, of which only the `text` field is read. */
  datatype Inline =
    | InlineLink(href: string, text: string)
    | InlineText(text: string)

  /** A list item: its raw `text` and its inline `tokens`, if present. */
  datatype Item = Item(text: string, tokens: Option<seq<Inline>>)

  /** A block token. `Other` stands for every token type the builder ignores
      (code, blockquote, hr, space, html, table, ...). */
  datatype Token =
    | Heading(depth: nat, text: string)
    | Paragraph(text: string, tokens: Option<seq<Inline>>)
    | List(items: seq<Item>)
    | Other
}
