/**
 * The content tree the parser builds (src/build/step3.rs and the structs of the
 * step3/ files): the closed families of block-level and inline-level content.
 */
module Content {
  import opened Wrappers

  /** A tag name, and whether it was written as a one-character abbreviation. */
  datatype TagName = TagName(name: string, abbreviation: bool)

  /** Named attributes; at most one value per name. */
  type Attributes = map<string, string>

  datatype Inline = Text(text: string) | Tag(tag: InlineTag)

  datatype InlineTag = InlineTag(name: TagName, attributes: Attributes, values: seq<string>, contents: seq<Inline>)

  datatype Header = Header(contents: seq<Inline>)

  datatype Paragraph = Paragraph(contents: seq<Inline>)

  datatype Block = Block(contents: seq<BlockContent>)

  datatype BlockContent =
    | Nested(block: Block)
    | Tagged(tag: BlockTag)
    | Para(paragraph: Paragraph)
    | BlankLine

  datatype BlockTag = BlockTag(
    name: TagName,
    attributes: Attributes,
    values: seq<string>,
    header: Option<Header>,
    contents: Option<Block>)

  /** Inline content as the parsers leave it: no empty text, and no two texts side by side. */
  predicate Normal(xs: seq<Inline>) {
    && (forall i :: 0 <= i < |xs| ==> xs[i] != Text(""))
    && (forall i :: 0 <= i < |xs| - 1 ==> !(xs[i].Text? && xs[i + 1].Text?))
  }

  /** Inline content with no tag in it: plain text only. */
  predicate Untagged(xs: seq<Inline>) {
    forall i :: 0 <= i < |xs| ==> xs[i].Text?
  }

  /** Pending text joins the content, unless it is empty. */
  function Flush(contents: seq<Inline>, text: string): (r: seq<Inline>)
    ensures |r| == |contents| || (text != [] && r == contents + [Text(text)])
    ensures text == [] ==> r == contents
  {
    if text == [] then contents else contents + [Text(text)]
  }

  /** Inline content that pending text may join: normal, and empty or ending with a tag. */
  predicate Settled(xs: seq<Inline>) {
    Normal(xs) && (xs == [] || xs[|xs| - 1].Tag?)
  }

  /** Flushing pending text into settled content keeps it normal. */
  lemma FlushNormal(contents: seq<Inline>, text: string)
    requires Settled(contents)
    ensures Normal(Flush(contents, text))
  {
  }

  /** Flushing pending text and then adding a tag leaves the content settled. */
  lemma FlushTagSettled(contents: seq<Inline>, text: string, t: InlineTag)
    requires Settled(contents)
    ensures Settled(Flush(contents, text) + [Tag(t)])
  {
    var xs := Flush(contents, text) + [Tag(t)];
    forall i | 0 <= i < |xs| - 1
      ensures !(xs[i].Text? && xs[i + 1].Text?)
    {
      if i + 1 < |xs| - 1 && text != [] && i + 1 == |contents| {
        assert xs[i] == contents[i];
      }
    }
  }

  /** Every block of the tree, the given one included, has at least one child. */
  predicate NonEmpty(b: Block)
    decreases b, 1
  {
    |b.contents| > 0 && forall i :: 0 <= i < |b.contents| ==> NonEmptyIn(b.contents[i])
  }

  predicate NonEmptyIn(c: BlockContent)
    decreases c, 0
  {
    match c
    case Nested(b) => NonEmpty(b)
    case Tagged(t) => t.contents.Some? ==> NonEmpty(t.contents.value)
    case Para(_) => true
    case BlankLine => true
  }

  /** No block tag and no inline tag anywhere in the tree: everything is literal text. */
  predicate Literal(b: Block)
    decreases b, 1
  {
    forall i :: 0 <= i < |b.contents| ==> LiteralIn(b.contents[i])
  }

  predicate LiteralIn(c: BlockContent)
    decreases c, 0
  {
    match c
    case Nested(b) => Literal(b)
    case Tagged(_) => false
    case Para(p) => Untagged(p.contents)
    case BlankLine => true
  }
}
