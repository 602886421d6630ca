/**
 * Blocks and block tags (src/build/step3/block.rs, src/build/step3/block_tag.rs).
 *
 * A block is what lies between a block beginning and its block end: paragraphs, block
 * tags, nested blocks and blank lines. A block tag is a tag with its attributes, then an
 * optional header on its own line and an optional block as its body. The two parsers
 * call each other, so they share this module.
 */
module Blocks {
  import opened Wrappers
  import opened ParseStream
  import opened Content
  import Harness
  import Tag
  import BlockTagHeader
  import Paragraph

  const NoBlockEnd := "Although there is a block beginning, there is no block end."
  const BlockMarker := "Unexpected block beginning or end."

  /**
   * A nested block that holds nothing: `parse_block` unwraps the result it expects to
   * be there, and the program stops.
   */
  const EmptyNested := "called `Option::unwrap()` on a `None` value"

  function Illegal(c: char): string {
    "There is an illegal character. '" + [c] + "'"
  }

  /** The tags whose bodies are raw: no tag is recognised inside them. */
  predicate Raw(name: string) {
    name == "code-block" || name == "raw-html"
  }

  function Blanks(n: nat): (r: seq<BlockContent>)
    ensures |r| == n && forall i :: 0 <= i < n ==> r[i] == BlankLine
  {
    seq(n, i => BlankLine)
  }

  /** The least position a block loop may leave the stream at: its first pending blank line, or where it is. */
  function Low(s: Stream, pending: Option<nat>): nat {
    if pending.Some? then pending.value else s.cursor
  }

  /** `parse_block`: nothing unless the next unit is a block beginning. */
  function ParseBlock(env: Env, ctx: Context, s: Stream): (r: Reply<Block>)
    ensures r.rest.check == s.check
    ensures Peek(env, s) != BlockBeginning ==> r == Reply(Mismatched, s, [])
    ensures r.outcome.Parsed? ==> Advanced(env, s, r.rest)
    decreases env.size - s.cursor, 0
  {
    if Peek(env, s) != BlockBeginning then Reply(Mismatched, s, [])
    else BlockLoop(env, ctx, Read(env, s), [], None, 0)
  }

  /**
   * The loop of `parse_block`. Blank lines are counted from a mark at the first of a
   * run; the run becomes `BlankLine`s when content follows it, and when the block ends
   * instead the stream goes back to the mark.
   */
  function BlockLoop(env: Env, ctx: Context, s: Stream, contents: seq<BlockContent>, pending: Option<nat>, count: nat)
    : (r: Reply<Block>)
    requires pending.Some? ==> pending.value <= s.cursor
    ensures r.rest.check == s.check
    ensures r.outcome.Parsed? ==> Low(s, pending) <= r.rest.cursor <= env.size
    decreases env.size - s.cursor, 2
  {
    var settled := if pending.Some? then contents + Blanks(count) else contents;
    match Peek(env, s)
    case Char(c) => BlockChar(env, ctx, s, c, settled)
    case NewLine =>
      BlockLoop(env, ctx, Read(env, s), contents, if pending.None? then Some(s.cursor) else pending, count + 1)
    case BlockBeginning => BlockNested(env, ctx, s, settled)
    case BlockEnd =>
      var s1 := Read(env, s);
      if contents == [] then Reply(Mismatched, s1, [])
      else Reply(Parsed(Block(contents)), if pending.Some? then Reset(s1, pending.value) else s1, [])
    case Eof => Reply(Fatal(NoBlockEnd), s, [])
  }

  /** A character in a block: a block tag when tags are on and one starts here, else a paragraph. */
  function BlockChar(env: Env, ctx: Context, s: Stream, c: char, contents: seq<BlockContent>): (r: Reply<Block>)
    requires Peek(env, s) == Char(c)
    ensures r.rest.check == s.check
    ensures r.outcome.Parsed? ==> s.cursor < r.rest.cursor <= env.size
    decreases env.size - s.cursor, 1
  {
    var bt := if c == ':' && ctx.parseTags then Harness.CallParser(s, ParseBlockTag(env, ctx, s)) else Reply(Mismatched, s, []);
    if bt.outcome.Fatal? then Reply(Fatal(bt.outcome.message), bt.rest, bt.warnings)
    else if bt.outcome.Parsed? then
      var r := BlockLoop(env, ctx, bt.rest, contents + [Tagged(bt.outcome.value)], None, 0);
      Reply(r.outcome, r.rest, bt.warnings + r.warnings)
    else
      var p := Harness.CallParser(s, Paragraph.ParseParagraph(env, ctx, s));
      if p.outcome.Fatal? then Reply(Fatal(p.outcome.message), p.rest, bt.warnings + p.warnings)
      else
        var r := BlockLoop(env, ctx, p.rest, contents + [Para(p.outcome.value)], None, 0);
        Reply(r.outcome, r.rest, bt.warnings + p.warnings + r.warnings)
  }

  /** A block beginning in a block: a nested block, which must not be empty. */
  function BlockNested(env: Env, ctx: Context, s: Stream, contents: seq<BlockContent>): (r: Reply<Block>)
    requires Peek(env, s) == BlockBeginning
    ensures r.rest.check == s.check
    ensures r.outcome.Parsed? ==> s.cursor < r.rest.cursor <= env.size
    decreases env.size - s.cursor, 1
  {
    var b := Harness.CallParser(s, ParseBlock(env, ctx, s));
    if b.outcome.Fatal? then Reply(Fatal(b.outcome.message), b.rest, b.warnings)
    else if b.outcome.Mismatched? then Reply(Fatal(EmptyNested), b.rest, b.warnings)
    else
      var r := BlockLoop(env, ctx, b.rest, contents + [Nested(b.outcome.value)], None, 0);
      Reply(r.outcome, r.rest, b.warnings + r.warnings)
  }

  /**
   * `parse_block_tag`: a tag and its attributes, then what may follow them: a space
   * (a header may come), a line break (a body may come), a block end or the end; or,
   * on a tag that is neither raw nor abbreviated, a second block tag as the only child.
   */
  function ParseBlockTag(env: Env, ctx: Context, s: Stream): (r: Reply<BlockTag>)
    ensures r.rest.check == s.check
    ensures r.outcome.Parsed? ==> Advanced(env, s, r.rest)
    decreases env.size - s.cursor, 0
  {
    var t := Harness.CallParser(s, Tag.ParseTagAndAttributes(env, ctx, s));
    match t.outcome
    case Fatal(m) => Reply(Fatal(m), t.rest, t.warnings)
    case Mismatched => Reply(Mismatched, t.rest, t.warnings)
    case Parsed(v) => AfterTag(env, ctx, t.rest, v, t.warnings)
  }

  /** What `parse_block_tag` does with the unit right after an accepted tag and its attributes. */
  function AfterTag(env: Env, ctx: Context, s1: Stream, v: (TagName, Attributes, seq<string>), ws: seq<Warning>)
    : (r: Reply<BlockTag>)
    requires s1.cursor <= env.size
    ensures r.rest.check == s1.check
    ensures r.outcome.Parsed? ==> s1.cursor <= r.rest.cursor <= env.size
    ensures r.outcome.Parsed? ==> r.outcome.value.name == v.0 && r.outcome.value.attributes == v.1 && r.outcome.value.values == v.2
    decreases env.size - s1.cursor, 2
  {
    var parseTags := !Raw(v.0.name);
    match Peek(env, s1)
    case BlockBeginning => Reply(Fatal(BlockMarker), s1, ws)
    case Char(c) =>
      if c == ' ' then TagBody(env, ctx, s1, v, parseTags, ws)
      else
        var n := if c == ':' && parseTags && !v.0.abbreviation then Harness.CallParser(s1, ParseBlockTag(env, ctx, s1))
          else Reply(Mismatched, s1, []);
        if n.outcome.Fatal? then Reply(Fatal(n.outcome.message), n.rest, ws + n.warnings)
        else if n.outcome.Parsed? then
          Reply(Parsed(BlockTag(v.0, v.1, v.2, None, Some(Block([Tagged(n.outcome.value)])))), n.rest, ws + n.warnings)
        else Reply(Mismatched, s1, ws + n.warnings + Warn(ctx, s1, Illegal(c)))
    case NewLine => TagBody(env, ctx, s1, v, parseTags, ws)
    case BlockEnd => TagBody(env, ctx, s1, v, parseTags, ws)
    case Eof => TagBody(env, ctx, s1, v, parseTags, ws)
  }

  /**
   * The rest of `parse_block_tag` once the tag is accepted: a header only after a space
   * that is read, a body only after a line break that is read, parsed with tags on
   * exactly when `parseTags`.
   */
  function TagBody(env: Env, ctx: Context, s1: Stream, v: (TagName, Attributes, seq<string>), parseTags: bool, ws: seq<Warning>)
    : (r: Reply<BlockTag>)
    requires s1.cursor <= env.size
    ensures r.rest.check == s1.check
    ensures r.outcome.Parsed? ==> s1.cursor <= r.rest.cursor <= env.size
    ensures r.outcome.Parsed? ==> r.outcome.value.name == v.0 && r.outcome.value.attributes == v.1 && r.outcome.value.values == v.2
    decreases env.size - s1.cursor, 1
  {
    var h := if Peek(env, s1) == Char(' ') then
        var s2 := Read(env, s1);
        Harness.CallParser(s2, BlockTagHeader.ParseHeader(env, ctx, s2))
      else Reply(Mismatched, s1, []);
    if h.outcome.Fatal? then Reply(Fatal(h.outcome.message), h.rest, ws + h.warnings)
    else
      var s3 := h.rest;
      var b := if Peek(env, s3) == NewLine then
          var s4 := Read(env, s3);
          Harness.CallParser(s4, ParseBlock(env, ctx.(parseTags := parseTags), s4))
        else Reply(Mismatched, s3, []);
      var ws' := ws + h.warnings + b.warnings;
      if b.outcome.Fatal? then Reply(Fatal(b.outcome.message), b.rest, ws')
      else
        var header := if h.outcome.Parsed? then Some(h.outcome.value) else None;
        var body := if b.outcome.Parsed? then Some(b.outcome.value) else None;
        Reply(Parsed(BlockTag(v.0, v.1, v.2, header, body)), b.rest, ws')
  }

  // ---------------------------------------------------------------------------
  // The shape of what is parsed
  // ---------------------------------------------------------------------------

  /** What the parsers promise of a block: it is not empty, and with tags off it holds no tag. */
  predicate Shaped(ctx: Context, b: Block) {
    NonEmpty(b) && (!ctx.parseTags ==> Literal(b))
  }

  predicate ShapedIn(ctx: Context, x: BlockContent) {
    NonEmptyIn(x) && (!ctx.parseTags ==> LiteralIn(x))
  }

  predicate AllShaped(ctx: Context, xs: seq<BlockContent>) {
    forall i :: 0 <= i < |xs| ==> ShapedIn(ctx, xs[i])
  }

  /** A block tag's body is a non-empty block, and a raw tag's body holds no tag. */
  predicate TagShaped(t: BlockTag) {
    t.contents.Some? ==> NonEmpty(t.contents.value) && (Raw(t.name.name) ==> Literal(t.contents.value))
  }

  lemma AllShapedAppend(ctx: Context, xs: seq<BlockContent>, n: nat, x: BlockContent)
    requires AllShaped(ctx, xs) && ShapedIn(ctx, x)
    ensures AllShaped(ctx, xs + Blanks(n))
    ensures AllShaped(ctx, xs + [x])
  {
  }

  lemma AllShapedBlock(ctx: Context, xs: seq<BlockContent>)
    requires |xs| > 0 && AllShaped(ctx, xs)
    ensures Shaped(ctx, Block(xs))
  {
    assert forall i :: 0 <= i < |xs| ==> NonEmptyIn(xs[i]) by {
      forall i | 0 <= i < |xs| ensures NonEmptyIn(xs[i]) {
        assert ShapedIn(ctx, xs[i]);
      }
    }
    if !ctx.parseTags {
      forall i | 0 <= i < |xs| ensures LiteralIn(xs[i]) {
        assert ShapedIn(ctx, xs[i]);
      }
    }
  }

  /**
   * Every parsed block has content, and so has every block inside it; with tags off
   * (the body of a raw tag) no block tag and no inline tag occurs anywhere in it.
   */
  lemma {:induction false} BlockShape(env: Env, ctx: Context, s: Stream)
    ensures var r := ParseBlock(env, ctx, s);
      r.outcome.Parsed? ==> Shaped(ctx, r.outcome.value)
    decreases env.size - s.cursor, 0
  {
    if Peek(env, s) == BlockBeginning {
      BlockLoopShape(env, ctx, Read(env, s), [], None, 0);
    }
  }

  lemma {:induction false} BlockLoopShape(env: Env, ctx: Context, s: Stream, contents: seq<BlockContent>, pending: Option<nat>, count: nat)
    requires pending.Some? ==> pending.value <= s.cursor
    requires AllShaped(ctx, contents)
    ensures var r := BlockLoop(env, ctx, s, contents, pending, count);
      r.outcome.Parsed? ==> Shaped(ctx, r.outcome.value)
    decreases env.size - s.cursor, 2
  {
    var settled := if pending.Some? then contents + Blanks(count) else contents;
    AllShapedAppend(ctx, contents, count, BlankLine);
    match Peek(env, s)
    case Char(c) => BlockCharShape(env, ctx, s, c, settled);
    case NewLine =>
      BlockLoopShape(env, ctx, Read(env, s), contents, if pending.None? then Some(s.cursor) else pending, count + 1);
    case BlockBeginning => BlockNestedShape(env, ctx, s, settled);
    case BlockEnd =>
      if contents != [] {
        AllShapedBlock(ctx, contents);
      }
    case Eof =>
  }

  lemma {:induction false} BlockCharShape(env: Env, ctx: Context, s: Stream, c: char, contents: seq<BlockContent>)
    requires Peek(env, s) == Char(c) && AllShaped(ctx, contents)
    ensures var r := BlockChar(env, ctx, s, c, contents);
      r.outcome.Parsed? ==> Shaped(ctx, r.outcome.value)
    decreases env.size - s.cursor, 1
  {
    var bt := if c == ':' && ctx.parseTags then Harness.CallParser(s, ParseBlockTag(env, ctx, s)) else Reply(Mismatched, s, []);
    if bt.outcome.Parsed? {
      BlockTagShape(env, ctx, s);
      AllShapedAppend(ctx, contents, 0, Tagged(bt.outcome.value));
      BlockLoopShape(env, ctx, bt.rest, contents + [Tagged(bt.outcome.value)], None, 0);
    } else if !bt.outcome.Fatal? {
      var p := Harness.CallParser(s, Paragraph.ParseParagraph(env, ctx, s));
      if p.outcome.Parsed? {
        AllShapedAppend(ctx, contents, 0, Para(p.outcome.value));
        BlockLoopShape(env, ctx, p.rest, contents + [Para(p.outcome.value)], None, 0);
      }
    }
  }

  lemma {:induction false} BlockNestedShape(env: Env, ctx: Context, s: Stream, contents: seq<BlockContent>)
    requires Peek(env, s) == BlockBeginning && AllShaped(ctx, contents)
    ensures var r := BlockNested(env, ctx, s, contents);
      r.outcome.Parsed? ==> Shaped(ctx, r.outcome.value)
    decreases env.size - s.cursor, 1
  {
    var b := Harness.CallParser(s, ParseBlock(env, ctx, s));
    if b.outcome.Parsed? {
      BlockShape(env, ctx, s);
      AllShapedAppend(ctx, contents, 0, Nested(b.outcome.value));
      BlockLoopShape(env, ctx, b.rest, contents + [Nested(b.outcome.value)], None, 0);
    }
  }

  /**
   * A block tag's body is never an empty block, and the body of `code-block` or
   * `raw-html` holds no tag at all: `:b{bold}` in it stays text.
   */
  lemma {:induction false} BlockTagShape(env: Env, ctx: Context, s: Stream)
    ensures var r := ParseBlockTag(env, ctx, s);
      r.outcome.Parsed? ==> TagShaped(r.outcome.value)
    decreases env.size - s.cursor, 0
  {
    var t := Harness.CallParser(s, Tag.ParseTagAndAttributes(env, ctx, s));
    if t.outcome.Parsed? {
      AfterTagShape(env, ctx, t.rest, t.outcome.value, t.warnings);
    }
  }

  lemma {:induction false} AfterTagShape(env: Env, ctx: Context, s1: Stream, v: (TagName, Attributes, seq<string>), ws: seq<Warning>)
    requires s1.cursor <= env.size
    ensures var r := AfterTag(env, ctx, s1, v, ws);
      r.outcome.Parsed? ==> TagShaped(r.outcome.value)
    decreases env.size - s1.cursor, 2
  {
    var u := Peek(env, s1);
    if u.Char? && u.c != ' ' {
      if u.c == ':' && !Raw(v.0.name) && !v.0.abbreviation {
        BlockTagShape(env, ctx, s1);
      }
    } else if u != BlockBeginning {
      TagBodyShape(env, ctx, s1, v, !Raw(v.0.name), ws);
    }
  }

  lemma {:induction false} TagBodyShape(env: Env, ctx: Context, s1: Stream, v: (TagName, Attributes, seq<string>), parseTags: bool, ws: seq<Warning>)
    requires s1.cursor <= env.size && parseTags == !Raw(v.0.name)
    ensures var r := TagBody(env, ctx, s1, v, parseTags, ws);
      r.outcome.Parsed? ==> TagShaped(r.outcome.value)
    decreases env.size - s1.cursor, 1
  {
    var h := if Peek(env, s1) == Char(' ') then
        var s2 := Read(env, s1);
        Harness.CallParser(s2, BlockTagHeader.ParseHeader(env, ctx, s2))
      else Reply(Mismatched, s1, []);
    if !h.outcome.Fatal? && Peek(env, h.rest) == NewLine {
      BlockShape(env, ctx.(parseTags := parseTags), Read(env, h.rest));
    }
  }

  // ---------------------------------------------------------------------------
  // Blank lines
  // ---------------------------------------------------------------------------

  function NewLines(k: nat): (r: seq<Unit>)
    ensures |r| == k && forall i :: 0 <= i < k ==> r[i] == NewLine
  {
    seq(k, i => NewLine)
  }

  /** A run of line breaks is counted, with the mark at its first one. */
  lemma {:induction false} BlankRun(env: Env, ctx: Context, s: Stream, contents: seq<BlockContent>, pending: Option<nat>, count: nat, k: nat)
    requires pending.Some? ==> pending.value <= s.cursor
    requires Ahead(env, s, k) == NewLines(k)
    ensures s.cursor <= Skip(env, s, k).cursor
    ensures BlockLoop(env, ctx, s, contents, pending, count) ==
      BlockLoop(env, ctx, Skip(env, s, k), contents, if k > 0 && pending.None? then Some(s.cursor) else pending, count + k)
    decreases k
  {
    SkipKeepsCheck(env, s, k);
    if k > 0 {
      assert Peek(env, s) == Ahead(env, s, k)[0];
      assert Ahead(env, Read(env, s), k - 1) == Ahead(env, s, k)[1..];
      BlankRun(env, ctx, Read(env, s), contents, if pending.None? then Some(s.cursor) else pending, count + 1, k - 1);
    }
  }

  /**
   * Blank lines followed by content in the same block are kept, one `BlankLine` per
   * line, before that content.
   */
  lemma BlankLinesKept(env: Env, ctx: Context, s: Stream, contents: seq<BlockContent>, k: nat)
    requires Ahead(env, s, k) == NewLines(k)
    requires Peek(env, Skip(env, s, k)).Char? || Peek(env, Skip(env, s, k)) == BlockBeginning
    ensures s.cursor <= Skip(env, s, k).cursor
    ensures BlockLoop(env, ctx, s, contents, None, 0) == BlockLoop(env, ctx, Skip(env, s, k), contents + Blanks(k), None, 0)
  {
    BlankRun(env, ctx, s, contents, None, 0, k);
    if k == 0 {
      assert contents + Blanks(k) == contents;
    }
  }

  /**
   * Blank lines at the end of a block are not the block's: it ends before them, and
   * the stream is left at the first of them.
   */
  lemma BlankLinesLeft(env: Env, ctx: Context, s: Stream, contents: seq<BlockContent>, k: nat)
    requires contents != [] && k > 0
    requires Ahead(env, s, k) == NewLines(k) && Peek(env, Skip(env, s, k)) == BlockEnd
    ensures BlockLoop(env, ctx, s, contents, None, 0) == Reply(Parsed(Block(contents)), s, [])
  {
    BlankRun(env, ctx, s, contents, None, 0, k);
    SkipKeepsCheck(env, s, k);
  }

  /**
   * A block end closes the block, and is consumed; a block with nothing in it is no
   * block. The end of input inside a block is an error, pending blank lines or not.
   */
  lemma BlockEnds(env: Env, ctx: Context, s: Stream, contents: seq<BlockContent>, pending: Option<nat>, count: nat)
    requires pending.Some? ==> pending.value <= s.cursor
    ensures Peek(env, s) == BlockEnd && pending.None? ==>
      BlockLoop(env, ctx, s, contents, pending, count) ==
        if contents == [] then Reply(Mismatched, Read(env, s), []) else Reply(Parsed(Block(contents)), Read(env, s), [])
    ensures Peek(env, s) == Eof ==> BlockLoop(env, ctx, s, contents, pending, count) == Reply(Fatal(NoBlockEnd), s, [])
  {
  }

  /** A block beginning directly followed by a block end is no block: there is nothing in it. */
  lemma EmptyBlock(env: Env, ctx: Context, s: Stream)
    requires Peek(env, s) == BlockBeginning && Peek(env, Read(env, s)) == BlockEnd
    ensures ParseBlock(env, ctx, s).outcome == Mismatched
  {
    BlockEnds(env, ctx, Read(env, s), [], None, 0);
  }

  /**
   * Round trip: a block beginning, lines of text that start with an ordinary character,
   * and the block end, make a block holding one paragraph with exactly that text.
   */
  lemma BlockRoundTrip(env: Env, ctx: Context, s: Stream, w: string)
    requires Peek(env, s) == BlockBeginning
    requires w != [] && w[0] != '\n' && (w[0] != ':' || !ctx.parseTags)
    requires Ahead(env, Read(env, s), |w|) == Paragraph.UnitsOf(w)
    requires ColonsDecline(env, ctx, Read(env, s), w, ctx.parseTags)
    requires Paragraph.NoBlankLine(w) && Peek(env, Skip(env, Read(env, s), |w|)) == BlockEnd
    ensures ParseBlock(env, ctx, s) ==
      Reply(Parsed(Block([Para(Paragraph([Text(w)]))])), Read(env, Skip(env, Read(env, s), |w|)), [])
  {
    var s1 := Read(env, s);
    Paragraph.UnitsFirst(env, s1, w);
    Paragraph.ParagraphRoundTrip(env, ctx, s1, w);
    SkipKeepsCheck(env, s1, |w|);
    var p := Harness.CallParser(s1, Paragraph.ParseParagraph(env, ctx, s1));
    assert p == Reply(Parsed(Paragraph([Text(w)])), Skip(env, s1, |w|), []);
    var r := BlockLoop(env, ctx, p.rest, [Para(Paragraph([Text(w)]))], None, 0);
    assert r == Reply(Parsed(Block([Para(Paragraph([Text(w)]))])), Read(env, p.rest), []);
    assert !(w[0] == ':' && ctx.parseTags);
    assert [] + [Para(Paragraph([Text(w)]))] == [Para(Paragraph([Text(w)]))];
    assert BlockChar(env, ctx, s1, w[0], []) == Reply(r.outcome, r.rest, [] + p.warnings + r.warnings);
  }

  /**
   * A block beginning inside a block opens a nested block: when it parses to `b`, `b`
   * is the next child and the block goes on after it; when it holds nothing, the parse
   * stops.
   */
  lemma NestedChild(env: Env, ctx: Context, s: Stream, contents: seq<BlockContent>)
    requires Peek(env, s) == BlockBeginning
    ensures var b := ParseBlock(env, ctx, s);
      b.outcome.Parsed? ==>
        var r := BlockLoop(env, ctx, b.rest, contents + [Nested(b.outcome.value)], None, 0);
        BlockLoop(env, ctx, s, contents, None, 0) == Reply(r.outcome, r.rest, b.warnings + r.warnings)
    ensures var b := ParseBlock(env, ctx, s);
      b.outcome.Mismatched? ==> BlockLoop(env, ctx, s, contents, None, 0) == Reply(Fatal(EmptyNested), s, b.warnings)
  {
    var b := ParseBlock(env, ctx, s);
    assert b.outcome.Parsed? ==> Harness.CallParser(s, b) == b;
  }

  /**
   * At a `:` with tags on, a block tag is tried first: when it parses to `t`, `t` is
   * the next child; when it does not, the `:` starts a paragraph, which is the next
   * child.
   */
  lemma TaggedChild(env: Env, ctx: Context, s: Stream, contents: seq<BlockContent>)
    requires Peek(env, s) == Char(':') && ctx.parseTags
    ensures var t := ParseBlockTag(env, ctx, s);
      t.outcome.Parsed? ==>
        var r := BlockLoop(env, ctx, t.rest, contents + [Tagged(t.outcome.value)], None, 0);
        BlockLoop(env, ctx, s, contents, None, 0) == Reply(r.outcome, r.rest, t.warnings + r.warnings)
    ensures var t := ParseBlockTag(env, ctx, s);
      var p := Paragraph.ParseParagraph(env, ctx, s);
      t.outcome.Mismatched? && p.outcome.Parsed? ==>
        var r := BlockLoop(env, ctx, p.rest, contents + [Para(p.outcome.value)], None, 0);
        BlockLoop(env, ctx, s, contents, None, 0) == Reply(r.outcome, r.rest, t.warnings + p.warnings + r.warnings)
  {
    var t := ParseBlockTag(env, ctx, s);
    var p := Paragraph.ParseParagraph(env, ctx, s);
    assert t.outcome.Parsed? ==> Harness.CallParser(s, t) == t;
    assert p.outcome.Parsed? ==> Harness.CallParser(s, p) == p;
  }

  /** A block holding just a nested block `b` is the block whose only child is `b`. */
  lemma NestedBlock(env: Env, ctx: Context, s: Stream)
    requires Peek(env, s) == BlockBeginning && Peek(env, Read(env, s)) == BlockBeginning
    requires var b := ParseBlock(env, ctx, Read(env, s));
      b.outcome.Parsed? && Peek(env, b.rest) == BlockEnd
    ensures var b := ParseBlock(env, ctx, Read(env, s));
      ParseBlock(env, ctx, s) == Reply(Parsed(Block([Nested(b.outcome.value)])), Read(env, b.rest), b.warnings)
  {
    var s1 := Read(env, s);
    var b := ParseBlock(env, ctx, s1);
    NestedChild(env, ctx, s1, []);
    assert [] + [Nested(b.outcome.value)] == [Nested(b.outcome.value)];
    BlockEnds(env, ctx, b.rest, [Nested(b.outcome.value)], None, 0);
    assert b.warnings + [] == b.warnings;
  }

  /** A block holding just a block tag `t` is the block whose only child is `t`. */
  lemma TaggedBlock(env: Env, ctx: Context, s: Stream)
    requires Peek(env, s) == BlockBeginning && Peek(env, Read(env, s)) == Char(':') && ctx.parseTags
    requires var t := ParseBlockTag(env, ctx, Read(env, s));
      t.outcome.Parsed? && Peek(env, t.rest) == BlockEnd
    ensures var t := ParseBlockTag(env, ctx, Read(env, s));
      ParseBlock(env, ctx, s) == Reply(Parsed(Block([Tagged(t.outcome.value)])), Read(env, t.rest), t.warnings)
  {
    var s1 := Read(env, s);
    var t := ParseBlockTag(env, ctx, s1);
    TaggedChild(env, ctx, s1, []);
    assert [] + [Tagged(t.outcome.value)] == [Tagged(t.outcome.value)];
    BlockEnds(env, ctx, t.rest, [Tagged(t.outcome.value)], None, 0);
    assert t.warnings + [] == t.warnings;
  }

  // ---------------------------------------------------------------------------
  // What may follow a block tag's tag
  // ---------------------------------------------------------------------------

  /** Once its tag is accepted, `parse_block_tag` goes on with what follows the tag. */
  lemma TagAccepted(env: Env, ctx: Context, s: Stream)
    requires Tag.ParseTagAndAttributes(env, ctx, s).outcome.Parsed?
    ensures var t := Tag.ParseTagAndAttributes(env, ctx, s);
      ParseBlockTag(env, ctx, s) == AfterTag(env, ctx, t.rest, t.outcome.value, t.warnings)
  {
    var t := Tag.ParseTagAndAttributes(env, ctx, s);
    assert Harness.CallParser(s, t) == t;
  }

  /** A block tag keeps its tag's name, attributes and bare values. */
  lemma BlockTagKeeps(env: Env, ctx: Context, s: Stream)
    ensures var t := Tag.ParseTagAndAttributes(env, ctx, s);
      var r := ParseBlockTag(env, ctx, s);
      r.outcome.Parsed? ==>
        && t.outcome.Parsed?
        && var v := t.outcome.value;
        && r.outcome.value.name == v.0 && r.outcome.value.attributes == v.1 && r.outcome.value.values == v.2
  {
    var t := Tag.ParseTagAndAttributes(env, ctx, s);
    assert t.outcome.Parsed? ==> Harness.CallParser(s, t) == t;
  }

  /**
   * A block beginning right after the tag is an error; a block end or the end of
   * input leaves the tag with neither header nor body.
   */
  lemma BlockTagAtEnd(env: Env, ctx: Context, s: Stream)
    requires Tag.ParseTagAndAttributes(env, ctx, s).outcome.Parsed?
    ensures var t := Tag.ParseTagAndAttributes(env, ctx, s);
      var v := t.outcome.value;
      var u := Peek(env, t.rest);
      var r := ParseBlockTag(env, ctx, s);
      && (u == BlockBeginning ==> r == Reply(Fatal(BlockMarker), t.rest, t.warnings))
      && (u == BlockEnd || u == Eof ==> r == Reply(Parsed(BlockTag(v.0, v.1, v.2, None, None)), t.rest, t.warnings))
  {
    var t := Tag.ParseTagAndAttributes(env, ctx, s);
    TagAccepted(env, ctx, s);
    var u := Peek(env, t.rest);
    if u == BlockEnd || u == Eof {
      var r := TagBody(env, ctx, t.rest, t.outcome.value, !Raw(t.outcome.value.0.name), t.warnings);
      assert r.warnings == t.warnings + [] + [];
    }
  }

  /**
   * Any character right after the tag other than a space, or a `:` that may open a
   * child, is illegal: the tag is rejected with a warning naming the character.
   */
  lemma BlockTagIllegal(env: Env, ctx: Context, s: Stream)
    requires Tag.ParseTagAndAttributes(env, ctx, s).outcome.Parsed?
    ensures var t := Tag.ParseTagAndAttributes(env, ctx, s);
      var v := t.outcome.value;
      var u := Peek(env, t.rest);
      u.Char? && u.c != ' ' && !(u.c == ':' && !Raw(v.0.name) && !v.0.abbreviation) ==>
        ParseBlockTag(env, ctx, s) == Reply(Mismatched, t.rest, t.warnings + Warn(ctx, t.rest, Illegal(u.c)))
  {
    var t := Tag.ParseTagAndAttributes(env, ctx, s);
    TagAccepted(env, ctx, s);
    assert t.warnings + [] == t.warnings;
  }

  /**
   * `:parent:child`: on a tag that is neither raw nor abbreviated, a `:` right after it
   * opens a child block tag, which becomes the only content of the parent's body, and
   * the parent has no header; when no child parses, the `:` is illegal.
   */
  lemma BlockTagChild(env: Env, ctx: Context, s: Stream)
    requires Tag.ParseTagAndAttributes(env, ctx, s).outcome.Parsed?
    ensures var t := Tag.ParseTagAndAttributes(env, ctx, s);
      var v := t.outcome.value;
      var s1 := t.rest;
      var n := ParseBlockTag(env, ctx, s1);
      var r := ParseBlockTag(env, ctx, s);
      Peek(env, s1) == Char(':') && !Raw(v.0.name) && !v.0.abbreviation ==>
        && (n.outcome.Parsed? ==>
              r == Reply(Parsed(BlockTag(v.0, v.1, v.2, None, Some(Block([Tagged(n.outcome.value)])))), n.rest, t.warnings + n.warnings))
        && (n.outcome.Mismatched? ==> r == Reply(Mismatched, s1, t.warnings + n.warnings + Warn(ctx, s1, Illegal(':'))))
  {
    var t := Tag.ParseTagAndAttributes(env, ctx, s);
    TagAccepted(env, ctx, s);
    var v := t.outcome.value;
    if Peek(env, t.rest) == Char(':') && !Raw(v.0.name) && !v.0.abbreviation {
      AfterTagChild(env, ctx, t.rest, v, t.warnings, ParseBlockTag(env, ctx, t.rest));
    }
  }

  lemma AfterTagChild(env: Env, ctx: Context, s1: Stream, v: (TagName, Attributes, seq<string>), ws: seq<Warning>, n: Reply<BlockTag>)
    requires s1.cursor <= env.size
    requires Peek(env, s1) == Char(':') && !Raw(v.0.name) && !v.0.abbreviation
    requires n == ParseBlockTag(env, ctx, s1)
    ensures var r := AfterTag(env, ctx, s1, v, ws);
      && (n.outcome.Parsed? ==> r == Reply(Parsed(BlockTag(v.0, v.1, v.2, None, Some(Block([Tagged(n.outcome.value)])))), n.rest, ws + n.warnings))
      && (n.outcome.Mismatched? ==> r == Reply(Mismatched, s1, ws + n.warnings + Warn(ctx, s1, Illegal(':'))))
  {
    assert Harness.CallParser(s1, n).outcome == n.outcome;
    assert n.outcome.Parsed? ==> Harness.CallParser(s1, n) == n;
  }

  /**
   * A line break right after the tag is read and the body is the block that follows,
   * parsed with tags off exactly when the tag is raw; there is no header.
   */
  lemma BlockTagBody(env: Env, ctx: Context, s: Stream)
    requires Tag.ParseTagAndAttributes(env, ctx, s).outcome.Parsed?
    ensures var t := Tag.ParseTagAndAttributes(env, ctx, s);
      var v := t.outcome.value;
      var s1 := t.rest;
      var b := ParseBlock(env, ctx.(parseTags := !Raw(v.0.name)), Read(env, s1));
      var r := ParseBlockTag(env, ctx, s);
      Peek(env, s1) == NewLine && !b.outcome.Fatal? ==>
        r.outcome == Parsed(BlockTag(v.0, v.1, v.2, None, if b.outcome.Parsed? then Some(b.outcome.value) else None))
  {
    var t := Tag.ParseTagAndAttributes(env, ctx, s);
    TagAccepted(env, ctx, s);
  }

  /**
   * `:tag header` then a line break: the header is read after the space, the line
   * break that ends it is read, and the body is the block that follows, parsed with
   * tags off exactly when the tag is raw.
   */
  lemma BlockTagHeaderThenBody(env: Env, ctx: Context, s: Stream)
    requires Tag.ParseTagAndAttributes(env, ctx, s).outcome.Parsed?
    ensures var t := Tag.ParseTagAndAttributes(env, ctx, s);
      var v := t.outcome.value;
      var h := BlockTagHeader.ParseHeader(env, ctx, Read(env, t.rest));
      var s4 := Read(env, h.rest);
      var b := ParseBlock(env, ctx.(parseTags := !Raw(v.0.name)), s4);
      var r := ParseBlockTag(env, ctx, s);
      Peek(env, t.rest) == Char(' ') && h.outcome.Parsed? && Peek(env, h.rest) == NewLine && !b.outcome.Fatal? ==>
        && r.outcome == Parsed(BlockTag(v.0, v.1, v.2, Some(h.outcome.value), if b.outcome.Parsed? then Some(b.outcome.value) else None))
        && r.warnings == t.warnings + h.warnings + b.warnings
        && r.rest.cursor == (if b.outcome.Parsed? then b.rest.cursor else s4.cursor)
  {
    TagAccepted(env, ctx, s);
  }

  /** A header is parsed only after a space right after the tag, and that space is read first. */
  lemma BlockTagHeaderAfterSpace(env: Env, ctx: Context, s: Stream)
    requires Tag.ParseTagAndAttributes(env, ctx, s).outcome.Parsed?
    ensures var t := Tag.ParseTagAndAttributes(env, ctx, s);
      var s1 := t.rest;
      var h := BlockTagHeader.ParseHeader(env, ctx, Read(env, s1));
      var r := ParseBlockTag(env, ctx, s);
      && (r.outcome.Parsed? && r.outcome.value.header.Some? ==> Peek(env, s1) == Char(' '))
      && (r.outcome.Parsed? && Peek(env, s1) == Char(' ') ==>
            r.outcome.value.header == if h.outcome.Parsed? then Some(h.outcome.value) else None)
  {
    var t := Tag.ParseTagAndAttributes(env, ctx, s);
    TagAccepted(env, ctx, s);
    AfterTagHeader(env, ctx, t.rest, t.outcome.value, t.warnings);
  }

  lemma AfterTagHeader(env: Env, ctx: Context, s1: Stream, v: (TagName, Attributes, seq<string>), ws: seq<Warning>)
    requires s1.cursor <= env.size
    ensures var h := BlockTagHeader.ParseHeader(env, ctx, Read(env, s1));
      var r := AfterTag(env, ctx, s1, v, ws);
      && (r.outcome.Parsed? && r.outcome.value.header.Some? ==> Peek(env, s1) == Char(' '))
      && (r.outcome.Parsed? && Peek(env, s1) == Char(' ') ==>
            r.outcome.value.header == if h.outcome.Parsed? then Some(h.outcome.value) else None)
  {
    TagBodyHeader(env, ctx, s1, v, !Raw(v.0.name), ws);
  }

  lemma TagBodyHeader(env: Env, ctx: Context, s1: Stream, v: (TagName, Attributes, seq<string>), parseTags: bool, ws: seq<Warning>)
    requires s1.cursor <= env.size
    ensures var h := BlockTagHeader.ParseHeader(env, ctx, Read(env, s1));
      var r := TagBody(env, ctx, s1, v, parseTags, ws);
      && (r.outcome.Parsed? && r.outcome.value.header.Some? ==> Peek(env, s1) == Char(' '))
      && (r.outcome.Parsed? && Peek(env, s1) == Char(' ') ==>
            r.outcome.value.header == if h.outcome.Parsed? then Some(h.outcome.value) else None)
  {
    var h := BlockTagHeader.ParseHeader(env, ctx, Read(env, s1));
    assert Peek(env, s1) == Char(' ') && !h.outcome.Fatal? ==> Harness.CallParser(Read(env, s1), h).outcome == h.outcome;
  }
}
