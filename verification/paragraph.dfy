/**
 * Paragraphs: runs of text lines with inline tags (src/build/step3/paragraph.rs).
 *
 * The paragraph file predates the other parser files; it is modelled against the same
 * stream and context as they are, so inline tags are tried only while tags are parsed
 * (raw blocks keep `:` literally), and a block marker that is not preceded by a line
 * break ends the paragraph instead of being impossible.
 */
module Paragraph {
  import opened ParseStream
  import opened Content
  import Harness

  /** What a line break inside a paragraph may not be followed by: the paragraph ends before it. */
  predicate BreaksParagraph(u: Unit) {
    u == NewLine || u == BlockBeginning || u == BlockEnd
  }

  /**
   * The loop of `parse_paragraph`. A line break is read and becomes `\n`; the
   * paragraph ends after it when a blank line or a block marker follows, and at the end
   * of input.
   */
  function ParagraphLoop(env: Env, ctx: Context, s: Stream, contents: seq<Inline>, text: string): (r: Reply<seq<Inline>>)
    ensures !r.outcome.Mismatched? && r.rest.check == s.check
    ensures !ctx.parseTags ==> r.outcome.Parsed?
    ensures r.outcome.Parsed? ==> !Peek(env, r.rest).Char? && (r.rest == s || Advanced(env, s, r.rest))
    decreases env.size - s.cursor
  {
    match Peek(env, s)
    case Char(c) =>
      var t := if c == ':' && ctx.parseTags then Harness.CallParser(s, env.inline(s, ctx)) else Reply(Mismatched, s, []);
      if t.outcome.Fatal? then Reply(Fatal(t.outcome.message), t.rest, t.warnings)
      else
        var r :=
          if t.outcome.Parsed? then ParagraphLoop(env, ctx, t.rest, Flush(contents, text) + [Tag(t.outcome.value)], "")
          else ParagraphLoop(env, ctx, Read(env, s), contents, text + [c]);
        Reply(r.outcome, r.rest, t.warnings + r.warnings)
    case NewLine =>
      var s1 := Read(env, s);
      if BreaksParagraph(Peek(env, s1)) then Reply(Parsed(Flush(contents, text + "\n")), s1, [])
      else ParagraphLoop(env, ctx, s1, contents, text + "\n")
    case Eof => Reply(Parsed(Flush(contents, text)), s, [])
    case BlockBeginning => Reply(Parsed(Flush(contents, text)), s, [])
    case BlockEnd => Reply(Parsed(Flush(contents, text)), s, [])
  }

  lemma {:induction false} ParagraphLoopContent(env: Env, ctx: Context, s: Stream, contents: seq<Inline>, text: string)
    requires Settled(contents)
    ensures var r := ParagraphLoop(env, ctx, s, contents, text);
      r.outcome.Parsed? ==>
        && Normal(r.outcome.value)
        && (!ctx.parseTags && Untagged(contents) ==> Untagged(r.outcome.value))
    decreases env.size - s.cursor
  {
    var u := Peek(env, s);
    if u.Char? {
      var t := if u.c == ':' && ctx.parseTags then Harness.CallParser(s, env.inline(s, ctx)) else Reply(Mismatched, s, []);
      if t.outcome.Parsed? {
        FlushTagSettled(contents, text, t.outcome.value);
        ParagraphLoopContent(env, ctx, t.rest, Flush(contents, text) + [Tag(t.outcome.value)], "");
      } else if !t.outcome.Fatal? {
        ParagraphLoopContent(env, ctx, Read(env, s), contents, text + [u.c]);
      }
    } else if u == NewLine {
      var s1 := Read(env, s);
      if BreaksParagraph(Peek(env, s1)) {
        FlushNormal(contents, text + "\n");
      } else {
        ParagraphLoopContent(env, ctx, s1, contents, text + "\n");
      }
    } else {
      FlushNormal(contents, text);
    }
  }

  /**
   * `parse_paragraph`: it always parses (an inline-tag error is passed on); it stops
   * before a unit that is not a character, its content is normal, and with tags off it
   * is plain text.
   */
  function ParseParagraph(env: Env, ctx: Context, s: Stream): (r: Reply<Paragraph>)
    ensures !r.outcome.Mismatched? && r.rest.check == s.check
    ensures !ctx.parseTags ==> r.outcome.Parsed?
    ensures r.outcome.Parsed? ==>
      && Normal(r.outcome.value.contents)
      && (!ctx.parseTags ==> Untagged(r.outcome.value.contents))
      && !Peek(env, r.rest).Char?
      && (Peek(env, s).Char? ==> Advanced(env, s, r.rest))
  {
    ParagraphLoopContent(env, ctx, s, [], "");
    var r := ParagraphLoop(env, ctx, s, [], "");
    if r.outcome.Fatal? then Reply(Fatal(r.outcome.message), r.rest, r.warnings)
    else Reply(Parsed(Paragraph(r.outcome.value)), r.rest, r.warnings)
  }

  /** The units of a text: `\n` is a line break, every other character is itself. */
  function UnitsOf(w: string): (r: seq<Unit>)
    ensures |r| == |w|
    ensures forall i :: 0 <= i < |w| ==> r[i] == (if w[i] == '\n' then NewLine else Char(w[i]))
  {
    seq(|w|, i requires 0 <= i < |w| => if w[i] == '\n' then NewLine else Char(w[i]))
  }

  /** No blank line inside the text. */
  predicate NoBlankLine(w: string) {
    forall i :: 0 <= i < |w| ==> !BlankAt(w, i)
  }

  /** Two line breaks in a row at `i`. */
  predicate BlankAt(w: string, i: nat) {
    i + 1 < |w| && w[i] == '\n' && w[i + 1] == '\n'
  }

  /** What may follow the text of a whole paragraph. */
  predicate EndsParagraph(w: string, u: Unit) {
    u == Eof || u == BlockBeginning || u == BlockEnd || (|w| > 0 && w[|w| - 1] == '\n' && u == NewLine)
  }

  lemma TextTail(w: string, u: Unit)
    requires |w| > 0 && NoBlankLine(w) && EndsParagraph(w, u)
    ensures NoBlankLine(w[1..])
    ensures |w| > 1 || w[0] != '\n' ==> EndsParagraph(w[1..], u)
    ensures w[0] == '\n' && |w| > 1 ==> w[1] != '\n'
  {
    forall i | 0 <= i < |w| - 1
      ensures !BlankAt(w[1..], i)
    {
      assert !BlankAt(w, i + 1);
    }
    assert !BlankAt(w, 0);
  }

  lemma UnitsFirst(env: Env, s: Stream, w: string)
    requires |w| > 0 && Ahead(env, s, |w|) == UnitsOf(w)
    ensures Peek(env, s) == (if w[0] == '\n' then NewLine else Char(w[0]))
    ensures Ahead(env, Read(env, s), |w| - 1) == UnitsOf(w[1..])
    ensures Skip(env, s, |w|) == Skip(env, Read(env, s), |w| - 1)
  {
    assert Ahead(env, s, |w|)[0] == UnitsOf(w)[0];
    assert Ahead(env, s, |w|)[1..] == Ahead(env, Read(env, s), |w| - 1);
  }

  /** A character whose colon, if any, opens no inline tag is text. */
  lemma ParagraphCharStep(env: Env, ctx: Context, s: Stream, contents: seq<Inline>, text: string, c: char)
    requires Peek(env, s) == Char(c) && (c == ':' && ctx.parseTags ==> Declines(env, ctx, s))
    ensures ParagraphLoop(env, ctx, s, contents, text) == ParagraphLoop(env, ctx, Read(env, s), contents, text + [c])
  {
    var t := if c == ':' && ctx.parseTags then Harness.CallParser(s, env.inline(s, ctx)) else Reply(Mismatched, s, []);
    assert t == Reply(Mismatched, s, []);
    var r := ParagraphLoop(env, ctx, Read(env, s), contents, text + [c]);
    assert [] + r.warnings == r.warnings;
  }

  /**
   * A `:` is tried as an inline tag first: when one parses, the pending text is
   * flushed, the tag follows it, and the paragraph goes on after the tag; when the
   * inline-tag parser fails, so does the paragraph.
   */
  lemma ParagraphTagStep(env: Env, ctx: Context, s: Stream, contents: seq<Inline>, text: string)
    requires Peek(env, s) == Char(':') && ctx.parseTags
    ensures var t := Harness.CallParser(s, env.inline(s, ctx));
      t.outcome.Parsed? ==>
        var r := ParagraphLoop(env, ctx, t.rest, Flush(contents, text) + [Tag(t.outcome.value)], "");
        ParagraphLoop(env, ctx, s, contents, text) == Reply(r.outcome, r.rest, t.warnings + r.warnings)
    ensures var t := env.inline(s, ctx);
      t.outcome.Fatal? ==> ParagraphLoop(env, ctx, s, contents, text) == Reply(Fatal(t.outcome.message), s, t.warnings)
  {
  }

  /** Characters whose colons open no inline tag join the pending text. */
  lemma {:induction false} ParagraphChars(env: Env, ctx: Context, s: Stream, contents: seq<Inline>, text: string, a: string)
    requires Ahead(env, s, |a|) == CharsOf(a) && ColonsDecline(env, ctx, s, a, ctx.parseTags)
    ensures ParagraphLoop(env, ctx, s, contents, text) == ParagraphLoop(env, ctx, Skip(env, s, |a|), contents, text + a)
    decreases |a|
  {
    if a == [] {
      assert text + a == text;
    } else {
      var s1 := Read(env, s);
      var text1 := text + [a[0]];
      calc {
        ParagraphLoop(env, ctx, s, contents, text);
        == { AheadFirst(env, s, a); ColonsDeclineTail(env, ctx, s, a, ctx.parseTags);
             ParagraphCharStep(env, ctx, s, contents, text, a[0]); }
        ParagraphLoop(env, ctx, s1, contents, text1);
        == { AheadFirst(env, s, a); ColonsDeclineTail(env, ctx, s, a, ctx.parseTags);
             ParagraphChars(env, ctx, s1, contents, text1, a[1..]); }
        ParagraphLoop(env, ctx, Skip(env, s1, |a[1..]|), contents, text1 + a[1..]);
        == { assert text1 + a[1..] == text + a; assert Skip(env, s1, |a[1..]|) == Skip(env, s, |a|); }
        ParagraphLoop(env, ctx, Skip(env, s, |a|), contents, text + a);
      }
    }
  }

  /** A line break is read; the paragraph ends after it when what follows breaks it. */
  lemma ParagraphLineStep(env: Env, ctx: Context, s: Stream, contents: seq<Inline>, text: string)
    requires Peek(env, s) == NewLine
    ensures var s1 := Read(env, s);
      ParagraphLoop(env, ctx, s, contents, text) ==
        if BreaksParagraph(Peek(env, s1)) then Reply(Parsed(Flush(contents, text + "\n")), s1, [])
        else ParagraphLoop(env, ctx, s1, contents, text + "\n")
  {
  }

  /** A final line break followed by what ends a paragraph. */
  lemma ParagraphLastBreak(env: Env, ctx: Context, s: Stream, contents: seq<Inline>, text: string)
    requires Peek(env, s) == NewLine && EndsParagraph("\n", Peek(env, Read(env, s)))
    ensures ParagraphLoop(env, ctx, s, contents, text) == Reply(Parsed(Flush(contents, text + "\n")), Read(env, s), [])
  {
    var s1 := Read(env, s);
    ParagraphLineStep(env, ctx, s, contents, text);
    if !BreaksParagraph(Peek(env, s1)) {
      assert Peek(env, s1) == Eof;
    }
  }

  /**
   * The next units are the text `w`, which has no blank line, whose colons open no
   * inline tag, and which is followed by what ends a paragraph.
   */
  predicate ReadsText(env: Env, ctx: Context, s: Stream, w: string) {
    && Ahead(env, s, |w|) == UnitsOf(w) && ColonsDecline(env, ctx, s, w, ctx.parseTags)
    && NoBlankLine(w) && EndsParagraph(w, Peek(env, Skip(env, s, |w|)))
  }

  /** Reading the first unit of such a text leaves the rest of it. */
  lemma ReadsTextTail(env: Env, ctx: Context, s: Stream, w: string)
    requires ReadsText(env, ctx, s, w) && |w| > 0
    ensures Peek(env, s) == (if w[0] == '\n' then NewLine else Char(w[0]))
    ensures w[0] == ':' && ctx.parseTags ==> Declines(env, ctx, s)
    ensures Skip(env, s, |w|) == Skip(env, Read(env, s), |w| - 1)
    ensures w == "\n" ==> EndsParagraph("\n", Peek(env, Read(env, s)))
    ensures w != "\n" ==> ReadsText(env, ctx, Read(env, s), w[1..])
    ensures w[0] == '\n' && w != "\n" ==> !BreaksParagraph(Peek(env, Read(env, s)))
  {
    var end := Peek(env, Skip(env, s, |w|));
    UnitsFirst(env, s, w);
    TextTail(w, end);
    ColonsDeclineTail(env, ctx, s, w, ctx.parseTags);
    if |w| == 1 {
      assert Skip(env, Read(env, s), 0) == Read(env, s);
    } else if w[0] == '\n' {
      UnitsFirst(env, Read(env, s), w[1..]);
    }
  }

  /**
   * `ReadsText` one unit at a time: the first unit of `w` comes next (a colon of it
   * opening no inline tag, a line break of it not followed by another), and then the
   * rest of `w`.
   */
  predicate ReadsStep(env: Env, ctx: Context, s: Stream, w: string)
    decreases |w|
  {
    if w == [] then EndsParagraph(w, Peek(env, s))
    else if w == "\n" then Peek(env, s) == NewLine && EndsParagraph(w, Peek(env, Read(env, s)))
    else
      && Peek(env, s) == (if w[0] == '\n' then NewLine else Char(w[0]))
      && (w[0] == ':' && ctx.parseTags ==> Declines(env, ctx, s))
      && (w[0] == '\n' ==> w[1] != '\n')
      && ReadsStep(env, ctx, Read(env, s), w[1..])
  }

  lemma {:induction false} ReadsTextStep(env: Env, ctx: Context, s: Stream, w: string)
    requires ReadsText(env, ctx, s, w)
    ensures ReadsStep(env, ctx, s, w)
    decreases |w|
  {
    if w == [] {
      assert Skip(env, s, 0) == s;
    } else {
      ReadsTextTail(env, ctx, s, w);
      if w != "\n" {
        ReadsTextStep(env, ctx, Read(env, s), w[1..]);
        TextTail(w, Peek(env, Skip(env, s, |w|)));
      }
    }
  }

  lemma {:induction false} ParagraphLoopReads(env: Env, ctx: Context, s: Stream, contents: seq<Inline>, text: string, w: string)
    requires ReadsStep(env, ctx, s, w)
    ensures ParagraphLoop(env, ctx, s, contents, text) == Reply(Parsed(Flush(contents, text + w)), Skip(env, s, |w|), [])
    decreases |w|
  {
    if w == [] {
      assert text + w == text;
    } else if w == "\n" {
      assert Skip(env, Read(env, s), 0) == Read(env, s);
      ParagraphLastBreak(env, ctx, s, contents, text);
    } else {
      var s1 := Read(env, s);
      if w[0] == '\n' {
        assert text + "\n" == text + [w[0]];
        ParagraphLineStep(env, ctx, s, contents, text);
        assert Peek(env, s1) == Char(w[1]);
      } else {
        ParagraphCharStep(env, ctx, s, contents, text, w[0]);
      }
      ParagraphLoopReads(env, ctx, s1, contents, text + [w[0]], w[1..]);
      assert text + [w[0]] + w[1..] == text + w;
    }
  }

  /**
   * Round trip: lines of text with no blank line among them, whose colons open no
   * inline tag, and followed by what ends a paragraph, are one paragraph holding
   * exactly that text, line breaks included.
   */
  lemma ParagraphRoundTrip(env: Env, ctx: Context, s: Stream, w: string)
    requires Ahead(env, s, |w|) == UnitsOf(w) && ColonsDecline(env, ctx, s, w, ctx.parseTags)
    requires NoBlankLine(w) && EndsParagraph(w, Peek(env, Skip(env, s, |w|)))
    ensures ParseParagraph(env, ctx, s) ==
      Reply(Parsed(Paragraph(if w == [] then [] else [Text(w)])), Skip(env, s, |w|), [])
  {
    ReadsTextStep(env, ctx, s, w);
    ParagraphLoopReads(env, ctx, s, [], "", w);
    assert "" + w == w;
    var r := ParagraphLoop(env, ctx, s, [], "");
    assert ParseParagraph(env, ctx, s) == Reply(Parsed(Paragraph(r.outcome.value)), r.rest, r.warnings);
    if w == [] {
      assert r.outcome.value == [];
    } else {
      assert r.outcome.value == [Text(w)];
    }
  }

  /**
   * Round trip with an inline tag: text `a`, a `:` where an inline tag parses to `x`,
   * then text `b` that ends the paragraph, make the paragraph `a`, `x`, `b`, carrying
   * the tag's warnings.
   */
  lemma ParagraphTagRoundTrip(env: Env, ctx: Context, s: Stream, a: string, b: string)
    requires ctx.parseTags
    requires Ahead(env, s, |a|) == CharsOf(a) && ColonsDecline(env, ctx, s, a, true)
    requires Peek(env, Skip(env, s, |a|)) == Char(':') && env.inline(Skip(env, s, |a|), ctx).outcome.Parsed?
    requires ReadsText(env, ctx, Harness.CallParser(Skip(env, s, |a|), env.inline(Skip(env, s, |a|), ctx)).rest, b)
    ensures var t := Harness.CallParser(Skip(env, s, |a|), env.inline(Skip(env, s, |a|), ctx));
      ParseParagraph(env, ctx, s) ==
        Reply(Parsed(Paragraph(Flush([], a) + [Tag(t.outcome.value)] + Flush([], b))), Skip(env, t.rest, |b|), t.warnings)
  {
    var sa := Skip(env, s, |a|);
    var t := Harness.CallParser(sa, env.inline(sa, ctx));
    var before := Flush([], a) + [Tag(t.outcome.value)];
    ParagraphChars(env, ctx, s, [], "", a);
    assert "" + a == a;
    ParagraphTagStep(env, ctx, sa, [], a);
    ReadsTextStep(env, ctx, t.rest, b);
    ParagraphLoopReads(env, ctx, t.rest, before, "", b);
    assert "" + b == b;
    assert t.warnings + [] == t.warnings;
    assert Flush(before, b) == before + Flush([], b);
  }
}
