/**
 * The header of a block tag: the inline content on the tag's own line after a space
 * (src/build/step3/block_tag_header.rs).
 */
module BlockTagHeader {
  import opened ParseStream
  import opened Content
  import Harness

  const UnexpectedBeginning := "Unexpected block beginning."

  /** What ends a header, left unread: a line break, a block end, or the end. */
  predicate EndsHeader(u: Unit) {
    u == NewLine || u == BlockEnd || u == Eof
  }

  /**
   * The loop of `parse_block_tag_header`: `contents` is what is settled, `text` the
   * pending run of characters. At `:` an inline tag is tried first; when it does not
   * match, the `:` is text.
   */
  function HeaderLoop(env: Env, ctx: Context, s: Stream, contents: seq<Inline>, text: string): (r: Reply<seq<Inline>>)
    ensures !r.outcome.Mismatched? && r.rest.check == s.check
    ensures r.outcome.Parsed? ==> EndsHeader(Peek(env, r.rest)) && (r.rest == s || Advanced(env, s, r.rest))
    ensures r.outcome.Parsed? && r.rest == s ==> r.outcome.value == Flush(contents, text)
    ensures Peek(env, s) == BlockBeginning ==> r == Reply(Fatal(UnexpectedBeginning), s, [])
    decreases env.size - s.cursor
  {
    match Peek(env, s)
    case Char(c) =>
      var t := if c == ':' then Harness.CallParser(s, env.inline(s, ctx)) else Reply(Mismatched, s, []);
      if t.outcome.Fatal? then Reply(Fatal(t.outcome.message), t.rest, t.warnings)
      else
        var r :=
          if t.outcome.Parsed? then HeaderLoop(env, ctx, t.rest, Flush(contents, text) + [Tag(t.outcome.value)], "")
          else HeaderLoop(env, ctx, Read(env, s), contents, text + [c]);
        Reply(r.outcome, r.rest, t.warnings + r.warnings)
    case BlockBeginning => Reply(Fatal(UnexpectedBeginning), s, [])
    case NewLine => Reply(Parsed(Flush(contents, text)), s, [])
    case BlockEnd => Reply(Parsed(Flush(contents, text)), s, [])
    case Eof => Reply(Parsed(Flush(contents, text)), s, [])
  }

  /**
   * `parse_block_tag_header`: the inline content up to the end of the line; nothing
   * when there is none.
   */
  function ParseHeader(env: Env, ctx: Context, s: Stream): (r: Reply<Header>)
    ensures r.rest.check == s.check
    ensures r.outcome.Parsed? ==> |r.outcome.value.contents| > 0 && Advanced(env, s, r.rest) && EndsHeader(Peek(env, r.rest))
    ensures Peek(env, s) == BlockBeginning ==> r == Reply(Fatal(UnexpectedBeginning), s, [])
    ensures EndsHeader(Peek(env, s)) ==> r == Reply(Mismatched, s, [])
  {
    var r := HeaderLoop(env, ctx, s, [], "");
    if r.outcome.Fatal? then Reply(Fatal(r.outcome.message), r.rest, r.warnings)
    else if r.outcome.value == [] then Reply(Mismatched, r.rest, r.warnings)
    else Reply(Parsed(Header(r.outcome.value)), r.rest, r.warnings)
  }

  lemma {:induction false} HeaderLoopNormal(env: Env, ctx: Context, s: Stream, contents: seq<Inline>, text: string)
    requires Settled(contents)
    ensures var r := HeaderLoop(env, ctx, s, contents, text);
      r.outcome.Parsed? ==> Normal(r.outcome.value) && contents <= r.outcome.value
    decreases env.size - s.cursor
  {
    var u := Peek(env, s);
    if u.Char? {
      var t := if u.c == ':' then Harness.CallParser(s, env.inline(s, ctx)) else Reply(Mismatched, s, []);
      if t.outcome.Parsed? {
        FlushTagSettled(contents, text, t.outcome.value);
        HeaderLoopNormal(env, ctx, t.rest, Flush(contents, text) + [Tag(t.outcome.value)], "");
      } else if !t.outcome.Fatal? {
        HeaderLoopNormal(env, ctx, Read(env, s), contents, text + [u.c]);
      }
    } else {
      FlushNormal(contents, text);
    }
  }

  /**
   * A header's content is normal: text runs are joined, and no text is empty, so a
   * tag is always preceded by its text in one piece.
   */
  lemma HeaderNormal(env: Env, ctx: Context, s: Stream)
    ensures var r := ParseHeader(env, ctx, s);
      r.outcome.Parsed? ==> Normal(r.outcome.value.contents)
  {
    HeaderLoopNormal(env, ctx, s, [], "");
  }

  lemma {:induction false} HeaderLoopReads(env: Env, ctx: Context, s: Stream, contents: seq<Inline>, text: string, t: string)
    requires Ahead(env, s, |t|) == CharsOf(t) && ColonsDecline(env, ctx, s, t, true)
    requires EndsHeader(Peek(env, Skip(env, s, |t|)))
    ensures HeaderLoop(env, ctx, s, contents, text) == Reply(Parsed(Flush(contents, text + t)), Skip(env, s, |t|), [])
    decreases |t|
  {
    if t == [] {
      assert text + t == text;
    } else {
      AheadFirst(env, s, t);
      ColonsDeclineTail(env, ctx, s, t, true);
      HeaderLoopReads(env, ctx, Read(env, s), contents, text + [t[0]], t[1..]);
      assert text + [t[0]] + t[1..] == text + t;
    }
  }

  /**
   * Round trip: a line of text whose colons open no inline tag, followed by the end of
   * the line, is the header holding exactly that text; an empty line is no header.
   */
  lemma HeaderRoundTrip(env: Env, ctx: Context, s: Stream, t: string)
    requires Ahead(env, s, |t|) == CharsOf(t) && ColonsDecline(env, ctx, s, t, true)
    requires EndsHeader(Peek(env, Skip(env, s, |t|)))
    ensures ParseHeader(env, ctx, s) ==
      if t == [] then Reply(Mismatched, s, []) else Reply(Parsed(Header([Text(t)])), Skip(env, s, |t|), [])
  {
    HeaderLoopReads(env, ctx, s, [], "", t);
    assert "" + t == t;
    var r := HeaderLoop(env, ctx, s, [], "");
    if t == [] {
      assert r.rest == s;
      assert r.outcome.value == [];
    } else {
      assert r.outcome.value == [Text(t)];
    }
  }

  /**
   * A `:` is tried as an inline tag first: when one parses, the pending text is
   * flushed, the tag follows it, and the header goes on after the tag; when the
   * inline-tag parser fails, so does the header.
   */
  lemma HeaderTagStep(env: Env, ctx: Context, s: Stream, contents: seq<Inline>, text: string)
    requires Peek(env, s) == Char(':')
    ensures var t := Harness.CallParser(s, env.inline(s, ctx));
      t.outcome.Parsed? ==>
        var r := HeaderLoop(env, ctx, t.rest, Flush(contents, text) + [Tag(t.outcome.value)], "");
        HeaderLoop(env, ctx, s, contents, text) == Reply(r.outcome, r.rest, t.warnings + r.warnings)
    ensures var t := env.inline(s, ctx);
      t.outcome.Fatal? ==> HeaderLoop(env, ctx, s, contents, text) == Reply(Fatal(t.outcome.message), s, t.warnings)
  {
  }

  /** A character whose colon, if any, opens no inline tag is text. */
  lemma HeaderCharStep(env: Env, ctx: Context, s: Stream, contents: seq<Inline>, text: string, c: char)
    requires Peek(env, s) == Char(c) && (c == ':' ==> Declines(env, ctx, s))
    ensures HeaderLoop(env, ctx, s, contents, text) == HeaderLoop(env, ctx, Read(env, s), contents, text + [c])
  {
    var t := if c == ':' then Harness.CallParser(s, env.inline(s, ctx)) else Reply(Mismatched, s, []);
    assert t == Reply(Mismatched, s, []);
    var r := HeaderLoop(env, ctx, Read(env, s), contents, text + [c]);
    assert [] + r.warnings == r.warnings;
  }

  /** Characters whose colons open no inline tag join the pending text. */
  lemma {:induction false} HeaderChars(env: Env, ctx: Context, s: Stream, contents: seq<Inline>, text: string, a: string)
    requires Ahead(env, s, |a|) == CharsOf(a) && ColonsDecline(env, ctx, s, a, true)
    ensures HeaderLoop(env, ctx, s, contents, text) == HeaderLoop(env, ctx, Skip(env, s, |a|), contents, text + a)
    decreases |a|
  {
    if a == [] {
      assert text + a == text;
    } else {
      var s1 := Read(env, s);
      var text1 := text + [a[0]];
      calc {
        HeaderLoop(env, ctx, s, contents, text);
        == { AheadFirst(env, s, a); ColonsDeclineTail(env, ctx, s, a, true);
             HeaderCharStep(env, ctx, s, contents, text, a[0]); }
        HeaderLoop(env, ctx, s1, contents, text1);
        == { AheadFirst(env, s, a); ColonsDeclineTail(env, ctx, s, a, true);
             HeaderChars(env, ctx, s1, contents, text1, a[1..]); }
        HeaderLoop(env, ctx, Skip(env, s1, |a[1..]|), contents, text1 + a[1..]);
        == { assert text1 + a[1..] == text + a; assert Skip(env, s1, |a[1..]|) == Skip(env, s, |a|); }
        HeaderLoop(env, ctx, Skip(env, s, |a|), contents, text + a);
      }
    }
  }

  /**
   * Round trip with an inline tag: text `a`, a `:` where an inline tag parses to `x`,
   * then text `b` up to the end of the line, make the header `a`, `x`, `b`, carrying
   * the tag's warnings.
   */
  lemma HeaderTagRoundTrip(env: Env, ctx: Context, s: Stream, a: string, b: string)
    requires Ahead(env, s, |a|) == CharsOf(a) && ColonsDecline(env, ctx, s, a, true)
    requires Peek(env, Skip(env, s, |a|)) == Char(':') && env.inline(Skip(env, s, |a|), ctx).outcome.Parsed?
    requires var t := Harness.CallParser(Skip(env, s, |a|), env.inline(Skip(env, s, |a|), ctx));
      && Ahead(env, t.rest, |b|) == CharsOf(b) && ColonsDecline(env, ctx, t.rest, b, true)
      && EndsHeader(Peek(env, Skip(env, t.rest, |b|)))
    ensures var t := Harness.CallParser(Skip(env, s, |a|), env.inline(Skip(env, s, |a|), ctx));
      ParseHeader(env, ctx, s) ==
        Reply(Parsed(Header(Flush([], a) + [Tag(t.outcome.value)] + Flush([], b))), Skip(env, t.rest, |b|), t.warnings)
  {
    var sa := Skip(env, s, |a|);
    var t := Harness.CallParser(sa, env.inline(sa, ctx));
    var before := Flush([], a) + [Tag(t.outcome.value)];
    HeaderChars(env, ctx, s, [], "", a);
    assert "" + a == a;
    HeaderTagStep(env, ctx, sa, [], a);
    HeaderLoopReads(env, ctx, t.rest, before, "", b);
    assert "" + b == b;
    assert t.warnings + [] == t.warnings;
    assert Flush(before, b) == before + Flush([], b);
  }
}
