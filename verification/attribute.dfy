/**
 * Attribute lists `[name=value "quoted" bare ...]` (src/build/step3/attribute.rs).
 *
 * Inside the brackets the indent check is off, entries need no separator, a repeated
 * name keeps its first value, and a quoted value doubles `"` to write one.
 */
module Attribute {
  import opened Wrappers
  import opened ParseStream
  import Content
  import Harness
  import Symbol

  const BlockMarker := "Unexpected block beginning or end."
  const Unclosed := "A quoted attribute value is not closed."
  const NoName := "There is no attribute name."
  const Duplicated := "The attributes are duplicated."
  const Unterminated := "']' is required."
  const CheckOff := "Block beginning or end occurred while indent check mode is off."

  /** The warning for a `"` or `=` inside an unquoted value. */
  function Misplaced(c: char): string {
    (if c == '"' then "Quotes" else "Equal Signs") + " cannot be written in the middle of an attribute value."
  }

  // ---------------------------------------------------------------------------
  // Quoted values
  // ---------------------------------------------------------------------------

  /** The writing of a value between quotes: every `"` doubled. */
  function Escape(v: string): (r: string)
    ensures |r| >= |v|
  {
    if v == [] then [] else (if v[0] == '"' then "\"\"" else [v[0]]) + Escape(v[1..])
  }

  function Quote(v: string): string {
    "\"" + Escape(v) + "\""
  }

  /** What may follow the closing quote: a line break, the end, or any character but `"`. */
  predicate EndsQuote(u: Unit) {
    u == NewLine || u == Eof || (u.Char? && u.c != '"')
  }

  /**
   * The units a quoted-value loop reads for the value part `d`: the escaped text and
   * the closing quote, less the quote already seen when `found` is set.
   */
  function QuotedTail(found: bool, d: string): string {
    var t := Escape(d) + "\"";
    if found then t[1..] else t
  }

  lemma EscapeCons(c: char, d: string)
    ensures Escape([c] + d) == (if c == '"' then "\"\"" else [c]) + Escape(d)
  {
    assert ([c] + d)[1..] == d;
  }

  /** A value part that is empty or starts with `"` is written starting with `"`. */
  lemma QuoteOpens(d: string)
    ensures d == [] || d[0] == '"' ==> Escape(d) + "\"" == ['"'] + QuotedTail(true, d)
  {
    if d != [] && d[0] == '"' {
      EscapeCons('"', d[1..]);
      assert d == ['"'] + d[1..];
    }
  }

  /** A line break or the end before the closing quote: only a pending quote closes the value. */
  function QuotedEnd(ctx: Context, s: Stream, value: string, found: bool): (r: Reply<string>) {
    if found then Reply(Parsed(value), s, []) else Reply(Mismatched, s, Warn(ctx, s, Unclosed))
  }

  /**
   * The loop of `parse_quoted_attribute_value`; `found` says that the last unit read
   * was a quote that may be the first of a doubled pair.
   */
  function QuotedLoop(env: Env, ctx: Context, s: Stream, value: string, found: bool): (r: Reply<string>)
    ensures r.rest.check == s.check
    decreases env.size - s.cursor
  {
    match Peek(env, s)
    case Char(c) =>
      if c == '"' then
        if found then QuotedLoop(env, ctx, Read(env, s), value + ['"'], false)
        else QuotedLoop(env, ctx, Read(env, s), value, true)
      else if found then Reply(Parsed(value), s, [])
      else QuotedLoop(env, ctx, Read(env, s), value + [c], false)
    case NewLine => QuotedEnd(ctx, s, value, found)
    case Eof => QuotedEnd(ctx, s, value, found)
    case BlockBeginning => Reply(Fatal(BlockMarker), s, [])
    case BlockEnd => Reply(Fatal(BlockMarker), s, [])
  }

  /**
   * What the loop reads when it parses: the written form of the value part it adds
   * (less a quote already seen), stopping where nothing can continue it.
   */
  predicate QuotedRead(env: Env, s: Stream, value: string, found: bool, r: Reply<string>)
    requires r.outcome.Parsed?
  {
    var w := r.outcome.value;
    && value <= w
    && (found ==> w[|value|..] == [] || w[|value|] == '"')
    && var tail := QuotedTail(found, w[|value|..]);
    && Ahead(env, s, |tail|) == CharsOf(tail)
    && r.rest == Skip(env, s, |tail|)
    && EndsQuote(Peek(env, r.rest))
  }

  /** A character read into the value before a parsed rest keeps the characterization. */
  lemma QuotedReadChar(env: Env, s: Stream, c: char, value: string, found: bool, r: Reply<string>)
    requires r.outcome.Parsed? && Peek(env, s) == Char(c)
    requires found <==> c == '"'
    requires QuotedRead(env, Read(env, s), value + [c], false, r)
    ensures QuotedRead(env, s, value, found, r)
  {
    var w := r.outcome.value;
    var d := w[|value| + 1..];
    assert w[|value|..] == [c] + d;
    EscapeCons(c, d);
    AheadPrepend(env, s, c, Escape(d) + "\"");
  }

  /** An opening quote read before a parsed rest keeps the characterization. */
  lemma QuotedReadQuote(env: Env, s: Stream, value: string, r: Reply<string>)
    requires r.outcome.Parsed? && Peek(env, s) == Char('"')
    requires QuotedRead(env, Read(env, s), value, true, r)
    ensures QuotedRead(env, s, value, false, r)
  {
    var d := r.outcome.value[|value|..];
    QuoteOpens(d);
    AheadPrepend(env, s, '"', QuotedTail(true, d));
  }

  /** A pending quote closes the value where the loop stops. */
  lemma QuotedReadStop(env: Env, s: Stream, value: string)
    requires EndsQuote(Peek(env, s))
    ensures QuotedRead(env, s, value, true, Reply(Parsed(value), s, []))
  {
    assert value[|value|..] == [];
  }

  lemma {:induction false} QuotedLoopParsed(env: Env, ctx: Context, s: Stream, value: string, found: bool)
    ensures var r := QuotedLoop(env, ctx, s, value, found);
      && (r.outcome.Parsed? ==> QuotedRead(env, s, value, found, r))
      && r.warnings == (if r.outcome.Mismatched? then Warn(ctx, r.rest, Unclosed) else [])
      && (r.outcome.Fatal? ==> r.outcome.message == BlockMarker)
    decreases env.size - s.cursor
  {
    var u := Peek(env, s);
    if u.Char? && u.c == '"' && found {
      var r := QuotedLoop(env, ctx, Read(env, s), value + ['"'], false);
      QuotedLoopParsed(env, ctx, Read(env, s), value + ['"'], false);
      if r.outcome.Parsed? {
        QuotedReadChar(env, s, '"', value, true, r);
      }
    } else if u.Char? && u.c == '"' {
      var r := QuotedLoop(env, ctx, Read(env, s), value, true);
      QuotedLoopParsed(env, ctx, Read(env, s), value, true);
      if r.outcome.Parsed? {
        QuotedReadQuote(env, s, value, r);
      }
    } else if u.Char? && !found {
      var r := QuotedLoop(env, ctx, Read(env, s), value + [u.c], false);
      QuotedLoopParsed(env, ctx, Read(env, s), value + [u.c], false);
      if r.outcome.Parsed? {
        QuotedReadChar(env, s, u.c, value, false, r);
      }
    } else if found && (u.Char? || u == NewLine || u == Eof) {
      QuotedReadStop(env, s, value);
    }
  }

  /** `parse_quoted_attribute_value`: nothing unless the next unit is `"`. */
  function ParseQuoted(env: Env, ctx: Context, s: Stream): (r: Reply<string>)
    ensures r.rest.check == s.check
    ensures Peek(env, s) != Char('"') ==> r == Reply(Mismatched, s, [])
    ensures r.outcome.Parsed? ==> Advanced(env, s, r.rest)
  {
    if Peek(env, s) != Char('"') then Reply(Mismatched, s, [])
    else
      QuotedParsedRead(env, ctx, s);
      QuotedLoop(env, ctx, Read(env, s), "", false)
  }

  lemma QuotedParsedRead(env: Env, ctx: Context, s: Stream)
    requires Peek(env, s) == Char('"')
    ensures var r := QuotedLoop(env, ctx, Read(env, s), "", false);
      && r.warnings == (if r.outcome.Mismatched? then Warn(ctx, r.rest, Unclosed) else [])
      && (r.outcome.Fatal? ==> r.outcome.message == BlockMarker)
      && (r.outcome.Parsed? ==>
            var q := Quote(r.outcome.value);
            && Ahead(env, s, |q|) == CharsOf(q)
            && r.rest == Skip(env, s, |q|)
            && EndsQuote(Peek(env, r.rest))
            && Advanced(env, s, r.rest))
  {
    var r := QuotedLoop(env, ctx, Read(env, s), "", false);
    QuotedLoopParsed(env, ctx, Read(env, s), "", false);
    if r.outcome.Parsed? {
      var w := r.outcome.value;
      assert w[0..] == w;
      assert Quote(w) == ['"'] + (Escape(w) + "\"");
      AheadPrepend(env, s, '"', Escape(w) + "\"");
      SkipAdvances(env, s, Quote(w));
    }
  }

  /**
   * A parsed quoted value `w` is exactly what was read, written as `Quote(w)`, and
   * the next unit cannot continue it; an unclosed value warns, and a block marker is
   * an error.
   */
  lemma QuotedParsed(env: Env, ctx: Context, s: Stream)
    ensures var r := ParseQuoted(env, ctx, s);
      && r.warnings == (if r.outcome.Mismatched? && Peek(env, s) == Char('"') then Warn(ctx, r.rest, Unclosed) else [])
      && (r.outcome.Fatal? ==> r.outcome.message == BlockMarker)
      && (r.outcome.Parsed? ==>
            var q := Quote(r.outcome.value);
            && Ahead(env, s, |q|) == CharsOf(q)
            && r.rest == Skip(env, s, |q|)
            && EndsQuote(Peek(env, r.rest)))
  {
    if Peek(env, s) == Char('"') {
      QuotedParsedRead(env, ctx, s);
    }
  }

  /** The written form of a non-empty value part: its first character, then the rest. */
  lemma EscapeSplit(v: string)
    requires v != []
    ensures Escape(v) + "\"" == (if v[0] == '"' then "\"\"" else [v[0]]) + (Escape(v[1..]) + "\"")
    ensures v == [v[0]] + v[1..]
  {
    var head := if v[0] == '"' then "\"\"" else [v[0]];
    assert Escape(v) == head + Escape(v[1..]);
    assert Escape(v) + "\"" == head + (Escape(v[1..]) + "\"");
    assert v == [v[0]] + v[1..];
  }

  /** The loop steps over one ordinary character or over a doubled quote. */
  lemma QuotedLoopSteps(env: Env, ctx: Context, s: Stream, value: string)
    ensures Peek(env, s).Char? && Peek(env, s).c != '"' ==>
      QuotedLoop(env, ctx, s, value, false) == QuotedLoop(env, ctx, Read(env, s), value + [Peek(env, s).c], false)
    ensures Peek(env, s) == Char('"') && Peek(env, Read(env, s)) == Char('"') ==>
      QuotedLoop(env, ctx, s, value, false) == QuotedLoop(env, ctx, Read(env, Read(env, s)), value + ['"'], false)
    ensures Peek(env, s) == Char('"') && EndsQuote(Peek(env, Read(env, s))) ==>
      QuotedLoop(env, ctx, s, value, false) == Reply(Parsed(value), Read(env, s), [])
  {
  }

  lemma {:induction false} QuotedLoopReads(env: Env, ctx: Context, s: Stream, value: string, v: string)
    requires NextChars(env, s, Escape(v) + "\"")
    requires EndsQuote(Peek(env, Skip(env, s, |Escape(v)| + 1)))
    ensures QuotedLoop(env, ctx, s, value, false) == Reply(Parsed(value + v), Skip(env, s, |Escape(v)| + 1), [])
    decreases |v|
  {
    var t := Escape(v) + "\"";
    QuotedLoopSteps(env, ctx, s, value);
    if v == [] {
      assert t == "\"";
      assert Skip(env, s, 1) == Read(env, s);
      assert value + v == value;
    } else {
      EscapeSplit(v);
      var rest := Escape(v[1..]) + "\"";
      if v[0] == '"' {
        assert t == ['"'] + (['"'] + rest);
        NextCharsTail(env, s, '"', ['"'] + rest);
        NextCharsTail(env, Read(env, s), '"', rest);
        QuotedLoopReads(env, ctx, Read(env, Read(env, s)), value + ['"'], v[1..]);
      } else {
        assert t == [v[0]] + rest;
        NextCharsTail(env, s, v[0], rest);
        QuotedLoopReads(env, ctx, Read(env, s), value + [v[0]], v[1..]);
      }
      assert value + [v[0]] + v[1..] == value + v;
    }
  }

  /**
   * Round trip: a value written with `Quote` and followed by anything that cannot
   * continue it parses back to the value, with no warning: `"xx""""zz"` gives `xx""zz`.
   */
  lemma QuotedRoundTrip(env: Env, ctx: Context, s: Stream, v: string)
    requires Ahead(env, s, |Quote(v)|) == CharsOf(Quote(v))
    requires EndsQuote(Peek(env, Skip(env, s, |Quote(v)|)))
    ensures ParseQuoted(env, ctx, s) == Reply(Parsed(v), Skip(env, s, |Quote(v)|), [])
  {
    var q := Quote(v);
    NextCharsAhead(env, s, q);
    assert q[1..] == Escape(v) + "\"";
    QuotedLoopReads(env, ctx, Read(env, s), "", v);
    assert "" + v == v;
  }

  // ---------------------------------------------------------------------------
  // Unquoted values
  // ---------------------------------------------------------------------------

  /** A character an unquoted value may hold. */
  predicate Plain(c: char) {
    c != '"' && c != '=' && c != ' ' && c != ']'
  }

  predicate AllPlain(t: string) {
    forall i :: 0 <= i < |t| ==> Plain(t[i])
  }

  /** What ends an unquoted value: a space, `]`, a line break or the end. */
  predicate EndsSimple(u: Unit) {
    u == Char(' ') || u == Char(']') || u == NewLine || u == Eof
  }

  /** The loop of `parse_simple_attribute_value`. */
  function SimpleLoop(env: Env, ctx: Context, s: Stream, value: string): (r: Reply<string>)
    ensures r.rest.check == s.check
    ensures r.outcome.Fatal? ==> r.outcome.message == BlockMarker && r.warnings == []
    ensures r.outcome.Parsed? ==> r.warnings == []
    ensures r.outcome.Mismatched? ==>
      var u := Peek(env, r.rest);
      u.Char? && (u.c == '"' || u.c == '=') && r.warnings == Warn(ctx, r.rest, Misplaced(u.c))
    ensures r.outcome.Parsed? ==>
      var w := r.outcome.value;
      && value <= w
      && AllPlain(w[|value|..])
      && NextChars(env, s, w[|value|..])
      && r.rest == Skip(env, s, |w| - |value|)
      && EndsSimple(Peek(env, r.rest))
    decreases env.size - s.cursor
  {
    match Peek(env, s)
    case Char(c) =>
      if c == '"' || c == '=' then Reply(Mismatched, s, Warn(ctx, s, Misplaced(c)))
      else if c == ' ' || c == ']' then Reply(Parsed(value), s, [])
      else
        var r := SimpleLoop(env, ctx, Read(env, s), value + [c]);
        if r.outcome.Parsed? then
          var w := r.outcome.value;
          assert w[|value|..] == [c] + w[|value| + 1..];
          r
        else r
    case NewLine => Reply(Parsed(value), s, [])
    case Eof => Reply(Parsed(value), s, [])
    case BlockBeginning => Reply(Fatal(BlockMarker), s, [])
    case BlockEnd => Reply(Fatal(BlockMarker), s, [])
  }

  /**
   * `parse_simple_attribute_value`: the value is the plain characters read, up to a
   * space, `]`, a line break or the end; it may be empty.
   */
  function ParseSimple(env: Env, ctx: Context, s: Stream): (r: Reply<string>)
    ensures r.rest.check == s.check
    ensures r.outcome.Fatal? ==> r.outcome.message == BlockMarker && r.warnings == []
    ensures r.outcome.Mismatched? ==>
      var u := Peek(env, r.rest);
      u.Char? && (u.c == '"' || u.c == '=') && r.warnings == Warn(ctx, r.rest, Misplaced(u.c))
    ensures r.outcome.Parsed? ==>
      var w := r.outcome.value;
      && r.warnings == []
      && AllPlain(w)
      && Ahead(env, s, |w|) == CharsOf(w)
      && r.rest == Skip(env, s, |w|)
      && EndsSimple(Peek(env, r.rest))
      && (|w| > 0 ==> Advanced(env, s, r.rest))
      && (|w| == 0 ==> r.rest == s)
  {
    var r := SimpleLoop(env, ctx, s, "");
    if r.outcome.Parsed? then
      assert r.outcome.value[0..] == r.outcome.value;
      NextCharsAhead(env, s, r.outcome.value);
      SkipAdvances(env, s, r.outcome.value);
      r
    else r
  }

  lemma {:induction false} SimpleLoopReads(env: Env, ctx: Context, s: Stream, value: string, v: string)
    requires AllPlain(v) && NextChars(env, s, v)
    requires EndsSimple(Peek(env, Skip(env, s, |v|)))
    ensures SimpleLoop(env, ctx, s, value) == Reply(Parsed(value + v), Skip(env, s, |v|), [])
    decreases |v|
  {
    if v == [] {
      assert value + v == value;
    } else {
      assert Plain(v[0]);
      SimpleLoopReads(env, ctx, Read(env, s), value + [v[0]], v[1..]);
      assert value + [v[0]] + v[1..] == value + v;
    }
  }

  /** Round trip: plain characters followed by an ending parse back to themselves. */
  lemma SimpleRoundTrip(env: Env, ctx: Context, s: Stream, v: string)
    requires AllPlain(v) && Ahead(env, s, |v|) == CharsOf(v)
    requires EndsSimple(Peek(env, Skip(env, s, |v|)))
    ensures ParseSimple(env, ctx, s) == Reply(Parsed(v), Skip(env, s, |v|), [])
  {
    NextCharsAhead(env, s, v);
    SimpleLoopReads(env, ctx, s, "", v);
    assert "" + v == v;
  }

  /** Plain characters running into a `"` or `=`: no value, and a warning there. */
  lemma {:induction false} SimpleLoopStops(env: Env, ctx: Context, s: Stream, value: string, v: string, c: char)
    requires AllPlain(v) && NextChars(env, s, v)
    requires Peek(env, Skip(env, s, |v|)) == Char(c) && (c == '"' || c == '=')
    ensures SimpleLoop(env, ctx, s, value) ==
      Reply(Mismatched, Skip(env, s, |v|), Warn(ctx, Skip(env, s, |v|), Misplaced(c)))
    decreases |v|
  {
    if v != [] {
      assert Plain(v[0]);
      SimpleLoopStops(env, ctx, Read(env, s), value + [v[0]], v[1..], c);
    }
  }

  // ---------------------------------------------------------------------------
  // One entry, and the list
  // ---------------------------------------------------------------------------

  /** An entry: a name (absent for a bare value) and its value. */
  type Entry = (Option<string>, string)

  /** How an entry is written: an optional name and `=`, then its value, quoted or plain. */
  datatype Written = Written(name: Option<string>, value: string, quoted: bool)

  function ValueText(w: Written): string {
    if w.quoted then Quote(w.value) else w.value
  }

  function Writing(w: Written): string {
    (if w.name.Some? then w.name.value + "=" else "") + ValueText(w)
  }

  /**
   * A writing that reads back as written: a name is a non-empty symbol, a plain value
   * holds plain characters only, and a bare plain value is not empty.
   */
  predicate WellWritten(w: Written) {
    && (w.name.Some? ==> |w.name.value| > 0 && Symbol.AllSymbolChars(w.name.value))
    && (!w.quoted ==> AllPlain(w.value) && (w.name.None? ==> |w.value| > 0))
  }

  /** What may follow a written value without continuing it. */
  predicate Closes(w: Written, u: Unit) {
    if w.quoted then EndsQuote(u) else EndsSimple(u)
  }

  /** The next units are the value part of `w`, closed, and `rest` is the stream after it. */
  predicate ValueAt(env: Env, s: Stream, w: Written, rest: Stream) {
    var t := ValueText(w);
    && Ahead(env, s, |t|) == CharsOf(t)
    && rest == Skip(env, s, |t|)
    && Closes(w, Peek(env, rest))
    && (!w.quoted ==> AllPlain(w.value))
  }

  /** The next units are the whole writing of `w`, closed, and `rest` is the stream after it. */
  predicate WrittenAt(env: Env, s: Stream, w: Written, rest: Stream) {
    var t := Writing(w);
    && WellWritten(w)
    && Ahead(env, s, |t|) == CharsOf(t)
    && rest == Skip(env, s, |t|)
    && Closes(w, Peek(env, rest))
  }

  /** A written entry starts with a character that a list hands to `parse_attribute`. */
  lemma WritingOpens(w: Written)
    requires WellWritten(w)
    ensures |Writing(w)| > 0 && Writing(w)[0] != ' ' && Writing(w)[0] != ']'
  {
    if w.name.Some? {
      assert Writing(w)[0] == w.name.value[0];
      assert Symbol.IsSymbolChar(w.name.value[0]);
    } else if w.quoted {
      assert Writing(w)[0] == '"';
    } else {
      assert Writing(w)[0] == w.value[0];
      assert Plain(w.value[0]);
    }
  }

  /** The part of `parse_attribute` after the name: `=` and a quoted or an unquoted value. */
  function NamedValue(env: Env, ctx: Context, s1: Stream, name: string, before: seq<Warning>): (r: Reply<Entry>)
    ensures r.outcome.Parsed? ==>
      && r.outcome.value.0 == Some(name)
      && Peek(env, s1) == Char('=')
      && Advanced(env, s1, r.rest)
    ensures r.outcome.Parsed? ==>
      var v := r.outcome.value.1;
      ValueAt(env, Read(env, s1), Written(Some(name), v, true), r.rest)
        || ValueAt(env, Read(env, s1), Written(Some(name), v, false), r.rest)
    ensures before <= r.warnings
    ensures Peek(env, s1) != Char('=') ==> r == Reply(Mismatched, s1, before)
  {
    if Peek(env, s1) != Char('=') then Reply(Mismatched, s1, before)
    else
      var s2 := Read(env, s1);
      QuotedParsed(env, ctx, s2);
      var q := Harness.CallParser(s2, ParseQuoted(env, ctx, s2));
      if q.outcome.Fatal? then Reply(Fatal(q.outcome.message), q.rest, before + q.warnings)
      else if q.outcome.Parsed? then
        SkipKeepsCheck(env, s2, |Quote(q.outcome.value)|);
        Reply(Parsed((Some(name), q.outcome.value)), q.rest, before + q.warnings)
      else
        var p := Harness.CallParser(s2, ParseSimple(env, ctx, s2));
        var ws := before + q.warnings + p.warnings;
        if p.outcome.Fatal? then Reply(Fatal(p.outcome.message), p.rest, ws)
        else if p.outcome.Parsed? then
          SkipKeepsCheck(env, s2, |p.outcome.value|);
          Reply(Parsed((Some(name), p.outcome.value)), p.rest, ws)
        else Reply(Mismatched, p.rest, ws)
  }

  /**
   * `parse_attribute`: first a bare quoted value, then a bare unquoted value, both
   * probed with warnings off; otherwise a name, `=` and a value.
   */
  function ParseAttribute(env: Env, ctx: Context, s: Stream): (r: Reply<Entry>)
    ensures r.outcome.Parsed? && Peek(env, s).Char? && Peek(env, s).c != ' ' && Peek(env, s).c != ']' ==>
      Advanced(env, s, r.rest)
  {
    var quiet := ctx.(warn := false);
    var q := Harness.CallParser(s, ParseQuoted(env, quiet, s));
    if q.outcome.Fatal? then Reply(Fatal(q.outcome.message), q.rest, q.warnings)
    else if q.outcome.Parsed? then Reply(Parsed((None, q.outcome.value)), q.rest, q.warnings)
    else
      var p := Harness.CallParser(s, ParseSimple(env, quiet, s));
      if p.outcome.Fatal? then Reply(Fatal(p.outcome.message), p.rest, q.warnings + p.warnings)
      else if p.outcome.Parsed? then Reply(Parsed((None, p.outcome.value)), p.rest, q.warnings + p.warnings)
      else
        var n := Harness.CallParser(s, Symbol.ParseSymbol(env, s));
        var ws := q.warnings + p.warnings + n.warnings;
        if !n.outcome.Parsed? then Reply(Mismatched, n.rest, ws + Warn(ctx, n.rest, NoName))
        else NamedValue(env, ctx, n.rest, n.outcome.value, ws)
  }

  /** A named entry carries the longest symbol at the start, and `=` follows it. */
  lemma AttributeNamed(env: Env, ctx: Context, s: Stream)
    ensures var r := ParseAttribute(env, ctx, s);
      r.outcome.Parsed? && r.outcome.value.0.Some? ==>
        var name := r.outcome.value.0.value;
        |name| > 0 && Symbol.LongestRun(env, s, name) && Peek(env, Skip(env, s, |name|)) == Char('=')
  {
    var r := ParseAttribute(env, ctx, s);
    var sym := Symbol.ParseSymbol(env, s);
    var n := Harness.CallParser(s, sym);
    if r.outcome.Parsed? && r.outcome.value.0.Some? && sym.outcome.Parsed? {
      var name := sym.outcome.value;
      SkipAdvances(env, s, name);
      assert n.rest == Skip(env, s, |name|);
    }
  }

  /**
   * The probes are silent: where neither a value nor a name can start, the only
   * warning is that the name is missing.
   */
  lemma AttributeNoName(env: Env, ctx: Context, s: Stream)
    requires !Symbol.Continues(Peek(env, s))
    ensures var r := ParseAttribute(env, ctx, s);
      r.outcome.Mismatched? ==> r.warnings == Warn(ctx, s, NoName)
  {
    var quiet := ctx.(warn := false);
    QuotedParsed(env, quiet, s);
  }

  /** After a name, `=` and a written value give the named entry, with no warning. */
  lemma NamedValueRoundTrip(env: Env, ctx: Context, s1: Stream, w: Written)
    requires w.name.Some? && WellWritten(w) && Peek(env, s1) == Char('=')
    requires var s2 := Read(env, s1);
      Ahead(env, s2, |ValueText(w)|) == CharsOf(ValueText(w)) && Closes(w, Peek(env, Skip(env, s2, |ValueText(w)|)))
    ensures NamedValue(env, ctx, s1, w.name.value, []) ==
      Reply(Parsed((w.name, w.value)), Skip(env, Read(env, s1), |ValueText(w)|), [])
  {
    var s2 := Read(env, s1);
    SkipKeepsCheck(env, s2, |ValueText(w)|);
    if w.quoted {
      QuotedRoundTrip(env, ctx, s2, w.value);
    } else {
      if w.value != [] {
        AheadFirst(env, s2, w.value);
      }
      SimpleRoundTrip(env, ctx, s2, w.value);
    }
  }

  /** The units of a named writing: the name, `=`, then the value part. */
  lemma NamedSplit(env: Env, s: Stream, w: Written)
    requires w.name.Some?
    ensures var name := w.name.value;
      var t := ValueText(w);
      var s1 := Skip(env, s, |name|);
      && (Ahead(env, s, |Writing(w)|) == CharsOf(Writing(w)) <==>
            Ahead(env, s, |name|) == CharsOf(name) && Peek(env, s1) == Char('=') && Ahead(env, Read(env, s1), |t|) == CharsOf(t))
      && Skip(env, s, |Writing(w)|) == Skip(env, Read(env, s1), |t|)
  {
    var name := w.name.value;
    var t := ValueText(w);
    var s1 := Skip(env, s, |name|);
    assert Writing(w) == name + ("=" + t);
    CharsOfConcat(name, "=" + t);
    CharsOfConcat("=", t);
    assert CharsOf(Writing(w)) == CharsOf(name) + CharsOf("=" + t);
    assert CharsOf("=" + t) == CharsOf("=") + CharsOf(t);
    AheadConcat(env, s, CharsOf(name), CharsOf("=" + t));
    AheadConcat(env, s1, CharsOf("="), CharsOf(t));
    assert Ahead(env, Read(env, s1), 0) == [];
    assert Ahead(env, s1, 1) == [Peek(env, s1)];
    assert CharsOf("=") == [Char('=')];
    assert Ahead(env, s1, 1) == CharsOf("=") ==> Peek(env, s1) == Char('=') by {
      assert Ahead(env, s1, 1)[0] == Peek(env, s1);
    }
    assert Skip(env, s1, 1) == Read(env, s1) by {
      assert Skip(env, s1, 1) == Skip(env, Read(env, s1), 0);
    }
  }

  /**
   * Round trip of one entry: a written entry, followed by what closes it, parses back
   * to its name and value, with the stream after it and no warning. `b="y""z"` gives
   * the name `b` with the value `y"z`; `"q"` and `c` give the bare values `q` and `c`.
   */
  lemma EntryRoundTrip(env: Env, ctx: Context, s: Stream, w: Written)
    requires WrittenAt(env, s, w, Skip(env, s, |Writing(w)|))
    ensures ParseAttribute(env, ctx, s) == Reply(Parsed((w.name, w.value)), Skip(env, s, |Writing(w)|), [])
  {
    if w.name.None? {
      BareRoundTrip(env, ctx, s, w);
    } else {
      NamedRoundTrip(env, ctx, s, w);
    }
  }

  /** A bare value, quoted or plain, is taken by the first probe that matches it. */
  lemma BareRoundTrip(env: Env, ctx: Context, s: Stream, w: Written)
    requires w.name.None? && WrittenAt(env, s, w, Skip(env, s, |Writing(w)|))
    ensures ParseAttribute(env, ctx, s) == Reply(Parsed((w.name, w.value)), Skip(env, s, |Writing(w)|), [])
  {
    var quiet := ctx.(warn := false);
    SkipKeepsCheck(env, s, |Writing(w)|);
    assert Writing(w) == ValueText(w);
    if w.quoted {
      QuotedRoundTrip(env, quiet, s, w.value);
    } else {
      AheadFirst(env, s, w.value);
      SimpleRoundTrip(env, quiet, s, w.value);
    }
  }

  /** A name, `=` and a value: both probes decline, the name is read, then the value. */
  lemma NamedRoundTrip(env: Env, ctx: Context, s: Stream, w: Written)
    requires w.name.Some? && WrittenAt(env, s, w, Skip(env, s, |Writing(w)|))
    ensures ParseAttribute(env, ctx, s) == Reply(Parsed((w.name, w.value)), Skip(env, s, |Writing(w)|), [])
  {
    var name := w.name.value;
    NamedSplit(env, s, w);
    NameProbes(env, ctx, s, name);
    var none: seq<Warning> := [];
    assert none + none + none == none;
    NamedValueRoundTrip(env, ctx, Skip(env, s, |name|), w);
  }

  /** Before a name and `=`, both value probes decline silently and the name is read. */
  lemma NameProbes(env: Env, ctx: Context, s: Stream, name: string)
    requires |name| > 0 && Symbol.AllSymbolChars(name)
    requires Ahead(env, s, |name|) == CharsOf(name) && Peek(env, Skip(env, s, |name|)) == Char('=')
    ensures var quiet := ctx.(warn := false);
      && Harness.CallParser(s, ParseQuoted(env, quiet, s)) == Reply(Mismatched, s, [])
      && Harness.CallParser(s, ParseSimple(env, quiet, s)) == Reply(Mismatched, s, [])
      && Harness.CallParser(s, Symbol.ParseSymbol(env, s)) == Reply(Parsed(name), Skip(env, s, |name|), [])
  {
    var quiet := ctx.(warn := false);
    AheadFirst(env, s, name);
    assert Symbol.IsSymbolChar(name[0]);
    assert AllPlain(name) by {
      forall i | 0 <= i < |name| ensures Plain(name[i]) {
        assert Symbol.IsSymbolChar(name[i]);
      }
    }
    NextCharsAhead(env, s, name);
    SimpleLoopStops(env, quiet, s, "", name, '=');
    Symbol.ParsesLongestRun(env, s, name);
    SkipKeepsCheck(env, s, |name|);
  }

  /**
   * Conversely, an entry parsed where a list hands over to `parse_attribute` is exactly
   * what was read: its writing, with the value quoted or plain, is the next text, and
   * what follows closes it.
   */
  lemma EntryReads(env: Env, ctx: Context, s: Stream)
    requires Peek(env, s).Char? && Peek(env, s).c != ' ' && Peek(env, s).c != ']'
    ensures var r := ParseAttribute(env, ctx, s);
      r.outcome.Parsed? ==>
        var e := r.outcome.value;
        WrittenAt(env, s, Written(e.0, e.1, true), r.rest) || WrittenAt(env, s, Written(e.0, e.1, false), r.rest)
  {
    var quiet := ctx.(warn := false);
    var r := ParseAttribute(env, ctx, s);
    var q := Harness.CallParser(s, ParseQuoted(env, quiet, s));
    var p := Harness.CallParser(s, ParseSimple(env, quiet, s));
    var n := Harness.CallParser(s, Symbol.ParseSymbol(env, s));
    QuotedParsed(env, quiet, s);
    if r.outcome.Parsed? {
      if q.outcome.Parsed? {
        var w := Written(None, q.outcome.value, true);
        assert Writing(w) == Quote(w.value);
        SkipKeepsCheck(env, s, |Writing(w)|);
        assert WrittenAt(env, s, w, r.rest);
      } else if p.outcome.Parsed? {
        var v := p.outcome.value;
        var w := Written(None, v, false);
        assert Writing(w) == v;
        SkipKeepsCheck(env, s, |v|);
        assert WrittenAt(env, s, w, r.rest);
      } else {
        var name := n.outcome.value;
        var s1 := n.rest;
        SkipKeepsCheck(env, s, |name|);
        assert s1 == Skip(env, s, |name|);
        var e := r.outcome.value;
        var wq := Written(Some(name), e.1, true);
        var w := if ValueAt(env, Read(env, s1), wq, r.rest) then wq else Written(Some(name), e.1, false);
        NamedSplit(env, s, w);
        assert WrittenAt(env, s, w, r.rest);
      }
    }
  }

  /** What an entry adds to the list: a bare value goes last; a new name gets its value; a known name keeps its own. */
  function Gather(attrs: Content.Attributes, bare: seq<string>, e: Entry): (Content.Attributes, seq<string>) {
    if e.0.None? then (attrs, bare + [e.1])
    else if e.0.value in attrs then (attrs, bare)
    else (attrs[e.0.value := e.1], bare)
  }

  /**
   * The loop of `parse_attributes`, with the names and bare values gathered so far.
   * A name already present keeps its value and raises a warning.
   */
  function AttributeLoop(env: Env, ctx: Context, s: Stream, attrs: Content.Attributes, bare: seq<string>)
    : (r: Reply<(Content.Attributes, seq<string>)>)
    ensures r.outcome.Parsed? ==> Advanced(env, s, r.rest) && r.rest.check == s.check
    decreases env.size - s.cursor
  {
    match Peek(env, s)
    case Char(c) =>
      if c == ']' then Reply(Parsed((attrs, bare)), Read(env, s), [])
      else if c == ' ' then AttributeLoop(env, ctx, Read(env, s), attrs, bare)
      else
        var a := Harness.CallParser(s, ParseAttribute(env, ctx, s));
        if a.outcome.Fatal? then Reply(Fatal(a.outcome.message), a.rest, a.warnings)
        else if a.outcome.Mismatched? then Reply(Mismatched, a.rest, a.warnings)
        else
          var e := a.outcome.value;
          var ws := if e.0.Some? && e.0.value in attrs then Warn(ctx, a.rest, Duplicated) else [];
          var g := Gather(attrs, bare, e);
          var r := AttributeLoop(env, ctx, a.rest, g.0, g.1);
          Reply(r.outcome, r.rest, a.warnings + ws + r.warnings)
    case NewLine => AttributeLoop(env, ctx, Read(env, s), attrs, bare)
    case BlockBeginning => Reply(Fatal(CheckOff), s, [])
    case BlockEnd => Reply(Fatal(CheckOff), s, [])
    case Eof => Reply(Mismatched, s, Warn(ctx, s, Unterminated))
  }

  /**
   * Gathering never loses a name's first value nor a bare value already gathered; a new
   * name is mapped to its entry's value, and a known name changes nothing.
   */
  lemma GatherKeeps(attrs: Content.Attributes, bare: seq<string>, e: Entry)
    ensures var (attrs', bare') := Gather(attrs, bare, e);
      && (forall k :: k in attrs ==> k in attrs' && attrs'[k] == attrs[k])
      && bare <= bare'
      && attrs'.Keys == attrs.Keys + NameOf(e)
      && (e.0.Some? && e.0.value !in attrs ==> attrs' == attrs[e.0.value := e.1] && bare' == bare)
      && (e.0.Some? && e.0.value in attrs ==> attrs' == attrs && bare' == bare)
      && (e.0.None? ==> attrs' == attrs && bare' == bare + [e.1])
  {
  }

  /** Spaces and line breaks between entries are skipped. */
  lemma SeparatorsSkipped(env: Env, ctx: Context, s: Stream, attrs: Content.Attributes, bare: seq<string>)
    requires Peek(env, s) == Char(' ') || Peek(env, s) == NewLine
    ensures AttributeLoop(env, ctx, s, attrs, bare) == AttributeLoop(env, ctx, Read(env, s), attrs, bare)
  {
  }

  /**
   * Entries need no separator: after a new name or a bare value, the next entry is
   * read right where this one ends (`[a="x"b=y]` holds two entries).
   */
  lemma EntriesAdjacent(env: Env, ctx: Context, s: Stream, attrs: Content.Attributes, bare: seq<string>)
    requires Peek(env, s).Char? && Peek(env, s).c != ']' && Peek(env, s).c != ' '
    requires var a := Harness.CallParser(s, ParseAttribute(env, ctx, s));
      a.outcome.Parsed? && (a.outcome.value.0.Some? ==> a.outcome.value.0.value !in attrs)
    ensures var a := Harness.CallParser(s, ParseAttribute(env, ctx, s));
      var g := Gather(attrs, bare, a.outcome.value);
      var r := AttributeLoop(env, ctx, a.rest, g.0, g.1);
      AttributeLoop(env, ctx, s, attrs, bare) == Reply(r.outcome, r.rest, a.warnings + r.warnings)
  {
    var a := Harness.CallParser(s, ParseAttribute(env, ctx, s));
    assert a.warnings + [] == a.warnings;
  }

  /**
   * A name met again: the list is unchanged, and the second value is dropped with a
   * warning at the position after it.
   */
  lemma DuplicateWarns(env: Env, ctx: Context, s: Stream, attrs: Content.Attributes, bare: seq<string>)
    requires Peek(env, s).Char? && Peek(env, s).c != ']' && Peek(env, s).c != ' '
    requires var a := Harness.CallParser(s, ParseAttribute(env, ctx, s));
      a.outcome.Parsed? && a.outcome.value.0.Some? && a.outcome.value.0.value in attrs
    ensures var a := Harness.CallParser(s, ParseAttribute(env, ctx, s));
      var r := AttributeLoop(env, ctx, a.rest, attrs, bare);
      AttributeLoop(env, ctx, s, attrs, bare) == Reply(r.outcome, r.rest, a.warnings + Warn(ctx, a.rest, Duplicated) + r.warnings)
  {
  }

  /**
   * A name keeps the first value given to it, bare values are only appended; the
   * list ends only at `]`, and a block marker inside it is an error.
   */
  lemma {:induction false} AttributeLoopKeeps(env: Env, ctx: Context, s: Stream, attrs: Content.Attributes, bare: seq<string>)
    ensures var r := AttributeLoop(env, ctx, s, attrs, bare);
      && (r.outcome.Parsed? ==>
            var (attrs', bare') := r.outcome.value;
            && (forall k :: k in attrs ==> k in attrs' && attrs'[k] == attrs[k])
            && bare <= bare')
      && ((Peek(env, s).BlockBeginning? || Peek(env, s).BlockEnd?) ==> r == Reply(Fatal(CheckOff), s, []))
      && (Peek(env, s) == Eof ==> r == Reply(Mismatched, s, Warn(ctx, s, Unterminated)))
    decreases env.size - s.cursor
  {
    match Peek(env, s)
    case Char(c) =>
      if c == ' ' {
        AttributeLoopKeeps(env, ctx, Read(env, s), attrs, bare);
      } else if c != ']' {
        var a := Harness.CallParser(s, ParseAttribute(env, ctx, s));
        if a.outcome.Parsed? {
          var g := Gather(attrs, bare, a.outcome.value);
          GatherKeeps(attrs, bare, a.outcome.value);
          AttributeLoopKeeps(env, ctx, a.rest, g.0, g.1);
        }
      }
    case NewLine => AttributeLoopKeeps(env, ctx, Read(env, s), attrs, bare);
    case BlockBeginning =>
    case BlockEnd =>
    case Eof =>
  }

  /**
   * `parse_attributes`: nothing unless the next unit is `[`; then the entries up to `]`
   * with the indent check off.
   */
  function ParseAttributes(env: Env, ctx: Context, s: Stream): (r: Reply<(Content.Attributes, seq<string>)>)
    ensures Peek(env, s) != Char('[') ==> r == Reply(Mismatched, s, [])
    ensures r.outcome.Parsed? ==> Advanced(env, s, r.rest) && !r.rest.check
  {
    if Peek(env, s) != Char('[') then Reply(Mismatched, s, [])
    else AttributeLoop(env, ctx, SetCheck(Read(env, s), false), map[], [])
  }

  // ---------------------------------------------------------------------------
  // A list as written
  // ---------------------------------------------------------------------------

  /** The name an entry gives, if any. */
  function NameOf(e: Entry): set<string> {
    if e.0.Some? then {e.0.value} else {}
  }

  /** The list gathered from `attrs` and `bare` by the entries `es`, in order. */
  function GatherAll(attrs: Content.Attributes, bare: seq<string>, es: seq<Entry>): (Content.Attributes, seq<string>)
    decreases |es|
  {
    if es == [] then (attrs, bare)
    else
      var g := Gather(attrs, bare, es[0]);
      GatherAll(g.0, g.1, es[1..])
  }

  /** The value of the first entry named `k`, if there is one. */
  function FirstValue(es: seq<Entry>, k: string): Option<string>
    decreases |es|
  {
    if es == [] then None
    else if es[0].0 == Some(k) then Some(es[0].1)
    else FirstValue(es[1..], k)
  }

  /** The values of the entries without a name, in order. */
  function BareValues(es: seq<Entry>): seq<string>
    decreases |es|
  {
    if es == [] then [] else (if es[0].0.None? then [es[0].1] else []) + BareValues(es[1..])
  }

  /** How many entries give a name already in `seen` or given by an earlier entry. */
  function Repeated(seen: set<string>, es: seq<Entry>): nat
    decreases |es|
  {
    if es == [] then 0
    else (if es[0].0.Some? && es[0].0.value in seen then 1 else 0) + Repeated(seen + NameOf(es[0]), es[1..])
  }

  /**
   * Gathering is first-wins: a name is in the list when it was there or some entry
   * gives it, and its value is the one it had, or else the first entry's with that
   * name; the bare values follow in order.
   */
  lemma {:induction false} GatherAllFirstWins(attrs: Content.Attributes, bare: seq<string>, es: seq<Entry>)
    ensures var (m, b) := GatherAll(attrs, bare, es);
      && (forall k :: k in m <==> k in attrs || FirstValue(es, k).Some?)
      && (forall k :: k in m ==> m[k] == if k in attrs then attrs[k] else FirstValue(es, k).value)
      && b == bare + BareValues(es)
    decreases |es|
  {
    if es == [] {
      assert bare + [] == bare;
    } else {
      var g := Gather(attrs, bare, es[0]);
      GatherKeeps(attrs, bare, es[0]);
      GatherAllFirstWins(g.0, g.1, es[1..]);
      var head := if es[0].0.None? then [es[0].1] else [];
      assert g.1 == bare + head;
      assert bare + head + BareValues(es[1..]) == bare + (head + BareValues(es[1..]));
    }
  }

  /** Every warning says that the attributes are duplicated, and there are `n` of them when warnings are on. */
  predicate DuplicateWarnings(ctx: Context, ws: seq<Warning>, n: nat) {
    && |ws| == (if ctx.warn then n else 0)
    && forall i :: 0 <= i < |ws| ==> ws[i].message == Duplicated
  }

  /** An entry in a list, after the spaces and line breaks in front of it. */
  datatype Item = Item(gap: seq<Unit>, entry: Written)

  predicate Separators(g: seq<Unit>) {
    forall i :: 0 <= i < |g| ==> g[i] == Char(' ') || g[i] == NewLine
  }

  /** The units of a list after its `[`: each entry after its gap, then a last gap and `]`. */
  function ListUnits(items: seq<Item>, trail: seq<Unit>): seq<Unit>
    decreases |items|
  {
    if items == [] then trail + [Char(']')]
    else items[0].gap + CharsOf(Writing(items[0].entry)) + ListUnits(items[1..], trail)
  }

  function EntriesOf(items: seq<Item>): seq<Entry>
    decreases |items|
  {
    if items == [] then [] else [(items[0].entry.name, items[0].entry.value)] + EntriesOf(items[1..])
  }

  /** Well-written entries kept apart: every gap but the first is not empty. */
  predicate WellSpaced(items: seq<Item>, trail: seq<Unit>) {
    && Separators(trail)
    && (forall i :: 0 <= i < |items| ==> Separators(items[i].gap) && WellWritten(items[i].entry))
    && (forall i :: 0 < i < |items| ==> |items[i].gap| > 0)
  }

  /** What follows an entry of a well-spaced list closes it. */
  lemma ListOpens(items: seq<Item>, trail: seq<Unit>)
    requires WellSpaced(items, trail) && (items != [] ==> |items[0].gap| > 0)
    ensures |ListUnits(items, trail)| > 0 && EndsSimple(ListUnits(items, trail)[0])
  {
    if items == [] {
      if trail != [] {
        assert ListUnits(items, trail)[0] == trail[0];
      }
    } else {
      assert ListUnits(items, trail)[0] == items[0].gap[0];
    }
  }

  lemma WellSpacedTail(items: seq<Item>, trail: seq<Unit>)
    requires WellSpaced(items, trail) && items != []
    ensures WellSpaced(items[1..], trail)
    ensures items[1..] != [] ==> |items[1..][0].gap| > 0
  {
    assert forall i :: 0 <= i < |items| - 1 ==> items[1..][i] == items[i + 1];
  }

  /** Spaces and line breaks before an entry or `]` are skipped. */
  lemma {:induction false} GapSkipped(env: Env, ctx: Context, s: Stream, g: seq<Unit>, attrs: Content.Attributes, bare: seq<string>)
    requires Separators(g) && Ahead(env, s, |g|) == g
    ensures AttributeLoop(env, ctx, s, attrs, bare) == AttributeLoop(env, ctx, Skip(env, s, |g|), attrs, bare)
    decreases |g|
  {
    if g != [] {
      var s1 := Read(env, s);
      assert Ahead(env, s, |g|) == [Peek(env, s)] + Ahead(env, s1, |g| - 1);
      calc {
        AttributeLoop(env, ctx, s, attrs, bare);
        == { assert Peek(env, s) == g[0]; SeparatorsSkipped(env, ctx, s, attrs, bare); }
        AttributeLoop(env, ctx, s1, attrs, bare);
        == { assert Ahead(env, s1, |g| - 1) == g[1..]; GapSkipped(env, ctx, s1, g[1..], attrs, bare); }
        AttributeLoop(env, ctx, Skip(env, s1, |g[1..]|), attrs, bare);
      }
    }
  }

  lemma DuplicateWarningsCons(ctx: Context, w: seq<Warning>, ws: seq<Warning>, n: nat)
    requires DuplicateWarnings(ctx, ws, n)
    requires w == [] || (ctx.warn && |w| == 1 && w[0].message == Duplicated)
    ensures DuplicateWarnings(ctx, w + ws, n + |w|)
  {
    var all := w + ws;
    forall i | 0 <= i < |all| ensures all[i].message == Duplicated {
      if i >= |w| {
        assert all[i] == ws[i - |w|];
      }
    }
  }

  /** A written entry at a position a list hands over is parsed whole, with no warning. */
  lemma EntryCalled(env: Env, ctx: Context, s: Stream, w: Written)
    requires WrittenAt(env, s, w, Skip(env, s, |Writing(w)|))
    ensures Peek(env, s).Char? && Peek(env, s).c != ']' && Peek(env, s).c != ' '
    ensures Harness.CallParser(s, ParseAttribute(env, ctx, s)) ==
      Reply(Parsed((w.name, w.value)), Skip(env, s, |Writing(w)|), [])
  {
    EntryRoundTrip(env, ctx, s, w);
    WritingOpens(w);
    AheadFirst(env, s, Writing(w));
    SkipKeepsCheck(env, s, |Writing(w)|);
  }

  /** One written entry in a list is gathered, and a repeated name warns once, after it. */
  lemma EntryStep(env: Env, ctx: Context, s: Stream, w: Written, attrs: Content.Attributes, bare: seq<string>)
    requires WrittenAt(env, s, w, Skip(env, s, |Writing(w)|))
    ensures var st := Skip(env, s, |Writing(w)|);
      var e := (w.name, w.value);
      var g := Gather(attrs, bare, e);
      var r := AttributeLoop(env, ctx, st, g.0, g.1);
      AttributeLoop(env, ctx, s, attrs, bare) ==
        Reply(r.outcome, r.rest, (if e.0.Some? && e.0.value in attrs then Warn(ctx, st, Duplicated) else []) + r.warnings)
  {
    var st := Skip(env, s, |Writing(w)|);
    var e := (w.name, w.value);
    var none: seq<Warning> := [];
    EntryCalled(env, ctx, s, w);
    if e.0.Some? && e.0.value in attrs {
      var r := AttributeLoop(env, ctx, st, attrs, bare);
      calc {
        AttributeLoop(env, ctx, s, attrs, bare);
        == { DuplicateWarns(env, ctx, s, attrs, bare); }
        Reply(r.outcome, r.rest, none + Warn(ctx, st, Duplicated) + r.warnings);
        == { assert none + Warn(ctx, st, Duplicated) == Warn(ctx, st, Duplicated); }
        Reply(r.outcome, r.rest, Warn(ctx, st, Duplicated) + r.warnings);
      }
    } else {
      var g := Gather(attrs, bare, e);
      var r := AttributeLoop(env, ctx, st, g.0, g.1);
      calc {
        AttributeLoop(env, ctx, s, attrs, bare);
        == { EntriesAdjacent(env, ctx, s, attrs, bare); }
        Reply(r.outcome, r.rest, none + r.warnings);
        == { assert none + r.warnings == none + none + r.warnings; }
        Reply(r.outcome, r.rest, none + none + r.warnings);
      }
    }
  }

  /** The units of a non-empty list: the first gap, the first entry, then the rest. */
  lemma ListSplit(env: Env, s: Stream, items: seq<Item>, trail: seq<Unit>)
    requires items != [] && Ahead(env, s, |ListUnits(items, trail)|) == ListUnits(items, trail)
    ensures var sg := Skip(env, s, |items[0].gap|);
      var t := Writing(items[0].entry);
      var rest := ListUnits(items[1..], trail);
      && Ahead(env, s, |items[0].gap|) == items[0].gap
      && Ahead(env, sg, |t|) == CharsOf(t)
      && Ahead(env, Skip(env, sg, |t|), |rest|) == rest
      && Skip(env, s, |ListUnits(items, trail)|) == Skip(env, Skip(env, sg, |t|), |rest|)
  {
    var t := Writing(items[0].entry);
    var rest := ListUnits(items[1..], trail);
    assert ListUnits(items, trail) == items[0].gap + (CharsOf(t) + rest);
    AheadConcat(env, s, items[0].gap, CharsOf(t) + rest);
    AheadConcat(env, Skip(env, s, |items[0].gap|), CharsOf(t), rest);
  }

  /**
   * The entries of a well-written list, gathered from `attrs` and `bare`: the result is
   * the fold of the entries, the stream is after the `]`, and each repeated name gives
   * one warning.
   */
  lemma {:induction false} ListParsed(env: Env, ctx: Context, s: Stream, items: seq<Item>, trail: seq<Unit>,
                                      attrs: Content.Attributes, bare: seq<string>)
    requires WellSpaced(items, trail) && Ahead(env, s, |ListUnits(items, trail)|) == ListUnits(items, trail)
    ensures var r := AttributeLoop(env, ctx, s, attrs, bare);
      && r.outcome == Parsed(GatherAll(attrs, bare, EntriesOf(items)))
      && r.rest == Skip(env, s, |ListUnits(items, trail)|)
      && DuplicateWarnings(ctx, r.warnings, Repeated(attrs.Keys, EntriesOf(items)))
    decreases |items|
  {
    if items == [] {
      AheadConcat(env, s, trail, [Char(']')]);
      GapSkipped(env, ctx, s, trail, attrs, bare);
      var s1 := Skip(env, s, |trail|);
      assert Ahead(env, s1, 1) == [Char(']')];
      assert Ahead(env, s1, 1)[0] == Peek(env, s1);
      assert Skip(env, s1, 1) == Skip(env, Read(env, s1), 0);
    } else {
      var w := items[0].entry;
      var t := Writing(w);
      var rest := ListUnits(items[1..], trail);
      ListSplit(env, s, items, trail);
      var sg := Skip(env, s, |items[0].gap|);
      var st := Skip(env, sg, |t|);
      GapSkipped(env, ctx, s, items[0].gap, attrs, bare);
      WellSpacedTail(items, trail);
      ListOpens(items[1..], trail);
      assert Ahead(env, st, |rest|) == [Peek(env, st)] + Ahead(env, Read(env, st), |rest| - 1);
      assert Closes(w, Peek(env, st));
      EntryStep(env, ctx, sg, w, attrs, bare);
      var e := (w.name, w.value);
      var g := Gather(attrs, bare, e);
      GatherKeeps(attrs, bare, e);
      ListParsed(env, ctx, st, items[1..], trail, g.0, g.1);
      assert EntriesOf(items) == [e] + EntriesOf(items[1..]);
      var r := AttributeLoop(env, ctx, st, g.0, g.1);
      var dup := if e.0.Some? && e.0.value in attrs then Warn(ctx, st, Duplicated) else [];
      DuplicateWarningsCons(ctx, dup, r.warnings, Repeated(g.0.Keys, EntriesOf(items[1..])));
    }
  }

  /**
   * Round trip of a list: `[`, then well-written entries apart from each other by
   * spaces or line breaks, then `]`, gives the first-wins fold of the entries, the
   * stream after the `]`, and one "duplicated" warning per repeated name.
   */
  lemma AttributesRoundTrip(env: Env, ctx: Context, s: Stream, items: seq<Item>, trail: seq<Unit>)
    requires Peek(env, s) == Char('[') && WellSpaced(items, trail)
    requires var s1 := SetCheck(Read(env, s), false);
      Ahead(env, s1, |ListUnits(items, trail)|) == ListUnits(items, trail)
    ensures var s1 := SetCheck(Read(env, s), false);
      var r := ParseAttributes(env, ctx, s);
      && r.outcome == Parsed(GatherAll(map[], [], EntriesOf(items)))
      && r.rest == Skip(env, s1, |ListUnits(items, trail)|)
      && DuplicateWarnings(ctx, r.warnings, Repeated({}, EntriesOf(items)))
  {
    var empty: Content.Attributes := map[];
    assert empty.Keys == {};
    ListParsed(env, ctx, SetCheck(Read(env, s), false), items, trail, empty, []);
  }

  /** The entries of `[a=x b="y""z" c a=w]` gathered: `a` keeps `x`, `b` is `y"z`, `c` is bare, one repeat. */
  lemma ExampleGathering()
    ensures var es := [(Some("a"), "x"), (Some("b"), "y\"z"), (None, "c"), (Some("a"), "w")];
      && GatherAll(map[], [], es) == (map["a" := "x", "b" := "y\"z"], ["c"])
      && Repeated({}, es) == 1
    ensures Writing(Written(Some("b"), "y\"z", true)) == "b=\"y\"\"z\""
  {
    var es := [(Some("a"), "x"), (Some("b"), "y\"z"), (None, "c"), (Some("a"), "w")];
    var m1 := map["a" := "x"];
    var m2 := m1["b" := "y\"z"];
    assert es[1..] == [es[1], es[2], es[3]];
    assert es[1..][1..] == [es[2], es[3]];
    assert es[1..][1..][1..] == [es[3]];
    assert [es[3]][1..] == [];
    assert GatherAll(m2, ["c"], [es[3]]) == (m2, ["c"]);
    assert [es[2], es[3]][1..] == [es[3]];
    assert es[2] == (None, "c") && es[2].0.None?;
    var none: seq<string> := [];
    assert none + [es[2].1] == ["c"];
    assert Gather(m2, none, es[2]) == (m2, ["c"]);
    assert GatherAll(m2, none, [es[2], es[3]]) == (m2, ["c"]);
    assert GatherAll(m1, [], [es[1], es[2], es[3]]) == (m2, ["c"]);
    assert m2 == map["a" := "x", "b" := "y\"z"];
    assert Repeated({"a", "b"}, [es[3]]) == 1;
    assert NameOf(es[2]) == {};
    assert {"a", "b"} + NameOf(es[2]) == {"a", "b"};
    assert Repeated({"a", "b"}, [es[2], es[3]]) == 1;
    assert {"a"} + NameOf(es[1]) == {"a", "b"};
    assert [es[1], es[2], es[3]][1..] == [es[2], es[3]];
    assert Repeated({"a"}, [es[1], es[2], es[3]]) == 1;
  }

  /** The four entries of `[a=x b="y""z" c a=w]`, each after its gap. */
  function ExampleItems(): seq<Item> {
    [ Item([], Written(Some("a"), "x", false)), Item([Char(' ')], Written(Some("b"), "y\"z", true)),
      Item([Char(' ')], Written(None, "c", false)), Item([Char(' ')], Written(Some("a"), "w", false)) ]
  }

  lemma ExampleShape()
    ensures WellSpaced(ExampleItems(), [])
    ensures EntriesOf(ExampleItems()) == [(Some("a"), "x"), (Some("b"), "y\"z"), (None, "c"), (Some("a"), "w")]
  {
    var items := ExampleItems();
    assert Symbol.IsSymbolChar('a') && Symbol.IsSymbolChar('b');
    assert Plain('x') && Plain('c') && Plain('w');
    assert items[1..][1..][1..][1..] == [];
  }

  /** Four writings separated by single spaces and closed by `]`, unit by unit. */
  lemma SpacedUnits(p0: string, p1: string, p2: string, p3: string)
    ensures var sp, none := [Char(' ')], [];
      none + CharsOf(p0) + (sp + CharsOf(p1) + (sp + CharsOf(p2) + (sp + CharsOf(p3) + (none + [Char(']')]))))
        == CharsOf(p0 + (" " + p1 + (" " + p2 + (" " + p3 + "]"))))
  {
    assert CharsOf(" ") == [Char(' ')] && CharsOf("]") == [Char(']')];
    CharsOfConcat(p3, "]");
    CharsOfConcat(" ", p3 + "]");
    CharsOfConcat(p2, " " + p3 + "]");
    CharsOfConcat(" ", p2 + (" " + p3 + "]"));
    CharsOfConcat(p1, " " + p2 + (" " + p3 + "]"));
    CharsOfConcat(" ", p1 + (" " + p2 + (" " + p3 + "]")));
    CharsOfConcat(p0, " " + p1 + (" " + p2 + (" " + p3 + "]")));
  }

  /** The written list, piece by piece, in the shape `ListUnits` builds it. */
  lemma ExampleText()
    ensures var sp, none := [Char(' ')], [];
      none + CharsOf("a=x") + (sp + CharsOf("b=\"y\"\"z\"") + (sp + CharsOf("c") + (sp + CharsOf("a=w") + (none + [Char(']')]))))
        == CharsOf("a=x b=\"y\"\"z\" c a=w]")
  {
    SpacedUnits("a=x", "b=\"y\"\"z\"", "c", "a=w");
    assert "a=x" + (" " + "b=\"y\"\"z\"" + (" " + "c" + (" " + "a=w" + "]"))) == "a=x b=\"y\"\"z\" c a=w]";
  }

  /** The units of a list whose first item is `it`. */
  lemma ItemUnits(it: Item, rest: seq<Item>, trail: seq<Unit>)
    ensures ListUnits([it] + rest, trail) == it.gap + CharsOf(Writing(it.entry)) + ListUnits(rest, trail)
  {
    assert ([it] + rest)[1..] == rest;
  }

  lemma FourItemUnits(i0: Item, i1: Item, i2: Item, i3: Item, trail: seq<Unit>)
    ensures ListUnits([i0, i1, i2, i3], trail) ==
      i0.gap + CharsOf(Writing(i0.entry)) + (i1.gap + CharsOf(Writing(i1.entry)) +
        (i2.gap + CharsOf(Writing(i2.entry)) + (i3.gap + CharsOf(Writing(i3.entry)) + (trail + [Char(']')]))))
  {
    var empty: seq<Item> := [];
    assert [i0, i1, i2, i3] == [i0] + ([i1] + ([i2] + ([i3] + empty)));
    ItemUnits(i0, [i1] + ([i2] + ([i3] + empty)), trail);
    ItemUnits(i1, [i2] + ([i3] + empty), trail);
    ItemUnits(i2, [i3] + empty, trail);
    ItemUnits(i3, empty, trail);
  }

  lemma ExampleWritings()
    ensures var it := ExampleItems();
      && Writing(it[0].entry) == "a=x" && Writing(it[1].entry) == "b=\"y\"\"z\""
      && Writing(it[2].entry) == "c" && Writing(it[3].entry) == "a=w"
  {
    ExampleGathering();
  }

  lemma ExampleUnits()
    ensures ListUnits(ExampleItems(), []) == CharsOf("a=x b=\"y\"\"z\" c a=w]")
  {
    var it := ExampleItems();
    var none: seq<Unit> := [];
    calc {
      ListUnits(it, none);
      == { assert it == [it[0], it[1], it[2], it[3]]; FourItemUnits(it[0], it[1], it[2], it[3], none); }
      it[0].gap + CharsOf(Writing(it[0].entry)) + (it[1].gap + CharsOf(Writing(it[1].entry)) +
        (it[2].gap + CharsOf(Writing(it[2].entry)) + (it[3].gap + CharsOf(Writing(it[3].entry)) + (none + [Char(']')]))));
      == { ExampleWritings(); }
      none + CharsOf("a=x") + ([Char(' ')] + CharsOf("b=\"y\"\"z\"") + ([Char(' ')] + CharsOf("c") +
        ([Char(' ')] + CharsOf("a=w") + (none + [Char(']')]))));
      == { ExampleText(); }
      CharsOf("a=x b=\"y\"\"z\" c a=w]");
    }
  }

  /**
   * The list `[a=x b="y""z" c a=w]` as written: `a` keeps `x`, `b` is `y"z`, `c` is bare,
   * the second `a` is one duplicate, and the stream is right after the `]`.
   */
  lemma AttributesExample(env: Env, ctx: Context, s: Stream)
    requires Peek(env, s) == Char('[')
    requires Ahead(env, SetCheck(Read(env, s), false), 19) == CharsOf("a=x b=\"y\"\"z\" c a=w]")
    ensures var r := ParseAttributes(env, ctx, s);
      && r.outcome == Parsed((map["a" := "x", "b" := "y\"z"], ["c"]))
      && r.rest == Skip(env, SetCheck(Read(env, s), false), 19)
      && DuplicateWarnings(ctx, r.warnings, 1)
  {
    ExampleShape();
    ExampleUnits();
    ExampleGathering();
    AttributesRoundTrip(env, ctx, s, ExampleItems(), []);
  }
}
