/**
 * The first-generation indentation lexer (`UnitStream`, src/build/step2.rs).
 *
 * It reads a whole line of characters at a time from a `CharStream` and queues the
 * line's units at the front of a double-ended queue (`push_front`); `read` takes them
 * from the back (`pop_back`). The units follow the layout rule of module `Layout`
 * over the characters the `CharStream` delivers.
 */
module UnitStream {
  import CharStream
  import Layout

  type Unit = Layout.Unit<CharStream.Char>

  /** The lexer's state besides the character stream; `mark` copies it whole. */
  datatype Status = Status(queue: seq<Unit>, depth: nat)

  datatype UnitStream = UnitStream(chars: CharStream.CharStream, status: Status)

  datatype Mark = Mark(step1: CharStream.Mark, status: Status)

  predicate Valid(s: UnitStream) {
    CharStream.Valid(s.chars)
  }

  /** Spaces and line feeds of the character stream; everything else is content. */
  function Classify(c: CharStream.Char): Layout.Class {
    if c.character == ' ' then Layout.Space
    else if c.character == '\n' then Layout.LineFeed
    else Layout.Other
  }

  /** The order in which `pop_back` hands out a queue filled by `push_front`. */
  function Delivery(queue: seq<Unit>): seq<Unit> {
    Layout.Reverse(queue)
  }

  function New(chars: CharStream.CharStream): UnitStream {
    UnitStream(chars, Status([], 0))
  }

  function PushFront(st: Status, u: Unit): (r: Status)
    ensures r.depth == st.depth
    ensures Delivery(r.queue) == Delivery(st.queue) + [u]
  {
    Status([u] + st.queue, st.depth)
  }

  /** `move_indent_depth`: one `Indent` or `UnIndent` per level until the depth is `d`. */
  function MoveIndentDepth(st: Status, d: nat): (r: Status)
    ensures r.depth == d
    ensures Delivery(r.queue) == Delivery(st.queue) + Layout.Shift(st.depth, d)
    decreases if st.depth < d then d - st.depth else st.depth - d
  {
    if st.depth < d then
      var q := Delivery(st.queue);
      assert Layout.Shift<CharStream.Char>(st.depth, d) == [Layout.Indent] + Layout.Shift(st.depth + 1, d);
      assert q + [Layout.Indent] + Layout.Shift(st.depth + 1, d) == q + Layout.Shift(st.depth, d);
      MoveIndentDepth(PushFront(st, Layout.Indent).(depth := st.depth + 1), d)
    else if st.depth > d then
      var q := Delivery(st.queue);
      assert Layout.Shift<CharStream.Char>(st.depth, d) == [Layout.UnIndent] + Layout.Shift(st.depth - 1, d);
      assert q + [Layout.UnIndent] + Layout.Shift(st.depth - 1, d) == q + Layout.Shift(st.depth, d);
      MoveIndentDepth(PushFront(st, Layout.UnIndent).(depth := st.depth - 1), d)
    else
      assert Delivery(st.queue) + Layout.Shift(st.depth, d) == Delivery(st.queue);
      st
  }

  /** Queue each of `cs` as a `Char` unit, in order. */
  function PushChars(st: Status, cs: seq<CharStream.Char>): (r: Status)
    ensures r.depth == st.depth
    ensures Delivery(r.queue) == Delivery(st.queue) + Layout.Chars(cs)
    decreases |cs|
  {
    if |cs| == 0 then
      assert Delivery(st.queue) + Layout.Chars(cs) == Delivery(st.queue);
      st
    else
      var q := Delivery(st.queue);
      assert q + [Layout.Char(cs[0])] + Layout.Chars(cs[1..]) == q + Layout.Chars(cs);
      PushChars(PushFront(st, Layout.Char(cs[0])), cs[1..])
  }

  /** The end of the input: close every level, then `Eof`. */
  function AtEnd(chars: CharStream.CharStream, st: Status): UnitStream {
    UnitStream(chars, PushFront(MoveIndentDepth(st, 0), Layout.Eof))
  }

  /**
   * The first loop of `read_line`: leading spaces are collected in `spaces` until the
   * line turns out blank (a line feed), ends the input, or reaches its first character.
   */
  function Leading(chars: CharStream.CharStream, spaces: seq<CharStream.Char>, st: Status): UnitStream
    requires CharStream.Valid(chars)
    decreases |chars.chars| - chars.pointer
  {
    var (c, chars') := CharStream.Read(chars);
    if c.None? then AtEnd(chars', st)
    else if c.value.character == ' ' then Leading(chars', spaces + [c.value], st)
    else if c.value.character == '\n' then UnitStream(chars', PushFront(st, Layout.NewLine))
    else
      var d := |spaces| / 4;
      var st' := PushChars(MoveIndentDepth(st, d), spaces[4 * d..]);
      Trailing(chars', [], PushFront(st', Layout.Char(c.value)))
  }

  /**
   * The second loop of `read_line`: spaces wait in `trailing` and are queued only when
   * another character follows on the same line.
   */
  function Trailing(chars: CharStream.CharStream, trailing: seq<CharStream.Char>, st: Status): UnitStream
    requires CharStream.Valid(chars)
    decreases |chars.chars| - chars.pointer
  {
    var (c, chars') := CharStream.Read(chars);
    if c.None? then AtEnd(chars', st)
    else if c.value.character == '\n' then UnitStream(chars', PushFront(st, Layout.NewLine))
    else if c.value.character == ' ' then Trailing(chars', trailing + [c.value], st)
    else Trailing(chars', [], PushFront(PushChars(st, trailing), Layout.Char(c.value)))
  }

  function ReadLine(s: UnitStream): UnitStream
    requires Valid(s)
  {
    Leading(s.chars, [], s.status)
  }

  /** `read`: refill the empty queue with the next line, then take the oldest unit. */
  function Read(s: UnitStream): (r: (Unit, UnitStream))
    requires Valid(s)
  {
    var s1 := if s.status.queue == [] then ReadLine(s) else s;
    if s1.status.queue == [] then (Layout.Eof, s1) else PopBack(s1)
  }

  function GetMark(s: UnitStream): Mark {
    Mark(CharStream.GetMark(s.chars), s.status)
  }

  function Reset(s: UnitStream, m: Mark): UnitStream {
    UnitStream(CharStream.Reset(s.chars, m.step1), m.status)
  }

  // ---------------------------------------------------------------------------
  // The units still to come
  // ---------------------------------------------------------------------------

  /**
   * Everything the stream will deliver, up to and including `Eof`: what is queued, then
   * (unless the queue already ends the input) the layout of the unread characters.
   */
  function Future(s: UnitStream): seq<Unit> {
    var queued := Delivery(s.status.queue);
    if Layout.Eof in queued then queued
    else queued + Layout.Lines(Classify, s.status.depth, CharStream.ReadAll(s.chars))
  }

  /** A queue that holds `Eof` holds it last, and nothing is left to read behind it. */
  predicate Inv(s: UnitStream) {
    && Valid(s)
    && var queued := Delivery(s.status.queue);
    (Layout.Eof in queued ==>
      Layout.Terminated(queued) && CharStream.ReadAll(s.chars) == [] && s.status.depth == 0)
  }

  /** The first `n` units that `n` calls of `read` return. */
  function ReadN(s: UnitStream, n: nat): (r: seq<Unit>)
    requires Inv(s)
    ensures |r| == n
    decreases n
  {
    if n == 0 then []
    else
      ReadStep(s);
      var (u, s') := Read(s);
      [u] + ReadN(s', n - 1)
  }

  // ---------------------------------------------------------------------------
  // Properties
  // ---------------------------------------------------------------------------

  /** `r` is a valid state with units queued, and `expected` is everything it will deliver. */
  predicate Delivers(r: UnitStream, expected: seq<Unit>) {
    Inv(r) && r.status.queue != [] && Future(r) == expected
  }

  /** While the queue has no `Eof`, the layout of the unread characters follows it. */
  lemma OpenFuture(r: UnitStream)
    requires Valid(r) && Layout.Eof !in Delivery(r.status.queue)
    ensures Inv(r)
    ensures Future(r) == Delivery(r.status.queue) + Layout.Lines(Classify, r.status.depth, CharStream.ReadAll(r.chars))
  {
  }

  lemma AtEndFollowsLayout(chars: CharStream.CharStream, st: Status, t: seq<Unit>)
    requires CharStream.Valid(chars) && CharStream.ReadAll(chars) == []
    requires Layout.Eof !in Delivery(st.queue)
    requires t == Layout.Shift(st.depth, 0) + [Layout.Eof]
    ensures Delivers(AtEnd(chars, st), Delivery(st.queue) + t)
  {
    var q := Delivery(st.queue);
    var shift := Layout.Shift<CharStream.Char>(st.depth, 0);
    var r := AtEnd(chars, st);
    assert Delivery(r.status.queue) == q + shift + [Layout.Eof];
    Layout.ShiftHasNoEof<CharStream.Char>(st.depth, 0);
    Layout.TerminatedAfter(q + shift, [Layout.Eof]);
    Layout.Associative(q, shift, [Layout.Eof]);
  }

  lemma NewLineFollowsLayout(chars: CharStream.CharStream, st: Status, t: seq<Unit>)
    requires CharStream.Valid(chars)
    requires Layout.Eof !in Delivery(st.queue)
    requires t == [Layout.NewLine] + Layout.Lines(Classify, st.depth, CharStream.ReadAll(chars))
    ensures Delivers(UnitStream(chars, PushFront(st, Layout.NewLine)), Delivery(st.queue) + t)
  {
    OpenFuture(UnitStream(chars, PushFront(st, Layout.NewLine)));
  }

  lemma Regroup(r: UnitStream, queued: seq<Unit>, line: seq<Unit>, rest: seq<Unit>)
    requires Delivers(r, (queued + line) + rest)
    ensures Delivers(r, queued + (line + rest))
  {
    assert (queued + line) + rest == queued + (line + rest);
  }

  /** What the first character of a line queues: the depth change, the spare spaces, the character. */
  function LineStart(depth: nat, spaces: seq<CharStream.Char>, ch: CharStream.Char): (line: seq<Unit>)
    ensures Layout.Eof !in line
  {
    var d := |spaces| / 4;
    Layout.ShiftHasNoEof<CharStream.Char>(depth, d);
    Layout.CharsHaveNoEof(spaces[4 * d..]);
    Layout.Shift(depth, d) + Layout.Chars(spaces[4 * d..]) + [Layout.Char(ch)]
  }

  lemma LineStartQueued(st: Status, spaces: seq<CharStream.Char>, ch: CharStream.Char)
    ensures var d := |spaces| / 4;
      var st' := PushFront(PushChars(MoveIndentDepth(st, d), spaces[4 * d..]), Layout.Char(ch));
      Delivery(st'.queue) == Delivery(st.queue) + LineStart(st.depth, spaces, ch) && st'.depth == d
  {
    var d := |spaces| / 4;
    var q := Delivery(st.queue);
    var shift := Layout.Shift<CharStream.Char>(st.depth, d);
    var pad := Layout.Chars(spaces[4 * d..]);
    assert q + shift + pad + [Layout.Char(ch)] == q + (shift + pad + [Layout.Char(ch)]);
  }

  lemma LineStartLayout(depth: nat, spaces: seq<CharStream.Char>, ch: CharStream.Char, rest: seq<CharStream.Char>)
    requires Layout.AllSpaces(Classify, spaces) && Classify(ch) == Layout.Other
    ensures Layout.Lines(Classify, depth, spaces + [ch] + rest)
      == LineStart(depth, spaces, ch) + Layout.Text(Classify, |spaces| / 4, rest)
  {
    Layout.LinesContent(Classify, depth, spaces, ch, rest);
  }

  /** The units queued for a character after spaces in the middle of a line. */
  lemma MiddleFollowsLayout(st: Status, trailing: seq<CharStream.Char>, ch: CharStream.Char, rest: seq<CharStream.Char>)
    requires Layout.AllSpaces(Classify, trailing) && Classify(ch) == Layout.Other
    requires Layout.Eof !in Delivery(st.queue)
    ensures var st' := PushFront(PushChars(st, trailing), Layout.Char(ch));
      && Layout.Eof !in Delivery(st'.queue)
      && Delivery(st'.queue) + Layout.Text(Classify, st.depth, rest)
         == Delivery(st.queue) + Layout.Text(Classify, st.depth, trailing + [ch] + rest)
  {
    Layout.TextContent(Classify, st.depth, trailing, ch, rest);
    MiddleQueued(st, trailing, ch, Layout.Text(Classify, st.depth, rest));
  }

  /** The characters of a line's middle are queued in order, before what follows them. */
  lemma MiddleQueued(st: Status, trailing: seq<CharStream.Char>, ch: CharStream.Char, t: seq<Unit>)
    requires Layout.Eof !in Delivery(st.queue)
    ensures var st' := PushFront(PushChars(st, trailing), Layout.Char(ch));
      && Layout.Eof !in Delivery(st'.queue)
      && Delivery(st'.queue) + t == Delivery(st.queue) + (Layout.Chars(trailing) + [Layout.Char(ch)] + t)
  {
    var q := Delivery(st.queue);
    var cs := Layout.Chars(trailing);
    assert Layout.Eof !in q + cs + [Layout.Char(ch)] by {
      Layout.CharsHaveNoEof(trailing);
    }
    assert q + cs + [Layout.Char(ch)] + t == q + (cs + [Layout.Char(ch)] + t);
  }

  /** The first loop of `read_line` queues exactly the layout of its line. */
  lemma {:induction false} LeadingFollowsLayout(chars: CharStream.CharStream, spaces: seq<CharStream.Char>, st: Status)
    requires CharStream.Valid(chars)
    requires Layout.AllSpaces(Classify, spaces)
    requires Layout.Eof !in Delivery(st.queue)
    ensures Delivers(Leading(chars, spaces, st),
      Delivery(st.queue) + Layout.Lines(Classify, st.depth, spaces + CharStream.ReadAll(chars)))
    decreases |chars.chars| - chars.pointer
  {
    var (c, chars') := CharStream.Read(chars);
    var all := CharStream.ReadAll(chars);
    if c.None? {
      assert Leading(chars, spaces, st) == AtEnd(chars', st);
      Layout.LinesAtEnd(Classify, st.depth, spaces);
      assert spaces + all == spaces;
      AtEndFollowsLayout(chars', st, Layout.Lines(Classify, st.depth, spaces));
    } else {
      var ch := c.value;
      var rest := CharStream.ReadAll(chars');
      assert all == [ch] + rest;
      assert spaces + all == spaces + [ch] + rest;
      if ch.character == ' ' {
        assert Leading(chars, spaces, st) == Leading(chars', spaces + [ch], st);
        LeadingFollowsLayout(chars', spaces + [ch], st);
      } else if ch.character == '\n' {
        assert Leading(chars, spaces, st) == UnitStream(chars', PushFront(st, Layout.NewLine));
        Layout.LinesBlank(Classify, st.depth, spaces, ch, rest);
        NewLineFollowsLayout(chars', st, Layout.Lines(Classify, st.depth, spaces + all));
      } else {
        var d := |spaces| / 4;
        var st' := PushFront(PushChars(MoveIndentDepth(st, d), spaces[4 * d..]), Layout.Char(ch));
        assert Leading(chars, spaces, st) == Trailing(chars', [], st');
        LineStartQueued(st, spaces, ch);
        LineStartLayout(st.depth, spaces, ch, rest);
        TrailingFollowsLayout(chars', [], st');
        assert [] + rest == rest;
        Regroup(Trailing(chars', [], st'), Delivery(st.queue), LineStart(st.depth, spaces, ch),
                Layout.Text(Classify, d, rest));
      }
    }
  }

  /** The second loop of `read_line` queues exactly the layout of the rest of its line. */
  lemma {:induction false} TrailingFollowsLayout(chars: CharStream.CharStream, trailing: seq<CharStream.Char>, st: Status)
    requires CharStream.Valid(chars)
    requires Layout.AllSpaces(Classify, trailing)
    requires Layout.Eof !in Delivery(st.queue)
    ensures Delivers(Trailing(chars, trailing, st),
      Delivery(st.queue) + Layout.Text(Classify, st.depth, trailing + CharStream.ReadAll(chars)))
    decreases |chars.chars| - chars.pointer
  {
    var (c, chars') := CharStream.Read(chars);
    var all := CharStream.ReadAll(chars);
    if c.None? {
      assert Trailing(chars, trailing, st) == AtEnd(chars', st);
      Layout.TextAtEnd(Classify, st.depth, trailing);
      assert trailing + all == trailing;
      AtEndFollowsLayout(chars', st, Layout.Text(Classify, st.depth, trailing));
    } else {
      var ch := c.value;
      var rest := CharStream.ReadAll(chars');
      assert all == [ch] + rest;
      assert trailing + all == trailing + [ch] + rest;
      if ch.character == '\n' {
        assert Trailing(chars, trailing, st) == UnitStream(chars', PushFront(st, Layout.NewLine));
        Layout.TextNewLine(Classify, st.depth, trailing, ch, rest);
        NewLineFollowsLayout(chars', st, Layout.Text(Classify, st.depth, trailing + all));
      } else if ch.character == ' ' {
        assert Trailing(chars, trailing, st) == Trailing(chars', trailing + [ch], st);
        TrailingFollowsLayout(chars', trailing + [ch], st);
      } else {
        var st' := PushFront(PushChars(st, trailing), Layout.Char(ch));
        assert Trailing(chars, trailing, st) == Trailing(chars', [], st');
        MiddleFollowsLayout(st, trailing, ch, rest);
        TrailingFollowsLayout(chars', [], st');
        assert [] + rest == rest;
      }
    }
  }

  lemma FutureTerminated(s: UnitStream)
    requires Inv(s)
    ensures Layout.Terminated(Future(s))
  {
    var queued := Delivery(s.status.queue);
    if Layout.Eof !in queued {
      Layout.LinesTerminated(Classify, s.status.depth, CharStream.ReadAll(s.chars));
      Layout.TerminatedAfter(queued, Layout.Lines(Classify, s.status.depth, CharStream.ReadAll(s.chars)));
    }
  }

  /**
   * One `read` hands out the first unit still to come and keeps the rest in order
   * (first in, first out); once `Eof` is handed out it comes again.
   */
  lemma ReadStep(s: UnitStream)
    requires Inv(s)
    ensures var (u, s') := Read(s);
      && Inv(s')
      && Layout.Terminated(Future(s))
      && u == Future(s)[0]
      && Future(s') == (if u == Layout.Eof then Future(s) else Future(s)[1..])
  {
    FutureTerminated(s);
    var s1 := if s.status.queue == [] then ReadLine(s) else s;
    Refill(s);
    Pop(s1);
  }

  /** An empty queue is refilled with the next line, which changes nothing still to come. */
  lemma Refill(s: UnitStream)
    requires Inv(s)
    ensures Delivers(if s.status.queue == [] then ReadLine(s) else s, Future(s))
  {
    if s.status.queue == [] {
      assert Layout.AllSpaces(Classify, []);
      assert Delivery([]) == [];
      LeadingFollowsLayout(s.chars, [], s.status);
      assert [] + CharStream.ReadAll(s.chars) == CharStream.ReadAll(s.chars);
    }
  }

  /** Taking the unit at the back of a non-empty queue. */
  function PopBack(s: UnitStream): (Unit, UnitStream)
    requires s.status.queue != []
  {
    var q := s.status.queue;
    (q[|q| - 1], UnitStream(s.chars, Status(q[..|q| - 1], s.status.depth)))
  }

  lemma Pop(s: UnitStream)
    requires Inv(s) && s.status.queue != []
    ensures var (u, s') := PopBack(s);
      && Inv(s')
      && Layout.Terminated(Future(s))
      && u == Future(s)[0]
      && Future(s') == (if u == Layout.Eof then Future(s) else Future(s)[1..])
  {
    FutureTerminated(s);
    var q := s.status.queue;
    var queued := Delivery(q);
    var s' := PopBack(s).1;
    Layout.ReverseLast(q);
    Layout.ReverseMembers(q);
    Layout.ReverseMembers(q[..|q| - 1]);
    assert Delivery(s'.status.queue) == queued[1..];
    if Layout.Eof in queued {
      PopClosed(s);
    } else {
      OpenFuture(s);
      OpenFuture(s');
    }
  }

  /** Popping from a queue that already ends the input. */
  lemma PopClosed(s: UnitStream)
    requires Inv(s) && s.status.queue != [] && Layout.Eof in Delivery(s.status.queue)
    ensures var (u, s') := PopBack(s);
      && Inv(s')
      && (u == Layout.Eof ==> Future(s') == Future(s))
      && (u != Layout.Eof ==> Future(s') == Future(s)[1..])
  {
    var q := s.status.queue;
    var queued := Delivery(q);
    var s' := PopBack(s).1;
    Layout.ReverseLast(q);
    Layout.ReverseMembers(q[..|q| - 1]);
    assert Delivery(s'.status.queue) == queued[1..];
    if queued[0] == Layout.Eof {
      assert queued == [Layout.Eof];
      assert Delivery(s'.status.queue) == [];
      Layout.LinesAtEnd(Classify, 0, []);
    } else {
      assert queued[1..][|queued| - 2] == Layout.Eof;
      assert queued[1..][..|queued| - 2] == queued[..|queued| - 1][1..];
    }
  }

  /**
   * `n` reads from a stream return the first `n` units still to come, and `Eof` for
   * every read after those.
   */
  lemma {:induction false} ReadsFollowFuture(s: UnitStream, n: nat)
    requires Inv(s)
    ensures ReadN(s, n) == Layout.Padded(Future(s), n)
    decreases n
  {
    if n > 0 {
      ReadStep(s);
      var (u, s') := Read(s);
      assert ReadN(s, n) == [u] + ReadN(s', n - 1);
      ReadsFollowFuture(s', n - 1);
      Layout.PaddedRead(Future(s), u, Future(s'), ReadN(s', n - 1), n);
    }
  }

  /**
   * The lexer's output: from a fresh stream, the first `n` reads are the first `n`
   * units of the layout of the characters the `CharStream` delivers, then `Eof` forever.
   */
  lemma ReadsFollowLayout(chars: CharStream.CharStream, n: nat)
    requires CharStream.Valid(chars)
    ensures Inv(New(chars))
    ensures ReadN(New(chars), n) == Layout.Padded(Layout.Lines(Classify, 0, CharStream.ReadAll(chars)), n)
  {
    FreshFuture(chars);
    ReadsFollowFuture(New(chars), n);
  }

  /**
   * The indent depth never goes below zero: counting `Indent` up and `UnIndent` down
   * over the units read from the start, and it is back at zero once every unit up to
   * `Eof` has been read.
   */
  lemma DepthBalanced(chars: CharStream.CharStream, n: nat)
    requires CharStream.Valid(chars)
    ensures Layout.NeverNegative(0, ReadN(New(chars), n))
    ensures n >= |Layout.Lines(Classify, 0, CharStream.ReadAll(chars))| ==> Layout.DepthAfter(0, ReadN(New(chars), n)) == 0
  {
    ReadsFollowLayout(chars, n);
    Layout.LinesBalanced(Classify, 0, CharStream.ReadAll(chars));
    Layout.PaddedBalanced(Layout.Lines(Classify, 0, CharStream.ReadAll(chars)), n);
  }

  lemma FreshFuture(chars: CharStream.CharStream)
    requires CharStream.Valid(chars)
    ensures Inv(New(chars))
    ensures Future(New(chars)) == Layout.Lines(Classify, 0, CharStream.ReadAll(chars))
  {
    assert Delivery([]) == [];
  }

  /** `reset(mark())` restores the character stream, the queue and the depth: reads repeat. */
  lemma MarkThenReset(s: UnitStream, later: UnitStream, n: nat)
    requires Inv(s) && later.chars.chars == s.chars.chars
    ensures Reset(later, GetMark(s)) == s
    ensures ReadN(Reset(later, GetMark(s)), n) == ReadN(s, n)
  {
  }
}
