/**
 * The second-generation indentation lexer (`SourceUnitReader`,
 * src/build/source_unit_reader.rs).
 *
 * It pulls bytes from a `SourceCodeReader` through a four-mode state machine until at
 * least one unit is queued. The queue is a vector: units are pushed at its end, the
 * vector is reversed once the batch is complete, and `read_unit` pops from the end.
 * The units follow the layout rule of module `Layout` over the bytes the reader delivers.
 */
module SourceUnitReader {
  import SourceCodeReader
  import Layout

  type byte = SourceCodeReader.byte

  type Unit = Layout.Unit<byte>

  /** Where in a line the machine stands between two bytes. */
  datatype ReadingMode = Init | ReadingIndent | ReadingText | ReadingSpaces

  /**
   * The lexer's state, which `mark` copies whole. The `pointer` field is only filled in
   * by `mark`; while reading, the reader's own pointer is the one that counts.
   */
  datatype Marker = Marker(mode: ReadingMode, pointer: nat, depth: nat, queue: seq<Unit>)

  datatype SourceUnitReader = SourceUnitReader(reader: SourceCodeReader.Reader, status: Marker)

  /** Spaces and line feeds of the byte stream; everything else is content. */
  function Classify(b: byte): Layout.Class {
    if b == SourceCodeReader.Space then Layout.Space
    else if b == SourceCodeReader.LF then Layout.LineFeed
    else Layout.Other
  }

  function Spaces(k: nat): (r: seq<byte>)
    ensures |r| == k && forall i :: 0 <= i < k ==> r[i] == SourceCodeReader.Space
  {
    seq(k, _ => SourceCodeReader.Space)
  }

  function New(reader: SourceCodeReader.Reader): SourceUnitReader {
    SourceUnitReader(reader, Marker(Init, 0, 0, []))
  }

  /** The two `while` loops on the depth: one `Indent` or `Unindent` per level until it is `to`. */
  function MoveDepth(st: Marker, to: nat): (r: Marker)
    ensures r == st.(queue := st.queue + Layout.Shift(st.depth, to), depth := to)
    decreases if st.depth < to then to - st.depth else st.depth - to
  {
    if st.depth < to then
      assert Layout.Shift<byte>(st.depth, to) == [Layout.Indent] + Layout.Shift(st.depth + 1, to);
      assert st.queue + [Layout.Indent] + Layout.Shift(st.depth + 1, to) == st.queue + Layout.Shift(st.depth, to);
      MoveDepth(st.(queue := st.queue + [Layout.Indent], depth := st.depth + 1), to)
    else if st.depth > to then
      assert Layout.Shift<byte>(st.depth, to) == [Layout.UnIndent] + Layout.Shift(st.depth - 1, to);
      assert st.queue + [Layout.UnIndent] + Layout.Shift(st.depth - 1, to) == st.queue + Layout.Shift(st.depth, to);
      MoveDepth(st.(queue := st.queue + [Layout.UnIndent], depth := st.depth - 1), to)
    else
      assert st.queue + Layout.Shift(st.depth, to) == st.queue;
      st
  }

  function Push(st: Marker, us: seq<Unit>): Marker {
    st.(queue := st.queue + us)
  }

  /**
   * One byte through the `match` of `queue_units`, given the spaces counted so far
   * in the current run: the new state and the new count.
   */
  function Consume(st: Marker, count: nat, b: byte): (Marker, nat) {
    var space := b == SourceCodeReader.Space;
    var newLine := b == SourceCodeReader.LF;
    match st.mode
    case Init =>
      if space then (st.(mode := ReadingIndent), 1)
      else if newLine then (Push(st, [Layout.NewLine]), count)
      else (Push(MoveDepth(st, 0), [Layout.Char(b)]).(mode := ReadingText), count)
    case ReadingIndent =>
      if space then (st, count + 1)
      else if newLine then (Push(st, [Layout.NewLine]).(mode := Init), count)
      else
        var st' := Push(MoveDepth(st, count / 4), Layout.Repeat(Layout.Char(SourceCodeReader.Space), count % 4));
        (Push(st', [Layout.Char(b)]).(mode := ReadingText), count)
    case ReadingText =>
      if space then (st.(mode := ReadingSpaces), 1)
      else if newLine then (Push(st, [Layout.NewLine]).(mode := Init), count)
      else (Push(st, [Layout.Char(b)]), count)
    case ReadingSpaces =>
      if space then (st, count + 1)
      else if newLine then (Push(st, [Layout.NewLine]).(mode := Init), count)
      else
        var st' := Push(st, Layout.Repeat(Layout.Char(SourceCodeReader.Space), count));
        (Push(st', [Layout.Char(b)]).(mode := ReadingText), count)
  }

  /** The end of the input: close every level, then `Eof`. */
  function AtEnd(st: Marker): Marker {
    Push(MoveDepth(st, 0), [Layout.Eof])
  }

  /** The loop of `queue_units`: read bytes while nothing is queued. */
  function QueueLoop(r: SourceCodeReader.Reader, st: Marker, count: nat): (res: (SourceCodeReader.Reader, Marker))
    ensures res.1.queue != [] && res.1.pointer == st.pointer
    decreases |r.source| - r.pointer
  {
    if st.queue != [] then (r, st)
    else
      var (c, r') := SourceCodeReader.Read(r);
      if c.None? then (r', AtEnd(st))
      else
        var (st', count') := Consume(st, count, c.value);
        QueueLoop(r', st', count')
  }

  /** `queue_units`: the loop, then the batch reversed (when it has more than one unit). */
  function QueueUnits(s: SourceUnitReader): (r: SourceUnitReader)
    ensures r.status.queue != []
  {
    var (reader, st) := QueueLoop(s.reader, s.status, 0);
    SourceUnitReader(reader, st.(queue := if |st.queue| > 1 then Layout.Reverse(st.queue) else st.queue))
  }

  /** `read_unit`: refill the empty queue, then pop the unit at its end. */
  function ReadUnit(s: SourceUnitReader): (Unit, SourceUnitReader) {
    var s1 := if s.status.queue == [] then QueueUnits(s) else s;
    PopBack(s1)
  }

  function PopBack(s: SourceUnitReader): (Unit, SourceUnitReader)
    requires s.status.queue != []
  {
    var q := s.status.queue;
    (q[|q| - 1], SourceUnitReader(s.reader, s.status.(queue := q[..|q| - 1])))
  }

  /** `mark`: the whole state, with the reader's pointer filled in. */
  function GetMark(s: SourceUnitReader): Marker {
    s.status.(pointer := SourceCodeReader.Pointer(s.reader))
  }

  /** `reset`: the state becomes the marker and the reader seeks to its pointer. */
  function Reset(s: SourceUnitReader, m: Marker): SourceUnitReader {
    SourceUnitReader(SourceCodeReader.Seek(s.reader, m.pointer), m)
  }

  // ---------------------------------------------------------------------------
  // The units still to come
  // ---------------------------------------------------------------------------

  /** The layout of the unread bytes `t` for a machine in `mode` with `count` spaces counted. */
  function Ahead(mode: ReadingMode, count: nat, depth: nat, t: seq<byte>): seq<Unit> {
    match mode
    case Init => Layout.Lines(Classify, depth, t)
    case ReadingIndent => Layout.Lines(Classify, depth, Spaces(count) + t)
    case ReadingText => Layout.Text(Classify, depth, t)
    case ReadingSpaces => Layout.Text(Classify, depth, Spaces(count) + t)
  }

  /** Everything the lexer will deliver, up to and including `Eof`. */
  function Future(s: SourceUnitReader): seq<Unit> {
    var queued := Layout.Reverse(s.status.queue);
    if Layout.Eof in queued then queued
    else queued + Ahead(s.status.mode, 0, s.status.depth, SourceCodeReader.ReadAll(s.reader))
  }

  /** A queue that holds `Eof` holds it last, and nothing is left to read behind it. */
  predicate Inv(s: SourceUnitReader) {
    var queued := Layout.Reverse(s.status.queue);
    Layout.Eof in queued ==>
      Layout.Terminated(queued) && SourceCodeReader.ReadAll(s.reader) == [] && s.status.depth == 0
  }

  /** The units that `n` calls of `read_unit` return. */
  function ReadN(s: SourceUnitReader, n: nat): (r: seq<Unit>)
    ensures |r| == n
    decreases n
  {
    if n == 0 then []
    else
      var (u, s') := ReadUnit(s);
      [u] + ReadN(s', n - 1)
  }

  // ---------------------------------------------------------------------------
  // Properties
  // ---------------------------------------------------------------------------

  lemma SpacesAreSpaces(k: nat)
    ensures Layout.AllSpaces(Classify, Spaces(k))
    ensures Spaces(k) + [SourceCodeReader.Space] == Spaces(k + 1)
    ensures Layout.Chars(Spaces(k)) == Layout.Repeat(Layout.Char(SourceCodeReader.Space), k)
  {
    Layout.CharsOfSpaces(Spaces(k), SourceCodeReader.Space);
  }

  /** Without any byte left, every mode closes all levels and ends with `Eof`. */
  lemma AheadAtEnd(mode: ReadingMode, count: nat, depth: nat)
    ensures Ahead(mode, count, depth, []) == Layout.Shift(depth, 0) + [Layout.Eof]
  {
    SpacesAreSpaces(count);
    assert Spaces(count) + [] == Spaces(count);
    match mode
    case Init => Layout.LinesAtEnd(Classify, depth, []);
    case ReadingIndent => Layout.LinesAtEnd(Classify, depth, Spaces(count));
    case ReadingText => Layout.TextAtEnd(Classify, depth, []);
    case ReadingSpaces => Layout.TextAtEnd(Classify, depth, Spaces(count));
  }

  /**
   * The units queued for one byte, followed by the layout of the rest from the new
   * state, are the layout from the old state; a mode that queued something no longer
   * depends on the count.
   */
  predicate ConsumeFollows(st: Marker, count: nat, b: byte, rest: seq<byte>) {
    var (st', count') := Consume(st, count, b);
    && Layout.Eof !in st'.queue
    && st'.queue + Ahead(st'.mode, count', st'.depth, rest) == Ahead(st.mode, count, st.depth, [b] + rest)
    && (st'.queue != [] ==> Ahead(st'.mode, count', st'.depth, rest) == Ahead(st'.mode, 0, st'.depth, rest))
  }

  lemma InitFollowsLayout(st: Marker, count: nat, b: byte, rest: seq<byte>)
    requires st.queue == [] && st.mode == Init
    ensures ConsumeFollows(st, count, b, rest)
  {
    assert Layout.AllSpaces(Classify, []);
    assert [] + [b] + rest == [b] + rest;
    if b == SourceCodeReader.Space {
      assert Consume(st, count, b) == (st.(mode := ReadingIndent), 1);
      SpacesAreSpaces(0);
      assert Spaces(1) + rest == [b] + rest;
    } else if b == SourceCodeReader.LF {
      assert st.queue + [Layout.NewLine] == [Layout.NewLine];
      assert Consume(st, count, b) == (st.(queue := [Layout.NewLine]), count);
      Layout.LinesBlank(Classify, st.depth, [], b, rest);
    } else {
      var st' := Marker(ReadingText, st.pointer, 0, Layout.Shift(st.depth, 0) + [Layout.Char(b)]);
      assert Consume(st, count, b) == (st', count) by {
        assert MoveDepth(st, 0).queue == Layout.Shift(st.depth, 0);
      }
      Layout.LinesContent(Classify, st.depth, [], b, rest);
      Layout.ShiftHasNoEof<byte>(st.depth, 0);
      assert Layout.Chars<byte>([]) == [];
    }
  }

  lemma IndentFollowsLayout(st: Marker, count: nat, b: byte, rest: seq<byte>)
    requires st.queue == [] && st.mode == ReadingIndent
    ensures ConsumeFollows(st, count, b, rest)
  {
    if b == SourceCodeReader.Space {
      IndentSpace(st, count, b, rest);
    } else if b == SourceCodeReader.LF {
      IndentBlank(st, count, b, rest);
    } else {
      IndentContent(st, count, b, rest);
    }
  }

  /** One more space of indentation. */
  lemma IndentSpace(st: Marker, count: nat, b: byte, rest: seq<byte>)
    requires st.queue == [] && st.mode == ReadingIndent && b == SourceCodeReader.Space
    ensures ConsumeFollows(st, count, b, rest)
  {
    assert Consume(st, count, b) == (st, count + 1);
    SpacesAreSpaces(count);
    assert Spaces(count) + ([b] + rest) == Spaces(count + 1) + rest;
    assert [] + Ahead(ReadingIndent, count + 1, st.depth, rest) == Ahead(ReadingIndent, count + 1, st.depth, rest);
  }

  /** A line of nothing but spaces. */
  lemma IndentBlank(st: Marker, count: nat, b: byte, rest: seq<byte>)
    requires st.queue == [] && st.mode == ReadingIndent && b == SourceCodeReader.LF
    ensures ConsumeFollows(st, count, b, rest)
  {
    var st' := st.(queue := [Layout.NewLine], mode := Init);
    assert st.queue + [Layout.NewLine] == [Layout.NewLine];
    assert Consume(st, count, b) == (st', count);
    SpacesAreSpaces(count);
    assert Spaces(count) + ([b] + rest) == Spaces(count) + [b] + rest;
    Layout.LinesBlank(Classify, st.depth, Spaces(count), b, rest);
  }

  /** The first content byte after an indentation of `count` spaces. */
  lemma IndentContent(st: Marker, count: nat, b: byte, rest: seq<byte>)
    requires st.queue == [] && st.mode == ReadingIndent
    requires b != SourceCodeReader.Space && b != SourceCodeReader.LF
    ensures ConsumeFollows(st, count, b, rest)
  {
    var d := count / 4;
    var shift := Layout.Shift<byte>(st.depth, d);
    var pad := Layout.Repeat(Layout.Char(SourceCodeReader.Space), count % 4);
    var st' := Marker(ReadingText, st.pointer, d, shift + pad + [Layout.Char(b)]);
    assert Consume(st, count, b) == (st', count) by {
      var moved := MoveDepth(st, d);
      assert moved.queue == shift && moved.mode == ReadingIndent;
      assert Push(moved, pad).queue == shift + pad;
    }
    assert Layout.Eof !in st'.queue by {
      Layout.ShiftHasNoEof<byte>(st.depth, d);
      Layout.RepeatHasOnly(Layout.Char(SourceCodeReader.Space), count % 4);
    }
    var before := Ahead(ReadingIndent, count, st.depth, [b] + rest);
    assert before == Layout.Lines(Classify, st.depth, Spaces(count) + [b] + rest) by {
      assert Spaces(count) + ([b] + rest) == Spaces(count) + [b] + rest;
    }
    IndentLayout(st.depth, count, b, rest);
    assert st'.queue + Ahead(ReadingText, count, d, rest) == before;
  }

  lemma IndentLayout(depth: nat, count: nat, b: byte, rest: seq<byte>)
    requires b != SourceCodeReader.Space && b != SourceCodeReader.LF
    ensures var d := count / 4;
      Layout.Lines(Classify, depth, Spaces(count) + [b] + rest)
        == Layout.Shift(depth, d) + Layout.Repeat(Layout.Char(SourceCodeReader.Space), count % 4)
           + [Layout.Char(b)] + Layout.Text(Classify, d, rest)
  {
    var spare := Spaces(count)[4 * (count / 4)..];
    SpacesAreSpaces(count);
    Layout.LinesContent(Classify, depth, Spaces(count), b, rest);
    assert |spare| == count % 4;
    Layout.CharsOfSpaces(spare, SourceCodeReader.Space);
  }

  lemma TextFollowsLayout(st: Marker, count: nat, b: byte, rest: seq<byte>)
    requires st.queue == [] && st.mode == ReadingText
    ensures ConsumeFollows(st, count, b, rest)
  {
    if b == SourceCodeReader.Space {
      assert Consume(st, count, b) == (st.(mode := ReadingSpaces), 1);
      SpacesAreSpaces(0);
      assert Spaces(1) + rest == [b] + rest;
    } else if b == SourceCodeReader.LF {
      TextLineEnd(st, count, b, rest);
    } else {
      TextChar(st, count, b, rest);
    }
  }

  /** The end of a line of text. */
  lemma TextLineEnd(st: Marker, count: nat, b: byte, rest: seq<byte>)
    requires st.queue == [] && st.mode == ReadingText && b == SourceCodeReader.LF
    ensures ConsumeFollows(st, count, b, rest)
  {
    assert Layout.AllSpaces(Classify, []);
    assert [] + [b] + rest == [b] + rest;
    assert st.queue + [Layout.NewLine] == [Layout.NewLine];
    assert Consume(st, count, b) == (st.(queue := [Layout.NewLine], mode := Init), count);
    Layout.TextNewLine(Classify, st.depth, [], b, rest);
  }

  /** A character of text is its own unit. */
  lemma TextChar(st: Marker, count: nat, b: byte, rest: seq<byte>)
    requires st.queue == [] && st.mode == ReadingText
    requires b != SourceCodeReader.Space && b != SourceCodeReader.LF
    ensures ConsumeFollows(st, count, b, rest)
  {
    assert Layout.AllSpaces(Classify, []);
    assert [] + [b] + rest == [b] + rest;
    assert st.queue + [Layout.Char(b)] == [Layout.Char(b)];
    assert Consume(st, count, b) == (st.(queue := [Layout.Char(b)]), count);
    Layout.TextContent(Classify, st.depth, [], b, rest);
    assert Layout.Chars<byte>([]) + [Layout.Char(b)] == [Layout.Char(b)];
  }

  lemma SpacesFollowLayout(st: Marker, count: nat, b: byte, rest: seq<byte>)
    requires st.queue == [] && st.mode == ReadingSpaces
    ensures ConsumeFollows(st, count, b, rest)
  {
    SpacesAreSpaces(count);
    assert Spaces(count) + ([b] + rest) == Spaces(count) + [b] + rest;
    if b == SourceCodeReader.Space {
      assert Consume(st, count, b) == (st, count + 1);
      assert Spaces(count + 1) + rest == Spaces(count) + [b] + rest;
      assert [] + Ahead(ReadingSpaces, count + 1, st.depth, rest) == Ahead(ReadingSpaces, count + 1, st.depth, rest);
    } else if b == SourceCodeReader.LF {
      assert st.queue + [Layout.NewLine] == [Layout.NewLine];
      assert Consume(st, count, b) == (st.(queue := [Layout.NewLine], mode := Init), count);
      Layout.TextNewLine(Classify, st.depth, Spaces(count), b, rest);
    } else {
      SpacesContent(st, count, b, rest);
    }
  }

  /** The spaces inside a line are kept when a character that is not a space follows them. */
  lemma SpacesContent(st: Marker, count: nat, b: byte, rest: seq<byte>)
    requires st.queue == [] && st.mode == ReadingSpaces
    requires b != SourceCodeReader.Space && b != SourceCodeReader.LF
    ensures ConsumeFollows(st, count, b, rest)
  {
    var pad := Layout.Repeat(Layout.Char(SourceCodeReader.Space), count);
    var st' := st.(queue := pad + [Layout.Char(b)], mode := ReadingText);
    assert st.queue + pad == pad;
    assert Consume(st, count, b) == (st', count);
    SpacesAreSpaces(count);
    assert Spaces(count) + ([b] + rest) == Spaces(count) + [b] + rest;
    Layout.TextContent(Classify, st.depth, Spaces(count), b, rest);
    Layout.RepeatHasOnly(Layout.Char(SourceCodeReader.Space), count);
  }

  lemma ConsumeFollowsLayout(st: Marker, count: nat, b: byte, rest: seq<byte>)
    requires st.queue == []
    ensures ConsumeFollows(st, count, b, rest)
  {
    match st.mode
    case Init => InitFollowsLayout(st, count, b, rest);
    case ReadingIndent => IndentFollowsLayout(st, count, b, rest);
    case ReadingText => TextFollowsLayout(st, count, b, rest);
    case ReadingSpaces => SpacesFollowLayout(st, count, b, rest);
  }

  /**
   * What the loop leaves behind, `queued` in push order, followed by the layout of what
   * it has not read, is `expected`; a batch that holds `Eof` ends the input.
   */
  predicate Settles(r: SourceCodeReader.Reader, st: Marker, expected: seq<Unit>) {
    && st.queue != []
    && (Layout.Eof in st.queue ==>
         Layout.Terminated(st.queue) && SourceCodeReader.ReadAll(r) == [] && st.depth == 0)
    && expected == st.queue +
         (if Layout.Eof in st.queue then [] else Ahead(st.mode, 0, st.depth, SourceCodeReader.ReadAll(r)))
  }

  lemma AtEndSettles(r: SourceCodeReader.Reader, st: Marker, count: nat)
    requires st.queue == [] && SourceCodeReader.ReadAll(r) == []
    ensures Settles(r, AtEnd(st), Ahead(st.mode, count, st.depth, []))
  {
    var q := Layout.Shift<byte>(st.depth, 0) + [Layout.Eof];
    assert AtEnd(st) == st.(queue := q, depth := 0) by {
      assert st.queue + Layout.Shift<byte>(st.depth, 0) == Layout.Shift<byte>(st.depth, 0);
    }
    AheadAtEnd(st.mode, count, st.depth);
    Layout.ShiftHasNoEof<byte>(st.depth, 0);
    Layout.TerminatedAfter(Layout.Shift<byte>(st.depth, 0), [Layout.Eof]);
    assert q[|q| - 1] == Layout.Eof;
    assert q + [] == q;
  }

  /** A byte that queues something ends the loop, and what it queued settles. */
  lemma ConsumeSettles(r: SourceCodeReader.Reader, st: Marker, count: nat, b: byte)
    requires st.queue == [] && ConsumeFollows(st, count, b, SourceCodeReader.ReadAll(r))
    requires Consume(st, count, b).0.queue != []
    ensures Settles(r, Consume(st, count, b).0, Ahead(st.mode, count, st.depth, [b] + SourceCodeReader.ReadAll(r)))
  {
  }

  /** One step of the loop on the byte `b`, which is what the reader delivers next. */
  lemma QueueLoopStep(r: SourceCodeReader.Reader, st: Marker, count: nat)
    requires st.queue == [] && SourceCodeReader.Read(r).0.Some?
    ensures var (c, r') := SourceCodeReader.Read(r);
      var (st', count') := Consume(st, count, c.value);
      && QueueLoop(r, st, count) == QueueLoop(r', st', count')
      && SourceCodeReader.ReadAll(r) == [c.value] + SourceCodeReader.ReadAll(r')
  {
  }

  /** The loop of `queue_units` queues exactly the next units of the layout. */
  lemma {:induction false} QueueLoopFollowsLayout(r: SourceCodeReader.Reader, st: Marker, count: nat)
    requires st.queue == []
    ensures var (r', st') := QueueLoop(r, st, count);
      Settles(r', st', Ahead(st.mode, count, st.depth, SourceCodeReader.ReadAll(r)))
    decreases |r.source| - r.pointer
  {
    var (c, r') := SourceCodeReader.Read(r);
    if c.None? {
      assert QueueLoop(r, st, count) == (r', AtEnd(st));
      AtEndSettles(r', st, count);
    } else {
      var b := c.value;
      var rest := SourceCodeReader.ReadAll(r');
      QueueLoopStep(r, st, count);
      var (st', count') := Consume(st, count, b);
      ConsumeFollowsLayout(st, count, b, rest);
      if st'.queue == [] {
        QueueLoopFollowsLayout(r', st', count');
        assert [] + Ahead(st'.mode, count', st'.depth, rest) == Ahead(st'.mode, count', st'.depth, rest);
      } else {
        assert QueueLoop(r', st', count') == (r', st');
        ConsumeSettles(r', st, count, b);
      }
    }
  }

  /** The reversal before popping only matters for batches of two or more units. */
  lemma ReversedBatch(q: seq<Unit>)
    ensures Layout.Reverse(if |q| > 1 then Layout.Reverse(q) else q) == q
  {
    Layout.ReverseReverse(q);
    if |q| == 1 {
      assert Layout.Reverse(q) == Layout.Reverse(q[1..]) + [q[0]];
    }
  }

  /** `read_unit` on an empty queue refills it with units in the order they were pushed. */
  lemma Refill(s: SourceUnitReader)
    requires Inv(s) && s.status.queue == []
    ensures Inv(QueueUnits(s)) && Future(QueueUnits(s)) == Future(s)
  {
    assert Layout.Reverse<Unit>([]) == [];
    QueueLoopFollowsLayout(s.reader, s.status, 0);
    var (reader, st) := QueueLoop(s.reader, s.status, 0);
    ReversedBatch(st.queue);
    assert [] + Ahead(s.status.mode, 0, s.status.depth, SourceCodeReader.ReadAll(s.reader))
        == Ahead(s.status.mode, 0, s.status.depth, SourceCodeReader.ReadAll(s.reader));
  }

  lemma FutureTerminated(s: SourceUnitReader)
    requires Inv(s)
    ensures Layout.Terminated(Future(s))
  {
    var queued := Layout.Reverse(s.status.queue);
    if Layout.Eof !in queued {
      var t := SourceCodeReader.ReadAll(s.reader);
      var d := s.status.depth;
      match s.status.mode
      case Init => Layout.LinesTerminated(Classify, d, t);
      case ReadingIndent => Layout.LinesTerminated(Classify, d, Spaces(0) + t);
      case ReadingText => Layout.TextTerminated(Classify, d, t);
      case ReadingSpaces => Layout.TextTerminated(Classify, d, Spaces(0) + t);
      Layout.TerminatedAfter(queued, Ahead(s.status.mode, 0, d, t));
    }
  }

  /** Popping from a queue that already ends the input. */
  lemma PopClosed(s: SourceUnitReader)
    requires Inv(s) && s.status.queue != [] && Layout.Eof in Layout.Reverse(s.status.queue)
    ensures var (u, s') := PopBack(s);
      && Inv(s')
      && (u == Layout.Eof ==> Future(s') == Future(s))
      && (u != Layout.Eof ==> Future(s') == Future(s)[1..])
  {
    var q := s.status.queue;
    var queued := Layout.Reverse(q);
    var s' := PopBack(s).1;
    Layout.ReverseLast(q);
    Layout.ReverseMembers(q[..|q| - 1]);
    assert Layout.Reverse(s'.status.queue) == queued[1..];
    if queued[0] == Layout.Eof {
      assert queued == [Layout.Eof];
      assert Layout.Reverse(s'.status.queue) == [];
      AheadAtEnd(s.status.mode, 0, 0);
    } else {
      assert queued[1..][|queued| - 2] == Layout.Eof;
      assert queued[1..][..|queued| - 2] == queued[..|queued| - 1][1..];
    }
  }

  lemma Pop(s: SourceUnitReader)
    requires Inv(s) && s.status.queue != []
    ensures var (u, s') := PopBack(s);
      && Inv(s')
      && Layout.Terminated(Future(s))
      && u == Future(s)[0]
      && Future(s') == (if u == Layout.Eof then Future(s) else Future(s)[1..])
  {
    FutureTerminated(s);
    var q := s.status.queue;
    var queued := Layout.Reverse(q);
    var s' := PopBack(s).1;
    Layout.ReverseLast(q);
    Layout.ReverseMembers(q);
    Layout.ReverseMembers(q[..|q| - 1]);
    assert Layout.Reverse(s'.status.queue) == queued[1..];
    if Layout.Eof in queued {
      PopClosed(s);
    }
  }

  /**
   * One `read_unit` hands out the first unit still to come and keeps the rest in order;
   * once `Eof` is handed out it comes again.
   */
  lemma ReadStep(s: SourceUnitReader)
    requires Inv(s)
    ensures var (u, s') := ReadUnit(s);
      && Inv(s')
      && Layout.Terminated(Future(s))
      && u == Future(s)[0]
      && Future(s') == (if u == Layout.Eof then Future(s) else Future(s)[1..])
  {
    FutureTerminated(s);
    if s.status.queue == [] {
      Refill(s);
      Pop(QueueUnits(s));
    } else {
      Pop(s);
    }
  }

  /** `n` reads return the first `n` units still to come, and `Eof` after those. */
  lemma {:induction false} ReadsFollowFuture(s: SourceUnitReader, n: nat)
    requires Inv(s)
    ensures ReadN(s, n) == Layout.Padded(Future(s), n)
    decreases n
  {
    if n > 0 {
      var next := ReadUnit(s);
      var u, s' := next.0, next.1;
      ReadStep(s);
      assert Inv(s') && Layout.Terminated(Future(s)) && u == Future(s)[0];
      assert Future(s') == (if u == Layout.Eof then Future(s) else Future(s)[1..]);
      ReadNStep(s, n);
      ReadsFollowFuture(s', n - 1);
      Layout.PaddedRead(Future(s), u, Future(s'), ReadN(s', n - 1), n);
    }
  }

  lemma ReadNStep(s: SourceUnitReader, n: nat)
    requires n > 0
    ensures ReadN(s, n) == [ReadUnit(s).0] + ReadN(ReadUnit(s).1, n - 1)
  {
  }

  /**
   * The lexer's output: from a fresh lexer, the first `n` units are the first `n`
   * units of the layout of the bytes the reader delivers, then `Eof` forever.
   */
  lemma ReadsFollowLayout(reader: SourceCodeReader.Reader, n: nat)
    ensures ReadN(New(reader), n)
      == Layout.Padded(Layout.Lines(Classify, 0, SourceCodeReader.ReadAll(reader)), n)
  {
    assert Layout.Reverse<Unit>([]) == [];
    ReadsFollowFuture(New(reader), n);
  }

  /**
   * The indent depth never goes below zero: counting `Indent` up and `Unindent` down
   * over the units read from the start, and it is back at zero once `Eof` is reached.
   */
  lemma DepthBalanced(reader: SourceCodeReader.Reader, n: nat)
    ensures Layout.NeverNegative(0, ReadN(New(reader), n))
    ensures n >= |Layout.Lines(Classify, 0, SourceCodeReader.ReadAll(reader))| ==> Layout.DepthAfter(0, ReadN(New(reader), n)) == 0
  {
    ReadsFollowLayout(reader, n);
    Layout.LinesBalanced(Classify, 0, SourceCodeReader.ReadAll(reader));
    Layout.PaddedBalanced(Layout.Lines(Classify, 0, SourceCodeReader.ReadAll(reader)), n);
  }

  /**
   * After `mark`, any number of reads and `reset`, the next units are the ones read
   * right after the mark, whatever mode the machine was in: the stale `pointer` field
   * of the state plays no part in reading.
   */
  lemma MarkThenReset(s: SourceUnitReader, later: SourceUnitReader, n: nat)
    requires Inv(s) && later.reader.source == s.reader.source
    ensures ReadN(Reset(later, GetMark(s)), n) == ReadN(s, n)
  {
    var s2 := Reset(later, GetMark(s));
    assert s2.reader == s.reader;
    assert Future(s2) == Future(s);
    ReadsFollowFuture(s, n);
    ReadsFollowFuture(s2, n);
  }
}
