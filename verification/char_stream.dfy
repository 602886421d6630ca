/**
 * The first-generation character reader (`CharStream`, src/build/step1.rs).
 *
 * The reader owns an already-decoded character sequence, skips one leading
 * byte-order mark, folds "\r\n" and a lone '\r' into one '\n', and reports
 * every character with the 1-based (line, column) position at which it was read.
 */
module CharStream {
  import opened Wrappers
  import LineEndings

  /** U+FEFF, the byte-order mark that `new` drops when it comes first. */
  const BOM: char := '\U{FEFF}'

  datatype Position = Position(line: nat, column: nat)

  /** A character together with the position it was read at. */
  datatype Char = Char(character: char, position: Position)

  /** The snapshot that `mark` returns and `reset` assigns back. */
  datatype Mark = Mark(pointer: nat, position: Position)

  datatype CharStream = CharStream(chars: seq<char>, pointer: nat, position: Position)

  /** A stream nobody has read past its end: every stream built by `New` and advanced by `Read`. */
  predicate Valid(s: CharStream) {
    s.pointer <= |s.chars|
  }

  /** The position every reader starts at. */
  const Start := Position(1, 1)

  /** `CharStream::new` after decoding: at most one leading BOM is dropped. */
  function New(text: seq<char>): (r: CharStream)
    ensures Valid(r) && r.pointer == 0 && r.position == Start
    ensures |r.chars| <= |text| && r.chars == text[|text| - |r.chars|..]
    ensures |r.chars| < |text| <==> (|text| > 0 && text[0] == BOM)
  {
    if |text| > 0 && text[0] == BOM then CharStream(text[1..], 0, Start)
    else CharStream(text, 0, Start)
  }

  /** The position after reading `c` at `p`: a line feed starts a new line. */
  function Advance(p: Position, c: char): Position {
    if c == '\n' then Position(p.line + 1, 1) else Position(p.line, p.column + 1)
  }

  /**
   * `CharStream::read`: the next character with the position before reading it,
   * or `None` at the end, where nothing changes.
   */
  function Read(s: CharStream): (r: (Option<Char>, CharStream))
    ensures r.0.None? <==> s.pointer >= |s.chars|
    ensures r.0.None? ==> r.1 == s
    ensures r.0.Some? ==>
      && r.0.value.character != '\r'
      && r.0.value.position == s.position
      && r.1.chars == s.chars
      && s.pointer < r.1.pointer <= |s.chars|
      && r.1.position == Advance(s.position, r.0.value.character)
  {
    if s.pointer >= |s.chars| then (None, s)
    else
      var c := s.chars[s.pointer];
      var next :=
        if c == '\r' && s.pointer + 1 < |s.chars| && s.chars[s.pointer + 1] == '\n'
        then s.pointer + 2 else s.pointer + 1;
      var c' := if c == '\r' then '\n' else c;
      (Some(Char(c', s.position)), CharStream(s.chars, next, Advance(s.position, c')))
  }

  function GetMark(s: CharStream): Mark {
    Mark(s.pointer, s.position)
  }

  function Reset(s: CharStream, m: Mark): CharStream {
    CharStream(s.chars, m.pointer, m.position)
  }

  /** Everything `read` returns from `s` on until it returns `None`. */
  function ReadAll(s: CharStream): seq<Char>
    decreases |s.chars| - s.pointer
  {
    var (c, s') := Read(s);
    if c.None? then [] else [c.value] + ReadAll(s')
  }

  function Characters(cs: seq<Char>): (r: seq<char>)
    ensures |r| == |cs|
  {
    if |cs| == 0 then [] else [cs[0].character] + Characters(cs[1..])
  }

  // ---------------------------------------------------------------------------
  // Reference definitions: the line-ending rule and the position of a character
  // computed from the text before it.
  // ---------------------------------------------------------------------------

  /** The line-ending rule of `read`, stated on a finished text. */
  function Normalize(t: seq<char>): seq<char> {
    LineEndings.Normalize(t, '\r', '\n')
  }

  function CountLineFeeds(t: seq<char>): nat {
    if |t| == 0 then 0 else CountLineFeeds(t[..|t| - 1]) + (if t[|t| - 1] == '\n' then 1 else 0)
  }

  /** 1 + the number of characters since the last line feed of `t`. */
  function ColumnAfter(t: seq<char>): nat {
    if |t| == 0 then 1 else if t[|t| - 1] == '\n' then 1 else ColumnAfter(t[..|t| - 1]) + 1
  }

  /** Where the reader stands after delivering the normalized text `t` from the start. */
  function PositionAfter(t: seq<char>): Position {
    Position(1 + CountLineFeeds(t), ColumnAfter(t))
  }

  // ---------------------------------------------------------------------------
  // Properties
  // ---------------------------------------------------------------------------

  /** Reading to the end delivers exactly the two-pass normalization of the unread text. */
  lemma {:induction false} ReadAllNormalizes(s: CharStream)
    requires Valid(s)
    ensures Characters(ReadAll(s)) == Normalize(s.chars[s.pointer..])
    decreases |s.chars| - s.pointer
  {
    var t := s.chars[s.pointer..];
    var (c, s') := Read(s);
    if c.Some? {
      ReadAllNormalizes(s');
      var rest := ReadAll(s');
      assert ReadAll(s) == [c.value] + rest;
      assert ([c.value] + rest)[1..] == rest;
      assert Characters(ReadAll(s)) == [c.value.character] + Characters(rest);
      LineEndings.NormalizeStep(t, '\r', '\n');
      if t[0] == '\r' && |t| >= 2 && t[1] == '\n' {
        assert s'.chars[s'.pointer..] == t[2..];
      } else {
        assert s'.chars[s'.pointer..] == t[1..];
      }
    }
  }

  /** No character the reader returns is a carriage return. */
  lemma {:induction false} NoCarriageReturn(s: CharStream)
    ensures forall i :: 0 <= i < |ReadAll(s)| ==> ReadAll(s)[i].character != '\r'
    decreases |s.chars| - s.pointer
  {
    var (c, s') := Read(s);
    if c.Some? {
      NoCarriageReturn(s');
      assert ReadAll(s) == [c.value] + ReadAll(s');
    }
  }

  lemma PositionAfterSnoc(p: seq<char>, c: char)
    ensures PositionAfter(p + [c]) == Advance(PositionAfter(p), c)
  {
    assert (p + [c])[..|p + [c]| - 1] == p;
  }

  /**
   * Every character is reported at the position computed from the normalized text
   * delivered before it: line = 1 + line feeds so far, column = 1 + characters since
   * the last line feed.
   */
  lemma {:induction false} PositionsFollowText(s: CharStream, before: seq<char>, i: nat)
    requires s.position == PositionAfter(before)
    requires i < |ReadAll(s)|
    ensures ReadAll(s)[i].position == PositionAfter(before + Characters(ReadAll(s))[..i])
    decreases i
  {
    var (c, s') := Read(s);
    var rest := ReadAll(s');
    assert ReadAll(s) == [c.value] + rest;
    CharactersCons(c.value, rest, before, i);
    if i > 0 {
      PositionAfterSnoc(before, c.value.character);
      PositionsFollowText(s', before + [c.value.character], i - 1);
    }
  }

  /** The text before the `i`-th of `[x] + rest` is `x`'s character and then the text before the `i - 1`-th of `rest`. */
  lemma CharactersCons(x: Char, rest: seq<Char>, before: seq<char>, i: nat)
    requires i <= |rest|
    ensures i == 0 ==> ([x] + rest)[i] == x && before + Characters([x] + rest)[..i] == before
    ensures i > 0 ==>
      && ([x] + rest)[i] == rest[i - 1]
      && before + Characters([x] + rest)[..i] == (before + [x.character]) + Characters(rest)[..i - 1]
  {
    CharactersFirst(x, rest);
    PrefixCons(x.character, Characters(rest), before, i);
  }

  lemma CharactersFirst(x: Char, rest: seq<Char>)
    ensures Characters([x] + rest) == [x.character] + Characters(rest)
  {
    assert ([x] + rest)[1..] == rest;
  }

  lemma PrefixCons<T>(x: T, t: seq<T>, before: seq<T>, i: nat)
    requires i <= |t|
    ensures i == 0 ==> before + ([x] + t)[..i] == before
    ensures i > 0 ==> before + ([x] + t)[..i] == (before + [x]) + t[..i - 1]
  {
    if i > 0 {
      assert ([x] + t)[..i] == [x] + t[..i - 1];
    } else {
      assert before + ([x] + t)[..i] == before;
    }
  }

  /** From a fresh reader, positions start at (1, 1) and follow the delivered text. */
  lemma PositionsFromStart(text: seq<char>)
    ensures forall i :: 0 <= i < |ReadAll(New(text))| ==>
      ReadAll(New(text))[i].position == PositionAfter(Characters(ReadAll(New(text)))[..i])
  {
    assert PositionAfter([]) == Start;
    forall i | 0 <= i < |ReadAll(New(text))|
      ensures ReadAll(New(text))[i].position == PositionAfter(Characters(ReadAll(New(text)))[..i])
    {
      PositionsFollowText(New(text), [], i);
      assert [] + Characters(ReadAll(New(text)))[..i] == Characters(ReadAll(New(text)))[..i];
    }
  }

  /** A leading BOM is never delivered: the first character read is the one after it, at (1, 1). */
  lemma BomSkipped(t: seq<char>)
    requires |t| > 0 && t[0] != BOM
    ensures Read(New([BOM] + t)).0 == Some(Char(if t[0] == '\r' then '\n' else t[0], Start))
  {
    assert ([BOM] + t)[1..] == t;
  }

  /** `reset(mark())` puts back pointer and position, so the same characters are read again. */
  lemma MarkThenReset(s: CharStream, later: CharStream)
    requires later.chars == s.chars
    ensures Reset(later, GetMark(s)) == s
    ensures ReadAll(Reset(later, GetMark(s))) == ReadAll(s)
  {
  }

  /** The mark after reading "abc\r\n" from "abc\r\nxyz" is (5, (2, 1)). */
  lemma MarkAfterCrLf()
    ensures var s0 := New("abc\r\nxyz");
      var s1 := Read(s0).1;
      var s2 := Read(s1).1;
      var s3 := Read(s2).1;
      var r4 := Read(s3);
      r4.0 == Some(Char('\n', Position(1, 4))) && GetMark(r4.1) == Mark(5, Position(2, 1))
  {
  }

  /**
   * A "\r\n" pair between two runs of ordinary text reaches the caller as a single
   * '\n' (the shape of "abc\r\nxyz\n123" read as "abc\nxyz\n123").
   */
  lemma CrLfFolded(a: seq<char>, b: seq<char>)
    requires '\r' !in a && '\r' !in b
    requires |a| == 0 || a[0] != BOM
    ensures Characters(ReadAll(New(a + "\r\n" + b))) == a + "\n" + b
  {
    var t := a + "\r\n" + b;
    LineEndings.CrLfBetween(a, b, '\r', '\n');
    var s0 := New(t);
    assert s0.chars[s0.pointer..] == t;
    ReadAllNormalizes(s0);
  }

  /** A lone '\r' between two runs of ordinary text reaches the caller as one '\n'. */
  lemma LoneCrFolded(a: seq<char>, b: seq<char>)
    requires '\r' !in a && '\r' !in b
    requires |a| == 0 || a[0] != BOM
    requires |b| == 0 || b[0] != '\n'
    ensures Characters(ReadAll(New(a + "\r" + b))) == a + "\n" + b
  {
    var u := a + "\r" + b;
    LineEndings.LoneCrBetween(a, b, '\r', '\n');
    var s0 := New(u);
    assert s0.chars[s0.pointer..] == u;
    ReadAllNormalizes(s0);
  }
}
