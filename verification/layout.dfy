/**
 * The layout rule that both indentation lexers implement (`UnitStream` in
 * src/build/step2.rs and `SourceUnitReader` in src/build/source_unit_reader.rs),
 * stated once, line by line, over a finished text.
 *
 * A line of `n` leading spaces followed by a character that is neither a space nor a
 * line feed has depth `n / 4` (four spaces per level, `INDENT_SIZE` in both lexers): the lexer emits `Indent`s or `UnIndent`s from the
 * current depth to that one, re-emits the `n % 4` spaces beyond it, then the line's
 * characters without its trailing spaces, then `NewLine`. A line of nothing but spaces
 * yields a single `NewLine` and keeps the depth. At the end of the text every open
 * level is closed with `UnIndent` and `Eof` follows.
 *
 * The rule is generic in the character type: a classifier `C -> Class` says which
 * characters are spaces and which are line feeds.
 */
module Layout {

  datatype Unit<C> = Char(c: C) | NewLine | Indent | UnIndent | Eof

  /** How a lexer sorts its characters: spaces, line feeds and everything else. */
  datatype Class = Space | LineFeed | Other

  predicate AllSpaces<C>(a: C -> Class, sp: seq<C>) {
    forall i :: 0 <= i < |sp| ==> a(sp[i]) == Space
  }

  function Chars<C>(t: seq<C>): (r: seq<Unit<C>>)
    ensures |r| == |t|
  {
    if |t| == 0 then [] else [Char(t[0])] + Chars(t[1..])
  }

  function Repeat<C>(u: Unit<C>, k: nat): (r: seq<Unit<C>>)
    ensures |r| == k
  {
    if k == 0 then [] else [u] + Repeat(u, k - 1)
  }

  /** The units that take the depth from `from` to `to`, one level at a time. */
  function Shift<C>(from: nat, to: nat): seq<Unit<C>> {
    if from <= to then Repeat(Indent, to - from) else Repeat(UnIndent, from - to)
  }

  /** The number of spaces `t` starts with. */
  function LeadingSpaces<C>(a: C -> Class, t: seq<C>): (n: nat)
    ensures n <= |t| && AllSpaces(a, t[..n])
    ensures n < |t| ==> a(t[n]) != Space
  {
    if |t| > 0 && a(t[0]) == Space then
      var n := 1 + LeadingSpaces(a, t[1..]);
      assert forall i :: 1 <= i < n ==> t[..n][i] == t[1..][..n - 1][i - 1];
      n
    else 0
  }

  /** The index of the first line feed of `t`, or `|t|` when there is none. */
  function LineEnd<C>(a: C -> Class, t: seq<C>): (e: nat)
    ensures e <= |t|
    ensures forall i :: 0 <= i < e ==> a(t[i]) != LineFeed
    ensures e < |t| ==> a(t[e]) == LineFeed
  {
    if |t| == 0 || a(t[0]) == LineFeed then 0 else 1 + LineEnd(a, t[1..])
  }

  /** `t` without its trailing spaces. */
  function TrimEnd<C>(a: C -> Class, t: seq<C>): (r: seq<C>)
    ensures |r| <= |t| && r == t[..|r|]
    ensures AllSpaces(a, t[|r|..])
    ensures |r| > 0 ==> a(r[|r| - 1]) != Space
  {
    if |t| > 0 && a(t[|t| - 1]) == Space then
      var r := TrimEnd(a, t[..|t| - 1]);
      assert t[|r|..] == t[..|t| - 1][|r|..] + [t[|t| - 1]];
      r
    else t
  }

  /** The units of the text `t`, which starts at the beginning of a line, at depth `depth`. */
  function Lines<C>(a: C -> Class, depth: nat, t: seq<C>): seq<Unit<C>>
    decreases |t|, 2
  {
    var n := LeadingSpaces(a, t);
    if n == |t| then Shift(depth, 0) + [Eof]
    else if a(t[n]) == LineFeed then [NewLine] + Lines(a, depth, t[n + 1..])
    else
      var d := n / 4;
      Shift(depth, d) + Chars(t[4 * d..n]) + Text(a, d, t[n..])
  }

  /** The units of the text `t`, which continues a line whose depth is `depth`. */
  function Text<C>(a: C -> Class, depth: nat, t: seq<C>): seq<Unit<C>>
    decreases |t|, 1
  {
    var e := LineEnd(a, t);
    Chars(TrimEnd(a, t[..e])) + AfterLine(a, depth, t[e..])
  }

  /**
   * What follows the end of a line, where `rest` is the text from the line feed on:
   * at the end of the text every level is closed and `Eof` follows, otherwise
   * `NewLine` and the next line.
   */
  function AfterLine<C>(a: C -> Class, depth: nat, rest: seq<C>): seq<Unit<C>>
    decreases |rest|, 0
  {
    if |rest| == 0 then Shift(depth, 0) + [Eof] else [NewLine] + Lines(a, depth, rest[1..])
  }

  /**
   * The first `n` units a reader delivers when its units are `us`: once they are used
   * up, every further read returns `Eof`.
   */
  function Padded<C>(us: seq<Unit<C>>, n: nat): (r: seq<Unit<C>>)
    ensures |r| == n
  {
    if n <= |us| then us[..n] else us + Repeat(Eof, n - |us|)
  }

  /**
   * `s` back to front: the order in which a queue that is filled at one end and
   * drained at the other hands out what it holds.
   */
  function Reverse<T>(s: seq<T>): (r: seq<T>)
    ensures |r| == |s|
  {
    if |s| == 0 then [] else Reverse(s[1..]) + [s[0]]
  }

  /** `us` ends with `Eof` and has no other. */
  predicate Terminated<C(==)>(us: seq<Unit<C>>) {
    |us| > 0 && us[|us| - 1] == Eof && Eof !in us[..|us| - 1]
  }

  /** The depth a consumer of `us` tracks, starting at `d`. */
  function DepthAfter<C>(d: int, us: seq<Unit<C>>): int
    decreases |us|
  {
    if |us| == 0 then d
    else DepthAfter(match us[0] case Indent => d + 1 case UnIndent => d - 1 case _ => d, us[1..])
  }

  /** Tracking the depth through `us` from `d` never goes below zero. */
  predicate NeverNegative<C>(d: int, us: seq<Unit<C>>)
    decreases |us|
  {
    d >= 0 &&
    (|us| > 0 ==>
      NeverNegative(match us[0] case Indent => d + 1 case UnIndent => d - 1 case _ => d, us[1..]))
  }

  // ---------------------------------------------------------------------------
  // Sequence helpers
  // ---------------------------------------------------------------------------

  lemma {:induction false} CharsAppend<C>(x: seq<C>, y: seq<C>)
    ensures Chars(x + y) == Chars(x) + Chars(y)
  {
    if |x| > 0 {
      assert (x + y)[1..] == x[1..] + y;
      CharsAppend(x[1..], y);
    } else {
      assert x + y == y;
    }
  }

  lemma {:induction false} CharsOfSpaces<C>(sp: seq<C>, s: C)
    requires forall i :: 0 <= i < |sp| ==> sp[i] == s
    ensures Chars(sp) == Repeat(Char(s), |sp|)
  {
    if |sp| > 0 {
      CharsOfSpaces(sp[1..], s);
    }
  }

  lemma {:induction false} CharsHaveNoEof<C>(t: seq<C>)
    ensures Eof !in Chars(t)
  {
    if |t| > 0 {
      CharsHaveNoEof(t[1..]);
    }
  }

  lemma {:induction false} RepeatHasOnly<C>(u: Unit<C>, k: nat)
    ensures forall v :: v in Repeat(u, k) ==> v == u
  {
    if k > 0 {
      RepeatHasOnly(u, k - 1);
    }
  }

  lemma ShiftHasNoEof<C>(from: nat, to: nat)
    ensures Eof !in Shift<C>(from, to)
  {
    RepeatHasOnly<C>(Indent, if from <= to then to - from else 0);
    RepeatHasOnly<C>(UnIndent, if from <= to then 0 else from - to);
  }

  lemma TerminatedAfter<C>(x: seq<Unit<C>>, y: seq<Unit<C>>)
    requires Eof !in x && Terminated(y)
    ensures Terminated(x + y)
  {
    assert (x + y)[..|x + y| - 1] == x + y[..|y| - 1];
  }

  lemma {:induction false} DepthAfterAppend<C>(d: int, x: seq<Unit<C>>, y: seq<Unit<C>>)
    ensures DepthAfter(d, x + y) == DepthAfter(DepthAfter(d, x), y)
    ensures NeverNegative(d, x + y) <==> NeverNegative(d, x) && NeverNegative(DepthAfter(d, x), y)
    decreases |x|
  {
    if |x| > 0 {
      assert (x + y)[1..] == x[1..] + y;
      DepthAfterAppend(match x[0] case Indent => d + 1 case UnIndent => d - 1 case _ => d, x[1..], y);
    } else {
      assert x + y == y;
    }
  }

  lemma {:induction false} CharsKeepDepth<C>(d: int, t: seq<C>)
    requires d >= 0
    ensures DepthAfter(d, Chars(t)) == d && NeverNegative(d, Chars(t))
  {
    if |t| > 0 {
      CharsKeepDepth(d, t[1..]);
    }
  }

  lemma {:induction false} RepeatDepth<C>(d: nat, k: nat, u: Unit<C>)
    requires u == Indent || (u == UnIndent && k <= d)
    ensures DepthAfter(d, Repeat(u, k)) == (if u == Indent then d + k else d - k)
    ensures NeverNegative(d, Repeat(u, k))
    decreases k
  {
    if k > 0 {
      RepeatDepth(if u == Indent then d + 1 else d - 1, k - 1, u);
    }
  }

  lemma ShiftDepth<C>(from: nat, to: nat)
    ensures DepthAfter(from, Shift<C>(from, to)) == to && NeverNegative(from, Shift<C>(from, to))
  {
    if from <= to {
      RepeatDepth<C>(from, to - from, Indent);
    } else {
      RepeatDepth<C>(from, from - to, UnIndent);
    }
  }

  // ---------------------------------------------------------------------------
  // Unfolding the rule one line piece at a time
  // ---------------------------------------------------------------------------

  lemma LeadingSpacesOf<C>(a: C -> Class, sp: seq<C>, t: seq<C>)
    requires AllSpaces(a, sp)
    requires |t| > 0 ==> a(t[0]) != Space
    ensures LeadingSpaces(a, sp + t) == |sp|
  {
    var n := LeadingSpaces(a, sp + t);
    assert forall i :: 0 <= i < |sp| ==> (sp + t)[i] == sp[i];
    if |t| > 0 {
      assert (sp + t)[|sp|] == t[0];
    }
  }

  lemma LineEndOfSpaces<C>(a: C -> Class, sp: seq<C>, t: seq<C>)
    requires AllSpaces(a, sp)
    requires |t| > 0 && a(t[0]) == LineFeed
    ensures LineEnd(a, sp + t) == |sp|
  {
    assert forall i :: 0 <= i < |sp| ==> (sp + t)[i] == sp[i];
    assert (sp + t)[|sp|] == t[0];
  }

  lemma LineEndPast<C>(a: C -> Class, p: seq<C>, t: seq<C>)
    requires forall i :: 0 <= i < |p| ==> a(p[i]) != LineFeed
    ensures LineEnd(a, p + t) == |p| + LineEnd(a, t)
  {
    assert forall i :: 0 <= i < |p| ==> (p + t)[i] == p[i];
    assert forall i :: 0 <= i < |t| ==> (p + t)[|p| + i] == t[i];
  }

  lemma {:induction false} TrimEndOfSpaces<C>(a: C -> Class, sp: seq<C>)
    requires AllSpaces(a, sp)
    ensures TrimEnd(a, sp) == []
  {
    var r := TrimEnd(a, sp);
  }

  /** Trailing spaces are trimmed only after the last character that is not a space. */
  lemma {:induction false} TrimEndAfter<C>(a: C -> Class, p: seq<C>, x: seq<C>)
    requires |p| > 0 && a(p[|p| - 1]) != Space
    ensures TrimEnd(a, p + x) == p + TrimEnd(a, x)
    decreases |x|
  {
    if |x| > 0 && a(x[|x| - 1]) == Space {
      assert (p + x)[..|p + x| - 1] == p + x[..|x| - 1];
      TrimEndAfter(a, p, x[..|x| - 1]);
    } else if |x| > 0 {
      assert TrimEnd(a, x) == x;
    } else {
      assert p + x == p;
    }
  }

  /** A text of nothing but spaces ends the input: every level is closed, then `Eof`. */
  lemma LinesAtEnd<C>(a: C -> Class, depth: nat, sp: seq<C>)
    requires AllSpaces(a, sp)
    ensures Lines(a, depth, sp) == Shift(depth, 0) + [Eof]
  {
    LeadingSpacesOf(a, sp, []);
    assert sp + [] == sp;
  }

  /** A line of nothing but spaces yields one `NewLine` and keeps the depth. */
  lemma LinesBlank<C>(a: C -> Class, depth: nat, sp: seq<C>, c: C, t: seq<C>)
    requires AllSpaces(a, sp) && a(c) == LineFeed
    ensures Lines(a, depth, sp + [c] + t) == [NewLine] + Lines(a, depth, t)
  {
    assert sp + [c] + t == sp + ([c] + t);
    LeadingSpacesOf(a, sp, [c] + t);
    assert (sp + [c] + t)[|sp| + 1..] == t;
  }

  /**
   * A line with `|sp|` leading spaces and then the character `c` moves to depth
   * `|sp| / 4`, re-emits the spaces beyond that depth, and continues with `c`.
   */
  lemma LinesContent<C>(a: C -> Class, depth: nat, sp: seq<C>, c: C, t: seq<C>)
    requires AllSpaces(a, sp) && a(c) != Space && a(c) != LineFeed
    ensures var d := |sp| / 4;
      Lines(a, depth, sp + [c] + t) ==
        Shift(depth, d) + Chars(sp[4 * d..]) + [Char(c)] + Text(a, d, t)
  {
    var u := sp + [c] + t;
    var d := |sp| / 4;
    assert u == sp + ([c] + t);
    LeadingSpacesOf(a, sp, [c] + t);
    SliceBefore(sp, c, t, 4 * d);
    LinesIndented(a, depth, u, |sp|);
    TextFirst(a, d, c, t);
    Associative(Shift(depth, d) + Chars(sp[4 * d..]), [Char(c)], Text(a, d, t));
  }

  lemma SliceBefore<C>(sp: seq<C>, c: C, t: seq<C>, k: nat)
    requires k <= |sp|
    ensures (sp + [c] + t)[|sp|] == c
    ensures (sp + [c] + t)[k..|sp|] == sp[k..]
    ensures (sp + [c] + t)[|sp|..] == [c] + t
  {
  }

  /** A line that holds more than spaces, unfolded once. */
  lemma LinesIndented<C>(a: C -> Class, depth: nat, u: seq<C>, n: nat)
    requires LeadingSpaces(a, u) == n < |u| && a(u[n]) != LineFeed
    ensures Lines(a, depth, u) == Shift(depth, n / 4) + Chars(u[4 * (n / 4)..n]) + Text(a, n / 4, u[n..])
  {
  }

  lemma TextFirst<C>(a: C -> Class, depth: nat, c: C, t: seq<C>)
    requires a(c) != Space && a(c) != LineFeed
    ensures Text(a, depth, [c] + t) == [Char(c)] + Text(a, depth, t)
  {
    TextContent(a, depth, [], c, t);
    assert [] + [c] + t == [c] + t;
    assert Chars<C>([]) + [Char(c)] == [Char(c)];
  }

  /** A text of nothing but spaces drops them and ends the input. */
  lemma TextAtEnd<C>(a: C -> Class, depth: nat, sp: seq<C>)
    requires AllSpaces(a, sp)
    ensures Text(a, depth, sp) == Shift(depth, 0) + [Eof]
  {
    assert forall i :: 0 <= i < |sp| ==> a(sp[i]) != LineFeed;
    LineEndPast(a, sp, []);
    assert sp + [] == sp;
    assert sp[..|sp|] == sp;
    TrimEndOfSpaces(a, sp);
  }

  /** Spaces before a line feed are dropped. */
  lemma TextNewLine<C>(a: C -> Class, depth: nat, sp: seq<C>, c: C, t: seq<C>)
    requires AllSpaces(a, sp) && a(c) == LineFeed
    ensures Text(a, depth, sp + [c] + t) == [NewLine] + Lines(a, depth, t)
  {
    var u := sp + [c] + t;
    assert u == sp + ([c] + t);
    LineEndOfSpaces(a, sp, [c] + t);
    assert u[..|sp|] == sp;
    TrimEndOfSpaces(a, sp);
    assert u[|sp| + 1..] == t;
  }

  /** Spaces before a character that is not a space are kept, in order. */
  lemma TextContent<C>(a: C -> Class, depth: nat, sp: seq<C>, c: C, t: seq<C>)
    requires AllSpaces(a, sp) && a(c) != Space && a(c) != LineFeed
    ensures Text(a, depth, sp + [c] + t) == Chars(sp) + [Char(c)] + Text(a, depth, t)
  {
    var e := LineEnd(a, t);
    TextParts(a, sp, c, t);
    Associative(Chars(sp) + [Char(c)], Chars(TrimEnd(a, t[..e])), AfterLine(a, depth, t[e..]));
  }

  lemma Associative<T>(x: seq<T>, y: seq<T>, z: seq<T>)
    ensures x + y + z == x + (y + z)
  {
  }

  /** The line of `sp + [c] + t` ends where the line of `t` does, and keeps `sp` and `c`. */
  lemma TextParts<C>(a: C -> Class, sp: seq<C>, c: C, t: seq<C>)
    requires AllSpaces(a, sp) && a(c) != Space && a(c) != LineFeed
    ensures var u := sp + [c] + t;
      var e := LineEnd(a, t);
      && LineEnd(a, u) == |sp| + 1 + e
      && u[|sp| + 1 + e..] == t[e..]
      && Chars(TrimEnd(a, u[..|sp| + 1 + e])) == Chars(sp) + [Char(c)] + Chars(TrimEnd(a, t[..e]))
  {
    LineEndAfterContent(a, sp, c, t);
    TrimmedAround(a, sp, c, t, LineEnd(a, t));
  }

  lemma TrimmedAround<C>(a: C -> Class, sp: seq<C>, c: C, t: seq<C>, e: nat)
    requires a(c) != Space && e <= |t|
    ensures (sp + [c] + t)[|sp| + 1 + e..] == t[e..]
    ensures Chars(TrimEnd(a, (sp + [c] + t)[..|sp| + 1 + e])) == Chars(sp) + [Char(c)] + Chars(TrimEnd(a, t[..e]))
  {
    SliceAround(sp, c, t, e);
    TrimEndAfterContent(a, sp, c, t[..e]);
  }

  lemma SliceAround<C>(sp: seq<C>, c: C, t: seq<C>, e: nat)
    requires e <= |t|
    ensures (sp + [c] + t)[..|sp| + 1 + e] == sp + [c] + t[..e]
    ensures (sp + [c] + t)[|sp| + 1 + e..] == t[e..]
  {
  }

  lemma LineEndAfterContent<C>(a: C -> Class, sp: seq<C>, c: C, t: seq<C>)
    requires AllSpaces(a, sp) && a(c) != LineFeed
    ensures LineEnd(a, sp + [c] + t) == |sp| + 1 + LineEnd(a, t)
  {
    var p := sp + [c];
    assert forall i :: 0 <= i < |p| ==> a(p[i]) != LineFeed by {
      assert forall i :: 0 <= i < |sp| ==> p[i] == sp[i];
    }
    LineEndPast(a, p, t);
  }

  lemma TrimEndAfterContent<C>(a: C -> Class, sp: seq<C>, c: C, x: seq<C>)
    requires a(c) != Space
    ensures Chars(TrimEnd(a, sp + [c] + x)) == Chars(sp) + [Char(c)] + Chars(TrimEnd(a, x))
  {
    var p := sp + [c];
    TrimEndAfter(a, p, x);
    CharsAppend(p, TrimEnd(a, x));
    CharsAppend(sp, [c]);
  }

  // ---------------------------------------------------------------------------
  // Properties of the rule
  // ---------------------------------------------------------------------------

  /** The units of any text end with `Eof` and contain no other `Eof`. */
  lemma {:induction false} LinesTerminated<C>(a: C -> Class, depth: nat, t: seq<C>)
    ensures Terminated(Lines(a, depth, t))
    decreases |t|, 2
  {
    var n := LeadingSpaces(a, t);
    ShiftHasNoEof<C>(depth, 0);
    if n == |t| {
      TerminatedAfter(Shift<C>(depth, 0), [Eof]);
    } else if a(t[n]) == LineFeed {
      LinesTerminated(a, depth, t[n + 1..]);
      TerminatedAfter([NewLine], Lines(a, depth, t[n + 1..]));
    } else {
      var d := n / 4;
      ShiftHasNoEof<C>(depth, d);
      CharsHaveNoEof(t[4 * d..n]);
      TextTerminated(a, d, t[n..]);
      TerminatedAfter(Shift<C>(depth, d) + Chars(t[4 * d..n]), Text(a, d, t[n..]));
    }
  }

  lemma {:induction false} TextTerminated<C>(a: C -> Class, depth: nat, t: seq<C>)
    ensures Terminated(Text(a, depth, t))
    decreases |t|, 1
  {
    var e := LineEnd(a, t);
    CharsHaveNoEof(TrimEnd(a, t[..e]));
    AfterLineTerminated(a, depth, t[e..]);
    TerminatedAfter(Chars(TrimEnd(a, t[..e])), AfterLine(a, depth, t[e..]));
  }

  lemma {:induction false} AfterLineTerminated<C>(a: C -> Class, depth: nat, rest: seq<C>)
    ensures Terminated(AfterLine(a, depth, rest))
    decreases |rest|, 0
  {
    ShiftHasNoEof<C>(depth, 0);
    if |rest| == 0 {
      TerminatedAfter(Shift<C>(depth, 0), [Eof]);
    } else {
      LinesTerminated(a, depth, rest[1..]);
      TerminatedAfter([NewLine], Lines(a, depth, rest[1..]));
    }
  }

  /**
   * Every level opened is closed: a consumer that tracks the depth from `depth` never
   * sees it go negative and is back at 0 when the units end.
   */
  lemma {:induction false} LinesBalanced<C>(a: C -> Class, depth: nat, t: seq<C>)
    ensures NeverNegative(depth, Lines(a, depth, t))
    ensures DepthAfter(depth, Lines(a, depth, t)) == 0
    decreases |t|, 2
  {
    var n := LeadingSpaces(a, t);
    ShiftDepth<C>(depth, 0);
    if n == |t| {
      DepthAfterAppend(depth, Shift<C>(depth, 0), [Eof]);
    } else if a(t[n]) == LineFeed {
      LinesBalanced(a, depth, t[n + 1..]);
      DepthAfterAppend(depth, [NewLine], Lines(a, depth, t[n + 1..]));
    } else {
      var d := n / 4;
      var spaces := Chars(t[4 * d..n]);
      ShiftDepth<C>(depth, d);
      CharsKeepDepth(d, t[4 * d..n]);
      DepthAfterAppend(depth, Shift<C>(depth, d), spaces);
      TextBalanced(a, d, t[n..]);
      DepthAfterAppend(depth, Shift<C>(depth, d) + spaces, Text(a, d, t[n..]));
    }
  }

  lemma {:induction false} TextBalanced<C>(a: C -> Class, depth: nat, t: seq<C>)
    ensures NeverNegative(depth, Text(a, depth, t))
    ensures DepthAfter(depth, Text(a, depth, t)) == 0
    decreases |t|, 1
  {
    var e := LineEnd(a, t);
    CharsKeepDepth(depth, TrimEnd(a, t[..e]));
    AfterLineBalanced(a, depth, t[e..]);
    DepthAfterAppend(depth, Chars(TrimEnd(a, t[..e])), AfterLine(a, depth, t[e..]));
  }

  lemma {:induction false} AfterLineBalanced<C>(a: C -> Class, depth: nat, rest: seq<C>)
    ensures NeverNegative(depth, AfterLine(a, depth, rest))
    ensures DepthAfter(depth, AfterLine(a, depth, rest)) == 0
    decreases |rest|, 0
  {
    ShiftDepth<C>(depth, 0);
    if |rest| == 0 {
      DepthAfterAppend(depth, Shift<C>(depth, 0), [Eof]);
    } else {
      LinesBalanced(a, depth, rest[1..]);
      DepthAfterAppend(depth, [NewLine], Lines(a, depth, rest[1..]));
    }
  }

  lemma {:induction false} EofsKeepDepth<C>(d: nat, k: nat)
    ensures DepthAfter(d, Repeat<C>(Eof, k)) == d && NeverNegative(d, Repeat<C>(Eof, k))
    decreases k
  {
    if k > 0 {
      EofsKeepDepth<C>(d, k - 1);
    }
  }

  /**
   * A balanced sequence read `n` units at a time: no prefix takes the depth below
   * zero, and once it is used up the depth is back at zero for good.
   */
  lemma PaddedBalanced<C>(us: seq<Unit<C>>, n: nat)
    requires NeverNegative(0, us) && DepthAfter(0, us) == 0
    ensures NeverNegative(0, Padded(us, n))
    ensures n >= |us| ==> DepthAfter(0, Padded(us, n)) == 0
  {
    if n <= |us| {
      assert us == us[..n] + us[n..];
      DepthAfterAppend(0, us[..n], us[n..]);
    } else {
      EofsKeepDepth<C>(0, n - |us|);
      DepthAfterAppend(0, us, Repeat(Eof, n - |us|));
    }
  }

  /** Reading one unit off a terminated sequence: the rest, or the same `[Eof]` again. */
  lemma PaddedStep<C>(us: seq<Unit<C>>, n: nat)
    requires Terminated(us) && n > 0
    ensures us[0] == Eof ==> us == [Eof] && Padded(us, n) == [Eof] + Padded(us, n - 1)
    ensures us[0] != Eof ==> Terminated(us[1..]) && Padded(us, n) == [us[0]] + Padded(us[1..], n - 1)
  {
    if us[0] != Eof {
      assert us[1..][..|us[1..]| - 1] == us[..|us| - 1][1..];
      if n > |us| {
        assert us + Repeat(Eof, n - |us|) == [us[0]] + (us[1..] + Repeat(Eof, n - |us|));
      } else {
        assert us[..n] == [us[0]] + us[1..][..n - 1];
      }
    } else {
      assert |us| == 1;
      if n > 1 {
        assert Repeat<C>(Eof, n - 1) == [Eof] + Repeat(Eof, n - 2);
      }
    }
  }

  /**
   * A reader that hands out the first of its terminated units `us` and is left with
   * `us'` delivers `Padded(us, n)` in `n` reads if it then delivers `Padded(us', n - 1)`.
   */
  lemma PaddedRead<C>(us: seq<Unit<C>>, u: Unit<C>, us': seq<Unit<C>>, rest: seq<Unit<C>>, n: nat)
    requires Terminated(us) && n > 0 && u == us[0]
    requires us' == (if u == Eof then us else us[1..])
    requires rest == Padded(us', n - 1)
    ensures [u] + rest == Padded(us, n)
  {
    PaddedStep(us, n);
  }

  // ---------------------------------------------------------------------------
  // Queues
  // ---------------------------------------------------------------------------

  /** The element at the far end comes out first; the rest keep their order. */
  lemma {:induction false} ReverseLast<T>(s: seq<T>)
    requires |s| > 0
    ensures Reverse(s)[0] == s[|s| - 1]
    ensures Reverse(s[..|s| - 1]) == Reverse(s)[1..]
  {
    if |s| > 1 {
      ReverseLast(s[1..]);
      assert s[1..][..|s[1..]| - 1] == s[..|s| - 1][1..];
    }
  }

  lemma {:induction false} ReverseMembers<T>(s: seq<T>)
    ensures forall x :: x in Reverse(s) <==> x in s
  {
    if |s| > 0 {
      ReverseMembers(s[1..]);
      assert s == [s[0]] + s[1..];
    }
  }

  lemma {:induction false} ReverseAppend<T>(x: seq<T>, y: seq<T>)
    ensures Reverse(x + y) == Reverse(y) + Reverse(x)
  {
    if |x| > 0 {
      assert (x + y)[1..] == x[1..] + y;
      ReverseAppend(x[1..], y);
    } else {
      assert x + y == y;
    }
  }

  lemma {:induction false} ReverseReverse<T>(s: seq<T>)
    ensures Reverse(Reverse(s)) == s
  {
    if |s| > 0 {
      ReverseReverse(s[1..]);
      ReverseAppend(Reverse(s[1..]), [s[0]]);
      assert Reverse([s[0]]) == [s[0]];
    }
  }
}
