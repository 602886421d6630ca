/**
 * The unit stream as the step3 parser sees it.
 *
 * The parser files use a newer lexer interface (`peek`, `read`, `mark`, `reset`,
 * `set_indent_check_mode`, `file_position`) whose code is not part of this model. It is
 * abstracted here: a stream is a cursor plus the indent-check flag, and a lexer function
 * says which unit sits at a cursor under a flag and where the cursor goes after it. So a
 * mark is a copy of the cursor and a reset is an assignment. Inline-tag parsing is
 * another given function (an oracle) of the environment.
 */
module ParseStream {
  import Content

  datatype Unit = Char(c: char) | NewLine | BlockBeginning | BlockEnd | Eof

  /** What the lexer yields at a cursor: a unit and the cursor after it. */
  datatype Step = Step(unit: Unit, next: nat)

  /** A position in the unit stream and the indent-check flag under which it is read. */
  datatype Stream = Stream(cursor: nat, check: bool)

  /**
   * What every parser is handed besides the stream: whether its warnings are recorded
   * (off while an alternative is probed silently) and whether tags are recognised
   * (off inside raw blocks).
   */
  datatype Context = Context(warn: bool, parseTags: bool)

  /** A recoverable diagnostic, at the cursor where it was raised. */
  datatype Warning = Warning(at: nat, message: string)

  /** `Ok(Some(v))`, `Ok(None)` and `Err(e)` of the parser functions. */
  datatype Outcome<T> = Parsed(value: T) | Mismatched | Fatal(message: string)

  /** An outcome, the stream after the attempt, and the warnings it raised in order. */
  datatype Reply<T> = Reply(outcome: Outcome<T>, rest: Stream, warnings: seq<Warning>)

  datatype RawEnv = RawEnv(
    size: nat,
    lex: (nat, bool) -> Step,
    inline: (Stream, Context) -> Reply<Content.InlineTag>)

  /** A lexer step stays at `Eof` and otherwise moves forward, never past the end. */
  predicate Moves(size: nat, cursor: nat, st: Step) {
    if st.unit == Eof then st.next == cursor else cursor < st.next <= size
  }

  ghost predicate WellBehaved(e: RawEnv) {
    && (forall cursor: nat, check: bool :: cursor < e.size ==> Moves(e.size, cursor, e.lex(cursor, check)))
    && (forall s: Stream, ctx: Context :: e.inline(s, ctx).outcome.Parsed? ==>
          s.cursor < e.inline(s, ctx).rest.cursor <= e.size)
  }

  /** A source of `size` cursor positions whose lexer and inline-tag parser make progress. */
  type Env = e: RawEnv | WellBehaved(e)
    witness RawEnv(0, (c: nat, k: bool) => Step(Eof, c), (s: Stream, ctx: Context) => Reply(Mismatched, s, []))

  function Lex(env: Env, s: Stream): Step {
    if s.cursor < env.size then env.lex(s.cursor, s.check) else Step(Eof, s.cursor)
  }

  /** `peek`: the next unit, not consumed. */
  function Peek(env: Env, s: Stream): Unit {
    Lex(env, s).unit
  }

  /** `read`: consume the next unit; `Eof` is never consumed. */
  function Read(env: Env, s: Stream): (r: Stream)
    ensures r.check == s.check
    ensures Peek(env, s) == Eof ==> r == s
    ensures Peek(env, s) != Eof ==> s.cursor < r.cursor <= env.size
  {
    s.(cursor := Lex(env, s).next)
  }

  /** `set_indent_check_mode`. */
  function SetCheck(s: Stream, on: bool): Stream {
    s.(check := on)
  }

  /** `mark` and `reset`: a mark is the cursor; resetting puts it back. */
  function Mark(s: Stream): nat {
    s.cursor
  }

  function Reset(s: Stream, m: nat): Stream {
    s.(cursor := m)
  }

  /** The stream moved strictly forward and is still within the source. */
  predicate Advanced(env: Env, s: Stream, s': Stream) {
    s.cursor < s'.cursor <= env.size
  }

  /** `context.warn`: a warning at the current position, kept only when warnings are on. */
  function Warn(ctx: Context, s: Stream, message: string): seq<Warning> {
    if ctx.warn then [Warning(s.cursor, message)] else []
  }

  /** The inline-tag parser declines at `s`, silently. */
  predicate Declines(env: Env, ctx: Context, s: Stream) {
    env.inline(s, ctx).outcome.Mismatched? && env.inline(s, ctx).warnings == []
  }

  // ---------------------------------------------------------------------------
  // Reading ahead: the reference the parsers are specified against
  // ---------------------------------------------------------------------------

  /** The next `n` units that `n` reads would return. */
  function Ahead(env: Env, s: Stream, n: nat): (r: seq<Unit>)
    ensures |r| == n
    decreases n
  {
    if n == 0 then [] else [Peek(env, s)] + Ahead(env, Read(env, s), n - 1)
  }

  /** The stream after `n` reads. */
  function Skip(env: Env, s: Stream, n: nat): Stream
    decreases n
  {
    if n == 0 then s else Skip(env, Read(env, s), n - 1)
  }

  function CharsOf(t: string): (r: seq<Unit>)
    ensures |r| == |t| && forall i :: 0 <= i < |t| ==> r[i] == Char(t[i])
  {
    seq(|t|, i requires 0 <= i < |t| => Char(t[i]))
  }

  /** Reading a text is reading its first character and then the rest of it. */
  lemma AheadFirst(env: Env, s: Stream, t: string)
    requires |t| > 0 && Ahead(env, s, |t|) == CharsOf(t)
    ensures Peek(env, s) == Char(t[0])
    ensures Ahead(env, Read(env, s), |t| - 1) == CharsOf(t[1..])
    ensures Skip(env, s, |t|) == Skip(env, Read(env, s), |t| - 1)
  {
    assert Ahead(env, s, |t|)[0] == Char(t[0]);
    assert Ahead(env, s, |t|)[1..] == Ahead(env, Read(env, s), |t| - 1);
  }

  lemma AheadPrepend(env: Env, s: Stream, c: char, t: string)
    requires Peek(env, s) == Char(c) && Ahead(env, Read(env, s), |t|) == CharsOf(t)
    ensures Ahead(env, s, |t| + 1) == CharsOf([c] + t)
    ensures Skip(env, s, |t| + 1) == Skip(env, Read(env, s), |t|)
  {
    assert Ahead(env, s, |t| + 1) == [Char(c)] + Ahead(env, Read(env, s), |t|);
    assert CharsOf([c] + t) == [Char(c)] + CharsOf(t) by {
      forall i | 0 <= i < |t| + 1
        ensures CharsOf([c] + t)[i] == ([Char(c)] + CharsOf(t))[i]
      {
        if i > 0 {
          assert ([c] + t)[i] == t[i - 1];
        }
      }
    }
  }

  /** The next units are the characters of `t`, stated one read at a time. */
  predicate NextChars(env: Env, s: Stream, t: string)
    decreases |t|
  {
    |t| > 0 ==> Peek(env, s) == Char(t[0]) && NextChars(env, Read(env, s), t[1..])
  }

  lemma NextCharsTail(env: Env, s: Stream, c: char, t: string)
    requires NextChars(env, s, [c] + t)
    ensures Peek(env, s) == Char(c) && NextChars(env, Read(env, s), t)
    ensures Skip(env, s, |t| + 1) == Skip(env, Read(env, s), |t|)
  {
    assert ([c] + t)[1..] == t;
  }

  lemma {:induction false} NextCharsAhead(env: Env, s: Stream, t: string)
    ensures NextChars(env, s, t) <==> Ahead(env, s, |t|) == CharsOf(t)
    decreases |t|
  {
    if |t| > 0 {
      NextCharsAhead(env, Read(env, s), t[1..]);
      if NextChars(env, s, t) {
        AheadPrepend(env, s, t[0], t[1..]);
        assert [t[0]] + t[1..] == t;
      }
      if Ahead(env, s, |t|) == CharsOf(t) {
        AheadFirst(env, s, t);
      }
    }
  }

  /** Reading text of `n` characters moves the stream forward by at least `n` cursor positions. */
  lemma {:induction false} SkipAdvances(env: Env, s: Stream, t: string)
    requires Ahead(env, s, |t|) == CharsOf(t)
    ensures Skip(env, s, |t|).check == s.check
    ensures |t| > 0 ==> Advanced(env, s, Skip(env, s, |t|))
    ensures |t| == 0 ==> Skip(env, s, |t|) == s
    decreases |t|
  {
    if |t| > 0 {
      AheadFirst(env, s, t);
      SkipAdvances(env, Read(env, s), t[1..]);
    }
  }

  /** Reading `a` and then `b` is reading `a + b`. */
  lemma {:induction false} AheadAppend(env: Env, s: Stream, a: nat, b: nat)
    ensures Ahead(env, s, a + b) == Ahead(env, s, a) + Ahead(env, Skip(env, s, a), b)
    ensures Skip(env, s, a + b) == Skip(env, Skip(env, s, a), b)
    decreases a
  {
    if a > 0 {
      AheadAppend(env, Read(env, s), a - 1, b);
    }
  }

  /** Reading `a + b` is reading `a` and then `b` from where `a` ends. */
  lemma AheadConcat(env: Env, s: Stream, a: seq<Unit>, b: seq<Unit>)
    ensures Ahead(env, s, |a + b|) == a + b <==>
      Ahead(env, s, |a|) == a && Ahead(env, Skip(env, s, |a|), |b|) == b
    ensures Skip(env, s, |a + b|) == Skip(env, Skip(env, s, |a|), |b|)
  {
    AheadAppend(env, s, |a|, |b|);
    ConcatSplits(Ahead(env, s, |a|), Ahead(env, Skip(env, s, |a|), |b|), a, b);
  }

  /** Concatenations with equally long first parts are equal exactly when both parts are. */
  lemma ConcatSplits<T>(x: seq<T>, y: seq<T>, a: seq<T>, b: seq<T>)
    requires |x| == |a|
    ensures x + y == a + b <==> x == a && y == b
  {
    if x + y == a + b {
      assert x == (x + y)[..|a|] && a == (a + b)[..|a|];
      assert y == (x + y)[|a|..] && b == (a + b)[|a|..];
    }
  }

  lemma CharsOfConcat(a: string, b: string)
    ensures CharsOf(a + b) == CharsOf(a) + CharsOf(b)
  {
  }

  /** At every `:` among the next `|t|` units, if inline tags are tried there, the inline-tag parser declines. */
  predicate ColonsDecline(env: Env, ctx: Context, s: Stream, t: string, tries: bool) {
    forall i :: 0 <= i < |t| && t[i] == ':' && tries ==> Declines(env, ctx, Skip(env, s, i))
  }

  lemma ColonsDeclineTail(env: Env, ctx: Context, s: Stream, t: string, tries: bool)
    requires |t| > 0 && ColonsDecline(env, ctx, s, t, tries)
    ensures t[0] == ':' && tries ==> Declines(env, ctx, s)
    ensures ColonsDecline(env, ctx, Read(env, s), t[1..], tries)
  {
    assert Skip(env, s, 0) == s;
    forall i | 0 <= i < |t| - 1 && t[1..][i] == ':' && tries
      ensures Declines(env, ctx, Skip(env, Read(env, s), i))
    {
      assert t[i + 1] == ':';
      assert Skip(env, s, i + 1) == Skip(env, Read(env, s), i);
    }
  }

  /** Reading keeps the indent-check flag. */
  lemma {:induction false} SkipKeepsCheck(env: Env, s: Stream, n: nat)
    ensures Skip(env, s, n).check == s.check
    ensures s.cursor <= Skip(env, s, n).cursor
    decreases n
  {
    if n > 0 {
      SkipKeepsCheck(env, Read(env, s), n - 1);
    }
  }
}
