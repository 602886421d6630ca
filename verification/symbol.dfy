/**
 * Symbols: tag names and attribute names (src/build/step3/symbol.rs).
 */
module Symbol {
  import opened ParseStream

  predicate IsSymbolChar(c: char) {
    ('a' <= c <= 'z') || ('A' <= c <= 'Z') || ('0' <= c <= '9') || c == '-'
  }

  predicate AllSymbolChars(t: string) {
    forall i :: 0 <= i < |t| ==> IsSymbolChar(t[i])
  }

  /** A unit that extends a symbol. */
  predicate Continues(u: Unit) {
    u.Char? && IsSymbolChar(u.c)
  }

  /**
   * `t` is the longest run of symbol characters at `s`: the stream reads `t` next,
   * and what comes after it cannot extend it.
   */
  predicate LongestRun(env: Env, s: Stream, t: string) {
    && AllSymbolChars(t)
    && Ahead(env, s, |t|) == CharsOf(t)
    && !Continues(Peek(env, Skip(env, s, |t|)))
  }

  /** The loop of `parse_symbol`: take characters while they are symbol characters. */
  function Run(env: Env, s: Stream): (res: (string, Stream))
    ensures LongestRun(env, s, res.0)
    ensures res.1 == Skip(env, s, |res.0|)
    decreases env.size - s.cursor
  {
    var u := Peek(env, s);
    if Continues(u) then
      var (t, s') := Run(env, Read(env, s));
      ([u.c] + t, s')
    else ([], s)
  }

  /** `parse_symbol`: the run, when it is not empty; never a warning, never an error. */
  function ParseSymbol(env: Env, s: Stream): (r: Reply<string>)
    ensures r.warnings == [] && !r.outcome.Fatal?
    ensures r.outcome.Parsed? <==> Continues(Peek(env, s))
    ensures r.outcome.Parsed? ==>
      && |r.outcome.value| > 0
      && LongestRun(env, s, r.outcome.value)
      && r.rest == Skip(env, s, |r.outcome.value|)
      && Advanced(env, s, r.rest)
  {
    var (t, s') := Run(env, s);
    if t != [] then
      SkipAdvances(env, s, t);
      Reply(Parsed(t), s', [])
    else Reply(Mismatched, s, [])
  }

  /** A longest run is empty exactly when the next unit cannot start one; otherwise it goes on after its first character. */
  lemma RunStarts(env: Env, s: Stream, t: string)
    requires LongestRun(env, s, t)
    ensures |t| > 0 <==> Continues(Peek(env, s))
    ensures |t| > 0 ==> Peek(env, s) == Char(t[0]) && LongestRun(env, Read(env, s), t[1..])
  {
    if |t| > 0 {
      assert Ahead(env, s, |t|)[0] == Char(t[0]);
      assert Ahead(env, Read(env, s), |t| - 1) == CharsOf(t[1..]);
    }
  }

  /** Only one run is the longest: the symbol is determined by the stream. */
  lemma {:induction false} LongestRunUnique(env: Env, s: Stream, t: string, t': string)
    requires LongestRun(env, s, t) && LongestRun(env, s, t')
    ensures t == t'
    decreases |t|
  {
    RunStarts(env, s, t);
    RunStarts(env, s, t');
    if Continues(Peek(env, s)) {
      LongestRunUnique(env, Read(env, s), t[1..], t'[1..]);
      SameHeadAndTail(t, t');
    }
  }

  lemma SameHeadAndTail(t: string, t': string)
    requires |t| > 0 && |t'| > 0 && t[0] == t'[0] && t[1..] == t'[1..]
    ensures t == t'
  {
    assert t == [t[0]] + t[1..];
    assert t' == [t'[0]] + t'[1..];
  }

  /**
   * Whatever longest run of symbol characters the stream holds is what `parse_symbol`
   * returns: "code-block???" gives "code-block", "code\nblock" gives "code".
   */
  lemma ParsesLongestRun(env: Env, s: Stream, t: string)
    requires |t| > 0 && LongestRun(env, s, t)
    ensures ParseSymbol(env, s).outcome == Parsed(t)
    ensures ParseSymbol(env, s).rest == Skip(env, s, |t|)
  {
    RunStarts(env, s, t);
    LongestRunUnique(env, s, Run(env, s).0, t);
  }
}
