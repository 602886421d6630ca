/**
 * The backtracking wrappers around every grammar production.
 *
 * `TryParse` is `try_parse` of src/build/step3.rs, over that file's four-way
 * `ParseResult`. `CallParser` is the wrapper the newer grammar files call instead
 * (`call_parser`, whose code is not part of this model): it backtracks the same way and
 * restores the indent-check flag the caller had.
 */
module Harness {
  import opened Wrappers
  import PS = ParseStream

  datatype ErrorInfo = ErrorInfo(position: Option<nat>, message: string)

  /** The four outcomes of a production in step3.rs. */
  datatype ParseResult<S> = Parsed(value: S) | Mismatched | Warning(info: ErrorInfo) | Error(info: ErrorInfo)

  /**
   * `try_parse`: run the production from a mark; unless it parsed, go back to the mark;
   * in every case switch the indent check back on; return the production's result.
   */
  function TryParse<S>(parse: PS.Stream -> (ParseResult<S>, PS.Stream), s: PS.Stream): (r: (ParseResult<S>, PS.Stream))
    ensures r.0 == parse(s).0
    ensures !r.0.Parsed? ==> r.1.cursor == s.cursor
    ensures r.0.Parsed? ==> r.1.cursor == parse(s).1.cursor
    ensures r.1.check
  {
    var mark := PS.Mark(s);
    var (result, s1) := parse(s);
    var s2 := if result.Parsed? then s1 else PS.Reset(s1, mark);
    (result, PS.SetCheck(s2, true))
  }

  /**
   * `call_parser`, applied to the reply of a production that started at `s`: a
   * mismatch or an error puts the stream back where it was; the flag is the caller's
   * again either way; outcome and warnings pass through.
   */
  function CallParser<T>(s: PS.Stream, reply: PS.Reply<T>): (r: PS.Reply<T>)
    ensures r.outcome == reply.outcome && r.warnings == reply.warnings
    ensures r.rest.check == s.check
    ensures !r.outcome.Parsed? ==> r.rest == s
    ensures r.outcome.Parsed? ==> r.rest.cursor == reply.rest.cursor
  {
    var mark := PS.Mark(s);
    var s1 := if reply.outcome.Parsed? then reply.rest else PS.Reset(reply.rest, mark);
    PS.Reply(reply.outcome, PS.SetCheck(s1, s.check), reply.warnings)
  }

  /**
   * The two wrappers agree whenever the indent check was on before the attempt:
   * same outcome, same position, check on.
   */
  lemma WrappersAgree<S>(parse: PS.Stream -> (ParseResult<S>, PS.Stream), s: PS.Stream, reply: PS.Reply<S>)
    requires s.check
    requires reply.rest == parse(s).1
    requires parse(s).0.Parsed? <==> reply.outcome.Parsed?
    ensures TryParse(parse, s).1 == CallParser(s, reply).rest
  {
  }
}
