/**
 * Tag names and the tag-plus-attributes prefix of every tag (src/build/step3/tag.rs).
 *
 * A tag is `:name` or one of twelve single-character abbreviations; `:` alone names
 * the empty tag.
 */
module Tag {
  import opened Wrappers
  import opened ParseStream
  import Content
  import Harness
  import Symbol
  import Attribute

  /** The abbreviation table: the tag a single character stands for. */
  function Abbreviation(c: char): (r: Option<string>)
    ensures r.Some? ==> |r.value| > 0 && Symbol.AllSymbolChars(r.value)
    ensures r.Some? ==> c != ':'
  {
    match c
    case '*' => Some("b")
    case '/' => Some("i")
    case '_' => Some("u")
    case '-' => Some("del")
    case '"' => Some("q")
    case '`' => Some("code")
    case '\\' => Some("raw")
    case '%' => Some("image")
    case '#' => Some("sequence")
    case '$' => Some("section")
    case '&' => Some("link")
    case '@' => Some("apply-template")
    case _ => None
  }

  /** Which characters open a tag. */
  predicate OpensTag(u: Unit) {
    u.Char? && (u.c == ':' || Abbreviation(u.c).Some?)
  }

  /**
   * `parse_tag`: one unit is read; an abbreviation is its tag, `:` is followed by the
   * longest symbol (possibly empty), anything else does not match.
   */
  function ParseTag(env: Env, s: Stream): (r: Reply<Content.TagName>)
    ensures r.warnings == [] && !r.outcome.Fatal?
    ensures r.outcome.Parsed? <==> OpensTag(Peek(env, s))
    ensures r.outcome.Parsed? ==> Advanced(env, s, r.rest) && r.rest.check == s.check
  {
    var u := Peek(env, s);
    var s1 := Read(env, s);
    if !u.Char? then Reply(Mismatched, s1, [])
    else
      match Abbreviation(u.c)
      case Some(name) => Reply(Parsed(Content.TagName(name, true)), s1, [])
      case None =>
        if u.c != ':' then Reply(Mismatched, s1, [])
        else
          var n := Harness.CallParser(s1, Symbol.ParseSymbol(env, s1));
          Reply(Parsed(Content.TagName(if n.outcome.Parsed? then n.outcome.value else "", false)), n.rest, [])
  }

  /** The table is one-to-one: no two characters abbreviate the same tag. */
  lemma AbbreviationInjective(c: char, d: char)
    requires Abbreviation(c).Some? && Abbreviation(c) == Abbreviation(d)
    ensures c == d
  {
  }

  /** An abbreviation stands for its tag, marked as abbreviated, after one character. */
  lemma ParseAbbreviation(env: Env, s: Stream, c: char)
    requires Peek(env, s) == Char(c) && Abbreviation(c).Some?
    ensures ParseTag(env, s) == Reply(Parsed(Content.TagName(Abbreviation(c).value, true)), Read(env, s), [])
  {
  }

  /** Two abbreviations name the same tag only when they are the same character. */
  lemma AbbreviationsDistinct(env: Env, s: Stream, s': Stream)
    requires OpensTag(Peek(env, s)) && Peek(env, s) != Char(':')
    requires OpensTag(Peek(env, s')) && Peek(env, s') != Char(':')
    ensures ParseTag(env, s).outcome == ParseTag(env, s').outcome <==> Peek(env, s) == Peek(env, s')
  {
    var c, d := Peek(env, s).c, Peek(env, s').c;
    ParseAbbreviation(env, s, c);
    ParseAbbreviation(env, s', d);
    if Abbreviation(c) == Abbreviation(d) {
      AbbreviationInjective(c, d);
    }
  }

  /**
   * After `:` the tag name is the longest run of symbol characters, and may be
   * empty: `:mytag{` names `mytag`, `:{` names the empty tag.
   */
  lemma ParseLongForm(env: Env, s: Stream, t: string)
    requires Peek(env, s) == Char(':') && Symbol.LongestRun(env, Read(env, s), t)
    ensures ParseTag(env, s) == Reply(Parsed(Content.TagName(t, false)), Skip(env, Read(env, s), |t|), [])
  {
    var s1 := Read(env, s);
    Symbol.RunStarts(env, s1, t);
    if |t| > 0 {
      Symbol.ParsesLongestRun(env, s1, t);
      SkipAdvances(env, s1, t);
    }
  }

  /**
   * The long form of an abbreviated tag names the same tag: `:b` and `*` both name
   * `b`, and only the flag tells them apart.
   */
  lemma LongFormAgrees(env: Env, s: Stream, s': Stream, c: char)
    requires Peek(env, s) == Char(c) && Abbreviation(c).Some?
    requires Peek(env, s') == Char(':') && Symbol.LongestRun(env, Read(env, s'), Abbreviation(c).value)
    ensures ParseTag(env, s).outcome.value.name == ParseTag(env, s').outcome.value.name
    ensures ParseTag(env, s).outcome.value.abbreviation && !ParseTag(env, s').outcome.value.abbreviation
  {
    ParseLongForm(env, s', Abbreviation(c).value);
  }

  /** The attribute list after a tag is optional: a missing or rejected list is empty. */
  function OptionalAttributes(env: Env, ctx: Context, s: Stream): (r: Reply<(Content.Attributes, seq<string>)>)
    ensures r.rest.check == s.check
    ensures r.outcome.Parsed? || r.outcome.Fatal?
    ensures r.outcome.Parsed? && r.rest != s ==> Advanced(env, s, r.rest)
    ensures var a := Attribute.ParseAttributes(env, ctx, s);
      && (a.outcome.Mismatched? ==> r == Reply(Parsed((map[], [])), s, a.warnings))
      && (!a.outcome.Mismatched? ==> r.outcome == a.outcome && r.warnings == a.warnings)
  {
    var a := Harness.CallParser(s, Attribute.ParseAttributes(env, ctx, s));
    match a.outcome
    case Fatal(m) => a
    case Mismatched => Reply(Parsed((map[], [])), a.rest, a.warnings)
    case Parsed(v) => a
  }

  /**
   * `parse_tag_and_attributes`: a tag, then an optional attribute list; it fails only
   * when the tag does, or when the attribute list is an error.
   */
  function ParseTagAndAttributes(env: Env, ctx: Context, s: Stream)
    : (r: Reply<(Content.TagName, Content.Attributes, seq<string>)>)
    ensures r.outcome.Mismatched? <==> !OpensTag(Peek(env, s))
    ensures r.outcome.Mismatched? ==> r == Reply(Mismatched, s, [])
    ensures r.outcome.Parsed? ==> Advanced(env, s, r.rest) && r.rest.check == s.check
  {
    var t := Harness.CallParser(s, ParseTag(env, s));
    match t.outcome
    case Parsed(name) =>
      var a := OptionalAttributes(env, ctx, t.rest);
      if a.outcome.Fatal? then Reply(Fatal(a.outcome.message), a.rest, a.warnings)
      else Reply(Parsed((name, a.outcome.value.0, a.outcome.value.1)), a.rest, a.warnings)
    case Mismatched => Reply(Mismatched, t.rest, t.warnings)
    case Fatal(m) => Reply(Fatal(m), t.rest, t.warnings)
  }

  /**
   * The name is the tag's; the attributes are the list that follows it, or nothing
   * when no list follows (`:i{text}` has none), with the stream right after the tag.
   */
  lemma TagThenAttributes(env: Env, ctx: Context, s: Stream)
    requires OpensTag(Peek(env, s))
    ensures var r := ParseTagAndAttributes(env, ctx, s);
      var t := ParseTag(env, s);
      var a := Attribute.ParseAttributes(env, ctx, t.rest);
      && (r.outcome.Parsed? <==> !a.outcome.Fatal?)
      && (r.outcome.Parsed? ==> r.outcome.value.0 == t.outcome.value)
      && (a.outcome.Parsed? ==> r.outcome == Parsed((t.outcome.value, a.outcome.value.0, a.outcome.value.1)))
      && (a.outcome.Mismatched? ==> r == Reply(Parsed((t.outcome.value, map[], [])), t.rest, a.warnings))
  {
    var t := ParseTag(env, s);
    assert Harness.CallParser(s, t) == t;
  }
}
