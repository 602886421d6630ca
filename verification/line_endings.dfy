/**
 * The line-ending rule both character readers follow, stated once and independently
 * of any reader: a carriage return followed by a line feed counts as one line feed,
 * and a carriage return on its own counts as a line feed too.
 *
 * The rule is written as two passes over a finished text, generic over the element
 * type so that it serves the `char` reader of step1.rs and the byte reader of
 * source_code_reader.rs alike.
 */
module LineEndings {

  /** First pass: every `cr lf` pair becomes one `lf`. */
  function FoldCrLf<T(==)>(t: seq<T>, cr: T, lf: T): seq<T> {
    if |t| >= 2 && t[0] == cr && t[1] == lf then [lf] + FoldCrLf(t[2..], cr, lf)
    else if |t| == 0 then []
    else [t[0]] + FoldCrLf(t[1..], cr, lf)
  }

  /** Second pass: every remaining `cr` becomes `lf`. */
  function CrToLf<T(==)>(t: seq<T>, cr: T, lf: T): seq<T> {
    if |t| == 0 then [] else [if t[0] == cr then lf else t[0]] + CrToLf(t[1..], cr, lf)
  }

  function Normalize<T(==)>(t: seq<T>, cr: T, lf: T): seq<T> {
    CrToLf(FoldCrLf(t, cr, lf), cr, lf)
  }

  lemma CrToLfPrepend<T>(c: T, b: seq<T>, cr: T, lf: T)
    ensures CrToLf([c] + b, cr, lf) == [if c == cr then lf else c] + CrToLf(b, cr, lf)
  {
    assert ([c] + b)[1..] == b;
  }

  /**
   * One step of the normalization: the text either starts with a `cr lf` pair, which
   * contributes one `lf` and is dropped whole, or its first element contributes
   * itself (a `cr` turned into `lf`) and is dropped alone.
   */
  lemma NormalizeStep<T>(t: seq<T>, cr: T, lf: T)
    requires |t| > 0
    ensures |t| >= 2 && t[0] == cr && t[1] == lf ==>
      Normalize(t, cr, lf) == [lf] + Normalize(t[2..], cr, lf)
    ensures !(|t| >= 2 && t[0] == cr && t[1] == lf) ==>
      Normalize(t, cr, lf) == [if t[0] == cr then lf else t[0]] + Normalize(t[1..], cr, lf)
  {
    if |t| >= 2 && t[0] == cr && t[1] == lf {
      CrToLfPrepend(lf, FoldCrLf(t[2..], cr, lf), cr, lf);
    } else {
      CrToLfPrepend(t[0], FoldCrLf(t[1..], cr, lf), cr, lf);
    }
  }

  lemma {:induction false} FoldCrLfPlain<T>(a: seq<T>, b: seq<T>, cr: T, lf: T)
    requires cr !in a
    ensures FoldCrLf(a + b, cr, lf) == a + FoldCrLf(b, cr, lf)
  {
    if |a| > 0 {
      assert (a + b)[1..] == a[1..] + b;
      FoldCrLfPlain(a[1..], b, cr, lf);
    } else {
      assert a + b == b;
    }
  }

  lemma {:induction false} CrToLfPlain<T>(a: seq<T>, b: seq<T>, cr: T, lf: T)
    requires cr !in a
    ensures CrToLf(a + b, cr, lf) == a + CrToLf(b, cr, lf)
  {
    if |a| > 0 {
      assert (a + b)[1..] == a[1..] + b;
      CrToLfPlain(a[1..], b, cr, lf);
    } else {
      assert a + b == b;
    }
  }

  /** Text without carriage returns is left alone by both passes. */
  lemma NormalizePlain<T>(b: seq<T>, cr: T, lf: T)
    requires cr !in b
    ensures FoldCrLf(b, cr, lf) == b && CrToLf(b, cr, lf) == b
  {
    FoldCrLfPlain(b, [], cr, lf);
    CrToLfPlain(b, [], cr, lf);
    assert b + [] == b;
  }

  /** A `cr lf` pair between two runs of ordinary text becomes a single `lf`. */
  lemma CrLfBetween<T>(a: seq<T>, b: seq<T>, cr: T, lf: T)
    requires cr != lf
    requires cr !in a && cr !in b
    ensures Normalize(a + [cr, lf] + b, cr, lf) == a + [lf] + b
  {
    var t := a + [cr, lf] + b;
    assert t == a + ([cr, lf] + b);
    FoldCrLfPlain(a, [cr, lf] + b, cr, lf);
    FoldPair(b, cr, lf);
    NormalizePlain(b, cr, lf);
    assert a + ([lf] + b) == (a + [lf]) + b;
    assert cr !in a + [lf];
    CrToLfPlain(a + [lf], b, cr, lf);
  }

  lemma FoldPair<T>(b: seq<T>, cr: T, lf: T)
    ensures FoldCrLf([cr, lf] + b, cr, lf) == [lf] + FoldCrLf(b, cr, lf)
  {
    assert ([cr, lf] + b)[2..] == b;
  }

  /** A lone `cr` between two runs of ordinary text becomes a single `lf`. */
  lemma LoneCrBetween<T>(a: seq<T>, b: seq<T>, cr: T, lf: T)
    requires cr !in a && cr !in b
    requires |b| == 0 || b[0] != lf
    ensures Normalize(a + [cr] + b, cr, lf) == a + [lf] + b
  {
    var u := a + [cr] + b;
    assert u == a + ([cr] + b);
    assert ([cr] + b)[1..] == b;
    NormalizePlain(b, cr, lf);
    FoldCrLfPlain(a, [cr] + b, cr, lf);
    assert FoldCrLf([cr] + b, cr, lf) == [cr] + b;
    CrToLfPlain(a, [cr] + b, cr, lf);
    assert CrToLf([cr] + b, cr, lf) == [lf] + b;
  }

  /** No `cr` survives the normalization. */
  lemma {:induction false} NoCrLeft<T>(t: seq<T>, cr: T, lf: T)
    requires cr != lf
    ensures cr !in Normalize(t, cr, lf)
    decreases |t|
  {
    if |t| > 0 {
      NormalizeStep(t, cr, lf);
      if |t| >= 2 && t[0] == cr && t[1] == lf {
        NoCrLeft(t[2..], cr, lf);
      } else {
        NoCrLeft(t[1..], cr, lf);
      }
    }
  }
}
