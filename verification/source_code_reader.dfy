/**
 * The byte-level reader (`SourceCodeReader`, src/build/source_code_reader.rs).
 *
 * It owns the UTF-8 bytes of the source text and a pointer into them, starts past
 * a leading byte-order mark, folds "\r\n" and a lone '\r' into one '\n', and lets
 * the caller ask for the pointer and move it anywhere (`seek`).
 */
module SourceCodeReader {
  import opened Wrappers
  import LineEndings

  newtype byte = x: int | 0 <= x < 256

  const CR: byte := 13
  const LF: byte := 10
  const Space: byte := 32

  /** The UTF-8 encoding of U+FEFF. */
  const Bom: seq<byte> := [0xEF, 0xBB, 0xBF]

  datatype Reader = Reader(source: seq<byte>, pointer: nat)

  predicate StartsWithBom(source: seq<byte>) {
    |source| >= 3 && source[..3] == Bom
  }

  /** `SourceCodeReader::new` as evidently intended: the pointer starts past a leading BOM. */
  function New(source: seq<byte>): (r: Reader)
    ensures r.source == source
    ensures StartsWithBom(source) ==> r.pointer == 3
    ensures !StartsWithBom(source) ==> r.pointer == 0
  {
    Reader(source, if StartsWithBom(source) then |Bom| else 0)
  }

  /**
   * Whether a `String` may be sliced at byte index `i`. For well-formed UTF-8 that is
   * the two ends and every index whose byte is not a continuation byte (10xxxxxx).
   */
  predicate IsCharBoundary(source: seq<byte>, i: nat) {
    i == 0 || i == |source| || (i < |source| && !(0x80 <= source[i] < 0xC0))
  }

  /**
   * `SourceCodeReader::new` as written: it slices the string at byte 3 before comparing
   * with the BOM, and slicing a `String` inside a character panics (`None` here).
   */
  function NewAsWritten(source: seq<byte>): (r: Option<Reader>)
    ensures r.None? <==> |source| >= 3 && !IsCharBoundary(source, 3)
    ensures r.Some? ==> r.value == New(source)
  {
    if |source| >= |Bom| then
      if !IsCharBoundary(source, 3) then None
      else Some(Reader(source, if source[..3] == Bom then |Bom| else 0))
    else Some(Reader(source, 0))
  }

  /**
   * `read`: the next byte, with '\r' and "\r\n" both delivered as '\n'; `None` at
   * or past the end, where the pointer stays where it is.
   */
  function Read(r: Reader): (res: (Option<byte>, Reader))
    ensures res.1.source == r.source
    ensures res.0.None? <==> r.pointer >= |r.source|
    ensures res.0.None? ==> res.1 == r
    ensures res.0.Some? ==>
      && res.0.value != CR
      && (r.source[r.pointer] != CR ==> res.0.value == r.source[r.pointer] && res.1.pointer == r.pointer + 1)
      && (r.source[r.pointer] == CR ==> res.0.value == LF)
      && res.1.pointer == (if r.source[r.pointer] == CR && r.pointer + 1 < |r.source|
                              && r.source[r.pointer + 1] == LF
                           then r.pointer + 2 else r.pointer + 1)
  {
    if r.pointer < |r.source| then
      var b := r.source[r.pointer];
      var p := r.pointer + 1;
      if b == CR then
        var p' := if p < |r.source| && r.source[p] == LF then p + 1 else p;
        (Some(LF), Reader(r.source, p'))
      else (Some(b), Reader(r.source, p))
    else (None, r)
  }

  function Pointer(r: Reader): (p: nat)
    ensures p == r.pointer
  {
    r.pointer
  }

  /** `seek`: the pointer becomes exactly `p`, which may lie anywhere, even past the end. */
  function Seek(r: Reader, p: nat): (r': Reader)
    ensures r'.source == r.source && Pointer(r') == p
  {
    Reader(r.source, p)
  }

  /** Everything `read` returns from `r` on until it returns `None`. */
  function ReadAll(r: Reader): seq<byte>
    decreases |r.source| - r.pointer
  {
    var (b, r') := Read(r);
    if b.None? then [] else [b.value] + ReadAll(r')
  }

  /** The bytes still to be read, which is nothing once the pointer is past the end. */
  function Unread(r: Reader): seq<byte> {
    if r.pointer <= |r.source| then r.source[r.pointer..] else []
  }

  // ---------------------------------------------------------------------------
  // Properties
  // ---------------------------------------------------------------------------

  /** Reading to the end delivers exactly the line-ending normalization of the unread bytes. */
  lemma {:induction false} ReadAllNormalizes(r: Reader)
    ensures ReadAll(r) == LineEndings.Normalize(Unread(r), CR, LF)
    decreases |r.source| - r.pointer
  {
    var (b, r') := Read(r);
    if b.Some? {
      var t := Unread(r);
      ReadAllNormalizes(r');
      LineEndings.NormalizeStep(t, CR, LF);
      if t[0] == CR && |t| >= 2 && t[1] == LF {
        assert Unread(r') == t[2..];
      } else {
        assert Unread(r') == t[1..];
      }
    }
  }

  /** No byte the reader returns is a carriage return. */
  lemma NeverCarriageReturn(r: Reader)
    ensures CR !in ReadAll(r)
  {
    ReadAllNormalizes(r);
    LineEndings.NoCrLeft(Unread(r), CR, LF);
  }

  /** "abc\r\nxyz\n123" reads as "abc\nxyz\n123" and then `None`. */
  lemma ReadsNormalizedText(a: seq<byte>, b: seq<byte>)
    requires CR !in a && CR !in b
    requires !StartsWithBom(a + [CR, LF] + b)
    ensures ReadAll(New(a + [CR, LF] + b)) == a + [LF] + b
  {
    var t := a + [CR, LF] + b;
    LineEndings.CrLfBetween(a, b, CR, LF);
    ReadAllNormalizes(New(t));
    assert Unread(New(t)) == t;
  }

  /** Behind a BOM the same bytes are read as without it. */
  lemma BomIsSkipped(t: seq<byte>)
    ensures ReadAll(New(Bom + t)) == LineEndings.Normalize(t, CR, LF)
  {
    assert (Bom + t)[..3] == Bom;
    ReadAllNormalizes(New(Bom + t));
    assert Unread(New(Bom + t)) == t;
  }

  /** After four reads of "abc\r\nxyz" the pointer is 5: the pair counted as two bytes. */
  lemma PointerAfterCrLf()
    ensures var r0 := New([0x61, 0x62, 0x63, CR, LF, 0x78, 0x79, 0x7A]);
      var r4 := Read(Read(Read(Read(r0).1).1).1);
      r4.0 == Some(LF) && Pointer(r4.1) == 5
  {
    var t: seq<byte> := [0x61, 0x62, 0x63, CR, LF, 0x78, 0x79, 0x7A];
    assert t[..3][0] != Bom[0];
    var r3 := Read(Read(Read(New(t)).1).1).1;
    assert r3 == Reader(t, 3);
  }

  /** After `seek(p)` the next read delivers the byte at `p` (unless it is a line ending). */
  lemma SeekThenRead(r: Reader, p: nat)
    requires p < |r.source| && r.source[p] != CR
    ensures Read(Seek(r, p)).0 == Some(r.source[p])
    ensures Pointer(Read(Seek(r, p)).1) == p + 1
  {
  }

  /**
   * The finding at source_code_reader.rs:10: for the two-character text "a" U+65E5
   * (bytes 61 E6 97 A5), byte 3 lies inside the second character, so the constructor
   * as written panics, while the intended constructor starts at 0.
   */
  lemma BomCheckPanicsInsideCharacter()
    ensures NewAsWritten([0x61, 0xE6, 0x97, 0xA5]).None?
    ensures New([0x61, 0xE6, 0x97, 0xA5]).pointer == 0
  {
    var t: seq<byte> := [0x61, 0xE6, 0x97, 0xA5];
    assert t[..3][0] != Bom[0];
  }
}
