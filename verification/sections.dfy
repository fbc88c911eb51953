/** `add_line_breaker_to_content`: isolates Part I and separates its header line. */
module Sections {
  import opened Wrappers
  import opened PyText
  import opened Layout

  /** The index of the first line containing `key`, if any. */
  function FirstWith(lines: seq<string>, key: string): (r: Option<nat>)
    ensures r.None? <==> forall j :: 0 <= j < |lines| ==> !Contains(lines[j], key)
    ensures r.Some? ==> r.value < |lines| && Contains(lines[r.value], key)
    ensures r.Some? ==> forall j :: 0 <= j < r.value ==> !Contains(lines[j], key)
  {
    if |lines| == 0 then None
    else if Contains(lines[0], key) then Some(0)
    else match FirstWith(lines[1..], key)
      case None => None
      case Some(i) => Some(i + 1)
  }

  /**
   * The loop over the lines with its `header_found` flag: once the flag is
   * set every line is copied; before, the first line containing `key` is
   * copied and followed by the breaker line, and every other line is copied.
   */
  function InsertAfterFirst(lines: seq<string>, key: string, found: bool): (r: seq<string>)
    ensures found ==> r == lines
    ensures !found && FirstWith(lines, key).None? ==> r == lines
    ensures !found && FirstWith(lines, key).Some? ==>
      var i := FirstWith(lines, key).value;
      r == lines[..i + 1] + [Breaker] + lines[i + 1..]
  {
    if |lines| == 0 then []
    else if !found && Contains(lines[0], key) then
      InsertAtHead(lines);
      [lines[0], Breaker] + InsertAfterFirst(lines[1..], key, true)
    else
      var rest := InsertAfterFirst(lines[1..], key, found);
      assert lines == [lines[0]] + lines[1..];
      if !found && FirstWith(lines, key).Some? then
        var i := FirstWith(lines, key).value;
        assert i > 0 && FirstWith(lines[1..], key) == Some(i - 1);
        InsertBehindHead(lines, i, rest);
        [lines[0]] + rest
      else
        [lines[0]] + rest
  }

  /** A breaker after the first line is inserted at position 0. */
  lemma InsertAtHead(lines: seq<string>)
    requires |lines| > 0
    ensures [lines[0], Breaker] + lines[1..] == lines[..0 + 1] + [Breaker] + lines[0 + 1..]
  {
  }

  /** A breaker inserted in the tail at `i - 1` is, behind the head, inserted at `i`. */
  lemma InsertBehindHead(lines: seq<string>, i: nat, rest: seq<string>)
    requires 0 < i < |lines|
    requires rest == lines[1..][..i - 1 + 1] + [Breaker] + lines[1..][i - 1 + 1..]
    ensures [lines[0]] + rest == lines[..i + 1] + [Breaker] + lines[i + 1..]
  {
    assert lines[..i + 1] == [lines[0]] + lines[1..][..i];
    assert lines[i + 1..] == lines[1..][i..];
  }

  /** The header pass proper: the breaker goes after the first line containing `"Sr. No."`. */
  function InsertBreaker(lines: seq<string>, found: bool): seq<string>
  {
    InsertAfterFirst(lines, SerialColumn, found)
  }

  /** The lines of the stripped text between the first and second marker. */
  function SectionLines(content: string): (lines: seq<string>)
    requires Contains(content, Marker)
    ensures |lines| >= 1
    ensures forall i :: 0 <= i < |lines| ==> '\n' !in lines[i]
  {
    var sections := Split(content, Marker);
    var lines := Split(Strip(sections[1]), "\n");
    SplitPiecesFree(Strip(sections[1]), "\n");
    assert forall i :: 0 <= i < |lines| ==> !Contains(lines[i], [ '\n' ]);
    forall i | 0 <= i < |lines| ensures '\n' !in lines[i] {
      ContainsChar(lines[i], '\n');
    }
    lines
  }

  /**
   * `add_line_breaker_to_content`: fails exactly when the marker does not
   * occur; otherwise the result starts with the text before the first
   * marker and the marker, and the lines after that are the lines of the
   * stripped text between the first and second marker, with the breaker
   * inserted after the first line containing `"Sr. No."` (none if there
   * is none).
   */
  function AddLineBreaker(content: string): (r: Result<string, Error>)
    ensures r.Failure? <==> !Contains(content, Marker)
    ensures r.Failure? ==> r.error == MissingSection
    ensures r.Success? ==> StartsWith(r.value, Split(content, Marker)[0] + Marker)
    ensures r.Success? ==>
      Split(r.value[|Split(content, Marker)[0] + Marker|..], "\n") == InsertBreaker(SectionLines(content), false)
  {
    var sections := Split(content, Marker);
    if |sections| < 2 then Failure(MissingSection)
    else
      var modified := InsertBreaker(SectionLines(content), false);
      var body := Join(modified, "\n");
      var out := sections[0] + Marker + body;
      BodyLines(SectionLines(content), SerialColumn);
      assert out[|sections[0] + Marker|..] == body;
      Success(out)
  }

  /** The rebuilt body splits back into the modified lines. */
  lemma BodyLines(lines: seq<string>, key: string)
    requires |lines| >= 1
    requires forall i :: 0 <= i < |lines| ==> '\n' !in lines[i]
    ensures Split(Join(InsertAfterFirst(lines, key, false), "\n"), "\n") == InsertAfterFirst(lines, key, false)
  {
    var m := InsertAfterFirst(lines, key, false);
    match FirstWith(lines, key)
    case None =>
      SplitJoinChar(m, '\n');
    case Some(i) =>
      assert m == lines[..i + 1] + [Breaker] + lines[i + 1..];
      forall k | 0 <= k < |m| ensures '\n' !in m[k] {
        if k <= i {
          assert m[k] == lines[k];
        } else if k > i + 1 {
          assert m[k] == lines[k - 1];
        }
      }
      SplitJoinChar(m, '\n');
  }

  /** No line of the stripped text holds what the text does not hold, when that spans no line end. */
  lemma StrippedLinesWithout(s: string, t: string)
    requires !Contains(s, t) && |t| > 0 && '\n' !in t
    ensures !AnyContains(Split(Strip(s), "\n"), t)
  {
    if Contains(Strip(s), t) {
      StripKeepsOut(s, t);
    }
    JoinContains(Split(Strip(s), "\n"), '\n', t);
  }

  /** No line of the section contains the marker. */
  lemma SectionLinesMarkerFree(content: string)
    requires Contains(content, Marker)
    ensures !AnyContains(SectionLines(content), Marker)
  {
    SplitPiecesFree(content, Marker);
    SingleLineLiterals();
    StrippedLinesWithout(Split(content, Marker)[1], Marker);
  }

  /** Inserting the breaker line neither adds nor removes an occurrence of a text longer than it. */
  lemma BreakerKeepsOccurrences(lines: seq<string>, key: string, found: bool, t: string)
    requires |t| > |Breaker|
    ensures AnyContains(InsertAfterFirst(lines, key, found), t) <==> AnyContains(lines, t)
  {
    ShortNeverContains(Breaker, t);
    if !found && FirstWith(lines, key).Some? {
      var i := FirstWith(lines, key).value;
      assert lines == lines[..i + 1] + lines[i + 1..];
      AnyContainsAppend(lines[..i + 1], lines[i + 1..], t);
      AnyContainsAppend(lines[..i + 1], [Breaker], t);
      AnyContainsAppend(lines[..i + 1] + [Breaker], lines[i + 1..], t);
      assert [Breaker][1..] == [];
    }
  }

  /** The rebuilt section contains no marker. */
  lemma BodyMarkerFree(content: string)
    requires Contains(content, Marker)
    ensures !Contains(Join(InsertBreaker(SectionLines(content), false), "\n"), Marker)
  {
    SectionLinesMarkerFree(content);
    SingleLineLiterals();
    BodyWithout(SectionLines(content), Marker);
  }

  /**
   * The rebuilt text holds exactly one marker: splitting it on the marker
   * gives back the text before the first marker of the input and the
   * rebuilt section. Text after a second marker of the input is gone.
   */
  lemma RebuiltHasOneMarker(content: string)
    requires Contains(content, Marker)
    ensures AddLineBreaker(content).Success?
    ensures Split(AddLineBreaker(content).value, Marker)
      == [Split(content, Marker)[0], Join(InsertBreaker(SectionLines(content), false), "\n")]
  {
    var body := Join(InsertBreaker(SectionLines(content), false), "\n");
    BodyMarkerFree(content);
    SplitRebuilt(content, Marker, body);
  }

  /** Text before the first separator, the separator, then text without it: two pieces. */
  lemma SplitRebuilt(s: string, sep: string, body: string)
    requires |sep| > 0 && Contains(s, sep) && !Contains(body, sep)
    ensures Split(Split(s, sep)[0] + sep + body, sep) == [Split(s, sep)[0], body]
  {
    SplitKeepsFirstPiece(s, sep, body);
    SplitWithout(body, sep);
  }

  /** A text longer than the breaker that spans no line end is in the rebuilt body only if in a line. */
  lemma BodyWithout(lines: seq<string>, t: string)
    requires !AnyContains(lines, t) && |t| > |Breaker| && '\n' !in t
    ensures !Contains(Join(InsertBreaker(lines, false), "\n"), t)
  {
    BreakerKeepsOccurrences(lines, SerialColumn, false, t);
    JoinContains(InsertBreaker(lines, false), '\n', t);
  }

  /**
   * Rewriting the section adds no new occurrence of any text longer than the
   * breaker that spans no line end.
   */
  lemma SectionKeepsOut(content: string, t: string)
    requires Contains(content, Marker)
    requires |t| > |Breaker| && '\n' !in t
    requires !Contains(Split(content, Marker)[1], t)
    ensures !Contains(Join(InsertBreaker(SectionLines(content), false), "\n"), t)
  {
    StrippedLinesWithout(Split(content, Marker)[1], t);
    BodyWithout(SectionLines(content), t);
  }
}
