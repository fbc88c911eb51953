/** The repair pass that forces a blank line after each summary header line. */
module Normalizer {
  import opened PyText

  /** A line matches the target when both agree after stripping. */
  predicate IsTarget(line: string, target: string) {
    Strip(line) == Strip(target)
  }

  /** Which lines the loop treats as the target, line by line. */
  function Marks(lines: seq<string>, target: string): (r: seq<bool>)
    ensures |r| == |lines|
    ensures forall i :: 0 <= i < |lines| ==> (r[i] <==> IsTarget(lines[i], target))
  {
    if |lines| == 0 then [] else [IsTarget(lines[0], target)] + Marks(lines[1..], target)
  }

  /** What the loop writes: each line and a newline, plus a newline more after a marked line. */
  function Emit(lines: seq<string>, marks: seq<bool>): string
    requires |marks| == |lines|
  {
    if |lines| == 0 then ""
    else lines[0] + "\n" + (if marks[0] then "\n" else "") + Emit(lines[1..], marks[1..])
  }

  /** The intended line structure: every line, with an empty line after each marked line. */
  function Spread(lines: seq<string>, marks: seq<bool>): seq<string>
    requires |marks| == |lines|
  {
    if |lines| == 0 then []
    else [lines[0]] + (if marks[0] then [""] else []) + Spread(lines[1..], marks[1..])
  }

  /** How many lines are marked. */
  function Count(marks: seq<bool>): nat
  {
    if |marks| == 0 then 0 else (if marks[0] then 1 else 0) + Count(marks[1..])
  }

  /** The lines with an empty line after each line matching the target. */
  function WithBlankLines(lines: seq<string>, target: string): seq<string>
  {
    Spread(lines, Marks(lines, target))
  }

  /** How many of the lines match the target. */
  function CountTargets(lines: seq<string>, target: string): nat
  {
    Count(Marks(lines, target))
  }

  /**
   * `add_empty_line`: the output's lines are the input's lines, in order,
   * with one empty line after each line matching the target, and a final
   * newline; exactly one character more per matching line, plus that final
   * newline; with no match the output is the input with `'\n'` appended.
   */
  function AddEmptyLine(input: string, target: string): (r: string)
    ensures Split(r, "\n") == WithBlankLines(Split(input, "\n"), target) + [""]
    ensures |r| == |input| + 1 + CountTargets(Split(input, "\n"), target)
    ensures CountTargets(Split(input, "\n"), target) == 0 ==> r == input + "\n"
  {
    var lines := Split(input, "\n");
    EmitMeaning(input, target);
    Emit(lines, Marks(lines, target))
  }

  /** The facts `AddEmptyLine` promises, about the text the loop writes. */
  lemma EmitMeaning(input: string, target: string)
    ensures var lines := Split(input, "\n");
      var out := Emit(lines, Marks(lines, target));
      && Split(out, "\n") == WithBlankLines(lines, target) + [""]
      && |out| == |input| + 1 + CountTargets(lines, target)
      && (CountTargets(lines, target) == 0 ==> out == input + "\n")
  {
    var lines := Split(input, "\n");
    SplitPiecesFree(input, "\n");
    EmitFacts(input, lines, Marks(lines, target));
  }

  /** `EmitMeaning` for any marking of the lines of `input`. */
  lemma EmitFacts(input: string, lines: seq<string>, marks: seq<bool>)
    requires lines == Split(input, "\n") && |marks| == |lines|
    requires forall i :: 0 <= i < |lines| ==> !Contains(lines[i], "\n")
    ensures Split(Emit(lines, marks), "\n") == Spread(lines, marks) + [""]
    ensures |Emit(lines, marks)| == |input| + 1 + Count(marks)
    ensures Count(marks) == 0 ==> Emit(lines, marks) == input + "\n"
  {
    var ys := Spread(lines, marks) + [""];
    EmitAsLines(lines, marks);
    BlankLinesAreLineFree(lines, marks);
    SplitJoinChar(ys, '\n');
    EmitLength(lines, marks);
    if Count(marks) == 0 {
      NoTargetsNoBlanks(lines, marks);
      JoinEmptyLast(lines, "\n");
    }
  }

  /** Joining `xs + [""]` is joining `xs` and adding one separator. */
  lemma JoinEmptyLast(xs: seq<string>, sep: string)
    requires |xs| >= 1
    ensures Join(xs + [""], sep) == Join(xs, sep) + sep
    decreases |xs|
  {
    if |xs| > 1 {
      assert (xs + [""])[1..] == xs[1..] + [""];
      JoinEmptyLast(xs[1..], sep);
    }
  }

  /** The written text is the intended lines joined by newlines, plus a final newline. */
  lemma {:induction false} EmitAsLines(lines: seq<string>, marks: seq<bool>)
    requires |marks| == |lines|
    ensures Emit(lines, marks) == Join(Spread(lines, marks) + [""], "\n")
    decreases |lines|
  {
    if |lines| > 0 {
      var tail := Spread(lines[1..], marks[1..]);
      EmitAsLines(lines[1..], marks[1..]);
      var head := [lines[0]] + (if marks[0] then [""] else []);
      assert Spread(lines, marks) + [""] == head + (tail + [""]);
      JoinAppend(head, tail + [""], "\n");
      JoinEmptyLast(head, "\n");
    }
  }

  /** Joining two non-empty lists puts one separator between their joins. */
  lemma {:induction false} JoinAppend(xs: seq<string>, ys: seq<string>, sep: string)
    requires |xs| >= 1 && |ys| >= 1
    ensures Join(xs + ys, sep) == Join(xs, sep) + sep + Join(ys, sep)
    decreases |xs|
  {
    if |xs| == 1 {
      assert (xs + ys)[1..] == ys;
    } else {
      assert (xs + ys)[1..] == xs[1..] + ys;
      JoinAppend(xs[1..], ys, sep);
    }
  }

  /** The written text is one newline per line plus one per mark longer than the joined lines. */
  lemma {:induction false} EmitLength(lines: seq<string>, marks: seq<bool>)
    requires |marks| == |lines| >= 1
    ensures |Emit(lines, marks)| == |Join(lines, "\n")| + 1 + Count(marks)
    decreases |lines|
  {
    if |lines| > 1 {
      EmitLength(lines[1..], marks[1..]);
    }
  }

  /** With no mark, nothing is inserted. */
  lemma {:induction false} NoTargetsNoBlanks(lines: seq<string>, marks: seq<bool>)
    requires |marks| == |lines| && Count(marks) == 0
    ensures Spread(lines, marks) == lines
    decreases |lines|
  {
    if |lines| > 0 {
      NoTargetsNoBlanks(lines[1..], marks[1..]);
      assert [lines[0]] + lines[1..] == lines;
    }
  }

  /** Inserting empty lines introduces no newline character. */
  lemma {:induction false} BlankLinesAreLineFree(lines: seq<string>, marks: seq<bool>)
    requires |marks| == |lines|
    requires forall i :: 0 <= i < |lines| ==> !Contains(lines[i], "\n")
    ensures NoLineBreaks(Spread(lines, marks) + [""])
    decreases |lines|
  {
    if |lines| > 0 {
      assert forall j :: 0 <= j < |lines[1..]| ==> lines[1..][j] == lines[j + 1];
      BlankLinesAreLineFree(lines[1..], marks[1..]);
      ContainsChar(lines[0], '\n');
      var extra: seq<string> := if marks[0] then [""] else [];
      var tail := Spread(lines[1..], marks[1..]) + [""];
      LineBreakFreeHead(lines[0], extra);
      LineBreakFreeConcat([lines[0]] + extra, tail);
      assert Spread(lines, marks) + [""] == [lines[0]] + extra + tail;
    }
  }

  /** No string of `xs` holds a newline. */
  predicate NoLineBreaks(xs: seq<string>) {
    forall i :: 0 <= i < |xs| ==> '\n' !in xs[i]
  }

  /** A line without a newline, possibly followed by an empty line, holds no newline. */
  lemma LineBreakFreeHead(x: string, extra: seq<string>)
    requires '\n' !in x && (extra == [] || extra == [""])
    ensures NoLineBreaks([x] + extra)
  {
  }

  /** Lists without newlines concatenate to one without newlines. */
  lemma LineBreakFreeConcat(xs: seq<string>, ys: seq<string>)
    requires NoLineBreaks(xs) && NoLineBreaks(ys)
    ensures NoLineBreaks(xs + ys)
  {
    forall i | 0 <= i < |xs + ys|
      ensures '\n' !in (xs + ys)[i]
    {
      if i >= |xs| {
        assert (xs + ys)[i] == ys[i - |xs|];
      }
    }
  }

  /** Adding empty lines adds no occurrence of a non-empty text and removes none. */
  lemma {:induction false} BlankLinesKeepOccurrences(lines: seq<string>, marks: seq<bool>, t: string)
    requires |marks| == |lines| && |t| > 0
    ensures AnyContains(Spread(lines, marks), t) <==> AnyContains(lines, t)
    decreases |lines|
  {
    if |lines| > 0 {
      ShortNeverContains("", t);
      BlankLinesKeepOccurrences(lines[1..], marks[1..], t);
      var extra: seq<string> := if marks[0] then [""] else [];
      var head := [lines[0]] + extra;
      AnyContainsAppend(head, Spread(lines[1..], marks[1..]), t);
      AnyContainsAppend([lines[0]], extra, t);
      assert [lines[0]][1..] == [];
      if |extra| > 0 {
        assert extra[1..] == [];
      }
      assert !AnyContains(extra, t);
    }
  }

  /**
   * A text without a line break occurs in the output of `add_empty_line`
   * exactly when it occurs in the input: the repair pass cannot create or
   * destroy a section marker.
   */
  lemma AddEmptyLineKeepsOccurrences(input: string, target: string, t: string)
    requires |t| > 0 && '\n' !in t
    ensures Contains(AddEmptyLine(input, target), t) <==> Contains(input, t)
  {
    var lines := Split(input, "\n");
    var marks := Marks(lines, target);
    EmitAsLines(lines, marks);
    EmitKeepsOccurrences(input, lines, marks, t);
  }

  /** `AddEmptyLineKeepsOccurrences` for any marking of the lines of `input`. */
  lemma EmitKeepsOccurrences(input: string, lines: seq<string>, marks: seq<bool>, t: string)
    requires lines == Split(input, "\n") && |marks| == |lines|
    requires |t| > 0 && '\n' !in t
    requires Emit(lines, marks) == Join(Spread(lines, marks) + [""], "\n")
    ensures Contains(Emit(lines, marks), t) <==> Contains(input, t)
  {
    var ys := Spread(lines, marks);
    JoinContains(ys + [""], '\n', t);
    JoinContains(lines, '\n', t);
    BlankLinesKeepOccurrences(lines, marks, t);
    ShortNeverContains("", t);
    AnyContainsAppend(ys, [""], t);
  }

  /** The intended lines with the final empty line are the input lines with empty lines inserted. */
  lemma {:induction false} SpreadIsPadded(lines: seq<string>, marks: seq<bool>)
    requires |marks| == |lines|
    ensures Padded(Spread(lines, marks) + [""], lines)
    decreases |lines|
  {
    if |lines| == 0 {
      assert Spread(lines, marks) + [""] == [""];
      assert [""][1..] == [];
    } else {
      var tail := Spread(lines[1..], marks[1..]) + [""];
      SpreadIsPadded(lines[1..], marks[1..]);
      if marks[0] {
        assert Spread(lines, marks) + [""] == [lines[0]] + ([""] + tail);
        assert ([""] + tail)[1..] == tail;
      } else {
        assert Spread(lines, marks) + [""] == [lines[0]] + tail;
      }
    }
  }

  /**
   * A text without a line break occurs between the first and second
   * occurrence of a single-line separator in the output of `add_empty_line`
   * exactly when it occurs there in the input.
   */
  lemma AddEmptyLineKeepsSection(input: string, target: string, sep: string, t: string)
    requires |sep| > 0 && '\n' !in sep && |t| > 0 && '\n' !in t
    requires Contains(input, sep)
    ensures Contains(AddEmptyLine(input, target), sep)
    ensures Contains(Split(AddEmptyLine(input, target), sep)[1], t) <==> Contains(Split(input, sep)[1], t)
  {
    var lines := Split(input, "\n");
    var marks := Marks(lines, target);
    EmitAsLines(lines, marks);
    AddEmptyLineKeepsOccurrences(input, target, sep);
    SpreadIsPadded(lines, marks);
    PaddedSection(Spread(lines, marks) + [""], lines, sep, t);
  }
}
