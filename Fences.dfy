/**
 * The pass that repairs indented fenced code blocks before a Markdown file is
 * converted (documents/convert_to_html.py:729-750). Each line is looked at once;
 * a fence line (one whose left-stripped form starts with three backticks) is
 * emitted without its leading whitespace and opens or closes a block; an
 * opening fence remembers how far it was indented, and inside the block a line
 * that starts with that many spaces loses exactly those characters.
 */
module Fences {
  import opened Text

  const Fence := "```"

  /** The scanner's state: outside any block, or inside one opened at `indent`. */
  datatype FenceState = Outside | Inside(indent: nat)

  predicate IsFence(line: string)
  {
    StartsWith(LStrip(line), Fence)
  }

  /** The state after reading one line. */
  function Next(st: FenceState, line: string): FenceState
  {
    if !IsFence(line) then st
    else if st.Inside? then Outside
    else Inside(|line| - |LStrip(line)|)
  }

  /** The line emitted for one input line in state st. */
  function Emit(st: FenceState, line: string): string
  {
    if IsFence(line) then LStrip(line)
    else if st.Inside? && StartsWith(line, Spaces(st.indent)) then line[st.indent..]
    else line
  }

  /**
   * Every emitted line is its input line with a run of leading whitespace removed;
   * a fence comes out starting with its backticks, and outside a block a line that
   * is not a fence comes out unchanged.
   */
  lemma {:induction false} EmitRemovesLeadingWhitespace(st: FenceState, line: string)
    ensures var r := Emit(st, line);
      |r| <= |line| && r == line[|line| - |r|..] && AllSpace(line[..|line| - |r|])
    ensures IsFence(line) ==> StartsWith(Emit(st, line), Fence)
    ensures !IsFence(line) && st.Outside? ==> Emit(st, line) == line
    ensures !IsFence(line) && st.Inside? ==> Emit(st, line) == line || |line| - |Emit(st, line)| == st.indent
  {
    var r := Emit(st, line);
    if !IsFence(line) && !(st.Inside? && StartsWith(line, Spaces(st.indent))) {
      assert line[..0] == [];
    }
  }

  /** The lines emitted for `lines` when the scan starts in state `st`: one per input line. */
  function FixFrom(st: FenceState, lines: seq<string>): (r: seq<string>)
    ensures |r| == |lines|
    decreases lines
  {
    if lines == [] then []
    else [Emit(st, lines[0])] + FixFrom(Next(st, lines[0]), lines[1..])
  }

  lemma {:induction false} FixFromStep(done: seq<string>, st: FenceState, lines: seq<string>, i: nat)
    requires i < |lines|
    ensures done + FixFrom(st, lines[i..])
         == (done + [Emit(st, lines[i])]) + FixFrom(Next(st, lines[i]), lines[i + 1..])
  {
    assert lines[i..][0] == lines[i] && lines[i..][1..] == lines[i + 1..];
  }

  /** The state reached after scanning `lines` from `st`. */
  function StateAfter(st: FenceState, lines: seq<string>): FenceState
    decreases lines
  {
    if lines == [] then st else StateAfter(Next(st, lines[0]), lines[1..])
  }

  function FixLines(lines: seq<string>): seq<string>
  {
    FixFrom(Outside, lines)
  }

  /** The whole pass on a file's text: split on newlines, fix each line, join again. */
  function FixContent(content: string): string
  {
    Join(FixLines(Split(content)))
  }

  /** Number of fence lines in `lines`. */
  function CountFences(lines: seq<string>): nat
  {
    if lines == [] then 0 else (if IsFence(lines[0]) then 1 else 0) + CountFences(lines[1..])
  }

  /** The i-th output line is the i-th input line as emitted in the state left by the lines before it. */
  lemma {:induction false} FixAt(st: FenceState, lines: seq<string>, i: nat)
    requires i < |lines|
    ensures FixFrom(st, lines)[i] == Emit(StateAfter(st, lines[..i]), lines[i])
    decreases lines
  {
    if i > 0 {
      FixAt(Next(st, lines[0]), lines[1..], i - 1);
      assert lines[1..][..i - 1] == lines[1..i];
      assert lines[..i][1..] == lines[1..i];
    }
  }

  /** A scan from the start is inside a block exactly when it has seen an odd number of fences. */
  lemma {:induction false} InsideIffOddFences(lines: seq<string>)
    ensures StateAfter(Outside, lines).Inside? <==> CountFences(lines) % 2 == 1
  {
    InsideIffOddFencesFrom(Outside, lines);
  }

  lemma {:induction false} InsideIffOddFencesFrom(st: FenceState, lines: seq<string>)
    ensures StateAfter(st, lines).Inside? <==> (st.Inside? <==> CountFences(lines) % 2 == 0)
    decreases lines
  {
    if lines != [] {
      var next := Next(st, lines[0]);
      InsideIffOddFencesFrom(next, lines[1..]);
      var c := CountFences(lines[1..]);
      if IsFence(lines[0]) {
        assert next.Inside? <==> st.Outside?;
        assert CountFences(lines) == c + 1;
      } else {
        assert next == st;
        assert CountFences(lines) == c;
      }
    }
  }

  /** A text with no fence line passes through unchanged. */
  lemma {:induction false} NoFenceUnchanged(lines: seq<string>)
    requires forall i :: 0 <= i < |lines| ==> !IsFence(lines[i])
    ensures FixLines(lines) == lines
  {
    if lines != [] {
      NoFenceUnchanged(lines[1..]);
    }
  }

  lemma {:induction false} NoFenceContentUnchanged(content: string)
    requires forall i :: 0 <= i < |Split(content)| ==> !IsFence(Split(content)[i])
    ensures FixContent(content) == content
  {
    NoFenceUnchanged(Split(content));
    JoinSplit(content);
  }

  /**
   * The repaired text has as many lines as the input, and its i-th line is the
   * i-th input line as emitted in the state the lines before it leave.
   */
  lemma {:induction false} FixContentLines(content: string)
    ensures var lines := Split(content);
      |Split(FixContent(content))| == |lines|
      && forall i :: 0 <= i < |lines| ==>
        Split(FixContent(content))[i] == Emit(StateAfter(Outside, lines[..i]), lines[i])
  {
    var lines := Split(content);
    var fixed := FixLines(lines);
    forall i | 0 <= i < |lines| ensures fixed[i] == Emit(StateAfter(Outside, lines[..i]), lines[i]) && '\n' !in fixed[i] {
      FixAt(Outside, lines, i);
      EmitRemovesLeadingWhitespace(StateAfter(Outside, lines[..i]), lines[i]);
      assert '\n' !in lines[i];
      var line := lines[i];
      var r := fixed[i];
      assert r == line[|line| - |r|..];
      forall j | 0 <= j < |r| ensures r[j] != '\n' {
        assert r[j] == line[|line| - |r| + j];
      }
    }
    SplitJoin(fixed);
  }

  /** Scanning xs and then ys reaches the state that scanning xs + ys reaches. */
  lemma {:induction false} StateAfterConcat(st: FenceState, xs: seq<string>, ys: seq<string>)
    ensures StateAfter(st, xs + ys) == StateAfter(StateAfter(st, xs), ys)
    decreases xs
  {
    if xs != [] {
      assert (xs + ys)[0] == xs[0] && (xs + ys)[1..] == xs[1..] + ys;
      StateAfterConcat(Next(st, xs[0]), xs[1..], ys);
    } else {
      assert xs + ys == ys;
    }
  }

  /** Lines that are not fences leave the state as it was. */
  lemma {:induction false} StateAfterNoFence(st: FenceState, xs: seq<string>)
    requires forall l :: 0 <= l < |xs| ==> !IsFence(xs[l])
    ensures StateAfter(st, xs) == st
    decreases xs
  {
    if xs != [] {
      StateAfterNoFence(st, xs[1..]);
    }
  }

  /** The state after the first i + 1 lines is the state after the first i, stepped by line i. */
  lemma {:induction false} StateAfterPrefix(lines: seq<string>, i: nat)
    requires i < |lines|
    ensures StateAfter(Outside, lines[..i + 1]) == Next(StateAfter(Outside, lines[..i]), lines[i])
  {
    assert lines[..i + 1] == lines[..i] + [lines[i]];
    StateAfterConcat(Outside, lines[..i], [lines[i]]);
  }

  /**
   * A fence line of the file comes out without its leading whitespace. With an even
   * number of fence lines before it, it opens a block that records its indentation;
   * with an odd number, it closes the open block.
   */
  lemma {:induction false} FenceLineFixed(content: string, i: nat)
    requires i < |Split(content)| && IsFence(Split(content)[i])
    ensures var lines := Split(content);
      && i < |Split(FixContent(content))| && Split(FixContent(content))[i] == LStrip(lines[i])
      && (CountFences(lines[..i]) % 2 == 0 ==>
            StateAfter(Outside, lines[..i + 1]) == Inside(|lines[i]| - |LStrip(lines[i])|))
      && (CountFences(lines[..i]) % 2 == 1 ==> StateAfter(Outside, lines[..i + 1]) == Outside)
  {
    var lines := Split(content);
    FixContentLines(content);
    InsideIffOddFences(lines[..i]);
    StateAfterPrefix(lines, i);
  }

  /**
   * A line that is not a fence, after an odd number of fence lines of which the last
   * is line j, sits in the block that line j opened: when it starts with as many
   * spaces as line j was indented it loses exactly those, and otherwise it is kept.
   */
  lemma {:induction false} CodeLineFixed(content: string, j: nat, i: nat)
    requires j < i < |Split(content)|
    requires IsFence(Split(content)[j]) && !IsFence(Split(content)[i])
    requires forall l :: j < l < i ==> !IsFence(Split(content)[l])
    requires CountFences(Split(content)[..i]) % 2 == 1
    ensures var lines := Split(content);
      var k := |lines[j]| - |LStrip(lines[j])|;
      && i < |Split(FixContent(content))|
      && (StartsWith(lines[i], Spaces(k)) ==> Split(FixContent(content))[i] == lines[i][k..])
      && (!StartsWith(lines[i], Spaces(k)) ==> Split(FixContent(content))[i] == lines[i])
  {
    var lines := Split(content);
    var between := lines[j + 1..i];
    assert lines[..i] == lines[..j + 1] + between;
    StateAfterConcat(Outside, lines[..j + 1], between);
    forall l | 0 <= l < |between| ensures !IsFence(between[l]) {
      assert between[l] == lines[j + 1 + l];
    }
    StateAfterNoFence(StateAfter(Outside, lines[..j + 1]), between);
    InsideIffOddFences(lines[..i]);
    StateAfterPrefix(lines, j);
    FixContentLines(content);
  }

  /** A line that is not a fence, after an even number of fence lines, is outside every block and kept. */
  lemma {:induction false} OutsideLineFixed(content: string, i: nat)
    requires i < |Split(content)| && !IsFence(Split(content)[i])
    requires CountFences(Split(content)[..i]) % 2 == 0
    ensures i < |Split(FixContent(content))| && Split(FixContent(content))[i] == Split(content)[i]
  {
    FixContentLines(content);
    InsideIffOddFences(Split(content)[..i]);
  }

  /**
   * The pass as the converter runs it: one loop over the lines of the file,
   * carrying `inCodeBlock` and `codeBlockIndent` and appending one line per step.
   */
  method FixIndentedCodeBlocks(content: string) returns (fixedContent: string)
    ensures fixedContent == FixContent(content)
  {
    var lines := Split(content);
    var fixedLines: seq<string> := [];
    var inCodeBlock := false;
    var codeBlockIndent: nat := 0;
    assert lines[0..] == lines;
    for i := 0 to |lines|
      invariant |fixedLines| == i
      invariant fixedLines + FixFrom(if inCodeBlock then Inside(codeBlockIndent) else Outside, lines[i..])
                == FixLines(lines)
    {
      var line := lines[i];
      var stripped := LStrip(line);
      ghost var st := if inCodeBlock then Inside(codeBlockIndent) else Outside;
      ghost var before := fixedLines;
      FixFromStep(before, st, lines, i);
      if StartsWith(stripped, Fence) {
        assert IsFence(line);
        if !inCodeBlock {
          codeBlockIndent := |line| - |stripped|;
          inCodeBlock := true;
          fixedLines := fixedLines + [stripped];
        } else {
          inCodeBlock := false;
          fixedLines := fixedLines + [stripped];
        }
      } else if inCodeBlock && StartsWith(line, Spaces(codeBlockIndent)) {
        assert !IsFence(line);
        fixedLines := fixedLines + [line[codeBlockIndent..]];
      } else {
        assert !IsFence(line);
        fixedLines := fixedLines + [line];
      }
      assert fixedLines == before + [Emit(st, line)];
      assert (if inCodeBlock then Inside(codeBlockIndent) else Outside) == Next(st, line);
    }
    assert lines[|lines|..] == [];
    assert fixedLines == FixLines(lines);
    fixedContent := Join(fixedLines);
  }
}
