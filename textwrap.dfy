/**
 * Python's `textwrap.indent(text, prefix)` with its default predicate: every
 * line of `text` (as `splitlines(True)` cuts it) that is not made only of
 * whitespace gets `prefix` in front; the line endings are kept.
 */
module Textwrap {
  import opened PyStr

  /** The default predicate of `textwrap.indent`: the line has a non-whitespace character. */
  predicate HasText(line: string) {
    exists i :: 0 <= i < |line| && !IsSpace(line[i])
  }

  /** One line as `textwrap.indent` emits it. */
  function PrefixLine(line: string, prefix: string): string {
    if HasText(line) then prefix + line else line
  }

  /** The per-line step of `textwrap.indent`, over all lines in order. */
  function PrefixLines(lines: seq<string>, prefix: string): (out: seq<string>)
    ensures |out| == |lines|
    ensures forall i :: 0 <= i < |lines| ==> out[i] == PrefixLine(lines[i], prefix)
  {
    if lines == [] then [] else [PrefixLine(lines[0], prefix)] + PrefixLines(lines[1..], prefix)
  }

  /**
   * `textwrap.indent(text, prefix)`. The lines it produces are described by
   * IndentLines; the empty prefix leaves every text unchanged.
   */
  function Indent(text: string, prefix: string): (r: string)
    ensures prefix == [] ==> r == text
  {
    var lines := SplitLines(text);
    assert prefix == [] ==> PrefixLines(lines, prefix) == lines by {
      if prefix == [] {
        assert forall i :: 0 <= i < |lines| ==> PrefixLine(lines[i], prefix) == lines[i];
      }
    }
    Concat(PrefixLines(lines, prefix))
  }

  /** Indentation is applied line by line: the first line, then the rest. */
  lemma IndentUnfold(text: string, prefix: string)
    requires text != []
    ensures var k := FirstLineLength(text);
            Indent(text, prefix) == PrefixLine(text[..k], prefix) + Indent(text[k..], prefix)
  {
  }

  /** A text that opens with a whole line with text is indented as that line with the prefix, then the rest. */
  lemma IndentAfterHead(head: string, rest: string, prefix: string)
    requires |head| >= 1 && head[|head| - 1] == '\n' && NoLineBreak(head[..|head| - 1]) && HasText(head)
    ensures Indent(head + rest, prefix) == prefix + head + Indent(rest, prefix)
  {
    SplitLinesAfterHead(head, rest);
    var lines := [head] + SplitLines(rest);
    assert lines[0] == head && lines[1..] == SplitLines(rest);
  }

  /**
   * Indenting a text that opens with a whole line starting with a non-space,
   * then stripping leading whitespace, leaves that line as it was.
   */
  lemma IndentStripAfterHead(head: string, rest: string, prefix: string)
    requires |head| >= 1 && head[|head| - 1] == '\n' && NoLineBreak(head[..|head| - 1])
    requires !IsSpace(head[0]) && AllSpace(prefix)
    ensures LStrip(Indent(head + rest, prefix)) == head + Indent(rest, prefix)
  {
    assert HasText(head) by { assert 0 <= 0 < |head| && !IsSpace(head[0]); }
    IndentAfterHead(head, rest, prefix);
    StripPadded(prefix, head, Indent(rest, prefix));
  }

  /** Stripping leading whitespace from `prefix + head + x` gives `head + x` when `head` starts with a non-space. */
  lemma StripPadded(prefix: string, head: string, x: string)
    requires head != [] && !IsSpace(head[0]) && AllSpace(prefix)
    ensures LStrip(prefix + head + x) == head + x
  {
    assert prefix + head + x == prefix + (head + x);
    LStripSpacesBefore(prefix, head + x);
  }

  /**
   * For such a text, the lines of the stripped, indented result are its first
   * line unchanged followed by the lines of the rest, each prefixed when it has text.
   */
  lemma IndentStripLines(head: string, rest: string, prefix: string)
    requires |head| >= 1 && head[|head| - 1] == '\n' && NoLineBreak(head[..|head| - 1])
    requires !IsSpace(head[0]) && AllSpace(prefix) && NoLineBreak(prefix)
    ensures SplitLines(head + rest) == [head] + SplitLines(rest)
    ensures SplitLines(LStrip(Indent(head + rest, prefix))) == [head] + PrefixLines(SplitLines(rest), prefix)
  {
    SplitLinesAfterHead(head, rest);
    IndentStripAfterHead(head, rest, prefix);
    SplitLinesAfterHead(head, Indent(rest, prefix));
    IndentLines(rest, prefix);
  }

  /** Indenting never removes text: the result starts with the text's first character or with the prefix. */
  lemma IndentHead(text: string, prefix: string)
    ensures text == [] ==> Indent(text, prefix) == []
    ensures text != [] ==> Indent(text, prefix) != []
    ensures text != [] ==> Indent(text, prefix)[0] == text[0] || (prefix != [] && Indent(text, prefix)[0] == prefix[0])
  {
  }

  /**
   * The lines of the indented text are the lines of the input, each one that
   * has text preceded by the prefix and each whitespace-only one unchanged
   * (provided the prefix itself holds no line boundary).
   */
  lemma {:induction false} IndentLines(text: string, prefix: string)
    requires NoLineBreak(prefix)
    ensures SplitLines(Indent(text, prefix)) == PrefixLines(SplitLines(text), prefix)
    decreases |text|
  {
    if text != [] {
      var k := FirstLineLength(text);
      var line, rest := text[..k], text[k..];
      var tail := Indent(rest, prefix);
      IndentUnfold(text, prefix);
      IndentHead(rest, prefix);
      IndentLines(rest, prefix);
      var pre := if HasText(line) then prefix else "";
      assert PrefixLine(line, prefix) == pre + line;
      FirstLineKept(pre, text, tail);
      SplitLinesCons(pre + line, tail);
      var lines := SplitLines(text);
      assert lines == [line] + SplitLines(rest);
      assert lines[1..] == SplitLines(rest);
    }
  }
}
