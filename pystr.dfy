/**
 * The parts of Python's `str` semantics that the snippet macro relies on:
 * `str.isspace`, `str.splitlines(keepends=True)`, `str.lstrip()`, the
 * substring test `sub in s` and `''.join`. Strings are sequences of
 * Unicode scalar values; unlike a Python `str`, they cannot hold a lone
 * surrogate code point.
 */
module PyStr {

  /** CPython's whitespace table (`str.isspace`, also used by `strip`/`lstrip`). */
  predicate IsSpace(c: char) {
    ('\t' <= c <= '\r') || ('\U{1c}' <= c <= '\U{1f}') || c == ' '
    || c == '\U{85}' || c == '\U{a0}' || c == '\U{1680}'
    || ('\U{2000}' <= c <= '\U{200a}') || c == '\U{2028}' || c == '\U{2029}'
    || c == '\U{202f}' || c == '\U{205f}' || c == '\U{3000}'
  }

  /** The line boundaries recognised by `str.splitlines` ("\r\n" is handled by FirstLineLength). */
  predicate IsLineBreak(c: char) {
    c == '\n' || c == '\r' || c == '\U{0b}' || c == '\U{0c}'
    || ('\U{1c}' <= c <= '\U{1e}') || c == '\U{85}' || c == '\U{2028}' || c == '\U{2029}'
  }

  predicate NoLineBreak(s: string) {
    forall i :: 0 <= i < |s| ==> !IsLineBreak(s[i])
  }

  predicate AllSpace(s: string) {
    forall i :: 0 <= i < |s| ==> IsSpace(s[i])
  }

  /** `''.join(parts)`. */
  function Concat(parts: seq<string>): string {
    if parts == [] then [] else parts[0] + Concat(parts[1..])
  }

  /** Joining is a monoid homomorphism: joining two lists is joining their joins. */
  lemma {:induction false} ConcatAppend(a: seq<string>, b: seq<string>)
    ensures Concat(a + b) == Concat(a) + Concat(b)
  {
    if a == [] {
      assert a + b == b;
    } else {
      assert (a + b)[1..] == a[1..] + b;
      ConcatAppend(a[1..], b);
    }
  }

  /** Appending one part at the end of the list appends it to the joined text. */
  lemma ConcatSnoc(parts: seq<string>, d: string)
    ensures Concat(parts + [d]) == Concat(parts) + d
  {
    ConcatAppend(parts, [d]);
    assert Concat([d]) == d + Concat([]);
  }

  /** Index of the first line-boundary character of `s`, or `|s|` when there is none. */
  function BreakIndex(s: string): (r: nat)
    ensures r <= |s|
    ensures forall i :: 0 <= i < r ==> !IsLineBreak(s[i])
    ensures r < |s| ==> IsLineBreak(s[r])
  {
    if s == [] then 0
    else if IsLineBreak(s[0]) then 0
    else 1 + BreakIndex(s[1..])
  }

  /** The first boundary of a text is fixed by its characters alone. */
  lemma BreakIndexIs(s: string, i: nat)
    requires i <= |s|
    requires forall j :: 0 <= j < i ==> !IsLineBreak(s[j])
    requires i < |s| ==> IsLineBreak(s[i])
    ensures BreakIndex(s) == i
  {
  }

  /**
   * Length of the first line of `s` including its terminator, as `splitlines(True)`
   * cuts it: a "\r" directly followed by "\n" ends the line after both.
   */
  function FirstLineLength(s: string): (k: nat)
    requires s != []
    ensures 1 <= k <= |s|
  {
    var i := BreakIndex(s);
    if i == |s| then |s|
    else if s[i] == '\r' && i + 1 < |s| && s[i + 1] == '\n' then i + 2
    else i + 1
  }

  /**
   * `l` is one whole line: its first boundary is its terminator, which is a
   * single boundary character or "\r\n".
   */
  predicate EndsLine(l: string) {
    var b := BreakIndex(l);
    b + 1 == |l| || (b + 2 == |l| && l[b] == '\r' && l[b + 1] == '\n')
  }

  /** `l` is a line that may lack a terminator (the last line of a text). */
  predicate LastLine(l: string) {
    l != [] && (BreakIndex(l) == |l| || EndsLine(l))
  }

  /** `l` ends in a lone "\r", which a following "\n" would have joined. */
  predicate EndsInCR(l: string) {
    l != [] && l[|l| - 1] == '\r'
  }

  /** `l` opens with "\n". */
  predicate StartsWithLF(l: string) {
    l != [] && l[0] == '\n'
  }

  /** `s.splitlines(True)`: the lines of `s`, each with its line ending kept. */
  function SplitLines(s: string): (lines: seq<string>)
    ensures Concat(lines) == s
    ensures forall i :: 0 <= i < |lines| ==> LastLine(lines[i])
    ensures forall i :: 0 <= i < |lines| - 1 ==> EndsLine(lines[i])
    ensures forall i :: 0 <= i < |lines| - 1 ==> EndsInCR(lines[i]) ==> !StartsWithLF(lines[i + 1])
    decreases |s|
  {
    if s == [] then []
    else
      var k := FirstLineLength(s);
      var b := BreakIndex(s);
      assert s[..k] + s[k..] == s;
      assert b < |s| ==> BreakIndex(s[..k]) == b by {
        if b < |s| { BreakIndexIs(s[..k], b); }
      }
      var rest := SplitLines(s[k..]);
      assert rest != [] ==> s[k] == rest[0][0];
      [s[..k]] + rest
  }

  /**
   * The cut `splitlines(True)` makes is the only one with these properties:
   * any list of lines that joins to `s`, whose lines all end at their first
   * boundary, and that never separates "\r" from a following "\n", is
   * `SplitLines(s)`.
   */
  lemma {:induction false} SplitLinesUnique(s: string, lines: seq<string>)
    requires Concat(lines) == s
    requires forall i :: 0 <= i < |lines| ==> LastLine(lines[i])
    requires forall i :: 0 <= i < |lines| - 1 ==> EndsLine(lines[i])
    requires forall i :: 0 <= i < |lines| - 1 ==> EndsInCR(lines[i]) ==> !StartsWithLF(lines[i + 1])
    ensures lines == SplitLines(s)
  {
    if lines != [] {
      var l := lines[0];
      var tail := Concat(lines[1..]);
      assert s == l + tail;
      var b := BreakIndex(l);
      if b == |l| {
        assert |lines| == 1;
        assert tail == [];
        assert s == l;
        BreakIndexIs(s, b);
        assert FirstLineLength(s) == |l|;
      } else {
        assert forall j :: 0 <= j <= b ==> s[j] == l[j];
        BreakIndexIs(s, b);
        if b + 1 == |l| && l[b] == '\r' && b + 1 < |s| {
          assert |lines| > 1 && lines[1] != [];
          assert Concat(lines[1..]) == lines[1] + Concat(lines[2..]);
          assert s[b + 1] == lines[1][0];
          assert EndsInCR(lines[0]);
        }
        if b + 2 == |l| {
          assert s[b + 1] == l[b + 1];
        }
        assert FirstLineLength(s) == |l|;
      }
      assert s[..|l|] == l && s[|l|..] == tail;
      SplitLinesUnique(tail, lines[1..]);
    }
  }

  /**
   * A text whose first line is exactly `head` (a line ending in "\n" with no
   * other boundary) splits into `head` followed by the lines of the rest.
   */
  lemma SplitLinesAfterHead(head: string, rest: string)
    requires |head| >= 1 && head[|head| - 1] == '\n' && NoLineBreak(head[..|head| - 1])
    ensures SplitLines(head + rest) == [head] + SplitLines(rest)
  {
    var s := head + rest;
    var n := |head| - 1;
    assert forall j :: 0 <= j < n ==> s[j] == head[..n][j];
    BreakIndexIs(s, n);
    assert FirstLineLength(s) == |head|;
    assert s[..|head|] == head && s[|head|..] == rest;
  }

  /**
   * The first line of `text` stays a line of its own when other text without a
   * line boundary is put in front of it and `tail` is put after it, as long as
   * `tail` cannot complete a "\r" that ends the line into "\r\n".
   */
  lemma FirstLineKept(pre: string, text: string, tail: string)
    requires NoLineBreak(pre) && text != []
    requires FirstLineLength(text) == |text| ==> tail == []
    requires tail != [] && tail[0] == '\n' ==> text[FirstLineLength(text)] == '\n'
    ensures FirstLineLength(pre + text[..FirstLineLength(text)] + tail) == |pre| + FirstLineLength(text)
  {
    var k := FirstLineLength(text);
    var b := BreakIndex(text);
    var s := pre + text[..k] + tail;
    assert forall j :: 0 <= j < |pre| ==> s[j] == pre[j];
    assert forall j :: 0 <= j < k ==> s[|pre| + j] == text[j];
    BreakIndexIs(s, |pre| + b);
    if k == b + 1 && k < |text| {
      assert tail != [] ==> s[|pre| + k] == tail[0];
    }
  }

  /** A text that starts with a whole line splits into that line and the lines of the rest. */
  lemma SplitLinesCons(line: string, tail: string)
    requires line != [] && FirstLineLength(line + tail) == |line|
    ensures SplitLines(line + tail) == [line] + SplitLines(tail)
  {
  }

  /** `s.lstrip()`: `s` without its leading whitespace. */
  function LStrip(s: string): (r: string)
    ensures |r| <= |s| && r == s[|s| - |r|..]
    ensures AllSpace(s[..|s| - |r|])
    ensures r == [] || !IsSpace(r[0])
  {
    if s != [] && IsSpace(s[0]) then LStrip(s[1..]) else s
  }

  /** Stripping whitespace in front of a text that starts with a non-space removes exactly that whitespace. */
  lemma LStripSpacesBefore(pad: string, s: string)
    requires AllSpace(pad)
    requires s != [] && !IsSpace(s[0])
    ensures LStrip(pad + s) == s
  {
    var t := pad + s;
    var r := LStrip(t);
    var d := |t| - |r|;
    assert !IsSpace(t[|pad|]);
    assert forall j :: 0 <= j < |pad| ==> IsSpace(t[j]);
    assert forall j :: 0 <= j < d ==> IsSpace(t[j]) by {
      assert forall j :: 0 <= j < d ==> t[..d][j] == t[j];
    }
  }

  /** `sub` occurs in `s` starting at index `i`. */
  predicate OccursAt(s: string, sub: string, i: int) {
    0 <= i && i + |sub| <= |s| && s[i..i + |sub|] == sub
  }

  /** Python's `sub in s`. */
  function Contains(s: string, sub: string): (r: bool)
    ensures r <==> exists i :: OccursAt(s, sub, i)
    decreases |s|
  {
    if sub <= s then
      assert OccursAt(s, sub, 0);
      true
    else if s == [] then
      false
    else
      var r := Contains(s[1..], sub);
      assert forall i :: OccursAt(s[1..], sub, i) ==> OccursAt(s, sub, i + 1);
      assert forall i :: OccursAt(s, sub, i) && i > 0 ==> OccursAt(s[1..], sub, i - 1);
      r
  }
}
