/**
 * The documentation macro `load_snippet` and its helpers: merge the snippet
 * tables of several excerpt files, look a snippet up, strip its markup,
 * render it as a fenced Markdown block or as highlighted HTML, and indent
 * every line but the first.
 *
 * What lies outside the macro is a parameter: the parsed JSON table and the
 * full path of each file, the data chunks the HTML tokenizer reports for a
 * text, and the outcome of running the highlighter process on an argument list.
 */
module Macros {
  import opened Results
  import opened PyStr
  import opened PyBytes
  import opened Textwrap
  import Utf8

  /** One excerpt file: its full path and the snippet table its JSON holds. */
  datatype SnippetFile = SnippetFile(path: string, table: map<string, string>)

  /** The exceptions the macro lets escape. */
  datatype Error =
    | KeyError(key: string)            // the snippet name is in no table
    | HighlightFailed(message: string) // the highlighter exited with a non-zero code
    | UnicodeDecodeError               // the highlighter's output is not UTF-8

  /** How a snippet is rendered: highlighted HTML, or a fenced block with a language tag. */
  datatype Mode = Highlighted | Fenced(lang: string)

  /** What `subprocess.run` hands back. */
  datatype Completed = Completed(returncode: int, stdout: seq<byte>, stderr: seq<byte>)

  const DartMarker: string := ".dart.excerpt.json"
  const DriftMarker: string := ".drift.excerpt.json"

  // ---------------------------------------------------------------------------
  // MLStripper: the text buffer of the markup stripper
  // ---------------------------------------------------------------------------

  /**
   * The HTML parser subclass that keeps only text. The tokenizer it inherits is
   * not modelled; what is modelled is the buffer its `handle_data` callback fills.
   */
  class MLStripper {
    var text: string
    /** Every chunk handed to HandleData so far, in order. */
    ghost var received: seq<string>

    ghost predicate Valid()
      reads this
    {
      text == Concat(received)
    }

    constructor ()
      ensures Valid() && received == [] && text == []
    {
      text := [];
      received := [];
    }

    method HandleData(d: string)
      requires Valid()
      modifies this
      ensures Valid() && received == old(received) + [d]
      ensures text == old(text) + d
    {
      ConcatSnoc(received, d);
      text := text + d;
      received := received + [d];
    }

    method GetData() returns (r: string)
      requires Valid()
      ensures r == Concat(received)
    {
      r := text;
    }
  }

  /**
   * `strip_tags(html)`: feeds `html` to a fresh stripper and returns its text.
   * `tokenize(html)` is the sequence of data chunks the tokenizer reports.
   */
  method StripTags(html: string, tokenize: string -> seq<string>) returns (r: string)
    ensures r == Concat(tokenize(html))
  {
    var s := new MLStripper();
    var chunks := tokenize(html);
    var i := 0;
    while i < |chunks|
      invariant 0 <= i <= |chunks|
      invariant s.Valid() && s.received == chunks[..i]
    {
      assert chunks[..i + 1] == chunks[..i] + [chunks[i]];
      s.HandleData(chunks[i]);
      i := i + 1;
    }
    assert chunks[..i] == chunks;
    r := s.GetData();
  }

  // ---------------------------------------------------------------------------
  // Merging the snippet tables and looking a snippet up
  // ---------------------------------------------------------------------------

  /** Index of the last file whose table defines `key`, or -1 when none does. */
  function LastDefining(files: seq<SnippetFile>, key: string): (r: int)
    ensures -1 <= r < |files|
    ensures r >= 0 ==> key in files[r].table
    ensures forall j :: r < j < |files| ==> key !in files[j].table
  {
    if files == [] then -1
    else if key in files[|files| - 1].table then |files| - 1
    else LastDefining(files[..|files| - 1], key)
  }

  /**
   * The table `data` holds after `data.update(...)` with every file in order:
   * a name is defined when some file defines it, and its text is that of the
   * last file that does.
   */
  function Merged(files: seq<SnippetFile>): (data: map<string, string>)
    ensures forall k :: k in data <==> LastDefining(files, k) >= 0
    ensures forall k :: k in data ==> data[k] == files[LastDefining(files, k)].table[k]
  {
    if files == [] then map[]
    else
      var init, last := files[..|files| - 1], files[|files| - 1].table;
      assert forall k :: k !in last ==> LastDefining(files, k) == LastDefining(init, k);
      Merged(init) + last
  }

  /** A name is in the merged table exactly when some file defines it. */
  lemma MergedKeys(files: seq<SnippetFile>, key: string)
    ensures key in Merged(files) <==> exists i :: 0 <= i < |files| && key in files[i].table
  {
  }

  /** The merge loop of `load_snippet`. */
  method MergeTables(files: seq<SnippetFile>) returns (data: map<string, string>)
    ensures data == Merged(files)
  {
    data := map[];
    var i := 0;
    while i < |files|
      invariant 0 <= i <= |files|
      invariant data == Merged(files[..i])
    {
      assert files[..i + 1][..i] == files[..i];
      data := data + files[i].table;
      i := i + 1;
    }
    assert files[..i] == files;
  }

  // ---------------------------------------------------------------------------
  // Choosing the rendering mode
  // ---------------------------------------------------------------------------

  /** `any(marker in str(file) for file in files)`. */
  function AnyPathContains(files: seq<SnippetFile>, marker: string): (r: bool)
    ensures r <==> exists i :: 0 <= i < |files| && Contains(files[i].path, marker)
  {
    if files == [] then false
    else
      var r := Contains(files[0].path, marker) || AnyPathContains(files[1..], marker);
      assert forall i :: 0 < i < |files| ==> files[i] == files[1..][i - 1];
      r
  }

  /**
   * A Dart excerpt anywhere among the files selects the highlighter, whether or
   * not a Drift excerpt is there too; otherwise a Drift excerpt selects an `sql`
   * fenced block; otherwise the fence carries no language tag.
   */
  function SelectMode(files: seq<SnippetFile>): (m: Mode)
    ensures m == Highlighted <==> exists i :: 0 <= i < |files| && Contains(files[i].path, DartMarker)
    ensures m == Fenced("sql") <==>
      (forall i :: 0 <= i < |files| ==> !Contains(files[i].path, DartMarker))
      && (exists i :: 0 <= i < |files| && Contains(files[i].path, DriftMarker))
    ensures m == Fenced("") <==>
      forall i :: 0 <= i < |files| ==> !Contains(files[i].path, DartMarker) && !Contains(files[i].path, DriftMarker)
  {
    var isDart := AnyPathContains(files, DartMarker);
    var isDrift := AnyPathContains(files, DriftMarker);
    if !isDart then
      if isDrift then Fenced("sql") else Fenced("")
    else Highlighted
  }

  // ---------------------------------------------------------------------------
  // Fenced Markdown blocks
  // ---------------------------------------------------------------------------

  /** `markdown_codeblock(content, lang)`: taking the fences off gives back `content`. */
  function MarkdownCodeblock(content: string, lang: string): (block: string)
    ensures ReadCodeblock(block, lang) == Some(content)
  {
    "```" + lang + "\n" + content + "\n```"
  }

  /** Takes a fenced block for `lang` apart again; `None` when `block` is not one. */
  function ReadCodeblock(block: string, lang: string): Option<string> {
    var open := "```" + lang + "\n";
    if |block| >= |open| + 4 && block[..|open|] == open && block[|block| - 4..] == "\n```"
    then Some(block[|open|..|block| - 4])
    else None
  }

  /** Every text that reads as a fenced block is the rendering of what it reads as. */
  lemma CodeblockOfReadCodeblock(block: string, lang: string)
    requires ReadCodeblock(block, lang).Some?
    ensures MarkdownCodeblock(ReadCodeblock(block, lang).value, lang) == block
  {
  }

  // ---------------------------------------------------------------------------
  // The highlighter
  // ---------------------------------------------------------------------------

  const HighlightArgs: seq<string> := ["npm", "run", "highlight", "--silent", "--", "--input"]

  /**
   * The argument list `html_codeblock` runs: the fixed `npm` invocation, then
   * the content as one whole argument, the last one.
   */
  function HighlightCommand(content: string): (argv: seq<string>)
    ensures |argv| == |HighlightArgs| + 1
    ensures argv[..|HighlightArgs|] == HighlightArgs && argv[|HighlightArgs|] == content
  {
    HighlightArgs + [content]
  }

  const FailurePrefix: string := "Failed to highlight code block: "

  /**
   * The exception message: both captured streams, each printed as a bytes
   * literal. It carries them in full: both read back from it.
   */
  function FailureMessage(stdout: seq<byte>, stderr: seq<byte>): (m: string)
    ensures ReadFailureMessage(m) == Some((stdout, stderr))
  {
    var n := |FailurePrefix|;
    var rest := " " + Repr(stderr);
    var m := FailurePrefix + Repr(stdout) + rest;
    assert m[..n] == FailurePrefix;
    assert m[n..] == Repr(stdout) + rest;
    assert rest[1..] == Repr(stderr) + [];
    m
  }

  /** Recovers both captured streams from a failure message. */
  function ReadFailureMessage(message: string): Option<(seq<byte>, seq<byte>)> {
    var n := |FailurePrefix|;
    if |message| < n || message[..n] != FailurePrefix then None
    else
      match ReadRepr(message[n..])
      case None => None
      case Some((out, rest)) =>
        if rest == [] || rest[0] != ' ' then None
        else
          match ReadRepr(rest[1..])
          case None => None
          case Some((err, tail)) => if tail == [] then Some((out, err)) else None
  }

  /**
   * The check on the finished process: a non-zero exit code raises an error
   * whose message holds both captured streams; exit code zero yields stdout
   * decoded as UTF-8, or a decoding error when it is not UTF-8.
   */
  function CheckHighlight(p: Completed): (r: Result<string, Error>)
    ensures p.returncode != 0 ==>
      r.Failure? && r.error.HighlightFailed? && ReadFailureMessage(r.error.message) == Some((p.stdout, p.stderr))
    ensures p.returncode == 0 ==> (r.Success? <==> Utf8.Decode(p.stdout).Some?)
    ensures p.returncode == 0 && r.Success? ==> Utf8.Decode(p.stdout) == Some(r.value) && Utf8.Encode(r.value) == p.stdout
    ensures p.returncode == 0 && r.Failure? ==> r.error == UnicodeDecodeError
  {
    if p.returncode != 0 then
      Failure(HighlightFailed(FailureMessage(p.stdout, p.stderr)))
    else
      match Utf8.Decode(p.stdout)
      case None => Failure(UnicodeDecodeError)
      case Some(s) => Success(s)
  }

  /**
   * `html_codeblock(content)`, with `run` standing for the process launch: it
   * fails with the highlighter's error exactly when the exit code is non-zero,
   * and otherwise returns the process's stdout decoded as UTF-8.
   */
  function HtmlCodeblock(content: string, run: seq<string> -> Completed): (r: Result<string, Error>)
    ensures var p := run(HighlightCommand(content));
      && (r.Failure? && r.error.HighlightFailed? <==> p.returncode != 0)
      && (p.returncode != 0 ==> ReadFailureMessage(r.error.message) == Some((p.stdout, p.stderr)))
      && (p.returncode == 0 ==> (r.Success? <==> Utf8.Decode(p.stdout).Some?))
      && (r.Success? ==> Utf8.Decode(p.stdout) == Some(r.value) && Utf8.Encode(r.value) == p.stdout)
      && (r.Failure? ==> r.error.HighlightFailed? || r.error == UnicodeDecodeError)
  {
    CheckHighlight(run(HighlightCommand(content)))
  }

  // ---------------------------------------------------------------------------
  // Rendering and indentation
  // ---------------------------------------------------------------------------

  /** `n * " "` in Python: `n` spaces, and empty for every `n <= 0`. */
  function Spaces(n: int): (s: string)
    ensures |s| == if n <= 0 then 0 else n
    ensures forall i :: 0 <= i < |s| ==> s[i] == ' '
    ensures AllSpace(s) && NoLineBreak(s)
  {
    if n <= 0 then [] else seq(n, _ => ' ')
  }

  /**
   * Renders `content` in the chosen mode, then `indent_text(result, indent * " ").lstrip()`.
   * Only the highlighter can fail, never with a missing-name error, and on the
   * highlighted path exactly when the highlighter step fails, with its error.
   */
  function Render(mode: Mode, content: string, indent: int, run: seq<string> -> Completed): (r: Result<string, Error>)
    ensures r.Failure? ==> mode == Highlighted && !r.error.KeyError?
    ensures mode == Highlighted ==>
      (r.Failure? <==> HtmlCodeblock(content, run).Failure?)
      && (r.Failure? ==> r.error == HtmlCodeblock(content, run).error)
  {
    var block := if mode.Fenced? then Success(MarkdownCodeblock(content, mode.lang)) else HtmlCodeblock(content, run);
    match block
    case Failure(e) => Failure(e)
    case Success(b) => Success(LStrip(Indent(b, Spaces(indent))))
  }

  /** With no indentation a fenced block comes out exactly as rendered. */
  lemma RenderFencedUnindented(lang: string, content: string, indent: int, run: seq<string> -> Completed)
    requires indent <= 0
    ensures Render(Fenced(lang), content, indent, run) == Success(MarkdownCodeblock(content, lang))
  {
    var block := MarkdownCodeblock(content, lang);
    LStripSpacesBefore([], block);
    assert [] + block == block;
  }

  /**
   * With indentation `indent`, a fenced block keeps its first line ("```" and
   * the tag) exactly, and every later line gets `indent` spaces in front when it
   * has text and stays unchanged when it is whitespace only.
   */
  lemma RenderFencedLines(lang: string, content: string, indent: int, run: seq<string> -> Completed)
    requires NoLineBreak(lang)
    ensures Render(Fenced(lang), content, indent, run).Success?
    ensures var out := SplitLines(Render(Fenced(lang), content, indent, run).value);
            var lines := SplitLines(MarkdownCodeblock(content, lang));
            && |out| == |lines| >= 2
            && out[0] == lines[0] == "```" + lang + "\n"
            && forall i :: 1 <= i < |lines| ==> out[i] == PrefixLine(lines[i], Spaces(indent))
  {
    var head := "```" + lang + "\n";
    var rest := content + "\n```";
    assert MarkdownCodeblock(content, lang) == head + rest;
    assert head[..|head| - 1] == "```" + lang;
    assert !IsSpace(head[0]);
    IndentStripLines(head, rest, Spaces(indent));
    assert rest != [];
  }

  /**
   * On the highlighted path, when the highlighter's HTML opens with a whole line
   * that starts with a non-space, that line comes out unchanged, and every later
   * line gets `indent` spaces in front when it has text and stays unchanged
   * when it is whitespace only.
   */
  lemma RenderHighlightedLines(content: string, indent: int, run: seq<string> -> Completed, head: string, rest: string)
    requires HtmlCodeblock(content, run) == Success(head + rest)
    requires |head| >= 1 && head[|head| - 1] == '\n' && NoLineBreak(head[..|head| - 1]) && !IsSpace(head[0])
    ensures Render(Highlighted, content, indent, run).Success?
    ensures var out := SplitLines(Render(Highlighted, content, indent, run).value);
            var lines := SplitLines(head + rest);
            && |out| == |lines| >= 1
            && out[0] == lines[0] == head
            && forall i :: 1 <= i < |lines| ==> out[i] == PrefixLine(lines[i], Spaces(indent))
  {
    IndentStripLines(head, rest, Spaces(indent));
  }

  // ---------------------------------------------------------------------------
  // The macro
  // ---------------------------------------------------------------------------

  /**
   * `load_snippet(name, *args, indent=indent)`, where `files` are the excerpt
   * files named by `args`, in order. A name no file defines raises `KeyError`
   * and nothing else does; otherwise the text of the last file that defines the
   * name is stripped of markup and rendered in the mode the file paths select.
   */
  method LoadSnippet(name: string, files: seq<SnippetFile>, indent: int,
                     tokenize: string -> seq<string>, run: seq<string> -> Completed)
    returns (r: Result<string, Error>)
    ensures r == Failure(KeyError(name)) <==> forall i :: 0 <= i < |files| ==> name !in files[i].table
    ensures name in Merged(files) ==>
      r == Render(SelectMode(files), Concat(tokenize(Merged(files)[name])), indent, run)
  {
    var data := MergeTables(files);
    MergedKeys(files, name);
    if name !in data {
      return Failure(KeyError(name));
    }
    var content := StripTags(data[name], tokenize);
    var mode := SelectMode(files);
    r := Render(mode, content, indent, run);
  }
}
