# Snippet macro of the drift documentation site, in Dafny

The drift documentation is built with MkDocs and a macro plugin. `docs/mkdocs/main.py`
defines the macro `load_snippet(snippet_name, *args, indent=0)` that documentation pages call
to embed code. It works in these steps:

1. It reads the excerpt files named by `args`. Each is a JSON table from snippet name to text.
   It merges them in order, so a later file overrides an earlier one.
2. It looks the name up. A missing name raises `KeyError`.
3. It strips markup from the text with an `HTMLParser` subclass, `MLStripper`.
4. It picks a rendering from the file paths:
   - any `.dart.excerpt.json` file sends the text to an external highlighter (`npm run highlight`);
   - otherwise any `.drift.excerpt.json` file gives a fenced `sql` block;
   - otherwise it gives a fenced block with no language tag.
5. It indents the result with `textwrap.indent(result, indent * " ")`, then applies `.lstrip()`.
   The effect is that every later line that has a non-whitespace character is indented, while
   the first line and whitespace-only lines are not.

This project models that macro and the parts of Python it relies on:

- `results.dfy` (`Results`): `Option` and `Result`. Exceptions are modelled as `Failure` values.
- `pystr.dfy` (`PyStr`): the Python `str` behaviour the macro uses:
  - `str.isspace`, with CPython's whitespace table;
  - `splitlines(True)`, with all of Python's line boundaries and `"\r\n"` kept as one;
  - `lstrip()`;
  - `sub in s` and `''.join`.
- `textwrap.dfy` (`Textwrap`): `textwrap.indent` with its default predicate. Only lines with a
  non-whitespace character get the prefix.
- `pybytes.dfy` (`PyBytes`): bytes, and `repr` of a `bytes` value, which is how an f-string prints
  one. It also has a reader for such literals.
- `utf8.dfy` (`Utf8`): strict `bytes.decode("utf-8")` and the matching encoder.
- `macros.dfy` (`Macros`): `main.py` itself. This covers `MLStripper` and `strip_tags`, the merge
  loop, the lookup, the mode choice, `markdown_codeblock`, the return-code check of
  `html_codeblock`, the rendering with indentation, and `load_snippet`.

Some inputs are parameters of the model:

- Each excerpt file is given as a `SnippetFile`. It holds the file's full path as a string, which
  is what `str(file)` yields, and its already parsed table.
- The HTML tokenizer inside `HTMLParser.feed` is given as `tokenize`. It returns the chunks the
  tokenizer passes to `handle_data` for a text, in order.
- The highlighter process is given as `run`. It maps an argument list to a `Completed` record
  (`returncode`, `stdout`, `stderr`), the result `subprocess.run` returns.

Two points about what the code does:

- The comment at main.py:72 says the indent goes on every line except the first.
  `textwrap.indent` skips whitespace-only lines, so those lines are not indented either.
  `RenderFencedLines` and `RenderHighlightedLines` state what the code actually does.
- The highlighter's error message prints `stdout` and `stderr` as `bytes` literals (`b'...'`),
  not as decoded text. `FailureMessage` models this exactly.

## Model

| member | source | states |
|---|---|---|
| `Macros.MLStripper.constructor` | docs/mkdocs/main.py:13-18 | a new stripper has received no data and its text buffer is empty |
| `Macros.MLStripper.HandleData` | docs/mkdocs/main.py:20-21 | the chunk is appended at the end of the buffer, and the record of received chunks grows by that chunk |
| `Macros.MLStripper.GetData` | docs/mkdocs/main.py:23-24 | returns the in-order concatenation of every chunk received so far |
| `Macros.StripTags` | docs/mkdocs/main.py:27-30 | the result is exactly the data chunks the tokenizer reports for the input, joined in order |
| `Macros.LastDefining` | docs/mkdocs/main.py:54-56 | the index it gives is the last file whose table defines the key, or -1 when no file defines it |
| `Macros.Merged` | docs/mkdocs/main.py:54-56 | the merged table defines a name exactly when some file defines it; the text is the one from the last such file, so later files win |
| `Macros.MergedKeys` | docs/mkdocs/main.py:54-58 | a name is in the merged table if and only if it is in at least one file's table |
| `Macros.MergeTables` | docs/mkdocs/main.py:53-56 | the `update` loop over the files in argument order builds the merged table |
| `Macros.AnyPathContains` | docs/mkdocs/main.py:62-63 | true exactly when some file path contains the marker as a substring |
| `Macros.SelectMode` | docs/mkdocs/main.py:62-70 | highlighter exactly when some path contains `.dart.excerpt.json`, whether or not a drift file is present; `sql` fence exactly when there is no dart path but some path contains `.drift.excerpt.json`; an untagged fence exactly when neither appears |
| `Macros.MarkdownCodeblock` | docs/mkdocs/main.py:109-110 | three backticks, the tag, a newline, the content, a newline and three backticks; removing the opening fence line and the closing fence from the result gives back `content` |
| `Macros.CodeblockOfReadCodeblock` | docs/mkdocs/main.py:109-110 | any text that reads as a fenced block for `lang` equals `markdown_codeblock` of its content |
| `Macros.HighlightCommand` | docs/mkdocs/main.py:97 | `["npm", "run", "highlight", "--silent", "--", "--input", content]`: the fixed invocation, then the content as one whole argument, the last one |
| `Macros.FailureMessage` | docs/mkdocs/main.py:103-105 | `"Failed to highlight code block: " + repr(stdout) + " " + repr(stderr)`; the message carries the whole captured stdout and the whole stderr, since both read back from it |
| `Macros.CheckHighlight` | docs/mkdocs/main.py:102-106 | a non-zero exit code fails, with a message from which stdout and stderr read back; exit code zero succeeds exactly when stdout is valid UTF-8, the text re-encodes to stdout, and otherwise the failure is a decode error |
| `Macros.HtmlCodeblock` | docs/mkdocs/main.py:92-106 | runs the highlighter on the content. It fails with the highlighter error exactly when the exit code is non-zero, and both streams read back from the message. With exit code zero it succeeds exactly when stdout is valid UTF-8, and then returns the decoded stdout. It fails with nothing else |
| `Macros.Render` | docs/mkdocs/main.py:60-73 | only the highlighter path can fail, and never with a missing-name error; on that path the result fails exactly when the highlighter step fails, with the same error |
| `Macros.RenderFencedUnindented` | docs/mkdocs/main.py:72-73 | with `indent <= 0` (so `indent * " "` is empty), the output is exactly the fenced block |
| `Macros.RenderFencedLines` | docs/mkdocs/main.py:72-73 | on a fenced block, the output's first line is "```"+lang unchanged; it has as many lines as the block; each later line gets `indent` spaces in front when it has text and is unchanged when it is whitespace only |
| `Macros.RenderHighlightedLines` | docs/mkdocs/main.py:70-73 | when the highlighter's HTML opens with a line that starts with a non-space, the output keeps that first line unchanged and has as many lines; each later line gets `indent` spaces in front when it has text and is unchanged when it is whitespace only |
| `Macros.Spaces` | docs/mkdocs/main.py:73 | `indent * " "`: exactly `indent` spaces, and the empty string for every `indent <= 0` |
| `Macros.LoadSnippet` | docs/mkdocs/main.py:40-73 | fails with `KeyError(name)` exactly when no file defines the name; otherwise it renders the markup-stripped text from the merged table in the mode the paths select |
| `PyStr.ConcatAppend` | docs/mkdocs/main.py:21 | joining two lists of chunks is joining their joins |
| `PyStr.SplitLines` | docs/mkdocs/main.py:73 | joining the lines gives the text back; every line ends at its first boundary, with a single boundary character or "\r\n" as terminator, and only the last may lack one; a line ending in "\r" is never followed by one starting with "\n" |
| `PyStr.SplitLinesUnique` | docs/mkdocs/main.py:73 | those properties fix the split: any list of lines that has them and joins to the text is the text's `splitlines(True)` |
| `PyStr.SplitLinesAfterHead` | docs/mkdocs/main.py:73 | a text opening with a line that ends in a newline, and has no other boundary, splits into that line followed by the lines of the rest |
| `PyStr.FirstLineKept` | docs/mkdocs/main.py:73 | putting boundary-free text before a line, and text after it that cannot turn its "\r" into "\r\n", does not move where that line ends |
| `PyStr.LStrip` | docs/mkdocs/main.py:73 | the result is a suffix of the input; everything dropped is whitespace; the result is empty or starts with a non-whitespace character |
| `PyStr.LStripSpacesBefore` | docs/mkdocs/main.py:73 | stripping whitespace placed before a text that starts with a non-space removes exactly that whitespace |
| `PyStr.Contains` | docs/mkdocs/main.py:62-63 | `sub in s` holds exactly when `sub` occurs in `s` at some index |
| `Textwrap.Indent` | docs/mkdocs/main.py:73 | `textwrap.indent(text, prefix)`, which joins the lines of `text` with the prefix put before each line that has text; the empty prefix leaves the text unchanged (the per-line property is `Textwrap.IndentLines`) |
| `Textwrap.IndentLines` | docs/mkdocs/main.py:73 | the lines of `textwrap.indent(text, p)` are the lines of `text`, each one with text preceded by `p` and each whitespace-only one unchanged |
| `Textwrap.IndentStripAfterHead` | docs/mkdocs/main.py:72-73 | when the first line starts with a non-space, indenting and then `lstrip` leave the first line unprefixed and indent the rest |
| `Textwrap.IndentStripLines` | docs/mkdocs/main.py:72-73 | the lines of such a result are the first line unchanged, followed by the prefixed lines of the rest |
| `PyBytes.QuoteFor` | docs/mkdocs/main.py:104 | under the quote `repr` picks, no byte is written as text that starts with that quote, so the literal ends at its closing quote; double quotes are used exactly when the bytes hold a single quote and no double quote |
| `PyBytes.Repr` | docs/mkdocs/main.py:104 | `b` + quote + escaped bytes + quote, as an f-string prints `bytes`; the literal reads back to the same bytes, whatever text follows it |
| `Utf8.DecodeEncode` | docs/mkdocs/main.py:106 | every string decodes from its UTF-8 encoding |
| `Utf8.Decode` | docs/mkdocs/main.py:106 | strict `bytes.decode("utf-8")`, with `None` for `UnicodeDecodeError`; bytes that decode are exactly the encoding of the text they decode to |

## Left out

- JSON parsing and file reading (`json.loads`, `read_text`, main.py:37 and 56) are not modelled.
  Each file's parsed table is an input. A file whose JSON is not an object of strings, or that
  cannot be read, is not modelled.
- Loading `versions.json` into the template environment (`define_env`, main.py:36-38) is not
  modelled. It is file input plus one assignment into the host, with no logic.
- Registering the macro with the host (`@env.macro`) is not modelled.
- Path resolution (`current_dir.parent / arg`, main.py:53) is not modelled. The model takes each
  file's full path string. The substring tests run on that full string, as the source's do.
- HTML tokenising inside `HTMLParser.feed` is not modelled. This includes the settings
  `strict` and `convert_charrefs` (main.py:15-17), and text the parser holds back because
  `close()` is never called. The tokenizer is the parameter `tokenize`. Only the `MLStripper`
  buffer around it is modelled. Its `StringIO` is a string field.
- Launching the highlighter process (main.py:96-101) is not modelled. This includes `npm`, the
  working directory and the pipes. The process is the parameter `run`, applied to the exact
  argument list.
- Macros.HtmlCodeblock: errors that `subprocess.run` raises before any process starts are not
  modelled. These are `ValueError` for a content holding a NUL character, and `OSError` when the
  content argument is longer than the operating system allows. They also include
  `FileNotFoundError` when `npm` is not on the search path, and the error raised when the working
  directory does not exist. The model's `run` always yields a `Completed` record, so
  `HtmlCodeblock` never fails with any of these errors.
- Lone surrogates are not modelled. A Python `str`, and so a snippet text loaded from JSON, can
  hold a lone surrogate code point. A Dafny `char` cannot, so such texts are outside the model.
- Comments 75-89 of main.py are dead code that is commented out, so they are not modelled.
- docs/mkdocs/index.js is not part of this model. It is the command-line wrapper around the
  highlighter library.
- moor_ffi/ios/Classes/SwiftMoorFfiPlugin.swift is not part of this model. It is platform-channel
  plumbing that is unrelated to the macro.
