# canigtfo, modelled in Dafny

`canigtfo.py` takes a list of file paths. It reads them from standard input when
that is not a terminal, and then from the command-line arguments. For each path it
requests the GTFOBins detail page named after the path's last component. When the
request answers 200, it prints the page's headings, paragraphs and code blocks.
Headings that name the SUID or SGID technique are meant to be annotated when the
local file really has that mode bit. The SGID annotation fails as written (see
"## Findings"); the model renders the intended annotation.

This project models that logic:

- `Text` (`text.dfy`): the Python string operations the script uses. These are
  `str.strip()`, `sub in s`, `str.split("/")`, `str.splitlines()` and `"".join`.
  Each has a partner lemma: split/join round trips, strip as dropping only
  whitespace on either side, and substring search as "occurs at some index".
- `Paths` (`paths.dfy`): the candidate list (piped lines, then `argv[1:]`), the
  basename `path.split("/")[-1]` and the detail URL `ENDPOINT + basename + "/"`.
- `Render` (`render.dfy`): the element stream found by
  `find_all(["h2", "h3", "p", "pre", "code"])` is a sequence of `Element` values.
  `RenderElements` and `RenderParagraph` are the script's two rendering loops, written as
  methods. Each is proved equal to a specification function (`Rendered`,
  `ParagraphText`), and the lemmas state what the script promises about those
  functions. The file's metadata is a `FileInfo` record: whether it exists, its mode
  as a `bv32`, and its owner and group names.
- `Canigtfo` (`canigtfo.dfy`): the per-path loop. `Run` collects the candidates and
  handles them in order. The HTTP request is a function `fetch` from URL to
  `Page(status, elements)`. The file system is a function `stat` from path to
  `FileInfo`. The result is the sequence of reports the script prints.
- `Wrappers` (`wrappers.dfy`): `Option` and `Result`.

Colours are dropped, so an output line is the text the script puts inside
`colored(...)`.

Points of the code the model keeps exactly:

- Headings use `if`/`elif`. A heading that names both techniques, for a file with
  both bits, gets only the SUID annotation.
- The annotations are `" - ENABLED with owner "` and `" - ENABLED with owners "`.
- The URL is `ENDPOINT + basename + "/"`, where `ENDPOINT` already ends in `/`.

## Model

| member | source | states |
|---|---|---|
| `Text.IsSpace` | canigtfo.py:62 | definition: the ASCII characters for which `str.isspace()` holds, which `strip()` removes: space, 9 to 13 and 28 to 31 |
| `Text.Strip` | canigtfo.py:62 | the stripped string is no longer than the input and neither starts nor ends with whitespace |
| `Text.StripDropsOnlySpace` | canigtfo.py:62 | everything `strip()` drops, on both sides of the window, is whitespace |
| `Text.StripEmptyIff` | canigtfo.py:62 | a line strips to `""` exactly when every character in it is whitespace |
| `Text.Contains` | canigtfo.py:39-41 | definition: `sub in s`, tried at the front of `s` and then at each later position |
| `Text.ContainsIffOccurs` | canigtfo.py:39-41 | `sub in s` holds exactly when `sub` occurs in `s` at some index |
| `Text.SplitOn` | canigtfo.py:25 | `split` gives at least one piece, and no piece contains the separator |
| `Text.JoinSplit` | canigtfo.py:25 | joining the pieces of a split with the separator gives back the string |
| `Text.SplitJoin` | canigtfo.py:25 | splitting a join of separator-free pieces gives back those pieces |
| `Text.SplitOnFree` | canigtfo.py:25 | a string without the separator splits into itself alone |
| `Text.SplitOnAround` | canigtfo.py:25 | splitting at a separator splits the two sides independently |
| `Text.SplitLines` | canigtfo.py:17 | no line produced by `splitlines()` contains a newline |
| `Text.SplitLinesRoundTrip` | canigtfo.py:17 | text that is empty or ends in a newline is exactly its lines, each followed by a newline; any other text is its lines joined by newlines, so a final unterminated line is still a candidate |
| `Text.SplitOnLastEmpty` | canigtfo.py:17 | the last piece of a split is empty exactly when the text is empty or ends with the separator, which is exactly when `splitlines()` drops that empty last piece |
| `Text.Terminated` | canigtfo.py:61-62 | definition: each line followed by `"\n"`, joined in order |
| `Text.SplitLinesTerminated` | canigtfo.py:61-63 | newline-terminated lines split back into exactly those lines |
| `Text.Concat` | canigtfo.py:55 | definition: `"".join(parts)`, the parts in order with nothing between them |
| `Text.ConcatAppend` | canigtfo.py:55 | `"".join` of two runs of parts is the join of the first followed by the join of the second |
| `Paths.PipedPaths` | canigtfo.py:16-17 | definition: no lines when stdin is a terminal, else the `splitlines()` of what it reads |
| `Paths.Arguments` | canigtfo.py:19-20 | definition: `argv[1:]` when there is more than the program name, else nothing |
| `Paths.CollectCandidates` | canigtfo.py:14-20 | the candidates are the piped lines, in order, followed by `argv[1:]`, in order; with a terminal on stdin, only `argv[1:]` |
| `Paths.Basename` | canigtfo.py:25 | the last component contains no `/` |
| `Paths.BasenameIsFinalComponent` | canigtfo.py:25 | the last component ends the path, and unless it is the whole path a `/` comes right before it, so it is the longest `/`-free suffix |
| `Paths.BasenameOfPlainName` | canigtfo.py:25 | a path without `/` is used unchanged, and taking the last component twice changes nothing |
| `Paths.DetailUrl` | canigtfo.py:25 | definition: `ENDPOINT`, the path's last component, then `/` |
| `Paths.DetailUrlShape` | canigtfo.py:25 | the URL is `ENDPOINT`, then the last component, then a final `/`, and the component can be read back from between them |
| `Paths.DetailUrlIdentifiesName` | canigtfo.py:25 | two paths request the same URL exactly when their last components agree; a plain name gives `ENDPOINT + name + "/"` |
| `Render.StrippedText` | canigtfo.py:39-44 | `get_text(strip=True)` neither starts nor ends with whitespace |
| `Render.StrippedTextAppend` | canigtfo.py:54 | `get_text(strip=True)` of two runs of strings is the text of the first followed by that of the second |
| `Render.StrippedTextOfOne` | canigtfo.py:54 | a single string reads as that string stripped |
| `Render.SuidApplies` | canigtfo.py:39 | definition: the heading contains `SUID`, the file exists, and its mode has bit 0o4000 |
| `Render.SgidApplies` | canigtfo.py:41 | definition: the heading contains `SGID`, the file exists, and its mode has bit 0o2000 |
| `Render.SuidNote` | canigtfo.py:40 | definition: `" - ENABLED with owner "` followed by the owner's name |
| `Render.SgidNote` | canigtfo.py:42 | definition: `" - ENABLED with owners "` followed by the group's name |
| `Render.HeadingLine` | canigtfo.py:37-44 | the heading text comes first unchanged. A suffix is added exactly when the SUID or SGID condition holds, never for a missing file, and only for a heading naming SUID or SGID |
| `Render.SuidTakesPrecedence` | canigtfo.py:39-40 | when the SUID condition holds, the line is the text plus `" - ENABLED with owner " + owner`, even if the SGID condition holds too |
| `Render.SgidAnnotation` | canigtfo.py:41-42 | the SGID suffix with the group name is used when SUID does not apply and SGID does, and only then does a heading that SUID leaves alone change |
| `Render.HeadingLineAsWritten` | canigtfo.py:41-42 | the heading rule as written raises exactly on the SGID branch, and otherwise agrees with `HeadingLine` |
| `Render.SgidHeadingRaises` | canigtfo.py:42 | for an SGID heading and a file of mode 0o102755, the code as written raises; the corrected rule prints the group annotation |
| `Render.ChildText` | canigtfo.py:50-54 | definition: inline code gives `" " + get_text() + " "`, any other child its `get_text(strip=True)` |
| `Render.ChildTexts` | canigtfo.py:49-54 | definition: the `text_parts` list, one contribution per child, in child order |
| `Render.ParagraphText` | canigtfo.py:49-55 | definition: the children's contributions, in order, joined with `""` |
| `Render.ParagraphTextAppend` | canigtfo.py:48-55 | a paragraph's line is the in-order concatenation of what its children contribute |
| `Render.ParagraphOfOneChild` | canigtfo.py:50-54 | inline code contributes `" " + text + " "`, any other tag child its `get_text(strip=True)`, and a text child its stripped text |
| `Render.RenderParagraph` | canigtfo.py:48-55 | the loop over children, followed by the join, yields the paragraph's line |
| `Render.Kept` | canigtfo.py:62 | definition: the test `line.strip() != ""` |
| `Render.NonBlank` | canigtfo.py:62 | definition: the lines whose `strip()` is not `""`, in their order |
| `Render.NonBlankSound` | canigtfo.py:61-63 | the filter keeps no more lines than it gets, and each kept line is an input line that does not strip to `""` |
| `Render.NonBlankIffNotAllSpace` | canigtfo.py:61-63 | a line is kept exactly when it has a non-whitespace character |
| `Render.NonBlankAppend` | canigtfo.py:61-63 | kept lines keep their relative order |
| `Render.NonBlankKeepsAll` | canigtfo.py:61-63 | every line that does not strip to `""` is kept |
| `Render.CodeBlock` | canigtfo.py:60-64 | definition: `"\n"`, then each kept line of `splitlines()` followed by `"\n"` |
| `Render.CodeBlockLines` | canigtfo.py:57-64 | a code block starts and ends with `"\n"`, and between them reads back as exactly the non-blank code lines, in order; no blank line appears |
| `Render.Emit` | canigtfo.py:36-64 | each element contributes at most one entry. It contributes none exactly when it is a bare `code` or a `pre` without `code` |
| `Render.Rendered` | canigtfo.py:35-64 | definition: each element's entry, if it has one, in element order |
| `Render.RenderedAppend` | canigtfo.py:35-66 | output order follows element order |
| `Render.RenderedLength` | canigtfo.py:35-64 | there are never more output entries than elements, and the counts are equal when no element is silent |
| `Render.RenderedSilent` | canigtfo.py:57-64 | a page made only of bare `code` elements and `pre` elements without `code` prints nothing |
| `Render.RenderElements` | canigtfo.py:35-66 | the element loop yields the specified rendering of the page |
| `Canigtfo.Run` | canigtfo.py:14-66 | the reports printed are those of the collected candidates, in candidate order |
| `Canigtfo.ReportFor` | canigtfo.py:25-28 | definition: one report with the candidate, its URL and the page rendered against the file's metadata when the status is 200, else none |
| `Canigtfo.Reports` | canigtfo.py:24-28 | definition: the candidates' reports, in candidate order |
| `Canigtfo.ReportsAppend` | canigtfo.py:24-27 | reports come out in candidate order |
| `Canigtfo.ReportsFaithful` | canigtfo.py:24-28 | each report is for a candidate and uses that candidate's URL. That URL answered 200, and the report holds the page rendered against the candidate's metadata. There are never more reports than candidates |
| `Canigtfo.HandleCandidates` | canigtfo.py:24-66 | the loop over the candidates yields, in candidate order, one report per candidate whose URL answers 200 |
| `Canigtfo.ReportsComplete` | canigtfo.py:26-27 | a candidate whose URL answers 200 gets its report, holding its URL and its rendered page |
| `Canigtfo.ReportsSilent` | canigtfo.py:27 | nothing is printed when no candidate's URL answers 200 |

## Findings

| source | as written | input that shows it | evidently intended | confidence | as-written member | corrected member |
|---|---|---|---|---|---|---|
| canigtfo.py:42 | `grp.getgrpid(...)` is called, but the `grp` module has no such function (it has `getgrgid`), so the SGID branch raises `AttributeError` and ends the run | a heading `SGID` and an existing file of mode 0o102755 (SGID bit set, SUID bit clear) | the heading is printed with `" - ENABLED with owners "` and the name of the file's group | high, by reading; not executed | `Render.HeadingLineAsWritten`, `Render.SgidHeadingRaises` | `Render.HeadingLine`, `Render.SgidAnnotation` |

## Left out

- The HTTP request (`requests.get`) and its exceptions become the `fetch` parameter. A transport error, which stops the script, is not modelled.
- HTML parsing with BeautifulSoup is not modelled. The parsed page is given as a sequence of `Element` values. Headings and tag children carry their text strings. A `pre` carries the strings of its first `code` descendant, if it has one.
- `os.path.exists`, `os.stat`, `pwd.getpwuid` and `grp` become the `stat` parameter, which gives a `FileInfo` record. The script stats the file several times, but the model reads one snapshot. A uid or gid without a name, which makes `pwd`/`grp` raise, is not modelled.
- `sys.stdin.isatty()` and `sys.stdin.read()` are inputs (`stdinIsTty`, `stdin`). Printing, the `"\n".join` of the output and the 100-dash banner with its OSC 8 hyperlink are not modelled. A `Report` holds the banner's path and URL and the output lines.
- Terminal colours (`termcolor.colored`) are dropped. Output lines hold the text only.
- `Text.SplitLines`: only `"\n"` ends a line. Python's `splitlines` also breaks on `"\r"` and `"\r\n"`, on the ASCII characters `\v` (11), `\f` (12) and `\x1c` to `\x1e` (28 to 30), and on the non-ASCII boundaries U+0085, U+2028 and U+2029. `Text.IsSpace` counts `\v`, `\f` and `\x1c` to `\x1e` as whitespace, but the model does not end a line at them, so code text `"a\x0cb"` is one line in the model and two in the script.
- `Text.Strip`: only ASCII whitespace is removed: space, the characters 9 to 13 (tab, LF, VT, FF, CR) and the separators 28 to 31. Python's `strip` also removes non-ASCII whitespace such as U+0085 and U+00A0.
- `Canigtfo.Run`, `Canigtfo.HandleCandidates` and `Render.RenderElements` describe the script with the SGID lookup of canigtfo.py:42 corrected. As written, `AttributeError` is raised out of `main` whenever the SGID branch is taken, that is, when the SUID test of canigtfo.py:39 fails and the SGID test of canigtfo.py:41 holds (the condition `Render.HeadingLineAsWritten` states). This includes a heading naming only SGID for a file of mode 0o6755. The candidate's banner (canigtfo.py:33) is then already printed, none of its lines are (canigtfo.py:66 is not reached), and no later candidate is handled. That failure is modelled for one heading only, by `Render.HeadingLineAsWritten`.
- `Render.StrippedText`: comments and other non-text strings inside an element are treated like text.
- The `markdown` import is unused by the script and is not modelled.
