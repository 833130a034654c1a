/** Turning the elements of a detail page into output lines, annotating headings
    with what the local file's mode bits allow. */
module Render {
  import opened Wrappers
  import opened Text

  /** A direct child of a `p` element. */
  datatype Child =
    | TextNode(text: string)                   // a bare string
    | Tag(name: string, strings: seq<string>)  // an element, with the strings inside it in document order

  /** One element found by `find_all(["h2", "h3", "p", "pre", "code"])`, in document
      order; a `code` inside a `p` or a `pre` is found as an element of its own too. */
  datatype Element =
    | Heading(strings: seq<string>)            // h2 or h3, with the strings inside it
    | Paragraph(children: seq<Child>)          // p
    | Pre(code: Option<seq<string>>)           // pre, with the strings of its first code descendant
    | Code                                     // code

  /** What the file system says about the local path: whether it exists, its mode,
      and the names its owning user and group resolve to. */
  datatype FileInfo = FileInfo(present: bool, mode: bv32, ownerName: string, groupName: string)

  const SUID_BIT: bv32 := 0x800  // 0o4000, set-user-ID
  const SGID_BIT: bv32 := 0x400  // 0o2000, set-group-ID

  /** `get_text(strip=True)`: the element's strings, each stripped, concatenated. */
  function StrippedText(strings: seq<string>): (r: string)
    ensures r == [] || (!IsSpace(r[0]) && !IsSpace(r[|r| - 1]))
  {
    if strings == [] then []
    else
      var head, rest := Strip(strings[0]), StrippedText(strings[1..]);
      assert head != [] ==> (head + rest)[0] == head[0];
      assert rest != [] ==> (head + rest)[|head + rest| - 1] == rest[|rest| - 1];
      head + rest
  }

  /** `get_text(strip=True)` reads the strings one by one: the text of two runs of
      strings is the text of the first followed by that of the second. */
  lemma {:induction false} StrippedTextAppend(a: seq<string>, b: seq<string>)
    ensures StrippedText(a + b) == StrippedText(a) + StrippedText(b)
  {
    if a == [] {
      assert a + b == b;
    } else {
      assert (a + b)[0] == a[0] && (a + b)[1..] == a[1..] + b;
      StrippedTextAppend(a[1..], b);
    }
  }

  /** A single string reads as that string stripped. */
  lemma StrippedTextOfOne(s: string)
    ensures StrippedText([s]) == Strip(s)
  {
    assert [s][1..] == [];
  }

  // ---------------------------------------------------------------- headings

  /** The heading names the set-user-ID technique and the file has that bit. */
  predicate SuidApplies(text: string, info: FileInfo) {
    Contains(text, "SUID") && info.present && info.mode & SUID_BIT != 0
  }

  /** The heading names the set-group-ID technique and the file has that bit. */
  predicate SgidApplies(text: string, info: FileInfo) {
    Contains(text, "SGID") && info.present && info.mode & SGID_BIT != 0
  }

  function SuidNote(owner: string): string {
    " - ENABLED with owner " + owner
  }

  function SgidNote(group: string): string {
    " - ENABLED with owners " + group
  }

  /** The output line for a heading with text `text`. The text always comes first
      unchanged; an annotation follows exactly when the heading names a technique
      whose mode bit the existing file has, and never for a missing file. */
  function HeadingLine(text: string, info: FileInfo): (line: string)
    ensures StartsWith(line, text)
    ensures line == text <==> !SuidApplies(text, info) && !SgidApplies(text, info)
    ensures !info.present ==> line == text
    ensures line != text ==> Contains(text, "SUID") || Contains(text, "SGID")
  {
    if SuidApplies(text, info) then text + SuidNote(info.ownerName)
    else if SgidApplies(text, info) then text + SgidNote(info.groupName)
    else text
  }

  /** The set-user-ID annotation wins over the set-group-ID one, even when the
      heading names both and the file has both bits. */
  lemma SuidTakesPrecedence(text: string, info: FileInfo)
    requires SuidApplies(text, info)
    ensures HeadingLine(text, info) == text + SuidNote(info.ownerName)
    ensures HeadingLine(text, info)[|text|..] == SuidNote(info.ownerName)
  {
  }

  /** The set-group-ID annotation, with the group's name, is used when the
      set-user-ID one does not apply and the set-group-ID one does, and only then
      can a heading that the set-user-ID rule leaves alone be changed. */
  lemma SgidAnnotation(text: string, info: FileInfo)
    ensures !SuidApplies(text, info) && SgidApplies(text, info)
        ==> HeadingLine(text, info) == text + SgidNote(info.groupName)
    ensures !SuidApplies(text, info) && HeadingLine(text, info) != text
        ==> SgidApplies(text, info) && HeadingLine(text, info) == text + SgidNote(info.groupName)
  {
  }

  /** The exception that stops the script. */
  datatype Fault = AttributeError(attribute: string)

  /** The heading rule as the script has it: the set-group-ID branch asks the `grp`
      module for `getgrpid`, which it does not have, so that branch raises. */
  function HeadingLineAsWritten(text: string, info: FileInfo): (r: Result<string, Fault>)
    ensures r.Failure? <==> !SuidApplies(text, info) && SgidApplies(text, info)
    ensures r.Success? ==> r.value == HeadingLine(text, info)
  {
    if SuidApplies(text, info) then Success(text + SuidNote(info.ownerName))
    else if SgidApplies(text, info) then Failure(AttributeError("getgrpid"))
    else Success(text)
  }

  /** A set-group-ID heading for an existing regular file of mode 0o102755 (the
      set-group-ID bit without the set-user-ID bit): the script
      as written raises instead of printing the annotation. */
  lemma SgidHeadingRaises()
    ensures var info := FileInfo(true, 0x85ED, "root", "shadow");
      && HeadingLineAsWritten("SGID", info) == Failure(AttributeError("getgrpid"))
      && HeadingLine("SGID", info) == "SGID" + SgidNote("shadow")
  {
    var info := FileInfo(true, 0x85ED, "root", "shadow");
    assert info.mode & SUID_BIT == 0 && info.mode & SGID_BIT != 0;
    assert StartsWith("SGID", "SGID");
  }

  // ---------------------------------------------------------------- paragraphs

  /** What one child of a `p` contributes: inline code keeps its text as it is and
      gets a space on each side; anything else contributes its stripped text. */
  function ChildText(child: Child): string {
    match child
    case TextNode(text) => Strip(text)
    case Tag(name, strings) =>
      if name == "code" then " " + Concat(strings) + " " else StrippedText(strings)
  }

  function ChildTexts(children: seq<Child>): seq<string> {
    if children == [] then [] else ChildTexts(children[..|children| - 1]) + [ChildText(children[|children| - 1])]
  }

  /** The output line for a paragraph. */
  function ParagraphText(children: seq<Child>): string {
    Concat(ChildTexts(children))
  }

  lemma {:induction false} ChildTextsAppend(a: seq<Child>, b: seq<Child>)
    ensures ChildTexts(a + b) == ChildTexts(a) + ChildTexts(b)
  {
    if b == [] {
      assert a + b == a;
    } else {
      assert (a + b)[..|a + b| - 1] == a + b[..|b| - 1];
      ChildTextsAppend(a, b[..|b| - 1]);
    }
  }

  /** A paragraph reads as its children in order: splitting the children splits the
      line. */
  lemma ParagraphTextAppend(a: seq<Child>, b: seq<Child>)
    ensures ParagraphText(a + b) == ParagraphText(a) + ParagraphText(b)
  {
    ChildTextsAppend(a, b);
    ConcatAppend(ChildTexts(a), ChildTexts(b));
  }

  /** Each child stands for itself: a lone inline-code child is its text padded with
      one space on each side, any other lone tag its stripped text strings, and a
      lone text child its stripped text. */
  lemma ParagraphOfOneChild(child: Child)
    ensures child.Tag? && child.name == "code"
        ==> ParagraphText([child]) == " " + Concat(child.strings) + " "
    ensures child.Tag? && child.name != "code"
        ==> ParagraphText([child]) == StrippedText(child.strings)
    ensures child.TextNode? ==> ParagraphText([child]) == Strip(child.text)
  {
    var x := ChildText(child);
    assert ChildTexts([child]) == [x] by {
      assert [child][..0] == [];
    }
    assert Concat([x]) == x by {
      assert [x][1..] == [];
    }
  }

  /** Collects each child's contribution, then joins them. */
  method RenderParagraph(children: seq<Child>) returns (line: string)
    ensures line == ParagraphText(children)
  {
    var parts: seq<string> := [];
    for i := 0 to |children|
      invariant parts == ChildTexts(children[..i])
    {
      assert children[..i + 1][..i] == children[..i];
      match children[i]
      case Tag(name, strings) =>
        if name == "code" {
          parts := parts + [" " + Concat(strings) + " "];
        } else {
          parts := parts + [StrippedText(strings)];
        }
      case TextNode(text) =>
        parts := parts + [Strip(text)];
    }
    assert children[..|children|] == children;
    line := Concat(parts);
  }

  // ---------------------------------------------------------------- code blocks

  /** The test `line.strip() != ""` a code line must pass to be printed. */
  predicate Kept(line: string) {
    Strip(line) != []
  }

  /** The lines that pass the test, in their order. */
  function NonBlank(lines: seq<string>): seq<string> {
    if lines == [] then []
    else
      (if Kept(lines[0]) then [lines[0]] else []) + NonBlank(lines[1..])
  }

  /** The kept lines keep their relative order: filtering two runs of lines one
      after the other is filtering each. */
  lemma {:induction false} NonBlankAppend(a: seq<string>, b: seq<string>)
    ensures NonBlank(a + b) == NonBlank(a) + NonBlank(b)
  {
    if a == [] {
      assert a + b == b;
    } else {
      var ab := a + b;
      assert ab[0] == a[0] && ab[1..] == a[1..] + b;
      NonBlankAppend(a[1..], b);
      var keep := if Kept(a[0]) then [a[0]] else [];
      assert NonBlank(ab) == keep + NonBlank(a[1..] + b);
      assert NonBlank(a) == keep + NonBlank(a[1..]);
    }
  }

  /** The filter keeps no more lines than it gets, and every kept line is one of
      them and does not strip to nothing. */
  lemma {:induction false} NonBlankSound(lines: seq<string>)
    ensures |NonBlank(lines)| <= |lines|
    ensures forall l <- NonBlank(lines) :: l in lines && Strip(l) != []
  {
    if lines != [] {
      NonBlankSound(lines[1..]);
      assert forall l <- lines[1..] :: l in lines;
    }
  }

  /** Every line that does not strip to nothing is kept. */
  lemma {:induction false} NonBlankKeepsAll(lines: seq<string>)
    ensures forall k | 0 <= k < |lines| :: Strip(lines[k]) != [] ==> lines[k] in NonBlank(lines)
  {
    if lines != [] {
      NonBlankKeepsAll(lines[1..]);
      forall k | 1 <= k < |lines| && Strip(lines[k]) != []
        ensures lines[k] in NonBlank(lines)
      {
        assert lines[k] == lines[1..][k - 1];
      }
    }
  }

  /** A line is kept exactly when it has a character that is not whitespace. */
  lemma NonBlankIffNotAllSpace(lines: seq<string>)
    ensures forall l <- NonBlank(lines) :: !AllSpace(l)
    ensures forall l <- lines :: !AllSpace(l) ==> l in NonBlank(lines)
  {
    NonBlankKeepsAll(lines);
    NonBlankSound(lines);
    forall l <- NonBlank(lines) ensures !AllSpace(l) {
      StripEmptyIff(l);
    }
    forall l <- lines | !AllSpace(l) ensures l in NonBlank(lines) {
      StripEmptyIff(l);
    }
  }

  /** The output entry for a `pre` whose `code` child has text `codeText`. */
  function CodeBlock(codeText: string): string {
    "\n" + Terminated(NonBlank(SplitLines(codeText)))
  }

  /** A code block is a newline followed by exactly the non-blank lines of the code,
      in order, each ended by a newline: it ends with a newline, reading its lines
      back gives those lines, and none of them is blank. */
  lemma CodeBlockLines(codeText: string)
    ensures CodeBlock(codeText)[0] == '\n'
    ensures CodeBlock(codeText)[|CodeBlock(codeText)| - 1] == '\n'
    ensures SplitLines(CodeBlock(codeText)[1..]) == NonBlank(SplitLines(codeText))
    ensures forall l <- SplitLines(CodeBlock(codeText)[1..]) :: !AllSpace(l)
  {
    var kept := NonBlank(SplitLines(codeText));
    NonBlankIffNotAllSpace(SplitLines(codeText));
    NonBlankSound(SplitLines(codeText));
    assert forall l <- kept :: '\n' !in l;
    SplitLinesTerminated(kept);
    assert CodeBlock(codeText)[1..] == Terminated(kept);
    if kept != [] {
      TerminatedEndsInNewline(kept);
    }
  }

  // ---------------------------------------------------------------- the element loop

  /** A bare `code` element, or a `pre` without `code`: the loop prints nothing for it. */
  predicate Silent(e: Element) {
    e.Code? || (e.Pre? && e.code.None?)
  }

  /** The element's entry in the output, if it has one. */
  function Emit(e: Element, info: FileInfo): (out: seq<string>)
    ensures |out| <= 1
    ensures out == [] <==> Silent(e)
  {
    match e
    case Heading(strings) => [HeadingLine(StrippedText(strings), info)]
    case Paragraph(children) => [ParagraphText(children)]
    case Pre(code) => if code.Some? then [CodeBlock(Concat(code.value))] else []
    case Code => []
  }

  /** The output for a page's elements. */
  function Rendered(elements: seq<Element>, info: FileInfo): seq<string> {
    if elements == [] then []
    else Rendered(elements[..|elements| - 1], info) + Emit(elements[|elements| - 1], info)
  }

  /** Output order follows element order: the output for a sequence of elements is the
      output for its first part followed by the output for the rest. */
  lemma {:induction false} RenderedAppend(a: seq<Element>, b: seq<Element>, info: FileInfo)
    ensures Rendered(a + b, info) == Rendered(a, info) + Rendered(b, info)
  {
    if b == [] {
      assert a + b == a;
    } else {
      assert (a + b)[..|a + b| - 1] == a + b[..|b| - 1];
      RenderedAppend(a, b[..|b| - 1], info);
    }
  }

  /** Each element contributes at most one entry, so there are never more entries
      than elements; when no element is silent, there are exactly as many. */
  lemma {:induction false} RenderedLength(elements: seq<Element>, info: FileInfo)
    ensures |Rendered(elements, info)| <= |elements|
    ensures (forall k | 0 <= k < |elements| :: !Silent(elements[k]))
        ==> |Rendered(elements, info)| == |elements|
  {
    if elements != [] {
      var n := |elements| - 1;
      var init := elements[..n];
      assert Rendered(elements, info) == Rendered(init, info) + Emit(elements[n], info);
      RenderedLength(init, info);
      if forall k | 0 <= k < |elements| :: !Silent(elements[k]) {
        assert forall k | 0 <= k < n :: init[k] == elements[k];
      }
    }
  }

  /** Silent elements print nothing: a page of bare `code` elements and `pre`
      elements without `code` renders to no output at all. */
  lemma {:induction false} RenderedSilent(elements: seq<Element>, info: FileInfo)
    requires forall k | 0 <= k < |elements| :: Silent(elements[k])
    ensures Rendered(elements, info) == []
  {
    if elements != [] {
      var n := |elements| - 1;
      var init := elements[..n];
      assert forall k | 0 <= k < n :: init[k] == elements[k];
      RenderedSilent(init, info);
    }
  }

  /** Walks the elements once, appending each one's entry. */
  method RenderElements(elements: seq<Element>, info: FileInfo) returns (output: seq<string>)
    ensures output == Rendered(elements, info)
  {
    output := [];
    for i := 0 to |elements|
      invariant output == Rendered(elements[..i], info)
    {
      assert elements[..i + 1][..i] == elements[..i];
      match elements[i]
      case Heading(strings) =>
        var text := StrippedText(strings);
        if Contains(text, "SUID") && info.present && info.mode & SUID_BIT != 0 {
          output := output + [text + SuidNote(info.ownerName)];
        } else if Contains(text, "SGID") && info.present && info.mode & SGID_BIT != 0 {
          output := output + [text + SgidNote(info.groupName)];
        } else {
          output := output + [text];
        }
      case Paragraph(children) =>
        var line := RenderParagraph(children);
        output := output + [line];
      case Pre(code) =>
        if code.Some? {
          output := output + [CodeBlock(Concat(code.value))];
        }
      case Code =>
    }
    assert elements[..|elements|] == elements;
  }
}
