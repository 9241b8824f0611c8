/**
  The note formatter of the rich-note editor: a single pass over the lines of
  a note's raw text that drops blank lines and turns every other line into one
  display block, classified by its prefix.
*/
module NoteFormatter {
  import opened Common
  import opened JsString

  /**
    The optional `format` record of a paragraph. The formatter only ever stores
    `true` under a key, so a flag here is true exactly when its key is present.
  */
  datatype Format = Format(bold: bool, italic: bool, code: bool)

  /** One display block; `text` is what the block shows. */
  datatype Block =
    | Heading(text: string)
    | ListItem(text: string)
    | CheckItem(text: string, checked: bool)
    | CodeBlock(text: string)
    | Paragraph(text: string, format: Option<Format>)

  const HeadingMark: string := "# "
  const ListMark: string := "- "
  const UncheckedMark: string := "[ ] "
  const CheckedMark: string := "[x] "
  const Fence: string := "```"

  const NoFormat := Format(false, false, false)

  /** `{ ...(format || {}), italic: true }` */
  function WithItalic(f: Option<Format>): Option<Format> {
    Some(f.GetOr(NoFormat).(italic := true))
  }

  /** `{ ...(format || {}), code: true }` */
  function WithCode(f: Option<Format>): Option<Format> {
    Some(f.GetOr(NoFormat).(code := true))
  }

  lemma StarOfDoubleStar(line: string)
    ensures Includes(line, "**") ==> '*' in line
  {
    if Includes(line, "**") {
      var i :| 0 <= i <= |line| - 2 && OccursAt(line, "**", i);
      assert line[i] == line[i..i + 2][0];
    }
  }

  /**
    The inline flags of a paragraph, set by three checks in turn: `**` sets
    bold, a `*` without any `**` sets italic, a backtick sets code. The record
    is absent when no check fired, and bold and italic never hold together.
  */
  function InlineFormat(line: string): (f: Option<Format>)
    ensures f.None? <==> '*' !in line && '`' !in line
    ensures f.Some? ==> (f.value.bold <==> Includes(line, "**"))
    ensures f.Some? ==> (f.value.italic <==> '*' in line && !Includes(line, "**"))
    ensures f.Some? ==> (f.value.code <==> '`' in line)
    ensures f.Some? ==> !(f.value.bold && f.value.italic)
  {
    StarOfDoubleStar(line);
    var doubleStar := Includes(line, "**");
    var afterBold := if doubleStar then Some(Format(true, false, false)) else None;
    var afterItalic := if '*' in line && !doubleStar then WithItalic(afterBold) else afterBold;
    if '`' in line then WithCode(afterItalic) else afterItalic
  }

  /** The line both starts and ends with a fence (the two may overlap). */
  predicate Fenced(line: string) {
    StartsWith(line, Fence) && EndsWith(line, Fence)
  }

  /** A fenced line too short to hold two separate fences: `slice(3, -3)` leaves nothing of it. */
  predicate ShortFence(line: string) {
    Fenced(line) && |line| < 6
  }

  /** The line matches one of the five structural rules, so it is not a paragraph. */
  predicate HasMarker(line: string) {
    || StartsWith(line, HeadingMark) || StartsWith(line, ListMark)
    || StartsWith(line, UncheckedMark) || StartsWith(line, CheckedMark)
    || Fenced(line)
  }

  /** The source line a block displays: its marker put back in front of (and, for code, after) its text. */
  function LineOf(b: Block): string {
    match b
    case Heading(t) => HeadingMark + t
    case ListItem(t) => ListMark + t
    case CheckItem(t, checked) => (if checked then CheckedMark else UncheckedMark) + t
    case CodeBlock(t) => Fence + t + Fence
    case Paragraph(t, _) => t
  }

  /** Slicing a prefix off leaves the rest, and the line begins with the prefix's first character. */
  lemma Unprefix(line: string, p: string)
    requires StartsWith(line, p) && |p| > 0
    ensures p + SliceFrom(line, |p|) == line
    ensures line[0] == p[0]
  {
    assert line[..|p|][0] == line[0];
  }

  lemma FenceFirst(line: string)
    ensures Fenced(line) ==> line[0] == '`'
  {
    if Fenced(line) {
      assert line[..3][0] == line[0];
    }
  }

  /** `slice(3, -3)` of a fenced line: nothing below six characters, the interior from six on. */
  lemma Unfence(line: string)
    requires Fenced(line)
    ensures |line| < 6 ==> Slice(line, 3, -3) == ""
    ensures |line| >= 6 ==> Fence + Slice(line, 3, -3) + Fence == line
  {
    if |line| >= 6 {
      assert line == line[..3] + line[3..|line| - 3] + line[|line| - 3..];
    }
  }

  /**
    Classifies one line by the first rule, in priority order, whose prefix it
    has, and slices the prefix off. Putting the marker back recovers the line,
    except for the short fenced lines whose interior is lost.
  */
  function ClassifyLine(line: string): (b: Block)
    ensures !ShortFence(line) ==> LineOf(b) == line
    ensures ShortFence(line) ==> b == CodeBlock("")
    ensures b.Paragraph? <==> !HasMarker(line)
  {
    FenceFirst(line);
    if StartsWith(line, HeadingMark) then
      Unprefix(line, HeadingMark);
      Heading(SliceFrom(line, 2))
    else if StartsWith(line, ListMark) then
      Unprefix(line, ListMark);
      ListItem(SliceFrom(line, 2))
    else if StartsWith(line, UncheckedMark) then
      Unprefix(line, UncheckedMark);
      CheckItem(SliceFrom(line, 4), false)
    else if StartsWith(line, CheckedMark) then
      Unprefix(line, CheckedMark);
      CheckItem(SliceFrom(line, 4), true)
    else if StartsWith(line, Fence) && EndsWith(line, Fence) then
      Unfence(line);
      CodeBlock(Slice(line, 3, -3))
    else Paragraph(line, InlineFormat(line))
  }

  /** The blocks the formatter can produce: a paragraph's text matches no rule and its flags are those of its text. */
  predicate WellFormed(b: Block) {
    b.Paragraph? ==> !HasMarker(b.text) && b.format == InlineFormat(b.text)
  }

  /** Classifying the line a well-formed block displays gives that block back. */
  lemma ClassifyLineOf(b: Block)
    requires WellFormed(b)
    ensures ClassifyLine(LineOf(b)) == b
  {
    match b
    case Heading(t) => HeadingRule(t);
    case ListItem(t) => ListItemRule(t);
    case CheckItem(t, checked) => CheckItemRule(t);
    case CodeBlock(t) => CodeBlockRule(t);
    case Paragraph(t, f) =>
  }

  /** Every block the formatter produces is well formed. */
  lemma ClassifyLineWellFormed(line: string)
    ensures WellFormed(ClassifyLine(line))
  {
  }

  /** The test of the blank-line filter: something is left after trimming. */
  predicate NonBlank(line: string) {
    Trim(line) != ""
  }

  /**
    `lines.filter(line => line.trim() !== '')`: exactly the lines that are
    not all whitespace, in their order.
  */
  function KeepNonBlank(lines: seq<string>): (r: seq<string>)
    ensures forall i :: 0 <= i < |r| ==> r[i] in lines && !AllWhitespace(r[i])
    ensures forall i :: 0 <= i < |lines| && !AllWhitespace(lines[i]) ==> lines[i] in r
    ensures r == [] <==> forall i :: 0 <= i < |lines| ==> AllWhitespace(lines[i])
  {
    var r := Filter(lines, NonBlank);
    forall i | 0 <= i < |r|
      ensures r[i] in lines
    {
      FilterMembers(lines, NonBlank, r[i]);
    }
    forall i | 0 <= i < |lines| && NonBlank(lines[i])
      ensures lines[i] in r
    {
      FilterMembers(lines, NonBlank, lines[i]);
    }
    FilterEmpty(lines, NonBlank);
    r
  }

  /** The blank-line filter distributes over concatenation. */
  lemma KeepNonBlankAppend(a: seq<string>, b: seq<string>)
    ensures KeepNonBlank(a + b) == KeepNonBlank(a) + KeepNonBlank(b)
  {
    FilterAppend(a, b, NonBlank);
  }

  lemma {:induction false} JoinBlank(xs: seq<string>, sep: string)
    requires AllWhitespace(sep)
    ensures AllWhitespace(Join(xs, sep)) <==> forall i :: 0 <= i < |xs| ==> AllWhitespace(xs[i])
  {
    if |xs| > 1 {
      JoinBlank(xs[1..], sep);
      WhitespaceConcat(xs[0], sep);
      WhitespaceConcat(xs[0] + sep, Join(xs[1..], sep));
      assert forall i :: 1 <= i < |xs| ==> xs[i] == xs[1..][i - 1];
    }
  }

  /** The lines of a note that survive the blank-line filter, in order. */
  function NonBlankLines(content: string): (lines: seq<string>)
    ensures forall i :: 0 <= i < |lines| ==> '\n' !in lines[i] && !AllWhitespace(lines[i])
    ensures lines == [] <==> AllWhitespace(content)
  {
    var pieces := Split(content, '\n');
    JoinSplit(content, '\n');
    JoinBlank(pieces, "\n");
    KeepNonBlank(pieces)
  }

  /**
    `parseFormattedContent`: one block per non-blank line, in line order.
    Content made only of whitespace and line breaks (the empty note
    included) gives no block at all, and any other content gives some.
  */
  function ParseFormattedContent(content: string): (blocks: seq<Block>)
    ensures blocks == [] <==> AllWhitespace(content)
    ensures forall i :: 0 <= i < |blocks| ==> WellFormed(blocks[i])
  {
    var lines := NonBlankLines(content);
    ClassifyAllWellFormed(lines);
    ClassifyAll(lines)
  }

  lemma ClassifyAllWellFormed(lines: seq<string>)
    ensures forall i :: 0 <= i < |lines| ==> WellFormed(ClassifyAll(lines)[i])
  {
    forall i | 0 <= i < |lines|
      ensures WellFormed(ClassifyAll(lines)[i])
    {
      ClassifyLineWellFormed(lines[i]);
    }
  }

  /** `lines.map(classify)` */
  function ClassifyAll(lines: seq<string>): (blocks: seq<Block>)
    ensures |blocks| == |lines|
  {
    seq(|lines|, i requires 0 <= i < |lines| => ClassifyLine(lines[i]))
  }

  lemma ClassifyAllAppend(x: seq<string>, y: seq<string>)
    ensures ClassifyAll(x + y) == ClassifyAll(x) + ClassifyAll(y)
  {
    assert forall i :: |x| <= i < |x + y| ==> (x + y)[i] == y[i - |x|];
  }

  lemma NonBlankLinesAround(a: string, b: string)
    ensures NonBlankLines(a + "\n" + b) == NonBlankLines(a) + NonBlankLines(b)
  {
    SplitAround(a, b, '\n');
    KeepNonBlankAppend(Split(a, '\n'), Split(b, '\n'));
  }

  /** Parsing two pieces of text joined by a line break gives the blocks of each, one after the other. */
  lemma ParseAround(a: string, b: string)
    ensures ParseFormattedContent(a + "\n" + b) == ParseFormattedContent(a) + ParseFormattedContent(b)
  {
    NonBlankLinesAround(a, b);
    ClassifyAllAppend(NonBlankLines(a), NonBlankLines(b));
  }

  /** A single line gives no block when blank and exactly its own classification otherwise. */
  lemma ParseOneLine(line: string)
    requires '\n' !in line
    ensures ParseFormattedContent(line) == if AllWhitespace(line) then [] else [ClassifyLine(line)]
  {
    SplitNoSeparator(line, '\n');
    KeepNonBlankOne(line);
    assert ClassifyAll([line]) == [ClassifyLine(line)];
  }

  /** The blank-line filter on a single line keeps it exactly when it is not blank. */
  lemma KeepNonBlankOne(line: string)
    ensures KeepNonBlank([line]) == if AllWhitespace(line) then [] else [line]
  {
    assert [line][1..] == [];
  }

  /** `"# "` wins over every later rule, whatever follows it. */
  lemma HeadingRule(rest: string)
    ensures ClassifyLine(HeadingMark + rest) == Heading(rest)
  {
    assert (HeadingMark + rest)[..2] == HeadingMark;
  }

  lemma ListItemRule(rest: string)
    ensures ClassifyLine(ListMark + rest) == ListItem(rest)
  {
    assert (ListMark + rest)[..2] == ListMark;
  }

  /** `"[ ] "` and `"[x] "` give check items; an upper-case `X` gives a paragraph. */
  lemma CheckItemRule(rest: string)
    ensures ClassifyLine(UncheckedMark + rest) == CheckItem(rest, false)
    ensures ClassifyLine(CheckedMark + rest) == CheckItem(rest, true)
    ensures ClassifyLine("[X] " + rest).Paragraph?
  {
    UncheckedRule(rest);
    CheckedRule(rest);
    UpperCheckRule(rest);
  }

  lemma UncheckedRule(rest: string)
    ensures ClassifyLine(UncheckedMark + rest) == CheckItem(rest, false)
  {
    var line := UncheckedMark + rest;
    assert line[..4] == UncheckedMark && line[0] == '[';
  }

  lemma CheckedRule(rest: string)
    ensures ClassifyLine(CheckedMark + rest) == CheckItem(rest, true)
  {
    var line := CheckedMark + rest;
    assert line[..4] == CheckedMark && line[0] == '[' && line[1] == 'x';
  }

  lemma UpperCheckRule(rest: string)
    ensures ClassifyLine("[X] " + rest).Paragraph?
  {
    var line := "[X] " + rest;
    assert line[..4] == "[X] " && line[0] == '[' && line[1] == 'X';
  }

  /**
    A fenced line is a code block holding `slice(3, -3)`: empty up to six
    characters, the text between the fences from six on.
  */
  lemma CodeFenceRule(line: string)
    requires Fenced(line)
    ensures ClassifyLine(line).CodeBlock?
    ensures |line| <= 6 ==> ClassifyLine(line).text == ""
    ensures |line| >= 6 ==> line == Fence + ClassifyLine(line).text + Fence
  {
    assert line[0] == '`';
  }

  /** Text between two fences comes back whole, even text that itself holds fences. */
  lemma CodeBlockRule(t: string)
    ensures ClassifyLine(Fence + t + Fence) == CodeBlock(t)
  {
    var line := Fence + t + Fence;
    assert line[..3] == Fence && line[|line| - 3..] == Fence;
    assert line[0] == '`';
    Unfence(line);
  }

  /** A trailing carriage return stops the fence rule: the line is a paragraph flagged as code. */
  lemma CarriageReturnBlocksFence(body: string)
    ensures var line := Fence + body + Fence + "\r";
      ClassifyLine(line) == Paragraph(line, InlineFormat(line))
      && InlineFormat(line).Some? && InlineFormat(line).value.code
  {
    var line := Fence + body + Fence + "\r";
    assert line[0] == '`';
    assert line[|line| - 1] == '\r';
  }

  /** A line matching no rule is shown whole, markup included. */
  lemma ParagraphRule(line: string)
    requires !HasMarker(line)
    ensures ClassifyLine(line) == Paragraph(line, InlineFormat(line))
  {
  }
}
