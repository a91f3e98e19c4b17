/** The block level of components/MarkdownRenderer.tsx: the content is cut at `\n` and every
    line becomes one block, chosen by the first rule that applies. A line starting with three
    backticks toggles code mode and renders nothing. */
module Markdown {
  import opened Wrappers
  import opened Strings
  import opened Slug
  import opened Inline

  datatype Block =
    | Code(line: string)
    | Heading(level: nat, id: string, body: seq<Span>)
    | Quote(body: seq<Span>)
    | Bullet(nested: bool, body: seq<Span>)
    | Figure(src: string, alt: string, caption: Option<string>)
    | Break
    | Paragraph(body: seq<Span>)

  predicate IsFence(line: string) {
    StartsWith(line, "```")
  }

  /** `!\[(.*?)\]\((.*?)\)` tried at `q`: the position of `](` and the end. */
  function ImageAt(s: string, q: nat): (r: Option<(nat, nat)>)
    requires q <= |s|
    ensures r.Some? ==> q + 2 <= r.value.0 && r.value.0 + 3 <= r.value.1 <= |s|
  {
    if Pair(s, q, '!', '[') then LinkClose(s, q + 2) else None
  }

  /** `line.match(/!\[(.*?)\]\((.*?)\)/)`: the leftmost image, as the positions of `!`, of
      `](` and the end. */
  function SearchImage(s: string, r: nat): (m: Option<(nat, nat, nat)>)
    requires r <= |s|
    ensures m.Some? ==> r <= m.value.0 && m.value.0 + 2 <= m.value.1 && m.value.1 + 3 <= m.value.2 <= |s|
    decreases |s| - r
  {
    match ImageAt(s, r)
    case Some(x) => Some((r, x.0, x.1))
    case None => if r == |s| then None else SearchImage(s, r + 1)
  }

  /** A heading line: its level, its id and its inline content, all from the text after the marker. */
  function HeadingOf(line: string, marker: string, level: nat): Block {
    var text := ReplaceFirst(line, marker, "");
    Heading(level, GenerateHeadingId(text), ParseInline(text))
  }

  /** The block for a line that is not a fence, given whether code mode is on. */
  function RenderLine(line: string, inCode: bool): Block {
    if inCode then Code(line) else RenderText(line)
  }

  /** Outside code: headings, then quotes, then the rest. */
  function RenderText(line: string): Block {
    if StartsWith(line, "# ") then HeadingOf(line, "# ", 1)
    else if StartsWith(line, "## ") then HeadingOf(line, "## ", 2)
    else if StartsWith(line, "### ") then HeadingOf(line, "### ", 3)
    else if StartsWith(line, "> ") then Quote(ParseInline(ReplaceFirst(line, "> ", "")))
    else RenderListOrImage(line)
  }

  /** Bullets, then images, then blank lines and paragraphs. */
  function RenderListOrImage(line: string): Block {
    var trimmed := Trim(line);
    if StartsWith(trimmed, "- ") || StartsWith(trimmed, "* ") then
      Bullet(FirstNonSpace(line) > 0, ParseInline(trimmed[2..]))
    else RenderImageOrText(line)
  }

  function RenderImageOrText(line: string): Block {
    match SearchImage(line, 0)
    case Some(m) =>
      var alt := line[m.0 + 2..m.1];
      Figure(line[m.1 + 2..m.2 - 1], alt, if alt != "" then Some(alt) else None)
    case None =>
      if Trim(line) == "" then Break else Paragraph(ParseInline(line))
  }

  /** The `lines.map` with the `inCodeBlock` flag carried from line to line: a fence flips the
      flag and yields `None`, every other line is handed to `f` with the current flag. */
  function MapLines<T>(lines: seq<string>, i: nat, inCode: bool, f: (string, bool) -> T): (r: seq<Option<T>>)
    requires i <= |lines|
    ensures |r| == |lines| - i
    decreases |lines| - i
  {
    if i == |lines| then []
    else if IsFence(lines[i]) then [None] + MapLines(lines, i + 1, !inCode, f)
    else [Some(f(lines[i], inCode))] + MapLines(lines, i + 1, inCode, f)
  }

  function Lines(content: string): seq<string> {
    Split(content, {'\n'})
  }

  function Render(content: string): seq<Option<Block>> {
    MapLines(Lines(content), 0, false, RenderLine)
  }

  // ---------------------------------------------------------------------------------------
  // Code mode, by counting fences

  /** Number of fence lines among the first `i` lines. */
  function FencesBefore(lines: seq<string>, i: nat): nat
    requires i <= |lines|
  {
    if i == 0 then 0 else FencesBefore(lines, i - 1) + (if IsFence(lines[i - 1]) then 1 else 0)
  }

  /** Line `i` is inside a code block: an odd number of fences precede it. */
  predicate InCode(lines: seq<string>, i: nat)
    requires i <= |lines|
  {
    FencesBefore(lines, i) % 2 == 1
  }

  lemma {:induction false} MapLinesAt<T>(lines: seq<string>, j: nat, i: nat, f: (string, bool) -> T)
    requires j <= i < |lines|
    ensures MapLines(lines, j, InCode(lines, j), f)[i - j]
         == if IsFence(lines[i]) then None else Some(f(lines[i], InCode(lines, i)))
    decreases i - j
  {
    if j < i {
      InCodeStep(lines, j);
      var tail := MapLines(lines, j + 1, InCode(lines, j + 1), f);
      assert MapLines(lines, j, InCode(lines, j), f)
          == [if IsFence(lines[j]) then None else Some(f(lines[j], InCode(lines, j)))] + tail;
      MapLinesAt(lines, j + 1, i, f);
    }
  }

  /** A fence flips the code flag for the next line; any other line leaves it alone. */
  lemma InCodeStep(lines: seq<string>, j: nat)
    requires j < |lines|
    ensures InCode(lines, j + 1) == (if IsFence(lines[j]) then !InCode(lines, j) else InCode(lines, j))
  {
  }

  /** Reference definition of what line `i` renders to. */
  function Slot(lines: seq<string>, i: nat): Option<Block>
    requires i < |lines|
  {
    if IsFence(lines[i]) then None else Some(RenderLine(lines[i], InCode(lines, i)))
  }

  /** Every line gets one slot, and the slot of line `i` depends only on that line and on
      whether an odd number of fences comes before it. */
  lemma RenderSpec(content: string)
    ensures |Render(content)| == |Lines(content)|
    ensures forall i :: 0 <= i < |Lines(content)| ==> Render(content)[i] == Slot(Lines(content), i)
  {
    var lines := Lines(content);
    forall i | 0 <= i < |lines| ensures Render(content)[i] == Slot(lines, i) {
      MapLinesAt(lines, 0, i, RenderLine);
    }
  }

  // ---------------------------------------------------------------------------------------
  // Individual rules

  /** A heading's text is the line after its marker; its id is the slug of that text. */
  lemma HeadingText(line: string, marker: string, level: nat)
    requires StartsWith(line, marker)
    ensures HeadingOf(line, marker, level)
         == Heading(level, GenerateHeadingId(line[|marker|..]), ParseInline(line[|marker|..]))
  {
    ReplaceFirstAtStart(line, marker);
  }

  function HeadingLevel(line: string): nat {
    if StartsWith(line, "# ") then 1
    else if StartsWith(line, "## ") then 2
    else if StartsWith(line, "### ") then 3
    else 0
  }

  /** Outside code, a line is a heading exactly when it starts with one to three `#` and a
      space; the level is the number of `#` and the text follows the space. */
  lemma HeadingRule(line: string)
    ensures RenderLine(line, false).Heading? <==> HeadingLevel(line) > 0
    ensures HeadingLevel(line) > 0 ==>
      var text := line[HeadingLevel(line) + 1..];
      RenderLine(line, false) == Heading(HeadingLevel(line), GenerateHeadingId(text), ParseInline(text))
  {
    if StartsWith(line, "# ") {
      HeadingText(line, "# ", 1);
    } else if StartsWith(line, "## ") {
      HeadingText(line, "## ", 2);
    } else if StartsWith(line, "### ") {
      HeadingText(line, "### ", 3);
    }
  }

  /** Outside code, a line is a quote exactly when it is not a heading and starts with `> `;
      each such line is a quote of its own, showing the text after the marker. */
  lemma QuoteRule(line: string)
    ensures RenderLine(line, false).Quote? <==> HeadingLevel(line) == 0 && StartsWith(line, "> ")
    ensures RenderLine(line, false).Quote? ==> RenderLine(line, false).body == ParseInline(line[2..])
  {
    if StartsWith(line, "> ") {
      ReplaceFirstAtStart(line, "> ");
    }
  }

  /** A bullet is nested exactly when its line is indented, and shows the trimmed line without
      its two-character marker. */
  lemma BulletRule(line: string)
    requires RenderListOrImage(line).Bullet?
    ensures StartsWith(Trim(line), "- ") || StartsWith(Trim(line), "* ")
    ensures RenderListOrImage(line).nested <==> IsJsSpace(line[0])
    ensures RenderListOrImage(line).body == ParseInline(Trim(line)[2..])
  {
    TrimEmptyIff(line);
  }

  lemma {:induction false} SearchImageSpec(s: string, r: nat)
    requires r <= |s| && SearchImage(s, r).Some?
    ensures var m := SearchImage(s, r).value;
      Pair(s, m.0, '!', '[') && LinkClose(s, m.0 + 2) == Some((m.1, m.2))
    decreases |s| - r
  {
    if ImageAt(s, r).None? {
      SearchImageSpec(s, r + 1);
    }
  }

  /** The leftmost image match is `![`, the alternative text, `](`, the address and `)`. */
  lemma ImageRebuild(line: string)
    requires SearchImage(line, 0).Some?
    ensures var m := SearchImage(line, 0).value;
      line[m.0..m.2] == "![" + line[m.0 + 2..m.1] + "](" + line[m.1 + 2..m.2 - 1] + ")"
  {
    var m := SearchImage(line, 0).value;
    ImageMarks(line);
    ImageSlice(line, m.0, m.1, m.2);
  }

  /** Where the leftmost image match puts its `![`, its `](` and its `)`. */
  lemma ImageMarks(line: string)
    requires SearchImage(line, 0).Some?
    ensures var m := SearchImage(line, 0).value;
      Pair(line, m.0, '!', '[') && Pair(line, m.1, ']', '(') && line[m.2 - 1] == ')'
  {
    var m := SearchImage(line, 0).value;
    SearchImageSpec(line, 0);
    LinkCloseSpec(line, m.0 + 2);
  }

  lemma ImageSlice(s: string, i: nat, a: nat, e: nat)
    requires i + 2 <= a && a + 3 <= e <= |s| && Pair(s, i, '!', '[') && Pair(s, a, ']', '(') && s[e - 1] == ')'
    ensures s[i..e] == "![" + s[i + 2..a] + "](" + s[a + 2..e - 1] + ")"
  {
    var alt, src := s[i + 2..a], s[a + 2..e - 1];
    PairParenSlice(s, i + 2, a, e);
    BangSlice(s, i, e);
    assert s[i..e] == "![" + (alt + "](" + src + ")");
  }

  /** A figure's address and alternative text rebuild the leftmost image in the line. */
  lemma FigureRule(line: string)
    requires RenderImageOrText(line).Figure?
    ensures var f := RenderImageOrText(line);
      var m := SearchImage(line, 0).value;
      line[m.0..m.2] == "![" + f.alt + "](" + f.src + ")"
  {
    ImageRebuild(line);
  }

  lemma BangSlice(s: string, i: nat, e: nat)
    requires i + 2 <= e <= |s| && Pair(s, i, '!', '[')
    ensures s[i..e] == "![" + s[i + 2..e]
  {
    assert s[i..i + 2] == "![";
    SliceConcat(s, i, i + 2, e);
  }

  /** The caption is shown exactly when the alternative text is not empty, and is that text. */
  lemma FigureCaption(line: string)
    requires RenderImageOrText(line).Figure?
    ensures var f := RenderImageOrText(line);
      (f.caption.Some? <==> f.alt != "") && (f.caption.Some? ==> f.caption.value == f.alt)
  {
  }

  /** Without a `!` there is no image. */
  lemma {:induction false} SearchImageNoBang(s: string, r: nat)
    requires r <= |s| && forall k :: 0 <= k < |s| ==> s[k] != '!'
    ensures SearchImage(s, r).None?
    decreases |s| - r
  {
    if r < |s| {
      SearchImageNoBang(s, r + 1);
    }
  }

  /** A blank line starts with no marker, so it reaches the last rule. */
  lemma BlankLine(line: string)
    requires forall i :: 0 <= i < |line| ==> IsJsSpace(line[i])
    ensures RenderText(line) == Break
  {
    TrimEmptyIff(line);
    SearchImageNoBang(line, 0);
    if |line| > 0 {
      assert IsJsSpace(line[0]);
      StartsWithHead(line, "# ");
      StartsWithHead(line, "## ");
      StartsWithHead(line, "### ");
      StartsWithHead(line, "> ");
    }
  }

  /** Outside code, a line becomes a line break exactly when it is all white space. */
  lemma BreakRule(line: string)
    ensures RenderLine(line, false) == Break <==> forall i :: 0 <= i < |line| ==> IsJsSpace(line[i])
  {
    TrimEmptyIff(line);
    if forall i :: 0 <= i < |line| ==> IsJsSpace(line[i]) {
      BlankLine(line);
    }
  }
}
