/** components/TableOfContents.tsx: the lines of the content that start with `# ` or `## `,
    each with its level, its text and the id the renderer gives the same heading. */
module Toc {
  import opened Wrappers
  import opened Strings
  import opened Slug
  import opened Inline
  import opened Markdown
  import opened Seqs

  datatype Entry = Entry(id: string, text: string, level: nat)

  predicate IsTocLine(line: string) {
    StartsWith(line, "# ") || StartsWith(line, "## ")
  }

  /** Length of the run of `#` at the start of `s`. */
  function HashRun(s: string, i: nat): (j: nat)
    requires i <= |s|
    ensures i <= j <= |s| && (j < |s| ==> s[j] != '#')
    decreases |s| - i
  {
    if i < |s| && s[i] == '#' then HashRun(s, i + 1) else i
  }

  /** `line.replace(/^#+\s/, '')`: `#+` takes the whole run (giving units back cannot help, as
      `\s` never matches `#`), then one white-space unit must follow. */
  function StripMarker(line: string): string {
    var h := HashRun(line, 0);
    if h >= 1 && h < |line| && IsJsSpace(line[h]) then line[h + 1..] else line
  }

  function EntryOf(line: string): Entry {
    var text := StripMarker(line);
    Entry(GenerateHeadingId(text), text, if StartsWith(line, "# ") then 1 else 2)
  }

  /** `lines.filter(...).map(...)`, as written: fences are not looked at. */
  function TocFrom(lines: seq<string>, i: nat): (r: seq<Entry>)
    requires i <= |lines|
    ensures |r| <= |lines| - i
    decreases |lines| - i
  {
    if i == |lines| then []
    else (if IsTocLine(lines[i]) then [EntryOf(lines[i])] else []) + TocFrom(lines, i + 1)
  }

  function Toc(content: string): seq<Entry> {
    TocFrom(Lines(content), 0)
  }

  /** The marker the regular expression strips is the one the renderer cuts off. */
  lemma StripMarkerHeading(line: string)
    requires IsTocLine(line)
    ensures StripMarker(line) == line[HeadingLevel(line) + 1..]
    ensures EntryOf(line).level == HeadingLevel(line)
  {
    assert line[0] == '#';
    if StartsWith(line, "# ") {
      assert line[1] == ' ';
      assert HashRun(line, 1) == 1;
    } else {
      assert line[1] == '#' && line[2] == ' ';
      assert HashRun(line, 2) == 2;
      assert line[..2][1] == '#';
    }
  }

  /** For a heading line outside code, the entry's id and level are those of the heading the
      renderer draws, so the link `#id` reaches it. */
  lemma EntryMatchesHeading(line: string)
    requires IsTocLine(line)
    ensures var e := EntryOf(line);
      RenderLine(line, false) == Heading(e.level, e.id, ParseInline(e.text))
  {
    StripMarkerHeading(line);
    HeadingRule(line);
  }

  /** Entries, in order, with the index of the line each one comes from. */
  lemma {:induction false} TocFromLines(lines: seq<string>, i: nat, k: nat)
    requires i <= |lines| && k < |TocFrom(lines, i)|
    ensures exists n :: i <= n < |lines| && IsTocLine(lines[n]) && TocFrom(lines, i)[k] == EntryOf(lines[n])
    decreases |lines| - i
  {
    if !IsTocLine(lines[i]) {
      TocFromLines(lines, i + 1, k);
    } else if k > 0 {
      TocFromLines(lines, i + 1, k - 1);
    }
  }

  /** `map(EntryOf)` over a list of lines. */
  function EntriesOf(ls: seq<string>): (r: seq<Entry>)
    ensures |r| == |ls|
    ensures forall j :: 0 <= j < |ls| ==> r[j] == EntryOf(ls[j])
  {
    seq(|ls|, j requires 0 <= j < |ls| => EntryOf(ls[j]))
  }

  /** The table is the `filter` of the TOC lines followed by the `map` to entries: one entry
      per `# ` or `## ` line, in document order, none from any other line. */
  lemma {:induction false} TocFromIsFilterMap(lines: seq<string>, i: nat)
    requires i <= |lines|
    ensures TocFrom(lines, i) == EntriesOf(Filter(lines[i..], IsTocLine))
    decreases |lines| - i
  {
    if i < |lines| {
      TocFromIsFilterMap(lines, i + 1);
      var rest := Filter(lines[i + 1..], IsTocLine);
      assert lines[i..][1..] == lines[i + 1..];
      if IsTocLine(lines[i]) {
        assert Filter(lines[i..], IsTocLine) == [lines[i]] + rest;
        assert EntriesOf([lines[i]] + rest) == [EntryOf(lines[i])] + EntriesOf(rest);
      } else {
        assert Filter(lines[i..], IsTocLine) == rest;
      }
    }
  }

  /** The table lists every TOC line of the content, as often as it occurs, in document
      order, and nothing else. */
  lemma TocSpec(content: string)
    ensures var toc := Filter(Lines(content), IsTocLine);
      && Toc(content) == EntriesOf(toc)
      && IsSubseq(toc, Lines(content))
      && (forall l :: multiset(toc)[l] == if IsTocLine(l) then multiset(Lines(content))[l] else 0)
  {
    TocFromIsFilterMap(Lines(content), 0);
    assert Lines(content)[0..] == Lines(content);
    FilterSpec(Lines(content), IsTocLine);
  }

  /** The table is empty, and the component renders nothing, exactly when no line starts with
      `# ` or `## `. */
  lemma {:induction false} TocFromEmpty(lines: seq<string>, i: nat)
    requires i <= |lines|
    ensures TocFrom(lines, i) == [] <==> forall n :: i <= n < |lines| ==> !IsTocLine(lines[n])
    decreases |lines| - i
  {
    if i < |lines| {
      TocFromEmpty(lines, i + 1);
    }
  }

  // ---------------------------------------------------------------------------------------
  // Headings inside code blocks

  /** Some rendered line is a heading with this id and level. */
  predicate HasHeading(slots: seq<Option<Block>>, id: string, level: nat) {
    exists i :: 0 <= i < |slots| && slots[i].Some? && slots[i].value.Heading?
      && slots[i].value.id == id && slots[i].value.level == level
  }

  const FencedLines: seq<string> := ["```", "# x", "```"]

  lemma FencedSampleLines()
    ensures Lines(Join(FencedLines, "\n")) == FencedLines
  {
    JoinSplit(FencedLines, '\n');
  }

  /** As written, a `# ` line inside a fenced code block is listed, though the renderer draws
      it as code and no element carries its id. */
  lemma TocListsCodeLines()
    ensures Toc(Join(FencedLines, "\n")) == [Entry("x", "x", 1)]
    ensures !HasHeading(Render(Join(FencedLines, "\n")), "x", 1)
  {
    FencedSampleLines();
    FencedToc();
    FencedRender();
  }

  lemma FencedToc()
    ensures TocFrom(FencedLines, 0) == [Entry("x", "x", 1)]
  {
    StripMarkerHeading("# x");
    assert GenerateHeadingId("x") == "x";
    assert !StartsWith("```", "# ") && !StartsWith("```", "## ");
    assert TocFrom(FencedLines, 2) == [];
  }

  lemma FencedRender()
    ensures MapLines(FencedLines, 0, false, RenderLine) == [None, Some(Code("# x")), None]
  {
    assert IsFence("```");
    StartsWithHead("# x", "```");
  }

  /** The table of contents with the renderer's fence tracking: lines inside code are skipped. */
  function TocOutsideFrom(lines: seq<string>, i: nat, inCode: bool): (r: seq<Entry>)
    requires i <= |lines|
    decreases |lines| - i
  {
    if i == |lines| then []
    else if IsFence(lines[i]) then TocOutsideFrom(lines, i + 1, !inCode)
    else (if !inCode && IsTocLine(lines[i]) then [EntryOf(lines[i])] else []) + TocOutsideFrom(lines, i + 1, inCode)
  }

  function TocOutsideCode(content: string): seq<Entry> {
    TocOutsideFrom(Lines(content), 0, false)
  }

  /** Entry `k` of the table from line `i` on, with the flag `inCode` of line `i`, comes from
      a line `n` outside code. */
  lemma {:induction false} TocOutsideFromLines(lines: seq<string>, i: nat, inCode: bool, k: nat) returns (n: nat)
    requires i <= |lines| && inCode == InCode(lines, i) && k < |TocOutsideFrom(lines, i, inCode)|
    ensures i <= n < |lines| && !IsFence(lines[n]) && !InCode(lines, n) && IsTocLine(lines[n])
    ensures TocOutsideFrom(lines, i, inCode)[k] == EntryOf(lines[n])
    decreases |lines| - i
  {
    var next := if IsFence(lines[i]) then !inCode else inCode;
    InCodeStep(lines, i);
    var tail := TocOutsideFrom(lines, i + 1, next);
    if IsFence(lines[i]) || inCode || !IsTocLine(lines[i]) {
      assert TocOutsideFrom(lines, i, inCode) == tail;
      n := TocOutsideFromLines(lines, i + 1, next, k);
    } else {
      assert TocOutsideFrom(lines, i, inCode) == [EntryOf(lines[i])] + tail;
      if k > 0 {
        n := TocOutsideFromLines(lines, i + 1, next, k - 1);
      } else {
        n := i;
      }
    }
  }

  /** Every entry of the corrected table points at a heading the renderer draws, with the
      same id and level. */
  lemma TocOutsideCodeReachesHeadings(content: string)
    ensures forall k :: 0 <= k < |TocOutsideCode(content)| ==>
      HasHeading(Render(content), TocOutsideCode(content)[k].id, TocOutsideCode(content)[k].level)
  {
    var lines := Lines(content);
    RenderSpec(content);
    forall k | 0 <= k < |TocOutsideCode(content)|
      ensures HasHeading(Render(content), TocOutsideCode(content)[k].id, TocOutsideCode(content)[k].level)
    {
      var n := TocOutsideFromLines(lines, 0, false, k);
      EntryMatchesHeading(lines[n]);
      assert Render(content)[n] == Slot(lines, n);
    }
  }
}
