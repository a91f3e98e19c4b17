/** `generateHeadingId` of lib/utils.ts: lower-case the heading text, then replace every
    maximal run of characters outside `[A-Za-z0-9_]` and U+4E00..U+9FA5 by a single `-`. */
module Slug {
  import opened Strings

  /** The regular-expression class `\w`. */
  predicate IsWordChar(c: char) {
    ('a' <= c <= 'z') || ('A' <= c <= 'Z') || ('0' <= c <= '9') || c == '_'
  }

  predicate IsCjk(c: char) {
    '\U{4E00}' <= c <= '\U{9FA5}'
  }

  /** Characters the slug keeps; every other character belongs to a run that becomes `-`. */
  predicate Kept(c: char) {
    IsWordChar(c) || IsCjk(c)
  }

  /** Characters a slug may contain. */
  predicate SlugChar(c: char) {
    ('a' <= c <= 'z') || ('0' <= c <= '9') || c == '_' || IsCjk(c) || c == '-'
  }

  predicate NoDoubleDash(s: string) {
    forall i :: 0 <= i < |s| - 1 ==> !(s[i] == '-' && s[i + 1] == '-')
  }

  predicate NoUpper(s: string) {
    forall i :: 0 <= i < |s| ==> !('A' <= s[i] <= 'Z')
  }

  /** End of the run of non-kept characters starting at `i`. */
  function RunEnd(s: string, i: nat): (j: nat)
    requires i <= |s|
    ensures i <= j <= |s|
    ensures forall k :: i <= k < j ==> !Kept(s[k])
    ensures j < |s| ==> Kept(s[j])
    decreases |s| - i
  {
    if i < |s| && !Kept(s[i]) then RunEnd(s, i + 1) else i
  }

  /** The global replace of `/[^\w\u4e00-\u9fa5]+/` by `-`, applied to `s[i..]`. */
  function CollapseFrom(s: string, i: nat): (r: string)
    requires i <= |s|
    ensures i == |s| <==> r == []
    ensures i < |s| ==> r[0] == (if Kept(s[i]) then s[i] else '-')
    ensures forall k :: 0 <= k < |r| ==> Kept(r[k]) || r[k] == '-'
    ensures NoDoubleDash(r)
    decreases |s| - i
  {
    if i == |s| then []
    else if Kept(s[i]) then [s[i]] + CollapseFrom(s, i + 1)
    else ['-'] + CollapseFrom(s, RunEnd(s, i))
  }

  function CollapseRuns(s: string): string {
    CollapseFrom(s, 0)
  }

  function GenerateHeadingId(text: string): string {
    CollapseRuns(Lower(text))
  }

  lemma {:induction false} CollapseFromNoUpper(s: string, i: nat)
    requires i <= |s| && NoUpper(s)
    ensures NoUpper(CollapseFrom(s, i))
    decreases |s| - i
  {
    if i < |s| {
      if Kept(s[i]) {
        CollapseFromNoUpper(s, i + 1);
      } else {
        CollapseFromNoUpper(s, RunEnd(s, i));
      }
    }
  }

  /** The id contains only lower-case word characters, CJK ideographs and single dashes. */
  lemma GenerateHeadingIdShape(text: string)
    ensures forall i :: 0 <= i < |GenerateHeadingId(text)| ==> SlugChar(GenerateHeadingId(text)[i])
    ensures NoDoubleDash(GenerateHeadingId(text))
  {
    CollapseFromNoUpper(Lower(text), 0);
  }

  /** Reference definition: a left-to-right scan of `s[i..]` that emits `-` on entering a run. */
  function ScanFrom(s: string, i: nat, inRun: bool): string
    requires i <= |s|
    decreases |s| - i
  {
    if i == |s| then []
    else if Kept(s[i]) then [s[i]] + ScanFrom(s, i + 1, false)
    else (if inRun then [] else ['-']) + ScanFrom(s, i + 1, true)
  }

  lemma {:induction false} ScanInRun(s: string, i: nat)
    requires i <= |s|
    ensures ScanFrom(s, i, true) == ScanFrom(s, RunEnd(s, i), false)
    decreases |s| - i
  {
    if i < |s| && !Kept(s[i]) {
      ScanInRun(s, i + 1);
    }
  }

  /** The run-collapsing replace agrees with the scan on every input. */
  lemma {:induction false} CollapseRunsIsScan(s: string, i: nat)
    requires i <= |s|
    ensures CollapseFrom(s, i) == ScanFrom(s, i, false)
    decreases |s| - i
  {
    if i < |s| {
      if Kept(s[i]) {
        CollapseRunsIsScan(s, i + 1);
      } else {
        ScanInRun(s, i + 1);
        assert RunEnd(s, i) == RunEnd(s, i + 1);
        CollapseRunsIsScan(s, RunEnd(s, i));
      }
    }
  }

  /** The kept characters of a string, in order. */
  function KeptChars(s: string): string {
    if |s| == 0 then [] else (if Kept(s[0]) then [s[0]] else []) + KeptChars(s[1..])
  }

  lemma {:induction false} KeptCharsRun(s: string, i: nat)
    requires i <= |s|
    ensures KeptChars(s[RunEnd(s, i)..]) == KeptChars(s[i..])
    decreases |s| - i
  {
    if i < |s| && !Kept(s[i]) {
      KeptCharsRun(s, i + 1);
      assert s[i..][1..] == s[i + 1..];
    }
  }

  /** Collapsing runs neither drops nor reorders a kept character. */
  lemma {:induction false} CollapseRunsKeepsKept(s: string, i: nat)
    requires i <= |s|
    ensures KeptChars(CollapseFrom(s, i)) == KeptChars(s[i..])
    decreases |s| - i
  {
    if i < |s| {
      var r := CollapseFrom(s, i);
      assert s[i..][1..] == s[i + 1..];
      if Kept(s[i]) {
        CollapseRunsKeepsKept(s, i + 1);
        assert r[1..] == CollapseFrom(s, i + 1);
      } else {
        KeptCharsRun(s, i + 1);
        assert RunEnd(s, i) == RunEnd(s, i + 1);
        CollapseRunsKeepsKept(s, RunEnd(s, i));
        assert r[1..] == CollapseFrom(s, RunEnd(s, i));
      }
    }
  }

  /** A string made of kept characters and single dashes is left as it is. */
  lemma {:induction false} CollapseRunsFixpoint(s: string, i: nat)
    requires i <= |s|
    requires forall k :: 0 <= k < |s| ==> Kept(s[k]) || s[k] == '-'
    requires NoDoubleDash(s)
    ensures CollapseFrom(s, i) == s[i..]
    decreases |s| - i
  {
    if i < |s| {
      if Kept(s[i]) {
        CollapseRunsFixpoint(s, i + 1);
      } else {
        assert i + 1 < |s| ==> Kept(s[i + 1]);
        assert RunEnd(s, i) == i + 1;
        CollapseRunsFixpoint(s, i + 1);
      }
    }
  }

  lemma LowerNoUpper(s: string)
    requires NoUpper(s)
    ensures Lower(s) == s
  {
  }

  /** Applying `generateHeadingId` to an id changes nothing. */
  lemma GenerateHeadingIdIdempotent(text: string)
    ensures GenerateHeadingId(GenerateHeadingId(text)) == GenerateHeadingId(text)
  {
    var id := GenerateHeadingId(text);
    CollapseFromNoUpper(Lower(text), 0);
    LowerNoUpper(id);
    CollapseRunsFixpoint(id, 0);
  }

  /** Example: punctuation and white space collapse to one dash, letters and ideographs survive. */
  lemma HelloExample()
    ensures GenerateHeadingId("Hi, 你好") == "hi-你好"
  {
    var s := "hi, 你好";
    assert Lower("Hi, 你好") == s;
    assert RunEnd(s, 2) == 4;
  }
}
