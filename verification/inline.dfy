/** `parseInline` of components/MarkdownRenderer.tsx: the text is split by
    `/(\*\*.*?\*\*|\[.*?\]\(.*?\))/g` and every piece becomes plain text, bold text or a link.
    The regular expression is modelled by hand: a sticky match attempt at each position, the
    lazy quantifiers trying the shortest body first and backtracking when the rest fails. */
module Inline {
  import opened Wrappers
  import opened Strings

  datatype Span = Text(text: string) | Bold(text: string) | Link(anchor: string, href: string)

  /** The code units `.` does not match. */
  predicate IsLineTerminator(c: char) {
    c == '\n' || c == '\r' || c == '\U{2028}' || c == '\U{2029}'
  }

  /** `s[i..j]` is matched by `.*`. */
  predicate Dots(s: string, i: int, j: int)
    requires 0 <= i <= j <= |s|
  {
    forall k :: i <= k < j ==> !IsLineTerminator(s[k])
  }

  /** The two units `a`, `b` stand at `i` and `i + 1`. */
  predicate Pair(s: string, i: int, a: char, b: char) {
    0 <= i && i + 1 < |s| && s[i] == a && s[i + 1] == b
  }

  /** `.*?\*\*` from `j`: the end of the first `**` reachable through `.`. */
  function BoldClose(s: string, j: nat): (r: Option<nat>)
    requires j <= |s|
    ensures r.Some? ==> j + 2 <= r.value <= |s|
    decreases |s| - j
  {
    if Pair(s, j, '*', '*') then Some(j + 2)
    else if j < |s| && !IsLineTerminator(s[j]) then BoldClose(s, j + 1)
    else None
  }

  /** `\*\*.*?\*\*` tried at `q`: the end of the match. */
  function BoldAt(s: string, q: nat): (r: Option<nat>)
    requires q <= |s|
    ensures r.Some? ==> q + 4 <= r.value <= |s|
  {
    if Pair(s, q, '*', '*') then BoldClose(s, q + 2) else None
  }

  /** `.*?\)` from `j`: the index of the first `)` reachable through `.`. */
  function ParenClose(s: string, j: nat): (r: Option<nat>)
    requires j <= |s|
    ensures r.Some? ==> j <= r.value < |s| && s[r.value] == ')'
    decreases |s| - j
  {
    if j == |s| then None
    else if s[j] == ')' then Some(j)
    else if !IsLineTerminator(s[j]) then ParenClose(s, j + 1)
    else None
  }

  /** `\]\(.*?\)` tried at `j`: the index of the closing `)`. */
  function LinkTail(s: string, j: nat): (r: Option<nat>)
    requires j <= |s|
    ensures r.Some? ==> j + 2 <= r.value < |s|
  {
    if Pair(s, j, ']', '(') then ParenClose(s, j + 2) else None
  }

  /** `.*?\]\(.*?\)` from `j`: the first `.*?` grows one unit at a time until `](` follows and
      the second part matches; the result is the index of that `](` and the end of the match. */
  function LinkClose(s: string, j: nat): (r: Option<(nat, nat)>)
    requires j <= |s|
    ensures r.Some? ==> j <= r.value.0 && r.value.0 + 3 <= r.value.1 <= |s|
    decreases |s| - j
  {
    match LinkTail(s, j)
    case Some(c) => Some((j, c + 1))
    case None => if j < |s| && !IsLineTerminator(s[j]) then LinkClose(s, j + 1) else None
  }

  /** `\[.*?\]\(.*?\)` tried at `q`. */
  function LinkAt(s: string, q: nat): (r: Option<(nat, nat)>)
    requires q <= |s|
    ensures r.Some? ==> q + 1 <= r.value.0 && r.value.0 + 3 <= r.value.1 <= |s|
  {
    if q < |s| && s[q] == '[' then LinkClose(s, q + 1) else None
  }

  /** The alternation tried at `q`: bold first, then link. */
  function MatchAt(s: string, q: nat): (r: Option<nat>)
    requires q <= |s|
    ensures r.Some? ==> q + 4 <= r.value <= |s|
  {
    match BoldAt(s, q)
    case Some(e) => Some(e)
    case None =>
      match LinkAt(s, q)
      case Some(m) => Some(m.1)
      case None => None
  }

  /** `s.split(re)` with one capturing group around the whole pattern: text before each
      match, then the match itself, and finally the rest. `p` is where the current text piece
      began and `q` the next position to try. */
  function SplitFrom(s: string, p: nat, q: nat): (parts: seq<string>)
    requires p <= q <= |s|
    ensures |parts| % 2 == 1
    decreases |s| - q
  {
    if q == |s| then [s[p..]]
    else
      match MatchAt(s, q)
      case Some(e) => [s[p..q], s[q..e]] + SplitFrom(s, e, e)
      case None => SplitFrom(s, p, q + 1)
  }

  function SplitInline(s: string): seq<string> {
    SplitFrom(s, 0, 0)
  }

  function Concat(parts: seq<string>): string {
    if |parts| == 0 then "" else parts[0] + Concat(parts[1..])
  }

  /** The leftmost link match anywhere in `s` at or after `r`, as `s.match(re)` without `g`:
      the positions of `[`, of `](` and the end. */
  function SearchLink(s: string, r: nat): (m: Option<(nat, nat, nat)>)
    requires r <= |s|
    ensures m.Some? ==> r <= m.value.0 && m.value.0 + 1 <= m.value.1 && m.value.1 + 3 <= m.value.2 <= |s|
    decreases |s| - r
  {
    match LinkAt(s, r)
    case Some(x) => Some((r, x.0, x.1))
    case None => if r == |s| then None else SearchLink(s, r + 1)
  }

  /** `part.slice(2, -2)`. */
  function SliceInner(part: string): string {
    if |part| >= 4 then part[2..|part| - 2] else ""
  }

  /** The `parts.map` callback: bold when the piece starts and ends with `**`, a link when it
      starts with `[`, contains `](`, ends with `)` and holds a link match, else the text. */
  function Classify(part: string): Span {
    if StartsWith(part, "**") && EndsWith(part, "**") then Bold(SliceInner(part))
    else if StartsWith(part, "[") && Includes(part, "](") && EndsWith(part, ")") then
      match SearchLink(part, 0)
      case Some(m) => Link(part[m.0 + 1..m.1], part[m.1 + 2..m.2 - 1])
      case None => Text(part)
    else Text(part)
  }

  function ParseInline(text: string): seq<Span> {
    var parts := SplitInline(text);
    seq(|parts|, i requires 0 <= i < |parts| => Classify(parts[i]))
  }

  // ---------------------------------------------------------------------------------------
  // What the matchers find

  /** A bold match closes at the first `**` after the opening one, with no line terminator
      in between. */
  lemma {:induction false} BoldCloseSpec(s: string, j: nat)
    requires j <= |s| && BoldClose(s, j).Some?
    ensures var e := BoldClose(s, j).value;
      && Pair(s, e - 2, '*', '*')
      && Dots(s, j, e - 2)
      && forall k :: j <= k < e - 2 ==> !Pair(s, k, '*', '*')
    decreases |s| - j
  {
    if !Pair(s, j, '*', '*') {
      BoldCloseSpec(s, j + 1);
    }
  }

  /** The `)` found is the first one after `j`, and only `.` units lie before it. */
  lemma {:induction false} ParenCloseSpec(s: string, j: nat)
    requires j <= |s| && ParenClose(s, j).Some?
    ensures var c := ParenClose(s, j).value;
      Dots(s, j, c) && forall k :: j <= k < c ==> s[k] != ')'
    decreases |s| - j
  {
    if s[j] != ')' {
      ParenCloseSpec(s, j + 1);
    }
  }

  /** If no `)` is reachable from `x`, none is reachable from a later `y` either. */
  lemma {:induction false} ParenCloseNoneLater(s: string, x: nat, y: nat)
    requires x <= y <= |s| && Dots(s, x, y)
    requires ParenClose(s, x).None?
    ensures ParenClose(s, y).None?
    decreases y - x
  {
    if x < y {
      ParenCloseNoneLater(s, x + 1, y);
    }
  }

  lemma {:induction false} LinkCloseSpec(s: string, j: nat)
    requires j <= |s| && LinkClose(s, j).Some?
    ensures var m := LinkClose(s, j).value;
      && Pair(s, m.0, ']', '(')
      && Dots(s, j, m.0)
      && ParenClose(s, m.0 + 2) == Some(m.1 - 1)
    decreases |s| - j
  {
    if LinkClose(s, j).value.0 != j {
      LinkCloseSpec(s, j + 1);
    }
  }

  /** Backtracking into the first `.*?` never helps: the `](` used is the first one. */
  lemma {:induction false} LinkCloseFirst(s: string, j: nat)
    requires j <= |s| && LinkClose(s, j).Some?
    ensures forall k :: j <= k < LinkClose(s, j).value.0 ==> !Pair(s, k, ']', '(')
    decreases |s| - j
  {
    var a := LinkClose(s, j).value.0;
    if a != j {
      LinkCloseFirst(s, j + 1);
      LinkCloseSpec(s, j);
      if Pair(s, j, ']', '(') {
        assert s[a] == ']' && s[a + 1] == '(';
        assert Dots(s, j + 2, a + 2);
        ParenCloseNoneLater(s, j + 2, a + 2);
      }
    }
  }

  // ---------------------------------------------------------------------------------------
  // Splitting

  lemma {:induction false} ConcatCons(x: string, rest: seq<string>)
    ensures Concat([x] + rest) == x + Concat(rest)
  {
    assert ([x] + rest)[1..] == rest;
  }

  /** Gluing the pieces back together gives the text that was split. */
  lemma {:induction false} SplitFromConcat(s: string, p: nat, q: nat)
    requires p <= q <= |s|
    ensures Concat(SplitFrom(s, p, q)) == s[p..]
    decreases |s| - q
  {
    if q == |s| {
      ConcatCons(s[p..], []);
    } else {
      match MatchAt(s, q)
      case Some(e) =>
        SplitFromConcat(s, e, e);
        ConcatCons(s[q..e], SplitFrom(s, e, e));
        ConcatCons(s[p..q], [s[q..e]] + SplitFrom(s, e, e));
        assert [s[p..q], s[q..e]] + SplitFrom(s, e, e) == [s[p..q]] + ([s[q..e]] + SplitFrom(s, e, e));
        assert s[p..] == s[p..q] + (s[q..e] + s[e..]);
      case None =>
        SplitFromConcat(s, p, q + 1);
    }
  }

  lemma SplitInlineConcat(s: string)
    ensures Concat(SplitInline(s)) == s
  {
    SplitFromConcat(s, 0, 0);
  }

  // ---------------------------------------------------------------------------------------
  // Locality: a match only looks at the units it spans, so it is found again in the piece

  lemma {:induction false} BoldCloseLocal(s: string, q: nat, j: nat, f: nat)
    requires q <= j <= |s| && BoldClose(s, j).Some? && BoldClose(s, j).value <= f <= |s|
    ensures BoldClose(s[q..f], j - q) == Some(BoldClose(s, j).value - q)
    decreases |s| - j
  {
    if !Pair(s, j, '*', '*') {
      BoldCloseLocal(s, q, j + 1, f);
    }
  }

  lemma {:induction false} ParenCloseLocal(s: string, q: nat, j: nat, f: nat)
    requires q <= j <= |s| && ParenClose(s, j).Some? && ParenClose(s, j).value < f <= |s|
    ensures ParenClose(s[q..f], j - q) == Some(ParenClose(s, j).value - q)
    decreases |s| - j
  {
    if s[j] != ')' {
      ParenCloseLocal(s, q, j + 1, f);
    }
  }

  /** A `)` that cannot be reached in the whole text cannot be reached in a piece of it. */
  lemma {:induction false} ParenCloseNoneLocal(s: string, q: nat, j: nat, f: nat)
    requires q <= j <= f <= |s| && ParenClose(s, j).None?
    ensures ParenClose(s[q..f], j - q).None?
    decreases f - j
  {
    if j < f && s[j] != ')' && !IsLineTerminator(s[j]) {
      ParenCloseNoneLocal(s, q, j + 1, f);
    }
  }

  lemma LinkTailLocal(s: string, q: nat, j: nat, f: nat)
    requires q <= j <= f <= |s|
    requires LinkTail(s, j).Some? ==> LinkTail(s, j).value < f
    ensures LinkTail(s[q..f], j - q) == (match LinkTail(s, j) case Some(c) => Some(c - q) case None => None)
  {
    if Pair(s, j, ']', '(') {
      if LinkTail(s, j).Some? {
        ParenCloseLocal(s, q, j + 2, f);
      } else if j + 2 <= f {
        ParenCloseNoneLocal(s, q, j + 2, f);
      }
    }
  }

  lemma {:induction false} LinkCloseLocal(s: string, q: nat, j: nat, f: nat)
    requires q <= j <= |s| && LinkClose(s, j).Some? && LinkClose(s, j).value.1 <= f <= |s|
    ensures LinkClose(s[q..f], j - q) == Some((LinkClose(s, j).value.0 - q, LinkClose(s, j).value.1 - q))
    decreases |s| - j
  {
    LinkTailLocal(s, q, j, f);
    if LinkTail(s, j).None? {
      LinkCloseLocal(s, q, j + 1, f);
    }
  }

  /** The alternation matches the whole of `t` when tried at its start. */
  predicate IsMatch(t: string) {
    MatchAt(t, 0) == Some(|t|)
  }

  /** A piece the alternation matched in `s` is matched again, in full, on its own. */
  lemma MatchLocal(s: string, q: nat)
    requires q <= |s| && MatchAt(s, q).Some?
    ensures IsMatch(s[q..MatchAt(s, q).value])
  {
    var e := MatchAt(s, q).value;
    var t := s[q..e];
    assert t[0] == s[q] && t[1] == s[q + 1];
    if BoldAt(s, q).Some? {
      BoldCloseLocal(s, q, q + 2, e);
    } else {
      LinkCloseLocal(s, q, q + 1, e);
    }
  }

  /** Every odd-numbered piece of the split is a complete match. */
  lemma {:induction false} SplitFromOddMatch(s: string, p: nat, q: nat)
    requires p <= q <= |s|
    ensures forall k :: 0 <= k < |SplitFrom(s, p, q)| && k % 2 == 1 ==> IsMatch(SplitFrom(s, p, q)[k])
    decreases |s| - q
  {
    if q < |s| {
      match MatchAt(s, q)
      case Some(e) =>
        var rest := SplitFrom(s, e, e);
        var parts := [s[p..q], s[q..e]] + rest;
        SplitFromOddMatch(s, e, e);
        MatchLocal(s, q);
        forall k | 0 <= k < |parts| && k % 2 == 1 ensures IsMatch(parts[k]) {
          if k >= 2 {
            assert parts[k] == rest[k - 2];
          }
        }
      case None =>
        SplitFromOddMatch(s, p, q + 1);
    }
  }

  predicate NoLineTerminator(t: string) {
    forall k :: 0 <= k < |t| ==> !IsLineTerminator(t[k])
  }

  /** `a` never stands directly before `b` in `t`. */
  predicate LacksPair(t: string, a: char, b: char) {
    forall k :: 0 <= k < |t| - 1 ==> !(t[k] == a && t[k + 1] == b)
  }

  predicate Lacks(t: string, c: char) {
    forall k :: 0 <= k < |t| ==> t[k] != c
  }

  lemma DotsSlice(s: string, i: nat, j: nat)
    requires i <= j <= |s| && Dots(s, i, j)
    ensures NoLineTerminator(s[i..j])
  {
  }

  /** A bold piece: `**`, a text with no `**` and no line terminator, `**`. */
  lemma BoldPiece(t: string)
    requires BoldAt(t, 0) == Some(|t|)
    ensures Classify(t) == Bold(t[2..|t| - 2])
    ensures t == "**" + t[2..|t| - 2] + "**"
    ensures NoLineTerminator(t[2..|t| - 2]) && LacksPair(t[2..|t| - 2], '*', '*')
  {
    var b := t[2..|t| - 2];
    BoldCloseSpec(t, 2);
    assert t[..2] == "**";
    assert t[|t| - 2..] == "**";
    assert t == t[..2] + b + t[|t| - 2..];
    DotsSlice(t, 2, |t| - 2);
    forall k | 0 <= k < |b| - 1 ensures !(b[k] == '*' && b[k + 1] == '*') {
      assert !Pair(t, k + 2, '*', '*');
    }
  }

  /** Where the `](` of a link piece stands. */
  function LinkMid(t: string): nat
    requires LinkAt(t, 0).Some?
  {
    LinkAt(t, 0).value.0
  }

  /** A link piece is rendered as the link between its `[`, its first `](` and its `)`. */
  lemma LinkPieceShape(t: string)
    requires BoldAt(t, 0).None? && LinkAt(t, 0).Some? && LinkAt(t, 0).value.1 == |t|
    ensures Classify(t) == Link(t[1..LinkMid(t)], t[LinkMid(t) + 2..|t| - 1])
  {
    var a := LinkMid(t);
    LinkCloseSpec(t, 1);
    assert t[..1] == "[";
    assert t[|t| - 1..] == ")";
    assert t[a..a + 2] == "](";
    IncludesAt(t, "](", a);
    assert SearchLink(t, 0) == Some((0, a, |t|));
  }

  /** Text, `](`, text and `)` at the given positions make up the slice. */
  lemma PairParenSlice(s: string, j: nat, a: nat, e: nat)
    requires j <= a && a + 3 <= e <= |s| && Pair(s, a, ']', '(') && s[e - 1] == ')'
    ensures s[j..e] == s[j..a] + "](" + s[a + 2..e - 1] + ")"
  {
    assert s[a..a + 2] == "](";
    assert s[e - 1..e] == ")";
    SliceConcat(s, a + 2, e - 1, e);
    SliceConcat(s, a, a + 2, e);
    SliceConcat(s, j, a, e);
  }

  /** The units a link tail spans are the text before `](`, `](`, the address and `)`. */
  lemma LinkCloseRebuild(s: string, j: nat)
    requires j <= |s| && LinkClose(s, j).Some?
    ensures var m := LinkClose(s, j).value;
      s[j..m.1] == s[j..m.0] + "](" + s[m.0 + 2..m.1 - 1] + ")"
  {
    var m := LinkClose(s, j).value;
    LinkCloseSpec(s, j);
    PairParenSlice(s, j, m.0, m.1);
  }

  /** The anchor and the address rebuild the piece. */
  lemma LinkPieceRebuild(t: string)
    requires LinkAt(t, 0).Some? && LinkAt(t, 0).value.1 == |t|
    ensures t == "[" + t[1..LinkMid(t)] + "](" + t[LinkMid(t) + 2..|t| - 1] + ")"
  {
    LinkCloseRebuild(t, 1);
    assert t == t[..1] + t[1..|t|];
    assert t[..1] == "[";
  }

  /** The anchor holds no `](` (the first one ends it) and the address no `)`; neither holds a
      line terminator. */
  lemma LinkPieceContent(t: string)
    requires LinkAt(t, 0).Some? && LinkAt(t, 0).value.1 == |t|
    ensures NoLineTerminator(t[1..LinkMid(t)]) && LacksPair(t[1..LinkMid(t)], ']', '(')
    ensures NoLineTerminator(t[LinkMid(t) + 2..|t| - 1]) && Lacks(t[LinkMid(t) + 2..|t| - 1], ')')
  {
    var a := LinkMid(t);
    LinkCloseSpec(t, 1);
    LinkCloseFirst(t, 1);
    ParenCloseSpec(t, a + 2);
    DotsSlice(t, 1, a);
    DotsSlice(t, a + 2, |t| - 1);
    var l := t[1..a];
    forall k | 0 <= k < |l| - 1 ensures !(l[k] == ']' && l[k + 1] == '(') {
      assert !Pair(t, k + 1, ']', '(');
    }
  }

  /** A complete match is shown as bold text or as a link, never as plain text. */
  lemma ClassifyMatch(t: string)
    requires IsMatch(t)
    ensures Classify(t).Bold? || Classify(t).Link?
  {
    if BoldAt(t, 0).Some? {
      BoldPiece(t);
    } else {
      LinkPieceShape(t);
    }
  }

  /** `parts` is the split of `s[p..]` a regular expression engine makes with the matcher
      `m` (the end of a match starting at a position, if any): the first piece runs from `p`
      through positions where nothing matches; then either it reaches the end, or a match
      starts where it stops, the next piece is exactly that match, and the rest is split the
      same way from the end of the match. */
  predicate LeftmostSplitBy(s: string, m: nat -> Option<nat>, p: nat, parts: seq<string>)
    decreases |parts|
  {
    && |parts| >= 1
    && p + |parts[0]| <= |s|
    && parts[0] == s[p..p + |parts[0]|]
    && (forall j :: p <= j < p + |parts[0]| ==> m(j).None?)
    && if |parts| == 1 then p + |parts[0]| == |s|
       else
         var q := p + |parts[0]|;
         && m(q).Some? && q <= m(q).value <= |s|
         && parts[1] == s[q..m(q).value]
         && LeftmostSplitBy(s, m, m(q).value, parts[2..])
  }

  /** The alternation of `parseInline` as a matcher on the whole text. */
  function MatchIn(s: string, j: nat): Option<nat> {
    if j <= |s| then MatchAt(s, j) else None
  }

  function Matcher(s: string): nat -> Option<nat> {
    (j: nat) => MatchIn(s, j)
  }

  predicate LeftmostSplit(s: string, p: nat, parts: seq<string>) {
    LeftmostSplitBy(s, Matcher(s), p, parts)
  }

  /** The rest of the text with no match in it is a leftmost split on its own. */
  lemma LeftmostEnd(s: string, m: nat -> Option<nat>, p: nat)
    requires p <= |s|
    requires forall j :: p <= j < |s| ==> m(j).None?
    ensures LeftmostSplitBy(s, m, p, [s[p..]])
  {
  }

  /** A stretch without a match, the match where it stops, and a leftmost split after the
      match make a leftmost split. */
  lemma LeftmostCons(s: string, m: nat -> Option<nat>, p: nat, q: nat, e: nat, rest: seq<string>)
    requires p <= q <= e <= |s|
    requires forall j :: p <= j < q ==> m(j).None?
    requires m(q) == Some(e)
    requires LeftmostSplitBy(s, m, e, rest)
    ensures LeftmostSplitBy(s, m, p, [s[p..q], s[q..e]] + rest)
  {
    var parts := [s[p..q], s[q..e]] + rest;
    assert |parts[0]| == q - p && parts[1] == s[q..e] && parts[2..] == rest;
  }

  /** Searching on from `q` after failing everywhere from `p` splits leftmost-first. */
  lemma {:induction false} SplitFromLeftmost(s: string, p: nat, q: nat)
    requires p <= q <= |s|
    requires forall j :: p <= j < q ==> MatchAt(s, j).None?
    ensures LeftmostSplit(s, p, SplitFrom(s, p, q))
    decreases |s| - q
  {
    var m := Matcher(s);
    if q == |s| {
      LeftmostEnd(s, m, p);
    } else {
      match MatchAt(s, q)
      case Some(e) =>
        SplitFromLeftmost(s, e, e);
        LeftmostCons(s, m, p, q, e, SplitFrom(s, e, e));
      case None =>
        SplitFromLeftmost(s, p, q + 1);
    }
  }

  /** The split of `parseInline` captures every match at the leftmost place the search
      finds it and leaves no match inside a text piece. */
  lemma SplitInlineLeftmost(s: string)
    ensures LeftmostSplit(s, 0, SplitInline(s))
  {
    SplitFromLeftmost(s, 0, 0);
  }

  /** The first piece of a leftmost split stops at the end or where a match starts, and
      no match starts inside it. */
  lemma FirstPieceStops(s: string, m: nat -> Option<nat>, p: nat, a: seq<string>, n: nat)
    requires LeftmostSplitBy(s, m, p, a)
    ensures p + |a[0]| == |s| || m(p + |a[0]|).Some?
    ensures p <= n < p + |a[0]| ==> m(n).None?
  {
  }

  /** For any matcher that finds nothing at the very end, a leftmost split is unique. */
  lemma {:induction false} LeftmostSplitByUnique(s: string, m: nat -> Option<nat>, p: nat, a: seq<string>, b: seq<string>)
    requires m(|s|).None?
    requires LeftmostSplitBy(s, m, p, a) && LeftmostSplitBy(s, m, p, b)
    ensures a == b
    decreases |a|
  {
    var x, y := p + |a[0]|, p + |b[0]|;
    FirstPieceStops(s, m, p, a, y);
    FirstPieceStops(s, m, p, b, x);
    assert a[0] == s[p..x] == b[0];
    if |a| > 1 && |b| > 1 {
      LeftmostSplitByUnique(s, m, m(x).value, a[2..], b[2..]);
      assert a == [a[0], a[1]] + a[2..] && b == [b[0], b[1]] + b[2..];
    }
  }

  /** Any split that captures leftmost-first is the split `parseInline` makes. */
  lemma SplitInlineUnique(s: string, parts: seq<string>)
    requires LeftmostSplit(s, 0, parts)
    ensures parts == SplitInline(s)
  {
    SplitInlineLeftmost(s);
    var m := Matcher(s);
    assert m(|s|).None?;
    LeftmostSplitByUnique(s, m, 0, parts, SplitInline(s));
  }

  /** Cutting "**x** **y**" as "**x", "** **", "y**" glues back and has matches at its odd
      places, but is no leftmost split: the bold match at 0 is missed. */
  lemma MisplacedSplitRejected()
    ensures !LeftmostSplit("**x** **y**", 0, ["**x", "** **", "y**"])
  {
    var s := "**x** **y**";
    var parts := ["**x", "** **", "y**"];
    assert BoldClose(s, 3) == Some(5);
    assert BoldClose(s, 2) == Some(5);
    assert Matcher(s)(0) == Some(5);
    if LeftmostSplit(s, 0, parts) {
      FirstPieceStops(s, Matcher(s), 0, parts, 0);
    }
  }

  /** `parseInline` loses nothing: its pieces concatenate to the input, and every piece the
      pattern captured is rendered as bold text or a link. */
  lemma ParseInlineSpec(text: string)
    ensures Concat(SplitInline(text)) == text
    ensures LeftmostSplit(text, 0, SplitInline(text))
    ensures |ParseInline(text)| % 2 == 1
    ensures forall k :: 0 <= k < |ParseInline(text)| && k % 2 == 1 ==>
      ParseInline(text)[k].Bold? || ParseInline(text)[k].Link?
  {
    SplitFromConcat(text, 0, 0);
    SplitFromOddMatch(text, 0, 0);
    SplitFromLeftmost(text, 0, 0);
    var parts := SplitInline(text);
    forall k | 0 <= k < |parts| && k % 2 == 1
      ensures ParseInline(text)[k].Bold? || ParseInline(text)[k].Link?
    {
      ClassifyMatch(parts[k]);
    }
  }

  /** A lone `**` is not matched by the pattern, yet the piece starts and ends with `**`
      and is rendered as empty bold text. */
  lemma LoneStarsExample()
    ensures ParseInline("**") == [Bold("")]
  {
    assert MatchAt("**", 0).None?;
    assert MatchAt("**", 1).None?;
    assert SplitInline("**") == ["**"];
    assert StartsWith("**", "**") && EndsWith("**", "**");
  }
}
