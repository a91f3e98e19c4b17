/** String primitives of the two runtimes, over `seq<char>`.
    A `char` stands for one UTF-16 code unit, so `|s|` is JavaScript's `length`
    and Java's `length()`. */
module Strings {
  import opened Wrappers

  predicate StartsWith(s: string, prefix: string) {
    |prefix| <= |s| && s[..|prefix|] == prefix
  }

  predicate EndsWith(s: string, suffix: string) {
    |suffix| <= |s| && s[|s| - |suffix|..] == suffix
  }

  /** `pat` occurs in `s` starting at index `i`. */
  predicate OccursAt(s: string, pat: string, i: int) {
    0 <= i && i + |pat| <= |s| && s[i..i + |pat|] == pat
  }

  /** First occurrence of `pat` at or after `from` (`indexOf(pat, from)`). */
  function IndexOfFrom(s: string, pat: string, from: nat): (r: Option<nat>)
    decreases |s| - from
    ensures r.Some? ==> from <= r.value && OccursAt(s, pat, r.value)
    ensures r.Some? ==> forall j :: from <= j < r.value ==> !OccursAt(s, pat, j)
    ensures r.None? ==> forall j :: from <= j ==> !OccursAt(s, pat, j)
  {
    if from + |pat| > |s| then None
    else if OccursAt(s, pat, from) then Some(from)
    else IndexOfFrom(s, pat, from + 1)
  }

  function IndexOf(s: string, pat: string): Option<nat> {
    IndexOfFrom(s, pat, 0)
  }

  /** `s.includes(pat)` / `s.contains(pat)`. */
  predicate Includes(s: string, pat: string) {
    IndexOf(s, pat).Some?
  }

  lemma IncludesIff(s: string, pat: string)
    ensures Includes(s, pat) <==> exists i :: OccursAt(s, pat, i)
  {
  }

  lemma StartsWithHead(s: string, prefix: string)
    requires |prefix| > 0 && |s| > 0 && s[0] != prefix[0]
    ensures !StartsWith(s, prefix)
  {
    if |prefix| <= |s| {
      assert s[..|prefix|][0] == s[0];
    }
  }

  lemma SliceConcat(s: string, i: nat, k: nat, l: nat)
    requires i <= k <= l <= |s|
    ensures s[i..k] + s[k..l] == s[i..l]
  {
  }

  lemma IncludesAt(s: string, pat: string, i: nat)
    requires OccursAt(s, pat, i)
    ensures Includes(s, pat)
  {
  }

  /** `s.replace(pat, rep)` with a string pattern: only the first occurrence is replaced. */
  function ReplaceFirst(s: string, pat: string, rep: string): string {
    match IndexOf(s, pat)
    case Some(i) => s[..i] + rep + s[i + |pat|..]
    case None => s
  }

  /** Replacing a pattern the string starts with removes that prefix. */
  lemma ReplaceFirstAtStart(s: string, pat: string)
    requires StartsWith(s, pat)
    ensures ReplaceFirst(s, pat, "") == s[|pat|..]
  {
    assert OccursAt(s, pat, 0);
  }

  /** ECMAScript WhiteSpace and LineTerminator code units: what `trim()` strips and `\s` matches. */
  predicate IsJsSpace(c: char) {
    || c == '\t' || c == '\n' || c == '\U{000B}' || c == '\U{000C}' || c == '\r' || c == ' '
    || c == '\U{00A0}' || c == '\U{1680}' || ('\U{2000}' <= c <= '\U{200A}')
    || c == '\U{2028}' || c == '\U{2029}' || c == '\U{202F}' || c == '\U{205F}'
    || c == '\U{3000}' || c == '\U{FEFF}'
  }

  /** Index of the first non-white-space unit at or after `i`, or `|s|` when there is none. */
  function SkipSpace(s: string, i: nat): (j: nat)
    requires i <= |s|
    ensures i <= j <= |s|
    ensures forall k :: i <= k < j ==> IsJsSpace(s[k])
    ensures j < |s| ==> !IsJsSpace(s[j])
    decreases |s| - i
  {
    if i < |s| && IsJsSpace(s[i]) then SkipSpace(s, i + 1) else i
  }

  /** End of `s[lo..e]` once the white space at its end is dropped. */
  function BackSpace(s: string, lo: nat, e: nat): (j: nat)
    requires lo <= e <= |s|
    ensures lo <= j <= e
    ensures forall k :: j <= k < e ==> IsJsSpace(s[k])
    ensures j > lo ==> !IsJsSpace(s[j - 1])
    decreases e
  {
    if e > lo && IsJsSpace(s[e - 1]) then BackSpace(s, lo, e - 1) else e
  }

  /** JavaScript `trim()`: the slice between the leading and the trailing white space. */
  function Trim(s: string): (r: string)
    ensures |r| <= |s|
    ensures |r| > 0 ==> !IsJsSpace(r[0]) && !IsJsSpace(r[|r| - 1])
  {
    var a := SkipSpace(s, 0);
    s[a..BackSpace(s, a, |s|)]
  }

  /** `trim()` cuts only white space: the result is a slice of the input, and
      everything before and after that slice is white space. */
  lemma TrimSpec(s: string)
    ensures var a := SkipSpace(s, 0); var b := BackSpace(s, a, |s|);
      && Trim(s) == s[a..b]
      && (forall i :: 0 <= i < a ==> IsJsSpace(s[i]))
      && (forall i :: b <= i < |s| ==> IsJsSpace(s[i]))
  {
  }

  /** `trim()` gives the empty string exactly for all-white-space input. */
  lemma TrimEmptyIff(s: string)
    ensures Trim(s) == "" <==> forall i :: 0 <= i < |s| ==> IsJsSpace(s[i])
  {
    var a := SkipSpace(s, 0);
    if a < |s| {
      assert BackSpace(s, a, |s|) > a;
    }
  }

  /** `trim()` leaves a string that neither starts nor ends with white space unchanged. */
  lemma TrimNoop(s: string)
    requires |s| > 0 ==> !IsJsSpace(s[0]) && !IsJsSpace(s[|s| - 1])
    ensures Trim(s) == s
  {
  }

  /** `s.search(/\S/)`: index of the first non-white-space unit, or -1. */
  function FirstNonSpace(s: string): (r: int)
    ensures -1 <= r < |s|
    ensures r >= 0 ==> !IsJsSpace(s[r]) && forall i :: 0 <= i < r ==> IsJsSpace(s[i])
    ensures r == -1 ==> forall i :: 0 <= i < |s| ==> IsJsSpace(s[i])
  {
    var j := SkipSpace(s, 0);
    if j == |s| then -1 else j
  }

  /** Java `String.trim()`: strips code units at or below U+0020. */
  predicate IsJavaTrimmed(c: char) { c <= ' ' }

  function JavaTrim(s: string): (r: string)
    ensures |r| <= |s|
    ensures |r| > 0 ==> !IsJavaTrimmed(r[0]) && !IsJavaTrimmed(r[|r| - 1])
    ensures r == [] <==> forall i :: 0 <= i < |s| ==> IsJavaTrimmed(s[i])
    decreases |s|
  {
    if |s| > 0 && IsJavaTrimmed(s[0]) then JavaTrim(s[1..])
    else if |s| > 0 && IsJavaTrimmed(s[|s| - 1]) then JavaTrim(s[..|s| - 1])
    else s
  }

  function LowerChar(c: char): char {
    if 'A' <= c <= 'Z' then (c as int + 32) as char else c
  }

  /** `toLowerCase()` restricted to ASCII letters. */
  function Lower(s: string): (r: string)
    ensures |r| == |s|
    ensures forall i :: 0 <= i < |s| ==> r[i] == LowerChar(s[i])
  {
    seq(|s|, i requires 0 <= i < |s| => LowerChar(s[i]))
  }

  /** A decimal digit string of a natural number, as `String(n)` prints it. */
  function NatToString(n: nat): (r: string)
    ensures |r| >= 1
    ensures forall i :: 0 <= i < |r| ==> '0' <= r[i] <= '9'
    decreases n
  {
    if n < 10 then [DigitChar(n)] else NatToString(n / 10) + [DigitChar(n % 10)]
  }

  function DigitChar(d: nat): (c: char)
    requires d < 10
    ensures '0' <= c <= '9' && c as int - '0' as int == d
  {
    ('0' as int + d) as char
  }

  /** Value of a non-empty decimal digit string. */
  function DigitsValue(s: string): nat
    requires forall i :: 0 <= i < |s| ==> '0' <= s[i] <= '9'
  {
    if |s| == 0 then 0 else 10 * DigitsValue(s[..|s| - 1]) + (s[|s| - 1] as int - '0' as int)
  }

  /** `String(n)` is read back as `n`. */
  lemma {:induction false} NatToStringRoundTrip(n: nat)
    ensures DigitsValue(NatToString(n)) == n
    decreases n
  {
    if n >= 10 {
      var r := NatToString(n);
      assert r[..|r| - 1] == NatToString(n / 10);
      NatToStringRoundTrip(n / 10);
    }
  }

  /** `str.split(sep)` where `sep` is one code unit or a one-unit character class:
      the pieces between separators, always at least one. */
  function Split(s: string, seps: set<char>): (parts: seq<string>)
    ensures |parts| >= 1
    ensures forall k, i :: 0 <= k < |parts| && 0 <= i < |parts[k]| ==> parts[k][i] !in seps
  {
    if |s| == 0 then [""]
    else
      var rest := Split(s[1..], seps);
      if s[0] in seps then [""] + rest
      else [[s[0]] + rest[0]] + rest[1..]
  }

  /** `parts.join(glue)`. */
  function Join(parts: seq<string>, glue: string): string {
    if |parts| == 0 then ""
    else if |parts| == 1 then parts[0]
    else parts[0] + glue + Join(parts[1..], glue)
  }

  /** Splitting on one separator and joining with it gives the input back. */
  lemma {:induction false} SplitJoin(s: string, c: char)
    ensures Join(Split(s, {c}), [c]) == s
  {
    if |s| > 0 {
      SplitJoin(s[1..], c);
      var rest := Split(s[1..], {c});
      if s[0] == c {
        assert Split(s, {c}) == [""] + rest;
      } else {
        var parts := Split(s, {c});
        assert parts == [[s[0]] + rest[0]] + rest[1..];
        if |rest| == 1 {
          assert Join(parts, [c]) == [s[0]] + rest[0];
        } else {
          assert parts[1..] == rest[1..];
          assert Join(rest, [c]) == rest[0] + [c] + Join(rest[1..], [c]);
        }
      }
    }
  }

  /** Splitting a string without the separator gives it back whole. */
  lemma {:induction false} SplitNoSep(a: string, c: char)
    requires c !in a
    ensures Split(a, {c}) == [a]
  {
    if |a| > 0 {
      SplitNoSep(a[1..], c);
      assert a == [a[0]] + a[1..];
    }
  }

  /** A piece without the separator, then the separator, comes out as the first part. */
  lemma {:induction false} SplitAfterPiece(a: string, b: string, c: char)
    requires c !in a
    ensures Split(a + [c] + b, {c}) == [a] + Split(b, {c})
  {
    var s := a + [c] + b;
    if |a| == 0 {
      assert s[1..] == b;
    } else {
      assert s[1..] == a[1..] + [c] + b;
      SplitAfterPiece(a[1..], b, c);
      assert [a[0]] + a[1..] == a;
    }
  }

  /** Joining pieces that do not contain the separator and splitting again gives the pieces. */
  lemma {:induction false} JoinSplit(parts: seq<string>, c: char)
    requires |parts| >= 1
    requires forall k :: 0 <= k < |parts| ==> c !in parts[k]
    ensures Split(Join(parts, [c]), {c}) == parts
  {
    if |parts| == 1 {
      SplitNoSep(parts[0], c);
    } else {
      JoinSplit(parts[1..], c);
      SplitAfterPiece(parts[0], Join(parts[1..], [c]), c);
      assert parts == [parts[0]] + parts[1..];
    }
  }

  /** `parts.map(t => t.trim())`. */
  function TrimAll(parts: seq<string>): seq<string> {
    seq(|parts|, k requires 0 <= k < |parts| => Trim(parts[k]))
  }

  /** `.filter(Boolean)` / `.filter(s => s.length > 0)` on strings. */
  function NonEmpty(parts: seq<string>): (r: seq<string>)
    ensures forall k :: 0 <= k < |r| ==> r[k] != ""
    ensures forall t :: t in r <==> t in parts && t != ""
    ensures |r| <= |parts|
  {
    if |parts| == 0 then []
    else if parts[0] == "" then NonEmpty(parts[1..])
    else [parts[0]] + NonEmpty(parts[1..])
  }

  /** `text.split(seps).map(trim).filter(Boolean)`: the list-in-a-text-field idiom. */
  function SplitTrimNonEmpty(text: string, seps: set<char>): seq<string> {
    NonEmpty(TrimAll(Split(text, seps)))
  }

  /** Neither starts nor ends with white space. */
  predicate IsTrimmed(s: string) {
    |s| > 0 ==> !IsJsSpace(s[0]) && !IsJsSpace(s[|s| - 1])
  }

  /** `trim()` output is trimmed, and a piece of text without some character keeps it out. */
  lemma TrimResult(s: string, c: char)
    ensures IsTrimmed(Trim(s))
    ensures c !in s ==> c !in Trim(s)
  {
    TrimSpec(s);
  }

  lemma TrimAllNoop(parts: seq<string>)
    requires forall k :: 0 <= k < |parts| ==> IsTrimmed(parts[k])
    ensures TrimAll(parts) == parts
  {
    forall k | 0 <= k < |parts|
      ensures TrimAll(parts)[k] == parts[k]
    {
      TrimNoop(parts[k]);
    }
  }

  lemma {:induction false} NonEmptyNoop(parts: seq<string>)
    requires forall k :: 0 <= k < |parts| ==> parts[k] != ""
    ensures NonEmpty(parts) == parts
  {
    if |parts| > 0 {
      NonEmptyNoop(parts[1..]);
      assert parts == [parts[0]] + parts[1..];
    }
  }

  /** A separator that does not occur changes nothing in a split. */
  lemma {:induction false} SplitUnusedSep(s: string, c: char, d: char)
    requires d !in s
    ensures Split(s, {c, d}) == Split(s, {c})
    decreases |s|
  {
    if |s| > 0 {
      SplitUnusedSep(s[1..], c, d);
      assert s[0] != d;
    }
  }

  /** Each piece with a space in front. */
  function SpaceAll(parts: seq<string>): (r: seq<string>)
    ensures |r| == |parts|
    ensures forall k :: 0 <= k < |parts| ==> r[k] == " " + parts[k]
  {
    seq(|parts|, k requires 0 <= k < |parts| => " " + parts[k])
  }

  lemma {:induction false} JoinSpaceAll(parts: seq<string>)
    requires |parts| >= 1
    ensures Join(SpaceAll(parts), ",") == " " + Join(parts, ", ")
    decreases |parts|
  {
    if |parts| > 1 {
      JoinSpaceAll(parts[1..]);
      assert SpaceAll(parts)[1..] == SpaceAll(parts[1..]);
    }
  }

  lemma TrimSpace(p: string)
    requires IsTrimmed(p)
    ensures Trim(" " + p) == p
  {
    var s := " " + p;
    if |p| > 0 {
      assert SkipSpace(s, 1) == 1;
      assert SkipSpace(s, 0) == 1;
      assert BackSpace(s, 1, |s|) == |s|;
      assert s[1..] == p;
    } else {
      assert SkipSpace(s, 0) == 1;
    }
  }

  /** The pieces `parts.join(", ")` splits into on commas. */
  function Spaced(parts: seq<string>): seq<string>
    requires |parts| >= 1
  {
    [parts[0]] + SpaceAll(parts[1..])
  }

  lemma JoinCons(a: string, rest: seq<string>, glue: string)
    requires |rest| >= 1
    ensures Join([a] + rest, glue) == a + glue + Join(rest, glue)
  {
    assert ([a] + rest)[1..] == rest;
  }

  lemma CommaThenSpace(a: string, b: string)
    ensures a + "," + (" " + b) == a + ", " + b
  {
    assert "," + " " == ", ";
    assert a + "," + (" " + b) == a + ("," + " ") + b;
  }

  lemma JoinSpaced(parts: seq<string>)
    requires |parts| >= 1
    ensures Join(Spaced(parts), ",") == Join(parts, ", ")
  {
    if |parts| > 1 {
      var head, rest := parts[0], parts[1..];
      var tail := Join(rest, ", ");
      calc {
        Join(Spaced(parts), ",");
        Join([head] + SpaceAll(rest), ",");
        { JoinCons(head, SpaceAll(rest), ","); }
        head + "," + Join(SpaceAll(rest), ",");
        { JoinSpaceAll(rest); }
        head + "," + (" " + tail);
        { CommaThenSpace(head, tail); }
        head + ", " + tail;
        { JoinCons(head, rest, ", "); }
        Join([head] + rest, ", ");
        { assert parts == [head] + rest; }
        Join(parts, ", ");
      }
    } else {
      assert Spaced(parts) == [parts[0]];
    }
  }

  lemma TrimSpaced(parts: seq<string>)
    requires |parts| >= 1
    requires forall k :: 0 <= k < |parts| ==> IsTrimmed(parts[k])
    ensures TrimAll(Spaced(parts)) == parts
  {
    var spaced := Spaced(parts);
    forall k | 0 <= k < |parts|
      ensures TrimAll(spaced)[k] == parts[k]
    {
      if k == 0 {
        TrimNoop(parts[0]);
      } else {
        assert spaced[k] == " " + parts[k];
        TrimSpace(parts[k]);
      }
    }
  }

  /** `parts.join(", ")` split on commas and trimmed gives back comma-free trimmed pieces. */
  lemma CommaSpaceRoundTrip(parts: seq<string>)
    requires |parts| >= 1
    requires forall k :: 0 <= k < |parts| ==> ',' !in parts[k] && IsTrimmed(parts[k])
    ensures TrimAll(Split(Join(parts, ", "), {','})) == parts
  {
    var spaced := Spaced(parts);
    JoinSpaced(parts);
    forall k | 0 <= k < |spaced|
      ensures ',' !in spaced[k]
    {
      if k > 0 {
        assert spaced[k] == " " + parts[k];
      }
    }
    JoinSplit(spaced, ',');
    TrimSpaced(parts);
  }

  /** A character in neither the pieces nor the glue is not in the joined text. */
  lemma {:induction false} JoinAvoids(parts: seq<string>, glue: string, c: char)
    requires c !in glue
    requires forall k :: 0 <= k < |parts| ==> c !in parts[k]
    ensures c !in Join(parts, glue)
  {
    if |parts| > 1 {
      JoinAvoids(parts[1..], glue, c);
    }
  }

  /** Joining one more piece adds the glue and the piece at the end. */
  lemma {:induction false} JoinSnoc(parts: seq<string>, w: string, glue: string)
    requires |parts| >= 1
    ensures Join(parts + [w], glue) == Join(parts, glue) + glue + w
    decreases |parts|
  {
    if |parts| == 1 {
      JoinCons(parts[0], [w], glue);
    } else {
      JoinSnoc(parts[1..], w, glue);
      assert (parts + [w])[1..] == parts[1..] + [w];
      JoinCons(parts[0], parts[1..] + [w], glue);
      assert parts == [parts[0]] + parts[1..];
      JoinCons(parts[0], parts[1..], glue);
    }
  }

  /** JavaScript's `a || b` on strings: the empty string is falsy. */
  function OrElse(a: string, b: string): (r: string)
    ensures r == a || r == b
    ensures r == "" ==> a == "" && b == ""
  {
    if a != "" then a else b
  }
}
