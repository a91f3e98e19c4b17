/** lib/validation.ts: format checks for user names and passwords, and the HTML escaping
    applied to titles. The backend's InputValidator repeats these rules; both share the
    definitions here. */
module Validation {
  import opened Strings

  // ---------------------------------------------------------------------------------------
  // Character classes

  predicate IsAsciiLetter(c: char) {
    ('a' <= c <= 'z') || ('A' <= c <= 'Z')
  }

  predicate IsDigit(c: char) {
    '0' <= c <= '9'
  }

  /** `[a-zA-Z0-9_]`. */
  predicate IsUsernameChar(c: char) {
    IsAsciiLetter(c) || IsDigit(c) || c == '_'
  }

  /** `[A-Za-z\d@$!%*#?&]`. */
  predicate IsPasswordChar(c: char) {
    IsAsciiLetter(c) || IsDigit(c)
    || c == '@' || c == '$' || c == '!' || c == '%' || c == '*' || c == '#' || c == '?' || c == '&'
  }

  /** The code units JavaScript's `.` refuses. */
  predicate IsJsLineTerminator(c: char) {
    c == '\n' || c == '\r' || c == '\U{2028}' || c == '\U{2029}'
  }

  // ---------------------------------------------------------------------------------------
  // User names

  /** `^[a-zA-Z0-9_]{3,20}$`. */
  predicate UsernamePattern(s: string) {
    3 <= |s| <= 20 && forall i :: 0 <= i < |s| ==> IsUsernameChar(s[i])
  }

  /** The scan a matcher for `[a-zA-Z0-9_]{3,20}` performs. */
  method MatchUsername(s: string) returns (ok: bool)
    ensures ok <==> UsernamePattern(s)
  {
    if |s| < 3 || |s| > 20 {
      return false;
    }
    var i := 0;
    while i < |s|
      invariant 0 <= i <= |s|
      invariant forall k :: 0 <= k < i ==> IsUsernameChar(s[k])
    {
      if !IsUsernameChar(s[i]) {
        return false;
      }
      i := i + 1;
    }
    return true;
  }

  /** `validateUsername`: the empty string is rejected first, then the pattern decides; the
      first test never changes the verdict, which is three to twenty word units. */
  function ValidateUsername(username: string): (ok: bool)
    ensures ok <==> 3 <= |username| <= 20 && forall i :: 0 <= i < |username| ==> IsUsernameChar(username[i])
  {
    if username == "" then false else UsernamePattern(username)
  }

  // ---------------------------------------------------------------------------------------
  // Passwords

  /** `^(?=.*[A-Za-z])(?=.*\d)[A-Za-z\d@$!%*#?&]{8,}$` read literally: each look-ahead wants
      a letter (a digit) reached through units `.` accepts, that is units `dotStops` does not
      hold for; then eight or more allowed units fill the whole string. JavaScript and Java
      differ only in the units their `.` refuses. */
  predicate PasswordPattern(s: string, dotStops: char -> bool) {
    && (exists i :: 0 <= i < |s| && IsAsciiLetter(s[i]) && forall k :: 0 <= k < i ==> !dotStops(s[k]))
    && (exists i :: 0 <= i < |s| && IsDigit(s[i]) && forall k :: 0 <= k < i ==> !dotStops(s[k]))
    && |s| >= 8
    && forall i :: 0 <= i < |s| ==> IsPasswordChar(s[i])
  }

  /** The rule the pattern expresses: eight or more allowed units, a letter and a digit among
      them. */
  predicate PasswordRule(s: string) {
    && |s| >= 8
    && (forall i :: 0 <= i < |s| ==> IsPasswordChar(s[i]))
    && (exists i :: 0 <= i < |s| && IsAsciiLetter(s[i]))
    && (exists i :: 0 <= i < |s| && IsDigit(s[i]))
  }

  /** Since no allowed unit stops `.`, the look-aheads only ask for a letter and a digit. */
  lemma PasswordPatternIsRule(s: string, dotStops: char -> bool)
    requires forall c :: dotStops(c) ==> !IsPasswordChar(c)
    ensures PasswordPattern(s, dotStops) <==> PasswordRule(s)
  {
    if PasswordRule(s) {
      var a :| 0 <= a < |s| && IsAsciiLetter(s[a]);
      var d :| 0 <= d < |s| && IsDigit(s[d]);
      assert forall k :: 0 <= k < a ==> !dotStops(s[k]);
      assert forall k :: 0 <= k < d ==> !dotStops(s[k]);
    }
  }

  /** One pass over the string: every unit allowed, a letter seen, a digit seen. */
  method MatchPassword(s: string) returns (ok: bool)
    ensures ok <==> PasswordRule(s)
  {
    if |s| < 8 {
      return false;
    }
    var letter, digit := false, false;
    var i := 0;
    while i < |s|
      invariant 0 <= i <= |s|
      invariant forall k :: 0 <= k < i ==> IsPasswordChar(s[k])
      invariant letter <==> exists k :: 0 <= k < i && IsAsciiLetter(s[k])
      invariant digit <==> exists k :: 0 <= k < i && IsDigit(s[k])
    {
      if !IsPasswordChar(s[i]) {
        return false;
      }
      letter := letter || IsAsciiLetter(s[i]);
      digit := digit || IsDigit(s[i]);
      i := i + 1;
    }
    ok := letter && digit;
  }

  /** `validatePassword`: the empty string is rejected, then the pattern decides. */
  function ValidatePassword(password: string): (ok: bool)
    ensures ok <==> PasswordRule(password)
  {
    PasswordPatternIsRule(password, IsJsLineTerminator);
    if password == "" then false else PasswordPattern(password, IsJsLineTerminator)
  }

  // ---------------------------------------------------------------------------------------
  // HTML escaping

  /** `s.replace(/c/g, rep)`: every occurrence of one unit replaced. */
  function ReplaceAll(s: string, c: char, rep: string): string {
    if |s| == 0 then "" else (if s[0] == c then rep else [s[0]]) + ReplaceAll(s[1..], c, rep)
  }

  lemma {:induction false} ReplaceAllConcat(a: string, b: string, c: char, rep: string)
    ensures ReplaceAll(a + b, c, rep) == ReplaceAll(a, c, rep) + ReplaceAll(b, c, rep)
  {
    if |a| > 0 {
      assert (a + b)[1..] == a[1..] + b;
      ReplaceAllConcat(a[1..], b, c, rep);
    } else {
      assert a + b == b;
    }
  }

  /** The replaces `sanitizeHtml` applies, in order: `&` first, so that the `&` of the
      entities written later is not escaped again. */
  const HtmlEntities: seq<(char, string)> :=
    [('&', "&amp;"), ('<', "&lt;"), ('>', "&gt;"), ('"', "&quot;"), ('\'', "&#x27;")]

  /** Global replaces applied one after another. */
  function ReplaceEach(s: string, rules: seq<(char, string)>): string
    decreases |rules|
  {
    if |rules| == 0 then s else ReplaceEach(ReplaceAll(s, rules[0].0, rules[0].1), rules[1..])
  }

  /** `sanitizeHtml`: the empty string is returned as is, anything else goes through the
      five replaces. */
  function SanitizeHtml(input: string): string {
    if input == "" then input else ReplaceEach(input, HtmlEntities)
  }

  /** Reference definition: the entity for each unit on its own. */
  function EscapeChar(c: char): string {
    if c == '&' then "&amp;"
    else if c == '<' then "&lt;"
    else if c == '>' then "&gt;"
    else if c == '"' then "&quot;"
    else if c == '\'' then "&#x27;"
    else [c]
  }

  function EscapeAll(s: string): string {
    if |s| == 0 then "" else EscapeChar(s[0]) + EscapeAll(s[1..])
  }

  lemma {:induction false} ReplaceEachConcat(a: string, b: string, rules: seq<(char, string)>)
    ensures ReplaceEach(a + b, rules) == ReplaceEach(a, rules) + ReplaceEach(b, rules)
    decreases |rules|
  {
    if |rules| > 0 {
      ReplaceAllConcat(a, b, rules[0].0, rules[0].1);
      ReplaceEachConcat(ReplaceAll(a, rules[0].0, rules[0].1), ReplaceAll(b, rules[0].0, rules[0].1), rules[1..]);
    }
  }

  lemma ReplaceAllUnit(c: char, x: char, rep: string)
    ensures ReplaceAll([c], x, rep) == if c == x then rep else [c]
  {
    assert [c][1..] == [];
  }

  lemma {:induction false} ReplaceAllAbsent(s: string, x: char, rep: string)
    requires x !in s
    ensures ReplaceAll(s, x, rep) == s
  {
    if |s| > 0 {
      assert s[0] in s;
      assert forall y :: y in s[1..] ==> y in s;
      ReplaceAllAbsent(s[1..], x, rep);
    }
  }

  lemma {:induction false} ReplaceEachAbsent(s: string, rules: seq<(char, string)>)
    requires forall j :: 0 <= j < |rules| ==> rules[j].0 !in s
    ensures ReplaceEach(s, rules) == s
    decreases |rules|
  {
    if |rules| > 0 {
      ReplaceAllAbsent(s, rules[0].0, rules[0].1);
      ReplaceEachAbsent(s, rules[1..]);
    }
  }

  /** No replacement text holds a unit a later rule replaces. */
  predicate NonInterfering(rules: seq<(char, string)>) {
    forall i, j :: 0 <= i < j < |rules| ==> rules[j].0 !in rules[i].1
  }

  /** The replacement of the first rule for `c`, or `c` itself. */
  function FirstRule(c: char, rules: seq<(char, string)>): string
    decreases |rules|
  {
    if |rules| == 0 then [c] else if rules[0].0 == c then rules[0].1 else FirstRule(c, rules[1..])
  }

  lemma {:induction false} ReplaceEachUnit(c: char, rules: seq<(char, string)>)
    requires NonInterfering(rules)
    ensures ReplaceEach([c], rules) == FirstRule(c, rules)
    decreases |rules|
  {
    if |rules| > 0 {
      ReplaceAllUnit(c, rules[0].0, rules[0].1);
      if rules[0].0 == c {
        assert forall j :: 0 <= j < |rules[1..]| ==> rules[1..][j] == rules[j + 1];
        ReplaceEachAbsent(rules[0].1, rules[1..]);
      } else {
        assert NonInterfering(rules[1..]) by {
          forall i, j | 0 <= i < j < |rules[1..]| ensures rules[1..][j].0 !in rules[1..][i].1 {
            assert rules[1..][j] == rules[j + 1] && rules[1..][i] == rules[i + 1];
          }
        }
        ReplaceEachUnit(c, rules[1..]);
      }
    }
  }

  lemma HtmlEntitiesNonInterfering()
    ensures NonInterfering(HtmlEntities)
  {
    var e := HtmlEntities;
    assert e[0].1 == "&amp;" && e[1].1 == "&lt;" && e[2].1 == "&gt;" && e[3].1 == "&quot;";
    assert '<' !in "&amp;" && '>' !in "&amp;" && '"' !in "&amp;" && '\'' !in "&amp;";
    assert '>' !in "&lt;" && '"' !in "&lt;" && '\'' !in "&lt;";
    assert '"' !in "&gt;" && '\'' !in "&gt;";
    assert '\'' !in "&quot;";
  }

  lemma EscapeCharIsFirstRule(c: char)
    ensures FirstRule(c, HtmlEntities) == EscapeChar(c)
  {
    var e := HtmlEntities;
    assert e[1..][1..][1..][1..][1..] == [];
  }

  /** No later replace touches what an earlier one wrote, so one unit comes out as its entity. */
  lemma ChainChar(c: char)
    ensures ReplaceEach([c], HtmlEntities) == EscapeChar(c)
  {
    HtmlEntitiesNonInterfering();
    ReplaceEachUnit(c, HtmlEntities);
    EscapeCharIsFirstRule(c);
  }

  lemma {:induction false} ChainIsEscape(s: string)
    ensures ReplaceEach(s, HtmlEntities) == EscapeAll(s)
  {
    if |s| > 0 {
      assert s == [s[0]] + s[1..];
      ReplaceEachConcat([s[0]], s[1..], HtmlEntities);
      ChainChar(s[0]);
      ChainIsEscape(s[1..]);
    }
  }

  /** The chain of global replaces escapes each unit independently. */
  lemma SanitizeHtmlIsEscape(s: string)
    ensures SanitizeHtml(s) == EscapeAll(s)
  {
    ChainIsEscape(s);
  }

  predicate NoMarkup(s: string) {
    forall i :: 0 <= i < |s| ==> s[i] != '<' && s[i] != '>' && s[i] != '"' && s[i] != '\''
  }

  lemma NoMarkupConcat(a: string, b: string)
    requires NoMarkup(a) && NoMarkup(b)
    ensures NoMarkup(a + b)
  {
    forall i | |a| <= i < |a + b| ensures (a + b)[i] == b[i - |a|] {}
  }

  lemma {:induction false} EscapeAllNoMarkup(s: string)
    ensures NoMarkup(EscapeAll(s))
  {
    if |s| > 0 {
      EscapeAllNoMarkup(s[1..]);
      NoMarkupConcat(EscapeChar(s[0]), EscapeAll(s[1..]));
    }
  }

  /** The escaped text holds no `<`, `>`, `"` or `'`. */
  lemma SanitizeHtmlNoMarkup(s: string)
    ensures NoMarkup(SanitizeHtml(s))
  {
    SanitizeHtmlIsEscape(s);
    EscapeAllNoMarkup(s);
  }

  /** Decoding of the five entities. */
  function Unescape(s: string): string
    decreases |s|
  {
    if |s| == 0 then ""
    else if StartsWith(s, "&amp;") then "&" + Unescape(s[5..])
    else if StartsWith(s, "&lt;") then "<" + Unescape(s[4..])
    else if StartsWith(s, "&gt;") then ">" + Unescape(s[4..])
    else if StartsWith(s, "&quot;") then "\"" + Unescape(s[6..])
    else if StartsWith(s, "&#x27;") then "'" + Unescape(s[6..])
    else [s[0]] + Unescape(s[1..])
  }

  lemma NotStartsWith(s: string, prefix: string, i: nat)
    requires i < |prefix| && i < |s| && s[i] != prefix[i]
    ensures !StartsWith(s, prefix)
  {
    if |prefix| <= |s| {
      assert s[..|prefix|][i] == s[i];
    }
  }

  lemma StartsWithEntity(e: string, rest: string)
    ensures StartsWith(e + rest, e) && (e + rest)[|e|..] == rest
  {
    assert (e + rest)[..|e|] == e;
  }

  lemma UnescapeStep(c: char, rest: string)
    ensures Unescape(EscapeChar(c) + rest) == [c] + Unescape(rest)
  {
    var e := EscapeChar(c) + rest;
    StartsWithEntity(EscapeChar(c), rest);
    if c == '<' {
      NotStartsWith(e, "&amp;", 1);
    } else if c == '>' {
      NotStartsWith(e, "&amp;", 1);
      NotStartsWith(e, "&lt;", 1);
    } else if c == '"' {
      NotStartsWith(e, "&amp;", 1);
      NotStartsWith(e, "&lt;", 1);
      NotStartsWith(e, "&gt;", 1);
    } else if c == '\'' {
      NotStartsWith(e, "&amp;", 1);
      NotStartsWith(e, "&lt;", 1);
      NotStartsWith(e, "&gt;", 1);
      NotStartsWith(e, "&quot;", 1);
    } else if c != '&' {
      assert e[0] == c && e[1..] == rest;
      StartsWithHead(e, "&amp;");
      StartsWithHead(e, "&lt;");
      StartsWithHead(e, "&gt;");
      StartsWithHead(e, "&quot;");
      StartsWithHead(e, "&#x27;");
    }
  }

  lemma {:induction false} UnescapeEscapeAll(s: string)
    ensures Unescape(EscapeAll(s)) == s
  {
    if |s| > 0 {
      UnescapeStep(s[0], EscapeAll(s[1..]));
      UnescapeEscapeAll(s[1..]);
      assert s == [s[0]] + s[1..];
    }
  }

  /** Escaping loses nothing: decoding the five entities gives the input back. */
  lemma SanitizeHtmlRoundTrip(s: string)
    ensures Unescape(SanitizeHtml(s)) == s
  {
    SanitizeHtmlIsEscape(s);
    UnescapeEscapeAll(s);
  }

  // ---------------------------------------------------------------------------------------
  // Titles and content

  const MaxTitle: nat := 200
  const MaxContent: nat := 102400

  /** `str.substring(0, max)` when longer than `max`. */
  function Truncate(s: string, max: nat): (r: string)
    ensures |r| <= max && |r| <= |s| && r == s[..|r|]
    ensures |s| <= max ==> r == s
    ensures |s| > max ==> |r| == max
  {
    if |s| > max then s[..max] else s
  }

  /** `sanitizeTitle`: at most 200 units of the title are kept, then escaped. */
  function SanitizeTitle(title: string): string {
    if title == "" then "" else SanitizeHtml(Truncate(title, MaxTitle))
  }

  /** The escaped title decodes to the first 200 units of the title and carries no markup. */
  lemma SanitizeTitleSpec(title: string)
    ensures Unescape(SanitizeTitle(title)) == title[..if |title| > MaxTitle then MaxTitle else |title|]
    ensures NoMarkup(SanitizeTitle(title))
  {
    SanitizeHtmlRoundTrip(Truncate(title, MaxTitle));
    SanitizeHtmlNoMarkup(Truncate(title, MaxTitle));
  }

  /** `sanitizeContent`: the first 102400 units. */
  function SanitizeContent(content: string): (r: string)
    ensures |r| == if |content| > MaxContent then MaxContent else |content|
    ensures r == content[..|r|]
  {
    if content == "" then "" else Truncate(content, MaxContent)
  }

  /** Cutting content twice is cutting it once. */
  lemma SanitizeContentIdempotent(content: string)
    ensures SanitizeContent(SanitizeContent(content)) == SanitizeContent(content)
  {
  }
}
