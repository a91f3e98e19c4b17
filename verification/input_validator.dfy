/** backend util/InputValidator.java: the server-side copy of the front end's checks, plus
    e-mail and URL formats. A Java `null` argument is `None`. */
module InputValidator {
  import opened Wrappers
  import opened Strings
  import opened Validation

  // ---------------------------------------------------------------------------------------
  // Character classes

  /** The units Java's `.` refuses without DOTALL. */
  predicate IsJavaLineTerminator(c: char) {
    c == '\n' || c == '\r' || c == '\U{0085}' || c == '\U{2028}' || c == '\U{2029}'
  }

  /** `[A-Za-z0-9+_.-]`. */
  predicate IsLocalChar(c: char) {
    IsAsciiLetter(c) || IsDigit(c) || c == '+' || c == '_' || c == '.' || c == '-'
  }

  /** `[A-Za-z0-9.-]`. */
  predicate IsHostChar(c: char) {
    IsAsciiLetter(c) || IsDigit(c) || c == '.' || c == '-'
  }

  predicate All(s: string, p: char -> bool) {
    forall i :: 0 <= i < |s| ==> p(s[i])
  }

  // ---------------------------------------------------------------------------------------
  // The patterns, read literally

  /** `[A-Za-z0-9.-]+\.[A-Za-z]{2,}`: some host units, a dot, two or more letters. */
  predicate DomainPattern(d: string) {
    exists k :: 1 <= k && k + 3 <= |d| && All(d[..k], IsHostChar) && d[k] == '.' && All(d[k + 1..], IsAsciiLetter)
  }

  /** `^[A-Za-z0-9+_.-]+@([A-Za-z0-9.-]+\.[A-Za-z]{2,})$`. */
  predicate EmailPattern(s: string) {
    exists a :: 1 <= a < |s| && s[a] == '@' && All(s[..a], IsLocalChar) && DomainPattern(s[a + 1..])
  }

  /** `(?:\.[a-zA-Z]{2,})+`: one or more groups of a dot and two or more letters. */
  predicate Groups(g: string)
    decreases |g|
  {
    |g| >= 3 && g[0] == '.'
    && exists j :: 3 <= j <= |g| && All(g[1..j], IsAsciiLetter) && (j == |g| || Groups(g[j..]))
  }

  /** `[a-zA-Z0-9.-]+(?:\.[a-zA-Z]{2,})+`. */
  predicate HostPattern(h: string) {
    exists k :: 1 <= k <= |h| && All(h[..k], IsHostChar) && Groups(h[k..])
  }

  /** `(?:/.*)?`: nothing, or a slash and units `.` accepts. */
  predicate PathPattern(t: string) {
    t == [] || (t[0] == '/' && forall i :: 1 <= i < |t| ==> !IsJavaLineTerminator(t[i]))
  }

  /** What follows `://`. */
  predicate UrlRestPattern(r: string) {
    exists e :: 0 <= e <= |r| && HostPattern(r[..e]) && PathPattern(r[e..])
  }

  /** `^(http|https)://[a-zA-Z0-9.-]+(?:\.[a-zA-Z]{2,})+(?:/.*)?$`. */
  predicate UrlPattern(s: string) {
    (StartsWith(s, "http://") && UrlRestPattern(s[7..]))
    || (StartsWith(s, "https://") && UrlRestPattern(s[8..]))
  }

  // ---------------------------------------------------------------------------------------
  // The validators

  /** `isValidUsername`: `null` and blank names are refused before the pattern runs. */
  function IsValidUsername(username: Option<string>): (ok: bool)
    ensures ok <==> username.Some? && UsernamePattern(username.value)
  {
    if username.None? || JavaTrim(username.value) == "" then false
    else UsernamePattern(username.value)
  }

  /** `isValidPassword`. */
  function IsValidPassword(password: Option<string>): (ok: bool)
    ensures ok <==> password.Some? && PasswordRule(password.value)
  {
    if password.None? then false
    else
      PasswordPatternIsRule(password.value, IsJavaLineTerminator);
      if password.value == "" then false else PasswordPattern(password.value, IsJavaLineTerminator)
  }

  /** `isValidEmail`. */
  function IsValidEmail(email: Option<string>): (ok: bool)
    ensures ok <==> email.Some? && EmailPattern(email.value)
  {
    if email.None? then false
    else
      PatternNotBlank(email.value);
      if JavaTrim(email.value) == "" then false else EmailPattern(email.value)
  }

  /** `isValidUrl`. */
  function IsValidUrl(url: Option<string>): (ok: bool)
    ensures ok <==> url.Some? && UrlPattern(url.value)
  {
    if url.None? then false
    else
      PatternNotBlank(url.value);
      if JavaTrim(url.value) == "" then false else UrlPattern(url.value)
  }

  /** A string the e-mail or URL pattern accepts starts with a letter, a digit or one of
      `+_.-`, none of which `trim` removes, so the blank check never decides. */
  lemma PatternNotBlank(s: string)
    ensures EmailPattern(s) || UrlPattern(s) ==> JavaTrim(s) != ""
  {
    if EmailPattern(s) {
      EmailStart(s);
    } else if UrlPattern(s) {
      UrlStart(s);
    }
  }

  lemma EmailStart(s: string)
    requires EmailPattern(s)
    ensures JavaTrim(s) != ""
  {
    var a :| 1 <= a < |s| && s[a] == '@' && All(s[..a], IsLocalChar) && DomainPattern(s[a + 1..]);
    assert s[..a][0] == s[0];
    JavaTrimKeeps(s);
  }

  lemma UrlStart(s: string)
    requires UrlPattern(s)
    ensures JavaTrim(s) != ""
  {
    assert s[0] == 'h' by {
      if StartsWith(s, "http://") {
        assert s[..7][0] == s[0];
      } else {
        assert s[..8][0] == s[0];
      }
    }
    JavaTrimKeeps(s);
  }

  lemma JavaTrimKeeps(s: string)
    requires |s| > 0 && s[0] > ' '
    ensures JavaTrim(s) != ""
  {
  }

  /** `sanitizeHtml`: `null` and the empty string come back as they are. */
  function JavaSanitizeHtml(input: Option<string>): (r: Option<string>)
    ensures r.Some? <==> input.Some?
    ensures r.Some? ==> r.value == EscapeAll(input.value) && Unescape(r.value) == input.value
  {
    if input.None? then input
    else
      SanitizeHtmlIsEscape(input.value);
      SanitizeHtmlRoundTrip(input.value);
      if input.value == "" then input else Some(SanitizeHtml(input.value))
  }

  /** `sanitizeTitle`: `null` becomes the empty title. */
  function JavaSanitizeTitle(title: Option<string>): (r: string)
    ensures title.None? ==> r == ""
    ensures title.Some? ==> r == SanitizeTitle(title.value)
  {
    if title.None? then "" else SanitizeHtml(Truncate(title.value, MaxTitle))
  }

  /** `sanitizeContent`: `null` becomes the empty content. */
  function JavaSanitizeContent(content: Option<string>): (r: string)
    ensures content.None? ==> r == ""
    ensures content.Some? ==> (|r| == (if |content.value| > MaxContent then MaxContent else |content.value|)
      && r == content.value[..|r|])
  {
    if content.None? then "" else Truncate(content.value, MaxContent)
  }

  // ---------------------------------------------------------------------------------------
  // Deciding the patterns without backtracking

  /** The letters after a domain's dot hold no dot, so the dot the pattern splits at is the
      last one: one scan that remembers the last dot decides the domain. */
  method MatchDomain(d: string) returns (ok: bool)
    ensures ok <==> DomainPattern(d)
  {
    var lastDot := -1;
    var i := 0;
    while i < |d|
      invariant 0 <= i <= |d|
      invariant All(d[..i], IsHostChar)
      invariant -1 <= lastDot < i
      invariant lastDot >= 0 ==> d[lastDot] == '.'
      invariant forall k :: lastDot < k < i ==> d[k] != '.'
    {
      if !IsHostChar(d[i]) {
        assert !All(d, IsHostChar);
        DomainHost(d);
        return false;
      }
      if d[i] == '.' {
        lastDot := i;
      }
      assert d[..i + 1] == d[..i] + [d[i]];
      i := i + 1;
    }
    assert d[..i] == d;
    if lastDot < 1 || lastDot + 3 > |d| {
      DomainLastDot(d, lastDot);
      return false;
    }
    var j := lastDot + 1;
    while j < |d|
      invariant lastDot + 1 <= j <= |d|
      invariant All(d[lastDot + 1..j], IsAsciiLetter)
    {
      if !IsAsciiLetter(d[j]) {
        DomainLastDot(d, lastDot);
        assert d[lastDot + 1..][j - lastDot - 1] == d[j];
        return false;
      }
      assert d[lastDot + 1..j + 1] == d[lastDot + 1..j] + [d[j]];
      j := j + 1;
    }
    assert d[..lastDot][..] == d[..lastDot];
    assert All(d[..lastDot], IsHostChar) by {
      forall k | 0 <= k < lastDot ensures IsHostChar(d[..lastDot][k]) {
        assert d[..lastDot][k] == d[..|d|][k];
      }
    }
    ok := true;
  }

  /** Every unit of an accepted domain is a host unit. */
  lemma DomainHost(d: string)
    ensures DomainPattern(d) ==> All(d, IsHostChar)
  {
    if DomainPattern(d) {
      var k :| 1 <= k && k + 3 <= |d| && All(d[..k], IsHostChar) && d[k] == '.' && All(d[k + 1..], IsAsciiLetter);
      forall i | 0 <= i < |d| ensures IsHostChar(d[i]) {
        if i < k {
          assert d[..k][i] == d[i];
        } else if i > k {
          assert d[k + 1..][i - k - 1] == d[i];
        }
      }
    }
  }

  /** The split point of an accepted domain is its last dot. */
  lemma DomainLastDot(d: string, lastDot: int)
    requires -1 <= lastDot < |d|
    requires lastDot >= 0 ==> d[lastDot] == '.'
    requires forall k :: lastDot < k < |d| ==> d[k] != '.'
    ensures DomainPattern(d) ==> 1 <= lastDot && lastDot + 3 <= |d| && All(d[lastDot + 1..], IsAsciiLetter)
  {
    if DomainPattern(d) {
      var k :| 1 <= k && k + 3 <= |d| && All(d[..k], IsHostChar) && d[k] == '.' && All(d[k + 1..], IsAsciiLetter);
      if lastDot != k {
        assert lastDot > k;
        assert d[k + 1..][lastDot - k - 1] == d[lastDot];
      }
    }
  }

  /** A run of groups ends with a dot and two or more letters, after host units. */
  lemma {:induction false} GroupsLast(g: string) returns (m: nat)
    requires Groups(g)
    ensures m + 3 <= |g| && g[m] == '.' && All(g[..m], IsHostChar) && All(g[m + 1..], IsAsciiLetter)
    decreases |g|
  {
    var j :| 3 <= j <= |g| && All(g[1..j], IsAsciiLetter) && (j == |g| || Groups(g[j..]));
    if j == |g| {
      m := 0;
    } else {
      var m' := GroupsLast(g[j..]);
      m := j + m';
      assert g[m] == g[j..][m'];
      assert g[m + 1..] == g[j..][m' + 1..];
      forall i | 0 <= i < m ensures IsHostChar(g[..m][i]) {
        if i == 0 {
        } else if i < j {
          assert g[..m][i] == g[1..j][i - 1];
        } else {
          assert g[..m][i] == g[j..][..m'][i - j];
        }
      }
    }
  }

  /** Repeating the `.letters` group adds nothing: the host pattern accepts exactly the domains
      the e-mail pattern accepts. */
  lemma HostPatternIsDomain(h: string)
    ensures HostPattern(h) <==> DomainPattern(h)
  {
    if HostPattern(h) {
      var k :| 1 <= k <= |h| && All(h[..k], IsHostChar) && Groups(h[k..]);
      var m := GroupsLast(h[k..]);
      assert h[k + m] == h[k..][m];
      assert h[k + m + 1..] == h[k..][m + 1..];
      var km := k + m;
      forall i | 0 <= i < km ensures IsHostChar(h[..km][i]) {
        if i < k {
          assert h[..km][i] == h[..k][i];
        } else {
          assert h[..km][i] == h[k..][..m][i - k];
        }
      }
    }
    if DomainPattern(h) {
      var k :| 1 <= k && k + 3 <= |h| && All(h[..k], IsHostChar) && h[k] == '.' && All(h[k + 1..], IsAsciiLetter);
      var g := h[k..];
      assert g[1..|g|] == h[k + 1..];
      assert Groups(g);
    }
  }

  lemma TakeAt(s: string, n: int, i: int)
    ensures 0 <= i < n <= |s| ==> s[..n][i] == s[i]
  {
  }

  lemma DropAt(s: string, n: int)
    ensures 0 <= n < |s| ==> s[n..][0] == s[n]
  {
  }

  /** Index of the first `/`, or the length. */
  function FirstSlash(r: string, i: nat): (e: nat)
    requires i <= |r|
    ensures i <= e <= |r| && (e < |r| ==> r[e] == '/')
    ensures forall k :: i <= k < e ==> r[k] != '/'
    decreases |r| - i
  {
    if i == |r| || r[i] == '/' then i else FirstSlash(r, i + 1)
  }

  /** Host units exclude `/`, so the host ends at the first slash. */
  lemma UrlRestAtSlash(r: string)
    ensures UrlRestPattern(r) <==> DomainPattern(r[..FirstSlash(r, 0)]) && PathPattern(r[FirstSlash(r, 0)..])
  {
    var f := FirstSlash(r, 0);
    if UrlRestPattern(r) {
      var e :| 0 <= e <= |r| && HostPattern(r[..e]) && PathPattern(r[e..]);
      HostPatternIsDomain(r[..e]);
      DomainHost(r[..e]);
      DropAt(r, e);
      TakeAt(r, e, f);
    }
    HostPatternIsDomain(r[..f]);
  }

  lemma SchemesExclusive(s: string)
    ensures !(StartsWith(s, "http://") && StartsWith(s, "https://"))
  {
    assert |s| >= 8 ==> s[..7][4] == s[4] == s[..8][4];
  }

  /** The URL check as a scan: scheme, host up to the first slash, then the path. */
  method MatchUrl(s: string) returns (ok: bool)
    ensures ok <==> UrlPattern(s)
  {
    SchemesExclusive(s);
    var r;
    if StartsWith(s, "http://") {
      r := s[7..];
    } else if StartsWith(s, "https://") {
      r := s[8..];
    } else {
      return false;
    }
    var e := FirstSlash(r, 0);
    UrlRestAtSlash(r);
    var host := MatchDomain(r[..e]);
    ok := host && PathPattern(r[e..]);
  }

  /** The e-mail check as a scan: the first `@` splits, since neither side may hold one. */
  method MatchEmail(s: string) returns (ok: bool)
    ensures ok <==> EmailPattern(s)
  {
    var a := 0;
    while a < |s| && s[a] != '@'
      invariant 0 <= a <= |s|
      invariant All(s[..a], IsLocalChar)
    {
      if !IsLocalChar(s[a]) {
        EmailAt(s, a);
        return false;
      }
      assert s[..a + 1] == s[..a] + [s[a]];
      a := a + 1;
    }
    EmailAt(s, a);
    if a == 0 || a == |s| {
      return false;
    }
    ok := MatchDomain(s[a + 1..]);
  }

  /** Where the pattern can put its `@`: at the first unit that is not a local-part unit. */
  lemma EmailAt(s: string, a: nat)
    requires a <= |s| && All(s[..a], IsLocalChar)
    requires a < |s| ==> s[a] == '@' || !IsLocalChar(s[a])
    ensures EmailPattern(s) <==> a < |s| && s[a] == '@' && 1 <= a && DomainPattern(s[a + 1..])
  {
    if EmailPattern(s) {
      var b :| 1 <= b < |s| && s[b] == '@' && All(s[..b], IsLocalChar) && DomainPattern(s[b + 1..]);
      DomainHost(s[b + 1..]);
      TakeAt(s, b, a);
      TakeAt(s, a, b);
    }
  }

  // ---------------------------------------------------------------------------------------
  // Agreement with the front end

  /** For every string the server and the browser give the same verdicts and the same
      cleaned text. */
  lemma FrontAndBackAgree(s: string)
    ensures IsValidUsername(Some(s)) == ValidateUsername(s)
    ensures IsValidPassword(Some(s)) == ValidatePassword(s)
    ensures JavaSanitizeTitle(Some(s)) == SanitizeTitle(s)
    ensures JavaSanitizeContent(Some(s)) == SanitizeContent(s)
    ensures JavaSanitizeHtml(Some(s)) == Some(SanitizeHtml(s))
  {
  }
}
