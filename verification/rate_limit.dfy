/** RateLimitInterceptor.java: a fixed-window request counter per client address, in front of
    every request under `/api/`. The interceptor's map is a value here; each operation returns
    the new map. The clock is a parameter, in milliseconds. */
module RateLimit {
  import opened Wrappers
  import opened Strings

  const WindowMs: int := 60000
  const MaxRequests: nat := 60
  const MaxLoginRequests: nat := 10
  const LoginSuffix: string := "/api/login"

  /** `RequestInfo`: when the current window started and how many requests it has seen. */
  datatype Entry = Entry(windowStart: int, count: int)

  type Limiter = map<string, Entry>

  function Limit(uri: string): (n: nat)
    ensures n == MaxLoginRequests || n == MaxRequests
    ensures n == MaxLoginRequests <==> EndsWith(uri, LoginSuffix)
  {
    if EndsWith(uri, LoginSuffix) then MaxLoginRequests else MaxRequests
  }

  /** The address's entry after one more request: created with the current time when absent,
      restarted when the window is more than a minute old, then counted. */
  function Count(e: Option<Entry>, now: int): Entry {
    var e0 := if e.None? then Entry(now, 0) else e.value;
    var e1 := if now - e0.windowStart > WindowMs then Entry(now, 0) else e0;
    e1.(count := e1.count + 1)
  }

  /** `preHandle`: the new map and whether the request may proceed (`false` is the 429 reply). */
  function PreHandle(lim: Limiter, ip: string, uri: string, now: int): (Limiter, bool) {
    var e := Count(if ip in lim then Some(lim[ip]) else None, now);
    (lim[ip := e], e.count <= Limit(uri))
  }

  /** One request: it is always counted, in a fresh window when the address is new or its
      window is older than a minute; it passes iff the count stays within the endpoint's
      limit; no other address's entry changes. */
  lemma PreHandleSpec(lim: Limiter, ip: string, uri: string, now: int)
    ensures var r, ok := PreHandle(lim, ip, uri, now).0, PreHandle(lim, ip, uri, now).1;
      var restarted := ip !in lim || now - lim[ip].windowStart > WindowMs;
      && r.Keys == lim.Keys + {ip}
      && (forall other :: other in lim && other != ip ==> r[other] == lim[other])
      && r[ip].windowStart == (if restarted then now else lim[ip].windowStart)
      && r[ip].count == (if restarted then 1 else lim[ip].count + 1)
      && (ok <==> r[ip].count <= Limit(uri))
  {
  }

  /** A request, as the interceptor sees it. */
  datatype Request = Request(uri: string, time: int)

  /** Several requests from one address, in order; the outcomes in the same order. */
  function Run(lim: Limiter, ip: string, reqs: seq<Request>): (Limiter, seq<bool>)
    decreases |reqs|
  {
    if |reqs| == 0 then (lim, [])
    else
      var (l1, ok) := PreHandle(lim, ip, reqs[0].uri, reqs[0].time);
      var (l2, oks) := Run(l1, ip, reqs[1..]);
      (l2, [ok] + oks)
  }

  /** All times within a minute of the window start. */
  predicate WithinWindow(reqs: seq<Request>, start: int) {
    forall i :: 0 <= i < |reqs| ==> reqs[i].time - start <= WindowMs
  }

  /** Inside one window the count only grows, and the i-th request passes iff the count it
      brings the address to is within that request's limit, whatever endpoints the earlier
      requests went to. */
  lemma {:induction false} RunWithinWindow(lim: Limiter, ip: string, reqs: seq<Request>)
    requires ip in lim && WithinWindow(reqs, lim[ip].windowStart)
    ensures var (r, oks) := Run(lim, ip, reqs);
      && |oks| == |reqs|
      && ip in r && r[ip] == Entry(lim[ip].windowStart, lim[ip].count + |reqs|)
      && forall i :: 0 <= i < |reqs| ==> (oks[i] <==> lim[ip].count + i + 1 <= Limit(reqs[i].uri))
    decreases |reqs|
  {
    if |reqs| > 0 {
      var (l1, ok) := PreHandle(lim, ip, reqs[0].uri, reqs[0].time);
      PreHandleSpec(lim, ip, reqs[0].uri, reqs[0].time);
      assert WithinWindow(reqs[1..], l1[ip].windowStart) by {
        assert forall i :: 0 <= i < |reqs[1..]| ==> reqs[1..][i] == reqs[i + 1];
      }
      RunWithinWindow(l1, ip, reqs[1..]);
      var (l2, oks) := Run(l1, ip, reqs[1..]);
      assert Run(lim, ip, reqs) == (l2, [ok] + oks);
      forall i | 1 <= i < |reqs|
        ensures ([ok] + oks)[i] <==> lim[ip].count + i + 1 <= Limit(reqs[i].uri)
      {
        assert reqs[1..][i - 1] == reqs[i];
      }
    }
  }

  /** Starting from an empty count, exactly the first `Limit(uri)` requests to one endpoint
      within the window pass. */
  lemma FirstMaxPass(lim: Limiter, ip: string, reqs: seq<Request>, uri: string)
    requires ip in lim && lim[ip].count == 0 && WithinWindow(reqs, lim[ip].windowStart)
    requires forall i :: 0 <= i < |reqs| ==> reqs[i].uri == uri
    ensures var oks := Run(lim, ip, reqs).1;
      |oks| == |reqs| && forall i :: 0 <= i < |reqs| ==> (oks[i] <==> i < Limit(uri))
  {
    RunWithinWindow(lim, ip, reqs);
  }

  /** The counter is shared by all endpoints: after ten requests anywhere in the window, a
      login request is refused. */
  lemma SharedCounter(lim: Limiter, ip: string, reqs: seq<Request>)
    requires ip in lim && lim[ip].count == 0 && WithinWindow(reqs, lim[ip].windowStart)
    requires |reqs| > MaxLoginRequests && EndsWith(reqs[MaxLoginRequests].uri, LoginSuffix)
    ensures |Run(lim, ip, reqs).1| == |reqs| && !Run(lim, ip, reqs).1[MaxLoginRequests]
  {
    RunWithinWindow(lim, ip, reqs);
  }

  /** `resetIpCount`: a known address's count restarts from zero in the same window; an
      unknown address gets no entry. */
  function ResetIpCount(lim: Limiter, ip: string): (r: Limiter)
    ensures r.Keys == lim.Keys
    ensures forall other :: other in r && other != ip ==> r[other] == lim[other]
    ensures ip in r ==> r[ip] == Entry(lim[ip].windowStart, 0)
  {
    if ip in lim then lim[ip := lim[ip].(count := 0)] else lim
  }

  /** `clearAllRecords`. */
  function ClearAllRecords(lim: Limiter): (r: Limiter)
    ensures |r| == 0
  {
    map[]
  }

  /** After clearing, the next request from any address starts a new window and passes. */
  lemma ClearedAdmitsAnyone(lim: Limiter, ip: string, uri: string, now: int)
    ensures var (r, ok) := PreHandle(ClearAllRecords(lim), ip, uri, now);
      ok && r == map[ip := Entry(now, 1)]
  {
  }

  // ---------------------------------------------------------------------------------------
  // Client address

  /** The headers tried in order. */
  const IpHeaders: seq<string> := [
    "X-Forwarded-For", "X-Real-IP", "Proxy-Client-IP", "WL-Proxy-Client-IP",
    "HTTP_X_FORWARDED_FOR", "HTTP_X_FORWARDED", "HTTP_X_CLUSTER_CLIENT_IP", "HTTP_CLIENT_IP",
    "HTTP_FORWARDED_FOR", "HTTP_FORWARDED", "HTTP_VIA", "REMOTE_ADDR"]

  const Loopback6: string := "0:0:0:0:0:0:0:1"
  const Loopback4: string := "127.0.0.1"

  /** Java `equalsIgnoreCase` against a lower-case ASCII letter: the two ASCII cases, and the
      Kelvin sign, whose lower case is `k`. */
  predicate SameLetterIgnoringCase(c: char, letter: char) {
    LowerChar(c) == letter || (letter == 'k' && c == '\U{212A}')
  }

  predicate IsUnknown(v: string) {
    var word := "unknown";
    |v| == |word| && forall k :: 0 <= k < |v| ==> SameLetterIgnoringCase(v[k], word[k])
  }

  /** The header at position `k` of the list is set to a usable value. */
  predicate Usable(headers: map<string, string>, k: nat) {
    k < |IpHeaders| && IpHeaders[k] in headers
    && headers[IpHeaders[k]] != "" && !IsUnknown(headers[IpHeaders[k]])
  }

  /** The position of the first usable header at or after `k`. */
  function FirstUsable(headers: map<string, string>, k: nat): (r: Option<nat>)
    ensures r.Some? ==> k <= r.value && Usable(headers, r.value)
    ensures r.Some? ==> forall j :: k <= j < r.value ==> !Usable(headers, j)
    ensures r.None? <==> forall j :: k <= j < |IpHeaders| ==> !Usable(headers, j)
    decreases |IpHeaders| - k
  {
    if k >= |IpHeaders| then None
    else if Usable(headers, k) then Some(k)
    else FirstUsable(headers, k + 1)
  }

  function Normalize(ip: string): (r: string)
    ensures r != Loopback6
    ensures ip != Loopback6 ==> r == ip
  {
    if ip == Loopback6 then Loopback4 else ip
  }

  /** Java `String.split` on one character: the pieces with trailing empty pieces removed. */
  function JavaSplit(s: string, c: char): seq<string> {
    DropTrailingEmpty(Split(s, {c}))
  }

  function DropTrailingEmpty(parts: seq<string>): (r: seq<string>)
    ensures |r| <= |parts| && r == parts[..|r|]
    ensures |r| == 0 <==> forall k :: 0 <= k < |parts| ==> parts[k] == ""
  {
    if |parts| == 0 then []
    else if parts[|parts| - 1] == "" then DropTrailingEmpty(parts[..|parts| - 1])
    else parts
  }

  /** `ip.split(",")[0].trim()` when the value has a comma, as written: the index fails when
      the value is nothing but commas. */
  function FirstSegmentAsWritten(ip: string): Result<string, string> {
    if ',' in ip then
      var parts := JavaSplit(ip, ',');
      if |parts| == 0 then Failure("ArrayIndexOutOfBoundsException") else Success(JavaTrim(parts[0]))
    else Success(ip)
  }

  /** `getClientIpAddress` as written. */
  function ClientIpAsWritten(headers: map<string, string>, remoteAddr: string): Result<string, string> {
    match FirstUsable(headers, 0)
    case Some(k) =>
      (match FirstSegmentAsWritten(headers[IpHeaders[k]])
       case Success(ip) => Success(Normalize(ip))
       case Failure(e) => Failure(e))
    case None => Success(Normalize(remoteAddr))
  }

  /** The text before the first comma, trimmed. */
  function FirstSegment(ip: string): string {
    if ',' in ip then JavaTrim(Split(ip, {','})[0]) else ip
  }

  /** `getClientIpAddress` with the first segment taken without the failing index. */
  function ClientIp(headers: map<string, string>, remoteAddr: string): string {
    match FirstUsable(headers, 0)
    case Some(k) => Normalize(FirstSegment(headers[IpHeaders[k]]))
    case None => Normalize(remoteAddr)
  }

  /** The address comes from the first usable header in the list, cut at its first comma,
      or from the connection when no header is usable; the IPv6 loopback never comes out. */
  lemma ClientIpSpec(headers: map<string, string>, remoteAddr: string)
    ensures ClientIp(headers, remoteAddr) != Loopback6
    ensures (forall j :: 0 <= j < |IpHeaders| ==> !Usable(headers, j)) ==> ClientIp(headers, remoteAddr) == Normalize(remoteAddr)
    ensures forall k: nat :: Usable(headers, k) && (forall j :: 0 <= j < k ==> !Usable(headers, j)) ==>
      && ClientIp(headers, remoteAddr) == Normalize(FirstSegment(headers[IpHeaders[k]]))
      && ',' !in ClientIp(headers, remoteAddr)
  {
    forall k: nat | Usable(headers, k) && (forall j :: 0 <= j < k ==> !Usable(headers, j))
      ensures ClientIp(headers, remoteAddr) == Normalize(FirstSegment(headers[IpHeaders[k]]))
      ensures ',' !in ClientIp(headers, remoteAddr)
    {
      FirstUsableIsFirst(headers, k);
      FirstSegmentNoComma(headers[IpHeaders[k]]);
    }
  }

  lemma FirstUsableIsFirst(headers: map<string, string>, k: nat)
    requires Usable(headers, k) && forall j :: 0 <= j < k ==> !Usable(headers, j)
    ensures FirstUsable(headers, 0) == Some(k)
  {
    var r := FirstUsable(headers, 0);
    assert r.Some?;
    assert !(r.value < k) && !(k < r.value);
  }

  lemma FirstSegmentNoComma(v: string)
    ensures ',' !in FirstSegment(v)
  {
    if ',' in v {
      var parts := Split(v, {','});
      assert ',' !in parts[0];
      JavaTrimSub(parts[0]);
    }
  }

  /** Trimming keeps only characters of the input. */
  lemma {:induction false} JavaTrimSub(s: string)
    ensures forall c :: c in JavaTrim(s) ==> c in s
    decreases |s|
  {
    if |s| > 0 && IsJavaTrimmed(s[0]) {
      JavaTrimSub(s[1..]);
    } else if |s| > 0 && IsJavaTrimmed(s[|s| - 1]) {
      JavaTrimSub(s[..|s| - 1]);
    }
  }

  /** Every piece of a split is empty exactly when the input is nothing but separators. */
  lemma {:induction false} SplitAllEmpty(s: string, c: char)
    ensures (forall k :: 0 <= k < |Split(s, {c})| ==> Split(s, {c})[k] == "") <==> forall i :: 0 <= i < |s| ==> s[i] == c
    decreases |s|
  {
    if |s| > 0 {
      SplitAllEmpty(s[1..], c);
      var rest := Split(s[1..], {c});
      var parts := Split(s, {c});
      if s[0] == c {
        assert parts == [""] + rest;
        if forall i :: 0 <= i < |s| ==> s[i] == c {
          assert forall i :: 0 <= i < |s[1..]| ==> s[1..][i] == s[i + 1];
          assert forall k :: 0 <= k < |rest| ==> parts[k + 1] == rest[k];
        }
        if forall k :: 0 <= k < |parts| ==> parts[k] == "" {
          assert forall k :: 0 <= k < |rest| ==> rest[k] == parts[k + 1];
          assert forall i :: 1 <= i < |s| ==> s[i] == s[1..][i - 1];
        }
      } else {
        assert parts[0] != "";
      }
    }
  }

  /** The written code fails exactly on a value made of commas only, and otherwise agrees
      with the corrected one. */
  lemma FirstSegmentAgrees(ip: string)
    ensures FirstSegmentAsWritten(ip).Failure? <==> ip != "" && forall i :: 0 <= i < |ip| ==> ip[i] == ','
    ensures FirstSegmentAsWritten(ip).Success? ==> FirstSegmentAsWritten(ip).value == FirstSegment(ip)
  {
    SplitAllEmpty(ip, ',');
    if ip != "" && forall i :: 0 <= i < |ip| ==> ip[i] == ',' {
      assert ip[0] == ',';
    }
  }

  lemma ClientIpAgrees(headers: map<string, string>, remoteAddr: string)
    ensures ClientIpAsWritten(headers, remoteAddr).Success? ==> ClientIpAsWritten(headers, remoteAddr).value == ClientIp(headers, remoteAddr)
  {
    match FirstUsable(headers, 0)
    case Some(k) => FirstSegmentAgrees(headers[IpHeaders[k]]);
    case None =>
  }

  /** A request whose `X-Forwarded-For` is a lone comma makes the written code fail instead
      of yielding an address. */
  lemma LoneCommaFails()
    ensures ClientIpAsWritten(map["X-Forwarded-For" := ","], "10.0.0.1").Failure?
  {
    var headers := map["X-Forwarded-For" := ","];
    assert Usable(headers, 0);
    FirstSegmentAgrees(",");
  }
}
