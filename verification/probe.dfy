/**
 * One probe of one site (`check_website` in checker.py) and the pure helpers
 * it uses: the content check, the hostname taken from the URL and the
 * certificate expiry check. The network, TLS and clock are inputs.
 */
module Probe {
  import opened Wrappers
  import opened Text

  /** One configured site: unique name, URL and optional validation text. */
  datatype Site = Site(name: string, url: string, validationText: Option<string>)

  /** What `requests.get(url, timeout=10)` did: raised with a message, or answered. */
  datatype NetOutcome =
    | Raised(message: string)
    | Responded(statusCode: int, body: string, latencyMs: int)

  /**
   * What fetching and parsing the server certificate of a host gave:
   * an exception with its text (handshake, PEM or date parsing failure),
   * no "not after" field, or the expiry instant in seconds since the epoch.
   */
  datatype CertProbe = CertFailed(message: string) | NoNotAfter | NotAfter(expirySeconds: int)

  /** The `ssl_days_remaining` field: a whole number of days, or a text. */
  datatype SslExpiry = DaysLeft(days: int) | SslNote(text: string)

  /** The result dictionary of `check_website`; `None` fields are `Option`s. */
  datatype ProbeResult = ProbeResult(
    online: bool,
    error: Option<string>,
    latency: Option<int>,
    statusCode: Option<int>,
    sslDaysRemaining: Option<SslExpiry>,
    contentValid: Option<bool>)

  const SecondsPerDay := 86400

  /**
   * The shape every probe result has: online exactly when status 200 came
   * back without an exception, and an exception leaves every other field unset.
   */
  predicate WellFormed(p: ProbeResult) {
    && (p.online <==> p.statusCode == Some(200) && p.error.None?)
    && (p.error.Some? ==>
          !p.online && p.latency.None? && p.statusCode.None?
          && p.sslDaysRemaining.None? && p.contentValid.None?)
  }

  /** `check_content`: no (or empty) validation text passes; otherwise the text must occur in the body. */
  function CheckContent(body: string, validationText: Option<string>): (valid: bool)
    ensures valid <==> (validationText.None? || validationText.value == ""
                        || exists i :: OccursAt(body, validationText.value, i))
  {
    match validationText
    case None => true
    case Some(text) => text == "" || Contains(body, text)
  }

  /** A character occurring in a string makes the one-character string a substring. */
  lemma CharContained(s: string, c: char)
    requires c in s
    ensures Contains(s, [c])
  {
    var i :| 0 <= i < |s| && s[i] == c;
    assert OccursAt(s, [c], i);
  }

  /** `url.split('//')[-1].split('/')[0]`, the hostname expression of `check_ssl_expiry`, as written. */
  function HostnameAsWritten(url: string): (host: string)
    ensures '/' !in host
  {
    var pieces := Split(url, "//");
    var host := Split(pieces[|pieces| - 1], "/")[0];
    SplitPiecesFree(pieces[|pieces| - 1], "/");
    if '/' in host then CharContained(host, '/'); host else host
  }

  /** Everything after the first `//` (Python's `url.split('//', 1)[-1]`). */
  function AfterScheme(url: string): string {
    var pieces := Split(url, "//");
    if |pieces| == 1 then url else Join(pieces[1..], "//")
  }

  /** The hostname as intended: the text after the first `//`, up to the next `/`. */
  function Hostname(url: string): (host: string)
    ensures '/' !in host
  {
    var host := Split(AfterScheme(url), "/")[0];
    SplitPiecesFree(AfterScheme(url), "/");
    if '/' in host then CharContained(host, '/'); host else host
  }

  /** For `scheme://host` followed by nothing or by a path, the hostname is `host`. */
  lemma HostnameOfUrl(scheme: string, host: string, path: string)
    requires '/' !in scheme && '/' !in host
    requires path == "" || path[0] == '/'
    ensures Hostname(scheme + "//" + host + path) == host
  {
    var rest := host + path;
    assert scheme + "//" + host + path == scheme + "//" + rest;
    SplitAtFirst(scheme, "//", rest);
    JoinSplit(rest, "//");
    assert AfterScheme(scheme + "//" + rest) == rest;
    FirstSegment(host, path);
  }

  /** Cutting `host + path` at the first `/` gives `host` when the path is empty or starts with `/`. */
  lemma FirstSegment(host: string, path: string)
    requires '/' !in host
    requires path == "" || path[0] == '/'
    ensures Split(host + path, "/")[0] == host
  {
    if path == "" {
      assert host + path == host;
      NoFirstCharNoContains(host, "/");
      SplitWithoutSeparator(host, "/");
    } else {
      assert host + path == host + "/" + path[1..];
      SplitAtFirst(host, "/", path[1..]);
    }
  }

  /** A host without `/` followed by a path without `//` contains no `//`. */
  lemma NoDoubleSlashAfterHost(host: string, path: string)
    requires '/' !in host && !Contains(path, "//")
    ensures !Contains(host + path, "//")
  {
    var s := host + path;
    forall i ensures !OccursAt(s, "//", i) {
      if 0 <= i && i + 2 <= |s| {
        if i < |host| {
          assert s[i..i + 2][0] == host[i];
        } else {
          assert s[i..i + 2] == path[i - |host|..i - |host| + 2];
          assert !OccursAt(path, "//", i - |host|);
        }
      }
    }
  }

  /**
   * On a URL with a single `//`, the one after the scheme, the expression as
   * written yields the host: `scheme://host` followed by nothing or by a
   * path in which `//` does not occur.
   */
  lemma HostnameAsWrittenOfUrl(scheme: string, host: string, path: string)
    requires '/' !in scheme && '/' !in host
    requires path == "" || path[0] == '/'
    requires !Contains(path, "//")
    ensures HostnameAsWritten(scheme + "//" + host + path) == host
  {
    var rest := host + path;
    assert scheme + "//" + host + path == scheme + "//" + rest;
    SplitAtFirst(scheme, "//", rest);
    NoDoubleSlashAfterHost(host, path);
    SplitWithoutSeparator(rest, "//");
    assert Split(scheme + "//" + rest, "//") == [scheme, rest];
    FirstSegment(host, path);
  }

  /**
   * The expression as written takes the piece after the LAST `//`, so a
   * doubled slash in the path is read as the host: for
   * `https://example.com//status` it gives `status`, not `example.com`.
   */
  lemma HostnameAsWrittenMisreadsPath(scheme: string, host: string, tail: string)
    requires '/' !in scheme && '/' !in host && '/' !in tail
    ensures HostnameAsWritten(scheme + "//" + host + "//" + tail) == tail
    ensures Hostname(scheme + "//" + host + "//" + tail) == host
  {
    var url := scheme + "//" + host + "//" + tail;
    SplitTwice(scheme, host, tail);
    NoFirstCharNoContains(tail, "/");
    SplitWithoutSeparator(tail, "/");
    assert url == scheme + "//" + host + ("//" + tail);
    HostnameOfUrl(scheme, host, "//" + tail);
  }

  lemma SplitTwice(scheme: string, host: string, tail: string)
    requires '/' !in scheme && '/' !in host && '/' !in tail
    ensures Split(scheme + "//" + host + "//" + tail, "//") == [scheme, host, tail]
  {
    var rest := host + "//" + tail;
    assert scheme + "//" + host + "//" + tail == scheme + "//" + rest;
    SplitAtFirst(scheme, "//", rest);
    SplitAtFirst(host, "//", tail);
    NoFirstCharNoContains(tail, "//");
    SplitWithoutSeparator(tail, "//");
  }

  /** The concrete case: `https://example.com//status`. */
  lemma HostnameAsWrittenExample()
    ensures HostnameAsWritten("https:" + "//" + "example.com" + "//" + "status") == "status"
  {
    HostnameAsWrittenMisreadsPath("https:", "example.com", "status");
  }

  /**
   * `check_ssl_expiry`: the certificate of the host that line's hostname
   * expression picks out of the URL, fetched by `tls`,
   * gives the whole days (rounded down) from `nowSeconds` to its expiry,
   * or a text when the field is missing or anything raised.
   */
  function CheckSslExpiry(url: string, tls: string -> CertProbe, nowSeconds: int): (r: SslExpiry)
    ensures r.DaysLeft? <==> tls(HostnameAsWritten(url)).NotAfter?
    ensures r.DaysLeft? ==>
              var left := tls(HostnameAsWritten(url)).expirySeconds - nowSeconds;
              r.days * SecondsPerDay <= left < (r.days + 1) * SecondsPerDay
    ensures tls(HostnameAsWritten(url)) == NoNotAfter ==> r == SslNote("No expiry date")
    ensures tls(HostnameAsWritten(url)).CertFailed? ==> r == SslNote("SSL Error: " + tls(HostnameAsWritten(url)).message)
  {
    match tls(HostnameAsWritten(url))
    case CertFailed(message) => SslNote("SSL Error: " + message)
    case NoNotAfter => SslNote("No expiry date")
    case NotAfter(expiry) => DaysLeft((expiry - nowSeconds) / SecondsPerDay)
  }

  /** A certificate that has already expired gives a negative day count, not an error. */
  lemma ExpiredCertificateIsNegative(url: string, tls: string -> CertProbe, nowSeconds: int)
    requires tls(HostnameAsWritten(url)).NotAfter? && tls(HostnameAsWritten(url)).expirySeconds < nowSeconds
    ensures CheckSslExpiry(url, tls, nowSeconds).DaysLeft?
    ensures CheckSslExpiry(url, tls, nowSeconds).days < 0
  {
  }

  /** The result `check_website` returns for the given network outcome. */
  function ProbeOf(site: Site, net: NetOutcome, tls: string -> CertProbe, nowSeconds: int): (p: ProbeResult)
    ensures WellFormed(p)
    ensures p.online <==> net.Responded? && net.statusCode == 200
    ensures net.Raised? ==> p.error == Some(net.message)
    ensures net.Responded? ==>
              && p.statusCode == Some(net.statusCode) && p.latency == Some(net.latencyMs)
              && p.contentValid == Some(CheckContent(net.body, site.validationText))
              && p.sslDaysRemaining == Some(CheckSslExpiry(site.url, tls, nowSeconds))
  {
    match net
    case Raised(message) => ProbeResult(false, Some(message), None, None, None, None)
    case Responded(code, body, latency) =>
      ProbeResult(code == 200, None, Some(latency), Some(code),
                  Some(CheckSslExpiry(site.url, tls, nowSeconds)),
                  Some(CheckContent(body, site.validationText)))
  }

  /**
   * `check_website`: start from the all-unset result, then either record the
   * exception text or fill in the response fields.
   */
  method CheckWebsite(site: Site, net: NetOutcome, tls: string -> CertProbe, nowSeconds: int)
    returns (result: ProbeResult)
    ensures result == ProbeOf(site, net, tls, nowSeconds)
  {
    result := ProbeResult(false, None, None, None, None, None);
    match net {
      case Raised(message) =>
        result := result.(error := Some(message));
      case Responded(code, body, latency) =>
        result := result.(
          statusCode := Some(code),
          latency := Some(latency),
          online := code == 200,
          contentValid := Some(CheckContent(body, site.validationText)),
          sslDaysRemaining := Some(CheckSslExpiry(site.url, tls, nowSeconds)));
    }
  }
}
