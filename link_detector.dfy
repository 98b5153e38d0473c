/**
 * Hyperlink analysis: find the `http://` and `https://` links of an email,
 * judge each one, and flag the email when most of its links are suspicious.
 *
 * Two foreign calls become parameters, bundled in `LinkOracles`: the parse of
 * a URL's authority (`urlparse(url).netloc`, `None` when it raises) and the
 * live TLS handshake that decides whether a domain's certificate is valid.
 */
module LinkDetector {
  import opened Wrappers
  import opened Text
  import Findall

  const Https := "https://"
  const Http := "http://"

  /** The characters a link may continue with: `[a-zA-Z]`, `[0-9]`, the range
      `$`..`_` (0x24..0x5F, which takes in digits, capitals, `%`, `/`, `:`,
      `?`, `=`, `[`, `\` and `]`), the set `! * \ ( ) ,`, and `%` followed by
      two hex digits (already covered character by character). */
  predicate IsUrlChar(c: char) {
    c == '!' || ('$' <= c <= '_') || ('a' <= c <= 'z')
  }

  predicate AllUrlChars(s: string) {
    forall j :: 0 <= j < |s| ==> IsUrlChar(s[j])
  }

  /** A whole string the link pattern accepts: a scheme prefix and at least
      one link character, nothing else. */
  predicate IsUrl(s: string) {
    (StartsAt(s, 0, Https) && |s| > |Https| && AllUrlChars(s[|Https|..])) ||
    (StartsAt(s, 0, Http) && |s| > |Http| && AllUrlChars(s[|Http|..]))
  }

  /** The link pattern can start at `i`: a scheme prefix followed by a link
      character. */
  predicate LinkStartsAt(text: string, i: nat) {
    (StartsAt(text, i, Https) && i + |Https| < |text| && IsUrlChar(text[i + |Https|])) ||
    (StartsAt(text, i, Http) && i + |Http| < |text| && IsUrlChar(text[i + |Http|]))
  }

  /** Length of the longest run of link characters starting at `j`. */
  function UrlRun(text: string, j: nat): (n: nat)
    decreases |text| - j
    ensures n > 0 ==> j + n <= |text|
    ensures forall q :: j <= q < j + n ==> IsUrlChar(text[q])
    ensures j + n < |text| ==> !IsUrlChar(text[j + n])
    ensures n > 0 <==> j < |text| && IsUrlChar(text[j])
  {
    if j < |text| && IsUrlChar(text[j]) then 1 + UrlRun(text, j + 1) else 0
  }

  /** Length of the match the link pattern makes at `i` (0 for none). The
      repetition is greedy and nothing follows it in the pattern, so a match
      runs to the last link character. */
  function LinkMatchLength(text: string, i: nat): (n: nat)
    ensures i <= |text| ==> i + n <= |text|
    ensures n > 0 <==> LinkStartsAt(text, i)
    ensures n > 0 && i + n < |text| ==> !IsUrlChar(text[i + n])
  {
    SchemesExclusive(text, i);
    if StartsAt(text, i, Https) && UrlRun(text, i + |Https|) > 0 then
      |Https| + UrlRun(text, i + |Https|)
    else if StartsAt(text, i, Http) && UrlRun(text, i + |Http|) > 0 then
      |Http| + UrlRun(text, i + |Http|)
    else
      0
  }

  /** No position starts both schemes: their fifth characters differ. */
  lemma SchemesExclusive(text: string, i: nat)
    ensures !(StartsAt(text, i, Https) && StartsAt(text, i, Http))
  {
    if StartsAt(text, i, Https) {
      assert text[i + 4] == Https[4] != Http[4];
    }
  }

  /** A scheme prefix followed by a run of link characters is a whole URL. */
  lemma SchemeRunIsUrl(text: string, i: nat, scheme: string)
    requires scheme == Https || scheme == Http
    requires StartsAt(text, i, scheme) && UrlRun(text, i + |scheme|) > 0
    ensures IsUrl(text[i..i + |scheme| + UrlRun(text, i + |scheme|)])
  {
    var n := |scheme| + UrlRun(text, i + |scheme|);
    var s := text[i..i + n];
    assert s[..|scheme|] == text[i..i + |scheme|];
    forall j | 0 <= j < |s[|scheme|..]| ensures IsUrlChar(s[|scheme|..][j]) {
      assert s[|scheme|..][j] == text[i + |scheme| + j];
    }
  }

  lemma LinkMatcherWellFormed(text: string)
    ensures Findall.WellFormed(LinkMatchLength, text)
  {
    forall i: nat | i <= |text| ensures i + LinkMatchLength(text, i) <= |text| {
    }
  }

  /** `extract_links`: every non-overlapping match of the link pattern, left
      to right, duplicates kept. */
  function ExtractLinks(text: string): (links: seq<string>)
    ensures |links| == |LinkSpans(text)|
    ensures forall k :: 0 <= k < |links| ==>
      links[k] == text[LinkSpans(text)[k].start..LinkSpans(text)[k].end] && IsUrl(links[k])
  {
    LinkMatcherWellFormed(text);
    LinkMatchesAreUrls(text);
    Findall.Matches(LinkMatchLength, text)
  }

  /** Each string the scan reports is a whole URL. */
  lemma LinkMatchesAreUrls(text: string)
    requires Findall.WellFormed(LinkMatchLength, text)
    ensures forall k :: 0 <= k < |Findall.Matches(LinkMatchLength, text)| ==>
      IsUrl(Findall.Matches(LinkMatchLength, text)[k])
  {
    var r := Findall.Matches(LinkMatchLength, text);
    forall k | 0 <= k < |r| ensures IsUrl(r[k]) {
      Findall.MatchAt(LinkMatchLength, text, k);
      MatchIsUrl(text, Findall.Spans(LinkMatchLength, text, 0)[k].start, r[k]);
    }
  }

  /** Where the links of `text` lie. */
  function LinkSpans(text: string): seq<Findall.Span>
  {
    LinkMatcherWellFormed(text);
    Findall.Spans(LinkMatchLength, text, 0)
  }

  /** `is_https`: a case-sensitive prefix test. */
  predicate IsHttps(url: string) {
    StartsAt(url, 0, Https)
  }

  /** The two foreign calls `analyze_link` makes. */
  datatype LinkOracles = LinkOracles(
    netloc: string -> Option<string>,   // urlparse(url).netloc; None when urlparse raises
    certificateValid: string -> bool)   // the TLS handshake to port 443 succeeds

  /** The dict `analyze_link` returns. */
  datatype LinkAnalysis = LinkAnalysis(url: string, isHttps: bool, hasCertificate: bool, isSuspicious: bool)

  /** The certificate of an HTTPS link's domain was verified. */
  predicate HasCertificate(url: string, env: LinkOracles) {
    IsHttps(url) &&
    match env.netloc(url)
    case None => false
    case Some(domain) => env.certificateValid(domain)
  }

  /** A link is trusted only when it is HTTPS and its certificate verifies. */
  predicate IsSuspicious(url: string, env: LinkOracles) {
    !(IsHttps(url) && HasCertificate(url, env))
  }

  /** `is_https` looks at the first eight characters only: what follows them
      never changes the answer, and an HTTPS URL is never a plain HTTP one. */
  lemma IsHttpsIsPrefixTest(url: string, rest: string)
    ensures IsHttps(url) ==> IsHttps(url + rest) && !StartsAt(url, 0, Http)
    ensures |url| >= |Https| ==> (IsHttps(url + rest) <==> IsHttps(url))
  {
    if |url| >= |Https| {
      assert (url + rest)[..|Https|] == url[..|Https|];
    }
    if IsHttps(url) {
      assert url[4] == Https[4];
    }
  }

  /** The test is case-sensitive: an upper-case scheme is not HTTPS. */
  lemma IsHttpsIsCaseSensitive()
    ensures IsHttps("https://example.com")
    ensures !IsHttps("HTTPS://example.com")
  {
    assert "HTTPS://example.com"[0] != Https[0];
  }

  /** The three ways `analyze_link` marks a link suspicious: plain HTTP, a
      URL that cannot be parsed, or a certificate that does not verify. A
      link is trusted exactly when its certificate was verified. */
  lemma SuspiciousCases(url: string, env: LinkOracles)
    ensures IsSuspicious(url, env) <==>
      !IsHttps(url) || env.netloc(url).None? || !env.certificateValid(env.netloc(url).value)
    ensures HasCertificate(url, env) ==> IsHttps(url)
    ensures !IsSuspicious(url, env) <==> HasCertificate(url, env)
  {
  }

  /** `analyze_link`: the result record starts all false and its fields are
      overwritten one after another; a failed parse marks the link suspicious
      whatever its scheme. */
  method AnalyzeLink(url: string, env: LinkOracles) returns (r: LinkAnalysis)
    ensures r.url == url && r.isHttps == IsHttps(url)
    ensures r.hasCertificate == HasCertificate(url, env)
    ensures r.hasCertificate ==> r.isHttps
    ensures r.isSuspicious == !(r.isHttps && r.hasCertificate)
    ensures r.isSuspicious == IsSuspicious(url, env)
    ensures !r.isHttps ==> r.isSuspicious
    ensures env.netloc(url).None? ==> r.isSuspicious
  {
    r := LinkAnalysis(url, false, false, false);
    r := r.(isHttps := IsHttps(url));
    match env.netloc(url)
    case Some(domain) =>
      if r.isHttps {
        r := r.(hasCertificate := env.certificateValid(domain));
      }
      if !r.isHttps {
        r := r.(isSuspicious := true);
      } else if r.isHttps && !r.hasCertificate {
        r := r.(isSuspicious := true);
      }
    case None =>
      r := r.(isSuspicious := true);
  }

  /** Number of suspicious links in `links`. */
  function SuspiciousCount(links: seq<string>, env: LinkOracles): (n: nat)
    ensures n <= |links|
  {
    if links == [] then 0
    else SuspiciousCount(links[..|links| - 1], env) + (if IsSuspicious(links[|links| - 1], env) then 1 else 0)
  }

  /** What `check_links` decides: there are links, and strictly more than half
      of them are suspicious. */
  predicate LinksFlagged(text: string, env: LinkOracles) {
    var links := ExtractLinks(text);
    links != [] && 2 * SuspiciousCount(links, env) > |links|
  }

  /** The integer form agrees with the source's true division: flagged iff
      there are links and the count exceeds half their number. */
  lemma LinksFlaggedIsMajority(text: string, env: LinkOracles)
    ensures LinksFlagged(text, env) <==>
      ExtractLinks(text) != [] &&
      (SuspiciousCount(ExtractLinks(text), env) as real) > (|ExtractLinks(text)| as real) / 2.0
  {
  }

  /** `check_links`: counts the suspicious links in a loop. */
  method CheckLinks(text: string, env: LinkOracles) returns (flagged: bool)
    ensures flagged == LinksFlagged(text, env)
    ensures ExtractLinks(text) == [] ==> !flagged
    ensures flagged ==> 2 * SuspiciousCount(ExtractLinks(text), env) > |ExtractLinks(text)|
  {
    var links := ExtractLinks(text);
    if links == [] {
      return false;
    }
    var suspiciousCount := 0;
    for k := 0 to |links|
      invariant suspiciousCount == SuspiciousCount(links[..k], env)
      invariant suspiciousCount <= k
    {
      var analysis := AnalyzeLink(links[k], env);
      assert links[..k + 1][..k] == links[..k];
      if analysis.isSuspicious {
        suspiciousCount := suspiciousCount + 1;
      }
    }
    assert links[..|links|] == links;
    flagged := 2 * suspiciousCount > |links|;
  }

  /** The span of the `k`-th extracted link is exactly the match made at
      its start, where a link can start. */
  lemma ExtractedLinkSpan(text: string, k: nat)
    requires k < |LinkSpans(text)|
    ensures LinkSpans(text)[k].end - LinkSpans(text)[k].start == LinkMatchLength(text, LinkSpans(text)[k].start) > 0
    ensures LinkStartsAt(text, LinkSpans(text)[k].start)
  {
    LinkMatcherWellFormed(text);
    var sp := Findall.Spans(LinkMatchLength, text, 0);
    assert sp[k].end - sp[k].start == LinkMatchLength(text, sp[k].start);
  }

  /** Every match of the link pattern is a whole URL: a scheme prefix and at
      least one link character, nothing else. */
  lemma MatchIsUrl(text: string, i: nat, l: string)
    requires LinkMatchLength(text, i) > 0 && l == text[i..i + LinkMatchLength(text, i)]
    ensures IsUrl(l)
  {
    SchemesExclusive(text, i);
    if StartsAt(text, i, Https) && UrlRun(text, i + |Https|) > 0 {
      SchemeRunIsUrl(text, i, Https);
    } else {
      SchemeRunIsUrl(text, i, Http);
    }
  }

  /** The `k`-th extracted link runs to the last link character. */
  lemma ExtractedLinkIsMaximal(text: string, k: nat)
    requires k < |LinkSpans(text)|
    ensures LinkSpans(text)[k].end == |text| || !IsUrlChar(text[LinkSpans(text)[k].end])
  {
    LinkMatcherWellFormed(text);
    var sp := Findall.Spans(LinkMatchLength, text, 0);
    assert sp[k].end == sp[k].start + LinkMatchLength(text, sp[k].start);
  }

  /** Every extracted link is a whole match of the link pattern: a scheme
      prefix, at least one link character, no whitespace. It is HTTPS exactly
      when it does not start with `http://`. */
  lemma ExtractedLinksAreUrls(text: string)
    ensures forall l :: l in ExtractLinks(text) ==> IsUrl(l) && NoSpace(l)
    ensures forall l :: l in ExtractLinks(text) ==> (IsHttps(l) <==> !StartsAt(l, 0, Http))
  {
    forall l | l in ExtractLinks(text)
      ensures IsUrl(l) && NoSpace(l) && (IsHttps(l) <==> !StartsAt(l, 0, Http))
    {
      var k :| 0 <= k < |ExtractLinks(text)| && ExtractLinks(text)[k] == l;
      UrlHasNoSpace(l);
    }
  }

  lemma UrlHasNoSpace(l: string)
    requires IsUrl(l)
    ensures NoSpace(l)
    ensures IsHttps(l) <==> !StartsAt(l, 0, Http)
  {
    forall j | 0 <= j < |l| ensures !IsSpace(l[j]) {
      if StartsAt(l, 0, Https) {
        if j < |Https| { assert l[j] == Https[j]; } else { assert l[j] == l[|Https|..][j - |Https|]; }
      } else {
        if j < |Http| { assert l[j] == Http[j]; } else { assert l[j] == l[|Http|..][j - |Http|]; }
      }
    }
    if StartsAt(l, 0, Https) { assert l[4] == Https[4]; }
    if StartsAt(l, 0, Http) { assert l[4] == Http[4]; }
  }

  /** The spans of the scan are left to right and non-overlapping, and no
      place where a link can start is skipped. */
  lemma LinkSpansOrderedAndComplete(text: string)
    ensures var sp := LinkSpans(text);
      (forall k, k' :: 0 <= k < k' < |sp| ==> sp[k].end <= sp[k'].start) &&
      (forall q :: 0 <= q < |text| && LinkStartsAt(text, q) ==> Findall.Covered(sp, q))
  {
    LinkMatcherWellFormed(text);
    Findall.AllMatchesCovered(LinkMatchLength, text);
  }

  /** A text in which no link can start yields no links, and conversely. */
  lemma NoLinksIffNoLinkStart(text: string)
    ensures ExtractLinks(text) == [] <==> forall q :: 0 <= q < |text| ==> !LinkStartsAt(text, q)
  {
    LinkMatcherWellFormed(text);
    Findall.MatchesEmptyIffNoSearch(LinkMatchLength, text);
    forall q | 0 <= q < |text| ensures LinkMatchLength(text, q) == 0 <==> !LinkStartsAt(text, q) {
    }
  }

  lemma {:induction false} AllSuspiciousCount(links: seq<string>, env: LinkOracles)
    requires forall k :: 0 <= k < |links| ==> IsSuspicious(links[k], env)
    ensures SuspiciousCount(links, env) == |links|
  {
    if links != [] {
      AllSuspiciousCount(links[..|links| - 1], env);
    }
  }

  lemma {:induction false} NoneSuspiciousCount(links: seq<string>, env: LinkOracles)
    requires forall l :: l in links ==> !IsSuspicious(l, env)
    ensures SuspiciousCount(links, env) == 0
  {
    if links != [] {
      assert links[|links| - 1] in links;
      NoneSuspiciousCount(links[..|links| - 1], env);
    }
  }

  /** Every link suspicious, and at least one link: the email is flagged. */
  lemma AllSuspiciousFlagged(text: string, env: LinkOracles)
    requires ExtractLinks(text) != []
    requires forall l :: l in ExtractLinks(text) ==> IsSuspicious(l, env)
    ensures LinksFlagged(text, env)
  {
    var links := ExtractLinks(text);
    forall k | 0 <= k < |links| ensures IsSuspicious(links[k], env) {
      assert links[k] in links;
    }
    AllSuspiciousCount(links, env);
  }

  /** An email whose links are all plain HTTP is flagged. */
  lemma PlainHttpLinksFlagged(text: string, env: LinkOracles)
    requires ExtractLinks(text) != []
    requires forall l :: l in ExtractLinks(text) ==> !IsHttps(l)
    ensures LinksFlagged(text, env)
  {
    AllSuspiciousFlagged(text, env);
  }

  /** Exactly half of the links suspicious is not a majority. */
  lemma HalfSuspiciousNotFlagged(text: string, env: LinkOracles)
    requires 2 * SuspiciousCount(ExtractLinks(text), env) == |ExtractLinks(text)|
    ensures !LinksFlagged(text, env)
  {
  }
}
