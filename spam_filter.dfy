/**
 * The spam filter: runs the three detectors on one email and takes a vote.
 * An email is spam when at least two of the three methods flag it; the
 * unsubscribe method flags an email that has no unsubscribe option.
 */
module SpamFilter {
  import SignatureDetector
  import LinkDetector
  import UnsubscribeDetector

  datatype Verdict = Spam | NotSpam

  /** One entry of the results: the method's flag and its display name. */
  datatype MethodResult = MethodResult(isSpam: bool, methodName: string)

  /** `analyze_email`'s pair: the verdict and the results keyed by method. */
  datatype Analysis = Analysis(verdict: Verdict, results: map<string, MethodResult>)

  const SignatureKey := "signature"
  const LinksKey := "links"
  const UnsubscribeKey := "unsubscribe"

  const SignatureMethod := "Signature-Based Detection"
  const LinksMethod := "Hyperlink Analysis"
  const UnsubscribeMethod := "Unsubscribe Link Detection"

  /** `sum` of the three flags. */
  function SpamCount(signature: bool, links: bool, unsubscribe: bool): (n: nat)
    ensures n <= 3
    ensures n == 0 <==> !signature && !links && !unsubscribe
    ensures n == 3 <==> signature && links && unsubscribe
  {
    (if signature then 1 else 0) + (if links then 1 else 0) + (if unsubscribe then 1 else 0)
  }

  /** The vote: spam when the count reaches two. */
  function Vote(signature: bool, links: bool, unsubscribe: bool): (v: Verdict)
    ensures v == Spam <==> (signature && links) || (signature && unsubscribe) || (links && unsubscribe)
  {
    if SpamCount(signature, links, unsubscribe) >= 2 then Spam else NotSpam
  }

  /** `analyze_email`: the three results, each under its key, and the vote
      over their flags. */
  function AnalyzeEmail(detector: SignatureDetector.SignatureDetector, env: LinkDetector.LinkOracles, text: string): (a: Analysis)
    reads detector
    ensures a.results.Keys == {SignatureKey, LinksKey, UnsubscribeKey}
    ensures a.results[SignatureKey] == MethodResult(detector.CheckSignature(text), SignatureMethod)
    ensures a.results[LinksKey] == MethodResult(LinkDetector.LinksFlagged(text, env), LinksMethod)
    ensures a.results[UnsubscribeKey] ==
      MethodResult(!UnsubscribeDetector.AnyOccurs(UnsubscribeDetector.Patterns, text), UnsubscribeMethod)
    ensures var s, l, u := a.results[SignatureKey].isSpam, a.results[LinksKey].isSpam, a.results[UnsubscribeKey].isSpam;
      a.verdict == Spam <==> (s && l) || (s && u) || (l && u)
  {
    var results := map[
      SignatureKey := MethodResult(detector.CheckSignature(text), SignatureMethod),
      LinksKey := MethodResult(LinkDetector.LinksFlagged(text, env), LinksMethod),
      UnsubscribeKey := MethodResult(!UnsubscribeDetector.HasUnsubscribe(text), UnsubscribeMethod)
    ];
    var spamCount := SpamCount(results[SignatureKey].isSpam, results[LinksKey].isSpam, results[UnsubscribeKey].isSpam);
    Analysis(if spamCount >= 2 then Spam else NotSpam, results)
  }

  /** Raising any flag never turns a spam verdict into a non-spam one. */
  lemma VoteMonotone(s: bool, l: bool, u: bool, s': bool, l': bool, u': bool)
    requires (s ==> s') && (l ==> l') && (u ==> u')
    ensures Vote(s, l, u) == Spam ==> Vote(s', l', u') == Spam
  {
  }

  /** A single flag is not enough, and no flag at all is not spam. */
  lemma OneFlagIsNotSpam(s: bool, l: bool, u: bool)
    requires SpamCount(s, l, u) <= 1
    ensures Vote(s, l, u) == NotSpam
  {
  }

  /** An email with a known signature whose links are all suspicious is spam,
      whether or not it offers an unsubscribe option. */
  lemma KnownSpamWithBadLinks(detector: SignatureDetector.SignatureDetector, env: LinkDetector.LinkOracles, text: string)
    requires detector.CheckSignature(text)
    requires LinkDetector.ExtractLinks(text) != []
    requires forall l :: l in LinkDetector.ExtractLinks(text) ==> LinkDetector.IsSuspicious(l, env)
    ensures AnalyzeEmail(detector, env, text).verdict == Spam
  {
    LinkDetector.AllSuspiciousFlagged(text, env);
  }

  /** An email with an unknown signature, whose links are trusted, and that
      offers an unsubscribe option is not spam. */
  lemma CleanEmailIsNotSpam(detector: SignatureDetector.SignatureDetector, env: LinkDetector.LinkOracles, text: string)
    requires !detector.CheckSignature(text)
    requires forall l :: l in LinkDetector.ExtractLinks(text) ==> !LinkDetector.IsSuspicious(l, env)
    requires UnsubscribeDetector.HasUnsubscribe(text)
    ensures AnalyzeEmail(detector, env, text).verdict == NotSpam
  {
    LinkDetector.NoneSuspiciousCount(LinkDetector.ExtractLinks(text), env);
  }
}
