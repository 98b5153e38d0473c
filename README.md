# Spam filter: a verified model

This project models the detection core of a small email spam filter. Three
independent detectors look at the text of one email, and a vote combines them:

- **Signature detection** normalises the text by lowercasing it and collapsing
  whitespace runs, hashes the result, and looks the digest up in a registry
  of digests trained on spam. Training appends a digest only when it is new.
  An empty registry flags nothing.
- **Hyperlink analysis** finds every `http://` and `https://` link with a
  regular expression. It treats a link as trusted only when it is HTTPS and
  the certificate of its domain verifies. A link whose URL cannot be parsed
  is suspicious. The email is flagged when strictly more than half of its
  links are suspicious. An email with no links is not flagged.
- **Unsubscribe detection** searches for seven fixed, case-insensitive
  phrases, for example `unsubscribe`, `opt-out` and `manage preferences`.
  Having no unsubscribe option counts as a spam indicator.
- **The filter** reports the three results under the keys `signature`,
  `links` and `unsubscribe`. The verdict is Spam when at least two of the
  three are raised.

Files:

- `text.dfy` holds the ASCII view of whitespace and letter case (modules
  `Wrappers` and `Text`).
- `findall.dfy` holds `search` and `findall` for a pattern given by its
  match length at each position.
- `link_detector.dfy`, `signature_detector.dfy`, `unsubscribe_detector.dfy`
  and `spam_filter.dfy` hold one module per source file.

The link pattern's character class `[$-_@.&+]` is a range from `$` (0x24) to
`_` (0x5F). Links can therefore contain digits, capitals, `%`, `/`, `:`,
`?`, `=`, `[`, `\`, `]` and similar characters. The model keeps this
behaviour: `IsUrlChar` accepts `!`, the range 0x24..0x5F, and `a`..`z`.
Whitespace ends a link.

Where a comment and the code disagree, the model follows the code. The
docstring of `check_links` says "any suspicious link", but the code uses a
strict majority. The comment in `analyze_email` says "if any method flags
it", but the code requires two of three.

Foreign calls become parameters:

- The TLS probe becomes `LinkOracles.certificateValid`.
- `urlparse(url).netloc` becomes `LinkOracles.netloc`, where `None` stands
  for the exception path.
- SHA-256 with hex encoding becomes the detector's `digest` function.
  Nothing is assumed about `digest`; in particular, it is not assumed to be
  injective.

## Model

| member | source | states |
|---|---|---|
| `LinkDetector.UrlRun` | link_detector.py:19 | the run it measures holds only link characters and stops at the first character that is not one |
| `LinkDetector.LinkMatchLength` | link_detector.py:18-20 | a match exists at `i` iff a scheme prefix and a link character start there; the match stays in the text and is maximal |
| `LinkDetector.MatchIsUrl` | link_detector.py:18-20 | every match of the link pattern is a whole URL (`IsUrl`): a scheme prefix followed by at least one link character |
| `LinkDetector.SchemesExclusive` | link_detector.py:19 | no position starts both `https://` and `http://`, so the optional `s` gives one alternative at a time |
| `LinkDetector.ExtractLinks` | link_detector.py:22-33 | `extract_links` returns one string per span `findall` reports, the text at that span, and each is a whole URL |
| `LinkDetector.LinkMatchesAreUrls` | link_detector.py:18-33 | every string the link pattern's `findall` returns is a whole URL |
| `LinkDetector.ExtractedLinkSpan` | link_detector.py:32-33 | the k-th span is exactly the non-empty match made at its start, and a link can start there |
| `LinkDetector.ExtractedLinkIsMaximal` | link_detector.py:19 | the k-th extracted link ends at the end of the text or before a character that is not a link character |
| `LinkDetector.ExtractedLinksAreUrls` | link_detector.py:18-20 | every extracted link is `http://` or `https://` followed by at least one link character, contains no whitespace, and is HTTPS exactly when it is not plain HTTP |
| `LinkDetector.UrlHasNoSpace` | link_detector.py:19 | a string the link pattern accepts has no whitespace, and its two schemes exclude each other |
| `LinkDetector.LinkSpansOrderedAndComplete` | link_detector.py:32 | the links are taken left to right without overlap, and no place where a link can start is skipped |
| `LinkDetector.NoLinksIffNoLinkStart` | link_detector.py:32 | no links are extracted iff no link can start anywhere in the text |
| `LinkDetector.IsHttpsIsPrefixTest` | link_detector.py:35-45 | an HTTPS URL stays HTTPS whatever follows it and is not plain HTTP; once the URL is as long as `https://`, appending text never changes the answer |
| `LinkDetector.IsHttpsIsCaseSensitive` | link_detector.py:45 | the prefix test is case-sensitive: `https://example.com` is HTTPS, `HTTPS://example.com` is not |
| `LinkDetector.SuspiciousCases` | link_detector.py:96-108 | a link is suspicious iff it is not HTTPS, its URL does not parse, or its domain's certificate does not verify; a certificate is only recorded for HTTPS links; not suspicious iff it has a certificate |
| `LinkDetector.AnalyzeLink` | link_detector.py:70-110 | `is_https` is the prefix test; `has_certificate` holds only for HTTPS links whose domain parses and verifies; `is_suspicious == not (is_https and has_certificate)`; plain HTTP and parse failures are suspicious |
| `LinkDetector.SuspiciousCount` | link_detector.py:129-133 | the suspicious count never exceeds the number of links |
| `LinkDetector.LinksFlaggedIsMajority` | link_detector.py:122-136 | the flag is raised iff there are links and the suspicious count is greater than half the number of links in exact (true) division |
| `LinkDetector.CheckLinks` | link_detector.py:112-136 | the loop's count equals the number of suspicious links; the result is true iff there are links and `2 * count > len(links)`; no links gives false |
| `LinkDetector.AllSuspiciousCount` | link_detector.py:129-133 | when every link is suspicious, the count is the number of links |
| `LinkDetector.NoneSuspiciousCount` | link_detector.py:129-133 | when no link is suspicious, the count is zero |
| `LinkDetector.AllSuspiciousFlagged` | link_detector.py:136 | at least one link, all suspicious: the email is flagged |
| `LinkDetector.PlainHttpLinksFlagged` | link_detector.py:101-102 | an email whose links are all plain HTTP is flagged |
| `LinkDetector.HalfSuspiciousNotFlagged` | link_detector.py:136 | exactly half suspicious is not a majority |
| `Findall.Search` | unsubscribe_detector.py:43 | `search` returns the first position at or after the start where the pattern matches; none means no match anywhere after it |
| `Findall.Spans` | link_detector.py:32 | the spans `findall` reports lie in the text, are matches of the pattern, and are ordered without overlap |
| `Findall.MatchesEmptyIffNoSearch` | unsubscribe_detector.py:61 | `findall` returns nothing iff `search` finds nothing iff the pattern matches nowhere |
| `Findall.SpansCover` | link_detector.py:32 | every position where the pattern matches lies inside a reported span |
| `Findall.MatchAt` | unsubscribe_detector.py:61 | the k-th string `findall` returns is the text at the k-th span, a non-empty match |
| `Findall.Matches` | link_detector.py:32 | `findall` returns one string per reported span, in order, each the text at its span |
| `Findall.MatchesFromAll` | link_detector.py:32 | from any scan position, there are as many strings as spans, and the k-th string is the text at the k-th span |
| `Findall.MatchesFromAt` | link_detector.py:32 | from any scan position, the strings and the spans correspond one to one, in order |
| `Findall.InMatches` | unsubscribe_detector.py:61 | every string `findall` returns is the text at some position where the pattern matches exactly that string |
| `Findall.AllMatchesCovered` | unsubscribe_detector.py:61 | `findall` skips no match |
| `Findall.SpansAgree` | unsubscribe_detector.py:26-29 | two patterns on two texts that make the same match at every position report the same spans; used for `re.IGNORECASE` |
| `Findall.SearchAgree` | unsubscribe_detector.py:26-29 | two patterns on two texts that make the same match at every position find the same first match |
| `SignatureDetector.SplitWordsAreWords` | signature_detector.py:50 | `split` yields non-empty words without whitespace, lowercase when the text is |
| `SignatureDetector.JoinIsNormalized` | signature_detector.py:50 | joining such words with single spaces gives a lowercase, stripped, single-spaced text |
| `SignatureDetector.WordsOfJoin` | signature_detector.py:50 | splitting undoes joining |
| `SignatureDetector.Normalize` | signature_detector.py:49-50 | the normalised text has no capital letter, no leading or trailing whitespace, and only single spaces between words; it keeps exactly the words of the lowercased text, in order (splitting it gives what splitting the lowercased text gives) |
| `SignatureDetector.NormalizeIdempotent` | signature_detector.py:50 | normalising twice is normalising once |
| `SignatureDetector.NormalizeIgnoresCase` | signature_detector.py:50 | texts that differ only in letter case normalise alike |
| `SignatureDetector.NormalizeIgnoresSpacing` | signature_detector.py:50 | the length and kind of a whitespace run do not matter, and neither do leading or trailing runs |
| `SignatureDetector.SplitWordsSpaceRuns` | signature_detector.py:50 | replacing one whitespace run by another leaves the words unchanged |
| `SignatureDetector.SplitWordsTrailingSpace` | signature_detector.py:50 | trailing whitespace yields no word |
| `SignatureDetector.SignatureDetector.constructor` | signature_detector.py:24-32 | a detector without a readable registry starts with an empty, duplicate-free registry |
| `SignatureDetector.SignatureDetector.CreateSignature` | signature_detector.py:39-54 | `create_signature(t) == create_signature(normalize(t))`: the signature is the digest of the normal form of the normal form; every text that differs only in letter case gets the same signature |
| `SignatureDetector.NormalizeCaseClass` | signature_detector.py:50 | every text equal to a given one up to letter case has the same normal form |
| `SignatureDetector.SignatureDetector.SignatureOfNormalForm` | signature_detector.py:50-54 | `create_signature(t) == create_signature(normalize(t))`; texts with the same normal form share a signature |
| `SignatureDetector.SignatureDetector.CheckSignature` | signature_detector.py:95-110 | true iff the signature is in the registry; always false on an empty registry; reads the registry only |
| `SignatureDetector.SignatureDetector.TrainOnSpam` | signature_detector.py:56-66 | a present signature leaves the registry unchanged; otherwise it is appended and earlier entries are kept; the registry stays duplicate-free; afterwards the text and every text with the same normal form are recognised |
| `SignatureDetector.TrainTwice` | signature_detector.py:63-65 | training twice on a text leaves the registry exactly as training once does: the signature appended if it was new, nothing else changed; the registry stays duplicate-free and the text is recognised |
| `UnsubscribeDetector.PatternMatchLength` | unsubscribe_detector.py:17-22 | a match stays inside the text |
| `UnsubscribeDetector.PatternMatchSound` | unsubscribe_detector.py:15-23 | every match is a string its pattern accepts, case-insensitively, with at most one separator |
| `UnsubscribeDetector.PhraseMatchSound` | unsubscribe_detector.py:17-22 | a two-word match is the two words, in either case, with or without one separator |
| `UnsubscribeDetector.PatternMatchComplete` | unsubscribe_detector.py:15-23 | a string the pattern accepts at a position is exactly the match reported there |
| `UnsubscribeDetector.PhraseWithoutSeparator` | unsubscribe_detector.py:17-22 | the two words may be joined directly |
| `UnsubscribeDetector.PhraseWithSeparator` | unsubscribe_detector.py:17-22 | the two words may be joined by one separator (whitespace, or `-` for `opt`/`out`) |
| `UnsubscribeDetector.DoubleSeparatorNoMatch` | unsubscribe_detector.py:17-22 | two separators between the words never match |
| `UnsubscribeDetector.PatternMatchIgnoresCase` | unsubscribe_detector.py:26-29 | matching does not depend on the letter case of the text |
| `UnsubscribeDetector.PatternsWellShaped` | unsubscribe_detector.py:15-23 | the seven patterns: every pattern word is non-empty lowercase letters, and only `opt`/`out` also accepts `-` as separator |
| `UnsubscribeDetector.SearchIffOccurs` | unsubscribe_detector.py:43 | `search` succeeds iff the pattern matches somewhere |
| `UnsubscribeDetector.HasUnsubscribe` | unsubscribe_detector.py:31-46 | true iff some pattern matches somewhere in the text |
| `UnsubscribeDetector.CheckUnsubscribe` | unsubscribe_detector.py:42-46 | the loop with early return answers exactly whether some pattern occurs; the empty text gives false |
| `UnsubscribeDetector.AnyOccursIgnoresOrder` | unsubscribe_detector.py:42-46 | the order of the patterns does not change the answer |
| `UnsubscribeDetector.HasUnsubscribeIgnoresCase` | unsubscribe_detector.py:26-29 | changing the letter case of the text never changes the answer |
| `UnsubscribeDetector.PatternMatches` | unsubscribe_detector.py:61 | one compiled pattern's `findall` is non-empty iff the pattern occurs somewhere in the text |
| `UnsubscribeDetector.PatternMatchesIgnoreCase` | unsubscribe_detector.py:26-29 | on two texts that differ only in letter case, a pattern reports the same spans and the same number of matches, and matching strings differ only in case |
| `UnsubscribeDetector.AllMatches` | unsubscribe_detector.py:58-65 | a string is reported iff one of the patterns' `findall` returns it |
| `UnsubscribeDetector.FindUnsubscribeMatches` | unsubscribe_detector.py:58-65 | the result is each pattern's `findall`, concatenated in pattern order |
| `UnsubscribeDetector.AllMatchesNonEmptyIffOccurs` | unsubscribe_detector.py:58-65 | some match is reported iff some pattern occurs |
| `UnsubscribeDetector.PatternMatchesNonEmptyIffOccurs` | unsubscribe_detector.py:60-63 | one pattern's `findall` is non-empty iff that pattern occurs |
| `UnsubscribeDetector.PatternMatchesAreMatches` | unsubscribe_detector.py:60-63 | every string one pattern's `findall` returns is matched by that pattern at some position |
| `UnsubscribeDetector.AllMatchesPrefix` | unsubscribe_detector.py:60-63 | taking one more pattern appends exactly that pattern's matches |
| `UnsubscribeDetector.AllMatchesAccepted` | unsubscribe_detector.py:58-65 | for any pattern list, every reported match is a string one of the patterns accepts |
| `UnsubscribeDetector.AllMatchesAreMatches` | unsubscribe_detector.py:60-63 | every reported match is text in its original case at a position where one of the patterns matches exactly that text |
| `UnsubscribeDetector.UnsubscribeMatchesArePhrases` | unsubscribe_detector.py:61-63 | every reported match is a phrase one of the seven patterns accepts |
| `UnsubscribeDetector.CheckIffMatches` | unsubscribe_detector.py:42-65 | `check_unsubscribe` is true iff `find_unsubscribe_matches` is non-empty |
| `SpamFilter.SpamCount` | spam_filter.py:58-62 | the count lies in 0..3; it is 0 iff no flag is raised and 3 iff all are |
| `SpamFilter.Vote` | spam_filter.py:64-65 | Spam iff at least two of the three flags are raised |
| `SpamFilter.AnalyzeEmail` | spam_filter.py:22-67 | the results hold exactly the keys signature, links and unsubscribe, with their method names; the flags are `check_signature`, `check_links` and the negation of `check_unsubscribe`; the verdict is Spam iff two of the flags are raised |
| `SpamFilter.VoteMonotone` | spam_filter.py:65 | raising a flag never turns Spam into Not Spam |
| `SpamFilter.OneFlagIsNotSpam` | spam_filter.py:65 | zero or one raised flag gives Not Spam |
| `SpamFilter.KnownSpamWithBadLinks` | spam_filter.py:22-67 | a known signature together with only suspicious links gives Spam |
| `SpamFilter.CleanEmailIsNotSpam` | spam_filter.py:22-67 | an unknown signature, only trusted links and an unsubscribe option give Not Spam |

## Left out

- The TLS handshake in `check_certificate` (link_detector.py:47-68) is a network probe. It is the parameter `certificateValid`.
- `certificateValid` is a fixed function of the domain. The live probe, with its 5-second timeout (link_detector.py:62), can answer differently for the same domain on two calls; the model does not capture that.
- `urlparse` is a foreign library. `netloc` stands for it; the model does not say which URLs it rejects.
- SHA-256 and `hexdigest` are a foreign hash. The model keeps only the fact that the signature is a function of the normalised text.
- The registry's JSON persistence (`load_signatures`, `save_signatures`) is file I/O. The constructor models only the case of a missing or unreadable file (an empty registry). The save inside `train_on_spam` is left out.
- `train_on_spam_folder` walks a directory, which is I/O. The prints are left out too.
- `analyze_email_file` is file reading plus exception mapping. It is left out.
- The command-line `main` functions, the web front end (`app.py`) and `setup.py` carry no detection logic.
- Case and whitespace are ASCII only. `Lower` maps only `A`..`Z`, and whitespace is the ASCII part of `str.isspace`. Python's Unicode `lower()`, `split()` and `re.IGNORECASE` also treat non-ASCII characters: for example, `ſ` matches `s` and the Kelvin sign matches `k`.
