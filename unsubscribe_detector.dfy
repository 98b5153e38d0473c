/**
 * Unsubscribe detection: seven fixed, case-insensitive patterns, each a word
 * or two words with at most one separator character between them.
 */
module UnsubscribeDetector {
  import opened Text
  import Findall

  /** `word`, or `first[\s]?second` (`first[\s-]?second` when `hyphen`).
      Words are written in lowercase. */
  datatype Pattern =
    | Literal(word: string)
    | Phrase(first: string, second: string, hyphen: bool)

  /** The pattern list, in its order. */
  const Patterns: seq<Pattern> := [
    Literal("unsubscribe"),
    Phrase("opt", "out", true),
    Phrase("remove", "me", false),
    Phrase("stop", "receiving", false),
    Phrase("manage", "preferences", false),
    Phrase("email", "preferences", false),
    Phrase("subscription", "settings", false)
  ]

  /** The character class between the two words. */
  predicate IsSeparator(c: char, hyphen: bool) {
    IsSpace(c) || (hyphen && c == '-')
  }

  /** The lowercase `word` occurs at `i`, ignoring the case of `text`. */
  predicate WordAt(text: string, i: nat, word: string) {
    i + |word| <= |text| && forall j :: 0 <= j < |word| ==> Lower(text[i + j]) == word[j]
  }

  /** Length of the match `p` makes at `i` (0 for none). The optional
      separator is greedy: it is taken when the second word follows it. */
  function PatternMatchLength(p: Pattern, text: string, i: nat): (n: nat)
    ensures i <= |text| ==> i + n <= |text|
  {
    match p
    case Literal(w) =>
      if WordAt(text, i, w) then |w| else 0
    case Phrase(a, b, h) =>
      if !WordAt(text, i, a) then 0
      else if i + |a| < |text| && IsSeparator(text[i + |a|], h) && WordAt(text, i + |a| + 1, b) then |a| + 1 + |b|
      else if WordAt(text, i + |a|, b) then |a| + |b|
      else 0
  }

  function PatternMatcher(p: Pattern): Findall.Matcher {
    (text, i) => PatternMatchLength(p, text, i)
  }

  lemma PatternMatcherWellFormed(p: Pattern, text: string)
    ensures Findall.WellFormed(PatternMatcher(p), text)
  {
    forall i: nat | i <= |text| ensures i + PatternMatcher(p)(text, i) <= |text| {
      assert PatternMatcher(p)(text, i) == PatternMatchLength(p, text, i);
    }
  }

  /** A whole string the pattern accepts, as its regular expression reads. */
  ghost predicate Accepts(p: Pattern, s: string) {
    match p
    case Literal(w) => LowerAll(s) == w
    case Phrase(a, b, h) =>
      LowerAll(s) == a + b ||
      (|s| == |a| + 1 + |b| && LowerAll(s[..|a|]) == a && IsSeparator(s[|a|], h) && LowerAll(s[|a| + 1..]) == b)
  }

  /** `pattern.search(text)` finds something. */
  ghost predicate Occurs(p: Pattern, text: string) {
    exists i :: 0 <= i < |text| && PatternMatchLength(p, text, i) > 0
  }

  /** Some pattern of `ps` occurs in `text`. */
  ghost predicate AnyOccurs(ps: seq<Pattern>, text: string) {
    exists k :: 0 <= k < |ps| && Occurs(ps[k], text)
  }

  lemma WordAtLower(text: string, i: nat, word: string)
    requires i + |word| <= |text|
    ensures WordAt(text, i, word) <==> LowerAll(text[i..i + |word|]) == word
  {
    if WordAt(text, i, word) {
      assert LowerAll(text[i..i + |word|]) == word;
    }
    if LowerAll(text[i..i + |word|]) == word {
      forall j | 0 <= j < |word| ensures Lower(text[i + j]) == word[j] {
        assert text[i..i + |word|][j] == text[i + j];
      }
    }
  }

  /** Every match the matcher reports is a string its pattern accepts. */
  lemma PatternMatchSound(p: Pattern, text: string, i: nat)
    requires i <= |text| && PatternMatchLength(p, text, i) > 0
    ensures Accepts(p, text[i..i + PatternMatchLength(p, text, i)])
  {
    match p
    case Literal(w) =>
      WordAtLower(text, i, w);
    case Phrase(a, b, h) =>
      PhraseMatchSound(a, b, h, text, i);
  }

  lemma PhraseMatchSound(a: string, b: string, h: bool, text: string, i: nat)
    requires i <= |text| && PatternMatchLength(Phrase(a, b, h), text, i) > 0
    ensures Accepts(Phrase(a, b, h), text[i..i + PatternMatchLength(Phrase(a, b, h), text, i)])
  {
    var n := PatternMatchLength(Phrase(a, b, h), text, i);
    if n == |a| + 1 + |b| {
      SeparatedPhraseSound(a, b, h, text, i);
    } else {
      JoinedPhraseSound(a, b, text, i);
    }
  }

  lemma SeparatedPhraseSound(a: string, b: string, h: bool, text: string, i: nat)
    requires i + |a| + 1 + |b| <= |text| && WordAt(text, i, a) && WordAt(text, i + |a| + 1, b)
    requires IsSeparator(text[i + |a|], h)
    ensures Accepts(Phrase(a, b, h), text[i..i + |a| + 1 + |b|])
  {
    SliceOfSlice(text, i, |a| + 1 + |b|, |a|);
    SliceOfSlice(text, i, |a| + 1 + |b|, |a| + 1);
    WordAtLower(text, i, a);
    WordAtLower(text, i + |a| + 1, b);
  }

  lemma JoinedPhraseSound(a: string, b: string, text: string, i: nat)
    requires i + |a| + |b| <= |text| && WordAt(text, i, a) && WordAt(text, i + |a|, b)
    ensures LowerAll(text[i..i + |a| + |b|]) == a + b
  {
    WordAtLower(text, i, a);
    WordAtLower(text, i + |a|, b);
    assert text[i..i + |a| + |b|] == text[i..i + |a|] + text[i + |a|..i + |a| + |b|];
    LowerAllConcat(text[i..i + |a|], text[i + |a|..i + |a| + |b|]);
  }

  /** The patterns' words are non-empty lowercase letters. */
  predicate IsLetterWord(w: string) {
    |w| > 0 && forall j :: 0 <= j < |w| ==> 'a' <= w[j] <= 'z'
  }

  predicate WellShaped(p: Pattern) {
    match p
    case Literal(w) => IsLetterWord(w)
    case Phrase(a, b, _) => IsLetterWord(a) && IsLetterWord(b)
  }

  /** The seven patterns are words of lowercase letters, and only `opt`/`out`
      admits a hyphen between its words. */
  lemma PatternsWellShaped()
    ensures forall p :: p in Patterns ==> WellShaped(p)
    ensures forall p :: p in Patterns && p.Phrase? && p.hyphen ==> p.first == "opt" && p.second == "out"
  {
  }

  /** Conversely, a string the pattern accepts, found at `i`, is exactly the
      match the matcher reports there. */
  lemma PatternMatchComplete(p: Pattern, text: string, i: nat, n: nat)
    requires WellShaped(p)
    requires i + n <= |text| && Accepts(p, text[i..i + n])
    ensures PatternMatchLength(p, text, i) == n > 0
  {
    match p
    case Literal(w) =>
      WordAtLower(text, i, w);
    case Phrase(a, b, h) =>
      var s := text[i..i + n];
      if LowerAll(s) == a + b {
        PhraseWithoutSeparator(a, b, h, text, i, n);
      } else {
        PhraseWithSeparator(a, b, h, text, i, n);
      }
  }

  lemma PhraseWithoutSeparator(a: string, b: string, h: bool, text: string, i: nat, n: nat)
    requires IsLetterWord(a) && IsLetterWord(b)
    requires i + n <= |text| && LowerAll(text[i..i + n]) == a + b
    ensures PatternMatchLength(Phrase(a, b, h), text, i) == n > 0
  {
    var s := text[i..i + n];
    SliceOfSlice(text, i, n, |a|);
    LowerAllSplit(s, |a|);
    WordAtLower(text, i, a);
    WordAtLower(text, i + |a|, b);
    assert Lower(text[i + |a|]) == b[0];
    LowerKeepsSpace(text[i + |a|]);
  }

  lemma PhraseWithSeparator(a: string, b: string, h: bool, text: string, i: nat, n: nat)
    requires IsLetterWord(a) && IsLetterWord(b)
    requires i + n <= |text| && n == |a| + 1 + |b|
    requires LowerAll(text[i..i + n][..|a|]) == a && IsSeparator(text[i..i + n][|a|], h)
    requires LowerAll(text[i..i + n][|a| + 1..]) == b
    ensures PatternMatchLength(Phrase(a, b, h), text, i) == n
  {
    SliceOfSlice(text, i, n, |a|);
    SliceOfSlice(text, i, n, |a| + 1);
    WordAtLower(text, i, a);
    WordAtLower(text, i + |a| + 1, b);
  }

  /** Two or more separators between the words of a phrase never match. */
  lemma DoubleSeparatorNoMatch(p: Pattern, text: string, i: nat)
    requires p.Phrase? && WellShaped(p)
    requires WordAt(text, i, p.first) && i + |p.first| + 1 < |text|
    requires IsSeparator(text[i + |p.first|], p.hyphen) && IsSeparator(text[i + |p.first| + 1], p.hyphen)
    ensures PatternMatchLength(p, text, i) == 0
  {
    var j := i + |p.first|;
    LowerKeepsSpace(text[j]);
    LowerKeepsSpace(text[j + 1]);
    assert Lower(text[j]) != p.second[0] && Lower(text[j + 1]) != p.second[0];
    assert !WordAt(text, j, p.second) && !WordAt(text, j + 1, p.second);
  }

  /** Matching looks at letters only through their lowercase form. */
  lemma PatternMatchIgnoresCase(p: Pattern, t: string, t': string, i: nat)
    requires SameUpToCase(t, t')
    ensures PatternMatchLength(p, t, i) == PatternMatchLength(p, t', i)
  {
    forall j | 0 <= j < |t| ensures IsSeparator(t[j], true) == IsSeparator(t'[j], true)
      && IsSeparator(t[j], false) == IsSeparator(t'[j], false)
    {
      LowerKeepsSpace(t[j]);
      LowerKeepsSpace(t'[j]);
    }
  }

  /** `search` finds a match exactly when the pattern occurs. */
  lemma SearchIffOccurs(text: string)
    ensures forall p :: Findall.Search(PatternMatcher(p), text, 0).Some? <==> Occurs(p, text)
  {
    forall p ensures Findall.Search(PatternMatcher(p), text, 0).Some? <==> Occurs(p, text) {
      forall q | 0 <= q < |text| ensures PatternMatcher(p)(text, q) == PatternMatchLength(p, text, q) {
      }
    }
  }

  /** `check_unsubscribe`'s answer, as a value: some pattern finds a match. */
  function HasUnsubscribe(text: string): (found: bool)
    ensures found <==> AnyOccurs(Patterns, text)
  {
    SearchIffOccurs(text);
    exists k | 0 <= k < |Patterns| :: Findall.Search(PatternMatcher(Patterns[k]), text, 0).Some?
  }

  /** `check_unsubscribe`: tries the patterns in order and stops at the first
      one that finds a match. */
  method CheckUnsubscribe(text: string) returns (found: bool)
    ensures found <==> AnyOccurs(Patterns, text)
    ensures found == HasUnsubscribe(text)
    ensures text == [] ==> !found
  {
    SearchIffOccurs(text);
    for k := 0 to |Patterns|
      invariant forall j :: 0 <= j < k ==> !Occurs(Patterns[j], text)
    {
      if Findall.Search(PatternMatcher(Patterns[k]), text, 0).Some? {
        return true;
      }
    }
    return false;
  }

  /** The order of the patterns does not change the answer. */
  lemma AnyOccursIgnoresOrder(ps: seq<Pattern>, qs: seq<Pattern>, text: string)
    requires forall p :: p in ps <==> p in qs
    ensures AnyOccurs(ps, text) == AnyOccurs(qs, text)
  {
    if AnyOccurs(ps, text) {
      var k :| 0 <= k < |ps| && Occurs(ps[k], text);
      assert ps[k] in qs;
      var k' :| 0 <= k' < |qs| && qs[k'] == ps[k];
    }
    if AnyOccurs(qs, text) {
      var k :| 0 <= k < |qs| && Occurs(qs[k], text);
      assert qs[k] in ps;
      var k' :| 0 <= k' < |ps| && ps[k'] == qs[k];
    }
  }

  /** The letter case of the text does not change the answer. */
  lemma HasUnsubscribeIgnoresCase(t: string, t': string)
    requires SameUpToCase(t, t')
    ensures HasUnsubscribe(t) == HasUnsubscribe(t')
  {
    forall k, i | 0 <= k < |Patterns| && 0 <= i
      ensures PatternMatchLength(Patterns[k], t, i) == PatternMatchLength(Patterns[k], t', i)
    {
      PatternMatchIgnoresCase(Patterns[k], t, t', i);
    }
  }

  /** `pattern.findall(text)` for one pattern: non-empty exactly when the
      pattern occurs somewhere in the text. */
  function PatternMatches(p: Pattern, text: string): (r: seq<string>)
    ensures Findall.WellFormed(PatternMatcher(p), text) && r == Findall.Matches(PatternMatcher(p), text)
    ensures r != [] <==> Occurs(p, text)
  {
    PatternMatcherWellFormed(p, text);
    PatternMatchesNonEmptyIffOccurs(p, text);
    Findall.Matches(PatternMatcher(p), text)
  }

  /** With `re.IGNORECASE`, texts that differ only in letter case give the
      same matches in the same places, each in its own text's case. */
  lemma PatternMatchesIgnoreCase(p: Pattern, t: string, t': string)
    requires SameUpToCase(t, t')
    ensures Findall.WellFormed(PatternMatcher(p), t) && Findall.WellFormed(PatternMatcher(p), t') &&
      Findall.Spans(PatternMatcher(p), t, 0) == Findall.Spans(PatternMatcher(p), t', 0)
    ensures |PatternMatches(p, t)| == |PatternMatches(p, t')|
    ensures forall k :: 0 <= k < |PatternMatches(p, t)| ==>
      SameUpToCase(PatternMatches(p, t)[k], PatternMatches(p, t')[k])
  {
    PatternMatcherWellFormed(p, t);
    PatternMatcherWellFormed(p, t');
    forall q: nat ensures PatternMatcher(p)(t, q) == PatternMatcher(p)(t', q) {
      PatternMatchIgnoresCase(p, t, t', q);
    }
    Findall.SpansAgree(PatternMatcher(p), PatternMatcher(p), t, t', 0);
    var sp := Findall.Spans(PatternMatcher(p), t, 0);
    forall k | 0 <= k < |PatternMatches(p, t)|
      ensures SameUpToCase(PatternMatches(p, t)[k], PatternMatches(p, t')[k])
    {
      SameUpToCaseSlice(t, t', sp[k].start, sp[k].end);
    }
  }

  /** `pattern.findall(text)` for each pattern of `ps`, concatenated in order:
      a string is reported exactly when one of the patterns' `findall`
      reports it. */
  function AllMatches(ps: seq<Pattern>, text: string): (r: seq<string>)
    ensures forall s :: s in r <==> exists k :: 0 <= k < |ps| && s in PatternMatches(ps[k], text)
  {
    if ps == [] then []
    else
      var p, init := ps[|ps| - 1], ps[..|ps| - 1];
      AllMatchesStep(ps, init, text, AllMatches(init, text), AllMatches(init, text) + PatternMatches(p, text));
      AllMatches(init, text) + PatternMatches(p, text)
  }

  /** The membership step of `AllMatches`: the matches of all but the last
      pattern, followed by the last pattern's, are the matches of them all. */
  lemma AllMatchesStep(ps: seq<Pattern>, init: seq<Pattern>, text: string, a: seq<string>, r: seq<string>)
    requires ps != [] && init == ps[..|ps| - 1]
    requires forall s :: s in a <==> exists k :: 0 <= k < |init| && s in PatternMatches(init[k], text)
    requires r == a + PatternMatches(ps[|ps| - 1], text)
    ensures forall s :: s in r <==> exists k :: 0 <= k < |ps| && s in PatternMatches(ps[k], text)
  {
    assert forall k :: 0 <= k < |init| ==> init[k] == ps[k];
  }

  /** `find_unsubscribe_matches`: extends the list with each pattern's matches. */
  method FindUnsubscribeMatches(text: string) returns (matches: seq<string>)
    ensures matches == AllMatches(Patterns, text)
  {
    matches := [];
    for k := 0 to |Patterns|
      invariant matches == AllMatches(Patterns[..k], text)
    {
      PatternMatcherWellFormed(Patterns[k], text);
      var found := Findall.Matches(PatternMatcher(Patterns[k]), text);
      AllMatchesPrefix(Patterns, k, text);
      if found != [] {
        matches := matches + found;
      } else {
        assert matches + found == matches;
      }
    }
    assert Patterns[..|Patterns|] == Patterns;
  }

  /** Taking one more pattern appends that pattern's matches. */
  lemma AllMatchesPrefix(ps: seq<Pattern>, k: nat, text: string)
    requires k < |ps| && Findall.WellFormed(PatternMatcher(ps[k]), text)
    ensures AllMatches(ps[..k + 1], text) == AllMatches(ps[..k], text) + Findall.Matches(PatternMatcher(ps[k]), text)
  {
    assert ps[..k + 1][..k] == ps[..k];
  }

  /** One pattern's `findall` reports something exactly when it occurs. */
  lemma PatternMatchesNonEmptyIffOccurs(p: Pattern, text: string)
    requires Findall.WellFormed(PatternMatcher(p), text)
    ensures Findall.Matches(PatternMatcher(p), text) != [] <==> Occurs(p, text)
  {
    Findall.MatchesEmptyIffNoSearch(PatternMatcher(p), text);
    forall q | 0 <= q < |text| ensures PatternMatcher(p)(text, q) == PatternMatchLength(p, text, q) {
    }
  }

  /** Some match is reported exactly when some pattern occurs. */
  lemma {:induction false} AllMatchesNonEmptyIffOccurs(ps: seq<Pattern>, text: string)
    ensures AllMatches(ps, text) != [] <==> AnyOccurs(ps, text)
  {
    if ps != [] {
      var p, init := ps[|ps| - 1], ps[..|ps| - 1];
      PatternMatcherWellFormed(p, text);
      AllMatchesNonEmptyIffOccurs(init, text);
      PatternMatchesNonEmptyIffOccurs(p, text);
      assert AllMatches(ps, text) == AllMatches(init, text) + Findall.Matches(PatternMatcher(p), text);
      if AnyOccurs(ps, text) {
        var k :| 0 <= k < |ps| && Occurs(ps[k], text);
        if k < |init| { assert init[k] == ps[k]; }
      }
      if AnyOccurs(init, text) {
        var k :| 0 <= k < |init| && Occurs(init[k], text);
        assert ps[k] == init[k];
      }
    }
  }

  /** `s` is the substring of `text` at `i`, and the pattern `p` matches
      exactly `s` there. */
  ghost predicate MatchedAt(p: Pattern, text: string, i: nat, s: string) {
    i + |s| <= |text| && PatternMatchLength(p, text, i) == |s| > 0 && text[i..i + |s|] == s
  }

  /** Every string one pattern's `findall` reports is matched by it at some
      position. */
  lemma PatternMatchesAreMatches(p: Pattern, text: string, s: string)
    requires Findall.WellFormed(PatternMatcher(p), text)
    requires s in Findall.Matches(PatternMatcher(p), text)
    ensures exists i :: MatchedAt(p, text, i, s)
  {
    Findall.InMatches(PatternMatcher(p), text, s);
    var i: nat :| i + |s| <= |text| && PatternMatcher(p)(text, i) == |s| > 0 && text[i..i + |s|] == s;
    assert MatchedAt(p, text, i, s);
  }

  /** Every reported match is text as it appears in the email (original case)
      at a position where one of the patterns matches it. */
  lemma {:induction false} AllMatchesAreMatches(ps: seq<Pattern>, text: string)
    ensures forall s :: s in AllMatches(ps, text) ==>
      exists k, i :: 0 <= k < |ps| && MatchedAt(ps[k], text, i, s)
  {
    if ps != [] {
      var p, init := ps[|ps| - 1], ps[..|ps| - 1];
      PatternMatcherWellFormed(p, text);
      AllMatchesAreMatches(init, text);
      assert AllMatches(ps, text) == AllMatches(init, text) + Findall.Matches(PatternMatcher(p), text);
      forall s | s in AllMatches(ps, text)
        ensures exists k, i :: 0 <= k < |ps| && MatchedAt(ps[k], text, i, s)
      {
        if s in AllMatches(init, text) {
          var k, i :| 0 <= k < |init| && MatchedAt(init[k], text, i, s);
          assert ps[k] == init[k];
        } else {
          PatternMatchesAreMatches(p, text, s);
          var i :| MatchedAt(p, text, i, s);
          assert MatchedAt(ps[|ps| - 1], text, i, s);
        }
      }
    }
  }

  /** Every match reported for the patterns `ps` is a phrase one of them
      accepts. */
  lemma AllMatchesAccepted(ps: seq<Pattern>, text: string)
    ensures forall s :: s in AllMatches(ps, text) ==>
      exists k :: 0 <= k < |ps| && Accepts(ps[k], s)
  {
    AllMatchesAreMatches(ps, text);
    forall s | s in AllMatches(ps, text)
      ensures exists k :: 0 <= k < |ps| && Accepts(ps[k], s)
    {
      var k, i :| 0 <= k < |ps| && MatchedAt(ps[k], text, i, s);
      MatchedAtAccepted(ps[k], text, i, s);
    }
  }

  lemma MatchedAtAccepted(p: Pattern, text: string, i: nat, s: string)
    requires MatchedAt(p, text, i, s)
    ensures Accepts(p, s)
  {
    PatternMatchSound(p, text, i);
  }

  /** Every reported match is a phrase one of the seven patterns accepts. */
  lemma UnsubscribeMatchesArePhrases(text: string)
    ensures forall s :: s in AllMatches(Patterns, text) ==>
      exists k :: 0 <= k < |Patterns| && Accepts(Patterns[k], s)
  {
    AllMatchesAccepted(Patterns, text);
  }

  /** `check_unsubscribe` answers yes exactly when `find_unsubscribe_matches`
      reports something. */
  lemma CheckIffMatches(text: string)
    ensures HasUnsubscribe(text) <==> AllMatches(Patterns, text) != []
  {
    AllMatchesNonEmptyIffOccurs(Patterns, text);
  }
}
