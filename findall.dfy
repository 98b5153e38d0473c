/**
 * The two ways the detectors use a compiled regular expression, `search` and
 * `findall`, for patterns whose every match is non-empty. A pattern is given
 * by its matcher: `m(text, i)` is the length of the match the pattern makes
 * when it is tried at position `i` (0 when it makes none there). The engine
 * tries positions left to right; `findall` resumes after the end of each match,
 * so matches never overlap.
 */
module Findall {
  import opened Wrappers

  type Matcher = (string, nat) -> nat

  /** A match tried at a position of `text` stays inside `text`. */
  ghost predicate WellFormed(m: Matcher, text: string) {
    forall i: nat :: i <= |text| ==> i + m(text, i) <= |text|
  }

  /** A half-open range `[start, end)` of the text that one match covers. */
  datatype Span = Span(start: nat, end: nat)

  /** `pattern.search(text, i)`: the first position at or after `i` where the
      pattern matches. */
  function Search(m: Matcher, text: string, i: nat): (r: Option<nat>)
    requires i <= |text|
    decreases |text| - i
    ensures r.Some? ==> i <= r.value < |text| && m(text, r.value) > 0
    ensures r.Some? ==> forall q :: i <= q < r.value ==> m(text, q) == 0
    ensures r.None? ==> forall q :: i <= q < |text| ==> m(text, q) == 0
  {
    if i == |text| then None
    else if m(text, i) > 0 then Some(i)
    else Search(m, text, i + 1)
  }

  /** The spans `findall` reports when it starts scanning at `i`. */
  function Spans(m: Matcher, text: string, i: nat): (r: seq<Span>)
    requires i <= |text| && WellFormed(m, text)
    decreases |text| - i
    ensures forall k :: 0 <= k < |r| ==>
      i <= r[k].start < r[k].end <= |text| && r[k].end - r[k].start == m(text, r[k].start)
    ensures forall k, k' :: 0 <= k < k' < |r| ==> r[k].end <= r[k'].start
  {
    match Search(m, text, i)
    case None => []
    case Some(p) => [Span(p, p + m(text, p))] + Spans(m, text, p + m(text, p))
  }

  /** Position `q` lies inside one of the spans `sp`. */
  ghost predicate Covered(sp: seq<Span>, q: nat) {
    exists k :: 0 <= k < |sp| && sp[k].start <= q < sp[k].end
  }

  /** The strings `findall` reports when it starts scanning at `i`. */
  function MatchesFrom(m: Matcher, text: string, i: nat): seq<string>
    requires i <= |text| && WellFormed(m, text)
    decreases |text| - i
  {
    match Search(m, text, i)
    case None => []
    case Some(p) => [text[p..p + m(text, p)]] + MatchesFrom(m, text, p + m(text, p))
  }

  /** `pattern.findall(text)`: the matched substrings, left to right, one
      per span of the scan. */
  function Matches(m: Matcher, text: string): (r: seq<string>)
    requires WellFormed(m, text)
    ensures |r| == |Spans(m, text, 0)|
    ensures forall k :: 0 <= k < |r| ==> r[k] == text[Spans(m, text, 0)[k].start..Spans(m, text, 0)[k].end]
  {
    MatchesFromAll(m, text, 0);
    MatchesFrom(m, text, 0)
  }

  /** `findall` reports nothing exactly when `search` finds nothing. */
  lemma MatchesEmptyIffNoSearch(m: Matcher, text: string)
    requires WellFormed(m, text)
    ensures Matches(m, text) == [] <==> Search(m, text, 0).None?
    ensures Matches(m, text) == [] <==> forall q :: 0 <= q < |text| ==> m(text, q) == 0
  {
  }

  /** The strings and the spans correspond one to one, in order. */
  lemma {:induction false} MatchesFromAt(m: Matcher, text: string, i: nat, k: nat)
    requires i <= |text| && WellFormed(m, text)
    decreases |text| - i
    ensures |MatchesFrom(m, text, i)| == |Spans(m, text, i)|
    ensures k < |Spans(m, text, i)| ==>
      MatchesFrom(m, text, i)[k] == text[Spans(m, text, i)[k].start..Spans(m, text, i)[k].end]
  {
    match Search(m, text, i)
    case None =>
    case Some(p) =>
      var e := p + m(text, p);
      assert MatchesFrom(m, text, i) == [text[p..e]] + MatchesFrom(m, text, e);
      assert Spans(m, text, i) == [Span(p, e)] + Spans(m, text, e);
      if k == 0 {
        MatchesFromAt(m, text, e, 0);
      } else {
        MatchesFromAt(m, text, e, k - 1);
      }
  }

  /** No match is skipped: every position where the pattern matches lies
      inside one of the reported spans. */
  lemma {:induction false} SpansCover(m: Matcher, text: string, i: nat, q: nat)
    requires i <= |text| && WellFormed(m, text)
    requires i <= q < |text| && m(text, q) > 0
    decreases |text| - i
    ensures Covered(Spans(m, text, i), q)
  {
    var r := Spans(m, text, i);
    match Search(m, text, i)
    case None =>
      assert false;
    case Some(p) =>
      var e := p + m(text, p);
      assert r == [Span(p, e)] + Spans(m, text, e);
      if q < e {
        assert r[0].start <= q < r[0].end;
      } else {
        SpansCover(m, text, e, q);
        var k :| 0 <= k < |Spans(m, text, e)| && Spans(m, text, e)[k].start <= q < Spans(m, text, e)[k].end;
        assert r[k + 1] == Spans(m, text, e)[k];
      }
  }

  lemma MatchesFromAll(m: Matcher, text: string, i: nat)
    requires i <= |text| && WellFormed(m, text)
    ensures |MatchesFrom(m, text, i)| == |Spans(m, text, i)|
    ensures forall k :: 0 <= k < |Spans(m, text, i)| ==>
      MatchesFrom(m, text, i)[k] == text[Spans(m, text, i)[k].start..Spans(m, text, i)[k].end]
  {
    MatchesFromAt(m, text, i, 0);
    forall k | 0 <= k < |Spans(m, text, i)|
      ensures MatchesFrom(m, text, i)[k] == text[Spans(m, text, i)[k].start..Spans(m, text, i)[k].end]
    {
      MatchesFromAt(m, text, i, k);
    }
  }

  /** The `k`-th string `findall` returns is the substring of `text` at the
      `k`-th span, a non-empty match of the pattern at the span's start. */
  lemma MatchAt(m: Matcher, text: string, k: nat)
    requires WellFormed(m, text) && k < |Spans(m, text, 0)|
    ensures |Matches(m, text)| == |Spans(m, text, 0)|
    ensures var sp := Spans(m, text, 0);
      Matches(m, text)[k] == text[sp[k].start..sp[k].end] &&
      |Matches(m, text)[k]| == m(text, sp[k].start) > 0
  {
    MatchesFromAt(m, text, 0, k);
  }

  /** Every string `findall` returns from `i` on is the text at a position
      where the pattern matches exactly that string. */
  lemma {:induction false} InMatchesFrom(m: Matcher, text: string, i: nat, s: string)
    requires i <= |text| && WellFormed(m, text) && s in MatchesFrom(m, text, i)
    decreases |text| - i
    ensures exists q: nat :: q + |s| <= |text| && m(text, q) == |s| > 0 && text[q..q + |s|] == s
  {
    match Search(m, text, i)
    case None =>
      assert false;
    case Some(p) =>
      var e := p + m(text, p);
      if s == text[p..e] {
        assert p + |s| <= |text| && m(text, p) == |s| > 0 && text[p..p + |s|] == s;
      } else {
        InMatchesFrom(m, text, e, s);
      }
  }

  /** Every string `findall` returns is the text at a position where the
      pattern matches exactly that string. */
  lemma InMatches(m: Matcher, text: string, s: string)
    requires WellFormed(m, text) && s in Matches(m, text)
    ensures exists i: nat :: i + |s| <= |text| && m(text, i) == |s| > 0 && text[i..i + |s|] == s
  {
    InMatchesFrom(m, text, 0, s);
  }

  /** Every position where the pattern matches lies inside a span of
      `findall`, so no match is skipped. */
  lemma AllMatchesCovered(m: Matcher, text: string)
    requires WellFormed(m, text)
    ensures forall q :: 0 <= q < |text| && m(text, q) > 0 ==> Covered(Spans(m, text, 0), q)
  {
    forall q | 0 <= q < |text| && m(text, q) > 0
      ensures Covered(Spans(m, text, 0), q)
    {
      SpansCover(m, text, 0, q);
    }
  }

  /** Two patterns that agree at every position of a text find the same
      spans in it. */
  lemma {:induction false} SpansAgree(m: Matcher, m': Matcher, text: string, text': string, i: nat)
    requires |text| == |text'| && i <= |text| && WellFormed(m, text) && WellFormed(m', text')
    requires forall q: nat :: m(text, q) == m'(text', q)
    decreases |text| - i
    ensures Spans(m, text, i) == Spans(m', text', i)
    ensures Search(m, text, i) == Search(m', text', i)
  {
    SearchAgree(m, m', text, text', i);
    match Search(m, text, i)
    case None =>
    case Some(p) =>
      var e := p + m(text, p);
      SpansAgree(m, m', text, text', e);
      assert Spans(m, text, i) == [Span(p, e)] + Spans(m, text, e);
  }

  lemma {:induction false} SearchAgree(m: Matcher, m': Matcher, text: string, text': string, i: nat)
    requires |text| == |text'| && i <= |text|
    requires forall q: nat :: m(text, q) == m'(text', q)
    decreases |text| - i
    ensures Search(m, text, i) == Search(m', text', i)
  {
    if i < |text| && m(text, i) == 0 {
      SearchAgree(m, m', text, text', i + 1);
    }
  }
}
