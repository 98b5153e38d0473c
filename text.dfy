/** Optional values: `None` stands for the exception path of a foreign call. */
module Wrappers {
  datatype Option<+T> = None | Some(value: T)
}

/**
 * Character-level helpers shared by the detectors. Python's `str.lower`,
 * `str.split` and the regular-expression class `\s` are modelled on ASCII:
 * a whitespace character is one that `str.isspace` accepts below 0x80, and
 * lowering maps `A`..`Z` to `a`..`z` and leaves every other character alone.
 */
module Text {

  /** `str.isspace` on ASCII: tab, line feed, vertical tab, form feed, carriage
      return, the separators 0x1C..0x1F, and space. */
  predicate IsSpace(c: char) {
    c == ' ' || ('\t' <= c <= '\r') || ('\U{1C}' <= c <= '\U{1F}')
  }

  predicate IsUpper(c: char) {
    'A' <= c <= 'Z'
  }

  function Lower(c: char): (d: char)
    ensures !IsUpper(d)
    ensures IsUpper(c) ==> d as int == c as int + 32
    ensures !IsUpper(c) ==> d == c
  {
    if IsUpper(c) then (c as int + 32) as char else c
  }

  /** `s.lower()` restricted to ASCII letters. */
  function LowerAll(s: string): (r: string)
    ensures |r| == |s|
    ensures forall j :: 0 <= j < |s| ==> r[j] == Lower(s[j])
  {
    seq(|s|, j requires 0 <= j < |s| => Lower(s[j]))
  }

  predicate NoUpper(s: string) {
    forall j :: 0 <= j < |s| ==> !IsUpper(s[j])
  }

  predicate NoSpace(s: string) {
    forall j :: 0 <= j < |s| ==> !IsSpace(s[j])
  }

  /** `t` and `t'` differ at most in the letter case of ASCII letters. */
  predicate SameUpToCase(t: string, t': string) {
    |t| == |t'| && forall j :: 0 <= j < |t| ==> Lower(t[j]) == Lower(t'[j])
  }

  /** `text[i..]` begins with `prefix`, the test behind `str.startswith`. */
  predicate StartsAt(text: string, i: nat, prefix: string) {
    i + |prefix| <= |text| && text[i..i + |prefix|] == prefix
  }

  lemma LowerAllIdempotent(s: string)
    ensures LowerAll(LowerAll(s)) == LowerAll(s)
    ensures NoUpper(LowerAll(s))
  {
  }

  lemma LowerAllOfLower(s: string)
    requires NoUpper(s)
    ensures LowerAll(s) == s
  {
  }

  lemma SameUpToCaseLowerAll(t: string, t': string)
    requires SameUpToCase(t, t')
    ensures LowerAll(t) == LowerAll(t')
  {
  }

  /** Lowering never turns a character into whitespace or out of it. */
  lemma LowerKeepsSpace(c: char)
    ensures IsSpace(Lower(c)) <==> IsSpace(c)
  {
  }

  /** Lowercasing works character by character, so it distributes over
      concatenation. */
  lemma LowerAllConcat(a: string, b: string)
    ensures LowerAll(a + b) == LowerAll(a) + LowerAll(b)
  {
  }

  /** Lowercasing commutes with taking a prefix or a suffix. */
  lemma LowerAllSplit(s: string, j: nat)
    requires j <= |s|
    ensures LowerAll(s)[..j] == LowerAll(s[..j])
    ensures LowerAll(s)[j..] == LowerAll(s[j..])
  {
  }

  /** Slices of texts equal up to case are equal up to case. */
  lemma SameUpToCaseSlice(t: string, t': string, a: nat, b: nat)
    requires SameUpToCase(t, t') && a <= b <= |t|
    ensures SameUpToCase(t[a..b], t'[a..b])
  {
    forall j | 0 <= j < b - a ensures Lower(t[a..b][j]) == Lower(t'[a..b][j]) {
      assert t[a..b][j] == t[a + j] && t'[a..b][j] == t'[a + j];
    }
  }

  /** A prefix or suffix of a slice is a slice of the whole. */
  lemma SliceOfSlice(t: string, i: nat, n: nat, j: nat)
    requires i + n <= |t| && j <= n
    ensures t[i..i + n][..j] == t[i..i + j]
    ensures t[i..i + n][j..] == t[i + j..i + n]
  {
  }
}
