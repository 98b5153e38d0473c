/**
 * Signature-based detection: an email is known spam when the digest of its
 * normalised text is in the registry of digests trained on spam.
 *
 * Normalisation is `' '.join(text.lower().split())`. The digest (SHA-256 of
 * the UTF-8 encoding, as hex) is foreign code and becomes the detector's
 * `digest` function; nothing is assumed of it beyond being a function.
 */
module SignatureDetector {
  import opened Text

  /** `str.split()` with no argument, with `cur` the word read so far: runs of
      whitespace separate words, and leading or trailing whitespace yields no
      empty word. */
  function SplitWords(s: string, cur: string): seq<string>
  {
    if s == [] then (if cur == [] then [] else [cur])
    else if IsSpace(s[0]) then (if cur == [] then [] else [cur]) + SplitWords(s[1..], [])
    else SplitWords(s[1..], cur + [s[0]])
  }

  function Words(s: string): seq<string> {
    SplitWords(s, [])
  }

  /** `' '.join(words)`. */
  function Join(words: seq<string>): string {
    if words == [] then []
    else if |words| == 1 then words[0]
    else words[0] + " " + Join(words[1..])
  }

  /** The normalised text a signature is computed from: it has the shape of
      a normal form and keeps exactly the words of the lowercased text. */
  function Normalize(text: string): (r: string)
    ensures IsNormalized(r)
    ensures Words(r) == Words(LowerAll(text))
  {
    LowerAllIdempotent(text);
    SplitWordsAreWords(LowerAll(text), []);
    JoinIsNormalized(Words(LowerAll(text)));
    WordsOfJoin(Words(LowerAll(text)));
    Join(Words(LowerAll(text)))
  }

  /** A word as `split` returns it: non-empty, without whitespace. */
  predicate IsWord(w: string) {
    |w| > 0 && NoSpace(w)
  }

  /** The shape of a normalised text: no capital letter, and every whitespace
      character is a single space with a non-whitespace character on each
      side (so none leads, none trails and none is doubled). */
  predicate IsNormalized(r: string) {
    NoUpper(r) &&
    forall j :: 0 <= j < |r| && IsSpace(r[j]) ==>
      r[j] == ' ' && 0 < j < |r| - 1 && !IsSpace(r[j - 1]) && !IsSpace(r[j + 1])
  }

  lemma {:induction false} SplitWordsAreWords(s: string, cur: string)
    requires NoSpace(cur)
    ensures forall w :: w in SplitWords(s, cur) ==> IsWord(w)
    ensures NoUpper(s) && NoUpper(cur) ==> forall w :: w in SplitWords(s, cur) ==> NoUpper(w)
    decreases |s|
  {
    if s == [] {
    } else if IsSpace(s[0]) {
      SplitWordsAreWords(s[1..], []);
    } else {
      SplitWordsAreWords(s[1..], cur + [s[0]]);
    }
  }

  lemma {:induction false} JoinIsNormalized(words: seq<string>)
    requires forall w :: w in words ==> IsWord(w) && NoUpper(w)
    ensures IsNormalized(Join(words))
    ensures words != [] ==> |Join(words)| > 0
  {
    if |words| == 1 {
      assert words[0] in words;
    } else if |words| > 1 {
      var w, rest := words[0], Join(words[1..]);
      assert w in words;
      JoinIsNormalized(words[1..]);
      var r := w + " " + rest;
      assert Join(words) == r;
      forall j | 0 <= j < |r| && IsSpace(r[j])
        ensures r[j] == ' ' && 0 < j < |r| - 1 && !IsSpace(r[j - 1]) && !IsSpace(r[j + 1])
      {
        if j < |w| {
          assert false;
        } else if j > |w| {
          assert r[j] == rest[j - |w| - 1];
          if j - |w| - 1 > 0 { assert r[j - 1] == rest[j - |w| - 2]; }
          assert r[j + 1] == rest[j - |w|];
        }
      }
      forall j | 0 <= j < |r| ensures !IsUpper(r[j]) {
        if j < |w| { assert r[j] == w[j]; } else if j > |w| { assert r[j] == rest[j - |w| - 1]; }
      }
    }
  }

  /** Reading a word without whitespace only extends the current word. */
  lemma {:induction false} SplitWordsAppendWord(w: string, rest: string, cur: string)
    requires NoSpace(w)
    ensures SplitWords(w + rest, cur) == SplitWords(rest, cur + w)
    decreases |w|
  {
    if w == [] {
      assert w + rest == rest && cur + w == cur;
    } else {
      assert (w + rest)[0] == w[0] && (w + rest)[1..] == w[1..] + rest;
      assert !IsSpace(w[0]);
      assert SplitWords(w + rest, cur) == SplitWords(w[1..] + rest, cur + [w[0]]);
      SplitWordsAppendWord(w[1..], rest, cur + [w[0]]);
      assert cur + [w[0]] + w[1..] == cur + w;
    }
  }

  /** Splitting undoes joining, for words as `split` returns them. */
  lemma {:induction false} WordsOfJoin(words: seq<string>)
    requires forall w :: w in words ==> IsWord(w)
    ensures Words(Join(words)) == words
  {
    if words == [] {
    } else if |words| == 1 {
      assert words[0] in words;
      SplitWordsAppendWord(words[0], [], []);
      assert words[0] + [] == words[0] && [] + words[0] == words[0];
    } else {
      var w, rest := words[0], Join(words[1..]);
      assert w in words;
      assert Join(words) == w + (" " + rest);
      SplitWordsAppendWord(w, " " + rest, []);
      assert [] + w == w;
      assert (" " + rest)[1..] == rest;
      WordsOfJoin(words[1..]);
    }
  }

  /** Normalising twice is normalising once. */
  lemma NormalizeIdempotent(text: string)
    ensures Normalize(Normalize(text)) == Normalize(text)
  {
    var ws := Words(LowerAll(text));
    LowerAllIdempotent(text);
    SplitWordsAreWords(LowerAll(text), []);
    JoinIsNormalized(ws);
    LowerAllOfLower(Join(ws));
    WordsOfJoin(ws);
  }

  /** Every text equal to `text` up to letter case normalises like it. */
  lemma NormalizeCaseClass(text: string)
    ensures forall t :: SameUpToCase(t, text) ==> Normalize(t) == Normalize(text)
  {
    forall t | SameUpToCase(t, text) ensures Normalize(t) == Normalize(text) {
      NormalizeIgnoresCase(t, text);
    }
  }

  /** Letter case does not matter. */
  lemma NormalizeIgnoresCase(t: string, t': string)
    requires SameUpToCase(t, t')
    ensures Normalize(t) == Normalize(t')
  {
    SameUpToCaseLowerAll(t, t');
  }

  predicate AllSpace(u: string) {
    forall j :: 0 <= j < |u| ==> IsSpace(u[j])
  }

  /** A run of whitespace ends the current word and is otherwise skipped. */
  lemma {:induction false} SplitWordsSpaceRun(u: string, b: string, cur: string)
    requires |u| > 0 && AllSpace(u)
    ensures SplitWords(u + b, cur) == (if cur == [] then [] else [cur]) + SplitWords(b, [])
    decreases |u|
  {
    assert (u + b)[0] == u[0] && (u + b)[1..] == u[1..] + b;
    if |u| > 1 {
      SplitWordsSpaceRun(u[1..], b, []);
    } else {
      assert u[1..] + b == b;
    }
  }

  /** Replacing one non-empty whitespace run by another leaves the words alone. */
  lemma {:induction false} SplitWordsSpaceRuns(a: string, u: string, v: string, b: string, cur: string)
    requires |u| > 0 && AllSpace(u) && |v| > 0 && AllSpace(v)
    ensures SplitWords(a + u + b, cur) == SplitWords(a + v + b, cur)
    decreases |a|
  {
    if a == [] {
      assert a + u + b == u + b && a + v + b == v + b;
      SplitWordsSpaceRun(u, b, cur);
      SplitWordsSpaceRun(v, b, cur);
    } else {
      assert (a + u + b)[0] == a[0] && (a + u + b)[1..] == a[1..] + u + b;
      assert (a + v + b)[0] == a[0] && (a + v + b)[1..] == a[1..] + v + b;
      if IsSpace(a[0]) {
        SplitWordsSpaceRuns(a[1..], u, v, b, []);
      } else {
        SplitWordsSpaceRuns(a[1..], u, v, b, cur + [a[0]]);
      }
    }
  }

  /** Trailing whitespace yields no word. */
  lemma {:induction false} SplitWordsTrailingSpace(a: string, u: string, cur: string)
    requires AllSpace(u)
    ensures SplitWords(a + u, cur) == SplitWords(a, cur)
    decreases |a|
  {
    if a == [] {
      assert a + u == u;
      if u != [] {
        assert u + [] == u;
        SplitWordsSpaceRun(u, [], cur);
      }
    } else {
      assert (a + u)[0] == a[0] && (a + u)[1..] == a[1..] + u;
      if IsSpace(a[0]) {
        SplitWordsTrailingSpace(a[1..], u, []);
      } else {
        SplitWordsTrailingSpace(a[1..], u, cur + [a[0]]);
      }
    }
  }

  lemma LowerAllSpace(u: string)
    requires AllSpace(u)
    ensures LowerAll(u) == u && AllSpace(LowerAll(u))
  {
  }

  /** The length and kind of a whitespace run between two parts of a text do
      not matter, and neither do leading or trailing runs. */
  lemma NormalizeIgnoresSpacing(a: string, u: string, v: string, b: string)
    requires |u| > 0 && AllSpace(u) && |v| > 0 && AllSpace(v)
    ensures Normalize(a + u + b) == Normalize(a + v + b)
    ensures Normalize(u + b) == Normalize(b)
    ensures Normalize(a + u) == Normalize(a)
  {
    LowerAllConcat(a + u, b);
    LowerAllConcat(a, u);
    LowerAllConcat(a + v, b);
    LowerAllConcat(a, v);
    LowerAllConcat(u, b);
    LowerAllSpace(u);
    LowerAllSpace(v);
    SplitWordsSpaceRuns(LowerAll(a), u, v, LowerAll(b), []);
    SplitWordsSpaceRun(u, LowerAll(b), []);
    assert [] + SplitWords(LowerAll(b), []) == SplitWords(LowerAll(b), []);
    SplitWordsTrailingSpace(LowerAll(a), u, []);
  }

  /** No two entries of the list are equal. */
  ghost predicate NoDuplicates(s: seq<string>) {
    forall i, j :: 0 <= i < j < |s| ==> s[i] != s[j]
  }

  /** The detector and its registry of spam digests, a list that training
      appends to. */
  class SignatureDetector {
    const digest: string -> string
    var spamSignatures: seq<string>

    ghost predicate Valid()
      reads this
    {
      NoDuplicates(spamSignatures)
    }

    /** A detector whose registry file is missing or unreadable starts with an
        empty registry. */
    constructor (digest: string -> string)
      ensures this.digest == digest
      ensures spamSignatures == [] && Valid()
    {
      this.digest := digest;
      spamSignatures := [];
    }

    /** `create_signature`: the digest of the normalised text. Normalising
        first does not change it, and neither does letter case. */
    function CreateSignature(text: string): (signature: string)
      ensures signature == digest(Normalize(Normalize(text)))
      ensures forall t :: SameUpToCase(t, text) ==> digest(Normalize(t)) == signature
    {
      NormalizeIdempotent(text);
      NormalizeCaseClass(text);
      digest(Normalize(text))
    }

    /** The signature does not change when the text is normalised first, and
        texts with the same normal form share a signature. */
    lemma SignatureOfNormalForm(text: string, text': string)
      requires Normalize(text') == Normalize(text)
      ensures CreateSignature(Normalize(text)) == CreateSignature(text)
      ensures CreateSignature(text') == CreateSignature(text)
    {
      NormalizeIdempotent(text);
    }

    /** `check_signature`: an empty registry flags nothing; otherwise the text
        is known spam when its signature is in the registry. */
    function CheckSignature(text: string): (found: bool)
      reads this
      ensures found <==> CreateSignature(text) in spamSignatures
      ensures spamSignatures == [] ==> !found
    {
      if spamSignatures == [] then false
      else CreateSignature(text) in spamSignatures
    }

    /** `train_on_spam`: appends the signature unless it is already there. */
    method TrainOnSpam(text: string)
      requires Valid()
      modifies this`spamSignatures
      ensures Valid()
      ensures var signature := CreateSignature(text);
        if signature in old(spamSignatures) then spamSignatures == old(spamSignatures)
        else spamSignatures == old(spamSignatures) + [signature]
      ensures |old(spamSignatures)| <= |spamSignatures| <= |old(spamSignatures)| + 1
      ensures spamSignatures[..|old(spamSignatures)|] == old(spamSignatures)
      ensures CheckSignature(text)
      ensures forall t' :: Normalize(t') == Normalize(text) ==> CheckSignature(t')
    {
      var signature := CreateSignature(text);
      if signature !in spamSignatures {
        spamSignatures := spamSignatures + [signature];
      }
    }
  }

  /** Training twice on a text leaves the registry exactly as training once
      does: the second call changes nothing. */
  method TrainTwice(detector: SignatureDetector, text: string)
    requires detector.Valid()
    modifies detector`spamSignatures
    ensures detector.Valid()
    ensures var signature := detector.CreateSignature(text);
      detector.spamSignatures ==
        old(detector.spamSignatures) + (if signature in old(detector.spamSignatures) then [] else [signature])
    ensures detector.CheckSignature(text)
  {
    detector.TrainOnSpam(text);
    ghost var once := detector.spamSignatures;
    detector.TrainOnSpam(text);
    assert detector.spamSignatures == once;
  }
}
