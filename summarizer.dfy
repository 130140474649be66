/** The extractive summary `summarizeText` (aiHelpers.ts:23-45): sentences
    are split after `.`, `!` or `?` and ranked by the mean frequency of
    their content words. */
module Summarizer {
  import opened JsText
  import opened Tokenizer
  import opened Frequency
  import opened Sorting

  predicate IsSentenceEnd(c: char) {
    c == '.' || c == '!' || c == '?'
  }

  /** The separator `/(?<=[.!?])\s+/` tried at `q`: the look-behind reads
      the character before `q` in the whole string, then `\s+` takes the
      whole whitespace run. */
  function SentenceSep(s: string, q: nat): nat {
    if 0 < q < |s| && IsSentenceEnd(s[q - 1]) && IsSpace(s[q]) then RunEnd(s, q, IsSpace) else q
  }

  /** `text.split(/(?<=[.!?])\s+/)`. */
  function Pieces(text: string): seq<string> {
    Split(text, SentenceSep)
  }

  /** `filter((s) => s.trim().length > 0)`. */
  function NonBlank(parts: seq<string>): (r: seq<string>)
    ensures forall i :: 0 <= i < |r| ==> !IsBlank(r[i]) && r[i] in parts
  {
    if |parts| == 0 then []
    else (if IsBlank(parts[0]) then [] else [parts[0]]) + NonBlank(parts[1..])
  }

  function Sentences(text: string): seq<string> {
    NonBlank(Pieces(text))
  }

  /** The content words of a string: its tokens that are not stopwords. */
  function Content(s: string): seq<string> {
    ContentWords(Tokenize(s))
  }

  /** A sentence with its position and its score `sum / (count || 1)`,
      kept as the exact numerator and word count. */
  datatype Scored = Scored(pos: nat, text: string, sum: nat, words: nat)

  function Denominator(a: Scored): nat {
    if a.words == 0 then 1 else a.words
  }

  /** `sum` of `freq[t] || 0` over the words. */
  function SumCounts(words: seq<string>, freq: Table): nat {
    if |words| == 0 then 0 else Get(freq, words[0]) + SumCounts(words[1..], freq)
  }

  /** `sentences.map(...)`, each with its position. */
  function ScoreAll(sentences: seq<string>, freq: Table): (r: seq<Scored>)
    ensures |r| == |sentences|
    ensures forall i :: 0 <= i < |r| ==> r[i].pos == i && r[i].text == sentences[i]
  {
    seq(|sentences|, i requires 0 <= i < |sentences| =>
      Scored(i, sentences[i], SumCounts(Content(sentences[i]), freq), |Content(sentences[i])|))
  }

  /** The comparator `(a, b) => b.score - a.score` as "sorts before": a
      higher mean, compared exactly by cross-multiplying. */
  function Outranks(): (Scored, Scored) -> bool {
    (a: Scored, b: Scored) => a.sum * Denominator(b) > b.sum * Denominator(a)
  }

  lemma MulMonotone(x: nat, y: nat, k: nat)
    requires x <= y
    ensures x * k <= y * k
  {
  }

  lemma MulCancel(x: nat, y: nat, k: nat)
    requires k > 0 && x * k <= y * k
    ensures x <= y
  {
  }

  /** Cross-multiplied comparison of fractions with positive denominators is transitive. */
  lemma CrossTransitive(x: nat, dx: nat, y: nat, dy: nat, z: nat, dz: nat)
    requires dx > 0 && dy > 0 && dz > 0
    requires x * dy <= y * dx && y * dz <= z * dy
    ensures x * dz <= z * dx
  {
    MulMonotone(x * dy, y * dx, dz);
    MulMonotone(y * dz, z * dy, dx);
    calc {
      (x * dz) * dy;
    ==
      (x * dy) * dz;
    <=
      (y * dx) * dz;
    ==
      (y * dz) * dx;
    <=
      (z * dy) * dx;
    ==
      (z * dx) * dy;
    }
    MulCancel(x * dz, z * dx, dy);
  }

  lemma OutranksOrder()
    ensures StrictWeakOrder(Outranks())
  {
    var gt := Outranks();
    forall a, b, c | !gt(a, b) && !gt(b, c) ensures !gt(a, c) {
      CrossTransitive(a.sum, Denominator(a), b.sum, Denominator(b), c.sum, Denominator(c));
    }
  }

  /** The scored sentences after the stable sort by descending score. */
  function Ranked(text: string): (r: seq<Scored>)
    ensures |r| == |Sentences(text)|
  {
    var freq := Tally(Content(text));
    var scored := ScoreAll(Sentences(text), freq);
    var sorted := SortDesc(scored, Outranks());
    assert |multiset(sorted)| == |multiset(scored)|;
    sorted
  }

  function Texts(xs: seq<Scored>): (r: seq<string>)
    ensures |r| == |xs| && forall i :: 0 <= i < |xs| ==> r[i] == xs[i].text
  {
    seq(|xs|, i requires 0 <= i < |xs| => xs[i].text)
  }

  /** What `summarizeText(text, maxSentences)` returns. */
  function Summary(text: string, maxSentences: nat): string {
    var sentences := Sentences(text);
    if |sentences| <= maxSentences then Trim(Join(sentences, " "))
    else Trim(Join(Texts(Take(Ranked(text), maxSentences)), " "))
  }

  /** `summarizeText` (aiHelpers.ts:23-45). */
  method SummarizeText(text: string, maxSentences: nat) returns (summary: string)
    requires |Sentences(text)| > maxSentences ==> "constructor" !in Content(text)
    ensures summary == Summary(text, maxSentences)
  {
    var sentences := Sentences(text);
    if |sentences| <= maxSentences {
      return Trim(Join(sentences, " "));
    }
    var freq := CountFrequencies(Content(text));
    var scored := ScoreAll(sentences, freq);
    var sorted := SortDesc(scored, Outranks());
    summary := Trim(Join(Texts(Take(sorted, maxSentences)), " "));
  }

  /** The score of a sentence is the total text-wide count of its content
      words over their number; with no content words it is 0 over 1. */
  lemma {:induction false} SumCountsIsTotal(words: seq<string>, text: string)
    ensures SumCounts(words, Tally(Content(text))) == TotalCount(words, multiset(Content(text)))
  {
    TallyCounts(Content(text));
    if |words| > 0 {
      SumCountsIsTotal(words[1..], text);
    }
  }

  /** The sum of the multiplicities of `words` in `m`. */
  function TotalCount(words: seq<string>, m: multiset<string>): nat {
    if |words| == 0 then 0 else m[words[0]] + TotalCount(words[1..], m)
  }

  /** Each ranked entry is a sentence of the text, ranked entries are a
      permutation of all scored sentences, scores never increase along the
      ranking, and a sentence scores 0 over 1 exactly when it has no
      content word occurring in the text. */
  lemma RankedProperties(text: string)
    ensures multiset(Ranked(text)) == multiset(ScoreAll(Sentences(text), Tally(Content(text))))
    ensures |Ranked(text)| == |Sentences(text)|
    ensures forall a :: a in Ranked(text) ==>
      && a.pos < |Sentences(text)| && a.text == Sentences(text)[a.pos]
      && a.words == |Content(a.text)|
      && a.sum == TotalCount(Content(a.text), multiset(Content(text)))
    ensures forall i, j :: 0 <= i < j < |Ranked(text)| ==>
      Ranked(text)[j].sum * Denominator(Ranked(text)[i]) <= Ranked(text)[i].sum * Denominator(Ranked(text)[j])
  {
    var scored := ScoreAll(Sentences(text), Tally(Content(text)));
    var r := Ranked(text);
    OutranksOrder();
    SortDescDescending(scored, Outranks());
    assert |multiset(r)| == |multiset(scored)|;
    forall a | a in r ensures
      && a.pos < |Sentences(text)| && a.text == Sentences(text)[a.pos]
      && a.words == |Content(a.text)|
      && a.sum == TotalCount(Content(a.text), multiset(Content(text)))
    {
      assert a in multiset(scored);
      SumCountsIsTotal(Content(a.text), text);
    }
  }

  lemma ScoreAllDistinct(sentences: seq<string>, freq: Table)
    ensures Distinct(ScoreAll(sentences, freq))
  {
  }

  /** Equal scores keep the sentences' order in the text. */
  lemma RankedTieOrder(text: string, i: nat, j: nat)
    requires i < j < |Ranked(text)|
    requires Ranked(text)[i].sum * Denominator(Ranked(text)[j]) == Ranked(text)[j].sum * Denominator(Ranked(text)[i])
    ensures Ranked(text)[i].pos < Ranked(text)[j].pos
  {
    var scored := ScoreAll(Sentences(text), Tally(Content(text)));
    ScoreAllDistinct(Sentences(text), Tally(Content(text)));
    var r := SortDesc(scored, Outranks());
    assert r == Ranked(text);
    assert Tie(r[i], r[j], Outranks());
    SortDescTieOrder(scored, Outranks(), i, j);
    PositionIsIndex(scored, r[i]);
    PositionIsIndex(scored, r[j]);
  }

  lemma PositionIsIndex(scored: seq<Scored>, a: Scored)
    requires forall k :: 0 <= k < |scored| ==> scored[k].pos == k
    requires a in scored
    ensures IndexOf(scored, a) == a.pos
  {
  }

  /** Short path: a text without `.`, `!` or `?` is one sentence at most,
      so whenever at least one sentence is asked for its summary is the
      text itself, trimmed (and empty for a blank text). */
  lemma SummaryShort(text: string, maxSentences: nat)
    requires maxSentences >= 1
    requires forall i :: 0 <= i < |text| ==> !IsSentenceEnd(text[i])
    ensures Summary(text, maxSentences) == Trim(text)
  {
    SingleSentence(text);
  }

  /** Long path: exactly `maxSentences` sentences, the first of the ranking,
      and no sentence left out scores higher than one chosen. */
  lemma SummaryLong(text: string, maxSentences: nat)
    requires |Sentences(text)| > maxSentences
    ensures Summary(text, maxSentences) == Trim(Join(Texts(Ranked(text)[..maxSentences]), " "))
    ensures forall i, j :: 0 <= i < maxSentences <= j < |Ranked(text)| ==>
      !Outranks()(Ranked(text)[j], Ranked(text)[i])
  {
    RankedProperties(text);
  }

  /** Without `.`, `!` or `?` there is one sentence, the text itself,
      unless the text is blank. */
  lemma SingleSentence(text: string)
    requires forall i :: 0 <= i < |text| ==> !IsSentenceEnd(text[i])
    ensures Sentences(text) == if IsBlank(text) then [] else [text]
  {
    forall k | 0 <= k < |text| ensures !(k < SentenceSep(text, k) <= |text|) {
      if 0 < k {
        assert !IsSentenceEnd(text[k - 1]);
      }
    }
    SplitWithoutSeparator(text, SentenceSep, 0, 0);
    assert text[0..] == text;
    assert Pieces(text) == [text];
    assert [text][1..] == [];
    assert NonBlank([text]) == (if IsBlank(text) then [] else [text]) + NonBlank([]);
  }

  predicate EndsInPunctuation(t: string) {
    |t| > 0 && IsSentenceEnd(t[|t| - 1])
  }

  /** Every piece but the last ends with `.`, `!` or `?`. */
  lemma {:induction false} PiecesEndInPunctuation(s: string, p: nat, q: nat)
    requires p <= q <= |s|
    requires p == 0 || IsSpace(s[p - 1])
    ensures forall i :: 0 <= i < |SplitFrom(s, SentenceSep, p, q)| - 1 ==>
      EndsInPunctuation(SplitFrom(s, SentenceSep, p, q)[i])
    decreases |s| - q
  {
    if q < |s| {
      var e := SentenceSep(s, q);
      if q < e <= |s| {
        assert IsSpace(s[e - 1]);
        PiecesEndInPunctuation(s, e, e);
        assert p < q by {
          assert IsSentenceEnd(s[q - 1]);
        }
        assert s[p..q][q - p - 1] == s[q - 1];
        var rest := SplitFrom(s, SentenceSep, e, e);
        var r := SplitFrom(s, SentenceSep, p, q);
        assert r == [s[p..q]] + rest;
        assert EndsInPunctuation(r[0]);
        forall i | 0 < i < |r| - 1 ensures EndsInPunctuation(r[i]) {
          assert r[i] == rest[i - 1];
        }
      } else {
        PiecesEndInPunctuation(s, p, q + 1);
        assert SplitFrom(s, SentenceSep, p, q) == SplitFrom(s, SentenceSep, p, q + 1);
      }
    }
  }
}
