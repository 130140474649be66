/** The tokenizer and stopword list of the heuristic text analysis. */
module Tokenizer {
  import opened JsText

  predicate IsTokenChar(c: char) {
    'a' <= c <= 'z' || '0' <= c <= '9' || c == '\''
  }

  /** A token: non-empty, lower-case letters, digits and apostrophes only. */
  predicate IsToken(t: string) {
    |t| > 0 && forall c :: c in t ==> IsTokenChar(c)
  }

  /** What `toLowerCase()` followed by `replace(/[^a-z0-9\s']/gi, " ")` makes
      of one character. Lower-casing maps ASCII capitals to small letters,
      KELVIN SIGN to `k` and LATIN CAPITAL LETTER I WITH DOT ABOVE to `i`
      followed by a combining dot; every other character it changes stays
      outside `[a-z0-9\s']`, and everything outside that class becomes a space. */
  function FoldChar(c: char): (r: string)
    ensures forall d :: d in r ==> IsTokenChar(d) || IsSpace(d)
  {
    if 'A' <= c <= 'Z' then [AsciiLower(c)]
    else if IsTokenChar(c) || IsSpace(c) then [c]
    else if c == '\U{212A}' then "k"
    else if c == '\U{0130}' then "i "
    else " "
  }

  function Fold(s: string): (r: string)
    ensures forall d :: d in r ==> IsTokenChar(d) || IsSpace(d)
  {
    if |s| == 0 then "" else FoldChar(s[0]) + Fold(s[1..])
  }

  /** The separator `/\s+/`: the whitespace run that starts at `q`. */
  function SpaceSep(s: string, q: nat): nat {
    if q < |s| && IsSpace(s[q]) then RunEnd(s, q, IsSpace) else q
  }

  /** `tokenize` (aiHelpers.ts:9-15). */
  function Tokenize(text: string): (r: seq<string>)
    ensures forall i :: 0 <= i < |r| ==> IsToken(r[i])
  {
    var folded := Fold(text);
    var pieces := Split(folded, SpaceSep);
    FoldedPieces(folded);
    NonEmpty(pieces)
  }

  /** Whitespace splitting of a folded text leaves only token characters. */
  lemma FoldedPieces(folded: string)
    requires forall d :: d in folded ==> IsTokenChar(d) || IsSpace(d)
    ensures forall t, c :: t in Split(folded, SpaceSep) && c in t ==> IsTokenChar(c)
  {
    var bad := (c: char) => !IsTokenChar(c);
    forall k | 0 <= k < |folded| && bad(folded[k])
      ensures k < SpaceSep(folded, k) <= |folded|
    {
      assert folded[k] in folded;
    }
    SplitAvoids(folded, SpaceSep, bad, 0, 0);
    var pieces := Split(folded, SpaceSep);
    forall t, c | t in pieces && c in t ensures IsTokenChar(c) {
      var i :| 0 <= i < |pieces| && pieces[i] == t;
      assert !bad(c);
    }
  }

  /** The fixed stopword list (aiHelpers.ts:17-21). */
  const Stopwords: set<string> := {
    "the", "a", "an", "and", "or", "but", "if", "then", "else", "when", "at", "by", "for",
    "with", "about", "against", "between", "into", "through", "during", "before", "after",
    "above", "below", "to", "from", "up", "down", "in", "out", "on", "off", "over", "under",
    "again", "further", "once", "here", "there", "why", "how", "all", "any", "both",
    "each", "few", "more", "most", "other", "some", "such", "no", "nor", "not", "only", "own",
    "same", "so", "than", "too", "very", "can", "will", "just", "don", "should", "now", "is",
    "am", "are", "was", "were", "be", "been", "being", "i", "you", "he", "she", "it", "we", "they"
  }

  /** `filter((t) => !STOPWORDS.has(t))`. */
  function ContentWords(tokens: seq<string>): (r: seq<string>)
    ensures forall i :: 0 <= i < |r| ==> r[i] !in Stopwords && r[i] in tokens
  {
    if |tokens| == 0 then []
    else (if tokens[0] in Stopwords then [] else [tokens[0]]) + ContentWords(tokens[1..])
  }

  /** `filter((t) => !STOPWORDS.has(t) && t.length > n)`. */
  function KeywordCandidates(tokens: seq<string>, n: nat): (r: seq<string>)
    ensures forall i :: 0 <= i < |r| ==> r[i] !in Stopwords && |r[i]| > n && r[i] in tokens
  {
    if |tokens| == 0 then []
    else (if tokens[0] !in Stopwords && |tokens[0]| > n then [tokens[0]] else [])
         + KeywordCandidates(tokens[1..], n)
  }

  lemma {:induction false} FoldKeeps(s: string)
    requires forall c :: c in s ==> IsTokenChar(c) || c == ' '
    ensures Fold(s) == s
  {
    if |s| > 0 {
      assert s[0] in s;
      assert forall c :: c in s[1..] ==> c in s;
      FoldKeeps(s[1..]);
      assert s == [s[0]] + s[1..];
    }
  }

  lemma {:induction false} NonEmptyAppend(a: seq<string>, b: seq<string>)
    ensures NonEmpty(a + b) == NonEmpty(a) + NonEmpty(b)
  {
    if |a| == 0 {
      assert a + b == b;
    } else {
      assert (a + b)[0] == a[0];
      assert (a + b)[1..] == a[1..] + b;
      NonEmptyAppend(a[1..], b);
    }
  }

  lemma SpaceSepShift(x: string, y: string)
    ensures forall k :: 0 <= k < |y| ==> SpaceSep(x + y, |x| + k) == |x| + SpaceSep(y, k)
  {
    forall k | 0 <= k < |y| ensures SpaceSep(x + y, |x| + k) == |x| + SpaceSep(y, k) {
      assert (x + y)[|x| + k] == y[k];
      RunEndShift(x, y, k, IsSpace);
    }
  }

  /** A single space before a non-space character is a separator of length one. */
  lemma SpaceBefore(x: string, rest: string)
    requires |x| > 0 && x[|x| - 1] == ' '
    requires |rest| > 0 && !IsSpace(rest[0])
    ensures SpaceSep(x + rest, |x| - 1) == |x|
  {
    var s := x + rest;
    assert s[|x| - 1] == ' ' && IsSpace(' ');
    assert s[|x|] == rest[0];
    assert RunEnd(s, |x|, IsSpace) == |x|;
    assert RunEnd(s, |x| - 1, IsSpace) == RunEnd(s, |x|, IsSpace);
  }

  /** A token followed by a space and more text splits off as the first piece. */
  lemma SplitConsToken(w: string, rest: string)
    requires IsToken(w)
    requires |rest| > 0 && IsTokenChar(rest[0])
    ensures Split(w + " " + rest, SpaceSep) == [w] + Split(rest, SpaceSep)
  {
    var x := w + " ";
    var s := x + rest;
    assert w + " " + rest == s;
    forall k | 0 <= k < |w| ensures !(k < SpaceSep(s, k) <= |s|) {
      assert s[k] == w[k] && w[k] in w;
      assert !IsSpace(s[k]);
    }
    SplitSkip(s, SpaceSep, 0, 0, |w|);
    SpaceBefore(x, rest);
    assert s[0..|w|] == w;
    assert SplitFrom(s, SpaceSep, 0, |w|) == [w] + SplitFrom(s, SpaceSep, |x|, |x|);
    SpaceSepShift(x, rest);
    SplitShift(x, rest, SpaceSep, 0, 0);
  }

  /** Splitting a space-joined list of tokens on whitespace gives the list back. */
  lemma {:induction false} SplitJoined(ws: seq<string>)
    requires forall i :: 0 <= i < |ws| ==> IsToken(ws[i])
    ensures NonEmpty(Split(Join(ws, " "), SpaceSep)) == ws
  {
    if |ws| == 0 {
      assert Split("", SpaceSep) == [""];
    } else if |ws| == 1 {
      var w := ws[0];
      assert IsToken(w);
      forall k | 0 <= k < |w| ensures !(k < SpaceSep(w, k) <= |w|) {
        assert w[k] in w;
      }
      SplitWithoutSeparator(w, SpaceSep, 0, 0);
    } else {
      var rest := Join(ws[1..], " ");
      assert Join(ws, " ") == ws[0] + " " + rest;
      assert IsToken(ws[0]);
      JoinStartsWithToken(ws[1..]);
      SplitConsToken(ws[0], rest);
      SplitJoined(ws[1..]);
      NonEmptyAppend([ws[0]], Split(rest, SpaceSep));
    }
  }

  lemma JoinStartsWithToken(ws: seq<string>)
    requires |ws| > 0
    requires forall i :: 0 <= i < |ws| ==> IsToken(ws[i])
    ensures |Join(ws, " ")| > 0 && IsTokenChar(Join(ws, " ")[0])
  {
    assert IsToken(ws[0]) && ws[0][0] in ws[0];
    if |ws| > 1 {
      assert Join(ws, " ") == ws[0] + " " + Join(ws[1..], " ");
    }
  }

  lemma JoinOfTokensChars(ws: seq<string>)
    requires forall i :: 0 <= i < |ws| ==> IsToken(ws[i])
    ensures forall c :: c in Join(ws, " ") ==> IsTokenChar(c) || c == ' '
  {
    if |ws| > 1 {
      JoinOfTokensChars(ws[1..]);
      assert Join(ws, " ") == ws[0] + " " + Join(ws[1..], " ");
      assert IsToken(ws[0]);
    } else if |ws| == 1 {
      assert IsToken(ws[0]);
    }
  }

  /** Tokenizing the space-joined tokens of a text gives the same tokens. */
  lemma TokenizeIdempotent(text: string)
    ensures Tokenize(Join(Tokenize(text), " ")) == Tokenize(text)
  {
    var ws := Tokenize(text);
    JoinOfTokensChars(ws);
    FoldKeeps(Join(ws, " "));
    SplitJoined(ws);
  }
}
