/** The regular expressions of the two annotation passes, each written as a
    matcher tried at a position of the whole string, and the left-to-right
    scan that `String.prototype.replace` with a global pattern and the
    grammar loop both perform. */
module Patterns {
  import opened Wrappers
  import opened JsText

  /** `Terms(ts)` is `\b(t1|t2|...)\b` with the flags `gi`; `RepeatedWord` is
      `\b(\w+)\s+(\1)\b` with `gi`; `LoneI` is `\bi\b`; `DoubleSpace` is
      `/ {2,}/`; `Grammar` tries the last three at a position in that order. */
  datatype Matcher = Terms(terms: seq<string>) | RepeatedWord | LoneI | DoubleSpace | Grammar

  /** `t` occurs at `p` ignoring ASCII case. */
  predicate CaseOccursAt(s: string, t: string, p: nat) {
    p + |t| <= |s| && AsciiCaseEq(s[p..p + |t|], t)
  }

  /** The alternation after the opening `\b`: the first term that occurs at
      `p` and is followed by a word boundary wins, the others are only tried
      when it fails. Empty terms are never matched. */
  function TermAt(terms: seq<string>, s: string, p: nat): (r: Option<nat>)
    ensures r.Some? ==> p < r.value <= |s| && IsBoundary(s, r.value)
  {
    if |terms| == 0 then None
    else if |terms[0]| > 0 && CaseOccursAt(s, terms[0], p) && IsBoundary(s, p + |terms[0]|) then
      Some(p + |terms[0]|)
    else TermAt(terms[1..], s, p)
  }

  predicate IsAsciiSpace(c: char) {
    c == ' '
  }

  /** `\b(\w+)\s+(\1)\b`: the word that starts at `p` must be taken whole
      (a shorter prefix is followed by a word character, not by `\s`), and so
      must the whitespace run (a shorter run is followed by whitespace, not
      by a word character); then the same word again, ignoring ASCII case,
      ending at a word boundary. */
  function RepeatedWordAt(s: string, p: nat): (r: Option<nat>)
    ensures r.Some? ==> p < r.value <= |s| && IsBoundary(s, p) && IsBoundary(s, r.value)
  {
    if !(p < |s| && IsBoundary(s, p) && IsWordChar(s[p])) then None
    else
      var k := RunEnd(s, p, IsWordChar);
      var m := RunEnd(s, k, IsSpace);
      var n := k - p;
      if m > k && m + n <= |s| && AsciiCaseEq(s[m..m + n], s[p..k]) && IsBoundary(s, m + n) then
        Some(m + n)
      else None
  }

  /** What the matcher matches at `p`, by the end of the match. */
  function Hit(mt: Matcher, s: string, p: nat): (r: Option<nat>)
    ensures r.Some? ==> p < r.value <= |s| && NotMidWord(s, p) && NotMidWord(s, r.value)
  {
    match mt
    case Terms(ts) => if IsBoundary(s, p) then TermAt(ts, s, p) else None
    case RepeatedWord => RepeatedWordAt(s, p)
    case LoneI => LoneIAt(s, p)
    case DoubleSpace => DoubleSpaceAt(s, p)
    case Grammar =>
      var r1 := RepeatedWordAt(s, p);
      if r1.Some? then r1
      else
        var r2 := LoneIAt(s, p);
        if r2.Some? then r2 else DoubleSpaceAt(s, p)
  }

  /** `\bi\b`: a lower-case `i` standing alone. */
  function LoneIAt(s: string, p: nat): (r: Option<nat>)
    ensures r.Some? ==> p < r.value <= |s| && IsBoundary(s, p) && IsBoundary(s, r.value)
  {
    if p < |s| && IsBoundary(s, p) && s[p] == 'i' && IsBoundary(s, p + 1) then Some(p + 1) else None
  }

  /** `/ {2,}/`: two or more ASCII spaces, as many as there are. */
  function DoubleSpaceAt(s: string, p: nat): (r: Option<nat>)
    ensures r.Some? ==> p < r.value <= |s| && NotMidWord(s, p) && NotMidWord(s, r.value)
  {
    if p + 1 < |s| && s[p] == ' ' && s[p + 1] == ' ' then Some(RunEnd(s, p, IsAsciiSpace)) else None
  }

  /** Every match ends after it starts and no later than the text. */
  predicate Advances(h: seq<Option<nat>>) {
    forall k :: 0 <= k < |h| && h[k].Some? ==> k < h[k].value <= |h|
  }

  /** `h[k]` is what is matched at position `k` of `s`; no match cuts a word. */
  predicate IsHitTable(h: seq<Option<nat>>, s: string) {
    && |h| == |s| && Advances(h)
    && forall k :: 0 <= k < |h| && h[k].Some? ==> NotMidWord(s, k) && NotMidWord(s, h[k].value)
  }

  /** The matches of `mt` in `s`, position by position. */
  function Hits(mt: Matcher, s: string): (h: seq<Option<nat>>)
    ensures IsHitTable(h, s)
  {
    seq(|s|, k requires 0 <= k < |s| => Hit(mt, s, k))
  }

  /** The table holds, at each position, what the matcher matches there. */
  lemma HitsAt(mt: Matcher, s: string)
    ensures forall k :: 0 <= k < |s| ==> Hits(mt, s)[k] == Hit(mt, s, k)
  {
  }

  /** The first position at or after `q` where the table has a match, with
      the end of that match. */
  function FirstIn(h: seq<Option<nat>>, q: nat): (r: Option<(nat, nat)>)
    requires q <= |h|
    ensures r.Some? ==> q <= r.value.0 < |h| && h[r.value.0] == Some(r.value.1)
    ensures r.Some? ==> forall k :: q <= k < r.value.0 ==> h[k].None?
    ensures r.None? <==> forall k :: q <= k < |h| ==> h[k].None?
    decreases |h| - q
  {
    if q == |h| then None
    else if h[q].Some? then Some((q, h[q].value))
    else FirstIn(h, q + 1)
  }

  /** `exec` with `lastIndex = q`. */
  function FirstHit(mt: Matcher, s: string, q: nat): Option<(nat, nat)>
    requires q <= |s|
  {
    FirstIn(Hits(mt, s), q)
  }

  /** What `exec` from `q` finds: the first position at or after `q` where
      the matcher matches, with the end of that match, or nothing exactly
      when it matches nowhere from `q` on. */
  lemma FirstHitSpec(mt: Matcher, s: string, q: nat)
    requires q <= |s|
    ensures FirstHit(mt, s, q).Some? ==>
      && q <= FirstHit(mt, s, q).value.0 < |s|
      && Hit(mt, s, FirstHit(mt, s, q).value.0) == Some(FirstHit(mt, s, q).value.1)
      && forall k :: q <= k < FirstHit(mt, s, q).value.0 ==> Hit(mt, s, k).None?
    ensures FirstHit(mt, s, q).None? <==> forall k :: q <= k < |s| ==> Hit(mt, s, k).None?
  {
    HitsAt(mt, s);
  }

  /** A piece of a text node: `[start, end)`, marked when it is a match. */
  datatype Seg = Seg(start: nat, end: nat, marked: bool)

  /** The pieces from `p` on: the text before each match, the match, and
      after the last match the rest of the text (empty pieces are left out). */
  function ScanFrom(h: seq<Option<nat>>, p: nat): (r: seq<Seg>)
    requires Advances(h) && p <= |h|
    ensures forall i :: 0 <= i < |r| ==> p <= r[i].start < r[i].end <= |h|
    decreases |h| - p
  {
    match FirstIn(h, p)
    case None => if p < |h| then [Seg(p, |h|, false)] else []
    case Some((a, e)) => (if p < a then [Seg(p, a, false)] else []) + [Seg(a, e, true)] + ScanFrom(h, e)
  }

  /** The pieces a global replace or the grammar loop cuts `s` into. */
  function Scan(mt: Matcher, s: string): (r: seq<Seg>)
    ensures forall i :: 0 <= i < |r| ==> r[i].start < r[i].end <= |s|
  {
    ScanFrom(Hits(mt, s), 0)
  }

  lemma ScanStep(h: seq<Option<nat>>, p: nat) returns (a: nat, e: nat)
    requires Advances(h) && p <= |h| && FirstIn(h, p).Some?
    ensures (a, e) == FirstIn(h, p).value
    ensures p <= a < e <= |h| && h[a] == Some(e)
    ensures forall k :: p <= k < a ==> h[k].None?
    ensures ScanFrom(h, p) == (if p < a then [Seg(p, a, false)] else []) + [Seg(a, e, true)] + ScanFrom(h, e)
  {
    a, e := FirstIn(h, p).value.0, FirstIn(h, p).value.1;
  }

  /** The pieces cover `[p, n)` in order without gaps, none of them empty. */
  predicate Contiguous(segs: seq<Seg>, p: nat, n: nat) {
    && (|segs| == 0 ==> p == n)
    && (|segs| > 0 ==> segs[0].start == p && segs[|segs| - 1].end == n)
    && (forall i :: 0 <= i < |segs| ==> segs[i].start < segs[i].end <= n)
    && (forall i :: 0 <= i < |segs| - 1 ==> segs[i].end == segs[i + 1].start)
  }

  /** Marked pieces are matches. */
  predicate MarkedAreHits(h: seq<Option<nat>>, segs: seq<Seg>) {
    forall i :: 0 <= i < |segs| && segs[i].marked ==> segs[i].start < |h| && h[segs[i].start] == Some(segs[i].end)
  }

  /** No match starts inside an unmarked piece. */
  predicate GapsHaveNoHit(h: seq<Option<nat>>, segs: seq<Seg>) {
    forall i, k :: 0 <= i < |segs| && !segs[i].marked && segs[i].start <= k < segs[i].end && k < |h| ==>
      h[k].None?
  }

  /** Two unmarked pieces are never adjacent. */
  predicate GapsSeparated(segs: seq<Seg>) {
    forall i :: 0 <= i < |segs| - 1 ==> segs[i].marked || segs[i + 1].marked
  }

  /** The pieces cover `[p, |h|)`; marked pieces are matches; no match starts
      inside an unmarked piece; two unmarked pieces are never adjacent. */
  predicate Tiles(h: seq<Option<nat>>, segs: seq<Seg>, p: nat) {
    Contiguous(segs, p, |h|) && MarkedAreHits(h, segs) && GapsHaveNoHit(h, segs) && GapsSeparated(segs)
  }

  lemma {:induction false} ScanTiles(h: seq<Option<nat>>, p: nat)
    requires Advances(h) && p <= |h|
    ensures Tiles(h, ScanFrom(h, p), p)
    decreases |h| - p
  {
    if FirstIn(h, p).Some? {
      var a, e := ScanStep(h, p);
      ScanTiles(h, e);
      var rest := ScanFrom(h, e);
      var head := (if p < a then [Seg(p, a, false)] else []) + [Seg(a, e, true)];
      ContiguousCons(p, a, e, |h|, head, rest);
      MarkedCons(h, a, e, head, rest);
      GapsCons(h, p, a, head, rest);
      SeparatedCons(p, a, e, head, rest);
    }
  }

  lemma ContiguousCons(p: nat, a: nat, e: nat, n: nat, head: seq<Seg>, rest: seq<Seg>)
    requires p <= a < e <= n
    requires head == (if p < a then [Seg(p, a, false)] else []) + [Seg(a, e, true)]
    requires Contiguous(rest, e, n)
    ensures Contiguous(head + rest, p, n)
  {
    var segs := head + rest;
    forall i | 0 <= i < |segs| - 1 ensures segs[i].end == segs[i + 1].start {
      if i >= |head| {
        assert segs[i] == rest[i - |head|] && segs[i + 1] == rest[i - |head| + 1];
      }
    }
  }

  lemma MarkedCons(h: seq<Option<nat>>, a: nat, e: nat, head: seq<Seg>, rest: seq<Seg>)
    requires a < |h| && h[a] == Some(e)
    requires head == [Seg(a, e, true)] || (|head| == 2 && !head[0].marked && head[1] == Seg(a, e, true))
    requires MarkedAreHits(h, rest)
    ensures MarkedAreHits(h, head + rest)
  {
    var segs := head + rest;
    forall i | 0 <= i < |segs| && segs[i].marked ensures segs[i].start < |h| && h[segs[i].start] == Some(segs[i].end) {
      if i >= |head| {
        assert segs[i] == rest[i - |head|];
      }
    }
  }

  lemma GapsCons(h: seq<Option<nat>>, p: nat, a: nat, head: seq<Seg>, rest: seq<Seg>)
    requires forall k :: p <= k < a && k < |h| ==> h[k].None?
    requires |head| > 0 && head[|head| - 1].marked
    requires |head| == 2 ==> head[0] == Seg(p, a, false)
    requires |head| <= 2
    requires GapsHaveNoHit(h, rest)
    ensures GapsHaveNoHit(h, head + rest)
  {
    var segs := head + rest;
    forall i, k | 0 <= i < |segs| && !segs[i].marked && segs[i].start <= k < segs[i].end && k < |h|
      ensures h[k].None?
    {
      if i >= |head| {
        assert segs[i] == rest[i - |head|];
      }
    }
  }

  lemma SeparatedCons(p: nat, a: nat, e: nat, head: seq<Seg>, rest: seq<Seg>)
    requires head == (if p < a then [Seg(p, a, false)] else []) + [Seg(a, e, true)]
    requires GapsSeparated(rest)
    ensures GapsSeparated(head + rest)
  {
    var segs := head + rest;
    forall i | 0 <= i < |segs| - 1 ensures segs[i].marked || segs[i + 1].marked {
      if i >= |head| {
        assert segs[i] == rest[i - |head|] && segs[i + 1] == rest[i - |head| + 1];
      }
    }
  }

  /** No piece starts or ends in the middle of a word. */
  predicate CleanEdges(s: string, segs: seq<Seg>) {
    forall i :: 0 <= i < |segs| ==> NotMidWord(s, segs[i].start) && NotMidWord(s, segs[i].end)
  }

  lemma {:induction false} ScanEdges(h: seq<Option<nat>>, s: string, p: nat)
    requires IsHitTable(h, s) && p <= |h| && NotMidWord(s, p)
    ensures CleanEdges(s, ScanFrom(h, p))
    decreases |h| - p
  {
    if FirstIn(h, p).Some? {
      var a, e := ScanStep(h, p);
      ScanEdges(h, s, e);
      var rest := ScanFrom(h, e);
      var segs := ScanFrom(h, p);
      var head := if p < a then 2 else 1;
      forall i | 0 <= i < |segs| ensures NotMidWord(s, segs[i].start) && NotMidWord(s, segs[i].end) {
        if i >= head {
          assert segs[i] == rest[i - head];
        }
      }
    }
  }

  /** The text of the pieces, one after the other. */
  function Covered(s: string, segs: seq<Seg>): string
    requires forall i :: 0 <= i < |segs| ==> segs[i].start <= segs[i].end <= |s|
  {
    if |segs| == 0 then "" else s[segs[0].start..segs[0].end] + Covered(s, segs[1..])
  }

  /** Contiguous pieces spell out the text they cover. */
  lemma {:induction false} ContiguousCovers(s: string, segs: seq<Seg>, p: nat)
    requires p <= |s| && Contiguous(segs, p, |s|)
    ensures Covered(s, segs) == s[p..]
    decreases |segs|
  {
    if |segs| > 0 {
      var q := segs[0].end;
      var rest := segs[1..];
      assert forall i :: 0 <= i < |rest| - 1 ==> rest[i].end == segs[i + 1].end == segs[i + 2].start;
      assert |rest| > 0 ==> rest[0].start == q;
      ContiguousCovers(s, rest, q);
      assert s[p..] == s[p..q] + s[q..];
    }
  }

  /** The pieces of the scan spell out the text, in order. */
  lemma ScanCovers(mt: Matcher, s: string)
    ensures Contiguous(Scan(mt, s), 0, |s|)
    ensures Covered(s, Scan(mt, s)) == s
  {
    ScanTiles(Hits(mt, s), 0);
    ContiguousCovers(s, Scan(mt, s), 0);
    assert s[0..] == s;
  }

  /** Marked pieces are matches; no match starts inside an unmarked piece;
      unmarked pieces are never adjacent. */
  lemma ScanMatches(mt: Matcher, s: string)
    ensures forall i :: 0 <= i < |Scan(mt, s)| && Scan(mt, s)[i].marked ==>
      Hit(mt, s, Scan(mt, s)[i].start) == Some(Scan(mt, s)[i].end)
    ensures forall i, k ::
      (0 <= i < |Scan(mt, s)| && !Scan(mt, s)[i].marked && Scan(mt, s)[i].start <= k < Scan(mt, s)[i].end) ==>
      Hit(mt, s, k).None?
    ensures GapsSeparated(Scan(mt, s))
  {
    var h := Hits(mt, s);
    ScanTiles(h, 0);
    HitsAt(mt, s);
  }

  /** No piece of the scan cuts a word. */
  lemma ScanClean(mt: Matcher, s: string)
    ensures CleanEdges(s, Scan(mt, s))
  {
    ScanEdges(Hits(mt, s), s, 0);
  }

  lemma SliceOfSlice(s: string, a: nat, b: nat, i: nat, j: nat)
    requires a <= b <= |s| && i <= j <= b - a
    ensures s[a..b][i..j] == s[a + i..a + j]
  {
    assert forall x :: 0 <= x < j - i ==> s[a..b][i..j][x] == s[a + i + x];
  }

  /** A run inside a slice that stops before the slice's end stops at the
      same place in the whole string. */
  lemma {:induction false} RunEndSlice(s: string, a: nat, b: nat, k: nat, P: char -> bool)
    requires a <= b <= |s| && k <= b - a
    requires RunEnd(s[a..b], k, P) < b - a
    ensures RunEnd(s, a + k, P) == a + RunEnd(s[a..b], k, P)
    decreases b - a - k
  {
    var t := s[a..b];
    assert t[k] == s[a + k];
    if P(t[k]) {
      RunEndSlice(s, a, b, k + 1, P);
    }
  }

  /** A word boundary inside a slice is one in the whole string when the
      slice does not cut a word at either end. */
  lemma BoundarySlice(s: string, a: nat, b: nat, j: nat)
    requires a <= b <= |s| && j <= b - a
    requires NotMidWord(s, a) && NotMidWord(s, b)
    requires IsBoundary(s[a..b], j)
    ensures IsBoundary(s, a + j)
  {
    var t := s[a..b];
    if 0 < j {
      assert t[j - 1] == s[a + j - 1];
    }
    if j < b - a {
      assert t[j] == s[a + j];
    }
  }

  lemma TermAtSlice(terms: seq<string>, s: string, a: nat, b: nat, k: nat)
    requires a <= b <= |s| && k < b - a
    requires NotMidWord(s, a) && NotMidWord(s, b)
    requires TermAt(terms, s[a..b], k).Some?
    ensures TermAt(terms, s, a + k).Some?
  {
    var t := s[a..b];
    var w := terms[0];
    if |w| > 0 && CaseOccursAt(t, w, k) && IsBoundary(t, k + |w|) {
      SliceOfSlice(s, a, b, k, k + |w|);
      BoundarySlice(s, a, b, k + |w|);
    } else {
      TermAtSlice(terms[1..], s, a, b, k);
    }
  }

  /** The parts of a repeated-word match at `p`: the word ends at `k`, the
      whitespace after it at `m`. */
  predicate RepeatedWordParts(s: string, p: nat, k: nat, m: nat) {
    && p < k < m && m + (k - p) <= |s|
    && IsBoundary(s, p) && IsBoundary(s, m + (k - p))
    && k == RunEnd(s, p, IsWordChar) && m == RunEnd(s, k, IsSpace)
    && AsciiCaseEq(s[m..m + (k - p)], s[p..k])
  }

  lemma RepeatedWordElim(s: string, p: nat) returns (k: nat, m: nat)
    requires RepeatedWordAt(s, p).Some?
    ensures RepeatedWordParts(s, p, k, m)
  {
    k := RunEnd(s, p, IsWordChar);
    m := RunEnd(s, k, IsSpace);
  }

  lemma RepeatedWordIntro(s: string, p: nat, k: nat, m: nat)
    requires RepeatedWordParts(s, p, k, m)
    ensures RepeatedWordAt(s, p).Some?
  {
    assert IsWordChar(s[p]);
  }

  lemma RepeatedWordSlice(s: string, a: nat, b: nat, k: nat)
    requires a <= b <= |s| && k < b - a
    requires NotMidWord(s, a) && NotMidWord(s, b)
    requires RepeatedWordAt(s[a..b], k).Some?
    ensures RepeatedWordAt(s, a + k).Some?
  {
    var kt, mt := RepeatedWordElim(s[a..b], k);
    PartsSlice(s, a, b, k, kt, mt);
    RepeatedWordIntro(s, a + k, a + kt, a + mt);
  }

  /** The word boundaries of the parts carry over from the slice. */
  lemma PartsBoundaries(s: string, a: nat, b: nat, k: nat, kt: nat, mt: nat)
    requires a <= b <= |s| && NotMidWord(s, a) && NotMidWord(s, b)
    requires RepeatedWordParts(s[a..b], k, kt, mt)
    ensures IsBoundary(s, a + k) && IsBoundary(s, a + mt + (kt - k))
  {
    BoundarySlice(s, a, b, k);
    BoundarySlice(s, a, b, mt + (kt - k));
  }

  /** So do the ends of the word and of the whitespace run. */
  lemma PartsRuns(s: string, a: nat, b: nat, k: nat, kt: nat, mt: nat)
    requires a <= b <= |s| && NotMidWord(s, a) && NotMidWord(s, b)
    requires RepeatedWordParts(s[a..b], k, kt, mt)
    ensures a + kt == RunEnd(s, a + k, IsWordChar) && a + mt == RunEnd(s, a + kt, IsSpace)
  {
    RunEndSlice(s, a, b, k, IsWordChar);
    RunEndSlice(s, a, b, kt, IsSpace);
  }

  /** So does the case-insensitive repetition. */
  lemma PartsCase(s: string, a: nat, b: nat, k: nat, kt: nat, mt: nat)
    requires a <= b <= |s| && NotMidWord(s, a) && NotMidWord(s, b)
    requires RepeatedWordParts(s[a..b], k, kt, mt)
    ensures AsciiCaseEq(s[a + mt..a + mt + (kt - k)], s[a + k..a + kt])
  {
    CaseEqSlice(s, a, b, mt, k, kt - k);
  }

  /** The parts of a repeated word inside a slice that does not cut words
      are parts of the same repeated word in the whole string. */
  lemma PartsSlice(s: string, a: nat, b: nat, k: nat, kt: nat, mt: nat)
    requires a <= b <= |s| && NotMidWord(s, a) && NotMidWord(s, b)
    requires RepeatedWordParts(s[a..b], k, kt, mt)
    ensures RepeatedWordParts(s, a + k, a + kt, a + mt)
  {
    PartsBoundaries(s, a, b, k, kt, mt);
    PartsRuns(s, a, b, k, kt, mt);
    PartsCase(s, a, b, k, kt, mt);
  }

  lemma CaseEqSlice(s: string, a: nat, b: nat, x: nat, y: nat, n: nat)
    requires a <= b <= |s| && x + n <= b - a && y + n <= b - a
    requires AsciiCaseEq(s[a..b][x..x + n], s[a..b][y..y + n])
    ensures AsciiCaseEq(s[a + x..a + x + n], s[a + y..a + y + n])
  {
    var u, v := s[a + x..a + x + n], s[a + y..a + y + n];
    forall i | 0 <= i < n ensures AsciiLower(u[i]) == AsciiLower(v[i]) {
      assert s[a..b][x..x + n][i] == s[a + x + i] == u[i];
      assert s[a..b][y..y + n][i] == s[a + y + i] == v[i];
    }
  }

  lemma LoneISlice(s: string, a: nat, b: nat, k: nat)
    requires a <= b <= |s| && k < b - a
    requires NotMidWord(s, a) && NotMidWord(s, b)
    requires LoneIAt(s[a..b], k).Some?
    ensures LoneIAt(s, a + k).Some?
  {
    BoundarySlice(s, a, b, k);
    BoundarySlice(s, a, b, k + 1);
    assert s[a..b][k] == s[a + k];
  }

  /** A match in a slice that does not cut a word at either end is a match
      at the same place in the whole string. */
  lemma HitSlice(mt: Matcher, s: string, a: nat, b: nat, k: nat)
    requires a <= b <= |s| && k < b - a
    requires NotMidWord(s, a) && NotMidWord(s, b)
    requires Hit(mt, s[a..b], k).Some?
    ensures Hit(mt, s, a + k).Some?
  {
    var t := s[a..b];
    match mt
    case Terms(ts) =>
      BoundarySlice(s, a, b, k);
      TermAtSlice(ts, s, a, b, k);
    case RepeatedWord =>
      RepeatedWordSlice(s, a, b, k);
    case LoneI =>
      LoneISlice(s, a, b, k);
    case DoubleSpace =>
      assert t[k] == s[a + k] && t[k + 1] == s[a + k + 1];
    case Grammar =>
      if RepeatedWordAt(t, k).Some? {
        RepeatedWordSlice(s, a, b, k);
      } else if LoneIAt(t, k).Some? {
        LoneISlice(s, a, b, k);
      } else {
        assert t[k] == s[a + k] && t[k + 1] == s[a + k + 1];
      }
  }


  /** The text of an unmarked piece taken on its own holds no match either:
      its ends never cut a word, so whatever matched inside it alone would
      have matched in the whole text. */
  lemma ScanGapsHaveNoHit(mt: Matcher, s: string, i: nat)
    requires i < |Scan(mt, s)| && !Scan(mt, s)[i].marked
    ensures FirstHit(mt, s[Scan(mt, s)[i].start..Scan(mt, s)[i].end], 0).None?
  {
    ScanMatches(mt, s);
    ScanClean(mt, s);
    GapHasNoHit(mt, s, Scan(mt, s)[i].start, Scan(mt, s)[i].end);
  }

  lemma GapHasNoHit(mt: Matcher, s: string, a: nat, b: nat)
    requires a <= b <= |s| && NotMidWord(s, a) && NotMidWord(s, b)
    requires forall k :: a <= k < b ==> Hit(mt, s, k).None?
    ensures FirstHit(mt, s[a..b], 0).None?
  {
    FirstHitSpec(mt, s[a..b], 0);
    forall k | 0 <= k < b - a ensures Hit(mt, s[a..b], k).None? {
      if Hit(mt, s[a..b], k).Some? {
        HitSlice(mt, s, a, b, k);
      }
    }
  }
}
