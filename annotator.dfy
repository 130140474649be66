/** The two annotation passes `applyGlossary` and `applyGrammar`
    (aiHelpers.ts:86-178): a tree walk that hands every eligible text node
    to a rewrite, which cuts the node's text into plain pieces and
    `<span data-ai-mark=…>` pieces. */
module Annotator {
  import opened Wrappers
  import opened JsText
  import opened Sorting
  import opened Tokenizer
  import opened Keywords
  import opened Patterns
  import opened Dom
  import opened TreeWalk

  /** The rewrite applied to each eligible text node: the glossary pass with
      the terms of its pattern (in pattern order) and the definitions, or the
      grammar pass. */
  datatype Pass = GlossaryPass(terms: seq<string>, defs: map<string, string>) | GrammarPass

  function PassMatcher(pass: Pass): Matcher {
    match pass
    case GlossaryPass(ts, _) => Terms(ts)
    case GrammarPass => Grammar
  }

  /** `glossary.get(match.toLowerCase()) || ""`. */
  function Title(defs: map<string, string>, m: string): string {
    var k := AsciiLowerString(m);
    if k in defs && defs[k] != "" then defs[k] else ""
  }

  /** The span that wraps a match: its class, its `data-ai-mark` and, for a
      glossary term, its title, then the match as its only text. */
  function Span(pass: Pass, m: string): (n: Node)
    ensures n.Element? && n.tag == "span" && Shields(n.tag, n.attrs) && n.children == [Text(m)]
  {
    match pass
    case GlossaryPass(_, defs) =>
      var attrs := [("class", "glossary-term"), ("data-ai-mark", "glossary"), ("title", Title(defs, m))];
      assert attrs[1].0 == "data-ai-mark";
      Element("span", attrs, [Text(m)])
    case GrammarPass =>
      var attrs := [("class", "grammar-underline"), ("data-ai-mark", "grammar")];
      assert attrs[1].0 == "data-ai-mark";
      Element("span", attrs, [Text(m)])
  }

  predicate InBounds(s: string, segs: seq<Seg>) {
    forall i :: 0 <= i < |segs| ==> segs[i].start <= segs[i].end <= |s|
  }

  /** The fragment built from the pieces: a text node for each plain piece,
      a span for each match. */
  function Render(pass: Pass, s: string, segs: seq<Seg>): seq<Node>
    requires InBounds(s, segs)
  {
    if |segs| == 0 then []
    else [Piece(pass, s, segs[0])] + Render(pass, s, segs[1..])
  }

  /** The node for one piece of the text. */
  function Piece(pass: Pass, s: string, g: Seg): Node
    requires g.start <= g.end <= |s|
  {
    var piece := s[g.start..g.end];
    if g.marked then Span(pass, piece) else Text(piece)
  }

  /** What the pass does to the text of an eligible node: nothing when the
      pattern matches nowhere in it, otherwise the fragment that replaces it. */
  function Rewrite(pass: Pass, d: string): Option<seq<Node>> {
    var mt := PassMatcher(pass);
    if FirstHit(mt, d, 0).None? then None else Some(Render(pass, d, Scan(mt, d)))
  }

  lemma {:induction false} RenderAppend(pass: Pass, s: string, x: seq<Seg>, y: seq<Seg>)
    requires InBounds(s, x) && InBounds(s, y)
    ensures InBounds(s, x + y)
    ensures Render(pass, s, x + y) == Render(pass, s, x) + Render(pass, s, y)
    decreases |x|
  {
    InBoundsAppend(s, x, y);
    if |x| == 0 {
      assert x + y == y;
    } else {
      assert (x + y)[1..] == x[1..] + y;
      assert InBounds(s, x[1..]) by {
        assert forall i :: 0 <= i < |x| - 1 ==> x[1..][i] == x[i + 1];
      }
      RenderAppend(pass, s, x[1..], y);
      assert Render(pass, s, x + y) == [Piece(pass, s, x[0])] + Render(pass, s, x[1..] + y) by {
        assert (x + y)[0] == x[0];
      }
    }
  }

  lemma InBoundsAppend(s: string, x: seq<Seg>, y: seq<Seg>)
    requires InBounds(s, x) && InBounds(s, y)
    ensures InBounds(s, x + y)
  {
    forall i | 0 <= i < |x + y| ensures (x + y)[i].start <= (x + y)[i].end <= |s| {
      if i < |x| {
        assert (x + y)[i] == x[i];
      } else {
        assert (x + y)[i] == y[i - |x|];
      }
    }
  }

  /** The fragment holds the text of the pieces, in order. */
  lemma {:induction false} RenderText(pass: Pass, s: string, segs: seq<Seg>)
    requires InBounds(s, segs)
    ensures TextContent(Render(pass, s, segs)) == Covered(s, segs)
    decreases |segs|
  {
    if |segs| > 0 {
      var piece := s[segs[0].start..segs[0].end];
      var head := [if segs[0].marked then Span(pass, piece) else Text(piece)];
      RenderText(pass, s, segs[1..]);
      TextContentAppend(head, Render(pass, s, segs[1..]));
      assert TextContent([Text(piece)]) == piece;
      assert TextContent(head) == piece;
    }
  }

  /** The texts of the plain pieces, in order. */
  function GapTexts(s: string, segs: seq<Seg>): seq<string>
    requires InBounds(s, segs)
  {
    if |segs| == 0 then []
    else (if segs[0].marked then [] else [s[segs[0].start..segs[0].end]]) + GapTexts(s, segs[1..])
  }

  /** Of the fragment, only the plain pieces are eligible for a later pass:
      match text sits inside a span that shields it. */
  lemma {:induction false} RenderEligible(pass: Pass, s: string, segs: seq<Seg>)
    requires InBounds(s, segs)
    ensures Eligible(Render(pass, s, segs), false) == GapTexts(s, segs)
    decreases |segs|
  {
    if |segs| > 0 {
      var piece := s[segs[0].start..segs[0].end];
      var head := [if segs[0].marked then Span(pass, piece) else Text(piece)];
      RenderEligible(pass, s, segs[1..]);
      EligibleAppend(head, Render(pass, s, segs[1..]), false);
      if segs[0].marked {
        BlockedHasNoEligible([Text(piece)]);
        assert Eligible(head, false) == [];
      } else {
        assert Eligible(head, false) == [piece];
      }
    }
  }

  /** A rewritten node's text is spread over the fragment unchanged: outside
      the spans as plain text, inside them as the matched text. */
  lemma RewriteKeepsText(pass: Pass, d: string)
    requires Rewrite(pass, d).Some?
    ensures TextContent(Rewrite(pass, d).value) == d
  {
    var mt := PassMatcher(pass);
    ScanCovers(mt, d);
    RenderText(pass, d, Scan(mt, d));
  }

  /** The fragment piece by piece: each span wraps exactly a match of the
      pattern, and each text piece is text in which no match starts. */
  lemma RewritePieces(pass: Pass, d: string)
    requires Rewrite(pass, d).Some?
    ensures |Rewrite(pass, d).value| == |Scan(PassMatcher(pass), d)|
    ensures forall i :: 0 <= i < |Scan(PassMatcher(pass), d)| ==>
      var g := Scan(PassMatcher(pass), d)[i];
      && (g.marked ==>
            Hit(PassMatcher(pass), d, g.start) == Some(g.end) && Rewrite(pass, d).value[i] == Span(pass, d[g.start..g.end]))
      && (!g.marked ==>
            (forall k :: g.start <= k < g.end ==> Hit(PassMatcher(pass), d, k).None?)
            && Rewrite(pass, d).value[i] == Text(d[g.start..g.end]))
  {
    var mt := PassMatcher(pass);
    var segs := Scan(mt, d);
    ScanMatches(mt, d);
    RenderPieces(pass, d, segs);
  }

  lemma {:induction false} RenderPieces(pass: Pass, s: string, segs: seq<Seg>)
    requires InBounds(s, segs)
    ensures |Render(pass, s, segs)| == |segs|
    ensures forall i :: 0 <= i < |segs| ==>
      Render(pass, s, segs)[i] == if segs[i].marked then Span(pass, s[segs[i].start..segs[i].end]) else Text(s[segs[i].start..segs[i].end])
    decreases |segs|
  {
    if |segs| > 0 {
      RenderPieces(pass, s, segs[1..]);
      var r := Render(pass, s, segs);
      forall i | 1 <= i < |segs|
        ensures r[i] == if segs[i].marked then Span(pass, s[segs[i].start..segs[i].end]) else Text(s[segs[i].start..segs[i].end])
      {
        assert r[i] == Render(pass, s, segs[1..])[i - 1] && segs[1..][i - 1] == segs[i];
      }
    }
  }

  /** No text a rewrite leaves eligible would be rewritten by the same pass:
      a plain piece never cuts a word, so a match inside it alone would have
      been a match in the whole text. */
  lemma RewriteSettles(pass: Pass, d: string)
    requires Rewrite(pass, d).Some?
    ensures forall j :: 0 <= j < |Eligible(Rewrite(pass, d).value, false)| ==>
      Rewrite(pass, Eligible(Rewrite(pass, d).value, false)[j]).None?
  {
    var mt := PassMatcher(pass);
    var segs := Scan(mt, d);
    RenderEligible(pass, d, segs);
    forall i | 0 <= i < |segs| && !segs[i].marked ensures FirstHit(mt, d[segs[i].start..segs[i].end], 0).None? {
      ScanGapsHaveNoHit(mt, d, i);
    }
    GapTextsHaveNoHit(mt, d, segs);
  }

  lemma {:induction false} GapTextsHaveNoHit(mt: Matcher, s: string, segs: seq<Seg>)
    requires InBounds(s, segs)
    requires forall i :: 0 <= i < |segs| && !segs[i].marked ==> FirstHit(mt, s[segs[i].start..segs[i].end], 0).None?
    ensures forall j :: 0 <= j < |GapTexts(s, segs)| ==> FirstHit(mt, GapTexts(s, segs)[j], 0).None?
    decreases |segs|
  {
    if |segs| > 0 {
      assert forall i :: 0 <= i < |segs| - 1 ==> segs[1..][i] == segs[i + 1];
      GapTextsHaveNoHit(mt, s, segs[1..]);
    }
  }

  /** One step of the scan: the pieces from `p` on are the plain text up to
      the next match, the match, then the pieces from the match's end. */
  lemma RenderStep(pass: Pass, s: string, p: nat) returns (a: nat, e: nat)
    requires p <= |s| && FirstHit(PassMatcher(pass), s, p).Some?
    ensures (a, e) == FirstHit(PassMatcher(pass), s, p).value && p <= a < e <= |s|
    ensures
      var h := Hits(PassMatcher(pass), s);
      Render(pass, s, ScanFrom(h, p)) ==
        (if p < a then [Text(s[p..a])] else []) + [Span(pass, s[a..e])] + Render(pass, s, ScanFrom(h, e))
  {
    var h := Hits(PassMatcher(pass), s);
    a, e := RenderTableStep(pass, s, h, p);
  }

  /** `RenderStep` for any table of matches over `s`. */
  lemma RenderTableStep(pass: Pass, s: string, h: seq<Option<nat>>, p: nat) returns (a: nat, e: nat)
    requires |h| == |s| && Advances(h) && p <= |h| && FirstIn(h, p).Some?
    ensures (a, e) == FirstIn(h, p).value && p <= a < e <= |s|
    ensures Render(pass, s, ScanFrom(h, p)) ==
      (if p < a then [Text(s[p..a])] else []) + [Span(pass, s[a..e])] + Render(pass, s, ScanFrom(h, e))
  {
    a, e := ScanStep(h, p);
    var tail := ScanFrom(h, e);
    if p < a {
      RenderGapMatch(pass, s, p, a, e, tail);
    } else {
      RenderCons(pass, s, Seg(a, e, true), tail);
      assert [] + [Seg(a, e, true)] + tail == [Seg(a, e, true)] + tail;
    }
  }

  /** The plain piece before a match, the match, then the rest. */
  lemma RenderGapMatch(pass: Pass, s: string, p: nat, a: nat, e: nat, tail: seq<Seg>)
    requires p < a < e <= |s| && InBounds(s, tail)
    ensures InBounds(s, [Seg(p, a, false)] + [Seg(a, e, true)] + tail)
    ensures Render(pass, s, [Seg(p, a, false)] + [Seg(a, e, true)] + tail) ==
      [Text(s[p..a])] + [Span(pass, s[a..e])] + Render(pass, s, tail)
  {
    var m := Seg(a, e, true);
    var g := Seg(p, a, false);
    RenderCons(pass, s, m, tail);
    RenderCons(pass, s, g, [m] + tail);
    assert [g] + [m] + tail == [g] + ([m] + tail);
  }

  /** The node for the first piece, then the nodes for the rest. */
  lemma RenderCons(pass: Pass, s: string, g: Seg, rest: seq<Seg>)
    requires g.start <= g.end <= |s| && InBounds(s, rest)
    ensures InBounds(s, [g] + rest)
    ensures Render(pass, s, [g] + rest) == [Piece(pass, s, g)] + Render(pass, s, rest)
  {
    assert ([g] + rest)[0] == g && ([g] + rest)[1..] == rest;
    forall i | 0 <= i < |[g] + rest| ensures ([g] + rest)[i].start <= ([g] + rest)[i].end <= |s| {
      if i > 0 {
        assert ([g] + rest)[i] == rest[i - 1];
      }
    }
  }

  /** The end of the scan: with no match from `p` on, the rest is one plain piece. */
  lemma RenderLast(pass: Pass, s: string, p: nat)
    requires p <= |s| && FirstHit(PassMatcher(pass), s, p).None?
    ensures Render(pass, s, ScanFrom(Hits(PassMatcher(pass), s), p)) == if p < |s| then [Text(s[p..])] else []
  {
    var h := Hits(PassMatcher(pass), s);
    assert FirstIn(h, p).None?;
    if p < |s| {
      var x := Seg(p, |s|, false);
      assert ScanFrom(h, p) == [x];
      assert [x][1..] == [];
      assert Render(pass, s, [x]) == [Text(s[p..|s|])] + Render(pass, s, []);
      assert s[p..|s|] == s[p..];
    } else {
      assert ScanFrom(h, p) == [];
    }
  }

  /** `frag` holds the pieces before `p`: what the pieces from `p` on
      render to completes it to the whole fragment. */
  ghost predicate Built(pass: Pass, text: string, frag: seq<Node>, p: nat)
    requires p <= |text|
  {
    var h := Hits(PassMatcher(pass), text);
    frag + Render(pass, text, ScanFrom(h, p)) == Render(pass, text, Scan(PassMatcher(pass), text))
  }

  /** Appending the text before the next match and the span for it, then
      resuming at the match's end, keeps the fragment on track. */
  lemma BuiltStep(pass: Pass, text: string, frag: seq<Node>, p: nat)
    requires p <= |text| && Built(pass, text, frag, p) && FirstHit(PassMatcher(pass), text, p).Some?
    ensures
      var (a, e) := FirstHit(PassMatcher(pass), text, p).value;
      p <= a < e <= |text| &&
      Built(pass, text, (if p < a then frag + [Text(text[p..a])] else frag) + [Span(pass, text[a..e])], e)
  {
    var a, e := RenderStep(pass, text, p);
    var h := Hits(PassMatcher(pass), text);
    var front: seq<Node> := if p < a then [Text(text[p..a])] else [];
    assert (if p < a then frag + [Text(text[p..a])] else frag) == frag + front;
    Regroup(frag, front, Span(pass, text[a..e]), Render(pass, text, ScanFrom(h, e)));
  }

  lemma Regroup(frag: seq<Node>, front: seq<Node>, x: Node, rest: seq<Node>)
    ensures frag + (front + [x] + rest) == frag + front + [x] + rest
  {
  }

  /** Nothing is built yet at the start of the text. */
  lemma BuiltStart(pass: Pass, text: string)
    ensures Built(pass, text, [], 0)
  {
    assert [] + Render(pass, text, Scan(PassMatcher(pass), text)) == Render(pass, text, Scan(PassMatcher(pass), text));
  }

  /** A text the pattern matches somewhere is replaced by the whole fragment. */
  lemma RewriteBuilt(pass: Pass, text: string, frag: seq<Node>)
    requires FirstHit(PassMatcher(pass), text, 0).Some?
    requires frag == Render(pass, text, Scan(PassMatcher(pass), text))
    ensures Rewrite(pass, text) == Some(frag)
  {
  }

  /** With no match left, the rest of the text (if any) closes the fragment. */
  lemma BuiltLast(pass: Pass, text: string, frag: seq<Node>, p: nat)
    requires p <= |text| && Built(pass, text, frag, p) && FirstHit(PassMatcher(pass), text, p).None?
    ensures (if p < |text| then frag + [Text(text[p..])] else frag) == Render(pass, text, Scan(PassMatcher(pass), text))
  {
    RenderLast(pass, text, p);
    assert frag + [] == frag;
  }

  /** The callback of `applyGlossary` for one text node (aiHelpers.ts:107-125):
      `regex.test` first, then `replace` with a callback that appends the
      text before each match and a span for the match. */
  method GlossaryNode(terms: seq<string>, defs: map<string, string>, text: string) returns (f: Option<seq<Node>>)
    ensures f == Rewrite(GlossaryPass(terms, defs), text)
  {
    var pass := GlossaryPass(terms, defs);
    var mt := Terms(terms);
    var next := FirstHit(mt, text, 0);
    if next.None? {
      return None;
    }
    var frag: seq<Node> := [];
    var lastIndex := 0;
    BuiltStart(pass, text);
    while next.Some?
      invariant lastIndex <= |text| && Built(pass, text, frag, lastIndex)
      invariant next == FirstHit(mt, text, lastIndex)
      decreases |text| - lastIndex
    {
      var offset, end := next.value.0, next.value.1;
      BuiltStep(pass, text, frag, lastIndex);
      var before := text[lastIndex..offset];
      assert before != "" <==> lastIndex < offset;
      if before != "" {
        frag := frag + [Text(before)];
      }
      frag := frag + [Span(pass, text[offset..end])];
      lastIndex := end;
      next := FirstHit(mt, text, lastIndex);
    }
    BuiltLast(pass, text, frag, lastIndex);
    var after := text[lastIndex..];
    assert after != "" <==> lastIndex < |text|;
    if after != "" {
      frag := frag + [Text(after)];
    }
    RewriteBuilt(pass, text, frag);
    return Some(frag);
  }

  /** The three grammar patterns in the order the loop tries them. */
  const GrammarPatterns: seq<Matcher> := [RepeatedWord, LoneI, DoubleSpace]

  /** `m.index < earliest.start`: a later pattern replaces the earliest match
      so far only when it starts strictly before it. */
  function Pick(best: Option<(nat, nat)>, m: Option<(nat, nat)>): Option<(nat, nat)> {
    if m.Some? && (best.None? || m.value.0 < best.value.0) then m else best
  }

  /** The earliest match at or after `q` over the patterns, starting from `best`. */
  function Earliest(ms: seq<Matcher>, s: string, q: nat, best: Option<(nat, nat)>): Option<(nat, nat)>
    requires q <= |s|
    decreases |ms|
  {
    if |ms| == 0 then best else Earliest(ms[1..], s, q, Pick(best, FirstHit(ms[0], s, q)))
  }

  /** A position where a matcher matches, with no match before it from `q`
      on, is what `exec` from `q` finds. */
  lemma FirstHitIs(mt: Matcher, s: string, q: nat, a: nat)
    requires q <= a < |s| && Hit(mt, s, a).Some?
    requires forall k :: q <= k < a ==> Hit(mt, s, k).None?
    ensures FirstHit(mt, s, q) == Some((a, Hit(mt, s, a).value))
  {
    FirstHitSpec(mt, s, q);
  }

  /** Picking the earliest of three tables' first matches, the first table
      on a tie, finds the first match of the table that takes the first
      table's match at each position, else the second's, else the third's. */
  lemma EarliestOfThree(h1: seq<Option<nat>>, h2: seq<Option<nat>>, h3: seq<Option<nat>>, g: seq<Option<nat>>, q: nat)
    requires |h1| == |h2| == |h3| == |g| && q <= |g|
    requires forall k :: 0 <= k < |g| ==> g[k] == if h1[k].Some? then h1[k] else if h2[k].Some? then h2[k] else h3[k]
    ensures Pick(Pick(Pick(None, FirstIn(h1, q)), FirstIn(h2, q)), FirstIn(h3, q)) == FirstIn(g, q)
  {
    var r := FirstIn(g, q);
    if r.None? {
      assert forall k :: q <= k < |g| ==> h1[k].None? && h2[k].None? && h3[k].None?;
    } else {
      var a := r.value.0;
      assert forall k :: q <= k < a ==> h1[k].None? && h2[k].None? && h3[k].None?;
      FirstInFrom(h1, q, a);
      FirstInFrom(h2, q, a);
      FirstInFrom(h3, q, a);
    }
  }

  /** Where a table's first match from `q` lies, seen from a position `a`
      not preceded by any match. */
  lemma FirstInFrom(h: seq<Option<nat>>, q: nat, a: nat)
    requires q <= a < |h| && forall k :: q <= k < a ==> h[k].None?
    ensures h[a].Some? ==> FirstIn(h, q) == Some((a, h[a].value))
    ensures h[a].None? ==> FirstIn(h, q).None? || FirstIn(h, q).value.0 > a
  {
  }

  /** At each position the grammar matcher is the three patterns tried in order. */
  lemma GrammarTable(s: string)
    ensures forall k :: 0 <= k < |s| ==>
      Hits(Grammar, s)[k] ==
        if Hits(RepeatedWord, s)[k].Some? then Hits(RepeatedWord, s)[k]
        else if Hits(LoneI, s)[k].Some? then Hits(LoneI, s)[k]
        else Hits(DoubleSpace, s)[k]
  {
    HitsAt(Grammar, s);
    HitsAt(RepeatedWord, s);
    HitsAt(LoneI, s);
    HitsAt(DoubleSpace, s);
  }

  /** The earliest of the three grammar patterns, the first in pattern order
      on a tie, is the first match of the combined grammar matcher. */
  lemma GrammarEarliest(s: string, q: nat)
    requires q <= |s|
    ensures Earliest(GrammarPatterns, s, q, None) == FirstHit(Grammar, s, q)
  {
    assert GrammarPatterns[1..] == [LoneI, DoubleSpace] && GrammarPatterns[1..][1..] == [DoubleSpace];
    assert Earliest(GrammarPatterns, s, q, None) ==
      Pick(Pick(Pick(None, FirstHit(RepeatedWord, s, q)), FirstHit(LoneI, s, q)), FirstHit(DoubleSpace, s, q));
    GrammarTable(s);
    EarliestOfThree(Hits(RepeatedWord, s), Hits(LoneI, s), Hits(DoubleSpace, s), Hits(Grammar, s), q);
  }

  /** The `for` loop over the patterns (aiHelpers.ts:149-156): each is run
      with `lastIndex = idx` and replaces the match so far only when it starts
      strictly earlier; `-1` stands for no match. */
  method EarliestMatch(text: string, idx: nat) returns (start: int, end: int)
    requires idx <= |text|
    ensures start == -1 <==> FirstHit(Grammar, text, idx).None?
    ensures start != -1 ==> 0 <= start <= end && FirstHit(Grammar, text, idx) == Some((start as nat, end as nat))
  {
    start, end := -1, -1;
    for j := 0 to |GrammarPatterns|
      invariant start == -1 ==> Earliest(GrammarPatterns, text, idx, None) == Earliest(GrammarPatterns[j..], text, idx, None)
      invariant start != -1 ==>
        0 <= start <= end && Earliest(GrammarPatterns, text, idx, None) == Earliest(GrammarPatterns[j..], text, idx, Some((start as nat, end as nat)))
    {
      var m := FirstHit(GrammarPatterns[j], text, idx);
      assert GrammarPatterns[j..][1..] == GrammarPatterns[j + 1..];
      if m.Some? && (start == -1 || m.value.0 < start) {
        start, end := m.value.0, m.value.1;
      }
    }
    GrammarEarliest(text, idx);
  }

  /** The callback of `applyGrammar` for one text node (aiHelpers.ts:143-174):
      from `idx`, each pattern is tried with `lastIndex = idx`, the earliest
      match wins, the text before it and a span for it are appended and the
      scan resumes at its end; the node is replaced only if something matched. */
  method GrammarNode(text: string) returns (f: Option<seq<Node>>)
    ensures f == Rewrite(GrammarPass, text)
  {
    var pass := GrammarPass;
    var changed := false;
    var frag: seq<Node> := [];
    var idx := 0;
    BuiltStart(pass, text);
    while idx < |text|
      invariant idx <= |text| && Built(pass, text, frag, idx)
      invariant changed <==> idx > 0
      invariant changed ==> FirstHit(Grammar, text, 0).Some?
      decreases |text| - idx
    {
      var start, end := EarliestMatch(text, idx);
      if start == -1 {
        BuiltLast(pass, text, frag, idx);
        frag := frag + [Text(text[idx..])];
        break;
      }
      BuiltStep(pass, text, frag, idx);
      if start > idx {
        frag := frag + [Text(text[idx..start])];
      }
      frag := frag + [Span(pass, text[start..end])];
      idx := end;
      changed := true;
    }
    if idx == |text| {
      BuiltLast(pass, text, frag, idx);
    }
    if changed {
      return Some(frag);
    }
    return None;
  }

  /** The callback of either pass. */
  method RewriteNode(pass: Pass, text: string) returns (f: Option<seq<Node>>)
    ensures f == Rewrite(pass, text)
  {
    match pass {
      case GlossaryPass(ts, defs) => f := GlossaryNode(ts, defs, text);
      case GrammarPass => f := GrammarNode(text);
    }
  }

  /** The callback of a pass as the rewrite the walk applies. */
  function RewriteFn(pass: Pass): string -> Option<seq<Node>> {
    d => Rewrite(pass, d)
  }

  /** `walkTextNodes` over the children of a container, changing the list as
      the callback's `replaceWith` does. */
  method WalkTextNodes(nodes: seq<Node>, blocked: bool, pass: Pass) returns (r: seq<Node>, done: bool)
    ensures (r, done) == Walk(nodes, blocked, RewriteFn(pass))
    decreases nodes, 1
  {
    ghost var rw := RewriteFn(pass);
    ghost var w := Walk(nodes, blocked, rw);
    var i := 0;
    assert nodes[..0] == [] && nodes[0..] == nodes;
    while i < |nodes|
      invariant i <= |nodes|
      invariant w.0 == nodes[..i] + Walk(nodes[i..], blocked, rw).0
      invariant w.1 == Walk(nodes[i..], blocked, rw).1
      decreases |nodes| - i
    {
      var inner := WalkNode(nodes, i, blocked, pass);
      WalkRest(nodes, i, blocked, rw);
      if inner.Some? {
        return nodes[..i] + inner.value + nodes[i + 1..], true;
      }
      i := i + 1;
    }
    assert nodes[..i] + [] == nodes;
    return nodes, false;
  }

  /** What the walk does at `nodes[i]`: the callback's fragment for an
      eligible text node, the element with its rewritten children when the
      walk below it replaced a node, or `None` to move on. */
  method WalkNode(nodes: seq<Node>, i: nat, blocked: bool, pass: Pass) returns (inner: Option<seq<Node>>)
    requires i < |nodes|
    ensures inner == HeadRewrite(nodes[i], blocked, RewriteFn(pass))
    decreases nodes, 0
  {
    inner := None;
    match nodes[i] {
      case Text(d) =>
        if !blocked {
          inner := RewriteNode(pass, d);
        }
      case Comment(_) =>
      case Element(tag, attrs, ch) =>
        var ch', stop := WalkTextNodes(ch, blocked || Shields(tag, attrs), pass);
        if stop {
          inner := Some([Element(tag, attrs, ch')]);
        }
    }
  }

  /** One step of the walk along `nodes`, from position `i`. */
  lemma WalkRest(nodes: seq<Node>, i: nat, blocked: bool, rw: string -> Option<seq<Node>>)
    requires i < |nodes|
    ensures HeadRewrite(nodes[i], blocked, rw).Some? ==>
      nodes[..i] + Walk(nodes[i..], blocked, rw).0 == nodes[..i] + HeadRewrite(nodes[i], blocked, rw).value + nodes[i + 1..]
    ensures HeadRewrite(nodes[i], blocked, rw).Some? ==> Walk(nodes[i..], blocked, rw).1
    ensures HeadRewrite(nodes[i], blocked, rw).None? ==>
      nodes[..i] + Walk(nodes[i..], blocked, rw).0 == nodes[..i + 1] + Walk(nodes[i + 1..], blocked, rw).0
    ensures HeadRewrite(nodes[i], blocked, rw).None? ==>
      Walk(nodes[i..], blocked, rw).1 == Walk(nodes[i + 1..], blocked, rw).1
  {
    assert nodes[i..][0] == nodes[i] && nodes[i..][1..] == nodes[i + 1..];
    WalkUnfold(nodes[i..], blocked, rw);
    assert nodes[..i + 1] == nodes[..i] + [nodes[i]];
  }


  /** Both passes rewrite without changing the text, and leave nothing
      their own pattern would match again outside the spans. */
  lemma PassRewrites(pass: Pass)
    ensures KeepsText(RewriteFn(pass))
    ensures Settles(RewriteFn(pass))
  {
    var rw := RewriteFn(pass);
    forall d | rw(d).Some? ensures TextContent(rw(d).value) == d {
      RewriteKeepsText(pass, d);
    }
    forall d, j | rw(d).Some? && 0 <= j < |Eligible(rw(d).value, false)|
      ensures rw(Eligible(rw(d).value, false)[j]).None?
    {
      RewriteSettles(pass, d);
    }
  }

  /** A glossary span's title: the matched text in lower case is one of the
      terms, and the title is that term's definition. A term made of
      lower-case letters, digits and apostrophes only matches ASCII
      characters, on which `toLowerCase` is the ASCII mapping. */
  lemma {:induction false} TitleOfMatch(terms: seq<string>, defs: map<string, string>, s: string, p: nat)
    requires forall t :: t in terms ==> IsToken(t) && t in defs
    requires TermAt(terms, s, p).Some?
    ensures AsciiLowerString(s[p..TermAt(terms, s, p).value]) in terms
    ensures Title(defs, s[p..TermAt(terms, s, p).value]) == defs[AsciiLowerString(s[p..TermAt(terms, s, p).value])]
    decreases |terms|
  {
    var t := terms[0];
    if |t| > 0 && CaseOccursAt(s, t, p) && IsBoundary(s, p + |t|) {
      LowerOfMatch(s[p..p + |t|], t);
    } else {
      assert forall u :: u in terms[1..] ==> u in terms;
      TitleOfMatch(terms[1..], defs, s, p);
    }
  }

  /** Text equal to a token up to ASCII case is that token once lower-cased. */
  lemma LowerOfMatch(m: string, t: string)
    requires AsciiCaseEq(m, t) && IsToken(t)
    ensures AsciiLowerString(m) == t
  {
    forall i | 0 <= i < |t| ensures AsciiLowerString(m)[i] == t[i] {
      assert AsciiLower(m[i]) == AsciiLower(t[i]);
      assert t[i] in t;
    }
  }

  /** Every span the glossary pass makes wraps a text whose lower case is a
      term, and carries that term's definition as its title. */
  lemma GlossarySpans(terms: seq<string>, defs: map<string, string>, d: string)
    requires forall t :: t in terms ==> IsToken(t) && t in defs
    requires Rewrite(GlossaryPass(terms, defs), d).Some?
    ensures forall i :: (0 <= i < |Rewrite(GlossaryPass(terms, defs), d).value| &&
      Rewrite(GlossaryPass(terms, defs), d).value[i].Element?) ==>
        var n := Rewrite(GlossaryPass(terms, defs), d).value[i];
        && |n.children| == 1 && n.children[0].Text?
        && AsciiLowerString(n.children[0].data) in terms
        && n.attrs == [("class", "glossary-term"), ("data-ai-mark", "glossary"),
                       ("title", defs[AsciiLowerString(n.children[0].data)])]
  {
    var pass := GlossaryPass(terms, defs);
    var f := Rewrite(pass, d).value;
    var segs := Scan(Terms(terms), d);
    RewritePieces(pass, d);
    forall i | 0 <= i < |f| && f[i].Element?
      ensures |f[i].children| == 1 && f[i].children[0].Text?
      ensures AsciiLowerString(f[i].children[0].data) in terms
      ensures f[i].attrs == [("class", "glossary-term"), ("data-ai-mark", "glossary"),
                             ("title", defs[AsciiLowerString(f[i].children[0].data)])]
    {
      var g := segs[i];
      assert g.marked;
      TitleOfMatch(terms, defs, d, g.start);
    }
  }

  /** `(a, b) => b.length - a.length` as "sorts before": the longer term. */
  function Longer(): (string, string) -> bool {
    (a: string, b: string) => |a| > |b|
  }

  lemma LongerOrder()
    ensures StrictWeakOrder(Longer())
  {
  }

  /** `terms.map((t) => escapeRegExp(t))`, with the intended escape. */
  function EscapeAll(ts: seq<string>): (r: seq<string>)
    ensures |r| == |ts| && forall i :: 0 <= i < |ts| ==> r[i] == EscapeMeta(ts[i])
  {
    seq(|ts|, i requires 0 <= i < |ts| => EscapeMeta(ts[i]))
  }

  /** The strings the alternatives of a pattern match literally: each
      escaped metacharacter stands for itself. */
  function Alternatives(escaped: seq<string>): (r: seq<string>)
    ensures |r| == |escaped| && forall i :: 0 <= i < |escaped| ==> r[i] == Unescape(escaped[i])
  {
    seq(|escaped|, i requires 0 <= i < |escaped| => Unescape(escaped[i]))
  }

  /** An alternative built with the intended escape matches its term and
      nothing else: the escaped terms, read as a pattern, are the terms. */
  lemma AlternativesOfEscaped(ts: seq<string>)
    ensures Alternatives(EscapeAll(ts)) == ts
  {
    forall i | 0 <= i < |ts| ensures Alternatives(EscapeAll(ts))[i] == ts[i] {
      UnescapeEscapeMeta(ts[i]);
    }
  }

  /** The glossary pass of `applyGlossary` (aiHelpers.ts:103-104): the map's
      keys sorted longest first, each matched literally as an alternative of
      the pattern, and the map for the titles. */
  function GlossaryPassOf(g: Glossary): Pass {
    GlossaryPass(SortDesc(g.terms, Longer()), g.defs)
  }

  /** The children of the container after `applyGlossary(html, glossary)`. */
  function Glossed(nodes: seq<Node>, g: Glossary): seq<Node> {
    if |g.terms| == 0 then nodes else Walk(nodes, false, RewriteFn(GlossaryPassOf(g))).0
  }

  /** `applyGlossary` (aiHelpers.ts:98-129) on the parsed children of the container. */
  method ApplyGlossary(nodes: seq<Node>, g: Glossary) returns (r: seq<Node>)
    ensures r == Glossed(nodes, g)
  {
    if |g.terms| == 0 {
      return nodes;
    }
    var terms := SortDesc(g.terms, Longer());
    var pattern := EscapeAll(terms);
    AlternativesOfEscaped(terms);
    var pass := GlossaryPass(Alternatives(pattern), g.defs);
    var done;
    r, done := WalkTextNodes(nodes, false, pass);
  }

  /** The children of the container after `applyGrammar(html)`. */
  function Corrected(nodes: seq<Node>): seq<Node> {
    Walk(nodes, false, RewriteFn(GrammarPass)).0
  }

  /** `applyGrammar` (aiHelpers.ts:131-178) on the parsed children of the container. */
  method ApplyGrammar(nodes: seq<Node>) returns (r: seq<Node>)
    ensures r == Corrected(nodes)
  {
    var done;
    r, done := WalkTextNodes(nodes, false, GrammarPass);
  }

  /** The alternatives of the glossary pattern: a permutation of the map's
      keys, longest first, keys of equal length in insertion order. */
  lemma PatternTerms(g: Glossary)
    ensures GlossaryPassOf(g).terms == SortDesc(g.terms, Longer())
    ensures multiset(GlossaryPassOf(g).terms) == multiset(g.terms)
    ensures forall i, j :: 0 <= i < j < |GlossaryPassOf(g).terms| ==>
      |GlossaryPassOf(g).terms[j]| <= |GlossaryPassOf(g).terms[i]|
    ensures forall x :: Tied(GlossaryPassOf(g).terms, x, Longer()) == Tied(g.terms, x, Longer())
  {
    var sorted := SortDesc(g.terms, Longer());
    LongerOrder();
    SortDescDescending(g.terms, Longer());
    forall x ensures Tied(sorted, x, Longer()) == Tied(g.terms, x, Longer()) {
      SortDescStable(g.terms, x, Longer());
    }
  }

  /** `applyGlossary` with an empty map returns its input; otherwise it is
      one walk of the glossary pass: the first eligible text with a match is
      replaced and nothing else, text below `code`, `pre` or an earlier mark
      is never touched, the text of the tree is unchanged, and one text fewer
      has a match. */
  lemma GlossedProperties(nodes: seq<Node>, g: Glossary)
    ensures |g.terms| == 0 ==> Glossed(nodes, g) == nodes
    ensures |g.terms| > 0 ==>
      && WalkSpec(nodes, false, RewriteFn(GlossaryPassOf(g)))
      && Glossed(nodes, g) == Walk(nodes, false, RewriteFn(GlossaryPassOf(g))).0
    ensures TextContent(Glossed(nodes, g)) == TextContent(nodes)
    ensures |g.terms| > 0 && Walk(nodes, false, RewriteFn(GlossaryPassOf(g))).1 ==>
      var rw := RewriteFn(GlossaryPassOf(g));
      RewritableCount(rw, Eligible(Glossed(nodes, g), false)) + 1 == RewritableCount(rw, Eligible(nodes, false))
  {
    if |g.terms| > 0 {
      var rw := RewriteFn(GlossaryPassOf(g));
      PassRewrites(GlossaryPassOf(g));
      WalkEffect(nodes, false, rw);
      WalkKeepsText(nodes, false, rw);
      WalkProgress(nodes, false, rw);
    }
  }

  /** `applyGrammar` is one walk of the grammar pass, with the same
      guarantees. */
  lemma CorrectedProperties(nodes: seq<Node>)
    ensures WalkSpec(nodes, false, RewriteFn(GrammarPass))
    ensures TextContent(Corrected(nodes)) == TextContent(nodes)
    ensures Walk(nodes, false, RewriteFn(GrammarPass)).1 ==>
      var rw := RewriteFn(GrammarPass);
      RewritableCount(rw, Eligible(Corrected(nodes), false)) + 1 == RewritableCount(rw, Eligible(nodes, false))
  {
    var rw := RewriteFn(GrammarPass);
    PassRewrites(GrammarPass);
    WalkEffect(nodes, false, rw);
    WalkKeepsText(nodes, false, rw);
    WalkProgress(nodes, false, rw);
  }

  /** The glossary of the whole note, as `applyAI` builds it
      (EditorArea.tsx:38-47, with the default limit 8). */
  function NoteGlossary(nodes: seq<Node>): Glossary {
    GlossaryFor(TextContent(nodes), 8)
  }

  /** The note body after `applyAI`. */
  function Annotated(nodes: seq<Node>): seq<Node> {
    Corrected(Glossed(nodes, NoteGlossary(nodes)))
  }

  /** `applyAI` (EditorArea.tsx:38-47): plain text, glossary, glossary pass,
      grammar pass. */
  method ApplyAI(nodes: seq<Node>) returns (r: seq<Node>)
    requires forall t :: t in KeywordCandidates(Tokenize(TextContent(nodes)), 4) ==> OrdinaryKey(t)
    ensures r == Annotated(nodes)
  {
    var text := TextContent(nodes);
    var g := BuildGlossary(text, 8);
    var withGloss := ApplyGlossary(nodes, g);
    r := ApplyGrammar(withGloss);
  }

  /** The glossary pattern of a glossary built from tokens: the terms
      longest first, each a token of the map with its definition. */
  lemma TokenPattern(g: Glossary)
    requires forall t :: t in g.terms ==> IsToken(t) && t in g.defs && g.defs[t] == Definition(t)
    ensures GlossaryPassOf(g).terms == SortDesc(g.terms, Longer())
    ensures forall t :: t in GlossaryPassOf(g).terms ==>
      IsToken(t) && t in g.defs && g.defs[t] == Definition(t)
  {
    PatternTerms(g);
    forall t | t in GlossaryPassOf(g).terms ensures t in g.terms {
      assert t in multiset(g.terms);
    }
  }

  /** Annotating never changes the text of the note, and the glossary
      pattern is the note's glossary terms, longest first, each of which
      carries its definition into the titles. */
  lemma AnnotatedProperties(nodes: seq<Node>)
    ensures TextContent(Annotated(nodes)) == TextContent(nodes)
    ensures GlossaryPassOf(NoteGlossary(nodes)).terms == SortDesc(NoteGlossary(nodes).terms, Longer())
    ensures forall t :: t in GlossaryPassOf(NoteGlossary(nodes)).terms ==>
      IsToken(t) && t in NoteGlossary(nodes).defs && NoteGlossary(nodes).defs[t] == Definition(t)
  {
    AnnotatedKeepsText(nodes);
    NotePattern(nodes);
  }

  lemma AnnotatedKeepsText(nodes: seq<Node>)
    ensures TextContent(Annotated(nodes)) == TextContent(nodes)
  {
    var g := NoteGlossary(nodes);
    GlossedProperties(nodes, g);
    CorrectedProperties(Glossed(nodes, g));
  }

  lemma NotePattern(nodes: seq<Node>)
    ensures GlossaryPassOf(NoteGlossary(nodes)).terms == SortDesc(NoteGlossary(nodes).terms, Longer())
    ensures forall t :: t in GlossaryPassOf(NoteGlossary(nodes)).terms ==>
      IsToken(t) && t in NoteGlossary(nodes).defs && NoteGlossary(nodes).defs[t] == Definition(t)
  {
    var g := NoteGlossary(nodes);
    GlossaryProperties(TextContent(nodes), 8);
    TokenPattern(g);
  }
}
