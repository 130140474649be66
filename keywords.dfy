/** Tag suggestion and glossary building: frequency-ranked top-N content
    words, and a fixed table of definitions for glossary terms. */
module Keywords {
  import opened JsText
  import opened Tokenizer
  import opened Frequency
  import opened Sorting

  /** The value of a string of decimal digits. */
  function DecimalValue(t: string): nat
    requires forall i :: 0 <= i < |t| ==> '0' <= t[i] <= '9'
  {
    if |t| == 0 then 0
    else
      10 * DecimalValue(t[..|t| - 1]) + (t[|t| - 1] as int - '0' as int)
  }

  /** A canonical array index (`"0"` to `"4294967294"`, no leading zero):
      `Object.entries` lists such keys first, in numeric order. */
  predicate IsArrayIndex(t: string) {
    && |t| > 0
    && (forall i :: 0 <= i < |t| ==> '0' <= t[i] <= '9')
    && (t == "0" || t[0] != '0')
    && DecimalValue(t) < 0xFFFF_FFFF
  }

  /** A key that a plain object stores as an own property in insertion order
      (`"constructor"` would first read the inherited `Object.prototype.constructor`). */
  predicate OrdinaryKey(t: string) {
    t != "constructor" && !IsArrayIndex(t)
  }

  /** The tags `suggestTags(text, count)` returns. */
  function Tags(text: string, count: nat): seq<string> {
    TopKeys(KeywordCandidates(Tokenize(text), 3), count)
  }

  /** `suggestTags` (aiHelpers.ts:47-55). */
  method SuggestTags(text: string, count: nat) returns (tags: seq<string>)
    requires forall t :: t in KeywordCandidates(Tokenize(text), 3) ==> OrdinaryKey(t)
    ensures tags == Tags(text, count)
  {
    var tokens := KeywordCandidates(Tokenize(text), 3);
    var freq := CountFrequencies(tokens);
    TallyCounts(tokens);
    tags := Keys(Take(SortDesc(Entries(freq), ByCount()), count));
  }

  /** At most `count` distinct tags, each a token of the text longer than
      three characters that is not a stopword. How they are ranked is
      `TopKeysOrder` and `TopKeysComplete` over the candidate tokens. */
  lemma TagsSound(text: string, count: nat)
    ensures |Tags(text, count)| <= count && Distinct(Tags(text, count))
    ensures forall t :: t in Tags(text, count) ==>
      IsToken(t) && |t| > 3 && t !in Stopwords && t in Tokenize(text)
  {
    var ts := KeywordCandidates(Tokenize(text), 3);
    TopKeysSound(ts, count);
  }

  /** `BUILTIN_DEFS` (aiHelpers.ts:57-67). */
  const BuiltinDefs: map<string, string> := map[
    "javascript" := "A high-level, interpreted programming language for the web.",
    "react" := "A JavaScript library for building user interfaces.",
    "typescript" := "A superset of JavaScript that adds static types.",
    "algorithm" := "A step-by-step procedure to solve a problem.",
    "database" := "An organized collection of structured information or data.",
    "api" := "A set of definitions and protocols for building and integrating software.",
    "component" := "A reusable piece of UI that encapsulates structure and behavior.",
    "asynchronous" := "Operations that occur independently of the main program flow.",
    "promise" := "An object representing the eventual completion or failure of an async operation."
  ]

  /** ``BUILTIN_DEFS[t] || `No definition available for “${t}” yet.` `` */
  function Definition(t: string): string {
    if t in BuiltinDefs then BuiltinDefs[t]
    else "No definition available for \U{201C}" + t + "\U{201D} yet."
  }

  /** A JavaScript `Map` from terms to definitions: keys in insertion order. */
  datatype Glossary = Glossary(terms: seq<string>, defs: map<string, string>)

  const NoGlossary := Glossary([], map[])

  /** `map.set(k, v)`: a new key goes last, an existing one keeps its place. */
  function Set(g: Glossary, k: string, v: string): Glossary {
    Glossary(if k in g.defs then g.terms else g.terms + [k], g.defs[k := v])
  }

  /** The map after `top.forEach((t) => map.set(t, def(t)))`. */
  function Defined(top: seq<string>, def: string -> string): Glossary {
    if |top| == 0 then NoGlossary
    else Set(Defined(top[..|top| - 1], def), top[|top| - 1], def(top[|top| - 1]))
  }

  /** The map `buildGlossary(text, limit)` returns. */
  function GlossaryFor(text: string, limit: nat): Glossary {
    Defined(TopKeys(KeywordCandidates(Tokenize(text), 4), limit), Definition)
  }

  /** `buildGlossary` (aiHelpers.ts:69-84). */
  method BuildGlossary(text: string, limit: nat) returns (g: Glossary)
    requires forall t :: t in KeywordCandidates(Tokenize(text), 4) ==> OrdinaryKey(t)
    ensures g == GlossaryFor(text, limit)
  {
    var tokens := KeywordCandidates(Tokenize(text), 4);
    var freq := CountFrequencies(tokens);
    TallyCounts(tokens);
    var top := Keys(Take(SortDesc(Entries(freq), ByCount()), limit));
    g := DefineAll(top);
  }

  /** The `forEach` loop of `buildGlossary` (aiHelpers.ts:78-82). */
  method DefineAll(top: seq<string>) returns (g: Glossary)
    ensures g == Defined(top, Definition)
  {
    g := NoGlossary;
    var i := 0;
    while i < |top|
      invariant 0 <= i <= |top|
      invariant g == Defined(top[..i], Definition)
    {
      assert top[..i + 1][..i] == top[..i];
      g := Set(g, top[i], Definition(top[i]));
      i := i + 1;
    }
    assert top[..i] == top;
  }

  /** Setting each of a list of distinct terms once lists them in that order,
      each with its definition. */
  lemma {:induction false} DefinedTerms(top: seq<string>, def: string -> string)
    requires Distinct(top)
    ensures Defined(top, def).terms == top
    ensures forall t :: t in Defined(top, def).defs <==> t in top
    ensures forall t :: t in Defined(top, def).defs ==> Defined(top, def).defs[t] == def(t)
  {
    if |top| > 0 {
      var front, last := top[..|top| - 1], top[|top| - 1];
      DistinctFront(top);
      DefinedTerms(front, def);
      DefinedLast(front, last, def);
      assert top == front + [last];
    }
  }

  /** One more distinct term is appended with its definition. */
  lemma DefinedLast(front: seq<string>, last: string, def: string -> string)
    requires last !in front
    requires Defined(front, def).terms == front
    requires forall t :: t in Defined(front, def).defs <==> t in front
    requires forall t :: t in Defined(front, def).defs ==> Defined(front, def).defs[t] == def(t)
    ensures Defined(front + [last], def).terms == front + [last]
    ensures forall t :: t in Defined(front + [last], def).defs <==> t in front + [last]
    ensures forall t :: t in Defined(front + [last], def).defs ==> Defined(front + [last], def).defs[t] == def(t)
  {
    var top := front + [last];
    assert top[..|top| - 1] == front;
    var g, d := Defined(front, def), def(last);
    assert Defined(top, def) == Set(g, last, d);
    SetFresh(g, last, d);
  }

  /** Dropping the last of distinct elements leaves distinct elements
      without it. */
  lemma DistinctFront<T>(s: seq<T>)
    requires |s| > 0 && Distinct(s)
    ensures Distinct(s[..|s| - 1]) && s[|s| - 1] !in s[..|s| - 1]
  {
    var front := s[..|s| - 1];
    forall i | 0 <= i < |front| ensures front[i] != s[|s| - 1] {
      assert front[i] == s[i];
    }
  }

  /** Setting a new key appends it and maps it to its value, leaving the
      other keys as they were. */
  lemma SetFresh(g: Glossary, k: string, v: string)
    requires k !in g.defs
    ensures Set(g, k, v).terms == g.terms + [k]
    ensures forall t :: t in Set(g, k, v).defs <==> t in g.defs || t == k
    ensures forall t :: t in Set(g, k, v).defs ==> Set(g, k, v).defs[t] == if t == k then v else g.defs[t]
  {
  }

  /** At most `limit` terms, each a token of the text longer than four
      characters that is not a stopword, each mapped to its built-in
      definition or the fallback sentence; so "api", being shorter, never
      gets its built-in definition used. */
  lemma GlossaryProperties(text: string, limit: nat)
    ensures |GlossaryFor(text, limit).terms| <= limit
    ensures Distinct(GlossaryFor(text, limit).terms)
    ensures forall t :: t in GlossaryFor(text, limit).defs <==> t in GlossaryFor(text, limit).terms
    ensures forall t :: t in GlossaryFor(text, limit).defs ==>
      && IsToken(t) && |t| > 4 && t !in Stopwords && t in Tokenize(text)
      && GlossaryFor(text, limit).defs[t] == Definition(t)
    ensures "api" !in GlossaryFor(text, limit).defs
  {
    var ts := KeywordCandidates(Tokenize(text), 4);
    var g := GlossaryFor(text, limit);
    TopGlossary(ts, limit, Definition);
    forall t | t in g.defs ensures IsToken(t) && |t| > 4 && t !in Stopwords && t in Tokenize(text) {
      var i :| 0 <= i < |ts| && ts[i] == t;
    }
    assert |"api"| == 3;
  }

  /** The glossary of the top `limit` keys of `ts`: distinct terms of `ts`,
      each with its definition. */
  lemma TopGlossary(ts: seq<string>, limit: nat, def: string -> string)
    ensures |Defined(TopKeys(ts, limit), def).terms| <= limit
    ensures Distinct(Defined(TopKeys(ts, limit), def).terms)
    ensures forall t :: t in Defined(TopKeys(ts, limit), def).defs <==> t in Defined(TopKeys(ts, limit), def).terms
    ensures forall t :: t in Defined(TopKeys(ts, limit), def).defs ==>
      t in ts && Defined(TopKeys(ts, limit), def).defs[t] == def(t)
  {
    TopKeysSound(ts, limit);
    DefinedTerms(TopKeys(ts, limit), def);
  }

  /** A character of the class `[.*+?^${}()|[\\]` in the escaping pattern. */
  predicate IsEscapeClassChar(c: char) {
    c in ".*+?^${}()|[\\"
  }

  /** `escapeRegExp` as written (aiHelpers.ts:180-182): the class closes
      after the backslash, so the pattern matches a class character followed
      by a literal backslash and `]`, and only such triples get a backslash
      in front. */
  function EscapeRegExp(s: string): string
    decreases |s|
  {
    if |s| == 0 then ""
    else if |s| >= 3 && IsEscapeClassChar(s[0]) && s[1] == '\\' && s[2] == ']' then
      "\\" + s[..3] + EscapeRegExp(s[3..])
    else [s[0]] + EscapeRegExp(s[1..])
  }

  /** Without a backslash nothing matches, so the string comes back unchanged;
      in particular every token is its own escape. */
  lemma {:induction false} EscapeRegExpIdentity(s: string)
    requires '\\' !in s
    ensures EscapeRegExp(s) == s
  {
    if |s| > 0 {
      assert |s| >= 3 ==> s[1] in s;
      assert forall c :: c in s[1..] ==> c in s;
      EscapeRegExpIdentity(s[1..]);
      assert s == [s[0]] + s[1..];
    }
  }

  /** A real metacharacter alone is left as it is. */
  lemma EscapeRegExpLeavesDot()
    ensures EscapeRegExp("a.b") == "a.b"
  {
  }

  /** A character the evidently intended class `[.*+?^${}()|[\]\\]` holds:
      every regular-expression metacharacter, `]` and the backslash included. */
  predicate IsMeta(c: char) {
    || c == '.' || c == '*' || c == '+' || c == '?' || c == '^' || c == '$' || c == '{'
    || c == '}' || c == '(' || c == ')' || c == '|' || c == '[' || c == ']' || c == '\\'
  }

  /** The intended `escapeRegExp`: a backslash before every metacharacter. */
  function EscapeMeta(s: string): (r: string)
    ensures |r| >= |s|
    decreases |s|
  {
    if |s| == 0 then ""
    else (if IsMeta(s[0]) then "\\" + [s[0]] else [s[0]]) + EscapeMeta(s[1..])
  }

  /** What a regular expression reads an escaped string as: a backslash
      stands for the character after it. */
  function Unescape(e: string): string
    decreases |e|
  {
    if |e| == 0 then ""
    else if e[0] == '\\' && |e| >= 2 then [e[1]] + Unescape(e[2..])
    else [e[0]] + Unescape(e[1..])
  }

  lemma UnescapeEscaped(c: char, rest: string)
    ensures Unescape(['\\', c] + rest) == [c] + Unescape(rest)
  {
    assert (['\\', c] + rest)[2..] == rest;
  }

  lemma UnescapePlain(c: char, rest: string)
    requires c != '\\'
    ensures Unescape([c] + rest) == [c] + Unescape(rest)
  {
    assert ([c] + rest)[1..] == rest;
  }

  /** The escaped string stands for the string itself. */
  lemma {:induction false} UnescapeEscapeMeta(s: string)
    ensures Unescape(EscapeMeta(s)) == s
    decreases |s|
  {
    if |s| > 0 {
      var c, tail := s[0], s[1..];
      var rest := EscapeMeta(tail);
      UnescapeEscapeMeta(tail);
      EscapeMetaHead(s);
      if IsMeta(c) {
        UnescapeEscaped(c, rest);
      } else {
        UnescapePlain(c, rest);
      }
      assert s == [c] + tail;
    }
  }

  lemma EscapeMetaHead(s: string)
    requires |s| > 0
    ensures EscapeMeta(s) == (if IsMeta(s[0]) then ['\\', s[0]] else [s[0]]) + EscapeMeta(s[1..])
  {
  }

  /** Without metacharacters (every token) there is nothing to escape. */
  lemma {:induction false} EscapeMetaIdentity(s: string)
    requires forall c :: c in s ==> !IsMeta(c)
    ensures EscapeMeta(s) == s
    decreases |s|
  {
    if |s| > 0 {
      assert s[0] in s;
      assert forall c :: c in s[1..] ==> c in s;
      EscapeMetaIdentity(s[1..]);
      assert s == [s[0]] + s[1..];
    }
  }

  /** The intended escape does escape a dot. */
  lemma EscapeMetaDot()
    ensures EscapeMeta("a.b") == "a\\.b"
  {
    assert EscapeMeta("b") == "b";
    assert EscapeMeta(".b") == "\\.b";
  }

  /** On a token, which holds no metacharacter and no backslash, the escape
      as written and the intended one both give the token back. */
  lemma EscapeAgreesOnTokens(t: string)
    requires IsToken(t)
    ensures EscapeRegExp(t) == t && EscapeMeta(t) == t
  {
    EscapeRegExpIdentity(t);
    EscapeMetaIdentity(t);
  }
}
