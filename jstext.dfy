/** Character classes, trimming, joining, splitting and comparison of strings
    as JavaScript defines them. A string is a sequence of Unicode scalar
    values; none of the patterns below matches a UTF-16 surrogate, so the
    results agree with the UTF-16 strings of the source. */
module JsText {

  /** `\s` of an ECMAScript regular expression, which is also the set that
      `String.prototype.trim` removes: WhiteSpace and LineTerminator. */
  predicate IsSpace(c: char) {
    || c == '\t' || c == '\n' || c == '\U{000B}' || c == '\U{000C}' || c == '\r'
    || c == ' ' || c == '\U{00A0}' || c == '\U{1680}' || ('\U{2000}' <= c <= '\U{200A}')
    || c == '\U{2028}' || c == '\U{2029}' || c == '\U{202F}' || c == '\U{205F}'
    || c == '\U{3000}' || c == '\U{FEFF}'
  }

  /** `\w` of an ECMAScript regular expression without the `u` flag. */
  predicate IsWordChar(c: char) {
    'a' <= c <= 'z' || 'A' <= c <= 'Z' || '0' <= c <= '9' || c == '_'
  }

  /** Whether position `k` of `s` holds a word character (false outside `s`). */
  predicate IsWordAt(s: string, k: int) {
    0 <= k < |s| && IsWordChar(s[k])
  }

  /** `\b` at position `k`: exactly one of the characters around `k` is a word character. */
  predicate IsBoundary(s: string, k: int) {
    IsWordAt(s, k - 1) != IsWordAt(s, k)
  }

  /** Position `k` does not split a word in two. */
  predicate NotMidWord(s: string, k: int) {
    !(IsWordAt(s, k - 1) && IsWordAt(s, k))
  }

  function AsciiLower(c: char): (r: char)
    ensures 'A' <= c <= 'Z' ==> 'a' <= r <= 'z'
    ensures !('A' <= c <= 'Z') ==> r == c
  {
    if 'A' <= c <= 'Z' then (c as int + 32) as char else c
  }

  function AsciiLowerString(s: string): (r: string)
    ensures |r| == |s|
    ensures forall i :: 0 <= i < |s| ==> r[i] == AsciiLower(s[i])
  {
    seq(|s|, i requires 0 <= i < |s| => AsciiLower(s[i]))
  }

  /** Equality ignoring ASCII case: what the `i` flag of a regular expression
      without the `u` flag does to ASCII letters (no other character has a
      case partner under that flag's canonicalisation that is ASCII). */
  predicate AsciiCaseEq(a: string, b: string) {
    |a| == |b| && forall i :: 0 <= i < |a| ==> AsciiLower(a[i]) == AsciiLower(b[i])
  }

  predicate IsBlank(s: string) {
    forall i :: 0 <= i < |s| ==> IsSpace(s[i])
  }

  /** The end of the run of characters satisfying `p` that starts at `k`. */
  function RunEnd(s: string, k: nat, p: char -> bool): (e: nat)
    requires k <= |s|
    ensures k <= e <= |s|
    ensures forall i :: k <= i < e ==> p(s[i])
    ensures e == |s| || !p(s[e])
    decreases |s| - k
  {
    if k < |s| && p(s[k]) then RunEnd(s, k + 1, p) else k
  }

  function TrimStart(s: string): (r: string)
    ensures |r| <= |s| && r == s[|s| - |r|..]
    ensures forall i :: 0 <= i < |s| - |r| ==> IsSpace(s[i])
    ensures r == "" || !IsSpace(r[0])
  {
    if |s| > 0 && IsSpace(s[0]) then TrimStart(s[1..]) else s
  }

  function TrimEnd(s: string): (r: string)
    ensures |r| <= |s| && r == s[..|r|]
    ensures forall i :: |r| <= i < |s| ==> IsSpace(s[i])
    ensures r == "" || !IsSpace(r[|r| - 1])
  {
    if |s| > 0 && IsSpace(s[|s| - 1]) then TrimEnd(s[..|s| - 1]) else s
  }

  /** `String.prototype.trim`. */
  function Trim(s: string): (r: string)
    ensures r == "" <==> IsBlank(s)
    ensures r == "" || (!IsSpace(r[0]) && !IsSpace(r[|r| - 1]))
    ensures forall c :: c in r ==> c in s
  {
    var t := TrimStart(s);
    var r := TrimEnd(t);
    assert forall c :: c in r ==> c in t;
    assert forall c :: c in t ==> c in s;
    if r == "" then
      r
    else
      assert !IsBlank(s) by { assert r[0] == s[|s| - |t|]; }
      r
  }

  /** A trimmed string has nothing left to trim. */
  lemma TrimIdempotent(s: string)
    ensures Trim(Trim(s)) == Trim(s)
  {
    var r := Trim(s);
    if r != "" {
      assert TrimStart(r) == r;
      assert TrimEnd(r) == r;
    }
  }

  /** `Array.prototype.join(sep)`. */
  function Join(parts: seq<string>, sep: string): (r: string)
    ensures |parts| == 1 ==> r == parts[0]
  {
    if |parts| == 0 then ""
    else if |parts| == 1 then parts[0]
    else parts[0] + sep + Join(parts[1..], sep)
  }

  /** `String.prototype.includes`. */
  predicate Contains(s: string, sub: string) {
    exists i :: 0 <= i <= |s| - |sub| && OccursAt(s, sub, i)
  }

  predicate OccursAt(s: string, sub: string, i: int) {
    0 <= i <= |s| - |sub| && s[i..i + |sub|] == sub
  }

  /** `a > b` on strings: lexicographic order of code points (the source's
      timestamps are ASCII, where this agrees with UTF-16 code-unit order). */
  predicate StrGreater(a: string, b: string) {
    |a| > 0 && (|b| == 0 || a[0] > b[0] || (a[0] == b[0] && StrGreater(a[1..], b[1..])))
  }

  lemma {:induction false} StrGreaterAsymmetric(a: string, b: string)
    ensures StrGreater(a, b) ==> !StrGreater(b, a)
  {
    if |a| > 0 && |b| > 0 && a[0] == b[0] {
      StrGreaterAsymmetric(a[1..], b[1..]);
    }
  }

  lemma {:induction false} StrGreaterTransitive(a: string, b: string, c: string)
    ensures StrGreater(a, b) && StrGreater(b, c) ==> StrGreater(a, c)
  {
    if |a| > 0 && |b| > 0 && |c| > 0 && a[0] == b[0] == c[0] {
      StrGreaterTransitive(a[1..], b[1..], c[1..]);
    }
  }

  lemma {:induction false} StrGreaterTotal(a: string, b: string)
    ensures a == b || StrGreater(a, b) || StrGreater(b, a)
  {
    if |a| > 0 && |b| > 0 && a[0] == b[0] {
      StrGreaterTotal(a[1..], b[1..]);
      if a[1..] == b[1..] {
        assert a == [a[0]] + a[1..] && b == [b[0]] + b[1..];
      }
    }
  }

  /** Not being greater is transitive: with asymmetry, `StrGreater` is a
      strict weak order. */
  lemma StrNotGreaterTransitive(a: string, b: string, c: string)
    ensures !StrGreater(a, b) && !StrGreater(b, c) ==> !StrGreater(a, c)
  {
    StrGreaterTotal(a, b);
    StrGreaterTotal(b, c);
    StrGreaterTransitive(c, b, a);
    StrGreaterAsymmetric(a, c);
  }

  /** The loop of `String.prototype.split` with a regular expression
      (RegExp.prototype[@@split] in ECMA-262) for a separator that never
      matches the empty string. `sep(s, q)` is the end of the separator match
      that starts at `q`, or `q` itself when none starts there. The piece
      being collected starts at `p`; `q` is the next position tried. */
  function SplitFrom(s: string, sep: (string, nat) -> nat, p: nat, q: nat): (r: seq<string>)
    requires p <= q <= |s|
    ensures |r| >= 1
    decreases |s| - q
  {
    if q == |s| then [s[p..]]
    else
      var e := sep(s, q);
      if q < e <= |s| then [s[p..q]] + SplitFrom(s, sep, e, e)
      else SplitFrom(s, sep, p, q + 1)
  }

  function Split(s: string, sep: (string, nat) -> nat): seq<string> {
    SplitFrom(s, sep, 0, 0)
  }

  /** A string in which no separator starts is one piece. */
  lemma {:induction false} SplitWithoutSeparator(s: string, sep: (string, nat) -> nat, p: nat, q: nat)
    requires p <= q <= |s|
    requires forall k :: q <= k < |s| ==> !(k < sep(s, k) <= |s|)
    ensures SplitFrom(s, sep, p, q) == [s[p..]]
    decreases |s| - q
  {
    if q < |s| {
      SplitWithoutSeparator(s, sep, p, q + 1);
    }
  }

  /** When every character satisfying `bad` starts a separator, no piece
      contains such a character. */
  lemma {:induction false} SplitAvoids(s: string, sep: (string, nat) -> nat, bad: char -> bool, p: nat, q: nat)
    requires p <= q <= |s|
    requires forall k :: p <= k < q ==> !bad(s[k])
    requires forall k :: q <= k < |s| && bad(s[k]) ==> k < sep(s, k) <= |s|
    ensures forall i, c :: 0 <= i < |SplitFrom(s, sep, p, q)| && c in SplitFrom(s, sep, p, q)[i] ==> !bad(c)
    decreases |s| - q
  {
    var r := SplitFrom(s, sep, p, q);
    if q == |s| {
      assert forall c :: c in s[p..] ==> !bad(c);
    } else {
      var e := sep(s, q);
      if q < e <= |s| {
        SplitAvoids(s, sep, bad, e, e);
        assert forall c :: c in s[p..q] ==> !bad(c);
        assert r == [s[p..q]] + SplitFrom(s, sep, e, e);
      } else {
        SplitAvoids(s, sep, bad, p, q + 1);
      }
    }
  }

  /** A run that starts inside the second part of a concatenation ends where
      it ends in that part. */
  lemma {:induction false} RunEndShift(x: string, y: string, k: nat, p: char -> bool)
    requires k <= |y|
    ensures RunEnd(x + y, |x| + k, p) == |x| + RunEnd(y, k, p)
    decreases |y| - k
  {
    if k < |y| {
      assert (x + y)[|x| + k] == y[k];
      if p(y[k]) {
        RunEndShift(x, y, k + 1, p);
      }
    }
  }

  /** A separator that only looks forward splits the second part of a
      concatenation as it splits that part alone. */
  lemma {:induction false} SplitShift(x: string, y: string, sep: (string, nat) -> nat, p: nat, q: nat)
    requires p <= q <= |y|
    requires forall k :: 0 <= k < |y| ==> sep(x + y, |x| + k) == |x| + sep(y, k)
    ensures SplitFrom(x + y, sep, |x| + p, |x| + q) == SplitFrom(y, sep, p, q)
    decreases |y| - q
  {
    var s := x + y;
    if q == |y| {
      assert s[|x| + p..] == y[p..];
    } else {
      var e := sep(y, q);
      assert sep(s, |x| + q) == |x| + e;
      if q < e <= |y| {
        assert s[|x| + p..|x| + q] == y[p..q];
        SplitShift(x, y, sep, e, e);
      } else {
        SplitShift(x, y, sep, p, q + 1);
      }
    }
  }

  /** The scan passes over positions where no separator starts. */
  lemma {:induction false} SplitSkip(s: string, sep: (string, nat) -> nat, p: nat, q: nat, q': nat)
    requires p <= q <= q' <= |s|
    requires forall k :: q <= k < q' ==> !(k < sep(s, k) <= |s|)
    ensures SplitFrom(s, sep, p, q) == SplitFrom(s, sep, p, q')
    decreases q' - q
  {
    if q < q' {
      SplitSkip(s, sep, p, q + 1, q');
    }
  }

  /** A character that no separator swallows lies in some piece: when every
      separator match consists of `consumed` characters only, a character at
      or after the start of the current piece that is not `consumed` ends up
      in one of the pieces. */
  lemma {:induction false} SplitCovers(s: string, sep: (string, nat) -> nat, consumed: char -> bool, p: nat, q: nat, k: nat)
    requires p <= q <= |s| && p <= k < |s| && !consumed(s[k])
    requires forall j, i :: q <= j <= i < sep(s, j) <= |s| ==> consumed(s[i])
    ensures exists i :: 0 <= i < |SplitFrom(s, sep, p, q)| && s[k] in SplitFrom(s, sep, p, q)[i]
    decreases |s| - q
  {
    var r := SplitFrom(s, sep, p, q);
    if q == |s| {
      assert s[p..][k - p] == s[k];
      assert s[k] in r[0];
    } else {
      var e := sep(s, q);
      if q < e <= |s| {
        if k < q {
          assert s[p..q][k - p] == s[k];
          assert s[k] in r[0];
        } else {
          assert !(k < e);
          SplitCovers(s, sep, consumed, e, e, k);
          var i :| 0 <= i < |SplitFrom(s, sep, e, e)| && s[k] in SplitFrom(s, sep, e, e)[i];
          assert r == [s[p..q]] + SplitFrom(s, sep, e, e);
          assert s[k] in r[i + 1];
        }
      } else {
        SplitCovers(s, sep, consumed, p, q + 1, k);
      }
    }
  }

  /** `parts.map((x) => x.trim())`. */
  function TrimAll(parts: seq<string>): (r: seq<string>)
    ensures |r| == |parts| && forall i :: 0 <= i < |parts| ==> r[i] == Trim(parts[i])
  {
    seq(|parts|, i requires 0 <= i < |parts| => Trim(parts[i]))
  }

  /** `filter((x) => x.length > 0)`, or `filter(Boolean)` on strings. */
  function NonEmpty(xs: seq<string>): (r: seq<string>)
    ensures |r| <= |xs|
    ensures forall i :: 0 <= i < |r| ==> r[i] != "" && r[i] in xs
  {
    if |xs| == 0 then [] else (if xs[0] == "" then [] else [xs[0]]) + NonEmpty(xs[1..])
  }

  /** Nothing is kept exactly when every string is empty. */
  lemma {:induction false} NonEmptyNone(xs: seq<string>)
    ensures NonEmpty(xs) == [] <==> forall j :: 0 <= j < |xs| ==> xs[j] == ""
  {
    if |xs| > 0 {
      NonEmptyNone(xs[1..]);
      assert forall j :: 1 <= j < |xs| ==> xs[j] == xs[1..][j - 1];
    }
  }

  /** The trimmed pieces, in order, leaving out those that trim to nothing. */
  function TrimmedPieces(parts: seq<string>): seq<string> {
    NonEmpty(TrimAll(parts))
  }

  /** Every kept piece is non-empty, has nothing left to trim and is the
      trimmed form of one of the parts; nothing is kept exactly when every
      part is blank. */
  lemma TrimmedPiecesProperties(parts: seq<string>)
    ensures |TrimmedPieces(parts)| <= |parts|
    ensures forall i :: 0 <= i < |TrimmedPieces(parts)| ==>
      TrimmedPieces(parts)[i] != "" && Trim(TrimmedPieces(parts)[i]) == TrimmedPieces(parts)[i]
    ensures forall i :: 0 <= i < |TrimmedPieces(parts)| ==>
      exists j :: 0 <= j < |parts| && TrimmedPieces(parts)[i] == Trim(parts[j])
    ensures TrimmedPieces(parts) == [] <==> forall j :: 0 <= j < |parts| ==> IsBlank(parts[j])
  {
    var t := TrimAll(parts);
    var r := TrimmedPieces(parts);
    forall i | 0 <= i < |r|
      ensures Trim(r[i]) == r[i] && exists j :: 0 <= j < |parts| && r[i] == Trim(parts[j])
    {
      var j :| 0 <= j < |t| && t[j] == r[i];
      TrimIdempotent(parts[j]);
    }
    NonEmptyNone(t);
  }
}
