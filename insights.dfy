/** The insights panel (InsightsPanel.tsx): the key points it cuts out of a
    summary and its generate handler. */
module Insights {
  import opened Wrappers
  import opened JsText
  import opened Sorting

  /** The class `[â€¢\n\.-]` as written: U+00E2, U+20AC, U+00A2 (the bullet
      sign read as Windows-1252 text), line feed, `.` and `-`. */
  predicate IsBulletMark(c: char) {
    c == '\U{00E2}' || c == '\U{20AC}' || c == '\U{00A2}' || c == '\n' || c == '.' || c == '-'
  }

  /** The separator `/[â€¢\n\.-]+\s*` tried at `q`: a whole run of marks,
      then a whole run of whitespace (both quantifiers are greedy and the
      second can always match). */
  function BulletSep(s: string, q: nat): nat {
    if q < |s| && IsBulletMark(s[q]) then RunEnd(s, RunEnd(s, q, IsBulletMark), IsSpace) else q
  }

  /** The at most five key points of a summary. */
  function Bullets(summary: string): seq<string> {
    Take(TrimmedPieces(Split(summary, BulletSep)), 5)
  }

  /** A separator match is marks and whitespace only. */
  predicate IsMarkOrSpace(c: char) {
    IsBulletMark(c) || IsSpace(c)
  }

  lemma SepConsumes(s: string)
    ensures forall j, i :: 0 <= j <= i < BulletSep(s, j) <= |s| ==> IsMarkOrSpace(s[i])
  {
    forall j, i | 0 <= j <= i < BulletSep(s, j) <= |s| ensures IsMarkOrSpace(s[i]) {
      var m := RunEnd(s, j, IsBulletMark);
      if i >= m {
        assert IsSpace(s[i]);
      }
    }
  }

  /** When every character of the summary that `bad` holds for is a mark,
      no key point holds such a character. */
  lemma BulletsAvoid(summary: string, bad: char -> bool)
    requires forall k :: 0 <= k < |summary| && bad(summary[k]) ==> IsBulletMark(summary[k])
    ensures forall i, c :: 0 <= i < |Bullets(summary)| && c in Bullets(summary)[i] ==> !bad(c)
  {
    var parts := Split(summary, BulletSep);
    var all := TrimmedPieces(parts);
    TrimmedPiecesProperties(parts);
    SplitAvoids(summary, BulletSep, bad, 0, 0);
    forall i, c | 0 <= i < |Bullets(summary)| && c in Bullets(summary)[i] ensures !bad(c) {
      assert Bullets(summary)[i] == all[i];
      var j :| 0 <= j < |parts| && all[i] == Trim(parts[j]);
    }
  }

  /** Five key points, or all pieces when there are fewer, each non-empty, with nothing left to trim
      and without a mark, in the order of the summary: the first of all its
      trimmed non-empty pieces. */
  lemma BulletsProperties(summary: string)
    ensures |Bullets(summary)| == if |TrimmedPieces(Split(summary, BulletSep))| < 5
      then |TrimmedPieces(Split(summary, BulletSep))| else 5
    ensures Bullets(summary) == TrimmedPieces(Split(summary, BulletSep))[..|Bullets(summary)|]
    ensures forall i :: 0 <= i < |Bullets(summary)| ==>
      Bullets(summary)[i] != "" && Trim(Bullets(summary)[i]) == Bullets(summary)[i]
    ensures forall i, c :: 0 <= i < |Bullets(summary)| && c in Bullets(summary)[i] ==> !IsBulletMark(c)
  {
    TrimmedPiecesProperties(Split(summary, BulletSep));
    var marks: char -> bool := IsBulletMark;
    BulletsAvoid(summary, marks);
    forall i, c | 0 <= i < |Bullets(summary)| && c in Bullets(summary)[i] ensures !IsBulletMark(c) {
      assert !marks(c);
    }
  }

  /** A character that is neither a mark nor whitespace shows up in a key
      point, so there is none exactly when the summary holds nothing else. */
  lemma BulletsNone(summary: string)
    ensures Bullets(summary) == [] <==> forall k :: 0 <= k < |summary| ==> IsMarkOrSpace(summary[k])
  {
    var parts := Split(summary, BulletSep);
    var all := TrimmedPieces(parts);
    TrimmedPiecesProperties(parts);
    if Bullets(summary) != [] {
      BulletShowsContent(summary);
    }
    if exists k :: 0 <= k < |summary| && !IsMarkOrSpace(summary[k]) {
      var k :| 0 <= k < |summary| && !IsMarkOrSpace(summary[k]);
      SepConsumes(summary);
      SplitCovers(summary, BulletSep, IsMarkOrSpace, 0, 0, k);
      var j :| 0 <= j < |parts| && summary[k] in parts[j];
      assert !IsBlank(parts[j]) by {
        var m :| 0 <= m < |parts[j]| && parts[j][m] == summary[k];
      }
      assert all != [];
    }
  }

  /** The first key point starts with a character of the summary that is
      neither a mark nor whitespace. */
  lemma BulletShowsContent(summary: string)
    requires Bullets(summary) != []
    ensures exists k :: 0 <= k < |summary| && !IsMarkOrSpace(summary[k])
  {
    var b := Bullets(summary)[0];
    BulletsProperties(summary);
    var inText: char -> bool := (c: char) => c !in summary;
    BulletsAvoid(summary, inText);
    assert !inText(b[0]) by {
      assert b[0] in b;
    }
    var k :| 0 <= k < |summary| && summary[k] == b[0];
    assert !IsBulletMark(b[0]) by {
      assert b[0] in b;
    }
    assert !IsSpace(b[0]);
  }

  /** The panel's state. */
  class InsightsPanel {
    var loading: bool
    var summary: string
    var bullets: seq<string>

    constructor()
      ensures !loading && summary == "" && bullets == []
    {
      loading := false;
      summary := "";
      bullets := [];
    }

    /** The Generate button is disabled while generating or for blank text
        (nothing but whitespace). */
    function GenerateDisabled(text: string): (r: bool)
      reads this
      ensures r <==> loading || IsBlank(text)
    {
      loading || Trim(text) == ""
    }

    /** A click on the Generate button: a disabled button does nothing;
        an enabled one runs `handleGenerate`. */
    method Generate(text: string, outcome: Option<string>) returns (generated: Option<(string, seq<string>)>)
      modifies this
      ensures old(GenerateDisabled(text)) ==>
        loading == old(loading) && summary == old(summary) && bullets == old(bullets) && generated == None
      ensures !old(GenerateDisabled(text)) && outcome.None? ==>
        !loading && summary == old(summary) && bullets == old(bullets) && generated == None
      ensures !old(GenerateDisabled(text)) && outcome.Some? ==>
        && !loading && summary == outcome.value && bullets == Bullets(outcome.value)
        && generated == Some((summary, bullets))
    {
      if GenerateDisabled(text) {
        return None;
      }
      generated := HandleGenerate(outcome);
    }

    /** `handleGenerate`, with the awaited result of `summarize(text)` as
        `outcome` (`None` when it rejects). On success the summary is kept
        unmodified, its key points are stored, and both are what
        `onGenerate` receives (`generated`); `loading` is false at the end
        either way. */
    method HandleGenerate(outcome: Option<string>) returns (generated: Option<(string, seq<string>)>)
      modifies this
      ensures !loading
      ensures outcome.None? ==> summary == old(summary) && bullets == old(bullets) && generated == None
      ensures outcome.Some? ==>
        && summary == outcome.value && bullets == Bullets(outcome.value)
        && generated == Some((summary, bullets))
    {
      loading := true;
      generated := None;
      if outcome.Some? {
        var s := outcome.value;
        var pts := Bullets(s);
        summary := s;
        bullets := pts;
        generated := Some((s, pts));
      }
      loading := false;
    }
  }
}
