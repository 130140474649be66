/** The translate dialog (TranslateDialog.tsx): the plain text it turns into
    paragraphs, when its buttons are enabled, and its translate handler. */
module Translate {
  import opened Wrappers
  import opened JsText

  datatype TargetLang = Es | Fr | De | Hi | Ar

  /** `LANG_LABEL`. */
  function LangLabel(l: TargetLang): string {
    match l
    case Es => "Spanish"
    case Fr => "French"
    case De => "German"
    case Hi => "Hindi"
    case Ar => "Arabic"
  }

  /** Each target language has a label of its own, so the selector tells
      them apart. */
  lemma LabelsDistinct(a: TargetLang, b: TargetLang)
    ensures LangLabel(a) == LangLabel(b) <==> a == b
  {
  }

  /** The separator `/\n+/` tried at `q`: a whole run of line feeds. */
  function NewlineSep(s: string, q: nat): nat {
    if q < |s| && s[q] == '\n' then RunEnd(s, q, IsNewline) else q
  }

  predicate IsNewline(c: char) {
    c == '\n'
  }

  /** `text.split(/\n+/).map((l) => l.trim()).filter(Boolean)`. */
  function Lines(text: string): seq<string> {
    TrimmedPieces(Split(text, NewlineSep))
  }

  function Paragraph(line: string): string {
    "<p>" + line + "</p>"
  }

  function Paragraphs(lines: seq<string>): (r: seq<string>)
    ensures |r| == |lines| && forall i :: 0 <= i < |lines| ==> r[i] == Paragraph(lines[i])
  {
    seq(|lines|, i requires 0 <= i < |lines| => Paragraph(lines[i]))
  }

  /** `textToHtml`: one paragraph per line, joined with nothing between;
      the line text goes in verbatim, without escaping. */
  function TextToHtml(text: string): string {
    Join(Paragraphs(Lines(text)), "")
  }

  /** Reads a run of `<p>…</p>` paragraphs back, each paragraph ending at
      the first `<` after its opening tag. */
  function Unwrap(html: string): Option<seq<string>>
    decreases |html|
  {
    if html == "" then Some([])
    else if |html| < 3 || html[..3] != "<p>" then None
    else
      var k := FindFrom(html, 3, '<');
      if k + 4 <= |html| && html[k..k + 4] == "</p>" then
        match Unwrap(html[k + 4..])
        case None => None
        case Some(rest) => Some([html[3..k]] + rest)
      else None
  }

  /** The first position at or after `k` holding `c`, or `|s|`. */
  function FindFrom(s: string, k: nat, c: char): (r: nat)
    requires k <= |s|
    ensures k <= r <= |s| && (r == |s| || s[r] == c)
    ensures forall i :: k <= i < r ==> s[i] != c
    decreases |s| - k
  {
    if k == |s| || s[k] == c then k else FindFrom(s, k + 1, c)
  }

  lemma JoinNothingCons(a: string, rest: seq<string>)
    ensures Join([a] + rest, "") == a + Join(rest, "")
  {
    if |rest| == 0 {
      assert [a] + rest == [a];
    } else {
      assert ([a] + rest)[1..] == rest;
    }
  }

  /** Paragraphs whose text holds no `<` read back as the lines they came from. */
  lemma {:induction false} UnwrapParagraphs(lines: seq<string>)
    requires forall i :: 0 <= i < |lines| ==> '<' !in lines[i]
    ensures Unwrap(Join(Paragraphs(lines), "")) == Some(lines)
  {
    if |lines| > 0 {
      var l := lines[0];
      var rest := Join(Paragraphs(lines[1..]), "");
      assert Paragraphs(lines) == [Paragraph(l)] + Paragraphs(lines[1..]);
      JoinNothingCons(Paragraph(l), Paragraphs(lines[1..]));
      var h := Join(Paragraphs(lines), "");
      assert h == "<p>" + l + "</p>" + rest;
      assert h[..3] == "<p>";
      forall i | 3 <= i < 3 + |l| ensures h[i] != '<' {
        assert h[i] == l[i - 3];
      }
      assert h[3 + |l|] == '<';
      assert FindFrom(h, 3, '<') == 3 + |l| by {
        FindFromFirst(h, 3, 3 + |l|, '<');
      }
      assert h[3 + |l|..3 + |l| + 4] == "</p>";
      assert h[3 + |l| + 4..] == rest;
      assert h[3..3 + |l|] == l;
      UnwrapParagraphs(lines[1..]);
      assert Unwrap(h) == Some([l] + lines[1..]);
      assert [l] + lines[1..] == lines;
    }
  }

  lemma {:induction false} FindFromFirst(s: string, k: nat, j: nat, c: char)
    requires k <= j < |s| && s[j] == c
    requires forall i :: k <= i < j ==> s[i] != c
    ensures FindFrom(s, k, c) == j
    decreases j - k
  {
    if k < j {
      FindFromFirst(s, k + 1, j, c);
    }
  }

  /** When every character of the text that `bad` holds for is a line
      feed, no line holds such a character. */
  lemma LinesAvoid(text: string, bad: char -> bool)
    requires forall k :: 0 <= k < |text| && bad(text[k]) ==> text[k] == '\n'
    ensures forall i, c :: 0 <= i < |Lines(text)| && c in Lines(text)[i] ==> !bad(c)
  {
    var parts := Split(text, NewlineSep);
    var r := Lines(text);
    TrimmedPiecesProperties(parts);
    SplitAvoids(text, NewlineSep, bad, 0, 0);
    forall i, c | 0 <= i < |r| && c in r[i] ensures !bad(c) {
      var j :| 0 <= j < |parts| && r[i] == Trim(parts[j]);
    }
  }

  /** Text that is not blank yields a line. */
  lemma LinesOfNonBlank(text: string, k: nat)
    requires k < |text| && !IsSpace(text[k])
    ensures Lines(text) != []
  {
    var parts := Split(text, NewlineSep);
    SplitCovers(text, NewlineSep, IsNewline, 0, 0, k);
    var i :| 0 <= i < |parts| && text[k] in parts[i];
    TrimmedPiecesProperties(parts);
  }

  lemma LinesTrimmed(text: string)
    ensures forall i :: 0 <= i < |Lines(text)| ==>
      Lines(text)[i] != "" && Trim(Lines(text)[i]) == Lines(text)[i]
  {
    TrimmedPiecesProperties(Split(text, NewlineSep));
  }

  /** Every character of a line is a character of the text. */
  lemma LinesFromText(text: string)
    ensures forall i, c :: 0 <= i < |Lines(text)| && c in Lines(text)[i] ==> c in text
  {
    var bad: char -> bool := (c: char) => c !in text;
    LinesAvoid(text, bad);
    forall i, c | 0 <= i < |Lines(text)| && c in Lines(text)[i] ensures c in text {
      assert !bad(c);
    }
  }

  /** A line starts with a character of the text that is not whitespace,
      so blank text yields no line. */
  lemma LineShowsNonBlank(text: string, i: nat)
    requires i < |Lines(text)|
    ensures !IsBlank(text)
  {
    var l := Lines(text)[i];
    LinesTrimmed(text);
    LinesFromText(text);
    assert l != "" && Trim(l) == l;
    assert !IsSpace(l[0]);
    assert l[0] in l;
    assert l[0] in text;
    var j :| 0 <= j < |text| && text[j] == l[0];
    assert !IsSpace(text[j]);
  }

  /** Every line is non-empty, has nothing left to trim and holds no line
      feed, so no paragraph is empty; the text yields no line exactly when it
      is blank. */
  lemma LinesProperties(text: string)
    ensures forall i :: 0 <= i < |Lines(text)| ==>
      Lines(text)[i] != "" && Trim(Lines(text)[i]) == Lines(text)[i] && '\n' !in Lines(text)[i]
    ensures Lines(text) == [] <==> IsBlank(text)
  {
    LinesTrimmed(text);
    var newline: char -> bool := IsNewline;
    assert newline('\n');
    LinesAvoid(text, newline);
    if Lines(text) != [] {
      LineShowsNonBlank(text, 0);
    }
    if !IsBlank(text) {
      var k :| 0 <= k < |text| && !IsSpace(text[k]);
      LinesOfNonBlank(text, k);
    }
  }

  /** Blank text (empty or only whitespace) becomes `""`, and any other text
      at least one paragraph. */
  lemma TextToHtmlBlank(text: string)
    ensures TextToHtml(text) == "" <==> IsBlank(text)
  {
    LinesProperties(text);
    var ls := Lines(text);
    if |ls| > 0 {
      JoinNothingCons(Paragraph(ls[0]), Paragraphs(ls)[1..]);
      assert Paragraphs(ls) == [Paragraph(ls[0])] + Paragraphs(ls)[1..];
    }
  }

  /** A translation without `<` reads back as its lines, one paragraph each
      and none empty. */
  lemma TextToHtmlRoundTrip(text: string)
    requires '<' !in text
    ensures Unwrap(TextToHtml(text)) == Some(Lines(text))
    ensures forall i :: 0 <= i < |Lines(text)| ==> Lines(text)[i] != ""
  {
    LinesTrimmed(text);
    var lt: char -> bool := (c: char) => c == '<';
    assert lt('<');
    LinesAvoid(text, lt);
    UnwrapParagraphs(Lines(text));
  }

  /** The dialog's state. */
  class TranslateDialog {
    var lang: TargetLang
    var loading: bool
    var translated: string

    constructor()
      ensures lang == Es && !loading && translated == ""
    {
      lang := Es;
      loading := false;
      translated := "";
    }

    /** `disabled`: a translation is running or the source is blank
        (nothing but whitespace). */
    function Disabled(sourceText: string): (r: bool)
      reads this
      ensures r <==> loading || IsBlank(sourceText)
    {
      loading || Trim(sourceText) == ""
    }

    method SetLang(l: TargetLang)
      modifies this
      ensures lang == l && loading == old(loading) && translated == old(translated)
    {
      lang := l;
    }

    /** `handleTranslate`, with the awaited result of `translate(sourceText,
        lang)` as `outcome` (`None` when it rejects). When disabled nothing
        changes; otherwise `loading` is false again at the end and the
        translation replaces the old one when there is one. */
    method HandleTranslate(sourceText: string, outcome: Option<string>)
      modifies this
      ensures old(Disabled(sourceText)) ==>
        lang == old(lang) && loading == old(loading) && translated == old(translated)
      ensures !old(Disabled(sourceText)) ==>
        && lang == old(lang) && !loading
        && translated == (if outcome.Some? then outcome.value else old(translated))
    {
      if Disabled(sourceText) {
        return;
      }
      loading := true;
      if outcome.Some? {
        translated := outcome.value;
      }
      loading := false;
    }

    /** "Replace current" and "Create new note": disabled while there is no
        translation, otherwise they hand on its paragraphs. */
    method Action() returns (html: Option<string>)
      ensures html.Some? <==> translated != ""
      ensures html.Some? ==> html.value == TextToHtml(translated)
    {
      if translated == "" {
        return None;
      }
      html := Some(TextToHtml(translated));
    }
  }
}
