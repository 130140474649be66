/** What the version history panel shows (HistoryPanel.tsx:10-38): a
    placeholder when there is no version, otherwise one row per version,
    newest first, each with a restore action for that version. */
module History {
  import opened JsText
  import opened Sorting
  import opened NoteTypes

  /** A row of the list: the heading (`v.title || "Untitled"`), the stamp it
      formats, and the id its Restore button passes to `onRestore`. */
  datatype Row = Row(heading: string, timestamp: string, restoreId: string)

  datatype View = Placeholder | Listing(rows: seq<Row>)

  /** `(a, b) => (b.timestamp > a.timestamp ? 1 : -1)` as "sorts before":
      the later stamp; tied stamps stay in input order. */
  function Later(): (NoteVersion, NoteVersion) -> bool {
    (a: NoteVersion, b: NoteVersion) => StrGreater(a.timestamp, b.timestamp)
  }

  lemma LaterOrder()
    ensures StrictWeakOrder(Later())
  {
    forall a: NoteVersion, b: NoteVersion ensures Later()(a, b) ==> !Later()(b, a) {
      StrGreaterAsymmetric(a.timestamp, b.timestamp);
    }
    forall a: NoteVersion, b: NoteVersion, c: NoteVersion | !Later()(a, b) && !Later()(b, c)
      ensures !Later()(a, c)
    {
      StrNotGreaterTransitive(a.timestamp, b.timestamp, c.timestamp);
    }
  }

  function RowOf(v: NoteVersion): Row {
    Row(if v.title == "" then "Untitled" else v.title, v.timestamp, v.id)
  }

  /** `versions.slice().sort(...)`: a sorted copy. */
  function Newest(versions: seq<NoteVersion>): seq<NoteVersion> {
    SortDesc(versions, Later())
  }

  function Rows(vs: seq<NoteVersion>): (r: seq<Row>)
    ensures |r| == |vs| && forall i :: 0 <= i < |vs| ==> r[i] == RowOf(vs[i])
  {
    seq(|vs|, i requires 0 <= i < |vs| => RowOf(vs[i]))
  }

  /** The panel for a note's versions. */
  function Panel(versions: seq<NoteVersion>): View {
    if |versions| == 0 then Placeholder else Listing(Rows(Newest(versions)))
  }

  /** The placeholder shows exactly when there is no version. Otherwise the
      rows stand for a permutation of the versions, the i-th row restoring
      the i-th of them, and no row is newer than one above it. */
  lemma PanelProperties(versions: seq<NoteVersion>)
    ensures Panel(versions).Placeholder? <==> |versions| == 0
    ensures multiset(Newest(versions)) == multiset(versions)
    ensures |versions| > 0 ==>
      && |Panel(versions).rows| == |versions|
      && forall i :: 0 <= i < |versions| ==>
           Panel(versions).rows[i].restoreId == Newest(versions)[i].id &&
           Panel(versions).rows[i].timestamp == Newest(versions)[i].timestamp
    ensures forall i, j :: 0 <= i < j < |Newest(versions)| ==>
      !StrGreater(Newest(versions)[j].timestamp, Newest(versions)[i].timestamp)
  {
    LaterOrder();
    SortDescDescending(versions, Later());
    assert |multiset(Newest(versions))| == |multiset(versions)|;
    forall i, j | 0 <= i < j < |Newest(versions)|
      ensures !StrGreater(Newest(versions)[j].timestamp, Newest(versions)[i].timestamp)
    {
      assert !Later()(Newest(versions)[j], Newest(versions)[i]);
    }
  }

  function Stamp(): NoteVersion -> string {
    (v: NoteVersion) => v.timestamp
  }

  /** With pairwise different stamps the rows are in strictly descending
      stamp order. */
  lemma NewestStrict(versions: seq<NoteVersion>)
    requires forall i, j :: 0 <= i < j < |versions| ==> versions[i].timestamp != versions[j].timestamp
    ensures forall i, j :: 0 <= i < j < |Newest(versions)| ==>
      StrGreater(Newest(versions)[i].timestamp, Newest(versions)[j].timestamp)
  {
    var r := Newest(versions);
    PanelProperties(versions);
    PermutationDistinctKeys(versions, r, Stamp());
    forall i, j | 0 <= i < j < |r| ensures StrGreater(r[i].timestamp, r[j].timestamp) {
      assert Stamp()(r[i]) != Stamp()(r[j]);
      StrGreaterTotal(r[i].timestamp, r[j].timestamp);
    }
  }
}
