/** The `ordered` memo of the notes sidebar (NotesSidebar.tsx:18-22):
    pinned notes first, each group newest first by `updatedAt`. */
module Sidebar {
  import opened JsText
  import opened Sorting
  import opened NoteTypes

  /** The comparator `(a, b) => (b.updatedAt > a.updatedAt ? 1 : -1)` as
      "sorts before": the later `updatedAt`. The comparator answers -1 for
      equal stamps both ways, so the order of such notes is left to the
      engine; this model keeps them in input order. */
  function NewerNote(): (Note, Note) -> bool {
    (a: Note, b: Note) => StrGreater(a.updatedAt, b.updatedAt)
  }

  lemma NewerNoteOrder()
    ensures StrictWeakOrder(NewerNote())
  {
    forall a: Note, b: Note ensures NewerNote()(a, b) ==> !NewerNote()(b, a) {
      StrGreaterAsymmetric(a.updatedAt, b.updatedAt);
    }
    forall a: Note, b: Note, c: Note | !NewerNote()(a, b) && !NewerNote()(b, c) ensures !NewerNote()(a, c) {
      StrNotGreaterTransitive(a.updatedAt, b.updatedAt, c.updatedAt);
    }
  }

  function IsPinned(): Note -> bool {
    (n: Note) => n.pinned
  }

  /** The pinned notes, sorted. */
  function PinnedGroup(notes: seq<Note>): seq<Note> {
    SortDesc(Filter(notes, IsPinned()), NewerNote())
  }

  /** The other notes, sorted. */
  function OtherGroup(notes: seq<Note>): seq<Note> {
    SortDesc(Filter(notes, Not(IsPinned())), NewerNote())
  }

  /** `[...pinned, ...others]`. */
  function Ordered(notes: seq<Note>): seq<Note> {
    PinnedGroup(notes) + OtherGroup(notes)
  }

  /** The sidebar lists every note as often as it is there; the first
      `|pinned|` entries are exactly the pinned notes, so every pinned note
      comes before every other one; and within a group no note is newer
      than one listed before it. */
  lemma OrderedProperties(notes: seq<Note>)
    ensures multiset(Ordered(notes)) == multiset(notes)
    ensures multiset(Ordered(notes)[..|Filter(notes, IsPinned())|]) == multiset(Filter(notes, IsPinned()))
    ensures forall i :: 0 <= i < |Ordered(notes)| ==>
      (Ordered(notes)[i].pinned <==> i < |Filter(notes, IsPinned())|)
    ensures forall i, j :: 0 <= i < j < |Ordered(notes)| && Ordered(notes)[j].pinned ==> Ordered(notes)[i].pinned
    ensures forall i, j :: 0 <= i < j < |Ordered(notes)| && Ordered(notes)[i].pinned == Ordered(notes)[j].pinned ==>
      !StrGreater(Ordered(notes)[j].updatedAt, Ordered(notes)[i].updatedAt)
  {
    var P, U := PinnedGroup(notes), OtherGroup(notes);
    FilterSplit(notes, IsPinned());
    assert Ordered(notes)[..|P|] == P;
    Groups(notes);
    Concatenated(P, U);
  }

  /** Each group holds the notes of its kind, newest first. */
  lemma Groups(notes: seq<Note>)
    ensures |PinnedGroup(notes)| == |Filter(notes, IsPinned())|
    ensures forall i :: 0 <= i < |PinnedGroup(notes)| ==> PinnedGroup(notes)[i].pinned
    ensures forall i :: 0 <= i < |OtherGroup(notes)| ==> !OtherGroup(notes)[i].pinned
    ensures Descending(PinnedGroup(notes), NewerNote()) && Descending(OtherGroup(notes), NewerNote())
  {
    var F, G := Filter(notes, IsPinned()), Filter(notes, Not(IsPinned()));
    var P, U := SortDesc(F, NewerNote()), SortDesc(G, NewerNote());
    assert |multiset(P)| == |multiset(F)|;
    forall i | 0 <= i < |P| ensures P[i].pinned {
      SortDescMember(F, NewerNote(), i);
      assert IsPinned()(P[i]);
    }
    forall i | 0 <= i < |U| ensures !U[i].pinned {
      SortDescMember(G, NewerNote(), i);
      assert Not(IsPinned())(U[i]);
    }
    NewerNoteOrder();
    SortDescDescending(F, NewerNote());
    SortDescDescending(G, NewerNote());
  }

  lemma Concatenated(P: seq<Note>, U: seq<Note>)
    requires forall i :: 0 <= i < |P| ==> P[i].pinned
    requires forall i :: 0 <= i < |U| ==> !U[i].pinned
    requires Descending(P, NewerNote()) && Descending(U, NewerNote())
    ensures forall i :: 0 <= i < |P + U| ==> ((P + U)[i].pinned <==> i < |P|)
    ensures forall i, j :: 0 <= i < j < |P + U| && (P + U)[i].pinned == (P + U)[j].pinned ==>
      !StrGreater((P + U)[j].updatedAt, (P + U)[i].updatedAt)
  {
    var r := P + U;
    forall i, j | 0 <= i < j < |r| && r[i].pinned == r[j].pinned
      ensures !StrGreater(r[j].updatedAt, r[i].updatedAt)
    {
      if j < |P| {
        assert !NewerNote()(P[j], P[i]);
      } else {
        assert !NewerNote()(U[j - |P|], U[i - |P|]);
      }
    }
  }

  function UpdatedAt(): Note -> string {
    (n: Note) => n.updatedAt
  }

  /** With pairwise different `updatedAt` stamps each group is in strictly
      descending stamp order, which every correct sort produces. */
  lemma OrderedStrict(notes: seq<Note>)
    requires forall i, j :: 0 <= i < j < |notes| ==> notes[i].updatedAt != notes[j].updatedAt
    ensures forall i, j :: 0 <= i < j < |Ordered(notes)| && Ordered(notes)[i].pinned == Ordered(notes)[j].pinned ==>
      StrGreater(Ordered(notes)[i].updatedAt, Ordered(notes)[j].updatedAt)
  {
    var r := Ordered(notes);
    OrderedProperties(notes);
    PermutationDistinctKeys(notes, r, UpdatedAt());
    forall i, j | 0 <= i < j < |r| && r[i].pinned == r[j].pinned
      ensures StrGreater(r[i].updatedAt, r[j].updatedAt)
    {
      assert UpdatedAt()(r[i]) != UpdatedAt()(r[j]);
      StrGreaterTotal(r[i].updatedAt, r[j].updatedAt);
    }
  }
}
