/** The note collection of the main page (Index.tsx): the notes, the
    selection and the search query, changed by the page's handlers. Ids,
    clock readings, password prompts, the cipher and the HTML-to-text and
    lower-case conversions come in as parameters. */
module IndexPage {
  import opened Wrappers
  import opened JsText
  import opened Tokenizer
  import opened Keywords
  import opened NoteTypes
  import opened Sorting

  /** The fields a caller of `updateCurrent` sets in `partial`; `None`
      leaves a field as it was. `encData := Some(None)` is the explicit
      `encData: undefined`, and `summary := Some(Some(s))` is the
      `{ summary: s }` of the insights panel. */
  datatype Patch = Patch(
    title: Option<string>,
    contentHtml: Option<string>,
    encrypted: Option<bool>,
    encData: Option<Option<string>>,
    summary: Option<Option<string>>)

  function Override<T>(o: Option<T>, x: T): T {
    if o.Some? then o.value else x
  }

  /** `{ ...base, ...partial, updatedAt: now }`. */
  function Patched(n: Note, p: Patch, now: string): Note {
    n.(title := Override(p.title, n.title),
       contentHtml := Override(p.contentHtml, n.contentHtml),
       encrypted := Override(p.encrypted, n.encrypted),
       encData := Override(p.encData, n.encData),
       summary := Override(p.summary, n.summary),
       updatedAt := now)
  }

  /** The `partial` of the insights panel's `onGenerate`. */
  function SummaryPatch(summary: string): Patch {
    Patch(None, None, None, None, Some(Some(summary)))
  }

  /** `notes.find((n) => n.id === selectedId) || null`. */
  function CurrentOf(notes: seq<Note>, selectedId: Option<string>): Option<Note> {
    if selectedId.None? then None else Find(notes, HasId(selectedId.value))
  }

  /** The note `createNote(initial)` puts in front (Index.tsx:48-62). */
  function NewNote(id: string, now: string, title: Option<string>, contentHtml: Option<string>): Note {
    Note(id, Override(title, ""), Override(contentHtml, ""), now, now, false, [], None, [], false, None)
  }

  /** `prev.filter((n) => n.id !== id)` (Index.tsx:64-67). */
  function Deleted(notes: seq<Note>, id: string): seq<Note> {
    Filter(notes, Not(HasId(id)))
  }

  /** The selection after `deleteNote(id)`. */
  function SelectionAfterDelete(selectedId: Option<string>, id: string): Option<string> {
    if selectedId == Some(id) then None else selectedId
  }

  /** `prev.map(...)` of `togglePin(id)` (Index.tsx:69-71). */
  function Toggled(notes: seq<Note>, id: string, now: string): (r: seq<Note>)
    ensures |r| == |notes|
  {
    MapId(notes, id, (n: Note) => n.(pinned := !n.pinned, updatedAt := now))
  }

  /** `pushVersion(n)` (Index.tsx:73-76). */
  function Snapshot(n: Note, vid: string, now: string): NoteVersion {
    NoteVersion(vid, n.title, n.contentHtml, now)
  }

  /** The callback of `updateCurrent` applied to one note of the current id. */
  function UpdatedNote(n: Note, p: Patch, snapshot: bool, vid: string, now: string): Note {
    var base := if snapshot && !n.encrypted then n.(versions := n.versions + [Snapshot(n, vid, now)]) else n;
    Patched(base, p, now)
  }

  /** `prev.map(...)` of `updateCurrent(partial, snapshot)` (Index.tsx:78-91)
      for the current note's id. */
  function Updated(notes: seq<Note>, cid: string, p: Patch, snapshot: bool, vid: string, now: string): (r: seq<Note>)
    ensures |r| == |notes|
  {
    MapId(notes, cid, (n: Note) => UpdatedNote(n, p, snapshot, vid, now))
  }

  /** `updateCurrent` as a whole: a no-op with no current note. */
  function UpdatedCurrent(notes: seq<Note>, selectedId: Option<string>, p: Patch, snapshot: bool, vid: string, now: string): seq<Note> {
    var c := CurrentOf(notes, selectedId);
    if c.None? then notes else Updated(notes, c.value.id, p, snapshot, vid, now)
  }

  /** The notes after `handleLockToggle` (Index.tsx:93-111). `pw` is what the
      prompt returns (`None` when it is cancelled); `decrypt` fails with
      `None` for a wrong password or missing data. */
  function LockToggled(notes: seq<Note>, selectedId: Option<string>, pw: Option<string>,
                       encrypt: (string, string) -> string, decrypt: (Option<string>, string) -> Option<string>,
                       vid: string, now: string): seq<Note>
  {
    var c := CurrentOf(notes, selectedId);
    if c.None? || pw.None? || pw.value == "" then notes
    else if c.value.encrypted then
      var d := decrypt(c.value.encData, pw.value);
      if d.None? then notes
      else UpdatedCurrent(notes, selectedId, Patch(None, Some(d.value), Some(false), Some(None), None), true, vid, now)
    else
      var enc := encrypt(c.value.contentHtml, pw.value);
      UpdatedCurrent(notes, selectedId, Patch(None, Some(""), Some(true), Some(Some(enc)), None), true, vid, now)
  }

  /** The version `handleRestore(versionId)` copies from, if any. */
  function RestoreSource(notes: seq<Note>, selectedId: Option<string>, versionId: string): Option<NoteVersion> {
    var c := CurrentOf(notes, selectedId);
    if c.None? then None else Find(c.value.versions, IsVersion(versionId))
  }

  /** The notes after `handleRestore(versionId)` (Index.tsx:113-119). */
  function Restored(notes: seq<Note>, selectedId: Option<string>, versionId: string, now: string): seq<Note> {
    var v := RestoreSource(notes, selectedId, versionId);
    if v.None? then notes
    else UpdatedCurrent(notes, selectedId, Patch(Some(v.value.title), Some(v.value.contentHtml), None, None, None), false, "", now)
  }

  /** `title: \`Translated: ${current?.title || "Untitled"}\`` (Index.tsx:128). */
  function TranslatedTitle(c: Option<Note>): string {
    "Translated: " + (if c.None? || c.value.title == "" then "Untitled" else c.value.title)
  }

  /** The search filter's test: lower-cased title, a space and plain text
      contain the lower-cased query. */
  function MatchesQuery(q: string, lower: string -> string, plain: string -> string): Note -> bool {
    (n: Note) => Contains(lower(n.title + " " + plain(n.contentHtml)), q)
  }

  /** The `filtered` memo (Index.tsx:37-44). */
  function Filtered(notes: seq<Note>, query: string, lower: string -> string, plain: string -> string): seq<Note> {
    if Trim(query) == "" then notes else Filter(notes, MatchesQuery(lower(query), lower, plain))
  }

  /** The tags effect (Index.tsx:132-139): the current note's tags become
      the five suggested tags of its plain text. */
  function TagsSynced(notes: seq<Note>, selectedId: Option<string>, plain: string -> string): seq<Note> {
    var c := CurrentOf(notes, selectedId);
    if c.None? then notes else WithTags(notes, c.value.id, Tags(plain(c.value.contentHtml), 5))
  }

  /** `prev.map((n) => (n.id === cid ? { ...n, tags } : n))`. */
  function WithTags(notes: seq<Note>, cid: string, tags: seq<string>): (r: seq<Note>)
    ensures |r| == |notes|
  {
    MapId(notes, cid, (n: Note) => n.(tags := tags))
  }

  /** A created note is in front, has its title and content from `initial`
      or empty, is not pinned, has no tags or versions, was created when it
      was last updated, and is the current note. */
  lemma CreateProperties(notes: seq<Note>, id: string, now: string, title: Option<string>, contentHtml: Option<string>)
    ensures var n := NewNote(id, now, title, contentHtml);
      && n.id == id && n.title == (if title.Some? then title.value else "")
      && n.contentHtml == (if contentHtml.Some? then contentHtml.value else "")
      && !n.pinned && n.tags == [] && n.versions == [] && !n.encrypted
      && n.createdAt == n.updatedAt == now
      && CurrentOf([n] + notes, Some(id)) == Some(n)
  {
  }

  /** Deleting removes exactly the notes with that id and keeps every other
      note as often as it was there, in order: the notes before any point
      stay before the notes after it. A note not selected stays current, and
      deleting the selected note clears the selection. */
  lemma DeleteProperties(notes: seq<Note>, id: string, selectedId: Option<string>)
    ensures forall n :: n in Deleted(notes, id) <==> n in notes && n.id != id
    ensures forall k :: 0 <= k <= |notes| ==>
      Deleted(notes, id) == Deleted(notes[..k], id) + Deleted(notes[k..], id)
    ensures forall n :: multiset(Deleted(notes, id))[n] == if n.id == id then 0 else multiset(notes)[n]
    ensures (forall i :: 0 <= i < |notes| ==> notes[i].id != id) ==> Deleted(notes, id) == notes
    ensures CurrentOf(Deleted(notes, id), SelectionAfterDelete(selectedId, id)) ==
      if selectedId == Some(id) then None else CurrentOf(notes, selectedId)
  {
    DeleteKeeps(notes, id);
    DeleteOrder(notes, id);
    if forall i :: 0 <= i < |notes| ==> notes[i].id != id {
      FilterAll(notes, Not(HasId(id)));
    }
    if selectedId.Some? && selectedId != Some(id) {
      FindFilter(notes, Not(HasId(id)), HasId(selectedId.value));
    }
  }

  lemma DeleteKeeps(notes: seq<Note>, id: string)
    ensures forall n :: n in Deleted(notes, id) <==> n in notes && n.id != id
    ensures forall n :: multiset(Deleted(notes, id))[n] == if n.id == id then 0 else multiset(notes)[n]
  {
    FilterCount(notes, Not(HasId(id)));
    forall n ensures n in Deleted(notes, id) <==> n in notes && n.id != id {
      assert n in Deleted(notes, id) <==> multiset(Deleted(notes, id))[n] > 0;
    }
  }

  lemma DeleteOrder(notes: seq<Note>, id: string)
    ensures forall k :: 0 <= k <= |notes| ==>
      Deleted(notes, id) == Deleted(notes[..k], id) + Deleted(notes[k..], id)
  {
    forall k | 0 <= k <= |notes|
      ensures Deleted(notes, id) == Deleted(notes[..k], id) + Deleted(notes[k..], id)
    {
      FilterAt(notes, k, Not(HasId(id)));
    }
  }

  /** Toggling flips `pinned` and refreshes `updatedAt` of the notes with
      that id only; toggling twice gives every note its pin back. */
  lemma ToggleProperties(notes: seq<Note>, id: string, t1: string, t2: string)
    ensures forall i :: 0 <= i < |notes| ==>
      && (notes[i].id != id ==> Toggled(notes, id, t1)[i] == notes[i])
      && (notes[i].id == id ==>
            Toggled(notes, id, t1)[i].pinned == !notes[i].pinned && Toggled(notes, id, t1)[i].updatedAt == t1
            && Toggled(notes, id, t1)[i].(pinned := notes[i].pinned, updatedAt := notes[i].updatedAt) == notes[i])
    ensures forall i :: 0 <= i < |notes| ==>
      Toggled(Toggled(notes, id, t1), id, t2)[i] == if notes[i].id == id then notes[i].(updatedAt := t2) else notes[i]
  {
  }

  /** `updateCurrent` with no current note changes nothing; otherwise it
      changes the notes with the current id only: the fields of `partial`
      override, `updatedAt` is refreshed, and one version holding the
      previous title and content is appended exactly when `snapshot` is set
      and the note is not encrypted. The updated note stays current. */
  lemma UpdateProperties(notes: seq<Note>, selectedId: Option<string>, p: Patch, snapshot: bool, vid: string, now: string)
    ensures CurrentOf(notes, selectedId).None? ==> UpdatedCurrent(notes, selectedId, p, snapshot, vid, now) == notes
    ensures CurrentOf(notes, selectedId).Some? ==>
      var c := CurrentOf(notes, selectedId).value;
      var r := UpdatedCurrent(notes, selectedId, p, snapshot, vid, now);
      && |r| == |notes|
      && (forall i :: 0 <= i < |notes| && notes[i].id != c.id ==> r[i] == notes[i])
      && (forall i :: 0 <= i < |notes| && notes[i].id == c.id ==>
            && r[i].id == notes[i].id && r[i].createdAt == notes[i].createdAt
            && r[i].pinned == notes[i].pinned && r[i].tags == notes[i].tags
            && r[i].summary == Override(p.summary, notes[i].summary)
            && r[i].title == Override(p.title, notes[i].title)
            && r[i].contentHtml == Override(p.contentHtml, notes[i].contentHtml)
            && r[i].encrypted == Override(p.encrypted, notes[i].encrypted)
            && r[i].encData == Override(p.encData, notes[i].encData)
            && r[i].updatedAt == now
            && (|r[i].versions| == |notes[i].versions| + 1 <==> snapshot && !notes[i].encrypted)
            && r[i].versions == notes[i].versions +
                 (if snapshot && !notes[i].encrypted then [NoteVersion(vid, notes[i].title, notes[i].contentHtml, now)] else []))
      && CurrentOf(r, selectedId) == Some(UpdatedNote(c, p, snapshot, vid, now))
  {
    var c := CurrentOf(notes, selectedId);
    if c.Some? {
      var f := (n: Note) => UpdatedNote(n, p, snapshot, vid, now);
      MapIdFind(notes, c.value.id, f);
      assert c.value.id == selectedId.value;
    }
  }

  /** Storing a generated summary sets the current note's summary and
      refreshes its `updatedAt`, and changes nothing else: no version is
      kept, and the other notes stay as they were. */
  lemma GenerateProperties(notes: seq<Note>, selectedId: Option<string>, summary: string, now: string)
    ensures CurrentOf(notes, selectedId).None? ==>
      UpdatedCurrent(notes, selectedId, SummaryPatch(summary), false, "", now) == notes
    ensures CurrentOf(notes, selectedId).Some? ==>
      var c := CurrentOf(notes, selectedId).value;
      var r := UpdatedCurrent(notes, selectedId, SummaryPatch(summary), false, "", now);
      && |r| == |notes|
      && (forall i :: 0 <= i < |notes| ==>
            r[i] == if notes[i].id == c.id then notes[i].(summary := Some(summary), updatedAt := now) else notes[i])
      && CurrentOf(r, selectedId) == Some(c.(summary := Some(summary), updatedAt := now))
  {
    UpdateProperties(notes, selectedId, SummaryPatch(summary), false, "", now);
  }

  /** Locking (the current note is not encrypted and a password is given)
      encrypts the plain content, empties it and keeps a version of it;
      unlocking replaces the content with the decrypted text and keeps no
      version; a cancelled or empty prompt, or a failed decryption, changes
      nothing. */
  lemma LockProperties(notes: seq<Note>, selectedId: Option<string>, pw: Option<string>,
                       encrypt: (string, string) -> string, decrypt: (Option<string>, string) -> Option<string>,
                       vid: string, now: string)
    ensures CurrentOf(notes, selectedId).None? || pw.None? || pw == Some("") ==>
      LockToggled(notes, selectedId, pw, encrypt, decrypt, vid, now) == notes
    ensures CurrentOf(notes, selectedId).Some? && pw.Some? && pw != Some("") ==>
      var c := CurrentOf(notes, selectedId).value;
      var r := LockToggled(notes, selectedId, pw, encrypt, decrypt, vid, now);
      if !c.encrypted then
        && CurrentOf(r, selectedId).Some?
        && CurrentOf(r, selectedId).value.encrypted
        && CurrentOf(r, selectedId).value.encData == Some(encrypt(c.contentHtml, pw.value))
        && CurrentOf(r, selectedId).value.contentHtml == ""
        && CurrentOf(r, selectedId).value.title == c.title
        && CurrentOf(r, selectedId).value.versions == c.versions + [NoteVersion(vid, c.title, c.contentHtml, now)]
      else if decrypt(c.encData, pw.value).None? then r == notes
      else
        && CurrentOf(r, selectedId).Some?
        && !CurrentOf(r, selectedId).value.encrypted
        && CurrentOf(r, selectedId).value.encData == None
        && CurrentOf(r, selectedId).value.contentHtml == decrypt(c.encData, pw.value).value
        && CurrentOf(r, selectedId).value.versions == c.versions
  {
    var c := CurrentOf(notes, selectedId);
    if c.Some? && pw.Some? && pw != Some("") {
      if !c.value.encrypted {
        var enc := encrypt(c.value.contentHtml, pw.value);
        UpdateProperties(notes, selectedId, Patch(None, Some(""), Some(true), Some(Some(enc)), None), true, vid, now);
      } else {
        var d := decrypt(c.value.encData, pw.value);
        if d.Some? {
          UpdateProperties(notes, selectedId, Patch(None, Some(d.value), Some(false), Some(None), None), true, vid, now);
        }
      }
    }
  }

  /** Restoring copies title and content of the current note's first
      version with that id and keeps the versions as they are; an unknown
      id changes nothing. */
  lemma RestoreProperties(notes: seq<Note>, selectedId: Option<string>, versionId: string, now: string)
    ensures RestoreSource(notes, selectedId, versionId).None? ==> Restored(notes, selectedId, versionId, now) == notes
    ensures RestoreSource(notes, selectedId, versionId).Some? ==>
      var c := CurrentOf(notes, selectedId).value;
      var v := RestoreSource(notes, selectedId, versionId).value;
      var r := Restored(notes, selectedId, versionId, now);
      && v in c.versions && v.id == versionId
      && CurrentOf(r, selectedId).Some?
      && CurrentOf(r, selectedId).value.title == v.title
      && CurrentOf(r, selectedId).value.contentHtml == v.contentHtml
      && CurrentOf(r, selectedId).value.versions == c.versions
      && CurrentOf(r, selectedId).value.encrypted == c.encrypted
    ensures (CurrentOf(notes, selectedId).Some? &&
             forall i :: 0 <= i < |CurrentOf(notes, selectedId).value.versions| ==>
               CurrentOf(notes, selectedId).value.versions[i].id != versionId)
      ==> Restored(notes, selectedId, versionId, now) == notes
  {
    var v := RestoreSource(notes, selectedId, versionId);
    if v.Some? {
      UpdateProperties(notes, selectedId, Patch(Some(v.value.title), Some(v.value.contentHtml), None, None, None), false, "", now);
    }
  }

  /** A query that is blank after trimming shows every note; otherwise the
      notes shown are those whose lower-cased title and text contain the
      lower-cased query, untrimmed, each as often as it was there and in
      the order of the list. */
  lemma FilterProperties(notes: seq<Note>, query: string, lower: string -> string, plain: string -> string)
    ensures IsBlank(query) ==> Filtered(notes, query, lower, plain) == notes
    ensures !IsBlank(query) ==>
      forall n :: multiset(Filtered(notes, query, lower, plain))[n] ==
        if Contains(lower(n.title + " " + plain(n.contentHtml)), lower(query)) then multiset(notes)[n] else 0
    ensures !IsBlank(query) ==>
      forall n :: n in Filtered(notes, query, lower, plain) <==>
        n in notes && Contains(lower(n.title + " " + plain(n.contentHtml)), lower(query))
    ensures forall k :: 0 <= k <= |notes| ==>
      Filtered(notes, query, lower, plain) == Filtered(notes[..k], query, lower, plain) + Filtered(notes[k..], query, lower, plain)
  {
    var keep := MatchesQuery(lower(query), lower, plain);
    FilterCount(notes, keep);
    FilteredOrder(notes, query, lower, plain);
    forall n ensures n in Filter(notes, keep) <==> n in notes && keep(n) {
      assert n in Filter(notes, keep) <==> multiset(Filter(notes, keep))[n] > 0;
    }
  }

  lemma FilteredOrder(notes: seq<Note>, query: string, lower: string -> string, plain: string -> string)
    ensures forall k :: 0 <= k <= |notes| ==>
      Filtered(notes, query, lower, plain) == Filtered(notes[..k], query, lower, plain) + Filtered(notes[k..], query, lower, plain)
  {
    forall k | 0 <= k <= |notes|
      ensures Filtered(notes, query, lower, plain) == Filtered(notes[..k], query, lower, plain) + Filtered(notes[k..], query, lower, plain)
    {
      if Trim(query) == "" {
        assert notes == notes[..k] + notes[k..];
      } else {
        FilterAt(notes, k, MatchesQuery(lower(query), lower, plain));
      }
    }
  }

  /** The tags effect sets the current note's tags, and only its tags, to
      at most five distinct suggested tags of its text. */
  lemma TagsProperties(notes: seq<Note>, selectedId: Option<string>, plain: string -> string)
    ensures CurrentOf(notes, selectedId).None? ==> TagsSynced(notes, selectedId, plain) == notes
    ensures CurrentOf(notes, selectedId).Some? ==>
      var c := CurrentOf(notes, selectedId).value;
      var r := TagsSynced(notes, selectedId, plain);
      && |r| == |notes|
      && (forall i :: 0 <= i < |notes| ==>
            r[i] == if notes[i].id == c.id then notes[i].(tags := Tags(plain(c.contentHtml), 5)) else notes[i])
      && CurrentOf(r, selectedId) == Some(c.(tags := Tags(plain(c.contentHtml), 5)))
      && |CurrentOf(r, selectedId).value.tags| <= 5 && Distinct(CurrentOf(r, selectedId).value.tags)
  {
    var c := CurrentOf(notes, selectedId);
    if c.Some? {
      var tags := Tags(plain(c.value.contentHtml), 5);
      MapIdFind(notes, c.value.id, (n: Note) => n.(tags := tags));
      TagsSound(plain(c.value.contentHtml), 5);
    }
  }

  /** The page's state. */
  class NotesApp {
    var notes: seq<Note>
    var selectedId: Option<string>
    var searchQuery: string
    var showHistory: bool
    var showTranslate: bool

    constructor ()
      ensures notes == [] && selectedId == None && searchQuery == ""
      ensures !showHistory && !showTranslate
    {
      notes := [];
      selectedId := None;
      searchQuery := "";
      showHistory := false;
      showTranslate := false;
    }

    function Current(): Option<Note>
      reads this
    {
      CurrentOf(notes, selectedId)
    }

    /** The notes the sidebar is given. */
    function Visible(lower: string -> string, plain: string -> string): seq<Note>
      reads this
    {
      Filtered(notes, searchQuery, lower, plain)
    }

    /** The mount effect (Index.tsx:22-27) with what storage returned. */
    method Load(stored: seq<Note>, storedId: Option<string>)
      modifies this
      ensures notes == stored
      ensures selectedId ==
        if storedId.Some? && storedId.value != "" && Find(stored, HasId(storedId.value)).Some? then storedId
        else old(selectedId)
      ensures searchQuery == old(searchQuery) && showHistory == old(showHistory) && showTranslate == old(showTranslate)
    {
      notes := stored;
      if storedId.Some? && storedId.value != "" && Find(stored, HasId(storedId.value)).Some? {
        selectedId := storedId;
      }
    }

    method SetSearch(q: string)
      modifies this
      ensures searchQuery == q
      ensures notes == old(notes) && selectedId == old(selectedId)
      ensures showHistory == old(showHistory) && showTranslate == old(showTranslate)
    {
      searchQuery := q;
    }

    /** `createNote(initial)` with `id` from `generateId()` and `now` from the clock. */
    method CreateNote(id: string, now: string, title: Option<string>, contentHtml: Option<string>)
      modifies this
      ensures notes == [NewNote(id, now, title, contentHtml)] + old(notes)
      ensures selectedId == Some(id)
      ensures searchQuery == old(searchQuery) && showHistory == old(showHistory) && showTranslate == old(showTranslate)
    {
      var n := NewNote(id, now, title, contentHtml);
      notes := [n] + notes;
      selectedId := Some(n.id);
    }

    method DeleteNote(id: string)
      modifies this
      ensures notes == Deleted(old(notes), id)
      ensures selectedId == SelectionAfterDelete(old(selectedId), id)
      ensures searchQuery == old(searchQuery) && showHistory == old(showHistory) && showTranslate == old(showTranslate)
    {
      notes := Deleted(notes, id);
      if selectedId == Some(id) {
        selectedId := None;
      }
    }

    method TogglePin(id: string, now: string)
      modifies this
      ensures notes == Toggled(old(notes), id, now)
      ensures selectedId == old(selectedId)
      ensures searchQuery == old(searchQuery) && showHistory == old(showHistory) && showTranslate == old(showTranslate)
    {
      notes := Toggled(notes, id, now);
    }

    /** `updateCurrent(partial, snapshot)`; `vid` and `now` are the version
      id and the clock reading the call takes. */
    method UpdateCurrent(p: Patch, snapshot: bool, vid: string, now: string)
      modifies this
      ensures notes == UpdatedCurrent(old(notes), old(selectedId), p, snapshot, vid, now)
      ensures selectedId == old(selectedId)
      ensures searchQuery == old(searchQuery) && showHistory == old(showHistory) && showTranslate == old(showTranslate)
    {
      var c := Current();
      if c.None? {
        return;
      }
      notes := Updated(notes, c.value.id, p, snapshot, vid, now);
    }

    method HandleLockToggle(pw: Option<string>, encrypt: (string, string) -> string,
                            decrypt: (Option<string>, string) -> Option<string>, vid: string, now: string)
      modifies this
      ensures notes == LockToggled(old(notes), old(selectedId), pw, encrypt, decrypt, vid, now)
      ensures selectedId == old(selectedId)
      ensures searchQuery == old(searchQuery) && showHistory == old(showHistory) && showTranslate == old(showTranslate)
    {
      var c := Current();
      if c.None? {
        return;
      }
      if c.value.encrypted {
        if pw.None? || pw.value == "" {
          return;
        }
        var decrypted := decrypt(c.value.encData, pw.value);
        if decrypted.None? {
          return;
        }
        UpdateCurrent(Patch(None, Some(decrypted.value), Some(false), Some(None), None), true, vid, now);
        return;
      }
      if pw.None? || pw.value == "" {
        return;
      }
      var enc := encrypt(c.value.contentHtml, pw.value);
      UpdateCurrent(Patch(None, Some(""), Some(true), Some(Some(enc)), None), true, vid, now);
    }

    method HandleRestore(versionId: string, now: string)
      modifies this
      ensures notes == Restored(old(notes), old(selectedId), versionId, now)
      ensures showHistory == (if RestoreSource(old(notes), old(selectedId), versionId).Some? then false else old(showHistory))
      ensures selectedId == old(selectedId)
      ensures searchQuery == old(searchQuery) && showTranslate == old(showTranslate)
    {
      var c := Current();
      if c.None? {
        return;
      }
      var v := Find(c.value.versions, IsVersion(versionId));
      if v.None? {
        return;
      }
      UpdateCurrent(Patch(Some(v.value.title), Some(v.value.contentHtml), None, None, None), false, "", now);
      showHistory := false;
    }

    /** `handleTranslateReplace(translatedHtml)` (Index.tsx:121-125). */
    method HandleTranslateReplace(translatedHtml: string, vid: string, now: string)
      modifies this
      ensures notes == UpdatedCurrent(old(notes), old(selectedId), Patch(None, Some(translatedHtml), None, None, None), true, vid, now)
      ensures showTranslate == (if old(Current()).Some? then false else old(showTranslate))
      ensures selectedId == old(selectedId)
      ensures searchQuery == old(searchQuery) && showHistory == old(showHistory)
    {
      var c := Current();
      if c.None? {
        return;
      }
      UpdateCurrent(Patch(None, Some(translatedHtml), None, None, None), true, vid, now);
      showTranslate := false;
    }

    /** `handleTranslateCreate(translatedHtml)` (Index.tsx:127-130). */
    method HandleTranslateCreate(translatedHtml: string, id: string, now: string)
      modifies this
      ensures notes == [NewNote(id, now, Some(TranslatedTitle(old(Current()))), Some(translatedHtml))] + old(notes)
      ensures selectedId == Some(id) && !showTranslate
      ensures searchQuery == old(searchQuery) && showHistory == old(showHistory)
    {
      var title := TranslatedTitle(Current());
      CreateNote(id, now, Some(title), Some(translatedHtml));
      showTranslate := false;
    }

    /** `onGenerate={(s) => updateCurrent({ summary: s }, false)}`
      (Index.tsx:208): the insights panel's summary is stored on the
      current note, without a version. */
    method HandleGenerate(summary: string, now: string)
      modifies this
      ensures notes == UpdatedCurrent(old(notes), old(selectedId), SummaryPatch(summary), false, "", now)
      ensures selectedId == old(selectedId)
      ensures searchQuery == old(searchQuery) && showHistory == old(showHistory) && showTranslate == old(showTranslate)
    {
      UpdateCurrent(SummaryPatch(summary), false, "", now);
    }

    /** The tags effect, with `plain` standing for `getPlainText`. */
    method SyncTags(plain: string -> string)
      requires Current().Some? ==>
        forall t :: t in KeywordCandidates(Tokenize(plain(Current().value.contentHtml)), 3) ==> OrdinaryKey(t)
      modifies this
      ensures notes == TagsSynced(old(notes), old(selectedId), plain)
      ensures selectedId == old(selectedId)
      ensures searchQuery == old(searchQuery) && showHistory == old(showHistory) && showTranslate == old(showTranslate)
    {
      var c := Current();
      if c.None? {
        return;
      }
      var tags := SuggestTags(plain(c.value.contentHtml), 5);
      notes := WithTags(notes, c.value.id, tags);
    }
  }
}
