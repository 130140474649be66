/** The note record (note.ts:1-10), extended with the fields the page
    reads and writes (Index.tsx:74, :84-86, :99), and the array operations
    the page and the panels apply to lists of them. */
module NoteTypes {
  import opened Wrappers

  /** A snapshot of a note's title and content. */
  datatype NoteVersion = NoteVersion(id: string, title: string, contentHtml: string, timestamp: string)

  /** A note. `versions` is empty for a note stored without the field, and
      `encrypted` is false for one stored without it. */
  datatype Note = Note(
    id: string,
    title: string,
    contentHtml: string,
    createdAt: string,
    updatedAt: string,
    pinned: bool,
    tags: seq<string>,
    summary: Option<string>,
    versions: seq<NoteVersion>,
    encrypted: bool,
    encData: Option<string>)

  /** `Array.prototype.filter`. */
  function Filter<T>(s: seq<T>, keep: T -> bool): (r: seq<T>)
    ensures |r| <= |s|
    ensures forall x :: x in r ==> x in s && keep(x)
  {
    if |s| == 0 then []
    else (if keep(s[0]) then [s[0]] else []) + Filter(s[1..], keep)
  }

  function Not<T>(keep: T -> bool): T -> bool {
    x => !keep(x)
  }

  /** Filtering a concatenation filters each part: the kept elements stay
      in their order. */
  lemma {:induction false} FilterAppend<T>(a: seq<T>, b: seq<T>, keep: T -> bool)
    ensures Filter(a + b, keep) == Filter(a, keep) + Filter(b, keep)
    decreases |a|
  {
    if |a| == 0 {
      assert a + b == b;
    } else {
      assert (a + b)[0] == a[0] && (a + b)[1..] == a[1..] + b;
      FilterAppend(a[1..], b, keep);
    }
  }

  /** The kept elements before position `k` come before those after it. */
  lemma FilterAt<T>(s: seq<T>, k: nat, keep: T -> bool)
    requires k <= |s|
    ensures Filter(s, keep) == Filter(s[..k], keep) + Filter(s[k..], keep)
  {
    assert s == s[..k] + s[k..];
    FilterAppend(s[..k], s[k..], keep);
  }

  /** Each kept element appears as often as in the input, each other one
      not at all. */
  lemma {:induction false} FilterCount<T>(s: seq<T>, keep: T -> bool)
    ensures forall x :: multiset(Filter(s, keep))[x] == if keep(x) then multiset(s)[x] else 0
    decreases |s|
  {
    if |s| > 0 {
      FilterCount(s[1..], keep);
      assert s == [s[0]] + s[1..];
    }
  }

  /** A filter that keeps everything returns the input. */
  lemma {:induction false} FilterAll<T>(s: seq<T>, keep: T -> bool)
    requires forall i :: 0 <= i < |s| ==> keep(s[i])
    ensures Filter(s, keep) == s
    decreases |s|
  {
    if |s| > 0 {
      assert forall i :: 0 <= i < |s| - 1 ==> s[1..][i] == s[i + 1];
      FilterAll(s[1..], keep);
    }
  }

  /** What a filter keeps and what its negation keeps make up the input. */
  lemma FilterSplit<T>(s: seq<T>, keep: T -> bool)
    ensures multiset(Filter(s, keep)) + multiset(Filter(s, Not(keep))) == multiset(s)
  {
    FilterCount(s, keep);
    FilterCount(s, Not(keep));
  }

  /** `Array.prototype.find`: the first element satisfying `p`. */
  function Find<T>(s: seq<T>, p: T -> bool): (r: Option<T>)
    ensures r.Some? ==> r.value in s && p(r.value)
    ensures r.None? <==> forall i :: 0 <= i < |s| ==> !p(s[i])
  {
    if |s| == 0 then None
    else if p(s[0]) then Some(s[0])
    else
      var r := Find(s[1..], p);
      assert forall i :: 1 <= i < |s| ==> s[i] == s[1..][i - 1];
      r
  }

  /** `find` returns the element at the first index that satisfies `p`. */
  lemma {:induction false} FindFirst<T>(s: seq<T>, p: T -> bool)
    requires Find(s, p).Some?
    ensures exists k :: 0 <= k < |s| && s[k] == Find(s, p).value && forall i :: 0 <= i < k ==> !p(s[i])
    decreases |s|
  {
    if !p(s[0]) {
      FindFirst(s[1..], p);
      var k :| 0 <= k < |s[1..]| && s[1..][k] == Find(s[1..], p).value && forall i :: 0 <= i < k ==> !p(s[1..][i]);
      assert s[k + 1] == Find(s, p).value;
      forall i | 0 <= i < k + 1 ensures !p(s[i]) {
        if i > 0 {
          assert s[i] == s[1..][i - 1];
        }
      }
    } else {
      assert s[0] == Find(s, p).value;
    }
  }

  /** `(n) => n.id === id`. */
  function HasId(id: string): Note -> bool {
    (n: Note) => n.id == id
  }

  function IsVersion(id: string): NoteVersion -> bool {
    (v: NoteVersion) => v.id == id
  }

  /** `find` stops at the first index that satisfies `p`. */
  lemma FindAt<T>(s: seq<T>, p: T -> bool, k: nat)
    requires k < |s| && p(s[k])
    requires forall i :: 0 <= i < k ==> !p(s[i])
    ensures Find(s, p) == Some(s[k])
  {
    FindFirst(s, p);
    var j :| 0 <= j < |s| && s[j] == Find(s, p).value && forall i :: 0 <= i < j ==> !p(s[i]);
    if j < k {
      assert p(s[j]);
    }
  }

  /** `prev.map((n) => (n.id === id ? f(n) : n))`. */
  function MapId(notes: seq<Note>, id: string, f: Note -> Note): (r: seq<Note>)
    ensures |r| == |notes|
    ensures forall i :: 0 <= i < |notes| ==> r[i] == if notes[i].id == id then f(notes[i]) else notes[i]
  {
    seq(|notes|, i requires 0 <= i < |notes| => if notes[i].id == id then f(notes[i]) else notes[i])
  }

  /** When `f` keeps the id, the first note with that id after the map is
      `f` of the first one before it. */
  lemma MapIdFind(notes: seq<Note>, id: string, f: Note -> Note)
    requires forall n :: f(n).id == n.id
    ensures Find(MapId(notes, id, f), HasId(id)) ==
      if Find(notes, HasId(id)).Some? then Some(f(Find(notes, HasId(id)).value)) else None
  {
    var r := MapId(notes, id, f);
    if Find(notes, HasId(id)).Some? {
      FindFirst(notes, HasId(id));
      var k :| 0 <= k < |notes| && notes[k] == Find(notes, HasId(id)).value &&
        forall i :: 0 <= i < k ==> !HasId(id)(notes[i]);
      FindAt(r, HasId(id), k);
    } else {
      assert forall i :: 0 <= i < |r| ==> r[i] == notes[i];
    }
  }

  /** Filtering out only elements `p` rejects does not change what `find` returns. */
  lemma {:induction false} FindFilter<T>(s: seq<T>, keep: T -> bool, p: T -> bool)
    requires forall x :: p(x) ==> keep(x)
    ensures Find(Filter(s, keep), p) == Find(s, p)
    decreases |s|
  {
    if |s| > 0 {
      FindFilter(s[1..], keep, p);
      var h := if keep(s[0]) then [s[0]] else [];
      var rest := Filter(s[1..], keep);
      assert Filter(s, keep) == h + rest;
      if keep(s[0]) {
        assert (h + rest)[0] == s[0] && (h + rest)[1..] == rest;
      } else {
        assert h + rest == rest;
      }
    }
  }
}
