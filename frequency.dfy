/** The frequency tables of the text analysis: a plain object filled by
    `forEach((t) => (freq[t] = (freq[t] || 0) + 1))` and read back through
    `Object.entries(freq).sort((a, b) => b[1] - a[1]).slice(0, n)`. */
module Frequency {
  import opened Sorting

  /** A string-keyed table of counts that remembers the order in which keys
      were first set, which is the order `Object.entries` lists them in. */
  datatype Table = Table(keys: seq<string>, count: map<string, nat>)

  const Empty := Table([], map[])

  /** Keys listed once each, exactly the keys of `count`, every count positive. */
  predicate Wf(f: Table) {
    && Distinct(f.keys)
    && (forall k :: k in f.count ==> k in f.keys)
    && (forall k :: k in f.keys ==> k in f.count)
    && (forall k :: k in f.count ==> f.count[k] >= 1)
  }

  /** `freq[t] || 0`. */
  function Get(f: Table, t: string): nat {
    if t in f.count then f.count[t] else 0
  }

  /** `freq[t] = (freq[t] || 0) + 1`: a new key goes to the end of the order. */
  function Bump(f: Table, t: string): Table {
    Table(if t in f.count then f.keys else f.keys + [t], f.count[t := Get(f, t) + 1])
  }

  /** The table after counting `ts` from left to right. */
  function Tally(ts: seq<string>): Table {
    if |ts| == 0 then Empty else Bump(Tally(ts[..|ts| - 1]), ts[|ts| - 1])
  }

  /** The `forEach` loop that fills the table. */
  method CountFrequencies(ts: seq<string>) returns (f: Table)
    ensures f == Tally(ts)
  {
    f := Empty;
    var i := 0;
    while i < |ts|
      invariant 0 <= i <= |ts|
      invariant f == Tally(ts[..i])
    {
      assert ts[..i + 1][..i] == ts[..i];
      f := Bump(f, ts[i]);
      i := i + 1;
    }
    assert ts[..i] == ts;
  }

  /** Every key of the tally counts the occurrences of that token; absent
      keys are exactly the tokens that do not occur. */
  lemma {:induction false} TallyCounts(ts: seq<string>)
    ensures Wf(Tally(ts))
    ensures forall t :: Get(Tally(ts), t) == multiset(ts)[t]
    ensures forall t :: t in Tally(ts).keys <==> t in ts
  {
    if |ts| > 0 {
      var front, last := ts[..|ts| - 1], ts[|ts| - 1];
      TallyCounts(front);
      assert ts == front + [last];
      assert multiset(ts) == multiset(front) + multiset{last};
      var f := Tally(front);
      var g := Bump(f, last);
      if last !in f.count {
        forall i, j | 0 <= i < j < |g.keys| ensures g.keys[i] != g.keys[j] {
          if j == |f.keys| {
            assert g.keys[i] == f.keys[i] && f.keys[i] in f.keys;
          }
        }
      }
    }
  }

  /** Keys are listed in the order of the tokens' first occurrences. */
  lemma {:induction false} TallyFirstOccurrence(ts: seq<string>)
    ensures forall i :: 0 <= i < |Tally(ts).keys| ==> Tally(ts).keys[i] in ts
    ensures forall i, j :: 0 <= i < j < |Tally(ts).keys| ==>
      IndexOf(ts, Tally(ts).keys[i]) < IndexOf(ts, Tally(ts).keys[j])
  {
    if |ts| > 0 {
      var front, last := ts[..|ts| - 1], ts[|ts| - 1];
      TallyFirstOccurrence(front);
      TallyCounts(front);
      assert ts == front + [last];
      KeysStep(front, last);
    }
  }

  lemma KeysStep(front: seq<string>, last: string)
    requires forall i :: 0 <= i < |Tally(front).keys| ==> Tally(front).keys[i] in front
    requires forall i, j :: 0 <= i < j < |Tally(front).keys| ==>
      IndexOf(front, Tally(front).keys[i]) < IndexOf(front, Tally(front).keys[j])
    requires forall t :: t in Tally(front).keys <==> t in front
    requires forall t :: t in Tally(front).count <==> t in Tally(front).keys
    ensures forall i :: 0 <= i < |Tally(front + [last]).keys| ==> Tally(front + [last]).keys[i] in front + [last]
    ensures forall i, j :: 0 <= i < j < |Tally(front + [last]).keys| ==>
      IndexOf(front + [last], Tally(front + [last]).keys[i]) < IndexOf(front + [last], Tally(front + [last]).keys[j])
  {
    var ts := front + [last];
    assert ts[..|ts| - 1] == front && ts[|ts| - 1] == last;
    var old_keys := Tally(front).keys;
    var keys := Tally(ts).keys;
    assert keys == if last in front then old_keys else old_keys + [last];
    forall k | k in front ensures IndexOf(ts, k) == IndexOf(front, k) {
      IndexOfPrefix(front, [last], k);
    }
    forall i | 0 <= i < |keys| ensures keys[i] in ts {
      if i < |old_keys| {
        assert keys[i] == old_keys[i];
      }
    }
    forall i, j | 0 <= i < j < |keys| ensures IndexOf(ts, keys[i]) < IndexOf(ts, keys[j]) {
      assert keys[i] == old_keys[i] && keys[i] in front;
      if j < |old_keys| {
        assert keys[j] == old_keys[j];
      } else {
        assert keys[j] == last && last !in front;
        assert IndexOf(ts, last) == |ts| - 1;
      }
    }
  }

  /** `Object.entries(freq)`. */
  function Entries(f: Table): (r: seq<(string, nat)>)
    requires Wf(f)
    ensures |r| == |f.keys|
    ensures forall i :: 0 <= i < |r| ==> r[i] == (f.keys[i], f.count[f.keys[i]])
  {
    seq(|f.keys|, i requires 0 <= i < |f.keys| => (f.keys[i], f.count[f.keys[i]]))
  }

  /** The comparator `(a, b) => b[1] - a[1]` as "sorts before". */
  function ByCount(): ((string, nat), (string, nat)) -> bool {
    (a: (string, nat), b: (string, nat)) => a.1 > b.1
  }

  lemma ByCountOrder()
    ensures StrictWeakOrder(ByCount())
  {
  }

  function Keys(es: seq<(string, nat)>): (r: seq<string>)
    ensures |r| == |es| && forall i :: 0 <= i < |es| ==> r[i] == es[i].0
  {
    seq(|es|, i requires 0 <= i < |es| => es[i].0)
  }

  /** The `n` most frequent tokens of `ts`, an order-preserving sort of the
      table's entries by descending count, truncated and projected to keys. */
  function TopKeys(ts: seq<string>, n: nat): seq<string> {
    TallyCounts(ts);
    Keys(Take(SortDesc(Entries(Tally(ts)), ByCount()), n))
  }

  /** Entries of a well-formed table are determined by their key. */
  lemma EntriesByKey(f: Table, e: (string, nat))
    requires Wf(f) && e in Entries(f)
    ensures e.0 in f.keys && e == (e.0, f.count[e.0])
    ensures IndexOf(Entries(f), e) == IndexOf(f.keys, e.0)
  {
    var es := Entries(f);
    var p := IndexOf(es, e);
    assert es[p] == (f.keys[p], f.count[f.keys[p]]);
    IndexOfDistinct(f.keys, p);
  }

  lemma EntriesDistinct(f: Table)
    requires Wf(f)
    ensures Distinct(Entries(f))
  {
  }

  /** At most `n` tokens, each once, each from the input. */
  lemma TopKeysSound(ts: seq<string>, n: nat)
    ensures |TopKeys(ts, n)| <= n
    ensures Distinct(TopKeys(ts, n))
    ensures forall i :: 0 <= i < |TopKeys(ts, n)| ==> TopKeys(ts, n)[i] in ts
  {
    TallyCounts(ts);
    var f := Tally(ts);
    var es := Entries(f);
    var sorted := SortDesc(es, ByCount());
    EntriesDistinct(f);
    PermutationDistinct(es, sorted);
    var r := TopKeys(ts, n);
    forall i | 0 <= i < |r| ensures r[i] == sorted[i].0 && sorted[i] in es {
      assert sorted[i] in multiset(sorted);
    }
    forall i, j | 0 <= i < j < |r| ensures r[i] != r[j] {
      EntriesByKey(f, sorted[i]);
      EntriesByKey(f, sorted[j]);
    }
  }

  /** Counts never increase along the result, and tokens with equal counts
      appear in the order of their first occurrence. */
  lemma TopKeysOrder(ts: seq<string>, n: nat, i: nat, j: nat)
    requires i < j < |TopKeys(ts, n)|
    ensures TopKeys(ts, n)[i] in ts && TopKeys(ts, n)[j] in ts
    ensures multiset(ts)[TopKeys(ts, n)[i]] >= multiset(ts)[TopKeys(ts, n)[j]]
    ensures multiset(ts)[TopKeys(ts, n)[i]] == multiset(ts)[TopKeys(ts, n)[j]] ==>
      IndexOf(ts, TopKeys(ts, n)[i]) < IndexOf(ts, TopKeys(ts, n)[j])
  {
    TallyCounts(ts);
    TallyFirstOccurrence(ts);
    var f := Tally(ts);
    var es := Entries(f);
    var gt := ByCount();
    var sorted := SortDesc(es, gt);
    ByCountOrder();
    SortDescDescending(es, gt);
    var a, b := sorted[i], sorted[j];
    assert a in multiset(sorted) && b in multiset(sorted);
    EntriesByKey(f, a);
    EntriesByKey(f, b);
    assert Get(f, a.0) == a.1 && Get(f, b.0) == b.1;
    assert !gt(b, a);
    if a.1 == b.1 {
      EntriesDistinct(f);
      SortDescTieOrder(es, gt, i, j);
      var p, q := IndexOf(f.keys, a.0), IndexOf(f.keys, b.0);
      assert p < q;
    }
  }

  /** A token that is left out occurs no more often than any chosen one,
      and then the result is full. */
  lemma TopKeysComplete(ts: seq<string>, n: nat, t: string)
    requires t in ts && t !in TopKeys(ts, n)
    ensures |TopKeys(ts, n)| == n
    ensures forall x :: x in TopKeys(ts, n) ==> multiset(ts)[x] >= multiset(ts)[t]
  {
    TallyCounts(ts);
    var f := Tally(ts);
    var es := Entries(f);
    var gt := ByCount();
    var sorted := SortDesc(es, gt);
    ByCountOrder();
    SortDescDescending(es, gt);
    var r := TopKeys(ts, n);
    var p := IndexOf(f.keys, t);
    var e := es[p];
    assert e in multiset(sorted);
    var q :| 0 <= q < |sorted| && sorted[q] == e;
    assert sorted[q].0 == t;
    assert forall m :: 0 <= m < |r| ==> r[m] == sorted[m].0;
    assert q >= |r|;
    assert |r| < |sorted|;
    forall x | x in r ensures multiset(ts)[x] >= multiset(ts)[t] {
      var i :| 0 <= i < |r| && r[i] == x;
      assert sorted[i] in multiset(sorted);
      EntriesByKey(f, sorted[i]);
      assert !gt(sorted[q], sorted[i]);
    }
  }
}
