/** The stable sort that `Array.prototype.sort` performs, as an insertion
    sort into descending order under a "greater than" relation. */
module Sorting {

  /** `gt` is a strict weak order: asymmetric, and "not greater" is transitive. */
  ghost predicate StrictWeakOrder<T(!new)>(gt: (T, T) -> bool) {
    && (forall a, b :: gt(a, b) ==> !gt(b, a))
    && (forall a, b, c :: !gt(a, b) && !gt(b, c) ==> !gt(a, c))
  }

  /** Neither element is greater than the other. */
  predicate Tie<T>(a: T, b: T, gt: (T, T) -> bool) {
    !gt(a, b) && !gt(b, a)
  }

  /** Inserts `x` after the leading elements of `s` that are greater than it. */
  function Insert<T>(x: T, s: seq<T>, gt: (T, T) -> bool): (r: seq<T>)
    ensures multiset(r) == multiset(s) + multiset{x}
  {
    if |s| == 0 || !gt(s[0], x) then [x] + s
    else
      assert s == [s[0]] + s[1..];
      [s[0]] + Insert(x, s[1..], gt)
  }

  /** Sorts into descending order, moving an element in front of another
      only when `gt` says it is greater, so equal elements keep their order. */
  function SortDesc<T>(s: seq<T>, gt: (T, T) -> bool): (r: seq<T>)
    ensures multiset(r) == multiset(s)
  {
    if |s| == 0 then []
    else
      assert s == [s[0]] + s[1..];
      Insert(s[0], SortDesc(s[1..], gt), gt)
  }

  /** No element is greater than one before it. */
  predicate Descending<T>(r: seq<T>, gt: (T, T) -> bool) {
    forall i, j :: 0 <= i < j < |r| ==> !gt(r[j], r[i])
  }

  /** The elements of `s` tied with `x`, in their order in `s`. */
  function Tied<T>(s: seq<T>, x: T, gt: (T, T) -> bool): seq<T> {
    if |s| == 0 then [] else (if Tie(s[0], x, gt) then [s[0]] else []) + Tied(s[1..], x, gt)
  }

  lemma {:induction false} TiedAppend<T>(a: seq<T>, b: seq<T>, x: T, gt: (T, T) -> bool)
    ensures Tied(a + b, x, gt) == Tied(a, x, gt) + Tied(b, x, gt)
  {
    if |a| == 0 {
      assert a + b == b;
    } else {
      var h: seq<T> := if Tie(a[0], x, gt) then [a[0]] else [];
      assert (a + b)[0] == a[0];
      assert (a + b)[1..] == a[1..] + b;
      assert Tied(a + b, x, gt) == h + Tied(a[1..] + b, x, gt);
      TiedAppend(a[1..], b, x, gt);
      assert Tied(a, x, gt) == h + Tied(a[1..], x, gt);
    }
  }

  lemma {:induction false} InsertDescending<T(!new)>(x: T, s: seq<T>, gt: (T, T) -> bool)
    requires StrictWeakOrder(gt)
    requires Descending(s, gt)
    ensures Descending(Insert(x, s, gt), gt)
  {
    var r := Insert(x, s, gt);
    if |s| == 0 || !gt(s[0], x) {
      assert r == [x] + s;
    } else {
      var t := Insert(x, s[1..], gt);
      InsertDescending(x, s[1..], gt);
      assert r == [s[0]] + t;
      forall j | 0 < j < |r| ensures !gt(r[j], r[0]) {
        assert r[j] in multiset(t);
        assert r[j] in multiset(s[1..]) || r[j] == x;
        if r[j] != x {
          var k :| 0 <= k < |s[1..]| && s[1..][k] == r[j];
          assert s[k + 1] == r[j];
        }
      }
    }
  }

  /** The result of `SortDesc` is in descending order. */
  lemma {:induction false} SortDescDescending<T(!new)>(s: seq<T>, gt: (T, T) -> bool)
    requires StrictWeakOrder(gt)
    ensures Descending(SortDesc(s, gt), gt)
  {
    if |s| > 0 {
      SortDescDescending(s[1..], gt);
      InsertDescending(s[0], SortDesc(s[1..], gt), gt);
    }
  }

  /** An element strictly greater than `x` is not tied with anything `x` is tied with. */
  lemma TieExcludes<T(!new)>(x: T, z: T, y: T, gt: (T, T) -> bool)
    requires StrictWeakOrder(gt)
    requires gt(z, x)
    ensures !(Tie(z, y, gt) && Tie(x, y, gt))
    ensures Tied([z], y, gt) == [] || Tied([x], y, gt) == []
  {
    assert !gt(z, y) && !gt(y, x) ==> !gt(z, x);
  }

  lemma {:induction false} InsertTied<T(!new)>(x: T, s: seq<T>, y: T, gt: (T, T) -> bool)
    requires StrictWeakOrder(gt)
    ensures Tied(Insert(x, s, gt), y, gt) == Tied([x], y, gt) + Tied(s, y, gt)
  {
    if |s| == 0 || !gt(s[0], x) {
      TiedAppend([x], s, y, gt);
    } else {
      var t := Insert(x, s[1..], gt);
      InsertTied(x, s[1..], y, gt);
      TiedAppend([s[0]], t, y, gt);
      TiedAppend([s[0]], s[1..], y, gt);
      assert s == [s[0]] + s[1..];
      var a, b := Tied([s[0]], y, gt), Tied([x], y, gt);
      TieExcludes(x, s[0], y, gt);
      assert a == [] || b == [];
      calc {
        Tied(Insert(x, s, gt), y, gt);
        a + Tied(t, y, gt);
        a + (b + Tied(s[1..], y, gt));
        b + (a + Tied(s[1..], y, gt));
        b + Tied(s, y, gt);
      }
    }
  }

  /** Stability: the elements tied with any `x` appear in the sorted result
      in the same order as in the input. */
  lemma {:induction false} SortDescStable<T(!new)>(s: seq<T>, x: T, gt: (T, T) -> bool)
    requires StrictWeakOrder(gt)
    ensures Tied(SortDesc(s, gt), x, gt) == Tied(s, x, gt)
  {
    if |s| > 0 {
      SortDescStable(s[1..], x, gt);
      InsertTied(s[0], SortDesc(s[1..], gt), x, gt);
      TiedAppend([s[0]], s[1..], x, gt);
      assert s == [s[0]] + s[1..];
    }
  }

  /** `slice(0, n)`. */
  function Take<T>(s: seq<T>, n: nat): (r: seq<T>)
    ensures |r| <= n && |r| <= |s|
    ensures r == s[..|r|]
    ensures |r| < n ==> r == s
  {
    if n <= |s| then s[..n] else s
  }

  /** No element occurs twice. */
  predicate Distinct<T(==)>(s: seq<T>) {
    forall i, j :: 0 <= i < j < |s| ==> s[i] != s[j]
  }

  /** The position of the first occurrence of `x`. */
  function IndexOf<T(==)>(s: seq<T>, x: T): (k: nat)
    requires x in s
    ensures k < |s| && s[k] == x && x !in s[..k]
  {
    if s[0] == x then 0 else 1 + IndexOf(s[1..], x)
  }

  /** `Insert` puts `x` right after a prefix of elements greater than it. */
  lemma {:induction false} InsertAt<T>(x: T, t: seq<T>, gt: (T, T) -> bool) returns (k: nat)
    ensures k <= |t| && Insert(x, t, gt) == t[..k] + [x] + t[k..]
    ensures forall m :: 0 <= m < k ==> gt(t[m], x)
  {
    if |t| == 0 || !gt(t[0], x) {
      k := 0;
    } else {
      var k' := InsertAt(x, t[1..], gt);
      k := k' + 1;
      assert t[..k] == [t[0]] + t[1..][..k'];
      assert t[k..] == t[1..][k'..];
    }
  }

  lemma IndexOfTail<T>(s: seq<T>, y: T)
    requires |s| > 0 && y in s[1..] && y != s[0]
    ensures IndexOf(s, y) == 1 + IndexOf(s[1..], y)
  {
  }

  /** The first sorting step: the head of `s` is inserted into the sorted tail. */
  lemma SortDescStep<T>(s: seq<T>, gt: (T, T) -> bool) returns (k: nat)
    requires |s| > 0
    ensures k <= |SortDesc(s[1..], gt)| == |s| - 1
    ensures |SortDesc(s, gt)| == |s|
    ensures SortDesc(s, gt)[k] == s[0]
    ensures forall m :: 0 <= m < k ==> SortDesc(s, gt)[m] == SortDesc(s[1..], gt)[m]
    ensures forall m :: k < m < |s| ==> SortDesc(s, gt)[m] == SortDesc(s[1..], gt)[m - 1]
    ensures forall m :: 0 <= m < k ==> gt(SortDesc(s[1..], gt)[m], s[0])
  {
    var t := SortDesc(s[1..], gt);
    k := InsertAt(s[0], t, gt);
    assert |multiset(t)| == |multiset(s[1..])|;
  }

  lemma DistinctHead<T>(s: seq<T>)
    requires |s| > 0 && Distinct(s)
    ensures s[0] !in s[1..] && Distinct(s[1..])
  {
    forall m | 0 <= m < |s| - 1 ensures s[1..][m] != s[0] {
      assert s[1..][m] == s[m + 1];
    }
  }

  lemma SortDescMember<T>(s: seq<T>, gt: (T, T) -> bool, m: nat)
    requires m < |SortDesc(s, gt)|
    ensures SortDesc(s, gt)[m] in s
  {
    assert SortDesc(s, gt)[m] in multiset(SortDesc(s, gt));
  }

  /** Order of first occurrences in the tail carries over to the whole sequence. */
  lemma IndexOfLift<T>(s: seq<T>, a: T, b: T)
    requires |s| > 0 && a in s[1..] && b in s[1..] && a != s[0] && b != s[0]
    requires IndexOf(s[1..], a) < IndexOf(s[1..], b)
    ensures IndexOf(s, a) < IndexOf(s, b)
  {
    IndexOfTail(s, a);
    IndexOfTail(s, b);
  }

  /** Stability stated on positions: of two tied elements of the sorted
      result, the earlier one comes earlier in the (duplicate-free) input. */
  lemma {:induction false} SortDescTieOrder<T>(s: seq<T>, gt: (T, T) -> bool, i: nat, j: nat)
    requires Distinct(s)
    requires i < j < |SortDesc(s, gt)|
    requires Tie(SortDesc(s, gt)[i], SortDesc(s, gt)[j], gt)
    ensures SortDesc(s, gt)[i] in s && SortDesc(s, gt)[j] in s
    ensures IndexOf(s, SortDesc(s, gt)[i]) < IndexOf(s, SortDesc(s, gt)[j])
  {
    var r := SortDesc(s, gt);
    var a, b := r[i], r[j];
    SortDescMember(s, gt, i);
    SortDescMember(s, gt, j);
    var s' := s[1..];
    var t := SortDesc(s', gt);
    DistinctHead(s);
    var k := SortDescStep(s, gt);
    var i', j' := if i < k then i else i - 1, if j < k then j else j - 1;
    if i == k {
      assert a == s[0] && b == t[j'];
      SortDescMember(s', gt, j');
      IndexOfTail(s, b);
    } else if j != k {
      assert a == t[i'] && b == t[j'] && i' < j';
      SortDescMember(s', gt, i');
      SortDescMember(s', gt, j');
      SortDescTieOrder(s', gt, i', j');
      IndexOfLift(s, a, b);
    }
  }

  /** In a duplicate-free sequence the first occurrence is the only one. */
  lemma IndexOfDistinct<T>(s: seq<T>, p: nat)
    requires Distinct(s) && p < |s|
    ensures IndexOf(s, s[p]) == p
  {
    var q := IndexOf(s, s[p]);
    assert s[q] == s[p];
  }

  /** Appending does not move a first occurrence. */
  lemma {:induction false} IndexOfPrefix<T>(a: seq<T>, b: seq<T>, x: T)
    requires x in a
    ensures x in a + b && IndexOf(a + b, x) == IndexOf(a, x)
  {
    assert (a + b)[0] == a[0];
    if a[0] != x {
      assert (a + b)[1..] == a[1..] + b;
      IndexOfPrefix(a[1..], b, x);
    }
  }

  /** Distinctness as multiplicities of at most one. */
  lemma {:induction false} DistinctMultiset<T>(s: seq<T>)
    ensures Distinct(s) <==> forall x :: multiset(s)[x] <= 1
  {
    if |s| > 0 {
      DistinctMultiset(s[1..]);
      assert s == [s[0]] + s[1..];
      assert multiset(s) == multiset{s[0]} + multiset(s[1..]);
      if Distinct(s) {
        DistinctHead(s);
      } else {
        var i, j :| 0 <= i < j < |s| && s[i] == s[j];
        if i == 0 {
          assert s[j] in s[1..];
          assert multiset(s)[s[0]] >= 2;
        } else {
          assert s[1..][i - 1] == s[1..][j - 1];
          assert !Distinct(s[1..]);
        }
      }
      if forall x :: multiset(s)[x] <= 1 {
        assert multiset(s)[s[0]] == 1 + multiset(s[1..])[s[0]];
        assert s[0] !in s[1..];
        assert forall x :: multiset(s[1..])[x] <= multiset(s)[x];
        assert Distinct(s[1..]);
        forall i, j | 0 <= i < j < |s| ensures s[i] != s[j] {
          if i == 0 {
            assert s[j] in s[1..];
          } else {
            assert s[1..][i - 1] == s[i] && s[1..][j - 1] == s[j];
          }
        }
      }
    }
  }

  /** A permutation of a duplicate-free sequence is duplicate-free. */
  lemma PermutationDistinct<T>(a: seq<T>, b: seq<T>)
    requires multiset(a) == multiset(b) && Distinct(a)
    ensures Distinct(b)
  {
    DistinctMultiset(a);
    DistinctMultiset(b);
  }

  /** Elements with pairwise different keys stay so under any permutation. */
  lemma PermutationDistinctKeys<T, K>(a: seq<T>, b: seq<T>, key: T -> K)
    requires multiset(a) == multiset(b)
    requires forall i, j :: 0 <= i < j < |a| ==> key(a[i]) != key(a[j])
    ensures forall i, j :: 0 <= i < j < |b| ==> key(b[i]) != key(b[j])
  {
    PermutationDistinct(a, b);
    forall i, j | 0 <= i < j < |b| ensures key(b[i]) != key(b[j]) {
      assert b[i] in multiset(a) && b[j] in multiset(a);
      var x :| 0 <= x < |a| && a[x] == b[i];
      var y :| 0 <= y < |a| && a[y] == b[j];
      assert x != y;
    }
  }
}
