/** The reordering done by a click on a column header: the comparator that
    handleRequestSort passes to `rows.slice().sort(...)`, a sort that honours
    it, and what any such sort must produce. */
module Sorting {
  import opened Js
  import opened Customers

  /** The direction shown by the header's sort label. */
  datatype Order = Asc | Desc

  /** The comparator of handleRequestSort, for column `f`: when `isAsc`, a row
      whose value is smaller comes first; otherwise a row whose value is
      larger comes first; rows with equal values compare as 0. */
  function Compare(a: Row, b: Row, f: Field, isAsc: bool): (c: int)
    ensures -1 <= c <= 1
    ensures c == 0 <==> Get(a, f) == Get(b, f)
    ensures c <= 0 <==> if isAsc then StrLessEq(Get(a, f), Get(b, f)) else StrLessEq(Get(b, f), Get(a, f))
  {
    var x, y := Get(a, f), Get(b, f);
    StrLessIrreflexive(x);
    StrLessTotal(x, y);
    StrLessAsymmetric(x, y);
    if StrLess(x, y) then (if isAsc then -1 else 1)
    else if StrLess(y, x) then (if isAsc then 1 else -1)
    else 0
  }

  /** The comparator is consistent, as `Array.prototype.sort` requires:
      swapping the arguments negates the answer. */
  lemma CompareAntisymmetric(a: Row, b: Row, f: Field, isAsc: bool)
    ensures Compare(a, b, f, isAsc) == -Compare(b, a, f, isAsc)
  {
    StrLessAsymmetric(Get(a, f), Get(b, f));
  }

  /** Flipping the direction is the same as swapping the arguments. */
  lemma CompareFlip(a: Row, b: Row, f: Field, isAsc: bool)
    ensures Compare(a, b, f, !isAsc) == Compare(b, a, f, isAsc)
  {
  }

  /** "Comes no later than" is transitive. */
  lemma CompareTransitive(a: Row, b: Row, c: Row, f: Field, isAsc: bool)
    requires Compare(a, b, f, isAsc) <= 0 && Compare(b, c, f, isAsc) <= 0
    ensures Compare(a, c, f, isAsc) <= 0
  {
    var x, y, z := Get(a, f), Get(b, f), Get(c, f);
    if isAsc {
      StrLessEqTransitive(x, y, z);
    } else {
      StrLessEqTransitive(z, y, x);
    }
  }

  /** What `sort(comparator)` promises: no pair of rows is out of order. */
  ghost predicate SortedBy(s: seq<Row>, f: Field, isAsc: bool)
  {
    forall i, j :: 0 <= i < j < |s| ==> Compare(s[i], s[j], f, isAsc) <= 0
  }

  /** The values of column `f` never decrease down the rows. */
  ghost predicate NonDecreasing(s: seq<Row>, f: Field)
  {
    forall i, j :: 0 <= i < j < |s| ==> StrLessEq(Get(s[i], f), Get(s[j], f))
  }

  /** The values of column `f` never increase down the rows. */
  ghost predicate NonIncreasing(s: seq<Row>, f: Field)
  {
    forall i, j :: 0 <= i < j < |s| ==> StrLessEq(Get(s[j], f), Get(s[i], f))
  }

  /** A sort with `isAsc` set leaves the column ascending; otherwise it
      leaves it descending. */
  lemma SortedByMeaning(s: seq<Row>, f: Field, isAsc: bool)
    ensures SortedBy(s, f, isAsc) <==> if isAsc then NonDecreasing(s, f) else NonIncreasing(s, f)
  {
  }

  /** A row that may precede every row of the sorted `s` can go in front. */
  lemma PrependSorted(x: Row, s: seq<Row>, f: Field, isAsc: bool)
    requires SortedBy(s, f, isAsc)
    requires forall j :: 0 <= j < |s| ==> Compare(x, s[j], f, isAsc) <= 0
    ensures SortedBy([x] + s, f, isAsc)
  {
    var r := [x] + s;
    forall i, j | 0 <= i < j < |r| ensures Compare(r[i], r[j], f, isAsc) <= 0 {
      if i > 0 {
        assert r[i] == s[i - 1] && r[j] == s[j - 1];
      }
    }
  }

  /** Puts `x` in front of the first row of the sorted `s` that it may
      precede. */
  function Insert(x: Row, s: seq<Row>, f: Field, isAsc: bool): (r: seq<Row>)
    requires SortedBy(s, f, isAsc)
    ensures multiset(r) == multiset(s) + multiset{x}
    ensures forall y :: y in r ==> y == x || y in s
    ensures SortedBy(r, f, isAsc)
  {
    if s == [] then [x]
    else if Compare(x, s[0], f, isAsc) <= 0 then
      InsertFront(x, s, f, isAsc);
      [x] + s
    else
      SortedTail(s, f, isAsc);
      var rest := Insert(x, s[1..], f, isAsc);
      assert s == [s[0]] + s[1..];
      InsertBehind(x, s, rest, f, isAsc);
      [s[0]] + rest
  }

  /** The rows after the first of a sorted list are sorted. */
  lemma SortedTail(s: seq<Row>, f: Field, isAsc: bool)
    requires SortedBy(s, f, isAsc) && s != []
    ensures SortedBy(s[1..], f, isAsc)
  {
    forall i, j | 0 <= i < j < |s[1..]| ensures Compare(s[1..][i], s[1..][j], f, isAsc) <= 0 {
      assert s[1..][i] == s[i + 1] && s[1..][j] == s[j + 1];
    }
  }

  lemma InsertFront(x: Row, s: seq<Row>, f: Field, isAsc: bool)
    requires SortedBy(s, f, isAsc)
    requires s != [] && Compare(x, s[0], f, isAsc) <= 0
    ensures SortedBy([x] + s, f, isAsc)
  {
    forall j | 0 < j < |s| ensures Compare(x, s[j], f, isAsc) <= 0 {
      CompareTransitive(x, s[0], s[j], f, isAsc);
    }
    PrependSorted(x, s, f, isAsc);
  }

  lemma InsertBehind(x: Row, s: seq<Row>, rest: seq<Row>, f: Field, isAsc: bool)
    requires SortedBy(s, f, isAsc) && SortedBy(rest, f, isAsc)
    requires s != [] && Compare(x, s[0], f, isAsc) > 0
    requires forall y :: y in rest ==> y == x || y in s[1..]
    ensures SortedBy([s[0]] + rest, f, isAsc)
  {
    CompareAntisymmetric(x, s[0], f, isAsc);
    forall j | 0 <= j < |rest| ensures Compare(s[0], rest[j], f, isAsc) <= 0 {
      assert rest[j] in rest;
      if rest[j] != x {
        var k :| 0 <= k < |s[1..]| && s[1..][k] == rest[j];
        assert s[k + 1] == rest[j];
      }
    }
    PrependSorted(s[0], rest, f, isAsc);
  }

  /** The rows of `s` reordered by column `f` with the comparator of
      handleRequestSort: an insertion sort that puts each row in front of
      the first later row it may precede, so rows with equal values keep
      their order (a stable sort, as `Array.prototype.sort` is).
      `SortedPermutationsAgree` shows that any sort honouring the comparator
      gives the same column values. */
  function SortRows(s: seq<Row>, f: Field, isAsc: bool): (r: seq<Row>)
    ensures multiset(r) == multiset(s)
    ensures SortedBy(r, f, isAsc)
  {
    if s == [] then []
    else
      assert s == [s[0]] + s[1..];
      Insert(s[0], SortRows(s[1..], f, isAsc), f, isAsc)
  }

  /** The values of column `f`, in row order. */
  function Keys(s: seq<Row>, f: Field): (k: seq<string>)
    ensures |k| == |s|
    ensures forall i :: 0 <= i < |s| ==> k[i] == Get(s[i], f)
  {
    seq(|s|, i requires 0 <= i < |s| => Get(s[i], f))
  }

  lemma KeysAppend(a: seq<Row>, b: seq<Row>, f: Field)
    ensures Keys(a + b, f) == Keys(a, f) + Keys(b, f)
  {
  }

  /** Reordering the rows reorders their values the same way. */
  lemma {:induction false} KeysOfPermutation(s: seq<Row>, t: seq<Row>, f: Field)
    requires multiset(s) == multiset(t)
    ensures multiset(Keys(s, f)) == multiset(Keys(t, f))
    decreases |s|
  {
    if s == [] {
      assert |multiset(t)| == 0;
    } else {
      var x := s[0];
      assert x in multiset(t);
      var j :| 0 <= j < |t| && t[j] == x;
      var t' := t[..j] + t[j + 1..];
      assert t == t[..j] + [x] + t[j + 1..];
      assert s == [x] + s[1..];
      assert multiset(t) == multiset(t[..j]) + multiset{x} + multiset(t[j + 1..]);
      assert multiset(s) == multiset{x} + multiset(s[1..]);
      assert multiset(t') == multiset(t[..j]) + multiset(t[j + 1..]);
      assert multiset(t') == multiset(t) - multiset{x};
      assert multiset(s[1..]) == multiset(s) - multiset{x};
      KeysOfPermutation(s[1..], t', f);
      KeysAppend([x], s[1..], f);
      KeysAppend(t[..j] + [x], t[j + 1..], f);
      KeysAppend(t[..j], [x], f);
      KeysAppend(t[..j], t[j + 1..], f);
    }
  }

  /** A sequence of values in the order `isAsc` asks for. */
  ghost predicate InOrder(k: seq<string>, isAsc: bool)
  {
    forall i, j :: 0 <= i < j < |k| ==> if isAsc then StrLessEq(k[i], k[j]) else StrLessEq(k[j], k[i])
  }

  /** Two orderings of the same values in the same direction start with the
      same value. */
  lemma InOrderSameHead(a: seq<string>, b: seq<string>, isAsc: bool)
    requires a != [] && multiset(a) == multiset(b)
    requires InOrder(a, isAsc) && InOrder(b, isAsc)
    ensures b != [] && a[0] == b[0]
  {
    assert a[0] in multiset(b);
    var j :| 0 <= j < |b| && b[j] == a[0];
    assert b[0] in multiset(a);
    var k :| 0 <= k < |a| && a[k] == b[0];
    StrLessIrreflexive(a[0]);
    StrLessIrreflexive(b[0]);
    if isAsc {
      assert StrLessEq(b[0], b[j]) && StrLessEq(a[0], a[k]);
      StrLessEqAntisymmetric(a[0], b[0]);
    } else {
      assert StrLessEq(b[j], b[0]) && StrLessEq(a[k], a[0]);
      StrLessEqAntisymmetric(b[0], a[0]);
    }
  }

  lemma InOrderTail(a: seq<string>, isAsc: bool)
    requires a != [] && InOrder(a, isAsc)
    ensures InOrder(a[1..], isAsc)
  {
    var t := a[1..];
    forall i, j | 0 <= i < j < |t|
      ensures if isAsc then StrLessEq(t[i], t[j]) else StrLessEq(t[j], t[i])
    {
      assert t[i] == a[i + 1] && t[j] == a[j + 1];
    }
  }

  /** Two orderings of the same values in the same direction are equal. */
  lemma {:induction false} InOrderUnique(a: seq<string>, b: seq<string>, isAsc: bool)
    requires multiset(a) == multiset(b)
    requires InOrder(a, isAsc) && InOrder(b, isAsc)
    ensures a == b
    decreases |a|
  {
    if a == [] {
      assert |multiset(b)| == 0;
    } else {
      InOrderSameHead(a, b, isAsc);
      assert a == [a[0]] + a[1..] && b == [b[0]] + b[1..];
      assert multiset(a[1..]) == multiset(a) - multiset{a[0]};
      assert multiset(b[1..]) == multiset(b) - multiset{a[0]};
      InOrderTail(a, isAsc);
      InOrderTail(b, isAsc);
      InOrderUnique(a[1..], b[1..], isAsc);
    }
  }

  lemma SortedByKeysInOrder(s: seq<Row>, f: Field, isAsc: bool)
    requires SortedBy(s, f, isAsc)
    ensures InOrder(Keys(s, f), isAsc)
  {
    SortedByMeaning(s, f, isAsc);
  }

  /** Any two results of sorting the same rows by the same column in the same
      direction show the same column values in the same order; they can
      differ only in how rows with equal values are arranged. */
  lemma SortedPermutationsAgree(s: seq<Row>, t: seq<Row>, f: Field, isAsc: bool)
    requires multiset(s) == multiset(t)
    requires SortedBy(s, f, isAsc) && SortedBy(t, f, isAsc)
    ensures Keys(s, f) == Keys(t, f)
  {
    KeysOfPermutation(s, t, f);
    SortedByKeysInOrder(s, f, isAsc);
    SortedByKeysInOrder(t, f, isAsc);
    InOrderUnique(Keys(s, f), Keys(t, f), isAsc);
  }

  /** `s` back to front. */
  function Reverse<T>(s: seq<T>): (r: seq<T>)
    ensures |r| == |s|
    ensures forall i :: 0 <= i < |s| ==> r[i] == s[|s| - 1 - i]
  {
    seq(|s|, i requires 0 <= i < |s| => s[|s| - 1 - i])
  }

  lemma {:induction false} ReverseMultiset<T>(s: seq<T>)
    ensures multiset(Reverse(s)) == multiset(s)
  {
    if s != [] {
      ReverseMultiset(s[1..]);
      assert Reverse(s) == Reverse(s[1..]) + [s[0]];
      assert s == [s[0]] + s[1..];
    }
  }

  /** Read bottom-up, rows sorted one way are sorted the other way. */
  lemma ReverseSorted(s: seq<Row>, f: Field, isAsc: bool)
    requires SortedBy(s, f, isAsc)
    ensures SortedBy(Reverse(s), f, !isAsc)
  {
    var r := Reverse(s);
    forall i, j | 0 <= i < j < |r| ensures Compare(r[i], r[j], f, !isAsc) <= 0 {
      CompareFlip(r[i], r[j], f, isAsc);
      assert r[j] == s[|s| - 1 - j] && r[i] == s[|s| - 1 - i];
    }
  }

  /** Sorting the rows one way and then the other shows the column values
      in exactly reversed order (rows with equal values may be arranged
      differently). */
  lemma ResortReverses(s: seq<Row>, f: Field, isAsc: bool)
    ensures Keys(SortRows(SortRows(s, f, isAsc), f, !isAsc), f) == Reverse(Keys(SortRows(s, f, isAsc), f))
  {
    var u := SortRows(s, f, isAsc);
    var v := SortRows(u, f, !isAsc);
    var w := Reverse(u);
    ReverseSorted(u, f, isAsc);
    ReverseMultiset(u);
    assert multiset(v) == multiset(w);
    SortedPermutationsAgree(v, w, f, !isAsc);
    KeysReverse(u, f);
  }

  lemma KeysReverse(s: seq<Row>, f: Field)
    ensures Keys(Reverse(s), f) == Reverse(Keys(s, f))
  {
  }

  /** Two rows the comparator puts the other way round are swapped. */
  lemma SortPair(a: Row, b: Row, f: Field, isAsc: bool)
    requires Compare(a, b, f, isAsc) > 0
    ensures SortRows([a, b], f, isAsc) == [b, a]
  {
    assert [a, b][1..] == [b];
    SortSingle(b, f, isAsc);
    InsertBehindOne(a, b, f, isAsc);
  }

  /** Two rows with equal values in the column keep their order. */
  lemma SortPairTie(a: Row, b: Row, f: Field, isAsc: bool)
    requires Get(a, f) == Get(b, f)
    ensures SortRows([a, b], f, isAsc) == [a, b]
  {
    assert [a, b][1..] == [b];
    SortSingle(b, f, isAsc);
    InsertBeforeOne(a, b, f, isAsc);
  }

  lemma InsertBeforeOne(a: Row, b: Row, f: Field, isAsc: bool)
    requires Compare(a, b, f, isAsc) <= 0
    ensures Insert(a, [b], f, isAsc) == [a, b]
  {
  }

  lemma SortSingle(b: Row, f: Field, isAsc: bool)
    ensures SortRows([b], f, isAsc) == [b]
  {
    assert [b][1..] == [];
  }

  lemma InsertBehindOne(a: Row, b: Row, f: Field, isAsc: bool)
    requires Compare(a, b, f, isAsc) > 0
    ensures Insert(a, [b], f, isAsc) == [b, a]
  {
    assert [b][1..] == [];
  }

  /** Two rows named Bob and Amy, in that order: sorting by name with
      `isAsc` set gives Amy, Bob; sorting that result without it gives
      Bob, Amy. */
  lemma SortExample(amy: Row, bob: Row)
    requires amy.name == "Amy" && bob.name == "Bob"
    ensures SortRows([bob, amy], Name, true) == [amy, bob]
    ensures SortRows([amy, bob], Name, false) == [bob, amy]
  {
    assert StrLess("Amy", "Bob");
    StrLessAsymmetric("Amy", "Bob");
    SortPair(bob, amy, Name, true);
    SortPair(amy, bob, Name, false);
  }
}
