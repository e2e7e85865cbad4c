/** Models of the JavaScript built-ins that the table's handlers call:
    the relational operator `<` on strings, `String.prototype.toLowerCase`
    (ASCII letters only), `String.prototype.includes`,
    `Array.prototype.indexOf`, `Array.prototype.slice` and
    `Array.prototype.filter`. It also models `String.prototype.toUpperCase`,
    which no handler calls, to state that the search ignores the case the
    text was typed in. */
module Js {

  // ---------------------------------------------------------------------
  // `a < b` on strings
  // ---------------------------------------------------------------------

  /** `a < b` for two strings: compare character by character; at the first
      difference the smaller character wins, and a proper prefix is smaller
      than the longer string. */
  function StrLess(a: string, b: string): (r: bool)
    ensures r ==> a != b && |b| > 0
  {
    if |a| == 0 then |b| > 0
    else if |b| == 0 then false
    else if a[0] != b[0] then a[0] < b[0]
    else StrLess(a[1..], b[1..])
  }

  /** Reference definition: `a < b` holds when the two strings agree on
      their first `k` characters and then either `a` ends while `b` goes on,
      or `a`'s next character is smaller. */
  ghost predicate LessAt(a: string, b: string, k: nat)
  {
    && k <= |a| && k <= |b|
    && a[..k] == b[..k]
    && ((k == |a| && k < |b|) || (k < |a| && k < |b| && a[k] < b[k]))
  }

  lemma {:induction false} StrLessIffLessAt(a: string, b: string)
    ensures StrLess(a, b) <==> exists k: nat :: LessAt(a, b, k)
  {
    if |a| == 0 || |b| == 0 {
      if StrLess(a, b) {
        assert LessAt(a, b, 0);
      }
    } else if a[0] != b[0] {
      if StrLess(a, b) {
        assert LessAt(a, b, 0);
      }
      forall k: nat | LessAt(a, b, k) ensures StrLess(a, b) {
        if k > 0 {
          assert a[..k][0] == b[..k][0];
        }
      }
    } else {
      StrLessIffLessAt(a[1..], b[1..]);
      if StrLess(a, b) {
        var k: nat :| LessAt(a[1..], b[1..], k);
        assert a[..k + 1] == [a[0]] + a[1..][..k];
        assert b[..k + 1] == [b[0]] + b[1..][..k];
        assert LessAt(a, b, k + 1);
      }
      forall k: nat | LessAt(a, b, k) ensures StrLess(a, b) {
        assert k > 0;
        assert a[1..][..k - 1] == a[..k][1..];
        assert b[1..][..k - 1] == b[..k][1..];
        assert LessAt(a[1..], b[1..], k - 1);
      }
    }
  }

  lemma {:induction false} StrLessIrreflexive(a: string)
    ensures !StrLess(a, a)
  {
    if |a| > 0 {
      StrLessIrreflexive(a[1..]);
    }
  }

  lemma {:induction false} StrLessAsymmetric(a: string, b: string)
    ensures StrLess(a, b) ==> !StrLess(b, a)
  {
    if |a| > 0 && |b| > 0 && a[0] == b[0] {
      StrLessAsymmetric(a[1..], b[1..]);
    }
  }

  lemma {:induction false} StrLessTotal(a: string, b: string)
    ensures a == b || StrLess(a, b) || StrLess(b, a)
  {
    if |a| > 0 && |b| > 0 && a[0] == b[0] {
      StrLessTotal(a[1..], b[1..]);
      if a[1..] == b[1..] {
        assert a == [a[0]] + a[1..] && b == [b[0]] + b[1..];
      }
    }
  }

  lemma {:induction false} StrLessTransitive(a: string, b: string, c: string)
    requires StrLess(a, b) && StrLess(b, c)
    ensures StrLess(a, c)
  {
    if |a| > 0 && |b| > 0 && |c| > 0 && a[0] == b[0] && b[0] == c[0] {
      StrLessTransitive(a[1..], b[1..], c[1..]);
    }
  }

  /** `a <= b` in the order of `StrLess`, that is `!(b < a)`. */
  predicate StrLessEq(a: string, b: string)
  {
    !StrLess(b, a)
  }

  lemma StrLessEqTransitive(a: string, b: string, c: string)
    requires StrLessEq(a, b) && StrLessEq(b, c)
    ensures StrLessEq(a, c)
  {
    StrLessTotal(a, b);
    if StrLess(c, a) && StrLess(a, b) {
      StrLessTransitive(c, a, b);
    }
  }

  lemma StrLessEqAntisymmetric(a: string, b: string)
    requires StrLessEq(a, b) && StrLessEq(b, a)
    ensures a == b
  {
    StrLessTotal(a, b);
  }

  // ---------------------------------------------------------------------
  // toLowerCase / toUpperCase, ASCII letters only
  // ---------------------------------------------------------------------

  function LowerChar(c: char): char
  {
    if 'A' <= c <= 'Z' then (c as int + 32) as char else c
  }

  function UpperChar(c: char): char
  {
    if 'a' <= c <= 'z' then (c as int - 32) as char else c
  }

  /** `s.toLowerCase()`: folds each ASCII capital to its small letter. */
  function Lower(s: string): (r: string)
    ensures |r| == |s|
    ensures forall i :: 0 <= i < |s| ==> r[i] == LowerChar(s[i])
  {
    seq(|s|, i requires 0 <= i < |s| => LowerChar(s[i]))
  }

  /** `s.toUpperCase()`: folds each ASCII small letter to its capital. */
  function Upper(s: string): (r: string)
    ensures |r| == |s|
    ensures forall i :: 0 <= i < |s| ==> r[i] == UpperChar(s[i])
  {
    seq(|s|, i requires 0 <= i < |s| => UpperChar(s[i]))
  }

  /** Lower-casing forgets the case the text was typed in. */
  lemma LowerOfUpper(s: string)
    ensures Lower(Upper(s)) == Lower(s)
  {
    forall i | 0 <= i < |s| ensures Lower(Upper(s))[i] == Lower(s)[i] {
      var c := s[i];
      if 'a' <= c <= 'z' {
        assert UpperChar(c) as int == c as int - 32;
      }
    }
  }

  // ---------------------------------------------------------------------
  // String.prototype.includes
  // ---------------------------------------------------------------------

  /** `needle` occurs in `hay` starting at index `i`. */
  ghost predicate OccursAt(needle: string, hay: string, i: int)
  {
    0 <= i && i + |needle| <= |hay| && hay[i..i + |needle|] == needle
  }

  /** `hay.includes(needle)`: tries every start position from the left. */
  function Includes(hay: string, needle: string): (b: bool)
    ensures b ==> |needle| <= |hay|
    ensures |needle| == 0 ==> b
    decreases |hay|
  {
    if |needle| > |hay| then false
    else if hay[..|needle|] == needle then true
    else Includes(hay[1..], needle)
  }

  lemma {:induction false} IncludesIffOccurs(hay: string, needle: string)
    ensures Includes(hay, needle) <==> exists i :: OccursAt(needle, hay, i)
    decreases |hay|
  {
    if |needle| > |hay| {
    } else if hay[..|needle|] == needle {
      assert OccursAt(needle, hay, 0);
    } else {
      IncludesIffOccurs(hay[1..], needle);
      if Includes(hay[1..], needle) {
        var i :| OccursAt(needle, hay[1..], i);
        assert hay[1..][i..i + |needle|] == hay[i + 1..i + 1 + |needle|];
        assert OccursAt(needle, hay, i + 1);
      }
      forall i | OccursAt(needle, hay, i) ensures Includes(hay, needle) {
        assert i != 0;
        assert hay[1..][i - 1..i - 1 + |needle|] == hay[i..i + |needle|];
        assert OccursAt(needle, hay[1..], i - 1);
      }
    }
  }

  /** Every string includes the empty string. */
  lemma IncludesEmpty(hay: string)
    ensures Includes(hay, "")
  {
  }

  // ---------------------------------------------------------------------
  // Array.prototype.indexOf
  // ---------------------------------------------------------------------

  /** `s.indexOf(x)`: the first index holding `x`, or -1 when there is none. */
  function IndexOf<T(==)>(s: seq<T>, x: T): (r: int)
    ensures -1 <= r < |s|
    ensures r == -1 <==> x !in s
    ensures 0 <= r ==> s[r] == x && x !in s[..r]
  {
    if s == [] then -1
    else if s[0] == x then 0
    else
      var k := IndexOf(s[1..], x);
      if k == -1 then -1
      else
        assert s[..k + 1] == [s[0]] + s[1..][..k];
        k + 1
  }

  // ---------------------------------------------------------------------
  // Array.prototype.slice
  // ---------------------------------------------------------------------

  /** How `slice` reads one of its arguments against a length: a negative
      index counts from the end, and the result is clamped to [0, len]. */
  function RelativeIndex(len: nat, k: int): (r: nat)
    ensures r <= len
    ensures 0 <= k ==> r == if k < len then k else len
    ensures k < 0 ==> r == if len + k < 0 then 0 else len + k
  {
    if k < 0 then (if len + k < 0 then 0 else len + k)
    else if k > len then len
    else k
  }

  /** `s.slice(start, end)`: the elements from the resolved start up to,
      not including, the resolved end; empty when the end is not after the
      start. */
  function Slice<T>(s: seq<T>, start: int, end: int): (r: seq<T>)
    ensures var from, to := RelativeIndex(|s|, start), RelativeIndex(|s|, end);
      && |r| == (if from < to then to - from else 0)
      && forall k :: 0 <= k < |r| ==> r[k] == s[from + k]
  {
    var from := RelativeIndex(|s|, start);
    var to := RelativeIndex(|s|, end);
    if from < to then s[from..to] else []
  }

  /** `s.slice(start)`: the end defaults to the length, so the result is
      the suffix from `start`, or the last `-start` elements when `start`
      is negative. */
  function SliceFrom<T>(s: seq<T>, start: int): (r: seq<T>)
    ensures 0 <= start <= |s| ==> r == s[start..]
    ensures start < 0 ==> |r| == (if -start < |s| then -start else |s|) && r == s[|s| - |r|..]
  {
    Slice(s, start, |s|)
  }

  // ---------------------------------------------------------------------
  // Array.prototype.filter
  // ---------------------------------------------------------------------

  /** `s.filter(keep)`: the elements `keep` accepts, in their order. */
  function Filter<T>(s: seq<T>, keep: T -> bool): (r: seq<T>)
    ensures |r| <= |s|
    ensures forall x :: x in r ==> x in s && keep(x)
  {
    if s == [] then []
    else (if keep(s[0]) then [s[0]] else []) + Filter(s[1..], keep)
  }

  /** Each element is kept exactly as often as it occurs when `keep`
      accepts it, and dropped when it does not. */
  lemma {:induction false} FilterCounts<T>(s: seq<T>, keep: T -> bool)
    ensures forall x :: multiset(Filter(s, keep))[x] == if keep(x) then multiset(s)[x] else 0
  {
    if s != [] {
      FilterCounts(s[1..], keep);
      assert s == [s[0]] + s[1..];
    }
  }

  lemma FilterCons<T>(x: T, rest: seq<T>, keep: T -> bool)
    ensures Filter([x] + rest, keep) == (if keep(x) then [x] else []) + Filter(rest, keep)
  {
    assert ([x] + rest)[1..] == rest;
  }

  /** Nothing is dropped when `keep` accepts every element. */
  lemma {:induction false} FilterKeepsAll<T>(s: seq<T>, keep: T -> bool)
    requires forall x :: x in s ==> keep(x)
    ensures Filter(s, keep) == s
  {
    if s != [] {
      assert s[0] in s;
      assert forall x :: x in s[1..] ==> x in s;
      FilterKeepsAll(s[1..], keep);
      assert s == [s[0]] + s[1..];
    }
  }

  /** `a` is `b` with some elements left out, the rest in the same order. */
  predicate IsSubsequence<T(==)>(a: seq<T>, b: seq<T>)
  {
    if a == [] then true
    else if b == [] then false
    else if a[0] == b[0] then IsSubsequence(a[1..], b[1..])
    else IsSubsequence(a, b[1..])
  }

  lemma {:induction false} SubsequenceMultiset<T>(a: seq<T>, b: seq<T>)
    requires IsSubsequence(a, b)
    ensures multiset(a) <= multiset(b)
  {
    if a != [] {
      assert b == [b[0]] + b[1..];
      if a[0] == b[0] {
        SubsequenceMultiset(a[1..], b[1..]);
        assert a == [a[0]] + a[1..];
      } else {
        SubsequenceMultiset(a, b[1..]);
      }
    }
  }

  /** A subsequence of the tail is a subsequence of the whole. */
  lemma SubsequenceSkip<T>(a: seq<T>, b: seq<T>)
    requires b != [] && IsSubsequence(a, b[1..])
    ensures IsSubsequence(a, b)
    decreases |b|, |a|
  {
    if a != [] && a[0] == b[0] {
      SubsequenceTail(a, b[1..]);
    }
  }

  /** Dropping the first element of a subsequence leaves a subsequence. */
  lemma SubsequenceTail<T>(a: seq<T>, b: seq<T>)
    requires a != [] && IsSubsequence(a, b)
    ensures IsSubsequence(a[1..], b)
    decreases |b|, |a|
  {
    if a[0] != b[0] {
      SubsequenceTail(a, b[1..]);
    }
    SubsequenceSkip(a[1..], b);
  }

  /** The kept elements stay in their original order. */
  lemma {:induction false} FilterIsSubsequence<T>(s: seq<T>, keep: T -> bool)
    ensures IsSubsequence(Filter(s, keep), s)
  {
    if s != [] {
      FilterIsSubsequence(s[1..], keep);
      var r := Filter(s, keep);
      if keep(s[0]) {
        assert r == [s[0]] + Filter(s[1..], keep);
        assert r[1..] == Filter(s[1..], keep);
      } else {
        assert r == Filter(s[1..], keep);
        SubsequenceSkip(r, s);
      }
    }
  }

  /** `r` holds each element `keep` accepts as often as `s` does, and
      nothing else. */
  ghost predicate KeptCounts<T(!new)>(r: seq<T>, s: seq<T>, keep: T -> bool)
  {
    forall x :: multiset(r)[x] == if keep(x) then multiset(s)[x] else 0
  }

  /** When the head of `s` is accepted, such an `r` starts with it. */
  lemma FilterUniqueHead<T(!new)>(r: seq<T>, s: seq<T>, keep: T -> bool)
    requires s != [] && keep(s[0])
    requires IsSubsequence(r, s) && KeptCounts(r, s, keep)
    ensures r != [] && r[0] == s[0]
  {
    var y, rest := s[0], s[1..];
    assert s == [y] + rest;
    assert multiset(r)[y] == multiset(s)[y] == multiset(rest)[y] + 1;
    if r[0] != y {
      SubsequenceMultiset(r, rest);
      assert false;
    }
  }

  /** ... and the rest of `r` is such a subsequence of the rest of `s`. */
  lemma FilterUniqueKept<T(!new)>(r: seq<T>, s: seq<T>, keep: T -> bool)
    requires s != [] && keep(s[0])
    requires IsSubsequence(r, s) && KeptCounts(r, s, keep)
    ensures r != [] && r[0] == s[0]
    ensures IsSubsequence(r[1..], s[1..]) && KeptCounts(r[1..], s[1..], keep)
  {
    FilterUniqueHead(r, s, keep);
    KeptCountsTail(r, s, keep);
  }

  /** Dropping a common first element from both lists keeps the counts. */
  lemma KeptCountsTail<T(!new)>(r: seq<T>, s: seq<T>, keep: T -> bool)
    requires r != [] && s != [] && r[0] == s[0]
    requires KeptCounts(r, s, keep)
    ensures KeptCounts(r[1..], s[1..], keep)
  {
    var y := s[0];
    assert r == [y] + r[1..];
    assert s == [y] + s[1..];
    assert multiset(r[1..]) == multiset(r) - multiset{y};
    assert multiset(s[1..]) == multiset(s) - multiset{y};
  }

  /** When the head of `s` is rejected, such an `r` skips it. */
  lemma FilterUniqueDropped<T(!new)>(r: seq<T>, s: seq<T>, keep: T -> bool)
    requires s != [] && !keep(s[0])
    requires IsSubsequence(r, s) && KeptCounts(r, s, keep)
    ensures IsSubsequence(r, s[1..]) && KeptCounts(r, s[1..], keep)
  {
    var y, rest := s[0], s[1..];
    assert s == [y] + rest;
    assert multiset(rest) == multiset(s) - multiset{y};
    assert multiset(r)[y] == 0;
    if r != [] {
      assert r[0] in multiset(r);
    }
  }

  /** Reference definition: the filter result is the ONLY subsequence of
      `s` that holds every accepted element as often as `s` does and no
      other element. */
  lemma {:induction false} FilterUnique<T(!new)>(r: seq<T>, s: seq<T>, keep: T -> bool)
    requires IsSubsequence(r, s) && KeptCounts(r, s, keep)
    ensures r == Filter(s, keep)
  {
    if s == [] {
      SubsequenceMultiset(r, s);
      assert |multiset(r)| == 0;
    } else if keep(s[0]) {
      FilterUniqueKept(r, s, keep);
      FilterUnique(r[1..], s[1..], keep);
      assert r == [s[0]] + r[1..];
    } else {
      FilterUniqueDropped(r, s, keep);
      FilterUnique(r, s[1..], keep);
    }
  }
}
