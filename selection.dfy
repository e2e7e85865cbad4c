/** The row selection: an ordered list of selected names, changed by the
    header's select-all box and by clicking a row, and the two header flags
    derived from it. */
module Selection {
  import opened Js
  import opened Customers

  /** handleSelectAllClick: when the box is ticked, every current row's name
      in row order; otherwise nothing. */
  function SelectAll(rows: seq<Row>, checked: bool): (r: seq<string>)
    ensures checked ==> |r| == |rows| && forall i :: 0 <= i < |rows| ==> r[i] == rows[i].name
    ensures !checked ==> r == []
  {
    if checked then Names(rows) else []
  }

  /** handleClick: a name not yet selected is appended; a selected one is
      cut out at its first position. */
  function Toggle(selected: seq<string>, name: string): (r: seq<string>)
    ensures name !in selected ==> r == selected + [name]
    ensures name in selected ==>
      var i := IndexOf(selected, name);
      r == selected[..i] + selected[i + 1..] && |r| == |selected| - 1
  {
    var i := IndexOf(selected, name);
    if i == -1 then selected + [name] else CutOut(selected, i)
  }

  /** The deselecting branches of handleClick for the index `i` found by
      `indexOf`: three `slice` cases, all of which cut out entry `i`, and a
      fallback to the empty list that no index found by `indexOf` reaches. */
  function CutOut(selected: seq<string>, i: int): (r: seq<string>)
    requires i < |selected|
    ensures 0 <= i ==> r == selected[..i] + selected[i + 1..]
    ensures i < -1 ==> r == []
  {
    if i == 0 then SliceFrom(selected, 1)
    else if i == |selected| - 1 then Slice(selected, 0, -1)
    else if i > 0 then Slice(selected, 0, i) + SliceFrom(selected, i + 1)
    else []
  }

  /** `s` holds no value twice. */
  ghost predicate NoDup<T>(s: seq<T>)
  {
    forall i, j :: 0 <= i < j < |s| ==> s[i] != s[j]
  }

  /** Clicking a row that was not selected, twice, restores the exact list. */
  lemma ToggleTwiceAbsent(selected: seq<string>, name: string)
    requires name !in selected
    ensures Toggle(Toggle(selected, name), name) == selected
  {
    var t := selected + [name];
    assert t[..|selected|] == selected;
  }

  /** Cutting out the entry at `i` of a list without repeats removes that
      value altogether. */
  lemma CutRemoves<T>(s: seq<T>, i: nat)
    requires NoDup(s) && i < |s|
    ensures s[i] !in s[..i] + s[i + 1..]
  {
    var rest := s[..i] + s[i + 1..];
    forall k | 0 <= k < |rest| ensures rest[k] != s[i] {
      if k < i {
        assert rest[k] == s[k];
      } else {
        assert rest[k] == s[k + 1];
      }
    }
  }

  /** Cutting out the entry at `i` takes one copy of it out of the list's
      multiset. */
  lemma CutCount<T>(s: seq<T>, i: nat)
    requires i < |s|
    ensures multiset(s[..i] + s[i + 1..]) == multiset(s) - multiset{s[i]}
  {
    assert s == s[..i] + [s[i]] + s[i + 1..];
  }

  /** Clicking a row whose name is on the list once, twice, keeps the same
      names but moves the name to the end of the list. Other names may be
      repeated. */
  lemma ToggleTwicePresent(selected: seq<string>, name: string)
    requires multiset(selected)[name] == 1
    ensures
      var i := IndexOf(selected, name);
      Toggle(Toggle(selected, name), name) == selected[..i] + selected[i + 1..] + [name]
  {
    var i := IndexOf(selected, name);
    var rest := Toggle(selected, name);
    assert selected[i] == name && rest == selected[..i] + selected[i + 1..];
    ToggleOffCount(selected, name);
    assert multiset(rest)[name] == 0;
  }

  /** So two clicks on a name on the list once give back the exact list
      when the name already was the last entry, and only then; otherwise
      only the set of names comes back. */
  lemma ToggleTwiceLast(selected: seq<string>, name: string)
    requires multiset(selected)[name] == 1
    ensures Toggle(Toggle(selected, name), name) == selected <==> selected[|selected| - 1] == name
  {
    ToggleTwicePresent(selected, name);
    MoveToEnd(selected, IndexOf(selected, name));
  }

  /** Moving entry `i`, whose value occurs once, to the end leaves the list
      as it was exactly when `i` is the last position. */
  lemma MoveToEnd<T>(s: seq<T>, i: nat)
    requires i < |s| && multiset(s)[s[i]] == 1
    ensures s[..i] + s[i + 1..] + [s[i]] == s <==> s[|s| - 1] == s[i]
  {
    var r := s[..i] + s[i + 1..] + [s[i]];
    assert |r| == |s| && r[|r| - 1] == s[i];
    if s[|s| - 1] == s[i] {
      if i < |s| - 1 {
        TwoCopies(s, i, |s| - 1);
        assert false;
      }
      assert r == s;
    }
  }

  /** A value at two positions occurs at least twice. */
  lemma TwoCopies<T>(s: seq<T>, i: nat, j: nat)
    requires i < j < |s| && s[i] == s[j]
    ensures multiset(s)[s[i]] >= 2
  {
    assert s == s[..j] + [s[j]] + s[j + 1..];
    assert s[..j][i] == s[i];
    assert multiset(s[..j])[s[i]] >= 1;
  }

  /** A name on the list twice (select-all copies the names of two rows
      that share one) leaves the list after two clicks, wherever the two
      copies are: the first click removes one copy, the second the other,
      and nothing else is removed. */
  lemma ToggleTwiceRepeated(selected: seq<string>, name: string)
    requires multiset(selected)[name] == 2
    ensures multiset(Toggle(selected, name))[name] == 1
    ensures name !in Toggle(Toggle(selected, name), name)
    ensures |Toggle(Toggle(selected, name), name)| == |selected| - 2
  {
    ToggleOffCount(selected, name);
    var once := Toggle(selected, name);
    assert multiset(once)[name] == 1;
    ToggleOffCount(once, name);
  }

  /** Deselecting a name takes exactly one copy of it off the list. */
  lemma ToggleOffCount(selected: seq<string>, name: string)
    requires name in selected
    ensures multiset(Toggle(selected, name)) == multiset(selected) - multiset{name}
    ensures |Toggle(selected, name)| == |selected| - 1
  {
    var i := IndexOf(selected, name);
    var r := Toggle(selected, name);
    assert selected[i] == name && r == selected[..i] + selected[i + 1..];
    CutCount(selected, i);
  }

  /** A click selects the name when it was not selected and deselects it
      when it was; no other name changes. */
  lemma ToggleMembership(selected: seq<string>, name: string, x: string)
    requires NoDup(selected)
    ensures x in Toggle(selected, name) <==> if x == name then name !in selected else x in selected
  {
    if name in selected {
      var i := IndexOf(selected, name);
      CutRemoves(selected, i);
      assert selected == selected[..i] + [name] + selected[i + 1..];
    }
  }

  /** Cutting out one entry keeps a list free of repeats. */
  lemma CutKeepsNoDup<T>(s: seq<T>, i: nat)
    requires NoDup(s) && i < |s|
    ensures NoDup(s[..i] + s[i + 1..])
  {
    var r := s[..i] + s[i + 1..];
    forall a, b | 0 <= a < b < |r| ensures r[a] != r[b] {
      var a' := if a < i then a else a + 1;
      var b' := if b < i then b else b + 1;
      assert r[a] == s[a'] && r[b] == s[b'];
    }
  }

  /** Appending a new value keeps a list free of repeats. */
  lemma AppendKeepsNoDup<T>(s: seq<T>, x: T)
    requires NoDup(s) && x !in s
    ensures NoDup(s + [x])
  {
  }

  /** A list without repeated names keeps that property under clicks. */
  lemma ToggleKeepsNoDup(selected: seq<string>, name: string)
    requires NoDup(selected)
    ensures NoDup(Toggle(selected, name))
  {
    if name in selected {
      CutKeepsNoDup(selected, IndexOf(selected, name));
    } else {
      AppendKeepsNoDup(selected, name);
    }
  }

  /** The header box is half ticked: some, but fewer than all, rows counted. */
  predicate Indeterminate(numSelected: nat, rowCount: nat)
  {
    numSelected > 0 && numSelected < rowCount
  }

  /** The header box is ticked: there are rows and as many names selected. */
  predicate AllChecked(numSelected: nat, rowCount: nat)
  {
    rowCount > 0 && numSelected == rowCount
  }

  /** The two flags never hold together, and neither holds with nothing
      selected. */
  lemma FlagsExclusive(numSelected: nat, rowCount: nat)
    ensures !(Indeterminate(numSelected, rowCount) && AllChecked(numSelected, rowCount))
    ensures numSelected == 0 ==> !Indeterminate(numSelected, rowCount) && !AllChecked(numSelected, rowCount)
  {
  }

  /** Ticking the header box selects every row, so the box shows ticked
      (when there are rows) and not half ticked; unticking clears both. */
  lemma FlagsAfterSelectAll(rows: seq<Row>, checked: bool)
    ensures var n := |SelectAll(rows, checked)|;
      && !Indeterminate(n, |rows|)
      && (AllChecked(n, |rows|) <==> checked && |rows| > 0)
  {
  }

  /** The elements of `s`, as a set. */
  function Elems<T>(s: seq<T>): set<T>
  {
    set x | x in s
  }

  lemma {:induction false} ElemsNoDupSize<T>(s: seq<T>)
    requires NoDup(s)
    ensures |Elems(s)| == |s|
  {
    if s != [] {
      assert NoDup(s[1..]) by {
        forall i, j | 0 <= i < j < |s[1..]| ensures s[1..][i] != s[1..][j] {
          assert s[1..][i] == s[i + 1] && s[1..][j] == s[j + 1];
        }
      }
      ElemsNoDupSize(s[1..]);
      assert Elems(s) == {s[0]} + Elems(s[1..]);
      assert s[0] !in Elems(s[1..]);
    }
  }

  /** When names are unique and only shown rows' names are selected, the
      counts the header compares say what they are meant to: half ticked
      exactly when a non-empty proper part of the rows is selected, ticked
      exactly when all of them are. */
  lemma FlagsMeanSubsets(selected: seq<string>, rows: seq<Row>)
    requires NoDup(selected) && NoDup(Names(rows))
    requires Elems(selected) <= Elems(Names(rows))
    ensures Indeterminate(|selected|, |rows|) <==> {} < Elems(selected) < Elems(Names(rows))
    ensures AllChecked(|selected|, |rows|) <==> |rows| > 0 && Elems(selected) == Elems(Names(rows))
  {
    var a, b := Elems(selected), Elems(Names(rows));
    ElemsNoDupSize(selected);
    ElemsNoDupSize(Names(rows));
    assert |b - a| == |b| - |a|;
    if |a| == |b| {
      assert b - a == {};
      assert a == b;
    }
    if selected != [] {
      assert selected[0] in a;
    }
  }

  /** The header compares counts only: a selection left over from before a
      search can make the box show ticked although no shown row is
      selected. */
  lemma FlagsCountOnly(row: Row, stale: string)
    requires stale != row.name
    ensures AllChecked(|[stale]|, |[row]|)
    ensures stale !in Names([row])
  {
  }
}
