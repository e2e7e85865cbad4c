/** The keyword search of handleSearch: a case-insensitive substring match
    on name, country and agent, always applied to the original data. */
module Search {
  import opened Js
  import opened Customers

  /** The row test of handleSearch, for text `q` that is already lower-cased. */
  function Matches(r: Row, q: string): (b: bool)
    ensures q == "" ==> b
    ensures b ==> |q| <= |r.name| || |q| <= |r.country| || |q| <= |r.agent|
  {
    Includes(Lower(r.name), q) || Includes(Lower(r.country), q) || Includes(Lower(r.agent), q)
  }

  /** The rows handleSearch keeps for the typed `text`, out of `data`:
      `data.filter(row => Matches(row, text.toLowerCase()))`. */
  function SearchRows(data: seq<Row>, text: string): (r: seq<Row>)
    ensures |r| <= |data|
    ensures forall x :: x in r ==> x in data && Matches(x, Lower(text))
  {
    var q := Lower(text);
    Filter(data, r => Matches(r, q))
  }

  /** An empty search shows every row of the data, in the data's order. */
  lemma SearchEmptyShowsAll(data: seq<Row>)
    ensures SearchRows(data, "") == data
  {
    var q := Lower("");
    assert q == "";
    forall r | r in data ensures Matches(r, q) {
      IncludesEmpty(Lower(r.name));
    }
    FilterKeepsAll(data, r => Matches(r, q));
  }

  /** The search ignores the case the text was typed in. */
  lemma SearchIgnoresCase(data: seq<Row>, text: string)
    ensures SearchRows(data, Upper(text)) == SearchRows(data, text)
  {
    LowerOfUpper(text);
  }

  /** Exactly the rows of the data that match the text survive, each as
      often as it occurs there. */
  lemma SearchCounts(data: seq<Row>, text: string, x: Row)
    ensures multiset(SearchRows(data, text))[x] == if Matches(x, Lower(text)) then multiset(data)[x] else 0
    ensures x in SearchRows(data, text) <==> x in data && Matches(x, Lower(text))
  {
    var q := Lower(text);
    var r := SearchRows(data, text);
    FilterCounts(data, r => Matches(r, q));
    assert x in r <==> multiset(r)[x] > 0;
  }

  /** The search result never contains a row that is not in the data, and
      keeps the data's order. */
  lemma SearchWithinData(data: seq<Row>, text: string)
    ensures IsSubsequence(SearchRows(data, text), data)
    ensures multiset(SearchRows(data, text)) <= multiset(data)
  {
    var q := Lower(text);
    FilterIsSubsequence(data, r => Matches(r, q));
    SubsequenceMultiset(SearchRows(data, text), data);
  }

  /** Reference definition: the search result is the one subsequence of the
      data that holds every matching row as often as the data does and no
      other row. */
  lemma SearchIsMatchingSubsequence(data: seq<Row>, text: string, r: seq<Row>)
    requires IsSubsequence(r, data)
    requires forall x :: multiset(r)[x] == if Matches(x, Lower(text)) then multiset(data)[x] else 0
    ensures r == SearchRows(data, text)
  {
    var q := Lower(text);
    FilterUnique(r, data, x => Matches(x, q));
  }

  /** Searching "am" over Amy, Bob and Pam keeps Amy and Pam. */
  lemma SearchExample(amy: Row, bob: Row, pam: Row)
    requires amy.name == "Amy" && bob.name == "Bob" && pam.name == "Pam"
    requires amy.country == "Chile" && bob.country == "Peru" && pam.country == "Chile"
    requires amy.agent == "Lee" && bob.agent == "Lee" && pam.agent == "Lee"
    ensures SearchRows([amy, bob, pam], "am") == [amy, pam]
  {
    ExampleMatches(amy, pam);
    ExampleMisses(bob);
    LowerAm();
    FilterThree(amy, bob, pam, r => Matches(r, "am"));
  }

  lemma LowerAm()
    ensures Lower("am") == "am"
  {
  }

  lemma FilterThree<T>(a: T, b: T, c: T, keep: T -> bool)
    requires keep(a) && !keep(b) && keep(c)
    ensures Filter([a, b, c], keep) == [a, c]
  {
    FilterCons(c, [], keep);
    assert [c] + [] == [c];
    FilterCons(b, [c], keep);
    assert [b] + [c] == [b, c];
    FilterCons(a, [b, c], keep);
    assert [a] + [b, c] == [a, b, c];
  }

  lemma ExampleMatches(amy: Row, pam: Row)
    requires amy.name == "Amy" && pam.name == "Pam"
    ensures Matches(amy, "am") && Matches(pam, "am")
  {
    assert Lower("Amy") == "amy";
    assert Includes("amy", "am");
    assert Lower("Pam") == "pam";
    assert "pam"[1..] == "am";
    assert Includes("am", "am") && Includes("pam", "am");
  }

  lemma ExampleMisses(bob: Row)
    requires bob.name == "Bob" && bob.country == "Peru" && bob.agent == "Lee"
    ensures !Matches(bob, "am")
  {
    assert Lower("Bob") == "bob" && Lower("Peru") == "peru" && Lower("Lee") == "lee";
    assert "bob"[1..] == "ob" && "ob"[1..] == "b" && "ob"[..2] == "ob";
    assert !Includes("b", "am") && !Includes("ob", "am") && !Includes("bob", "am");
    assert "peru"[1..] == "eru" && "eru"[1..] == "ru" && "ru"[1..] == "u";
    assert !Includes("u", "am") && !Includes("ru", "am") && !Includes("eru", "am") && !Includes("peru", "am");
    assert "lee"[1..] == "ee" && "ee"[1..] == "e";
    assert !Includes("e", "am") && !Includes("ee", "am") && !Includes("lee", "am");
  }
}
