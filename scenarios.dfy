/**
 * Three records worked through the directory's handlers: a search, two
 * presses of the sort button, an edit that is saved and one that is
 * cancelled. Also two records sharing a display name, whose sort presses
 * do not mirror each other.
 */
module Scenarios {
  import opened Seqs
  import opened Text
  import opened Records
  import opened Query
  import opened EditModal
  import opened Directory

  function Person(username: string, first: string, last: string): User
  {
    User(Login(username, username), map["first" := first, "last" := last], "e", "0",
         map["city" := "c", "state" := "s"], Picture("p", "p", "p"), map[])
  }

  const Alice := Person("a", "Alice", "Smith")
  const Bob := Person("b", "Bob", "Jones")
  const Carol := Person("c", "Carol", "Jones")

  /** A query whose first character does not occur in the text is not contained in it. */
  lemma MissingFirstChar(s: string, q: string)
    requires q != [] && q[0] !in s
    ensures !Contains(s, q)
  {
  }

  lemma AliceMisses()
    ensures !Matches(Alice, "jones")
  {
    var text := SearchText(Alice);
    assert text == "Alice Smith e 0 c s";
    var t := Lower(text);
    assert forall i :: 0 <= i < |t| ==> t[i] != 'j';
    assert Lower("jones")[0] == 'j';
    MissingFirstChar(t, Lower("jones"));
  }

  /** "Jones" at position `at` of `text` is "jones" there once lowered. */
  lemma LowerJonesAt(text: string, at: nat)
    requires at + 5 <= |text| && text[at..at + 5] == "Jones"
    ensures OccursAt(Lower(text), "jones", at)
  {
    var t := Lower(text);
    forall k | 0 <= k < 5 ensures t[at + k] == "jones"[k] {
      assert text[at + k] == "Jones"[k];
    }
    assert t[at..at + 5] == "jones";
  }

  lemma LowerJones()
    ensures Lower("jones") == "jones"
  {
  }

  lemma BobMatches()
    ensures Matches(Bob, "jones")
  {
    assert SearchText(Bob) == "Bob Jones e 0 c s";
    LowerJonesAt("Bob Jones e 0 c s", 4);
    LowerJones();
  }

  lemma CarolMatches()
    ensures Matches(Carol, "jones")
  {
    assert SearchText(Carol) == "Carol Jones e 0 c s";
    LowerJonesAt("Carol Jones e 0 c s", 6);
    LowerJones();
  }

  /** Searching for "jones" keeps Bob and Carol, in that order. */
  lemma SearchScenario()
    ensures Filter([Alice, Bob, Carol], "jones") == [Bob, Carol]
  {
    AliceMisses();
    BobMatches();
    CarolMatches();
    var p := MatchesQuery("jones");
    assert !p(Alice) && p(Bob) && p(Carol);
    var s := [Alice, Bob, Carol];
    assert s[1..] == [Bob, Carol] && s[1..][1..] == [Carol] && s[1..][1..][1..] == [];
    assert Keep([Carol], p) == [Carol];
    assert Keep([Bob, Carol], p) == [Bob, Carol];
    assert Keep(s, p) == Keep([Bob, Carol], p);
  }

  /** The first press sorts A-Z, the second shows Z-A. */
  lemma SortScenario()
    ensures Ordered([Alice, Bob, Carol], true) == [Alice, Bob, Carol]
    ensures Ordered(Ordered([Alice, Bob, Carol], true), false) == [Carol, Bob, Alice]
  {
    var s := [Alice, Bob, Carol];
    assert NameKey(Alice) == "Alice Smith";
    assert NameKey(Bob) == "Bob Jones";
    assert NameKey(Carol) == "Carol Jones";
    assert LessEq(NameKey(Alice), NameKey(Bob)) && LessEq(NameKey(Bob), NameKey(Carol));
    assert LessEq(NameKey(Alice), NameKey(Carol));
    assert Sorting.SortedBy(s, NameKey);
    Sorting.SortOfSorted(s, NameKey);
    SecondPressMirrors(s);
    assert s[1..] == [Bob, Carol] && s[1..][1..] == [Carol];
    assert Reverse([Carol]) == [Carol];
    assert Reverse([Bob, Carol]) == [Carol, Bob];
  }

  /**
   * Two records with the same display name: pressing descending and then
   * ascending shows them in the same order both times, not mirrored.
   */
  lemma TwinsNotMirrored()
    ensures var v := [Person("x1", "Ann", "Lee"), Person("x2", "Ann", "Lee")];
      && Ordered(v, false) == [v[1], v[0]]
      && Ordered(Ordered(v, false), true) == [v[1], v[0]]
      && Ordered(Ordered(v, false), true) != Reverse(Ordered(v, false))
  {
    var v := [Person("x1", "Ann", "Lee"), Person("x2", "Ann", "Lee")];
    assert NameKey(v[0]) == NameKey(v[1]);
    Text.LessEqReflexive(NameKey(v[0]));
    assert v[1..] == [v[1]] && [v[1], v[0]][1..] == [v[0]];
    assert Sorting.SortBy(v, NameKey) == v;
    assert Reverse([v[0]]) == [v[0]];
    assert Reverse(v) == [v[1], v[0]];
    assert Sorting.SortBy([v[1], v[0]], NameKey) == [v[1], v[0]];
    assert Reverse([v[1]]) == [v[1]];
    assert Reverse([v[1], v[0]]) == [v[0], v[1]];
    assert v[0] != v[1];
  }

  /** Editing Bob's first name to Robert and saving: still three records, Bob's slot shows Robert Jones. */
  lemma RenameScenario()
    ensures var s := ApplyInput(InitScratch(Bob), "name.first", "Robert");
      var r := ReplaceByUsername([Alice, Bob, Carol], Merge(Bob, s));
      && |r| == 3 && r[0] == Alice && r[2] == Carol
      && r[1].name == map["first" := "Robert", "last" := "Jones"]
      && Username(r[1]) == "b"
  {
    var s := ApplyInput(InitScratch(Bob), "name.first", "Robert");
    FieldOfInputName("name.", "first");
    assert "name." + "first" == "name.first";
    assert s.name == Bob.name["first" := "Robert"];
    assert Bob.name["first" := "Robert"] == map["first" := "Robert", "last" := "Jones"];
    SaveEditedRecord([Alice, Bob, Carol], 1, s);
  }

  /** The handlers in sequence on the component's state. */
  method Session()
  {
    var app := new App();
    app.Load([Alice, Bob, Carol]);
    app.HandleSearchChange("jones");
    SearchScenario();
    assert app.filteredUsers == [Bob, Carol];
    app.HandleSearchChange("");
    EmptyQueryKeepsAll([Alice, Bob, Carol]);
    SortScenario();
    app.HandleSortByName();
    assert app.filteredUsers == [Alice, Bob, Carol] && !app.sortAscending;
    app.HandleSortByName();
    assert app.filteredUsers == [Carol, Bob, Alice] && app.sortAscending;
    app.HandleEditClick(Alice);
    app.HandleCancelEdit();
    assert app.users == [Alice, Bob, Carol] && !app.isEditing;
  }
}
