/**
 * The `App` component's state and handlers: the full list `users`, the
 * visible list `filteredUsers`, the search text, the sort direction flag
 * and the edit session. Each handler is one atomic transition.
 */
module Directory {
  import opened Seqs
  import opened Text
  import opened Sorting
  import opened Records
  import opened Query
  import opened EditModal

  /** `users.map(u => u.login.username === updated.login.username ? updated : u)`. */
  function ReplaceByUsername(users: seq<User>, updated: User): seq<User>
  {
    if users == [] then []
    else [if Username(users[0]) == Username(updated) then updated else users[0]]
         + ReplaceByUsername(users[1..], updated)
  }

  /**
   * Save keeps the list's length; each position whose username equals the
   * updated record's holds the updated record, every other one is unchanged.
   */
  lemma {:induction false} ReplaceSpec(users: seq<User>, updated: User)
    ensures |ReplaceByUsername(users, updated)| == |users|
    ensures forall i :: 0 <= i < |users| ==>
      ReplaceByUsername(users, updated)[i]
        == if Username(users[i]) == Username(updated) then updated else users[i]
  {
    if users != [] {
      ReplaceSpec(users[1..], updated);
      var r := ReplaceByUsername(users, updated);
      forall i | 0 < i < |users|
        ensures r[i] == if Username(users[i]) == Username(updated) then updated else users[i]
      {
        assert r[i] == ReplaceByUsername(users[1..], updated)[i - 1];
      }
    }
  }

  /** Save never changes which username sits at which position. */
  lemma ReplaceKeepsUsernames(users: seq<User>, updated: User)
    ensures |ReplaceByUsername(users, updated)| == |users|
    ensures forall i :: 0 <= i < |users| ==>
      Username(ReplaceByUsername(users, updated)[i]) == Username(users[i])
  {
    ReplaceSpec(users, updated);
  }

  /** A record whose username matches nothing leaves the list as it was. */
  lemma ReplaceMissing(users: seq<User>, updated: User)
    requires forall i :: 0 <= i < |users| ==> Username(users[i]) != Username(updated)
    ensures ReplaceByUsername(users, updated) == users
  {
    ReplaceSpec(users, updated);
  }

  /** Saving the same record twice is saving it once. */
  lemma ReplaceIdempotent(users: seq<User>, updated: User)
    ensures ReplaceByUsername(ReplaceByUsername(users, updated), updated)
         == ReplaceByUsername(users, updated)
  {
    var once := ReplaceByUsername(users, updated);
    ReplaceSpec(users, updated);
    ReplaceSpec(once, updated);
  }

  /**
   * Saving an edit of the record at position `i`: the list keeps its
   * length, position `i` holds the merged record, which keeps the
   * original's username and takes the edited fields, and every record
   * with another username is untouched.
   */
  lemma SaveEditedRecord(users: seq<User>, i: nat, s: Scratch)
    requires i < |users|
    ensures var r := ReplaceByUsername(users, Merge(users[i], s));
      && |r| == |users|
      && r[i] == Merge(users[i], s)
      && Username(r[i]) == Username(users[i])
      && r[i].name == s.name && r[i].location == s.location
      && forall j :: 0 <= j < |users| && Username(users[j]) != Username(users[i]) ==> r[j] == users[j]
  {
    MergeSpec(users[i], s);
    ReplaceSpec(users, Merge(users[i], s));
  }

  /**
   * The list the sort button shows: `_.sortBy` by display name, reversed
   * when the flag is false.
   */
  function Ordered(visible: seq<User>, ascending: bool): seq<User>
  {
    var sorted := SortBy(visible, NameKey);
    if ascending then sorted else Reverse(sorted)
  }

  /**
   * The sorted list is a permutation of the visible list. Ascending, it is
   * ordered by display name and records with equal names keep their
   * relative order; descending, it is ordered from the largest name down
   * and records with equal names appear in exactly the opposite order.
   */
  lemma OrderedSpec(visible: seq<User>, ascending: bool)
    ensures multiset(Ordered(visible, ascending)) == multiset(visible)
    ensures ascending ==> SortedBy(Ordered(visible, ascending), NameKey)
    ensures !ascending ==> forall i, j :: 0 <= i < j < |Ordered(visible, ascending)| ==>
      LessEq(NameKey(Ordered(visible, ascending)[j]), NameKey(Ordered(visible, ascending)[i]))
    ensures forall k ::
              WithKey(Ordered(visible, ascending), NameKey, k)
                == if ascending then WithKey(visible, NameKey, k) else Reverse(WithKey(visible, NameKey, k))
  {
    var sorted := SortBy(visible, NameKey);
    SortPermutes(visible, NameKey);
    SortSorted(visible, NameKey);
    forall k ensures WithKey(Ordered(visible, ascending), NameKey, k)
      == if ascending then WithKey(visible, NameKey, k) else Reverse(WithKey(visible, NameKey, k))
    {
      SortStable(visible, NameKey, k);
      KeepReverse(sorted, KeyIs(NameKey, k));
    }
    if !ascending {
      ReversePermutes(sorted);
      ReverseSortedDescending(sorted, NameKey);
    }
  }

  /**
   * Two presses starting ascending: the second shows exactly the reverse
   * of what the first showed, whatever the display names.
   */
  lemma SecondPressMirrors(visible: seq<User>)
    ensures Ordered(Ordered(visible, true), false) == Reverse(Ordered(visible, true))
  {
    SortSorted(visible, NameKey);
    SortOfSorted(SortBy(visible, NameKey), NameKey);
  }

  /** No two records of `s` share a display name. */
  ghost predicate DistinctNames(s: seq<User>)
  {
    forall i, j :: 0 <= i < j < |s| ==> NameKey(s[i]) != NameKey(s[j])
  }

  lemma {:induction false} DistinctNamesAtMostOne(s: seq<User>, k: string)
    requires DistinctNames(s)
    ensures |WithKey(s, NameKey, k)| <= 1
  {
    if s != [] {
      DistinctNamesAtMostOne(s[1..], k);
      if NameKey(s[0]) == k {
        forall i | 0 <= i < |s[1..]| ensures !KeyIs(NameKey, k)(s[1..][i]) {
          assert NameKey(s[0]) != NameKey(s[i + 1]);
        }
        KeepNone(s[1..], KeyIs(NameKey, k));
      }
    }
  }

  /**
   * Three presses starting ascending: the third restores the first press's list when
   * display names are distinct. (With a repeated name the records sharing
   * it come back in mirrored order: the stable sort starts from the
   * descending list.)
   */
  lemma ThirdPressRestores(visible: seq<User>)
    requires DistinctNames(visible)
    ensures Ordered(Ordered(Ordered(visible, true), false), true) == Ordered(visible, true)
  {
    var first := Ordered(visible, true);
    var second := Ordered(first, false);
    SecondPressMirrors(visible);
    var third := Ordered(second, true);
    OrderedSpec(visible, true);
    OrderedSpec(second, true);
    forall k ensures WithKey(third, NameKey, k) == WithKey(first, NameKey, k) {
      KeepReverse(first, KeyIs(NameKey, k));
      DistinctNamesAtMostOne(visible, k);
      var w := WithKey(first, NameKey, k);
      assert |w| <= 1;
      if |w| == 1 {
        assert w == [w[0]];
      }
    }
    SortedUnique(third, first, NameKey);
  }

  /**
   * With distinct display names the sort ignores the order it starts from:
   * any rearrangement of the list sorts to the same list.
   */
  lemma SortOfPermutation(w: seq<User>, visible: seq<User>)
    requires multiset(w) == multiset(visible) && DistinctNames(visible)
    ensures SortBy(w, NameKey) == SortBy(visible, NameKey)
  {
    SortSorted(w, NameKey);
    SortSorted(visible, NameKey);
    forall k ensures WithKey(SortBy(w, NameKey), NameKey, k) == WithKey(SortBy(visible, NameKey), NameKey, k) {
      SortStable(w, NameKey, k);
      SortStable(visible, NameKey, k);
      KeepPermutation(w, visible, KeyIs(NameKey, k));
      DistinctNamesAtMostOne(visible, k);
      ShortPermutation(WithKey(w, NameKey, k), WithKey(visible, NameKey, k));
    }
    SortedUnique(SortBy(w, NameKey), SortBy(visible, NameKey), NameKey);
  }

  /**
   * Two presses starting descending: when display names are distinct, the
   * second shows exactly the reverse of the first. (With a repeated name
   * it need not: see Scenarios.TwinsNotMirrored.)
   */
  lemma DescendingPressMirrors(visible: seq<User>)
    requires DistinctNames(visible)
    ensures Ordered(Ordered(visible, false), true) == Reverse(Ordered(visible, false))
  {
    var sorted := SortBy(visible, NameKey);
    SortPermutes(visible, NameKey);
    ReversePermutes(sorted);
    SortOfPermutation(Reverse(sorted), visible);
    ReverseInvolution(sorted);
  }

  /**
   * Three presses starting descending: when display names are distinct,
   * the third restores the first press's list.
   */
  lemma ThirdPressRestoresDescending(visible: seq<User>)
    requires DistinctNames(visible)
    ensures Ordered(Ordered(Ordered(visible, false), true), false) == Ordered(visible, false)
  {
    var sorted := SortBy(visible, NameKey);
    SortPermutes(visible, NameKey);
    ReversePermutes(sorted);
    SortOfPermutation(Reverse(sorted), visible);
    SortSorted(visible, NameKey);
    SortOfSorted(sorted, NameKey);
  }

  /** The `App` component's state. */
  class App {
    var users: seq<User>
    var searchInput: string
    var filteredUsers: seq<User>
    var sortAscending: bool
    var isEditing: bool
    var editedUser: Option<User>

    /** Every visible record is one of the full list's, counted with multiplicity. */
    ghost predicate Valid()
      reads this
    {
      multiset(filteredUsers) <= multiset(users)
    }

    /** The initial `useState` values. */
    constructor ()
      ensures Valid()
      ensures users == [] && filteredUsers == [] && searchInput == ""
      ensures sortAscending && !isEditing && editedUser == None
    {
      users, searchInput, filteredUsers := [], "", [];
      sortAscending, isEditing, editedUser := true, false, None;
    }

    /** A successful fetch: both lists become the fetched records. */
    method Load(data: seq<User>)
      modifies this
      ensures Valid()
      ensures users == data && filteredUsers == data
      ensures searchInput == old(searchInput) && sortAscending == old(sortAscending)
      ensures isEditing == old(isEditing) && editedUser == old(editedUser)
    {
      users := data;
      filteredUsers := data;
    }

    /** `filterUsers`: the visible list is the full list filtered by the query. */
    method FilterUsers(query: string)
      modifies this
      ensures Valid()
      ensures filteredUsers == Filter(users, query)
      ensures users == old(users) && searchInput == old(searchInput)
      ensures sortAscending == old(sortAscending)
      ensures isEditing == old(isEditing) && editedUser == old(editedUser)
    {
      filteredUsers := Filter(users, query);
      FilterSpec(users, query);
    }

    /** `handleSearchChange`: record the search text, then filter. */
    method HandleSearchChange(query: string)
      modifies this
      ensures Valid()
      ensures searchInput == query && filteredUsers == Filter(users, query)
      ensures users == old(users) && sortAscending == old(sortAscending)
      ensures isEditing == old(isEditing) && editedUser == old(editedUser)
    {
      searchInput := query;
      FilterUsers(query);
    }

    /** `handleSortByName`: reorder the visible list, then flip the direction flag. */
    method HandleSortByName()
      requires Valid()
      modifies this
      ensures Valid()
      ensures filteredUsers == Ordered(old(filteredUsers), old(sortAscending))
      ensures multiset(filteredUsers) == multiset(old(filteredUsers))
      ensures sortAscending == !old(sortAscending)
      ensures users == old(users) && searchInput == old(searchInput)
      ensures isEditing == old(isEditing) && editedUser == old(editedUser)
    {
      var sortedUsers := SortBy(filteredUsers, NameKey);
      OrderedSpec(filteredUsers, sortAscending);
      filteredUsers := if sortAscending then sortedUsers else Reverse(sortedUsers);
      sortAscending := !sortAscending;
    }

    /** `handleEditClick`: start editing `user`, replacing any edit in progress. */
    method HandleEditClick(user: User)
      requires Valid()
      modifies this
      ensures Valid()
      ensures isEditing && editedUser == Some(user)
      ensures users == old(users) && filteredUsers == old(filteredUsers)
      ensures searchInput == old(searchInput) && sortAscending == old(sortAscending)
    {
      isEditing := true;
      editedUser := Some(user);
    }

    /**
     * `handleSaveEdit`: replace the records with the updated record's
     * username; both lists become the whole updated list, so the search
     * no longer applies; the edit session ends.
     */
    method HandleSaveEdit(updatedUserData: User)
      modifies this
      ensures Valid()
      ensures users == ReplaceByUsername(old(users), updatedUserData)
      ensures filteredUsers == users
      ensures !isEditing && editedUser == None
      ensures searchInput == old(searchInput) && sortAscending == old(sortAscending)
    {
      var updatedUsers := ReplaceByUsername(users, updatedUserData);
      users := updatedUsers;
      filteredUsers := updatedUsers;
      isEditing := false;
      editedUser := None;
    }

    /** `handleCancelEdit`: end the edit session; neither list changes. */
    method HandleCancelEdit()
      requires Valid()
      modifies this
      ensures Valid()
      ensures !isEditing && editedUser == None
      ensures users == old(users) && filteredUsers == old(filteredUsers)
      ensures searchInput == old(searchInput) && sortAscending == old(sortAscending)
    {
      isEditing := false;
      editedUser := None;
    }
  }
}
