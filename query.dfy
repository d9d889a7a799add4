/**
 * The search filter of `filterUsers`: a record is visible when its
 * lower-cased search text contains the lower-cased query.
 */
module Query {
  import opened Seqs
  import opened Text
  import opened Records

  /** The `users.filter` predicate for `query`. */
  predicate Matches(u: User, query: string)
  {
    Contains(Lower(SearchText(u)), Lower(query))
  }

  function MatchesQuery(query: string): User -> bool
  {
    u => Matches(u, query)
  }

  /** `users.filter(...)` with the search predicate. */
  function Filter(users: seq<User>, query: string): seq<User>
  {
    Keep(users, MatchesQuery(query))
  }

  /**
   * The filter result is an order-preserving subsequence of the list; it
   * holds every matching record as often as the list does, and no other.
   */
  lemma FilterSpec(users: seq<User>, query: string)
    ensures IsSubsequence(Filter(users, query), users)
    ensures forall u :: multiset(Filter(users, query))[u]
                     == if Matches(u, query) then multiset(users)[u] else 0
  {
    KeepIsSubsequence(users, MatchesQuery(query));
    KeepCount(users, MatchesQuery(query));
    forall u ensures MatchesQuery(query)(u) == Matches(u, query) { }
  }

  /** A record is in the result exactly when it is in the list and matches. */
  lemma FilterMember(users: seq<User>, query: string, u: User)
    ensures u in Filter(users, query) <==> u in users && Matches(u, query)
  {
    KeepMember(users, MatchesQuery(query), u);
  }

  /** The empty query keeps every record, in order. */
  lemma EmptyQueryKeepsAll(users: seq<User>)
    ensures Filter(users, "") == users
  {
    forall i | 0 <= i < |users| ensures MatchesQuery("")(users[i]) {
      ContainsEmpty(Lower(SearchText(users[i])));
    }
    KeepAll(users, MatchesQuery(""));
  }

  /** The match ignores letter case in the query. */
  lemma MatchIgnoresQueryCase(u: User, query: string)
    ensures Matches(u, query) <==> Matches(u, Lower(query))
  {
    LowerIdempotent(query);
  }

  /** Filtering a filter result with the same query changes nothing. */
  lemma FilterIdempotent(users: seq<User>, query: string)
    ensures Filter(Filter(users, query), query) == Filter(users, query)
  {
    KeepIdempotent(users, MatchesQuery(query));
  }

  /**
   * Typing on: when the lower-cased new query contains the lower-cased old
   * one, filtering the old result gives the same list as filtering the
   * full list. (Widening the query has no such law, which is why the
   * search always starts again from the full list.)
   */
  lemma FilterNarrowing(users: seq<User>, old_query: string, query: string)
    requires Contains(Lower(query), Lower(old_query))
    ensures Filter(Filter(users, old_query), query) == Filter(users, query)
  {
    forall u | MatchesQuery(query)(u) ensures MatchesQuery(old_query)(u) {
      ContainsTransitive(Lower(SearchText(u)), Lower(query), Lower(old_query));
    }
    KeepNarrowing(users, MatchesQuery(old_query), MatchesQuery(query));
  }
}
