/**
 * lodash `_.sortBy(list, [key])` for a key that yields a string: a stable
 * sort in ascending JavaScript string order. The model sorts by insertion;
 * what the rest of the model relies on is its contract, proved below:
 * the result is a permutation of the input, ordered by key, and records
 * with equal keys keep their relative order. Those three facts determine
 * the result (SortedUnique), so any stable sort gives the same list.
 */
module Sorting {
  import opened Seqs
  import opened Text

  /** Ordered by `key`: every earlier element's key is at most every later one's. */
  ghost predicate SortedBy<T>(s: seq<T>, key: T -> string)
  {
    forall i, j :: 0 <= i < j < |s| ==> LessEq(key(s[i]), key(s[j]))
  }

  /** Whether an element's key is `k`. */
  function KeyIs<T>(key: T -> string, k: string): T -> bool
  {
    x => key(x) == k
  }

  /** The elements of `s` whose key is `k`, in their order in `s`. */
  function WithKey<T>(s: seq<T>, key: T -> string, k: string): seq<T>
  {
    Keep(s, KeyIs(key, k))
  }

  /** Puts `x` before the first element whose key is not below its own. */
  function Insert<T>(x: T, t: seq<T>, key: T -> string): seq<T>
  {
    if t == [] then [x]
    else if LessEq(key(x), key(t[0])) then [x] + t
    else [t[0]] + Insert(x, t[1..], key)
  }

  /** `_.sortBy(s, [key])`. */
  function SortBy<T>(s: seq<T>, key: T -> string): seq<T>
  {
    if s == [] then [] else Insert(s[0], SortBy(s[1..], key), key)
  }

  lemma {:induction false} InsertPermutes<T>(x: T, t: seq<T>, key: T -> string)
    ensures multiset(Insert(x, t, key)) == multiset{x} + multiset(t)
  {
    if t != [] && !LessEq(key(x), key(t[0])) {
      InsertPermutes(x, t[1..], key);
      assert t == [t[0]] + t[1..];
    }
  }

  lemma {:induction false} InsertSorted<T>(x: T, t: seq<T>, key: T -> string)
    requires SortedBy(t, key)
    ensures SortedBy(Insert(x, t, key), key)
  {
    if t == [] {
    } else if LessEq(key(x), key(t[0])) {
      var r := [x] + t;
      forall i, j | 0 <= i < j < |r| ensures LessEq(key(r[i]), key(r[j])) {
        if i == 0 {
          if j > 1 {
            LessEqTransitive(key(x), key(t[0]), key(t[j - 1]));
          }
        }
      }
    } else {
      LessEqTotal(key(x), key(t[0]));
      InsertSorted(x, t[1..], key);
      var tail := Insert(x, t[1..], key);
      InsertPermutes(x, t[1..], key);
      var r := [t[0]] + tail;
      forall j | 0 < j < |r| ensures LessEq(key(t[0]), key(r[j])) {
        var y := tail[j - 1];
        assert y in multiset(tail);
        if y != x {
          assert y in multiset(t[1..]);
          var m :| 0 <= m < |t[1..]| && t[1..][m] == y;
          assert t[m + 1] == y;
        }
      }
    }
  }

  /** Inserting `x` puts it ahead of the equal-key elements of `t`. */
  lemma {:induction false} InsertStable<T>(x: T, t: seq<T>, key: T -> string, k: string)
    ensures WithKey(Insert(x, t, key), key, k) == WithKey([x] + t, key, k)
  {
    var p := KeyIs(key, k);
    if t != [] && !LessEq(key(x), key(t[0])) {
      var t0, rest := t[0], t[1..];
      InsertStable(x, rest, key, k);
      LessEqReflexive(key(x));
      assert p(x) == (key(x) == k) && p(t0) == (key(t0) == k);
      // at most one of x and t0 has key k, so their order does not matter
      assert Keep([t0], p) + Keep([x], p) == Keep([x], p) + Keep([t0], p);
      assert Insert(x, t, key) == [t0] + Insert(x, rest, key);
      KeepAppend([t0], Insert(x, rest, key), p);
      KeepAppend([x], rest, p);
      KeepAppend([t0], rest, p);
      KeepAppend([x], t, p);
      assert t == [t0] + rest;
    } else {
      assert Insert(x, t, key) == [x] + t;
    }
  }

  /** The sort result is a permutation of its input. */
  lemma {:induction false} SortPermutes<T>(s: seq<T>, key: T -> string)
    ensures multiset(SortBy(s, key)) == multiset(s)
  {
    if s != [] {
      SortPermutes(s[1..], key);
      InsertPermutes(s[0], SortBy(s[1..], key), key);
      assert s == [s[0]] + s[1..];
    }
  }

  /** The sort result is ordered by key. */
  lemma {:induction false} SortSorted<T>(s: seq<T>, key: T -> string)
    ensures SortedBy(SortBy(s, key), key)
  {
    if s != [] {
      SortSorted(s[1..], key);
      InsertSorted(s[0], SortBy(s[1..], key), key);
    }
  }

  /** The sort is stable: the records of each key appear in their input order. */
  lemma {:induction false} SortStable<T>(s: seq<T>, key: T -> string, k: string)
    ensures WithKey(SortBy(s, key), key, k) == WithKey(s, key, k)
  {
    if s != [] {
      var p := KeyIs(key, k);
      SortStable(s[1..], key, k);
      InsertStable(s[0], SortBy(s[1..], key), key, k);
      KeepAppend([s[0]], SortBy(s[1..], key), p);
      KeepAppend([s[0]], s[1..], p);
      assert s == [s[0]] + s[1..];
    }
  }

  /** The sort's length is its input's. */
  lemma SortLength<T>(s: seq<T>, key: T -> string)
    ensures |SortBy(s, key)| == |s|
  {
    SortPermutes(s, key);
    assert |multiset(SortBy(s, key))| == |multiset(s)|;
  }

  lemma WithKeyOfHead<T>(s: seq<T>, key: T -> string)
    requires s != []
    ensures WithKey(s, key, key(s[0])) != []
  {
    assert KeyIs(key, key(s[0]))(s[0]);
  }

  /**
   * Two lists ordered by key that agree on the records of every key are
   * equal: ordering plus stability leave no freedom.
   */
  lemma {:induction false} SortedUnique<T>(a: seq<T>, b: seq<T>, key: T -> string)
    requires SortedBy(a, key) && SortedBy(b, key)
    requires forall k :: WithKey(a, key, k) == WithKey(b, key, k)
    ensures a == b
  {
    if a == [] && b != [] {
      // b's first record has no counterpart in a
      WithKeyOfHead(b, key);
      assert false;
    } else if a != [] && b == [] {
      WithKeyOfHead(a, key);
      assert false;
    } else if a != [] {
      var ka, kb := key(a[0]), key(b[0]);
      // b[0] occurs in a, so ka <= kb; symmetrically kb <= ka
      assert KeyIs(key, kb)(b[0]) && KeyIs(key, ka)(a[0]);
      KeepMember(b, KeyIs(key, kb), b[0]);
      assert b[0] in WithKey(a, key, kb);
      KeepMember(a, KeyIs(key, kb), b[0]);
      var i :| 0 <= i < |a| && a[i] == b[0];
      if i > 0 { assert LessEq(key(a[0]), key(a[i])); } else { LessEqReflexive(ka); }
      KeepMember(a, KeyIs(key, ka), a[0]);
      assert a[0] in WithKey(b, key, ka);
      KeepMember(b, KeyIs(key, ka), a[0]);
      var j :| 0 <= j < |b| && b[j] == a[0];
      if j > 0 { assert LessEq(key(b[0]), key(b[j])); } else { LessEqReflexive(kb); }
      LessEqAntisymmetric(ka, kb);
      var wa, wb := WithKey(a, key, ka), WithKey(b, key, ka);
      assert wa == [a[0]] + WithKey(a[1..], key, ka);
      assert wb == [b[0]] + WithKey(b[1..], key, ka);
      assert wa == wb;
      assert a[0] == wa[0] == wb[0] == b[0];
      assert WithKey(a[1..], key, ka) == wa[1..] == wb[1..] == WithKey(b[1..], key, ka);
      forall k ensures WithKey(a[1..], key, k) == WithKey(b[1..], key, k) {
        if k != ka {
          assert !KeyIs(key, k)(a[0]) && !KeyIs(key, k)(b[0]);
          assert WithKey(a, key, k) == WithKey(a[1..], key, k);
          assert WithKey(b, key, k) == WithKey(b[1..], key, k);
        }
      }
      SortedUnique(a[1..], b[1..], key);
      assert a == [a[0]] + a[1..] && b == [b[0]] + b[1..];
    }
  }

  /** Sorting an already ordered list changes nothing. */
  lemma SortOfSorted<T>(s: seq<T>, key: T -> string)
    requires SortedBy(s, key)
    ensures SortBy(s, key) == s
  {
    SortSorted(s, key);
    forall k ensures WithKey(SortBy(s, key), key, k) == WithKey(s, key, k) {
      SortStable(s, key, k);
    }
    SortedUnique(SortBy(s, key), s, key);
  }

  /** Reversal of an ordered list is ordered by key from largest to smallest. */
  lemma ReverseSortedDescending<T>(s: seq<T>, key: T -> string)
    requires SortedBy(s, key)
    ensures forall i, j :: 0 <= i < j < |Reverse(s)| ==> LessEq(key(Reverse(s)[j]), key(Reverse(s)[i]))
  {
    ReverseLength(s);
    forall i, j | 0 <= i < j < |Reverse(s)|
      ensures LessEq(key(Reverse(s)[j]), key(Reverse(s)[i]))
    {
      ReverseAt(s, i);
      ReverseAt(s, j);
    }
  }
}
