/**
 * Python's `list.sort(key=price)` and `list.sort(key=price, reverse=True)`
 * on order lists: a stable sort, so orders with equal prices keep the
 * order in which they were submitted, in both directions.
 */
module PriceSort {
  import opened AuctionTypes

  /** The sort key: the price, negated for bids so that the highest bid
      comes first (`reverse=True`). */
  function Key(o: ValidAction, descending: bool): (k: real)
  {
    if descending then -Price(o) else Price(o)
  }

  ghost predicate Sorted(s: seq<ValidAction>, descending: bool)
  {
    forall i, j :: 0 <= i < j < |s| ==> Key(s[i], descending) <= Key(s[j], descending)
  }

  /** Places `x` before the first element whose key is not smaller. */
  function Insert(x: ValidAction, s: seq<ValidAction>, descending: bool): (r: seq<ValidAction>)
  {
    if s == [] || Key(x, descending) <= Key(s[0], descending) then [x] + s
    else [s[0]] + Insert(x, s[1..], descending)
  }

  lemma {:induction false} InsertPermutes(x: ValidAction, s: seq<ValidAction>, descending: bool)
    ensures multiset(Insert(x, s, descending)) == multiset(s) + multiset{x}
  {
    if s != [] && Key(x, descending) > Key(s[0], descending) {
      InsertPermutes(x, s[1..], descending);
      assert s == [s[0]] + s[1..];
    }
  }

  lemma {:induction false} InsertSorted(x: ValidAction, s: seq<ValidAction>, descending: bool)
    requires Sorted(s, descending)
    ensures Sorted(Insert(x, s, descending), descending)
  {
    if s != [] && Key(x, descending) > Key(s[0], descending) {
      var rest := Insert(x, s[1..], descending);
      InsertSorted(x, s[1..], descending);
      InsertBound(x, s, descending);
      var r := Insert(x, s, descending);
      assert r == [s[0]] + rest;
      forall i, j | 0 <= i < j < |r|
        ensures Key(r[i], descending) <= Key(r[j], descending)
      {
        assert r[j] == rest[j - 1];
        if i > 0 {
          assert r[i] == rest[i - 1];
        }
      }
    }
  }

  /** When `x` goes behind the head of a sorted `s`, every order after
      the head is no smaller than the head. */
  lemma InsertBound(x: ValidAction, s: seq<ValidAction>, descending: bool)
    requires Sorted(s, descending) && s != [] && Key(x, descending) > Key(s[0], descending)
    ensures forall k :: 0 <= k < |Insert(x, s[1..], descending)| ==>
              Key(s[0], descending) <= Key(Insert(x, s[1..], descending)[k], descending)
  {
    var rest := Insert(x, s[1..], descending);
    InsertPermutes(x, s[1..], descending);
    forall k | 0 <= k < |rest|
      ensures Key(s[0], descending) <= Key(rest[k], descending)
    {
      assert rest[k] in multiset(rest);
      if rest[k] != x {
        assert rest[k] in s[1..];
        var m :| 0 <= m < |s[1..]| && s[1..][m] == rest[k];
        assert s[1..][m] == s[m + 1];
      }
    }
  }

  /** Sorting only reorders: the result holds the same orders. */
  function Sort(s: seq<ValidAction>, descending: bool): (r: seq<ValidAction>)
    ensures multiset(r) == multiset(s)
  {
    if s == [] then []
    else
      var rest := Sort(s[1..], descending);
      InsertPermutes(s[0], rest, descending);
      assert s == [s[0]] + s[1..];
      Insert(s[0], rest, descending)
  }

  /** The result is ordered by price: highest first for bids, lowest first
      for asks. */
  lemma {:induction false} SortIsSorted(s: seq<ValidAction>, descending: bool)
    ensures Sorted(Sort(s, descending), descending)
  {
    if s != [] {
      SortIsSorted(s[1..], descending);
      InsertSorted(s[0], Sort(s[1..], descending), descending);
    }
  }

  /** The orders of `s` whose price is `p`, in their order in `s`. */
  function AtPrice(s: seq<ValidAction>, p: real): seq<ValidAction>
  {
    if s == [] then []
    else (if Price(s[0]) == p then [s[0]] else []) + AtPrice(s[1..], p)
  }

  lemma {:induction false} InsertAtPrice(x: ValidAction, s: seq<ValidAction>, descending: bool, p: real)
    ensures AtPrice(Insert(x, s, descending), p)
         == (if Price(x) == p then [x] else []) + AtPrice(s, p)
  {
    if s == [] || Key(x, descending) <= Key(s[0], descending) {
      assert ([x] + s)[1..] == s;
    } else {
      InsertAtPrice(x, s[1..], descending, p);
      assert ([s[0]] + Insert(x, s[1..], descending))[1..] == Insert(x, s[1..], descending);
    }
  }

  /** Stability: among orders of one price, sorting keeps the submission
      order. With `Sort`'s own contract this fixes the result completely. */
  lemma {:induction false} SortIsStable(s: seq<ValidAction>, descending: bool, p: real)
    ensures AtPrice(Sort(s, descending), p) == AtPrice(s, p)
  {
    if s != [] {
      SortIsStable(s[1..], descending, p);
      InsertAtPrice(s[0], Sort(s[1..], descending), descending, p);
    }
  }
}
