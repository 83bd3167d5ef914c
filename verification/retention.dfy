/** Keeping the most recent shares: a stable sort by descending timestamp, then a prefix
    cut to the share limit with Python's slice rules. */
module Retention {
  import opened Shares

  /** Pairwise non-increasing by `key`. */
  predicate SortedDesc<T>(s: seq<T>, key: T -> int)
  {
    forall i, j :: 0 <= i < j < |s| ==> key(s[i]) >= key(s[j])
  }

  /** Places `x` before the first element whose key is not larger than its own. */
  function Insert<T>(x: T, s: seq<T>, key: T -> int): seq<T>
  {
    if s == [] || key(x) >= key(s[0]) then [x] + s
    else [s[0]] + Insert(x, s[1..], key)
  }

  /** Python's stable sort with `reverse=True`: by descending key, equal keys in their
      original order. */
  function SortDesc<T>(s: seq<T>, key: T -> int): seq<T>
  {
    if s == [] then [] else Insert(s[0], SortDesc(s[1..], key), key)
  }

  /** The elements of `s` whose key is `k`, in order. */
  function WithKey<T>(s: seq<T>, key: T -> int, k: int): seq<T>
  {
    if s == [] then []
    else (if key(s[0]) == k then [s[0]] else []) + WithKey(s[1..], key, k)
  }

  /** Inserting an element whose key is at most `b` into a list whose keys are at most `b`
      keeps every key at most `b`. */
  lemma {:induction false} InsertBounded<T>(x: T, s: seq<T>, key: T -> int, b: int)
    requires key(x) <= b && forall i :: 0 <= i < |s| ==> key(s[i]) <= b
    ensures forall i :: 0 <= i < |Insert(x, s, key)| ==> key(Insert(x, s, key)[i]) <= b
  {
    if s != [] && key(x) < key(s[0]) {
      InsertBounded(x, s[1..], key, b);
    }
  }

  lemma {:induction false} InsertPerm<T>(x: T, s: seq<T>, key: T -> int)
    ensures multiset(Insert(x, s, key)) == multiset{x} + multiset(s)
  {
    if s != [] && key(x) < key(s[0]) {
      InsertPerm(x, s[1..], key);
      assert s == [s[0]] + s[1..];
    }
  }

  lemma {:induction false} InsertSpec<T>(x: T, s: seq<T>, key: T -> int)
    requires SortedDesc(s, key)
    ensures SortedDesc(Insert(x, s, key), key)
    ensures multiset(Insert(x, s, key)) == multiset{x} + multiset(s)
  {
    InsertPerm(x, s, key);
    if s != [] && key(x) < key(s[0]) {
      InsertSpec(x, s[1..], key);
      InsertBounded(x, s[1..], key, key(s[0]));
    }
  }

  /** The sort orders by descending key and only reorders. */
  lemma {:induction false} SortDescSpec<T>(s: seq<T>, key: T -> int)
    ensures SortedDesc(SortDesc(s, key), key)
    ensures multiset(SortDesc(s, key)) == multiset(s)
    ensures |SortDesc(s, key)| == |s|
  {
    if s != [] {
      SortDescSpec(s[1..], key);
      InsertSpec(s[0], SortDesc(s[1..], key), key);
      assert s == [s[0]] + s[1..];
      assert |SortDesc(s, key)| == |multiset(SortDesc(s, key))|;
    }
  }

  lemma {:induction false} InsertKeepsTies<T>(x: T, s: seq<T>, key: T -> int, k: int)
    requires SortedDesc(s, key)
    ensures WithKey(Insert(x, s, key), key, k)
            == (if key(x) == k then [x] else []) + WithKey(s, key, k)
  {
    if s == [] {
      assert Insert(x, s, key) == [x];
      assert [x][1..] == [];
    } else if key(x) >= key(s[0]) {
      var r := [x] + s;
      assert r[0] == x && r[1..] == s;
    } else {
      InsertKeepsTies(x, s[1..], key, k);
      var r := [s[0]] + Insert(x, s[1..], key);
      assert r[0] == s[0] && r[1..] == Insert(x, s[1..], key);
      assert WithKey(s, key, k) == (if key(s[0]) == k then [s[0]] else []) + WithKey(s[1..], key, k);
      if key(x) == k {
        assert key(s[0]) != k;
      }
    }
  }

  /** Stability: the elements sharing any one key keep their original relative order. */
  lemma {:induction false} SortDescStable<T>(s: seq<T>, key: T -> int, k: int)
    ensures WithKey(SortDesc(s, key), key, k) == WithKey(s, key, k)
  {
    if s != [] {
      SortDescStable(s[1..], key, k);
      SortDescSpec(s[1..], key);
      InsertKeepsTies(s[0], SortDesc(s[1..], key), key, k);
    }
  }

  /** Python's `s[:limit]` for a non-zero `limit` (a negative one drops from the end), and
      the whole list for `limit == 0`. */
  function Retain<T>(s: seq<T>, limit: int): (r: seq<T>)
  {
    if limit == 0 then s
    else if limit > 0 then (if limit <= |s| then s[..limit] else s)
    else (if |s| + limit >= 0 then s[..|s| + limit] else [])
  }

  function ShareTs(s: ShareRecord): int
  {
    s.ts
  }

  /** `recent_shares`: the kept shares, newest first, cut to the limit. */
  function RecentShares(shares: seq<ShareRecord>, limit: int): seq<ShareRecord>
  {
    Retain(SortDesc(shares, ShareTs), limit)
  }

  /** `s[:limit]` is the prefix of `s` whose length Python's slice rules give. */
  lemma RetainPrefix<T>(s: seq<T>, limit: int)
    ensures Retain(s, limit) == s[..|Retain(s, limit)|]
    ensures |Retain(s, limit)| == (if limit == 0 then |s|
                                   else if limit > 0 then (if limit <= |s| then limit else |s|)
                                   else (if |s| + limit >= 0 then |s| + limit else 0))
  {
  }

  /** The recent shares are a prefix of the newest-first order, as long as Python's slice
      makes it; they are sorted, drawn from the kept shares, and no dropped share is newer
      than a kept one. */
  lemma RecentSharesSpec(shares: seq<ShareRecord>, limit: int)
    ensures var r := RecentShares(shares, limit);
      && r == SortDesc(shares, ShareTs)[..|r|]
      && |r| == (if limit == 0 then |shares|
                 else if limit > 0 then (if limit <= |shares| then limit else |shares|)
                 else (if |shares| + limit >= 0 then |shares| + limit else 0))
      && SortedDesc(r, ShareTs)
      && multiset(r) <= multiset(shares)
      && (forall i, j :: 0 <= i < |r| <= j < |SortDesc(shares, ShareTs)| ==> SortDesc(shares, ShareTs)[j].ts <= r[i].ts)
  {
    var sorted := SortDesc(shares, ShareTs);
    SortDescSpec(shares, ShareTs);
    RetainPrefix(sorted, limit);
    var r := RecentShares(shares, limit);
    assert sorted == r + sorted[|r|..];
    assert multiset(sorted) == multiset(r) + multiset(sorted[|r|..]);
    forall i, j | 0 <= i < |r| <= j < |sorted| ensures sorted[j].ts <= r[i].ts {
      assert r[i] == sorted[i] && ShareTs(sorted[i]) >= ShareTs(sorted[j]);
    }
  }
}
