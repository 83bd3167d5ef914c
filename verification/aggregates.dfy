/** The aggregates over the retained shares: windowed count and mean of `sdiff`, the best
    `sdiff` of the last day, and share counts by agent and by worker ordered by count. */
module Aggregates {
  import opened JsonValue
  import opened Shares
  import opened Retention

  const TenMinutes: int := 10 * 60
  const OneHour: int := 60 * 60
  const OneDay: int := 24 * 3600

  /** The reference time: the largest timestamp seen, or the clock when that is 0. */
  function Reference(lastTs: int, now: int): int
  {
    if lastTs != 0 then lastTs else now
  }

  /** The `sdiff` values of the shares at or after `lo`, in share order. */
  function InWindow(shares: seq<ShareRecord>, lo: int): seq<real>
  {
    if shares == [] then []
    else (if shares[0].ts >= lo then [shares[0].sdiff] else []) + InWindow(shares[1..], lo)
  }

  /** The number of shares at or after `lo`. */
  function CountSince(shares: seq<ShareRecord>, lo: int): nat
  {
    if shares == [] then 0
    else (if shares[0].ts >= lo then 1 else 0) + CountSince(shares[1..], lo)
  }

  function Sum(vals: seq<real>): real
  {
    if vals == [] then 0.0 else vals[0] + Sum(vals[1..])
  }

  /** The arithmetic mean of the values, or 0 when there are none. */
  function Mean(vals: seq<real>): real
  {
    if vals == [] then 0.0 else Sum(vals) / (|vals| as real)
  }

  /** The largest of a non-empty list of values. */
  function MaxOf(vals: seq<real>): (m: real)
    requires vals != []
    ensures m in vals
    ensures forall i :: 0 <= i < |vals| ==> vals[i] <= m
  {
    if |vals| == 1 then vals[0]
    else
      var rest := MaxOf(vals[1..]);
      if vals[0] >= rest then vals[0] else rest
  }

  /** `_agg(window)`: the count and mean `sdiff` of the shares in the window. */
  function WindowAgg(shares: seq<ShareRecord>, ref: int, window: int): (int, real)
  {
    var vals := InWindow(shares, ref - window);
    (|vals|, Mean(vals))
  }

  /** The largest `sdiff` of the last 24 hours, or 0 when no share falls in that window. */
  function BestOfDay(shares: seq<ShareRecord>, ref: int): real
  {
    var vals := InWindow(shares, ref - OneDay);
    if vals == [] then 0.0 else MaxOf(vals)
  }

  /** A window holds exactly the `sdiff` of the shares at or after its start, one value per
      such share. */
  lemma {:induction false} InWindowSpec(shares: seq<ShareRecord>, lo: int)
    ensures |InWindow(shares, lo)| == CountSince(shares, lo) <= |shares|
    ensures forall v :: v in InWindow(shares, lo) <==>
      exists i :: 0 <= i < |shares| && shares[i].ts >= lo && shares[i].sdiff == v
  {
    if shares != [] {
      InWindowSpec(shares[1..], lo);
      forall v ensures v in InWindow(shares, lo) <==>
        exists i :: 0 <= i < |shares| && shares[i].ts >= lo && shares[i].sdiff == v
      {
        if exists i :: 0 <= i < |shares| && shares[i].ts >= lo && shares[i].sdiff == v {
          var i :| 0 <= i < |shares| && shares[i].ts >= lo && shares[i].sdiff == v;
          if i > 0 {
            assert shares[1..][i - 1] == shares[i];
          }
        }
        if v in InWindow(shares[1..], lo) {
          var i :| 0 <= i < |shares[1..]| && shares[1..][i].ts >= lo && shares[1..][i].sdiff == v;
          assert shares[i + 1] == shares[1..][i];
        }
      }
    }
  }

  /** Read from the end, a window gains the last share's `sdiff` exactly when that share is
      in it: with the empty window of no shares, this gives one value per share in the
      window, in share order. */
  lemma {:induction false} InWindowSnoc(shares: seq<ShareRecord>, lo: int)
    requires shares != []
    ensures InWindow(shares, lo)
            == InWindow(shares[..|shares| - 1], lo)
               + (if shares[|shares| - 1].ts >= lo then [shares[|shares| - 1].sdiff] else [])
  {
    var n := |shares|;
    var last := if shares[n - 1].ts >= lo then [shares[n - 1].sdiff] else [];
    if n > 1 {
      var init := shares[..n - 1];
      var tail := shares[1..];
      var head := if shares[0].ts >= lo then [shares[0].sdiff] else [];
      InWindowSnoc(tail, lo);
      assert tail[|tail| - 1] == shares[n - 1];
      assert init[0] == shares[0] && init[1..] == tail[..|tail| - 1];
      calc {
        InWindow(shares, lo);
        head + InWindow(tail, lo);
        head + (InWindow(tail[..|tail| - 1], lo) + last);
        (head + InWindow(init[1..], lo)) + last;
        InWindow(init, lo) + last;
      }
    }
  }

  /** A window that starts later holds no more shares, and none holds more than the list. */
  lemma {:induction false} CountSinceMonotone(shares: seq<ShareRecord>, lo1: int, lo2: int)
    requires lo2 <= lo1
    ensures CountSince(shares, lo1) <= CountSince(shares, lo2) <= |shares|
  {
    if shares != [] {
      CountSinceMonotone(shares[1..], lo1, lo2);
    }
  }

  /** A mean never exceeds the maximum. */
  lemma {:induction false} SumAtMost(vals: seq<real>, m: real)
    requires forall i :: 0 <= i < |vals| ==> vals[i] <= m
    ensures Sum(vals) <= (|vals| as real) * m
  {
    if vals != [] {
      SumAtMost(vals[1..], m);
    }
  }

  lemma DivAtMost(a: real, n: real, m: real)
    requires n > 0.0 && a <= n * m
    ensures a / n <= m
  {
  }

  lemma MeanAtMostMax(vals: seq<real>)
    requires vals != []
    ensures Mean(vals) <= MaxOf(vals)
  {
    SumAtMost(vals, MaxOf(vals));
    DivAtMost(Sum(vals), |vals| as real, MaxOf(vals));
  }

  /** The 10-minute and 1-hour counts never exceed the retained shares, the shorter window
      never holds more than the longer one, and the mean of a non-empty 10-minute window
      never exceeds the best `sdiff` of the day. */
  lemma WindowsNest(shares: seq<ShareRecord>, ref: int)
    ensures WindowAgg(shares, ref, TenMinutes).0 <= WindowAgg(shares, ref, OneHour).0 <= |shares|
    ensures InWindow(shares, ref - TenMinutes) != [] ==>
      WindowAgg(shares, ref, TenMinutes).1 <= BestOfDay(shares, ref)
  {
    InWindowSpec(shares, ref - TenMinutes);
    InWindowSpec(shares, ref - OneHour);
    InWindowSpec(shares, ref - OneDay);
    CountSinceMonotone(shares, ref - TenMinutes, ref - OneHour);
    var short := InWindow(shares, ref - TenMinutes);
    var day := InWindow(shares, ref - OneDay);
    if short != [] {
      MeanAtMostMax(short);
      assert MaxOf(short) in short;
      assert MaxOf(short) in day;
      var k :| 0 <= k < |day| && day[k] == MaxOf(short);
    }
  }

  /** The best of the day is the largest `sdiff` among the day's shares, or 0 without any. */
  lemma BestOfDaySpec(shares: seq<ShareRecord>, ref: int)
    ensures (forall i :: 0 <= i < |shares| ==> shares[i].ts < ref - OneDay) ==> BestOfDay(shares, ref) == 0.0
    ensures forall i :: 0 <= i < |shares| && shares[i].ts >= ref - OneDay ==> shares[i].sdiff <= BestOfDay(shares, ref)
    ensures (exists i :: 0 <= i < |shares| && shares[i].ts >= ref - OneDay) ==>
      exists i :: 0 <= i < |shares| && shares[i].ts >= ref - OneDay && shares[i].sdiff == BestOfDay(shares, ref)
  {
    var vals := InWindow(shares, ref - OneDay);
    InWindowSpec(shares, ref - OneDay);
    forall i | 0 <= i < |shares| && shares[i].ts >= ref - OneDay
      ensures shares[i].sdiff <= BestOfDay(shares, ref)
    {
      assert shares[i].sdiff in vals;
      var k :| 0 <= k < |vals| && vals[k] == shares[i].sdiff;
    }
    if exists i :: 0 <= i < |shares| && shares[i].ts >= ref - OneDay {
      var i :| 0 <= i < |shares| && shares[i].ts >= ref - OneDay;
      assert shares[i].sdiff in vals;
      assert MaxOf(vals) in InWindow(shares, ref - OneDay);
    }
    if vals != [] {
      assert vals[0] in InWindow(shares, ref - OneDay);
    }
  }

  /** A `defaultdict(int)` counter: its keys in insertion order and their counts. */
  datatype Tally<K> = Tally(order: seq<K>, counts: map<K, nat>)

  /** Counts one more occurrence of `k`, appending it to the order when it is new. */
  function Bump<K(==)>(t: Tally<K>, k: K): Tally<K>
  {
    if k in t.counts then Tally(t.order, t.counts[k := t.counts[k] + 1])
    else Tally(t.order + [k], t.counts[k := 1])
  }

  /** The counter after counting `keys` in order. */
  function TallyOf<K(==)>(keys: seq<K>): Tally<K>
  {
    if keys == [] then Tally([], map[])
    else Bump(TallyOf(keys[..|keys| - 1]), keys[|keys| - 1])
  }

  function Occurrences<K(==)>(keys: seq<K>, k: K): nat
  {
    if keys == [] then 0
    else Occurrences(keys[..|keys| - 1], k) + (if keys[|keys| - 1] == k then 1 else 0)
  }

  lemma {:induction false} OccurrencesPositive<K>(keys: seq<K>, k: K)
    ensures Occurrences(keys, k) > 0 <==> k in keys
  {
    if keys != [] {
      var init := keys[..|keys| - 1];
      OccurrencesPositive(init, k);
      if k in init {
        var i :| 0 <= i < |init| && init[i] == k;
        assert keys[i] == k;
      }
      if k in keys && keys[|keys| - 1] != k {
        var i :| 0 <= i < |keys| && keys[i] == k;
        assert init[i] == k;
      }
    }
  }

  /** Counting one more key bumps its counter. */
  lemma TallySnoc<K>(keys: seq<K>, k: K)
    ensures TallyOf(keys + [k]) == Bump(TallyOf(keys), k)
  {
    assert (keys + [k])[..|keys|] == keys;
  }

  /** The order lists each counted key once, in order of first appearance, and each count is
      the number of occurrences. */
  lemma {:induction false} TallySpec<K>(keys: seq<K>)
    ensures var t := TallyOf(keys);
      && (forall i, j :: 0 <= i < j < |t.order| ==> t.order[i] != t.order[j])
      && (forall k :: k in t.counts <==> k in t.order)
      && (forall k :: k in t.counts <==> k in keys)
      && (forall k :: k in t.counts ==> t.counts[k] == Occurrences(keys, k))
  {
    if keys != [] {
      var init := keys[..|keys| - 1];
      var k := keys[|keys| - 1];
      TallySpec(init);
      var t0 := TallyOf(init);
      assert TallyOf(keys) == Bump(t0, k);
      forall x ensures Occurrences(keys, x) == Occurrences(init, x) + (if k == x then 1 else 0) {
      }
      OccurrencesPositive(init, k);
      forall x ensures x in keys <==> x in init || x == k {
        if x in keys {
          var i :| 0 <= i < |keys| && keys[i] == x;
          if i < |init| { assert init[i] == x; }
        }
        if x in init {
          var i :| 0 <= i < |init| && init[i] == x;
          assert keys[i] == x;
        }
      }
    }
  }

  /** The order is the order of first appearance: a key listed before another one already
      occurs before that one's every occurrence. */
  lemma {:induction false} TallyFirstSeen<K>(keys: seq<K>)
    ensures var t := TallyOf(keys);
      forall i, j, q :: 0 <= i < j < |t.order| && 0 <= q < |keys| && keys[q] == t.order[j] ==>
        t.order[i] in keys[..q]
  {
    if keys != [] {
      var init := keys[..|keys| - 1];
      var k := keys[|keys| - 1];
      TallyFirstSeen(init);
      TallySpec(init);
      var t0 := TallyOf(init);
      var t := TallyOf(keys);
      assert t == Bump(t0, k);
      assert t.order[..|t0.order|] == t0.order;
      forall i, j, q | 0 <= i < j < |t.order| && 0 <= q < |keys| && keys[q] == t.order[j]
        ensures t.order[i] in keys[..q]
      {
        assert i < |t0.order| && t.order[i] == t0.order[i];
        if q < |init| {
          assert keys[..q] == init[..q] && keys[q] == init[q] && init[q] in init;
          assert j < |t0.order| ==> t.order[j] == t0.order[j];
        } else {
          assert keys[..q] == init;
          assert t0.order[i] in t0.order;
        }
      }
    }
  }

  function SumCounts<K>(order: seq<K>, counts: map<K, nat>): int
  {
    if order == [] then 0
    else (if order[0] in counts then counts[order[0]] else 0) + SumCounts(order[1..], counts)
  }

  lemma {:induction false} SumCountsAppend<K>(order: seq<K>, counts: map<K, nat>, k: K)
    ensures SumCounts(order + [k], counts) == SumCounts(order, counts) + (if k in counts then counts[k] else 0)
  {
    if order != [] {
      assert (order + [k])[0] == order[0] && (order + [k])[1..] == order[1..] + [k];
      SumCountsAppend(order[1..], counts, k);
    } else {
      assert order + [k] == [k];
      assert [k][1..] == [];
    }
  }

  lemma {:induction false} SumCountsUpdate<K>(order: seq<K>, counts: map<K, nat>, k: K, v: nat)
    requires forall i, j :: 0 <= i < j < |order| ==> order[i] != order[j]
    requires k in counts || k !in order
    ensures SumCounts(order, counts[k := v])
            == SumCounts(order, counts) + (if k in order then v - counts[k] else 0)
  {
    if order != [] {
      SumCountsUpdate(order[1..], counts, k, v);
      if order[0] == k {
        assert k !in order[1..] by {
          forall i | 0 <= i < |order[1..]| ensures order[1..][i] != k {
            assert order[1..][i] == order[i + 1];
          }
        }
      }
    }
  }

  /** The counts add up to the number of counted keys. */
  lemma {:induction false} TallyTotal<K>(keys: seq<K>)
    ensures SumCounts(TallyOf(keys).order, TallyOf(keys).counts) == |keys|
  {
    if keys != [] {
      var init := keys[..|keys| - 1];
      var k := keys[|keys| - 1];
      TallyTotal(init);
      TallySpec(init);
      var t := TallyOf(init);
      if k in t.counts {
        SumCountsUpdate(t.order, t.counts, k, t.counts[k] + 1);
      } else {
        SumCountsUpdate(t.order, t.counts, k, 1);
        SumCountsAppend(t.order, t.counts[k := 1], k);
      }
    }
  }

  /** The counter's items ranked by count, highest first, by a stable sort. */
  function Items<K(==)>(order: seq<K>, counts: map<K, nat>): seq<(K, int)>
  {
    if order == [] then []
    else [(order[0], if order[0] in counts then counts[order[0]] else 0)] + Items(order[1..], counts)
  }

  function ItemCount<K(==)>(p: (K, int)): int
  {
    p.1
  }

  function Ranked<K(==)>(t: Tally<K>): seq<(K, int)>
  {
    SortDesc(Items(t.order, t.counts), ItemCount)
  }

  /** The ranking lists every counted key once with its count, by non-increasing count,
      and keys with equal counts in order of first appearance. */
  lemma RankedSpec<K>(t: Tally<K>, c: int)
    ensures SortedDesc(Ranked(t), ItemCount)
    ensures multiset(Ranked(t)) == multiset(Items(t.order, t.counts))
    ensures WithKey(Ranked(t), ItemCount, c) == WithKey(Items(t.order, t.counts), ItemCount, c)
  {
    SortDescSpec(Items(t.order, t.counts), ItemCount);
    SortDescStable(Items(t.order, t.counts), ItemCount, c);
  }

  /** Agents counted: the truthy `agent` values of the shares, in order. */
  function AgentKeys(shares: seq<ShareRecord>): seq<Json>
  {
    if shares == [] then []
    else
      var s := shares[|shares| - 1];
      AgentKeys(shares[..|shares| - 1]) + (if Truthy(s.agent) then [s.agent] else [])
  }

  /** Workers counted: the non-empty worker names of the shares, in order. */
  function WorkerKeys(shares: seq<ShareRecord>): seq<string>
  {
    if shares == [] then []
    else
      var s := shares[|shares| - 1];
      WorkerKeys(shares[..|shares| - 1]) + (if s.workername != "" then [s.workername] else [])
  }

  /** Every counted share has one agent (one worker) at most, so the counts sum to at
      most the number of retained shares. */
  lemma {:induction false} KeysBound(shares: seq<ShareRecord>)
    ensures |AgentKeys(shares)| <= |shares| && |WorkerKeys(shares)| <= |shares|
  {
    if shares != [] {
      KeysBound(shares[..|shares| - 1]);
    }
  }

  lemma KeysStep(shares: seq<ShareRecord>, i: nat)
    requires i < |shares|
    ensures AgentKeys(shares[..i + 1])
            == AgentKeys(shares[..i]) + (if Truthy(shares[i].agent) then [shares[i].agent] else [])
    ensures WorkerKeys(shares[..i + 1])
            == WorkerKeys(shares[..i]) + (if shares[i].workername != "" then [shares[i].workername] else [])
  {
    assert shares[..i + 1][..i] == shares[..i] && shares[..i + 1][i] == shares[i];
  }

  /** The counting loop over the retained shares. */
  method CountByAgentAndWorker(shares: seq<ShareRecord>)
    returns (byAgent: Tally<Json>, byWorker: Tally<string>)
    ensures byAgent == TallyOf(AgentKeys(shares))
    ensures byWorker == TallyOf(WorkerKeys(shares))
  {
    byAgent, byWorker := Tally([], map[]), Tally([], map[]);
    for i := 0 to |shares|
      invariant byAgent == TallyOf(AgentKeys(shares[..i]))
      invariant byWorker == TallyOf(WorkerKeys(shares[..i]))
    {
      var s := shares[i];
      KeysStep(shares, i);
      if Truthy(s.agent) {
        TallySnoc(AgentKeys(shares[..i]), s.agent);
        byAgent := Bump(byAgent, s.agent);
      } else {
        assert AgentKeys(shares[..i + 1]) == AgentKeys(shares[..i]);
      }
      if s.workername != "" {
        TallySnoc(WorkerKeys(shares[..i]), s.workername);
        byWorker := Bump(byWorker, s.workername);
      } else {
        assert WorkerKeys(shares[..i + 1]) == WorkerKeys(shares[..i]);
      }
    }
    assert shares[..|shares|] == shares;
  }

  /** Each share is counted at most once per tally, so neither tally's counts add up to
      more than the retained shares. */
  lemma CountsBound(shares: seq<ShareRecord>)
    ensures SumCounts(TallyOf(AgentKeys(shares)).order, TallyOf(AgentKeys(shares)).counts) <= |shares|
    ensures SumCounts(TallyOf(WorkerKeys(shares)).order, TallyOf(WorkerKeys(shares)).counts) <= |shares|
  {
    TallyTotal(AgentKeys(shares));
    TallyTotal(WorkerKeys(shares));
    KeysBound(shares);
  }

  function Sample(ts: int, sdiff: real): ShareRecord
  {
    ShareRecord(ts, JNull, JNull, JNull, JNull, JNull, JNull, JNull, sdiff, JNull, true, JNull,
                "", JNull, JNull)
  }

  /** Shares 100, 700 and 4000 seconds before the reference, with `sdiff` 1, 2 and 3. */
  function ExampleShares(ref: int): seq<ShareRecord>
  {
    [Sample(ref - 100, 1.0), Sample(ref - 700, 2.0), Sample(ref - 4000, 3.0)]
  }

  lemma ExampleWindows(ref: int)
    ensures InWindow(ExampleShares(ref), ref - TenMinutes) == [1.0]
    ensures InWindow(ExampleShares(ref), ref - OneHour) == [1.0, 2.0]
    ensures InWindow(ExampleShares(ref), ref - OneDay) == [1.0, 2.0, 3.0]
  {
    var shares := ExampleShares(ref);
    var mid := shares[1..];
    var last := mid[1..];
    assert last == [Sample(ref - 4000, 3.0)] && last[1..] == [];
    assert mid == [Sample(ref - 700, 2.0)] + last;
    assert InWindow(last, ref - TenMinutes) == [];
    assert InWindow(last, ref - OneHour) == [];
    assert InWindow(last, ref - OneDay) == [3.0];
  }

  /** The 10-minute window holds only the newest share (700 seconds is outside it), the
      hour holds two, the day all three. */
  lemma WindowExample(ref: int)
    ensures WindowAgg(ExampleShares(ref), ref, TenMinutes) == (1, 1.0)
    ensures WindowAgg(ExampleShares(ref), ref, OneHour) == (2, 1.5)
    ensures BestOfDay(ExampleShares(ref), ref) == 3.0
  {
    ExampleWindows(ref);
    assert [1.0][1..] == [];
    assert [1.0, 2.0][1..] == [2.0] && [2.0][1..] == [];
    assert [1.0, 2.0, 3.0][1..] == [2.0, 3.0] && [2.0, 3.0][1..] == [3.0];
  }
}
