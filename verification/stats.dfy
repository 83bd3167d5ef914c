/** `get_user_stats`: the statistics of one miner address over the lines of a pool log,
    composed from the METRIC events, the User/Worker summaries and the Pool summaries. */
module Stats {
  import opened JsonValue
  import opened Text
  import opened Reconstructor
  import opened Shares
  import opened Retention
  import opened Aggregates
  import opened Snapshots
  import opened Pool

  /** `share_agg`: window counts and means, the best of the day, and the ranked tallies. */
  datatype ShareAgg = ShareAgg(
    last10m: (int, real),
    last1h: (int, real),
    best24h: real,
    byAgent: seq<(Json, int)>,
    byWorker: seq<(string, int)>)

  /** The statistics reported for an address. */
  datatype UserStats = UserStats(
    user: UserSummary,
    workerStats: seq<Json>,
    pool: map<string, Json>,
    lastWorkinfo: Option<WorkInfo>,
    recentShares: seq<ShareRecord>,
    shareAgg: ShareAgg)

  /** The tracked address: the argument without surrounding whitespace, empty when absent. */
  function Address(btcAddress: Option<string>): string
  {
    match btcAddress
    case Some(a) => Strip(a)
    case None => ""
  }

  /** The aggregates over the retained shares, given the reference time. */
  function AggregateOf(recent: seq<ShareRecord>, ref: int): ShareAgg
  {
    ShareAgg(
      WindowAgg(recent, ref, TenMinutes),
      WindowAgg(recent, ref, OneHour),
      BestOfDay(recent, ref),
      Ranked(TallyOf(AgentKeys(recent))),
      Ranked(TallyOf(WorkerKeys(recent))))
  }

  /** The statistics `get_user_stats` reports for `lines`, with `now` standing for the
      clock read when no timestamp was seen. */
  function StatsOf(lines: seq<string>, btcAddress: Option<string>, shareLimit: int, now: int,
                   parse: Decoder): UserStats
  {
    var addr := Address(btcAddress);
    var events := MetricEvents(lines, parse);
    var recent := RecentShares(KeptShares(events, addr), shareLimit);
    var scan := Scan(Classify(lines, addr, parse));
    var accum := Accumulate(PoolsOf(lines, parse)).0;
    UserStats(
      UserFields(scan.1),
      scan.0,
      if |accum| > 0 then TranslateRows(PoolTable, accum) else map[],
      LatestWorkInfo(events),
      recent,
      AggregateOf(recent, Reference(LastTsSeen(events, addr), now)))
  }

  /** The four passes of `get_user_stats` over the lines. */
  method GetUserStats(lines: seq<string>, btcAddress: Option<string>, shareLimit: int, now: int,
                      parse: Decoder) returns (stats: UserStats)
    ensures stats == StatsOf(lines, btcAddress, shareLimit, now, parse)
  {
    // 1) METRIC events: shares, the workinfo snapshot and the latest timestamp
    var events := IterMetricEvents(lines, parse);
    var addr := Address(btcAddress);
    var shares, lastWorkinfo, lastTs := CollectEvents(events, addr);
    var recent := RecentShares(shares, shareLimit);

    // 2) the latest User summary and the Worker summaries after it
    var workers, userData := ScanSnapshots(lines, addr, parse);
    var user := UserFields(userData);

    // 3) the Pool summaries
    var accum := MergePool(lines, parse);
    var pool := map[];
    if |accum| > 0 {
      pool := TranslatePool(accum);
    }

    // 4) aggregates over the retained shares
    var byAgent, byWorker := CountByAgentAndWorker(recent);
    var ref := Reference(lastTs, now);
    var agg := ShareAgg(
      WindowAgg(recent, ref, TenMinutes),
      WindowAgg(recent, ref, OneHour),
      BestOfDay(recent, ref),
      Ranked(byAgent),
      Ranked(byWorker));
    stats := UserStats(user, workers, pool, lastWorkinfo, recent, agg);
  }

  /** What the report promises about its shares: they are the newest retained shares in
      non-increasing timestamp order, drawn from the accepted ones; the 10-minute count
      does not exceed the hourly one, nor that the number of retained shares; and the
      snapshot is the latest-wins workinfo. */
  lemma StatsSpec(lines: seq<string>, btcAddress: Option<string>, shareLimit: int, now: int,
                  parse: Decoder)
    ensures var st := StatsOf(lines, btcAddress, shareLimit, now, parse);
      var kept := KeptShares(MetricEvents(lines, parse), Address(btcAddress));
      && SortedDesc(st.recentShares, ShareTs)
      && multiset(st.recentShares) <= multiset(kept)
      && (shareLimit == 0 ==> |st.recentShares| == |kept|)
      && (shareLimit > 0 ==> |st.recentShares| == if shareLimit <= |kept| then shareLimit else |kept|)
      && st.shareAgg.last10m.0 <= st.shareAgg.last1h.0 <= |st.recentShares|
      && st.lastWorkinfo == LatestWorkInfo(MetricEvents(lines, parse))
  {
    var addr := Address(btcAddress);
    var kept := KeptShares(MetricEvents(lines, parse), addr);
    RecentSharesSpec(kept, shareLimit);
    var recent := RecentShares(kept, shareLimit);
    WindowsNest(recent, Reference(LastTsSeen(MetricEvents(lines, parse), addr), now));
  }

  /** Without an address (none, empty or only whitespace) every share is kept, the whole
      file is scanned for worker summaries, and the user fields keep their defaults. */
  lemma NoAddressStats(lines: seq<string>, btcAddress: Option<string>, shareLimit: int, now: int,
                       parse: Decoder)
    requires btcAddress.None? || AllSpace(btcAddress.value)
    ensures var st := StatsOf(lines, btcAddress, shareLimit, now, parse);
      && st.user == DefaultUser
      && st.workerStats == WorkersRev(Classify(lines, "", parse))
      && Address(btcAddress) == ""
      && |KeptShares(MetricEvents(lines, parse), Address(btcAddress))| == |ShareEvents(MetricEvents(lines, parse))|
  {
    if btcAddress.Some? {
      StripAllSpace(btcAddress.value);
    }
    EmptyAddressScansAll(lines, parse);
    UnfilteredKeepsAll(MetricEvents(lines, parse));
  }
}
