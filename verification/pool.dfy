/** The `Pool:` summaries: a backward scan that merges the decoded objects into one
    accumulator until every required key is present, then a fixed renaming table. */
module Pool {
  import opened JsonValue
  import opened Text
  import opened Tokenizer

  const PoolMarker: string := "Pool:"

  /** `_parse_pool_line`: the decoded document, or `{}` when it does not decode. */
  function ParsePoolLine(text: string, parse: Decoder): Json
  {
    match parse(text)
    case Some(v) => v
    case None => JObj(map[])
  }

  /** The keys a line contributes, from its content: the members of the decoded object
      after `Pool:`; nothing for other lines or text that decodes to no object. */
  function PoolOf(content: string, parse: Decoder): map<string, Json>
  {
    if StartsWith(content, PoolMarker) then
      match ParsePoolLine(Strip(content[|PoolMarker|..]), parse)
      case JObj(fields) => fields
      case _ => map[]
    else map[]
  }

  /** A line contributes keys exactly when it starts with `Pool:` and the text after the
      first `Pool:`, stripped, decodes to an object with members; it then contributes
      exactly those members. */
  lemma PoolOfSpec(content: string, parse: Decoder)
    ensures StartsWith(content, PoolMarker) ==> content[|PoolMarker|..] == After(content, PoolMarker)
    ensures |PoolOf(content, parse)| > 0 <==>
      && StartsWith(content, PoolMarker)
      && var decoded := parse(Strip(After(content, PoolMarker)));
         decoded.Some? && decoded.value.JObj? && |decoded.value.fields| > 0
    ensures |PoolOf(content, parse)| > 0 ==>
      Some(JObj(PoolOf(content, parse))) == parse(Strip(After(content, PoolMarker)))
  {
    if StartsWith(content, PoolMarker) {
      assert OccursAt(content, PoolMarker, 0);
      FindSpec(content, PoolMarker);
    }
  }

  /** The pool object of every line of a log. */
  function PoolsOf(lines: seq<string>, parse: Decoder): (r: seq<map<string, Json>>)
    ensures |r| == |lines|
  {
    if lines == [] then [] else PoolsOf(lines[..|lines| - 1], parse) + [PoolOf(Content(lines[|lines| - 1]), parse)]
  }

  lemma {:induction false} PoolsOfAt(lines: seq<string>, k: nat, parse: Decoder)
    requires k < |lines|
    ensures PoolsOf(lines, parse)[k] == PoolOf(Content(lines[k]), parse)
  {
    if k < |lines| - 1 {
      PoolsOfAt(lines[..|lines| - 1], k, parse);
    }
  }

  /** The keys whose presence ends the scan: the counters, the hashrates and the share
      totals. */
  const Required: set<string> := {
    "runtime", "lastupdate", "Users", "Workers",
    "hashrate1m", "hashrate5m", "hashrate15m", "hashrate1hr", "hashrate6hr", "hashrate1d", "hashrate7d",
    "accepted", "rejected", "bestshare"}

  /** The accumulator holds every required key. */
  predicate Complete(accum: map<string, Json>)
  {
    Required <= accum.Keys
  }

  /** Every object of `pools` applied with `dict.update`, from the last to the first: on a
      shared key the EARLIER object wins, being applied later. */
  function Merged(pools: seq<map<string, Json>>): map<string, Json>
  {
    if pools == [] then map[] else Merged(pools[1..]) + pools[0]
  }

  /** The scan of `pools` from the last upwards: the accumulator, and whether it stopped
      because the accumulator became complete. */
  function Accumulate(pools: seq<map<string, Json>>): (map<string, Json>, bool)
  {
    if pools == [] then (map[], false)
    else
      var r := Accumulate(pools[1..]);
      if r.1 then r
      else if |pools[0]| > 0 then (r.0 + pools[0], Complete(r.0 + pools[0]))
      else r
  }

  /** Where the scan stopped: the index of the line that completed the accumulator, or 0
      when it ran to the first line. */
  function StopOf(pools: seq<map<string, Json>>): (stop: nat)
    ensures stop <= |pools|
  {
    if pools == [] then 0
    else if Accumulate(pools[1..]).1 then StopOf(pools[1..]) + 1
    else 0
  }

  /** Merging a slice that begins one object earlier applies that object last. */
  lemma MergedCons(pools: seq<map<string, Json>>, k: nat)
    requires k < |pools|
    ensures Merged(pools[k..]) == Merged(pools[k + 1..]) + pools[k]
  {
    assert pools[k..][1..] == pools[k + 1..];
  }

  /** The scan's accumulator is the merge of every object from the stopping line down to
      the last line; it reports a stop exactly when that merge is complete; and a scan
      that did not stop read every line. */
  lemma {:induction false} AccumulateSpec(pools: seq<map<string, Json>>)
    ensures Accumulate(pools).0 == Merged(pools[StopOf(pools)..])
    ensures Accumulate(pools).1 <==> Complete(Merged(pools[StopOf(pools)..]))
    ensures !Accumulate(pools).1 ==> StopOf(pools) == 0
  {
    if pools != [] {
      var tail := pools[1..];
      AccumulateSpec(tail);
      var s := StopOf(tail);
      assert tail[s..] == pools[s + 1..];
      if !Accumulate(tail).1 {
        assert tail[0..] == tail && pools[0..] == pools;
        MergedCons(pools, 0);
      }
    }
  }

  /** The scan stops at the first line (from the bottom) where the merge becomes
      complete: no shorter suffix of the log was complete. */
  lemma {:induction false} AccumulateMinimal(pools: seq<map<string, Json>>)
    ensures forall k :: StopOf(pools) < k <= |pools| ==> !Complete(Merged(pools[k..]))
  {
    if pools != [] {
      var tail := pools[1..];
      AccumulateMinimal(tail);
      AccumulateSpec(tail);
      forall k | StopOf(pools) < k <= |pools| ensures !Complete(Merged(pools[k..])) {
        assert pools[k..] == tail[k - 1..];
        if k == 1 {
          assert tail[0..] == tail;
        }
      }
    }
  }

  /** The value merged for a key comes from the first object (earliest line) that has it,
      and a key is merged exactly when some object has it. */
  lemma {:induction false} MergedSource(pools: seq<map<string, Json>>, key: string)
    ensures key in Merged(pools) <==> exists j :: 0 <= j < |pools| && key in pools[j]
    ensures forall j :: (0 <= j < |pools| && key in pools[j]
      && (forall j' :: 0 <= j' < j ==> key !in pools[j'])) ==> Merged(pools)[key] == pools[j][key]
  {
    if pools != [] {
      MergedSource(pools[1..], key);
      forall j | 1 <= j < |pools| ensures pools[j] == pools[1..][j - 1] { }
      if key in Merged(pools[1..]) {
        var j :| 0 <= j < |pools[1..]| && key in pools[1..][j];
        assert key in pools[j + 1];
      }
      forall j | 0 <= j < |pools| && key in pools[j] && (forall j' :: 0 <= j' < j ==> key !in pools[j'])
        ensures Merged(pools)[key] == pools[j][key]
      {
        if j > 0 {
          assert key !in pools[0];
          assert forall j' :: 0 <= j' < j - 1 ==> key !in pools[1..][j'];
        }
      }
    }
  }

  /** The pool object of line `k` of the log. */
  method ReadPoolLineAt(lines: seq<string>, k: nat, parse: Decoder) returns (pobj: map<string, Json>)
    requires k < |lines|
    ensures pobj == PoolsOf(lines, parse)[k]
  {
    pobj := PoolOf(Content(lines[k]), parse);
    PoolsOfAt(lines, k, parse);
  }

  /** One step of the scan, on the slice that begins at line `k`. */
  lemma AccumulateStep(pools: seq<map<string, Json>>, k: nat)
    requires k < |pools|
    ensures Accumulate(pools[k..]) ==
      var r := Accumulate(pools[k + 1..]);
      if r.1 then r
      else if |pools[k]| > 0 then (r.0 + pools[k], Complete(r.0 + pools[k]))
      else r
  {
    assert pools[k..][1..] == pools[k + 1..] && pools[k..][0] == pools[k];
  }

  /** What one iteration of the backward loop does to the scan's state. */
  lemma MergeStep(pools: seq<map<string, Json>>, k: nat, accum: map<string, Json>)
    requires k < |pools| && Accumulate(pools[k + 1..]) == (accum, false)
    ensures |pools[k]| > 0 && Complete(accum + pools[k]) ==>
      Accumulate(pools).0 == accum + pools[k]
    ensures !(|pools[k]| > 0 && Complete(accum + pools[k])) ==>
      Accumulate(pools[k..]) == (if |pools[k]| > 0 then accum + pools[k] else accum, false)
  {
    AccumulateStep(pools, k);
    if |pools[k]| > 0 && Complete(accum + pools[k]) {
      AccumulateDone(pools, k);
    }
  }

  /** One iteration of the backward loop, on line `k`: `update` with the line's object
      when it has keys, and whether the accumulator is now complete. */
  method MergeLine(lines: seq<string>, k: nat, accum: map<string, Json>, parse: Decoder)
    returns (next: map<string, Json>, done: bool)
    requires k < |lines| && Accumulate(PoolsOf(lines, parse)[k + 1..]) == (accum, false)
    ensures done ==> next == Accumulate(PoolsOf(lines, parse)).0
    ensures !done ==> Accumulate(PoolsOf(lines, parse)[k..]) == (next, false)
  {
    MergeStep(PoolsOf(lines, parse), k, accum);
    var pobj := ReadPoolLineAt(lines, k, parse);
    next, done := accum, false;
    if |pobj| > 0 {
      next := accum + pobj;
      done := Complete(next);
    }
  }

  /** The backward loop with `update` and the early `break`. */
  method MergePool(lines: seq<string>, parse: Decoder) returns (accum: map<string, Json>)
    ensures accum == Accumulate(PoolsOf(lines, parse)).0
  {
    accum := map[];
    var i := |lines|;
    while i > 0
      invariant 0 <= i <= |lines|
      invariant Accumulate(PoolsOf(lines, parse)[i..]) == (accum, false)
    {
      var done;
      accum, done := MergeLine(lines, i - 1, accum, parse);
      if done {
        return;
      }
      i := i - 1;
    }
    assert PoolsOf(lines, parse)[0..] == PoolsOf(lines, parse);
  }

  /** Once the scan has stopped, the lines above change nothing. */
  lemma {:induction false} AccumulateDone(pools: seq<map<string, Json>>, k: nat)
    requires k <= |pools| && Accumulate(pools[k..]).1
    ensures Accumulate(pools) == Accumulate(pools[k..])
    decreases k
  {
    if k > 0 {
      AccumulateDone(pools[1..], k - 1);
      assert pools[1..][k - 1..] == pools[k..];
    } else {
      assert pools[0..] == pools;
    }
  }

  /** The renaming table from the log's keys to the reported ones. */
  const PoolTable: seq<(string, string)> := [
    ("runtime", "runtime"), ("lastupdate", "lastupdate"),
    ("Users", "users"), ("Workers", "workers"),
    ("Idle", "idle"), ("Disconnected", "disconnected"),
    ("hashrate1m", "hashrate1m"), ("hashrate5m", "hashrate5m"), ("hashrate15m", "hashrate15m"),
    ("hashrate1hr", "hashrate1hr"), ("hashrate6hr", "hashrate6hr"), ("hashrate1d", "hashrate1d"),
    ("hashrate7d", "hashrate7d"),
    ("diff", "diff"), ("accepted", "accepted"), ("rejected", "rejected"), ("bestshare", "bestshare"),
    ("SPS1m", "SPS1m"), ("SPS5m", "SPS5m"), ("SPS15m", "SPS15m"), ("SPS1h", "SPS1h")]

  /** No two rows of the table share a reported name. */
  lemma TableDistinct()
    ensures |PoolTable| == 21
    ensures forall i, j :: 0 <= i < j < |PoolTable| ==> PoolTable[i].1 != PoolTable[j].1
  {
  }

  /** The reported object after applying `rows` of the table in order. */
  function TranslateRows(rows: seq<(string, string)>, accum: map<string, Json>): map<string, Json>
  {
    if rows == [] then map[]
    else
      var out := TranslateRows(rows[..|rows| - 1], accum);
      var (src, dst) := rows[|rows| - 1];
      if src in accum then out[dst := accum[src]] else out
  }

  /** With distinct reported names, each row whose log key the accumulator has reports
      that key's value under its new name, and nothing else is reported. */
  lemma {:induction false} TranslateRowsSpec(rows: seq<(string, string)>, accum: map<string, Json>)
    requires forall i, j :: 0 <= i < j < |rows| ==> rows[i].1 != rows[j].1
    ensures forall i :: 0 <= i < |rows| ==>
      (rows[i].1 in TranslateRows(rows, accum) <==> rows[i].0 in accum)
    ensures forall i :: 0 <= i < |rows| && rows[i].0 in accum ==>
      TranslateRows(rows, accum)[rows[i].1] == accum[rows[i].0]
    ensures forall k :: k in TranslateRows(rows, accum) ==> exists i :: 0 <= i < |rows| && rows[i].1 == k
  {
    if rows != [] {
      var n := |rows| - 1;
      var init := rows[..n];
      TranslateRowsSpec(init, accum);
      assert forall i :: 0 <= i < n ==> init[i] == rows[i];
      forall k | k in TranslateRows(rows, accum) ensures exists i :: 0 <= i < |rows| && rows[i].1 == k {
        if k != rows[n].1 {
          assert k in TranslateRows(init, accum);
          var i :| 0 <= i < n && init[i].1 == k;
          assert rows[i].1 == k;
        }
      }
    }
  }

  /** The reported pool object: the table applied to the accumulator. */
  lemma TranslatedKeys(accum: map<string, Json>)
    ensures forall i :: 0 <= i < |PoolTable| ==>
      (PoolTable[i].1 in TranslateRows(PoolTable, accum) <==> PoolTable[i].0 in accum)
    ensures forall i :: 0 <= i < |PoolTable| && PoolTable[i].0 in accum ==>
      TranslateRows(PoolTable, accum)[PoolTable[i].1] == accum[PoolTable[i].0]
    ensures forall k :: k in TranslateRows(PoolTable, accum) ==>
      exists i :: 0 <= i < |PoolTable| && PoolTable[i].1 == k
    ensures |TranslateRows(PoolTable, accum).Keys| <= 21
  {
    TableDistinct();
    TranslateRowsSpec(PoolTable, accum);
    TranslateRowsSize(PoolTable, accum);
  }

  lemma {:induction false} TranslateRowsSize(rows: seq<(string, string)>, accum: map<string, Json>)
    ensures |TranslateRows(rows, accum).Keys| <= |rows|
  {
    if rows != [] {
      TranslateRowsSize(rows[..|rows| - 1], accum);
    }
  }

  /** The translation loop over the table's rows. */
  method TranslatePool(accum: map<string, Json>) returns (out: map<string, Json>)
    ensures out == TranslateRows(PoolTable, accum)
  {
    out := map[];
    for n := 0 to |PoolTable|
      invariant out == TranslateRows(PoolTable[..n], accum)
    {
      assert PoolTable[..n + 1][..n] == PoolTable[..n] && PoolTable[..n + 1][n] == PoolTable[n];
      var (src, dst) := PoolTable[n];
      if src in accum {
        out := out[dst := accum[src]];
      }
    }
    assert PoolTable[..|PoolTable|] == PoolTable;
  }
}
