/** The first pass over the METRIC events: the address filter for share events, the
    latest-wins workinfo snapshot, and the largest timestamp seen. */
module Shares {
  import opened JsonValue
  import opened Text

  /** A share event that passed the address filter, with its fields coerced. */
  datatype ShareRecord = ShareRecord(
    ts: int, workinfoid: Json, clientid: Json, enonce1: Json, nonce2: Json, nonce: Json,
    ntime: Json, diff: Json, sdiff: real, hash: Json, result: bool, errn: Json,
    workername: string, agent: Json, address: Json)

  /** The block-template snapshot kept from `workinfo` events. */
  datatype WorkInfo = WorkInfo(
    ts: int, workinfoid: Json, pool: Json, poolinstance: Json, prevhash: Json,
    version: Json, ntime: Json, bits: Json, reward: Json)

  predicate IsShare(ev: Json)
  {
    Get(ev, "type") == JStr("share")
  }

  predicate IsWorkInfo(ev: Json)
  {
    Get(ev, "type") == JStr("workinfo")
  }

  /** A text field of the event without surrounding whitespace; a missing field reads as
      empty (see README for fields that are not text). */
  function TrimmedField(ev: Json, key: string): string
  {
    match Get(ev, key)
    case JStr(s) => Strip(s)
    case _ => ""
  }

  /** The address filter: everything when no address is tracked, otherwise a share whose
      user is the address or whose worker is named `<address>.<suffix>`. */
  predicate Accepts(addr: string, ev: Json)
  {
    addr == "" || TrimmedField(ev, "username") == addr
    || StartsWith(TrimmedField(ev, "workername"), addr + ".")
  }

  /** The event's timestamp as an integer, 0 when it is missing. */
  function Timestamp(ev: Json): int
  {
    CoerceInt(Get(ev, "ts"))
  }

  function ToShare(ev: Json): ShareRecord
  {
    ShareRecord(
      Timestamp(ev), Get(ev, "workinfoid"), Get(ev, "clientid"), Get(ev, "enonce1"),
      Get(ev, "nonce2"), Get(ev, "nonce"), Get(ev, "ntime"), Get(ev, "diff"),
      CoerceReal(Get(ev, "sdiff")), Get(ev, "hash"), Truthy(Get(ev, "result")),
      Get(ev, "errn"), TrimmedField(ev, "workername"), Get(ev, "agent"), Get(ev, "address"))
  }

  function ToWorkInfo(ev: Json): WorkInfo
  {
    WorkInfo(
      Timestamp(ev), Get(ev, "workinfoid"), Get(ev, "pool"), Get(ev, "poolinstance"),
      Get(ev, "prevhash"), Get(ev, "version"), Get(ev, "ntime"), Get(ev, "bits"),
      Get(ev, "reward"))
  }

  /** The share an event contributes, if any. */
  function ShareOf(addr: string, ev: Json): seq<ShareRecord>
  {
    if IsShare(ev) && Accepts(addr, ev) then [ToShare(ev)] else []
  }

  /** The accepted shares of `events`, in event order. */
  function KeptShares(events: seq<Json>, addr: string): seq<ShareRecord>
  {
    if events == [] then []
    else KeptShares(events[..|events| - 1], addr) + ShareOf(addr, events[|events| - 1])
  }

  /** Whether the snapshot held so far gives way to `ev`: it must be a workinfo event
      no older than the held one (ties go to the later event). */
  predicate Supersedes(held: Option<WorkInfo>, ev: Json)
  {
    IsWorkInfo(ev) && (held.None? || ToWorkInfo(ev).ts >= held.value.ts)
  }

  function Offer(held: Option<WorkInfo>, ev: Json): Option<WorkInfo>
  {
    if Supersedes(held, ev) then Some(ToWorkInfo(ev)) else held
  }

  /** The workinfo snapshot held after `events`. */
  function LatestWorkInfo(events: seq<Json>): Option<WorkInfo>
  {
    if events == [] then None
    else Offer(LatestWorkInfo(events[..|events| - 1]), events[|events| - 1])
  }

  function Max(a: int, b: int): int
  {
    if a >= b then a else b
  }

  /** `last_ts_seen` after `events`: raised by every accepted share and every accepted
      workinfo snapshot. */
  function LastTsSeen(events: seq<Json>, addr: string): int
  {
    if events == [] then 0
    else
      var init := events[..|events| - 1];
      var ev := events[|events| - 1];
      var prev := LastTsSeen(init, addr);
      if IsShare(ev) then (if Accepts(addr, ev) then Max(prev, Timestamp(ev)) else prev)
      else if Supersedes(LatestWorkInfo(init), ev) then Max(prev, Timestamp(ev))
      else prev
  }

  /** The loop over the events: shares appended, snapshot replaced, `last_ts_seen` raised. */
  method CollectEvents(events: seq<Json>, addr: string)
    returns (shares: seq<ShareRecord>, lastWorkinfo: Option<WorkInfo>, lastTs: int)
    ensures shares == KeptShares(events, addr)
    ensures lastWorkinfo == LatestWorkInfo(events)
    ensures lastTs == LastTsSeen(events, addr)
  {
    shares, lastWorkinfo, lastTs := [], None, 0;
    for i := 0 to |events|
      invariant shares == KeptShares(events[..i], addr)
      invariant lastWorkinfo == LatestWorkInfo(events[..i])
      invariant lastTs == LastTsSeen(events[..i], addr)
    {
      var ev := events[i];
      assert events[..i + 1][..i] == events[..i] && events[..i + 1][i] == ev;
      assert KeptShares(events[..i + 1], addr) == shares + ShareOf(addr, ev);
      assert LatestWorkInfo(events[..i + 1]) == Offer(lastWorkinfo, ev);
      if Get(ev, "type") == JStr("share") {
        var uname := TrimmedField(ev, "username");
        var wname := TrimmedField(ev, "workername");
        var take := if addr != "" then uname == addr || StartsWith(wname, addr + ".") else true;
        if take {
          var s := ToShare(ev);
          shares := shares + [s];
          lastTs := Max(lastTs, s.ts);
        }
      } else if Get(ev, "type") == JStr("workinfo") {
        var wi := ToWorkInfo(ev);
        if lastWorkinfo.Some? ==> wi.ts >= lastWorkinfo.value.ts {
          lastWorkinfo := Some(wi);
          lastTs := Max(lastTs, wi.ts);
        }
      }
    }
    assert events[..|events|] == events;
  }

  /** `ev` is a share event that passes the filter and becomes `s`. */
  predicate Yields(addr: string, ev: Json, s: ShareRecord)
  {
    IsShare(ev) && Accepts(addr, ev) && ToShare(ev) == s
  }

  /** The last event adds its share, if it yields one, after the earlier events' shares. */
  lemma KeptSharesLast(events: seq<Json>, addr: string, s: ShareRecord)
    requires |events| > 0
    ensures s in KeptShares(events, addr) <==>
      s in KeptShares(events[..|events| - 1], addr) || Yields(addr, events[|events| - 1], s)
  {
  }

  /** Every share event that passes the filter has its share kept. */
  lemma {:induction false} KeptShareOfEvent(events: seq<Json>, addr: string, i: nat, s: ShareRecord)
    requires i < |events| && Yields(addr, events[i], s)
    ensures s in KeptShares(events, addr)
  {
    var n := |events| - 1;
    KeptSharesLast(events, addr, s);
    if i < n {
      assert events[..n][i] == events[i];
      KeptShareOfEvent(events[..n], addr, i, s);
    }
  }

  /** Every kept share comes from a share event that passes the filter. */
  lemma {:induction false} KeptShareSource(events: seq<Json>, addr: string, s: ShareRecord)
    requires s in KeptShares(events, addr)
    ensures exists i :: 0 <= i < |events| && Yields(addr, events[i], s)
  {
    var n := |events| - 1;
    KeptSharesLast(events, addr, s);
    if s in KeptShares(events[..n], addr) {
      KeptShareSource(events[..n], addr, s);
      var i :| 0 <= i < n && Yields(addr, events[..n][i], s);
      assert events[..n][i] == events[i];
    } else {
      assert Yields(addr, events[n], s);
    }
  }

  /** Without a tracked address every share event is kept. */
  lemma {:induction false} UnfilteredKeepsAll(events: seq<Json>)
    ensures |KeptShares(events, "")| == |ShareEvents(events)|
  {
    if events != [] {
      UnfilteredKeepsAll(events[..|events| - 1]);
    }
  }

  /** The share events of `events`, in order. */
  function ShareEvents(events: seq<Json>): seq<Json>
  {
    if events == [] then []
    else ShareEvents(events[..|events| - 1]) + (if IsShare(events[|events| - 1]) then [events[|events| - 1]] else [])
  }

  /** `i` is a workinfo event with the largest timestamp, and every later workinfo event
      is strictly older. */
  predicate LatestAt(events: seq<Json>, i: int)
  {
    && 0 <= i < |events| && IsWorkInfo(events[i])
    && (forall j :: 0 <= j < |events| && IsWorkInfo(events[j]) ==> Timestamp(events[j]) <= Timestamp(events[i]))
    && (forall j :: i < j < |events| && IsWorkInfo(events[j]) ==> Timestamp(events[j]) < Timestamp(events[i]))
  }

  /** The position of the event the held snapshot came from, or -1. */
  ghost function LatestIndex(events: seq<Json>): int
  {
    if events == [] then -1
    else if Supersedes(LatestWorkInfo(events[..|events| - 1]), events[|events| - 1]) then |events| - 1
    else LatestIndex(events[..|events| - 1])
  }

  lemma {:induction false} LatestIndexSpec(events: seq<Json>)
    ensures -1 <= LatestIndex(events) < |events|
    ensures LatestIndex(events) < 0 ==> LatestWorkInfo(events).None?
    ensures LatestIndex(events) >= 0 ==> LatestWorkInfo(events) == Some(ToWorkInfo(events[LatestIndex(events)]))
    ensures LatestIndex(events) < 0 ==> forall i :: 0 <= i < |events| ==> !IsWorkInfo(events[i])
    ensures LatestIndex(events) >= 0 ==> LatestAt(events, LatestIndex(events))
  {
    if events != [] {
      var n := |events| - 1;
      var init := events[..n];
      LatestIndexSpec(init);
      var k := LatestIndex(init);
      forall i | 0 <= i < n ensures events[i] == init[i] {
      }
      if !Supersedes(LatestWorkInfo(init), events[n]) && k >= 0 {
        assert events[k] == init[k];
        assert Timestamp(init[k]) == LatestWorkInfo(init).value.ts;
      } else if Supersedes(LatestWorkInfo(init), events[n]) && k >= 0 {
        assert Timestamp(init[k]) == LatestWorkInfo(init).value.ts;
      }
    }
  }

  /** The held snapshot is absent exactly when there was no workinfo event; otherwise it is
      the last-seen workinfo event with the largest timestamp. */
  lemma LatestWorkInfoSpec(events: seq<Json>)
    ensures LatestWorkInfo(events).None? <==> forall i :: 0 <= i < |events| ==> !IsWorkInfo(events[i])
    ensures LatestWorkInfo(events).Some? ==>
      exists i :: LatestAt(events, i) && LatestWorkInfo(events).value == ToWorkInfo(events[i])
  {
    LatestIndexSpec(events);
    if LatestIndex(events) >= 0 {
      assert IsWorkInfo(events[LatestIndex(events)]);
    }
  }

  /** `last_ts_seen` is never negative, bounds every kept share and the held snapshot, and
      is 0 or attained by one of them; since accepted snapshots never go back in time, the
      held one carries the largest accepted workinfo timestamp. */
  lemma {:induction false} LastTsSeenSpec(events: seq<Json>, addr: string)
    ensures LastTsSeen(events, addr) >= 0
    ensures forall s :: s in KeptShares(events, addr) ==> s.ts <= LastTsSeen(events, addr)
    ensures LatestWorkInfo(events).Some? ==> LatestWorkInfo(events).value.ts <= LastTsSeen(events, addr)
    ensures LastTsSeen(events, addr) == 0
            || (exists s :: s in KeptShares(events, addr) && s.ts == LastTsSeen(events, addr))
            || (LatestWorkInfo(events).Some? && LatestWorkInfo(events).value.ts == LastTsSeen(events, addr))
  {
    if events != [] {
      var init := events[..|events| - 1];
      var ev := events[|events| - 1];
      LastTsSeenSpec(init, addr);
      var prev := LastTsSeen(init, addr);
      assert KeptShares(events, addr) == KeptShares(init, addr) + ShareOf(addr, ev);
      if IsShare(ev) && Accepts(addr, ev) {
        assert ToShare(ev) in KeptShares(events, addr);
        assert LatestWorkInfo(events) == LatestWorkInfo(init);
      } else if !IsShare(ev) && Supersedes(LatestWorkInfo(init), ev) {
        assert LatestWorkInfo(events).value.ts == Timestamp(ev);
      } else {
        assert KeptShares(events, addr) == KeptShares(init, addr);
        assert LatestWorkInfo(events) == LatestWorkInfo(init);
      }
    }
  }
}
