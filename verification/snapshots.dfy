/** The reverse scan for the latest `User <addr>:{...}` summary and the `Worker <name>:{...}`
    summaries logged after it. The two regular expressions are modelled by what they
    accept: a search over start positions, each start matched as the engine would. */
module Snapshots {
  import opened JsonValue
  import opened Text
  import opened Tokenizer
  import Reconstructor

  /** The group `(\{.*\})\s*$` matches the prefix `g` of `rest`: it runs from a `{` to a
      `}`, holds no newline (`.` stops at one) and is followed by whitespace only. */
  predicate GroupMatches(rest: string, g: string)
  {
    2 <= |g| <= |rest| && g == rest[..|g|] && g[0] == '{' && g[|g| - 1] == '}'
    && (forall i :: 0 <= i < |g| ==> g[i] != '\n')
    && AllSpace(rest[|g|..])
  }

  /** The captured group: `rest` without its trailing whitespace, when that is a braced
      text on one line. */
  function JsonGroup(rest: string): Option<string>
  {
    var g := TrimRight(rest);
    if 2 <= |g| && g[0] == '{' && g[|g| - 1] == '}' && (forall i :: 0 <= i < |g| ==> g[i] != '\n')
    then Some(g) else None
  }

  /** A group can end at one place only, so the captured group is the only one and a
      missing group means no prefix matches. */
  lemma JsonGroupSpec(rest: string, n: nat)
    requires n <= |rest|
    ensures JsonGroup(rest).Some? ==> GroupMatches(rest, JsonGroup(rest).value)
    ensures GroupMatches(rest, rest[..n]) <==> JsonGroup(rest) == Some(rest[..n])
  {
    TrimRightSpec(rest);
    if GroupMatches(rest, rest[..n]) {
      var r := TrimRight(rest);
      assert r == rest[..n];
    }
  }

  /** `Worker\s+[^:]+:(\{.*\})\s*$` tried at position `p`: `Worker`, a whitespace, at least
      one more character before the first colon, and the group after that colon. */
  function WorkerMatchAt(content: string, p: nat): Option<string>
    requires p <= |content|
  {
    if StartsWith(content[p..], "Worker") && p + 6 < |content| && IsSpace(content[p + 6]) then
      match FindFrom(content, ":", p + 6)
      case Some(c) => if c >= p + 8 then JsonGroup(content[c + 1..]) else None
      case None => None
    else None
  }

  /** `User\s+<addr>:(\{.*\})\s*$` tried at position `p`. The address is the stripped one,
      so it does not begin with whitespace and `\s+` takes the whole whitespace run. */
  function UserMatchAt(content: string, addr: string, p: nat): Option<string>
    requires p <= |content|
  {
    if StartsWith(content[p..], "User") && p + 4 < |content| && IsSpace(content[p + 4]) then
      var t := TrimLeft(content[p + 4..]);
      if StartsWith(t, addr + ":") then JsonGroup(t[|addr| + 1..]) else None
    else None
  }

  /** The first present value at or after position `p`. */
  function FirstSome<T>(ms: seq<Option<T>>, p: nat): Option<T>
    requires p <= |ms|
    decreases |ms| - p
  {
    if p == |ms| then None
    else if ms[p].Some? then ms[p]
    else FirstSome(ms, p + 1)
  }

  /** `FirstSome` is the value at the first position holding one, and `None` exactly when no
      position from `p` on holds one. */
  lemma {:induction false} FirstSomeSpec<T>(ms: seq<Option<T>>, p: nat)
    requires p <= |ms|
    ensures FirstSome(ms, p).None? <==> forall q :: p <= q < |ms| ==> ms[q].None?
    ensures FirstSome(ms, p).Some? ==>
      exists q :: p <= q < |ms| && ms[q] == FirstSome(ms, p) && forall q' :: p <= q' < q ==> ms[q'].None?
    decreases |ms| - p
  {
    if p < |ms| && ms[p].None? {
      FirstSomeSpec(ms, p + 1);
      if FirstSome(ms, p).Some? {
        var q :| p + 1 <= q < |ms| && ms[q] == FirstSome(ms, p) && forall q' :: p + 1 <= q' < q ==> ms[q'].None?;
        assert forall q' :: p <= q' < q ==> ms[q'].None?;
      }
    }
  }

  /** `re.search` with the worker pattern: the group at the first start position that
      matches (`FirstSomeSpec`). */
  function WorkerSearch(content: string): Option<string>
  {
    FirstSome(seq(|content| + 1, q requires 0 <= q <= |content| => WorkerMatchAt(content, q)), 0)
  }

  /** `re.search` with the user pattern. */
  function UserSearch(content: string, addr: string): Option<string>
  {
    FirstSome(seq(|content| + 1, q requires 0 <= q <= |content| => UserMatchAt(content, addr, q)), 0)
  }

  /** The worker summary a line contributes: its group, when the line is a `Worker ` line
      (after the timestamp prefix), the pattern matches and the group decodes. */
  function WorkerAt(line: string, parse: Decoder): Option<Json>
  {
    var content := StripTsPrefix(line);
    if StartsWith(content, "Worker ") then
      match WorkerSearch(content)
      case Some(g) => parse(g)
      case None => None
    else None
  }

  /** The user summary a line stops the scan with: a line that is not a `Worker ` line,
      starts with `User `, mentions the (non-empty) address, matches and decodes. */
  function UserAt(line: string, addr: string, parse: Decoder): Option<Json>
  {
    var content := StripTsPrefix(line);
    if !StartsWith(content, "Worker ") && addr != "" && StartsWith(content, "User ")
       && Contains(content, addr) then
      match UserSearch(content, addr)
      case Some(g) => parse(g)
      case None => None
    else None
  }

  /** What one line offers the scan: a worker summary, a user summary, or neither. */
  datatype Snap = Snap(worker: Option<Json>, user: Option<Json>)

  function Classify(lines: seq<string>, addr: string, parse: Decoder): (r: seq<Snap>)
    ensures |r| == |lines|
  {
    seq(|lines|, k requires 0 <= k < |lines| => Snap(WorkerAt(lines[k], parse), UserAt(lines[k], addr, parse)))
  }

  /** Every worker summary, last line first. */
  function WorkersRev(snaps: seq<Snap>): seq<Json>
  {
    if snaps == [] then []
    else Reconstructor.AsSeq(snaps[|snaps| - 1].worker) + WorkersRev(snaps[..|snaps| - 1])
  }

  /** The outcome of the scan from the last line upwards: the worker summaries met before
      the scan stops, and the user summary it stops at. */
  function Scan(snaps: seq<Snap>): (seq<Json>, Option<Json>)
  {
    if snaps == [] then ([], None)
    else
      var last := snaps[|snaps| - 1];
      if last.user.Some? then ([], last.user)
      else
        var rest := Scan(snaps[..|snaps| - 1]);
        (Reconstructor.AsSeq(last.worker) + rest.0, rest.1)
  }

  predicate NoUser(snaps: seq<Snap>)
  {
    forall k :: 0 <= k < |snaps| ==> snaps[k].user.None?
  }

  lemma NoUserPrefix(snaps: seq<Snap>, m: nat)
    requires NoUser(snaps) && m <= |snaps|
    ensures NoUser(snaps[..m])
  {
    forall k | 0 <= k < m ensures snaps[..m][k].user.None? {
      assert snaps[..m][k] == snaps[k];
    }
  }

  /** Without any user summary the scan reads the whole file and returns every worker
      summary, newest first. */
  lemma {:induction false} ScanWithoutUser(snaps: seq<Snap>)
    requires NoUser(snaps)
    ensures Scan(snaps) == (WorkersRev(snaps), None)
  {
    if snaps != [] {
      NoUserPrefix(snaps, |snaps| - 1);
      ScanWithoutUser(snaps[..|snaps| - 1]);
    }
  }

  /** With a user summary the scan stops at the LAST one in the file and returns exactly
      the worker summaries below it, newest first. */
  lemma {:induction false} ScanStopsAtLastUser(snaps: seq<Snap>, k: nat)
    requires k < |snaps| && snaps[k].user.Some? && NoUser(snaps[k + 1..])
    ensures Scan(snaps) == (WorkersRev(snaps[k + 1..]), snaps[k].user)
    decreases |snaps|
  {
    var n := |snaps| - 1;
    if k < n {
      var init := snaps[..n];
      var tail := snaps[k + 1..];
      assert tail[|tail| - 1] == snaps[n];
      assert init[k] == snaps[k];
      assert tail[..|tail| - 1] == init[k + 1..];
      NoUserPrefix(tail, |tail| - 1);
      ScanStopsAtLastUser(init, k);
    } else {
      assert snaps[k + 1..] == [];
    }
  }

  /** With an empty address no line is a user summary, so the whole file is scanned. */
  lemma EmptyAddressScansAll(lines: seq<string>, parse: Decoder)
    ensures Scan(Classify(lines, "", parse)) == (WorkersRev(Classify(lines, "", parse)), None)
  {
    ScanWithoutUser(Classify(lines, "", parse));
  }

  /** One step of the scan, read from the end of `snaps[..i]`. */
  lemma ScanStep(snaps: seq<Snap>, i: nat)
    requires 0 < i <= |snaps|
    ensures Scan(snaps[..i]) ==
      if snaps[i - 1].user.Some? then ([], snaps[i - 1].user)
      else (Reconstructor.AsSeq(snaps[i - 1].worker) + Scan(snaps[..i - 1]).0, Scan(snaps[..i - 1]).1)
  {
    assert snaps[..i][..i - 1] == snaps[..i - 1] && snaps[..i][i - 1] == snaps[i - 1];
  }

  /** The body of the reverse loop for one line: a `Worker ` line yields at most a worker
      summary (and the loop continues), another line at most a user summary. */
  method ReadSnapshotLine(line: string, addr: string, parse: Decoder)
    returns (worker: Option<Json>, user: Option<Json>)
    ensures worker == WorkerAt(line, parse) && user == UserAt(line, addr, parse)
    ensures worker.None? || user.None?
  {
    var content := StripTsPrefix(line);
    worker, user := None, None;
    if StartsWith(content, "Worker ") {
      var m := WorkerSearch(content);
      if m.Some? {
        worker := parse(m.value);
      }
      return;
    }
    if addr != "" && StartsWith(content, "User ") && Contains(content, addr) {
      var m := UserSearch(content, addr);
      if m.Some? {
        user := parse(m.value);
      }
    }
  }

  /** The reverse loop over the lines: collect worker summaries until the first user
      summary, then `break`. */
  method ScanSnapshots(lines: seq<string>, addr: string, parse: Decoder)
    returns (workers: seq<Json>, user: Option<Json>)
    ensures (workers, user) == Scan(Classify(lines, addr, parse))
  {
    ghost var snaps := Classify(lines, addr, parse);
    workers, user := [], None;
    var i := |lines|;
    assert snaps[..i] == snaps;
    assert [] + Scan(snaps).0 == Scan(snaps).0;
    while i > 0
      invariant 0 <= i <= |lines|
      invariant Scan(snaps) == (workers + Scan(snaps[..i]).0, Scan(snaps[..i]).1)
    {
      ghost var rest := Scan(snaps[..i - 1]);
      ScanStep(snaps, i);
      var w, u := ReadSnapshotLine(lines[i - 1], addr, parse);
      assert snaps[i - 1] == Snap(w, u);
      if u.Some? {
        user := u;
        assert workers + [] == workers;
        break;
      }
      if w.Some? {
        assert Scan(snaps[..i]) == ([w.value] + rest.0, rest.1);
        Reconstructor.AppendAssoc(workers, [w.value], rest.0);
        workers := workers + [w.value];
      } else {
        assert [] + rest.0 == rest.0;
        assert Scan(snaps[..i]) == rest;
      }
      i := i - 1;
    }
    if i == 0 && user.None? {
      assert workers + [] == workers;
    }
  }

  /** The user fields reported: `None` for `last_share_time` stands for `"N/A"`. */
  datatype UserSummary = UserSummary(
    lastShareTs: Option<int>,
    acceptedShares: Json,
    hashrate1m: Json,
    hashrate5m: Json,
    hashrate1hr: Json,
    hashrate1d: Json,
    hashrate7d: Json,
    workers: Json,
    bestshare: Json,
    difficulty: Json)

  /** The defaults `get_user_stats` starts from. */
  const DefaultUser: UserSummary := UserSummary(
    None, JNum(0.0), JStr("0"), JStr("0"), JStr("0"), JStr("0"), JStr("0"),
    JNum(0.0), JNum(0.0), JNum(0.0))

  /** The user fields copied from a truthy user summary, each with its default. */
  function UserFields(user: Option<Json>): (r: UserSummary)
    ensures user.None? || !Truthy(user.value) ==> r == DefaultUser
    ensures user.Some? && Truthy(user.value) ==> r.lastShareTs.Some?
    ensures user.Some? && Truthy(user.value) && user.value.JObj? ==>
      (forall key :: key in user.value.fields && key in HashrateKeys ==>
        HashrateOf(r, key) == user.value.fields[key])
    ensures user.Some? && Truthy(user.value) && user.value.JObj? ==>
      var u := user.value.fields;
      && r.lastShareTs == Some(if "lastshare" in u then CoerceInt(u["lastshare"]) else 0)
      && (forall key :: key !in u && key in HashrateKeys ==> HashrateOf(r, key) == JStr("0"))
      && r.acceptedShares == (if "shares" in u then u["shares"] else JNum(0.0))
      && r.workers == (if "workers" in u then u["workers"] else JNum(0.0))
      && r.bestshare == (if "bestshare" in u then u["bestshare"] else JNum(0.0))
      && r.difficulty == (if "difficulty" in u then u["difficulty"] else JNum(0.0))
  {
    if user.Some? && Truthy(user.value) then
      var u := user.value;
      UserSummary(
        Some(CoerceInt(Get(u, "lastshare"))),
        GetOr(u, "shares", JNum(0.0)),
        GetOr(u, "hashrate1m", JStr("0")),
        GetOr(u, "hashrate5m", JStr("0")),
        GetOr(u, "hashrate1hr", JStr("0")),
        GetOr(u, "hashrate1d", JStr("0")),
        GetOr(u, "hashrate7d", JStr("0")),
        GetOr(u, "workers", JNum(0.0)),
        GetOr(u, "bestshare", JNum(0.0)),
        GetOr(u, "difficulty", JNum(0.0)))
    else DefaultUser
  }

  const HashrateKeys: set<string> := {"hashrate1m", "hashrate5m", "hashrate1hr", "hashrate1d", "hashrate7d"}

  function HashrateOf(r: UserSummary, key: string): Json
  {
    if key == "hashrate1m" then r.hashrate1m
    else if key == "hashrate5m" then r.hashrate5m
    else if key == "hashrate1hr" then r.hashrate1hr
    else if key == "hashrate1d" then r.hashrate1d
    else r.hashrate7d
  }

  /** A user summary that decodes to `{}` still ends the scan, yet leaves every user field
      at its default. */
  lemma EmptyUserKeepsDefaults(snaps: seq<Snap>, k: nat)
    requires k < |snaps| && snaps[k].user == Some(JObj(map[]))
    requires NoUser(snaps[k + 1..])
    ensures Scan(snaps).1 == Some(JObj(map[]))
    ensures UserFields(Scan(snaps).1) == DefaultUser
  {
    ScanStopsAtLastUser(snaps, k);
  }
}
