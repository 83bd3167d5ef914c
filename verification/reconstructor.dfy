/** METRIC event reconstructor: rebuilds the JSON objects that follow `METRIC ` markers,
    across physical lines, abandoning an unfinished object when a new record starts. */
module Reconstructor {
  import opened JsonValue
  import opened Text
  import opened Tokenizer

  const MetricMarker: string := "METRIC "

  /** The reconstructor's cross-line state: no buffer, or a buffer and its brace balance. */
  datatype Recon = Idle | Pending(buf: string, need: int)

  /** The state invariant kept between lines: idle, or an object opened by `{` whose
      running counter is its (positive) brace balance. */
  predicate Consistent(st: Recon)
  {
    st.Idle? || (st.need > 0 && st.need == BraceDelta(st.buf) && |st.buf| > 0 && st.buf[0] == '{')
  }

  /** `k` is the first `{` of `text`. */
  predicate FirstBrace(text: string, k: int)
  {
    0 <= k < |text| && text[k] == '{' && forall j :: 0 <= j < k ==> text[j] != '{'
  }

  /** `text` from its first `{` on, if it has one. */
  function FromFirstBrace(text: string): (r: Option<string>)
    ensures r.Some? ==> |r.value| > 0 && r.value[0] == '{'
  {
    if text == [] then None
    else if text[0] == '{' then Some(text)
    else FromFirstBrace(text[1..])
  }

  /** `FromFirstBrace` keeps exactly the text from the first `{`, and finds nothing
      only when there is no `{`. */
  lemma {:induction false} FromFirstBraceSpec(text: string)
    ensures FromFirstBrace(text).Some? <==> exists k :: FirstBrace(text, k)
    ensures FromFirstBrace(text).Some? ==>
      exists k :: FirstBrace(text, k) && FromFirstBrace(text).value == text[k..]
  {
    if text != [] && text[0] != '{' {
      FromFirstBraceSpec(text[1..]);
      if FromFirstBrace(text[1..]).Some? {
        var k :| FirstBrace(text[1..], k) && FromFirstBrace(text[1..]).value == text[1..][k..];
        assert FirstBrace(text, k + 1) by {
          forall j | 0 <= j < k + 1 ensures text[j] != '{' {
            if j > 0 { assert text[j] == text[1..][j - 1]; }
          }
        }
        assert text[1..][k..] == text[k + 1..];
      } else {
        forall k ensures !FirstBrace(text, k) {
          if FirstBrace(text, k) {
            assert k > 0 && FirstBrace(text[1..], k - 1) by {
              forall j | 0 <= j < k - 1 ensures text[1..][j] != '{' {
                assert text[1..][j] == text[j + 1];
              }
            }
          }
        }
      }
    } else if text != [] {
      assert FirstBrace(text, 0);
    }
  }

  /** Leading whitespace never holds a `{`, so left-trimming does not move it. */
  lemma {:induction false} FromFirstBraceTrimLeft(text: string)
    ensures FromFirstBrace(TrimLeft(text)) == FromFirstBrace(text)
  {
    if text != [] && IsSpace(text[0]) {
      FromFirstBraceTrimLeft(text[1..]);
    }
  }

  /** Scanning for the first `{` from `from` agrees with `find("{")` from `from`. */
  lemma {:induction false} FromFirstBraceFind(s: string, from: nat)
    requires from <= |s|
    ensures FromFirstBrace(s[from..])
            == match FindFrom(s, "{", from) case Some(i) => Some(s[i..]) case None => None
    decreases |s| - from
  {
    if from < |s| {
      assert s[from..][0] == s[from] && s[from..from + 1] == [s[from]];
      if s[from] != '{' {
        assert s[from..][1..] == s[from + 1..];
        FromFirstBraceFind(s, from + 1);
      }
    }
  }

  /** Where a new object starts on a line: after the first `METRIC `, from its first `{`;
      `None` when the line has no marker or no brace after it. */
  function StartFragment(content: string): (r: Option<string>)
    ensures r.Some? ==> |r.value| > 0 && r.value[0] == '{'
  {
    if Contains(content, MetricMarker) then FromFirstBrace(After(content, MetricMarker)) else None
  }

  /** The reconstructor's own steps (left-trim the text after the marker, keep it when it
      starts with `{`, otherwise cut it at its first `{` or give up) compute `StartFragment`. */
  lemma StartFragmentSteps(content: string)
    requires Contains(content, MetricMarker)
    ensures var frag := TrimLeft(After(content, MetricMarker));
      StartFragment(content)
      == if StartsWith(frag, "{") then Some(frag)
         else match Find(frag, "{") case Some(i) => Some(frag[i..]) case None => None
  {
    var frag := TrimLeft(After(content, MetricMarker));
    FromFirstBraceTrimLeft(After(content, MetricMarker));
    FromFirstBraceFind(frag, 0);
    assert frag[0..] == frag;
  }

  /** A log line as the reconstructor sees it: its content, whether that content starts
      a new record, and where an object would start on it. */
  datatype Line = Line(content: string, startsRecord: bool, fragment: Option<string>)

  /** How the reconstructor reads a line's content. */
  function LineOf(content: string): Line
  {
    Line(content, StartsWith(content, MetricMarker), StartFragment(content))
  }

  function Tokenize(raw: string): Line
  {
    LineOf(Content(raw))
  }

  /** Every line of a log, tokenized. */
  function TokenizeAll(lines: seq<string>): seq<Line>
  {
    seq(|lines|, k requires 0 <= k < |lines| => Tokenize(lines[k]))
  }

  /** What the reconstructor relies on about a tokenized line. */
  predicate WellFormed(l: Line)
  {
    && (l.startsRecord ==> Contains(l.content, MetricMarker))
    && (l.fragment.Some? ==>
          Contains(l.content, MetricMarker) && |l.fragment.value| > 0 && l.fragment.value[0] == '{')
  }

  lemma TokenizeWellFormed(raw: string)
    ensures WellFormed(Tokenize(raw))
  {
    var content := Content(raw);
    if StartsWith(content, MetricMarker) {
      assert OccursAt(content, MetricMarker, 0);
    }
  }

  /** Two objects, or an object and a quoted key, written back to back with no comma. */
  const Gap: string := "}\"{"

  /** The same junction with the missing comma put in. */
  const GapFix: string := "},\"{"

  /** The best-effort repair tried once when a multi-line object fails to decode. */
  function Sanitize(buf: string): string
  {
    Replace(Replace(buf, Gap, GapFix), "}\n{", "},{")
  }

  /** The first step of the repair leaves no comma-less junction behind: every one is
      replaced, and no replacement forms a new one with its neighbours. */
  lemma {:induction false} RepairClosesGaps(s: string)
    ensures forall j :: !OccursAt(Replace(s, Gap, GapFix), Gap, j)
    decreases |s|
  {
    var out := Replace(s, Gap, GapFix);
    if |s| < |Gap| {
      assert out == s;
    } else if s[..|Gap|] == Gap {
      var rest := Replace(s[3..], Gap, GapFix);
      RepairClosesGaps(s[3..]);
      assert out == GapFix + rest;
      forall j | 0 <= j < 4 ensures !OccursAt(out, Gap, j) {
        if j + 3 <= |out| {
          assert out[j..j + 3][0] == GapFix[j] && out[j..j + 3][1] == out[j + 1];
        }
      }
      forall j | 4 <= j ensures OccursAt(out, Gap, j) == OccursAt(rest, Gap, j - 4) {
        if j + 3 <= |out| {
          assert out[j..j + 3] == rest[j - 4..j - 1];
        }
      }
    } else {
      var rest := Replace(s[1..], Gap, GapFix);
      RepairClosesGaps(s[1..]);
      assert out == [s[0]] + rest;
      assert s[..3] == [s[0], s[1], s[2]];
      assert !OccursAt(out, Gap, 0) by {
        ReplaceHead(s[1..], Gap, GapFix);
        if s[0] == '}' && s[1] == '"' {
          ReplaceKeepsHead(s[1..], Gap, GapFix);
          ReplaceHead(s[2..], Gap, GapFix);
          assert s[1..][1..] == s[2..];
          assert out[2] != '{';
        }
      }
      forall j | 1 <= j ensures OccursAt(out, Gap, j) == OccursAt(rest, Gap, j - 1) {
        if j + 3 <= |out| {
          assert out[j..j + 3] == rest[j - 1..j + 2];
        }
      }
    }
  }

  /** Decode a closed multi-line buffer: strictly, then once more after the repair. */
  function DecodeRepaired(buf: string, parse: Decoder): Option<Json>
  {
    match parse(buf)
    case Some(e) => Some(e)
    case None => parse(Sanitize(buf))
  }

  function AsSeq(e: Option<Json>): (s: seq<Json>)
    ensures |s| <= 1
  {
    if e.Some? then [e.value] else []
  }

  /** One line of input: the new state and the event it emits, if any. */
  function Feed(st: Recon, line: Line, parse: Decoder): (Recon, Option<Json>)
  {
    var live := if st.Pending? && line.startsRecord then Idle else st;
    match live
    case Pending(buf, need) =>
      var grown := buf + line.content;
      var need' := need + BraceDelta(line.content);
      if need' <= 0 then (Idle, DecodeRepaired(grown, parse)) else (Pending(grown, need'), None)
    case Idle =>
      match line.fragment
      case None => (Idle, None)
      case Some(frag) =>
        var need := BraceDelta(frag);
        if need <= 0 then (Idle, parse(frag)) else (Pending(frag, need), None)
  }

  /** The state after `lines` and the events emitted on the way, starting from `st`. */
  function RunFrom(st: Recon, lines: seq<Line>, parse: Decoder): (Recon, seq<Json>)
    decreases |lines|
  {
    if lines == [] then (st, [])
    else
      var step := Feed(st, lines[0], parse);
      var rest := RunFrom(step.0, lines[1..], parse);
      (rest.0, AsSeq(step.1) + rest.1)
  }

  /** The events of a whole log, in order. */
  function MetricEvents(raw: seq<string>, parse: Decoder): seq<Json>
  {
    RunFrom(Idle, TokenizeAll(raw), parse).1
  }

  /** The number of lines whose content mentions `METRIC `. */
  function MetricLineCount(lines: seq<Line>): nat
  {
    if lines == [] then 0
    else (if Contains(lines[0].content, MetricMarker) then 1 else 0) + MetricLineCount(lines[1..])
  }

  function Held(st: Recon): nat
  {
    if st.Pending? then 1 else 0
  }

  function StateOf(pending: Option<string>, need: int): Recon
  {
    if pending.None? then Idle else Pending(pending.value, need)
  }

  /** Where the object on a line starts, by the reconstructor's own steps: left-trim the
      text after the marker, keep it when it starts with `{`, otherwise cut it at its
      first `{` or give up. */
  method OpenFragment(content: string) returns (frag: Option<string>)
    ensures frag == StartFragment(content)
  {
    if !Contains(content, MetricMarker) {
      return None;
    }
    StartFragmentSteps(content);
    var text := TrimLeft(After(content, MetricMarker));
    if StartsWith(text, "{") {
      return Some(text);
    }
    var j := Find(text, "{");
    if j.Some? {
      frag := Some(text[j.value..]);
    } else {
      frag := None;
    }
  }

  /** The body of the reconstructor's loop: one line's content against `pending` and
      `need`, appending to `events` what it emits. */
  method FeedLine(pending: Option<string>, need: int, events: seq<Json>, content: string,
                  parse: Decoder)
    returns (pending': Option<string>, need': int, events': seq<Json>)
    requires pending.None? ==> need == 0
    ensures pending'.None? ==> need' == 0
    ensures StateOf(pending', need') == Feed(StateOf(pending, need), LineOf(content), parse).0
    ensures events' == events + AsSeq(Feed(StateOf(pending, need), LineOf(content), parse).1)
  {
    pending', need', events' := pending, need, events;
    if pending'.Some? && StartsWith(content, MetricMarker) {
      pending', need' := None, 0;
    }
    if pending'.Some? {
      pending' := Some(pending'.value + content);
      need' := need' + BraceDelta(content);
      if need' <= 0 {
        match parse(pending'.value) {
          case Some(e) => events' := events' + [e];
          case None =>
            var sanitized := Sanitize(pending'.value);
            match parse(sanitized) {
              case Some(e) => events' := events' + [e];
              case None =>
            }
        }
        pending', need' := None, 0;
      }
      return;
    }
    var frag := OpenFragment(content);
    if frag.Some? {
      pending' := frag;
      need' := BraceDelta(frag.value);
      if need' <= 0 {
        match parse(frag.value) {
          case Some(e) => events' := events' + [e];
          case None =>
        }
        pending', need' := None, 0;
      }
    }
  }

  /** Running from line `i` of a log is feeding that line's content, then running from
      line `i + 1`. */
  lemma RunStep(st: Recon, raw: seq<string>, i: nat, parse: Decoder)
    requires i < |raw|
    ensures var toks := TokenizeAll(raw);
      var step := Feed(st, LineOf(Content(raw[i])), parse);
      RunFrom(st, toks[i..], parse).1 == AsSeq(step.1) + RunFrom(step.0, toks[i + 1..], parse).1
  {
    var toks := TokenizeAll(raw);
    assert toks[i..][0] == toks[i] && toks[i..][1..] == toks[i + 1..];
  }

  lemma AppendAssoc<T>(a: seq<T>, b: seq<T>, c: seq<T>)
    ensures (a + b) + c == a + (b + c)
  {
  }

  /** The reconstructor as a loop over the lines, updating `pending` and `need`. */
  method IterMetricEvents(lines: seq<string>, parse: Decoder) returns (events: seq<Json>)
    ensures events == MetricEvents(lines, parse)
    ensures |events| <= MetricLineCount(TokenizeAll(lines))
  {
    events := [];
    var pending: Option<string> := None;
    var need := 0;
    assert TokenizeAll(lines)[0..] == TokenizeAll(lines);
    for i := 0 to |lines|
      invariant pending.None? ==> need == 0
      invariant events + RunFrom(StateOf(pending, need), TokenizeAll(lines)[i..], parse).1
                == MetricEvents(lines, parse)
    {
      var content := Strip(StripTsPrefix(lines[i]));
      ghost var step := Feed(StateOf(pending, need), LineOf(content), parse);
      ghost var rest := RunFrom(step.0, TokenizeAll(lines)[i + 1..], parse).1;
      RunStep(StateOf(pending, need), lines, i, parse);
      AppendAssoc(events, AsSeq(step.1), rest);
      pending, need, events := FeedLine(pending, need, events, content, parse);
    }
    MetricEventsBound(lines, parse);
  }

  /** Each event is owed to a distinct line mentioning `METRIC `. */
  lemma MetricEventsBound(raw: seq<string>, parse: Decoder)
    ensures |MetricEvents(raw, parse)| <= MetricLineCount(TokenizeAll(raw))
  {
    var toks := TokenizeAll(raw);
    forall k | 0 <= k < |toks| ensures WellFormed(toks[k]) {
      TokenizeWellFormed(raw[k]);
    }
    EventsBound(Idle, toks, parse);
  }

  lemma FeedConsistent(st: Recon, line: Line, parse: Decoder)
    requires Consistent(st) && WellFormed(line)
    ensures Consistent(Feed(st, line, parse).0)
  {
    if st.Pending? && !line.startsRecord {
      BraceDeltaConcat(st.buf, line.content);
    }
  }

  /** After every line the reconstructor is idle or holds an open object whose
      counter is its positive brace balance. */
  lemma {:induction false} RunConsistent(st: Recon, lines: seq<Line>, parse: Decoder)
    requires Consistent(st)
    requires forall k :: 0 <= k < |lines| ==> WellFormed(lines[k])
    ensures Consistent(RunFrom(st, lines, parse).0)
    decreases |lines|
  {
    if lines != [] {
      FeedConsistent(st, lines[0], parse);
      RunConsistent(Feed(st, lines[0], parse).0, lines[1..], parse);
    }
  }

  /** Whatever the log, after every line the state is idle or an open object whose
      counter is its positive brace balance. */
  lemma StateAfterEveryLine(raw: seq<string>, k: nat, parse: Decoder)
    requires k <= |raw|
    ensures Consistent(RunFrom(Idle, TokenizeAll(raw)[..k], parse).0)
  {
    var toks := TokenizeAll(raw)[..k];
    forall j | 0 <= j < |toks| ensures WellFormed(toks[j]) {
      TokenizeWellFormed(raw[j]);
    }
    RunConsistent(Idle, toks, parse);
  }

  /** An event is emitted only when a buffer closes: the buffer starts with `{`, its
      balance has reached zero or below, the state returns to idle, and the event is
      the decoding of that buffer (the repaired decoding only for a multi-line buffer). */
  lemma FeedEmitsOnlyOnClose(st: Recon, line: Line, parse: Decoder)
    requires Consistent(st) && WellFormed(line)
    requires Feed(st, line, parse).1.Some?
    ensures Feed(st, line, parse).0 == Idle
    ensures exists buf: string ::
      |buf| > 0 && buf[0] == '{' && BraceDelta(buf) <= 0 &&
      (if st.Pending? && !line.startsRecord
       then buf == st.buf + line.content && Feed(st, line, parse).1 == DecodeRepaired(buf, parse)
       else Some(buf) == line.fragment && Feed(st, line, parse).1 == parse(buf))
  {
    if st.Pending? && !line.startsRecord {
      BraceDeltaConcat(st.buf, line.content);
      var buf := st.buf + line.content;
      assert buf[0] == '{';
    } else {
      var buf := line.fragment.value;
      assert |buf| > 0 && buf[0] == '{';
    }
  }

  lemma FeedBound(st: Recon, line: Line, parse: Decoder)
    requires WellFormed(line)
    ensures |AsSeq(Feed(st, line, parse).1)| + Held(Feed(st, line, parse).0)
            <= Held(st) + (if Contains(line.content, MetricMarker) then 1 else 0)
  {
  }

  /** Each open buffer is started by a `METRIC ` line and yields at most one event. */
  lemma {:induction false} EventsBound(st: Recon, lines: seq<Line>, parse: Decoder)
    requires forall k :: 0 <= k < |lines| ==> WellFormed(lines[k])
    ensures |RunFrom(st, lines, parse).1| + Held(RunFrom(st, lines, parse).0)
            <= Held(st) + MetricLineCount(lines)
    decreases |lines|
  {
    if lines != [] {
      FeedBound(st, lines[0], parse);
      EventsBound(Feed(st, lines[0], parse).0, lines[1..], parse);
    }
  }

  /** Running over `a + b` is running over `a`, then over `b` from where `a` left off. */
  lemma {:induction false} RunSplit(st: Recon, a: seq<Line>, b: seq<Line>, parse: Decoder)
    ensures RunFrom(st, a + b, parse).0 == RunFrom(RunFrom(st, a, parse).0, b, parse).0
    ensures RunFrom(st, a + b, parse).1
            == RunFrom(st, a, parse).1 + RunFrom(RunFrom(st, a, parse).0, b, parse).1
    decreases |a|
  {
    if a == [] {
      assert a + b == b;
    } else {
      assert (a + b)[0] == a[0] && (a + b)[1..] == a[1..] + b;
      var step := Feed(st, a[0], parse);
      RunSplit(step.0, a[1..], b, parse);
      var left := RunFrom(step.0, a[1..], parse);
      AppendAssoc(AsSeq(step.1), left.1, RunFrom(left.0, b, parse).1);
    }
  }

  /** Supersession: when an object is still open and a line starts with `METRIC `, the
      open object is abandoned. The events of the whole run are the events before that
      line followed by the events of a fresh run from that line, so no fragment of the
      abandoned object reaches any event. */
  lemma Supersession(prefix: seq<Line>, line: Line, suffix: seq<Line>, parse: Decoder)
    requires RunFrom(Idle, prefix, parse).0.Pending?
    requires line.startsRecord
    ensures Feed(RunFrom(Idle, prefix, parse).0, line, parse) == Feed(Idle, line, parse)
    ensures RunFrom(Idle, prefix + [line] + suffix, parse).1
            == RunFrom(Idle, prefix, parse).1 + RunFrom(Idle, [line] + suffix, parse).1
  {
    var rest := [line] + suffix;
    assert prefix + [line] + suffix == prefix + rest;
    RunSplit(Idle, prefix, rest, parse);
    assert rest[0] == line && rest[1..] == suffix;
  }

  /** The contents of `lines`, concatenated. */
  function Joined(lines: seq<Line>): string
  {
    if lines == [] then "" else lines[0].content + Joined(lines[1..])
  }

  /** A line that does not start a record extends an open buffer, closing it when the
      balance of the grown buffer reaches zero. */
  lemma FeedPending(buf: string, line: Line, parse: Decoder)
    requires !line.startsRecord
    ensures Feed(Pending(buf, BraceDelta(buf)), line, parse)
            == var grown := buf + line.content;
               if BraceDelta(grown) <= 0 then (Idle, DecodeRepaired(grown, parse))
               else (Pending(grown, BraceDelta(grown)), None)
  {
    BraceDeltaConcat(buf, line.content);
  }

  /** Joining a non-empty prefix of lines starts with the first line's content. */
  lemma JoinedPrefix(lines: seq<Line>, k: nat)
    requires 0 < k <= |lines|
    ensures Joined(lines[..k]) == lines[0].content + Joined(lines[1..][..k - 1])
  {
    assert lines[..k][0] == lines[0] && lines[..k][1..] == lines[1..][..k - 1];
  }

  /** An open object fed lines that do not start a new record closes exactly at the
      first line where its balance reaches zero, and yields the repaired decoding of
      all its fragments joined. */
  lemma {:induction false} ClosesWhenBalanced(buf: string, lines: seq<Line>, parse: Decoder)
    requires |lines| > 0 && BraceDelta(buf) > 0
    requires forall k :: 0 <= k < |lines| ==> !lines[k].startsRecord
    requires forall k :: 0 < k < |lines| ==> BraceDelta(buf + Joined(lines[..k])) > 0
    requires BraceDelta(buf + Joined(lines)) <= 0
    ensures RunFrom(Pending(buf, BraceDelta(buf)), lines, parse)
            == (Idle, AsSeq(DecodeRepaired(buf + Joined(lines), parse)))
    decreases |lines|
  {
    var c0 := lines[0].content;
    var tail := lines[1..];
    FeedPending(buf, lines[0], parse);
    assert Joined(lines) == c0 + Joined(tail);
    AppendAssoc(buf, c0, Joined(tail));
    var step := Feed(Pending(buf, BraceDelta(buf)), lines[0], parse);
    var rest := RunFrom(step.0, tail, parse);
    assert RunFrom(Pending(buf, BraceDelta(buf)), lines, parse) == (rest.0, AsSeq(step.1) + rest.1);
    if |lines| == 1 {
      assert tail == [] && Joined(tail) == [];
      assert buf + c0 + [] == buf + c0;
      assert AsSeq(step.1) + rest.1 == AsSeq(step.1);
    } else {
      JoinedPrefix(lines, 1);
      assert tail[..0] == [];
      assert Joined(lines[..1]) == c0;
      forall k | 0 < k < |tail| ensures BraceDelta((buf + c0) + Joined(tail[..k])) > 0 {
        JoinedPrefix(lines, k + 1);
        AppendAssoc(buf, c0, Joined(tail[..k]));
      }
      forall k | 0 <= k < |tail| ensures !tail[k].startsRecord {
        assert tail[k] == lines[k + 1];
      }
      ClosesWhenBalanced(buf + c0, tail, parse);
      assert AsSeq(step.1) + rest.1 == rest.1;
    }
  }

  /** A line that opens an object left unbalanced puts the reconstructor in the pending
      state with that object's fragment and balance. */
  lemma OpensPending(first: Line, rest: seq<Line>, parse: Decoder)
    requires first.fragment.Some? && BraceDelta(first.fragment.value) > 0
    ensures RunFrom(Idle, [first] + rest, parse)
            == RunFrom(Pending(first.fragment.value, BraceDelta(first.fragment.value)), rest, parse)
  {
    var frag := first.fragment.value;
    var lines := [first] + rest;
    assert lines[0] == first && lines[1..] == rest;
    assert Feed(Idle, first, parse) == (Pending(frag, BraceDelta(frag)), None);
    var tail := RunFrom(Pending(frag, BraceDelta(frag)), rest, parse);
    assert RunFrom(Idle, lines, parse) == (tail.0, [] + tail.1);
    assert [] + tail.1 == tail.1;
  }

  /** An object balanced on the line that opens it gets one strict decoding, no repair. */
  lemma BalancedOnOneLine(single: Line, parse: Decoder)
    requires single.fragment.Some? && BraceDelta(single.fragment.value) <= 0
    ensures RunFrom(Idle, [single], parse) == (Idle, AsSeq(parse(single.fragment.value)))
  {
    assert [single][0] == single && [single][1..] == [];
    assert Feed(Idle, single, parse) == (Idle, parse(single.fragment.value));
    assert RunFrom(Idle, [single], parse) == (Idle, AsSeq(parse(single.fragment.value)) + []);
    assert AsSeq(parse(single.fragment.value)) + [] == AsSeq(parse(single.fragment.value));
  }

  /** An object split over several lines at any points that keep it open yields the same
      event as the object written on one line, whenever that one line decodes. */
  lemma SplitObjectParsesAlike(first: Line, rest: seq<Line>, single: Line, parse: Decoder)
    requires first.fragment.Some? && BraceDelta(first.fragment.value) > 0
    requires |rest| > 0
    requires forall k :: 0 <= k < |rest| ==> !rest[k].startsRecord
    requires forall k :: 0 < k < |rest| ==> BraceDelta(first.fragment.value + Joined(rest[..k])) > 0
    requires BraceDelta(first.fragment.value + Joined(rest)) <= 0
    requires single.fragment == Some(first.fragment.value + Joined(rest))
    requires parse(first.fragment.value + Joined(rest)).Some?
    ensures RunFrom(Idle, [first] + rest, parse).1 == RunFrom(Idle, [single], parse).1
            == [parse(first.fragment.value + Joined(rest)).value]
  {
    ClosesWhenBalanced(first.fragment.value, rest, parse);
    OpensPending(first, rest, parse);
    BalancedOnOneLine(single, parse);
  }
}
