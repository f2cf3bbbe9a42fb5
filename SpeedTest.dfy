/** The `test` command of src/actions.js: probe every mirror (or one named
    mirror), find the fastest successful probe, and print one line per
    mirror. The network is not modelled: what each fetch did (answered, with
    an `ok` flag, or threw, with or without the `request-timeout` type) and
    how long it took are given per mirror name, as is the active registry. */
module SpeedTest {
  import opened Wrappers
  import opened Strings
  import opened Styling
  import opened Utils
  import opened Catalog

  /** The fetch timeout in milliseconds. */
  const Timeout: nat := 5000

  /** What the one fetch of a probe did. */
  datatype Outcome = Responded(ok: bool) | Threw(requestTimeout: bool)

  /** A probe's outcome and the milliseconds `Date.now()` saw pass. */
  datatype Observation = Observation(outcome: Outcome, elapsed: int)

  /** `{ name, registry, success, time, isTimeout }` */
  datatype ProbeRecord = ProbeRecord(name: string, registry: string, success: bool, time: int, isTimeout: bool)

  /** `test` either stops at an unknown target or prints its report. */
  datatype TestResult = NotFound(target: string) | Report(lines: seq<Styled>)

  /** A target counts only when it is truthy: absent or empty means all. */
  predicate Given(target: Option<string>)
  {
    target.Some? && target.value != ""
  }

  /** The mirrors probed: the target alone, or the whole catalog in order. */
  function Sources(keys: seq<string>, target: Option<string>): seq<string>
  {
    if Given(target) then [target.value] else keys
  }

  /** The record a probe yields: success is the response's `ok`, and the
      timeout flag is set only by a thrown `request-timeout`, so a record is
      never both successful and timed out. */
  function RecordOf(name: string, registry: string, obs: Observation): (r: ProbeRecord)
    ensures r.name == name && r.registry == registry && r.time == obs.elapsed
    ensures r.success <==> obs.outcome == Responded(true)
    ensures r.isTimeout <==> obs.outcome == Threw(true)
    ensures !(r.success && r.isTimeout)
  {
    match obs.outcome
    case Responded(ok) => ProbeRecord(name, registry, ok, obs.elapsed, false)
    case Threw(requestTimeout) => ProbeRecord(name, registry, false, obs.elapsed, requestTimeout)
  }

  /** One probe: both flags start false and the fetch's fate sets one of them. */
  method Probe(name: string, registry: string, obs: Observation) returns (rec: ProbeRecord)
    ensures rec == RecordOf(name, registry, obs)
  {
    var status := false;
    var isTimeout := false;
    match obs.outcome {
      case Responded(ok) =>
        status := ok;
      case Threw(requestTimeout) =>
        isTimeout := requestTimeout;
    }
    rec := ProbeRecord(name, registry, status, obs.elapsed, isTimeout);
  }

  /** The records of the probed mirrors, in the order of the names. */
  function Records(names: seq<string>, entries: map<string, Entry>, observe: map<string, Observation>)
    : (rs: seq<ProbeRecord>)
    requires forall i :: 0 <= i < |names| ==> names[i] in entries && names[i] in observe
    ensures |rs| == |names|
    ensures forall i :: 0 <= i < |names| ==>
      rs[i] == RecordOf(names[i], entries[names[i]].registry, observe[names[i]])
  {
    seq(|names|, i requires 0 <= i < |names| =>
      RecordOf(names[i], entries[names[i]].registry, observe[names[i]]))
  }

  /** `Promise.all(names.map(probe))`: one record per name, in name order,
      whatever order the probes finish in. */
  method ProbeAll(names: seq<string>, entries: map<string, Entry>, observe: map<string, Observation>)
    returns (records: seq<ProbeRecord>)
    requires forall i :: 0 <= i < |names| ==> names[i] in entries && names[i] in observe
    ensures records == Records(names, entries, observe)
  {
    records := [];
    var i := 0;
    while i < |names|
      invariant 0 <= i <= |names|
      invariant |records| == i
      invariant forall j :: 0 <= j < i ==>
        records[j] == RecordOf(names[j], entries[names[j]].registry, observe[names[j]])
    {
      var name := names[i];
      var rec := Probe(name, entries[name].registry, observe[name]);
      records := records + [rec];
      i := i + 1;
    }
  }

  /** `results.filter((each) => each.success).map((each) => each.time)` */
  function SuccessTimes(rs: seq<ProbeRecord>): (ts: seq<int>)
    ensures forall i :: 0 <= i < |rs| && rs[i].success ==> rs[i].time in ts
    ensures forall t :: t in ts ==> exists i :: 0 <= i < |rs| && rs[i].success && rs[i].time == t
  {
    if rs == [] then []
    else
      var rest := SuccessTimes(rs[1..]);
      assert forall i :: 1 <= i < |rs| ==> rs[i] == rs[1..][i - 1];
      (if rs[0].success then [rs[0].time] else []) + rest
  }

  /** The smallest of a non-empty list of times. */
  function Min(ts: seq<int>): (m: int)
    requires ts != []
    ensures m in ts && forall t :: t in ts ==> m <= t
  {
    if |ts| == 1 then ts[0]
    else
      assert ts == [ts[0]] + ts[1..];
      var rest := Min(ts[1..]);
      if ts[0] <= rest then ts[0] else rest
  }

  /** `const [fastest] = ...sort((a, b) => a - b)`: the least time among the
      successful records, and nothing when none succeeded. */
  function Fastest(rs: seq<ProbeRecord>): (f: Option<int>)
    ensures f.None? <==> forall i :: 0 <= i < |rs| ==> !rs[i].success
    ensures f.Some? ==> exists i :: 0 <= i < |rs| && rs[i].success && rs[i].time == f.value
    ensures f.Some? ==> forall i :: 0 <= i < |rs| && rs[i].success ==> f.value <= rs[i].time
  {
    var ts := SuccessTimes(rs);
    if ts == [] then None else Some(Min(ts))
  }

  predicate Ascending(ts: seq<int>)
  {
    forall i, j :: 0 <= i < j < |ts| ==> ts[i] <= ts[j]
  }

  /** Whatever ascending arrangement the sort produces, its first element is
      the `Fastest` time, and an empty one leaves `fastest` undefined. */
  lemma SortedHeadIsFastest(rs: seq<ProbeRecord>, sorted: seq<int>)
    requires multiset(sorted) == multiset(SuccessTimes(rs)) && Ascending(sorted)
    ensures Fastest(rs) == if sorted == [] then None else Some(sorted[0])
  {
    var ts := SuccessTimes(rs);
    if sorted == [] {
      assert |ts| == |multiset(ts)| == |multiset(sorted)| == 0;
    } else {
      assert sorted[0] in multiset(sorted);
      assert sorted[0] in ts;
      var m := Min(ts);
      assert m in multiset(ts);
      assert m in sorted;
      var k :| 0 <= k < |sorted| && sorted[k] == m;
      assert sorted[0] <= sorted[k];
    }
  }

  /** The red note added after a failed probe. */
  const ErrorNote: Styled := Paint(Red, " (请求失败...)")

  /** The yellow note added after a timed-out probe, naming the timeout. */
  const TimeoutNote: Styled := Paint(Yellow, " (请求时间： " + NatToString(Timeout) + " ms)")

  /** `* ` in green for the active registry, two spaces otherwise. */
  function Prefix(rec: ProbeRecord, cur: string): Styled
  {
    if rec.registry == Trim(cur) then Paint(Green, "* ") else Unstyled("  ")
  }

  /** The status after the dashes: the time on a bright green background for
      a fastest record when all mirrors were probed, else `timeout` or the
      time in ms; a failed probe then gets the timeout or the failure note. */
  function Suffix(rec: ProbeRecord, fastest: Option<int>, given: bool): Styled
  {
    var isFastest := fastest == Some(rec.time);
    var status :=
      if isFastest && !given then Paint(BgGreenBright, IntToString(rec.time) + " ms")
      else if rec.isTimeout then Unstyled("timeout")
      else Unstyled(IntToString(rec.time) + " ms");
    if !rec.success then status + (if rec.isTimeout then TimeoutNote else ErrorNote) else status
  }

  /** One line of the report. */
  function TestLine(rec: ProbeRecord, fastest: Option<int>, given: bool, cur: string, length: int): Styled
  {
    Prefix(rec, cur) + Unstyled(rec.name) + GeneDashLine(rec.name, length) + Suffix(rec, fastest, given)
  }

  /** The report for a list of records: one line each, in record order. */
  function ReportLines(records: seq<ProbeRecord>, given: bool, cur: string, length: int)
    : (lines: seq<Styled>)
    ensures |lines| == |records|
  {
    var fastest := Fastest(records);
    seq(|records|, i requires 0 <= i < |records| => TestLine(records[i], fastest, given, cur, length))
  }

  /** The report `test` prints for the probed names: their records' lines,
      aligned to the longest name plus three. */
  function ReportFor(names: seq<string>, entries: map<string, Entry>,
                     observe: map<string, Observation>, given: bool, cur: string): (lines: seq<Styled>)
    requires forall i :: 0 <= i < |names| ==> names[i] in entries && names[i] in observe
    ensures |lines| == |names|
  {
    ReportLines(Records(names, entries, observe), given, cur, MaxLength(names) + 3)
  }

  /** The `forEach` that pushes one message per record, in record order. */
  method FormatReport(records: seq<ProbeRecord>, fastest: Option<int>, given: bool, cur: string, length: int)
    returns (messages: seq<Styled>)
    ensures |messages| == |records|
    ensures forall i :: 0 <= i < |records| ==> messages[i] == TestLine(records[i], fastest, given, cur, length)
  {
    messages := [];
    var i := 0;
    while i < |records|
      invariant 0 <= i <= |records|
      invariant |messages| == i
      invariant forall j :: 0 <= j < i ==> messages[j] == TestLine(records[j], fastest, given, cur, length)
    {
      var line := TestLine(records[i], fastest, given, cur, length);
      messages := messages + [line];
      i := i + 1;
    }
  }

  /** `test [target]`: an unknown truthy target stops before any probe;
      otherwise the probed mirrors are the target alone or the whole catalog,
      and the report has one line per probed mirror, in catalog order. */
  method Test(reg: Registries, target: Option<string>, cur: string, observe: map<string, Observation>)
    returns (res: TestResult)
    requires reg.Valid()
    requires forall k :: k in reg.entries ==> k in observe
    ensures res.NotFound? <==> Given(target) && target.value !in reg.keys
    ensures res.NotFound? ==> res.target == target.value
    ensures res.Report? && Given(target) ==> |res.lines| == 1
    ensures res.Report? && !Given(target) ==> |res.lines| == |reg.keys|
    ensures res.Report? ==>
      var names := Sources(reg.keys, target);
      && (forall i :: 0 <= i < |names| ==> names[i] in reg.entries)
      && res.lines == ReportFor(names, reg.entries, observe, Given(target), cur)
  {
    var keys, entries := reg.keys, reg.entries;
    if Given(target) && target.value !in keys {
      return NotFound(target.value);
    }
    var names := Sources(keys, target);
    assert forall i :: 0 <= i < |names| ==> names[i] in keys;
    var messages := ProbeAndReport(names, entries, observe, Given(target), cur);
    res := Report(messages);
  }

  /** What `test` does once the mirrors to probe are known: probe them all,
      pick the fastest time, and format one line per record with the names
      aligned to the longest name plus three. */
  method ProbeAndReport(names: seq<string>, entries: map<string, Entry>,
                        observe: map<string, Observation>, given: bool, cur: string)
    returns (messages: seq<Styled>)
    requires forall i :: 0 <= i < |names| ==> names[i] in entries && names[i] in observe
    ensures messages == ReportFor(names, entries, observe, given, cur)
  {
    var records := ProbeAll(names, entries, observe);
    var fastest := Fastest(records);
    var length := MaxLength(names) + 3;
    messages := FormatReport(records, fastest, given, cur, length);
  }

  /** The numerals the scenarios below print. */
  lemma Numerals()
    ensures NatToString(5000) == "5000"
    ensures IntToString(400) == "400"
  {
    assert NatToString(5) == "5";
    assert NatToString(50) == "50";
    assert NatToString(500) == "500";
    assert NatToString(4) == "4";
    assert NatToString(40) == "40";
  }

  /** The note after a timed-out probe shows the configured 5000 ms. */
  lemma TimeoutNoteText()
    ensures Text(TimeoutNote) == " (请求时间： 5000 ms)"
  {
    Numerals();
    TextPaint(Yellow, " (请求时间： " + NatToString(Timeout) + " ms)");
  }

  /** What the status and note read, colours dropped: the time in ms, or
      `timeout` for a timed-out record that is not highlighted, then the note
      of a failed probe. */
  lemma SuffixText(rec: ProbeRecord, fastest: Option<int>, given: bool)
    ensures Text(Suffix(rec, fastest, given))
         == (if (!given && fastest == Some(rec.time)) || !rec.isTimeout
             then IntToString(rec.time) + " ms" else "timeout")
            + (if rec.success then "" else if rec.isTimeout then Text(TimeoutNote) else Text(ErrorNote))
  {
    var sf := Suffix(rec, fastest, given);
    var status :=
      if fastest == Some(rec.time) && !given then Paint(BgGreenBright, IntToString(rec.time) + " ms")
      else if rec.isTimeout then Unstyled("timeout")
      else Unstyled(IntToString(rec.time) + " ms");
    TextPaint(BgGreenBright, IntToString(rec.time) + " ms");
    TextPaint(Plain, "timeout");
    TextPaint(Plain, IntToString(rec.time) + " ms");
    if !rec.success {
      var note := if rec.isTimeout then TimeoutNote else ErrorNote;
      assert sf == status + note;
      TextAppend(status, note);
    }
  }

  /** The text a report line shows before its status: the mark, the name,
      one space, dashes up to one column past `length` and one space. */
  function Lead(registry: string, cur: string, name: string, length: int): (r: string)
    requires |name| <= length
    ensures |r| == length + 5
  {
    var m := Marker(registry, cur);
    assert |m| == 2;
    m + name + " " + Repeat('-', length + 1 - |name|) + " "
  }

  /** The mark before a test line reads like the `ls` mark and is green or plain. */
  lemma PrefixFacts(rec: ProbeRecord, cur: string)
    ensures Text(Prefix(rec, cur)) == Marker(rec.registry, cur)
    ensures forall sp :: sp in Prefix(rec, cur) ==> sp.style == Green || sp.style == Plain
  {
  }

  /** Which styles the status and note can carry, and where. */
  lemma SuffixFacts(rec: ProbeRecord, fastest: Option<int>, given: bool)
    ensures var sf := Suffix(rec, fastest, given);
      && |sf| > 0
      && (forall sp :: sp in sf && sp.style == BgGreenBright ==> !given && fastest == Some(rec.time))
      && (!given && fastest == Some(rec.time) ==> sf[0].style == BgGreenBright)
      && (forall sp :: sp in sf && sp.style == Yellow ==> !rec.success && rec.isTimeout)
      && (forall sp :: sp in sf && sp.style == Red ==> !rec.success && !rec.isTimeout)
      && (!rec.success ==> sf[|sf| - 1].style == (if rec.isTimeout then Yellow else Red))
  {
  }

  /** Every span of a line comes from its mark, its name, its dash line or its status. */
  lemma TestLineParts(rec: ProbeRecord, fastest: Option<int>, given: bool, cur: string, length: int)
    ensures var line := TestLine(rec, fastest, given, cur, length);
      && (forall sp :: sp in line ==>
            sp in Prefix(rec, cur) || sp.style == Plain || sp.style == Dim || sp in Suffix(rec, fastest, given))
      && (forall sp :: sp in Suffix(rec, fastest, given) ==> sp in line)
  {
    GeneDashLineLayout(rec.name, length);
  }

  /** A line shows the mark, the name, one space, dashes up to one column past
      `length`, one space and the status; so for names no longer than
      `length` every status starts in column `length + 5`. */
  lemma TestLineLayout(rec: ProbeRecord, fastest: Option<int>, given: bool, cur: string, length: int)
    requires |rec.name| <= length
    ensures Text(TestLine(rec, fastest, given, cur, length))
         == Lead(rec.registry, cur, rec.name, length) + Text(Suffix(rec, fastest, given))
  {
    var p := Prefix(rec, cur);
    var n := Unstyled(rec.name);
    var g := GeneDashLine(rec.name, length);
    var sf := Suffix(rec, fastest, given);
    assert TestLine(rec, fastest, given, cur, length) == p + n + g + sf;
    GeneDashLineLayout(rec.name, length);
    PrefixFacts(rec, cur);
    TextAppend3(p, n, g);
    TextAppend(p + n + g, sf);
    TextPaint(Plain, rec.name);
    DashLineAligns(rec.name, length);
    var m, dashes := Marker(rec.registry, cur), Repeat('-', length + 1 - |rec.name|);
    assert Text(g) == " " + dashes + " ";
    assert Lead(rec.registry, cur, rec.name, length) == m + rec.name + " " + dashes + " ";
    Regroup(m, rec.name, " ", dashes, " ");
  }

  /** The status is on a bright green background exactly when all mirrors
      were probed and the record's time equals the fastest time, whether or
      not that record itself succeeded. */
  lemma TestLineHighlight(rec: ProbeRecord, fastest: Option<int>, given: bool, cur: string, length: int)
    ensures Shows(TestLine(rec, fastest, given, cur, length), BgGreenBright)
            <==> !given && fastest == Some(rec.time)
  {
    var sf := Suffix(rec, fastest, given);
    PrefixFacts(rec, cur);
    SuffixFacts(rec, fastest, given);
    TestLineParts(rec, fastest, given, cur, length);
    if !given && fastest == Some(rec.time) {
      assert sf[0] in TestLine(rec, fastest, given, cur, length);
    }
  }

  /** A failed probe gets exactly one note: the yellow timeout note when the
      fetch timed out, the red failure note otherwise; a successful probe gets
      neither. */
  lemma TestLineNotes(rec: ProbeRecord, fastest: Option<int>, given: bool, cur: string, length: int)
    ensures Shows(TestLine(rec, fastest, given, cur, length), Yellow) <==> !rec.success && rec.isTimeout
    ensures Shows(TestLine(rec, fastest, given, cur, length), Red) <==> !rec.success && !rec.isTimeout
  {
    var sf := Suffix(rec, fastest, given);
    PrefixFacts(rec, cur);
    SuffixFacts(rec, fastest, given);
    TestLineParts(rec, fastest, given, cur, length);
    if !rec.success {
      assert sf[|sf| - 1] in TestLine(rec, fastest, given, cur, length);
    }
  }

  /** The whole report: line `i` belongs to the `i`-th probed name, every
      status starts in the same column (the longest name plus eight), a line
      is highlighted exactly when all mirrors were probed and its time is the
      fastest, and nothing is highlighted when no probe succeeded. */
  lemma ReportShape(names: seq<string>, entries: map<string, Entry>,
                    observe: map<string, Observation>, given: bool, cur: string)
    requires forall i :: 0 <= i < |names| ==> names[i] in entries && names[i] in observe
    ensures forall i :: 0 <= i < |names| ==> |names[i]| <= MaxLength(names)
    ensures var lines := ReportFor(names, entries, observe, given, cur);
            var rs := Records(names, entries, observe);
      forall i :: 0 <= i < |names| ==>
        && Text(lines[i]) == Lead(entries[names[i]].registry, cur, names[i], MaxLength(names) + 3)
                             + Text(Suffix(rs[i], Fastest(rs), given))
        && (Shows(lines[i], BgGreenBright) <==> !given && Fastest(rs) == Some(rs[i].time))
  {
    var lines := ReportFor(names, entries, observe, given, cur);
    var rs := Records(names, entries, observe);
    var width := MaxLength(names) + 3;
    MaxLengthBounds(names);
    forall i | 0 <= i < |names|
      ensures Text(lines[i]) == Lead(entries[names[i]].registry, cur, names[i], width)
                                + Text(Suffix(rs[i], Fastest(rs), given))
      ensures Shows(lines[i], BgGreenBright) <==> !given && Fastest(rs) == Some(rs[i].time)
    {
      assert lines[i] == TestLine(rs[i], Fastest(rs), given, cur, width);
      TestLineLayout(rs[i], Fastest(rs), given, cur, width);
      TestLineHighlight(rs[i], Fastest(rs), given, cur, width);
    }
  }

  /** When no probe succeeded there is no fastest time, so no line is highlighted. */
  lemma NoSuccessNoHighlight(rs: seq<ProbeRecord>, given: bool, cur: string, length: int)
    requires forall i :: 0 <= i < |rs| ==> !rs[i].success
    ensures forall i :: 0 <= i < |rs| ==> !Shows(ReportLines(rs, given, cur, length)[i], BgGreenBright)
  {
    assert Fastest(rs) == None;
    forall i | 0 <= i < |rs|
      ensures !Shows(ReportLines(rs, given, cur, length)[i], BgGreenBright)
    {
      TestLineHighlight(rs[i], None, given, cur, length);
    }
  }

  /** Two mirrors that both answer, in 50 ms and in 400 ms, probed together:
      the first is highlighted, the second is not and shows `400 ms`. */
  lemma FastAndSlow(cur: string)
    ensures var names := ["fast", "slow"];
            var entries := map["fast" := Entry("https://fast.example/", "https://fast.example/"),
                               "slow" := Entry("https://slow.example/", "https://slow.example/")];
            var observe := map["fast" := Observation(Responded(true), 50),
                               "slow" := Observation(Responded(true), 400)];
            var lines := ReportFor(names, entries, observe, false, cur);
            var rs := Records(names, entries, observe);
      && Shows(lines[0], BgGreenBright)
      && !Shows(lines[1], BgGreenBright)
      && Text(Suffix(rs[1], Fastest(rs), false)) == "400" + " ms"
  {
    var names := ["fast", "slow"];
    var entries := map["fast" := Entry("https://fast.example/", "https://fast.example/"),
                       "slow" := Entry("https://slow.example/", "https://slow.example/")];
    var observe := map["fast" := Observation(Responded(true), 50),
                       "slow" := Observation(Responded(true), 400)];
    var rs := Records(names, entries, observe);
    assert rs[0].time == 50 && rs[0].success;
    assert rs[1].time == 400 && rs[1].success;
    assert Fastest(rs) == Some(50);
    ReportShape(names, entries, observe, false, cur);
    SuffixText(rs[1], Some(50), false);
    Numerals();
  }

  /** A single mirror whose fetch timed out after 5000 ms, probed by name:
      it is not highlighted, and its line ends in `timeout` and the yellow
      note showing the 5000 ms budget. */
  lemma DeadMirrorTimesOut(cur: string)
    ensures var names := ["dead"];
            var entries := map["dead" := Entry("https://dead.example/", "https://dead.example/")];
            var observe := map["dead" := Observation(Threw(true), 5000)];
            var lines := ReportFor(names, entries, observe, true, cur);
            var rs := Records(names, entries, observe);
      && rs[0] == ProbeRecord("dead", "https://dead.example/", false, 5000, true)
      && !Shows(lines[0], BgGreenBright)
      && Shows(lines[0], Yellow)
      && Text(Suffix(rs[0], Fastest(rs), true)) == "timeout" + " (请求时间： 5000 ms)"
  {
    var names := ["dead"];
    var entries := map["dead" := Entry("https://dead.example/", "https://dead.example/")];
    var observe := map["dead" := Observation(Threw(true), 5000)];
    var rs := Records(names, entries, observe);
    var lines := ReportFor(names, entries, observe, true, cur);
    assert rs[0] == ProbeRecord("dead", "https://dead.example/", false, 5000, true);
    ReportShape(names, entries, observe, true, cur);
    assert lines[0] == TestLine(rs[0], Fastest(rs), true, cur, MaxLength(names) + 3);
    TestLineNotes(rs[0], Fastest(rs), true, cur, MaxLength(names) + 3);
    SuffixText(rs[0], Fastest(rs), true);
    TimeoutNoteText();
  }
}
