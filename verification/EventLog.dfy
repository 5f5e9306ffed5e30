/** The operation event log: JSON lines appended through short writes
    (plugins/callback/platform_config_operation_summary.py). */
module EventLog {
  import opened Text
  import opened Patterns
  import J = Json
  import JsonRoundTrip
  import C = CanonicalJson

  // ---------------------------------------------------------------- records

  function StrMember(key: string, value: string): J.Member {
    J.Member(key, J.Str(value))
  }

  function ErrorRecord(phase: string): J.Doc {
    J.Obj([J.Member("schema", J.Int(1)), StrMember("kind", "error"), StrMember("phase", phase)])
  }

  function TaskRecord(phase: string, host: string, outcome: string, task: string): J.Doc {
    J.Obj([J.Member("schema", J.Int(1)), StrMember("kind", "task"), StrMember("phase", phase),
           StrMember("host", host), StrMember("outcome", outcome), StrMember("task", task)])
  }

  const COUNTERS: seq<string> := ["ok", "changed", "failures", "unreachable", "skipped", "rescued", "ignored"]

  /** A summary maps counters to integers; None stands for a value of another type. */
  type Summary = map<string, Option<int>>

  function Count(s: Summary, counter: string): Option<int> {
    if counter in s then s[counter] else Some(0)
  }

  predicate ValidSummary(s: Summary) {
    forall i :: 0 <= i < |COUNTERS| ==> Count(s, COUNTERS[i]).Some? && Count(s, COUNTERS[i]).value >= 0
  }

  function RecapRecord(phase: string, host: string, s: Summary): J.Doc
    requires ValidSummary(s)
  {
    J.Obj([J.Member("schema", J.Int(1)), StrMember("kind", "recap"), StrMember("phase", phase),
           StrMember("host", host),
           J.Member("counters", J.Obj(seq(|COUNTERS|, i requires 0 <= i < |COUNTERS| =>
             J.Member(COUNTERS[i], J.Int(Count(s, COUNTERS[i]).value)))))])
  }

  /** _safe_text: nonempty printable ASCII of bounded length. */
  predicate SafeText(s: string, maximum: nat) {
    s != "" && |s| <= maximum && forall i :: 0 <= i < |s| ==> ' ' <= s[i] <= '~'
  }

  /** _safe_host: safe text that is not an IP address. */
  predicate SafeHost(isIp: string -> bool, s: string) {
    SafeText(s, 255) && !isIp(s)
  }

  // ----------------------------------------------------------------- append

  /** What the system does with one append: refuse to open the log, or answer
      the k-th write with a byte count or an error. */
  datatype Io = OpenFails | Writes(schedule: nat -> Option<nat>)

  function LineOf(record: J.Doc): string {
    J.Print(record) + "\n"
  }

  /** A write takes at least one byte and at most what is left. */
  function Taken(n: nat, rest: string): (k: nat)
    requires rest != ""
    ensures 1 <= k <= |rest|
  {
    if n == 0 then 1 else if n > |rest| then |rest| else n
  }

  /** The bytes written from call k on, and whether all of them were. */
  function Written(schedule: nat -> Option<nat>, k: nat, rest: string): (string, bool)
    decreases |rest|
  {
    if rest == "" then ("", true)
    else if schedule(k).None? then ("", false)
    else
      var n := Taken(schedule(k).value, rest);
      var (tail, ok) := Written(schedule, k + 1, rest[n..]);
      (rest[..n] + tail, ok)
  }

  lemma {:induction false} WrittenPrefix(schedule: nat -> Option<nat>, k: nat, rest: string)
    ensures var (w, ok) := Written(schedule, k, rest);
            && |w| <= |rest| && w == rest[..|w|] && (ok <==> w == rest)
    decreases |rest|
  {
    if rest != "" && schedule(k).Some? {
      var n := Taken(schedule(k).value, rest);
      WrittenPrefix(schedule, k + 1, rest[n..]);
      var (tail, ok) := Written(schedule, k + 1, rest[n..]);
      assert rest == rest[..n] + rest[n..];
      assert (rest[..n] + tail) == rest[..n + |tail|];
      assert ok ==> n + |tail| == |rest|;
    }
  }

  /** The log and the flag `_write_failed`. */
  datatype Sink = Sink(log: string, failed: bool)

  function Appended(io: Io, record: J.Doc): (string, bool) {
    if io.OpenFails? then ("", false) else Written(io.schedule, 0, LineOf(record))
  }

  /** `_append_record` with its caller's handler: a failure sets the flag. */
  function AppendTo(s: Sink, record: J.Doc, io: Io): Sink {
    var (w, ok) := Appended(io, record);
    Sink(s.log + w, s.failed || !ok)
  }

  // ----------------------------------------------------------------- events

  datatype Event = Event(host: string, task: string, outcome: string)

  /** `_write_task`: one record per event, an error record for unsafe text. */
  function EventRecord(phase: string, isIp: string -> bool, e: Event): J.Doc {
    if SafeHost(isIp, e.host) && SafeText(e.task, 255) then TaskRecord(phase, e.host, e.outcome, e.task)
    else ErrorRecord(phase)
  }

  predicate GoodHost(isIp: string -> bool, summaries: map<string, Summary>, host: string) {
    SafeHost(isIp, host) && ValidSummary(SummaryOf(summaries, host))
  }

  function SummaryOf(summaries: map<string, Summary>, host: string): Summary {
    if host in summaries then summaries[host] else map[]
  }

  /** What stats writes for one host. */
  function HostRecord(phase: string, isIp: string -> bool, summaries: map<string, Summary>, host: string): J.Doc {
    if GoodHost(isIp, summaries, host) then RecapRecord(phase, host, SummaryOf(summaries, host)) else ErrorRecord(phase)
  }

  /** The records of v2_playbook_on_stats for these hosts, in order: recaps up to
      the first bad host, then one error. */
  function StatsRecords(phase: string, isIp: string -> bool, summaries: map<string, Summary>, hosts: seq<string>)
    : seq<J.Doc>
  {
    if hosts == [] then []
    else [HostRecord(phase, isIp, summaries, hosts[0])] +
         (if GoodHost(isIp, summaries, hosts[0]) then StatsRecords(phase, isIp, summaries, hosts[1..]) else [])
  }

  /** Appending records in order until one fails. */
  function AppendAll(s: Sink, records: seq<J.Doc>, ios: nat -> Io, k: nat): Sink
    decreases |records|
  {
    if records == [] then s else
      var next := AppendTo(s, records[0], ios(k));
      if !Appended(ios(k), records[0]).1 then next else AppendAll(next, records[1..], ios, k + 1)
  }

  /** The callback object.  `phase` is None when no valid context is configured. */
  class Callback {
    var log: string
    var writeFailed: bool

    constructor (initial: string)
      ensures log == initial && !writeFailed
    {
      log, writeFailed := initial, false;
    }

    /** The loop of _append_record over the shrinking buffer. */
    method AppendRecord(record: J.Doc, io: Io) returns (ok: bool)
      modifies this`log
      ensures log == old(log) + Appended(io, record).0
      ensures ok == Appended(io, record).1
      ensures ok ==> log == old(log) + LineOf(record)
    {
      hide LineOf;
      assert old(log) + "" == old(log);
      if io.OpenFails? {
        return false;
      }
      var remaining := LineOf(record);
      var k := 0;
      WrittenPrefix(io.schedule, 0, remaining);
      while remaining != ""
        invariant log + Written(io.schedule, k, remaining).0 == old(log) + Appended(io, record).0
        invariant Written(io.schedule, k, remaining).1 == Appended(io, record).1
        decreases |remaining|
      {
        var answer := io.schedule(k);
        if answer.None? {
          return false;
        }
        var n := Taken(answer.value, remaining);
        log := log + remaining[..n];
        remaining := remaining[n..];
        k := k + 1;
      }
      ok := true;
    }

    method WriteError(phase: Option<string>, io: Io)
      modifies this
      ensures Sink(log, writeFailed) ==
              if phase.None? then Sink(old(log), old(writeFailed))
              else AppendTo(Sink(old(log), old(writeFailed)), ErrorRecord(phase.value), io)
    {
      if phase.None? {
        return;
      }
      var ok := AppendRecord(ErrorRecord(phase.value), io);
      if !ok {
        writeFailed := true;
      }
    }

    method WriteTask(phase: Option<string>, isIp: string -> bool, e: Event, io: Io)
      modifies this
      ensures Sink(log, writeFailed) ==
              if phase.None? then Sink(old(log), old(writeFailed))
              else AppendTo(Sink(old(log), old(writeFailed)), EventRecord(phase.value, isIp, e), io)
    {
      if phase.None? {
        return;
      }
      if !SafeHost(isIp, e.host) || !SafeText(e.task, 255) {
        WriteError(phase, io);
        return;
      }
      var ok := AppendRecord(TaskRecord(phase.value, e.host, e.outcome, e.task), io);
      if !ok {
        writeFailed := true;
      }
    }

    /** v2_playbook_on_stats: after any earlier failure only an error record. */
    method OnStats(phase: Option<string>, isIp: string -> bool, summaries: map<string, Summary>,
                   processed: set<string>, ios: nat -> Io)
      modifies this
      ensures Sink(log, writeFailed) ==
                StatsTo(Sink(old(log), old(writeFailed)), phase, isIp, summaries, processed, ios)
    {
      if phase.None? {
        return;
      }
      if writeFailed {
        var _ := AppendRecord(ErrorRecord(phase.value), ios(0));
        return;
      }
      var hosts := Sorted(processed);
      ghost var start := Sink(log, writeFailed);
      ghost var records := StatsRecords(phase.value, isIp, summaries, hosts);
      assert hosts[0..] == hosts;
      hide Appended, ErrorRecord, RecapRecord, SafeHost, ValidSummary, Sorted;
      for n := 0 to |hosts|
        invariant AppendAll(start, records, ios, 0) ==
                  AppendAll(Sink(log, writeFailed), StatsRecords(phase.value, isIp, summaries, hosts[n..]), ios, n)
        invariant !writeFailed
      {
        var host := hosts[n];
        var good := GoodHost(isIp, summaries, host);
        var record := if good then RecapRecord(phase.value, host, SummaryOf(summaries, host))
                      else ErrorRecord(phase.value);
        ghost var rest := if good then StatsRecords(phase.value, isIp, summaries, hosts[n + 1..]) else [];
        assert hosts[n..][0] == host && hosts[n..][1..] == hosts[n + 1..];
        assert StatsRecords(phase.value, isIp, summaries, hosts[n..]) == [record] + rest;
        assert ([record] + rest)[0] == record && ([record] + rest)[1..] == rest;
        var ok := AppendRecord(record, ios(n));
        if !ok {
          writeFailed := true;
          return;
        }
        if !good {
          return;
        }
      }
    }
  }

  /** What stats does to the log. */
  function StatsTo(s: Sink, phase: Option<string>, isIp: string -> bool, summaries: map<string, Summary>,
                   processed: set<string>, ios: nat -> Io): Sink
  {
    if phase.None? then s
    else if s.failed then Sink(s.log + Appended(ios(0), ErrorRecord(phase.value)).0, true)
    else AppendAll(s, StatsRecords(phase.value, isIp, summaries, Sorted(processed)), ios, 0)
  }

  // -------------------------------------------------------------- properties

  ghost predicate Smooth(io: Io) {
    io.Writes? && forall k :: io.schedule(k).Some?
  }

  lemma {:induction false} SmoothWrites(schedule: nat -> Option<nat>, k: nat, rest: string)
    requires forall i :: schedule(i).Some?
    ensures Written(schedule, k, rest) == (rest, true)
    decreases |rest|
  {
    if rest != "" {
      var n := Taken(schedule(k).value, rest);
      SmoothWrites(schedule, k + 1, rest[n..]);
      assert rest == rest[..n] + rest[n..];
    }
  }

  /** The lines of a list of records. */
  function LogText(records: seq<J.Doc>): string {
    if records == [] then "" else LineOf(records[0]) + LogText(records[1..])
  }

  lemma {:induction false} LogTextAppend(a: seq<J.Doc>, b: seq<J.Doc>)
    ensures LogText(a + b) == LogText(a) + LogText(b)
  {
    if a == [] {
      assert a + b == b;
    } else {
      assert (a + b)[1..] == a[1..] + b;
      LogTextAppend(a[1..], b);
    }
  }

  lemma SmoothAppendTo(s: Sink, record: J.Doc, io: Io)
    requires Smooth(io)
    ensures AppendTo(s, record, io) == Sink(s.log + LineOf(record), s.failed) && Appended(io, record).1
  {
    SmoothWrites(io.schedule, 0, LineOf(record));
    hide Written, LineOf;
  }

  lemma {:induction false} SmoothAppendAll(s: Sink, records: seq<J.Doc>, ios: nat -> Io, k: nat)
    requires forall i :: Smooth(ios(i))
    ensures AppendAll(s, records, ios, k) == Sink(s.log + LogText(records), s.failed)
    decreases |records|
  {
    hide Appended, AppendTo, LineOf;
    if records != [] {
      SmoothAppendTo(s, records[0], ios(k));
      var next := AppendTo(s, records[0], ios(k));
      SmoothAppendAll(next, records[1..], ios, k + 1);
      assert next.log + LogText(records[1..]) == s.log + (LineOf(records[0]) + LogText(records[1..]));
    } else {
      assert s.log + "" == s.log;
    }
  }

  function EventRecords(phase: string, isIp: string -> bool, events: seq<Event>): seq<J.Doc> {
    seq(|events|, i requires 0 <= i < |events| => EventRecord(phase, isIp, events[i]))
  }

  /** The sink after the task events of a run. */
  function HandleAll(s: Sink, phase: string, isIp: string -> bool, events: seq<Event>, ios: nat -> Io): Sink {
    if events == [] then s else
      var m := |events| - 1;
      AppendTo(HandleAll(s, phase, isIp, events[..m], ios), EventRecord(phase, isIp, events[m]), ios(m))
  }

  lemma {:induction false} SmoothEvents(s: Sink, phase: string, isIp: string -> bool, events: seq<Event>,
                                        ios: nat -> Io)
    requires forall i :: Smooth(ios(i))
    ensures HandleAll(s, phase, isIp, events, ios) ==
            Sink(s.log + LogText(EventRecords(phase, isIp, events)), s.failed)
  {
    hide Appended, AppendTo, EventRecord, LineOf;
    if events == [] {
      assert s.log + "" == s.log;
    } else {
      var m := |events| - 1;
      var front := EventRecords(phase, isIp, events[..m]);
      var last := EventRecord(phase, isIp, events[m]);
      var before := HandleAll(s, phase, isIp, events[..m], ios);
      SmoothEvents(s, phase, isIp, events[..m], ios);
      SmoothAppendTo(before, last, ios(m));
      assert EventRecords(phase, isIp, events) == front + [last];
      LogTextAppend(front, [last]);
      LogTextOne(last);
      assert s.log + LogText(front) + LineOf(last) == s.log + (LogText(front) + LineOf(last));
    }
  }

  lemma LogTextOne(d: J.Doc)
    ensures LogText([d]) == LineOf(d)
  {
    assert [d][1..] == [];
  }

  /** The texts of the records followed by the empty text after the last line feed. */
  function Texts(records: seq<J.Doc>): seq<string> {
    if records == [] then [""] else [J.Print(records[0])] + Texts(records[1..])
  }

  lemma PrintHasNoLineFeed(d: J.Doc)
    ensures '\n' !in J.Print(d)
  {
    JsonRoundTrip.PrintPrintable(d);
    hide J.Print;
    assert forall i :: 0 <= i < |J.Print(d)| ==> ' ' <= J.Print(d)[i];
  }

  /** A log splits on line feeds into exactly its records, in order. */
  lemma {:induction false} LogSplits(records: seq<J.Doc>)
    ensures Split(LogText(records), '\n') == Texts(records)
  {
    if records != [] {
      hide Split, J.Print;
      var t := J.Print(records[0]);
      PrintHasNoLineFeed(records[0]);
      LogSplits(records[1..]);
      SplitHead(t, LogText(records[1..]), '\n');
      assert LogText(records) == t + ['\n'] + LogText(records[1..]);
    }
  }

  lemma {:induction false} TextsParse(records: seq<J.Doc>, i: nat)
    requires i < |records|
    ensures |Texts(records)| == |records| + 1 && J.Parse(Texts(records)[i]) == Some(records[i])
  {
    hide J.Print, J.Parse;
    if i == 0 {
      JsonRoundTrip.ParsePrint(records[0], "");
      assert J.Print(records[0]) + "" == J.Print(records[0]);
      if |records| > 1 { TextsParse(records[1..], 0); }
    } else {
      TextsParse(records[1..], i - 1);
    }
  }

  /** A whole run without I/O error: whatever the short writes, the log is the
      records of the events and of the statistics, in order, one line each, and
      each line reads back as its record. */
  lemma SmoothRun(phase: string, isIp: string -> bool, events: seq<Event>, summaries: map<string, Summary>,
                  processed: set<string>, ios: nat -> Io, stats: nat -> Io)
    requires (forall i :: Smooth(ios(i))) && forall i :: Smooth(stats(i))
    ensures var all := EventRecords(phase, isIp, events) + StatsRecords(phase, isIp, summaries, Sorted(processed));
            var before := HandleAll(Sink("", false), phase, isIp, events, ios);
            var end := StatsTo(before, Some(phase), isIp, summaries, processed, stats);
            && end == Sink(LogText(all), false)
            && Split(end.log, '\n') == Texts(all)
            && forall i :: 0 <= i < |all| ==> |Texts(all)| == |all| + 1 && J.Parse(Texts(all)[i]) == Some(all[i])
  {
    hide Split, J.Parse, EventRecord, StatsRecords, Sorted;
    var a := EventRecords(phase, isIp, events);
    var b := StatsRecords(phase, isIp, summaries, Sorted(processed));
    var start := Sink("", false);
    SmoothEvents(start, phase, isIp, events, ios);
    var s := HandleAll(start, phase, isIp, events, ios);
    assert s == Sink(LogText(a), false);
    SmoothAppendAll(s, b, stats, 0);
    LogTextAppend(a, b);
    LogSplits(a + b);
    forall i | 0 <= i < |a + b| ensures |Texts(a + b)| == |a + b| + 1 && J.Parse(Texts(a + b)[i]) == Some((a + b)[i]) {
      TextsParse(a + b, i);
    }
  }

  lemma {:induction false} FailureSticks(s: Sink, phase: string, isIp: string -> bool, events: seq<Event>,
                                         ios: nat -> Io, i: nat)
    requires i < |events| && !Appended(ios(i), EventRecord(phase, isIp, events[i])).1
    ensures HandleAll(s, phase, isIp, events, ios).failed
  {
    hide Appended, EventRecord;
    var m := |events| - 1;
    if i < m {
      FailureSticks(s, phase, isIp, events[..m], ios, i);
    }
  }

  /** Any append failure before the statistics: they add no recap, at most one
      error record, possibly cut short. */
  lemma FailureMeansNoRecap(phase: string, isIp: string -> bool, events: seq<Event>, i: nat,
                            summaries: map<string, Summary>, processed: set<string>, ios: nat -> Io, stats: nat -> Io)
    requires i < |events| && !Appended(ios(i), EventRecord(phase, isIp, events[i])).1
    ensures var s := HandleAll(Sink("", false), phase, isIp, events, ios);
            var end := StatsTo(s, Some(phase), isIp, summaries, processed, stats);
            && end.failed
            && exists n :: 0 <= n <= |LineOf(ErrorRecord(phase))| && end.log == s.log + LineOf(ErrorRecord(phase))[..n]
  {
    FailureSticks(Sink("", false), phase, isIp, events, ios, i);
    var io := stats(0);
    var line := LineOf(ErrorRecord(phase));
    if io.Writes? {
      WrittenPrefix(io.schedule, 0, line);
      var w := Appended(io, ErrorRecord(phase)).0;
      assert w == line[..|w|];
    } else {
      assert line[..0] == "";
    }
  }

  lemma BadHostRecord(phase: string, isIp: string -> bool, summaries: map<string, Summary>, host: string)
    ensures !GoodHost(isIp, summaries, host) ==> HostRecord(phase, isIp, summaries, host) == ErrorRecord(phase)
  {
  }

  lemma StatsUnfold(phase: string, isIp: string -> bool, summaries: map<string, Summary>, hosts: seq<string>)
    ensures StatsRecords(phase, isIp, summaries, hosts) ==
            if hosts == [] then []
            else [HostRecord(phase, isIp, summaries, hosts[0])] +
                 (if GoodHost(isIp, summaries, hosts[0]) then StatsRecords(phase, isIp, summaries, hosts[1..]) else [])
  {
  }

  /** The first bad host ends the recaps: exactly its sorted predecessors are
      recapped, then comes one error. */
  lemma {:induction false} BadHostEndsRecaps(phase: string, isIp: string -> bool, summaries: map<string, Summary>,
                                             hosts: seq<string>, n: nat)
    requires n <= |hosts| && forall i :: 0 <= i < n ==> GoodHost(isIp, summaries, hosts[i])
    ensures var records := StatsRecords(phase, isIp, summaries, hosts);
            && |records| >= n
            && (forall i :: 0 <= i < n ==> records[i] == HostRecord(phase, isIp, summaries, hosts[i]))
            && (n < |hosts| && !GoodHost(isIp, summaries, hosts[n]) ==>
                  |records| == n + 1 && records[n] == ErrorRecord(phase))
            && (n == |hosts| ==> |records| == n)
  {
    hide GoodHost, HostRecord, ErrorRecord, StatsRecords;
    StatsUnfold(phase, isIp, summaries, hosts);
    if n == 0 {
      if hosts != [] { BadHostRecord(phase, isIp, summaries, hosts[0]); }
    } else {
      var rest := hosts[1..];
      BadHostEndsRecaps(phase, isIp, summaries, rest, n - 1);
      var records, tail := StatsRecords(phase, isIp, summaries, hosts), StatsRecords(phase, isIp, summaries, rest);
      assert records == [HostRecord(phase, isIp, summaries, hosts[0])] + tail;
      forall i | 0 <= i < n ensures records[i] == HostRecord(phase, isIp, summaries, hosts[i]) {
        if i > 0 { assert records[i] == tail[i - 1] && rest[i - 1] == hosts[i]; }
      }
    }
  }

  // ---------------------------------------------- what the lines hold

  /** One more member: a new key adds its value to the parsed dictionary. */
  lemma MoreMembers(ms: seq<J.Member>, m: map<string, C.Value>, x: J.Member, v: C.Value)
    requires C.FromDoc(J.Obj(ms)) == Some(C.Dict(m)) && x.key !in m && C.FromDoc(x.value) == Some(v)
    ensures C.FromDoc(J.Obj(ms + [x])) == Some(C.Dict(m[x.key := v]))
  {
    MembersSnoc(ms, x);
    var items := C.FromMembers(ms).value;
    var all := items + [(x.key, v)];
    assert all[..|items|] == items && C.FromMembers(ms + [x]) == Some(all);
    hide C.FromMembers;
  }

  lemma {:induction false} MembersSnoc(ms: seq<J.Member>, x: J.Member)
    requires C.FromMembers(ms).Some? && C.FromDoc(x.value).Some?
    ensures C.FromMembers(ms + [x]) == Some(C.FromMembers(ms).value + [(x.key, C.FromDoc(x.value).value)])
  {
    hide C.FromDoc;
    if ms == [] {
      assert ms + [x] == [x] && [x][1..] == [];
      assert C.FromMembers([]) == Some([]);
      assert C.FromMembers([x]) == Some([(x.key, C.FromDoc(x.value).value)] + []);
      assert [(x.key, C.FromDoc(x.value).value)] + [] == [] + [(x.key, C.FromDoc(x.value).value)];
    } else {
      assert (ms + [x])[1..] == ms[1..] + [x];
      MembersSnoc(ms[1..], x);
      var first, rest := (ms[0].key, C.FromDoc(ms[0].value).value), C.FromMembers(ms[1..]).value;
      var last := (x.key, C.FromDoc(x.value).value);
      assert [first] + (rest + [last]) == ([first] + rest) + [last];
    }
  }

  lemma NoMembers()
    ensures C.FromDoc(J.Obj([])) == Some(C.Dict(map[]))
  {
  }

  /** A log line parses to the value of its record. */
  lemma LineValue(record: J.Doc)
    ensures C.Loads(LineOf(record)) == C.FromDoc(record)
  {
    hide J.Print, J.Parse, C.FromDoc;
    JsonRoundTrip.ParsePrint(record, "\n");
  }

  function Head(kind: string, phase: string): map<string, C.Value> {
    map["schema" := C.Int(1), "kind" := C.Str(kind), "phase" := C.Str(phase)]
  }

  function HeadMembers(kind: string, phase: string): seq<J.Member> {
    [J.Member("schema", J.Int(1)), StrMember("kind", kind), StrMember("phase", phase)]
  }

  lemma HeadValue(kind: string, phase: string)
    ensures C.FromDoc(J.Obj(HeadMembers(kind, phase))) == Some(C.Dict(Head(kind, phase)))
  {
    NoMembers();
    MoreMembers([], map[], J.Member("schema", J.Int(1)), C.Int(1));
    var one := [J.Member("schema", J.Int(1))];
    assert [] + one == one;
    MoreMembers(one, map["schema" := C.Int(1)], StrMember("kind", kind), C.Str(kind));
    var two := [J.Member("schema", J.Int(1)), StrMember("kind", kind)];
    assert one + [StrMember("kind", kind)] == two;
    MoreMembers(two, map["schema" := C.Int(1), "kind" := C.Str(kind)], StrMember("phase", phase), C.Str(phase));
    assert two + [StrMember("phase", phase)] == HeadMembers(kind, phase);
  }

  /** An error line holds the schema, its kind and the phase, and nothing else. */
  lemma ErrorLine(phase: string)
    ensures C.Loads(LineOf(ErrorRecord(phase))) ==
            Some(C.Dict(map["schema" := C.Int(1), "kind" := C.Str("error"), "phase" := C.Str(phase)]))
  {
    LineValue(ErrorRecord(phase));
    HeadValue("error", phase);
    hide C.Loads, C.FromDoc;
  }

  function TaskFields(phase: string, host: string, outcome: string, task: string): map<string, C.Value> {
    map["schema" := C.Int(1), "kind" := C.Str("task"), "phase" := C.Str(phase), "host" := C.Str(host),
        "outcome" := C.Str(outcome), "task" := C.Str(task)]
  }

  lemma TaskLine(phase: string, host: string, outcome: string, task: string)
    ensures C.Loads(LineOf(TaskRecord(phase, host, outcome, task))) ==
            Some(C.Dict(TaskFields(phase, host, outcome, task)))
  {
    LineValue(TaskRecord(phase, host, outcome, task));
    HeadValue("task", phase);
    StringValue(host);
    StringValue(outcome);
    StringValue(task);
    hide C.Loads, C.FromDoc;
    var a, b, c := StrMember("host", host), StrMember("outcome", outcome), StrMember("task", task);
    var h, m := HeadMembers("task", phase), Head("task", phase);
    MoreMembers(h, m, a, C.Str(host));
    MoreMembers(h + [a], m["host" := C.Str(host)], b, C.Str(outcome));
    MoreMembers(h + [a] + [b], m["host" := C.Str(host)]["outcome" := C.Str(outcome)], c, C.Str(task));
    assert TaskRecord(phase, host, outcome, task) == J.Obj(h + [a] + [b] + [c]);
  }

  lemma StringValue(s: string)
    ensures C.FromDoc(J.Str(s)) == Some(C.Str(s))
  {
  }

  /** 1 to maximum characters with codes 32 to 126. */
  predicate Printable(s: string, maximum: nat) {
    1 <= |s| <= maximum && forall i :: 0 <= i < |s| ==> 32 <= s[i] as int <= 126
  }

  /** What a task event adds: its fields, or an error if host or task name is not
      printable or the host is an IP address. */
  lemma EventLine(phase: string, isIp: string -> bool, e: Event)
    ensures C.Loads(LineOf(EventRecord(phase, isIp, e))) ==
            if Printable(e.host, 255) && !isIp(e.host) && Printable(e.task, 255) then
              Some(C.Dict(TaskFields(phase, e.host, e.outcome, e.task)))
            else Some(C.Dict(map["schema" := C.Int(1), "kind" := C.Str("error"), "phase" := C.Str(phase)]))
  {
    TaskLine(phase, e.host, e.outcome, e.task);
    ErrorLine(phase);
    PrintableExactly(e.host, 255);
    PrintableExactly(e.task, 255);
    hide TaskRecord, ErrorRecord, LineOf, C.Loads, TaskFields, SafeText, Printable;
  }

  lemma PrintableExactly(s: string, maximum: nat)
    ensures SafeText(s, maximum) <==> Printable(s, maximum)
  {
  }

  /** The value a recap shows for a counter: zero when it is missing. */
  function Shown(s: Summary, counter: string): int {
    if counter in s && s[counter].Some? then s[counter].value else 0
  }

  const COUNTER_NAMES: set<string> :=
    {"ok", "changed", "failures", "unreachable", "skipped", "rescued", "ignored"}

  /** The seven counters with the values shown. */
  function CounterFields(s: Summary): map<string, C.Value> {
    map k | k in COUNTER_NAMES :: C.Int(Shown(s, k))
  }

  lemma CounterNames()
    ensures (set i | 0 <= i < 7 :: COUNTERS[i]) == COUNTER_NAMES && |COUNTERS| == 7
  {
    var names := set i | 0 <= i < 7 :: COUNTERS[i];
    assert COUNTERS[0] == "ok" && COUNTERS[1] == "changed" && COUNTERS[2] == "failures" && COUNTERS[3] == "unreachable";
    assert COUNTERS[4] == "skipped" && COUNTERS[5] == "rescued" && COUNTERS[6] == "ignored";
    assert names <= COUNTER_NAMES;
    assert forall k :: k in COUNTER_NAMES ==> k in names;
  }

  function RecapFields(phase: string, host: string, s: Summary): map<string, C.Value> {
    map["schema" := C.Int(1), "kind" := C.Str("recap"), "phase" := C.Str(phase), "host" := C.Str(host),
        "counters" := C.Dict(CounterFields(s))]
  }

  function CounterMembers(s: Summary): seq<J.Member>
    requires ValidSummary(s)
  {
    seq(|COUNTERS|, i requires 0 <= i < |COUNTERS| => J.Member(COUNTERS[i], J.Int(Count(s, COUNTERS[i]).value)))
  }

  lemma IntegerValue(n: int)
    ensures C.FromDoc(J.Int(n)) == Some(C.Int(n))
  {
  }

  /** The first n counters, parsed. */
  lemma {:induction false} CounterPrefix(s: Summary, n: nat) returns (m: map<string, C.Value>)
    requires ValidSummary(s) && n <= |COUNTERS|
    ensures C.FromDoc(J.Obj(CounterMembers(s)[..n])) == Some(C.Dict(m))
    ensures m.Keys == set i | 0 <= i < n :: COUNTERS[i]
    ensures forall i :: 0 <= i < n ==> m[COUNTERS[i]] == C.Int(Shown(s, COUNTERS[i]))
  {
    hide C.FromDoc;
    if n == 0 {
      m := map[];
      NoMembers();
      assert CounterMembers(s)[..0] == [];
    } else {
      var before := CounterPrefix(s, n - 1);
      var x := CounterMembers(s)[n - 1];
      CountersDistinct(n - 1);
      IntegerValue(Shown(s, COUNTERS[n - 1]));
      assert x == J.Member(COUNTERS[n - 1], J.Int(Shown(s, COUNTERS[n - 1])));
      hide COUNTERS;
      MoreMembers(CounterMembers(s)[..n - 1], before, x, C.Int(Shown(s, COUNTERS[n - 1])));
      assert CounterMembers(s)[..n] == CounterMembers(s)[..n - 1] + [x];
      m := before[COUNTERS[n - 1] := C.Int(Shown(s, COUNTERS[n - 1]))];
    }
  }

  lemma CountersDistinct(n: nat)
    requires n < |COUNTERS|
    ensures forall i :: 0 <= i < n ==> COUNTERS[i] != COUNTERS[n]
  {
    assert COUNTERS[0][0] == 'o' && COUNTERS[1][0] == 'c' && COUNTERS[2][0] == 'f' && COUNTERS[3][0] == 'u';
    assert COUNTERS[4][0] == 's' && COUNTERS[5][0] == 'r' && COUNTERS[6][0] == 'i';
  }

  lemma CounterValue(s: Summary)
    requires ValidSummary(s)
    ensures C.FromDoc(J.Obj(CounterMembers(s))) == Some(C.Dict(CounterFields(s)))
  {
    CounterNames();
    hide COUNTERS, COUNTER_NAMES, C.FromDoc, Shown;
    var m := CounterPrefix(s, 7);
    assert CounterMembers(s)[..7] == CounterMembers(s);
    assert m.Keys == CounterFields(s).Keys;
    forall k | k in m ensures m[k] == CounterFields(s)[k] {
      var i :| 0 <= i < 7 && COUNTERS[i] == k;
    }
    assert m == CounterFields(s);
  }

  lemma RecapLine(phase: string, host: string, s: Summary)
    requires ValidSummary(s)
    ensures C.Loads(LineOf(RecapRecord(phase, host, s))) == Some(C.Dict(RecapFields(phase, host, s)))
  {
    LineValue(RecapRecord(phase, host, s));
    CounterValue(s);
    HeadValue("recap", phase);
    StringValue(host);
    var counters := J.Obj(CounterMembers(s));
    assert RecapRecord(phase, host, s) ==
           J.Obj([J.Member("schema", J.Int(1)), StrMember("kind", "recap"), StrMember("phase", phase),
                  StrMember("host", host), J.Member("counters", counters)]);
    hide C.Loads, C.FromDoc, CounterMembers, CounterFields, RecapRecord, LineOf, ValidSummary;
    var a, b := StrMember("host", host), J.Member("counters", counters);
    var h, m := HeadMembers("recap", phase), Head("recap", phase);
    MoreMembers(h, m, a, C.Str(host));
    MoreMembers(h + [a], m["host" := C.Str(host)], b, C.Dict(CounterFields(s)));
    assert RecapRecord(phase, host, s) == J.Obj(h + [a] + [b]);
  }

  /** The counter is missing or a natural number. */
  predicate CounterFine(s: Summary, counter: string) {
    counter !in s || (s[counter].Some? && s[counter].value >= 0)
  }

  predicate CountersFine(s: Summary) {
    && CounterFine(s, "ok") && CounterFine(s, "changed") && CounterFine(s, "failures") && CounterFine(s, "unreachable")
    && CounterFine(s, "skipped") && CounterFine(s, "rescued") && CounterFine(s, "ignored")
  }

  lemma SummaryExactly(s: Summary)
    ensures ValidSummary(s) <==> CountersFine(s)
  {
    assert COUNTERS[0] == "ok" && COUNTERS[1] == "changed" && COUNTERS[2] == "failures" && COUNTERS[3] == "unreachable";
    assert COUNTERS[4] == "skipped" && COUNTERS[5] == "rescued" && COUNTERS[6] == "ignored";
  }

  /** What the statistics add for a host: a recap with its seven counters, or an
      error if its name or a counter is not fine. */
  lemma HostLine(phase: string, isIp: string -> bool, summaries: map<string, Summary>, host: string)
    ensures var s := if host in summaries then summaries[host] else map[];
            C.Loads(LineOf(HostRecord(phase, isIp, summaries, host))) ==
            if Printable(host, 255) && !isIp(host) && CountersFine(s) then Some(C.Dict(RecapFields(phase, host, s)))
            else Some(C.Dict(map["schema" := C.Int(1), "kind" := C.Str("error"), "phase" := C.Str(phase)]))
  {
    var s := SummaryOf(summaries, host);
    ErrorLine(phase);
    PrintableExactly(host, 255);
    SummaryExactly(s);
    hide RecapRecord, ErrorRecord, LineOf, C.Loads, RecapFields, SafeText, Printable, ValidSummary, CountersFine;
    if GoodHost(isIp, summaries, host) {
      RecapLine(phase, host, s);
    }
  }
}
