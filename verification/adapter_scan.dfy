/** The scan of the `megacli -LDInfo -Lall` output (`check_adapter`).

    Each line goes through two independent `if`s: a line starting with `Adapter`
    makes its second space-separated word the current adapter and resets the
    record under the fixed key `"0"`; a line starting with `State` classifies
    the state (0 when the line mentions `Optimal`, 1 otherwise), stores it in
    the record of the current adapter and emits a gauge at once. Because the
    reset always uses the key `"0"`, a `State` line only finds a record when the
    current adapter is literally `"0"`; under any other header the lookup
    raises `KeyError` and the scan stops, keeping the gauges already emitted.
 */
module AdapterScan {
  import opened Results
  import opened Text
  import opened Metrics

  /** The two-way classification of a `State` line. */
  datatype Health = Optimal | Degraded {
    /** The value the status gauge reports. */
    function Code(): int {
      if Optimal? then 0 else 1
    }
  }

  /** `adapters[id]`: a dictionary that only ever receives a `'state'` key. */
  datatype AdapterRecord = AdapterRecord(state: Option<Health>)

  /** The only key an adapter header ever (re)creates. */
  const PinnedKey: string := "0"

  /** The loop's variables: `current_adapter`, `adapters`, and the gauges
      emitted so far. */
  datatype LdScan = LdScan(current: Option<string>, adapters: map<string, AdapterRecord>, emitted: seq<Gauge>)

  const Start: LdScan := LdScan(None, map[], [])

  /** Where the loop stands: still running, or stopped by an exception after
      emitting `emitted`. */
  datatype LdRun = Running(scan: LdScan) | Aborted(emitted: seq<Gauge>, error: ScanError) {
    function Emitted(): seq<Gauge> {
      if Running? then scan.emitted else emitted
    }
  }

  predicate IsHeader(line: string) {
    StartsWith(line, "Adapter")
  }

  predicate IsStateLine(line: string) {
    StartsWith(line, "State")
  }

  function Classify(line: string): Health {
    if Contains(line, "Optimal") then Optimal else Degraded
  }

  /** The header test of one line. */
  function ReadHeader(st: LdScan, line: string): Result<LdScan> {
    if !IsHeader(line) then Success(st)
    else
      var id :- Token(line, ' ', 1);
      Success(st.(current := Some(id), adapters := st.adapters[PinnedKey := AdapterRecord(None)]))
  }

  /** The state test of one line, with the gauge it emits. */
  function ReadState(host: string, st: LdScan, line: string): Result<LdScan> {
    if !IsStateLine(line) then Success(st)
    else if st.current.None? || st.current.value !in st.adapters then Failure(KeyError)
    else
      var id := st.current.value;
      var health := Classify(line);
      Success(st.(adapters := st.adapters[id := AdapterRecord(Some(health))],
                  emitted := st.emitted + [Gauge(AdapterStatus, health.Code(), AdapterDevice(host, id))]))
  }

  /** One iteration of the loop body. It fails exactly when a header has no
      second word (`IndexError`) or a `State` line finds no record for the
      current adapter (`KeyError`). When it goes through, it appends one gauge
      for a `State` line and none otherwise, and it never creates a record
      under a key other than `"0"`. */
  function Step(host: string, st: LdScan, line: string): (r: Result<LdScan>)
    ensures r.Failure? <==>
              || (IsHeader(line) && |Split(line, ' ')| < 2)
              || (IsStateLine(line) && (st.current.None? || st.current.value !in st.adapters))
    ensures r.Failure? ==> r.error == RejectionError(line)
    ensures r.Success? ==>
              && |r.value.emitted| == |st.emitted| + (if IsStateLine(line) then 1 else 0)
              && r.value.emitted[..|st.emitted|] == st.emitted
              && r.value.adapters.Keys <= st.adapters.Keys + {PinnedKey}
  {
    HeaderIsNotStateLine(line);
    var st1 :- ReadHeader(st, line);
    ReadState(host, st1, line)
  }

  /** The exception a rejected line raises: a header fails at
      `line.split(' ')[1]`, a `State` line at `adapters[current_adapter]`. */
  function RejectionError(line: string): ScanError {
    if IsHeader(line) then IndexError else KeyError
  }

  /** The loop over `lines`: all lines but the last, then the last one. At
      most one gauge is emitted per line, and the only record key is `"0"`. */
  function Run(host: string, lines: seq<string>): (r: LdRun)
    ensures |r.Emitted()| <= |lines|
    ensures r.Running? ==> r.scan.adapters.Keys <= {PinnedKey}
    decreases |lines|
  {
    if |lines| == 0 then Running(Start)
    else
      match Run(host, lines[..|lines| - 1])
      case Aborted(e, err) => Aborted(e, err)
      case Running(st) =>
        match Step(host, st, lines[|lines| - 1])
        case Success(st') => Running(st')
        case Failure(err) => Aborted(st.emitted, err)
  }

  /** `check_adapter` after the command has run: nothing is scanned, emitted
      or raised when the command failed. */
  function CheckAdapter(host: string, output: string, exitCode: int): (r: LdRun)
    ensures exitCode != 0 ==> r == Running(Start)
    ensures exitCode == 0 ==>
              var lines := Split(output, '\n');
              && (r.Running? <==> AllAccepted(lines))
              && (r.Running? ==> r.scan.emitted == StatusGauges(host, lines))
              && |r.Emitted()| <= |StatusGauges(host, lines)|
              && r.Emitted() == StatusGauges(host, lines)[..|r.Emitted()|]
              && (r.Aborted? ==>
                    exists k :: 0 <= k < |lines|
                                && AllAccepted(lines[..k])
                                && !Accepted(lines[..k], lines[k])
                                && r.error == RejectionError(lines[k]))
  {
    var lines := Split(output, '\n');
    if exitCode != 0 then Running(Start)
    else
      RunInvariant(host, lines);
      EmittedArePrefix(host, lines);
      var r := Run(host, lines);
      if r.Aborted? then AbortedAtFirstRejectedLine(host, lines); r else r
  }

  // ---------------------------------------------------------------------------
  // Reference description of the scan
  // ---------------------------------------------------------------------------

  /** One status gauge per `State` line, in input order, always for device
      `<host>:megaraid/0`, valued 0 exactly when the line mentions `Optimal`. */
  function StatusGauges(host: string, lines: seq<string>): seq<Gauge>
    decreases |lines|
  {
    if |lines| == 0 then []
    else
      var line := lines[|lines| - 1];
      StatusGauges(host, lines[..|lines| - 1])
        + (if IsStateLine(line)
           then [Gauge(AdapterStatus, if Contains(line, "Optimal") then 0 else 1, AdapterDevice(host, PinnedKey))]
           else [])
  }

  /** The second word of the last `Adapter` line, if there is one. */
  function LastHeaderId(lines: seq<string>): Option<string>
    decreases |lines|
  {
    if |lines| == 0 then None
    else
      var line := lines[|lines| - 1];
      if IsHeader(line) then
        (match Token(line, ' ', 1) case Success(id) => Some(id) case Failure(_) => None)
      else LastHeaderId(lines[..|lines| - 1])
  }

  /** A line the scan gets past, given the lines before it: a header must
      have a second word, and a `State` line needs the last header to have
      named adapter `"0"`. */
  predicate Accepted(before: seq<string>, line: string) {
    && (IsHeader(line) ==> |Split(line, ' ')| >= 2)
    && (IsStateLine(line) ==> LastHeaderId(before) == Some(PinnedKey))
  }

  predicate AllAccepted(lines: seq<string>) {
    forall i :: 0 <= i < |lines| ==> Accepted(lines[..i], lines[i])
  }

  // ---------------------------------------------------------------------------
  // Properties
  // ---------------------------------------------------------------------------

  lemma HeaderIsNotStateLine(line: string)
    ensures !(IsHeader(line) && IsStateLine(line))
  {
    PrefixesExclusive(line, "Adapter", "State", 0);
  }

  lemma AllAcceptedSnoc(lines: seq<string>)
    requires |lines| > 0
    ensures AllAccepted(lines) <==>
              AllAccepted(lines[..|lines| - 1]) && Accepted(lines[..|lines| - 1], lines[|lines| - 1])
  {
    var pre := lines[..|lines| - 1];
    forall i | 0 <= i < |pre|
      ensures pre[..i] == lines[..i] && pre[i] == lines[i]
    {
    }
  }

  /** The scan runs to the end exactly when every line is accepted; then the
      current adapter is the last header's id, the only record key is `"0"`,
      and the gauges emitted are exactly `StatusGauges`. */
  lemma {:induction false} RunInvariant(host: string, lines: seq<string>)
    ensures Run(host, lines).Running? <==> AllAccepted(lines)
    ensures Run(host, lines).Running? ==>
              var st := Run(host, lines).scan;
              && st.current == LastHeaderId(lines)
              && st.adapters.Keys <= {PinnedKey}
              && (st.current.Some? ==> PinnedKey in st.adapters)
              && st.emitted == StatusGauges(host, lines)
    decreases |lines|
  {
    if |lines| > 0 {
      var pre, line := lines[..|lines| - 1], lines[|lines| - 1];
      RunInvariant(host, pre);
      AllAcceptedSnoc(lines);
      HeaderIsNotStateLine(line);
      match Run(host, pre)
      case Aborted(_, _) =>
      case Running(st) =>
        if IsHeader(line) {
          match Token(line, ' ', 1)
          case Failure(_) =>
          case Success(id) =>
            assert ReadHeader(st, line).Success?;
        }
    }
  }

  /** When the scan stops, it stops at the first line it does not accept,
      with the exception that line raises, and it has emitted the gauges of
      exactly the lines before that one. */
  lemma {:induction false} AbortedAtFirstRejectedLine(host: string, lines: seq<string>)
    requires Run(host, lines).Aborted?
    ensures exists k :: 0 <= k < |lines|
                          && AllAccepted(lines[..k])
                          && !Accepted(lines[..k], lines[k])
                          && Run(host, lines).error == RejectionError(lines[k])
                          && Run(host, lines).emitted == StatusGauges(host, lines[..k])
    decreases |lines|
  {
    var pre, line := lines[..|lines| - 1], lines[|lines| - 1];
    match Run(host, pre)
    case Aborted(_, _) =>
      AbortedAtFirstRejectedLine(host, pre);
      var k :| 0 <= k < |pre| && AllAccepted(pre[..k]) && !Accepted(pre[..k], pre[k])
                && Run(host, pre).error == RejectionError(pre[k])
                && Run(host, pre).emitted == StatusGauges(host, pre[..k]);
      assert pre[..k] == lines[..k] && pre[k] == lines[k];
    case Running(st) =>
      RunInvariant(host, pre);
      RunInvariant(host, lines);
      AllAcceptedSnoc(lines);
      assert pre == lines[..|lines| - 1];
  }

  /** Whatever happens, the gauges emitted are a prefix of `StatusGauges`. */
  lemma EmittedArePrefix(host: string, lines: seq<string>)
    ensures |Run(host, lines).Emitted()| <= |StatusGauges(host, lines)|
    ensures Run(host, lines).Emitted() == StatusGauges(host, lines)[..|Run(host, lines).Emitted()|]
  {
    RunInvariant(host, lines);
    if Run(host, lines).Aborted? {
      AbortedAtFirstRejectedLine(host, lines);
      var k :| 0 <= k < |lines| && AllAccepted(lines[..k]) && !Accepted(lines[..k], lines[k])
                && Run(host, lines).emitted == StatusGauges(host, lines[..k]);
      StatusGaugesPrefix(host, lines, k);
    }
  }

  lemma {:induction false} StatusGaugesPrefix(host: string, lines: seq<string>, k: nat)
    requires k <= |lines|
    ensures |StatusGauges(host, lines[..k])| <= |StatusGauges(host, lines)|
    ensures StatusGauges(host, lines[..k]) == StatusGauges(host, lines)[..|StatusGauges(host, lines[..k])|]
    decreases |lines|
  {
    if k < |lines| {
      var pre := lines[..|lines| - 1];
      assert lines[..k] == pre[..k];
      StatusGaugesPrefix(host, pre, k);
    } else {
      assert lines[..k] == lines;
    }
  }

  /** A header naming any adapter other than `"0"` (including `"0:"`) makes
      the next `State` line raise `KeyError`: no gauge for it, the scan stops. */
  lemma OtherAdapterStateFails(host: string, lines: seq<string>, header: string, state: string)
    requires Run(host, lines).Running?
    requires IsHeader(header) && Token(header, ' ', 1).Success?
    requires Token(header, ' ', 1).value != PinnedKey
    requires IsStateLine(state)
    ensures Run(host, lines + [header, state]) == Aborted(Run(host, lines).scan.emitted, KeyError)
  {
    var all := lines + [header, state];
    assert all[..|all| - 1] == lines + [header];
    assert (lines + [header])[..|lines|] == lines;
    RunInvariant(host, lines);
    HeaderIsNotStateLine(header);
    HeaderIsNotStateLine(state);
  }

  /** After a header naming adapter `"0"`, a `State` line emits exactly one
      gauge for `<host>:megaraid/0`, valued 0 iff the line mentions `Optimal`. */
  lemma PinnedAdapterStateEmits(host: string, lines: seq<string>, header: string, state: string)
    requires Run(host, lines).Running?
    requires IsHeader(header) && Token(header, ' ', 1) == Success(PinnedKey)
    requires IsStateLine(state)
    ensures Run(host, lines + [header, state]).Running?
    ensures Run(host, lines + [header, state]).scan.emitted
              == Run(host, lines).scan.emitted
                 + [Gauge(AdapterStatus, if Contains(state, "Optimal") then 0 else 1, AdapterDevice(host, PinnedKey))]
  {
    var all := lines + [header, state];
    assert all[..|all| - 1] == lines + [header];
    assert (lines + [header])[..|lines|] == lines;
    HeaderIsNotStateLine(header);
    HeaderIsNotStateLine(state);
  }
}
