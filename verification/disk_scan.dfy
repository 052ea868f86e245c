/** The scan of the `megacli -pdlist` output (`check_disks`, its first loop).

    The loop keeps a nested context. A line starting with `Adapter #` takes
    the text between its first and second `#` (or the end of the line) as
    the current adapter and replaces that adapter's disk map with an empty
    one. A line starting with `Device Id:` takes its third space-separated
    word as the current disk and replaces that disk's record, under the
    current adapter, with an empty one. A field line
    (see `DiskFields`) stores one value in the record of the current disk of
    the current adapter. Every lookup that misses raises `KeyError`, and every
    exception stops the whole scan: no disk gauge is emitted at all then.
 */
module DiskScan {
  import opened Results
  import opened Text
  import opened DiskFields

  /** The fields read so far for one disk; a field never read is absent. */
  type Record = map<Field, int>

  /** `disks`: adapter id to disk id to record. */
  type Disks = map<string, map<string, Record>>

  /** The loop's variables: `adapter`, `current_disk` and `disks`.
      Before the first section header `adapter` holds the adapter selector of
      the check's configuration; `disks` is empty then, so every lookup with it
      misses, exactly as with `None`. */
  datatype PdScan = PdScan(adapter: Option<string>, disk: Option<string>, disks: Disks)

  const Start: PdScan := PdScan(None, None, map[])

  predicate IsSection(line: string) {
    StartsWith(line, "Adapter #")
  }

  predicate IsDevice(line: string) {
    StartsWith(line, "Device Id:")
  }

  /** The current adapter and the current disk both name existing entries. */
  predicate RecordOpen(st: PdScan) {
    && st.adapter.Some? && st.adapter.value in st.disks
    && st.disk.Some? && st.disk.value in st.disks[st.adapter.value]
  }

  /** `adapter = line.split('#')[1]; disks[adapter] = dict()`. It fails,
      with `IndexError`, exactly when the line holds no `#`. Otherwise the
      adapter id is that second piece, so it holds no `#`; its disk map is
      empty (disks read before under the same id are gone), and the other
      adapters are kept. */
  function OpenSection(st: PdScan, line: string): (r: Result<PdScan>)
    ensures r.Success? <==> '#' in line
    ensures r.Failure? ==> r.error == IndexError
    ensures r.Success? ==>
              && r.value.adapter.Some? && Token(line, '#', 1) == Success(r.value.adapter.value)
              && '#' !in r.value.adapter.value
              && r.value.disk == st.disk
              && r.value.disks.Keys == st.disks.Keys + {r.value.adapter.value}
              && r.value.disks[r.value.adapter.value] == map[]
  {
    SeparatorIffTwoPieces(line, '#');
    var a :- Token(line, '#', 1);
    Success(st.(adapter := Some(a), disks := st.disks[a := map[]]))
  }

  /** `current_disk = line.split(' ')[2]; disks[adapter][current_disk] = dict()`.
      The third word is taken before the lookup, so a short line raises
      `IndexError` even without an adapter; a missing adapter raises
      `KeyError`. Otherwise the new disk, named by the third word, has an
      empty record under the current adapter and the set of adapters is
      unchanged. */
  function OpenDevice(st: PdScan, line: string): (r: Result<PdScan>)
    ensures r.Success? <==> |Split(line, ' ')| >= 3 && st.adapter.Some? && st.adapter.value in st.disks
    ensures r.Failure? ==> r.error == (if |Split(line, ' ')| < 3 then IndexError else KeyError)
    ensures r.Success? ==>
              && RecordOpen(r.value) && r.value.adapter == st.adapter
              && Token(line, ' ', 2) == Success(r.value.disk.value) && ' ' !in r.value.disk.value
              && r.value.disks.Keys == st.disks.Keys
              && r.value.disks[r.value.adapter.value][r.value.disk.value] == map[]
  {
    var d :- Token(line, ' ', 2);
    if st.adapter.None? || st.adapter.value !in st.disks then Failure(KeyError)
    else
      var a := st.adapter.value;
      Success(st.(disk := Some(d), disks := st.disks[a := st.disks[a][d := map[]]]))
  }

  /** `disks[adapter][current_disk][key] = <value>`. The value is computed
      first, so its `IndexError` or `ValueError` wins over a missing record's
      `KeyError`. Otherwise the current record holds the value afterwards and
      the context is unchanged. */
  function SetField(st: PdScan, f: Field, line: string): (r: Result<PdScan>)
    ensures r.Success? <==> FieldValue(f, line).Success? && RecordOpen(st)
    ensures r.Failure? ==>
              r.error == (if FieldValue(f, line).Failure? then FieldValue(f, line).error else KeyError)
    ensures r.Success? ==>
              && RecordOpen(r.value)
              && r.value.adapter == st.adapter && r.value.disk == st.disk
              && r.value.disks.Keys == st.disks.Keys
              && f in r.value.disks[st.adapter.value][st.disk.value]
              && r.value.disks[st.adapter.value][st.disk.value][f] == FieldValue(f, line).value
  {
    var v :- FieldValue(f, line);
    if !RecordOpen(st) then Failure(KeyError)
    else
      var a, d := st.adapter.value, st.disk.value;
      Success(st.(disks := st.disks[a := st.disks[a][d := st.disks[a][d][f := v]]]))
  }

  /** The exception a rejected line raises, which depends on the line alone:
      a device line without a third word raises `IndexError`; a field line
      whose value cannot be computed raises what computing it raises; any
      other rejected line raises `KeyError` at the dictionary lookup. */
  function RejectionError(line: string): ScanError {
    if IsDevice(line) && |Split(line, ' ')| < 3 then IndexError
    else if FieldOf(line).Some? && FieldValue(FieldOf(line).value, line).Failure? then
      FieldValue(FieldOf(line).value, line).error
    else KeyError
  }

  /** One iteration of the loop body: the section test, the device test, then
      the field chain, each on the state the previous one left. A section
      header never fails, a line of no kind changes nothing, and a failing line
      raises its `RejectionError`. */
  function Step(st: PdScan, line: string): (r: Result<PdScan>)
    ensures IsSection(line) ==> r.Success?
    ensures !IsSection(line) && !IsDevice(line) && FieldOf(line).None? ==> r == Success(st)
    ensures r.Failure? ==> r.error == RejectionError(line)
  {
    LineKinds(line);
    // a section header holds a `#`, so opening its section cannot fail
    var st1 := if IsSection(line) then OpenSection(st, line).value else st;
    var st2 :- if IsDevice(line) then OpenDevice(st1, line) else Success(st1);
    match FieldOf(line)
    case None => Success(st2)
    case Some(f) => SetField(st2, f, line)
  }

  /** A loop over `lines` with body `step`, from state `st`: all lines but
      the last, then the last one; the first exception ends it. */
  function Fold(step: (PdScan, string) -> Result<PdScan>, st: PdScan, lines: seq<string>): Result<PdScan>
    decreases |lines|
  {
    if |lines| == 0 then Success(st)
    else
      var st1 :- Fold(step, st, lines[..|lines| - 1]);
      step(st1, lines[|lines| - 1])
  }

  /** The scan loop over `lines` from state `st`. When it fails, it fails
      with the `RejectionError` of one of the lines. */
  function Run(st: PdScan, lines: seq<string>): (r: Result<PdScan>)
    ensures r.Failure? ==> exists k :: 0 <= k < |lines| && r.error == RejectionError(lines[k])
  {
    FoldFailureLine(Step, st, lines);
    Fold(Step, st, lines)
  }

  /** A failed loop failed at some line, which `step` failed on after every
      line before it went through. */
  lemma {:induction false} FoldFailureLine(step: (PdScan, string) -> Result<PdScan>, st: PdScan, lines: seq<string>)
    ensures Fold(step, st, lines).Failure? ==>
              exists k :: 0 <= k < |lines|
                          && Fold(step, st, lines[..k]).Success?
                          && step(Fold(step, st, lines[..k]).value, lines[k]) == Fold(step, st, lines)
    decreases |lines|
  {
    if |lines| > 0 && Fold(step, st, lines).Failure? {
      var pre := lines[..|lines| - 1];
      FoldFailureLine(step, st, pre);
      if Fold(step, st, pre).Failure? {
        var k :| 0 <= k < |pre| && Fold(step, st, pre[..k]).Success?
                 && step(Fold(step, st, pre[..k]).value, pre[k]) == Fold(step, st, pre);
        assert pre[..k] == lines[..k] && pre[k] == lines[k];
      } else {
        assert lines[..|lines| - 1] == pre;
      }
    }
  }

  // ---------------------------------------------------------------------------
  // Reference description of when the scan goes through
  // ---------------------------------------------------------------------------

  /** Some line is a section header. */
  ghost predicate SectionSeen(lines: seq<string>) {
    exists j :: 0 <= j < |lines| && IsSection(lines[j])
  }

  /** Some device line comes after the last section header. */
  ghost predicate DeviceOpen(lines: seq<string>) {
    exists j :: 0 <= j < |lines| && IsDevice(lines[j])
                && forall m :: j < m < |lines| ==> !IsSection(lines[m])
  }

  /** A line the scan gets past, given the lines before it: a device line
      needs a third word and an earlier section header; a field line needs a
      value its rule can compute and a device line since the last header. */
  ghost predicate Accepted(before: seq<string>, line: string) {
    && (IsDevice(line) ==> |Split(line, ' ')| >= 3 && SectionSeen(before))
    && (FieldOf(line).Some? ==>
          FieldValue(FieldOf(line).value, line).Success? && DeviceOpen(before))
  }

  ghost predicate AllAccepted(lines: seq<string>) {
    forall i :: 0 <= i < |lines| ==> Accepted(lines[..i], lines[i])
  }

  // ---------------------------------------------------------------------------
  // One line
  // ---------------------------------------------------------------------------

  /** A section header always has an id: it contains a `#`. */
  lemma SectionHasId(line: string)
    requires IsSection(line)
    ensures Token(line, '#', 1).Success?
  {
    StartsWithAt(line, "Adapter #", 8);
    SeparatorIffTwoPieces(line, '#');
  }

  /** The three kinds of line exclude each other, and a header has an id. */
  lemma LineKinds(line: string)
    ensures !(IsSection(line) && IsDevice(line))
    ensures FieldOf(line).Some? ==> !IsSection(line) && !IsDevice(line)
    ensures IsSection(line) ==> '#' in line
  {
    SectionIsNotDevice(line);
    if FieldOf(line).Some? {
      FieldLineIsNoContextLine(line);
    }
    if IsSection(line) {
      StartsWithAt(line, "Adapter #", 8);
    }
  }

  lemma SectionIsNotDevice(line: string)
    ensures !(IsSection(line) && IsDevice(line))
  {
    PrefixesExclusive(line, "Adapter #", "Device Id:", 0);
  }

  /** A line does exactly one of four things: a section header opens an empty
      disk map for its adapter; a device line opens an empty record for its
      disk under the current adapter; a field line sets one field of the
      current record; any other line changes nothing. */
  lemma StepCases(st: PdScan, line: string)
    ensures IsSection(line) ==>
              && Token(line, '#', 1).Success?
              && var a := Token(line, '#', 1).value;
                 Step(st, line) == Success(PdScan(Some(a), st.disk, st.disks[a := map[]]))
    ensures IsDevice(line) ==> Step(st, line) == OpenDevice(st, line)
    ensures FieldOf(line).Some? ==> Step(st, line) == SetField(st, FieldOf(line).value, line)
    ensures !IsSection(line) && !IsDevice(line) && FieldOf(line).None? ==> Step(st, line) == Success(st)
  {
    SectionIsNotDevice(line);
    if FieldOf(line).Some? {
      FieldLineIsNoContextLine(line);
    }
    if IsSection(line) {
      SectionHasId(line);
      if FieldOf(line).Some? {
        FieldLineIsNoContextLine(line);
      }
    }
  }

  // ---------------------------------------------------------------------------
  // Many lines
  // ---------------------------------------------------------------------------

  /** Looping over `a + b` is looping over `a`, then over `b` from where
      `a` left off. */
  lemma {:induction false} FoldAppend(step: (PdScan, string) -> Result<PdScan>, st: PdScan, a: seq<string>, b: seq<string>)
    ensures Fold(step, st, a).Failure? ==> Fold(step, st, a + b) == Fold(step, st, a)
    ensures Fold(step, st, a).Success? ==> Fold(step, st, a + b) == Fold(step, Fold(step, st, a).value, b)
    decreases |b|
  {
    if |b| == 0 {
      assert a + b == a;
    } else {
      var ab := a + b;
      assert ab[..|ab| - 1] == a + b[..|b| - 1];
      assert ab[|ab| - 1] == b[|b| - 1];
      FoldAppend(step, st, a, b[..|b| - 1]);
    }
  }

  /** Scanning `a + b` is scanning `a`, then `b` from where `a` left off. */
  lemma RunAppend(st: PdScan, a: seq<string>, b: seq<string>)
    ensures Run(st, a).Failure? ==> Run(st, a + b) == Run(st, a)
    ensures Run(st, a).Success? ==> Run(st, a + b) == Run(Run(st, a).value, b)
  {
    FoldAppend(Step, st, a, b);
  }

  lemma RunOne(st: PdScan, line: string)
    ensures Run(st, [line]) == Step(st, line)
  {
    assert [line][..0] == [];
    assert Fold(Step, st, []) == Success(st);
  }

  lemma SectionSeenSnoc(lines: seq<string>)
    requires |lines| > 0
    ensures SectionSeen(lines) <==>
              SectionSeen(lines[..|lines| - 1]) || IsSection(lines[|lines| - 1])
  {
    var pre := lines[..|lines| - 1];
    if SectionSeen(pre) {
      var j :| 0 <= j < |pre| && IsSection(pre[j]);
      assert lines[j] == pre[j];
    }
    if SectionSeen(lines) {
      var j :| 0 <= j < |lines| && IsSection(lines[j]);
      if j < |pre| {
        assert pre[j] == lines[j];
      }
    }
  }

  lemma DeviceOpenSnoc(lines: seq<string>)
    requires |lines| > 0
    ensures var line := lines[|lines| - 1];
            && (IsSection(line) ==> !DeviceOpen(lines))
            && (IsDevice(line) ==> DeviceOpen(lines))
            && (!IsSection(line) && !IsDevice(line) ==>
                  (DeviceOpen(lines) <==> DeviceOpen(lines[..|lines| - 1])))
  {
    var n := |lines|;
    var pre, line := lines[..n - 1], lines[n - 1];
    SectionIsNotDevice(line);
    if IsSection(line) {
      forall j | 0 <= j < n && IsDevice(lines[j])
        ensures exists m :: j < m < n && IsSection(lines[m])
      {
        assert j < n - 1 && IsSection(lines[n - 1]);
      }
    }
    if IsDevice(line) {
      assert IsDevice(lines[n - 1]);
    }
    if !IsSection(line) && !IsDevice(line) {
      if DeviceOpen(pre) {
        var j :| 0 <= j < |pre| && IsDevice(pre[j]) && forall m :: j < m < |pre| ==> !IsSection(pre[m]);
        assert lines[j] == pre[j];
        forall m | j < m < n ensures !IsSection(lines[m]) {
          if m < n - 1 {
            assert lines[m] == pre[m];
          }
        }
      }
      if DeviceOpen(lines) {
        var j :| 0 <= j < n && IsDevice(lines[j]) && forall m :: j < m < n ==> !IsSection(lines[m]);
        assert j < n - 1;
        assert pre[j] == lines[j];
        forall m | j < m < |pre| ensures !IsSection(pre[m]) {
          assert pre[m] == lines[m];
        }
      }
    }
  }

  lemma AllAcceptedSnoc(lines: seq<string>)
    requires |lines| > 0
    ensures AllAccepted(lines) <==>
              AllAccepted(lines[..|lines| - 1]) && Accepted(lines[..|lines| - 1], lines[|lines| - 1])
  {
    var pre := lines[..|lines| - 1];
    forall i | 0 <= i < |pre|
      ensures pre[..i] == lines[..i] && pre[i] == lines[i]
    {
    }
  }

  /** The scan from the start goes through exactly when every line is
      accepted. Along the way the context tracks the input: there is a current
      adapter exactly when a section header was seen (and it has a disk map),
      there is no disk map before that, and the current record exists exactly
      when a device line came after the last header. */
  lemma {:induction false} ScanInvariant(lines: seq<string>)
    ensures Run(Start, lines).Success? <==> AllAccepted(lines)
    ensures Run(Start, lines).Success? ==>
              var st := Run(Start, lines).value;
              && (st.adapter.Some? <==> SectionSeen(lines))
              && (st.adapter.Some? ==> st.adapter.value in st.disks)
              && (st.adapter.None? ==> st.disks == map[])
              && (RecordOpen(st) <==> DeviceOpen(lines))
    decreases |lines|
  {
    if |lines| > 0 {
      var pre, line := lines[..|lines| - 1], lines[|lines| - 1];
      ScanInvariant(pre);
      AllAcceptedSnoc(lines);
      SectionSeenSnoc(lines);
      DeviceOpenSnoc(lines);
      if Run(Start, pre).Success? {
        var st := Run(Start, pre).value;
        StepCases(st, line);
        SectionIsNotDevice(line);
        if FieldOf(line).Some? {
          FieldLineIsNoContextLine(line);
        }
        if IsSection(line) {
          SectionHasId(line);
        }
      }
    }
  }

  /** When the scan from the start fails, it fails at the first line it does
      not accept, with the exception that line raises: `KeyError` for a device
      line before any section header or a field line with no open record,
      `IndexError` for a device line without a third word, and the value's own
      exception for a field line whose value cannot be computed. */
  lemma {:induction false} FailedAtFirstRejectedLine(lines: seq<string>)
    requires Run(Start, lines).Failure?
    ensures exists k :: 0 <= k < |lines|
                          && AllAccepted(lines[..k])
                          && !Accepted(lines[..k], lines[k])
                          && Run(Start, lines).error == RejectionError(lines[k])
    decreases |lines|
  {
    var pre, line := lines[..|lines| - 1], lines[|lines| - 1];
    if Run(Start, pre).Failure? {
      FailedAtFirstRejectedLine(pre);
      var k :| 0 <= k < |pre| && AllAccepted(pre[..k]) && !Accepted(pre[..k], pre[k])
                && Run(Start, pre).error == RejectionError(pre[k]);
      assert pre[..k] == lines[..k] && pre[k] == lines[k];
    } else {
      ScanInvariant(pre);
      ScanInvariant(lines);
      AllAcceptedSnoc(lines);
      assert lines[..|lines| - 1] == pre;
    }
  }

  // ---------------------------------------------------------------------------
  // A block of field lines under one device
  // ---------------------------------------------------------------------------

  /** The field each line of `block` selects, in order. */
  function Selected(block: seq<string>): (fs: seq<Option<Field>>)
    ensures |fs| == |block|
    decreases |block|
  {
    if |block| == 0 then [] else Selected(block[..|block| - 1]) + [FieldOf(block[|block| - 1])]
  }

  /** Some line of `block` selects field `f`. */
  ghost predicate SetsField(block: seq<string>, f: Field) {
    Some(f) in Selected(block)
  }

  /** Line `i` of `block` selects a field and no later line selects it again. */
  ghost predicate LastSetter(block: seq<string>, i: int) {
    && 0 <= i < |block|
    && FieldOf(block[i]).Some?
    && forall j :: i < j < |block| ==> FieldOf(block[j]) != FieldOf(block[i])
  }

  /** `r` is what the field lines of `block` make of record `r0`: a field is
      present iff it was present before or some line sets it; a field set by
      the block holds the value of the LAST line that sets it; a field the
      block does not set keeps its old value. Nothing else appears. */
  ghost predicate RecordOf(block: seq<string>, r0: Record, r: Record) {
    RecordKeys(block, r0, r) && RecordValues(block, r) && RecordKept(block, r0, r)
  }

  ghost predicate RecordKeys(block: seq<string>, r0: Record, r: Record) {
    forall f :: f in r <==> f in r0 || SetsField(block, f)
  }

  ghost predicate RecordValues(block: seq<string>, r: Record) {
    forall i :: LastSetter(block, i) ==>
      var f := FieldOf(block[i]).value;
      f in r && FieldValue(f, block[i]) == Success(r[f])
  }

  ghost predicate RecordKept(block: seq<string>, r0: Record, r: Record) {
    forall f :: f in r0 && !SetsField(block, f) ==> f in r && r[f] == r0[f]
  }

  /** A line that neither opens a section nor a device. */
  predicate InBlock(line: string) {
    !IsSection(line) && !IsDevice(line)
  }

  /** Every field line of `block` has a computable value. */
  predicate ValuesParse(block: seq<string>) {
    forall i :: 0 <= i < |block| && FieldOf(block[i]).Some? ==>
      FieldValue(FieldOf(block[i]).value, block[i]).Success?
  }

  lemma ValuesParseSnoc(block: seq<string>)
    requires |block| > 0
    ensures var line := block[|block| - 1];
            ValuesParse(block) <==>
              ValuesParse(block[..|block| - 1])
              && (FieldOf(line).Some? ==> FieldValue(FieldOf(line).value, line).Success?)
  {
    var n := |block|;
    var pre := block[..n - 1];
    if ValuesParse(block) {
      forall i | 0 <= i < |pre| && FieldOf(pre[i]).Some?
        ensures FieldValue(FieldOf(pre[i]).value, pre[i]).Success?
      {
        assert pre[i] == block[i];
      }
    }
    if ValuesParse(pre) && (FieldOf(block[n - 1]).Some? ==> FieldValue(FieldOf(block[n - 1]).value, block[n - 1]).Success?) {
      forall i | 0 <= i < n && FieldOf(block[i]).Some?
        ensures FieldValue(FieldOf(block[i]).value, block[i]).Success?
      {
        if i < n - 1 {
          assert block[i] == pre[i];
        }
      }
    }
  }

  lemma RecordOfEmpty(r: Record)
    ensures RecordOf([], r, r)
  {
  }

  lemma SetsFieldSnoc(block: seq<string>, f: Field)
    requires |block| > 0
    ensures SetsField(block, f) <==>
              SetsField(block[..|block| - 1], f) || FieldOf(block[|block| - 1]) == Some(f)
  {
  }

  lemma LastSetterSnoc(block: seq<string>, i: int)
    requires |block| > 0 && 0 <= i < |block| - 1
    ensures LastSetter(block, i) <==>
              LastSetter(block[..|block| - 1], i) && FieldOf(block[|block| - 1]) != FieldOf(block[i])
  {
    var n := |block|;
    var pre := block[..n - 1];
    var line := block[i];
    assert pre[i] == line;
    if LastSetter(block, i) {
      forall j | i < j < |pre| ensures FieldOf(pre[j]) != FieldOf(line) {
        assert pre[j] == block[j];
      }
    }
    if LastSetter(pre, i) && FieldOf(block[n - 1]) != FieldOf(line) {
      forall j | i < j < n ensures FieldOf(block[j]) != FieldOf(line) {
        if j < n - 1 {
          assert block[j] == pre[j];
        }
      }
    }
  }

  /** A last line that sets no field leaves the record as it was. */
  lemma RecordOfSkip(block: seq<string>, r0: Record, r1: Record)
    requires |block| > 0 && FieldOf(block[|block| - 1]).None?
    requires RecordOf(block[..|block| - 1], r0, r1)
    ensures RecordOf(block, r0, r1)
  {
    var n := |block|;
    var pre := block[..n - 1];
    forall f ensures SetsField(block, f) <==> SetsField(pre, f) {
      SetsFieldSnoc(block, f);
    }
    assert RecordValues(block, r1) by {
      forall i | LastSetter(block, i)
        ensures var f := FieldOf(block[i]).value; f in r1 && FieldValue(f, block[i]) == Success(r1[f])
      {
        LastSetterSnoc(block, i);
        assert block[i] == pre[i];
      }
    }
  }

  /** A last line that sets field `g` to `v` overrides `g` and nothing else. */
  lemma RecordOfSet(block: seq<string>, r0: Record, r1: Record, g: Field, v: int)
    requires |block| > 0
    requires FieldOf(block[|block| - 1]) == Some(g)
    requires FieldValue(g, block[|block| - 1]) == Success(v)
    requires RecordOf(block[..|block| - 1], r0, r1)
    ensures RecordOf(block, r0, r1[g := v])
  {
    var n := |block|;
    var pre := block[..n - 1];
    var r := r1[g := v];
    forall f ensures SetsField(block, f) <==> SetsField(pre, f) || f == g {
      SetsFieldSnoc(block, f);
    }
    assert RecordKeys(block, r0, r) by {
      assert RecordKeys(pre, r0, r1);
    }
    assert RecordValues(block, r) by {
      RecordValuesSet(block, r1, g, v);
    }
    assert RecordKept(block, r0, r) by {
      assert RecordKept(pre, r0, r1);
    }
  }

  lemma RecordValuesSet(block: seq<string>, r1: Record, g: Field, v: int)
    requires |block| > 0
    requires FieldOf(block[|block| - 1]) == Some(g)
    requires FieldValue(g, block[|block| - 1]) == Success(v)
    requires RecordValues(block[..|block| - 1], r1)
    ensures RecordValues(block, r1[g := v])
  {
    forall i | LastSetter(block, i)
      ensures var f := FieldOf(block[i]).value; f in r1[g := v] && FieldValue(f, block[i]) == Success(r1[g := v][f])
    {
      if i < |block| - 1 {
        EarlierSetterKept(block, r1, g, i);
      } else {
        assert block[i] == block[|block| - 1];
      }
    }
  }

  /** A line overridden by a later one for the same field keeps the value the
      record held before the last line. */
  lemma EarlierSetterKept(block: seq<string>, r1: Record, g: Field, i: nat)
    requires |block| > 0 && i < |block| - 1 && LastSetter(block, i)
    requires FieldOf(block[|block| - 1]) == Some(g)
    requires RecordValues(block[..|block| - 1], r1)
    ensures var f := FieldOf(block[i]).value; f != g && f in r1 && FieldValue(f, block[i]) == Success(r1[f])
  {
    var pre := block[..|block| - 1];
    LastSetterSnoc(block, i);
    assert block[i] == pre[i];
    assert LastSetter(pre, i);
  }

  /** `st'` is what the field lines of `block` make of `st`: same context,
      only the current record changed, as `RecordOf` describes. */
  ghost predicate BlockResult(st: PdScan, block: seq<string>, st': PdScan)
    requires RecordOpen(st)
  {
    var a, d := st.adapter.value, st.disk.value;
    && st'.adapter == st.adapter && st'.disk == st.disk && RecordOpen(st')
    && st'.disks == st.disks[a := st.disks[a][d := st'.disks[a][d]]]
    && RecordOf(block, st.disks[a][d], st'.disks[a][d])
  }

  lemma BlockStep(st: PdScan, block: seq<string>, st1: PdScan)
    requires RecordOpen(st) && |block| > 0 && InBlock(block[|block| - 1])
    requires BlockResult(st, block[..|block| - 1], st1)
    ensures var line := block[|block| - 1];
            Step(st1, line).Success? <==> (FieldOf(line).Some? ==> FieldValue(FieldOf(line).value, line).Success?)
    ensures Step(st1, block[|block| - 1]).Success? ==>
              BlockResult(st, block, Step(st1, block[|block| - 1]).value)
  {
    var a, d := st.adapter.value, st.disk.value;
    var line := block[|block| - 1];
    var r1 := st1.disks[a][d];
    StepCases(st1, line);
    match FieldOf(line)
    case None =>
      RecordOfSkip(block, st.disks[a][d], r1);
    case Some(g) =>
      if FieldValue(g, line).Success? {
        var v := FieldValue(g, line).value;
        RecordOfSet(block, st.disks[a][d], r1, g, v);
        var st' := Step(st1, line).value;
        assert st'.disks == st1.disks[a := st1.disks[a][d := r1[g := v]]];
        assert st1.disks[a][d := r1[g := v]] == st.disks[a][d := r1[g := v]];
      }
  }

  /** Field lines after a device line change only that device's record, and
      change it as `RecordOf` describes; the scan goes through iff every value
      parses. */
  lemma {:induction false} BlockEffect(st: PdScan, block: seq<string>)
    requires RecordOpen(st)
    requires forall i :: 0 <= i < |block| ==> InBlock(block[i])
    ensures Run(st, block).Success? <==> ValuesParse(block)
    ensures Run(st, block).Success? ==> BlockResult(st, block, Run(st, block).value)
    decreases |block|
  {
    var a, d := st.adapter.value, st.disk.value;
    if |block| == 0 {
      RecordOfEmpty(st.disks[a][d]);
      assert st.disks[a][d := st.disks[a][d]] == st.disks[a];
      assert st.disks == st.disks[a := st.disks[a]];
    } else {
      var n := |block|;
      var pre, line := block[..n - 1], block[n - 1];
      BlockEffect(st, pre);
      ValuesParseSnoc(block);
      if Run(st, pre).Success? {
        BlockStep(st, block, Run(st, pre).value);
      }
    }
  }

  /** Under an open adapter, a well-formed device line opens an empty record. */
  lemma DeviceStep(st: PdScan, dev: string)
    requires st.adapter.Some? && st.adapter.value in st.disks
    requires IsDevice(dev) && |Split(dev, ' ')| >= 3
    ensures var a, d := st.adapter.value, Split(dev, ' ')[2];
            Run(st, [dev]) == Success(PdScan(Some(a), Some(d), st.disks[a := st.disks[a][d := map[]]]))
  {
    RunOne(st, dev);
    StepCases(st, dev);
  }

  /** Context scoping: under an open adapter, a device line followed by field
      lines gives that disk a fresh record holding exactly what the field lines
      set, and leaves every other disk and adapter as it was. */
  lemma DeviceBlock(st: PdScan, dev: string, block: seq<string>)
    requires st.adapter.Some? && st.adapter.value in st.disks
    requires IsDevice(dev) && |Split(dev, ' ')| >= 3
    requires forall i :: 0 <= i < |block| ==> InBlock(block[i])
    ensures Run(st, [dev] + block).Success? <==> ValuesParse(block)
    ensures Run(st, [dev] + block).Success? ==>
              var a, d, st' := st.adapter.value, Split(dev, ' ')[2], Run(st, [dev] + block).value;
              && st'.adapter == st.adapter && st'.disk == Some(d)
              && a in st'.disks && d in st'.disks[a]
              && st'.disks == st.disks[a := st.disks[a][d := st'.disks[a][d]]]
              && RecordOf(block, map[], st'.disks[a][d])
  {
    var a, d := st.adapter.value, Split(dev, ' ')[2];
    RunAppend(st, [dev], block);
    DeviceStep(st, dev);
    var st1 := PdScan(Some(a), Some(d), st.disks[a := st.disks[a][d := map[]]]);
    BlockEffect(st1, block);
    if Run(st1, block).Success? {
      var st' := Run(st1, block).value;
      assert st1.disks[a][d := st'.disks[a][d]] == st.disks[a][d := st'.disks[a][d]];
    }
  }

  /** Two device blocks under one adapter give two records, each holding
      exactly what the field lines of its own block set. */
  lemma TwoDeviceBlocks(st: PdScan, dev1: string, block1: seq<string>, dev2: string, block2: seq<string>)
    requires st.adapter.Some? && st.adapter.value in st.disks
    requires IsDevice(dev1) && |Split(dev1, ' ')| >= 3
    requires IsDevice(dev2) && |Split(dev2, ' ')| >= 3
    requires Split(dev1, ' ')[2] != Split(dev2, ' ')[2]
    requires forall i :: 0 <= i < |block1| ==> InBlock(block1[i])
    requires forall i :: 0 <= i < |block2| ==> InBlock(block2[i])
    requires ValuesParse(block1) && ValuesParse(block2)
    ensures Run(st, [dev1] + block1 + ([dev2] + block2)).Success?
    ensures var a, d1, d2 := st.adapter.value, Split(dev1, ' ')[2], Split(dev2, ' ')[2];
            var st' := Run(st, [dev1] + block1 + ([dev2] + block2)).value;
            && a in st'.disks
            && st'.disks[a].Keys == st.disks[a].Keys + {d1, d2}
            && RecordOf(block1, map[], st'.disks[a][d1])
            && RecordOf(block2, map[], st'.disks[a][d2])
  {
    var a, d1, d2 := st.adapter.value, Split(dev1, ' ')[2], Split(dev2, ' ')[2];
    RunAppend(st, [dev1] + block1, [dev2] + block2);
    DeviceBlock(st, dev1, block1);
    var st1 := Run(st, [dev1] + block1).value;
    DeviceBlock(st1, dev2, block2);
  }
}
