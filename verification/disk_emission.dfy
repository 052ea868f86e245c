/** The flattening of the disk map into gauges (`check_disks`, its last three
    nested loops): one gauge per field present in the final map, named after
    the field's key and attached to the device `<host>:adapter:<a>/<d>`.

    The loops walk the dictionaries in their iteration order, which the model
    leaves open: each loop picks any key it has not visited yet. What is fixed
    is the collection of readings visited, each exactly once.
 */
module DiskEmission {
  import opened Results
  import opened Text
  import opened Metrics
  import opened DiskFields
  import opened DiskScan

  /** One stored value: `disks[adapter][disk][field] == value`. */
  datatype Reading = Reading(adapter: string, disk: string, field: Field, value: int)

  /** `r` is one of the values stored in `disks`. */
  predicate Present(disks: Disks, r: Reading) {
    && r.adapter in disks
    && r.disk in disks[r.adapter]
    && r.field in disks[r.adapter][r.disk]
    && disks[r.adapter][r.disk][r.field] == r.value
  }

  /** The gauge a reading is reported as. */
  function DiskGauge(host: string, r: Reading): Gauge {
    Gauge(DeviceMetric(r.field.Key()), r.value, DiskDevice(host, r.adapter, r.disk))
  }

  /** The gauges of `readings`, in the same order. */
  function Gauges(host: string, readings: seq<Reading>): (gs: seq<Gauge>)
    ensures |gs| == |readings|
    ensures forall i :: 0 <= i < |readings| ==> gs[i] == DiskGauge(host, readings[i])
    decreases |readings|
  {
    if |readings| == 0 then [] else Gauges(host, readings[..|readings| - 1]) + [DiskGauge(host, readings[|readings| - 1])]
  }

  predicate Distinct(rs: seq<Reading>) {
    forall i, j :: 0 <= i < j < |rs| ==> rs[i] != rs[j]
  }

  lemma DistinctConcat(xs: seq<Reading>, ys: seq<Reading>)
    requires Distinct(xs) && Distinct(ys)
    requires forall r :: r in xs ==> r !in ys
    ensures Distinct(xs + ys)
  {
    var zs := xs + ys;
    forall i, j | 0 <= i < j < |zs| ensures zs[i] != zs[j] {
      if j < |xs| {
        assert zs[i] == xs[i] && zs[j] == xs[j];
      } else if i >= |xs| {
        assert zs[i] == ys[i - |xs|] && zs[j] == ys[j - |xs|];
      } else {
        assert zs[i] == xs[i] && xs[i] in xs;
        assert zs[j] == ys[j - |xs|] && ys[j - |xs|] in ys;
      }
    }
  }

  /** `for key in disks[adapt][disk]`: every field of one record, once each. */
  method FlattenRecord(a: string, d: string, rec: Record) returns (rs: seq<Reading>)
    ensures Distinct(rs)
    ensures forall r :: r in rs <==>
              r.adapter == a && r.disk == d && r.field in rec && rec[r.field] == r.value
  {
    rs := [];
    var left := rec.Keys;
    while left != {}
      invariant left <= rec.Keys
      invariant Distinct(rs)
      invariant forall r :: r in rs <==>
                  r.adapter == a && r.disk == d && r.field in rec.Keys - left && rec[r.field] == r.value
      decreases left
    {
      var f :| f in left;
      var r := Reading(a, d, f, rec[f]);
      assert r !in rs;
      DistinctConcat(rs, [r]);
      rs := rs + [r];
      left := left - {f};
    }
  }

  /** `for disk in disks[adapt]`: every field of every disk of one adapter. */
  method FlattenAdapter(a: string, recs: map<string, Record>) returns (rs: seq<Reading>)
    ensures Distinct(rs)
    ensures forall r :: r in rs <==>
              r.adapter == a && r.disk in recs && r.field in recs[r.disk] && recs[r.disk][r.field] == r.value
  {
    rs := [];
    var left := recs.Keys;
    while left != {}
      invariant left <= recs.Keys
      invariant Distinct(rs)
      invariant forall r :: r in rs <==>
                  r.adapter == a && r.disk in recs.Keys - left
                  && r.field in recs[r.disk] && recs[r.disk][r.field] == r.value
      decreases left
    {
      var d :| d in left;
      var more := FlattenRecord(a, d, recs[d]);
      DistinctConcat(rs, more);
      rs := rs + more;
      left := left - {d};
    }
  }

  /** `for adapt in disks`: every value stored in the map, once each. */
  method Flatten(disks: Disks) returns (rs: seq<Reading>)
    ensures Distinct(rs)
    ensures forall r :: r in rs <==> Present(disks, r)
  {
    rs := [];
    var left := disks.Keys;
    while left != {}
      invariant left <= disks.Keys
      invariant Distinct(rs)
      invariant forall r :: r in rs <==> r.adapter in disks.Keys - left && Present(disks, r)
      decreases left
    {
      var a :| a in left;
      var more := FlattenAdapter(a, disks[a]);
      DistinctConcat(rs, more);
      rs := rs + more;
      left := left - {a};
    }
  }

  /** The emission loop: the gauges reported, together with the readings they
      report, in the order visited. Every value present in the map is reported
      exactly once, and nothing else is: a field that was never read produces
      no gauge rather than a zero. */
  method EmitDisks(host: string, disks: Disks) returns (readings: seq<Reading>, gauges: seq<Gauge>)
    ensures Distinct(readings)
    ensures forall r :: r in readings <==> Present(disks, r)
    ensures |gauges| == |readings|
    ensures forall i :: 0 <= i < |readings| ==> gauges[i] == DiskGauge(host, readings[i])
  {
    readings := Flatten(disks);
    gauges := Gauges(host, readings);
  }

  // ---------------------------------------------------------------------------
  // Provenance: every value in the map was read from some line
  // ---------------------------------------------------------------------------

  /** Some line of `lines` selects field `f` and its rule yields `v`. */
  ghost predicate Witnessed(lines: seq<string>, f: Field, v: int) {
    exists i :: 0 <= i < |lines| && FieldOf(lines[i]) == Some(f) && FieldValue(f, lines[i]) == Success(v)
  }

  /** Every value stored in `disks` is witnessed by a line of `lines`. */
  ghost predicate FromInput(lines: seq<string>, disks: Disks) {
    forall r :: Present(disks, r) ==> Witnessed(lines, r.field, r.value)
  }

  lemma WitnessedSnoc(lines: seq<string>, line: string, f: Field, v: int)
    requires Witnessed(lines, f, v)
    ensures Witnessed(lines + [line], f, v)
  {
    var i :| 0 <= i < |lines| && FieldOf(lines[i]) == Some(f) && FieldValue(f, lines[i]) == Success(v);
    assert (lines + [line])[i] == lines[i];
  }

  /** One line keeps every stored value witnessed: headers and device lines
      only add empty maps, and a field line stores the value it yields. */
  lemma StepProvenance(lines: seq<string>, line: string, st: PdScan)
    requires FromInput(lines, st.disks)
    requires Step(st, line).Success?
    ensures FromInput(lines + [line], Step(st, line).value.disks)
  {
    var all := lines + [line];
    var st' := Step(st, line).value;
    StepCases(st, line);
    assert all[|lines|] == line;
    forall r | Present(st'.disks, r) ensures Witnessed(all, r.field, r.value) {
      if FieldOf(line).Some? && RecordOpen(st) && r.adapter == st.adapter.value
         && r.disk == st.disk.value && r.field == FieldOf(line).value {
        assert FieldValue(r.field, line) == Success(r.value);
      } else {
        assert Present(st.disks, r);
        WitnessedSnoc(lines, line, r.field, r.value);
      }
    }
  }

  /** No synthesised values: after a successful scan, every value in the map,
      and so every disk gauge, comes from a field line of the input. */
  lemma {:induction false} ScanProvenance(lines: seq<string>)
    ensures Run(Start, lines).Success? ==> FromInput(lines, Run(Start, lines).value.disks)
    decreases |lines|
  {
    if |lines| > 0 {
      var pre := lines[..|lines| - 1];
      ScanProvenance(pre);
      if Run(Start, lines).Success? {
        assert pre + [lines[|lines| - 1]] == lines;
        StepProvenance(pre, lines[|lines| - 1], Run(Start, pre).value);
      }
    }
  }

  // ---------------------------------------------------------------------------
  // Provenance of the ids: every adapter and disk was named by a line
  // ---------------------------------------------------------------------------

  /** Some `Adapter #` line of `lines` names adapter `a`. */
  ghost predicate SectionNamed(lines: seq<string>, a: string) {
    exists i :: 0 <= i < |lines| && IsSection(lines[i]) && Token(lines[i], '#', 1) == Success(a)
  }

  /** Some `Device Id:` line of `lines` names disk `d`. */
  ghost predicate DeviceNamed(lines: seq<string>, d: string) {
    exists i :: 0 <= i < |lines| && IsDevice(lines[i]) && Token(lines[i], ' ', 2) == Success(d)
  }

  /** Every adapter id in `disks` was named by a section header of `lines`,
      and every disk id by a device line. */
  ghost predicate IdsFromInput(lines: seq<string>, disks: Disks) {
    forall a :: a in disks ==>
      SectionNamed(lines, a) && forall d :: d in disks[a] ==> DeviceNamed(lines, d)
  }

  lemma NamedSnoc(lines: seq<string>, line: string, id: string)
    ensures SectionNamed(lines, id) ==> SectionNamed(lines + [line], id)
    ensures DeviceNamed(lines, id) ==> DeviceNamed(lines + [line], id)
  {
    if SectionNamed(lines, id) {
      var i :| 0 <= i < |lines| && IsSection(lines[i]) && Token(lines[i], '#', 1) == Success(id);
      assert (lines + [line])[i] == lines[i];
    }
    if DeviceNamed(lines, id) {
      var i :| 0 <= i < |lines| && IsDevice(lines[i]) && Token(lines[i], ' ', 2) == Success(id);
      assert (lines + [line])[i] == lines[i];
    }
  }

  /** Ids that were there before stay named after one more line. */
  lemma KeptIdsNamed(lines: seq<string>, line: string, disks: Disks, a: string)
    requires IdsFromInput(lines, disks) && a in disks
    ensures SectionNamed(lines + [line], a)
    ensures forall d :: d in disks[a] ==> DeviceNamed(lines + [line], d)
  {
    NamedSnoc(lines, line, a);
    forall d | d in disks[a] ensures DeviceNamed(lines + [line], d) {
      NamedSnoc(lines, line, d);
    }
  }

  /** A section header names the adapter it opens, with no disks yet. */
  lemma SectionIds(lines: seq<string>, line: string, st: PdScan)
    requires IdsFromInput(lines, st.disks) && IsSection(line)
    ensures Step(st, line).Success?
    ensures IdsFromInput(lines + [line], Step(st, line).value.disks)
  {
    var all := lines + [line];
    StepCases(st, line);
    var a := Token(line, '#', 1).value;
    var disks := Step(st, line).value.disks;
    assert disks == st.disks[a := map[]];
    assert all[|lines|] == line;
    forall b | b in disks
      ensures SectionNamed(all, b) && forall d :: d in disks[b] ==> DeviceNamed(all, d)
    {
      if b != a {
        KeptIdsNamed(lines, line, st.disks, b);
      }
    }
  }

  /** A device line names the disk it opens. */
  lemma DeviceIds(lines: seq<string>, line: string, st: PdScan)
    requires IdsFromInput(lines, st.disks) && IsDevice(line)
    requires Step(st, line).Success?
    ensures IdsFromInput(lines + [line], Step(st, line).value.disks)
  {
    var all := lines + [line];
    StepCases(st, line);
    var st' := OpenDevice(st, line).value;
    var a, d := st.adapter.value, st'.disk.value;
    assert st'.disks == st.disks[a := st.disks[a][d := map[]]];
    assert all[|lines|] == line;
    forall b | b in st'.disks
      ensures SectionNamed(all, b) && forall e :: e in st'.disks[b] ==> DeviceNamed(all, e)
    {
      KeptIdsNamed(lines, line, st.disks, b);
    }
  }

  /** A field line adds no adapter and no disk. */
  lemma FieldIds(lines: seq<string>, line: string, st: PdScan)
    requires IdsFromInput(lines, st.disks) && FieldOf(line).Some?
    requires Step(st, line).Success?
    ensures IdsFromInput(lines + [line], Step(st, line).value.disks)
  {
    StepCases(st, line);
    var st' := Step(st, line).value;
    var a, d := st.adapter.value, st.disk.value;
    assert st'.disks == st.disks[a := st.disks[a][d := st'.disks[a][d]]];
    forall b | b in st'.disks
      ensures SectionNamed(lines + [line], b) && forall e :: e in st'.disks[b] ==> DeviceNamed(lines + [line], e)
    {
      KeptIdsNamed(lines, line, st.disks, b);
    }
  }

  /** One line keeps every id named by some line. */
  lemma StepIds(lines: seq<string>, line: string, st: PdScan)
    requires IdsFromInput(lines, st.disks)
    requires Step(st, line).Success?
    ensures IdsFromInput(lines + [line], Step(st, line).value.disks)
  {
    LineKinds(line);
    if IsSection(line) {
      SectionIds(lines, line, st);
    } else if IsDevice(line) {
      DeviceIds(lines, line, st);
    } else if FieldOf(line).Some? {
      FieldIds(lines, line, st);
    } else {
      StepCases(st, line);
      forall b | b in st.disks ensures SectionNamed(lines + [line], b) && forall e :: e in st.disks[b] ==> DeviceNamed(lines + [line], e) {
        KeptIdsNamed(lines, line, st.disks, b);
      }
    }
  }

  /** No synthesised ids: after a successful scan, every adapter in the map
      was named by an `Adapter #` line of the input and every disk by a
      `Device Id:` line, so every device name a gauge carries is built from
      ids read from the output. */
  lemma {:induction false} ScanIds(lines: seq<string>)
    ensures Run(Start, lines).Success? ==> IdsFromInput(lines, Run(Start, lines).value.disks)
    decreases |lines|
  {
    if |lines| > 0 {
      var pre := lines[..|lines| - 1];
      ScanIds(pre);
      if Run(Start, lines).Success? {
        assert pre + [lines[|lines| - 1]] == lines;
        StepIds(pre, lines[|lines| - 1], Run(Start, pre).value);
      }
    }
  }
}
