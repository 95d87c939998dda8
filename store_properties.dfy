/**
 * Properties of the output directory across a run: nothing is overwritten
 * and logs only grow; show-name mode never touches a log; repeating a step
 * does not change the content files; every log line names a content file
 * that exists, so the closing pass finds every payload it compares.
 */
module StoreProperties {
  import opened Wrappers
  import opened Svd
  import opened Strings
  import opened Sorting
  import opened Naming
  import opened Normalize
  import opened Report
  import opened Store

  /** No file disappears, content files are unchanged and logs only grow at their end. */
  ghost predicate Grows(before: Files, after: Files) {
    && before.Keys <= after.Keys
    && forall q :: q in before ==> if q.1 == LogName then before[q] <= after[q] else after[q] == before[q]
  }

  lemma GrowsTransitive(a: Files, b: Files, c: Files)
    requires Grows(a, b) && Grows(b, c)
    ensures Grows(a, c)
  {
    forall q | q in a && q.1 == LogName ensures a[q] <= c[q] {
      assert a[q] == b[q][..|a[q]|] && b[q] == c[q][..|b[q]|];
      assert c[q][..|b[q]|][..|a[q]|] == c[q][..|a[q]|];
    }
  }

  lemma PeripheralStepGrows(files: Files, deviceName: string, p: Peripheral, flags: Flags, fx: Foreign)
    ensures Grows(files, PeripheralStep(files, deviceName, p, flags, fx))
  {
    if p.registers.Some? && !flags.showName {
      var t := LogPath(p);
      if t in files {
        var r := PeripheralStep(files, deviceName, p, flags, fx);
        assert files[t] <= r[t] by {
          var added := ReferLine(PeripheralId(deviceName, p, flags, fx), p.name, deviceName);
          assert r[t] == files[t] + added;
          assert r[t][..|files[t]|] == files[t];
        }
      }
    }
  }

  lemma {:induction false} PeripheralsStepGrows(files: Files, deviceName: string, ps: seq<Peripheral>, flags: Flags, fx: Foreign)
    ensures Grows(files, PeripheralsStep(files, deviceName, ps, flags, fx))
    decreases |ps|
  {
    if ps != [] {
      var mid := PeripheralsStep(files, deviceName, ps[..|ps| - 1], flags, fx);
      PeripheralsStepGrows(files, deviceName, ps[..|ps| - 1], flags, fx);
      PeripheralStepGrows(mid, deviceName, ps[|ps| - 1], flags, fx);
      GrowsTransitive(files, mid, PeripheralsStep(files, deviceName, ps, flags, fx));
    }
  }

  /** A run only adds: once written, a content file keeps its payload, and a log keeps what it had. */
  lemma {:induction false} DevicesStepGrows(files: Files, ds: seq<Device>, flags: Flags, fx: Foreign)
    ensures Grows(files, DevicesStep(files, ds, flags, fx))
    decreases |ds|
  {
    if ds != [] {
      var mid := DevicesStep(files, ds[..|ds| - 1], flags, fx);
      DevicesStepGrows(files, ds[..|ds| - 1], flags, fx);
      var d := ds[|ds| - 1];
      if !StartsWith(d.name, SkippedPrefix) {
        PeripheralsStepGrows(mid, d.name, Prepared(d, flags).peripherals, flags, fx);
      }
      GrowsTransitive(files, mid, DevicesStep(files, ds, flags, fx));
    }
  }

  /** Every log of `after` was already in `before`, with the same text. */
  ghost predicate LogsUntouched(before: Files, after: Files) {
    forall q :: q in after && q.1 == LogName ==> q in before && after[q] == before[q]
  }

  /** In show-name mode no log is created or extended during a run. */
  lemma {:induction false} ShowNameLeavesLogs(files: Files, ds: seq<Device>, flags: Flags, fx: Foreign)
    requires flags.showName
    ensures LogsUntouched(files, DevicesStep(files, ds, flags, fx))
    decreases |ds|
  {
    if ds != [] {
      var mid := DevicesStep(files, ds[..|ds| - 1], flags, fx);
      ShowNameLeavesLogs(files, ds[..|ds| - 1], flags, fx);
      var d := ds[|ds| - 1];
      if !StartsWith(d.name, SkippedPrefix) {
        ShowNameLeavesLogsOf(mid, d.name, Prepared(d, flags).peripherals, flags, fx);
      }
    }
  }

  lemma {:induction false} ShowNameLeavesLogsOf(files: Files, deviceName: string, ps: seq<Peripheral>, flags: Flags, fx: Foreign)
    requires flags.showName
    ensures LogsUntouched(files, PeripheralsStep(files, deviceName, ps, flags, fx))
    decreases |ps|
  {
    if ps != [] {
      ShowNameLeavesLogsOf(files, deviceName, ps[..|ps| - 1], flags, fx);
    }
  }

  /**
   * The step of a peripheral with registers, outside show-name mode, adds
   * exactly its reference line to the lines its group's log reads back as.
   */
  lemma LogGainsLine(files: Files, deviceName: string, p: Peripheral, flags: Flags, fx: Foreign)
    requires p.registers.Some? && !flags.showName
    requires PlainName(deviceName) && PlainName(p.name)
    requires LogPath(p) in files ==> EndsLine(files[LogPath(p)])
    ensures var t := LogPath(p);
            var r := PeripheralStep(files, deviceName, p, flags, fx);
            && EndsLine(r[t])
            && ReadLines(r[t]) == ReadLines(if t in files then files[t] else "")
                                  + [ReferText(PeripheralId(deviceName, p, flags, fx), p.name, deviceName)]
  {
    var t := LogPath(p);
    var id := PeripheralId(deviceName, p, flags, fx);
    var before := if t in files then files[t] else "";
    DigestIdAlphabet(fx.md5Hex(StructuralText(p, fx)), fx.md5Hex(SkeletonText(p, fx)), deviceName, p.name);
    ReferTextPlain(id, p.name, deviceName);
    var text := ReferText(id, p.name, deviceName);
    ReadLinesAppend(before, text);
    assert PeripheralStep(files, deviceName, p, flags, fx)[t] == before + text + "\n";
  }

  /**
   * Neither a line feed nor a carriage return. Only the line feed matters for
   * log lines to resolve; the carriage return is excluded so that a reference
   * line also reads back exactly as written (`LogGainsLine`), since
   * `BufRead::lines` drops a carriage return that ends a line.
   */
  ghost predicate PlainName(s: string) {
    forall i :: 0 <= i < |s| ==> s[i] != '\n' && s[i] != '\r'
  }

  lemma ReferTextPlain(id: string, peripheralName: string, deviceName: string)
    requires '\n' !in id && '\r' !in id
    requires PlainName(peripheralName) && PlainName(deviceName)
    ensures PlainLine(ReferText(id, peripheralName, deviceName))
  {
    var line := ReferText(id, peripheralName, deviceName);
    var k := |id| + 1 + |peripheralName| + 1;
    forall i | 0 <= i < |line| ensures line[i] != '\n' && line[i] != '\r' {
      if i < |id| {
        assert line[i] == id[i];
      } else if i == |id| || i == k - 1 {
        assert line[i] == ' ';
      } else if i < k - 1 {
        assert line[i] == peripheralName[i - |id| - 1];
      } else {
        assert line[i] == deviceName[i - k];
      }
    }
  }

  /** Every line of every log names, by its first token, a content file of its group that exists. */
  ghost predicate LogsResolve(files: Files) {
    forall t :: t in files && t.1 == LogName ==>
      && EndsLine(files[t])
      && forall line :: line in ReadLines(files[t]) ==> (t.0, YamlName(FirstToken(line))) in files
  }

  lemma PeripheralStepResolves(files: Files, deviceName: string, p: Peripheral, flags: Flags, fx: Foreign)
    requires LogsResolve(files)
    requires PlainName(deviceName) && PlainName(p.name)
    ensures LogsResolve(PeripheralStep(files, deviceName, p, flags, fx))
  {
    var r := PeripheralStep(files, deviceName, p, flags, fx);
    if p.registers.Some? {
      var y, t := YamlPath(deviceName, p, flags, fx), LogPath(p);
      forall u | u in r && u.1 == LogName
        ensures EndsLine(r[u])
        ensures forall line :: line in ReadLines(r[u]) ==> (u.0, YamlName(FirstToken(line))) in r
      {
        if u == t && !flags.showName {
          var id := PeripheralId(deviceName, p, flags, fx);
          LogGainsLine(files, deviceName, p, flags, fx);
          DigestIdAlphabet(fx.md5Hex(StructuralText(p, fx)), fx.md5Hex(SkeletonText(p, fx)), deviceName, p.name);
          ReferTextFirstToken(id, p.name, deviceName);
          var previous := if t in files then files[t] else "";
          assert ReadLines("") == [];
          forall line | line in ReadLines(r[u]) ensures (u.0, YamlName(FirstToken(line))) in r {
            if line !in ReadLines(previous) {
              assert FirstToken(line) == id;
            }
          }
        } else {
          assert u in files && r[u] == files[u];
        }
      }
    }
  }

  lemma {:induction false} PeripheralsStepResolves(files: Files, deviceName: string, ps: seq<Peripheral>, flags: Flags, fx: Foreign)
    requires LogsResolve(files)
    requires PlainName(deviceName) && forall p :: p in ps ==> PlainName(p.name)
    ensures LogsResolve(PeripheralsStep(files, deviceName, ps, flags, fx))
    decreases |ps|
  {
    if ps != [] {
      assert ps[|ps| - 1] in ps;
      PeripheralsStepResolves(files, deviceName, ps[..|ps| - 1], flags, fx);
      PeripheralStepResolves(PeripheralsStep(files, deviceName, ps[..|ps| - 1], flags, fx),
                             deviceName, ps[|ps| - 1], flags, fx);
    }
  }

  /** Device and peripheral names without line breaks. */
  ghost predicate PlainInputs(ds: seq<Device>) {
    forall d :: d in ds ==> PlainName(d.name) && forall p :: p in d.peripherals ==> PlainName(p.name)
  }

  lemma PreparedNames(d: Device, flags: Flags)
    ensures Prepared(d, flags).name == d.name
    ensures forall p :: p in Prepared(d, flags).peripherals ==> exists o :: o in d.peripherals && o.name == p.name
  {
    if !flags.keepDescriptions {
      var ps := Prepared(d, flags).peripherals;
      forall p | p in ps ensures exists o :: o in d.peripherals && o.name == p.name {
        var i :| 0 <= i < |ps| && ps[i] == p;
        assert ps[i] == NormalizedPeripheral(d.peripherals[i]);
        assert d.peripherals[i] in d.peripherals;
      }
    }
  }

  /** A run whose names have no line breaks leaves every log line pointing at an existing content file. */
  lemma {:induction false} DevicesStepResolves(files: Files, ds: seq<Device>, flags: Flags, fx: Foreign)
    requires LogsResolve(files) && PlainInputs(ds)
    ensures LogsResolve(DevicesStep(files, ds, flags, fx))
    decreases |ds|
  {
    if ds != [] {
      var mid := DevicesStep(files, ds[..|ds| - 1], flags, fx);
      DevicesStepResolves(files, ds[..|ds| - 1], flags, fx);
      var d := ds[|ds| - 1];
      assert d in ds;
      if !StartsWith(d.name, SkippedPrefix) {
        PreparedNames(d, flags);
        PeripheralsStepResolves(mid, d.name, Prepared(d, flags).peripherals, flags, fx);
      }
    }
  }

  /** When every log line resolves, every pair any report compares has both of its files. */
  lemma ResolvedPayloads(files: Files, flags: Flags)
    requires LogsResolve(files)
    ensures AllPayloadsPresent(files, flags)
  {
    forall g | (g, LogName) in files
      ensures PayloadsPresent(files, g, ReportPairs(files[(g, LogName)], flags))
    {
      var t := (g, LogName);
      var read := ReadLines(files[t]);
      var lines := SortStrings(read);
      forall pr | pr in ReportPairs(files[t], flags)
        ensures (g, YamlName(pr.0)) in files && (g, YamlName(pr.1)) in files
      {
        var ds := DigestSet(lines, flags);
        assert pr.0 in ds && pr.1 in ds;
        var l0 :| l0 in lines && FirstToken(l0) == pr.0;
        var l1 :| l1 in lines && FirstToken(l1) == pr.1;
        assert multiset(lines) == multiset(read);
        assert l0 in multiset(read) && l1 in multiset(read);
      }
    }
  }

  /** Outside show-name mode and without line breaks in names, the closing pass of a run never meets a missing file. */
  lemma RunFindsPayloads(ds: seq<Device>, flags: Flags, fx: Foreign)
    requires PlainInputs(ds)
    ensures AllPayloadsPresent(DevicesStep(map[], ds, flags, fx), flags)
  {
    DevicesStepResolves(map[], ds, flags, fx);
    ResolvedPayloads(DevicesStep(map[], ds, flags, fx), flags);
  }

  /** Repeating a peripheral's step leaves every content file as the first step left it; in show-name mode it changes nothing at all. */
  lemma PeripheralStepRepeat(files: Files, deviceName: string, p: Peripheral, flags: Flags, fx: Foreign)
    ensures var once := PeripheralStep(files, deviceName, p, flags, fx);
            var twice := PeripheralStep(once, deviceName, p, flags, fx);
            && twice.Keys == once.Keys
            && (forall q :: q in once && q.1 != LogName ==> twice[q] == once[q])
            && (flags.showName ==> twice == once)
  {
  }

  /** A device run writes something exactly when it reaches a peripheral with registers. */
  ghost predicate Writes(ds: seq<Device>) {
    exists d, p :: d in ds && !StartsWith(d.name, SkippedPrefix) && p in d.peripherals && p.registers.Some?
  }

  /** A run in which no peripheral of a processed device has registers writes nothing. */
  lemma {:induction false} NothingWritten(files: Files, ds: seq<Device>, flags: Flags, fx: Foreign)
    requires !Writes(ds)
    ensures DevicesStep(files, ds, flags, fx) == files
    decreases |ds|
  {
    if ds != [] {
      var init := ds[..|ds| - 1];
      var d := ds[|ds| - 1];
      assert !Writes(init) by {
        forall d', p | d' in init && !StartsWith(d'.name, SkippedPrefix) && p in d'.peripherals
          ensures !p.registers.Some?
        {
          assert d' in ds;
        }
      }
      NothingWritten(files, init, flags, fx);
      if !StartsWith(d.name, SkippedPrefix) {
        assert d in ds;
        PeripheralsNothingWritten(files, d, flags, fx);
      }
    }
  }

  /** A run in which some processed device has a peripheral with registers leaves some file. */
  lemma {:induction false} SomethingWritten(files: Files, ds: seq<Device>, flags: Flags, fx: Foreign)
    requires Writes(ds)
    ensures DevicesStep(files, ds, flags, fx) != map[]
    decreases |ds|
  {
    var init := ds[..|ds| - 1];
    var d := ds[|ds| - 1];
    var mid := DevicesStep(files, init, flags, fx);
    DevicesStepGrows(mid, [d], flags, fx);
    assert DevicesStep(mid, [d], flags, fx) == DevicesStep(files, ds, flags, fx) by {
      assert [d][..0] == [];
    }
    if Writes(init) {
      SomethingWritten(files, init, flags, fx);
    } else {
      var d', p :| d' in ds && !StartsWith(d'.name, SkippedPrefix) && p in d'.peripherals && p.registers.Some?;
      assert d' == d;
      PeripheralsSomethingWritten(mid, d, p, flags, fx);
    }
  }

  lemma PeripheralsNothingWritten(files: Files, d: Device, flags: Flags, fx: Foreign)
    requires forall p :: p in d.peripherals ==> p.registers.None?
    ensures PeripheralsStep(files, d.name, Prepared(d, flags).peripherals, flags, fx) == files
  {
    var ps := Prepared(d, flags).peripherals;
    forall q | q in ps ensures q.registers.None? {
      var i :| 0 <= i < |ps| && ps[i] == q;
      assert d.peripherals[i] in d.peripherals;
      if !flags.keepDescriptions {
        assert ps[i] == NormalizedPeripheral(d.peripherals[i]);
      }
    }
    NoRegistersNoStep(files, d.name, ps, flags, fx);
  }

  lemma {:induction false} NoRegistersNoStep(files: Files, deviceName: string, ps: seq<Peripheral>, flags: Flags, fx: Foreign)
    requires forall p :: p in ps ==> p.registers.None?
    ensures PeripheralsStep(files, deviceName, ps, flags, fx) == files
    decreases |ps|
  {
    if ps != [] {
      assert ps[|ps| - 1] in ps;
      NoRegistersNoStep(files, deviceName, ps[..|ps| - 1], flags, fx);
    }
  }

  lemma PeripheralsSomethingWritten(files: Files, d: Device, p: Peripheral, flags: Flags, fx: Foreign)
    requires p in d.peripherals && p.registers.Some?
    ensures PeripheralsStep(files, d.name, Prepared(d, flags).peripherals, flags, fx) != map[]
  {
    var ps := Prepared(d, flags).peripherals;
    var i :| 0 <= i < |d.peripherals| && d.peripherals[i] == p;
    if !flags.keepDescriptions {
      assert ps[i] == NormalizedPeripheral(d.peripherals[i]);
    }
    SomeRegistersSomeFile(files, d.name, ps, i, flags, fx);
  }

  lemma {:induction false} SomeRegistersSomeFile(files: Files, deviceName: string, ps: seq<Peripheral>, i: nat, flags: Flags, fx: Foreign)
    requires i < |ps| && ps[i].registers.Some?
    ensures PeripheralsStep(files, deviceName, ps, flags, fx) != map[]
    decreases |ps|
  {
    var last := |ps| - 1;
    var mid := PeripheralsStep(files, deviceName, ps[..last], flags, fx);
    if i == last {
      assert YamlPath(deviceName, ps[last], flags, fx) in PeripheralStep(mid, deviceName, ps[last], flags, fx);
    } else {
      SomeRegistersSomeFile(files, deviceName, ps[..last], i, flags, fx);
      PeripheralStepGrows(mid, deviceName, ps[last], flags, fx);
      var q :| q in mid;
      assert q in PeripheralsStep(files, deviceName, ps, flags, fx);
    }
  }
}
