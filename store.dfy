/**
 * The output directory and the per-peripheral step of `main`: the
 * structural and skeleton serialisations and digests, the id, the
 * write-once content file `<group>/<id>.yaml` and the append-only
 * reference log `<group>/peripherals.txt`; the loops over devices and
 * peripherals; and the closing `sort_txts` pass.
 */
module Store {
  import opened Wrappers
  import opened Svd
  import opened Strings
  import opened Naming
  import opened Normalize
  import opened Skeleton
  import opened Report

  /** The files under the output root, by group directory and name. */
  type Files = map<Path, string>

  /** Devices of this family are skipped whole. */
  const SkippedPrefix: string := "STM32MP1"

  /** The content store: `payload` is written at `path` only when no file is there. */
  function Put(files: Files, path: Path, payload: string): (r: Files)
    ensures r.Keys == files.Keys + {path}
    ensures r[path] == if path in files then files[path] else payload
    ensures forall q :: q in files && q != path ==> r[q] == files[q]
  {
    if path in files then files else files[path := payload]
  }

  /** Appending to a file, which is created empty when absent. */
  function Append(files: Files, path: Path, text: string): (r: Files)
    ensures r.Keys == files.Keys + {path}
    ensures r[path] == (if path in files then files[path] else "") + text
    ensures forall q :: q in files && q != path ==> r[q] == files[q]
  {
    files[path := (if path in files then files[path] else "") + text]
  }

  /** A second write to the same path, whatever its payload, leaves the first one in place. */
  lemma PutWriteOnce(files: Files, path: Path, first: string, second: string)
    ensures Put(Put(files, path, first), path, second) == Put(files, path, first)
  {
  }

  /** The structural serialisation: the register list as it is (normalised unless descriptions are kept). */
  function StructuralText(p: Peripheral, fx: Foreign): string
    requires p.registers.Some?
  {
    fx.toYaml(p.registers.value)
  }

  /** The skeleton serialisation: the same list after the eraser, run on a copy. */
  function SkeletonText(p: Peripheral, fx: Foreign): string
    requires p.registers.Some?
  {
    fx.toYaml(ErasedPeripheral(p).registers.value)
  }

  function PeripheralId(deviceName: string, p: Peripheral, flags: Flags, fx: Foreign): string
    requires p.registers.Some?
  {
    DigestId(fx.md5Hex(StructuralText(p, fx)), fx.md5Hex(SkeletonText(p, fx)), deviceName, p.name, flags.showName)
  }

  /** The content file of a peripheral that has registers. */
  function YamlPath(deviceName: string, p: Peripheral, flags: Flags, fx: Foreign): Path
    requires p.registers.Some?
  {
    (GroupKey(p), YamlName(PeripheralId(deviceName, p, flags, fx)))
  }

  function LogPath(p: Peripheral): Path {
    (GroupKey(p), LogName)
  }

  /**
   * What one peripheral does to the output: nothing without registers;
   * otherwise its structural text is stored under its id unless that file
   * exists, and, outside show-name mode, its reference line is appended to
   * its group's log.
   */
  function PeripheralStep(files: Files, deviceName: string, p: Peripheral, flags: Flags, fx: Foreign): (r: Files)
    ensures p.registers.None? ==> r == files
    ensures p.registers.Some? ==>
      var y, t := YamlPath(deviceName, p, flags, fx), LogPath(p);
      && y != t
      && r.Keys == files.Keys + {y} + (if flags.showName then {} else {t})
      && r[y] == (if y in files then files[y] else StructuralText(p, fx))
      && (flags.showName ==> t in files ==> r[t] == files[t])
      && (!flags.showName ==>
            r[t] == (if t in files then files[t] else "")
                    + ReferLine(PeripheralId(deviceName, p, flags, fx), p.name, deviceName))
      && forall q :: q in files && q != y && q != t ==> r[q] == files[q]
  {
    if p.registers.None? then files
    else
      var id := PeripheralId(deviceName, p, flags, fx);
      var stored := Put(files, YamlPath(deviceName, p, flags, fx), StructuralText(p, fx));
      if flags.showName then stored
      else Append(stored, LogPath(p), ReferLine(id, p.name, deviceName))
  }

  /** The peripherals of one device, in order. */
  function PeripheralsStep(files: Files, deviceName: string, ps: seq<Peripheral>, flags: Flags, fx: Foreign): Files
    decreases |ps|
  {
    if ps == [] then files
    else PeripheralStep(PeripheralsStep(files, deviceName, ps[..|ps| - 1], flags, fx), deviceName, ps[|ps| - 1], flags, fx)
  }

  /** The device as the peripheral loop sees it: normalised unless descriptions are kept. */
  function Prepared(d: Device, flags: Flags): Device {
    if flags.keepDescriptions then d else NormalizedDevice(d)
  }

  /** One device: skipped when its name has the excluded prefix. */
  function DeviceStep(files: Files, d: Device, flags: Flags, fx: Foreign): (r: Files)
    ensures StartsWith(d.name, SkippedPrefix) ==> r == files
  {
    if StartsWith(d.name, SkippedPrefix) then files
    else PeripheralsStep(files, d.name, Prepared(d, flags).peripherals, flags, fx)
  }

  function DevicesStep(files: Files, ds: seq<Device>, flags: Flags, fx: Foreign): Files
    decreases |ds|
  {
    if ds == [] then files
    else DeviceStep(DevicesStep(files, ds[..|ds| - 1], flags, fx), ds[|ds| - 1], flags, fx)
  }

  /** Why the closing pass stops. */
  datatype FinalizeError =
    | NoOutputRoot            // nothing was written, so the output root was never created
    | MissingPayload(path: Path)

  /** Every log is rewritten as its report; nothing else changes. */
  ghost predicate Finalized(before: Files, after: Files, flags: Flags, fx: Foreign) {
    && after.Keys == before.Keys
    && forall q {:trigger after[q]} :: q in after ==>
         after[q] == if q.1 == LogName then ExpectedReport(before[q], q.0, before, flags, fx) else before[q]
  }

  /** Every pair the report of every log compares has both of its files. */
  ghost predicate AllPayloadsPresent(files: Files, flags: Flags) {
    forall g :: (g, LogName) in files ==> PayloadsPresent(files, g, ReportPairs(files[(g, LogName)], flags))
  }

  /** The output directory of one run. */
  class OutputDir {
    var files: Files

    /** The run starts from an emptied output root. */
    constructor ()
      ensures files == map[]
    {
      files := map[];
    }

    /** The body of the loop over the peripherals of a device. */
    method AddPeripheral(deviceName: string, p: Peripheral, flags: Flags, fx: Foreign)
      modifies this
      ensures files == PeripheralStep(old(files), deviceName, p, flags, fx)
    {
      var p2 := ClearFields(p);
      if p.registers.Some? && p2.registers.Some? {
        var s1 := fx.toYaml(p.registers.value);
        var s2 := fx.toYaml(p2.registers.value);
        var digest1 := fx.md5Hex(s1);
        var digest2 := fx.md5Hex(s2);
        var digest := DigestId(digest1, digest2, deviceName, p.name, flags.showName);
        var refer := ReferLine(digest, p.name, deviceName);
        var group := GroupKey(p);
        var ymlPath, txtPath := (group, YamlName(digest)), (group, LogName);
        if ymlPath !in files {
          files := files[ymlPath := s1];
        }
        if !flags.showName {
          files := files[txtPath := (if txtPath in files then files[txtPath] else "") + refer];
        }
      }
    }

    /** One input device: skipped, or cleaned (unless descriptions are kept) and its peripherals added in order. */
    method AddDevice(d: Device, flags: Flags, fx: Foreign)
      modifies this
      ensures files == DeviceStep(old(files), d, flags, fx)
    {
      if StartsWith(d.name, SkippedPrefix) {
        return;
      }
      var device := d;
      if !flags.keepDescriptions {
        device := CleanDevice(d);
      }
      var i := 0;
      while i < |device.peripherals|
        invariant 0 <= i <= |device.peripherals|
        invariant files == PeripheralsStep(old(files), device.name, device.peripherals[..i], flags, fx)
      {
        assert device.peripherals[..i + 1][..i] == device.peripherals[..i];
        AddPeripheral(device.name, device.peripherals[i], flags, fx);
        i := i + 1;
      }
      assert device.peripherals[..i] == device.peripherals;
    }

    /** `sort_txts`, over the files this directory holds. */
    method SortTxts(flags: Flags, fx: Foreign) returns (outcome: Result<(), FinalizeError>)
      modifies this
      ensures old(files) == map[] ==> outcome == Failure(NoOutputRoot)
      ensures old(files) != map[] ==> (outcome.Success? <==> AllPayloadsPresent(old(files), flags))
      ensures old(files) != map[] && outcome.Failure? ==> outcome.error.MissingPayload?
      ensures outcome.Success? ==> Finalized(old(files), files, flags, fx)
      ensures outcome == Failure(NoOutputRoot) ==> files == old(files)
      ensures outcome.Failure? && outcome.error.MissingPayload? ==>
                && outcome.error.path !in old(files)
                && StoppedAt(old(files), files, (outcome.error.path.0, LogName), flags, fx)
    {
      if files == map[] {
        return Failure(NoOutputRoot);
      }
      var out, res := RewriteLogs(files, flags, fx);
      files := out;
      if res.Failure? {
        return Failure(MissingPayload(res.error));
      }
      outcome := Success(());
    }
  }

  /** What path `q` holds once every log outside `todo` is rewritten. */
  ghost function PartlyRewritten(before: Files, q: Path, todo: set<Path>, flags: Flags, fx: Foreign): string
    requires q in before
  {
    if q.1 == LogName && q !in todo then ExpectedReport(before[q], q.0, before, flags, fx) else before[q]
  }

  /** The logs in `todo` and all other files are as they were; every other log holds its report. */
  ghost predicate RewrittenExcept(before: Files, after: Files, todo: set<Path>, flags: Flags, fx: Foreign) {
    && after.Keys == before.Keys
    && forall q {:trigger after[q]} :: q in after ==> after[q] == PartlyRewritten(before, q, todo, flags, fx)
  }

  /** Rewriting one more log keeps the loop's invariant. */
  lemma RewriteStep(before: Files, after: Files, todo: set<Path>, t: Path, report: string, flags: Flags, fx: Foreign)
    requires RewrittenExcept(before, after, todo, flags, fx)
    requires t in todo && t in before && t.1 == LogName
    requires report == ExpectedReport(before[t], t.0, before, flags, fx)
    ensures RewrittenExcept(before, after[t := report], todo - {t}, flags, fx)
  {
    var next := after[t := report];
    assert next.Keys == before.Keys;
    forall q | q in next ensures next[q] == PartlyRewritten(before, q, todo - {t}, flags, fx) {
      if q != t {
        assert next[q] == after[q];
      }
    }
  }

  lemma RewrittenAll(before: Files, after: Files, flags: Flags, fx: Foreign)
    requires RewrittenExcept(before, after, {}, flags, fx)
    ensures Finalized(before, after, flags, fx)
  {
  }

  /**
   * The pass stopped at the log `stopped`, which is as it was: the logs
   * handled before it hold their reports, and every other file is as it was.
   */
  ghost predicate StoppedAt(before: Files, after: Files, stopped: Path, flags: Flags, fx: Foreign) {
    exists todo :: stopped in todo && RewrittenExcept(before, after, todo, flags, fx)
  }

  /**
   * The loop of `sort_txts` over the group directories that hold a log.
   * The content files are not written by this pass, so reading them, and
   * each log, from the state at its start is reading them as the pass goes.
   * A missing payload stops the pass with the logs before it already rewritten.
   */
  method RewriteLogs(snapshot: Files, flags: Flags, fx: Foreign) returns (out: Files, res: Result<(), Path>)
    ensures res.Success? <==> AllPayloadsPresent(snapshot, flags)
    ensures res.Success? ==> Finalized(snapshot, out, flags, fx)
    ensures res.Failure? ==> && res.error !in snapshot && res.error.1 != LogName
                             && StoppedAt(snapshot, out, (res.error.0, LogName), flags, fx)
  {
    var logs := set q | q in snapshot && q.1 == LogName;
    out := snapshot;
    var todo := logs;
    while todo != {}
      invariant todo <= logs
      invariant RewrittenExcept(snapshot, out, todo, flags, fx)
      invariant forall t :: t in logs - todo ==> PayloadsPresent(snapshot, t.0, ReportPairs(snapshot[t], flags))
      decreases todo
    {
      var t :| t in todo;
      var report := GroupReport(t.0, snapshot[t], snapshot, flags, fx);
      if report.Failure? {
        assert t == (t.0, LogName);
        assert t in todo && RewrittenExcept(snapshot, out, todo, flags, fx);
        return out, Failure(report.error);
      }
      RewriteStep(snapshot, out, todo, t, report.value, flags, fx);
      out := out[t := report.value];
      todo := todo - {t};
    }
    assert AllPayloadsPresent(snapshot, flags) by {
      forall g | (g, LogName) in snapshot
        ensures PayloadsPresent(snapshot, g, ReportPairs(snapshot[(g, LogName)], flags))
      {
        assert (g, LogName) in logs - todo;
      }
    }
    RewrittenAll(snapshot, out, flags, fx);
    res := Success(());
  }
}
