/** One run of the program over parsed devices: the output root, the device loop and the closing pass. */
module Pipeline {
  import opened Wrappers
  import opened Svd
  import opened Naming
  import opened Store
  import opened StoreProperties

  /**
   * A whole run: an emptied output root, every device in order, then the
   * closing pass. A run that writes nothing has no output root to list, and
   * a run whose names have no line breaks never meets a missing payload.
   */
  method Run(devices: seq<Device>, flags: Flags, fx: Foreign) returns (dir: OutputDir, outcome: Result<(), FinalizeError>)
    ensures fresh(dir)
    ensures var written := DevicesStep(map[], devices, flags, fx);
            && (!Writes(devices) ==> outcome == Failure(NoOutputRoot) && dir.files == map[])
            && (Writes(devices) && outcome.Failure? ==> outcome.error.MissingPayload?)
            && (Writes(devices) ==> (outcome.Success? <==> AllPayloadsPresent(written, flags)))
            && (Writes(devices) && PlainInputs(devices) ==> outcome.Success?)
            && (outcome.Success? ==> Finalized(written, dir.files, flags, fx))
            && (outcome.Failure? && outcome.error.MissingPayload? ==>
                  && outcome.error.path !in written
                  && StoppedAt(written, dir.files, (outcome.error.path.0, LogName), flags, fx))
  {
    dir := new OutputDir();
    var i := 0;
    while i < |devices|
      invariant 0 <= i <= |devices|
      invariant dir.files == DevicesStep(map[], devices[..i], flags, fx)
    {
      assert devices[..i + 1][..i] == devices[..i];
      dir.AddDevice(devices[i], flags, fx);
      i := i + 1;
    }
    assert devices[..i] == devices;
    if Writes(devices) {
      SomethingWritten(map[], devices, flags, fx);
    } else {
      NothingWritten(map[], devices, flags, fx);
    }
    if PlainInputs(devices) {
      RunFindsPayloads(devices, flags, fx);
    }
    outcome := dir.SortTxts(flags, fx);
  }
}
