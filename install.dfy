/** The install pipeline (src/install.rs): the step machine driven by `futures::stream::unfold`,
    the flashing of the image onto a device, and the stream of progress events. */
module Install {
  import opened Base
  import opened Errors
  import Distros
  import DiskUtil

  // ---------------------------------------------------------------------------
  // Data model
  // ---------------------------------------------------------------------------

  datatype InstallStep = Start | DownloadIso | FlashIso | ResizeMacos | Finished

  /** Position of a step in the pipeline. */
  function Rank(s: InstallStep): nat {
    match s
    case Start => 0
    case DownloadIso => 1
    case FlashIso => 2
    case ResizeMacos => 3
    case Finished => 4
  }

  /** One item of the stream `install()` returns. */
  datatype InstallProgress = Started | DownloadedIso | ResizingMacos | Finished | Failed(error: Error)

  /** The events that end a run. */
  predicate IsTerminal(p: InstallProgress) {
    p.Finished? || p.Failed?
  }

  /** `InstallSettings`: the distro, the disk name to flash (under `/dev/`), and the size
      to shrink the macOS container to, if any. `InstallSettings::new` is the constructor. */
  datatype InstallSettings = InstallSettings(distro: Distros.Distro, flashDisk: string, macosSize: Option<u64>)

  // ---------------------------------------------------------------------------
  // The step machine
  // ---------------------------------------------------------------------------

  /** Whether each stage succeeds when it runs. */
  datatype StageResults = StageResults(downloaded: bool, flashed: bool, resized: bool)

  /** The step function of the unfold: from step `s`, the next step and the event emitted
      (`None` ends the stream). */
  function Transition(s: InstallStep, r: StageResults): (t: (InstallStep, Option<InstallProgress>))
    ensures t.1.Some? <==> s != InstallStep.Finished
    ensures t.1.Some? ==> Rank(t.0) > Rank(s)
    ensures t.1.Some? ==> (t.0 == InstallStep.Finished <==> IsTerminal(t.1.value))
    ensures t.1.None? ==> t.0 == s
  {
    match s
    case Start => (DownloadIso, Some(Started))
    case DownloadIso =>
      if r.downloaded then (FlashIso, Some(DownloadedIso))
      else (InstallStep.Finished, Some(Failed(IsoDownload)))
    case FlashIso =>
      if r.flashed then (ResizeMacos, Some(ResizingMacos))
      else (InstallStep.Finished, Some(Failed(IsoFlash)))
    case ResizeMacos =>
      if r.resized then (InstallStep.Finished, Some(InstallProgress.Finished))
      else (InstallStep.Finished, Some(Failed(MacosResize)))
    case Finished => (InstallStep.Finished, None)
  }

  /** The events the stream yields from step `s` on. */
  function Run(s: InstallStep, r: StageResults): (t: seq<InstallProgress>)
    ensures |t| <= 4 - Rank(s)
    decreases 4 - Rank(s)
  {
    var (next, event) := Transition(s, r);
    if event.None? then [] else [event.value] + Run(next, r)
  }

  /** Shape of every run: at most one event per remaining step, and a run that starts
      before `Finished` ends with exactly one terminal event, its last. */
  lemma {:induction false} RunShape(s: InstallStep, r: StageResults)
    ensures |Run(s, r)| <= 4 - Rank(s)
    ensures s == InstallStep.Finished <==> Run(s, r) == []
    ensures Run(s, r) != [] ==> IsTerminal(Run(s, r)[|Run(s, r)| - 1])
    ensures forall i :: 0 <= i < |Run(s, r)| - 1 ==> !IsTerminal(Run(s, r)[i])
    decreases 4 - Rank(s)
  {
    var (next, event) := Transition(s, r);
    if event.Some? {
      RunShape(next, r);
      var t := Run(s, r);
      assert t == [event.value] + Run(next, r);
      if next == InstallStep.Finished {
        assert t == [event.value];
      } else {
        forall i | 0 <= i < |t| - 1 ensures !IsTerminal(t[i]) {
          if i > 0 { assert t[i] == Run(next, r)[i - 1]; }
        }
      }
    }
  }

  /** The whole trace of a run, stage outcome by stage outcome. */
  lemma {:induction false} RunFromStart(r: StageResults)
    ensures Run(Start, r) ==
      if !r.downloaded then [Started, Failed(IsoDownload)]
      else if !r.flashed then [Started, DownloadedIso, Failed(IsoFlash)]
      else [Started, DownloadedIso, ResizingMacos,
            if r.resized then InstallProgress.Finished else Failed(MacosResize)]
  {
    assert Run(InstallStep.Finished, r) == [];
    assert Run(ResizeMacos, r) == [Transition(ResizeMacos, r).1.value];
    if r.downloaded {
      assert Run(FlashIso, r) == [Transition(FlashIso, r).1.value] + Run(Transition(FlashIso, r).0, r);
    }
    assert Run(DownloadIso, r) == [Transition(DownloadIso, r).1.value] + Run(Transition(DownloadIso, r).0, r);
  }

  /** A complete run from `Start`: between two and four events, the first `Started`, the
      last the only terminal one. */
  lemma StartedRunShape(r: StageResults)
    ensures 2 <= |Run(Start, r)| <= 4 && Run(Start, r)[0] == Started
    ensures IsTerminal(Run(Start, r)[|Run(Start, r)| - 1])
    ensures forall i :: 0 <= i < |Run(Start, r)| - 1 ==> !IsTerminal(Run(Start, r)[i])
  {
    RunShape(Start, r);
    RunFromStart(r);
  }

  // ---------------------------------------------------------------------------
  // Flashing
  // ---------------------------------------------------------------------------

  /** `format!("/dev/{}", flash_disk)`. */
  function DevicePath(disk: string): (p: string)
    ensures |p| == |disk| + 5 && p[..5] == "/dev/" && p[5..] == disk
  {
    "/dev/" + disk
  }

  /** Different disk names open different device paths. */
  lemma DevicePathInjective(a: string, b: string)
    ensures DevicePath(a) == DevicePath(b) ==> a == b
  {
    if DevicePath(a) == DevicePath(b) {
      assert a == DevicePath(a)[5..] && b == DevicePath(b)[5..];
    }
  }

  /** A device's bytes after `image` has been copied onto it from offset 0: the image (as far
      as the device reaches), and the device's own bytes after it. */
  function Overlay(device: seq<byte>, image: seq<byte>): (d: seq<byte>)
    ensures |d| == |device|
    ensures forall i :: 0 <= i < |d| && i < |image| ==> d[i] == image[i]
    ensures forall i :: |image| <= i < |d| ==> d[i] == device[i]
  {
    if |image| <= |device| then image + device[|image|..] else image[..|device|]
  }

  /** Flashing succeeds when the device exists and the image fits on it. */
  predicate FlashSucceeds(disk: string, iso: seq<byte>, devices: map<string, array<byte>>) {
    DevicePath(disk) in devices && |iso| <= devices[DevicePath(disk)].Length
  }

  /** `InstallSettings::flash_iso`: opens `/dev/<flash_disk>` and `io::copy`s the image onto
      it from offset 0; a copy that runs off the end of the device fails. No other device is
      touched. */
  method FlashImage(settings: InstallSettings, iso: seq<byte>, devices: map<string, array<byte>>)
    returns (ok: bool)
    modifies devices.Values
    ensures ok == FlashSucceeds(settings.flashDisk, iso, devices)
    ensures DevicePath(settings.flashDisk) in devices ==>
      var dev := devices[DevicePath(settings.flashDisk)];
      dev[..] == Overlay(old(dev[..]), iso) && unchanged(devices.Values - {dev})
    ensures DevicePath(settings.flashDisk) !in devices ==> unchanged(devices.Values)
  {
    var path := DevicePath(settings.flashDisk);
    if path !in devices {
      return false;
    }
    var dev := devices[path];
    var i := 0;
    while i < |iso| && i < dev.Length
      modifies dev
      invariant 0 <= i <= |iso| && i <= dev.Length
      invariant forall k :: 0 <= k < i ==> dev[k] == iso[k]
      invariant forall k :: i <= k < dev.Length ==> dev[k] == old(dev[k])
    {
      dev[i] := iso[i];
      i := i + 1;
    }
    ok := i == |iso|;
    ghost var expected := Overlay(old(dev[..]), iso);
    assert forall k :: 0 <= k < dev.Length ==> dev[..][k] == expected[k];
  }

  // ---------------------------------------------------------------------------
  // The installer record
  // ---------------------------------------------------------------------------

  /** Whether the resize stage succeeds: nothing to do, or the internal partition exists and
      the size is within its limits. */
  predicate ResizeSucceeds(size: Option<u64>, partition: Option<string>, limits: string -> DiskUtil.ApfsResizeLimits) {
    match size
    case None => true
    case Some(n) => partition.Some? && DiskUtil.WithinLimits(limits(partition.value), n)
  }

  /** The invocations the resize stage adds to the `diskutil` log. */
  function ResizeLog(size: Option<u64>, partition: Option<string>, limits: string -> DiskUtil.ApfsResizeLimits)
    : seq<DiskUtil.Invocation>
  {
    match size
    case None => []
    case Some(n) =>
      [DiskUtil.InternalPartitionLookup] +
      match partition
      case None => []
      case Some(disk) =>
        [DiskUtil.Diskutil(DiskUtil.LimitsArgs(disk))] +
        (if DiskUtil.WithinLimits(limits(disk), n) then [DiskUtil.Diskutil(DiskUtil.ResizeArgs(disk, n))] else [])
  }

  /** The resize stage: without a size nothing happens; otherwise it looks up the internal
      macOS partition and asks `diskutil` to resize it, failing when there is no such
      partition or the size is out of range. */
  method ShrinkMacos(size: Option<u64>, du: DiskUtil.DiskutilProgram) returns (ok: bool)
    modifies du`log
    ensures ok == ResizeSucceeds(size, du.internalMacosPartition, du.apfsLimits)
    ensures du.log == old(du.log) + ResizeLog(size, du.internalMacosPartition, du.apfsLimits)
  {
    if size.None? {
      return true;
    }
    var disk := du.GetInternalMacosPartition();
    if disk.None? {
      return false;
    }
    var resized := du.ResizeApfsVolume(disk.value, size.value);
    ok := resized.Ok?;
  }

  /** How each stage turns out against the given world; `iso` is the downloaded image the
      flash stage copies. */
  function Outcomes(settings: InstallSettings, iso: Option<seq<byte>>, parts: seq<Distros.Response>,
                    zip: Distros.ZipOutcome, writable: bool, capacity: nat, devices: map<string, array<byte>>,
                    partition: Option<string>, limits: string -> DiskUtil.ApfsResizeLimits): StageResults
    requires |parts| == |settings.distro.iso|
  {
    StageResults(
      Distros.DownloadOutcome(settings.distro, parts, zip, writable, capacity).result.Ok?,
      iso.Some? && FlashSucceeds(settings.flashDisk, iso.value, devices),
      ResizeSucceeds(settings.macosSize, partition, limits))
  }

  /** The `Installer` state the unfold threads through: the current step, the settings and
      the downloaded image. */
  class Installer {
    var step: InstallStep
    const settings: InstallSettings
    var isoFile: Option<seq<byte>>

    /** The flash stage's `unwrap` of `iso_file` cannot fail. */
    ghost predicate Valid()
      reads this
    {
      (step == FlashIso || step == ResizeMacos) ==> isoFile.Some?
    }

    constructor (settings: InstallSettings)
      ensures step == Start && this.settings == settings && isoFile == None && Valid()
    {
      step := Start;
      this.settings := settings;
      isoFile := None;
    }

    /** One call of the unfold closure: runs the stage of the current step and yields its
        event. `vol`, `parts`, `zip`, `devices` and `du` are the world the stages act on. */
    method Step(vol: Distros.Volume, parts: seq<Distros.Response>, zip: Distros.ZipOutcome,
                devices: map<string, array<byte>>, du: DiskUtil.DiskutilProgram)
      returns (event: Option<InstallProgress>)
      requires Valid() && |parts| == |settings.distro.iso|
      modifies this, vol, devices.Values, du`log
      ensures Valid()
      ensures (step, event) == Transition(old(step),
        Outcomes(settings, old(isoFile), parts, zip, vol.writable, vol.capacity, devices,
                 du.internalMacosPartition, du.apfsLimits))
      ensures old(step) == DownloadIso ==>
        var o := Distros.DownloadOutcome(settings.distro, parts, zip, vol.writable, vol.capacity);
        vol.iso == o.file && vol.isoExists == vol.writable &&
        isoFile == (if o.result.Ok? then Some(o.result.value) else old(isoFile))
      ensures old(step) != DownloadIso ==> unchanged(vol) && isoFile == old(isoFile)
      ensures old(step) == FlashIso && DevicePath(settings.flashDisk) in devices ==>
        var dev := devices[DevicePath(settings.flashDisk)];
        dev[..] == Overlay(old(dev[..]), old(isoFile).value) && unchanged(devices.Values - {dev})
      ensures old(step) != FlashIso || DevicePath(settings.flashDisk) !in devices ==> unchanged(devices.Values)
      ensures du.log == old(du.log) +
        if old(step) == ResizeMacos then ResizeLog(settings.macosSize, du.internalMacosPartition, du.apfsLimits) else []
    {
      match step
      case Start =>
        step := DownloadIso;
        event := Some(Started);
      case DownloadIso =>
        var iso, _ := Distros.DownloadIso(settings.distro, vol, parts, zip);
        if iso.Err? {
          step := InstallStep.Finished;
          return Some(Failed(IsoDownload));
        }
        isoFile := Some(iso.value);
        step := FlashIso;
        event := Some(DownloadedIso);
      case FlashIso =>
        var ok := FlashImage(settings, isoFile.value, devices);
        if !ok {
          step := InstallStep.Finished;
          return Some(Failed(IsoFlash));
        }
        step := ResizeMacos;
        event := Some(ResizingMacos);
      case ResizeMacos =>
        var ok := ShrinkMacos(settings.macosSize, du);
        step := InstallStep.Finished;
        event := Some(if ok then InstallProgress.Finished else Failed(MacosResize));
      case Finished =>
        event := None;
    }
  }

  /** How each stage of a whole run turns out: the flash stage copies what the download
      stage returned. */
  function Expected(settings: InstallSettings, parts: seq<Distros.Response>, zip: Distros.ZipOutcome,
                    writable: bool, capacity: nat, devices: map<string, array<byte>>,
                    partition: Option<string>, limits: string -> DiskUtil.ApfsResizeLimits): StageResults
    requires |parts| == |settings.distro.iso|
  {
    var downloaded := Distros.DownloadOutcome(settings.distro, parts, zip, writable, capacity).result;
    Outcomes(settings, if downloaded.Ok? then Some(downloaded.value) else None,
             parts, zip, writable, capacity, devices, partition, limits)
  }

  /** The stage a step runs turns out as the whole run expects. */
  lemma StageAgrees(s: InstallStep, settings: InstallSettings, iso: Option<seq<byte>>, parts: seq<Distros.Response>,
                    zip: Distros.ZipOutcome, writable: bool, capacity: nat, devices: map<string, array<byte>>,
                    partition: Option<string>, limits: string -> DiskUtil.ApfsResizeLimits)
    requires |parts| == |settings.distro.iso|
    requires var downloaded := Distros.DownloadOutcome(settings.distro, parts, zip, writable, capacity).result;
      (s == FlashIso || s == ResizeMacos) ==> downloaded.Ok? && iso == Some(downloaded.value)
    ensures Transition(s, Outcomes(settings, iso, parts, zip, writable, capacity, devices, partition, limits))
         == Transition(s, Expected(settings, parts, zip, writable, capacity, devices, partition, limits))
  {
  }

  /** One pull on the event stream: the step the installer takes goes as the whole run
      expects, and the stages so far leave devices and `diskutil` alone unless the download
      succeeded and a shrink size is set. */
  method Advance(installer: Installer, vol: Distros.Volume, parts: seq<Distros.Response>,
                 zip: Distros.ZipOutcome, devices: map<string, array<byte>>, du: DiskUtil.DiskutilProgram,
                 ghost r: StageResults)
    returns (event: Option<InstallProgress>)
    requires installer.Valid() && |parts| == |installer.settings.distro.iso|
    requires r == Expected(installer.settings, parts, zip, vol.writable, vol.capacity, devices,
                           du.internalMacosPartition, du.apfsLimits)
    requires var downloaded := Distros.DownloadOutcome(installer.settings.distro, parts, zip, vol.writable, vol.capacity).result;
      (installer.step == FlashIso || installer.step == ResizeMacos) ==>
      downloaded.Ok? && installer.isoFile == Some(downloaded.value)
    modifies installer, vol, devices.Values, du`log
    ensures installer.Valid()
    ensures (installer.step, event) == Transition(old(installer.step), r)
    ensures var downloaded := Distros.DownloadOutcome(installer.settings.distro, parts, zip, vol.writable, vol.capacity).result;
      (installer.step == FlashIso || installer.step == ResizeMacos) ==>
      downloaded.Ok? && installer.isoFile == Some(downloaded.value)
    ensures !r.downloaded ==> du.log == old(du.log) && unchanged(devices.Values)
    ensures installer.settings.macosSize.None? ==> du.log == old(du.log)
    ensures old(installer.step) == FlashIso && DevicePath(installer.settings.flashDisk) in devices ==>
      var dev := devices[DevicePath(installer.settings.flashDisk)];
      dev[..] == Overlay(old(dev[..]), old(installer.isoFile).value)
    ensures old(installer.step) != FlashIso ==> unchanged(devices.Values)
    ensures DevicePath(installer.settings.flashDisk) in devices ==>
      unchanged(devices.Values - {devices[DevicePath(installer.settings.flashDisk)]})
    ensures DevicePath(installer.settings.flashDisk) !in devices ==> unchanged(devices.Values)
    ensures old(installer.step) != ResizeMacos ==> du.log == old(du.log)
  {
    ghost var before, beforeIso := installer.step, installer.isoFile;
    event := installer.Step(vol, parts, zip, devices, du);
    StageAgrees(before, installer.settings, beforeIso, parts, zip, vol.writable, vol.capacity, devices,
                du.internalMacosPartition, du.apfsLimits);
  }

  /** Pulls events from the installer until the stream ends: the rest of the run from the
      installer's current step. */
  method Drain(installer: Installer, vol: Distros.Volume, parts: seq<Distros.Response>,
               zip: Distros.ZipOutcome, devices: map<string, array<byte>>, du: DiskUtil.DiskutilProgram,
               ghost r: StageResults)
    returns (events: seq<InstallProgress>)
    requires installer.Valid() && |parts| == |installer.settings.distro.iso|
    requires r == Expected(installer.settings, parts, zip, vol.writable, vol.capacity, devices,
                           du.internalMacosPartition, du.apfsLimits)
    requires var downloaded := Distros.DownloadOutcome(installer.settings.distro, parts, zip, vol.writable, vol.capacity).result;
      (installer.step == FlashIso || installer.step == ResizeMacos) ==>
      downloaded.Ok? && installer.isoFile == Some(downloaded.value)
    modifies installer, vol, devices.Values, du`log
    ensures events == Run(old(installer.step), r)
    ensures !r.downloaded ==> du.log == old(du.log) && unchanged(devices.Values)
    ensures installer.settings.macosSize.None? ==> du.log == old(du.log)
    ensures var downloaded := Distros.DownloadOutcome(installer.settings.distro, parts, zip, vol.writable, vol.capacity).result;
      var path := DevicePath(installer.settings.flashDisk);
      Rank(old(installer.step)) <= Rank(FlashIso) && downloaded.Ok? && path in devices ==>
      devices[path][..] == Overlay(old(devices[path][..]), downloaded.value)
    ensures Rank(old(installer.step)) > Rank(FlashIso) ==> unchanged(devices.Values)
    ensures DevicePath(installer.settings.flashDisk) in devices ==>
      unchanged(devices.Values - {devices[DevicePath(installer.settings.flashDisk)]})
    ensures DevicePath(installer.settings.flashDisk) !in devices ==> unchanged(devices.Values)
    ensures (Rank(old(installer.step)) <= Rank(FlashIso) && !r.flashed) || old(installer.step) == InstallStep.Finished ==>
      du.log == old(du.log)
    decreases 4 - Rank(installer.step)
  {
    ghost var before := installer.step;
    ghost var path := DevicePath(installer.settings.flashDisk);
    ghost var device := if path in devices then devices[path][..] else [];
    var event := Advance(installer, vol, parts, zip, devices, du, r);
    if event.None? {
      return [];
    }
    ghost var device' := if path in devices then devices[path][..] else [];
    assert before != FlashIso ==> device' == device;
    var rest := Drain(installer, vol, parts, zip, devices, du, r);
    events := [event.value] + rest;
  }

  /** `InstallSettings::install` consumed to the end: a fresh `Installer` at `Start`, stepped
      until the closure yields `None`. The events are the run of the step machine on the
      stages' actual outcomes; no device other than `/dev/<disk>` changes, a failed download
      leaves every device and `diskutil` alone, a failed flash leaves `diskutil` alone, and
      without a shrink size `diskutil` is never consulted. */
  method Install(settings: InstallSettings, vol: Distros.Volume, parts: seq<Distros.Response>,
                 zip: Distros.ZipOutcome, devices: map<string, array<byte>>, du: DiskUtil.DiskutilProgram)
    returns (events: seq<InstallProgress>)
    requires |parts| == |settings.distro.iso|
    modifies vol, devices.Values, du`log
    ensures events == Run(Start, Expected(settings, parts, zip, vol.writable, vol.capacity, devices,
                                          du.internalMacosPartition, du.apfsLimits))
    ensures 2 <= |events| <= 4 && events[0] == Started && IsTerminal(events[|events| - 1])
    ensures forall i :: 0 <= i < |events| - 1 ==> !IsTerminal(events[i])
    ensures !Distros.DownloadOutcome(settings.distro, parts, zip, vol.writable, vol.capacity).result.Ok? ==>
      du.log == old(du.log) && unchanged(devices.Values)
    ensures settings.macosSize.None? ==> du.log == old(du.log)
    ensures var downloaded := Distros.DownloadOutcome(settings.distro, parts, zip, vol.writable, vol.capacity).result;
      var path := DevicePath(settings.flashDisk);
      downloaded.Ok? && path in devices ==> devices[path][..] == Overlay(old(devices[path][..]), downloaded.value)
    ensures DevicePath(settings.flashDisk) in devices ==> unchanged(devices.Values - {devices[DevicePath(settings.flashDisk)]})
    ensures DevicePath(settings.flashDisk) !in devices ==> unchanged(devices.Values)
    ensures var r := Expected(settings, parts, zip, vol.writable, vol.capacity, devices,
                              du.internalMacosPartition, du.apfsLimits);
      !r.flashed ==> du.log == old(du.log)
  {
    ghost var r := Expected(settings, parts, zip, vol.writable, vol.capacity, devices,
                            du.internalMacosPartition, du.apfsLimits);
    var installer := new Installer(settings);
    events := Drain(installer, vol, parts, zip, devices, du, r);
    StartedRunShape(r);
  }
}
