/** The wrappers around macOS's `diskutil` program (src/diskutil.rs). The program itself is
    an oracle: a class that answers from its current state and logs every invocation. */
module DiskUtil {
  import opened Base

  // ---------------------------------------------------------------------------
  // The parsed plist records
  // ---------------------------------------------------------------------------

  datatype Partition = Partition(
    content: string, deviceIdentifier: string, diskUuid: string, size: u64,
    volumeName: Option<string>, volumeUuid: Option<string>)

  datatype Disk = Disk(content: string, deviceIdentifier: string, osInternal: bool, partitions: seq<Partition>)

  /** What `diskutil list -plist external physical` reports. */
  datatype DiskList = DiskList(
    allDisks: seq<string>, allDisksAndPartitions: seq<Disk>,
    volumesFromDisks: seq<string>, wholeDisks: seq<string>)

  /** What `diskutil apfs resizeContainer <disk> limits -plist` reports. */
  datatype ApfsResizeLimits = ApfsResizeLimits(
    containerCurrentSize: u64, currentSize: u64, maximumSize: u64,
    minimumSizeNoGuard: u64, minimumSizePreferred: u64, partitionType: string)

  // ---------------------------------------------------------------------------
  // Command lines
  // ---------------------------------------------------------------------------

  predicate IsDigits(s: string) {
    forall i :: 0 <= i < |s| ==> '0' <= s[i] <= '9'
  }

  function DigitChar(d: nat): char
    requires d < 10
  {
    ('0' as int + d) as char
  }

  /** `u64::to_string`: the canonical decimal numeral, without sign or leading zeros. */
  function Decimal(n: nat): (s: string)
    ensures |s| >= 1 && IsDigits(s)
    ensures (s[0] == '0') == (n == 0)
    ensures n == 0 ==> s == "0"
    decreases n
  {
    if n < 10 then [DigitChar(n)] else Decimal(n / 10) + [DigitChar(n % 10)]
  }

  /** The value of a decimal numeral. */
  function ParseDecimal(s: string): nat
    requires IsDigits(s)
    decreases |s|
  {
    if s == [] then 0 else ParseDecimal(s[..|s| - 1]) * 10 + (s[|s| - 1] as int - '0' as int)
  }

  /** The numeral given to `diskutil` denotes exactly the requested size. */
  lemma {:induction false} DecimalRoundTrip(n: nat)
    ensures ParseDecimal(Decimal(n)) == n
    decreases n
  {
    if n >= 10 {
      DecimalRoundTrip(n / 10);
      var s := Decimal(n);
      assert s[..|s| - 1] == Decimal(n / 10);
    }
  }

  /** Arguments of the one query `get_external_disks` makes. */
  const ListExternalArgs: seq<string> := ["list", "-plist", "external", "physical"]

  /** One run of the `diskutil` program with these arguments, or the internal-partition
      lookup that src/install.rs calls (its body is not part of this model). */
  datatype Invocation = Diskutil(args: seq<string>) | InternalPartitionLookup

  /** An invocation that resizes a container: `apfs resizeContainer <disk> <size>`. */
  predicate IsResize(inv: Invocation) {
    inv.Diskutil? && |inv.args| == 4 && inv.args[0] == "apfs" && inv.args[1] == "resizeContainer"
      && |inv.args[3]| > 0 && IsDigits(inv.args[3])
  }

  /** Arguments of the limits query: a read-only query about the container `disk`. */
  function LimitsArgs(disk: string): (args: seq<string>)
    ensures !IsResize(Diskutil(args)) && |args| == 5 && args[2] == disk
  {
    ["apfs", "resizeContainer", disk, "limits", "-plist"]
  }

  /** Arguments of the mutating resize command: it resizes `disk` to a numeral that
      denotes exactly `size`. */
  function ResizeArgs(disk: string, size: u64): (args: seq<string>)
    ensures IsResize(Diskutil(args)) && |args| == 4 && args[2] == disk && ParseDecimal(args[3]) == size
  {
    DecimalRoundTrip(size);
    ["apfs", "resizeContainer", disk, Decimal(size)]
  }

  /** How many invocations in the log change a container's size. */
  function ResizeCount(log: seq<Invocation>): nat {
    if log == [] then 0 else (if IsResize(log[0]) then 1 else 0) + ResizeCount(log[1..])
  }

  lemma {:induction false} ResizeCountAppend(a: seq<Invocation>, b: seq<Invocation>)
    ensures ResizeCount(a + b) == ResizeCount(a) + ResizeCount(b)
    decreases |a|
  {
    if a == [] {
      assert a + b == b;
    } else {
      assert (a + b)[0] == a[0] && (a + b)[1..] == a[1..] + b;
      ResizeCountAppend(a[1..], b);
    }
  }

  /** The limits query never resizes; the resize command always does, and it names the
      disk and the exact size it was given. */
  lemma CommandsClassified(disk: string, size: u64)
    ensures !IsResize(Diskutil(LimitsArgs(disk))) && !IsResize(Diskutil(ListExternalArgs))
    ensures IsResize(Diskutil(ResizeArgs(disk, size)))
    ensures ResizeArgs(disk, size)[2] == disk && ParseDecimal(ResizeArgs(disk, size)[3]) == size
  {
  }

  /** `new_size` lies in the closed interval `[minimum_size_no_guard, maximum_size]`; no size
      does when the report's interval is empty. */
  predicate WithinLimits(limits: ApfsResizeLimits, size: int): (b: bool)
    ensures b ==> limits.minimumSizeNoGuard <= limits.maximumSize
  {
    limits.minimumSizeNoGuard <= size <= limits.maximumSize
  }

  /** The text of the error `resize_apfs_volume` bails with. */
  const OutOfRange: string := "New volume size outside of acceptable range"

  /** The `diskutil` program as the installer sees it. */
  class DiskutilProgram {
    /** Every invocation so far, in order. */
    var log: seq<Invocation>
    /** What the limits query reports right now for each container. */
    var apfsLimits: string -> ApfsResizeLimits
    /** What `list -plist external physical` reports right now. */
    var externalDisks: DiskList
    /** What the internal-partition lookup answers. */
    var internalMacosPartition: Option<string>

    constructor (apfsLimits: string -> ApfsResizeLimits, externalDisks: DiskList, internalMacosPartition: Option<string>)
      ensures log == [] && this.apfsLimits == apfsLimits
      ensures this.externalDisks == externalDisks && this.internalMacosPartition == internalMacosPartition
    {
      log := [];
      this.apfsLimits, this.externalDisks := apfsLimits, externalDisks;
      this.internalMacosPartition := internalMacosPartition;
    }

    /** `get_external_disks`: the `whole_disks` list copied element by element. */
    method GetExternalDisks() returns (disks: seq<string>)
      modifies this`log
      ensures disks == externalDisks.wholeDisks
      ensures log == old(log) + [Diskutil(ListExternalArgs)]
    {
      log := log + [Diskutil(ListExternalArgs)];
      var whole := externalDisks.wholeDisks;
      disks := [];
      var i := 0;
      while i < |whole|
        invariant 0 <= i <= |whole| && disks == whole[..i]
      {
        disks := disks + [whole[i]];
        i := i + 1;
      }
    }

    /** `get_resize_limits`: runs the limits query and picks `minimum_size_no_guard` and
        `maximum_size` out of the report. */
    method GetResizeLimits(disk: string) returns (minSize: u64, maxSize: u64)
      modifies this`log
      ensures minSize == apfsLimits(disk).minimumSizeNoGuard && maxSize == apfsLimits(disk).maximumSize
      ensures log == old(log) + [Diskutil(LimitsArgs(disk))]
    {
      log := log + [Diskutil(LimitsArgs(disk))];
      var limits := apfsLimits(disk);
      minSize, maxSize := limits.minimumSizeNoGuard, limits.maximumSize;
    }

    /** `resize_apfs_volume`: queries the limits afresh, rejects a size outside them, and
        otherwise issues the resize command, succeeding whatever the command prints. */
    method ResizeApfsVolume(disk: string, newSize: u64) returns (r: Result<(), string>)
      modifies this`log
      ensures r.Ok? <==> WithinLimits(apfsLimits(disk), newSize)
      ensures r.Err? ==> r.error == OutOfRange
      ensures log == old(log) + [Diskutil(LimitsArgs(disk))] + (if r.Ok? then [Diskutil(ResizeArgs(disk, newSize))] else [])
      ensures ResizeCount(log) == ResizeCount(old(log)) + (if r.Ok? then 1 else 0)
    {
      var minSize, maxSize := GetResizeLimits(disk);
      if newSize < minSize || newSize > maxSize {
        r := Err(OutOfRange);
      } else {
        log := log + [Diskutil(ResizeArgs(disk, newSize))];
        r := Ok(());
      }
      CommandsClassified(disk, newSize);
      ResizeCountAppend(old(log), [Diskutil(LimitsArgs(disk))]);
      if r.Ok? {
        ResizeCountAppend(old(log) + [Diskutil(LimitsArgs(disk))], [Diskutil(ResizeArgs(disk, newSize))]);
      }
    }

    /** `diskutil::get_internal_macos_partition`, called by src/install.rs. */
    method GetInternalMacosPartition() returns (partition: Option<string>)
      modifies this`log
      ensures partition == internalMacosPartition
      ensures log == old(log) + [InternalPartitionLookup]
    {
      log := log + [InternalPartitionLookup];
      partition := internalMacosPartition;
    }
  }
}
