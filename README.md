# t2linux installer: a verified model of the install pipeline

This project models the control logic of the t2linux installer, a desktop tool that
prepares an Intel Mac with a T2 chip for Linux. It downloads a distribution's ISO image,
flashes it onto a disk, and optionally shrinks the macOS APFS container. The model covers:

- **The install pipeline** (`Install`). The `Installer` record is stepped by the unfold
  closure from `Start` through `DownloadIso`, `FlashIso` and `ResizeMacos` to `Finished`.
  Each call emits one `InstallProgress` event. A failing stage jumps straight to `Finished`
  with `Failed(kind)`. The record is a class whose `Step` method runs the current stage
  against an explicit world: the download volume, the network responses, the zip outcome,
  the block devices (arrays of bytes keyed by path) and the `diskutil` program. The pure
  step function `Transition` and its unrolling `Run` specify the event stream. Every run
  moves forward, has between two and four events, starts with `Started`, and ends with
  exactly one terminal event.
- **The ISO download** (`Distros`). `download.iso` is removed and reopened for appending.
  Each URL's chunk stream is appended in order. A chunk error silently ends its part, and a
  failed send or write aborts the download. The imperative loop is proved against the
  specification `DownloadOutcome`. Its lemmas show that the file is the in-order
  concatenation of what the parts delivered. The catalog record `Distro` comes with its
  derived ordering, proved a total order.
- **The `diskutil` wrappers** (`DiskUtil`). `diskutil` is a class that answers from its
  state and logs each invocation. `resize_apfs_volume` queries the limits afresh and rejects
  a size outside the closed interval `[minimum_size_no_guard, maximum_size]`. Only a size
  inside the interval issues the resize command, and the log counts those mutating calls.
- **The two pages** (`InstallPageUi`, `DownloadPageUi`). The install page's state machine,
  the mapping from installer events to page messages, and the subscription gate. The
  download page's state, its stored progress value and its cancellation token, where
  cancellation wins over a later failure report.

The I/O oracles are parameters or fields: network responses (one per URL), the volume's
capacity and writability, the zip outcome, the devices map, and the `diskutil` answers.
The shared message types live in `AppMessages`, the error enum in `Errors`.

## Model

| member | source | states |
|---|---|---|
| Errors.Message | src/error.rs:4-13 | every error has a non-empty display text |
| Errors.MessageIdentifiesKind | src/error.rs:4-13 | two errors display the same text exactly when they are the same variant (`FileWrite`'s cause is not part of its text) |
| Distros.Lex | src/distro.rs:6-11 | only sequences of equal length compare `Equal`; a shorter sequence whose elements all compare `Equal` to the front of the longer one comes first |
| Distros.CompareString | src/distro.rs:8 | two strings compare `Equal` exactly when they are the same string |
| Distros.CompareCompression | src/distro.rs:9-17 | two compression settings compare `Equal` exactly when they are equal (`Zip` is the only variant) |
| Distros.CompareDistro | src/distro.rs:6-11 | two distros compare `Equal` exactly when they are equal, as `Ord` and `Eq` derived together require |
| Distros.LexTotalOrder | src/distro.rs:6-11 | lexicographic comparison of sequences (first difference decides, proper prefix first) is a total order whose `Equal` is equality, given such an element order |
| Distros.CompareStringTotalOrder | src/distro.rs:8 | `String` ordering is a total order whose `Equal` is equality |
| Distros.CompareDistroTotalOrder | src/distro.rs:6-17 | the derived `Ord` on `Distro` (by name, then compression with `None` first, then the URL list) is a total order consistent with equality, and distros with different names are ordered by name alone |
| Distros.Volume.RemoveIso | src/distro.rs:34 | afterwards `download.iso` does not exist and holds nothing |
| Distros.Volume.OpenAppend | src/distro.rs:35-38 | opening succeeds exactly when the volume is writable; it creates the file and keeps its contents |
| Distros.Volume.Append | src/distro.rs:42 | a write succeeds exactly when the data fits; success appends the data, failure leaves the file unchanged |
| Distros.Volume.Decompress | src/distro.rs:45-53 | the zip step succeeds exactly when the archive outcome is a success, and then the file holds the extracted contents |
| Distros.AppendPart | src/distro.rs:41-43 | appending one part fails exactly when its delivered bytes do not fit; success appends exactly those bytes; failure leaves a prefix of them; the file never shrinks or outgrows the volume |
| Distros.AppendParts | src/distro.rs:39-44 | the file never shrinks and never outgrows the volume; without failure every request was sent and answered with a stream, and the file is the old file plus the concatenation of all parts; a failure is a send or a write error and happens at the last request sent, every earlier request having been answered with a stream; a send failure is that request's own and names its URL |
| Distros.DownloadOutcome | src/distro.rs:32-55 | opening fails exactly when the volume is not writable; a success sent every request, each answered with a stream, and returns what the file holds; a send error names the URL of the last request sent, which failed; a decompression error happens only for a compressed distro after every request was answered |
| Distros.DownloadIso | src/distro.rs:32-55 | the download's result, the final file and the number of requests sent are those of `DownloadOutcome`; the file exists exactly when the volume is writable |
| Distros.AppendChunks | src/distro.rs:41-43 | the inner loop appends a part's chunks up to the first chunk error and reports a failed write, as `AppendPart` specifies |
| Distros.ChunkErrorEndsPart | src/distro.rs:41 | a chunk error ends its part silently: nothing after it is delivered |
| Distros.DownloadIsConcatenation | src/distro.rs:34-44 | with every request sent and the bytes fitting, an uncompressed download succeeds with exactly the in-order concatenation of the parts' bytes, whatever the file held before |
| Distros.AllSentFits | src/distro.rs:39-44 | when every request is sent and all bytes fit, the part loop does not fail |
| Distros.OverflowIsWriteFailure | src/distro.rs:42 | when every request is sent but the bytes do not fit, the part loop fails with a write error |
| Distros.SendFailureStopsDownload | src/distro.rs:39-40 | a failed send at URL `k` aborts the loop: at most `k + 1` requests go out, and if exactly that many, the error names URL `k` |
| Distros.WriteFailureStopsDownload | src/distro.rs:39-44 | a write error happens in the last part requested, which was answered with a stream: the file plus every earlier part fits on the volume, and adding that part's bytes does not |
| Distros.UncompressedReturnsFile | src/distro.rs:45-54 | without compression a successful download returns exactly the file's contents, which are the received bytes |
| DiskUtil.Decimal | src/diskutil.rs:79 | `to_string` of a size is a non-empty digit string without a leading zero (`"0"` for zero) |
| DiskUtil.DecimalRoundTrip | src/diskutil.rs:79 | the numeral passed to `diskutil` denotes exactly the requested size |
| DiskUtil.LimitsArgs | src/diskutil.rs:65 | the limits query names the container and is not a resize command |
| DiskUtil.ResizeArgs | src/diskutil.rs:75-80 | the resize command is a resize command, names the container, and its numeral denotes exactly the requested size |
| DiskUtil.WithinLimits | src/diskutil.rs:72 | the sizes the resize accepts are the closed interval `[minimum_size_no_guard, maximum_size]` of the report, which is empty when the minimum exceeds the maximum |
| DiskUtil.CommandsClassified | src/diskutil.rs:55-80 | the limits and list queries are not resize commands; the resize command is one, and names the disk and the exact size |
| DiskUtil.ResizeCountAppend | src/diskutil.rs:75-80 | the count of resize commands in a log is additive over concatenation |
| DiskUtil.DiskutilProgram.GetExternalDisks | src/diskutil.rs:54-62 | returns the reported `whole_disks` in order; logs exactly the one list query |
| DiskUtil.DiskutilProgram.GetResizeLimits | src/diskutil.rs:64-68 | returns `minimum_size_no_guard` and `maximum_size` of the current report; logs exactly the limits query |
| DiskUtil.DiskutilProgram.ResizeApfsVolume | src/diskutil.rs:70-82 | succeeds exactly when the size lies in the closed interval of the freshly queried limits, else fails with the out-of-range text; logs the limits query and, only on success, the resize command; the resize count grows by one exactly on success |
| DiskUtil.DiskutilProgram.GetInternalMacosPartition | src/install.rs:95 | answers the internal macOS partition and logs the lookup |
| Install.Transition | src/install.rs:66-113 | from every step but `Finished` one event is emitted and the step strictly advances; the new step is `Finished` exactly when the event is terminal; `Finished` ends the stream in place |
| Install.Run | src/install.rs:58-117 | the stream from any step yields at most one event per remaining step |
| Install.RunShape | src/install.rs:58-117 | the stream from any step has at most one event per remaining step, is empty exactly from `Finished`, and otherwise ends with its only terminal event |
| Install.RunFromStart | src/install.rs:66-113 | the complete stream stage outcome by stage outcome: a download failure gives `[Started, Failed(IsoDownload)]`, a flash failure `[Started, DownloadedIso, Failed(IsoFlash)]`, otherwise four events ending in `Finished` or `Failed(MacosResize)` |
| Install.StartedRunShape | src/install.rs:58-117 | a complete stream has two to four events, starts with `Started`, and only its last event is terminal |
| Install.DevicePath | src/install.rs:54 | the device path is `/dev/` followed by exactly the disk name |
| Install.DevicePathInjective | src/install.rs:54 | different disk names open different device paths |
| Install.Overlay | src/install.rs:49-57 | the device after the copy has its own length, the image's bytes at the front, and its old bytes after the image |
| Install.FlashImage | src/install.rs:49-57 | flashing succeeds exactly when `/dev/<disk>` exists and the image fits; that device then holds the overlay of the image and no other device changes |
| Install.ShrinkMacos | src/install.rs:93-111 | the resize stage succeeds exactly when no size is set or the internal partition exists and the size is within its limits; the `diskutil` log grows by exactly the lookup, limits query and resize it performs |
| Install.Installer.constructor | src/install.rs:61-65 | a fresh installer is at `Start` with no image |
| Install.Installer.Step | src/install.rs:66-113 | one unfold call: the new step and the event are the step function's on the stages' real outcomes; only the download step touches the volume, only the flash step the devices, only the resize step `diskutil` |
| Install.Drain | src/install.rs:60-116 | pulling the stream to its end yields exactly the run from the installer's current step; from a step up to the flash step, a successful download leaves `/dev/<disk>` holding the image overlaid on its old bytes; from a later step no device changes; no device other than `/dev/<disk>` ever changes; a run that reaches the flash step and fails it, or starts at `Finished`, never runs `diskutil` |
| Install.Install | src/install.rs:58-117 | the consumed stream is the run on the stages' outcomes, has two to four events, starts with `Started` and ends with its only terminal event; a failed download touches no device and no `diskutil`; a successful download leaves `/dev/<disk>`, when it exists, holding the downloaded image overlaid on its old bytes, and no other device changes; a failed flash never runs `diskutil`; without a shrink size `diskutil` is never run |
| InstallPageUi.MessageState | src/ui/install_page.rs:50-63 | no message returns the page to `NotStarted` |
| InstallPageUi.MessageStateInjective | src/ui/install_page.rs:50-63 | different messages select different states, so the state determines which message came last |
| InstallPageUi.LastMessageWins | src/ui/install_page.rs:44-66 | after any sequence of messages the state is the one selected by the last install-page message, whatever came before |
| InstallPageUi.OtherMessagesIgnored | src/ui/install_page.rs:49 | messages for other pages leave the state unchanged |
| InstallPageUi.InstallPage.constructor | src/ui/install_page.rs:35-40 | the page starts in `NotStarted` with the given settings |
| InstallPageUi.InstallPage.Update | src/ui/install_page.rs:44-66 | the new state is the one the message selects (unchanged for other pages' messages), and the page never navigates |
| InstallPageUi.Installing | src/ui/install_page.rs:130-132 | the install subscription runs exactly in `Starting`, the three stage states and `Failed` |
| InstallPageUi.ProgressMessage | src/ui/install_page.rs:113-127 | no installer event maps to `StartInstallation` |
| InstallPageUi.TerminalEventsSettle | src/ui/install_page.rs:113-127 | an event is terminal exactly when its state is `Finished` or `Failed`; a failure carries its error's display text; only `Finished` stops the subscription |
| InstallPageUi.Notices | src/ui/install_page.rs:113-127 | the page receives one message per installer event, in order, each the event's mapped page message |
| InstallPageUi.LastEventWins | src/ui/install_page.rs:113-127 | feeding installer events leaves the page in the state of the last event |
| InstallPageUi.CompleteRunSettles | src/ui/install_page.rs:113-127 | a complete installer stream leaves the page `Finished` when every stage succeeded, else `Failed` with the first failing stage's text; the subscription stops exactly in the first case |
| DownloadPageUi.Apply | src/ui/download_page.rs:48-67 | the token is never reset, only `Cancel` cancels it, and only `DownloadProgress` changes the stored progress |
| DownloadPageUi.CancelOnlyCancels | src/ui/download_page.rs:53-55 | `Cancel` cancels the token and changes nothing else |
| DownloadPageUi.FailureAfterCancelIsCancellation | src/ui/download_page.rs:59-65 | a failure report shows `Cancelled` once the token is cancelled and its text verbatim otherwise, touching nothing else |
| DownloadPageUi.RemainingMessages | src/ui/download_page.rs:48-66 | a progress report stores its value and nothing else, a restart shows `Downloading` and keeps the rest, `Finished` leaves the fields alone, and other pages' messages are ignored |
| DownloadPageUi.ApplyAllConsistent | src/ui/download_page.rs:44-70 | a page that shows `Cancelled` has a cancelled token, after any sequence of messages |
| DownloadPageUi.CancellationIsPermanent | src/ui/download_page.rs:44-70 | once cancelled, the token stays cancelled whatever messages follow |
| DownloadPageUi.CancelWinsOverLaterFailure | src/ui/download_page.rs:53-65 | a failure arriving any time after a `Cancel` leaves the page `Cancelled` |
| DownloadPageUi.DownloadPage.constructor | src/ui/download_page.rs:34-41 | the page starts downloading, with progress `0.0` and a live token |
| DownloadPageUi.DownloadPage.Update | src/ui/download_page.rs:44-70 | the fields change as `Apply` says; the finish page is returned for `Finished` and for no other message |

## Left out

- src/authopen.rs and src/macos.rs (Security-framework calls, `authopen`, descriptor passing) are not part of this model.
- Network and parsing: the catalog fetch `Distro::get_all`, the HTTP requests and the plist parsing. Their results are inputs; the `unwrap` panics on malformed output are not modelled.
- Distros.Volume.Decompress: the zip crate's effect is uninterpreted. The source appends the extracted entry to the same append-mode file; the model replaces the file by the oracle's contents, and a failure leaves the file as it was. The file is opened with `append(true)` and no `read(true)`, so the clone handed to `ZipArchive::new` is write-only and its read plausibly fails for every zipped distro; the model does not decide this and leaves the outcome to the `ZipOutcome` input.
- Distros.Volume.Append: a write either succeeds whole or fails writing nothing; partial `write_all` progress before an I/O error is not modelled.
- Distros.Volume.RemoveIso: removal always happens. The source discards the error of `remove_file`; if the removal fails for a reason other than the file being absent and the append-open then succeeds, the source appends to the stale bytes. The model does not represent that case, so `DownloadIsConcatenation` holds "whatever the file held before" only because the old file is always removed.
- Distros.DownloadIso: the final read-only reopen of `download.iso` always succeeds and reads from the start; the handle is modelled as the file's bytes.
- Install.FlashImage: `truncate(true)` on a block device is treated as having no effect; the copy writes from offset 0 and fails when the image runs past the end of the device, after writing what fit. Other I/O errors of the copy (a failed read of `download.iso`, a failed write to the device while the image still fits, which leave only a prefix written and report `Failed(IsoFlash)`) are not modelled, and a device that cannot be opened is a path missing from `devices`. `FlashImage`'s success clause and the device clauses of `Install.Drain` and `Install.Install` hold on the assumption that no such error occurs.
- `diskutil::get_internal_macos_partition` is not in the modelled diskutil.rs; its answer is a field of `DiskutilProgram`.
- The `diskutil` command runner's `unwrap` on a failed spawn and the resize command's own output are not modelled; as in the source, the resize succeeds whatever the command prints.
- Async scheduling of the streams and the concurrency of the cancellation token: the token is a boolean field, and a stream is consumed by pulling it in order.
- The download page's settings (`DownloadSettings`) and its `subscription_task` mapping: that snapshot's installer API is not in the modelled install.rs.
- The `f64` progress value is stored as its bit pattern; nothing numeric is claimed about it.
- All `view` methods, src/ui/main_page.rs, src/ui/finish_page.rs, src/main.rs, src/disk/ and the Python prototypes.
- src/ui/app.rs in this snapshot declares only the main page's message variant; `AppMessage` here also has the `InstallPage` and `Download` variants the two pages match on, and the main page's payload is not modelled.
- Behaviour the code does not have, and the model therefore does not either:
  - no content hash of the image is checked, so there is no checksum-mismatch outcome;
  - the installer stream of src/install.rs has no cancellation and no per-chunk progress events;
  - the zip step writes into the downloaded file itself, not into a temporary file;
  - `Distro` is ordered by all its fields in turn (the derived `Ord`), not by name alone.
