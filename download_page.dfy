/** The download page (src/ui/download_page.rs): its `update` over the page state, the stored
    progress value and the cancellation token, which is modelled as a flag. */
module DownloadPageUi {
  import opened Base
  import opened AppMessages

  /** `DownloadState`. */
  datatype DownloadState = Downloading | Cancelled | Failed(message: string)

  /** The page's fields as one value: its state, the last progress value and whether its
      token has been cancelled. */
  datatype Snapshot = Snapshot(state: DownloadState, progress: F64, cancelled: bool)

  /** The page `DownloadPage::new` builds: downloading, progress `0.0`, token live. */
  const Initial: Snapshot := Snapshot(Downloading, 0, false)

  /** What `update` makes of the page's fields for one message. */
  function Apply(p: Snapshot, message: AppMessage): (q: Snapshot)
    ensures p.cancelled ==> q.cancelled
    ensures q.cancelled != p.cancelled ==> message == Download(Cancel)
    ensures q.progress != p.progress ==> message.Download? && message.download.DownloadProgress?
  {
    if !message.Download? then p
    else match message.download
      case StartedIsoDownload => p.(state := Downloading)
      case Cancel => p.(cancelled := true)
      case Finished => p
      case Failed(text) => p.(state := if p.cancelled then Cancelled else DownloadState.Failed(text))
      case DownloadProgress(x) => p.(progress := x)
  }

  /** What `update` makes of the page's fields for a sequence of messages. */
  function ApplyAll(p: Snapshot, messages: seq<AppMessage>): Snapshot
    decreases |messages|
  {
    if messages == [] then p else ApplyAll(Apply(p, messages[0]), messages[1..])
  }

  /** `Cancel` cancels the token and touches nothing else. */
  lemma CancelOnlyCancels(p: Snapshot)
    ensures Apply(p, Download(Cancel)) == Snapshot(p.state, p.progress, true)
  {
  }

  /** A failure report reads `Cancelled` once the token is cancelled and carries its text
      verbatim otherwise; the progress and the token are left as they were. */
  lemma FailureAfterCancelIsCancellation(p: Snapshot, text: string)
    ensures Apply(p, Download(DownloadPageMessage.Failed(text))).state == (if p.cancelled then Cancelled else DownloadState.Failed(text))
    ensures Apply(p, Download(DownloadPageMessage.Failed(text))).progress == p.progress
    ensures Apply(p, Download(DownloadPageMessage.Failed(text))).cancelled == p.cancelled
  {
  }

  /** The other messages: a progress report stores its value, a restart shows `Downloading`,
      `Finished` leaves the fields alone (the page is replaced instead), and messages for
      other pages are ignored. */
  lemma RemainingMessages(p: Snapshot, x: F64, m: AppMessage)
    ensures Apply(p, Download(DownloadProgress(x))) == Snapshot(p.state, x, p.cancelled)
    ensures Apply(p, Download(DownloadPageMessage.StartedIsoDownload)) == Snapshot(Downloading, p.progress, p.cancelled)
    ensures Apply(p, Download(DownloadPageMessage.Finished)) == p
    ensures !m.Download? ==> Apply(p, m) == p
  {
  }

  /** A page that reads `Cancelled` has a cancelled token, and every message keeps it so. */
  ghost predicate Consistent(p: Snapshot) {
    p.state == Cancelled ==> p.cancelled
  }

  lemma {:induction false} ApplyAllConsistent(p: Snapshot, messages: seq<AppMessage>)
    requires Consistent(p)
    ensures Consistent(ApplyAll(p, messages))
    decreases |messages|
  {
    if messages != [] {
      ApplyAllConsistent(Apply(p, messages[0]), messages[1..]);
    }
  }

  /** The token is one-way: once cancelled, no later message resets it. */
  lemma {:induction false} CancellationIsPermanent(p: Snapshot, messages: seq<AppMessage>)
    requires p.cancelled
    ensures ApplyAll(p, messages).cancelled
    decreases |messages|
  {
    if messages != [] {
      CancellationIsPermanent(Apply(p, messages[0]), messages[1..]);
    }
  }

  /** After the user cancels, any failure that follows, however late, shows the page as
      `Cancelled`. */
  lemma CancelWinsOverLaterFailure(p: Snapshot, before: seq<AppMessage>, between: seq<AppMessage>, text: string)
    ensures ApplyAll(p, before + [Download(Cancel)] + between + [Download(DownloadPageMessage.Failed(text))]).state == Cancelled
  {
    var cancelled := ApplyAll(p, before + [Download(Cancel)]);
    ApplyAllAppend(p, before, [Download(Cancel)]);
    ApplyAllAppend(p, before + [Download(Cancel)], between);
    ApplyAllAppend(p, before + [Download(Cancel)] + between, [Download(DownloadPageMessage.Failed(text))]);
    CancellationIsPermanent(cancelled, between);
  }

  lemma {:induction false} ApplyAllAppend(p: Snapshot, a: seq<AppMessage>, b: seq<AppMessage>)
    ensures ApplyAll(p, a + b) == ApplyAll(ApplyAll(p, a), b)
    decreases |a|
  {
    if a == [] {
      assert a + b == b;
    } else {
      assert (a + b)[0] == a[0] && (a + b)[1..] == a[1..] + b;
      ApplyAllAppend(Apply(p, a[0]), a[1..], b);
    }
  }

  /** `DownloadPage`. The settings it downloads with are not part of this model. */
  class DownloadPage {
    var state: DownloadState
    var progress: F64
    /** Whether `ct.cancel()` has been called. */
    var cancelled: bool

    /** The page's fields as a value. */
    function View(): Snapshot
      reads this
    {
      Snapshot(state, progress, cancelled)
    }

    /** `DownloadPage::new`. */
    constructor ()
      ensures View() == Initial
    {
      state, progress, cancelled := Downloading, 0, false;
    }

    /** `update`: changes the fields as `Apply` says, and hands back the finish page for
        `Finished` and for no other message. */
    method Update(message: AppMessage) returns (next: Option<NextPage>)
      modifies this
      ensures View() == Apply(old(View()), message)
      ensures next.Some? <==> message == Download(DownloadPageMessage.Finished)
      ensures next.Some? ==> next.value == FinishPage
    {
      next := None;
      if message.Download? {
        match message.download {
          case StartedIsoDownload => state := Downloading;
          case Cancel => cancelled := true;
          case Finished => next := Some(FinishPage);
          case Failed(text) =>
            if cancelled {
              state := Cancelled;
            } else {
              state := DownloadState.Failed(text);
            }
          case DownloadProgress(x) => progress := x;
        }
      }
    }
  }
}
