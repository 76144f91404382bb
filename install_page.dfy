/** The install page (src/ui/install_page.rs): its state machine driven by `update`, the
    mapping from installer events to page messages, and the gate on the install subscription. */
module InstallPageUi {
  import opened Base
  import Errors
  import Install
  import opened AppMessages

  /** `InstallState`. */
  datatype InstallState =
    | NotStarted
    | Starting
    | DownloadingIso
    | FlashingIso
    | ResizingMacos
    | Failed(message: string)
    | Finished

  /** The state a page message selects, whatever the state before it. */
  function MessageState(m: InstallPageMessage): (s: InstallState)
    ensures s != NotStarted
  {
    match m
    case StartInstallation => Starting
    case StartedIsoDownload => DownloadingIso
    case StartedIsoFlash => FlashingIso
    case StartedMacosResize => ResizingMacos
    case Finished => InstallState.Finished
    case Failed(text) => InstallState.Failed(text)
  }

  /** Different messages select different states, so the state records the last message
      exactly, error text included. */
  lemma MessageStateInjective(a: InstallPageMessage, b: InstallPageMessage)
    ensures MessageState(a) == MessageState(b) <==> a == b
  {
  }

  /** The page's state after `update` handles `message`: the state its page message selects,
      or the old state for a message addressed to another page. */
  function Updated(s: InstallState, message: AppMessage): (t: InstallState)
  {
    if message.InstallPage? then MessageState(message.install) else s
  }

  /** The page's state after a sequence of messages. */
  function UpdatedAll(s: InstallState, messages: seq<AppMessage>): InstallState
    decreases |messages|
  {
    if messages == [] then s else UpdatedAll(Updated(s, messages[0]), messages[1..])
  }

  /** The last message addressed to the install page decides the state. */
  lemma {:induction false} LastMessageWins(s: InstallState, messages: seq<AppMessage>, k: nat)
    requires k < |messages| && messages[k].InstallPage?
    requires forall j :: k < j < |messages| ==> !messages[j].InstallPage?
    ensures UpdatedAll(s, messages) == MessageState(messages[k].install)
    decreases |messages|
  {
    if k == 0 {
      OtherMessagesIgnored(Updated(s, messages[0]), messages[1..]);
    } else {
      LastMessageWins(Updated(s, messages[0]), messages[1..], k - 1);
    }
  }

  /** Messages for other pages leave the state alone. */
  lemma {:induction false} OtherMessagesIgnored(s: InstallState, messages: seq<AppMessage>)
    requires forall j :: 0 <= j < |messages| ==> !messages[j].InstallPage?
    ensures UpdatedAll(s, messages) == s
    decreases |messages|
  {
    if messages != [] {
      OtherMessagesIgnored(s, messages[1..]);
    }
  }

  /** `InstallPage`: the settings it installs with and its state. */
  class InstallPage {
    const installSettings: Install.InstallSettings
    var state: InstallState

    /** `InstallPage::new`: the page starts before the installation. */
    constructor (installSettings: Install.InstallSettings)
      ensures this.installSettings == installSettings && state == NotStarted
    {
      this.installSettings := installSettings;
      state := NotStarted;
    }

    /** `update`: an install-page message sets the state it names; any other message is
        ignored. The page never navigates away. */
    method Update(message: AppMessage) returns (next: Option<NextPage>)
      modifies this`state
      ensures state == Updated(old(state), message)
      ensures next == None
    {
      if message.InstallPage? {
        match message.install {
          case StartInstallation => state := Starting;
          case StartedIsoDownload => state := DownloadingIso;
          case StartedIsoFlash => state := FlashingIso;
          case StartedMacosResize => state := ResizingMacos;
          case Finished => state := InstallState.Finished;
          case Failed(text) => state := InstallState.Failed(text);
        }
      }
      next := None;
    }
  }

  /** The gate of `subscription` on the page's state: the install stream runs unless the
      page is `NotStarted` or `Finished`, so a failed installation keeps its subscription. */
  predicate Installing(s: InstallState): (b: bool)
    ensures b <==> s.Starting? || s.DownloadingIso? || s.FlashingIso? || s.ResizingMacos? || s.Failed?
  {
    s != NotStarted && s != InstallState.Finished
  }

  // ---------------------------------------------------------------------------
  // From installer events to page states
  // ---------------------------------------------------------------------------

  /** The closure `subscription` maps the installer's stream through. */
  function ProgressMessage(p: Install.InstallProgress): (m: InstallPageMessage)
    ensures m != StartInstallation
  {
    match p
    case Started => InstallPageMessage.StartedIsoDownload
    case DownloadedIso => StartedIsoFlash
    case ResizingMacos => StartedMacosResize
    case Finished => InstallPageMessage.Finished
    case Failed(e) => InstallPageMessage.Failed(Errors.Message(e))
  }

  /** An event ends the run exactly when the state it leads to stops the subscription or
      reports a failure; the failure text is the error's display text. */
  lemma TerminalEventsSettle(p: Install.InstallProgress)
    ensures Install.IsTerminal(p) <==> MessageState(ProgressMessage(p)).Finished? || MessageState(ProgressMessage(p)).Failed?
    ensures p.Failed? ==> MessageState(ProgressMessage(p)) == InstallState.Failed(Errors.Message(p.error))
    ensures p.Finished? <==> !Installing(MessageState(ProgressMessage(p)))
  {
  }

  /** The messages the page receives for a sequence of installer events. */
  function Notices(events: seq<Install.InstallProgress>): (ms: seq<AppMessage>)
    ensures |ms| == |events|
    ensures forall i :: 0 <= i < |events| ==> ms[i] == InstallPage(ProgressMessage(events[i]))
    decreases |events|
  {
    if events == [] then [] else [InstallPage(ProgressMessage(events[0]))] + Notices(events[1..])
  }

  /** Delivering installer events leaves the page in the state of the last one. */
  lemma LastEventWins(s: InstallState, events: seq<Install.InstallProgress>)
    requires events != []
    ensures UpdatedAll(s, Notices(events)) == MessageState(ProgressMessage(events[|events| - 1]))
  {
    LastMessageWins(s, Notices(events), |events| - 1);
  }

  /** A complete installation delivered to the page leaves it `Finished` when every stage
      succeeded and otherwise `Failed` with the text of the first stage that failed; the
      subscription stops exactly in the first case. */
  lemma CompleteRunSettles(s: InstallState, r: Install.StageResults)
    ensures var t := UpdatedAll(s, Notices(Install.Run(Install.Start, r)));
      t == if !r.downloaded then InstallState.Failed(Errors.Message(Errors.IsoDownload))
           else if !r.flashed then InstallState.Failed(Errors.Message(Errors.IsoFlash))
           else if !r.resized then InstallState.Failed(Errors.Message(Errors.MacosResize))
           else InstallState.Finished
    ensures var t := UpdatedAll(s, Notices(Install.Run(Install.Start, r)));
      (t.Finished? || t.Failed?) && (Installing(t) <==> !(r.downloaded && r.flashed && r.resized))
  {
    var events := Install.Run(Install.Start, r);
    Install.RunFromStart(r);
    LastEventWins(s, events);
  }
}
