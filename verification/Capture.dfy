/**
 The desktop's one-frame capture: the compositor's privacy is lowered, one frame is read, privacy is raised
 again, and only then is the image delivered.
 */
module Capture {
  import opened Common

  datatype Phase = Idle | Frame | Fence | Permit | Reading | Closing

  /** What the shell asks the compositor for. */
  datatype Request = Hello | Privacy(active: bool) | Game(pid: nat) | Panel(panel: bool)
                   | Overlay(overlay: bool, volume: bool) | Close(closing: nat) | Observe

  /** The compositor's state as it last acknowledged it. */
  datatype Policy = Policy(privacy: bool, game: nat, panel: bool, overlay: bool, volume: bool)

  /** A complete reply. A stale reply means that the compositor's surfaces changed and nothing was done. */
  datatype Reply = Malformed | Stale | NoWindow | Rejected | Agreed(policy: Policy)

  /** What the user interface shows when a handler runs, and whether the input channel and the display answer. */
  datatype Desktop = Desktop(game: nat, panel: bool, overlay: bool, volume: bool, sensitive: bool, channel: bool,
                             display: bool)

  datatype Event =
    | Accepted
    | SceneChanged
    | Acked(privacy: bool)
    | ReadStarted
    | ReadEnded
    | Finished(delivered: bool)

  // What a history must look like.

  /** Neither a change of scene nor the end of a capture between the two moments. */
  ghost predicate Quiet(log: seq<Event>, from: nat, to: nat)
    requires to <= |log|
  {
    forall i :: from < i < to ==> !log[i].SceneChanged? && !log[i].Finished?
  }

  /** The last word of the compositor before a moment. */
  ghost predicate LastAck(log: seq<Event>, ack: nat, to: nat, privacy: bool)
    requires to <= |log|
  {
    ack < to && log[ack] == Acked(privacy) && forall i :: ack < i < to ==> !log[i].Acked?
  }

  /** A capture asked for at `start` is under way, undisturbed, at a moment. */
  ghost predicate UnderWay(log: seq<Event>, start: nat, to: nat)
    requires to <= |log|
  {
    start < to && log[start] == Accepted && Quiet(log, start, to)
  }

  /**
   A read may start at k: the capture is undisturbed, and the compositor's last word is that privacy is off, said
   after this very capture was asked for.
   */
  ghost predicate ReadAllowed(log: seq<Event>, k: nat)
    requires k < |log|
  {
    exists start, ack :: UnderWay(log, start, k) && start < ack && LastAck(log, ack, k, false)
  }

  ghost predicate ReadBetween(log: seq<Event>, start: nat, read: nat, end: nat)
    requires end < |log|
  {
    start < read < end && log[read] == ReadStarted && log[end] == ReadEnded
  }

  /** An image may be delivered at k: its read has ended, and the last word since then is that privacy is on. */
  ghost predicate DeliveryAllowed(log: seq<Event>, k: nat)
    requires k < |log|
  {
    exists start, read, end, ack ::
      UnderWay(log, start, k) && end < ack && LastAck(log, ack, k, true) && ReadBetween(log, start, read, end)
  }

  datatype Stage = Unread | Begun | Ended

  /** What matters of a history, where it happened, and how many captures are asked for but not answered. */
  datatype View = View(live: bool, start: nat, word: Option<bool>, ack: nat, stage: Stage, read: nat, end: nat,
                       owed: int)

  const NOTHING := View(false, 0, None, 0, Unread, 0, 0, 0)

  ghost function Step(v: View, e: Event, now: nat): View {
    match e
    case Accepted => v.(live := true, start := now, stage := Unread, owed := v.owed + 1)
    case SceneChanged => v.(live := false)
    case Acked(privacy) => v.(word := Some(privacy), ack := now)
    case ReadStarted => v.(stage := Begun, read := now)
    case ReadEnded => v.(stage := if v.stage == Begun then Ended else Unread, end := now)
    case Finished(_) => v.(live := false, owed := v.owed - 1)
  }

  /** Whether an event may follow what has been seen. */
  ghost predicate Permitted(v: View, e: Event) {
    && (e == ReadStarted ==> v.live && v.start < v.ack && v.word == Some(false))
    && (e == Finished(true) ==> v.live && v.stage == Ended && v.end < v.ack && v.word == Some(true))
  }

  /** What is seen of the first n events of a history; nothing if one came that was not permitted. */
  ghost function Seen(log: seq<Event>, n: nat): Option<View>
    requires n <= |log|
  {
    if n == 0 then Some(NOTHING)
    else
      match Seen(log, n - 1)
      case None => None
      case Some(v) => if Permitted(v, log[n - 1]) then Some(Step(v, log[n - 1], n - 1)) else None
  }

  ghost predicate Kept(log: seq<Event>, view: View) {
    Seen(log, |log|) == Some(view)
  }

  lemma {:induction false} SeenPrefix(log: seq<Event>, e: Event, n: nat)
    requires n <= |log|
    ensures Seen(log + [e], n) == Seen(log, n)
  {
    if n > 0 {
      SeenPrefix(log, e, n - 1);
    }
  }

  lemma Extend(log: seq<Event>, v: View, e: Event)
    requires Kept(log, v) && Permitted(v, e)
    ensures Kept(log + [e], Step(v, e, |log|))
  {
    SeenPrefix(log, e, |log|);
  }

  /** The view tells the truth about the history. */
  lemma {:induction false} SeenTruly(log: seq<Event>, n: nat)
    requires n <= |log| && Seen(log, n).Some?
    ensures var v := Seen(log, n).value;
            && (v.live ==> UnderWay(log, v.start, n))
            && (v.word.Some? ==> LastAck(log, v.ack, n, v.word.value))
            && (v.live && v.stage == Begun ==> v.start < v.read < n && log[v.read] == ReadStarted)
            && (v.live && v.stage == Ended ==> v.end < n && ReadBetween(log, v.start, v.read, v.end))
  {
    if n > 0 {
      SeenTruly(log, n - 1);
    }
  }

  /** Captures asked for, less captures answered. */
  ghost function Outstanding(log: seq<Event>, n: nat): int
    requires n <= |log|
  {
    if n == 0 then 0
    else Outstanding(log, n - 1) + if log[n - 1].Accepted? then 1 else if log[n - 1].Finished? then -1 else 0
  }

  lemma {:induction false} SeenOwed(log: seq<Event>, n: nat)
    requires n <= |log| && Seen(log, n).Some?
    ensures Seen(log, n).value.owed == Outstanding(log, n)
  {
    if n > 0 {
      SeenOwed(log, n - 1);
    }
  }

  /**
   In a safe history a frame is read only when the compositor's last word, said since the capture was asked for, is
   that privacy is off, and no change of scene has overtaken the capture; and an image is delivered only for such a
   capture, after its read ended, and after the compositor's word since then that privacy is on again.
   */
  lemma {:induction false} SafeMeans(log: seq<Event>, n: nat, k: nat)
    requires k < n <= |log| && Seen(log, n).Some?
    ensures log[k] == ReadStarted ==> ReadAllowed(log, k)
    ensures log[k] == Finished(true) ==> DeliveryAllowed(log, k)
  {
    if k < n - 1 {
      SafeMeans(log, n - 1, k);
    } else {
      SeenTruly(log, k);
      var v := Seen(log, k).value;
      if log[k] == ReadStarted {
        assert UnderWay(log, v.start, k) && LastAck(log, v.ack, k, false);
      }
      if log[k] == Finished(true) {
        assert UnderWay(log, v.start, k) && LastAck(log, v.ack, k, true) && ReadBetween(log, v.start, v.read, v.end);
      }
    }
  }

  /** What the shell asks for when the compositor's state is not the one that it wants. */
  function Wish(state: Policy, privacy: bool, desktop: Desktop): Option<Request> {
    var panel := desktop.game > 0 && desktop.panel;
    var volume := desktop.game > 0 && desktop.volume;
    var overlay := desktop.game > 0 && (desktop.overlay || volume);
    if state.privacy != privacy then Some(Privacy(privacy))
    else if state.game != desktop.game then Some(Game(desktop.game))
    else if state.panel != panel then Some(Panel(panel))
    else if state.overlay != overlay || state.volume != volume then Some(Overlay(overlay, volume))
    else None
  }

  /** The compositor shows what the desktop is to show. */
  ghost predicate Follows(state: Policy, desktop: Desktop) {
    && state.game == desktop.game
    && state.panel == (desktop.game > 0 && desktop.panel)
    && state.volume == (desktop.game > 0 && desktop.volume)
    && state.overlay == (desktop.game > 0 && (desktop.overlay || desktop.volume))
  }

  /** The state of a compositor that grants a request. */
  ghost function Granted(state: Policy, op: Request): Policy {
    match op
    case Privacy(active) => state.(privacy := active)
    case Game(pid) => state.(game := pid)
    case Panel(panel) => state.(panel := panel)
    case Overlay(overlay, volume) => state.(overlay := overlay, volume := volume)
    case _ => state
  }

  /** How far the compositor is from what the shell wants; overlay and volume are set together. */
  ghost function Differences(state: Policy, privacy: bool, desktop: Desktop): (n: nat)
    ensures n <= 4 && (n == 0 <==> state.privacy == privacy && Follows(state, desktop))
  {
    (if state.privacy != privacy then 1 else 0) + (if state.game != desktop.game then 1 else 0)
    + (if state.panel != (desktop.game > 0 && desktop.panel) then 1 else 0)
    + if state.volume != (desktop.game > 0 && desktop.volume)
         || state.overlay != (desktop.game > 0 && (desktop.overlay || desktop.volume)) then 1 else 0
  }

  /** Nothing is asked for exactly in agreement; otherwise what is asked for, once granted, is one difference less. */
  lemma WishHelps(state: Policy, privacy: bool, desktop: Desktop)
    ensures var wish := Wish(state, privacy, desktop);
            && (wish.None? <==> state.privacy == privacy && Follows(state, desktop))
            && (state.privacy != privacy ==> wish == Some(Privacy(privacy)))
            && (wish.Some? ==>
                  Differences(Granted(state, wish.value), privacy, desktop) == Differences(state, privacy, desktop) - 1)
  {
  }

  /** A compositor that grants n requests in a row. */
  ghost function AfterGrants(state: Policy, privacy: bool, desktop: Desktop, n: nat): Policy
    decreases n
  {
    var wish := Wish(state, privacy, desktop);
    if n == 0 || wish.None? then state else AfterGrants(Granted(state, wish.value), privacy, desktop, n - 1)
  }

  lemma {:induction false} GrantsHelp(state: Policy, privacy: bool, desktop: Desktop, n: nat)
    requires Differences(state, privacy, desktop) <= n
    ensures Differences(AfterGrants(state, privacy, desktop, n), privacy, desktop) == 0
    decreases n
  {
    WishHelps(state, privacy, desktop);
    var wish := Wish(state, privacy, desktop);
    if wish.Some? {
      GrantsHelp(Granted(state, wish.value), privacy, desktop, n - 1);
    }
  }

  /** Whatever the compositor's state is, granting four requests is enough for agreement. */
  lemma FourGrants(state: Policy, privacy: bool, desktop: Desktop)
    ensures var after := AfterGrants(state, privacy, desktop, 4);
            after.privacy == privacy && Follows(after, desktop) && Wish(after, privacy, desktop).None?
  {
    GrantsHelp(state, privacy, desktop, 4);
    WishHelps(AfterGrants(state, privacy, desktop, 4), privacy, desktop);
  }

  class Session {
    var phase: Phase
    var pending: bool
    var request: Request
    var state: Option<Policy>
    var retries: nat
    var ready: bool
    var routed: bool
    var failed: bool
    var closePid: nat
    var sampleDue: bool
    var sceneEpoch: nat
    var captureEpoch: nat
    var captureId: nat
    var synced: bool
    var reader: bool
    var image: Option<seq<byte>>
    var error: string
    var desktop: Desktop

    ghost var log: seq<Event>
    ghost var view: View
    /** The compositor's own privacy, as long as its replies have been truthful. */
    ghost var screen: bool
    ghost var truthful: bool

    /** Between a request for a capture and the end of its read. */
    ghost predicate Running()
      reads this
    {
      phase.Frame? || phase.Fence? || phase.Permit? || phase.Reading?
    }

    ghost predicate Valid()
      reads this
    {
      && Loose()
      && (!failed ==> phase.Reading? ==> Lowered() || (pending && request.Privacy?))
      && (!failed ==> phase.Idle? && ready ==> Private() || Asking())
    }

    /** The same, but for a reply that changes privacy and has yet to be answered. */
    ghost predicate Loose()
      reads this
    {
      Recorded() && (!failed ==> Protocol() && Renewed() && (truthful ==> Truthful()))
    }

    /** The history is kept faithfully, and a capture is owed exactly when one is under way. */
    ghost predicate Recorded()
      reads this
    {
      && Kept(log, view) && view.owed == (if phase.Idle? then 0 else 1)
      && (view.live ==> view.start < |log| && (view.stage == Ended ==> view.end < |log|))
      && (failed ==> phase.Idle?)
      && (state.Some? ==> view.word == Some(state.value.privacy))
    }

    /** What holds even while a capture is being called off. */
    ghost predicate Unsettled()
      reads this
    {
      && Recorded() && Requested()
      && (pending && request == Observe ==> Private())
      && (truthful ==> state.Some? ==> state.value.privacy == screen)
    }

    ghost predicate Protocol()
      reads this
    {
      && (Running() || (phase.Closing? && image.Some?) ==> view.live && captureEpoch == sceneEpoch)
      && (Running() ==> image.None? && error == "")
      && (reader ==> phase.Reading? || (phase.Closing? && image.None? && error != ""))
      && (phase.Reading? ==> reader && view.stage == Begun)
      && (phase.Closing? ==> (image.Some? <==> error == ""))
      && (phase.Closing? && image.Some? ==>
            view.stage == Ended && (Lowered() || view.end < view.ack || (pending && request.Privacy?)))
      && (pending && request == Observe ==> Private() && !phase.Reading?)
    }

    /** The compositor has last said that privacy is off, or its state is unknown. */
    ghost predicate Lowered()
      reads this
    {
      state.None? || !state.value.privacy
    }

    ghost predicate Private()
      reads this
    {
      state.Some? && state.value.privacy
    }

    /** The compositor's last word is newer than the last capture asked for. */
    ghost predicate Fresh()
      reads this
    {
      view.start < view.ack
    }

    /** A request is pending whose answer will be a new state, or none. */
    ghost predicate Asking()
      reads this
    {
      pending && !request.Close? && request != Observe
    }

    /** A request to close a window is sent only in agreement on privacy; without a state, only the first request. */
    ghost predicate Requested()
      reads this
    {
      && (pending && request.Close? ==> Private() || (Fresh() && !phase.Idle?))
      && (pending && state.None? ==> request == Hello)
    }

    /** A state in which privacy is off is never older than the capture, or is about to be replaced. */
    ghost predicate Renewed()
      reads this
    {
      && Requested()
      && (phase.Frame? || phase.Fence? || phase.Permit? ==> Fresh() || state.None? || Private() || Asking())
      && (phase.Reading? ==> Fresh())
    }

    /**
     With a truthful compositor the screen is private whenever no capture runs, and it is made public only for
     the capture under way.
     */
    ghost predicate Truthful()
      reads this
    {
      && (state.Some? ==> state.value.privacy == screen)
      && (pending && request == Privacy(false) ==> !phase.Idle? && !phase.Frame? && !phase.Fence?)
      && (phase.Idle? && ready ==> screen)
    }

    constructor (desktop: Desktop, screen: bool)
      ensures Valid() && phase.Idle? && !failed && log == []
    {
      phase, pending, request, state, retries := Idle, false, Hello, None, 0;
      ready, routed, failed, closePid, sampleDue := false, false, false, 0, false;
      sceneEpoch, captureEpoch, captureId, synced, reader, image, error := 0, 0, 0, false, false, None, "";
      this.desktop := desktop;
      log, view, this.screen, truthful := [], NOTHING, screen, true;
    }

    /** Adds what just happened to the history. */
    ghost method Note(e: Event)
      requires Kept(log, view) && Permitted(view, e)
      modifies this`log, this`view
      ensures Kept(log, view) && log == old(log) + [e] && view == Step(old(view), e, old(|log|))
    {
      Extend(log, view, e);
      view, log := Step(view, e, |log|), log + [e];
    }

    /** What neither a request nor a step of a capture changes. */
    twostate predicate Steady()
      reads this
    {
      state == old(state) && desktop == old(desktop) && retries == old(retries)
    }

    /** The session has given up: a capture that was under way is answered, without an image. */
    twostate predicate GaveUp()
      reads this
    {
      && failed && !ready && phase.Idle? && (old(!phase.Idle?) ==> image.None?)
      && var answer := if old(phase.Idle?) then [] else [Finished(false)];
         || (log == old(log) + answer && sceneEpoch == old(sceneEpoch))
         || (log == old(log) + [SceneChanged] + answer && sceneEpoch == old(sceneEpoch) + 1)
    }

    /** The session gives up. */
    method Fail()
      requires Recorded()
      modifies this
      ensures Valid() && failed && phase.Idle? && old(log) <= log && reader == old(reader)
      ensures Steady() && unchanged(this`closePid, this`pending, this`routed)
      ensures if old(failed) then unchanged(this) else GaveUp()
    {
      if failed { return; }
      failed, ready := true, false;
      // Stopping the applications may report a change of scene.
      var reported: bool := *;
      if reported {
        sceneEpoch := sceneEpoch + 1;
        Note(SceneChanged);
      }
      if phase != Idle {
        phase, image := Idle, None;
        Note(Finished(false));
      }
    }

    /** Which request, if any, brings the compositor closer to what the shell wants. */
    function Wanted(): Option<Request>
      reads this
    {
      if state.None? then Some(Hello)
      else
        match Wish(state.value, !phase.Permit? && !phase.Reading?, desktop)
        case Some(op) => Some(op)
        case None =>
          if closePid > 0 then Some(Close(closePid))
          else if sampleDue && ready && phase.Idle? then Some(Observe)
          else None
    }

    /** The compositor shows what the desktop is to show, with privacy as the phase needs it. */
    ghost predicate InAgreement()
      reads this
    {
      state.Some? && (state.value.privacy <==> !phase.Permit? && !phase.Reading?) && Follows(state.value, desktop)
    }

    /** With no answer to wait for, the session has given up or agrees with the compositor; then it is ready. */
    ghost predicate AtRest()
      reads this
    {
      !failed && !pending ==> InAgreement() && closePid == 0 && ready == routed
    }

    /** With the channel to the router there, the session does not give up. */
    twostate predicate Alive()
      reads this
    {
      desktop.channel ==> failed == old(failed)
    }

    method RequestPolicy()
      requires Loose() && (pending ==> Valid())
      modifies this
      ensures Valid() && AtRest() && Alive() && old(log) <= log && closePid in {0, old(closePid)}
      ensures old(!pending) && pending ==>
                && !failed && (!request.Privacy? && request != Observe ==> !ready)
                && (request.Close? ==> request.closing == closePid == desktop.game > 0)
      ensures old(!pending && !failed && InAgreement() && closePid > 0) ==>
                if old(closePid) == desktop.game then pending && request == Close(desktop.game)
                else closePid == 0 && (pending ==> request == Observe)
      ensures old(!pending && !failed && InAgreement() && closePid == 0) && !failed ==>
                (pending <==> old(sampleDue && ready && phase.Idle?)) && (pending ==> request == Observe)
      ensures phase.Closing? ==> image == old(image) && error == old(error)
      ensures old(pending || failed) ==> unchanged(this)
      ensures || phase == old(phase) || (phase.Idle? && (failed || old(phase).Closing?))
              || (old(phase).Permit? && phase.Reading?)
      ensures old(!pending && !failed && Wanted().Some? && !Wanted().value.Close?) ==>
                && pending && !failed && Some(request) == old(Wanted())
                && unchanged(this`phase, this`log, this`reader, this`closePid)
      ensures old(!pending && !failed && Wanted().None?) ==>
                old(log) + old(Due()) <= log && (desktop.channel ==> Settled(old(log)))
      ensures Steady()
      decreases closePid, 1
    {
      if pending || failed { return; }
      var wanted := Wanted();
      match wanted
      case Some(op) =>
        if op.Close? && closePid != desktop.game {
          DropClose();
        } else {
          Send(op);
        }
      case None =>
        Settle();
    }

    /** Another window is in front by now: the wish to close one is dropped. */
    method DropClose()
      requires Loose() && !failed && !pending && InAgreement() && closePid > 0
      modifies this
      ensures Valid() && AtRest() && Alive() && Steady() && old(log) <= log && closePid == 0
      ensures pending ==> !failed && request == Observe
      ensures phase.Closing? ==> image == old(image) && error == old(error)
      ensures || phase == old(phase) || (phase.Idle? && (failed || old(phase).Closing?))
              || (old(phase).Permit? && phase.Reading?)
      decreases closePid, 0
    {
      closePid := 0;
      RequestPolicy();
    }

    method Send(op: Request)
      requires Loose() && !failed && !pending && Wanted() == Some(op)
      modifies this`sampleDue, this`request, this`pending, this`ready
      ensures Valid() && pending && request == op
      ensures sampleDue == (old(sampleDue) && op != Observe) && ready == (old(ready) && (op.Privacy? || op == Observe))
    {
      if op == Observe { sampleDue := false; }
      request, pending := op, true;
      if ready && !op.Privacy? && op != Observe { ready := false; }
    }

    /** What is due for the capture once the compositor agrees with the shell. */
    ghost function Due(): seq<Event>
      reads this
    {
      if phase.Permit? then [ReadStarted] else if phase.Closing? && !reader then [Finished(image.Some?)] else []
    }

    /** After the given history what was due has happened, and nothing else. */
    twostate predicate Settled(before: seq<Event>)
      reads this
    {
      && !failed && !pending && log == before + old(Due()) && closePid == old(closePid)
      && phase == (if old(phase).Permit? then Reading else if old(phase.Closing? && !reader) then Idle else old(phase))
      && (old(phase).Permit? ==> reader)
    }

    /** The compositor agrees with the shell on everything, so the capture may take its next step. */
    method Settle()
      requires Valid() && !failed && !pending && Wanted() == None
      modifies this
      ensures Valid() && AtRest() && Alive() && old(log) <= log && !pending && closePid == old(closePid)
      ensures phase.Closing? ==> image == old(image) && error == old(error)
      ensures || phase == old(phase) || (phase.Idle? && (failed || old(phase).Closing?))
              || (old(phase).Permit? && phase.Reading?)
      ensures old(log) + old(Due()) <= log && (desktop.channel ==> Settled(old(log)))
      ensures Steady()
    {
      Advance();
      var _ := SelectInput();
      ready := routed;
    }

    /** Starts the read that is due, or delivers what was read. */
    method Advance()
      requires Valid() && !failed && !pending && Wanted() == None
      modifies this`phase, this`reader, this`image, this`log, this`view
      ensures Valid() && Settled(old(log))
      ensures InAgreement() && closePid == 0
      ensures phase.Closing? ==> image == old(image)
    {
      if phase == Permit {
        ReadCapture();
      } else if phase == Closing && !reader {
        FinishCapture();
      }
    }

    /** Hands the input to its owner; the channel may be lost. */
    method SelectInput() returns (switching: bool)
      requires Valid()
      modifies this
      ensures Valid() && Alive() && Steady() && old(log) <= log && unchanged(this`closePid, this`pending)
      ensures failed == (old(failed) || (switching && !desktop.channel))
      ensures !failed ==>
                unchanged(this`phase, this`reader, this`image, this`error, this`log)
                && routed == (old(routed) && !switching)
    {
      switching := *;
      if switching {
        if desktop.channel { routed := false; } else { Fail(); }
      }
    }

    method ReadCapture()
      requires Valid() && !failed && !pending && phase.Permit? && state.Some? && !state.value.privacy
      modifies this`phase, this`reader, this`log, this`view
      ensures Valid() && phase.Reading? && reader && log == old(log) + [ReadStarted]
    {
      if captureEpoch != sceneEpoch || reader {
        // A change of scene cancels the capture, and a finished capture has no reader.
        assert false;
      }
      phase, reader := Reading, true;
      Note(ReadStarted);
    }

    method FinishCapture()
      requires Valid() && !failed && !pending && phase.Closing? && !reader && state.Some? && state.value.privacy
      modifies this`phase, this`image, this`log, this`view
      ensures Valid() && phase.Idle?
      ensures log == old(log) + [Finished(old(image).Some?)]
    {
      ghost var delivered := image.Some?;
      phase, image := Idle, None;
      Note(Finished(delivered));
    }

    // The compositor's replies.

    /** A capture is under way, and with this policy the compositor agrees with all that the shell wants. */
    ghost predicate Agrees(policy: Policy)
      reads this
    {
      && Wish(policy, !phase.Permit? && !phase.Reading?, desktop).None?
      && closePid == 0 && !phase.Idle? && desktop.channel
    }

    /** The compositor agreed to this policy, which is the state now; what was due for the capture may follow. */
    twostate predicate Followed(policy: Policy)
      reads this
    {
      && state == Some(policy) && old(log) + [Acked(policy.privacy)] <= log
      && (old(Agrees(policy)) ==> Settled(old(log) + [Acked(policy.privacy)]))
    }

    /** The compositor is asked anew for its state, once more than before. */
    twostate predicate AskedAgain()
      reads this
    {
      && !failed && pending && request == Hello && state.None? && retries == old(retries) + 1
      && phase == old(phase) && log == old(log)
    }

    /** What a truthful compositor's privacy is after it agrees to the pending request. */
    ghost function Expected(): bool
      reads this
    {
      if request.Privacy? then request.active else screen
    }

    method ReadPolicy(reply: Reply)
      requires Valid()
      modifies this
      ensures Valid() && old(log) <= log
      ensures old(!pending || failed) ==> unchanged(this)
      ensures old(pending && !failed) ==>
                && AtRest()
                && (reply.Malformed? || reply.Rejected? || (reply.NoWindow? && !old(request).Close?) ==>
                      GaveUp() && !pending)
      ensures old(pending && !failed && request.Close?) && (reply.NoWindow? || reply.Agreed?) ==>
                closePid == 0 && (pending ==> !request.Close?) && Alive()
      ensures old(pending && !failed && request.Close?) && reply.NoWindow? ==> Steady()
      ensures reply.Stale? && old(pending && !failed) ==> if old(retries) < 4 then AskedAgain() else GaveUp()
      ensures reply.Agreed? && old(pending && !failed) ==>
                state == Some(reply.policy) && old(log) + [Acked(reply.policy.privacy)] <= log
      ensures reply.Agreed? && old(pending && !failed && !request.Close? && Agrees(reply.policy)) ==>
                Settled(old(log) + [Acked(reply.policy.privacy)])
      ensures desktop == old(desktop)
    {
      if !pending || failed { return; }
      if reply.Malformed? {
        GiveUp();
        return;
      }
      if request.Close? && !reply.Stale? {
        closePid := 0;
        if reply.NoWindow? {
          NothingToClose();
          return;
        }
      }
      Weigh(reply);
    }

    /** A stale reply is asked for again, four times in a row at most; any other refusal ends the session. */
    method Weigh(reply: Reply)
      requires Valid() && !failed && pending && !reply.Malformed?
      modifies this
      ensures Valid() && AtRest() && old(log) <= log
      ensures reply.Rejected? || reply.NoWindow? ==> GaveUp() && !pending
      ensures reply.Stale? ==> if old(retries) < 4 then AskedAgain() else GaveUp()
      ensures reply.Agreed? ==> Followed(reply.policy) && retries == if old(request).Hello? then old(retries) else 0
      ensures reply.Agreed? ==> Alive() && (old(closePid) == 0 ==> closePid == 0 && (pending ==> !request.Close?))
      ensures desktop == old(desktop)
    {
      if reply.Stale? {
        retries := retries + 1;
        if retries <= 4 {
          StartOver();
          return;
        }
      }
      if !reply.Agreed? {
        GiveUp();
        return;
      }
      if !request.Hello? { retries := 0; }
      Proceed(reply.policy);
    }

    /** The compositor agreed: its state is adopted, and the shell goes on from there. */
    method Proceed(policy: Policy)
      requires Valid() && !failed && pending
      modifies this
      ensures Valid() && AtRest() && Alive() && Followed(policy)
      ensures unchanged(this`retries, this`desktop)
      ensures old(closePid) == 0 ==> closePid == 0 && (pending ==> !request.Close?)
    {
      Adopt(policy);
      RequestPolicy();
    }

    method GiveUp()
      requires Valid() && !failed && pending
      modifies this
      ensures Valid() && old(log) <= log && GaveUp() && Steady() && !pending
    {
      pending := false;
      Fail();
    }

    /** There is no window to close: the request is dropped, and the state stands. */
    method NothingToClose()
      requires Valid() && !failed && pending && request.Close? && closePid == 0
      modifies this
      ensures Valid() && AtRest() && Alive() && old(log) <= log && Steady()
      ensures closePid == 0 && (pending ==> !request.Close?)
    {
      pending := false;
      RequestPolicy();
    }

    /** The compositor's surfaces have changed: its state is asked for anew. */
    method StartOver()
      requires Valid() && !failed && pending
      modifies this
      ensures Valid() && !failed && pending && request == Hello && state.None?
      ensures unchanged(this`phase, this`log, this`retries, this`desktop)
    {
      pending, state := false, None;
      RequestPolicy();
    }

    /** The compositor's answer becomes the state the shell goes by. */
    method Adopt(policy: Policy)
      requires pending && !failed && Valid()
      modifies this`pending, this`state, this`truthful, this`screen, this`log, this`view
      ensures !pending && state == Some(policy) && Loose() && log == old(log) + [Acked(policy.privacy)]
    {
      pending, state := false, Some(policy);
      truthful := truthful && policy.privacy == Expected();
      screen := Expected();
      Note(Acked(policy.privacy));
    }

    /** A low-priority sample that failed is given up; it never stands in the way of the next request. */
    method SampleFailed()
      requires Valid() && !failed && pending && request == Observe
      modifies this`pending, this`sampleDue
      ensures Valid() && !pending && !failed
    {
      pending, sampleDue := false, *;
    }

    /** No answer in time, or no connection. */
    method PolicyLost()
      requires Valid()
      modifies this
      ensures Valid() && old(log) <= log
      ensures old(!pending || failed) ==> unchanged(this)
      ensures old(pending && !failed && request == Observe) ==>
                !pending && !failed && phase == old(phase) && log == old(log)
      ensures old(pending && !failed && request != Observe) ==> GaveUp()
    {
      if !pending || failed { return; }
      if request == Observe {
        SampleFailed();
      } else {
        Fail();
      }
    }

    // The steps of a capture.

    /** The step left alone what the compositor and the shell agree on. */
    twostate predicate Undisturbed()
      reads this
    {
      Steady() && failed == old(failed) && pending == old(pending) && closePid == old(closePid)
    }

    method RequestCapture() returns (accepted: bool)
      requires Valid()
      modifies this
      ensures Valid() && old(log) <= log
      ensures accepted <==> old(phase.Idle? && !failed)
      ensures accepted && old(!ready || desktop.sensitive) ==>
                phase.Idle? && log == old(log) + [Accepted, Finished(false)]
      ensures accepted && old(ready && !desktop.sensitive) ==> old(log) + [Accepted] <= log
      ensures accepted && old(ready && !desktop.sensitive && (desktop.display || !Unseen())) ==>
                && phase == (if old(Unseen()) then Fence else Frame) && log == old(log) + [Accepted] && Undisturbed()
                && captureId == old(captureId) + 1 && captureEpoch == sceneEpoch && !synced
      ensures !accepted ==> unchanged(this)
    {
      if phase != Idle || failed { return false; }
      if !ready || desktop.sensitive {
        Refuse();
      } else {
        Begin();
        AwaitFrame();
      }
      return true;
    }

    /** The request is answered at once, without an image. */
    ghost method Refuse()
      requires Valid() && phase.Idle? && !failed
      modifies this`log, this`view
      ensures Valid() && log == old(log) + [Accepted, Finished(false)]
    {
      Note(Accepted);
      Note(Finished(false));
    }

    method Begin()
      requires Valid() && phase.Idle? && !failed && ready && !desktop.sensitive
      modifies this`log, this`view, this`captureEpoch, this`captureId, this`image, this`error, this`synced, this`phase
      ensures Valid() && phase.Frame? && log == old(log) + [Accepted]
      ensures captureId == old(captureId) + 1 && captureEpoch == sceneEpoch && !synced
    {
      Note(Accepted);
      captureEpoch, captureId := sceneEpoch, captureId + 1;
      image, error, synced, phase := None, "", false, Frame;
    }

    /** The compositor shows a game and nothing of the user interface. */
    ghost predicate Unseen()
      reads this
    {
      state.Some? && state.value.game > 0 && !state.value.panel && !state.value.overlay
    }

    /** A user interface that shows nothing contributes no pixels, so there is no frame of it to wait for. */
    method AwaitFrame()
      requires Valid() && !failed && phase.Frame? && !desktop.sensitive
      modifies this
      ensures Valid() && old(log) <= log
      ensures if old(!Unseen()) then unchanged(this) else old(desktop.display) ==>
                phase.Fence? && log == old(log) && Undisturbed()
                && unchanged(this`captureId, this`captureEpoch, this`sceneEpoch, this`synced)
    {
      if state.Some? && state.value.game > 0 && !state.value.panel && !state.value.overlay {
        FenceCapture();
      }
    }

    /** The window has taken over the scene for its next frame. */
    method FrameSynced(token: nat)
      requires Valid()
      modifies this`synced
      ensures Valid() && synced == (old(synced) || (token == captureId && phase.Frame?))
    {
      if token == captureId && phase == Frame { synced := true; }
    }

    method FrameSwapped(token: nat)
      requires Valid()
      modifies this
      ensures Valid() && old(log) <= log
      ensures old(token == captureId && phase.Frame? && synced && !desktop.sensitive && desktop.display) ==>
                phase.Fence? && log == old(log) && Undisturbed()
      ensures old(token != captureId || !phase.Frame? || !synced) ==> unchanged(this)
    {
      if token == captureId && phase == Frame && synced { FenceCapture(); }
    }

    method FenceCapture()
      requires Valid() && !failed && phase.Frame?
      modifies this
      ensures Valid() && old(log) <= log
      ensures old(!desktop.sensitive && desktop.display) ==>
                phase.Fence? && log == old(log) && Undisturbed()
                && unchanged(this`captureId, this`captureEpoch, this`sceneEpoch, this`synced)
      ensures old(desktop.sensitive || !desktop.display) ==>
                AtRest() && Alive() && (phase.Idle? || (phase.Closing? && image.None?))
    {
      if captureEpoch != sceneEpoch || desktop.sensitive {
        CancelCapture("sensitive_entry");
        return;
      }
      if !desktop.display {
        CancelCapture("capture_failed");
        return;
      }
      phase := Fence;
    }

    /** After these events a request is pending, and nothing else stands between the shell and the compositor. */
    twostate predicate Asked(op: Request, events: seq<Event>)
      reads this
    {
      !failed && pending && request == op && log == old(log) + events && Steady() && closePid == old(closePid)
    }

    /** The compositor has seen everything that was submitted before the fence. */
    method FenceDone()
      requires Valid()
      modifies this
      ensures Valid() && old(log) <= log
      ensures old(!phase.Fence?) ==> unchanged(this)
      ensures old(phase.Fence?) ==> AtRest() && Alive() && (phase.Permit? || phase.Reading? || (failed && phase.Idle?))
      ensures old(phase.Fence? && !pending && Private()) ==> phase.Permit? && Asked(Privacy(false), [])
    {
      if phase == Fence {
        phase := Permit;
        RequestPolicy();
      }
    }

    /** The reading thread is done; its result arrives on the session's own thread. */
    method ReaderDone(result: Option<seq<byte>>)
      requires Valid() && reader
      modifies this
      ensures Valid() && Steady() && Alive() && old(log) + [ReadEnded] <= log && (old(!phase.Idle?) ==> AtRest())
      ensures phase.Closing? && old(phase.Reading?) ==> image == if old(desktop.sensitive) then None else result
      ensures old(phase.Reading? && !pending && state.Some?) ==>
                phase.Closing? && !reader && Asked(Privacy(true), [ReadEnded])
    {
      EndRead();
      if phase == Idle || failed { return; }
      Judge(result);
      RequestPolicy();
    }

    method EndRead()
      requires Valid() && reader
      modifies this`reader, this`log, this`view
      ensures log == old(log) + [ReadEnded]
      ensures if failed then Valid() else ReadOver()
    {
      reader := false;
      Note(ReadEnded);
    }

    /** The read of this capture, or of one that was called off, has ended; nothing follows from it yet. */
    ghost predicate ReadOver()
      reads this
    {
      && Unsettled() && !failed && !reader && (truthful ==> Truthful())
      && (phase.Reading? || (phase.Closing? && image.None? && error != ""))
      && (phase.Reading? ==>
            && image.None? && error == "" && view.live && captureEpoch == sceneEpoch && view.stage == Ended
            && !(pending && request == Observe) && (Lowered() || (pending && request.Privacy?)))
    }

    /** The image is kept only if neither the scene nor the reader stands in the way. */
    method Judge(result: Option<seq<byte>>)
      requires ReadOver()
      modifies this`error, this`image, this`phase
      ensures Valid() && phase.Closing?
      ensures old(phase.Reading?) ==> image == if old(desktop.sensitive) then None else result
      ensures error == if captureEpoch != sceneEpoch || desktop.sensitive then "sensitive_entry"
                       else if old(error) == "" && result.None? then "capture_failed"
                       else old(error)
    {
      if captureEpoch != sceneEpoch || desktop.sensitive {
        error := "sensitive_entry";
      } else if result.None? && error == "" {
        error := "capture_failed";
      }
      if error == "" { image := result; }
      phase := Closing;
    }

    method CancelCapture(why: string)
      requires why != "" && Unsettled() && (phase.Idle? ==> Valid())
      modifies this
      ensures Valid() && Steady() && Alive() && old(log) <= log
      ensures if old(phase.Idle?) then unchanged(this) else AtRest()
      ensures phase.Idle? || (phase.Closing? && image.None? && error == why)
    {
      if phase == Idle { return; }
      image, error, phase := None, why, Closing;
      RequestPolicy();
    }

    // What else happens to the session.

    method SceneChange() returns (injecting: bool)
      requires Valid()
      modifies this
      ensures Valid() && Steady() && AtRest() && Alive() && old(log) + [SceneChanged] <= log
      ensures injecting && !desktop.channel ==> failed
      ensures phase.Idle? || (phase.Closing? && image.None?)
    {
      Overtake();
      injecting := *;
      if injecting && !desktop.channel { Fail(); }
      if phase != Idle {
        CancelCapture(if desktop.sensitive then "sensitive_entry" else "capture_failed");
      }
      RequestPolicy();
    }

    /** The scene is another one: a sample of the old one is dropped, and a capture of it must be called off. */
    method Overtake()
      requires Valid()
      modifies this`pending, this`sampleDue, this`sceneEpoch, this`log, this`view
      ensures (if phase.Idle? then Valid() else Unsettled()) && log == old(log) + [SceneChanged]
      ensures pending == old(pending && request != Observe) && sceneEpoch == old(sceneEpoch) + 1
    {
      if pending && request == Observe { pending := false; }
      sampleDue := *;
      sceneEpoch := sceneEpoch + 1;
      Note(SceneChanged);
    }

    /** The router answered, changed its mind about ownership, or broke the protocol. */
    method RouterMessage(routed: bool, broken: bool)
      requires Valid()
      modifies this
      ensures Valid() && old(log) <= log
      ensures if old(failed) then unchanged(this)
              else if broken then GaveUp()
              else AtRest() && Alive() && (old(pending) ==> this.routed == routed)
    {
      if failed { return; }
      if broken {
        Fail();
        return;
      }
      this.routed := routed;
      RequestPolicy();
    }

    method CloseRequested(pid: nat)
      requires Valid()
      modifies this
      ensures Valid() && Steady() && Alive() && old(log) <= log && if pid <= 1 then unchanged(this) else AtRest()
      ensures pid > 1 && old(pending || failed) ==> closePid == pid && unchanged(this`pending, this`request)
      ensures pid > 1 && old(!pending && !failed && InAgreement()) ==>
                if pid == desktop.game then pending && request == Close(pid)
                else closePid == 0 && (pending ==> request == Observe)
    {
      if pid > 1 {
        closePid := pid;
        RequestPolicy();
      }
    }

    method SampleTick()
      requires Valid()
      modifies this
      ensures Valid() && Steady() && Alive() && old(log) <= log
      ensures if old(!phase.Idle?) then unchanged(this) else AtRest()
      ensures old(phase.Idle? && (pending || failed)) ==> sampleDue && unchanged(this`pending, this`request)
      ensures old(phase.Idle? && !pending && !failed && ready && InAgreement() && closePid == 0) && !failed ==>
                pending && request == Observe
    {
      if phase == Idle {
        sampleDue := true;
        RequestPolicy();
      }
    }
  }

  /** From the request for a capture to the request that privacy be lowered for it. */
  method Prepare(s: Session)
    requires s.Valid() && !s.failed && s.phase.Idle? && s.ready && !s.pending && s.Private()
    requires !s.desktop.sensitive && s.desktop.display
    modifies s
    ensures s.Valid() && s.phase.Permit? && s.Asked(Privacy(false), [Accepted])
  {
    var _ := s.RequestCapture();
    s.FrameSynced(s.captureId);
    s.FrameSwapped(s.captureId);
    s.FenceDone();
  }

  /** From the compositor's word that privacy is lowered to the request that it be raised again. */
  method ReadFrame(s: Session, policy: Policy, pixels: seq<byte>)
    requires s.Valid() && s.phase.Permit? && s.pending && s.request == Privacy(false) && s.Agrees(policy)
    requires !s.desktop.sensitive
    modifies s
    ensures s.Valid() && s.phase.Closing? && !s.reader && s.image == Some(pixels)
    ensures !s.failed && s.pending && s.request == Privacy(true) && s.closePid == 0 && s.desktop == old(s.desktop)
    ensures s.log == old(s.log) + [Acked(policy.privacy), ReadStarted, ReadEnded]
  {
    s.ReadPolicy(Agreed(policy));
    s.ReaderDone(Some(pixels));
  }

  /**
   A session that is ready and in agreement with the compositor captures: if the scene stays, nothing sensitive shows
   and the compositor grants what it is asked for, the one answer is the image that was read, with privacy on again.
   */
  method Deliver(s: Session, pixels: seq<byte>) returns (image: Option<seq<byte>>)
    requires s.Valid() && !s.failed && s.phase.Idle? && s.ready && !s.pending && s.Wanted() == None
    requires !s.desktop.sensitive && s.desktop.channel && s.desktop.display
    modifies s
    ensures s.Valid() && !s.failed && s.phase.Idle? && s.state == old(s.state) && image == Some(pixels)
    ensures s.log == old(s.log)
                     + [Accepted, Acked(false), ReadStarted, ReadEnded, Acked(true), Finished(image.Some?)]
  {
    var agreed := s.state.value;
    Prepare(s);
    ReadFrame(s, agreed.(privacy := false), pixels);
    image := s.image;
    s.ReadPolicy(Agreed(agreed));
  }

  /** Everything that can happen to a session, in any order. */
  datatype Input =
    | Shown(desktop: Desktop)
    | Replied(reply: Reply)
    | NoReply
    | CaptureWanted
    | Synced(token: nat)
    | Swapped(token: nat)
    | Fenced
    | Read(result: Option<seq<byte>>)
    | CaptureOverdue
    | Scene
    | Router(routed: bool, broken: bool)
    | CloseAsked(pid: nat)
    | Tick

  method Handle(s: Session, i: Input)
    requires s.Valid()
    modifies s
    ensures s.Valid() && old(s.log) <= s.log
  {
    match i
    case Shown(desktop) => s.desktop := desktop;
    case Replied(reply) => s.ReadPolicy(reply);
    case NoReply => s.PolicyLost();
    case CaptureWanted => var _ := s.RequestCapture();
    case Synced(token) => s.FrameSynced(token);
    case Swapped(token) => s.FrameSwapped(token);
    case Fenced => s.FenceDone();
    case Read(result) => if s.reader { s.ReaderDone(result); }
    case CaptureOverdue => if !s.failed { s.CancelCapture("capture_failed"); }
    case Scene => var _ := s.SceneChange();
    case Router(routed, broken) => s.RouterMessage(routed, broken);
    case CloseAsked(pid) => s.CloseRequested(pid);
    case Tick => s.SampleTick();
  }

  /**
   In every run, whatever happens in whatever order: frames are read and images delivered only as allowed, and
   the captures asked for exceed those answered by one exactly while one is under way. If the compositor's replies
   are true, the screen is private when none runs.
   */
  method Run(desktop: Desktop, screen: bool, inputs: seq<Input>) returns (s: Session, ghost log: seq<Event>)
    ensures log == s.log
    ensures forall k :: 0 <= k < |log| ==>
              && (log[k] == ReadStarted ==> ReadAllowed(log, k))
              && (log[k] == Finished(true) ==> DeliveryAllowed(log, k))
    ensures Outstanding(log, |log|) == if s.phase.Idle? then 0 else 1
    ensures !s.failed && s.truthful && s.ready && s.phase.Idle? ==> s.screen
  {
    s := new Session(desktop, screen);
    for i := 0 to |inputs|
      invariant s.Valid()
    {
      Handle(s, inputs[i]);
    }
    log := s.log;
    SeenOwed(log, |log|);
    forall k | 0 <= k < |log|
      ensures log[k] == ReadStarted ==> ReadAllowed(log, k)
      ensures log[k] == Finished(true) ==> DeliveryAllowed(log, k)
    {
      SafeMeans(log, |log|, k);
    }
  }
}
