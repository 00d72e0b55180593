/** WPEQtViewBackend: who owns an exported image, and when the producer may go on. */
module ViewBackend {
  import opened Wrappers

  /** An exported image. Every export is a new one. */
  type Image = nat

  /** What crosses the backend's border, in order. Commit is the backend's own promotion of an
      image that reached the screen. */
  datatype Event =
    | Export(image: Image)
    | Release(image: Image)
    | FrameComplete
    | Bind(image: Image)
    | Present(image: Image)
    | Commit(image: Image)

  datatype State = State(
    exportable: bool,
    pending: Option<Image>,
    committed: Option<Image>,
    requested: bool,
    direct: bool,
    view: bool,
    trace: seq<Event>)
  {
    function Log(events: seq<Event>): State {
      this.(trace := trace + events)
    }

    /** Release an image the backend holds, if there is one and something to release it to. */
    function ReleaseIf(image: Option<Image>): State {
      if exportable && image.Some? then Log([Release(image.value)]) else this
    }
  }

  const START := State(true, None, None, false, false, true, [])

  function DisplayImage(s: State, image: Image): State {
    var t := s.Log([Export(image)]);
    if t.direct then
      var u := t.Log([Present(image)]);
      var v := if u.exportable then u.Log([FrameComplete]).ReleaseIf(u.committed) else u;
      v.(committed := Some(image))
    else
      var u := t.ReleaseIf(t.pending).(pending := Some(image));
      if u.view then u else u.ReleaseIf(u.pending).(pending := None)
  }

  /** The image that texture() would bind. */
  function Shown(s: State): Option<Image> {
    if s.pending.Some? then s.pending else s.committed
  }

  function Texture(s: State, validSurface: bool): State {
    if Shown(s).None? || !validSurface then s
    else s.Log([Bind(Shown(s).value)]).(requested := s.pending.Some?)
  }

  function DidRenderFrame(s: State): State {
    if !s.requested || !s.exportable then s
    else
      var t := s.(requested := false).Log([FrameComplete]).ReleaseIf(s.committed);
      var u := if s.pending.Some? then t.Log([Commit(s.pending.value)]) else t;
      u.(committed := s.pending, pending := None)
  }

  function Destroy(s: State): State {
    s.ReleaseIf(s.pending).ReleaseIf(s.committed).(pending := None, committed := None)
  }

  class Backend {
    const exportable: bool
    var pendingImage: Option<Image>
    var committedImage: Option<Image>
    var frameUpdateRequested: bool
    var subsurface: bool
    var view: bool
    ghost var trace: seq<Event>

    ghost function Now(): State
      reads this
    {
      State(exportable, pendingImage, committedImage, frameUpdateRequested, subsurface, view, trace)
    }

    constructor (exportable: bool)
      ensures Now() == START.(exportable := exportable)
    {
      this.exportable := exportable;
      pendingImage, committedImage := None, None;
      frameUpdateRequested, subsurface, view := false, false, true;
      trace := [];
    }

    /** dispatch_release_exported_image */
    method DispatchRelease(image: Image)
      modifies this`trace
      ensures trace == old(trace) + [Release(image)]
    {
      trace := trace + [Release(image)];
    }

    /** dispatch_frame_complete */
    method DispatchFrameComplete()
      modifies this`trace
      ensures trace == old(trace) + [FrameComplete]
    {
      trace := trace + [FrameComplete];
    }

    method DisplayExported(image: Image)
      modifies this
      ensures Now() == DisplayImage(old(Now()), image)
    {
      trace := trace + [Export(image)];
      if subsurface {
        trace := trace + [Present(image)];
        if exportable {
          DispatchFrameComplete();
          if committedImage.Some? {
            DispatchRelease(committedImage.value);
          }
        }
        committedImage := Some(image);
        return;
      }
      if pendingImage.Some? && exportable {
        DispatchRelease(pendingImage.value);
      }
      pendingImage := Some(image);
      if view {
        return;
      }
      if exportable {
        DispatchRelease(pendingImage.value);
      }
      pendingImage := None;
    }

    method BindTexture(validSurface: bool) returns (bound: Option<Image>)
      modifies this
      ensures Now() == Texture(old(Now()), validSurface)
      ensures bound == if validSurface then Shown(old(Now())) else None
    {
      if (pendingImage.None? && committedImage.None?) || !validSurface {
        return None;
      }
      bound := if pendingImage.Some? then pendingImage else committedImage;
      trace := trace + [Bind(bound.value)];
      frameUpdateRequested := pendingImage.Some?;
    }

    method FrameRendered()
      modifies this
      ensures Now() == DidRenderFrame(old(Now()))
    {
      if !frameUpdateRequested || !exportable {
        return;
      }
      frameUpdateRequested := false;
      DispatchFrameComplete();
      if committedImage.Some? {
        DispatchRelease(committedImage.value);
      }
      if pendingImage.Some? {
        trace := trace + [Commit(pendingImage.value)];
      }
      committedImage := pendingImage;
      pendingImage := None;
    }

    method SetSubsurface(on: bool)
      modifies this`subsurface
      ensures subsurface == on
    {
      subsurface := on;
    }

    /** The destructor. */
    method TearDown()
      modifies this
      ensures Now() == Destroy(old(Now()))
    {
      if exportable && pendingImage.Some? {
        DispatchRelease(pendingImage.value);
      }
      if exportable && committedImage.Some? {
        DispatchRelease(committedImage.value);
      }
      pendingImage := None;
      committedImage := None;
    }
  }

  // ----- Runs: any interleaving of exports, paint syncs, swap notifications, mode switches, view loss

  datatype Action =
    | ExportNext
    | Paint(validSurface: bool)
    | Swapped
    | Switch(on: bool)
    | LoseView

  function Exports(trace: seq<Event>): seq<Image> {
    if trace == [] then []
    else
      var e, rest := trace[|trace| - 1], Exports(trace[..|trace| - 1]);
      if e.Export? then rest + [e.image] else rest
  }

  function Released(trace: seq<Event>): multiset<Image> {
    if trace == [] then multiset{}
    else
      var e, rest := trace[|trace| - 1], Released(trace[..|trace| - 1]);
      if e.Release? then rest + multiset{e.image} else rest
  }

  /** The images the backend has promoted, in order. */
  function Commits(trace: seq<Event>): seq<Image> {
    if trace == [] then []
    else
      var e, rest := trace[|trace| - 1], Commits(trace[..|trace| - 1]);
      if e.Commit? then rest + [e.image] else rest
  }

  /** The image the texture shows: the last one bound. */
  function LastBound(trace: seq<Event>): Option<Image> {
    if trace == [] then None
    else
      var e := trace[|trace| - 1];
      if e.Bind? then Some(e.image) else LastBound(trace[..|trace| - 1])
  }

  /** An export has not been answered by a frame-complete yet. */
  predicate Owed(trace: seq<Event>) {
    trace != [] &&
    var e := trace[|trace| - 1];
    e.Export? || (!e.FrameComplete? && Owed(trace[..|trace| - 1]))
  }

  /** Every frame-complete answers an export made since the previous one. */
  predicate Paid(trace: seq<Event>) {
    trace == [] ||
    (Paid(trace[..|trace| - 1]) && (trace[|trace| - 1].FrameComplete? ==> Owed(trace[..|trace| - 1])))
  }

  function Step(s: State, a: Action): State {
    match a
    case ExportNext => DisplayImage(s, |Exports(s.trace)|)
    case Paint(valid) => Texture(s, valid)
    case Swapped => DidRenderFrame(s)
    case Switch(on) => s.(direct := on)
    case LoseView => s.(view := false)
  }

  function Run(s: State, actions: seq<Action>): State
    decreases |actions|
  {
    if actions == [] then s else Run(Step(s, actions[0]), actions[1..])
  }

  lemma Append(trace: seq<Event>, e: Event)
    ensures Exports(trace + [e]) == if e.Export? then Exports(trace) + [e.image] else Exports(trace)
    ensures Released(trace + [e]) == if e.Release? then Released(trace) + multiset{e.image} else Released(trace)
    ensures Commits(trace + [e]) == if e.Commit? then Commits(trace) + [e.image] else Commits(trace)
    ensures LastBound(trace + [e]) == if e.Bind? then Some(e.image) else LastBound(trace)
    ensures Owed(trace + [e]) <==> e.Export? || (!e.FrameComplete? && Owed(trace))
    ensures Paid(trace + [e]) <==> Paid(trace) && (e.FrameComplete? ==> Owed(trace))
  {
    assert (trace + [e])[..|trace|] == trace;
  }

  /** Paid, read off the trace by position. */
  lemma {:induction false} ExportBetweenSignals(trace: seq<Event>, i: nat, j: nat)
    requires Paid(trace) && i < j < |trace| && trace[i].FrameComplete? && trace[j].FrameComplete?
    ensures exists k :: i < k < j && trace[k].Export?
    decreases |trace|
  {
    var init := trace[..|trace| - 1];
    if j < |init| {
      ExportBetweenSignals(init, i, j);
    } else {
      LastExport(init, i);
    }
  }

  lemma {:induction false} LastExport(trace: seq<Event>, i: nat)
    requires Owed(trace) && i < |trace| && trace[i].FrameComplete?
    ensures exists k :: i < k < |trace| && trace[k].Export?
    decreases |trace|
  {
    var last := |trace| - 1;
    if !trace[last].Export? {
      LastExport(trace[..last], i);
    }
  }

  // ----- Conservation

  function Held(s: State): multiset<Image> {
    (if s.pending.Some? then multiset{s.pending.value} else multiset{}) +
    (if s.committed.Some? then multiset{s.committed.value} else multiset{})
  }

  /** Exports are numbered, and every exported image is either held or released, once. */
  ghost predicate Ledger(s: State) {
    && (forall i :: 0 <= i < |Exports(s.trace)| ==> Exports(s.trace)[i] == i)
    && multiset(Exports(s.trace)) == Released(s.trace) + Held(s)
  }

  lemma ReleaseLedger(s: State, image: Option<Image>)
    ensures var t := s.ReleaseIf(image);
            && Exports(t.trace) == Exports(s.trace)
            && (s.exportable && image.Some? ==> Released(t.trace) == Released(s.trace) + multiset{image.value})
            && (image.None? ==> t == s)
  {
    if image.Some? {
      Append(s.trace, Release(image.value));
    }
  }

  lemma StepLedger(s: State, a: Action)
    requires s.exportable && Ledger(s)
    ensures Step(s, a).exportable && Ledger(Step(s, a))
  {
    hide Exports, Released;
    match a
    case ExportNext => ExportLedger(s);
    case Paint(valid) =>
      if Shown(s).Some? {
        Append(s.trace, Bind(Shown(s).value));
      }
    case Swapped => SwappedLedger(s);
    case Switch(on) =>
    case LoseView =>
  }

  lemma SwappedFlow(s: State)
    requires s.exportable && s.requested
    ensures var t := DidRenderFrame(s);
            && Exports(t.trace) == Exports(s.trace)
            && Released(t.trace) + Held(t) == Released(s.trace) + Held(s)
  {
    hide Exports, Released;
    var t := s.(requested := false).Log([FrameComplete]);
    Append(s.trace, FrameComplete);
    ReleaseLedger(t, s.committed);
    if s.pending.Some? {
      Append(t.ReleaseIf(s.committed).trace, Commit(s.pending.value));
    }
  }

  lemma SwappedLedger(s: State)
    requires s.exportable && Ledger(s)
    ensures Ledger(DidRenderFrame(s)) && DidRenderFrame(s).exportable
  {
    hide Exports, Released, Held;
    if s.requested {
      SwappedFlow(s);
    }
  }

  lemma Numbering(xs: seq<Image>, next: Image)
    requires next == |xs| && forall i :: 0 <= i < |xs| ==> xs[i] == i
    ensures forall i :: 0 <= i < |xs + [next]| ==> (xs + [next])[i] == i
    ensures multiset(xs + [next]) == multiset(xs) + multiset{next}
  {
  }

  lemma DirectFlow(s: State, image: Image)
    requires s.exportable && s.direct
    ensures var t := DisplayImage(s, image);
            && Exports(t.trace) == Exports(s.trace) + [image]
            && Released(t.trace) + Held(t) == Released(s.trace) + Held(s) + multiset{image}
  {
    hide Exports, Released;
    var t := s.Log([Export(image)]);
    var u := t.Log([Present(image)]);
    Append(s.trace, Export(image));
    Append(t.trace, Present(image));
    Append(u.trace, FrameComplete);
    ReleaseLedger(u.Log([FrameComplete]), u.committed);
  }

  lemma QueuedFlow(s: State, image: Image)
    requires s.exportable && !s.direct
    ensures var t := DisplayImage(s, image);
            && Exports(t.trace) == Exports(s.trace) + [image]
            && Released(t.trace) + Held(t) == Released(s.trace) + Held(s) + multiset{image}
  {
    hide Exports, Released;
    var t := s.Log([Export(image)]);
    var u := t.ReleaseIf(t.pending).(pending := Some(image));
    Append(s.trace, Export(image));
    ReleaseLedger(t, t.pending);
    ReleaseLedger(u, u.pending);
  }

  lemma ExportLedger(s: State)
    requires s.exportable && Ledger(s)
    ensures Ledger(Step(s, ExportNext)) && Step(s, ExportNext).exportable
  {
    hide Exports, Released, Held;
    var image := |Exports(s.trace)|;
    Numbering(Exports(s.trace), image);
    if s.direct {
      DirectFlow(s, image);
    } else {
      QueuedFlow(s, image);
    }
  }

  lemma StartLedger()
    ensures Ledger(START)
  {
  }

  lemma {:induction false} RunLedger(s: State, actions: seq<Action>)
    requires s.exportable && Ledger(s)
    ensures Run(s, actions).exportable && Ledger(Run(s, actions))
    decreases |actions|
  {
    if actions != [] {
      StepLedger(s, actions[0]);
      RunLedger(Step(s, actions[0]), actions[1..]);
    }
  }

  lemma {:induction false} NumberedOnce(xs: seq<Image>, t: Image)
    requires forall i :: 0 <= i < |xs| ==> xs[i] == i
    ensures multiset(xs)[t] == if t < |xs| then 1 else 0
    decreases |xs|
  {
    if xs != [] {
      var last := |xs| - 1;
      NumberedOnce(xs[..last], t);
      assert xs == xs[..last] + [xs[last]];
    }
  }

  /** At any point of any run an image has been released at most once, and only if it was exported;
      at most two are out. After the destructor every exported image has been released exactly once. */
  lemma ImagesConserved(actions: seq<Action>, t: Image)
    ensures var s := Run(START, actions);
            && Released(s.trace)[t] <= multiset(Exports(s.trace))[t] <= 1
            && |multiset(Exports(s.trace)) - Released(s.trace)| <= 2
            && Released(Destroy(s).trace) == multiset(Exports(s.trace))
  {
    hide Exports, Released, DisplayImage, Texture, DidRenderFrame;
    var s := Run(START, actions);
    StartLedger();
    RunLedger(START, actions);
    NumberedOnce(Exports(s.trace), t);
    assert multiset(Exports(s.trace)) - Released(s.trace) == Held(s);
    ReleaseLedger(s, s.pending);
    ReleaseLedger(s.ReleaseIf(s.pending), s.committed);
  }

  // ----- Frame-complete signals

  /** Nothing of the texture path is outstanding. */
  predicate Clean(s: State) {
    s.pending.None? && !s.requested
  }

  /** Direct compositing is only switched on when nothing of the texture path is outstanding. */
  predicate Guarded(s: State, actions: seq<Action>)
    decreases |actions|
  {
    actions == [] ||
    ((actions[0] == Switch(true) ==> Clean(s)) && Guarded(Step(s, actions[0]), actions[1..]))
  }

  ghost predicate Answering(s: State) {
    && s.exportable
    && Paid(s.trace)
    && (Clean(s) || Owed(s.trace))
    && (s.direct ==> Clean(s))
  }

  lemma ReleaseIsSilent(s: State, image: Option<Image>)
    ensures var t := s.ReleaseIf(image);
            (Owed(t.trace) <==> Owed(s.trace)) && (Paid(t.trace) <==> Paid(s.trace))
              && Signals(t.trace) == Signals(s.trace)
  {
    if image.Some? {
      Append(s.trace, Release(image.value));
      SignalsAppend(s.trace, Release(image.value));
    }
  }

  lemma ExportAnswers(s: State, image: Image)
    requires s.exportable
    ensures var t := DisplayImage(s, image);
            && (Owed(t.trace) <==> !s.direct)
            && (Paid(t.trace) <==> Paid(s.trace))
            && Signals(t.trace) == Signals(s.trace) + (if s.direct then 1 else 0)
  {
    hide Owed, Paid, Signals;
    var t := s.Log([Export(image)]);
    Append(s.trace, Export(image));
    SignalsAppend(s.trace, Export(image));
    if s.direct {
      var u := t.Log([Present(image)]);
      Append(t.trace, Present(image));
      SignalsAppend(t.trace, Present(image));
      Append(u.trace, FrameComplete);
      SignalsAppend(u.trace, FrameComplete);
      ReleaseIsSilent(u.Log([FrameComplete]), u.committed);
    } else {
      var u := t.ReleaseIf(t.pending).(pending := Some(image));
      ReleaseIsSilent(t, t.pending);
      ReleaseIsSilent(u, u.pending);
    }
  }

  lemma SwapAnswers(s: State)
    requires s.exportable
    ensures var t := DidRenderFrame(s);
            && (Owed(t.trace) <==> Owed(s.trace) && !s.requested)
            && (Paid(t.trace) <==> Paid(s.trace) && (s.requested ==> Owed(s.trace)))
            && Signals(t.trace) == Signals(s.trace) + (if s.requested then 1 else 0)
  {
    hide Owed, Paid, Signals;
    if s.requested {
      var t := s.(requested := false).Log([FrameComplete]);
      Append(s.trace, FrameComplete);
      SignalsAppend(s.trace, FrameComplete);
      ReleaseIsSilent(t, s.committed);
      if s.pending.Some? {
        Append(t.ReleaseIf(s.committed).trace, Commit(s.pending.value));
        SignalsAppend(t.ReleaseIf(s.committed).trace, Commit(s.pending.value));
      }
    }
  }

  lemma PaintAnswers(s: State, valid: bool)
    ensures var t := Texture(s, valid);
            && (Owed(t.trace) <==> Owed(s.trace))
            && (Paid(t.trace) <==> Paid(s.trace))
            && Signals(t.trace) == Signals(s.trace)
  {
    hide Owed, Paid, Signals;
    if Shown(s).Some? {
      Append(s.trace, Bind(Shown(s).value));
      SignalsAppend(s.trace, Bind(Shown(s).value));
    }
  }

  lemma StepAnswers(s: State, a: Action)
    requires Answering(s) && (a == Switch(true) ==> Clean(s))
    ensures Answering(Step(s, a))
  {
    hide Owed, Paid, Exports;
    match a
    case ExportNext => ExportAnswers(s, |Exports(s.trace)|);
    case Paint(valid) => PaintAnswers(s, valid);
    case Swapped => SwapAnswers(s);
    case Switch(on) =>
    case LoseView =>
  }

  lemma {:induction false} RunAnswers(s: State, actions: seq<Action>)
    requires Answering(s) && Guarded(s, actions)
    ensures Answering(Run(s, actions))
    decreases |actions|
  {
    hide Answering, Clean;
    if actions != [] {
      StepAnswers(s, actions[0]);
      RunAnswers(Step(s, actions[0]), actions[1..]);
    }
  }

  /** Two exports never share a frame-complete, and no frame-complete comes without a new export,
      in every run that switches modes only when clean. */
  lemma SignalsAnswerExports(actions: seq<Action>)
    requires Guarded(START, actions)
    ensures Paid(Run(START, actions).trace)
  {
    RunAnswers(START, actions);
  }

  /** The view only asks for a texture while direct compositing is off. */
  predicate PaintsQueuedOnly(s: State, actions: seq<Action>)
    decreases |actions|
  {
    actions == [] ||
    ((actions[0].Paint? ==> !s.direct) && PaintsQueuedOnly(Step(s, actions[0]), actions[1..]))
  }

  /** A continuation that signals twice for one export. */
  function DoubleSignal(s: State): seq<Action> {
    if s.requested then [ExportNext, Swapped] else [ExportNext, Switch(false), Paint(true), Swapped]
  }

  lemma OneAction(s: State, a: Action, rest: seq<Action>)
    ensures Run(s, [a] + rest) == Run(Step(s, a), rest)
    ensures (a == Switch(true) ==> Clean(s)) && Guarded(Step(s, a), rest) ==> Guarded(s, [a] + rest)
    ensures (a.Paint? ==> !s.direct) && PaintsQueuedOnly(Step(s, a), rest) ==> PaintsQueuedOnly(s, [a] + rest)
  {
    hide Step;
    assert ([a] + rest)[1..] == rest;
  }

  lemma DirtySwitchSignalsTwice(s: State)
    requires s.exportable && !Clean(s)
    ensures var t := Step(s, Switch(true));
            && Guarded(t, DoubleSignal(s)) && PaintsQueuedOnly(t, DoubleSignal(s))
            && !Paid(Run(t, DoubleSignal(s)).trace)
  {
    hide Owed, Paid, Exports, Guarded, PaintsQueuedOnly, Run, Clean;
    var t := Step(s, Switch(true));
    var u := Step(t, ExportNext);
    ExportAnswers(t, |Exports(t.trace)|);
    if s.requested {
      assert [ExportNext] + [Swapped] == DoubleSignal(s) && [Swapped] + [] == [Swapped];
      OneAction(t, ExportNext, [Swapped]);
      Ending(u, Swapped);
      SwapAnswers(u);
    } else {
      Pending(s);
      var v := Step(u, Switch(false));
      var w := Step(v, Paint(true));
      assert [ExportNext] + ([Switch(false)] + ([Paint(true)] + [Swapped])) == DoubleSignal(s);
      OneAction(t, ExportNext, [Switch(false)] + ([Paint(true)] + [Swapped]));
      OneAction(u, Switch(false), [Paint(true)] + [Swapped]);
      OneAction(v, Paint(true), [Swapped]);
      Ending(w, Swapped);
      PaintAnswers(v, true);
      SwapAnswers(w);
    }
  }

  lemma Pending(s: State)
    requires !Clean(s) && !s.requested
    ensures s.pending.Some?
  {
  }

  lemma Ending(s: State, a: Action)
    requires a.Swapped? || a.ExportNext?
    ensures Run(s, [a]) == Step(s, a) && Guarded(s, [a]) && PaintsQueuedOnly(s, [a])
  {
    hide Step;
    assert [a][1..] == [];
  }

  /** Such a run from the start: an export, the switch while it waits, and two signals for the next one. */
  lemma DirtySwitchReached()
    ensures var s := Run(START, [ExportNext]);
            && Answering(s) && !s.direct && !Clean(s)
            && !Paid(Run(START, [ExportNext] + ([Switch(true)] + DoubleSignal(s))).trace)
  {
    hide Guarded, PaintsQueuedOnly, Paid, Owed, Run;
    var s := Step(START, ExportNext);
    Ending(START, ExportNext);
    assert Answering(START) by { NothingYet(); }
    StepAnswers(START, ExportNext);
    DirtySwitchSignalsTwice(s);
    OneAction(START, ExportNext, [Switch(true)] + DoubleSignal(s));
    OneAction(s, Switch(true), DoubleSignal(s));
  }

  lemma NothingYet()
    ensures Paid(START.trace)
  {
  }

  /** Switching direct compositing on in mid-run is harmless for every continuation exactly when
      nothing of the texture path is outstanding at that moment. */
  lemma SwitchSafeIffClean(s: State)
    requires Answering(s) && !s.direct
    ensures var t := Step(s, Switch(true));
            (forall actions :: Guarded(t, actions) ==> Paid(Run(t, actions).trace)) <==> Clean(s)
  {
    hide Owed, Paid, Exports, Guarded, Run;
    var t := Step(s, Switch(true));
    if Clean(s) {
      forall actions | Guarded(t, actions)
        ensures Paid(Run(t, actions).trace)
      {
        RunAnswers(t, actions);
      }
    } else {
      DirtySwitchSignalsTwice(s);
    }
  }

  function Signals(trace: seq<Event>): nat {
    if trace == [] then 0
    else Signals(trace[..|trace| - 1]) + (if trace[|trace| - 1].FrameComplete? then 1 else 0)
  }

  lemma SignalsAppend(trace: seq<Event>, e: Event)
    ensures Signals(trace + [e]) == Signals(trace) + (if e.FrameComplete? then 1 else 0)
  {
    assert (trace + [e])[..|trace|] == trace;
  }

  lemma StepExportCount(s: State, a: Action)
    requires s.exportable
    ensures |Exports(Step(s, a).trace)| == |Exports(s.trace)| + (if a.ExportNext? then 1 else 0)
  {
    hide Exports, Released;
    match a
    case ExportNext =>
      if s.direct {
        DirectFlow(s, |Exports(s.trace)|);
      } else {
        QueuedFlow(s, |Exports(s.trace)|);
      }
    case Paint(valid) =>
      if Shown(s).Some? {
        Append(s.trace, Bind(Shown(s).value));
      }
    case Swapped =>
      if s.requested {
        var t := s.(requested := false).Log([FrameComplete]);
        Append(s.trace, FrameComplete);
        ReleaseLedger(t, s.committed);
        if s.pending.Some? {
          Append(t.ReleaseIf(s.committed).trace, Commit(s.pending.value));
        }
      }
    case Switch(on) =>
    case LoseView =>
  }

  /** In direct compositing from the start, as many signals as exports: with Paid, one each. */
  lemma {:induction false} DirectSignalsOnce(s: State, actions: seq<Action>)
    requires Answering(s) && s.direct && Signals(s.trace) == |Exports(s.trace)|
    requires forall a :: a in actions ==> !a.Switch?
    ensures var t := Run(s, actions);
            Paid(t.trace) && Signals(t.trace) == |Exports(t.trace)|
    decreases |actions|
  {
    hide Owed, Paid, Exports, Signals;
    if actions != [] {
      var a := actions[0];
      StepAnswers(s, a);
      StepExportCount(s, a);
      match a {
        case ExportNext => ExportAnswers(s, |Exports(s.trace)|);
        case Paint(valid) => PaintAnswers(s, valid);
        case Swapped => SwapAnswers(s);
        case LoseView =>
      }
      DirectSignalsOnce(Step(s, a), actions[1..]);
    }
  }

  // ----- Flow control on the texture path

  /** The view stays, the mode stays, and the producer waits for the answer to its last export. */
  predicate FlowControlled(s: State, actions: seq<Action>)
    decreases |actions|
  {
    actions == [] ||
    (&& !actions[0].Switch?
     && !actions[0].LoseView?
     && (actions[0].ExportNext? ==> !Owed(s.trace))
     && FlowControlled(Step(s, actions[0]), actions[1..]))
  }

  function AsSeq(image: Option<Image>): seq<Image> {
    if image.Some? then [image.value] else []
  }

  ghost predicate InStep(s: State) {
    && s.exportable && s.view && !s.direct
    && (s.pending.Some? <==> Owed(s.trace))
    && Exports(s.trace) == Commits(s.trace) + AsSeq(s.pending)
    && (s.committed.Some? <==> Commits(s.trace) != [])
    && (s.committed.Some? ==> s.committed.value == Commits(s.trace)[|Commits(s.trace)| - 1])
    && (s.requested ==> s.pending.Some? && LastBound(s.trace) == s.pending)
    && (LastBound(s.trace).Some? ==> LastBound(s.trace) == s.pending || LastBound(s.trace) == s.committed)
  }

  lemma ExportInStep(s: State)
    requires InStep(s) && !Owed(s.trace)
    ensures InStep(Step(s, ExportNext))
  {
    hide Owed, Exports, Commits, LastBound;
    Append(s.trace, Export(|Exports(s.trace)|));
  }

  lemma PaintInStep(s: State, valid: bool)
    requires InStep(s)
    ensures InStep(Texture(s, valid))
  {
    hide Owed, Exports, Commits, LastBound;
    if Shown(s).Some? {
      Append(s.trace, Bind(Shown(s).value));
    }
  }

  lemma SwapInStep(s: State)
    requires InStep(s)
    ensures InStep(DidRenderFrame(s))
  {
    hide Owed, Exports, Commits, LastBound;
    if s.requested {
      var t := s.(requested := false).Log([FrameComplete]);
      Append(s.trace, FrameComplete);
      if s.committed.Some? {
        Append(t.trace, Release(s.committed.value));
      }
      Append(t.ReleaseIf(s.committed).trace, Commit(s.pending.value));
    }
  }

  lemma {:induction false} RunInStep(s: State, actions: seq<Action>)
    requires InStep(s) && FlowControlled(s, actions)
    ensures InStep(Run(s, actions))
    decreases |actions|
  {
    hide InStep, Owed;
    if actions != [] {
      match actions[0] {
        case ExportNext => ExportInStep(s);
        case Paint(valid) => PaintInStep(s, valid);
        case Swapped => SwapInStep(s);
      }
      RunInStep(Step(s, actions[0]), actions[1..]);
    }
  }

  /** With flow control no frame is dropped, frames are committed in export order, and the image on
      the texture has not been released. */
  lemma FlowControlledRendering(actions: seq<Action>)
    requires FlowControlled(START, actions)
    ensures var s := Run(START, actions);
            && Exports(s.trace) == Commits(s.trace) + AsSeq(s.pending)
            && (LastBound(s.trace).Some? ==> Released(s.trace)[LastBound(s.trace).value] == 0)
  {
    hide Exports, Commits, LastBound, Released, Owed, FlowControlled, Run;
    var s := Run(START, actions);
    StartInStep();
    RunInStep(START, actions);
    StartLedger();
    RunLedger(START, actions);
    if LastBound(s.trace).Some? {
      HeldNotReleased(s, LastBound(s.trace).value);
    }
  }

  lemma StartInStep()
    ensures InStep(START)
  {
  }

  lemma HeldNotReleased(s: State, t: Image)
    requires Ledger(s) && t in Held(s)
    ensures Released(s.trace)[t] == 0
  {
    hide Exports, Released;
    NumberedOnce(Exports(s.trace), t);
    assert multiset(Exports(s.trace))[t] == Released(s.trace)[t] + Held(s)[t];
  }

  /** Every image that was promoted was on the texture at that moment. */
  ghost predicate CommitsShown(trace: seq<Event>) {
    forall m :: 0 <= m < |trace| && trace[m].Commit? ==> LastBound(trace[..m]) == Some(trace[m].image)
  }

  lemma ShownOneMore(trace: seq<Event>, e: Event)
    requires CommitsShown(trace) && (e.Commit? ==> LastBound(trace) == Some(e.image))
    ensures CommitsShown(trace + [e])
  {
    var all := trace + [e];
    forall m | 0 <= m < |all| && all[m].Commit?
      ensures LastBound(all[..m]) == Some(all[m].image)
    {
      assert all[..m] == trace[..m];
      assert m == |trace| ==> trace[..m] == trace;
    }
  }

  lemma SwapShown(s: State)
    requires InStep(s) && CommitsShown(s.trace)
    ensures CommitsShown(DidRenderFrame(s).trace)
  {
    hide Owed, Exports, Commits, LastBound, CommitsShown;
    if s.requested {
      var t := s.(requested := false).Log([FrameComplete]);
      ShownOneMore(s.trace, FrameComplete);
      Append(s.trace, FrameComplete);
      if s.committed.Some? {
        ShownOneMore(t.trace, Release(s.committed.value));
        Append(t.trace, Release(s.committed.value));
      }
      ShownOneMore(t.ReleaseIf(s.committed).trace, Commit(s.pending.value));
    }
  }

  lemma {:induction false} RunShown(s: State, actions: seq<Action>)
    requires InStep(s) && FlowControlled(s, actions) && CommitsShown(s.trace)
    ensures CommitsShown(Run(s, actions).trace)
    decreases |actions|
  {
    hide InStep, Owed, CommitsShown;
    if actions != [] {
      match actions[0] {
        case ExportNext =>
          ExportInStep(s);
          ExportShown(s);
        case Paint(valid) =>
          PaintInStep(s, valid);
          if Shown(s).Some? {
            ShownOneMore(s.trace, Bind(Shown(s).value));
          }
        case Swapped =>
          SwapInStep(s);
          SwapShown(s);
      }
      RunShown(Step(s, actions[0]), actions[1..]);
    }
  }

  lemma ExportShown(s: State)
    requires InStep(s) && !Owed(s.trace) && CommitsShown(s.trace)
    ensures CommitsShown(Step(s, ExportNext).trace)
  {
    hide Owed, Exports, Commits, LastBound, CommitsShown;
    ShownOneMore(s.trace, Export(|Exports(s.trace)|));
  }

  /** With flow control an image is promoted only while it is the one on the texture. */
  lemma CommittedFramesWereShown(actions: seq<Action>)
    requires FlowControlled(START, actions)
    ensures CommitsShown(Run(START, actions).trace)
  {
    StartInStep();
    RunShown(START, actions);
  }

  /** And a paint followed by the swap promotes whatever waits, and answers the producer. */
  lemma PaintAndSwapCommit(actions: seq<Action>)
    requires FlowControlled(START, actions)
    ensures var s := Step(Step(Run(START, actions), Paint(true)), Swapped);
            Commits(s.trace) == Exports(s.trace) && !Owed(s.trace)
  {
    hide Exports, Commits, LastBound, Owed, FlowControlled, Run;
    var s := Run(START, actions);
    StartInStep();
    RunInStep(START, actions);
    PaintInStep(s, true);
    SwapInStep(Texture(s, true));
  }

  // ----- Direct compositing, read off the trace

  /** The images presented on the subsurface, in order. */
  function Presents(trace: seq<Event>): seq<Image> {
    if trace == [] then []
    else
      var e, rest := trace[|trace| - 1], Presents(trace[..|trace| - 1]);
      if e.Present? then rest + [e.image] else rest
  }

  lemma PresentsAppend(trace: seq<Event>, e: Event)
    ensures Presents(trace + [e]) == if e.Present? then Presents(trace) + [e.image] else Presents(trace)
  {
    assert (trace + [e])[..|trace|] == trace;
  }

  /** An image is released only after its successor was presented. */
  ghost predicate ReleasedAfterNext(trace: seq<Event>) {
    forall m :: 0 <= m < |trace| && trace[m].Release? ==> Present(trace[m].image + 1) in trace[..m]
  }

  lemma NextOneMore(trace: seq<Event>, e: Event)
    requires ReleasedAfterNext(trace) && (e.Release? ==> Present(e.image + 1) in trace)
    ensures ReleasedAfterNext(trace + [e])
  {
    var all := trace + [e];
    forall m | 0 <= m < |all| && all[m].Release?
      ensures Present(all[m].image + 1) in all[..m]
    {
      assert all[..m] == trace[..m];
      assert m == |trace| ==> trace[..m] == trace;
    }
  }

  ghost predicate Direct(s: State) {
    && s.exportable && s.direct && Clean(s) && Ledger(s)
    && Presents(s.trace) == Exports(s.trace) && ReleasedAfterNext(s.trace)
    && s.committed == if Exports(s.trace) == [] then None else Some(|Exports(s.trace)| - 1)
  }

  lemma ExportDirect(s: State)
    requires Direct(s)
    ensures Direct(Step(s, ExportNext))
  {
    hide Exports, Released, Presents, ReleasedAfterNext, Ledger, Held;
    var image := |Exports(s.trace)|;
    StepLedger(s, ExportNext);
    DirectFlow(s, image);
    var t := s.Log([Export(image)]);
    var u := t.Log([Present(image)]);
    var v := u.Log([FrameComplete]);
    PresentsAppend(s.trace, Export(image));
    PresentsAppend(t.trace, Present(image));
    PresentsAppend(u.trace, FrameComplete);
    NextOneMore(s.trace, Export(image));
    NextOneMore(t.trace, Present(image));
    NextOneMore(u.trace, FrameComplete);
    if s.committed.Some? {
      assert v.trace[|t.trace|] == Present(s.committed.value + 1);
      PresentsAppend(v.trace, Release(s.committed.value));
      NextOneMore(v.trace, Release(s.committed.value));
    }
  }

  lemma {:induction false} RunDirect(s: State, actions: seq<Action>)
    requires Direct(s) && forall a :: a in actions ==> !a.Switch?
    ensures Direct(Run(s, actions))
    decreases |actions|
  {
    hide Exports, Presents, ReleasedAfterNext, Ledger;
    if actions != [] {
      var a := actions[0];
      assert a in actions && !a.Switch?;
      match a {
        case ExportNext => ExportDirect(s);
        case Paint(valid) =>
          StepLedger(s, a);
          if Shown(s).Some? {
            Append(s.trace, Bind(Shown(s).value));
            PresentsAppend(s.trace, Bind(Shown(s).value));
            NextOneMore(s.trace, Bind(Shown(s).value));
          }
        case Swapped => StepLedger(s, a);
        case LoseView => StepLedger(s, a);
      }
      RunDirect(Step(s, a), actions[1..]);
    }
  }

  /** In direct compositing every export is presented once and in order, the last one is not released, and
      each other one only after its successor was presented. */
  lemma DirectPresentsEach(actions: seq<Action>)
    requires forall a :: a in actions ==> !a.Switch?
    ensures var trace := Run(START.(direct := true), actions).trace;
            && Presents(trace) == Exports(trace)
            && (Exports(trace) != [] ==> Released(trace)[|Exports(trace)| - 1] == 0)
            && |multiset(Exports(trace)) - Released(trace)| <= 1
            && ReleasedAfterNext(trace)
  {
    hide Run, Exports, Presents, Released, ReleasedAfterNext;
    assert Direct(START.(direct := true)) by { NothingDirect(); }
    RunDirect(START.(direct := true), actions);
    var s := Run(START.(direct := true), actions);
    if Exports(s.trace) != [] {
      HeldNotReleased(s, |Exports(s.trace)| - 1);
    }
    assert multiset(Exports(s.trace)) - Released(s.trace) == Held(s);
  }

  lemma NothingDirect()
    ensures Direct(START.(direct := true))
  {
  }

  // ----- The calls of one operation, in their order

  function ReleaseOf(image: Option<Image>): seq<Event> {
    if image.Some? then [Release(image.value)] else []
  }

  /** Direct compositing presents before it answers, and answers before it releases; so does the swap of the
      texture path. Without a valid surface nothing is bound. */
  lemma CallsInOrder(s: State, image: Image)
    requires s.exportable
    ensures s.direct ==>
              DisplayImage(s, image).trace
              == s.trace + [Export(image), Present(image), FrameComplete] + ReleaseOf(s.committed)
    ensures !s.direct ==>
              DisplayImage(s, image).trace
              == s.trace + [Export(image)] + ReleaseOf(s.pending) + if s.view then [] else [Release(image)]
    ensures s.requested && s.pending.Some? ==>
              DidRenderFrame(s).trace == s.trace + [FrameComplete] + ReleaseOf(s.committed) + [Commit(s.pending.value)]
    ensures Texture(s, false) == s && (s.pending == s.committed == None ==> Texture(s, true) == s)
  {
  }

  // ----- Without a view, and without an exportable

  /** After view loss an export is released at once, with what waited before it, and not answered. */
  lemma ExportAfterViewLoss(s: State)
    requires s.exportable && !s.view && !s.direct
    ensures var t := Step(s, ExportNext);
            && t.pending == None && t.committed == s.committed && Signals(t.trace) == Signals(s.trace)
            && Released(t.trace) == Released(s.trace) + multiset(AsSeq(s.pending) + [|Exports(s.trace)|])
  {
    hide Exports, Released, Signals;
    var image := |Exports(s.trace)|;
    var t := s.Log([Export(image)]);
    var u := t.ReleaseIf(t.pending).(pending := Some(image));
    Append(s.trace, Export(image));
    ReleaseLedger(t, t.pending);
    ReleaseLedger(u, u.pending);
    ExportAnswers(s, image);
  }

  /** Without an exportable nothing is ever dispatched. */
  lemma {:induction false} NothingDispatched(s: State, actions: seq<Action>)
    requires !s.exportable && Released(s.trace) == multiset{} && Signals(s.trace) == 0
    ensures var t := Destroy(Run(s, actions));
            Released(t.trace) == multiset{} && Signals(t.trace) == 0
    decreases |actions|
  {
    hide Exports, Released, Signals;
    if actions != [] {
      var a := actions[0];
      match a {
        case ExportNext =>
          var image := |Exports(s.trace)|;
          Append(s.trace, Export(image));
          SignalsAppend(s.trace, Export(image));
          Append(s.trace + [Export(image)], Present(image));
          SignalsAppend(s.trace + [Export(image)], Present(image));
        case Paint(valid) =>
          if Shown(s).Some? {
            Append(s.trace, Bind(Shown(s).value));
            SignalsAppend(s.trace, Bind(Shown(s).value));
          }
        case Swapped =>
        case Switch(on) =>
        case LoseView =>
      }
      NothingDispatched(Step(s, a), actions[1..]);
    }
  }

  /** Without it: an export drops the waiting frame exactly when one is waiting. */
  lemma ExportDropsIffWaiting(s: State)
    requires s.exportable && s.view && !s.direct
    ensures var t := Step(s, ExportNext);
            Released(t.trace) == Released(s.trace) + multiset(AsSeq(s.pending))
  {
    hide Exports, Released;
    var image := |Exports(s.trace)|;
    var t := s.Log([Export(image)]);
    Append(s.trace, Export(image));
    ReleaseLedger(t, t.pending);
  }

  /** A producer that runs ahead releases the image the texture still shows. */
  lemma ProducerAheadReleasesShown()
    ensures var s := Run(START, [ExportNext, Paint(true), ExportNext]);
            LastBound(s.trace) == Some(0) && Released(s.trace)[0] == 1
  {
  }
}
