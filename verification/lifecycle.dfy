/**
  The dialog instance over time: the watcher that keeps the `focusin`
  listener registered exactly while the dialog is open with focus retention
  on, and the watcher that, once the next render has settled, hands focus to
  the content root on opening and back to the activator on closing.
 */
module Lifecycle {
  import opened Wrappers
  import opened Dom
  import opened Focusable
  import opened FocusTrap
  import opened Listeners

  /** Everything the dialog's focus logic reads or changes. */
  datatype World = World(
    dom: Dom,
    overlay: Option<Overlay>,  // the overlay ref; None before it is rendered and after unmount
    isActive: bool,            // the open/closed model value
    retainFocus: bool,         // the retain-focus prop
    mounted: bool,             // between setup and unmount: the watchers are live
    handler: Handler,          // this instance's focusin callback
    listeners: seq<Handler>,   // the document's focusin listeners
    pending: seq<bool>,        // handoffs awaiting the next tick, with the isActive value each saw
    focused: Option<Target>)   // the element that has focus, if any

  /** The registration invariant: registered at most once, and exactly while trapping. */
  predicate Inv(w: World) {
    && multiset(w.listeners)[w.handler] <= 1
    && (w.handler in w.listeners <==> w.mounted && w.isActive && w.retainFocus)
  }

  /** The registration watcher's callback: add the handler for true, remove it for false. */
  function ApplyRegistration(ls: seq<Handler>, h: Handler, val: bool): (r: seq<Handler>)
    ensures h in r <==> val
    ensures forall g :: g != h ==> multiset(r)[g] == multiset(ls)[g]
    ensures multiset(ls)[h] <= 1 ==> multiset(r)[h] <= 1
  {
    if val then AddEventListener(ls, h) else RemoveEventListener(ls, h)
  }

  /**
    Component setup: the registration watcher runs once immediately, so a
    dialog that starts open with focus retention is trapping from the start.
    The overlay ref is not set until the overlay renders.
   */
  function Setup(dom: Dom, isActive: bool, retainFocus: bool, h: Handler, listeners: seq<Handler>, focused: Option<Target>): (w: World)
    ensures w.mounted && w.pending == [] && w.overlay.None?
    ensures h in w.listeners <==> isActive && retainFocus
    ensures forall g :: g != h ==> multiset(w.listeners)[g] == multiset(listeners)[g]
    ensures multiset(listeners)[h] <= 1 ==> Inv(w)
  {
    World(dom, None, isActive, retainFocus, true, h,
          ApplyRegistration(listeners, h, isActive && retainFocus), [], focused)
  }

  /**
    The model value changes. Both watchers fire when the value really
    changes: the registration watcher when the trapping condition flips, and
    the handoff watcher, which queues a handoff to run after the next tick.
   */
  function SetActive(w: World, b: bool): (r: World)
    ensures r.isActive == b
    ensures Inv(w) ==> Inv(r)
    ensures r == w.(isActive := b, listeners := r.listeners, pending := r.pending)
    ensures w.mounted && b != w.isActive ==> r.pending == w.pending + [b]
    ensures !w.mounted || b == w.isActive ==> r.pending == w.pending && r.listeners == w.listeners
    ensures forall g :: g != w.handler ==> multiset(r.listeners)[g] == multiset(w.listeners)[g]
  {
    if b == w.isActive || !w.mounted then w.(isActive := b)
    else
      var ls := if w.retainFocus then ApplyRegistration(w.listeners, w.handler, b) else w.listeners;
      w.(isActive := b, listeners := ls, pending := w.pending + [b])
  }

  /** The retain-focus prop changes; only the registration watcher observes it. */
  function SetRetainFocus(w: World, b: bool): (r: World)
    ensures r.retainFocus == b
    ensures Inv(w) ==> Inv(r)
    ensures r == w.(retainFocus := b, listeners := r.listeners)
    ensures !w.mounted || !w.isActive || b == w.retainFocus ==> r.listeners == w.listeners
    ensures forall g :: g != w.handler ==> multiset(r.listeners)[g] == multiset(w.listeners)[g]
  {
    if b == w.retainFocus || !w.mounted || !w.isActive then w.(retainFocus := b)
    else w.(retainFocus := b, listeners := ApplyRegistration(w.listeners, w.handler, b))
  }

  /**
    Focus moves to `t` and a focusin event is dispatched to this instance's
    handler, if registered. When the handler redirects, the second focusin
    that its `focus()` call fires is left alone (see RedirectIsStable).
   */
  function FocusIn(w: World, t: Target): (r: World)
    ensures r == w.(focused := r.focused)
    ensures w.handler !in w.listeners ==> r.focused == Some(t)
    ensures r.focused != Some(t) ==>
      && TrapRoot(w.overlay).Some?
      && r.focused.Some? && r.focused.value.Element?
      && IsFocusable(w.dom, TrapRoot(w.overlay).value, r.focused.value.id)
    ensures Inv(w) && w.mounted && w.isActive && w.retainFocus && TrapRoot(w.overlay).Some? && w.focused != Some(t) ==>
      var root := TrapRoot(w.overlay).value;
      || r.focused == Some(Document)
      || InsideTrap(w.dom, root, r.focused)
      || |FocusableElements(w.dom, root)| == 0
    ensures w.focused == Some(t) || TrapRoot(w.overlay).None? || !Escaped(w.dom, TrapRoot(w.overlay).value, Some(t)) ==>
      r.focused == Some(t)
    ensures w.handler in w.listeners && w.focused != Some(t) && TrapRoot(w.overlay).Some? &&
            Escaped(w.dom, TrapRoot(w.overlay).value, Some(t)) ==>
      var f := FocusableElements(w.dom, TrapRoot(w.overlay).value);
      |f| > 0 ==> r.focused == Some(Element(if w.focused == Some(Element(f[0])) then f[|f| - 1] else f[0]))
  {
    var redirect := if w.handler in w.listeners then OnFocusin(w.dom, w.overlay, w.focused, Some(t)) else None;
    var r := w.(focused := Some(if redirect.Some? then Element(redirect.value) else t));
    if TrapRoot(w.overlay).Some? && w.focused != Some(t) then
      FocusContained(w.dom, w.overlay, w.focused, Some(t));
      r
    else
      r
  }

  /** What the settled handoff does: focus an element, skip it, or fail on an absent overlay ref. */
  datatype HandoffOutcome = FocusElement(id: nat) | Skip | Fault

  /**
    The handoff continuation for a change to `becameActive`, reading the
    overlay ref as it is when the continuation runs. An absent overlay ref is
    dereferenced without a check, so the continuation throws and focuses
    nothing.
   */
  function Handoff(overlay: Option<Overlay>, becameActive: bool): (r: HandoffOutcome)
    ensures r.Fault? <==> overlay.None?
    ensures overlay.Some? ==>
      var target := if becameActive then overlay.value.contentEl else overlay.value.activatorEl;
      && (r.FocusElement? <==> target.Some?)
      && (r.FocusElement? ==> target == Some(r.id))
  {
    if overlay.None? then Fault
    else if becameActive then
      (if overlay.value.contentEl.Some? then FocusElement(overlay.value.contentEl.value) else Skip)
    else
      (if overlay.value.activatorEl.Some? then FocusElement(overlay.value.activatorEl.value) else Skip)
  }

  /**
    The oldest pending handoff resumes: it re-reads the overlay ref and
    focuses its target, which fires a focusin like any other focus change.
   */
  function Resume(w: World): (r: World)
    ensures |w.pending| == 0 ==> r == w
    ensures |w.pending| > 0 ==> r == w.(pending := w.pending[1..], focused := r.focused)
    ensures |w.pending| > 0 && !Handoff(w.overlay, w.pending[0]).FocusElement? ==> r.focused == w.focused
  {
    if |w.pending| == 0 then w
    else
      var rest := w.(pending := w.pending[1..]);
      match Handoff(w.overlay, w.pending[0])
      case FocusElement(x) => FocusIn(rest, Element(x))
      case _ => rest
  }

  /**
    Unmount as the component is written: the watchers stop and the overlay
    ref is cleared, but nothing removes the focusin listener.
   */
  function UnmountAsWritten(w: World): (r: World)
    ensures !r.mounted && r.overlay.None?
    ensures r.listeners == w.listeners
  {
    w.(mounted := false, overlay := None)
  }

  /** Unmount that also removes this instance's focusin listener. */
  function Unmount(w: World): (r: World)
    ensures !r.mounted && r.overlay.None?
    ensures r.handler !in r.listeners
    ensures forall g :: g != w.handler ==> multiset(r.listeners)[g] == multiset(w.listeners)[g]
    ensures Inv(r)
  {
    w.(mounted := false, overlay := None, listeners := RemoveEventListener(w.listeners, w.handler))
  }

  /** What can happen to a dialog after setup. */
  datatype Event =
    | SetActiveEvent(active: bool)         // the model value is written
    | SetRetainFocusEvent(retain: bool)   // the retain-focus prop changes
    | SetOverlayEvent(overlay: Option<Overlay>)  // the overlay re-renders or re-ranks
    | SetDomEvent(dom: Dom)                // the document changes
    | FocusInEvent(target: Target)         // something moves focus to target
    | BlurEvent                            // focus leaves every element
    | TickEvent                            // the next tick resolves one pending handoff
    | UnmountEvent

  function Step(w: World, e: Event): World {
    match e
    case SetActiveEvent(b) => SetActive(w, b)
    case SetRetainFocusEvent(b) => SetRetainFocus(w, b)
    case SetOverlayEvent(ov) => w.(overlay := if w.mounted then ov else None)
    case SetDomEvent(d) => w.(dom := d)
    case FocusInEvent(t) => FocusIn(w, t)
    case BlurEvent => w.(focused := None)
    case TickEvent => Resume(w)
    case UnmountEvent => if w.mounted then Unmount(w) else w
  }

  function Run(w: World, es: seq<Event>): World
    decreases |es|
  {
    if |es| == 0 then w else Run(Step(w, es[0]), es[1..])
  }

  /** An event as the component is written: the same, except that unmount leaves the listener. */
  function StepAsWritten(w: World, e: Event): World {
    if e.UnmountEvent? then (if w.mounted then UnmountAsWritten(w) else w) else Step(w, e)
  }

  function RunAsWritten(w: World, es: seq<Event>): World
    decreases |es|
  {
    if |es| == 0 then w else RunAsWritten(StepAsWritten(w, es[0]), es[1..])
  }

  /**
    The invariant the component as written does keep: registered at most
    once, exactly while trapping as long as it is mounted, and once
    unmounted its overlay ref stays cleared.
   */
  predicate InvAsWritten(w: World) {
    && multiset(w.listeners)[w.handler] <= 1
    && (w.mounted ==> (w.handler in w.listeners <==> w.isActive && w.retainFocus))
    && (!w.mounted ==> w.overlay.None?)
  }

  /** Listeners of other instances are left as they were. */
  ghost predicate OthersUntouched(w: World, r: World) {
    forall g :: g != w.handler ==> multiset(r.listeners)[g] == multiset(w.listeners)[g]
  }

  /** Every event keeps the registration invariant. */
  lemma StepPreservesInv(w: World, e: Event)
    requires Inv(w)
    ensures Inv(Step(w, e))
    ensures Step(w, e).handler == w.handler && OthersUntouched(w, Step(w, e))
  {
  }

  /** Any sequence of events keeps the registration invariant. */
  lemma {:induction false} RunPreservesInv(w: World, es: seq<Event>)
    requires Inv(w)
    ensures Inv(Run(w, es))
    ensures Run(w, es).handler == w.handler && OthersUntouched(w, Run(w, es))
    decreases |es|
  {
    if |es| > 0 {
      StepPreservesInv(w, es[0]);
      RunPreservesInv(Step(w, es[0]), es[1..]);
    }
  }

  /** Every event of the component as written keeps the weaker invariant and other listeners. */
  lemma StepAsWrittenPreservesInv(w: World, e: Event)
    requires InvAsWritten(w)
    ensures InvAsWritten(StepAsWritten(w, e))
    ensures StepAsWritten(w, e).handler == w.handler && OthersUntouched(w, StepAsWritten(w, e))
  {
  }

  /** Any sequence of events of the component as written keeps the weaker invariant. */
  lemma {:induction false} RunAsWrittenPreservesInv(w: World, es: seq<Event>)
    requires InvAsWritten(w)
    ensures InvAsWritten(RunAsWritten(w, es))
    ensures RunAsWritten(w, es).handler == w.handler && OthersUntouched(w, RunAsWritten(w, es))
    decreases |es|
  {
    if |es| > 0 {
      StepAsWrittenPreservesInv(w, es[0]);
      RunAsWrittenPreservesInv(StepAsWritten(w, es[0]), es[1..]);
    }
  }

  /**
    A listener leaked by the unmount as written still runs but never moves
    focus: the overlay ref it reads stays cleared.
   */
  lemma LeakedListenerIsInert(w: World, t: Target)
    requires InvAsWritten(w) && !w.mounted
    ensures FocusIn(w, t).focused == Some(t)
  {
  }

  /**
    From setup on, whatever happens, the handler is registered at most once
    and exactly while the dialog is mounted, open and retaining focus.
   */
  lemma RegistrationInvariant(dom: Dom, isActive: bool, retainFocus: bool, h: Handler,
                              listeners: seq<Handler>, focused: Option<Target>, es: seq<Event>)
    requires h !in listeners
    ensures var w := Run(Setup(dom, isActive, retainFocus, h, listeners, focused), es);
      && multiset(w.listeners)[h] <= 1
      && (h in w.listeners <==> w.mounted && w.isActive && w.retainFocus)
  {
    var w0 := Setup(dom, isActive, retainFocus, h, listeners, focused);
    assert multiset(listeners)[h] == 0;
    assert Inv(w0);
    RunPreservesInv(w0, es);
  }

  /** From setup on, whatever happens, other instances' listeners stay as setup found them. */
  lemma OtherListenersSurvive(dom: Dom, isActive: bool, retainFocus: bool, h: Handler,
                              listeners: seq<Handler>, focused: Option<Target>, es: seq<Event>, g: Handler)
    requires h !in listeners && g != h
    ensures multiset(Run(Setup(dom, isActive, retainFocus, h, listeners, focused), es).listeners)[g]
         == multiset(listeners)[g]
  {
    var w0 := Setup(dom, isActive, retainFocus, h, listeners, focused);
    assert multiset(listeners)[h] == 0;
    RunPreservesInv(w0, es);
  }

  /**
    From setup on, the component as written keeps its handler registered at
    most once, exactly while open and retaining focus for as long as it is
    mounted, and leaves every other listener as it found it.
   */
  lemma RegistrationInvariantAsWritten(dom: Dom, isActive: bool, retainFocus: bool, h: Handler,
                                       listeners: seq<Handler>, focused: Option<Target>, es: seq<Event>)
    requires h !in listeners
    ensures var w := RunAsWritten(Setup(dom, isActive, retainFocus, h, listeners, focused), es);
      && multiset(w.listeners)[h] <= 1
      && (w.mounted ==> (h in w.listeners <==> w.isActive && w.retainFocus))
      && forall g :: g != h ==> multiset(w.listeners)[g] == multiset(listeners)[g]
  {
    var w0 := Setup(dom, isActive, retainFocus, h, listeners, focused);
    assert multiset(listeners)[h] == 0;
    assert InvAsWritten(w0);
    RunAsWrittenPreservesInv(w0, es);
  }

  /** Toggling retain-focus on an open dialog adds or removes exactly one listener. */
  lemma RetainToggleChangesOneListener(w: World, b: bool)
    requires Inv(w) && w.mounted && w.isActive && b != w.retainFocus
    ensures |SetRetainFocus(w, b).listeners| == |w.listeners| + (if b then 1 else -1)
  {
  }

  /**
    A handoff that resumes while the dialog is still in the state it was
    queued for puts focus on the content root (on open) or the activator (on
    close) whenever that ref is present; the trap never redirects it.
   */
  lemma HandoffSettles(w: World)
    requires Inv(w) && |w.pending| > 0 && w.pending[0] == w.isActive && w.overlay.Some?
    ensures var r := Resume(w);
      && (w.isActive && w.overlay.value.contentEl.Some? ==>
            r.focused == Some(Element(w.overlay.value.contentEl.value)))
      && (!w.isActive && w.overlay.value.activatorEl.Some? ==>
            r.focused == Some(Element(w.overlay.value.activatorEl.value)))
  {
  }

  /**
    A handoff acts on the isActive value it was queued with, not on the state
    it resumes into: a close handoff that resumes after the dialog has been
    reopened still sends focus to the activator when nothing traps it.
   */
  lemma StaleHandoffUsesQueuedValue(w: World)
    requires |w.pending| > 0 && !w.pending[0]
    requires w.overlay.Some? && w.overlay.value.activatorEl.Some?
    requires w.handler !in w.listeners
    ensures Resume(w).focused == Some(Element(w.overlay.value.activatorEl.value))
  {
  }

  /** The unmount as written leaves a registered listener behind an unmounted dialog. */
  lemma UnmountAsWrittenLeaksListener(w: World)
    requires Inv(w) && w.mounted && w.isActive && w.retainFocus
    ensures var r := UnmountAsWritten(w);
      && !r.mounted && r.handler in r.listeners
      && !Inv(r)
  {
  }

  /** The leak is reachable: a dialog set up open with focus retention, then unmounted. */
  lemma UnmountLeakWitness()
    ensures var r := UnmountAsWritten(Setup([], true, true, 0, [], None));
      !r.mounted && 0 in r.listeners
  {
  }
}
