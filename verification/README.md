# VDialog focus containment

A Dafny model of the focus logic of Vuetify's `VDialog` component. The model covers four things:

- the document-wide `focusin` handler, which keeps keyboard focus inside the topmost open dialog;
- the focusable-element list the handler wraps around;
- the watcher that adds and removes that handler while the dialog is open and retains focus;
- the watcher that, once the next tick has settled, moves focus into the dialog when it opens and back to its activator when it closes.

The DOM is modelled abstractly:

- `Dom` is a sequence of element records in document order. Each record holds a parent index, a tag kind, and the attributes the selector and filter inspect.
- An element id is its position in that sequence.
- `Contains` is `Node.contains`.
- A focus target is either the document or an element.

The overlay collaborator supplies `contentEl`, `activatorEl` and `globalTop`. These are inputs (`FocusTrap.Overlay`).

The component over time is an immutable `Lifecycle.World`, advanced by `Step` and `Run`. It holds:

- the model value (`isActive`);
- the `retainFocus` prop;
- the document's listener list;
- the queue of handoffs waiting for the next tick;
- the currently focused target.

Modules:

- `wrappers.dfy`: `Option`.
- `dom.dfy`: the element universe and containment.
- `focusable.dfy`: the focusable selector, the filter and the resolver.
- `focus_trap.dfy`: the `focusin` decision and its properties.
- `listeners.dfy`: `addEventListener` and `removeEventListener` on the document's `focusin` list.
- `lifecycle.dfy`: setup, the two watchers, focus dispatch, unmount, and the registration invariant.

Two points about the code that the model follows closely:

- **Handoff value.** The handoff continuation acts on `val`, the `isActive` value the watcher received at VDialog.tsx:95 when the handoff was queued. It does not act on the value current when it resumes. It reads only the overlay refs live. `Lifecycle.StaleHandoffUsesQueuedValue` shows the consequence.
- **Unset overlay ref.** `overlay.value!` at VDialog.tsx:98 and :100 is a TypeScript non-null assertion that is erased at compile time. If the overlay ref is unset when the continuation runs, reading `contentEl` or `activatorEl` from it throws, and nothing is focused. This is modelled as the `Fault` outcome, which leaves the world unchanged apart from the queue.

## Model

| member | source | states |
|---|---|---|
| Dom.ContainsPrecedes | packages/vuetify/src/components/VDialog/VDialog.tsx:68 | an element that contains another never comes after it in document order |
| Dom.ContainsTransitive | packages/vuetify/src/components/VDialog/VDialog.tsx:68 | a descendant of a descendant of the content root is inside the content root |
| Focusable.QuerySelectorAll | packages/vuetify/src/components/VDialog/VDialog.tsx:70-71 | the query result holds exactly the strict descendants of the root that match the focusable selector, each once, in document order |
| Focusable.FilterFocusable | packages/vuetify/src/components/VDialog/VDialog.tsx:72 | the filter keeps exactly the matches that are not disabled and whose tabindex is not "-1"; the result is an order-preserving subsequence of the matches and stays in document order |
| Focusable.FocusableElements | packages/vuetify/src/components/VDialog/VDialog.tsx:70-72 | the focusable list holds exactly the selector-matching descendants of the content root that pass the filter; it is in document order, is a subsequence of the selector matches, and every element follows the content root |
| FocusTrap.OnFocusin | packages/vuetify/src/components/VDialog/VDialog.tsx:56-85 | no redirection when previous and new targets are equal, when there is no content root or the dialog is not topmost, or when focus lands on the document, the content root or inside it; an empty focusable list means no effect; otherwise the focused element is a member of the focusable list: the last one when focus left the first one, the first one in every other case |
| FocusTrap.RedirectIsStable | packages/vuetify/src/components/VDialog/VDialog.tsx:66-83 | the focusin fired by the redirect's own focus call moves focus to a different element and is left alone, so redirection never loops |
| FocusTrap.FocusContained | packages/vuetify/src/components/VDialog/VDialog.tsx:60-83 | in a topmost dialog with a content root, after a real focus change is handled, focus is on the document or inside the content root, unless the dialog has nothing focusable |
| FocusTrap.SaveCancelFocusable | packages/vuetify/src/components/VDialog/VDialog.tsx:70-72 | in a dialog holding two buttons, the focusable list is exactly those two buttons in order |
| FocusTrap.SaveCancelCycle | packages/vuetify/src/components/VDialog/VDialog.tsx:76-83 | shift-tab out of the first button lands on the last, and tab out of the last lands on the first |
| Listeners.AddEventListener | packages/vuetify/src/components/VDialog/VDialog.tsx:90 | after adding, the handler is registered; a handler already present is not added again; other registrations and their order are untouched |
| Listeners.RemoveEventListener | packages/vuetify/src/components/VDialog/VDialog.tsx:91 | after removing, the handler is not registered; every other registration is kept; the list shrinks by exactly the handler's registrations |
| Listeners.AddTwiceRegistersOnce | packages/vuetify/src/components/VDialog/VDialog.tsx:88-92 | adding the same handler twice leaves exactly one registration |
| Lifecycle.ApplyRegistration | packages/vuetify/src/components/VDialog/VDialog.tsx:88-92 | the watcher callback leaves the handler registered exactly when its argument is true, without touching other listeners or duplicating the handler |
| Lifecycle.Setup | packages/vuetify/src/components/VDialog/VDialog.tsx:87-92 | the immediate watcher run registers the handler exactly when the dialog starts active with focus retention, and establishes the registration invariant |
| Lifecycle.SetActive | packages/vuetify/src/components/VDialog/VDialog.tsx:88-102 | a model-value change keeps the registration invariant and leaves every other instance's listener registrations as they were; a real change on a mounted dialog queues one handoff carrying the new value; nothing else changes |
| Lifecycle.SetRetainFocus | packages/vuetify/src/components/VDialog/VDialog.tsx:88-92 | a retain-focus change keeps the registration invariant, touches the listener list only on an open, mounted dialog, and leaves every other instance's listener registrations as they were |
| Lifecycle.FocusIn | packages/vuetify/src/components/VDialog/VDialog.tsx:56-85 | a focus change lands where it was aimed unless the registered handler redirects it, and a redirect always lands on a focusable element inside the topmost dialog's content root; in a mounted, open, focus-retaining topmost dialog, after a real focus change focus is on the document or inside the content root, unless the dialog has nothing focusable; a focus change that does not move, or lands on the document, on the content root or inside it, or happens when no dialog traps focus, lands where it was aimed; an escape seen by the registered handler lands on the last focusable element when focus left the first one, and on the first one otherwise |
| Lifecycle.Handoff | packages/vuetify/src/components/VDialog/VDialog.tsx:95-101 | the settled handoff targets the content root on open and the activator on close, skips when that ref is absent, and fails exactly when the overlay ref is absent |
| Lifecycle.Resume | packages/vuetify/src/components/VDialog/VDialog.tsx:95-102 | resuming consumes one queued handoff, changes nothing but focus, and leaves focus alone when there is nothing to focus |
| Lifecycle.UnmountAsWritten | packages/vuetify/src/components/VDialog/VDialog.tsx:87-93 | unmounting stops the watchers and clears the overlay ref but leaves the listener list as it was |
| Lifecycle.UnmountAsWrittenLeaksListener | packages/vuetify/src/components/VDialog/VDialog.tsx:87-93 | unmounting an open, focus-retaining dialog leaves its handler registered and breaks the registration invariant |
| Lifecycle.UnmountLeakWitness | packages/vuetify/src/components/VDialog/VDialog.tsx:87-93 | a dialog set up open with focus retention and then unmounted still has its listener registered |
| Lifecycle.Unmount | packages/vuetify/src/components/VDialog/VDialog.tsx:87-93 | unmounting removes this instance's handler, keeps every other listener, and establishes the registration invariant |
| Lifecycle.StepPreservesInv | packages/vuetify/src/components/VDialog/VDialog.tsx:88-92 | every event keeps the handler registered at most once and exactly while mounted, open and retaining focus, and leaves other instances' listeners as they were; `Step` uses the corrected teardown `Lifecycle.Unmount` (see Findings) |
| Lifecycle.RunPreservesInv | packages/vuetify/src/components/VDialog/VDialog.tsx:88-92 | any sequence of events keeps the registration invariant and other instances' listeners; this holds for the corrected teardown that `Step` uses |
| Lifecycle.RegistrationInvariant | packages/vuetify/src/components/VDialog/VDialog.tsx:87-92 | from setup on, after any events, the handler is registered at most once and exactly while the dialog is mounted, active and retaining focus; this holds for the corrected teardown, and the code as written keeps only `Lifecycle.RegistrationInvariantAsWritten` |
| Lifecycle.StepAsWrittenPreservesInv | packages/vuetify/src/components/VDialog/VDialog.tsx:87-93 | with the unmount as written, every event keeps the handler registered at most once, and exactly while trapping as long as the dialog is mounted; it keeps the overlay ref cleared after unmount and leaves other listeners alone |
| Lifecycle.RunAsWrittenPreservesInv | packages/vuetify/src/components/VDialog/VDialog.tsx:87-93 | any sequence of events of the component as written keeps that weaker invariant and other instances' listeners |
| Lifecycle.RegistrationInvariantAsWritten | packages/vuetify/src/components/VDialog/VDialog.tsx:87-93 | from setup on, the component as written keeps its handler registered at most once and exactly while open and retaining focus for as long as it is mounted; after unmount it may stay registered |
| Lifecycle.LeakedListenerIsInert | packages/vuetify/src/components/VDialog/VDialog.tsx:60-64 | a listener left registered after an as-written unmount still runs but never moves focus, because the overlay ref it reads is cleared |
| Lifecycle.OtherListenersSurvive | packages/vuetify/src/components/VDialog/VDialog.tsx:88-92 | from setup on, after any events, every other instance's listener registrations are as setup found them |
| Lifecycle.RetainToggleChangesOneListener | packages/vuetify/src/components/VDialog/VDialog.tsx:88-92 | toggling retain-focus on an open dialog adds or removes exactly one listener |
| Lifecycle.HandoffSettles | packages/vuetify/src/components/VDialog/VDialog.tsx:95-101 | a handoff resuming into the state it was queued for leaves focus on the content root after opening, or on the activator after closing, whenever that ref is present |
| Lifecycle.StaleHandoffUsesQueuedValue | packages/vuetify/src/components/VDialog/VDialog.tsx:95-100 | a close handoff that resumes after a reopen still focuses the activator when no trap intervenes: the continuation acts on the value it was queued with |

## Left out

- CSS selector matching is not modelled. The selector is written out as a predicate over abstract attributes. The `type` attribute is reduced to a "type is hidden" flag, so HTML's case-insensitive matching of that value is not modelled.
- The `IN_BROWSER` guard (line 87) is not modelled: the model assumes a browser.
- The `preventScroll` focus option is not modelled: it affects scrolling only.
- The render function, classes, ARIA attributes, transition, scope id, z-index and `forwardRefs` (lines 104-138) are not modelled. They do not affect focus.
- How the overlay computes `globalTop`, `contentEl` and `activatorEl` is not modelled. They are event inputs (`SetOverlayEvent`).
- Vue's scheduler is not modelled. Each change fires its watchers at once, and `nextTick` is a queue drained one `TickEvent` at a time. Vue's coalescing of several changes within one flush is not modelled.
- Lifecycle.FocusIn: `focus()` is assumed always to succeed. Browser rules that refuse focus to some elements are not modelled.
- Lifecycle.FocusIn: only this instance's handler is dispatched. Other dialogs' handlers are not. Their isolation follows from `FocusTrap.OnFocusin`, which never redirects from a dialog that is not topmost.
- Element identity across document changes is not modelled. An element id is its position in document order, and `SetDomEvent` replaces the document without remapping `focused` or the overlay's `contentEl` and `activatorEl`. The source compares elements by object identity (line 79). After a change that shifts positions, a `SetOverlayEvent` and a focus event must follow to keep those references naming the same elements.
- FocusTrap.FocusContained: says nothing about focus events whose previous and new targets coincide. The handler ignores those by design.

## Findings

| source | as written | input that shows it | evidently intended | confidence | as-written member | corrected member |
|---|---|---|---|---|---|---|
| packages/vuetify/src/components/VDialog/VDialog.tsx:87-93 | the `focusin` listener is added and removed only by a watcher. Vue stops that watcher on unmount without removing the listener | set up the dialog with `isActive` and `retainFocus` true, then unmount it: the document keeps the handler registered | tearing the instance down removes its listener, so that no handler outlives its dialog | medium, not executed | Lifecycle.UnmountAsWritten (shown by Lifecycle.UnmountAsWrittenLeaksListener and Lifecycle.UnmountLeakWitness) | Lifecycle.Unmount (used by Lifecycle.Step; invariant proved by Lifecycle.RegistrationInvariant) |
