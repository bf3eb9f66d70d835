/**
  The dialog's `focusin` handler: the decision whether a focus change that
  reached the document must be redirected back into the dialog, and where.
 */
module FocusTrap {
  import opened Wrappers
  import opened Dom
  import opened Focusable

  /**
    What the overlay exposes to the dialog: its content root, the element that
    activated it, and whether it is the topmost open overlay. All three are
    computed by the overlay and only read here.
   */
  datatype Overlay = Overlay(contentEl: Option<nat>, activatorEl: Option<nat>, globalTop: bool)

  /** The content root of an overlay that is mounted, rendered and topmost; None otherwise. */
  function TrapRoot(overlay: Option<Overlay>): Option<nat> {
    if overlay.Some? && overlay.value.contentEl.Some? && overlay.value.globalTop
    then overlay.value.contentEl
    else None
  }

  /** The target is the content root or one of its descendants. */
  predicate InsideTrap(dom: Dom, root: nat, target: Option<Target>) {
    target.Some? && target.value.Element? && Contains(dom, root, target.value.id)
  }

  /** Focus went somewhere that is neither the document nor inside the content root. */
  predicate Escaped(dom: Dom, root: nat, target: Option<Target>) {
    target != Some(Document) && !InsideTrap(dom, root, target)
  }

  /**
    The handler's decision for a `focusin` event whose related target (the
    element losing focus) is `before` and whose target is `after`: None when
    it leaves the event alone, Some(x) when it moves focus to element x.
   */
  function OnFocusin(dom: Dom, overlay: Option<Overlay>, before: Option<Target>, after: Option<Target>): (r: Option<nat>)
    ensures before == after ==> r.None?
    ensures TrapRoot(overlay).None? ==> r.None?
    ensures TrapRoot(overlay).Some? && !Escaped(dom, TrapRoot(overlay).value, after) ==> r.None?
    ensures r.Some? ==> TrapRoot(overlay).Some? && IsFocusable(dom, TrapRoot(overlay).value, r.value)
    ensures TrapRoot(overlay).Some? ==>
      var f := FocusableElements(dom, TrapRoot(overlay).value);
      && (|f| == 0 ==> r.None?)
      && (|f| > 0 && before != after && Escaped(dom, TrapRoot(overlay).value, after) ==>
            r == Some(if before == Some(Element(f[0])) then f[|f| - 1] else f[0]))
  {
    if && before != after
       && overlay.Some? && overlay.value.contentEl.Some?
       && overlay.value.globalTop
       && after != Some(Document) && after != Some(Element(overlay.value.contentEl.value))
       && !(after.Some? && after.value.Element? && Contains(dom, overlay.value.contentEl.value, after.value.id))
    then
      var focusable := FocusableElements(dom, overlay.value.contentEl.value);
      if |focusable| == 0 then None
      else
        var first := focusable[0];
        var last := focusable[|focusable| - 1];
        assert first in focusable && last in focusable;
        if before == Some(Element(first)) then Some(last) else Some(first)
    else
      None
  }

  /**
    Focusing the redirect target fires a second `focusin` (from `after` to the
    target); the handler leaves that one alone, so redirection never loops.
   */
  lemma RedirectIsStable(dom: Dom, overlay: Option<Overlay>, before: Option<Target>, after: Option<Target>)
    requires OnFocusin(dom, overlay, before, after).Some?
    ensures var x := OnFocusin(dom, overlay, before, after).value;
      && Some(Element(x)) != after
      && OnFocusin(dom, overlay, after, Some(Element(x))).None?
  {
  }

  /**
    The trap is closed: once a focus change in a trapping dialog has been
    handled, focus is on the document, inside the content root, or the content
    root has nothing focusable to offer.
   */
  lemma FocusContained(dom: Dom, overlay: Option<Overlay>, before: Option<Target>, after: Option<Target>)
    requires TrapRoot(overlay).Some? && before != after
    ensures var root := TrapRoot(overlay).value;
      var r := OnFocusin(dom, overlay, before, after);
      var final := if r.Some? then Some(Element(r.value)) else after;
      || final == Some(Document)
      || InsideTrap(dom, root, final)
      || |FocusableElements(dom, root)| == 0
  {
  }

  /** A document with one button outside the dialog and Save, Cancel inside it. */
  function SaveCancelDom(): Dom {
    [ Node(None, Button, false, false, None, false),         // 0: outside the dialog
      Node(None, OtherTag, false, false, Some("-1"), false), // 1: the content root
      Node(Some(1), Button, false, false, None, false),      // 2: Save
      Node(Some(1), Button, false, false, None, false) ]     // 3: Cancel
  }

  /** In that document the dialog's focusable list is exactly [Save, Cancel]. */
  lemma SaveCancelFocusable()
    ensures FocusableElements(SaveCancelDom(), 1) == [2, 3]
  {
    var dom := SaveCancelDom();
    assert !Contains(dom, 1, 0) && Contains(dom, 1, 2);
    assert QueryPrefix(dom, 1, 2) == [];
    assert QueryPrefix(dom, 1, 3) == [2];
    assert QuerySelectorAll(dom, 1) == [2, 3];
    assert FilterFocusable(dom, [3]) == [3];
  }

  /**
    Two-element cycle: shift-tab from Save leaves the dialog and lands on
    Cancel; tab from Cancel leaves it and lands on Save.
   */
  lemma SaveCancelCycle()
    ensures var dom := SaveCancelDom();
      var overlay := Some(Overlay(Some(1), Some(0), true));
      && OnFocusin(dom, overlay, Some(Element(2)), Some(Element(0))) == Some(3)
      && OnFocusin(dom, overlay, Some(Element(3)), Some(Element(0))) == Some(2)
  {
    SaveCancelFocusable();
    assert !Contains(SaveCancelDom(), 1, 0);
  }
}
