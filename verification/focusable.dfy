/**
  The focusable-set resolver: the descendants of the dialog's content root
  that match the focusable selector, in document order, with disabled
  elements and elements whose tabindex is exactly "-1" filtered out.
 */
module Focusable {
  import opened Wrappers
  import opened Dom

  /**
    The focusable selector: a button, anything with an href, an input whose
    type is not hidden, a select, a textarea, or anything carrying a tabindex
    attribute whose value is not exactly "-1".
   */
  predicate MatchesSelector(n: Node) {
    || n.tag == Button
    || n.hasHref
    || (n.tag == Input && !n.typeHidden)
    || n.tag == Select
    || n.tag == TextArea
    || (n.tabindex.Some? && n.tabindex.value != "-1")
  }

  /** The filter applied to the selector's matches: not disabled, tabindex not exactly "-1". */
  predicate PassesFilter(n: Node) {
    !n.disabled && n.tabindex != Some("-1")
  }

  /** `root.querySelectorAll(..)` finds x: a strict descendant of root that matches the selector. */
  predicate IsSelectorMatch(dom: Dom, root: nat, x: nat) {
    x < |dom| && x != root && Contains(dom, root, x) && MatchesSelector(dom[x])
  }

  /** x belongs in the focusable list of root. */
  predicate IsFocusable(dom: Dom, root: nat, x: nat) {
    IsSelectorMatch(dom, root, x) && PassesFilter(dom[x])
  }

  /** Strictly increasing positions: distinct elements listed in document order. */
  predicate Increasing(s: seq<nat>) {
    forall i, j :: 0 <= i < j < |s| ==> s[i] < s[j]
  }

  /** a is obtained from b by deleting elements, keeping the order of the rest. */
  predicate IsSubsequence<T(==)>(a: seq<T>, b: seq<T>)
    decreases |b|
  {
    |a| == 0 ||
    (|b| > 0 && ((a[0] == b[0] && IsSubsequence(a[1..], b[1..])) || IsSubsequence(a, b[1..])))
  }

  /** The selector matches under root among the first n elements of the document. */
  function QueryPrefix(dom: Dom, root: nat, n: nat): (r: seq<nat>)
    requires n <= |dom|
    ensures forall x: nat :: x in r <==> x < n && IsSelectorMatch(dom, root, x)
    ensures Increasing(r)
  {
    if n == 0 then []
    else
      var earlier := QueryPrefix(dom, root, n - 1);
      if IsSelectorMatch(dom, root, n - 1) then
        assert forall k :: 0 <= k < |earlier| ==> earlier[k] in earlier;
        earlier + [n - 1]
      else
        earlier
  }

  /** `querySelectorAll` on the content root: every match, in document order. */
  function QuerySelectorAll(dom: Dom, root: nat): (r: seq<nat>)
    ensures forall x: nat :: x in r <==> IsSelectorMatch(dom, root, x)
    ensures Increasing(r)
  {
    QueryPrefix(dom, root, |dom|)
  }

  /** The `.filter(..)` over the selector's matches. */
  function FilterFocusable(dom: Dom, matches: seq<nat>): (r: seq<nat>)
    ensures forall x :: x in r <==> x in matches && x < |dom| && PassesFilter(dom[x])
    ensures IsSubsequence(r, matches)
    ensures Increasing(matches) ==> Increasing(r)
  {
    if |matches| == 0 then []
    else
      var rest := FilterFocusable(dom, matches[1..]);
      assert forall x :: x in matches <==> x == matches[0] || x in matches[1..];
      if matches[0] < |dom| && PassesFilter(dom[matches[0]]) then
        var r := [matches[0]] + rest;
        assert r[1..] == rest;
        assert Increasing(matches) ==> Increasing(r) by {
          if Increasing(matches) {
            forall k | 0 <= k < |rest|
              ensures matches[0] < rest[k]
            {
              assert rest[k] in matches[1..];
            }
          }
        }
        r
      else
        rest
  }

  /** The focusable list the trap wraps around, for the content root `root`. */
  function FocusableElements(dom: Dom, root: nat): (r: seq<nat>)
    ensures forall x: nat :: x in r <==> IsFocusable(dom, root, x)
    ensures Increasing(r)
    ensures IsSubsequence(r, QuerySelectorAll(dom, root))
    ensures forall i :: 0 <= i < |r| ==> root < r[i]
  {
    var r := FilterFocusable(dom, QuerySelectorAll(dom, root));
    forall i | 0 <= i < |r|
      ensures root < r[i]
    {
      assert r[i] in r;
      ContainsPrecedes(dom, root, r[i]);
    }
    r
  }
}
