/**
  The document's list of `focusin` listeners, in registration order, with the
  DOM's rule that adding a callback already in the list does nothing.
 */
module Listeners {

  /** The identity of a listener callback (a function reference). */
  type Handler = nat

  /** `document.addEventListener('focusin', h)`. */
  function AddEventListener(ls: seq<Handler>, h: Handler): (r: seq<Handler>)
    ensures h in r
    ensures multiset(r)[h] == if h in ls then multiset(ls)[h] else 1
    ensures forall g :: g != h ==> multiset(r)[g] == multiset(ls)[g]
    ensures |r| == |ls| + (if h in ls then 0 else 1)
    ensures ls <= r
  {
    if h in ls then ls else ls + [h]
  }

  /**
    `document.removeEventListener('focusin', h)`. The DOM removes the one
    matching entry; since adding never duplicates an entry, dropping every
    occurrence is the same thing.
   */
  function RemoveEventListener(ls: seq<Handler>, h: Handler): (r: seq<Handler>)
    ensures h !in r
    ensures forall g :: g != h ==> multiset(r)[g] == multiset(ls)[g]
    ensures |r| == |ls| - multiset(ls)[h]
  {
    if |ls| == 0 then []
    else
      assert ls == [ls[0]] + ls[1..];
      var rest := RemoveEventListener(ls[1..], h);
      if ls[0] == h then rest else [ls[0]] + rest
  }

  /** Registering the same callback twice leaves a single registration. */
  lemma AddTwiceRegistersOnce(ls: seq<Handler>, h: Handler)
    requires h !in ls
    ensures multiset(AddEventListener(AddEventListener(ls, h), h))[h] == 1
    ensures AddEventListener(AddEventListener(ls, h), h) == AddEventListener(ls, h)
  {
  }
}
