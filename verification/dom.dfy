/**
  An abstract document: the elements the dialog's focus logic looks at, in
  document order, together with the tree structure that `Node.contains`
  consults. Elements are identified by their position in document order.
 */
module Dom {
  import opened Wrappers

  /** The tag names the dialog's focusable selector names explicitly. */
  datatype Tag = Button | Input | Select | TextArea | OtherTag

  /** One element with the attributes the focus trap inspects. */
  datatype Node = Node(
    parent: Option<nat>,       // position of the parent element; None for a tree root
    tag: Tag,
    hasHref: bool,             // carries an `href` attribute
    typeHidden: bool,          // its `type` attribute is `hidden`
    tabindex: Option<string>,  // the raw `tabindex` attribute, when present
    disabled: bool)            // carries a `disabled` attribute

  /** In document order a parent always comes before its children. */
  predicate ParentsPrecede(nodes: seq<Node>) {
    forall i :: 0 <= i < |nodes| && nodes[i].parent.Some? ==> nodes[i].parent.value < i
  }

  /** A document: its elements in document order, each parent before its children. */
  type Dom = nodes: seq<Node> | ParentsPrecede(nodes) witness []

  /** What a focus event can name as its target: the document itself or an element. */
  datatype Target = Document | Element(id: nat)

  /**
    `ancestor.contains(node)`: the node is the ancestor itself or one of its
    descendants. An id outside the document is contained only by itself.
   */
  predicate Contains(dom: Dom, ancestor: nat, node: nat)
    decreases node
  {
    ancestor == node ||
    (node < |dom| && dom[node].parent.Some? && Contains(dom, ancestor, dom[node].parent.value))
  }

  /** An element never precedes, in document order, an element that contains it. */
  lemma {:induction false} ContainsPrecedes(dom: Dom, ancestor: nat, node: nat)
    requires Contains(dom, ancestor, node)
    ensures ancestor <= node
    decreases node
  {
    if ancestor != node {
      ContainsPrecedes(dom, ancestor, dom[node].parent.value);
    }
  }

  /** Containment composes: a descendant of a descendant is a descendant. */
  lemma {:induction false} ContainsTransitive(dom: Dom, a: nat, b: nat, c: nat)
    requires Contains(dom, a, b) && Contains(dom, b, c)
    ensures Contains(dom, a, c)
    decreases c
  {
    if b != c {
      ContainsTransitive(dom, a, b, dom[c].parent.value);
    }
  }
}
