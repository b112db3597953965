/** `processChildNodesRecursive`: the pasted snapshot is applied to the
    formatting container and to every element below it. */
module ApplyTree {
  import opened Css
  import opened ApplyElement

  /** A DOM node: text, or an element with its children in document order. */
  datatype Node =
    | Text(text: string)
    | Elem(el: ElementState, children: seq<Node>)

  function Size(n: Node): nat
  {
    match n
    case Text(_) => 1
    case Elem(_, cs) => 1 + SizeAll(cs)
  }

  function SizeAll(ns: seq<Node>): nat
  {
    if |ns| == 0 then 1 else Size(ns[0]) + SizeAll(ns[1..])
  }

  /** `b` is element `a` after a paste of `s`: the same tag, the
      attributes less a legacy `<font color>`, an inline style that conforms
      to `s`, and the old declaration of every property the paste does not
      write. */
  ghost predicate ElementStyled(s: Snapshot, a: ElementState, b: ElementState)
  {
    && b.tag == a.tag
    && b.attrs == (if DropsFontColour(s, a) then a.attrs - {"color"} else a.attrs)
    && Conforms(s, b.style)
    && forall p :: p !in Written(s) ==> Get(b.style, p) == Get(a.style, p)
  }

  /** `b` is the tree `a` after a paste of `s`: the same text nodes with the
      same text, and in every element's place that element styled by `s`. */
  ghost predicate Styled(s: Snapshot, a: Node, b: Node)
    decreases Size(a), 1
  {
    match (a, b)
    case (Text(x), Text(y)) => x == y
    case (Elem(e, cs), Elem(f, ds)) => ElementStyled(s, e, f) && StyledAll(s, cs, ds)
    case _ => false
  }

  ghost predicate StyledAll(s: Snapshot, xs: seq<Node>, ys: seq<Node>)
    decreases SizeAll(xs), 0
  {
    if |xs| == 0 || |xs| != |ys| then |xs| == |ys|
    else
      assert SizeAll(xs) == Size(xs[0]) + SizeAll(xs[1..]);
      Styled(s, xs[0], ys[0]) && StyledAll(s, xs[1..], ys[1..])
  }

  /** `elementalApplyStylesTo` on a node followed by
      `processChildNodesRecursive` below it: every element in the tree is
      styled by the same snapshot and text nodes are left as they are. */
  function ApplyNode(s: Snapshot, n: Node): (r: Node)
    ensures Styled(s, n, r)
    decreases Size(n), 1
  {
    match n
    case Text(_) => n
    case Elem(e, cs) => Elem(ElementalApply(s, e), ApplyChildren(s, cs))
  }

  /** `processChildNodesRecursive` over a list of child nodes: each child
      subtree is styled by the snapshot. */
  function ApplyChildren(s: Snapshot, ns: seq<Node>): (rs: seq<Node>)
    ensures StyledAll(s, ns, rs)
    decreases SizeAll(ns), 0
  {
    if |ns| == 0 then []
    else
      assert SizeAll(ns) == Size(ns[0]) + SizeAll(ns[1..]);
      var rs := [ApplyNode(s, ns[0])] + ApplyChildren(s, ns[1..]);
      assert rs[1..] == ApplyChildren(s, ns[1..]);
      rs
  }

  /** Pasting the same snapshot twice onto a tree leaves it as pasting once. */
  lemma {:induction false} ApplyNodeIdempotent(s: Snapshot, n: Node)
    ensures ApplyNode(s, ApplyNode(s, n)) == ApplyNode(s, n)
    decreases Size(n), 1
  {
    match n
    case Text(_) =>
    case Elem(e, cs) =>
      ApplyIdempotent(s, e);
      ApplyChildrenIdempotent(s, cs);
  }

  lemma {:induction false} ApplyChildrenIdempotent(s: Snapshot, ns: seq<Node>)
    ensures ApplyChildren(s, ApplyChildren(s, ns)) == ApplyChildren(s, ns)
    decreases SizeAll(ns), 0
  {
    if |ns| > 0 {
      var once := ApplyChildren(s, ns);
      assert SizeAll(ns) == Size(ns[0]) + SizeAll(ns[1..]);
      ApplyNodeIdempotent(s, ns[0]);
      ApplyChildrenIdempotent(s, ns[1..]);
      assert once[0] == ApplyNode(s, ns[0]) && once[1..] == ApplyChildren(s, ns[1..]);
    }
  }
}
