/** The part of the browser's DOM that the chip search relies on: element
    trees with optional shadow roots, `querySelector`, and `appendChild`.

    A tree is a value. An element is identified by its `Path` from the node
    the search starts at, so "the element the search returned" is a path and
    "the element" is `At(start, path)`. A shadow root is represented by a
    `Node` whose own tag, classes and text are never consulted: only its
    children are. */
module Dom {

  datatype Option<+T> = None | Some(value: T)

  /** A simple selector: a type selector (`df-chips`) or a class selector
      (`.chip`, written `ByClass("chip")`). */
  datatype Selector = ByTag(name: string) | ByClass(name: string)

  datatype Node = Node(
    tag: string,
    classes: set<string>,
    children: seq<Node>,
    shadowRoot: Option<Node>,
    text: string)

  predicate Matches(n: Node, s: Selector) {
    match s
    case ByTag(t) => n.tag == t
    case ByClass(c) => c in n.classes
  }

  /** One step down the tree: into the i-th child, or into the shadow root. */
  datatype Step = Child(index: nat) | Shadow

  type Path = seq<Step>

  /** The node reached from `n` along `p`, if every step of `p` exists. */
  function At(n: Node, p: Path): (r: Option<Node>)
    ensures p == [] ==> r == Some(n)
    decreases |p|
  {
    if p == [] then Some(n)
    else match p[0]
      case Child(i) => if i < |n.children| then At(n.children[i], p[1..]) else None
      case Shadow => if n.shadowRoot.Some? then At(n.shadowRoot.value, p[1..]) else None
  }

  /** Following `q + p` is following `q` and then `p`; it fails exactly
      when one of the two does. */
  lemma {:induction false} AtConcat(n: Node, q: Path, p: Path)
    ensures At(n, q + p) == if At(n, q).Some? then At(At(n, q).value, p) else None
    decreases |q|
  {
    if q != [] {
      assert (q + p)[0] == q[0] && (q + p)[1..] == q[1..] + p;
      match q[0]
      case Child(i) => if i < |n.children| { AtConcat(n.children[i], q[1..], p); }
      case Shadow => if n.shadowRoot.Some? { AtConcat(n.shadowRoot.value, q[1..], p); }
    } else {
      assert q + p == p;
    }
  }

  /** A light-DOM path: it never enters a shadow root. */
  predicate IsLight(p: Path) {
    forall k :: 0 <= k < |p| ==> p[k].Child?
  }

  /** `p` leads from `n` to a light-DOM descendant of `n` (not `n` itself)
      that matches `s`: the candidates of `n.querySelector(s)`. */
  predicate Selected(n: Node, p: Path, s: Selector) {
    |p| > 0 && IsLight(p) && At(n, p).Some? && Matches(At(n, p).value, s)
  }

  /** Document order on light paths: a node precedes its descendants, and
      the subtree of an earlier sibling precedes that of a later one. */
  predicate PrecedesOrEqual(p: Path, q: Path)
    decreases |p|
  {
    p == [] ||
    (q != [] && p[0].Child? && q[0].Child? &&
     (p[0].index < q[0].index ||
      (p[0].index == q[0].index && PrecedesOrEqual(p[1..], q[1..]))))
  }

  /** `n.querySelector(s)`: the first light-DOM descendant of `n` in
      document order that matches `s`, or `None` (JavaScript's null). */
  function QuerySelector(n: Node, s: Selector): (r: Option<Path>)
    ensures r.Some? ==> Selected(n, r.value, s)
  {
    QueryFrom(n, 0, s)
  }

  /** The pre-order search of `querySelector` over the subtrees of the
      children of `n` from index `i` on. */
  function QueryFrom(n: Node, i: nat, s: Selector): (r: Option<Path>)
    ensures r.Some? ==> Selected(n, r.value, s) && i <= r.value[0].index
    decreases n, |n.children| - i
  {
    if i >= |n.children| then None
    else if Matches(n.children[i], s) then Some([Child(i)])
    else match QueryFrom(n.children[i], 0, s)
      case Some(p) =>
        assert ([Child(i)] + p)[1..] == p;
        Some([Child(i)] + p)
      case None => QueryFrom(n, i + 1, s)
  }

  lemma {:induction false} QueryFromFindsFirst(n: Node, i: nat, s: Selector, q: Path)
    requires Selected(n, q, s) && i <= q[0].index
    ensures QueryFrom(n, i, s).Some? && PrecedesOrEqual(QueryFrom(n, i, s).value, q)
    decreases n, |n.children| - i
  {
    var j := q[0].index;
    var c := n.children[i];
    if !Matches(c, s) {
      if i == j {
        assert At(n, q) == At(c, q[1..]);
        assert q[1..] != [];
        QueryFromFindsFirst(c, 0, s, q[1..]);
        var p := QueryFrom(c, 0, s).value;
        assert QueryFrom(n, i, s).value[1..] == p;
      } else if QueryFrom(c, 0, s).None? {
        QueryFromFindsFirst(n, i + 1, s, q);
      }
    }
  }

  /** Every light-DOM descendant matching `s` is found by `querySelector` or
      comes after what it finds in document order: the result is the first
      match, and `None` means there is no match at all. */
  lemma QuerySelectorIsFirstMatch(n: Node, s: Selector, q: Path)
    requires Selected(n, q, s)
    ensures QuerySelector(n, s).Some?
    ensures PrecedesOrEqual(QuerySelector(n, s).value, q)
  {
    QueryFromFindsFirst(n, 0, s, q);
  }

  /** The whole tree after `At(n, p).appendChild(c)`. Appending under a
      missing path leaves the tree as it is. */
  function AppendChild(n: Node, p: Path, c: Node): (r: Node)
    ensures r.tag == n.tag && r.classes == n.classes && r.text == n.text
    ensures r.shadowRoot.Some? == n.shadowRoot.Some?
    ensures |r.children| == |n.children| + (if p == [] then 1 else 0)
    decreases |p|
  {
    if p == [] then n.(children := n.children + [c])
    else match p[0]
      case Child(i) =>
        if i < |n.children|
        then n.(children := n.children[i := AppendChild(n.children[i], p[1..], c)])
        else n
      case Shadow =>
        if n.shadowRoot.Some?
        then n.(shadowRoot := Some(AppendChild(n.shadowRoot.value, p[1..], c)))
        else n
  }

  /** Seen from an ancestor `q` of the insertion point, the append is an
      append inside the subtree at `q`. */
  lemma {:induction false} AtAfterAppend(n: Node, q: Path, r: Path, c: Node)
    requires At(n, q).Some?
    ensures At(AppendChild(n, q + r, c), q) == Some(AppendChild(At(n, q).value, r, c))
    decreases |q|
  {
    if q != [] {
      assert (q + r)[0] == q[0] && (q + r)[1..] == q[1..] + r;
      match q[0]
      case Child(i) => AtAfterAppend(n.children[i], q[1..], r, c);
      case Shadow => AtAfterAppend(n.shadowRoot.value, q[1..], r, c);
    } else {
      assert q + r == r;
    }
  }

  /** The element at `p` gains exactly `c` as its new last child. */
  lemma {:induction false} AppendChildAddsLastChild(n: Node, p: Path, c: Node)
    requires At(n, p).Some?
    ensures At(AppendChild(n, p, c), p).Some?
    ensures At(AppendChild(n, p, c), p).value.children == At(n, p).value.children + [c]
    ensures At(AppendChild(n, p, c), p).value == At(n, p).value.(children := At(n, p).value.children + [c])
  {
    AtAfterAppend(n, p, [], c);
    assert p + [] == p;
  }

  /** Every node that is not the insertion point or one of its ancestors is
      left exactly as it was. */
  lemma {:induction false} AppendChildLeavesOthersAlone(n: Node, p: Path, c: Node, q: Path)
    requires At(n, q).Some? && !(q <= p)
    ensures At(AppendChild(n, p, c), q) == At(n, q)
    decreases |q|
  {
    var n' := AppendChild(n, p, c);
    if p != [] && p[0] == q[0] {
      assert !(q[1..] <= p[1..]);
      match q[0]
      case Child(i) => AppendChildLeavesOthersAlone(n.children[i], p[1..], c, q[1..]);
      case Shadow => AppendChildLeavesOthersAlone(n.shadowRoot.value, p[1..], c, q[1..]);
    } else {
      match q[0]
      case Child(i) => assert n'.children[i] == n.children[i];
      case Shadow => assert n'.shadowRoot == n.shadowRoot;
    }
  }

  /** The ancestors of the insertion point keep their tag, classes, text,
      shadow root presence and number of children. */
  lemma AppendChildKeepsAncestors(n: Node, p: Path, c: Node, q: Path)
    requires At(n, p).Some? && q < p
    ensures At(n, q).Some? && At(AppendChild(n, p, c), q).Some?
    ensures var a, a' := At(n, q).value, At(AppendChild(n, p, c), q).value;
      a'.tag == a.tag && a'.classes == a.classes && a'.text == a.text &&
      a'.shadowRoot.Some? == a.shadowRoot.Some? && |a'.children| == |a.children|
  {
    assert p == q + p[|q|..];
    AtConcat(n, q, p[|q|..]);
    AtAfterAppend(n, q, p[|q|..], c);
  }

  /** `querySelector` does not look into shadow roots, so an append behind
      a shadow boundary does not change what it finds. */
  lemma {:induction false} QueryIgnoresAppendBehindShadow(n: Node, i: nat, s: Selector, p: Path, c: Node)
    requires Shadow in p
    ensures QueryFrom(AppendChild(n, p, c), i, s) == QueryFrom(n, i, s)
    decreases n, |n.children| - i
  {
    var n' := AppendChild(n, p, c);
    if i < |n.children| {
      if p[0] == Child(i) {
        assert Shadow in p[1..];
        QueryIgnoresAppendBehindShadow(n.children[i], 0, s, p[1..], c);
      } else {
        assert n'.children[i] == n.children[i];
      }
      QueryIgnoresAppendBehindShadow(n, i + 1, s, p, c);
    }
  }

  /** Appending inside the element `querySelector` found (or below it)
      does not change what it finds: the found element still comes first. */
  lemma {:induction false} QueryKeepsFoundAfterAppend(n: Node, i: nat, s: Selector, p: Path, r: Path, c: Node)
    requires QueryFrom(n, i, s) == Some(p)
    ensures QueryFrom(AppendChild(n, p + r, c), i, s) == Some(p)
    decreases n, |n.children| - i
  {
    var n' := AppendChild(n, p + r, c);
    var ch := n.children[i];
    assert (p + r)[0] == p[0] && (p + r)[1..] == p[1..] + r;
    if Matches(ch, s) {
      assert Matches(n'.children[i], s);
    } else if QueryFrom(ch, 0, s).Some? {
      var p1 := QueryFrom(ch, 0, s).value;
      assert p == [Child(i)] + p1 && p[1..] == p1;
      QueryKeepsFoundAfterAppend(ch, 0, s, p1, r, c);
    } else {
      assert n'.children[i] == ch;
      QueryKeepsFoundAfterAppend(n, i + 1, s, p, r, c);
    }
  }
}
