/** The styling pass of `searchAndModifyElement` (scripts.js): search the
    message list's `.content` element for a `.chip` and, when one is found,
    append a `<style>` element to it. The descent from the chat bubble to
    `.content` is not modelled: the pass takes `.content` as it finds it. */
module StyleInjection {
  import opened Dom
  import opened ShadowSearch

  /** The selector the pass searches for. */
  const ChipSelector: Selector := ByClass("chip")

  /** The text of the injected rule. Its CSS meaning is not modelled. */
  const ChipStyleRule: string :=
    "\n        .chip {\n          width: 38% !important;\n          display: flex !important;\n" +
    "          justify-content: center !important;\n        }\n      "

  /** A fresh `<style>` element holding the rule. */
  const StyleElement: Node := Node("style", {}, [], None, ChipStyleRule)

  /** The `.content` tree after one styling pass. */
  function Restyled(content: Option<Node>): (r: Option<Node>)
    ensures r.None? <==> content.None?
  {
    match FindElementInAnyShadowRoot(content, ChipSelector)
    case None => content
    case Some(p) => Some(AppendChild(content.value, p, StyleElement))
  }

  /** Whatever the pass styles is a `.chip`: the light-DOM search and the
      entry detour both look for `.chip` here. */
  lemma StyledElementIsAChip(content: Option<Node>)
    requires FindElementInAnyShadowRoot(content, ChipSelector).Some?
    ensures var p := FindElementInAnyShadowRoot(content, ChipSelector).value;
      At(content.value, p).Some? && "chip" in At(content.value, p).value.classes
  {
  }

  /** A pass that finds nothing changes nothing; one that finds an element
      gives it exactly one new last child, the style element, leaves every
      node off the path to it as it was, and keeps the tag, classes, text,
      shadow root and number of children of every node on that path. */
  lemma RestyledTouchesOnlyTheFoundElement(content: Option<Node>)
    ensures FindElementInAnyShadowRoot(content, ChipSelector).None? ==>
      Restyled(content) == content
    ensures FindElementInAnyShadowRoot(content, ChipSelector).Some? ==>
      var n, p := content.value, FindElementInAnyShadowRoot(content, ChipSelector).value;
      var n' := Restyled(content).value;
      At(n', p) == Some(At(n, p).value.(children := At(n, p).value.children + [StyleElement])) &&
      (forall q :: At(n, q).Some? && !(q <= p) ==> At(n', q) == At(n, q)) &&
      (forall q :: q < p ==>
        (At(n, q).Some? && At(n', q).Some? &&
         At(n', q).value.tag == At(n, q).value.tag &&
         At(n', q).value.classes == At(n, q).value.classes &&
         At(n', q).value.text == At(n, q).value.text &&
         At(n', q).value.shadowRoot.Some? == At(n, q).value.shadowRoot.Some? &&
         |At(n', q).value.children| == |At(n, q).value.children|))
  {
    if FindElementInAnyShadowRoot(content, ChipSelector).Some? {
      var n, p := content.value, FindElementInAnyShadowRoot(content, ChipSelector).value;
      AppendChildAddsLastChild(n, p, StyleElement);
      forall q | At(n, q).Some? && !(q <= p)
        ensures At(AppendChild(n, p, StyleElement), q) == At(n, q)
      {
        AppendChildLeavesOthersAlone(n, p, StyleElement, q);
      }
      forall q | q < p
        ensures At(n, q).Some? && At(AppendChild(n, p, StyleElement), q).Some?
        ensures var a, a' := At(n, q).value, At(AppendChild(n, p, StyleElement), q).value;
          a'.tag == a.tag && a'.classes == a.classes && a'.text == a.text &&
          a'.shadowRoot.Some? == a.shadowRoot.Some? && |a'.children| == |a.children|
      {
        AppendChildKeepsAncestors(n, p, StyleElement, q);
      }
    }
  }

  /** Every `SelectPreferring` hop is followed, later on the route, by an
      `EnterShadow` hop. */
  predicate ShadowAfterEveryPreference(route: seq<Hop>) {
    forall k :: 0 <= k < |route| && route[k].SelectPreferring? ==> EnterShadow in route[k + 1..]
  }

  /** Appending under the end of a walk does not change the walk, provided
      the walk crosses a shadow boundary after every preference hop (so the
      appended node is out of sight of the preferred selector's query). */
  lemma {:induction false} FollowStableUnderAppend(n: Node, route: seq<Hop>, c: Node)
    requires Follow(n, route).Some? && ShadowAfterEveryPreference(route)
    ensures Follow(AppendChild(n, Follow(n, route).value, c), route) == Follow(n, route)
    decreases |route|
  {
    if route != [] {
      var q := TakeHop(n, route[0]).value;
      var m := At(n, q).value;
      var p2 := Follow(m, route[1..]).value;
      var n' := AppendChild(n, q + p2, c);
      assert Follow(n, route) == Some(q + p2);
      match route[0] {
        case Select(sel) =>
          QueryKeepsFoundAfterAppend(n, 0, sel, q, p2, c);
        case SelectPreferring(a, b) =>
          if QuerySelector(n, a).Some? {
            QueryKeepsFoundAfterAppend(n, 0, a, q, p2, c);
          } else {
            QueryKeepsFoundAfterAppend(n, 0, b, q, p2, c);
            assert route[0 + 1..] == route[1..];
            FollowEntersShadow(m, route[1..]);
            assert Shadow in q + p2;
            QueryIgnoresAppendBehindShadow(n, 0, a, q + p2, c);
          }
        case EnterShadow =>
      }
      assert TakeHop(n', route[0]) == Some(q);
      AtAfterAppend(n, q, p2, c);
      assert ShadowAfterEveryPreference(route[1..]) by {
        forall k | 0 <= k < |route[1..]| && route[1..][k].SelectPreferring?
          ensures EnterShadow in route[1..][k + 1..]
        {
          assert route[1..][k + 1..] == route[k + 2..];
        }
      }
      FollowStableUnderAppend(m, route[1..], c);
    }
  }

  lemma EntryRouteCrossesShadowAfterPreference()
    ensures ShadowAfterEveryPreference(EntryRoute)
  {
    assert EntryRoute[3..][1] == EnterShadow;
  }

  /** Appending under the element the search found does not change what the
      search finds. */
  lemma {:induction false} FindStableUnderAppend(root: Option<Node>, selector: Selector, c: Node)
    requires FindElementInAnyShadowRoot(root, selector).Some?
    ensures var p := FindElementInAnyShadowRoot(root, selector).value;
      FindElementInAnyShadowRoot(Some(AppendChild(root.value, p, c)), selector) == Some(p)
    decreases root, 1
  {
    var n, p := root.value, FindElementInAnyShadowRoot(root, selector).value;
    if QuerySelector(n, selector).Some? {
      assert p + [] == p;
      QueryKeepsFoundAfterAppend(n, 0, selector, p, [], c);
    } else {
      QueryIgnoresAppendBehindShadow(n, 0, selector, p, c);
      FindInChildrenStableUnderAppend(n, 0, selector, c);
    }
  }

  lemma {:induction false} FindInChildrenStableUnderAppend(n: Node, i: nat, selector: Selector, c: Node)
    requires FindInChildren(n, i, selector).Some?
    ensures var p := FindInChildren(n, i, selector).value;
      FindInChildren(AppendChild(n, p, c), i, selector) == Some(p)
    decreases n, 0, |n.children| - i
  {
    var p := FindInChildren(n, i, selector).value;
    var n' := AppendChild(n, p, c);
    var f := FindInChildShadowRoot(n.children[i], selector);
    if f.Some? {
      assert p == [Child(i)] + f.value && p[1..] == f.value;
      FindInChildShadowRootStableUnderAppend(n.children[i], selector, c);
      assert n'.children[i] == AppendChild(n.children[i], f.value, c);
    } else {
      assert n'.children[i] == n.children[i];
      FindInChildrenStableUnderAppend(n, i + 1, selector, c);
    }
  }

  lemma {:induction false} FindInChildShadowRootStableUnderAppend(child: Node, selector: Selector, c: Node)
    requires FindInChildShadowRoot(child, selector).Some?
    ensures var p := FindInChildShadowRoot(child, selector).value;
      FindInChildShadowRoot(AppendChild(child, p, c), selector) == Some(p)
    decreases child, 2
  {
    var p := FindInChildShadowRoot(child, selector).value;
    var child' := AppendChild(child, p, c);
    if child.shadowRoot.Some? {
      var p1 := FindElementInAnyShadowRoot(child.shadowRoot, selector).value;
      assert p == [Shadow] + p1 && p[1..] == p1;
      FindStableUnderAppend(child.shadowRoot, selector, c);
      assert child'.shadowRoot == Some(AppendChild(child.shadowRoot.value, p1, c));
    } else {
      EntryRouteCrossesShadowAfterPreference();
      FollowStableUnderAppend(child, EntryRoute, c);
    }
  }

  /** A second pass styles the same element again: it ends up with two
      style elements, not one. */
  lemma RepeatedPassesAccumulateStyles(content: Option<Node>)
    requires FindElementInAnyShadowRoot(content, ChipSelector).Some?
    ensures var p := FindElementInAnyShadowRoot(content, ChipSelector).value;
      FindElementInAnyShadowRoot(Restyled(content), ChipSelector) == Some(p) &&
      At(Restyled(Restyled(content)).value, p).Some? &&
      At(Restyled(Restyled(content)).value, p).value.children ==
        At(content.value, p).value.children + [StyleElement, StyleElement]
  {
    var n, p := content.value, FindElementInAnyShadowRoot(content, ChipSelector).value;
    FindStableUnderAppend(content, ChipSelector, StyleElement);
    var n1 := AppendChild(n, p, StyleElement);
    AppendChildAddsLastChild(n, p, StyleElement);
    AppendChildAddsLastChild(n1, p, StyleElement);
  }

  /** The message list whose `.content` element the pass searches. */
  class MessageList {
    var content: Option<Node>

    constructor (content: Option<Node>)
      ensures this.content == content
    {
      this.content := content;
    }

    /** `searchAndModifyElement()`, from `.content` on. */
    method SearchAndModifyElement()
      modifies this
      ensures content == Restyled(old(content))
      ensures FindElementInAnyShadowRoot(old(content), ChipSelector).None? ==> content == old(content)
    {
      var foundElement := FindElementInAnyShadowRoot(content, ChipSelector);
      if foundElement.Some? {
        content := Some(AppendChild(content.value, foundElement.value, StyleElement));
      }
    }
  }
}
