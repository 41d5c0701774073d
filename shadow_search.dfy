/** The recursive search of scripts.js for an element inside nested shadow
    roots: `findElementInAnyShadowRoot`, `findInChildShadowRoot` and
    `findInEntryShadowRoot`. Results are paths from the node the search
    starts at (see module Dom). */
module ShadowSearch {
  import opened Dom

  /** One link of a shadow host chain. */
  datatype Hop =
    | Select(sel: Selector)
      // current.querySelector(sel)
    | SelectPreferring(preferred: Selector, fallback: Selector)
      // current.querySelector(preferred) ? that : current.querySelector(fallback)
    | EnterShadow
      // current.shadowRoot

  function TakeHop(n: Node, h: Hop): (r: Option<Path>)
    ensures r.Some? ==> At(n, r.value).Some?
    ensures r.Some? && h.Select? ==> Selected(n, r.value, h.sel)
    ensures r.Some? && h.SelectPreferring? ==>
      Selected(n, r.value, h.preferred) || Selected(n, r.value, h.fallback)
    ensures h.EnterShadow? ==> (r.Some? <==> n.shadowRoot.Some?) && (r.Some? ==> r.value == [Shadow])
  {
    match h
    case Select(sel) => QuerySelector(n, sel)
    case SelectPreferring(a, b) =>
      if QuerySelector(n, a).Some? then QuerySelector(n, a) else QuerySelector(n, b)
    case EnterShadow => if n.shadowRoot.Some? then Some([Shadow]) else None
  }

  /** The preferred selector is used whenever some light-DOM descendant
      matches it, and the fallback only when none does. */
  lemma SelectPreferringUsesPreferredIfPresent(n: Node, a: Selector, b: Selector)
    ensures TakeHop(n, SelectPreferring(a, b)) ==
      if exists q :: Selected(n, q, a) then QuerySelector(n, a) else QuerySelector(n, b)
  {
    if exists q :: Selected(n, q, a) {
      var q :| Selected(n, q, a);
      QuerySelectorIsFirstMatch(n, a, q);
    }
  }

  /** Walks a shadow host chain from `n`: each hop starts at the node the
      previous one reached, and the first missing link gives `None`. */
  function Follow(n: Node, route: seq<Hop>): (r: Option<Path>)
    ensures r.Some? ==> At(n, r.value).Some?
    ensures r.Some? && route != [] && route[|route| - 1].Select? ==>
      Matches(At(n, r.value).value, route[|route| - 1].sel)
    decreases |route|
  {
    if route == [] then Some([])
    else match TakeHop(n, route[0])
      case None => None
      case Some(q) =>
        match Follow(At(n, q).value, route[1..])
        case None => None
        case Some(p) =>
          AtConcat(n, q, p);
          assert |route| > 1 ==> route[1..][|route[1..]| - 1] == route[|route| - 1];
          assert p == [] ==> q + p == q;
          Some(q + p)
  }

  /** Hop `k` of `route` is the missing link of the walk from `n`: the hops
      before it all succeed and it does not. */
  predicate LinkMissing(n: Node, route: seq<Hop>, k: nat) {
    k < |route| &&
    match Follow(n, route[..k])
    case None => false
    case Some(p) => TakeHop(At(n, p).value, route[k]).None?
  }

  /** The walk gives `None` exactly when some link of the chain is missing. */
  lemma {:induction false} FollowFailsExactlyAtMissingLink(n: Node, route: seq<Hop>)
    ensures Follow(n, route).None? <==> exists k: nat :: LinkMissing(n, route, k)
    decreases |route|
  {
    if route != [] {
      assert route[..0] == [];
      match TakeHop(n, route[0])
      case None =>
        assert LinkMissing(n, route, 0);
      case Some(q) =>
        var m := At(n, q).value;
        FollowFailsExactlyAtMissingLink(m, route[1..]);
        assert !LinkMissing(n, route, 0);
        forall k: nat | k < |route| - 1
          ensures LinkMissing(n, route, k + 1) == LinkMissing(m, route[1..], k)
        {
          assert route[..k + 1][0] == route[0] && route[..k + 1][1..] == route[1..][..k];
          match Follow(m, route[1..][..k])
          case None =>
          case Some(p) => AtConcat(n, q, p);
        }
        if exists k: nat :: LinkMissing(n, route, k) {
          var k: nat :| LinkMissing(n, route, k);
          assert LinkMissing(m, route[1..], k - 1);
        }
        if exists k: nat :: LinkMissing(m, route[1..], k) {
          var k: nat :| LinkMissing(m, route[1..], k);
          assert LinkMissing(n, route, k + 1);
        }
    }
  }

  /** A walk that passes an `EnterShadow` hop ends behind a shadow boundary. */
  lemma {:induction false} FollowEntersShadow(n: Node, route: seq<Hop>)
    requires Follow(n, route).Some? && EnterShadow in route
    ensures Shadow in Follow(n, route).value
    decreases |route|
  {
    var q := TakeHop(n, route[0]).value;
    var p := Follow(At(n, q).value, route[1..]).value;
    assert Follow(n, route).value == q + p;
    if route[0] != EnterShadow {
      FollowEntersShadow(At(n, q).value, route[1..]);
    }
  }

  /** The route of `findInEntryShadowRoot`: the `df-messenger-utterance`,
      its shadow root, the `.none` container or else the `.message-stack`,
      the `df-chips`, its shadow root, the `.df-chips-wrapper` and in it
      the `.chip`. */
  const EntryRoute: seq<Hop> := [
    Select(ByTag("df-messenger-utterance")),
    EnterShadow,
    SelectPreferring(ByClass("none"), ByClass("message-stack")),
    Select(ByTag("df-chips")),
    EnterShadow,
    Select(ByClass("df-chips-wrapper")),
    Select(ByClass("chip"))
  ]

  /** `findInEntryShadowRoot(entry, selector)`. As in the source, `selector`
      is not consulted: the detour always looks for a `.chip`. */
  function FindInEntryShadowRoot(entry: Node, selector: Selector): (r: Option<Path>)
    ensures r.Some? ==> At(entry, r.value).Some? && "chip" in At(entry, r.value).value.classes
    ensures r.Some? ==> |r.value| > 0 && r.value[0].Child? && Shadow in r.value
  {
    var r := Follow(entry, EntryRoute);
    if r.Some? then
      var q := TakeHop(entry, EntryRoute[0]).value;
      var m := At(entry, q).value;
      assert EntryRoute[1..] == [EnterShadow] + EntryRoute[2..];
      assert r.value == q + Follow(m, EntryRoute[1..]).value;
      FollowEntersShadow(m, EntryRoute[1..]);
      r
    else r
  }

  /** Every link of the entry detour must be present for it to find
      anything. */
  lemma EntryDetourNeedsEveryLink(entry: Node, selector: Selector)
    ensures FindInEntryShadowRoot(entry, selector).None? <==>
      exists k: nat :: LinkMissing(entry, EntryRoute, k)
  {
    FollowFailsExactlyAtMissingLink(entry, EntryRoute);
  }

  /** A child that `findInChildShadowRoot` sends on the entry detour: no
      shadow root, and both classes `entry` and `bot`. */
  predicate IsBotEntry(n: Node) {
    n.shadowRoot.None? && "entry" in n.classes && "bot" in n.classes
  }

  /** The first `k` steps of `p` reach a bot entry, and the rest of `p` is
      what the detour walks from there. */
  predicate DetourAt(n: Node, p: Path, k: nat) {
    k <= |p| && At(n, p[..k]).Some? && IsBotEntry(At(n, p[..k]).value) &&
    Follow(At(n, p[..k]).value, EntryRoute) == Some(p[k..])
  }

  /** `p` is a bot entry's detour, taken from an entry at least `lo` steps
      below `n`. */
  predicate ViaDetour(n: Node, p: Path, lo: nat) {
    exists k: nat :: lo <= k <= |p| && DetourAt(n, p, k)
  }

  /** A detour under the node at `q` is one under `n`, `|q|` steps further
      down. */
  lemma DetourAtBelow(n: Node, q: Path, p: Path, k: nat)
    requires At(n, q).Some? && DetourAt(At(n, q).value, p, k)
    ensures DetourAt(n, q + p, |q| + k)
  {
    assert (q + p)[..|q| + k] == q + p[..k];
    assert (q + p)[|q| + k..] == p[k..];
    AtConcat(n, q, p[..k]);
  }

  /** A match or a detour under the node at `q` is one under `n`, `|q|`
      steps further down. */
  lemma MatchOrDetourBelow(n: Node, q: Path, p: Path, lo: nat, selector: Selector)
    requires At(n, q).Some? && At(At(n, q).value, p).Some?
    requires Matches(At(At(n, q).value, p).value, selector) || ViaDetour(At(n, q).value, p, lo)
    ensures At(n, q + p) == At(At(n, q).value, p)
    ensures Matches(At(n, q + p).value, selector) || ViaDetour(n, q + p, |q| + lo)
  {
    AtConcat(n, q, p);
    if !Matches(At(At(n, q).value, p).value, selector) {
      var k: nat :| lo <= k <= |p| && DetourAt(At(n, q).value, p, k);
      DetourAtBelow(n, q, p, k);
    }
  }

  /** `p` leads from `n` to a proper descendant that matches `selector` or
      is a `.chip` (the entry detour's find). */
  predicate Acceptable(n: Node, p: Path, selector: Selector) {
    |p| > 0 && At(n, p).Some? &&
    (Matches(At(n, p).value, selector) || "chip" in At(n, p).value.classes)
  }

  /** `findElementInAnyShadowRoot(root, selector)`: first the light DOM of
      `root`, then the children of `root` in order. A result that does not
      match `selector` is one a bot entry's detour returned. */
  function FindElementInAnyShadowRoot(root: Option<Node>, selector: Selector): (r: Option<Path>)
    ensures root.None? ==> r.None?
    ensures r.Some? ==> Acceptable(root.value, r.value, selector)
    ensures r.Some? ==>
      Matches(At(root.value, r.value).value, selector) || ViaDetour(root.value, r.value, 1)
    decreases root, 1
  {
    match root
    case None => None
    case Some(n) =>
      match QuerySelector(n, selector)
      case Some(p) => Some(p)
      case None => FindInChildren(n, 0, selector)
  }

  /** The `for...of` loop over `root.children`, from child `i` on. */
  function FindInChildren(n: Node, i: nat, selector: Selector): (r: Option<Path>)
    ensures r.Some? ==> Acceptable(n, r.value, selector) && Shadow in r.value
    ensures r.Some? ==> r.value[0].Child? && i <= r.value[0].index
    ensures r.Some? ==> Matches(At(n, r.value).value, selector) || ViaDetour(n, r.value, 1)
    decreases n, 0, |n.children| - i
  {
    if i >= |n.children| then None
    else match FindInChildShadowRoot(n.children[i], selector)
      case Some(p) =>
        assert ([Child(i)] + p)[1..] == p;
        MatchOrDetourBelow(n, [Child(i)], p, 0, selector);
        Some([Child(i)] + p)
      case None => FindInChildren(n, i + 1, selector)
  }

  /** `findInChildShadowRoot(child, selector)`. */
  function FindInChildShadowRoot(child: Node, selector: Selector): (r: Option<Path>)
    ensures r.Some? ==> Acceptable(child, r.value, selector) && Shadow in r.value
    ensures r.Some? ==> Matches(At(child, r.value).value, selector) || ViaDetour(child, r.value, 0)
    ensures r.Some? ==> (r.value[0] == Shadow <==> child.shadowRoot.Some?)
    ensures child.shadowRoot.Some? ==>
      (r.Some? <==> FindElementInAnyShadowRoot(child.shadowRoot, selector).Some?)
    ensures child.shadowRoot.Some? && r.Some? ==>
      FindElementInAnyShadowRoot(child.shadowRoot, selector) == Some(r.value[1..])
    ensures IsBotEntry(child) ==> r == Follow(child, EntryRoute)
    ensures IsBotEntry(child) ==> (r.None? <==> exists k: nat :: LinkMissing(child, EntryRoute, k))
    ensures child.shadowRoot.None? && !IsBotEntry(child) ==> r.None?
    decreases child, 2
  {
    if child.shadowRoot.Some? then
      match FindElementInAnyShadowRoot(child.shadowRoot, selector)
      case Some(p) =>
        assert ([Shadow] + p)[1..] == p;
        MatchOrDetourBelow(child, [Shadow], p, 1, selector);
        Some([Shadow] + p)
      case None => None
    else if IsBotEntry(child) then
      FollowFailsExactlyAtMissingLink(child, EntryRoute);
      var r := FindInEntryShadowRoot(child, selector);
      if r.Some? then
        assert r.value[..0] == [] && r.value[0..] == r.value;
        assert DetourAt(child, r.value, 0);
        r
      else r
    else None
  }

  /** The entry detour does not consult the selector at all. */
  lemma EntryDetourIgnoresSelector(child: Node, s1: Selector, s2: Selector)
    requires child.shadowRoot.None?
    ensures FindInChildShadowRoot(child, s1) == FindInChildShadowRoot(child, s2)
  {
  }

  /** A light-DOM match anywhere under `n` wins: the search returns the
      first one in document order, and no shadow root is searched. */
  lemma LightMatchComesFirst(n: Node, selector: Selector, q: Path)
    requires Selected(n, q, selector)
    ensures FindElementInAnyShadowRoot(Some(n), selector) == QuerySelector(n, selector)
    ensures FindElementInAnyShadowRoot(Some(n), selector).Some?
    ensures var p := FindElementInAnyShadowRoot(Some(n), selector).value;
      IsLight(p) && PrecedesOrEqual(p, q)
  {
    QuerySelectorIsFirstMatch(n, selector, q);
  }

  /** The loop yields `None` exactly when no child yields anything. */
  lemma {:induction false} ChildrenAllMissed(n: Node, i: nat, selector: Selector)
    ensures FindInChildren(n, i, selector).None? <==>
      forall j :: i <= j < |n.children| ==> FindInChildShadowRoot(n.children[j], selector).None?
    decreases |n.children| - i
  {
    if i < |n.children| {
      ChildrenAllMissed(n, i + 1, selector);
      if FindInChildShadowRoot(n.children[i], selector).None? {
        assert FindInChildren(n, i, selector) == FindInChildren(n, i + 1, selector);
        if FindInChildren(n, i, selector).None? {
          forall j | i <= j < |n.children|
            ensures FindInChildShadowRoot(n.children[j], selector).None?
          {
            if j != i { assert i + 1 <= j; }
          }
        }
      } else {
        assert FindInChildren(n, i, selector).Some?;
      }
    }
  }

  /** The children are tried in order: the answer is that of the first
      child that yields one, and the children after it are not consulted. */
  lemma {:induction false} FirstChildHitWins(n: Node, i: nat, selector: Selector)
    requires FindInChildren(n, i, selector).Some?
    ensures var p := FindInChildren(n, i, selector).value;
      var k := p[0].index;
      k < |n.children| &&
      FindInChildShadowRoot(n.children[k], selector) == Some(p[1..]) &&
      forall j :: i <= j < k ==> FindInChildShadowRoot(n.children[j], selector).None?
    decreases |n.children| - i
  {
    var f := FindInChildShadowRoot(n.children[i], selector);
    if f.Some? {
      var p := [Child(i)] + f.value;
      assert FindInChildren(n, i, selector) == Some(p);
      assert p[0].index == i && p[1..] == f.value;
    } else {
      var p := FindInChildren(n, i + 1, selector).value;
      assert FindInChildren(n, i, selector) == Some(p);
      FirstChildHitWins(n, i + 1, selector);
      forall j | i <= j < p[0].index
        ensures FindInChildShadowRoot(n.children[j], selector).None?
      {
        if j == i { assert f.None?; }
      }
    }
  }

  /** Only the shadow roots of the root's own children are entered, and
      only bot entries among those children take the detour: a result is a
      light-DOM descendant, or lies in the shadow root of a child, or is
      the detour of a child that is a bot entry. A shadow host deeper in
      the light DOM is never searched from this root. */
  lemma OnlyChildrenAreEntered(n: Node, selector: Selector)
    ensures var r := FindElementInAnyShadowRoot(Some(n), selector);
      r.Some? ==>
        (IsLight(r.value) ||
         (r.value[0].Child? && r.value[0].index < |n.children| &&
          ((|r.value| > 1 && r.value[1] == Shadow &&
            n.children[r.value[0].index].shadowRoot.Some?) ||
           (IsBotEntry(n.children[r.value[0].index]) &&
            Follow(n.children[r.value[0].index], EntryRoute) == Some(r.value[1..])))))
  {
    if QuerySelector(n, selector).None? && FindInChildren(n, 0, selector).Some? {
      FirstChildHitWins(n, 0, selector);
    }
  }
}
