# Chip search through nested shadow roots

This project models the DOM search in `scripts.js`, a script that restyles a
third-party chat widget. The widget renders its suggestion chips (`.chip`)
several shadow roots deep. `searchAndModifyElement` finds the first chip and
appends a `<style>` element to it. To find it, `findElementInAnyShadowRoot`
looks in the light DOM of a root first. Then it tries the root's children in
order. A child with a shadow root is searched recursively through that shadow
root. A child without one that carries the classes `entry` and `bot` is
searched by `findInEntryShadowRoot`. That function follows a fixed chain of
hosts down to the chip: utterance, its shadow root, message stack, `df-chips`,
its shadow root, wrapper, chip.

The model has four modules.

- `Dom` (dom.dfy) is the part of the browser the script relies on. A tree is
  a `Node` value: tag, classes, ordered children, an optional shadow root and
  text. An element is identified by its `Path` (child indices and shadow
  steps) from the node where the search starts. `QuerySelector` is the first
  light-DOM descendant in document order that matches a selector; it does not
  enter shadow roots. `AppendChild` is `appendChild`, seen as the whole tree
  after the call.
- `ShadowSearch` (shadow_search.dfy) holds the three `find*` functions. They
  are mutually recursive and terminate on the structure of the tree. The
  entry detour is a route of hops (`Select`, `SelectPreferring`,
  `EnterShadow`) that `Follow` walks; the first missing link gives `None`
  (JavaScript's `null`).
- `StyleInjection` (style_injection.dfy) holds the styling pass. The class
  `MessageList` holds the `.content` tree. Its method `SearchAndModifyElement`
  replaces that tree with the restyled one. `Restyled` is the specification
  function of that method.
- `DetourSample` (detour_sample.dfy) holds two concrete trees: a bot entry on
  which a search for `<button>` returns a `.chip`, and a `.chip` behind a
  shadow host deeper in the light DOM, which the search does not find.

The search is not breadth-first. scripts.js:6 queries the root's whole
light-DOM subtree first. Only then does scripts.js:10-13 descend into each
child in turn, depth first, before trying the next child. The model does the
same. Despite its name, the search enters only the shadow roots of the root's
direct children (scripts.js:10-21), plus the detour of a direct child that is
a bot entry (scripts.js:24-25). The recursion starts again only at those
shadow roots, so a shadow host below a plain light-DOM child is never entered.

## Model

| member | source | states |
|---|---|---|
| `Dom.QuerySelector` | scripts.js:6 | a non-null result is a light-DOM descendant of the root (never the root, never behind a shadow root) that matches the selector |
| `Dom.QuerySelectorIsFirstMatch` | scripts.js:6-7 | whenever some light-DOM descendant matches, `querySelector` returns a match that is first in document order; so `null` means no descendant matches |
| `Dom.AppendChild` | scripts.js:83 | appending keeps the tag, classes, text and shadow-root presence of every node it passes; only the target gains a child |
| `Dom.AppendChildAddsLastChild` | scripts.js:83 | the target element ends with its old children followed by the new one, and is otherwise unchanged |
| `Dom.AppendChildLeavesOthersAlone` | scripts.js:83 | every node that is neither the target nor one of its ancestors is left exactly as it was |
| `Dom.AppendChildKeepsAncestors` | scripts.js:83 | the target's ancestors keep their tag, classes, text, shadow root presence and number of children |
| `ShadowSearch.TakeHop` | scripts.js:33-47 | one link of the entry detour: a query result matches its selector (the preferred or the fallback one), and entering a shadow root succeeds exactly when the host has one |
| `ShadowSearch.SelectPreferringUsesPreferredIfPresent` | scripts.js:37-39 | the `.none` container is used whenever one exists, and `.message-stack` only when none does |
| `ShadowSearch.Follow` | scripts.js:33-47 | a completed walk ends at an existing node, and that node matches the last hop's selector |
| `ShadowSearch.FollowFailsExactlyAtMissingLink` | scripts.js:33-45 | a walk gives `null` if and only if some link is missing, where all the links before it are present |
| `ShadowSearch.FindInEntryShadowRoot` | scripts.js:32-48 | a non-null detour result is a `.chip`, reached through a light-DOM descendant of the entry and then through at least one shadow root |
| `ShadowSearch.EntryDetourNeedsEveryLink` | scripts.js:33-45 | the detour gives `null` if and only if one of its links is missing: utterance, its shadow root, message stack, `df-chips`, its shadow root, `.df-chips-wrapper` or `.chip` |
| `ShadowSearch.EntryDetourIgnoresSelector` | scripts.js:24-25 | for a child without a shadow root, the result does not depend on the selector passed in |
| `DetourSample.DetourCanReturnNonMatchingElement` | scripts.js:32-47 | on a concrete bot entry, searching for `<button>` returns a `.chip` that is not a button |
| `ShadowSearch.FindElementInAnyShadowRoot` | scripts.js:2-16 | an absent root gives `null`; a non-null result is a proper descendant that matches the selector or is a `.chip`; one that does not match the selector is what the entry detour returned for a bot entry below the root (a descendant with `entry` and `bot` and no shadow root) |
| `ShadowSearch.FindInChildren` | scripts.js:10-15 | a result found through the children lies behind a shadow boundary and starts at a child not before the loop's position; it matches the selector unless it is the detour result of a bot entry below `root` |
| `ShadowSearch.FindInChildShadowRoot` | scripts.js:19-29 | a child with a shadow root is searched only through it, even when it is a bot entry, and the result is the shadow search's own result one step down; a bot entry without a shadow root yields exactly the detour's walk, which is `null` if and only if one of its links is missing; any other child yields `null`; a result that does not match the selector is the detour result of a bot entry at or below the child |
| `ShadowSearch.OnlyChildrenAreEntered` | scripts.js:9-28 | a result is a light-DOM descendant of the root, or lies in the shadow root of a direct child, or is the detour walk of a direct child that is a bot entry |
| `DetourSample.DeepHostIsNotSearched` | scripts.js:10-21 | a `.chip` in the shadow root of a grandchild host, under a plain light-DOM child, is not found |
| `ShadowSearch.LightMatchComesFirst` | scripts.js:5-7 | if any light-DOM descendant matches, the result is the first such match in document order, and no shadow root is searched |
| `ShadowSearch.ChildrenAllMissed` | scripts.js:10-15 | the loop gives `null` if and only if no child yields a result |
| `ShadowSearch.FirstChildHitWins` | scripts.js:10-13 | the loop's result is that of the first child that yields one; every earlier child yields `null` |
| `StyleInjection.Restyled` | scripts.js:71-84 | the styling pass keeps an absent `.content` absent and a present one present |
| `StyleInjection.StyledElementIsAChip` | scripts.js:56-71 | the element the pass styles always carries the class `chip` |
| `StyleInjection.RestyledTouchesOnlyTheFoundElement` | scripts.js:73-84 | a failed search changes nothing; a successful one adds exactly one `<style>` child to the found element, leaves every other node off its path unchanged, and keeps the labels and child counts of its ancestors |
| `StyleInjection.FindStableUnderAppend` | scripts.js:71-83 | appending under the element the search found does not change what the search finds |
| `StyleInjection.RepeatedPassesAccumulateStyles` | scripts.js:71-84 | a second pass styles the same element again, which then has two `<style>` children rather than one |
| `StyleInjection.MessageList.SearchAndModifyElement` | scripts.js:71-84 | the new `.content` tree is the restyled old one; when the search finds nothing, it is unchanged |

## Left out

- The descent from `df-messenger-chat-bubble` to `.content` (scripts.js:52-68) is not modelled. A missing bubble, or a bubble without a shadow root, makes the pass do nothing (scripts.js:54). Past that guard, the chain is unguarded: a `null` from any lookup at scripts.js:60-67 makes the next call throw. The last lookup, `.content` at scripts.js:68, may give `null`, which the search turns into no change. The model starts there: the pass takes the `.content` element, present or not, as its input.
- `resetTimers` (scripts.js:89-123) is not modelled, because it is timer behaviour: two chained 60-second `setTimeout`s. Its handles are fresh locals on each call, so its `clearTimeout` calls cancel nothing. Also, scripts.js:154 calls it without the widget argument.
- `handleChatOpen`, `handleResponseReceived` and the `DOMContentLoaded` handler (scripts.js:126-174) are not modelled. They are browser event listeners, `sessionStorage` reads and writes, and calls into the widget's API, whose behaviour is not visible. This includes the 10 ms delay before a restyle.
- CSS is not modelled. Selectors are single type or class selectors. The injected rule is an opaque string.
- `console.log` output is not modelled.
- Nodes other than elements are not modelled. `children` holds elements only, so the `?.` on `classList` (scripts.js:24) never matters.
- `StyleInjection.MessageList.SearchAndModifyElement` works on a tree value. It does not model update in place, aliasing or node identity: an element is its path from `.content`. It also cannot tell one freshly created `<style>` element from another.
