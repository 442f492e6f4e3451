# Baidu cleaner: the visibility engine

A Dafny model of the content script `HotSearchBlocker` of the baidu-cleaner
browser extension. The script runs on the Baidu search-results page and hides
two categories of page elements: the hot-search panel (`#con-ar`) and
sponsored results (the `.new-pmd` block around any element matching one of six
ad selectors). It holds a settings record and two session flags,
`hotSearchVisible` and `adVisible`. These drive four DOM passes. Each pass sets
`style.display` to `"none"` (hide) or `""` (show) on a freshly queried set of
elements.

- `dom.dfy`, module `Dom`: the page is a sequence of elements in document
  order. Each element has an id, a class set, a parent index and its inline
  `display`. Because the order is document order, a parent always comes before
  its children. The module also holds a small selector language (`#id`,
  `.class`, the descendant combinator `A B`), `querySelectorAll`, `closest` as
  a walk up the parent chain starting at the element itself, and `SetDisplay`,
  the effect of writing one `display` value to a set of elements.
- `engine.dfy`, module `Engine`: the settings record, the defaults and the
  selector constants. Each pass, the reconciliation rule and each toggle is
  also written as a function of the page before it. The class
  `HotSearchBlocker` holds `settings`, the two flags and the page as an
  `array<Node>`. Its methods are the source's operations, written as loops
  over the query results. Each method's postcondition ties the new page to the
  function for that operation applied to the old page.
- `properties.dfy`, module `EngineProperties`: what the engine guarantees.
- `lifecycle.dfy`, module `ContentScript`: the start-up sequence. The first
  pass runs with the defaults, the storage callback then seeds the flags, and
  the pass that follows decides every target.

`updateElementsVisibility` leaves a category alone when it is neither
auto-hidden nor visible. So after a manual hide with auto-hide off, elements
that the page inserts later stay shown. `EngineProperties.Convergence` states
this case in its third and fourth postconditions.

## Model

| member | source | states |
|---|---|---|
| Dom.Matches | contents/index.tsx:54 | selector matching as `querySelectorAll` applies it: `#id` by id, `.class` by class set, `A B` by the subject and a proper ancestor matching `A`; its meaning for `A B` is stated by `Dom.AncestorMatchesChain` |
| Dom.AncestorMatches | contents/index.tsx:96 | some proper ancestor matches; its meaning is stated by `Dom.AncestorMatchesChain` |
| Dom.AncestorMatchesChain | contents/index.tsx:96 | the ancestor part of `A B` holds exactly when some element strictly above the element on its parent chain matches `A` |
| Dom.Closest | contents/index.tsx:107 | the result, when there is one, is at or before the element in document order and carries the class |
| Dom.ClosestIsNearest | contents/index.tsx:107 | the result of `closest` is the element itself or an ancestor and lies nearest the element among all such that carry the class; the result is none exactly when no element of the chain carries the class |
| Dom.QuerySelectorAll | contents/index.tsx:54 | returns exactly the elements that match the selector, each once, in increasing document order |
| Dom.SetDisplayKeepsShape | contents/index.tsx:56 | writing `display` leaves every id, class set and parent as it was, and keeps the page well formed |
| Dom.MatchesShape | contents/index.tsx:54 | whether an element matches a selector does not depend on any element's `display` |
| Dom.ClosestShape | contents/index.tsx:130 | `closest` does not depend on any element's `display` |
| Dom.TargetsShape | contents/index.tsx:104-112 | the set of elements a pass writes is the same before and after any `display` writes |
| Dom.DescendantMatchHasContainer | contents/index.tsx:119 | every match of `.cls B` has a `cls` container, so `closest` finds one |
| Engine.DefaultSettings | contents/index.tsx:35-39 | all three keys true; `FirstPassHidesBoth` states what the first pass does with them |
| Engine.AdSelectors | contents/index.tsx:95-102 | the six ad selectors, the same list in both ad passes (lines 118-125) |
| Engine.HideHotSearch | contents/index.tsx:48-59 | the page after the hide pass keeps every id, class set and parent and stays well formed; its effect is stated by `HideHotSearchEffect` |
| Engine.ShowHotSearch | contents/index.tsx:62-66 | likewise for the show pass; effect in `ShowHotSearchEffect` |
| Engine.HideAds | contents/index.tsx:116-136 | likewise for hiding ads; effect in `HideAdsEffect` |
| Engine.ShowAds | contents/index.tsx:93-113 | likewise for showing ads; effect in `ShowAdsEffect` |
| Engine.HotSearchBranch | contents/index.tsx:140-144 | the hot-search half of a pass keeps the page's shape; its per-element result is stated by `ReconciledAt` |
| Engine.AdBranch | contents/index.tsx:145-149 | the ad half of a pass keeps the page's shape; per-element result in `ReconciledAt` |
| Engine.Reconciled | contents/index.tsx:139-150 | one pass keeps the page's shape; `ReconciledAt`, `ReconciledIdempotent` and `CategoriesIndependent` state what it does |
| Engine.ToggledHotSearch | contents/index.tsx:73-77 | the page after a hot-search toggle keeps its shape; `ToggleTwice` and `TickAfterToggle` state its behaviour |
| Engine.ToggledAds | contents/index.tsx:85-89 | likewise for an ad toggle |
| Engine.HotSearchBlocker.constructor | contents/index.tsx:35-45 | initial state: default settings (all three keys true), both visible flags false, and the page it is given as its well-formed document |
| Engine.HotSearchBlocker.WriteMatches | contents/index.tsx:54-57 | one query's `forEach`: the new page is the old one with the value written to exactly the matches of the selector |
| Engine.HotSearchBlocker.WriteElement | contents/index.tsx:56 | the `forEach` callback: the value is written to that one element and every other element keeps its state |
| Engine.HotSearchBlocker.WriteEachElement | contents/index.tsx:55-57 | the loop over a query result: the value is written to exactly its elements |
| Engine.HotSearchBlocker.WriteContainer | contents/index.tsx:129-133 | the `forEach` callback of the ad passes: the value is written to the element's `closest` container when there is one, and nothing changes when there is none |
| Engine.HotSearchBlocker.WriteEachContainer | contents/index.tsx:128-134 | the loop over a query result: the value is written to exactly the containers found for its elements |
| Engine.MatchesOfAllMatches | contents/index.tsx:54-57 | the elements a `forEach` over the query result writes are exactly the matches of the selector |
| Engine.ContainersOfAllMatches | contents/index.tsx:128-134 | the containers a `forEach` over the query result writes are exactly the containers of the matches of the selector |
| Engine.HotSearchBlocker.WriteAllMatches | contents/index.tsx:53-58 | the loop over a selector list: the value is written to exactly the elements that match one of the selectors |
| Engine.HotSearchBlocker.WriteContainers | contents/index.tsx:127-135 | one query's `forEach` with `closest`: the value is written to exactly the containers of the matches; a match with no container is skipped |
| Engine.HotSearchBlocker.WriteAllContainers | contents/index.tsx:104-112 | the loop over a selector list: the value is written to exactly the containers of the elements that match one of the selectors |
| Engine.HotSearchBlocker.HideHotSearchElements | contents/index.tsx:48-59 | the page becomes HideHotSearch of the old page |
| Engine.HotSearchBlocker.ShowHotSearchElements | contents/index.tsx:62-66 | the page becomes ShowHotSearch of the old page |
| Engine.HotSearchBlocker.HideAdElements | contents/index.tsx:116-136 | the page becomes HideAds of the old page |
| Engine.HotSearchBlocker.ShowAdElements | contents/index.tsx:93-113 | the page becomes ShowAds of the old page, with the same element set as HideAds |
| Engine.HotSearchBlocker.UpdateElementsVisibility | contents/index.tsx:139-150 | the page becomes the reconciled page for the current settings and flags; settings and flags are unchanged |
| Engine.HotSearchBlocker.ToggleHotSearch | contents/index.tsx:69-78 | the flag is negated; the page is shown when the new flag is true and hidden when it is false |
| Engine.HotSearchBlocker.ToggleAd | contents/index.tsx:81-90 | the flag is negated; the ad blocks are shown when the new flag is true and hidden when it is false |
| Engine.HotSearchBlocker.LoadSettings | contents/index.tsx:171-175 | the settings become the loaded record, and each visible flag becomes the negation of its loaded auto-hide value |
| EngineProperties.HotSearchTargetsAreConAr | contents/index.tsx:50 | the hot-search targets are exactly the elements with id `con-ar` |
| EngineProperties.AdTargetsAreContainers | contents/index.tsx:127-135 | an element is an ad target exactly when it carries `new-pmd` and is the nearest `new-pmd` element on the parent chain of some ad match, stated without `closest`; the container `closest` finds for every ad match is a target |
| EngineProperties.NestedContainersInnerOnly | contents/index.tsx:130-133 | with one `.new-pmd` inside another around an ad, hiding ads hides the inner block and leaves the outer one unchanged |
| EngineProperties.TuiguangAlwaysHasContainer | contents/index.tsx:119 | a `.new-pmd .ec-tuiguang` match always has a container, and hiding ads hides it |
| EngineProperties.HideHotSearchEffect | contents/index.tsx:53-58 | after hiding, every `#con-ar` has display `"none"` and every other element is unchanged |
| EngineProperties.ShowHotSearchEffect | contents/index.tsx:63-65 | after showing, every `#con-ar` has display `""` and every other element is unchanged |
| EngineProperties.HideAdsEffect | contents/index.tsx:127-135 | after hiding ads, the nearest `.new-pmd` around each ad match has display `"none"` and every other element is unchanged |
| EngineProperties.ShowAdsEffect | contents/index.tsx:104-112 | after showing ads, the nearest `.new-pmd` around each ad match has display `""` and every other element is unchanged |
| EngineProperties.PassesIdempotent | contents/index.tsx:56 | each of the four passes applied twice gives the same page as once |
| EngineProperties.ShowAfterHide | contents/index.tsx:64 | show and hide of one category write the same set, so the later call alone decides the page |
| EngineProperties.ShowDoesNotRestore | contents/index.tsx:109 | show writes `""` instead of restoring the prior value: a block styled `display: block` does not get it back after hide then show |
| EngineProperties.ReconciledAt | contents/index.tsx:139-150 | per element, the reconciled value: the ad branch's value on ad targets when it acts, or the hot-search branch's value on hot-search targets when it acts, or else unchanged; a branch acts when auto-hidden or visible |
| EngineProperties.ReconciledIdempotent | contents/index.tsx:139-150 | a second reconciliation with the same settings and flags changes nothing |
| EngineProperties.Ticks | contents/index.tsx:155 | the page after `n` timer or mutation passes keeps its shape |
| EngineProperties.TicksSettle | contents/index.tsx:155-165 | any number n ≥ 1 of passes with unchanged inputs yields the page of a single pass |
| EngineProperties.Convergence | contents/index.tsx:140-149 | on any page, one pass gives every target of an acting branch the state its flag asks for; a branch that is neither auto-hidden nor visible leaves its elements alone |
| EngineProperties.CategoriesIndependent | contents/index.tsx:140-149 | the ad settings and flag affect no element outside the ad targets; the hot-search settings and flag affect no element other than a `#con-ar` |
| EngineProperties.ToggleTwice | contents/index.tsx:69-90 | toggling twice gives the page that one pass for the original flag gives |
| EngineProperties.TickAfterToggle | contents/index.tsx:139-150 | the toggled category's own branch in a later tick writes what the toggle wrote, whatever the auto-hide setting; a full tick keeps the toggled state on every element outside the other category's targets; on an element that is both a `#con-ar` and an ad container, a hot-search toggle is overwritten by the tick's ad branch when that branch acts, and an ad toggle is kept unless the ad branch is idle (auto-hide off and the new flag false) |
| EngineProperties.TickHidesShownOverlap | contents/index.tsx:139-150 | the exception is real: a `#con-ar` that is also an ad container, shown by the hot-search toggle, is hidden again by the next tick under the defaults |
| EngineProperties.FirstPassHidesBoth | contents/index.tsx:35-45 | with the defaults and both flags false, the first pass hides both categories |
| EngineProperties.LoadedSettingsWin | contents/index.tsx:171-175 | after loading, the defaults' pass leaves no trace; each category's targets are hidden when its auto-hide is on and shown when it is off |
| ContentScript.Startup | contents/index.tsx:170-187 | mount, first pass, storage callback and second pass leave the page reconciled for the loaded settings alone |

## Left out

- Rendering of the two control buttons and the `showControlButton` early return (contents/index.tsx:189-211): this is user interface. `showControlButton` is kept in the settings record but has no effect on the engine.
- The `setInterval` poll, the `MutationObserver` and the `useEffect` subscription and cleanup (contents/index.tsx:153-167, 179-187): these are timer and event scheduling. A tick or a mutation batch is one more call to `UpdateElementsVisibility`, and `TicksSettle` covers repeated calls. `HotSearchBlocker.document` is a fixed-length array, so the class never sees an element inserted or removed by the host page. Insertions between ticks are covered only by the lemmas about the functions (`Reconciled`, `Convergence`, `TicksSettle`), which hold for every well-formed page.
- `chrome.storage.sync.get` (contents/index.tsx:171): this is an asynchronous foreign API. `LoadSettings` takes the record the callback receives, with absent keys already filled from the defaults by the store.
- React's asynchronous state updates: a toggle changes its flag and runs its pass in one step. The closures that capture the previous state until the effect re-subscribes are not modelled.
- The CSS engine: only the three selector forms the script uses are modelled (`#id`, `.class`, descendant `A B`). `Element.closest` is modelled only for a single class selector.
- The Plasmo content-script config (contents/index.tsx:5-8): this is manifest data. options.tsx and popup.tsx are settings pages and are not part of this model.
- Detached-document failures: the model has no failing DOM access, so there is nothing to absorb.
