/** The visibility engine of the content script `HotSearchBlocker`: its
    settings record, the two session flags, the four DOM passes, the
    reconciliation rule, the two toggles and the settings-load step. */
module Engine {
  import opened Dom

  /** The persisted preferences read from the synchronised store. */
  datatype Settings = Settings(autoHideHotSearch: bool, showControlButton: bool, autoHideAd: bool)

  /** Used before the store has answered, and for every absent key. */
  const DefaultSettings := Settings(autoHideHotSearch := true, showControlButton := true, autoHideAd := true)

  /** The two values the engine writes to `style.display`. */
  const Hidden := "none"
  const Cleared := ""

  /** `#con-ar`, the hot-search panel. */
  const ConAr := Id("con-ar")
  const HotSearchSelectors := [ConAr]

  /** The sponsored-result markers; the element hidden is the enclosing
      `.new-pmd` block. */
  const AdContainer := "new-pmd"
  const AdSelectors := [
    Descendant(Class("new-pmd"), Class("ec-tuiguang")),
    Class("ec_ad_results"),
    Class("ec_wise_ad"),
    Class("ec_wise_ad_results"),
    Class("ec_wise_ad_results_top"),
    Class("ec_wise_ad_results_bottom")
  ]

  // ---------------------------------------------------------------------------
  // The effect of each pass on the page, as functions of the page before it.

  function HotSearchTargets(s: seq<Node>): set<nat>
    requires WellFormed(s)
  {
    MatchTargets(s, HotSearchSelectors)
  }

  function AdTargets(s: seq<Node>): set<nat>
    requires WellFormed(s)
  {
    ContainerTargets(s, AdSelectors, AdContainer)
  }

  function HideHotSearch(s: seq<Node>): (r: seq<Node>)
    requires WellFormed(s)
    ensures SameShape(s, r) && WellFormed(r)
  {
    SetDisplayKeepsShape(s, HotSearchTargets(s), Hidden);
    SetDisplay(s, HotSearchTargets(s), Hidden)
  }

  function ShowHotSearch(s: seq<Node>): (r: seq<Node>)
    requires WellFormed(s)
    ensures SameShape(s, r) && WellFormed(r)
  {
    SetDisplayKeepsShape(s, HotSearchTargets(s), Cleared);
    SetDisplay(s, HotSearchTargets(s), Cleared)
  }

  function HideAds(s: seq<Node>): (r: seq<Node>)
    requires WellFormed(s)
    ensures SameShape(s, r) && WellFormed(r)
  {
    SetDisplayKeepsShape(s, AdTargets(s), Hidden);
    SetDisplay(s, AdTargets(s), Hidden)
  }

  function ShowAds(s: seq<Node>): (r: seq<Node>)
    requires WellFormed(s)
    ensures SameShape(s, r) && WellFormed(r)
  {
    SetDisplayKeepsShape(s, AdTargets(s), Cleared);
    SetDisplay(s, AdTargets(s), Cleared)
  }

  /** The hot-search half of `updateElementsVisibility`. */
  function HotSearchBranch(s: seq<Node>, autoHide: bool, visible: bool): (r: seq<Node>)
    requires WellFormed(s)
    ensures SameShape(s, r) && WellFormed(r)
  {
    if autoHide && !visible then HideHotSearch(s)
    else if visible then ShowHotSearch(s)
    else s
  }

  /** The ad half of `updateElementsVisibility`. */
  function AdBranch(s: seq<Node>, autoHide: bool, visible: bool): (r: seq<Node>)
    requires WellFormed(s)
    ensures SameShape(s, r) && WellFormed(r)
  {
    if autoHide && !visible then HideAds(s)
    else if visible then ShowAds(s)
    else s
  }

  /** One reconciliation pass: the hot-search branch, then the ad branch. */
  function Reconciled(s: seq<Node>, settings: Settings, hotSearchVisible: bool, adVisible: bool): (r: seq<Node>)
    requires WellFormed(s)
    ensures SameShape(s, r) && WellFormed(r)
  {
    AdBranch(HotSearchBranch(s, settings.autoHideHotSearch, hotSearchVisible), settings.autoHideAd, adVisible)
  }

  /** What a toggle does to the page once it has computed the new flag. */
  function ToggledHotSearch(s: seq<Node>, newVisible: bool): (r: seq<Node>)
    requires WellFormed(s)
    ensures SameShape(s, r) && WellFormed(r)
  {
    if newVisible then ShowHotSearch(s) else HideHotSearch(s)
  }

  function ToggledAds(s: seq<Node>, newVisible: bool): (r: seq<Node>)
    requires WellFormed(s)
    ensures SameShape(s, r) && WellFormed(r)
  {
    if newVisible then ShowAds(s) else HideAds(s)
  }

  // ---------------------------------------------------------------------------
  // The content script's state and its operations.

  class HotSearchBlocker {
    var settings: Settings
    var hotSearchVisible: bool
    var adVisible: bool
    /** The live page, elements in document order. */
    const document: array<Node>

    ghost predicate Valid()
      reads document
    {
      WellFormed(document[..])
    }

    /** The initial state: default settings, both categories not visible. */
    constructor (page: array<Node>)
      requires WellFormed(page[..])
      ensures Valid()
      ensures document == page
      ensures settings == DefaultSettings
      ensures !hotSearchVisible && !adVisible
    {
      document := page;
      settings := DefaultSettings;
      hotSearchVisible := false;
      adVisible := false;
    }

    /** The `forEach` callback of the hot-search passes: `el.style.display = value`. */
    method WriteElement(e: nat, value: string)
      requires e < document.Length
      modifies document
      ensures document[..] == SetDisplay(old(document[..]), {e}, value)
    {
      ghost var before := document[..];
      document[e] := document[e].(display := value);
      assert document[..] == SetDisplay(before, {e}, value);
    }

    /** `elements.forEach(el => el.style.display = value)`. */
    method WriteEachElement(elements: seq<nat>, value: string)
      requires Valid()
      requires forall jj :: 0 <= jj < |elements| ==> elements[jj] < document.Length
      modifies document
      ensures Valid()
      ensures document[..] == SetDisplay(old(document[..]), FirstN(elements, |elements|), value)
    {
      ghost var s0 := document[..];
      SetDisplayNothing(s0, value);
      var j := 0;
      while j < |elements|
        invariant 0 <= j <= |elements|
        invariant document[..] == SetDisplay(s0, FirstN(elements, j), value)
      {
        WriteElement(elements[j], value);
        SetDisplayCompose(s0, FirstN(elements, j), {elements[j]}, value);
        j := j + 1;
      }
      SetDisplayKeepsShape(s0, FirstN(elements, j), value);
    }

    /** `document.querySelectorAll(sel).forEach(el => el.style.display = value)`. */
    method WriteMatches(sel: Selector, value: string)
      requires Valid()
      modifies document
      ensures Valid()
      ensures document[..] == SetDisplay(old(document[..]), MatchTargets(old(document[..]), [sel]), value)
    {
      ghost var s0 := document[..];
      var elements := QuerySelectorAll(document[..], sel);
      assert forall jj :: 0 <= jj < |elements| ==> elements[jj] in elements;
      WriteEachElement(elements, value);
      MatchesOfAllMatches(s0, elements, sel);
    }

    /** `selectors.forEach(sel => WriteMatches(sel, value))`. */
    method WriteAllMatches(sels: seq<Selector>, value: string)
      requires Valid()
      modifies document
      ensures Valid()
      ensures document[..] == SetDisplay(old(document[..]), MatchTargets(old(document[..]), sels), value)
    {
      ghost var s0 := document[..];
      NoSelectorNoTargets(s0, sels, AdContainer);
      var k := 0;
      while k < |sels|
        invariant 0 <= k <= |sels|
        invariant document[..] == SetDisplay(s0, MatchTargets(s0, sels[..k]), value)
      {
        MatchSelectorStep(s0, sels, k, value);
        WriteMatches(sels[k], value);
        k := k + 1;
      }
      assert sels[..|sels|] == sels;
      SetDisplayKeepsShape(s0, MatchTargets(s0, sels), value);
    }

    /** The `forEach` callback of the ad passes: `const c = el.closest("." + cls);
        if (c) c.style.display = value`. */
    method WriteContainer(e: nat, cls: string, value: string)
      requires Valid() && e < document.Length
      modifies document
      ensures document[..] == SetDisplay(old(document[..]), FoundContainer(old(document[..]), e, cls), value)
    {
      ghost var before := document[..];
      var container := Closest(document[..], e, cls);
      if container.Some? {
        var c := container.value;
        document[c] := document[c].(display := value);
        assert document[..] == SetDisplay(before, {c}, value);
      } else {
        assert document[..] == SetDisplay(before, {}, value);
      }
    }

    /** `elements.forEach(el => WriteContainer(el, cls, value))`. */
    method WriteEachContainer(elements: seq<nat>, cls: string, value: string)
      requires Valid()
      requires forall jj :: 0 <= jj < |elements| ==> elements[jj] < document.Length
      modifies document
      ensures Valid()
      ensures document[..] == SetDisplay(old(document[..]), ContainersOf(old(document[..]), elements, |elements|, cls), value)
    {
      ghost var s0 := document[..];
      SetDisplayNothing(s0, value);
      assert ContainersOf(s0, elements, 0, cls) == {};
      var j := 0;
      while j < |elements|
        invariant 0 <= j <= |elements|
        invariant Valid()
        invariant document[..] == SetDisplay(s0, ContainersOf(s0, elements, j, cls), value)
      {
        ghost var cur := document[..];
        WriteContainer(elements[j], cls, value);
        ContainerStep(s0, cur, document[..], elements, j, cls, value);
        j := j + 1;
      }
    }

    /** `document.querySelectorAll(sel).forEach(el => WriteContainer(el, cls, value))`. */
    method WriteContainers(sel: Selector, cls: string, value: string)
      requires Valid()
      modifies document
      ensures Valid()
      ensures document[..] == SetDisplay(old(document[..]), ContainerTargets(old(document[..]), [sel], cls), value)
    {
      ghost var s0 := document[..];
      var elements := QuerySelectorAll(document[..], sel);
      assert forall jj :: 0 <= jj < |elements| ==> elements[jj] in elements;
      WriteEachContainer(elements, cls, value);
      ContainersOfAllMatches(s0, document[..], elements, sel, cls, value);
    }

    /** `selectors.forEach(sel => WriteContainers(sel, cls, value))`. */
    method WriteAllContainers(sels: seq<Selector>, cls: string, value: string)
      requires Valid()
      modifies document
      ensures Valid()
      ensures document[..] == SetDisplay(old(document[..]), ContainerTargets(old(document[..]), sels, cls), value)
    {
      ghost var s0 := document[..];
      NoSelectorNoTargets(s0, sels, cls);
      var k := 0;
      while k < |sels|
        invariant 0 <= k <= |sels|
        invariant document[..] == SetDisplay(s0, ContainerTargets(s0, sels[..k], cls), value)
      {
        ContainerSelectorStep(s0, sels, cls, k, value);
        WriteContainers(sels[k], cls, value);
        k := k + 1;
      }
      assert sels[..|sels|] == sels;
      SetDisplayKeepsShape(s0, ContainerTargets(s0, sels, cls), value);
    }

    /** `hideHotSearchElements`. */
    method HideHotSearchElements()
      requires Valid()
      modifies document
      ensures Valid()
      ensures document[..] == HideHotSearch(old(document[..]))
    {
      WriteAllMatches(HotSearchSelectors, Hidden);
    }

    /** `showHotSearchElements`: a single query for `#con-ar`. */
    method ShowHotSearchElements()
      requires Valid()
      modifies document
      ensures Valid()
      ensures document[..] == ShowHotSearch(old(document[..]))
    {
      WriteMatches(ConAr, Cleared);
    }

    /** `hideAdElements`. */
    method HideAdElements()
      requires Valid()
      modifies document
      ensures Valid()
      ensures document[..] == HideAds(old(document[..]))
    {
      WriteAllContainers(AdSelectors, AdContainer, Hidden);
    }

    /** `showAdElements`. */
    method ShowAdElements()
      requires Valid()
      modifies document
      ensures Valid()
      ensures document[..] == ShowAds(old(document[..]))
    {
      WriteAllContainers(AdSelectors, AdContainer, Cleared);
    }

    /** `updateElementsVisibility`, run on mount, on every timer tick and on
        every batch of DOM mutations. */
    method UpdateElementsVisibility()
      requires Valid()
      modifies document
      ensures Valid()
      ensures document[..] == Reconciled(old(document[..]), settings, hotSearchVisible, adVisible)
    {
      if settings.autoHideHotSearch && !hotSearchVisible {
        HideHotSearchElements();
      } else if hotSearchVisible {
        ShowHotSearchElements();
      }
      if settings.autoHideAd && !adVisible {
        HideAdElements();
      } else if adVisible {
        ShowAdElements();
      }
    }

    /** `toggleHotSearch`: negate the flag, then show or hide at once. */
    method ToggleHotSearch()
      requires Valid()
      modifies this`hotSearchVisible, document
      ensures Valid()
      ensures hotSearchVisible == !old(hotSearchVisible)
      ensures document[..] == ToggledHotSearch(old(document[..]), hotSearchVisible)
    {
      var newVisibility := !hotSearchVisible;
      hotSearchVisible := newVisibility;
      if newVisibility {
        ShowHotSearchElements();
      } else {
        HideHotSearchElements();
      }
    }

    /** `toggleAd`: negate the flag, then show or hide at once. */
    method ToggleAd()
      requires Valid()
      modifies this`adVisible, document
      ensures Valid()
      ensures adVisible == !old(adVisible)
      ensures document[..] == ToggledAds(old(document[..]), adVisible)
    {
      var newVisibility := !adVisible;
      adVisible := newVisibility;
      if newVisibility {
        ShowAdElements();
      } else {
        HideAdElements();
      }
    }

    /** The storage callback: adopt the loaded settings and seed each flag
        with the negation of its auto-hide preference. */
    method LoadSettings(items: Settings)
      modifies this`settings, this`hotSearchVisible, this`adVisible
      ensures settings == items
      ensures hotSearchVisible == !items.autoHideHotSearch
      ensures adVisible == !items.autoHideAd
    {
      settings := items;
      hotSearchVisible := !items.autoHideHotSearch;
      adVisible := !items.autoHideAd;
    }
  }

  // ---------------------------------------------------------------------------
  // The steps of the loops above.

  /** The first `n` elements of `xs`, as a set. */
  ghost function FirstN(xs: seq<nat>, n: nat): set<nat>
    requires n <= |xs|
  {
    if n == 0 then {} else FirstN(xs, n - 1) + {xs[n - 1]}
  }

  lemma {:induction false} FirstNMembers(xs: seq<nat>, n: nat, x: nat)
    requires n <= |xs|
    ensures x in FirstN(xs, n) <==> exists k :: 0 <= k < n && xs[k] == x
  {
    if n > 0 {
      FirstNMembers(xs, n - 1, x);
    }
  }

  /** After a loop over all matches of `sel`, the elements written are
      exactly the matches. */
  lemma MatchesOfAllMatches(s: seq<Node>, elements: seq<nat>, sel: Selector)
    requires WellFormed(s)
    requires forall x: nat :: x in elements <==> x < |s| && Matches(s, x, sel)
    ensures FirstN(elements, |elements|) == MatchTargets(s, [sel])
  {
    forall x: nat ensures x in FirstN(elements, |elements|) <==> x in MatchTargets(s, [sel]) {
      FirstNMembers(elements, |elements|, x);
      if x in elements {
        var k :| 0 <= k < |elements| && elements[k] == x;
      }
      if x < |s| {
        SingleSelector(s, x, sel);
      }
    }
  }

  /** One selector of a hot-search pass: its matches on the page written so far
      are its matches on the original page. */
  lemma MatchSelectorStep(s: seq<Node>, sels: seq<Selector>, k: nat, value: string)
    requires WellFormed(s) && k < |sels|
    ensures var cur := SetDisplay(s, MatchTargets(s, sels[..k]), value);
      WellFormed(cur) &&
      SetDisplay(cur, MatchTargets(cur, [sels[k]]), value) == SetDisplay(s, MatchTargets(s, sels[..k + 1]), value)
  {
    var cur := SetDisplay(s, MatchTargets(s, sels[..k]), value);
    SetDisplayKeepsShape(s, MatchTargets(s, sels[..k]), value);
    TargetsShape(s, cur, [sels[k]], AdContainer);
    SetDisplayCompose(s, MatchTargets(s, sels[..k]), MatchTargets(s, [sels[k]]), value);
    MatchTargetsSnoc(s, sels, k);
  }

  /** One selector of an ad pass, likewise for the containers. */
  lemma ContainerSelectorStep(s: seq<Node>, sels: seq<Selector>, cls: string, k: nat, value: string)
    requires WellFormed(s) && k < |sels|
    ensures var cur := SetDisplay(s, ContainerTargets(s, sels[..k], cls), value);
      WellFormed(cur) &&
      SetDisplay(cur, ContainerTargets(cur, [sels[k]], cls), value)
        == SetDisplay(s, ContainerTargets(s, sels[..k + 1], cls), value)
  {
    var cur := SetDisplay(s, ContainerTargets(s, sels[..k], cls), value);
    SetDisplayKeepsShape(s, ContainerTargets(s, sels[..k], cls), value);
    TargetsShape(s, cur, [sels[k]], cls);
    SetDisplayCompose(s, ContainerTargets(s, sels[..k], cls), ContainerTargets(s, [sels[k]], cls), value);
    ContainerTargetsSnoc(s, sels, cls, k);
  }

  /** One element of an ad query: the page so far is well formed and
      `closest` finds on it the container it finds on the original page. */
  lemma ContainerStep(s: seq<Node>, cur: seq<Node>, next: seq<Node>, elements: seq<nat>, j: nat, cls: string, value: string)
    requires WellFormed(s) && j < |elements| && elements[j] < |s|
    requires cur == SetDisplay(s, ContainersOf(s, elements, j, cls), value)
    requires next == SetDisplay(cur, FoundContainer(cur, elements[j], cls), value)
    ensures WellFormed(next)
    ensures next == SetDisplay(s, ContainersOf(s, elements, j + 1, cls), value)
  {
    var done := ContainersOf(s, elements, j, cls);
    SetDisplayKeepsShape(s, done, value);
    ClosestShape(s, cur, elements[j], cls);
    assert FoundContainer(cur, elements[j], cls) == FoundContainer(s, elements[j], cls);
    SetDisplayCompose(s, done, FoundContainer(s, elements[j], cls), value);
    SetDisplayKeepsShape(s, ContainersOf(s, elements, j + 1, cls), value);
  }

  /** After a loop over all matches of `sel`, the containers written are
      exactly the containers of the matches. */
  lemma ContainersOfAllMatches(s: seq<Node>, d: seq<Node>, elements: seq<nat>, sel: Selector, cls: string, value: string)
    requires WellFormed(s)
    requires forall x: nat :: x in elements <==> x < |s| && Matches(s, x, sel)
    requires forall jj :: 0 <= jj < |elements| ==> elements[jj] < |s|
    requires d == SetDisplay(s, ContainersOf(s, elements, |elements|, cls), value)
    ensures d == SetDisplay(s, ContainerTargets(s, [sel], cls), value)
  {
    forall c: nat | c in ContainersOf(s, elements, |elements|, cls) ensures c in ContainerTargets(s, [sel], cls) {
      ContainersOfMembers(s, elements, |elements|, cls, c);
      var jj :| 0 <= jj < |elements| && Closest(s, elements[jj], cls) == Some(c);
      var i := elements[jj];
      assert i in elements;
      SingleSelector(s, i, sel);
      assert IsContainerOfMatch(s, [sel], cls, c);
    }
    forall c: nat | c in ContainerTargets(s, [sel], cls) ensures c in ContainersOf(s, elements, |elements|, cls) {
      var i: nat :| i < |s| && MatchesAny(s, i, [sel]) && Closest(s, i, cls) == Some(c);
      SingleSelector(s, i, sel);
      assert i in elements;
      var jj :| 0 <= jj < |elements| && elements[jj] == i;
      ContainersOfMembers(s, elements, |elements|, cls, c);
    }
    assert ContainersOf(s, elements, |elements|, cls) == ContainerTargets(s, [sel], cls);
  }
}
