/** What the visibility engine guarantees: which elements each pass writes,
    idempotence, last write wins, per-category independence, toggles, and the
    start-up sequence. */
module EngineProperties {
  import opened Dom
  import opened Engine

  // ---------------------------------------------------------------------------
  // The targets of each category.

  /** The hot-search targets are exactly the elements whose id is `con-ar`. */
  lemma HotSearchTargetsAreConAr(s: seq<Node>)
    requires WellFormed(s)
    ensures forall i: nat :: i in HotSearchTargets(s) <==> i < |s| && s[i].id == "con-ar"
  {
    forall i: nat | i < |s| ensures MatchesAny(s, i, HotSearchSelectors) == (s[i].id == "con-ar") {
      SingleSelector(s, i, ConAr);
    }
  }

  /** Element `c` is the nearest `.new-pmd` element on the chain from some
      element matching an ad selector up to the root: stated by the parent
      chain alone, without `closest`. */
  ghost predicate NearestAdContainerOfMatch(s: seq<Node>, c: nat)
    requires WellFormed(s) && c < |s|
  {
    AdContainer in s[c].classes &&
    exists i: nat :: i < |s| && MatchesAny(s, i, AdSelectors) && IsAncestorOrSelf(s, c, i) &&
      forall k: nat :: IsAncestorOrSelf(s, k, i) && AdContainer in s[k].classes ==> k <= c
  }

  /** The ad targets are exactly the nearest `.new-pmd` ancestors-or-self of
      the elements matching an ad selector; an outer `.new-pmd` around an
      inner one is not a target on account of the inner one's matches. */
  lemma AdTargetsAreContainers(s: seq<Node>)
    requires WellFormed(s)
    ensures forall c: nat :: c in AdTargets(s) <==> c < |s| && NearestAdContainerOfMatch(s, c)
    ensures forall i: nat, c: nat ::
      i < |s| && MatchesAny(s, i, AdSelectors) && Closest(s, i, AdContainer) == Some(c) ==> c in AdTargets(s)
  {
    forall c: nat | c in AdTargets(s)
      ensures c < |s| && NearestAdContainerOfMatch(s, c)
    {
      var i: nat :| i < |s| && MatchesAny(s, i, AdSelectors) && Closest(s, i, AdContainer) == Some(c);
      ClosestIsNearest(s, i, AdContainer);
    }
    forall c: nat | c < |s| && NearestAdContainerOfMatch(s, c)
      ensures c in AdTargets(s)
    {
      var i: nat :| i < |s| && MatchesAny(s, i, AdSelectors) && IsAncestorOrSelf(s, c, i) &&
        forall k: nat :: IsAncestorOrSelf(s, k, i) && AdContainer in s[k].classes ==> k <= c;
      ClosestIsNearest(s, i, AdContainer);
      var r := Closest(s, i, AdContainer).value;
      assert r <= c && c <= r;
      assert IsContainerOfMatch(s, AdSelectors, AdContainer, c);
    }
    forall i: nat, c: nat | i < |s| && MatchesAny(s, i, AdSelectors) && Closest(s, i, AdContainer) == Some(c)
      ensures c in AdTargets(s)
    {
      assert IsContainerOfMatch(s, AdSelectors, AdContainer, c);
    }
  }

  /** A match of `.new-pmd .ec-tuiguang` is never skipped: it always has a
      `.new-pmd` container, and that container is hidden by `hideAdElements`. */
  lemma TuiguangAlwaysHasContainer(s: seq<Node>, i: nat)
    requires WellFormed(s) && i < |s|
    requires Matches(s, i, AdSelectors[0])
    ensures Closest(s, i, AdContainer).Some?
    ensures Closest(s, i, AdContainer).value in AdTargets(s)
    ensures HideAds(s)[Closest(s, i, AdContainer).value].display == Hidden
  {
    DescendantMatchHasContainer(s, i, AdContainer, Class("ec-tuiguang"));
    assert MatchesAny(s, i, AdSelectors);
    AdTargetsAreContainers(s);
  }

  // ---------------------------------------------------------------------------
  // What each pass writes, and that it writes nothing else.

  lemma HideHotSearchEffect(s: seq<Node>)
    requires WellFormed(s)
    ensures |HideHotSearch(s)| == |s|
    ensures forall i :: 0 <= i < |s| ==>
      HideHotSearch(s)[i] == if s[i].id == "con-ar" then s[i].(display := Hidden) else s[i]
  {
    HotSearchTargetsAreConAr(s);
  }

  lemma ShowHotSearchEffect(s: seq<Node>)
    requires WellFormed(s)
    ensures |ShowHotSearch(s)| == |s|
    ensures forall i :: 0 <= i < |s| ==>
      ShowHotSearch(s)[i] == if s[i].id == "con-ar" then s[i].(display := Cleared) else s[i]
  {
    HotSearchTargetsAreConAr(s);
  }

  /** Hiding ads sets `"none"` on exactly the nearest `.new-pmd` around each
      ad match and leaves every other element as it was. */
  lemma HideAdsEffect(s: seq<Node>)
    requires WellFormed(s)
    ensures |HideAds(s)| == |s|
    ensures forall c :: 0 <= c < |s| ==>
      HideAds(s)[c] == if NearestAdContainerOfMatch(s, c) then s[c].(display := Hidden) else s[c]
  {
    AdTargetsAreContainers(s);
  }

  /** Showing ads sets `""` on the same elements and on no other. */
  lemma ShowAdsEffect(s: seq<Node>)
    requires WellFormed(s)
    ensures |ShowAds(s)| == |s|
    ensures forall c :: 0 <= c < |s| ==>
      ShowAds(s)[c] == if NearestAdContainerOfMatch(s, c) then s[c].(display := Cleared) else s[c]
  {
    AdTargetsAreContainers(s);
  }

  /** With one `.new-pmd` inside another around an ad, only the inner block
      is hidden. */
  lemma NestedContainersInnerOnly()
    ensures var page := [Node("", {"new-pmd"}, None, ""), Node("", {"new-pmd"}, Some(0), ""),
                         Node("", {"ec_ad_results"}, Some(1), "")];
      WellFormed(page) && HideAds(page)[0] == page[0] && HideAds(page)[1].display == Hidden
  {
    var page := [Node("", {"new-pmd"}, None, ""), Node("", {"new-pmd"}, Some(0), ""),
                 Node("", {"ec_ad_results"}, Some(1), "")];
    assert WellFormed(page) by {
      assert ParentBefore(page[0], 0) && ParentBefore(page[1], 1) && ParentBefore(page[2], 2);
    }
    assert Matches(page, 2, AdSelectors[1]);
    assert MatchesAny(page, 2, AdSelectors);
    assert IsAncestorOrSelf(page, 1, 2);
    assert NearestAdContainerOfMatch(page, 1) by {
      forall k: nat | IsAncestorOrSelf(page, k, 2) && AdContainer in page[k].classes ensures k <= 1 {
        assert k != 2;
      }
    }
    assert !NearestAdContainerOfMatch(page, 0) by {
      forall i: nat | i < |page| && MatchesAny(page, i, AdSelectors) && IsAncestorOrSelf(page, 0, i)
        ensures IsAncestorOrSelf(page, 1, i) && AdContainer in page[1].classes
      {
      }
    }
    HideAdsEffect(page);
  }

  // ---------------------------------------------------------------------------
  // Idempotence and last write wins.

  lemma PassesIdempotent(s: seq<Node>)
    requires WellFormed(s)
    ensures HideHotSearch(HideHotSearch(s)) == HideHotSearch(s)
    ensures ShowHotSearch(ShowHotSearch(s)) == ShowHotSearch(s)
    ensures HideAds(HideAds(s)) == HideAds(s)
    ensures ShowAds(ShowAds(s)) == ShowAds(s)
  {
    TargetsShape(s, HideHotSearch(s), HotSearchSelectors, AdContainer);
    TargetsShape(s, ShowHotSearch(s), HotSearchSelectors, AdContainer);
    TargetsShape(s, HideAds(s), AdSelectors, AdContainer);
    TargetsShape(s, ShowAds(s), AdSelectors, AdContainer);
    SetDisplayOverwrite(s, HotSearchTargets(s), Hidden, Hidden);
    SetDisplayOverwrite(s, HotSearchTargets(s), Cleared, Cleared);
    SetDisplayOverwrite(s, AdTargets(s), Hidden, Hidden);
    SetDisplayOverwrite(s, AdTargets(s), Cleared, Cleared);
  }

  /** Show and hide of one category write the same element set, so the later
      of the two decides; in particular show undoes hide only up to the value
      `""` it writes. */
  lemma ShowAfterHide(s: seq<Node>)
    requires WellFormed(s)
    ensures ShowHotSearch(HideHotSearch(s)) == ShowHotSearch(s)
    ensures HideHotSearch(ShowHotSearch(s)) == HideHotSearch(s)
    ensures ShowAds(HideAds(s)) == ShowAds(s)
    ensures HideAds(ShowAds(s)) == HideAds(s)
  {
    TargetsShape(s, HideHotSearch(s), HotSearchSelectors, AdContainer);
    TargetsShape(s, ShowHotSearch(s), HotSearchSelectors, AdContainer);
    TargetsShape(s, HideAds(s), AdSelectors, AdContainer);
    TargetsShape(s, ShowAds(s), AdSelectors, AdContainer);
    SetDisplayOverwrite(s, HotSearchTargets(s), Hidden, Cleared);
    SetDisplayOverwrite(s, HotSearchTargets(s), Cleared, Hidden);
    SetDisplayOverwrite(s, AdTargets(s), Hidden, Cleared);
    SetDisplayOverwrite(s, AdTargets(s), Cleared, Hidden);
  }

  /** `showAdElements` writes `""` rather than restoring the value the page
      had before `hideAdElements`: an ad block the page itself styled
      `display: block` ends up with `display: ""`. */
  lemma ShowDoesNotRestore()
    ensures var page := [Node("", {"new-pmd", "ec_ad_results"}, None, "block")];
      WellFormed(page) && ShowAds(HideAds(page)) != page
  {
    var page := [Node("", {"new-pmd", "ec_ad_results"}, None, "block")];
    assert Matches(page, 0, AdSelectors[1]);
    assert Closest(page, 0, AdContainer) == Some(0);
    assert IsContainerOfMatch(page, AdSelectors, AdContainer, 0);
    ShowAfterHide(page);
    ShowAdsEffect(page);
    assert ShowAds(HideAds(page))[0].display == "";
  }

  // ---------------------------------------------------------------------------
  // The reconciliation rule.

  /** Per element, the outcome of `updateElementsVisibility`: an ad target
      takes the ad branch's value when that branch acts, otherwise a hot-search
      target takes the hot-search branch's value when that branch acts; a
      branch acts when its category is auto-hidden or visible, and writes `""`
      when visible and `"none"` when not. Everything else is left alone. */
  lemma ReconciledAt(s: seq<Node>, settings: Settings, hotSearchVisible: bool, adVisible: bool)
    requires WellFormed(s)
    ensures |Reconciled(s, settings, hotSearchVisible, adVisible)| == |s|
    ensures forall i :: 0 <= i < |s| ==>
      Reconciled(s, settings, hotSearchVisible, adVisible)[i] ==
        if i in AdTargets(s) && (settings.autoHideAd || adVisible) then
          s[i].(display := if adVisible then Cleared else Hidden)
        else if i in HotSearchTargets(s) && (settings.autoHideHotSearch || hotSearchVisible) then
          s[i].(display := if hotSearchVisible then Cleared else Hidden)
        else s[i]
  {
    var t := HotSearchBranch(s, settings.autoHideHotSearch, hotSearchVisible);
    TargetsShape(s, t, AdSelectors, AdContainer);
  }

  /** A second pass with the same settings and flags changes nothing, so any
      number of timer ticks or mutation callbacks without a DOM change leave
      the page as one pass does. */
  lemma ReconciledIdempotent(s: seq<Node>, settings: Settings, hotSearchVisible: bool, adVisible: bool)
    requires WellFormed(s)
    ensures Reconciled(Reconciled(s, settings, hotSearchVisible, adVisible), settings, hotSearchVisible, adVisible)
         == Reconciled(s, settings, hotSearchVisible, adVisible)
  {
    var t := Reconciled(s, settings, hotSearchVisible, adVisible);
    TargetsShape(s, t, AdSelectors, AdContainer);
    TargetsShape(s, t, HotSearchSelectors, AdContainer);
    ReconciledAt(s, settings, hotSearchVisible, adVisible);
    ReconciledAt(t, settings, hotSearchVisible, adVisible);
  }

  /** `n` consecutive passes with unchanged inputs. */
  function Ticks(s: seq<Node>, settings: Settings, hotSearchVisible: bool, adVisible: bool, n: nat): (r: seq<Node>)
    requires WellFormed(s)
    ensures SameShape(s, r) && WellFormed(r)
    decreases n
  {
    if n == 0 then s
    else
      var t := Reconciled(s, settings, hotSearchVisible, adVisible);
      var r := Ticks(t, settings, hotSearchVisible, adVisible, n - 1);
      SameShapeTransitive(s, t, r);
      r
  }

  lemma SameShapeTransitive(s: seq<Node>, t: seq<Node>, u: seq<Node>)
    requires SameShape(s, t) && SameShape(t, u)
    ensures SameShape(s, u)
  {
  }

  lemma {:induction false} TicksSettle(s: seq<Node>, settings: Settings, hotSearchVisible: bool, adVisible: bool, n: nat)
    requires WellFormed(s) && n >= 1
    ensures Ticks(s, settings, hotSearchVisible, adVisible, n) == Reconciled(s, settings, hotSearchVisible, adVisible)
    decreases n
  {
    if n > 1 {
      var t := Reconciled(s, settings, hotSearchVisible, adVisible);
      TicksSettle(t, settings, hotSearchVisible, adVisible, n - 1);
      ReconciledIdempotent(s, settings, hotSearchVisible, adVisible);
    }
  }

  /** On any page, however the host has rewritten it, one pass puts every
      target of an acting branch in the state its flag asks for; when a
      category is neither auto-hidden nor visible its branch does nothing,
      so elements the page inserted since a manual hide stay shown. */
  lemma Convergence(s: seq<Node>, settings: Settings, hotSearchVisible: bool, adVisible: bool)
    requires WellFormed(s)
    ensures forall c :: 0 <= c < |s| && c in AdTargets(s) && (settings.autoHideAd || adVisible) ==>
      Reconciled(s, settings, hotSearchVisible, adVisible)[c].display == if adVisible then Cleared else Hidden
    ensures forall i :: 0 <= i < |s| && s[i].id == "con-ar" && i !in AdTargets(s)
                        && (settings.autoHideHotSearch || hotSearchVisible) ==>
      Reconciled(s, settings, hotSearchVisible, adVisible)[i].display == if hotSearchVisible then Cleared else Hidden
    ensures !settings.autoHideHotSearch && !hotSearchVisible ==>
      forall i :: 0 <= i < |s| && i !in AdTargets(s) ==> Reconciled(s, settings, hotSearchVisible, adVisible)[i] == s[i]
    ensures !settings.autoHideAd && !adVisible ==>
      forall i :: 0 <= i < |s| && s[i].id != "con-ar" ==> Reconciled(s, settings, hotSearchVisible, adVisible)[i] == s[i]
  {
    ReconciledAt(s, settings, hotSearchVisible, adVisible);
    HotSearchTargetsAreConAr(s);
  }

  /** The two branches are decided independently: the ad settings and flag do
      not affect any element outside the ad targets, and the hot-search
      settings and flag do not affect any element other than a `#con-ar`. */
  lemma CategoriesIndependent(s: seq<Node>, st1: Settings, hv1: bool, av1: bool, st2: Settings, hv2: bool, av2: bool)
    requires WellFormed(s)
    ensures st1.autoHideHotSearch == st2.autoHideHotSearch && hv1 == hv2 ==>
      forall i :: 0 <= i < |s| && i !in AdTargets(s) ==>
        Reconciled(s, st1, hv1, av1)[i] == Reconciled(s, st2, hv2, av2)[i]
    ensures st1.autoHideAd == st2.autoHideAd && av1 == av2 ==>
      forall i :: 0 <= i < |s| && s[i].id != "con-ar" ==>
        Reconciled(s, st1, hv1, av1)[i] == Reconciled(s, st2, hv2, av2)[i]
  {
    ReconciledAt(s, st1, hv1, av1);
    ReconciledAt(s, st2, hv2, av2);
    HotSearchTargetsAreConAr(s);
  }

  // ---------------------------------------------------------------------------
  // Toggles.

  /** Toggling twice restores the flag and leaves the page as a single pass
      for the original flag would. */
  lemma ToggleTwice(s: seq<Node>, visible: bool)
    requires WellFormed(s)
    ensures ToggledHotSearch(ToggledHotSearch(s, !visible), !!visible) == ToggledHotSearch(s, visible)
    ensures ToggledAds(ToggledAds(s, !visible), !!visible) == ToggledAds(s, visible)
  {
    ShowAfterHide(s);
  }

  /** A later tick does not undo a toggle. The toggled category's own branch
      writes what the toggle wrote, whatever the auto-hide setting. A full
      tick keeps the toggled state on every element outside the other
      category's targets. The exception is an element that is both a `#con-ar`
      and an ad container. After a hot-search toggle, the tick's ad branch runs
      last and, when it acts, overwrites that element. After an ad toggle, the
      tick's hot-search branch runs first; it can undo the toggle on that
      element only when the ad branch is idle (auto-hide off and the new ad
      flag false), since otherwise the ad branch writes the toggled value again. */
  lemma TickAfterToggle(s: seq<Node>, st: Settings, hv: bool, av: bool)
    requires WellFormed(s)
    ensures HotSearchBranch(ToggledHotSearch(s, hv), st.autoHideHotSearch, hv) == ToggledHotSearch(s, hv)
    ensures AdBranch(ToggledAds(s, av), st.autoHideAd, av) == ToggledAds(s, av)
    ensures forall i :: 0 <= i < |s| && i !in AdTargets(s) ==>
      Reconciled(ToggledHotSearch(s, hv), st, hv, av)[i] == ToggledHotSearch(s, hv)[i]
    ensures forall c :: 0 <= c < |s| && c in AdTargets(s) && (st.autoHideAd || av || s[c].id != "con-ar") ==>
      Reconciled(ToggledAds(s, av), st, hv, av)[c] == ToggledAds(s, av)[c]
  {
    PassesIdempotent(s);
    HotSearchTargetsAreConAr(s);
    var th := ToggledHotSearch(s, hv);
    var ta := ToggledAds(s, av);
    TargetsShape(s, th, AdSelectors, AdContainer);
    TargetsShape(s, th, HotSearchSelectors, AdContainer);
    TargetsShape(s, ta, AdSelectors, AdContainer);
    TargetsShape(s, ta, HotSearchSelectors, AdContainer);
    ReconciledAt(th, st, hv, av);
    ReconciledAt(ta, st, hv, av);
  }

  /** The exception is real: on a `#con-ar` that is also an ad container,
      showing hot search and then ticking with the defaults hides it again. */
  lemma TickHidesShownOverlap()
    ensures var page := [Node("con-ar", {"new-pmd", "ec_ad_results"}, None, "")];
      WellFormed(page) &&
      ToggledHotSearch(page, true)[0].display == Cleared &&
      Reconciled(ToggledHotSearch(page, true), DefaultSettings, true, false)[0].display == Hidden
  {
    var page := [Node("con-ar", {"new-pmd", "ec_ad_results"}, None, "")];
    assert Matches(page, 0, AdSelectors[1]);
    assert Closest(page, 0, AdContainer) == Some(0);
    assert IsContainerOfMatch(page, AdSelectors, AdContainer, 0);
    assert 0 in AdTargets(page);
    HotSearchTargetsAreConAr(page);
    TickAfterToggle(page, DefaultSettings, true, false);
    var th := ToggledHotSearch(page, true);
    ShowHotSearchEffect(page);
    TargetsShape(page, th, AdSelectors, AdContainer);
    ReconciledAt(th, DefaultSettings, true, false);
  }

  // ---------------------------------------------------------------------------
  // Start-up.

  /** With the default settings and both flags clear, the first pass hides
      both categories. */
  lemma FirstPassHidesBoth(s: seq<Node>)
    requires WellFormed(s)
    ensures Reconciled(s, DefaultSettings, false, false) == HideAds(HideHotSearch(s))
  {
  }

  /** Seeding each flag with the negation of its loaded auto-hide value means
      every branch acts, so the pass after loading decides every target by the
      loaded settings alone and the first pass with defaults leaves no trace. */
  lemma LoadedSettingsWin(s: seq<Node>, items: Settings)
    requires WellFormed(s)
    ensures var t := Reconciled(s, DefaultSettings, false, false);
      Reconciled(t, items, !items.autoHideHotSearch, !items.autoHideAd)
      == Reconciled(s, items, !items.autoHideHotSearch, !items.autoHideAd)
    ensures forall i :: 0 <= i < |s| && i in AdTargets(s) ==>
      Reconciled(s, items, !items.autoHideHotSearch, !items.autoHideAd)[i].display
        == if items.autoHideAd then Hidden else Cleared
    ensures forall i :: 0 <= i < |s| && s[i].id == "con-ar" && i !in AdTargets(s) ==>
      Reconciled(s, items, !items.autoHideHotSearch, !items.autoHideAd)[i].display
        == if items.autoHideHotSearch then Hidden else Cleared
  {
    var t := Reconciled(s, DefaultSettings, false, false);
    TargetsShape(s, t, AdSelectors, AdContainer);
    TargetsShape(s, t, HotSearchSelectors, AdContainer);
    ReconciledAt(s, DefaultSettings, false, false);
    ReconciledAt(t, items, !items.autoHideHotSearch, !items.autoHideAd);
    ReconciledAt(s, items, !items.autoHideHotSearch, !items.autoHideAd);
    HotSearchTargetsAreConAr(s);
  }
}
