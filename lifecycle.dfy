/** The content script's start-up as the host runs it: mount, first pass with
    the defaults, the storage callback, and the pass the changed state
    triggers. */
module ContentScript {
  import opened Dom
  import opened Engine
  import opened EngineProperties

  method Startup(page: array<Node>, items: Settings) returns (blocker: HotSearchBlocker)
    requires WellFormed(page[..])
    modifies page
    ensures fresh(blocker) && blocker.document == page && blocker.Valid()
    ensures blocker.settings == items
    ensures blocker.hotSearchVisible == !items.autoHideHotSearch && blocker.adVisible == !items.autoHideAd
    ensures page[..] == Reconciled(old(page[..]), items, !items.autoHideHotSearch, !items.autoHideAd)
  {
    blocker := new HotSearchBlocker(page);
    blocker.UpdateElementsVisibility();
    blocker.LoadSettings(items);
    blocker.UpdateElementsVisibility();
    LoadedSettingsWin(old(page[..]), items);
  }
}
