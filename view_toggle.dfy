/**
 * The table/card toggle of the list view: it starts in the view the user
 * chose last time, ignores clicks while disabled or on the view already
 * shown, and otherwise switches, remembers the choice and reports it.
 */
module ViewToggleComponent {
  import opened Wrappers
  import opened BrowserStorage

  /** The key the chosen view is remembered under. */
  const ViewStorageKey := "preferred-view"

  /** One entry of `views`: the id sent with the event, and the icon of its button. */
  datatype ViewOption = ViewOption(id: string, icon: string)

  /** The two views, table first. */
  const DefaultViews := [ViewOption("table", "📋"), ViewOption("card", "🎯")]

  /**
   * `getStoredView() || 'table'`: a stored view that is not the empty string,
   * else the table view. A stored value is taken as it is, known view or not.
   */
  function InitialView(stored: Option<string>): (v: string)
    ensures v != []
    ensures stored.Some? && stored.value != [] ==> v == stored.value
    ensures stored.None? || stored.value == [] ==> v == "table"
  {
    if stored.Some? && stored.value != [] then stored.value else "table"
  }

  /** A toggle button as `render` draws it. */
  datatype ToggleButton = ToggleButton(view: string, active: bool, disabled: bool)

  /** One button per view, in order; the current one active; all disabled with the component. */
  function Buttons(views: seq<ViewOption>, current: string, disabled: bool): (bs: seq<ToggleButton>)
    ensures |bs| == |views|
    ensures forall i :: 0 <= i < |bs| ==> bs[i].view == views[i].id
    ensures forall i :: 0 <= i < |bs| ==> (bs[i].active <==> views[i].id == current) && (bs[i].disabled <==> disabled)
  {
    seq(|views|, i requires 0 <= i < |views| => ToggleButton(views[i].id, views[i].id == current, disabled))
  }

  /** The guard of `handleViewChange` lets a click through. */
  predicate Accepts(disabled: bool, current: string, viewId: string) {
    !disabled && viewId != current
  }

  /**
   * A click on a drawn button changes the view exactly when the button is
   * neither disabled nor the active one; and with the two default views (the
   * current one among them), exactly one button is active.
   */
  lemma ButtonsMatchGuard(views: seq<ViewOption>, current: string, disabled: bool)
    ensures var bs := Buttons(views, current, disabled);
      forall i :: 0 <= i < |bs| ==> (Accepts(disabled, current, bs[i].view) <==> !bs[i].disabled && !bs[i].active)
    ensures current == "table" || current == "card" ==>
      var bs := Buttons(DefaultViews, current, disabled);
      |bs| == 2 && (bs[0].active <==> !bs[1].active)
  {
  }

  class ViewToggle {
    var currentView: string
    var views: seq<ViewOption>
    var disabled: bool
    /** The browser storage the choice is remembered in. */
    const storage: WebStorage
    /** The details (`view`) of the `view-change` events dispatched so far. */
    var events: seq<string>

    /** The remembered view (or the table view), the two views, enabled. */
    constructor (storage: WebStorage)
      ensures this.storage == storage
      ensures currentView == InitialView(if storage.available then storage.Lookup(ViewStorageKey) else None)
      ensures views == DefaultViews && !disabled && events == []
    {
      this.storage := storage;
      var stored: Option<string> := None;
      if storage.available {
        stored := storage.Lookup(ViewStorageKey);
      }
      currentView := InitialView(stored);
      views := DefaultViews;
      disabled := false;
      events := [];
    }

    /** `getStoredView`: the remembered view, or `null` when there is none or the storage throws. */
    method GetStoredView() returns (r: Option<string>)
      ensures storage.available ==> r == storage.Lookup(ViewStorageKey)
      ensures !storage.available ==> r == None
    {
      var got := storage.GetItem(ViewStorageKey);
      r := if got.Success? then got.value else None;
    }

    /** `setStoredView`: remember the view; an exception is swallowed. */
    method SetStoredView(view: string, fits: bool)
      modifies storage
      ensures storage.available && fits ==> storage.items == old(storage.items)[ViewStorageKey := view]
      ensures !(storage.available && fits) ==> storage.items == old(storage.items)
      ensures storage.available == old(storage.available)
    {
      var _ := storage.SetItem(ViewStorageKey, view, fits);
    }

    /**
     * `handleViewChange`: while disabled, or for the view already shown,
     * nothing at all; otherwise the view changes, is remembered (when the
     * write succeeds) and is reported in a `view-change` event.
     */
    method HandleViewChange(viewId: string, fits: bool)
      modifies this, storage
      ensures !Accepts(old(disabled), old(currentView), viewId) ==>
        currentView == old(currentView) && events == old(events) && storage.items == old(storage.items)
      ensures Accepts(old(disabled), old(currentView), viewId) ==>
        && currentView == viewId
        && events == old(events) + [viewId]
        && storage.items == (if storage.available && fits then old(storage.items)[ViewStorageKey := viewId]
                             else old(storage.items))
      ensures disabled == old(disabled) && views == old(views) && storage.available == old(storage.available)
    {
      if disabled || viewId == currentView {
        return;
      }
      currentView := viewId;
      SetStoredView(viewId, fits);
      events := events + [viewId];
    }
  }

  /**
   * A view chosen and written is the one a toggle created later starts in
   * (for any view but the empty string, which falls back to the table view).
   */
  lemma ChoiceRestored(items: map<string, string>, viewId: string)
    requires viewId != []
    ensures InitialView(LookupIn(items[ViewStorageKey := viewId], ViewStorageKey)) == viewId
  {
  }

  /** With nothing remembered, or with the storage unavailable, a toggle starts in the table view. */
  lemma DefaultIsTable(items: map<string, string>)
    requires ViewStorageKey !in items
    ensures InitialView(LookupIn(items, ViewStorageKey)) == "table"
    ensures InitialView(None) == "table"
  {
  }
}
