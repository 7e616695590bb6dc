/**
 * The delivery-mode screen's own state (selected filter, selected mode,
 * panel state) and the handlers that update it, with the values it derives
 * on each render. The order session it reads (line-item prices, location,
 * stops) is passed in; `setDeliveryMode` is recorded in `confirmations`.
 */
module Screen {
  import opened Catalogue
  import opened Pricing
  import opened StableSort
  import opened Filters
  import opened Panel

  /** One `setDeliveryMode(modeId, fee)` call made into the order session. */
  datatype Confirmation = Confirmation(modeId: ModeId, fee: int)

  class DeliveryScreen {
    var selectedFilter: FilterTab
    var selectedModeId: ModeId
    var panelState: Detent
    /** Every `setDeliveryMode` call made so far, oldest first. */
    var confirmations: seq<Confirmation>

    /**
     * Mounting: the state starts as standard, motorbike, collapsed, and the
     * auto-select effect then runs once for the initial filter, which
     * replaces motorbike by car.
     */
    constructor ()
      ensures selectedFilter == Standard && selectedModeId == Car
      ensures panelState == Collapsed && confirmations == []
    {
      selectedFilter := Standard;
      selectedModeId := Motorbike;
      panelState := Collapsed;
      confirmations := [];
      new;
      RunFilterEffect();
    }

    /** The body of the auto-select effect: the current filter forces its mode. */
    method RunFilterEffect()
      modifies this`selectedModeId
      ensures selectedModeId == ForcedMode(selectedFilter)
    {
      if selectedFilter == Faster {
        selectedModeId := Motorbike;
      }
      if selectedFilter == Cheaper {
        selectedModeId := Bicycle;
      }
      if selectedFilter == Standard {
        selectedModeId := Car;
      }
    }

    /**
     * A tap on a filter tab. The effect depends on the filter only, so it
     * runs when the filter actually changes, and then overwrites any mode
     * chosen by hand; tapping the tab already active changes nothing.
     */
    method SelectFilter(f: FilterTab)
      modifies this`selectedFilter, this`selectedModeId
      ensures selectedFilter == f
      ensures f != old(selectedFilter) ==> selectedModeId == ForcedMode(f)
      ensures f == old(selectedFilter) ==> selectedModeId == old(selectedModeId)
      ensures panelState == old(panelState) && confirmations == old(confirmations)
    {
      if f != selectedFilter {
        selectedFilter := f;
        RunFilterEffect();
      }
    }

    /** A tap on a mode button: only the selected mode changes. */
    method SelectMode(id: ModeId)
      modifies this`selectedModeId
      ensures selectedModeId == id
      ensures selectedFilter == old(selectedFilter) && panelState == old(panelState)
      ensures confirmations == old(confirmations)
    {
      selectedModeId := id;
    }

    /** `handlePanelDragEnd`: the panel settles by the release offset alone. */
    method PanelDragEnd(offsetY: real)
      modifies this`panelState
      ensures panelState == DragEndDetent(offsetY)
      ensures selectedFilter == old(selectedFilter) && selectedModeId == old(selectedModeId)
      ensures confirmations == old(confirmations)
    {
      if offsetY < ExpandBelow {
        panelState := Expanded;
      } else {
        panelState := Collapsed;
      }
    }

    /** `selectedMode`: the catalogue entry of the selected id, if any. */
    function SelectedMode(): Option<DeliveryMode>
      reads this
    {
      Find(Modes(), selectedModeId)
    }

    /** The selected id always resolves, to the entry with that id. */
    lemma SelectedModeResolves()
      ensures SelectedMode().Some? && SelectedMode().value.id == selectedModeId
      ensures SelectedMode().value.deliveryFee == FeeOf(selectedModeId)
    {
      FindInModes(selectedModeId);
    }

    /** The price breakdown derived for the given line-item prices. */
    function PriceBreakdown(prices: seq<int>): (b: Breakdown)
      reads this
      ensures b.subtotal == Sum(prices) && b.total == b.subtotal + b.deliveryFee
      ensures SelectedMode().Some? ==> b.deliveryFee == SelectedMode().value.deliveryFee
    {
      FindInModes(selectedModeId);
      Derive(prices, selectedModeId)
    }

    /**
     * `getSortedModes`: a fresh copy of the catalogue, sorted in place under
     * `faster` and `cheaper`; the catalogue itself is a value and is left
     * as it is.
     */
    method GetSortedModes() returns (sorted: seq<DeliveryMode>)
      ensures sorted == OrderFor(selectedFilter, Modes())
    {
      var ms := Modes();
      var a := new DeliveryMode[|ms|](i requires 0 <= i < |ms| => ms[i]);
      assert a[..] == ms;
      var key := SortKeyOf(selectedFilter);
      if key.Some? {
        SortInPlace(a, key.value);
      }
      sorted := a[..];
    }

    /**
     * `handleSelectMode`: writes the resolved mode's own id and fee to the
     * order session, and only when a mode resolved. The returned flag says
     * whether it did (and so went on to the confirmation screen).
     */
    method Confirm() returns (confirmed: bool)
      modifies this`confirmations
      ensures confirmed <==> SelectedMode().Some?
      ensures confirmed ==> confirmations == old(confirmations)
                              + [Confirmation(SelectedMode().value.id, SelectedMode().value.deliveryFee)]
      ensures !confirmed ==> confirmations == old(confirmations)
      ensures selectedFilter == old(selectedFilter) && selectedModeId == old(selectedModeId)
      ensures panelState == old(panelState)
    {
      var selected := Find(Modes(), selectedModeId);
      confirmed := false;
      if selected.Some? {
        confirmations := confirmations + [Confirmation(selected.value.id, selected.value.deliveryFee)];
        confirmed := true;
      }
    }
  }

  /** The behaviour of the screen on a sequence of user actions. */
  method Walkthrough()
  {
    var s := new DeliveryScreen();
    var b := s.PriceBreakdown([50, 30]);
    assert b.deliveryFee == 60 by { s.SelectedModeResolves(); }
    assert b.subtotal == 80 && b.total == 140;

    s.PanelDragEnd(-150.0);
    assert s.panelState == Expanded;
    s.SelectFilter(Cheaper);
    assert s.selectedModeId == Bicycle;
    var order := s.GetSortedModes();
    CatalogueOrders();
    assert Ids(order) == [Bicycle, Motorbike, Car];

    // A mode chosen by hand survives a tap on the tab already active ...
    s.SelectMode(Car);
    s.SelectFilter(Cheaper);
    assert s.selectedModeId == Car;
    // ... and is overwritten when the filter changes.
    s.SelectFilter(Faster);
    assert s.selectedModeId == Motorbike;

    // A short drag from the expanded panel collapses it.
    s.PanelDragEnd(-50.0);
    assert s.panelState == Collapsed;
    s.PanelDragEnd(-120.0);
    assert s.panelState == Collapsed;

    s.SelectedModeResolves();
    var confirmed := s.Confirm();
    assert confirmed && s.confirmations == [Confirmation(Motorbike, 40)];
  }
}
