# Delivery-mode screen, modelled in Dafny

The model covers `src/pages/FoodDelivery.tsx`, the screen where a food order's
delivery mode is chosen and confirmed. Four pieces of logic sit inside that
React component, and each has its own module here:

- **Catalogue** (`catalogue.dfy`) holds the fixed three-entry `deliveryModes` catalogue
  (motorbike 2 min / 40, car 20 min / 60, bicycle 20 min / 25) and the lookup
  `deliveryModes.find(m => m.id === id)`.
- **Pricing** (`pricing.dfy`) holds the per-render derivation. The subtotal is a left fold
  (`reduce`) over the line-item prices. The fee is the resolved mode's fee, or 0
  when the lookup fails. The total is subtotal + fee.
- **StableSort** and **Filters** (`stable_sort.dfy`, `filters.dfy`) cover two things:
  - the mode each filter tab forces (standard → car, faster → motorbike,
    cheaper → bicycle);
  - `getSortedModes`, which copies the catalogue and sorts the copy in place.
    It sorts ascending by minutes or by fee, and the sort is stable.

  `Sort` is an insertion sort on sequences. `SortInPlace` is the in-place
  array version. `SortIsTheStableSort` proves that only one order is both
  ascending by the key and keeps the input order among equal keys. So every
  stable sort, including the engine's, gives the same order as the model.
- **Panel** (`panel.dfy`) holds the drag-end decision. The panel expands when
  the release offset is strictly below -120. In every other case it collapses.
- **Address** (`address.dfy`) builds the address line:
  - the location, or `Current Location` when the location is empty;
  - then ` +N stop` or ` +N stops`.
- **Screen** (`screen.dfy`) holds the component's state as a class:
  - the selected filter, the selected mode and the panel state;
  - the handlers that update them: the filter tabs with the auto-select
    effect, the mode buttons, drag end, and confirm.

  The order session is an input. The line-item prices are a parameter.
  Each `setDeliveryMode(id, fee)` call is recorded in the `confirmations` sequence.
  `Confirm` models `handleSelectMode`, a handler this file defines but never
  attaches to any element.
  The file also computes the price breakdown (`totalItemCount`, `foodSubtotal`,
  `deliveryFee`, `total`) and defines `getAddressDisplay`, but renders
  neither; `Pricing`, `PriceBreakdown` and `Address` model them as derived values.

Three facts about the code shape the model:
- The drag-end decision reads only `offset.y < -120`. There is no velocity
  threshold and no return to the detent where the drag started. A short drag
  from the expanded panel collapses it (see `Walkthrough`).
- The initial mode from `useState` is motorbike. The auto-select effect runs
  on mount and replaces it with car, so the mounted screen shows car (see
  the constructor).
- The effect depends on the filter alone. A tap on the tab that is already
  active does not change the filter, so the effect does not run and a mode
  chosen by hand stays. A tap on a different tab overwrites that mode.

## Model

| member | source | states |
|---|---|---|
| Catalogue.Modes | src/pages/FoodDelivery.tsx:41-45 | the catalogue has three entries, with ids motorbike, car and bicycle in that order |
| Catalogue.Find | src/pages/FoodDelivery.tsx:50 | the lookup fails exactly when no entry has the id; on success it gives an entry with that id, and no earlier entry has the id |
| Catalogue.FindInModes | src/pages/FoodDelivery.tsx:41-50 | every one of the three ids resolves in the catalogue, to an entry with that id and a positive fee (40, 60, 25) |
| Catalogue.ModesIdsDistinct | src/pages/FoodDelivery.tsx:41-45 | catalogue ids are pairwise distinct |
| Pricing.FoldPrices | src/pages/FoodDelivery.tsx:49 | the `reduce` left fold over the prices from an accumulator; `FoldPricesIsSum` states its value |
| Pricing.FoldPricesIsSum | src/pages/FoodDelivery.tsx:49 | the left fold from an accumulator equals the accumulator plus the arithmetic sum of the prices |
| Pricing.Subtotal | src/pages/FoodDelivery.tsx:49 | `foodSubtotal` is the sum of all line-item prices, and 0 for no items |
| Pricing.SumAppend | src/pages/FoodDelivery.tsx:49 | the sum of a concatenation is the sum of the parts |
| Pricing.FeeFor | src/pages/FoodDelivery.tsx:50-51 | the fee is 0 when no entry has the id; otherwise it is the fee of an entry with that id |
| Pricing.FeeZeroIffNoMatch | src/pages/FoodDelivery.tsx:50-51 | when all fees are positive, the fee is 0 exactly when the lookup fails |
| Pricing.Derive | src/pages/FoodDelivery.tsx:47-52 | item count is the number of items; subtotal is the sum of prices; fee is the selected mode's catalogue fee; total = subtotal + fee |
| Pricing.DeriveAppend | src/pages/FoodDelivery.tsx:49-52 | adding items raises subtotal and total by exactly their prices and leaves the fee alone |
| Pricing.DeriveExample | src/pages/FoodDelivery.tsx:47-52 | items priced 50 and 30 with the car give subtotal 80, fee 60 and total 140 |
| StableSort.Key | src/pages/FoodDelivery.tsx:77-79 | the key each comparator subtracts: the leading minutes of `time`, or `deliveryFee` |
| StableSort.Insert | src/pages/FoodDelivery.tsx:77-79 | one insertion step of the sort; `InsertAt` performs it in place, and `InsertAt`'s contract ties the two together |
| StableSort.Sort | src/pages/FoodDelivery.tsx:76-80 | the stable ascending sort; `SortIsSorted`, `SortPermutes`, `SortIsStable` and `SortIsTheStableSort` state its properties |
| StableSort.SortIsSorted | src/pages/FoodDelivery.tsx:76-80 | the sorted sequence is ascending by the comparator's key |
| StableSort.SortPermutes | src/pages/FoodDelivery.tsx:73-83 | the sorted sequence is a permutation of the input (same multiset, same length) |
| StableSort.SortIsStable | src/pages/FoodDelivery.tsx:76-80 | for every key value, the entries with that key keep their input order |
| StableSort.StableOrderUnique | src/pages/FoodDelivery.tsx:76-80 | two ascending sequences that agree on the entries for every key value, in order, are the same sequence |
| StableSort.SortIsTheStableSort | src/pages/FoodDelivery.tsx:76-80 | a sequence is a stable ascending sort of the input if and only if it equals `Sort` of the input |
| StableSort.InsertAt | src/pages/FoodDelivery.tsx:77-79 | swapping `a[i]` left past the larger keys turns the prefix into the insertion of that entry into the sorted prefix; the rest of the array is unchanged |
| StableSort.SortInPlace | src/pages/FoodDelivery.tsx:74-80 | sorting the array in place leaves exactly `Sort` of the original contents |
| Filters.ForcedMode | src/pages/FoodDelivery.tsx:61-71 | both directions of the mapping: motorbike exactly for faster, bicycle exactly for cheaper, car exactly for standard |
| Filters.SortKeyOf | src/pages/FoodDelivery.tsx:76-82 | faster sorts by minutes, cheaper by fee, and standard does not sort; `OrderForIsStableSort` states the result |
| Filters.OrderFor | src/pages/FoodDelivery.tsx:76-82 | the display order for a tab; `OrderForIsStableSort` and `CatalogueOrders` state what it is |
| Filters.ForcedModeBijective | src/pages/FoodDelivery.tsx:61-71 | the forced mapping from tabs to modes is one-to-one and onto |
| Filters.OrderForIsStableSort | src/pages/FoodDelivery.tsx:73-83 | every tab's display order is a permutation of the catalogue; standard keeps catalogue order; faster and cheaper give the stable ascending order by minutes and by fee |
| Filters.CatalogueOrders | src/pages/FoodDelivery.tsx:73-83 | the display orders are standard: motorbike, car, bicycle; faster: motorbike, car, bicycle (the tie at 20 min stays in catalogue order); cheaper: bicycle, motorbike, car |
| Filters.ForcedModeLeadsTheOrder | src/pages/FoodDelivery.tsx:61-83 | under faster and cheaper the forced mode is the first one shown, with the fewest minutes or the lowest fee of the catalogue |
| Panel.RestY | src/pages/FoodDelivery.tsx:121 | the expanded detent rests at `PANEL_EXPANDED_Y` (-350) and the collapsed one at `PANEL_COLLAPSED_Y` (0) |
| Panel.DragEndDetent | src/pages/FoodDelivery.tsx:88-92 | expanded exactly when the offset is strictly below -120, and collapsed exactly when it is -120 or above |
| Panel.DragEndDecision | src/pages/FoodDelivery.tsx:87-93 | `DragEndDetent`'s threshold restated as the number -120, and its boundary case: -120 itself collapses |
| Panel.DragEndMonotone | src/pages/FoodDelivery.tsx:88 | a release further up never collapses where a release lower down expands |
| Panel.RestsAtABound | src/pages/FoodDelivery.tsx:119-121 | after a release the panel rests at one of its two bounds, the expanded one exactly when the offset is beyond the threshold |
| Address.NatToString | src/pages/FoodDelivery.tsx:108 | the decimal text of `stops.length` inside the template; `NatToStringRoundTrip` states that it reads back as the count |
| Address.NatToStringRoundTrip | src/pages/FoodDelivery.tsx:108 | the stop count is rendered as non-empty decimal digits with no leading zero, and reading those digits back gives the count |
| Address.NatToStringInjective | src/pages/FoodDelivery.tsx:108 | different counts render as different digit strings |
| Address.MainAddress | src/pages/FoodDelivery.tsx:107 | the main address is the location when it is not empty, and `Current Location` when it is; it is never empty |
| Address.StopsText | src/pages/FoodDelivery.tsx:108 | the suffix is empty exactly for 0 stops; it is ` +1 stop` for one stop and ` +N stops` for N > 1 |
| Address.AddressDisplay | src/pages/FoodDelivery.tsx:106-110 | the line is the main address followed by the suffix, and just the main address when there are no stops |
| Address.StopsTextInjective | src/pages/FoodDelivery.tsx:108 | different stop counts give different suffixes |
| Address.AddressDisplayInjective | src/pages/FoodDelivery.tsx:106-110 | for a fixed location, the address line determines the number of stops |
| Address.AddressDisplayExamples | src/pages/FoodDelivery.tsx:106-110 | examples: an empty location gives `Current Location` and `Current Location +1 stop`; `Home` gives `Home +2 stops` and `Home +12 stops` |
| Screen.DeliveryScreen.constructor | src/pages/FoodDelivery.tsx:33-35 | the mounted screen is on standard and collapsed, with car selected (the mount effect has replaced motorbike) and no confirmations |
| Screen.DeliveryScreen.RunFilterEffect | src/pages/FoodDelivery.tsx:61-71 | the effect sets the selected mode to the current filter's forced mode |
| Screen.DeliveryScreen.SelectFilter | src/pages/FoodDelivery.tsx:61-71 | a tab tap sets the filter; if the filter changed, the forced mode overwrites the selection, and if not, the selection stays; panel and confirmations are unchanged |
| Screen.DeliveryScreen.SelectMode | src/pages/FoodDelivery.tsx:164 | a mode tap changes only the selected mode; filter, panel and confirmations are untouched |
| Screen.DeliveryScreen.PanelDragEnd | src/pages/FoodDelivery.tsx:87-93 | the panel state becomes the drag-end decision for the offset, whatever it was before; nothing else changes |
| Screen.DeliveryScreen.SelectedMode | src/pages/FoodDelivery.tsx:50 | `selectedMode`, the catalogue lookup of the selected id; `SelectedModeResolves` states that it always resolves |
| Screen.DeliveryScreen.SelectedModeResolves | src/pages/FoodDelivery.tsx:50 | the selected id always resolves, to the entry with that id and its catalogue fee |
| Screen.DeliveryScreen.PriceBreakdown | src/pages/FoodDelivery.tsx:47-52 | the derived subtotal is the sum of prices, the total is subtotal + fee, and the fee is the resolved mode's fee |
| Screen.DeliveryScreen.GetSortedModes | src/pages/FoodDelivery.tsx:73-85 | sorting a fresh array copy gives exactly the display order of the current tab; the catalogue is not modified |
| Screen.DeliveryScreen.Confirm | src/pages/FoodDelivery.tsx:99-104 | one `(id, fee)` of the resolved mode is recorded exactly when a mode resolves, and nothing is recorded otherwise; the screen state is unchanged |

## Left out

- Rendering is not modelled, because it is presentation only. This covers the JSX, class names, the promo banner, the drag handle, the `AnimatePresence` transitions and the `icon` field.
- The framer-motion spring, `dragConstraints` and the live drag offset are not modelled. The physics is continuous and runs inside the library. The release offset is an input to `PanelDragEnd`.
- Velocity thresholds and revert-to-origin are not modelled, because the code has neither.
- Navigation calls are not modelled, because they are routing side effects. These are `/shop`, `/foodies-route` and `/food-confirm-order`. `Confirm` returns whether it would navigate.
- The empty-cart redirect effect is not modelled, for the same reason.
- The internals of `useFoodOrderSession` are not part of this model. The line-item prices, the location and the number of stops are parameters. `setDeliveryMode` is an append to `confirmations`.
- `profileToggle` is not modelled, because nothing uses it.
- `parseInt(time)` is not modelled as a string parser. Each mode carries the leading integer of its `time` text as `minutes`.
- Prices and fees are integers, so JS floating point (fractions, NaN) is not modelled. The drag offset is a `real`, so NaN and infinities are not modelled.
- `deliveryLocation` is a string. Only the empty string counts as missing. A null or undefined location is not modelled.
- Screen.DeliveryScreen.SelectFilter: the filter tabs are rendered only while the panel is expanded. The model does not require that state, so it allows taps in any panel state.
- Screen.DeliveryScreen.SelectFilter: React renders once with the new filter and the old mode before the effect runs. The model makes both updates in one step, so that intermediate frame is not modelled.
- Screen.DeliveryScreen.constructor: `useEffect` runs after the first paint, so the first render shows motorbike selected (and derives fee 40) before the mount effect writes car. The constructor makes both steps at once, so that first frame is not modelled.
