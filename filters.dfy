/**
 * The filter tabs: the mode each tab forces (the auto-select effect) and
 * the display order of the catalogue under each tab (`getSortedModes`).
 */
module Filters {
  import opened Catalogue
  import opened StableSort

  datatype FilterTab = Standard | Faster | Cheaper

  /** The mode the auto-select effect writes when the filter becomes `f`. */
  function ForcedMode(f: FilterTab): (id: ModeId)
    ensures id == Motorbike <==> f == Faster
    ensures id == Bicycle <==> f == Cheaper
    ensures id == Car <==> f == Standard
  {
    match f
    case Faster => Motorbike
    case Cheaper => Bicycle
    case Standard => Car
  }

  /** The forced mapping is a bijection: each mode is forced by exactly one tab. */
  lemma ForcedModeBijective(f: FilterTab, g: FilterTab, id: ModeId)
    ensures ForcedMode(f) == ForcedMode(g) ==> f == g
    ensures exists h :: ForcedMode(h) == id
  {
    match id
    case Motorbike => assert ForcedMode(Faster) == id;
    case Bicycle => assert ForcedMode(Cheaper) == id;
    case Car => assert ForcedMode(Standard) == id;
  }

  /** The comparator a tab sorts by; `standard` does not sort. */
  function SortKeyOf(f: FilterTab): Option<SortKey> {
    match f
    case Faster => Some(ByMinutes)
    case Cheaper => Some(ByFee)
    case Standard => None
  }

  /** The display order of `ms` under the tab `f`. */
  function OrderFor(f: FilterTab, ms: seq<DeliveryMode>): seq<DeliveryMode> {
    match SortKeyOf(f)
    case Some(k) => Sort(ms, k)
    case None => ms
  }

  /**
   * The display order is a permutation of the entries; under `standard` it
   * is the given order, and under `faster` and `cheaper` it is the (unique)
   * stable ascending order by the tab's key.
   */
  lemma OrderForIsStableSort(f: FilterTab, ms: seq<DeliveryMode>)
    ensures multiset(OrderFor(f, ms)) == multiset(ms) && |OrderFor(f, ms)| == |ms|
    ensures f == Standard ==> OrderFor(f, ms) == ms
    ensures f == Faster ==> IsStableSortOf(OrderFor(f, ms), ms, ByMinutes)
    ensures f == Cheaper ==> IsStableSortOf(OrderFor(f, ms), ms, ByFee)
  {
    match SortKeyOf(f)
    case Some(k) =>
      SortPermutes(ms, k);
      SortIsTheStableSort(ms, OrderFor(f, ms), k);
    case None =>
  }

  function Ids(ms: seq<DeliveryMode>): (ids: seq<ModeId>)
    ensures |ids| == |ms| && forall i :: 0 <= i < |ms| ==> ids[i] == ms[i].id
  {
    if ms == [] then [] else [ms[0].id] + Ids(ms[1..])
  }

  /**
   * The catalogue's display orders: `standard` keeps motorbike, car, bicycle;
   * `faster` is motorbike (2), car (20), bicycle (20), the tie kept in
   * catalogue order; `cheaper` is bicycle (25), motorbike (40), car (60).
   */
  lemma CatalogueOrders()
    ensures Ids(OrderFor(Standard, Modes())) == [Motorbike, Car, Bicycle]
    ensures Ids(OrderFor(Faster, Modes())) == [Motorbike, Car, Bicycle]
    ensures Ids(OrderFor(Cheaper, Modes())) == [Bicycle, Motorbike, Car]
    ensures OrderFor(Faster, Modes()) == Modes()
    ensures OrderFor(Cheaper, Modes()) == [Modes()[2], Modes()[0], Modes()[1]]
  {
    var ms := Modes();
    var m, c, b := ms[0], ms[1], ms[2];
    assert ms[..2] == [m, c] && ms[..2][..1] == [m] && [m][..0] == [];
    assert Sort([m], ByMinutes) == [m];
    assert Sort([m, c], ByMinutes) == [m, c];
    assert Sort(ms, ByMinutes) == [m, c, b];
    assert Sort([m], ByFee) == [m];
    assert Sort([m, c], ByFee) == [m, c];
    assert [m, c][..1] == [m];
    assert Insert([m], b, ByFee) == [b, m];
    assert Insert([m, c], b, ByFee) == [b, m, c];
    assert Sort(ms, ByFee) == [b, m, c];
  }

  /**
   * Under `faster` and `cheaper` the forced mode is the first one shown:
   * the quickest and the cheapest entry of the catalogue.
   */
  lemma ForcedModeLeadsTheOrder(f: FilterTab)
    requires f != Standard
    ensures OrderFor(f, Modes())[0].id == ForcedMode(f)
    ensures f == Faster ==> forall i :: 0 <= i < 3 ==> Modes()[i].minutes >= OrderFor(f, Modes())[0].minutes
    ensures f == Cheaper ==> forall i :: 0 <= i < 3 ==> Modes()[i].deliveryFee >= OrderFor(f, Modes())[0].deliveryFee
  {
    CatalogueOrders();
    var ms := Modes();
    if f == Faster {
      assert OrderFor(f, ms)[0] == ms[0];
    } else {
      assert OrderFor(f, ms)[0] == ms[2];
    }
  }
}
