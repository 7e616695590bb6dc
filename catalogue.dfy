/** The fixed catalogue of delivery modes the screen offers, and lookup by id. */
module Catalogue {

  datatype Option<T> = None | Some(value: T)

  /** The three delivery-mode ids of the screen. */
  datatype ModeId = Motorbike | Car | Bicycle

  /**
   * One catalogue entry. `title` is the screen's `label` field. `minutes`
   * stands for the `time` text ("2 min", "20 min") through its leading
   * integer, which is all the display ordering reads from it (parseInt).
   */
  datatype DeliveryMode = DeliveryMode(
    id: ModeId,
    title: string,
    minutes: nat,
    description: string,
    deliveryFee: int)

  /** The `deliveryModes` array of the screen, in catalogue order. */
  function Modes(): (ms: seq<DeliveryMode>)
    ensures |ms| == 3
    ensures ms[0].id == Motorbike && ms[1].id == Car && ms[2].id == Bicycle
  {
    [ DeliveryMode(Motorbike, "Motorbike", 2, "Fast delivery", 40),
      DeliveryMode(Car, "Car", 20, "Standard delivery", 60),
      DeliveryMode(Bicycle, "Bicycle", 20, "Eco-friendly delivery", 25) ]
  }

  /** Does some entry of `ms` carry the id `id`? */
  predicate HasId(ms: seq<DeliveryMode>, id: ModeId) {
    exists i :: 0 <= i < |ms| && ms[i].id == id
  }

  /**
   * `ms.find(m => m.id === id)`: the first entry with that id, or nothing
   * when no entry has it.
   */
  function Find(ms: seq<DeliveryMode>, id: ModeId): (r: Option<DeliveryMode>)
    ensures r.None? <==> !HasId(ms, id)
    ensures r.Some? ==> r.value in ms && r.value.id == id
    ensures r.Some? ==> exists i :: 0 <= i < |ms| && ms[i] == r.value
                                 && forall j :: 0 <= j < i ==> ms[j].id != id
  {
    if |ms| == 0 then None
    else if ms[0].id == id then Some(ms[0])
    else
      var r := Find(ms[1..], id);
      assert HasId(ms, id) <==> HasId(ms[1..], id) by {
        if HasId(ms, id) {
          var i :| 0 <= i < |ms| && ms[i].id == id;
          assert ms[1..][i - 1].id == id;
        }
        if HasId(ms[1..], id) {
          var i :| 0 <= i < |ms[1..]| && ms[1..][i].id == id;
          assert ms[i + 1].id == id;
        }
      }
      if r.Some? then
        assert exists i :: 0 <= i < |ms| && ms[i] == r.value
                        && forall j :: 0 <= j < i ==> ms[j].id != id by {
          var i :| 0 <= i < |ms[1..]| && ms[1..][i] == r.value
                   && forall j :: 0 <= j < i ==> ms[1..][j].id != id;
          assert ms[i + 1] == r.value;
          forall j | 0 <= j < i + 1 ensures ms[j].id != id {
            if j > 0 { assert ms[j] == ms[1..][j - 1]; }
          }
        }
        r
      else r
  }

  /**
   * The fee of each id, written as a table of its own: a reference against
   * which `FindInModes` checks the fees held in `Modes()`.
   */
  function FeeOf(id: ModeId): int {
    match id
    case Motorbike => 40
    case Car => 60
    case Bicycle => 25
  }

  /** Every id of the screen resolves in the catalogue, to the entry with that id and its fee. */
  lemma FindInModes(id: ModeId)
    ensures Find(Modes(), id).Some?
    ensures Find(Modes(), id).value.id == id
    ensures Find(Modes(), id).value.deliveryFee == FeeOf(id) > 0
  {
    var ms := Modes();
    match id
    case Motorbike => assert ms[0].id == id;
    case Car => assert ms[1].id == id;
    case Bicycle => assert ms[2].id == id;
  }

  /** The catalogue ids are pairwise distinct, so lookup by id cannot pick a wrong entry. */
  lemma ModesIdsDistinct()
    ensures forall i, j :: 0 <= i < j < |Modes()| ==> Modes()[i].id != Modes()[j].id
  {
  }
}
