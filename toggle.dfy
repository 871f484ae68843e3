/**
 * The chest table of src/core/chest.rs and the toggle events of
 * src/interactions/toggle.rs: a toggle naming a closed chest opens it,
 * and nothing else ever changes.
 */
module Toggles {
  import Common
  import opened Geometry

  datatype ChestState = Close | Open

  /** A chest entry: its state and its (unused) key. */
  datatype Chest = Chest(status: ChestState, key: Common.Option<string>)

  /** A `Toggle` event (`by` is `toggler`); only its target id is consulted. */
  datatype Toggle = Toggle(position: Vec2, toggler: Common.CharacterKind, target: string)

  /** One toggle applied to the table: a closed chest with that id opens. */
  function ToggleOne(table: map<string, Chest>, id: string): (r: map<string, Chest>)
    ensures r.Keys == table.Keys
    ensures id !in table ==> r == table
    ensures id in table ==> r[id] == table[id].(status := Open)
    ensures forall k :: k in table && k != id ==> r[k] == table[k]
  {
    if id in table && table[id].status == Close then table[id := table[id].(status := Open)]
    else
      assert id in table ==> table[id].status == Open;
      table
  }

  /** Toggling the same chest twice is the same as toggling it once. */
  lemma ToggleIdempotent(table: map<string, Chest>, id: string)
    ensures ToggleOne(ToggleOne(table, id), id) == ToggleOne(table, id)
  {
  }

  /** Whether some event of `events` names `id`. */
  predicate Named(events: seq<Toggle>, id: string) {
    exists e :: 0 <= e < |events| && events[e].target == id
  }

  /**
   * The table after a batch of toggles, in order. A chest ends up open
   * exactly when it was open before or some event names it; its key and
   * the set of chests never change.
   */
  function ToggleAll(table: map<string, Chest>, events: seq<Toggle>): (r: map<string, Chest>)
    ensures r.Keys == table.Keys
    ensures forall k :: k in table ==> r[k].key == table[k].key
    ensures forall k :: k in table ==> (r[k].status == Open <==> table[k].status == Open || Named(events, k))
  {
    if |events| == 0 then table
    else
      var prev := ToggleAll(table, events[..|events| - 1]);
      assert forall k :: Named(events, k) <==> Named(events[..|events| - 1], k) || events[|events| - 1].target == k by {
        forall k
          ensures Named(events, k) ==> Named(events[..|events| - 1], k) || events[|events| - 1].target == k
        {
          if Named(events, k) {
            var e :| 0 <= e < |events| && events[e].target == k;
            if e < |events| - 1 {
              assert events[..|events| - 1][e] == events[e];
            }
          }
        }
        forall k
          ensures Named(events[..|events| - 1], k) ==> Named(events, k)
        {
          if Named(events[..|events| - 1], k) {
            var e :| 0 <= e < |events| - 1 && events[..|events| - 1][e].target == k;
            assert events[e].target == k;
          }
        }
      }
      ToggleOne(prev, events[|events| - 1].target)
  }

  /** The `Chests` resource: chest id to chest. */
  class Chests {
    var table: map<string, Chest>

    constructor(table0: map<string, Chest>)
      ensures table == table0
    {
      table := table0;
    }

    /** `update_toggle_chest`: every toggle event is applied in order. */
    method UpdateToggleChest(events: seq<Toggle>)
      modifies this
      ensures table == ToggleAll(old(table), events)
    {
      for i := 0 to |events|
        invariant table == ToggleAll(old(table), events[..i])
      {
        assert events[..i + 1][..i] == events[..i];
        var id := events[i].target;
        if id in table && table[id].status == Close {
          table := table[id := table[id].(status := Open)];
        }
      }
      assert events[..|events|] == events;
    }
  }
}
