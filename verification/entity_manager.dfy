/** The entity manager (EntityManager.cs): entities are registered under ids
    drawn from a serial counter that only grows, so an id is never handed out
    twice, and the manager's update runs the battle system over them. */
module EntityManagement {
  import opened Wrappers
  import opened Entities
  import BattleTargeting

  class EntityManager {
    /** The last id handed out; 0 before the first registration. */
    var entitySerialId: nat
    var entitiesById: map<nat, Entity>

    /** Every key is an id the counter has already handed out. */
    ghost predicate Valid()
      reads this
    {
      forall id :: id in entitiesById ==> 1 <= id <= entitySerialId
    }

    constructor ()
      ensures Valid()
      ensures entitySerialId == 0 && entitiesById == map[]
    {
      entitySerialId := 0;
      entitiesById := map[];
    }

    /** Rejects an entity whose current id is already a key; otherwise gives it
        the next serial id and stores it under that id. */
    method TryAddEntity(entity: Entity) returns (ok: bool)
      requires Valid()
      modifies this, entity`Id
      ensures Valid()
      ensures ok <==> old(entity.Id) !in old(entitiesById)
      ensures !ok ==> entitySerialId == old(entitySerialId) && entitiesById == old(entitiesById) && entity.Id == old(entity.Id)
      ensures ok ==> entitySerialId == old(entitySerialId) + 1 && entity.Id == entitySerialId
                     && entitiesById == old(entitiesById)[entitySerialId := entity]
      ensures ok ==> forall id :: id in old(entitiesById) ==> id < entity.Id
      ensures old(entity.Id) == 0 ==> ok
    {
      if entity.Id in entitiesById {
        return false;
      }
      entitySerialId := entitySerialId + 1;
      entity.Id := entitySerialId;
      // Dictionary.TryAdd: fails only on a key that is already present, which
      // the invariant rules out for the fresh serial id.
      if entitySerialId in entitiesById {
        assert false;
      }
      entitiesById := entitiesById[entitySerialId := entity];
      return true;
    }

    /** A plain lookup: the entity stored under id, or null. */
    method TryGetEntity(id: nat) returns (ok: bool, outEntity: Entity?)
      ensures ok <==> id in entitiesById
      ensures ok ==> outEntity == entitiesById[id]
      ensures !ok ==> outEntity == null
    {
      if id in entitiesById {
        return true, entitiesById[id];
      }
      return false, null;
    }

    /** Deletes the entry for id if there is one; the counter is untouched, so
        the id is not handed out again. */
    method TryRemoveEntity(id: nat) returns (ok: bool)
      requires Valid()
      modifies this`entitiesById
      ensures Valid()
      ensures ok <==> id in old(entitiesById)
      ensures entitiesById == old(entitiesById) - {id}
    {
      ok := id in entitiesById;
      if ok {
        entitiesById := entitiesById - {id};
      }
    }

    /** The battle system's view of the stored entities, listed in `order`. */
    function Entries(order: seq<nat>): (r: seq<BattleTargeting.EntityEntry>)
      reads this, entitiesById.Values
      requires forall i :: 0 <= i < |order| ==> order[i] in entitiesById
      ensures |r| == |order|
      ensures forall i :: 0 <= i < |order| ==> r[i].id == order[i]
    {
      seq(|order|, i requires 0 <= i < |order| && order[i] in entitiesById reads this, entitiesById.Values =>
        var e := entitiesById[order[i]];
        BattleTargeting.EntityEntry(order[i], e.Name, e.componentsByType))
    }

    /** Runs the battle system over the stored entities; the dictionary's
        enumeration order is the parameter `order`, which lists every key once. */
    method Update(order: seq<nat>) returns (log: seq<BattleTargeting.Attack>)
      requires forall i :: 0 <= i < |order| ==> order[i] in entitiesById
      requires forall id :: id in entitiesById ==> id in order
      requires forall i, j :: 0 <= i < j < |order| ==> order[i] != order[j]
      ensures log == BattleTargeting.Update(Entries(order))
      ensures |log| <= |entitiesById|
    {
      var entries := Entries(order);
      log := BattleTargeting.Update(entries);
      KeysListedOnce(order);
    }

    lemma KeysListedOnce(order: seq<nat>)
      requires forall i :: 0 <= i < |order| ==> order[i] in entitiesById
      requires forall id :: id in entitiesById ==> id in order
      requires forall i, j :: 0 <= i < j < |order| ==> order[i] != order[j]
      ensures |order| == |entitiesById|
    {
      var keys := set i | 0 <= i < |order| :: order[i];
      assert keys == entitiesById.Keys;
      DistinctCard(order);
    }
  }

  lemma {:induction false} DistinctCard(s: seq<nat>)
    requires forall i, j :: 0 <= i < j < |s| ==> s[i] != s[j]
    ensures |set i | 0 <= i < |s| :: s[i]| == |s|
  {
    if s != [] {
      var init := s[..|s| - 1];
      DistinctCard(init);
      var a := set i | 0 <= i < |init| :: init[i];
      var b := set i | 0 <= i < |s| :: s[i];
      assert b == a + {s[|s| - 1]};
      assert s[|s| - 1] !in a;
    }
  }
}
