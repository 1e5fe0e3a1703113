/**
 * The global message-type registry of the bus: `Message::s_types`, a map from
 * type name to type ID, and `Message::s_nextTypeID`, the next ID to hand out,
 * which starts at 1.  ID 0 is reserved for "every type" and is never assigned.
 */
module TypeRegistry {
  import opened Text

  /** Every name has an ID in 1 .. next-1 and no two names share an ID. */
  ghost predicate WellNumbered(types: map<string, nat>, next: nat)
  {
    && next >= 1
    && (forall n | n in types :: 1 <= types[n] < next)
    && (forall a, b | a in types && b in types && a != b :: types[a] != types[b])
  }

  /** Some registered name carries `id`. */
  ghost predicate Assigned(types: map<string, nat>, id: nat)
  {
    exists n :: n in types && types[n] == id
  }

  /** The name registered under `id`, or "" when no name carries it. */
  ghost function NameOf(types: map<string, nat>, id: nat): (name: string)
    ensures Assigned(types, id) ==> name in types && types[name] == id
    ensures !Assigned(types, id) ==> name == ""
  {
    if Assigned(types, id) then
      var n :| n in types && types[n] == id; n
    else
      ""
  }

  /** In a well-numbered table the name of a registered name's ID is that name. */
  lemma NameOfRegistered(types: map<string, nat>, next: nat, name: string)
    requires WellNumbered(types, next) && name in types
    ensures NameOf(types, types[name]) == name
  {
  }

  class Registry {
    var types: map<string, nat>
    var nextTypeID: nat

    ghost predicate Valid()
      reads this
    {
      WellNumbered(types, nextTypeID)
    }

    /** The static initialisers: an empty table and a counter at 1. */
    constructor ()
      ensures Valid()
      ensures types == map[] && nextTypeID == 1
    {
      types := map[];
      nextTypeID := 1;
    }

    /**
     * `TypeNameToTypeID`: a known name keeps its ID; a new name is recorded
     * under the current counter value, which then advances.
     */
    method TypeNameToTypeID(name: string) returns (id: nat)
      requires Valid()
      modifies this
      ensures Valid()
      ensures id >= 1 && name in types && types[name] == id
      ensures name in old(types) ==> id == old(types)[name] && types == old(types) && nextTypeID == old(nextTypeID)
      ensures name !in old(types) ==>
        id == old(nextTypeID) && types == old(types)[name := id] && nextTypeID == old(nextTypeID) + 1
      ensures forall n | n in old(types) && n != name :: old(types)[n] != id
    {
      if name in types {
        id := types[name];
      } else {
        id := nextTypeID;
        types := types[name := id];
        nextTypeID := nextTypeID + 1;
      }
    }

    /**
     * `TypeIDToTypeName`: a linear search over the table in key order for an
     * entry carrying `id`; "" (with only a warning) when there is none.
     */
    method TypeIDToTypeName(id: nat) returns (name: string)
      requires Valid()
      ensures name == NameOf(types, id)
      ensures Assigned(types, id) ==> name in types && types[name] == id
    {
      var keys := SortedKeys(types.Keys);
      var i := 0;
      while i < |keys|
        invariant 0 <= i <= |keys|
        invariant forall j | 0 <= j < i :: types[keys[j]] != id
      {
        if types[keys[i]] == id {
          name := keys[i];
          return;
        }
        i := i + 1;
      }
      name := "";
    }
  }

  /** Resolving a name and then asking for the name of its ID gives the name back. */
  method NameRoundTrip(registry: Registry, name: string) returns (id: nat, back: string)
    requires registry.Valid()
    modifies registry
    ensures registry.Valid()
    ensures id >= 1 && back == name
  {
    id := registry.TypeNameToTypeID(name);
    back := registry.TypeIDToTypeName(id);
  }
}
