/**
 * The generic factory registry: for every base type, a name-to-factory map
 * created empty on first use, filled by `RegistryEntry<Base, T>` objects built
 * at most once per (base, concrete type) pair, and read by `Create`.
 *
 * A factory is represented by the concrete type it instantiates (`Kind`), since
 * the registered factory does nothing but `new T`.
 */
module Registrable {
  import opened Wrappers

  /**
   * Inserting `(name, kind)` only when the name is absent: a duplicate keeps the
   * entry registered first (and only draws a warning).
   */
  function Register<Kind>(table: map<string, Kind>, name: string, kind: Kind): (r: map<string, Kind>)
    ensures name in r && r[name] == if name in table then table[name] else kind
    ensures forall n | n in table :: n in r && r[n] == table[n]
    ensures forall n | n in r && n != name :: n in table
  {
    if name in table then table else table[name := kind]
  }

  /** The map of one base type; a base nobody has used yet has an empty map. */
  function TableOf<Base, Kind>(tables: map<Base, map<string, Kind>>, base: Base): map<string, Kind>
  {
    if base in tables then tables[base] else map[]
  }

  /** `Registrable<Base>::Create(name)`: the type the registered factory builds, or null. */
  function Create<Base, Kind>(tables: map<Base, map<string, Kind>>, base: Base, name: string): (r: Option<Kind>)
    ensures r.None? <==> name !in TableOf(tables, base)
    ensures r.Some? ==> r.value == TableOf(tables, base)[name]
  {
    var table := TableOf(tables, base);
    if name in table then Some(table[name]) else None
  }

  /** Registering under a fresh name makes `Create` build that kind. */
  lemma CreateAfterRegister<Base, Kind>(tables: map<Base, map<string, Kind>>, base: Base, name: string, kind: Kind)
    requires name !in TableOf(tables, base)
    ensures Create(tables[base := Register(TableOf(tables, base), name, kind)], base, name) == Some(kind)
  {
  }

  /** Registration never changes what `Create` does for a name already registered, nor for another base. */
  lemma RegisterKeepsEarlier<Base, Kind>(tables: map<Base, map<string, Kind>>, base: Base, name: string, kind: Kind,
                                         base': Base, name': string)
    requires Create(tables, base', name').Some?
    ensures Create(tables[base := Register(TableOf(tables, base), name, kind)], base', name') == Create(tables, base', name')
  {
  }

  class Registries<Base(==), Kind(==)> {
    /** `GetRegistrableRegistry<Base>()`, one function-static map per base type. */
    var tables: map<Base, map<string, Kind>>
    /** The `(Base, T)` pairs whose `RegistryEntry<Base, T>::Instance` static exists. */
    var instances: set<(Base, Kind)>

    constructor ()
      ensures tables == map[] && instances == {}
    {
      tables := map[];
      instances := {};
    }

    /**
     * `RegistryEntry<Base, T>::Instance(name)`: the first call for a pair
     * builds its entry, which registers `(name, T)` in the base's map unless the
     * name is taken; later calls, whatever the name, register nothing.
     * `inserted` is whether the insertion took place (false draws a warning).
     */
    method Instance(base: Base, kind: Kind, name: string) returns (inserted: bool)
      modifies this
      ensures instances == old(instances) + {(base, kind)}
      ensures (base, kind) in old(instances) ==> tables == old(tables) && !inserted
      ensures (base, kind) !in old(instances) ==>
        tables == old(tables)[base := Register(TableOf(old(tables), base), name, kind)]
        && inserted == (name !in TableOf(old(tables), base))
    {
      if (base, kind) in instances {
        return false;
      }
      instances := instances + {(base, kind)};
      var table := TableOf(tables, base);
      inserted := name !in table;
      tables := tables[base := Register(table, name, kind)];
    }

    /** `Registrable<Base>::Create(name)`, which leaves the registry as it is. */
    method CreateObject(base: Base, name: string) returns (r: Option<Kind>)
      ensures r == Create(tables, base, name)
      ensures r.Some? <==> base in tables && name in tables[base]
    {
      var table := TableOf(tables, base);
      if name in table {
        return Some(table[name]);
      }
      return None;
    }
  }
}
