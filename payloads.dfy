/**
 * Payload types of the later bus revision: the name-to-factory registry of
 * payload types (`Messaging::Detail`) and the text codecs of the empty and the
 * 64-bit integer payloads.
 */
module Payloads {
  import opened Decimal
  import opened Registrable

  const INT64_MIN: int := -0x8000_0000_0000_0000
  const INT64_MAX: int := 0x7FFF_FFFF_FFFF_FFFF

  /** The registered payload types; the floating-point and vector ones are not modelled. */
  datatype PayloadKind = EmptyKind | IntKind

  /** A payload's own data, after the `Message` part. */
  datatype Payload = EmptyPayload | IntPayload(value: int)
  {
    ghost predicate Valid() {
      IntPayload? ==> INT64_MIN <= value <= INT64_MAX
    }
  }

  /** The payload-type registry: one map, and the types whose registration entry exists. */
  class PayloadTypes {
    var table: map<string, PayloadKind>
    var instances: set<PayloadKind>

    constructor ()
      ensures table == map[] && instances == {}
    {
      table := map[];
      instances := {};
    }

    /**
     * `RegistryEntry<T>::Instance(name)`: built at most once per type; the
     * build inserts `(name, T)` unless the name is taken.
     */
    method Instance(kind: PayloadKind, name: string) returns (inserted: bool)
      modifies this
      ensures instances == old(instances) + {kind}
      ensures kind in old(instances) ==> table == old(table) && !inserted
      ensures kind !in old(instances) ==>
        table == Register(old(table), name, kind) && inserted == (name !in old(table))
    {
      if kind in instances {
        return false;
      }
      instances := instances + {kind};
      inserted := name !in table;
      table := Register(table, name, kind);
    }
  }

  /**
   * `MAGMA_REGISTER_MESSAGE` for the two modelled payloads, in declaration
   * order, from an empty registry. The order of static initialisation across
   * translation units is unspecified, so other registrations may come first;
   * `PayloadTypes.Instance` states what one registration does in any state.
   */
  method RegisterBasicPayloads(types: PayloadTypes)
    requires types.table == map[] && types.instances == {}
    modifies types
    ensures types.table == map["empty" := EmptyKind, "int" := IntKind]
  {
    var _ := types.Instance(EmptyKind, "empty");
    var _ := types.Instance(IntKind, "int");
  }

  /** `Serialize(stream)`: nothing for the empty payload, `stream << m_value` for the integer one. */
  function Serialize(p: Payload): (s: string)
    ensures p.EmptyPayload? <==> s == []
  {
    match p
    case EmptyPayload => ""
    case IntPayload(v) => Render(v)
  }

  /**
   * `Deserialize(stream)` into a payload of the given kind: the empty payload
   * reads nothing; the integer payload performs `stream >> m_value`.  Returns
   * the payload, whether the read succeeded and the unread text.
   */
  function Deserialize(kind: PayloadKind, s: string): (r: (Payload, bool, string))
    ensures r.0.Valid() && |r.2| <= |s|
    ensures kind == EmptyKind ==> r == (EmptyPayload, true, s)
    ensures kind == IntKind ==> r.0.IntPayload?
  {
    match kind
    case EmptyKind => (EmptyPayload, true, s)
    case IntKind =>
      var e := ReadInt(s, INT64_MIN, INT64_MAX);
      (IntPayload(e.value), e.ok, e.rest)
  }

  /** The payload's kind. */
  function KindOf(p: Payload): PayloadKind
  {
    match p
    case EmptyPayload => EmptyKind
    case IntPayload(_) => IntKind
  }

  /**
   * Each payload reads back exactly what it wrote: the integer's value and
   * nothing more, the empty payload nothing at all.
   */
  lemma SerializeRoundTrip(p: Payload, rest: string)
    requires p.Valid()
    requires rest == [] || !IsDigit(rest[0])
    ensures Deserialize(KindOf(p), Serialize(p) + rest) == (p, true, rest)
  {
    match p
    case EmptyPayload =>
      assert Serialize(p) + rest == rest;
    case IntPayload(v) =>
      RenderThenRead(v, rest, INT64_MIN, INT64_MAX);
  }
}
