/**
 * `Core`: a listener with a running flag.  Initialising it subscribes it to the
 * "exit" message type and starts it; each update drains its inbox and stops it
 * when one of the drained messages is of type "exit".
 */
module CoreSystem {
  import opened Words
  import opened Text
  import opened MessageBus
  import opened BusLists
  import TypeRegistry

  /** The type IDs carried by a sequence of payloads. */
  ghost function TypeIDsOf(ms: seq<Message>): (ids: seq<nat>)
    reads set m | m in ms
    ensures |ids| == |ms| && forall k | 0 <= k < |ms| :: ids[k] == ms[k].typeID
  {
    seq(|ms|, k requires 0 <= k < |ms| reads set m | m in ms => ms[k].typeID)
  }

  /** Some type ID in `ids` is registered under the name "exit". */
  ghost predicate NamesExit(ids: seq<nat>, types: map<string, nat>)
  {
    exists k | 0 <= k < |ids| :: TypeRegistry.NameOf(types, ids[k]) == "exit"
  }

  lemma NamesExitSnoc(ids: seq<nat>, types: map<string, nat>, k: nat)
    requires k < |ids|
    ensures NamesExit(ids[..k + 1], types) <==>
            NamesExit(ids[..k], types) || TypeRegistry.NameOf(types, ids[k]) == "exit"
  {
    if TypeRegistry.NameOf(types, ids[k]) == "exit" {
      assert ids[..k + 1][k] == ids[k];
    }
    if NamesExit(ids[..k + 1], types) && !(TypeRegistry.NameOf(types, ids[k]) == "exit") {
      var j :| 0 <= j < k + 1 && TypeRegistry.NameOf(types, ids[..k + 1][j]) == "exit";
      assert ids[..k][j] == ids[j];
    }
  }

  /**
   * Each message of `all` has lost one reference per occurrence in `consumed`
   * since its count was `start[m]`.
   */
  ghost predicate Released(all: seq<Message>, start: map<Message, Word>, consumed: seq<Message>)
    reads set m | m in all
  {
    forall m | m in all :: m in start && m.refCount == SubWrapped(start[m], Count(m, consumed))
  }

  /** The messages of `all` carry the type IDs `ids`, in order. */
  ghost predicate Typed(all: seq<Message>, ids: seq<nat>)
    reads set m | m in all
  {
    |all| == |ids| && forall j | 0 <= j < |all| :: all[j].typeID == ids[j]
  }

  /** Destroying the handle of one popped message: one fewer reference to it. */
  method ReleaseOnce(h: Message, ghost consumed: seq<Message>, ghost all: seq<Message>, ghost start: map<Message, Word>)
    requires h in all && Released(all, start, consumed)
    modifies h
    ensures Released(all, start, consumed + [h])
    ensures h.typeID == old(h.typeID)
  {
    Release(h);
    forall m | m in all
      ensures m.refCount == SubWrapped(start[m], Count(m, consumed + [h]))
    {
      CountSnoc(m, consumed, h);
      if m == h {
        DecIsSubOne(start[h], Count(h, consumed));
      }
    }
  }

  class Core {
    const listener: Listener
    var running: bool

    constructor ()
      ensures fresh(listener) && !running
      ensures listener.subscriptions == {} && listener.inbox == [] && listener.bus == null
    {
      listener := new Listener();
      running := false;
    }

    /** `Init(bus)` followed by `DerivedInit`: subscribe to "exit" and start running. */
    method Init(bus: Bus, registry: TypeRegistry.Registry)
      requires registry.Valid()
      modifies this, listener, bus, registry
      ensures running && listener.bus == bus && registry.Valid()
      ensures "exit" in old(registry.types) ==>
        registry.types == old(registry.types) && registry.nextTypeID == old(registry.nextTypeID)
      ensures "exit" !in old(registry.types) ==>
        registry.types == old(registry.types)["exit" := old(registry.nextTypeID)]
        && registry.nextTypeID == old(registry.nextTypeID) + 1
      ensures 0 in old(listener.subscriptions) ==>
        listener.subscriptions == old(listener.subscriptions) && bus.lists == old(bus.lists)
      ensures 0 !in old(listener.subscriptions) ==>
        "exit" in registry.types
        && listener.subscriptions == old(listener.subscriptions) + {registry.types["exit"]}
        && bus.lists == Appended(old(bus.lists), registry.types["exit"], listener)
      ensures listener.inbox == old(listener.inbox) && bus.messages == old(bus.messages)
    {
      listener.Init(bus);
      var _ := listener.SubscribeByName(registry, "exit");
      running := true;
    }

    /** `DerivedTerminate` followed by the listener's `Terminate`. */
    method Terminate()
      requires listener.subscriptions != {} ==>
        listener.bus != null && forall s | s in listener.subscriptions :: s < |listener.bus.lists|
      modifies this, listener, listener.bus
      ensures !running && listener.bus == null && listener.subscriptions == {}
      ensures listener.inbox == old(listener.inbox)
      ensures old(listener.bus) != null ==>
        old(listener.bus).messages == old(listener.bus.messages)
        && old(listener.bus).lists == ErasedFrom(old(listener.bus.lists), listener, old(listener.subscriptions))
    {
      running := false;
      listener.Terminate();
    }

    /** The body of the `Update` loop for one popped handle `h`. */
    method Consume(registry: TypeRegistry.Registry, h: Message, ghost all: seq<Message>, ghost ids: seq<nat>,
                   ghost start: map<Message, Word>, ghost consumed: seq<Message>, ghost wasRunning: bool)
      requires registry.Valid()
      requires |consumed| < |ids| && ids[|consumed|] == h.typeID
      requires h in all && Released(all, start, consumed)
      requires running == if NamesExit(ids[..|consumed|], registry.types) then false else wasRunning
      modifies this, h
      ensures running == if NamesExit(ids[..|consumed| + 1], registry.types) then false else wasRunning
      ensures Released(all, start, consumed + [h])
      ensures h.typeID == old(h.typeID)
    {
      var name := registry.TypeIDToTypeName(h.typeID);
      NamesExitSnoc(ids, registry.types, |consumed|);
      if name == "exit" {
        running := false;
      }
      ReleaseOnce(h, consumed, all, start);
    }

    /**
     * The state of an `Update` in progress: `consumed` has been popped and
     * released, `h` is the handle in hand and the rest is still queued.
     */
    ghost predicate Draining(registry: TypeRegistry.Registry, all: seq<Message>, ids: seq<nat>,
                             start: map<Message, Word>, consumed: seq<Message>, h: Message?,
                             wasRunning: bool, subs0: set<nat>, bus0: Bus?)
      reads this, listener, registry, set m | m in all
    {
      && (h != null ==> all == consumed + [h] + listener.inbox)
      && (h == null ==> all == consumed && listener.inbox == [])
      && (forall m | m in listener.inbox :: m in all)
      && Typed(all, ids)
      && |consumed| <= |ids|
      && Released(all, start, consumed)
      && running == (if NamesExit(ids[..|consumed|], registry.types) then false else wasRunning)
      && listener.subscriptions == subs0 && listener.bus == bus0
    }

    /** One turn of the `Update` loop: consume the handle in hand, then pop the next. */
    method Step(registry: TypeRegistry.Registry, h: Message, ghost all: seq<Message>, ghost ids: seq<nat>,
                ghost start: map<Message, Word>, ghost consumed: seq<Message>,
                ghost wasRunning: bool, ghost subs0: set<nat>, ghost bus0: Bus?)
      returns (next: Message?, ghost consumed': seq<Message>)
      requires registry.Valid()
      requires Draining(registry, all, ids, start, consumed, h, wasRunning, subs0, bus0)
      modifies this, listener, h
      ensures Draining(registry, all, ids, start, consumed', next, wasRunning, subs0, bus0)
      ensures |listener.inbox| + (if next != null then 1 else 0) < |old(listener.inbox)| + 1
    {
      assert all[|consumed|] == h;
      Consume(registry, h, all, ids, start, consumed, wasRunning);
      consumed' := consumed + [h];
      ghost var rest := listener.inbox;
      assert all == consumed' + rest;
      next := listener.PopMessage();
      if next != null {
        assert rest == [next] + listener.inbox;
        assert all == consumed' + [next] + listener.inbox;
      } else {
        assert rest == [];
      }
    }

    /**
     * `Update`: pop until the inbox is empty, releasing each popped handle;
     * stop running when some popped message's type name is "exit".
     */
    method Update(registry: TypeRegistry.Registry)
      requires registry.Valid()
      modifies this, listener, set m | m in listener.inbox
      ensures listener.inbox == []
      ensures running == if NamesExit(old(TypeIDsOf(listener.inbox)), registry.types) then false else old(running)
      ensures TypeIDsOf(old(listener.inbox)) == old(TypeIDsOf(listener.inbox))
      ensures Released(old(listener.inbox), old(CountsOf(listener.inbox)), old(listener.inbox))
      ensures listener.subscriptions == old(listener.subscriptions) && listener.bus == old(listener.bus)
    {
      ghost var all := listener.inbox;
      ghost var ids := TypeIDsOf(all);
      ghost var start := CountsOf(all);
      ghost var consumed: seq<Message> := [];
      var h := listener.PopMessage();
      assert ids[..0] == [];
      while h != null
        invariant all == old(listener.inbox)
        invariant Draining(registry, all, ids, start, consumed, h, old(running), old(listener.subscriptions), old(listener.bus))
        decreases |listener.inbox| + (if h != null then 1 else 0)
      {
        h, consumed := Step(registry, h, all, ids, start, consumed, old(running), old(listener.subscriptions), old(listener.bus));
      }
      assert ids[..|consumed|] == ids;
      assert TypeIDsOf(all) == ids;
    }
  }
}
