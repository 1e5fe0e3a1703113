/**
 * The message bus: payload slots with intrusive reference counts, listeners with
 * a subscription set and a FIFO inbox, and the bus's listener table and slab.
 * Everything is sequential; the mutexes of the original are not modelled.
 *
 * The model follows the code as it is written, including where it departs from
 * its own documentation: allocation never marks a slot as occupied, a sent
 * payload is never recorded for `Clean`, fan-out ignores the message type, and
 * `Unsubscribe` skips the element that shifts into an erased position.
 */
module MessageBus {
  import opened Wrappers
  import opened Words
  import opened Text
  import opened BusLists
  import TypeRegistry

  /** The `Message` part of whatever payload occupies slot `slot` of the slab. */
  class Message {
    const slot: nat
    var typeID: nat
    var refCount: Word

    /** A slot of the zero-filled buffer. */
    constructor (slot: nat)
      ensures this.slot == slot && typeID == 0 && refCount == 0
    {
      this.slot := slot;
      typeID := 0;
      refCount := 0;
    }
  }

  /**
   * Constructing a `MessageHandle` from `h`, or copying a handle that holds `h`:
   * a non-null message gains one reference; a null handle touches nothing.
   */
  method Retain(h: Message?)
    modifies h
    ensures h != null ==> h.refCount == Inc(old(h.refCount)) && h.typeID == old(h.typeID)
  {
    if h != null {
      h.refCount := Inc(h.refCount);
    }
  }

  /** Destroying a `MessageHandle` that holds `h`. */
  method Release(h: Message?)
    modifies h
    ensures h != null ==> h.refCount == Dec(old(h.refCount)) && h.typeID == old(h.typeID)
  {
    if h != null {
      h.refCount := Dec(h.refCount);
    }
  }

  datatype BusError =
    | TypeZero            // subscribing or unsubscribing type 0 (a warning only)
    | WildcardSubscribed  // unsubscribing while subscribed to every type (a warning only)
    | StillAttached       // destroying a listener that was never terminated
    | PayloadTooLarge     // sizeof(T) exceeds the slot size
    | BufferFull          // no free slot

  class Listener {
    var subscriptions: set<nat>
    var inbox: seq<Message>
    var bus: Bus?

    constructor ()
      ensures subscriptions == {} && inbox == [] && bus == null
    {
      subscriptions := {};
      inbox := [];
      bus := null;
    }

    /** `IsSubscribedTo(type)`: plain membership, so after `SubscribeToAll` only 0 is a member. */
    predicate IsSubscribedTo(t: nat)
      reads this
    {
      t in subscriptions
    }

    /** The destructor reports an error when the listener is still attached to a bus. */
    method CheckDestroy() returns (o: Outcome<BusError>)
      ensures o == Pass <==> bus == null
      ensures o.Fail? ==> o.error == StillAttached
    {
      if bus != null {
        return Fail(StillAttached);
      }
      return Pass;
    }

    /** `Init(bus)` before the derived hook runs. */
    method Init(b: Bus)
      modifies this
      ensures bus == b && subscriptions == old(subscriptions) && inbox == old(inbox)
    {
      bus := b;
    }

    /**
     * `PushMessage(MessageHandle)`: the handle parameter adds a reference, the
     * copy stored at the tail of the inbox adds one, and destroying the
     * parameter removes one; one net reference.
     */
    method PushMessage(m: Message)
      modifies this, m
      ensures inbox == old(inbox) + [m]
      ensures m.refCount == Inc(old(m.refCount)) && m.typeID == old(m.typeID)
      ensures subscriptions == old(subscriptions) && bus == old(bus)
    {
      Retain(m);
      inbox := inbox + [m];
      Retain(m);
      Release(m);
      DecUndoesInc(m.refCount);
    }

    /**
     * `PopMessage`: the head of the inbox, removed, or null on an empty inbox.
     * Copying the head out adds a reference and popping destroys the inbox's
     * handle, so the returned handle carries the reference the inbox held and
     * no count changes.
     */
    method PopMessage() returns (h: Message?)
      modifies this
      ensures old(inbox) == [] ==> h == null && inbox == []
      ensures old(inbox) != [] ==> h == old(inbox[0]) && inbox == old(inbox[1..])
      ensures subscriptions == old(subscriptions) && bus == old(bus)
    {
      if inbox == [] {
        return null;
      }
      h := inbox[0];
      inbox := inbox[1..];
    }

    /**
     * `Subscribe(type)`: type 0 is refused with a warning, a wildcard
     * subscriber ignores the request, otherwise the type joins the set and the
     * listener is appended to the bus list of that type.
     */
    method Subscribe(t: nat) returns (o: Outcome<BusError>)
      requires t != 0 && 0 !in subscriptions ==> bus != null
      modifies this, bus
      ensures bus == old(bus) && inbox == old(inbox)
      ensures bus != null ==> bus.messages == old(bus.messages)
      ensures t == 0 ==> o == Fail(TypeZero)
      ensures o == Pass <==> t != 0
      ensures t == 0 || 0 in old(subscriptions) ==>
        subscriptions == old(subscriptions) && (bus != null ==> bus.lists == old(bus.lists))
      ensures t != 0 && 0 !in old(subscriptions) ==>
        subscriptions == old(subscriptions) + {t} && bus.lists == Appended(old(bus.lists), t, this)
    {
      if t == 0 {
        return Fail(TypeZero);
      }
      if 0 !in subscriptions {
        subscriptions := subscriptions + {t};
        bus.Subscribe(this, t);
      }
      return Pass;
    }

    /**
     * `Unsubscribe(type)`: type 0 and wildcard subscribers are refused with a
     * warning; otherwise the type leaves the set and the bus list of that
     * type, which must already exist.
     */
    method Unsubscribe(t: nat) returns (o: Outcome<BusError>)
      requires t != 0 && 0 !in subscriptions ==> bus != null && t < |bus.lists|
      modifies this, bus
      ensures bus == old(bus) && inbox == old(inbox)
      ensures bus != null ==> bus.messages == old(bus.messages)
      ensures t == 0 ==> o == Fail(TypeZero)
      ensures t != 0 && 0 in old(subscriptions) ==> o == Fail(WildcardSubscribed)
      ensures o.Fail? ==> subscriptions == old(subscriptions) && (bus != null ==> bus.lists == old(bus.lists))
      ensures o == Pass <==> t != 0 && 0 !in old(subscriptions)
      ensures o == Pass ==>
        subscriptions == old(subscriptions) - {t}
        && bus.lists == old(bus.lists)[t := EraseSkipping(old(bus.lists[t]), this)]
    {
      if t == 0 {
        return Fail(TypeZero);
      }
      if 0 in subscriptions {
        return Fail(WildcardSubscribed);
      }
      subscriptions := subscriptions - {t};
      bus.Unsubscribe(this, t);
      return Pass;
    }

    /** `Subscribe(name)`: resolve (and maybe register) the name, then subscribe to its ID. */
    method SubscribeByName(registry: TypeRegistry.Registry, name: string) returns (id: nat)
      requires registry.Valid() && bus != null
      modifies this, bus, registry
      ensures registry.Valid() && id >= 1
      ensures name in registry.types && registry.types[name] == id
      ensures name in old(registry.types) ==>
        registry.types == old(registry.types) && registry.nextTypeID == old(registry.nextTypeID)
      ensures name !in old(registry.types) ==>
        id == old(registry.nextTypeID) && registry.types == old(registry.types)[name := id]
        && registry.nextTypeID == old(registry.nextTypeID) + 1
      ensures bus == old(bus) && inbox == old(inbox) && bus.messages == old(bus.messages)
      ensures 0 in old(subscriptions) ==> subscriptions == old(subscriptions) && bus.lists == old(bus.lists)
      ensures 0 !in old(subscriptions) ==>
        subscriptions == old(subscriptions) + {id} && bus.lists == Appended(old(bus.lists), id, this)
    {
      id := registry.TypeNameToTypeID(name);
      var _ := Subscribe(id);
    }

    /** `Unsubscribe(name)`: resolve (and maybe register) the name, then unsubscribe from its ID. */
    method UnsubscribeByName(registry: TypeRegistry.Registry, name: string) returns (id: nat)
      requires registry.Valid() && bus != null
      requires 0 !in subscriptions ==>
        (if name in registry.types then registry.types[name] else registry.nextTypeID) < |bus.lists|
      modifies this, bus, registry
      ensures registry.Valid() && id >= 1
      ensures name in registry.types && registry.types[name] == id
      ensures name in old(registry.types) ==>
        registry.types == old(registry.types) && registry.nextTypeID == old(registry.nextTypeID)
      ensures name !in old(registry.types) ==>
        id == old(registry.nextTypeID) && registry.types == old(registry.types)[name := id]
        && registry.nextTypeID == old(registry.nextTypeID) + 1
      ensures bus == old(bus) && inbox == old(inbox) && bus.messages == old(bus.messages)
      ensures 0 in old(subscriptions) ==> subscriptions == old(subscriptions) && bus.lists == old(bus.lists)
      ensures 0 !in old(subscriptions) ==>
        id < |old(bus.lists)|
        && subscriptions == old(subscriptions) - {id}
        && bus.lists == old(bus.lists)[id := EraseSkipping(old(bus.lists[id]), this)]
    {
      id := registry.TypeNameToTypeID(name);
      var _ := Unsubscribe(id);
    }

    /**
     * `UnsubscribeFromAll`: leave the bus list of every subscribed type, then
     * clear the set.  The bus is only reached through a subscription, so a
     * detached listener with no subscriptions is a no-op.
     */
    method UnsubscribeFromAll()
      requires subscriptions != {} ==> bus != null && forall s | s in subscriptions :: s < |bus.lists|
      modifies this, bus
      ensures bus == old(bus) && inbox == old(inbox)
      ensures subscriptions == {}
      ensures bus != null ==>
        bus.messages == old(bus.messages) && bus.lists == ErasedFrom(old(bus.lists), this, old(subscriptions))
    {
      LeaveAll();
      subscriptions := {};
    }

    /**
     * `SubscribeToAll`: leave every subscribed type's list, make {0} the whole
     * subscription set and join the wildcard list.
     */
    method SubscribeToAll()
      requires bus != null && forall s | s in subscriptions :: s < |bus.lists|
      modifies this, bus
      ensures bus == old(bus) && inbox == old(inbox) && bus.messages == old(bus.messages)
      ensures subscriptions == {0}
      ensures bus.lists == Appended(ErasedFrom(old(bus.lists), this, old(subscriptions)), 0, this)
      ensures this in bus.lists[0]
    {
      LeaveAll();
      subscriptions := {0};
      bus.Subscribe(this, 0);
    }

    /**
     * `Terminate` after the derived hook: unsubscribe from everything and
     * detach; a second `Terminate`, or one before `Init`, changes nothing.
     */
    method Terminate()
      requires subscriptions != {} ==> bus != null && forall s | s in subscriptions :: s < |bus.lists|
      modifies this, bus
      ensures bus == null && subscriptions == {} && inbox == old(inbox)
      ensures old(bus) != null ==>
        old(bus).messages == old(bus.messages)
        && old(bus).lists == ErasedFrom(old(bus.lists), this, old(subscriptions))
    {
      UnsubscribeFromAll();
      bus := null;
    }

    /** The loop shared by `SubscribeToAll` and `UnsubscribeFromAll`. */
    method LeaveAll()
      requires subscriptions != {} ==> bus != null && forall s | s in subscriptions :: s < |bus.lists|
      modifies bus
      ensures bus != null ==>
        bus.messages == old(bus.messages) && bus.lists == ErasedFrom(old(bus.lists), this, subscriptions)
    {
      var todo := subscriptions;
      while todo != {}
        invariant todo <= subscriptions
        invariant bus != null ==> |bus.lists| == |old(bus.lists)| && bus.messages == old(bus.messages)
        invariant bus != null ==> bus.lists == ErasedFrom(old(bus.lists), this, subscriptions - todo)
        decreases todo
      {
        var s :| s in todo;
        ErasedFromStep(old(bus.lists), this, subscriptions - todo, s);
        bus.Unsubscribe(this, s);
        todo := todo - {s};
        assert subscriptions - todo == (subscriptions - (todo + {s})) + {s};
      }
    }
  }

  /**
   * `IsSubscribedTo` is plain membership: a listener subscribed to every type
   * (set {0}) is subscribed to type 0 only, not to each type.
   */
  lemma WildcardIsOnlyZero(l: Listener, t: nat)
    requires l.subscriptions == {0}
    ensures l.IsSubscribedTo(t) <==> t == 0
  {
  }

  /** The listener table after `l` has been unsubscribed from every type in `types`. */
  function ErasedFrom<T(==)>(lists: seq<seq<T>>, l: T, types: set<nat>): (r: seq<seq<T>>)
    ensures |r| == |lists|
    ensures forall k | 0 <= k < |lists| && k !in types :: r[k] == lists[k]
  {
    seq(|lists|, k requires 0 <= k < |lists| => if k in types then EraseSkipping(lists[k], l) else lists[k])
  }

  lemma ErasedFromStep<T>(lists: seq<seq<T>>, l: T, done: set<nat>, s: nat)
    requires s < |lists| && s !in done
    ensures ErasedFrom(lists, l, done + {s}) ==
            ErasedFrom(lists, l, done)[s := EraseSkipping(ErasedFrom(lists, l, done)[s], l)]
  {
  }

  class Bus {
    const maxSize: nat            // m_messageMaxSize: bytes per slot
    const count: nat              // m_messageBufferSize: number of slots
    const slots: seq<Message>     // slot i lives at byte offset i * maxSize of the buffer
    const inUse: array<bool>      // m_messageBufferState
    var lists: seq<seq<Listener>> // m_listeners
    var messages: seq<Message>    // m_messages: payloads tracked for Clean

    ghost predicate Valid()
      reads this
    {
      && |slots| == count && inUse.Length == count
      && (forall i | 0 <= i < count :: slots[i].slot == i)
      && |lists| >= 1
      && (forall m | m in messages :: m.slot < count && slots[m.slot] == m)
    }

    /** Every listener appearing in some list of the table. */
    ghost function Members(): set<Listener>
      reads this
    {
      set k, j | 0 <= k < |lists| && 0 <= j < |lists[k]| :: lists[k][j]
    }

    /**
     * The constructor: a zero-filled buffer of `count` slots, every slot free,
     * no tracked payloads, and only the wildcard listener list.
     */
    constructor (maxSize: nat, count: nat)
      ensures Valid()
      ensures this.maxSize == maxSize && this.count == count
      ensures forall i | 0 <= i < count :: !inUse[i] && slots[i].typeID == 0 && slots[i].refCount == 0
      ensures lists == [[]] && messages == []
      ensures fresh(inUse) && forall i | 0 <= i < count :: fresh(slots[i])
    {
      var s: seq<Message> := [];
      for i := 0 to count
        invariant |s| == i
        invariant forall j | 0 <= j < i :: fresh(s[j]) && s[j].slot == j && s[j].typeID == 0 && s[j].refCount == 0
      {
        var m := new Message(i);
        s := s + [m];
      }
      this.maxSize := maxSize;
      this.count := count;
      slots := s;
      inUse := new bool[count](_ => false);
      lists := [[]];
      messages := [];
    }

    /**
     * `AllocateMessage`: the first free slot (the address `i * maxSize`), or
     * nothing with an error when every slot is occupied.  No flag is set.
     */
    method AllocateMessage() returns (r: Option<nat>)
      requires Valid()
      ensures r == FirstFree(inUse[..])
      ensures r.Some? ==> r.value < count && !inUse[r.value]
    {
      var i := 0;
      while i < count
        invariant 0 <= i <= count
        invariant forall j | 0 <= j < i :: inUse[j]
      {
        if !inUse[i] {
          FirstFreeIsLeast(inUse[..], i);
          return Some(i);
        }
        i := i + 1;
      }
      FirstFreeNone(inUse[..]);
      return None;
    }

    /** `Subscribe(listener, type)`: grow the table to index `t` and append. */
    method Subscribe(l: Listener, t: nat)
      modifies this
      ensures lists == Appended(old(lists), t, l)
      ensures messages == old(messages)
    {
      if |lists| <= t {
        lists := Grow(lists, t + 1);
      }
      lists := lists[t := lists[t] + [l]];
    }

    /**
     * `Unsubscribe(listener, type)`: an index loop over list `t` that erases
     * each match and still advances, so the element moved into the erased
     * position is never checked.
     */
    method Unsubscribe(l: Listener, t: nat)
      requires t < |lists|
      modifies this
      ensures lists == old(lists)[t := EraseSkipping(old(lists[t]), l)]
      ensures messages == old(messages)
    {
      var cur := lists[t];
      var i := 0;
      while i < |cur|
        invariant unchanged(this)
        invariant i <= |cur| + 1
        invariant i <= |cur| ==> cur[..i] + EraseSkipping(cur[i..], l) == EraseSkipping(old(lists[t]), l)
        invariant i == |cur| + 1 ==> cur == EraseSkipping(old(lists[t]), l)
        decreases |cur| + 1 - i
      {
        if cur[i] == l {
          EraseStep(cur, i, l);
          cur := cur[..i] + cur[i + 1..];
        } else {
          KeepStep(cur, i, l);
        }
        i := i + 1;
      }
      if i <= |cur| {
        assert cur[..i] == cur;
        assert cur[i..] == [];
      }
      assert cur == EraseSkipping(old(lists[t]), l);
      lists := lists[t := cur];
    }

    /**
     * `SendMessage<T>(type, args...)`: refuse a payload larger than a slot;
     * otherwise take the first free slot, construct the payload there (its
     * count starts at zero), stamp the type and fan it out.  A full buffer is
     * reported as an error; the payload is never marked occupied nor tracked.
     */
    method SendMessage(typeID: nat, payloadSize: nat) returns (o: Outcome<BusError>)
      requires Valid()
      modifies slots, Members()
      ensures payloadSize > maxSize ==> o == Fail(PayloadTooLarge)
      ensures payloadSize <= maxSize && FirstFree(inUse[..]).None? ==> o == Fail(BufferFull)
      ensures o == Pass <==> payloadSize <= maxSize && FirstFree(inUse[..]).Some?
      ensures o.Fail? ==> (forall i | 0 <= i < count :: unchanged(slots[i])) && forall l | l in Members() :: unchanged(l)
      ensures o == Pass ==>
        var i := FirstFree(inUse[..]).value;
        && slots[i].typeID == typeID
        && slots[i].refCount == AddWrapped(0, |Flatten(lists)|)
        && (forall j | 0 <= j < count && j != i :: unchanged(slots[j]))
        && forall l | l in Members() ::
             l.inbox == old(l.inbox) + Copies(slots[i], Count(l, Flatten(lists)))
             && l.subscriptions == old(l.subscriptions) && l.bus == old(l.bus)
      ensures messages == old(messages) && inUse[..] == old(inUse[..])
    {
      if payloadSize > maxSize {
        return Fail(PayloadTooLarge);
      }
      var loc := AllocateMessage();
      if loc.None? {
        return Fail(BufferFull);
      }
      var m := slots[loc.value];
      // Placement new value-initialises the `Message` part, so the count starts at 0.
      m.refCount := 0;
      m.typeID := typeID;
      FanOut(m);
      return Pass;
    }

    /** `SendMessage<T>(name, args...)`: resolve (and maybe register) the name first. */
    method SendMessageByName(registry: TypeRegistry.Registry, name: string, payloadSize: nat)
      returns (id: nat, o: Outcome<BusError>)
      requires Valid() && registry.Valid()
      modifies registry, slots, Members()
      ensures registry.Valid() && name in registry.types && registry.types[name] == id
      ensures o == Pass <==> payloadSize <= maxSize && FirstFree(inUse[..]).Some?
      ensures o == Pass ==>
        var i := FirstFree(inUse[..]).value;
        && slots[i].typeID == id
        && forall l | l in Members() :: l.inbox == old(l.inbox) + Copies(slots[i], Count(l, Flatten(lists)))
    {
      id := registry.TypeNameToTypeID(name);
      o := SendMessage(id, payloadSize);
    }

    /**
     * `Clean`: every tracked payload whose count is zero is destroyed, its slot
     * zeroed and freed, and it leaves the tracked list; the rest stay, in order.
     */
    method Clean()
      requires Valid()
      modifies this, inUse, messages
      ensures Valid() && lists == old(lists)
      ensures messages == Kept(old(messages), old(CountsOf(messages)))
      ensures forall m | m in old(messages) && old(m.refCount) == 0 ::
        m.typeID == 0 && m.refCount == 0 && !inUse[m.slot]
      ensures forall m | m in old(messages) && old(m.refCount) != 0 :: unchanged(m)
      ensures forall i | 0 <= i < count && i !in Reclaimed(old(messages), old(CountsOf(messages))) ::
        inUse[i] == old(inUse[i])
    {
      messages := Sweep(messages, inUse);
    }

    /** The loop of `Clean` over the tracked payloads `ms`, returning those kept. */
    static method Sweep(ms: seq<Message>, inUse: array<bool>) returns (kept: seq<Message>)
      requires forall m | m in ms :: m.slot < inUse.Length
      modifies (set m | m in ms), inUse
      ensures kept == Kept(ms, old(CountsOf(ms))) && forall m | m in kept :: m in ms
      ensures forall m | m in ms && old(m.refCount) == 0 :: m.typeID == 0 && m.refCount == 0 && !inUse[m.slot]
      ensures forall m | m in ms && old(m.refCount) != 0 :: unchanged(m)
      ensures forall k | 0 <= k < inUse.Length && k !in Reclaimed(ms, old(CountsOf(ms))) :: inUse[k] == old(inUse[k])
    {
      ghost var rc := CountsOf(ms);
      ghost var freed: set<nat> := {};
      ghost var gone: set<Message> := {};
      kept := [];
      var i := 0;
      while i < |ms|
        invariant 0 <= i <= |ms|
        invariant kept == Kept(ms[..i], rc) && freed == Reclaimed(ms[..i], rc)
        invariant forall m | m in kept :: m in ms
        invariant forall m | m in ms :: m.refCount == rc[m]
        invariant forall j | 0 <= j < i && rc[ms[j]] == 0 :: ms[j] in gone
        invariant forall m | m in gone :: m in ms && m.typeID == 0 && !inUse[m.slot]
        invariant forall m | m in ms && rc[m] != 0 :: unchanged(m)
        invariant forall k | 0 <= k < inUse.Length && k !in freed :: inUse[k] == old(inUse[k])
      {
        var m := ms[i];
        KeptAt(ms, rc, i);
        if m.refCount == 0 {
          Reclaim(m, inUse);
          gone := gone + {m};
          freed := freed + {m.slot};
        } else {
          kept := kept + [m];
        }
        i := i + 1;
      }
      assert ms[..i] == ms;
    }

    /** Destroying one unreferenced payload: zero its slot and clear its flag. */
    static method Reclaim(m: Message, inUse: array<bool>)
      requires m.slot < inUse.Length && m.refCount == 0
      modifies m, inUse
      ensures m.typeID == 0 && m.refCount == 0
      ensures !inUse[m.slot] && forall k | 0 <= k < inUse.Length && k != m.slot :: inUse[k] == old(inUse[k])
    {
      m.typeID := 0;
      inUse[m.slot] := false;
    }

    /**
     * `SendMessage(Message*)`: push `m` once per occurrence of a listener in
     * list 0, then in every list from 1 on, whatever the message's type.
     */
    method FanOut(m: Message)
      requires |lists| >= 1
      modifies m, Members()
      ensures m.refCount == AddWrapped(old(m.refCount), |Flatten(lists)|) && m.typeID == old(m.typeID)
      ensures forall l | l in Members() ::
        l.inbox == old(l.inbox) + Copies(m, Count(l, Flatten(lists)))
        && l.subscriptions == old(l.subscriptions) && l.bus == old(l.bus)
    {
      FanOutLists(m, lists, Members());
    }

    /** The loops of the fan-out over the table `lists`, whose listeners are among `ls`. */
    static method FanOutLists(m: Message, lists: seq<seq<Listener>>, ghost ls: set<Listener>)
      requires forall k, j | 0 <= k < |lists| && 0 <= j < |lists[k]| :: lists[k][j] in ls
      modifies m, ls
      ensures m.refCount == AddWrapped(old(m.refCount), |Flatten(lists)|) && m.typeID == old(m.typeID)
      ensures forall l | l in ls ::
        l.inbox == old(l.inbox) + Copies(m, Count(l, Flatten(lists)))
        && l.subscriptions == old(l.subscriptions) && l.bus == old(l.bus)
    {
      var k := 0;
      assert lists[..0] == [];
      while k < |lists|
        invariant 0 <= k <= |lists|
        invariant m.refCount == AddWrapped(old(m.refCount), |Flatten(lists[..k])|) && m.typeID == old(m.typeID)
        invariant forall l | l in ls ::
          l.inbox == old(l.inbox) + Copies(m, Count(l, Flatten(lists[..k])))
          && l.subscriptions == old(l.subscriptions) && l.bus == old(l.bus)
      {
        ghost var before := Flatten(lists[..k]);
        FanOutList(m, lists[k], ls);
        FlattenPrefix(lists, k);
        AddWrappedTwice(old(m.refCount), |before|, |lists[k]|);
        forall l | l in ls
          ensures l.inbox == old(l.inbox) + Copies(m, Count(l, Flatten(lists[..k + 1])))
        {
          InboxCompose(l, m, old(l.inbox), before, lists[k]);
        }
        k := k + 1;
      }
      assert lists[..|lists|] == lists;
    }

    /** The inner loop of the fan-out: push to every occurrence in `list`, whose listeners are among `ls`. */
    static method FanOutList(m: Message, list: seq<Listener>, ghost ls: set<Listener>)
      requires forall j | 0 <= j < |list| :: list[j] in ls
      modifies m, ls
      ensures m.refCount == AddWrapped(old(m.refCount), |list|) && m.typeID == old(m.typeID)
      ensures forall l | l in ls ::
        l.inbox == old(l.inbox) + Copies(m, Count(l, list))
        && l.subscriptions == old(l.subscriptions) && l.bus == old(l.bus)
    {
      var j := 0;
      while j < |list|
        invariant 0 <= j <= |list|
        invariant m.refCount == AddWrapped(old(m.refCount), j) && m.typeID == old(m.typeID)
        invariant forall l | l in ls ::
          l.inbox == old(l.inbox) + Copies(m, Count(l, list[..j]))
          && l.subscriptions == old(l.subscriptions) && l.bus == old(l.bus)
      {
        var l := list[j];
        IncIsAddOne(old(m.refCount), j);
        label Before:
        l.PushMessage(m);
        forall x | x in ls
          ensures x.inbox == old(x.inbox) + Copies(m, Count(x, list[..j + 1]))
        {
          CountPrefix(x, list, j);
          InboxPush(old(x.inbox), old@Before(x.inbox), x.inbox, m, Count(x, list[..j]), x == l);
        }
        j := j + 1;
      }
      assert list[..j] == list;
    }
  }

  /** One push, or none, extends an inbox holding `c` copies of `m` by one more copy, or by none. */
  lemma InboxPush(base: seq<Message>, prev: seq<Message>, now: seq<Message>, m: Message, c: nat, pushed: bool)
    requires prev == base + Copies(m, c)
    requires now == if pushed then prev + [m] else prev
    ensures now == base + Copies(m, c + if pushed then 1 else 0)
  {
  }

  /** Flattening one more list of the table appends that list. */
  lemma FlattenPrefix<T>(lists: seq<seq<T>>, k: nat)
    requires k < |lists|
    ensures Flatten(lists[..k + 1]) == Flatten(lists[..k]) + lists[k]
  {
    FlattenSnoc(lists[..k], lists[k]);
    assert lists[..k + 1] == lists[..k] + [lists[k]];
  }

  /** Pushes for one more list extend a listener's inbox by that list's occurrences. */
  lemma InboxCompose<T>(l: T, m: Message, base: seq<Message>, before: seq<T>, list: seq<T>)
    ensures base + Copies(m, Count(l, before)) + Copies(m, Count(l, list)) ==
            base + Copies(m, Count(l, before + list))
  {
    CountAppend(l, before, list);
    CopiesAdd(m, Count(l, before), Count(l, list));
  }

  lemma {:induction false} CopiesAdd<T>(x: T, a: nat, b: nat)
    ensures Copies(x, a) + Copies(x, b) == Copies(x, a + b)
    decreases b
  {
    if b > 0 {
      CopiesAdd(x, a, b - 1);
      assert Copies(x, a) + Copies(x, b) == (Copies(x, a) + Copies(x, b - 1)) + [x];
    }
  }

  /** One erase of the unsubscribe loop: the shifted-in element is passed over. */
  lemma EraseStep<T>(cur: seq<T>, i: nat, l: T)
    requires i < |cur| && cur[i] == l
    ensures var next := cur[..i] + cur[i + 1..];
      if i + 1 <= |next| then
        next[..i + 1] + EraseSkipping(next[i + 1..], l) == cur[..i] + EraseSkipping(cur[i..], l)
      else
        next == cur[..i] + EraseSkipping(cur[i..], l)
  {
    var next := cur[..i] + cur[i + 1..];
    if i + 1 < |cur| {
      assert cur[i..][2..] == cur[i + 2..];
      assert next[..i + 1] == cur[..i] + [cur[i + 1]];
      assert next[i + 1..] == cur[i + 2..];
    } else {
      assert next == cur[..i];
    }
  }

  /** One non-matching step of the unsubscribe loop. */
  lemma KeepStep<T>(cur: seq<T>, i: nat, l: T)
    requires i < |cur| && cur[i] != l
    ensures cur[..i + 1] + EraseSkipping(cur[i + 1..], l) == cur[..i] + EraseSkipping(cur[i..], l)
  {
    assert cur[i..][1..] == cur[i + 1..];
    assert cur[..i + 1] == cur[..i] + [cur[i]];
  }

  /** The reference counts of the tracked payloads. */
  ghost function CountsOf(ms: seq<Message>): (rc: map<Message, Word>)
    reads set m | m in ms
    ensures forall m | m in ms :: m in rc && rc[m] == m.refCount
  {
    map m | m in ms :: m.refCount
  }

  /** The tracked payloads `Clean` keeps: those still referenced, in order. */
  function Kept(ms: seq<Message>, rc: map<Message, Word>): (r: seq<Message>)
    requires forall m | m in ms :: m in rc
  {
    if ms == [] then []
    else Kept(ms[..|ms| - 1], rc) + (if rc[ms[|ms| - 1]] != 0 then [ms[|ms| - 1]] else [])
  }

  /** The slots `Clean` frees: those of unreferenced tracked payloads. */
  function Reclaimed(ms: seq<Message>, rc: map<Message, Word>): (r: set<nat>)
    requires forall m | m in ms :: m in rc
  {
    set m | m in ms && rc[m] == 0 :: m.slot
  }

  /** `Clean` keeps exactly the referenced payloads, each occurrence once. */
  lemma {:induction false} KeptExactly(ms: seq<Message>, rc: map<Message, Word>, x: Message)
    requires forall m | m in ms :: m in rc
    ensures Count(x, Kept(ms, rc)) == if x in rc && rc[x] != 0 then Count(x, ms) else 0
    decreases |ms|
  {
    if ms != [] {
      var init := ms[..|ms| - 1];
      var last := ms[|ms| - 1];
      assert ms == init + [last];
      KeptExactly(init, rc, x);
      CountAppend(x, init, [last]);
      CountAppend(x, Kept(init, rc), if rc[last] != 0 then [last] else []);
    }
  }

  lemma KeptAt(ms: seq<Message>, rc: map<Message, Word>, k: nat)
    requires k < |ms| && forall m | m in ms :: m in rc
    ensures Kept(ms[..k + 1], rc) == Kept(ms[..k], rc) + (if rc[ms[k]] != 0 then [ms[k]] else [])
    ensures Reclaimed(ms[..k + 1], rc) == Reclaimed(ms[..k], rc) + (if rc[ms[k]] == 0 then {ms[k].slot} else {})
  {
    assert ms[..k + 1][..k] == ms[..k];
    assert ms[..k + 1] == ms[..k] + [ms[k]];
  }

  lemma FirstFreeIsLeast(inUse: seq<bool>, i: nat)
    requires i < |inUse| && !inUse[i] && forall j | 0 <= j < i :: inUse[j]
    ensures FirstFree(inUse) == Some(i)
  {
  }

  lemma FirstFreeNone(inUse: seq<bool>)
    requires forall j | 0 <= j < |inUse| :: inUse[j]
    ensures FirstFree(inUse) == None
  {
  }
}
