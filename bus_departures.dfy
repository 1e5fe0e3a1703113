/**
 * Small runs of the bus that make its departures from its own documentation
 * visible: slot reuse, never-reclaimed payloads and type-blind delivery.
 */
module BusDepartures {
  import opened Wrappers
  import opened Text
  import opened BusLists
  import opened MessageBus

  /**
   * Two sends on a fresh two-slot bus both take slot 0, because allocation
   * never marks a slot occupied: the second payload overwrites the first,
   * slot 0 stays free and nothing is tracked for `Clean`.
   */
  method SendsReuseSlotZero() returns (first: Outcome<BusError>, second: Outcome<BusError>,
                                       slot0Type: nat, slot0Free: bool, tracked: nat)
    ensures first == Pass && second == Pass
    ensures slot0Type == 2 && slot0Free && tracked == 0
  {
    var bus := new Bus(16, 2);
    assert bus.inUse[..] == [false, false];
    first := bus.SendMessage(1, 8);
    second := bus.SendMessage(2, 8);
    slot0Type := bus.slots[0].typeID;
    slot0Free := !bus.inUse[0];
    tracked := |bus.messages|;
  }

  /**
   * A payload nobody references is still not reclaimed by `Clean`: it was
   * never added to the tracked list, so its slot keeps the payload's type.
   */
  method CleanMissesSentPayload() returns (refCount: nat, slot0Type: nat)
    ensures refCount == 0 && slot0Type == 7
  {
    var bus := new Bus(16, 1);
    assert bus.inUse[..] == [false];
    var o := bus.SendMessage(7, 8);
    assert Flatten(bus.lists) == [] by {
      var none: seq<seq<Listener>> := [];
      FlattenSnoc(none, []);
      assert bus.lists == none + [[]];
    }
    bus.Clean();
    refCount := bus.slots[0].refCount;
    slot0Type := bus.slots[0].typeID;
  }

  /**
   * A listener subscribed only to type 1 still receives a payload of type 2,
   * because fan-out pushes to every listener list whatever the type.
   */
  method DeliveryIgnoresType() returns (subscribed: set<nat>, received: seq<Message>)
    ensures subscribed == {1}
    ensures |received| == 1 && received[0].typeID == 2
  {
    var bus := new Bus(16, 1);
    assert bus.inUse[..] == [false];
    var l := new Listener();
    l.Init(bus);
    var _ := l.Subscribe(1);
    assert |bus.lists| == 2 && bus.lists[0] == [] && bus.lists[1] == [l];
    assert bus.lists == [[], [l]];
    assert Flatten(bus.lists) == [l] by {
      var none: seq<seq<Listener>> := [];
      FlattenSnoc(none, []);
      FlattenSnoc([[]], [l]);
      assert bus.lists == [[]] + [[l]];
      assert [[]] == none + [[]];
    }
    assert l in bus.Members() by { assert bus.lists[1][0] == l; }
    var o := bus.SendMessage(2, 8);
    subscribed := l.subscriptions;
    received := l.inbox;
  }
}
