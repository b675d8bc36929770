/**
  The group object controller as an object: an ordered map whose values are shared item objects,
  updated in place by its methods. Each method is tied to the function of ControllerSpec that says
  what it does to the registry, the items and the log of visible actions.
 */
module Controller {
  import opened Bits
  import opened Outcomes
  import opened GroupAddress
  import opened OrderedMap
  import opened Tpdu
  import opened Telegram
  import opened ControllerSpec

  /** Models TGroupObjectListItem. The slot numbers items in the order of their creation. */
  class ListItem {
    ghost const slot: nat
    const groupObject: nat
    const itemSettings: Settings
    const pollInterval: nat
    const timeout: nat
    var counter: nat
    var timeoutCounter: nat
    var startTimeoutTimer: bool

    ghost function Value(): ItemValue
      reads this
    {
      ItemValue(groupObject, itemSettings, pollInterval, timeout, counter, timeoutCounter, startTimeoutTimer)
    }

    constructor (ghost slot: nat, groupObject: nat, settings: Settings, tickInterval: int)
      requires tickInterval != 0
      ensures this.slot == slot && Value() == NewItem(groupObject, settings, tickInterval)
    {
      this.slot, this.groupObject, itemSettings := slot, groupObject, settings;
      pollInterval := Ticks(settings.readRequestPollInterval, tickInterval);
      timeout := Ticks(settings.readResponseTimeout, tickInterval);
      counter := Ticks(settings.readRequestPollInterval, tickInterval);
      timeoutCounter, startTimeoutTimer := 0, false;
    }
  }

  /** Models TKnxGroupObjectController. The log records what group objects and the telegram sender see. */
  class GroupObjectController {
    const tickInterval: int
    var groupObjectList: seq<Entry<ListItem>>
    ghost var slots: seq<ListItem>
    ghost var log: seq<Action>

    ghost function Items(): set<ListItem>
      reads this
    {
      set j | 0 <= j < |slots| :: slots[j]
    }

    ghost predicate Valid()
      reads this, Items()
    {
      && tickInterval != 0
      && (forall j :: 0 <= j < |slots| ==> slots[j].slot == j)
      && (forall k :: 0 <= k < |groupObjectList| ==>
            var item := groupObjectList[k].value; item.slot < |slots| && slots[item.slot] == item)
      && Sorted(groupObjectList)
    }

    /** The registry as a value: shared item objects become equal slot numbers. */
    ghost function Snapshot(): State
      reads this, Items()
    {
      State(EntriesOf(groupObjectList),
            seq(|slots|, j requires 0 <= j < |slots| reads this, Items() => slots[j].Value()))
    }

    constructor (tickInterval: int)
      requires tickInterval != 0
      ensures Valid() && this.tickInterval == tickInterval && Snapshot() == State([], []) && log == []
    {
      this.tickInterval, groupObjectList, slots, log := tickInterval, [], [], [];
    }

    lemma SnapshotWellFormed()
      requires Valid()
      ensures WellFormed(Snapshot())
    {
    }

    // ---- Sending ----

    /** Hands a telegram to the telegram sender and returns it, or throws. */
    method Send(ghost cause: Cause, address: Address, apci: byte, payload: seq<byte>) returns (r: Result<TelegramObject>)
      modifies this`log
      ensures match SendResult(address, apci, payload)
              case Ok(telegram) =>
                && r.Ok? && fresh(r.value) && fresh(r.value.mtpdu) && r.value.Valid() && r.value.Value() == telegram
                && log == old(log) + [Transmitted(cause, telegram)]
              case Err(e) => r == Err(e) && log == old(log)
    {
      r := BuildRequest(address, apci, payload);
      if r.Ok? {
        log := log + [Transmitted(cause, r.value.Value())];
      }
    }

    // ---- Registry ----

    method AddGroupObject(groupObject: Option<nat>, settings: Settings) returns (added: bool)
      requires Valid()
      modifies this
      ensures Valid() && fresh(Items() - old(Items()))
      ensures var r := AddResult(old(Snapshot()), groupObject, settings, tickInterval);
              Snapshot() == r.0 && log == old(log) + r.1 && added == r.2
    {
      hide Find, Emplace, NewItem;
      EntriesKeepOrder(groupObjectList, settings.groupAddress);
      if groupObject == None || Find(groupObjectList, settings.groupAddress).Some? {
        return false;
      }
      log := log + [Linked(groupObject.value, settings.groupAddress)];
      var pItem := MakeItem(groupObject.value, settings);
      added := EmplaceItem(settings.groupAddress, pItem);
      if settings.feedbackGroupAddress.Some? && settings.feedbackGroupAddress.value != settings.groupAddress {
        added := EmplaceItem(settings.feedbackGroupAddress.value, pItem);
      }
    }

    /** A fresh shared item, in the next slot. */
    method MakeItem(groupObject: nat, settings: Settings) returns (item: ListItem)
      requires Valid()
      modifies this`slots
      ensures Valid() && fresh(Items() - old(Items()))
      ensures item.slot == |old(slots)| && item.slot < |slots| && slots[item.slot] == item
      ensures Snapshot() == State(old(Snapshot()).entries, old(Snapshot()).items + [NewItem(groupObject, settings, tickInterval)])
    {
      ghost var before := Snapshot();
      item := new ListItem(|slots|, groupObject, settings, tickInterval);
      slots := slots + [item];
      assert Snapshot().items == before.items + [item.Value()];
    }

    /** std::map::emplace of an item that has its slot already. */
    method EmplaceItem(key: Address, item: ListItem) returns (inserted: bool)
      requires Valid() && item.slot < |slots| && slots[item.slot] == item
      modifies this`groupObjectList
      ensures Valid()
      ensures Snapshot() == old(Snapshot()).(entries := Emplace(old(Snapshot()).entries, key, item.slot))
      ensures inserted == Find(old(Snapshot()).entries, key).None?
    {
      EntriesKeepOrder(groupObjectList, key);
      EntriesOfEmplace(groupObjectList, key, item);
      EmplaceKeeps(groupObjectList, key, item);
      inserted := Find(groupObjectList, key).None?;
      groupObjectList := Emplace(groupObjectList, key, item);
    }

    method RemoveGroupObject(address: Address) returns (removed: bool)
      requires Valid()
      modifies this`groupObjectList
      ensures Valid()
      ensures WellFormed(old(Snapshot()))
      ensures (Snapshot(), removed) == RemoveResult(old(Snapshot()), address)
    {
      SnapshotWellFormed();
      EntriesKeepOrder(groupObjectList, address);
      var found := Find(groupObjectList, address);
      if found.None? {
        return false;
      }
      var item := groupObjectList[found.value].value;
      assert Snapshot().items[Snapshot().entries[found.value].value] == item.Value();
      if item.itemSettings.feedbackGroupAddress.Some? {
        EraseKey(item.itemSettings.feedbackGroupAddress.value);
      }
      EraseKey(address);
      removed := true;
    }

    /** std::map::erase of a key. */
    method EraseKey(key: Address)
      requires Valid()
      modifies this`groupObjectList
      ensures Valid()
      ensures Snapshot() == old(Snapshot()).(entries := Erase(old(Snapshot()).entries, key))
    {
      EntriesOfErase(groupObjectList, key);
      EraseSorted(groupObjectList, key);
      groupObjectList := Erase(groupObjectList, key);
    }

    // ---- Notifications ----

    /** Only the item in one slot has changed. */
    twostate lemma OneItemChanged(item: ListItem)
      requires old(Valid()) && old(RegistryFields()) == RegistryFields()
      requires item.slot < |slots| && slots[item.slot] == item
      requires forall o :: o in Items() && o != item ==> o.Value() == old(o.Value())
      ensures Valid()
      ensures Snapshot() == old(Snapshot()).(items := old(Snapshot()).items[item.slot := item.Value()])
    {
      assert Snapshot().items == old(Snapshot()).items[item.slot := item.Value()];
    }

    ghost function RegistryFields(): (seq<Entry<ListItem>>, seq<ListItem>)
      reads this
    {
      (groupObjectList, slots)
    }

    /** One iteration of the loop over the map on a tick. */
    method VisitItem(k: nat)
      requires Valid() && k < |groupObjectList|
      modifies this`log, groupObjectList[k].value
      ensures Valid()
      ensures var e := old(Snapshot()).entries[k];
              && WellFormed(old(Snapshot()))
              && var r := VisitResult(old(Snapshot()).items[e.value], e.value, e.key);
              && Snapshot() == old(Snapshot()).(items := old(Snapshot()).items[e.value := r.0])
              && log == old(log) + r.1
    {
      SnapshotWellFormed();
      var address, item := groupObjectList[k].key, groupObjectList[k].value;
      ghost var before := item.Value();
      if item.timeout != 0 && item.startTimeoutTimer {
        if item.timeoutCounter > 0 {
          item.timeoutCounter := item.timeoutCounter - 1;
        } else {
          item.startTimeoutTimer := false;
          log := log + [TimedOut(item.slot, item.groupObject)];
        }
      }
      assert item.Value() == TimeoutResult(before, item.slot).0;
      assert log == old(log) + TimeoutResult(before, item.slot).1;
      if item.pollInterval != 0 {
        if item.counter > 0 {
          item.counter := item.counter - 1;
        } else {
          item.counter := item.pollInterval;
          var sent := Send(OnPoll(item.slot), address, GROUP_VALUE_READ, [0]);
          item.startTimeoutTimer := true;
          item.timeoutCounter := item.timeout;
        }
      }
      OneItemChanged(item);
    }

    /** Notify for the tick timer's only event, TimeIsUp. */
    method NotifyTick()
      requires Valid()
      modifies this`log, Items()
      ensures Valid() && WellFormed(old(Snapshot()))
      ensures Snapshot() == TickResult(old(Snapshot())).0
      ensures log == old(log) + TickResult(old(Snapshot())).1
    {
      hide VisitResult, Sorted;
      SnapshotWellFormed();
      ghost var before := Snapshot();
      for k := 0 to |groupObjectList|
        invariant Valid() && RegistryFields() == old(RegistryFields())
        invariant Snapshot() == TickUpTo(before, k).0
        invariant log == old(log) + TickUpTo(before, k).1
      {
        VisitItem(k);
      }
    }

    /** The start-up reads. */
    method SendStartReads()
      requires Valid()
      modifies this`log
      ensures Valid() && WellFormed(Snapshot()) && Snapshot() == old(Snapshot())
      ensures log == old(log) + ConnectReads(old(Snapshot()), |old(Snapshot()).entries|)
    {
      hide Sorted, SendResult;
      SnapshotWellFormed();
      ghost var s := Snapshot();
      for k := 0 to |groupObjectList|
        invariant Valid() && Snapshot() == s
        invariant log == old(log) + ConnectReads(s, k)
      {
        assert s.items[s.entries[k].value] == groupObjectList[k].value.Value();
        if groupObjectList[k].value.itemSettings.readRequestAfterStart {
          ReadRequestSent(groupObjectList[k].key);
          var sent := Send(OnConnect(groupObjectList[k].value.slot), groupObjectList[k].key, GROUP_VALUE_READ, [0]);
        }
      }
    }

    method SignalAll(event: KnxEvent)
      requires Valid()
      modifies this`log
      ensures Valid() && WellFormed(Snapshot()) && Snapshot() == old(Snapshot())
      ensures log == old(log) + Signals(old(Snapshot()), event, |old(Snapshot()).entries|)
    {
      hide Sorted;
      SnapshotWellFormed();
      ghost var s := Snapshot();
      for k := 0 to |groupObjectList|
        invariant Valid() && Snapshot() == s
        invariant log == old(log) + Signals(s, event, k)
      {
        assert s.items[s.entries[k].value] == groupObjectList[k].value.Value();
        log := log + [Signalled(groupObjectList[k].value.slot, groupObjectList[k].value.groupObject, event)];
      }
    }

    method Dispatch(knxTelegram: TelegramObject)
      requires Valid() && knxTelegram.Valid()
      modifies this`log, Items()
      ensures Valid() && WellFormed(old(Snapshot()))
      ensures var r := DispatchResult(old(Snapshot()), old(knxTelegram.Value()));
              Snapshot() == r.0 && log == old(log) + r.1
    {
      SnapshotWellFormed();
      ghost var telegram := knxTelegram.Value();
      if !knxTelegram.isReceiverAddressGrouped {
        return;
      }
      var address := OfEib(knxTelegram.receiverAddress);
      EntriesKeepOrder(groupObjectList, address);
      var found := Find(groupObjectList, address);
      if found.None? {
        return;
      }
      var item := groupObjectList[found.value].value;
      ghost var before := Snapshot();
      assert before.items[before.entries[found.value].value] == item.Value();
      var apci := knxTelegram.mtpdu.apci;
      if apci == GROUP_VALUE_RESPONSE {
        item.startTimeoutTimer := false;
      }
      log := log + [Delivered(item.slot, item.groupObject, address, apci, knxTelegram.mtpdu.apduPayload)];
      OneItemChanged(item);
      assert before.items[item.slot := before.items[item.slot]] == before.items;
    }

    /** Notify for an event of the client service. */
    method NotifyEvent(event: KnxEvent, knxTelegram: TelegramObject)
      requires Valid() && knxTelegram.Valid()
      modifies this`log, Items()
      ensures Valid() && WellFormed(old(Snapshot()))
      ensures var r := NotifyResult(old(Snapshot()), event, old(knxTelegram.Value()));
              Snapshot() == r.0 && log == old(log) + r.1
    {
      hide ConnectReads, Signals, DispatchResult;
      if event == KnxdSocketConnected {
        SendStartReads();
      }
      SignalAll(event);
      Dispatch(knxTelegram);
    }
  }

  /** The telegram that Send fills in and hands to the telegram sender. */
  method BuildRequest(address: Address, apci: byte, payload: seq<byte>) returns (r: Result<TelegramObject>)
    ensures match SendResult(address, apci, payload)
            case Ok(telegram) =>
              r.Ok? && fresh(r.value) && fresh(r.value.mtpdu) && r.value.Valid() && r.value.Value() == telegram
            case Err(e) => r == Err(e)
  {
    var knxTelegram := new TelegramObject();
    knxTelegram.SetGroupAddressedFlag(true);
    knxTelegram.SetReceiverAddress(Eib(address));
    var done := knxTelegram.mtpdu.SetCommunicationType(UDP);
    done := knxTelegram.mtpdu.SetApci(apci);
    if done.Failed? {
      return Err(done.error);
    }
    done := knxTelegram.mtpdu.SetPayload(payload);
    if done.Failed? {
      return Err(done.error);
    }
    r := Ok(knxTelegram);
  }

  lemma ReadRequestSent(address: Address)
    ensures SendResult(address, GROUP_VALUE_READ, [0]) == Ok(ReadRequest(address))
  {
  }

  ghost function EntriesOf(list: seq<Entry<ListItem>>): (entries: seq<Entry<nat>>)
    ensures |entries| == |list|
  {
    seq(|list|, k requires 0 <= k < |list| => Entry(list[k].key, list[k].value.slot))
  }

  lemma {:induction false} EntriesKeepOrder(list: seq<Entry<ListItem>>, key: Address)
    ensures LowerBound(EntriesOf(list), key) == LowerBound(list, key)
    ensures Find(EntriesOf(list), key) == Find(list, key)
  {
    if list != [] {
      EntriesKeepOrder(list[1..], key);
      assert EntriesOf(list)[1..] == EntriesOf(list[1..]);
    }
  }

  /** Emplace keeps the order and adds no element but the new one. */
  lemma EmplaceKeeps(list: seq<Entry<ListItem>>, key: Address, item: ListItem)
    requires Sorted(list)
    ensures Sorted(Emplace(list, key, item))
    ensures forall k :: 0 <= k < |Emplace(list, key, item)| ==>
              Emplace(list, key, item)[k] in list || Emplace(list, key, item)[k].value == item
  {
    FindExactly(list, key);
    if Find(list, key).None? {
      EmplaceNew(list, key, item);
    }
  }

  lemma EntriesOfEmplace(list: seq<Entry<ListItem>>, key: Address, item: ListItem)
    ensures EntriesOf(Emplace(list, key, item)) == Emplace(EntriesOf(list), key, item.slot)
  {
    EntriesKeepOrder(list, key);
  }

  lemma EntriesOfErase(list: seq<Entry<ListItem>>, key: Address)
    ensures EntriesOf(Erase(list, key)) == Erase(EntriesOf(list), key)
  {
    EntriesKeepOrder(list, key);
  }
}
