/**
  The group object controller on values: what each of its operations does to the registry and to
  the items behind it, and what it lets the outside see. Models
  src/knxgroupobjectcontroller.cpp; an item shared by two keys is one slot that two entries name.
 */
module ControllerSpec {
  import opened Bits
  import opened Outcomes
  import opened GroupAddress
  import opened OrderedMap
  import opened Tpdu
  import opened Telegram

  const UINT32_LIMIT: nat := 0x1_0000_0000

  /** Times are in milliseconds. */
  datatype Settings = Settings(
    groupAddress: Address,
    feedbackGroupAddress: Option<Address>,
    readRequestAfterStart: bool,
    readRequestPollInterval: int,
    readResponseTimeout: int)

  datatype ItemValue = ItemValue(
    groupObject: nat,
    settings: Settings,
    pollInterval: nat,
    timeout: nat,
    counter: nat,
    timeoutCounter: nat,
    startTimeoutTimer: bool)

  datatype KnxEvent = NoEvent | ReceivedTelegram | KnxdSocketConnected | KnxdSocketError | PollReadTimeoutError

  /** Why a telegram was sent; the slot is the item on whose behalf. */
  datatype Cause = OnConnect(slot: nat) | OnPoll(slot: nat) | OnRequest

  /** What group objects and the telegram sender see. */
  datatype Action =
    | Linked(groupObject: nat, address: Address)
    | Transmitted(cause: Cause, telegram: TelegramValue)
    | Signalled(slot: nat, groupObject: nat, event: KnxEvent)
    | TimedOut(slot: nat, groupObject: nat)  // the controller's own PollReadTimeoutError
    | Delivered(slot: nat, groupObject: nat, address: Address, apci: byte, payload: seq<byte>)

  datatype State = State(entries: seq<Entry<nat>>, items: seq<ItemValue>)

  predicate WellFormed(s: State)
  {
    Sorted(s.entries) && forall i :: 0 <= i < |s.entries| ==> s.entries[i].value < |s.items|
  }

  // ---- Send ----

  function RequestTelegram(address: Address, apci: byte, payload: seq<byte>): TelegramValue
    requires PayloadAccepted(payload)
  {
    FRESH_TELEGRAM.(receiver := Eib(address), grouped := true,
                    tpdu := FRESH_TPDU.(apci := apci, payload := Stored(payload)))
  }

  function SendResult(address: Address, apci: byte, payload: seq<byte>): Result<TelegramValue>
  {
    if apci > ESCAPE then Err(ApciIncorrect)
    else if !PayloadAccepted(payload) then Err(PayloadSizeIncorrect)
    else Ok(RequestTelegram(address, apci, payload))
  }

  function ReadRequest(address: Address): TelegramValue
  {
    RequestTelegram(address, GROUP_VALUE_READ, [0])
  }

  // ---- Add and remove ----

  /** Integer division of chrono counts: towards zero. */
  function TruncatedQuotient(a: int, b: int): int
    requires b != 0
  {
    if a >= 0 then a / b else -(-a / b)
  }

  /** The quotient of a negative duration is rounded up, of any other down. */
  lemma QuotientTruncates(a: int, b: int)
    requires b > 0
    ensures var q := TruncatedQuotient(a, b);
            if a >= 0 then q * b <= a < q * b + b else q * b - b < a <= q * b
  {
    var m := if a >= 0 then a else -a;
    assert m == b * (m / b) + m % b;
  }

  /** A duration in ticks, cast to 32 bits. */
  function Ticks(duration: int, tickInterval: int): (n: nat)
    requires tickInterval != 0
    ensures n < UINT32_LIMIT
  {
    TruncatedQuotient(duration, tickInterval) % UINT32_LIMIT
  }

  function NewItem(groupObject: nat, settings: Settings, tickInterval: int): ItemValue
    requires tickInterval != 0
  {
    var poll := Ticks(settings.readRequestPollInterval, tickInterval);
    ItemValue(groupObject, settings, poll, Ticks(settings.readResponseTimeout, tickInterval), poll, 0, false)
  }

  function AddResult(s: State, groupObject: Option<nat>, settings: Settings, tickInterval: int): (State, seq<Action>, bool)
    requires tickInterval != 0
  {
    var primary := settings.groupAddress;
    if groupObject == None || Find(s.entries, primary).Some? then (s, [], false)
    else
      var slot := |s.items|;
      var items := s.items + [NewItem(groupObject.value, settings, tickInterval)];
      var linked := [Linked(groupObject.value, primary)];
      var entries := Emplace(s.entries, primary, slot);
      match settings.feedbackGroupAddress
      case None => (State(entries, items), linked, true)
      case Some(feedback) =>
        if feedback == primary then (State(entries, items), linked, true)
        else (State(Emplace(entries, feedback, slot), items), linked, Find(entries, feedback).None?)
  }

  function RemoveResult(s: State, address: Address): (State, bool)
    requires WellFormed(s)
  {
    match Find(s.entries, address)
    case None => (s, false)
    case Some(i) =>
      var entries :=
        match s.items[s.entries[i].value].settings.feedbackGroupAddress
        case None => s.entries
        case Some(feedback) => Erase(s.entries, feedback);
      (s.(entries := Erase(entries, address)), true)
  }

  // ---- Events and telegrams ----

  function ConnectReads(s: State, n: nat): seq<Action>
    requires WellFormed(s) && n <= |s.entries|
  {
    if n == 0 then []
    else
      var e := s.entries[n - 1];
      ConnectReads(s, n - 1) +
      (if s.items[e.value].settings.readRequestAfterStart then [Transmitted(OnConnect(e.value), ReadRequest(e.key))] else [])
  }

  function Signals(s: State, event: KnxEvent, n: nat): seq<Action>
    requires WellFormed(s) && n <= |s.entries|
  {
    if n == 0 then []
    else
      var slot := s.entries[n - 1].value;
      Signals(s, event, n - 1) + [Signalled(slot, s.items[slot].groupObject, event)]
  }

  /** The position of the entry that a telegram is for. */
  function Target(s: State, telegram: TelegramValue): Option<nat>
    requires telegram.receiver < UINT16_LIMIT
  {
    if telegram.grouped then Find(s.entries, OfEib(telegram.receiver)) else None
  }

  function DispatchResult(s: State, telegram: TelegramValue): (State, seq<Action>)
    requires WellFormed(s) && telegram.receiver < UINT16_LIMIT
  {
    match Target(s, telegram)
    case None => (s, [])
    case Some(i) =>
      var slot := s.entries[i].value;
      var item := s.items[slot];
      var items := if telegram.tpdu.apci == GROUP_VALUE_RESPONSE then s.items[slot := item.(startTimeoutTimer := false)]
                   else s.items;
      (s.(items := items),
       [Delivered(slot, item.groupObject, OfEib(telegram.receiver), telegram.tpdu.apci, telegram.tpdu.payload)])
  }

  function NotifyResult(s: State, event: KnxEvent, telegram: TelegramValue): (State, seq<Action>)
    requires WellFormed(s) && telegram.receiver < UINT16_LIMIT
  {
    var startReads := if event == KnxdSocketConnected then ConnectReads(s, |s.entries|) else [];
    var dispatched := DispatchResult(s, telegram);
    (dispatched.0, startReads + Signals(s, event, |s.entries|) + dispatched.1)
  }

  // ---- Ticks ----

  /** The timeout half of a visit. */
  function TimeoutResult(item: ItemValue, slot: nat): (ItemValue, seq<Action>)
  {
    if item.timeout != 0 && item.startTimeoutTimer then
      if item.timeoutCounter > 0 then (item.(timeoutCounter := item.timeoutCounter - 1), [])
      else (item.(startTimeoutTimer := false), [TimedOut(slot, item.groupObject)])
    else (item, [])
  }

  /** The poll half of a visit. */
  function PollResult(item: ItemValue, slot: nat, key: Address): (ItemValue, seq<Action>)
  {
    if item.pollInterval != 0 then
      if item.counter > 0 then (item.(counter := item.counter - 1), [])
      else (item.(counter := item.pollInterval, startTimeoutTimer := true, timeoutCounter := item.timeout),
            [Transmitted(OnPoll(slot), ReadRequest(key))])
    else (item, [])
  }

  /** One loop iteration of a tick, for one key of the item. */
  function VisitResult(item: ItemValue, slot: nat, key: Address): (ItemValue, seq<Action>)
  {
    var afterTimeout := TimeoutResult(item, slot);
    var afterPoll := PollResult(afterTimeout.0, slot, key);
    (afterPoll.0, afterTimeout.1 + afterPoll.1)
  }

  /** The first n iterations of a tick. */
  function TickUpTo(s: State, n: nat): (r: (State, seq<Action>))
    requires WellFormed(s) && n <= |s.entries|
    ensures WellFormed(r.0) && r.0.entries == s.entries && |r.0.items| == |s.items|
  {
    if n == 0 then (s, [])
    else
      var before := TickUpTo(s, n - 1);
      var e := s.entries[n - 1];
      var visited := VisitResult(before.0.items[e.value], e.value, e.key);
      (before.0.(items := before.0.items[e.value := visited.0]), before.1 + visited.1)
  }

  function TickResult(s: State): (State, seq<Action>)
    requires WellFormed(s)
  {
    TickUpTo(s, |s.entries|)
  }

  // ---- Each operation keeps the registry well formed ----

  lemma EmplaceWellFormed(entries: seq<Entry<nat>>, key: Address, slot: nat, count: nat)
    requires Sorted(entries) && slot < count
    requires forall i :: 0 <= i < |entries| ==> entries[i].value < count
    ensures Sorted(Emplace(entries, key, slot))
    ensures forall i :: 0 <= i < |Emplace(entries, key, slot)| ==> Emplace(entries, key, slot)[i].value < count
  {
    FindExactly(entries, key);
    if Find(entries, key).None? {
      EmplaceNew(entries, key, slot);
    }
  }

  lemma AddWellFormed(s: State, groupObject: Option<nat>, settings: Settings, tickInterval: int)
    requires WellFormed(s) && tickInterval != 0
    ensures WellFormed(AddResult(s, groupObject, settings, tickInterval).0)
  {
    var slot, count := |s.items|, |s.items| + 1;
    EmplaceWellFormed(s.entries, settings.groupAddress, slot, count);
    if settings.feedbackGroupAddress.Some? {
      EmplaceWellFormed(Emplace(s.entries, settings.groupAddress, slot), settings.feedbackGroupAddress.value, slot, count);
    }
  }

  lemma EraseWellFormed(entries: seq<Entry<nat>>, key: Address, count: nat)
    requires Sorted(entries)
    requires forall i :: 0 <= i < |entries| ==> entries[i].value < count
    ensures Sorted(Erase(entries, key))
    ensures forall i :: 0 <= i < |Erase(entries, key)| ==> Erase(entries, key)[i].value < count
  {
    EraseSorted(entries, key);
  }

  lemma RemoveWellFormed(s: State, address: Address)
    requires WellFormed(s)
    ensures WellFormed(RemoveResult(s, address).0)
  {
    if Find(s.entries, address).Some? {
      var item := s.items[s.entries[Find(s.entries, address).value].value];
      EraseWellFormed(s.entries, address, |s.items|);
      if item.settings.feedbackGroupAddress.Some? {
        EraseWellFormed(s.entries, item.settings.feedbackGroupAddress.value, |s.items|);
        EraseWellFormed(Erase(s.entries, item.settings.feedbackGroupAddress.value), address, |s.items|);
      }
    }
  }
}
