/**
  Whole runs of the controller: any sequence of ticks, client events with their telegrams, and
  changes of the registry. A run is shown to be, for each item, a history of visits and answers,
  so that what is known of one item's timers holds in every run.
 */
module ControllerRuns {
  import opened Bits
  import opened Outcomes
  import opened GroupAddress
  import opened OrderedMap
  import opened Tpdu
  import opened Telegram
  import opened ControllerSpec
  import opened ItemTimers

  datatype Step =
    | Tick
    | Bus(event: KnxEvent, telegram: TelegramValue)
    | Add(groupObject: Option<nat>, settings: Settings)
    | Remove(address: Address)

  /** A received telegram carries a 16-bit address. */
  predicate Possible(step: Step)
  {
    step.Bus? ==> step.telegram.receiver < UINT16_LIMIT
  }

  function StepResult(s: State, step: Step, tickInterval: int): (r: (State, seq<Action>))
    requires WellFormed(s) && Possible(step) && tickInterval != 0
    ensures WellFormed(r.0)
  {
    match step
    case Tick => TickResult(s)
    case Bus(event, telegram) => NotifyResult(s, event, telegram)
    case Add(groupObject, settings) =>
      AddWellFormed(s, groupObject, settings, tickInterval);
      var r := AddResult(s, groupObject, settings, tickInterval);
      (r.0, r.1)
    case Remove(address) =>
      RemoveWellFormed(s, address);
      (RemoveResult(s, address).0, [])
  }

  predicate AllPossible(steps: seq<Step>)
  {
    forall i :: 0 <= i < |steps| ==> Possible(steps[i])
  }

  function RunResult(s: State, steps: seq<Step>, tickInterval: int): (r: (State, seq<Action>))
    requires WellFormed(s) && AllPossible(steps) && tickInterval != 0
    ensures WellFormed(r.0)
  {
    if steps == [] then (s, [])
    else
      var before := RunResult(s, steps[..|steps| - 1], tickInterval);
      var last := StepResult(before.0, steps[|steps| - 1], tickInterval);
      (last.0, before.1 + last.1)
  }

  // ---- The history of one item ----

  function TickTrace(s: State, slot: nat, n: nat): seq<ItemEvent>
    requires n <= |s.entries|
  {
    if n == 0 then []
    else TickTrace(s, slot, n - 1) + (if s.entries[n - 1].value == slot then [Visit(s.entries[n - 1].key)] else [])
  }

  /** Whether the telegram is a response to an address under which the item is registered. */
  predicate Answers(s: State, telegram: TelegramValue, slot: nat)
    requires WellFormed(s) && telegram.receiver < UINT16_LIMIT
  {
    && telegram.tpdu.apci == GROUP_VALUE_RESPONSE
    && Target(s, telegram).Some?
    && s.entries[Target(s, telegram).value].value == slot
  }

  function StepTrace(s: State, step: Step, slot: nat): seq<ItemEvent>
    requires WellFormed(s) && Possible(step)
  {
    match step
    case Tick => TickTrace(s, slot, |s.entries|)
    case Bus(_, telegram) => if Answers(s, telegram, slot) then [Answer] else []
    case Add(_, _) => []
    case Remove(_) => []
  }

  function RunTrace(s: State, steps: seq<Step>, tickInterval: int, slot: nat): seq<ItemEvent>
    requires WellFormed(s) && AllPossible(steps) && tickInterval != 0
  {
    if steps == [] then []
    else
      var init := steps[..|steps| - 1];
      RunTrace(s, init, tickInterval, slot) + StepTrace(RunResult(s, init, tickInterval).0, steps[|steps| - 1], slot)
  }

  // ---- The item's share of the log ----

  /** Poll reads and timeouts of one item. */
  predicate TimerActionOf(a: Action, slot: nat)
  {
    (a.TimedOut? && a.slot == slot) || (a.Transmitted? && a.cause == OnPoll(slot))
  }

  function TimerActions(actions: seq<Action>, slot: nat): seq<Action>
  {
    if actions == [] then []
    else
      var last := actions[|actions| - 1];
      TimerActions(actions[..|actions| - 1], slot) + (if TimerActionOf(last, slot) then [last] else [])
  }

  lemma {:induction false} TimerActionsConcat(a: seq<Action>, b: seq<Action>, slot: nat)
    ensures TimerActions(a + b, slot) == TimerActions(a, slot) + TimerActions(b, slot)
  {
    if b == [] {
      assert a + b == a;
    } else {
      TimerActionsConcat(a, b[..|b| - 1], slot);
      assert (a + b)[..|a + b| - 1] == a + b[..|b| - 1];
    }
  }

  lemma {:induction false} AllOrNothing(actions: seq<Action>, slot: nat)
    ensures (forall i :: 0 <= i < |actions| ==> TimerActionOf(actions[i], slot)) ==> TimerActions(actions, slot) == actions
    ensures (forall i :: 0 <= i < |actions| ==> !TimerActionOf(actions[i], slot)) ==> TimerActions(actions, slot) == []
  {
    if actions != [] {
      AllOrNothing(actions[..|actions| - 1], slot);
    }
  }

  lemma VisitActions(item: ItemValue, slot: nat, key: Address, other: nat)
    ensures TimerActions(VisitResult(item, slot, key).1, other)
            == if slot == other then VisitResult(item, slot, key).1 else []
  {
    VisitOwn(item, slot, key, other);
    hide VisitResult, TimerActions;
    AllOrNothing(VisitResult(item, slot, key).1, other);
  }

  lemma VisitOwn(item: ItemValue, slot: nat, key: Address, other: nat)
    ensures forall i :: 0 <= i < |VisitResult(item, slot, key).1| ==>
              (TimerActionOf(VisitResult(item, slot, key).1[i], other) <==> slot == other)
  {
    hide ReadRequest;
  }

  // ---- Each step acts on an item as its events do ----

  lemma {:induction false} AppendEvents(item: ItemValue, slot: nat, a: seq<ItemEvent>, b: seq<ItemEvent>)
    ensures AfterEvents(item, slot, a + b) == AfterEvents(AfterEvents(item, slot, a), slot, b)
    ensures AllActions(item, slot, a + b) == AllActions(item, slot, a) + AllActions(AfterEvents(item, slot, a), slot, b)
  {
    hide AfterEvent, EventActions;
    if b == [] {
      assert a + b == a;
    } else {
      var n := |b| - 1;
      assert (a + b)[|a + b| - 1] == b[n];
      AppendEvents(item, slot, a, b[..|b| - 1]);
      assert (a + b)[..|a + b| - 1] == a + b[..|b| - 1];
    }
  }

  /** The log and the final state of the item are those of its history. */
  predicate Follows(before: State, after: State, actions: seq<Action>, slot: nat, es: seq<ItemEvent>)
    requires slot < |before.items| && slot < |after.items|
  {
    && after.items[slot] == AfterEvents(before.items[slot], slot, es)
    && TimerActions(actions, slot) == AllActions(before.items[slot], slot, es)
  }

  lemma FollowsInTurn(s: State, s1: State, s2: State, a: seq<Action>, b: seq<Action>, slot: nat,
                      es: seq<ItemEvent>, fs: seq<ItemEvent>)
    requires slot < |s.items| && slot < |s1.items| && slot < |s2.items|
    requires Follows(s, s1, a, slot, es) && Follows(s1, s2, b, slot, fs)
    ensures Follows(s, s2, a + b, slot, es + fs)
  {
    AppendEvents(s.items[slot], slot, es, fs);
    TimerActionsConcat(a, b, slot);
  }

  lemma SingleVisit(s: State, after: State, actions: seq<Action>, e: Entry<nat>, slot: nat)
    requires e.value < |s.items| && slot < |s.items|
    requires var r := VisitResult(s.items[e.value], e.value, e.key);
             after == s.(items := s.items[e.value := r.0]) && actions == r.1
    ensures Follows(s, after, actions, slot, if e.value == slot then [Visit(e.key)] else [])
  {
    VisitActions(s.items[e.value], e.value, e.key, slot);
    if e.value == slot {
      assert [Visit(e.key)][..0] == [];
      var item := s.items[slot];
      assert AfterEvents(item, slot, []) == item;
      assert AllActions(item, slot, [Visit(e.key)]) == [] + VisitResult(item, slot, e.key).1;
    }
  }

  lemma TickNext(s: State, slot: nat, n: nat)
    requires WellFormed(s) && slot < |s.items| && 0 < n <= |s.entries|
    ensures s.entries[n - 1].value < |s.items|
    ensures var before, e := TickUpTo(s, n - 1), s.entries[n - 1];
            var visited := VisitResult(before.0.items[e.value], e.value, e.key);
            && TickUpTo(s, n) == (before.0.(items := before.0.items[e.value := visited.0]), before.1 + visited.1)
            && TickTrace(s, slot, n) == TickTrace(s, slot, n - 1) + (if e.value == slot then [Visit(e.key)] else [])
  {
    hide VisitResult;
  }

  lemma NoTickFollows(s: State, slot: nat)
    requires WellFormed(s) && slot < |s.items|
    ensures Follows(s, TickUpTo(s, 0).0, TickUpTo(s, 0).1, slot, TickTrace(s, slot, 0))
  {
    NothingFollows(s, s, [], slot);
  }

  lemma {:induction false} TickFollows(s: State, slot: nat, n: nat)
    requires WellFormed(s) && slot < |s.items| && n <= |s.entries|
    ensures Follows(s, TickUpTo(s, n).0, TickUpTo(s, n).1, slot, TickTrace(s, slot, n))
  {
    hide *;
    if n == 0 {
      NoTickFollows(s, slot);
    } else {
      TickFollows(s, slot, n - 1);
      TickNext(s, slot, n);
      var before, e := TickUpTo(s, n - 1), s.entries[n - 1];
      var visited := VisitResult(before.0.items[e.value], e.value, e.key);
      var after := before.0.(items := before.0.items[e.value := visited.0]);
      SingleVisit(before.0, after, visited.1, e, slot);
      FollowsInTurn(s, before.0, after, before.1, visited.1, slot, TickTrace(s, slot, n - 1),
                    if e.value == slot then [Visit(e.key)] else []);
    }
  }

  lemma {:induction false} ConnectReadsSilent(s: State, n: nat, slot: nat)
    requires WellFormed(s) && n <= |s.entries|
    ensures TimerActions(ConnectReads(s, n), slot) == []
  {
    AllOrNothing([], slot);
    hide ReadRequest, TimerActions, Sorted;
    if n > 0 {
      ConnectReadsSilent(s, n - 1, slot);
      var e := s.entries[n - 1];
      var read := if s.items[e.value].settings.readRequestAfterStart
                  then [Transmitted(OnConnect(e.value), ReadRequest(e.key))] else [];
      TimerActionsConcat(ConnectReads(s, n - 1), read, slot);
      AllOrNothing(read, slot);
    }
  }

  lemma {:induction false} SignalsSilent(s: State, event: KnxEvent, n: nat, slot: nat)
    requires WellFormed(s) && n <= |s.entries|
    ensures TimerActions(Signals(s, event, n), slot) == []
  {
    if n > 0 {
      SignalsSilent(s, event, n - 1, slot);
      var other := s.entries[n - 1].value;
      var signal := [Signalled(other, s.items[other].groupObject, event)];
      TimerActionsConcat(Signals(s, event, n - 1), signal, slot);
      AllOrNothing(signal, slot);
    }
  }

  lemma DispatchFollows(s: State, telegram: TelegramValue, slot: nat)
    requires WellFormed(s) && telegram.receiver < UINT16_LIMIT && slot < |s.items|
    ensures var r := DispatchResult(s, telegram);
            Follows(s, r.0, r.1, slot, if Answers(s, telegram, slot) then [Answer] else [])
  {
    var r := DispatchResult(s, telegram);
    AllOrNothing(r.1, slot);
    assert [Answer][..0] == [];
    var item := s.items[slot];
    assert AfterEvents(item, slot, []) == item;
    assert AfterEvents(item, slot, [Answer]) == AfterEvent(item, slot, Answer);
    assert AllActions(item, slot, [Answer]) == [] + [];
  }

  lemma BusFollows(s: State, event: KnxEvent, telegram: TelegramValue, slot: nat)
    requires WellFormed(s) && telegram.receiver < UINT16_LIMIT && slot < |s.items|
    ensures var r := NotifyResult(s, event, telegram);
            Follows(s, r.0, r.1, slot, if Answers(s, telegram, slot) then [Answer] else [])
  {
    hide Answers, DispatchResult;
    var startReads := if event == KnxdSocketConnected then ConnectReads(s, |s.entries|) else [];
    var signals, dispatched := Signals(s, event, |s.entries|), DispatchResult(s, telegram);
    ConnectReadsSilent(s, |s.entries|, slot);
    SignalsSilent(s, event, |s.entries|, slot);
    TimerActionsConcat(startReads, signals, slot);
    TimerActionsConcat(startReads + signals, dispatched.1, slot);
    DispatchFollows(s, telegram, slot);
  }

  lemma NothingFollows(s: State, after: State, actions: seq<Action>, slot: nat)
    requires slot < |s.items| && slot < |after.items| && after.items[slot] == s.items[slot]
    requires forall i :: 0 <= i < |actions| ==> actions[i].Linked?
    ensures Follows(s, after, actions, slot, [])
  {
    AllOrNothing(actions, slot);
  }

  lemma StepFollows(s: State, step: Step, tickInterval: int, slot: nat)
    requires WellFormed(s) && Possible(step) && tickInterval != 0 && slot < |s.items|
    ensures var r := StepResult(s, step, tickInterval);
            slot < |r.0.items| && Follows(s, r.0, r.1, slot, StepTrace(s, step, slot))
  {
    hide Follows;
    var r := StepResult(s, step, tickInterval);
    match step
    case Tick => TickFollows(s, slot, |s.entries|);
    case Bus(event, telegram) => BusFollows(s, event, telegram, slot);
    case Add(_, _) => NothingFollows(s, r.0, r.1, slot);
    case Remove(_) => NothingFollows(s, r.0, r.1, slot);
  }

  /**
    In every run, each item and its share of the log are determined by the item's own history of
    visits and answers alone.
   */
  lemma {:induction false} RunFollows(s: State, steps: seq<Step>, tickInterval: int, slot: nat)
    requires WellFormed(s) && AllPossible(steps) && tickInterval != 0 && slot < |s.items|
    ensures var r := RunResult(s, steps, tickInterval);
            slot < |r.0.items| && Follows(s, r.0, r.1, slot, RunTrace(s, steps, tickInterval, slot))
  {
    if steps == [] {
      NothingFollows(s, s, [], slot);
    } else {
      hide Follows;
      var init, last := steps[..|steps| - 1], steps[|steps| - 1];
      RunFollows(s, init, tickInterval, slot);
      var before := RunResult(s, init, tickInterval);
      StepFollows(before.0, last, tickInterval, slot);
      var after := StepResult(before.0, last, tickInterval);
      FollowsInTurn(s, before.0, after.0, before.1, after.1, slot,
                    RunTrace(s, init, tickInterval, slot), StepTrace(before.0, last, slot));
    }
  }

  // ---- Poll conservation ----

  function KeyCount(s: State, slot: nat, n: nat): nat
    requires n <= |s.entries|
  {
    if n == 0 then 0 else KeyCount(s, slot, n - 1) + (if s.entries[n - 1].value == slot then 1 else 0)
  }

  function TickCount(steps: seq<Step>): nat
  {
    if steps == [] then 0 else TickCount(steps[..|steps| - 1]) + (if steps[|steps| - 1].Tick? then 1 else 0)
  }

  predicate RegistryUntouched(steps: seq<Step>)
  {
    forall i :: 0 <= i < |steps| ==> steps[i].Tick? || steps[i].Bus?
  }

  lemma {:induction false} VisitsConcat(a: seq<ItemEvent>, b: seq<ItemEvent>)
    ensures Visits(a + b) == Visits(a) + Visits(b)
  {
    VisitsSplit(a + b, |a|);
    assert (a + b)[..|a|] == a && (a + b)[|a|..] == b;
  }

  lemma {:induction false} VisitsPerTick(s: State, slot: nat, n: nat)
    requires n <= |s.entries|
    ensures Visits(TickTrace(s, slot, n)) == KeyCount(s, slot, n)
  {
    if n > 0 {
      VisitsPerTick(s, slot, n - 1);
      var e := s.entries[n - 1];
      VisitsConcat(TickTrace(s, slot, n - 1), if e.value == slot then [Visit(e.key)] else []);
    }
  }

  lemma {:induction false} SameEntriesSameCount(s: State, t: State, slot: nat, n: nat)
    requires s.entries == t.entries && n <= |s.entries|
    ensures KeyCount(s, slot, n) == KeyCount(t, slot, n)
  {
    if n > 0 {
      SameEntriesSameCount(s, t, slot, n - 1);
    }
  }

  lemma StepKeepsEntries(s: State, step: Step, tickInterval: int)
    requires WellFormed(s) && Possible(step) && tickInterval != 0 && (step.Tick? || step.Bus?)
    ensures StepResult(s, step, tickInterval).0.entries == s.entries
  {
  }

  lemma VisitsPerStep(s: State, step: Step, slot: nat)
    requires WellFormed(s) && Possible(step) && (step.Tick? || step.Bus?)
    ensures Visits(StepTrace(s, step, slot)) == if step.Tick? then KeyCount(s, slot, |s.entries|) else 0
  {
    VisitsPerTick(s, slot, |s.entries|);
    assert [Answer][..0] == [] && Visits([Answer]) == 0;
  }

  lemma OneMore(keys: nat, ticks: nat, tick: bool, visits: nat)
    requires visits == if tick then keys else 0
    ensures keys * ticks + visits == keys * (ticks + if tick then 1 else 0)
  {
  }

  lemma {:induction false} RunKeepsEntries(s: State, steps: seq<Step>, tickInterval: int)
    requires WellFormed(s) && AllPossible(steps) && tickInterval != 0 && RegistryUntouched(steps)
    ensures RunResult(s, steps, tickInterval).0.entries == s.entries
  {
    if steps != [] {
      hide StepResult;
      var init := steps[..|steps| - 1];
      RunKeepsEntries(s, init, tickInterval);
      StepKeepsEntries(RunResult(s, init, tickInterval).0, steps[|steps| - 1], tickInterval);
    }
  }

  lemma {:induction false} VisitsPerRun(s: State, steps: seq<Step>, tickInterval: int, slot: nat)
    requires WellFormed(s) && AllPossible(steps) && tickInterval != 0 && RegistryUntouched(steps)
    ensures Visits(RunTrace(s, steps, tickInterval, slot)) == KeyCount(s, slot, |s.entries|) * TickCount(steps)
  {
    hide StepResult, StepTrace, KeyCount, Visits, RunResult;
    if steps == [] {
      assert RunTrace(s, steps, tickInterval, slot) == [] && TickCount(steps) == 0;
      NoVisits();
    } else {
      var init, last := steps[..|steps| - 1], steps[|steps| - 1];
      VisitsPerRun(s, init, tickInterval, slot);
      RunKeepsEntries(s, init, tickInterval);
      var before := RunResult(s, init, tickInterval).0;
      VisitsPerStep(before, last, slot);
      SameEntriesSameCount(s, before, slot, |s.entries|);
      VisitsConcat(RunTrace(s, init, tickInterval, slot), StepTrace(before, last, slot));
      OneMore(KeyCount(s, slot, |s.entries|), TickCount(init), last.Tick?, Visits(StepTrace(before, last, slot)));
    }
  }

  lemma NoVisits()
    ensures Visits([]) == 0
  {
  }

  lemma {:induction false} PollsOfTimerActions(actions: seq<Action>, slot: nat)
    ensures Polls(TimerActions(actions, slot), slot) == Polls(actions, slot)
  {
    if actions != [] {
      var init, last := actions[..|actions| - 1], actions[|actions| - 1];
      PollsOfTimerActions(init, slot);
      PollsConcat(TimerActions(init, slot), if TimerActionOf(last, slot) then [last] else [], slot);
      PollsSingle(last, slot);
    }
  }

  /**
    After any run with n ticks that leaves the registry alone, an item registered under K keys has
    sent exactly (K*n) div (P+1) poll reads, and none without a poll interval.
   */
  lemma PollsInRun(s: State, steps: seq<Step>, tickInterval: int, slot: nat)
    requires WellFormed(s) && AllPossible(steps) && tickInterval != 0 && RegistryUntouched(steps)
    requires slot < |s.items| && Fresh(s.items[slot])
    ensures Polls(RunResult(s, steps, tickInterval).1, slot)
            == if s.items[slot].pollInterval == 0 then 0
               else KeyCount(s, slot, |s.entries|) * TickCount(steps) / (s.items[slot].pollInterval + 1)
  {
    var item, es := s.items[slot], RunTrace(s, steps, tickInterval, slot);
    RunFollows(s, steps, tickInterval, slot);
    VisitsPerRun(s, steps, tickInterval, slot);
    PollsOfTimerActions(RunResult(s, steps, tickInterval).1, slot);
    if item.pollInterval == 0 {
      NoPollNoAction(item, slot, es);
    } else {
      PollConservation(item, slot, es);
    }
  }

  // ---- Timeouts ----

  lemma {:induction false} ActionComesFromSomeEvent(item: ItemValue, slot: nat, es: seq<ItemEvent>, a: Action)
    ensures a in AllActions(item, slot, es) <==> exists j :: 0 <= j < |es| && a in ActionsAt(item, slot, es, j)
  {
    hide EventActions, AfterEvent;
    if es != [] {
      var n := |es| - 1;
      ActionComesFromSomeEvent(item, slot, es[..n], a);
      assert forall j :: 0 <= j < n ==> es[..n][..j] == es[..j];
      assert forall j :: 0 <= j < n ==> ActionsAt(item, slot, es[..n], j) == ActionsAt(item, slot, es, j);
      assert AllActions(item, slot, es) == AllActions(item, slot, es[..n]) + ActionsAt(item, slot, es, n);
    }
  }

  lemma {:induction false} TimerActionsMembers(actions: seq<Action>, slot: nat, a: Action)
    requires TimerActionOf(a, slot)
    ensures a in TimerActions(actions, slot) <==> a in actions
  {
    if actions != [] {
      var init, last := actions[..|actions| - 1], actions[|actions| - 1];
      TimerActionsMembers(init, slot, a);
      assert actions == init + [last];
    }
  }

  lemma {:induction false} TimeoutsOfTimerActions(actions: seq<Action>, slot: nat)
    ensures Timeouts(TimerActions(actions, slot), slot) == Timeouts(actions, slot)
  {
    if actions != [] {
      var init, last := actions[..|actions| - 1], actions[|actions| - 1];
      TimeoutsOfTimerActions(init, slot);
      TimeoutsConcat(TimerActions(init, slot), if TimerActionOf(last, slot) then [last] else [], slot);
      TimeoutsSingle(last, slot);
    }
  }

  /**
    Every run reports exactly one timeout for each poll of the item that went T+1 visits without an
    answer, if T is positive and no longer than the poll interval, and none otherwise.
   */
  lemma TimeoutsInRun(s: State, steps: seq<Step>, tickInterval: int, slot: nat)
    requires WellFormed(s) && AllPossible(steps) && tickInterval != 0
    requires slot < |s.items| && Fresh(s.items[slot])
    ensures var item, es := s.items[slot], RunTrace(s, steps, tickInterval, slot);
            Timeouts(RunResult(s, steps, tickInterval).1, slot)
            == if 0 < item.timeout <= item.pollInterval then |OverduePolls(item, slot, es, |es|)| else 0
  {
    var item, es := s.items[slot], RunTrace(s, steps, tickInterval, slot);
    RunFollows(s, steps, tickInterval, slot);
    TimeoutsOfTimerActions(RunResult(s, steps, tickInterval).1, slot);
    TimeoutConservation(item, slot, es, |es|);
    assert es[..|es|] == es;
  }

  /** Such a timeout is told to the item's own group object. */
  lemma TimeoutsReachOwner(s: State, steps: seq<Step>, tickInterval: int, slot: nat, a: Action)
    requires WellFormed(s) && AllPossible(steps) && tickInterval != 0
    requires slot < |s.items| && Fresh(s.items[slot])
    requires a in RunResult(s, steps, tickInterval).1 && a.TimedOut? && a.slot == slot
    ensures a.groupObject == s.items[slot].groupObject
  {
    var item, es := s.items[slot], RunTrace(s, steps, tickInterval, slot);
    RunFollows(s, steps, tickInterval, slot);
    TimerActionsMembers(RunResult(s, steps, tickInterval).1, slot, a);
    hide *;
    TimeoutOwner(item, slot, es, a);
  }

  lemma TimeoutOwner(item: ItemValue, slot: nat, es: seq<ItemEvent>, a: Action)
    requires Fresh(item) && a in AllActions(item, slot, es) && a.TimedOut?
    ensures a.groupObject == item.groupObject
  {
    hide ActionsAt, AllActions, Waiting, SincePoll;
    ActionComesFromSomeEvent(item, slot, es, a);
    if item.pollInterval == 0 {
      NoPollNoAction(item, slot, es);
    } else {
      var j :| 0 <= j < |es| && a in ActionsAt(item, slot, es, j);
      ActionsExplained(item, slot, es, j);
    }
  }

  // ---- The period of an item with one key ----

  lemma {:induction false} RunPrefix(s: State, steps: seq<Step>, tickInterval: int, n: nat)
    requires WellFormed(s) && AllPossible(steps) && tickInterval != 0 && n < |steps|
    ensures RunResult(s, steps[..n + 1], tickInterval).1
            == RunResult(s, steps[..n], tickInterval).1
               + StepResult(RunResult(s, steps[..n], tickInterval).0, steps[n], tickInterval).1
    ensures TickCount(steps[..n + 1]) == TickCount(steps[..n]) + if steps[n].Tick? then 1 else 0
  {
    assert steps[..n + 1][..n] == steps[..n];
  }

  /**
    An item with one key and an interval I of at least one tick t polls in exactly the (P+1)-th,
    2(P+1)-th, ... tick of a run that leaves the registry alone, so its polls are (P+1)*t apart,
    more than I and at most I + t.
   */
  lemma PollsPeriodically(s: State, steps: seq<Step>, tickInterval: nat, slot: nat, n: nat,
                          groupObject: nat, settings: Settings)
    requires WellFormed(s) && AllPossible(steps) && RegistryUntouched(steps) && n < |steps|
    requires 1 <= tickInterval <= settings.readRequestPollInterval
    requires settings.readRequestPollInterval / tickInterval < ControllerSpec.UINT32_LIMIT
    requires slot < |s.items| && s.items[slot] == NewItem(groupObject, settings, tickInterval)
    requires KeyCount(s, slot, |s.entries|) == 1
    ensures var step := StepResult(RunResult(s, steps[..n], tickInterval).0, steps[n], tickInterval);
            var p := s.items[slot].pollInterval;
            && p >= 1
            && settings.readRequestPollInterval < (p + 1) * tickInterval <= settings.readRequestPollInterval + tickInterval
            && Polls(step.1, slot) == if steps[n].Tick? && TickCount(steps[..n + 1]) % (p + 1) == 0 then 1 else 0
  {
    hide *;
    NewItemTicks(groupObject, settings, tickInterval);
    PeriodBound(settings.readRequestPollInterval, tickInterval);
    AtLeastOneTick(settings.readRequestPollInterval, tickInterval);
    PollsOfStep(s, steps, tickInterval, slot, n);
  }

  lemma PollsOfStep(s: State, steps: seq<Step>, tickInterval: int, slot: nat, n: nat)
    requires WellFormed(s) && AllPossible(steps) && tickInterval != 0 && RegistryUntouched(steps) && n < |steps|
    requires slot < |s.items| && Fresh(s.items[slot]) && s.items[slot].pollInterval > 0
    requires KeyCount(s, slot, |s.entries|) == 1
    ensures var step := StepResult(RunResult(s, steps[..n], tickInterval).0, steps[n], tickInterval);
            Polls(step.1, slot)
            == if steps[n].Tick? && TickCount(steps[..n + 1]) % (s.items[slot].pollInterval + 1) == 0 then 1 else 0
  {
    hide StepResult, RunResult, Polls, KeyCount, TickCount, Fresh, WellFormed;
    PollsInRun(s, steps[..n], tickInterval, slot);
    PollsInRun(s, steps[..n + 1], tickInterval, slot);
    RunPrefix(s, steps, tickInterval, n);
    CountUp(TickCount(steps[..n]), s.items[slot].pollInterval + 1);
    PollsConcat(RunResult(s, steps[..n], tickInterval).1,
                StepResult(RunResult(s, steps[..n], tickInterval).0, steps[n], tickInterval).1, slot);
  }

  lemma NewItemTicks(groupObject: nat, settings: Settings, tickInterval: int)
    requires tickInterval != 0
    ensures var item := NewItem(groupObject, settings, tickInterval);
            && item.pollInterval == Ticks(settings.readRequestPollInterval, tickInterval)
            && item.timeout == Ticks(settings.readResponseTimeout, tickInterval)
            && Fresh(item)
  {
    hide Ticks;
  }

  lemma AtLeastOneTick(interval: nat, tickInterval: nat)
    requires 1 <= tickInterval <= interval && interval / tickInterval < ControllerSpec.UINT32_LIMIT
    ensures Ticks(interval, tickInterval) >= 1
  {
    ModUnique(interval / tickInterval, ControllerSpec.UINT32_LIMIT, 0, interval / tickInterval);
  }

  // ---- When the timeout of an item with one key comes ----

  /** The state before the step at index n, and what that step does. */
  function Before(s: State, steps: seq<Step>, tickInterval: int, n: nat): (r: State)
    requires WellFormed(s) && AllPossible(steps) && tickInterval != 0 && n <= |steps|
    ensures WellFormed(r)
  {
    RunResult(s, steps[..n], tickInterval).0
  }

  function StepActions(s: State, steps: seq<Step>, tickInterval: int, n: nat): seq<Action>
    requires WellFormed(s) && AllPossible(steps) && tickInterval != 0 && n < |steps|
  {
    StepResult(Before(s, steps, tickInterval, n), steps[n], tickInterval).1
  }

  /** The step at index n brings a response to the item. */
  predicate AnsweredAt(s: State, steps: seq<Step>, tickInterval: int, slot: nat, n: nat)
    requires WellFormed(s) && AllPossible(steps) && tickInterval != 0 && n < |steps|
  {
    steps[n].Bus? && Answers(Before(s, steps, tickInterval, n), steps[n].telegram, slot)
  }

  function TraceUpTo(s: State, steps: seq<Step>, tickInterval: int, slot: nat, n: nat): seq<ItemEvent>
    requires WellFormed(s) && AllPossible(steps) && tickInterval != 0 && n <= |steps|
  {
    RunTrace(s, steps[..n], tickInterval, slot)
  }

  lemma TraceStep(s: State, steps: seq<Step>, tickInterval: int, slot: nat, n: nat)
    requires WellFormed(s) && AllPossible(steps) && tickInterval != 0 && n < |steps|
    ensures TraceUpTo(s, steps, tickInterval, slot, n + 1)
            == TraceUpTo(s, steps, tickInterval, slot, n) + StepTrace(Before(s, steps, tickInterval, n), steps[n], slot)
  {
    assert steps[..n + 1][..n] == steps[..n];
  }

  lemma {:induction false} OneVisitPerKey(s: State, slot: nat, n: nat)
    requires n <= |s.entries|
    ensures |TickTrace(s, slot, n)| == KeyCount(s, slot, n)
    ensures forall e :: e in TickTrace(s, slot, n) ==> e.Visit?
  {
    if n > 0 {
      OneVisitPerKey(s, slot, n - 1);
    }
  }

  /** What a step adds to the history of an item with one key: a visit, an answer or nothing. */
  lemma StepTraceOfOne(s: State, steps: seq<Step>, tickInterval: int, slot: nat, n: nat)
    requires WellFormed(s) && AllPossible(steps) && tickInterval != 0 && RegistryUntouched(steps) && n < |steps|
    requires KeyCount(s, slot, |s.entries|) == 1
    ensures var added := StepTrace(Before(s, steps, tickInterval, n), steps[n], slot);
            if steps[n].Tick? then |added| == 1 && added[0].Visit?
            else added == if AnsweredAt(s, steps, tickInterval, slot, n) then [Answer] else []
  {
    var before := Before(s, steps, tickInterval, n);
    RunKeepsEntries(s, steps[..n], tickInterval);
    SameEntriesSameCount(s, before, slot, |s.entries|);
    OneVisitPerKey(before, slot, |before.entries|);
    hide RunResult, Answers, KeyCount, TickTrace;
    if steps[n].Tick? {
      assert TickTrace(before, slot, |before.entries|)[0] in TickTrace(before, slot, |before.entries|);
    }
  }

  lemma OneEventVisits(es: seq<ItemEvent>)
    requires |es| <= 1
    ensures Visits(es) == if es != [] && es[0].Visit? then 1 else 0
  {
    if es != [] {
      assert es[..0] == [];
    }
  }

  predicate AllVisits(es: seq<ItemEvent>)
  {
    forall k :: 0 <= k < |es| ==> es[k].Visit?
  }

  lemma AllVisitsConcat(a: seq<ItemEvent>, b: seq<ItemEvent>)
    ensures AllVisits(a + b) <==> AllVisits(a) && AllVisits(b)
  {
    assert forall k :: 0 <= k < |a| ==> (a + b)[k] == a[k];
    assert forall k :: 0 <= k < |b| ==> b[k] == (a + b)[|a| + k];
  }

  lemma TailStep(x: seq<ItemEvent>, y: seq<ItemEvent>, added: seq<ItemEvent>)
    requires |x| <= |y| && y[..|x|] == x
    ensures (y + added)[..|x|] == x
    ensures Visits((y + added)[|x|..]) == Visits(y[|x|..]) + Visits(added)
    ensures AllVisits((y + added)[|x|..]) <==> AllVisits(y[|x|..]) && AllVisits(added)
  {
    assert (y + added)[|x|..] == y[|x|..] + added;
    VisitsConcat(y[|x|..], added);
    AllVisitsConcat(y[|x|..], added);
  }

  lemma PossibleStep(steps: seq<Step>, n: nat)
    requires AllPossible(steps) && n < |steps|
    ensures Possible(steps[n])
  {
  }

  /** None of the steps m to n brings a response to the item. */
  predicate Unanswered(s: State, steps: seq<Step>, tickInterval: int, slot: nat, m: nat, n: nat)
    requires WellFormed(s) && AllPossible(steps) && tickInterval != 0 && m <= n <= |steps|
  {
    forall k :: m <= k < n ==> !AnsweredAt(s, steps, tickInterval, slot, k)
  }

  lemma AnswerOrVisit(s: State, steps: seq<Step>, tickInterval: int, slot: nat, n: nat)
    requires WellFormed(s) && AllPossible(steps) && tickInterval != 0 && RegistryUntouched(steps) && n < |steps|
    requires KeyCount(s, slot, |s.entries|) == 1
    ensures var added := StepTrace(Before(s, steps, tickInterval, n), steps[n], slot);
            && (AllVisits(added) <==> !AnsweredAt(s, steps, tickInterval, slot, n))
            && Visits(added) == if steps[n].Tick? then 1 else 0
  {
    hide StepTrace, Answers, Before, KeyCount, Visits;
    StepTraceOfOne(s, steps, tickInterval, slot, n);
    OneEventVisits(StepTrace(Before(s, steps, tickInterval, n), steps[n], slot));
  }

  lemma NothingBetween(s: State, steps: seq<Step>, tickInterval: int, slot: nat, m: nat, x: seq<ItemEvent>)
    requires WellFormed(s) && AllPossible(steps) && tickInterval != 0 && m <= |steps|
    ensures x[..|x|] == x && Visits(x[|x|..]) == TickCount(steps[m..m]) == 0
    ensures AllVisits(x[|x|..]) && Unanswered(s, steps, tickInterval, slot, m, m)
  {
    assert x[|x|..] == [] && steps[m..m] == [];
  }

  lemma UnansweredNext(s: State, steps: seq<Step>, tickInterval: int, slot: nat, m: nat, n: nat)
    requires WellFormed(s) && AllPossible(steps) && tickInterval != 0 && m <= n < |steps|
    ensures Unanswered(s, steps, tickInterval, slot, m, n + 1) <==>
            Unanswered(s, steps, tickInterval, slot, m, n) && !AnsweredAt(s, steps, tickInterval, slot, n)
  {
    hide AnsweredAt;
  }

  /** The events of steps m to n are as many visits as ticks, and only visits exactly when none of the steps brought an answer. */
  lemma {:induction false} TraceBetween(s: State, steps: seq<Step>, tickInterval: int, slot: nat, m: nat, n: nat)
    requires WellFormed(s) && AllPossible(steps) && tickInterval != 0 && RegistryUntouched(steps) && m <= n <= |steps|
    requires KeyCount(s, slot, |s.entries|) == 1
    ensures var x, y := TraceUpTo(s, steps, tickInterval, slot, m), TraceUpTo(s, steps, tickInterval, slot, n);
            && |x| <= |y| && y[..|x|] == x
            && Visits(y[|x|..]) == TickCount(steps[m..n])
            && (AllVisits(y[|x|..]) <==> Unanswered(s, steps, tickInterval, slot, m, n))
  {
    hide *;
    var x := TraceUpTo(s, steps, tickInterval, slot, m);
    if m == n {
      NothingBetween(s, steps, tickInterval, slot, m, x);
    } else {
      PossibleStep(steps, n - 1);
      var y := TraceUpTo(s, steps, tickInterval, slot, n - 1);
      var added := StepTrace(Before(s, steps, tickInterval, n - 1), steps[n - 1], slot);
      TraceBetween(s, steps, tickInterval, slot, m, n - 1);
      TraceStep(s, steps, tickInterval, slot, n - 1);
      TailStep(x, y, added);
      AnswerOrVisit(s, steps, tickInterval, slot, n - 1);
      NextTick(steps, m, n - 1);
      UnansweredNext(s, steps, tickInterval, slot, m, n - 1);
    }
  }

  lemma NextTick(steps: seq<Step>, m: nat, n: nat)
    requires m <= n < |steps|
    ensures TickCount(steps[m..n + 1]) == TickCount(steps[m..n]) + if steps[n].Tick? then 1 else 0
  {
    assert steps[m..n + 1][..n - m] == steps[m..n];
  }

  /** What a tick does for an item with one key is what that visit does in the item's history. */
  lemma TickActions(s: State, steps: seq<Step>, tickInterval: int, slot: nat, n: nat)
    requires WellFormed(s) && AllPossible(steps) && tickInterval != 0 && RegistryUntouched(steps) && n < |steps|
    requires slot < |s.items| && KeyCount(s, slot, |s.entries|) == 1 && steps[n].Tick?
    ensures var es, j := TraceUpTo(s, steps, tickInterval, slot, n + 1), |TraceUpTo(s, steps, tickInterval, slot, n)|;
            && |es| == j + 1 && es[j].Visit?
            && TimerActions(StepActions(s, steps, tickInterval, n), slot) == ActionsAt(s.items[slot], slot, es, j)
  {
    TraceStep(s, steps, tickInterval, slot, n);
    StepTraceOfOne(s, steps, tickInterval, slot, n);
    RunFollows(s, steps[..n], tickInterval, slot);
    StepFollows(Before(s, steps, tickInterval, n), steps[n], tickInterval, slot);
    hide RunResult, StepResult, StepTrace, KeyCount, RunTrace, AfterEvents, EventActions;
    var before := TraceUpTo(s, steps, tickInterval, slot, n);
    var es := TraceUpTo(s, steps, tickInterval, slot, n + 1);
    assert es[..|before|] == before;
    SingleEvent(AfterEvents(s.items[slot], slot, before), slot, es[|before|]);
    assert StepTrace(Before(s, steps, tickInterval, n), steps[n], slot) == [es[|before|]];
  }

  lemma SingleEvent(item: ItemValue, slot: nat, e: ItemEvent)
    ensures AllActions(item, slot, [e]) == EventActions(item, slot, e)
  {
    hide EventActions;
    assert [e][..0] == [];
    assert AfterEvents(item, slot, []) == item;
    assert AllActions(item, slot, [e]) == [] + EventActions(item, slot, e);
  }

  lemma SameActions(item: ItemValue, slot: nat, es: seq<ItemEvent>, fs: seq<ItemEvent>, j: nat)
    requires j < |fs| <= |es| && es[..|fs|] == fs
    ensures ActionsAt(item, slot, es, j) == ActionsAt(item, slot, fs, j) && es[j] == fs[j]
  {
    assert es[..|fs|][..j] == es[..j];
    assert es[j] == es[..|fs|][j];
  }

  lemma PolledOnce(item: ItemValue, slot: nat, es: seq<ItemEvent>, j: nat)
    requires j < |es| && Polls(ActionsAt(item, slot, es, j), slot) == 1
    ensures PollsAt(item, slot, es, j)
  {
    SomePoll(ActionsAt(item, slot, es, j), slot);
  }

  lemma {:induction false} SomePoll(actions: seq<Action>, slot: nat)
    requires Polls(actions, slot) >= 1
    ensures exists k :: 0 <= k < |actions| && actions[k].Transmitted?
  {
    var last := |actions| - 1;
    if !actions[last].Transmitted? {
      SomePoll(actions[..last], slot);
      var k :| 0 <= k < last && actions[..last][k].Transmitted?;
      assert actions[k].Transmitted?;
    }
  }

  lemma TimeoutOfTick(s: State, steps: seq<Step>, tickInterval: int, slot: nat, m: nat, n: nat)
    requires WellFormed(s) && AllPossible(steps) && tickInterval != 0 && RegistryUntouched(steps) && m < n < |steps|
    requires slot < |s.items| && KeyCount(s, slot, |s.entries|) == 1
    requires Fresh(s.items[slot]) && 0 < s.items[slot].timeout <= s.items[slot].pollInterval
    requires steps[m].Tick? && steps[n].Tick? && Polls(StepActions(s, steps, tickInterval, m), slot) == 1
    requires TickCount(steps[m + 1..n + 1]) <= s.items[slot].pollInterval + 1
    ensures Timeouts(StepActions(s, steps, tickInterval, n), slot)
            == if TickCount(steps[m + 1..n + 1]) == s.items[slot].timeout + 1
                  && Unanswered(s, steps, tickInterval, slot, m + 1, n) then 1 else 0
  {
    hide *;
    var item := s.items[slot];
    var es := TraceUpTo(s, steps, tickInterval, slot, n + 1);
    var i, j := |TraceUpTo(s, steps, tickInterval, slot, m)|, |TraceUpTo(s, steps, tickInterval, slot, n)|;
    var polled := TraceUpTo(s, steps, tickInterval, slot, m + 1);
    TickActions(s, steps, tickInterval, slot, m);
    TickActions(s, steps, tickInterval, slot, n);
    TraceBetween(s, steps, tickInterval, slot, m + 1, n + 1);
    TraceBetween(s, steps, tickInterval, slot, m + 1, n);
    TraceBetween(s, steps, tickInterval, slot, n, n + 1);
    PollsOfTimerActions(StepActions(s, steps, tickInterval, m), slot);
    SameActions(item, slot, es, polled, i);
    PolledOnce(item, slot, es, i);
    TimeoutsOfTimerActions(StepActions(s, steps, tickInterval, n), slot);
    TimeoutsAt(item, slot, es, j);
    assert es[i + 1..] == es[i + 1..j + 1];
    TimeoutOfPoll(item, slot, es, i, j);
    AnswersBetween(es, TraceUpTo(s, steps, tickInterval, slot, n), i + 1);
  }

  lemma AnswersBetween(es: seq<ItemEvent>, fs: seq<ItemEvent>, i: nat)
    requires i <= |fs| <= |es| && es[..|fs|] == fs
    ensures NoAnswer(es, i, |fs|) <==> AllVisits(fs[i..])
  {
    assert forall k :: i <= k < |fs| ==> es[k] == es[..|fs|][k] && fs[k] == fs[i..][k - i];
    assert forall k :: 0 <= k < |fs| - i ==> fs[i..][k] == es[i + k];
  }

  /**
    An item with one key, response timeout R and poll interval of at least as many ticks: after a
    poll in step m the timeout comes with the N-th tick from there, up to and including the one
    that polls again, if and only if no response has come in between; and R < N*t <= R + t.
   */
  lemma TimeoutsPunctually(s: State, steps: seq<Step>, tickInterval: nat, slot: nat, m: nat, n: nat,
                           groupObject: nat, settings: Settings)
    requires WellFormed(s) && AllPossible(steps) && RegistryUntouched(steps) && m < n < |steps|
    requires 1 <= tickInterval <= settings.readResponseTimeout && settings.readRequestPollInterval >= 0
    requires settings.readResponseTimeout / tickInterval <= settings.readRequestPollInterval / tickInterval
             < ControllerSpec.UINT32_LIMIT
    requires slot < |s.items| && s.items[slot] == NewItem(groupObject, settings, tickInterval)
    requires KeyCount(s, slot, |s.entries|) == 1
    requires steps[m].Tick? && steps[n].Tick? && Polls(StepActions(s, steps, tickInterval, m), slot) == 1
    requires TickCount(steps[m + 1..n + 1]) <= settings.readRequestPollInterval / tickInterval + 1
    ensures var ticks := settings.readResponseTimeout / tickInterval + 1;
            && settings.readResponseTimeout < ticks * tickInterval <= settings.readResponseTimeout + tickInterval
            && Timeouts(StepActions(s, steps, tickInterval, n), slot)
               == if TickCount(steps[m + 1..n + 1]) == ticks
                     && Unanswered(s, steps, tickInterval, slot, m + 1, n) then 1 else 0
  {
    hide *;
    NewItemTicks(groupObject, settings, tickInterval);
    PeriodBound(settings.readResponseTimeout, tickInterval);
    WholeTicks(settings.readResponseTimeout, tickInterval);
    WholeTicks(settings.readRequestPollInterval, tickInterval);
    AtLeastOneTick(settings.readResponseTimeout, tickInterval);
    TimeoutOfTick(s, steps, tickInterval, slot, m, n);
  }

  lemma WholeTicks(duration: nat, tickInterval: nat)
    requires 1 <= tickInterval && duration / tickInterval < ControllerSpec.UINT32_LIMIT
    ensures Ticks(duration, tickInterval) == duration / tickInterval
  {
    ModUnique(duration / tickInterval, ControllerSpec.UINT32_LIMIT, 0, duration / tickInterval);
  }
}
