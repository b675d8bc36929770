/**
  The registry over runs of additions and removals, and which item an event or a telegram reaches.
 */
module RegistryTheorems {
  import opened Outcomes
  import opened GroupAddress
  import opened OrderedMap
  import opened Telegram
  import opened ControllerSpec
  import opened ItemTimers
  import opened ControllerRuns

  // ---- Every key belongs to its item ----

  predicate OwnKey(settings: Settings, key: Address)
  {
    key == settings.groupAddress || settings.feedbackGroupAddress == Some(key)
  }

  predicate Owned(s: State)
    requires WellFormed(s)
  {
    forall i :: 0 <= i < |s.entries| ==> OwnKey(s.items[s.entries[i].value].settings, s.entries[i].key)
  }

  lemma EmplaceOwned(s: State, key: Address, slot: nat)
    requires WellFormed(s) && Owned(s) && slot < |s.items| && OwnKey(s.items[slot].settings, key)
    ensures WellFormed(s.(entries := Emplace(s.entries, key, slot)))
    ensures Owned(s.(entries := Emplace(s.entries, key, slot)))
  {
    EmplaceWellFormed(s.entries, key, slot, |s.items|);
  }

  lemma EraseOwned(s: State, key: Address)
    requires WellFormed(s) && Owned(s)
    ensures WellFormed(s.(entries := Erase(s.entries, key))) && Owned(s.(entries := Erase(s.entries, key)))
  {
    EraseWellFormed(s.entries, key, |s.items|);
  }

  lemma {:induction false} TickKeepsSettings(s: State, n: nat)
    requires WellFormed(s) && n <= |s.entries|
    ensures forall j :: 0 <= j < |s.items| ==> TickUpTo(s, n).0.items[j].settings == s.items[j].settings
  {
    if n > 0 {
      TickKeepsSettings(s, n - 1);
    }
  }

  lemma AddOwned(s: State, groupObject: Option<nat>, settings: Settings, tickInterval: int)
    requires WellFormed(s) && Owned(s) && tickInterval != 0
    ensures WellFormed(AddResult(s, groupObject, settings, tickInterval).0)
    ensures Owned(AddResult(s, groupObject, settings, tickInterval).0)
  {
    hide NewItem, Emplace, Find;
    AddWellFormed(s, groupObject, settings, tickInterval);
    if groupObject.Some? && Find(s.entries, settings.groupAddress).None? {
      var slot := |s.items|;
      var grown := s.(items := s.items + [NewItem(groupObject.value, settings, tickInterval)]);
      assert NewItem(groupObject.value, settings, tickInterval).settings == settings by {
        NewItemSettings(groupObject.value, settings, tickInterval);
      }
      EmplaceOwned(grown, settings.groupAddress, slot);
      if settings.feedbackGroupAddress.Some? {
        EmplaceOwned(grown.(entries := Emplace(grown.entries, settings.groupAddress, slot)),
                     settings.feedbackGroupAddress.value, slot);
      }
    }
  }

  lemma NewItemSettings(groupObject: nat, settings: Settings, tickInterval: int)
    requires tickInterval != 0
    ensures NewItem(groupObject, settings, tickInterval).settings == settings
    ensures Fresh(NewItem(groupObject, settings, tickInterval))
  {
  }

  lemma RemoveOwned(s: State, address: Address)
    requires WellFormed(s) && Owned(s)
    ensures WellFormed(RemoveResult(s, address).0) && Owned(RemoveResult(s, address).0)
  {
    hide Find, Erase;
    RemoveWellFormed(s, address);
    if Find(s.entries, address).Some? {
      var item := s.items[s.entries[Find(s.entries, address).value].value];
      EraseOwned(s, address);
      if item.settings.feedbackGroupAddress.Some? {
        var feedback := item.settings.feedbackGroupAddress.value;
        EraseOwned(s, feedback);
        EraseOwned(s.(entries := Erase(s.entries, feedback)), address);
      }
    }
  }

  lemma StepOwned(s: State, step: Step, tickInterval: int)
    requires WellFormed(s) && Possible(step) && tickInterval != 0 && Owned(s)
    ensures Owned(StepResult(s, step, tickInterval).0)
  {
    match step
    case Tick => TickKeepsSettings(s, |s.entries|);
    case Bus(_, _) =>
    case Add(groupObject, settings) => AddOwned(s, groupObject, settings, tickInterval);
    case Remove(address) => RemoveOwned(s, address);
  }

  /** In every run every key is the primary or the feedback address of the item it leads to. */
  lemma {:induction false} RunOwned(steps: seq<Step>, tickInterval: int)
    requires AllPossible(steps) && tickInterval != 0
    ensures Owned(RunResult(State([], []), steps, tickInterval).0)
  {
    if steps != [] {
      hide StepResult;
      RunOwned(steps[..|steps| - 1], tickInterval);
      StepOwned(RunResult(State([], []), steps[..|steps| - 1], tickInterval).0, steps[|steps| - 1], tickInterval);
    }
  }

  // ---- Runs in which every addition succeeds and removals name primary addresses ----

  /** An item with one key in the map has all of its keys there. */
  ghost predicate Complete(s: State)
    requires WellFormed(s)
  {
    forall i, key :: 0 <= i < |s.entries| && OwnKey(s.items[s.entries[i].value].settings, key)
                     ==> Entry(key, s.entries[i].value) in s.entries
  }

  /** No key is foreign and none is missing to an item that has one. */
  ghost predicate Clean(s: State)
    requires WellFormed(s)
  {
    Owned(s) && Complete(s)
  }

  /** An addition succeeds or is refused outright; a removal names a primary address or nothing. */
  predicate Disciplined(s: State, step: Step, tickInterval: int)
    requires WellFormed(s) && tickInterval != 0
  {
    match step
    case Add(groupObject, settings) =>
      var added := AddResult(s, groupObject, settings, tickInterval);
      added.2 || added.0 == s
    case Remove(address) =>
      var found := Find(s.entries, address);
      found.Some? ==> s.items[s.entries[found.value].value].settings.groupAddress == address
    case _ => true
  }

  predicate DisciplinedRun(steps: seq<Step>, tickInterval: int)
    requires AllPossible(steps) && tickInterval != 0
  {
    forall n :: 0 <= n < |steps| ==> Disciplined(RunResult(State([], []), steps[..n], tickInterval).0, steps[n], tickInterval)
  }

  /** The items that are registered after a step: a successful addition adds the new one, a removal drops the found one. */
  function LiveAfter(s: State, live: set<nat>, step: Step, tickInterval: int): set<nat>
    requires WellFormed(s) && tickInterval != 0
  {
    match step
    case Add(groupObject, settings) =>
      if AddResult(s, groupObject, settings, tickInterval).2 then live + {|s.items|} else live
    case Remove(address) =>
      var found := Find(s.entries, address);
      if found.Some? then live - {s.entries[found.value].value} else live
    case _ => live
  }

  /** The items added and not removed in a run. */
  function Live(steps: seq<Step>, tickInterval: int): set<nat>
    requires AllPossible(steps) && tickInterval != 0
  {
    if steps == [] then {}
    else
      var init := steps[..|steps| - 1];
      LiveAfter(RunResult(State([], []), init, tickInterval).0, Live(init, tickInterval), steps[|steps| - 1], tickInterval)
  }

  /** The map holds each own address of each of these items, and nothing else. */
  ghost predicate Registers(s: State, live: set<nat>)
    requires WellFormed(s)
  {
    && (forall slot :: slot in live ==> slot < |s.items|)
    && (forall key: Address, slot: nat :: Entry(key, slot) in s.entries <==>
          slot in live && OwnKey(s.items[slot].settings, key))
  }

  lemma RegistersClean(s: State, live: set<nat>)
    requires WellFormed(s) && Registers(s, live)
    ensures Clean(s)
  {
    forall i | 0 <= i < |s.entries|
      ensures s.entries[i].value in live && OwnKey(s.items[s.entries[i].value].settings, s.entries[i].key)
    {
      assert Entry(s.entries[i].key, s.entries[i].value) in s.entries;
    }
  }

  /** The members after a successful addition. */
  lemma AddMembers(s: State, groupObject: Option<nat>, settings: Settings, tickInterval: int, e: Entry<nat>)
    requires WellFormed(s) && tickInterval != 0 && AddResult(s, groupObject, settings, tickInterval).2
    ensures e in AddResult(s, groupObject, settings, tickInterval).0.entries <==>
            e in s.entries || (e.value == |s.items| && OwnKey(settings, e.key))
  {
    var slot, primary := |s.items|, settings.groupAddress;
    FindExactly(s.entries, primary);
    EmplaceNew(s.entries, primary, slot);
    EmplaceMembers(s.entries, primary, slot, e);
    if settings.feedbackGroupAddress.Some? && settings.feedbackGroupAddress.value != primary {
      var withPrimary := Emplace(s.entries, primary, slot);
      FindExactly(withPrimary, settings.feedbackGroupAddress.value);
      EmplaceMembers(withPrimary, settings.feedbackGroupAddress.value, slot, e);
    }
  }

  lemma AddRegisters(s: State, live: set<nat>, groupObject: Option<nat>, settings: Settings, tickInterval: int)
    requires WellFormed(s) && Registers(s, live) && tickInterval != 0
    requires AddResult(s, groupObject, settings, tickInterval).2
    ensures WellFormed(AddResult(s, groupObject, settings, tickInterval).0)
    ensures Registers(AddResult(s, groupObject, settings, tickInterval).0, live + {|s.items|})
  {
    AddWellFormed(s, groupObject, settings, tickInterval);
    AddGrows(s, groupObject, settings, tickInterval);
    var r := AddResult(s, groupObject, settings, tickInterval).0;
    hide AddResult, OwnKey;
    forall key: Address, slot: nat
      ensures Entry(key, slot) in r.entries <==>
              slot in live + {|s.items|} && OwnKey(r.items[slot].settings, key)
    {
      AddMembers(s, groupObject, settings, tickInterval, Entry(key, slot));
      if slot in live {
        assert r.items[slot] == s.items[slot];
      }
    }
  }

  lemma AddGrows(s: State, groupObject: Option<nat>, settings: Settings, tickInterval: int)
    requires WellFormed(s) && tickInterval != 0 && AddResult(s, groupObject, settings, tickInterval).2
    ensures var items := AddResult(s, groupObject, settings, tickInterval).0.items;
            |items| == |s.items| + 1 && items[|s.items|].settings == settings
            && forall j :: 0 <= j < |s.items| ==> items[j] == s.items[j]
  {
  }

  /** The members after a removal: all but the removed key and the found item's feedback key. */
  lemma RemoveMembers(s: State, address: Address, e: Entry<nat>)
    requires WellFormed(s) && Find(s.entries, address).Some?
    ensures var settings := s.items[s.entries[Find(s.entries, address).value].value].settings;
            e in RemoveResult(s, address).0.entries <==>
            e in s.entries && e.key != address && settings.feedbackGroupAddress != Some(e.key)
  {
    var settings := s.items[s.entries[Find(s.entries, address).value].value].settings;
    match settings.feedbackGroupAddress
    case None => EraseMembers(s.entries, address, e);
    case Some(feedback) =>
      EraseSorted(s.entries, feedback);
      EraseMembers(s.entries, feedback, e);
      EraseMembers(Erase(s.entries, feedback), address, e);
  }

  /** In a clean registry removal by the primary address drops the found item's keys and no others. */
  lemma RemovedKeys(s: State, address: Address, e: Entry<nat>)
    requires WellFormed(s) && Clean(s) && Find(s.entries, address).Some?
    requires s.items[s.entries[Find(s.entries, address).value].value].settings.groupAddress == address
    ensures e in RemoveResult(s, address).0.entries <==>
            e in s.entries && e.value != s.entries[Find(s.entries, address).value].value
  {
    hide Find, RemoveResult, Less;
    RemoveMembers(s, address, e);
    FindExactly(s.entries, address);
    var slot := s.entries[Find(s.entries, address).value].value;
    if e in s.entries {
      var k :| 0 <= k < |s.entries| && s.entries[k] == e;
      if e.value == slot {
        assert OwnKey(s.items[s.entries[k].value].settings, s.entries[k].key);
      } else if OwnKey(s.items[slot].settings, e.key) {
        assert Entry(e.key, slot) in s.entries;
        var m :| 0 <= m < |s.entries| && s.entries[m] == Entry(e.key, slot);
        KeyDetermines(s.entries, k, m);
      }
    }
  }

  lemma RemoveRegisters(s: State, live: set<nat>, address: Address)
    requires WellFormed(s) && Registers(s, live) && Find(s.entries, address).Some?
    requires s.items[s.entries[Find(s.entries, address).value].value].settings.groupAddress == address
    ensures WellFormed(RemoveResult(s, address).0)
    ensures Registers(RemoveResult(s, address).0, live - {s.entries[Find(s.entries, address).value].value})
  {
    RemoveWellFormed(s, address);
    RegistersClean(s, live);
    var r, removed := RemoveResult(s, address).0, s.entries[Find(s.entries, address).value].value;
    assert r.items == s.items;
    hide RemoveResult, Find, OwnKey;
    forall key: Address, slot: nat
      ensures Entry(key, slot) in r.entries <==> slot in live - {removed} && OwnKey(r.items[slot].settings, key)
    {
      RemovedKeys(s, address, Entry(key, slot));
    }
  }

  lemma SameRegistry(s: State, t: State, live: set<nat>)
    requires WellFormed(s) && WellFormed(t) && Registers(s, live)
    requires s.entries == t.entries && |s.items| == |t.items|
    requires forall j :: 0 <= j < |s.items| ==> t.items[j].settings == s.items[j].settings
    ensures Registers(t, live)
  {
    hide OwnKey;
  }

  lemma StepRegisters(s: State, live: set<nat>, step: Step, tickInterval: int)
    requires WellFormed(s) && Possible(step) && tickInterval != 0
    requires Registers(s, live) && Disciplined(s, step, tickInterval)
    ensures Registers(StepResult(s, step, tickInterval).0, LiveAfter(s, live, step, tickInterval))
  {
    hide Registers;
    match step
    case Tick =>
      TickKeepsSettings(s, |s.entries|);
      SameRegistry(s, TickResult(s).0, live);
    case Bus(event, telegram) => SameRegistry(s, NotifyResult(s, event, telegram).0, live);
    case Add(groupObject, settings) =>
      if AddResult(s, groupObject, settings, tickInterval).2 {
        AddRegisters(s, live, groupObject, settings, tickInterval);
      }
    case Remove(address) =>
      if Find(s.entries, address).Some? {
        RemoveRegisters(s, live, address);
      }
  }

  /**
    While every addition succeeds or is refused outright and removals name primary addresses, the
    map holds exactly the own addresses of the items that were added and not removed.
   */
  lemma {:induction false} RunRegisters(steps: seq<Step>, tickInterval: int)
    requires AllPossible(steps) && tickInterval != 0 && DisciplinedRun(steps, tickInterval)
    ensures Registers(RunResult(State([], []), steps, tickInterval).0, Live(steps, tickInterval))
  {
    if steps != [] {
      hide StepResult, DisciplinedRun, Disciplined, Registers, LiveAfter;
      var n := |steps| - 1;
      DisciplinedPrefix(steps, tickInterval);
      RunRegisters(steps[..n], tickInterval);
      StepRegisters(RunResult(State([], []), steps[..n], tickInterval).0, Live(steps[..n], tickInterval), steps[n], tickInterval);
    } else {
      assert RunResult(State([], []), steps, tickInterval).0 == State([], []);
    }
  }

  /** That union is disjoint: no address belongs to two registered items. */
  lemma RegisteredApart(s: State, live: set<nat>, a: nat, b: nat, key: Address)
    requires WellFormed(s) && Registers(s, live) && a in live && b in live
    requires OwnKey(s.items[a].settings, key) && OwnKey(s.items[b].settings, key)
    ensures a == b
  {
    assert Entry(key, a) in s.entries && Entry(key, b) in s.entries;
    var i :| 0 <= i < |s.entries| && s.entries[i] == Entry(key, a);
    var j :| 0 <= j < |s.entries| && s.entries[j] == Entry(key, b);
    KeyDetermines(s.entries, i, j);
  }

  /** In such a run every item that has a key has all of them, and no address leads to two items. */
  lemma RunClean(steps: seq<Step>, tickInterval: int)
    requires AllPossible(steps) && tickInterval != 0 && DisciplinedRun(steps, tickInterval)
    ensures Clean(RunResult(State([], []), steps, tickInterval).0)
  {
    RunRegisters(steps, tickInterval);
    RegistersClean(RunResult(State([], []), steps, tickInterval).0, Live(steps, tickInterval));
  }

  lemma DisciplinedPrefix(steps: seq<Step>, tickInterval: int)
    requires AllPossible(steps) && tickInterval != 0 && DisciplinedRun(steps, tickInterval) && steps != []
    ensures var n := |steps| - 1;
            && DisciplinedRun(steps[..n], tickInterval)
            && Disciplined(RunResult(State([], []), steps[..n], tickInterval).0, steps[n], tickInterval)
  {
    hide RunResult, Disciplined;
    var n := |steps| - 1;
    forall m | 0 <= m < n
      ensures Disciplined(RunResult(State([], []), steps[..n][..m], tickInterval).0, steps[..n][m], tickInterval)
    {
      assert steps[..n][..m] == steps[..m] && steps[..n][m] == steps[m];
    }
  }

  // ---- Each addition and removal, by its members ----

  /** Adding fails without a group object or when one of the two addresses is taken, and tells only the new object its address. */
  lemma AddReports(s: State, groupObject: Option<nat>, settings: Settings, tickInterval: int)
    requires WellFormed(s) && tickInterval != 0
    ensures var r := AddResult(s, groupObject, settings, tickInterval);
            var free := groupObject.Some? && !HasKey(s.entries, settings.groupAddress);
            && (r.2 <==> free && (settings.feedbackGroupAddress.Some? ==> !HasKey(s.entries, settings.feedbackGroupAddress.value)))
            && r.1 == (if free then [Linked(groupObject.value, settings.groupAddress)] else [])
            && r.0.items == s.items + (if free then [NewItem(groupObject.value, settings, tickInterval)] else [])
  {
    hide NewItem, Less, LowerBound, Emplace;
    FindExactly(s.entries, settings.groupAddress);
    if groupObject.Some? && settings.feedbackGroupAddress.Some? && !HasKey(s.entries, settings.groupAddress) {
      PrimaryAdded(s, settings.groupAddress, settings.feedbackGroupAddress.value);
    }
  }

  lemma PrimaryAdded(s: State, primary: Address, other: Address)
    requires WellFormed(s) && !HasKey(s.entries, primary)
    ensures Sorted(Emplace(s.entries, primary, |s.items|))
    ensures Find(Emplace(s.entries, primary, |s.items|), other).Some? <==> HasKey(s.entries, other) || other == primary
  {
    hide Less;
    var slot := |s.items|;
    var entries := Emplace(s.entries, primary, slot);
    EmplaceNew(s.entries, primary, slot);
    FindExactly(entries, other);
    if HasKey(entries, other) {
      var i :| 0 <= i < |entries| && entries[i].key == other;
      EmplaceMembers(s.entries, primary, slot, entries[i]);
      InHasKey(s.entries, entries[i]);
    }
    if HasKey(s.entries, other) {
      var i :| 0 <= i < |s.entries| && s.entries[i].key == other;
      EmplaceMembers(s.entries, primary, slot, s.entries[i]);
      InHasKey(entries, s.entries[i]);
    }
    EmplaceMembers(s.entries, primary, slot, Entry(primary, slot));
    InHasKey(entries, Entry(primary, slot));
  }

  lemma InHasKey(entries: seq<Entry<nat>>, e: Entry<nat>)
    ensures e in entries ==> HasKey(entries, e.key)
  {
    if e in entries {
      var i :| 0 <= i < |entries| && entries[i] == e;
    }
  }

  /** An addition adds those own addresses of the item that are free, unless the primary one is taken, and nothing else. */
  lemma AddExactly(s: State, groupObject: Option<nat>, settings: Settings, tickInterval: int, e: Entry<nat>)
    requires WellFormed(s) && tickInterval != 0
    ensures e in AddResult(s, groupObject, settings, tickInterval).0.entries <==>
            e in s.entries
            || (groupObject.Some? && !HasKey(s.entries, settings.groupAddress)
                && e.value == |s.items| && OwnKey(settings, e.key) && !HasKey(s.entries, e.key))
  {
    FindExactly(s.entries, settings.groupAddress);
    if groupObject.Some? && !HasKey(s.entries, settings.groupAddress) {
      AddedKeys(s, groupObject.value, settings, tickInterval, e);
    }
  }

  lemma AddedKeys(s: State, groupObject: nat, settings: Settings, tickInterval: int, e: Entry<nat>)
    requires WellFormed(s) && tickInterval != 0 && !HasKey(s.entries, settings.groupAddress)
    ensures e in AddResult(s, Some(groupObject), settings, tickInterval).0.entries <==>
            e in s.entries || (e.value == |s.items| && OwnKey(settings, e.key) && !HasKey(s.entries, e.key))
  {
    hide NewItem, Less, LowerBound;
    var slot, primary := |s.items|, settings.groupAddress;
    FindExactly(s.entries, primary);
    EmplaceNew(s.entries, primary, slot);
    EmplaceMembers(s.entries, primary, slot, e);
    InHasKey(s.entries, e);
    if settings.feedbackGroupAddress.Some? && settings.feedbackGroupAddress.value != primary {
      var feedback, withPrimary := settings.feedbackGroupAddress.value, Emplace(s.entries, primary, slot);
      PrimaryAdded(s, primary, feedback);
      FindExactly(withPrimary, feedback);
      hide Emplace;
      if HasKey(s.entries, feedback) {
        var i :| 0 <= i < |withPrimary| && withPrimary[i].key == feedback;
        EmplaceTaken(withPrimary, withPrimary[i], slot);
      } else {
        EmplaceMembers(withPrimary, feedback, slot, e);
      }
    }
  }

  /** A removal drops the given key and the found item's feedback key, if the key is there, and changes no item. */
  lemma RemoveExactly(s: State, address: Address, e: Entry<nat>)
    requires WellFormed(s)
    ensures RemoveResult(s, address).1 <==> HasKey(s.entries, address)
    ensures RemoveResult(s, address).0.items == s.items
    ensures !HasKey(s.entries, address) ==> RemoveResult(s, address).0 == s
    ensures forall slot :: Entry(address, slot) in s.entries ==>
              (e in RemoveResult(s, address).0.entries <==>
               e in s.entries && e.key != address && s.items[slot].settings.feedbackGroupAddress != Some(e.key))
  {
    FindExactly(s.entries, address);
    forall slot | Entry(address, slot) in s.entries
      ensures e in RemoveResult(s, address).0.entries <==>
              e in s.entries && e.key != address && s.items[slot].settings.feedbackGroupAddress != Some(e.key)
    {
      InHasKey(s.entries, Entry(address, slot));
      var k :| 0 <= k < |s.entries| && s.entries[k] == Entry(address, slot);
      KeyDetermines(s.entries, k, Find(s.entries, address).value);
      hide RemoveResult;
      RemoveMembers(s, address, e);
    }
  }

  /** The counters of a new item: whole ticks of both times, the poll counter full, the timeout timer off. */
  lemma NewItemFields(groupObject: nat, settings: Settings, tickInterval: nat)
    requires 1 <= tickInterval && 0 <= settings.readRequestPollInterval && 0 <= settings.readResponseTimeout
    requires settings.readRequestPollInterval / tickInterval < 0x1_0000_0000
    requires settings.readResponseTimeout / tickInterval < 0x1_0000_0000
    ensures NewItem(groupObject, settings, tickInterval) ==
            ItemValue(groupObject, settings, settings.readRequestPollInterval / tickInterval,
                      settings.readResponseTimeout / tickInterval,
                      settings.readRequestPollInterval / tickInterval, 0, false)
  {
    WholeTicks(settings.readRequestPollInterval, tickInterval);
    WholeTicks(settings.readResponseTimeout, tickInterval);
  }

  // ---- Adding and removing again ----

  /**
    Removing an item by its primary address right after adding it restores the map if and only if
    the addition returned true. After a collision of the feedback address the addition reports
    failure but stays, and its removal takes the other item's key along.
   */
  lemma AddThenRemove(s: State, groupObject: nat, settings: Settings, tickInterval: int)
    requires WellFormed(s) && tickInterval != 0 && Find(s.entries, settings.groupAddress).None?
    ensures var added := AddResult(s, Some(groupObject), settings, tickInterval);
            && WellFormed(added.0)
            && Find(added.0.entries, settings.groupAddress).Some?
            && (RemoveResult(added.0, settings.groupAddress).0.entries == s.entries <==> added.2)
  {
    AddWellFormed(s, Some(groupObject), settings, tickInterval);
    PrimaryRegistered(s, groupObject, settings, tickInterval);
    hide AddResult, RemoveResult;
    if AddResult(s, Some(groupObject), settings, tickInterval).2 {
      RestoredWhenAdded(s, groupObject, settings, tickInterval);
    } else {
      FeedbackTaken(s, groupObject, settings, tickInterval);
    }
  }

  lemma RestoredWhenAdded(s: State, groupObject: nat, settings: Settings, tickInterval: int)
    requires WellFormed(s) && tickInterval != 0 && Find(s.entries, settings.groupAddress).None?
    requires AddResult(s, Some(groupObject), settings, tickInterval).2
    ensures var added := AddResult(s, Some(groupObject), settings, tickInterval).0;
            WellFormed(added) && RemoveResult(added, settings.groupAddress).0.entries == s.entries
  {
    hide Less, NewItem, LowerBound;
    NewItemSettings(groupObject, settings, tickInterval);
    var slot, primary := |s.items|, settings.groupAddress;
    AddWellFormed(s, Some(groupObject), settings, tickInterval);
    FindExactly(s.entries, primary);
    EmplaceNew(s.entries, primary, slot);
    PrimaryRegistered(s, groupObject, settings, tickInterval);
    var withPrimary := Emplace(s.entries, primary, slot);
    hide Emplace, Erase, Find;
    NothingToErase(s.entries, primary);
    match settings.feedbackGroupAddress
    case None =>
    case Some(feedback) =>
      if feedback != primary {
        FindExactly(withPrimary, feedback);
        EmplaceNew(withPrimary, feedback, slot);
      }
  }

  lemma NothingToErase(entries: seq<Entry<nat>>, key: Address)
    requires Sorted(entries) && !HasKey(entries, key)
    ensures Erase(entries, key) == entries
  {
    FindExactly(entries, key);
  }

  /** The primary entry of an addition that got past its first check leads to the new item. */
  lemma PrimaryRegistered(s: State, groupObject: nat, settings: Settings, tickInterval: int)
    requires WellFormed(s) && tickInterval != 0 && Find(s.entries, settings.groupAddress).None?
    ensures var entries := AddResult(s, Some(groupObject), settings, tickInterval).0.entries;
            var found := Find(entries, settings.groupAddress);
            found.Some? && entries[found.value] == Entry(settings.groupAddress, |s.items|)
  {
    var slot, primary := |s.items|, settings.groupAddress;
    var own := Entry(primary, slot);
    AddWellFormed(s, Some(groupObject), settings, tickInterval);
    FindExactly(s.entries, primary);
    EmplaceNew(s.entries, primary, slot);
    EmplaceMembers(s.entries, primary, slot, own);
    var withPrimary := Emplace(s.entries, primary, slot);
    var entries := AddResult(s, Some(groupObject), settings, tickInterval).0.entries;
    if settings.feedbackGroupAddress.Some? && settings.feedbackGroupAddress.value != primary {
      FindExactly(withPrimary, settings.feedbackGroupAddress.value);
      if !HasKey(withPrimary, settings.feedbackGroupAddress.value) {
        EmplaceMembers(withPrimary, settings.feedbackGroupAddress.value, slot, own);
      }
    }
    assert own in entries;
    var k :| 0 <= k < |entries| && entries[k] == own;
    FindExactly(entries, primary);
    KeyDetermines(entries, k, Find(entries, primary).value);
  }

  lemma FeedbackTaken(s: State, groupObject: nat, settings: Settings, tickInterval: int)
    requires WellFormed(s) && tickInterval != 0 && Find(s.entries, settings.groupAddress).None?
    requires !AddResult(s, Some(groupObject), settings, tickInterval).2
    ensures var added := AddResult(s, Some(groupObject), settings, tickInterval).0;
            WellFormed(added) && RemoveResult(added, settings.groupAddress).0.entries != s.entries
  {
    var added := AddResult(s, Some(groupObject), settings, tickInterval).0;
    var slot, primary, feedback := |s.items|, settings.groupAddress, settings.feedbackGroupAddress.value;
    AddWellFormed(s, Some(groupObject), settings, tickInterval);
    PrimaryRegistered(s, groupObject, settings, tickInterval);
    FindExactly(s.entries, primary);
    EmplaceNew(s.entries, primary, slot);
    FindExactly(Emplace(s.entries, primary, slot), feedback);
    var k :| 0 <= k < |Emplace(s.entries, primary, slot)| && Emplace(s.entries, primary, slot)[k].key == feedback;
    var other := Emplace(s.entries, primary, slot)[k];
    EmplaceMembers(s.entries, primary, slot, other);
    RemoveMembers(added, primary, other);
  }

  /**
    In a clean registry a removal takes keys of the found item only, and takes all of them exactly
    when it names the primary address.
   */
  lemma RemovalComplete(s: State, address: Address)
    requires WellFormed(s) && Clean(s) && Find(s.entries, address).Some?
    ensures var slot := s.entries[Find(s.entries, address).value].value;
            var left := RemoveResult(s, address).0.entries;
            && (forall e :: e in left ==> e in s.entries)
            && (forall e :: e in s.entries && e.value != slot ==> e in left)
            && ((forall e :: e in left ==> e.value != slot) <==> s.items[slot].settings.groupAddress == address)
  {
    var slot := s.entries[Find(s.entries, address).value].value;
    var r := RemoveResult(s, address).0;
    FindExactly(s.entries, address);
    hide RemoveResult, Find;
    forall e: Entry<nat>
      ensures e in r.entries ==> e in s.entries
      ensures e in s.entries && e.value != slot ==> e in r.entries
    {
      RemovedOnlyOwn(s, address, e);
    }
    if s.items[slot].settings.groupAddress == address {
      forall e | e in r.entries
        ensures e.value != slot
      {
        RemovedKeys(s, address, e);
      }
    } else {
      var left := Entry(s.items[slot].settings.groupAddress, slot);
      assert left in s.entries;
      RemoveMembers(s, address, left);
    }
  }

  lemma RemovedOnlyOwn(s: State, address: Address, e: Entry<nat>)
    requires WellFormed(s) && Clean(s) && Find(s.entries, address).Some?
    ensures e in RemoveResult(s, address).0.entries ==> e in s.entries
    ensures e in s.entries && e.value != s.entries[Find(s.entries, address).value].value ==>
              e in RemoveResult(s, address).0.entries
  {
    hide RemoveResult, Find, Less;
    FindExactly(s.entries, address);
    RemoveMembers(s, address, e);
    var found := Find(s.entries, address).value;
    var slot := s.entries[found].value;
    if e in s.entries && e.value != slot {
      var k :| 0 <= k < |s.entries| && s.entries[k] == e;
      if e.key == address {
        KeyDetermines(s.entries, k, found);
      } else if s.items[slot].settings.feedbackGroupAddress == Some(e.key) {
        assert Entry(e.key, slot) in s.entries;
        var m :| 0 <= m < |s.entries| && s.entries[m] == Entry(e.key, slot);
        KeyDetermines(s.entries, k, m);
      }
    }
  }

  lemma FirstAdded(settings: Settings, e: Entry<nat>)
    requires settings.feedbackGroupAddress.None? || settings.feedbackGroupAddress.value != settings.groupAddress
    ensures var added := AddResult(State([], []), Some(7), settings, 1);
            added.2 && WellFormed(added.0) && |added.0.items| == 1 && added.0.items[0].settings == settings
            && (e in added.0.entries <==> e.value == 0 && OwnKey(settings, e.key))
            && (settings.feedbackGroupAddress.None? ==> added.0.entries == [Entry(settings.groupAddress, 0)])
  {
    var s := State([], []);
    FindExactly(s.entries, settings.groupAddress);
    EmplaceMembers(s.entries, settings.groupAddress, 0, e);
    var one := Emplace(s.entries, settings.groupAddress, 0);
    assert one == [Entry(settings.groupAddress, 0)];
    if settings.feedbackGroupAddress.Some? {
      FindExactly(one, settings.feedbackGroupAddress.value);
    }
    AddWellFormed(s, Some(7), settings, 1);
    AddMembers(s, Some(7), settings, 1, e);
  }

  /** Removing item 0/0/1 by its feedback address 0/0/2 leaves its primary key behind. */
  lemma FeedbackRemovalLeavesPrimary(e: Entry<nat>)
    ensures var primary, feedback := Triple(0, 0, 1), Triple(0, 0, 2);
            var added := AddResult(State([], []), Some(7), Settings(primary, Some(feedback), false, 0, 0), 1);
            && added.2 && WellFormed(added.0) && RemoveResult(added.0, feedback).1
            && (e in RemoveResult(added.0, feedback).0.entries <==> e == Entry(primary, 0))
  {
    var primary, feedback := Triple(0, 0, 1), Triple(0, 0, 2);
    var settings := Settings(primary, Some(feedback), false, 0, 0);
    var added := AddResult(State([], []), Some(7), settings, 1).0;
    FirstAdded(settings, e);
    FirstAdded(settings, Entry(feedback, 0));
    hide AddResult;
    FindExactly(added.entries, feedback);
    RemoveMembers(added, feedback, e);
  }

  /**
    Item 0/0/2 with the feedback address of item 0/0/1: its addition fails and stays, and its
    removal leaves the map empty.
   */
  lemma FeedbackCollision(e: Entry<nat>)
    ensures var first := AddResult(State([], []), Some(7), Settings(Triple(0, 0, 1), None, false, 0, 0), 1);
            var second := AddResult(first.0, Some(8), Settings(Triple(0, 0, 2), Some(Triple(0, 0, 1)), false, 0, 0), 1);
            && first.2 && !second.2 && WellFormed(second.0)
            && (e in second.0.entries <==> e == Entry(Triple(0, 0, 1), 0) || e == Entry(Triple(0, 0, 2), 1))
            && e !in RemoveResult(second.0, Triple(0, 0, 2)).0.entries
  {
    var a, b := Triple(0, 0, 1), Triple(0, 0, 2);
    var settings := Settings(b, Some(a), false, 0, 0);
    var s := AddResult(State([], []), Some(7), Settings(a, None, false, 0, 0), 1).0;
    FirstAdded(s.items[0].settings, e);
    CollidingAdd(s, settings, e);
    var second := AddResult(s, Some(8), settings, 1).0;
    hide AddResult;
    RemoveMembers(second, b, e);
  }

  lemma CollidingAdd(s: State, settings: Settings, e: Entry<nat>)
    requires WellFormed(s) && |s.items| == 1 && settings.feedbackGroupAddress.Some?
    requires s.entries == [Entry(settings.feedbackGroupAddress.value, 0)]
    requires settings.feedbackGroupAddress.value != settings.groupAddress
    ensures var added := AddResult(s, Some(8), settings, 1);
            && !added.2 && WellFormed(added.0)
            && (e in added.0.entries <==> e == s.entries[0] || e == Entry(settings.groupAddress, 1))
            && var found := Find(added.0.entries, settings.groupAddress);
            found.Some? && added.0.items[added.0.entries[found.value].value].settings == settings
  {
    hide *;
    var primary, other := settings.groupAddress, s.entries[0];
    OnlyKey(s.entries, primary);
    EmplaceNew(s.entries, primary, 1);
    EmplaceMembers(s.entries, primary, 1, e);
    EmplaceMembers(s.entries, primary, 1, other);
    AddWellFormed(s, Some(8), settings, 1);
    PrimaryRegistered(s, 8, settings, 1);
    NewItemSettings(8, settings, 1);
    RefusedFeedback(s, settings, other);
  }

  lemma OnlyKey(entries: seq<Entry<nat>>, key: Address)
    requires |entries| == 1 && entries[0].key != key
    ensures Sorted(entries) && !HasKey(entries, key) && Find(entries, key).None?
  {
    FindExactly(entries, key);
  }

  lemma RefusedFeedback(s: State, settings: Settings, other: Entry<nat>)
    requires WellFormed(s) && Find(s.entries, settings.groupAddress).None?
    requires settings.feedbackGroupAddress == Some(other.key) && other.key != settings.groupAddress
    requires Sorted(Emplace(s.entries, settings.groupAddress, |s.items|))
    requires other in Emplace(s.entries, settings.groupAddress, |s.items|)
    ensures var added := AddResult(s, Some(8), settings, 1);
            && !added.2 && added.0.entries == Emplace(s.entries, settings.groupAddress, |s.items|)
            && added.0.items == s.items + [NewItem(8, settings, 1)]
  {
    EmplaceTaken(Emplace(s.entries, settings.groupAddress, |s.items|), other, |s.items|);
    hide Emplace, Find, NewItem, Sorted;
  }

  lemma EmplaceTaken(entries: seq<Entry<nat>>, e: Entry<nat>, slot: nat)
    requires Sorted(entries) && e in entries
    ensures Find(entries, e.key).Some? && Emplace(entries, e.key, slot) == entries
  {
    var k :| 0 <= k < |entries| && entries[k] == e;
    FindExactly(entries, e.key);
  }

  // ---- How many keys an item has ----

  function One(b: bool): nat
  {
    if b then 1 else 0
  }

  /** The feedback address, when it is a second one. */
  predicate SecondKey(settings: Settings, key: Address)
  {
    settings.feedbackGroupAddress == Some(key) && key != settings.groupAddress
  }

  /** The item has its second key among these elements. */
  ghost predicate HasSecond(settings: Settings, slot: nat, es: seq<Entry<nat>>)
  {
    exists key :: SecondKey(settings, key) && Entry(key, slot) in es
  }

  lemma NewLastKey(s: State, n: nat)
    requires WellFormed(s) && 0 < n <= |s.entries|
    ensures s.entries[..n] == s.entries[..n - 1] + [s.entries[n - 1]]
    ensures forall f :: f in s.entries[..n - 1] ==> f.key != s.entries[n - 1].key
  {
    hide Less;
    Irreflexive(s.entries[n - 1].key);
    forall f | f in s.entries[..n - 1]
      ensures f.key != s.entries[n - 1].key
    {
      var i :| 0 <= i < n - 1 && s.entries[i] == f;
      assert Less(s.entries[i].key, s.entries[n - 1].key);
    }
  }

  lemma OneMoreKey(settings: Settings, slot: nat, es: seq<Entry<nat>>, e: Entry<nat>)
    requires e.value == slot ==> OwnKey(settings, e.key)
    requires forall f :: f in es ==> f.key != e.key
    ensures One(Entry(settings.groupAddress, slot) in es + [e]) + One(HasSecond(settings, slot, es + [e]))
            == One(Entry(settings.groupAddress, slot) in es) + One(HasSecond(settings, slot, es)) + One(e.value == slot)
  {
    if HasSecond(settings, slot, es) {
      var key :| SecondKey(settings, key) && Entry(key, slot) in es;
      assert Entry(key, slot) in es + [e];
    }
    if e.value == slot {
      assert e == Entry(e.key, slot) && e in es + [e];
    }
  }

  lemma {:induction false} KeysCounted(s: State, slot: nat, n: nat)
    requires WellFormed(s) && Owned(s) && slot < |s.items| && n <= |s.entries|
    ensures var settings := s.items[slot].settings;
            KeyCount(s, slot, n) == One(Entry(settings.groupAddress, slot) in s.entries[..n])
                                    + One(HasSecond(settings, slot, s.entries[..n]))
  {
    if n > 0 {
      KeysCounted(s, slot, n - 1);
      NewLastKey(s, n);
      hide HasSecond;
      OneMoreKey(s.items[slot].settings, slot, s.entries[..n - 1], s.entries[n - 1]);
    }
  }

  /** A registered item has two keys when it has a feedback address other than its primary one, and one otherwise. */
  lemma LiveKeyCount(s: State, live: set<nat>, slot: nat)
    requires WellFormed(s) && Registers(s, live) && slot in live
    ensures var settings := s.items[slot].settings;
            KeyCount(s, slot, |s.entries|) == 1 + One(exists key :: SecondKey(settings, key))
  {
    RegistersClean(s, live);
    KeysCounted(s, slot, |s.entries|);
    assert s.entries[..|s.entries|] == s.entries;
    var settings := s.items[slot].settings;
    assert Entry(settings.groupAddress, slot) in s.entries;
    if exists key :: SecondKey(settings, key) {
      var key :| SecondKey(settings, key);
      assert Entry(key, slot) in s.entries;
    }
  }

  /** In every run no item has more than two keys. */
  lemma AtMostTwoKeys(steps: seq<Step>, tickInterval: int, slot: nat)
    requires AllPossible(steps) && tickInterval != 0
    ensures var s := RunResult(State([], []), steps, tickInterval).0;
            slot < |s.items| ==> KeyCount(s, slot, |s.entries|) <= 2
  {
    var s := RunResult(State([], []), steps, tickInterval).0;
    RunOwned(steps, tickInterval);
    if slot < |s.items| {
      KeysCounted(s, slot, |s.entries|);
    }
  }

  // ---- Who hears what ----

  datatype Kind = Sent | Signal | Delivery

  predicate IsKind(a: Action, kind: Kind)
  {
    match kind
    case Sent => a.Transmitted?
    case Signal => a.Signalled?
    case Delivery => a.Delivered?
  }

  /** The actions of one kind, in order. */
  function OfKind(actions: seq<Action>, kind: Kind): seq<Action>
  {
    if actions == [] then []
    else
      var last := actions[|actions| - 1];
      OfKind(actions[..|actions| - 1], kind) + (if IsKind(last, kind) then [last] else [])
  }

  lemma {:induction false} OfKindConcat(a: seq<Action>, b: seq<Action>, kind: Kind)
    ensures OfKind(a + b, kind) == OfKind(a, kind) + OfKind(b, kind)
  {
    if b == [] {
      assert a + b == a;
    } else {
      OfKindConcat(a, b[..|b| - 1], kind);
      assert (a + b)[..|a + b| - 1] == a + b[..|b| - 1];
    }
  }

  /** Actions all of one kind. */
  lemma {:induction false} OneKind(actions: seq<Action>, own: Kind, kind: Kind)
    requires forall a :: a in actions ==> IsKind(a, own)
    ensures OfKind(actions, kind) == if kind == own then actions else []
  {
    if actions != [] {
      OneKind(actions[..|actions| - 1], own, kind);
      assert actions[|actions| - 1] in actions;
    }
  }

  lemma KindsInTurn(sent: seq<Action>, signals: seq<Action>, deliveries: seq<Action>, kind: Kind)
    requires forall a :: a in sent ==> a.Transmitted?
    requires forall a :: a in signals ==> a.Signalled?
    requires forall a :: a in deliveries ==> a.Delivered?
    ensures OfKind(sent + signals + deliveries, kind) ==
            match kind
            case Sent => sent
            case Signal => signals
            case Delivery => deliveries
  {
    hide OfKind;
    OneKind(sent, Sent, kind);
    OneKind(signals, Signal, kind);
    OneKind(deliveries, Delivery, kind);
    OfKindConcat(sent, signals, kind);
    OfKindConcat(sent + signals, deliveries, kind);
  }

  lemma {:induction false} AllSignals(s: State, event: KnxEvent, n: nat)
    requires WellFormed(s) && n <= |s.entries|
    ensures forall a :: a in Signals(s, event, n) ==> a.Signalled?
  {
    if n > 0 {
      AllSignals(s, event, n - 1);
    }
  }

  lemma DispatchDelivers(s: State, telegram: TelegramValue)
    requires WellFormed(s) && telegram.receiver < UINT16_LIMIT
    ensures forall a :: a in DispatchResult(s, telegram).1 ==> a.Delivered?
  {
  }

  /** What one notification sends, signals and delivers. */
  lemma NotificationByKind(s: State, event: KnxEvent, telegram: TelegramValue, kind: Kind)
    requires WellFormed(s) && telegram.receiver < UINT16_LIMIT
    ensures OfKind(NotifyResult(s, event, telegram).1, kind) ==
            match kind
            case Sent => if event == KnxdSocketConnected then ConnectReads(s, |s.entries|) else []
            case Signal => Signals(s, event, |s.entries|)
            case Delivery => DispatchResult(s, telegram).1
  {
    var startReads := if event == KnxdSocketConnected then ConnectReads(s, |s.entries|) else [];
    StartReadsAscend(s, |s.entries|);
    AllSignals(s, event, |s.entries|);
    DispatchDelivers(s, telegram);
    hide ConnectReads, Signals, DispatchResult, OfKind;
    KindsInTurn(startReads, Signals(s, event, |s.entries|), DispatchResult(s, telegram).1, kind);
  }

  /** Start-up reads come first, then the signals, then the delivery. */
  lemma NotificationOrder(s: State, event: KnxEvent, telegram: TelegramValue)
    requires WellFormed(s) && telegram.receiver < UINT16_LIMIT
    ensures var actions := NotifyResult(s, event, telegram).1;
            actions == OfKind(actions, Sent) + OfKind(actions, Signal) + OfKind(actions, Delivery)
  {
    NotificationByKind(s, event, telegram, Sent);
    NotificationByKind(s, event, telegram, Signal);
    NotificationByKind(s, event, telegram, Delivery);
    hide ConnectReads, Signals, DispatchResult, OfKind;
  }

  /**
    The telegram is all that a notification delivers, once, to the item registered at its receiver;
    nothing is delivered when it is not group addressed or no item is registered there.
   */
  lemma DeliveredExactly(s: State, event: KnxEvent, telegram: TelegramValue, slot: nat)
    requires WellFormed(s) && telegram.receiver < UINT16_LIMIT && slot < |s.items|
    ensures var deliveries := OfKind(NotifyResult(s, event, telegram).1, Delivery);
            var key := OfEib(telegram.receiver);
            && (deliveries == [Delivered(slot, s.items[slot].groupObject, key, telegram.tpdu.apci, telegram.tpdu.payload)] <==>
                telegram.grouped && Entry(key, slot) in s.entries)
            && (deliveries == [] <==> !(telegram.grouped && HasKey(s.entries, key)))
  {
    NotificationByKind(s, event, telegram, Delivery);
    hide NotifyResult, OfKind;
    var key := OfEib(telegram.receiver);
    FindExactly(s.entries, key);
    if Entry(key, slot) in s.entries {
      var k :| 0 <= k < |s.entries| && s.entries[k] == Entry(key, slot);
      KeyDetermines(s.entries, k, Find(s.entries, key).value);
    }
  }

  /** A response is code 1 in a group telegram to an address under which the item is registered. */
  lemma AnswersExactly(s: State, telegram: TelegramValue, slot: nat)
    requires WellFormed(s) && telegram.receiver < UINT16_LIMIT
    ensures Answers(s, telegram, slot) <==>
            telegram.grouped && telegram.tpdu.apci == 1 && Entry(OfEib(telegram.receiver), slot) in s.entries
  {
    var key := OfEib(telegram.receiver);
    FindExactly(s.entries, key);
    if Entry(key, slot) in s.entries {
      InHasKey(s.entries, Entry(key, slot));
      var k :| 0 <= k < |s.entries| && s.entries[k] == Entry(key, slot);
      KeyDetermines(s.entries, k, Find(s.entries, key).value);
    }
  }

  /** A notification turns off the timeout timer of the item that its telegram answers, and changes nothing else. */
  lemma DisarmedExactly(s: State, event: KnxEvent, telegram: TelegramValue, slot: nat)
    requires WellFormed(s) && telegram.receiver < UINT16_LIMIT && slot < |s.items|
    ensures var after, item := NotifyResult(s, event, telegram).0, s.items[slot];
            var answered := telegram.grouped && telegram.tpdu.apci == 1 && Entry(OfEib(telegram.receiver), slot) in s.entries;
            && after.entries == s.entries && |after.items| == |s.items|
            && after.items[slot] == item.(startTimeoutTimer := item.startTimeoutTimer && !answered)
  {
    AnswersExactly(s, telegram, slot);
  }

  function SignalCount(actions: seq<Action>, slot: nat): nat
  {
    if actions == [] then 0
    else
      var last := actions[|actions| - 1];
      SignalCount(actions[..|actions| - 1], slot) + (if last.Signalled? && last.slot == slot then 1 else 0)
  }

  lemma {:induction false} SignalsToOwners(s: State, event: KnxEvent, n: nat, a: Action)
    requires WellFormed(s) && n <= |s.entries| && a in Signals(s, event, n)
    ensures a.Signalled? && a.event == event && a.slot < |s.items| && a.groupObject == s.items[a.slot].groupObject
  {
    if a in Signals(s, event, n - 1) {
      SignalsToOwners(s, event, n - 1, a);
    }
  }

  lemma {:induction false} SignalsCounted(s: State, event: KnxEvent, n: nat, slot: nat)
    requires WellFormed(s) && n <= |s.entries|
    ensures SignalCount(Signals(s, event, n), slot) == KeyCount(s, slot, n)
  {
    if n > 0 {
      SignalsCounted(s, event, n - 1, slot);
      assert Signals(s, event, n)[..|Signals(s, event, n)| - 1] == Signals(s, event, n - 1);
    }
  }

  /** A notification signals its event, and no other, to the group object of every item once for each of the item's keys. */
  lemma SignalledPerKey(s: State, event: KnxEvent, telegram: TelegramValue, slot: nat)
    requires WellFormed(s) && telegram.receiver < UINT16_LIMIT
    ensures var signals := OfKind(NotifyResult(s, event, telegram).1, Signal);
            && SignalCount(signals, slot) == KeyCount(s, slot, |s.entries|)
            && forall a :: a in signals ==>
                 a.Signalled? && a.event == event && a.slot < |s.items| && a.groupObject == s.items[a.slot].groupObject
  {
    NotificationByKind(s, event, telegram, Signal);
    SignalsCounted(s, event, |s.entries|, slot);
    forall a | a in Signals(s, event, |s.entries|)
      ensures a.Signalled? && a.event == event && a.slot < |s.items| && a.groupObject == s.items[a.slot].groupObject
    {
      SignalsToOwners(s, event, |s.entries|, a);
    }
  }

  /** The start-up reads go to strictly ascending addresses. */
  predicate Ascending(actions: seq<Action>)
  {
    && (forall i :: 0 <= i < |actions| ==> actions[i].Transmitted?)
    && forall i, j :: 0 <= i < j < |actions| ==> actions[i].telegram.receiver < actions[j].telegram.receiver
  }

  lemma {:induction false} StartReadsAscend(s: State, n: nat)
    requires WellFormed(s) && n <= |s.entries|
    ensures Ascending(ConnectReads(s, n))
    ensures forall a :: a in ConnectReads(s, n) ==>
              a.Transmitted? && exists i :: 0 <= i < n && a.telegram == ReadRequest(s.entries[i].key)
  {
    if n > 0 {
      StartReadsAscend(s, n - 1);
      assert forall i :: 0 <= i < n - 1 ==> Less(s.entries[i].key, s.entries[n - 1].key);
    }
  }

  /** Whether a start-up read for the key is among the actions. */
  ghost predicate ReadSent(actions: seq<Action>, key: Address)
  {
    exists a :: a in actions && a.Transmitted? && a.telegram == ReadRequest(key)
  }

  predicate WantsRead(s: State, i: nat, key: Address)
    requires WellFormed(s) && i < |s.entries|
  {
    s.entries[i].key == key && s.items[s.entries[i].value].settings.readRequestAfterStart
  }

  lemma ReadRequestNamesKey(a: Address, b: Address)
    ensures ReadRequest(a) == ReadRequest(b) <==> a == b
  {
    OfEibOfAddress(a);
    OfEibOfAddress(b);
  }

  lemma {:induction false} StartReadsExactly(s: State, n: nat, key: Address)
    requires WellFormed(s) && n <= |s.entries|
    ensures ReadSent(ConnectReads(s, n), key) <==> exists i :: 0 <= i < n && WantsRead(s, i, key)
  {
    hide ReadRequest;
    if n > 0 {
      StartReadsExactly(s, n - 1, key);
      var e := s.entries[n - 1];
      var before := ConnectReads(s, n - 1);
      ReadRequestNamesKey(e.key, key);
      if ReadSent(before, key) {
        var a :| a in before && a.Transmitted? && a.telegram == ReadRequest(key);
        assert a in ConnectReads(s, n);
      }
      if WantsRead(s, n - 1, key) {
        assert Transmitted(OnConnect(e.value), ReadRequest(e.key)) in ConnectReads(s, n);
      }
    }
  }

  lemma NothingRead(key: Address)
    ensures !ReadSent([], key) && Ascending([])
  {
  }

  /**
    On connection one read goes out for each key that asks for it, and for no other, in address
    order; on any other event nothing is sent.
   */
  lemma StartReads(s: State, event: KnxEvent, telegram: TelegramValue, key: Address)
    requires WellFormed(s) && telegram.receiver < UINT16_LIMIT
    ensures var sent := OfKind(NotifyResult(s, event, telegram).1, Sent);
            && Ascending(sent)
            && (ReadSent(sent, key) <==>
                event == KnxdSocketConnected && exists i :: 0 <= i < |s.entries| && WantsRead(s, i, key))
            && forall a :: a in sent ==>
                 a.Transmitted? && exists i :: 0 <= i < |s.entries| && a.telegram == ReadRequest(s.entries[i].key)
  {
    hide NotifyResult, OfKind, ConnectReads, ReadSent, WantsRead;
    NotificationByKind(s, event, telegram, Sent);
    StartReadsAscend(s, |s.entries|);
    StartReadsExactly(s, |s.entries|, key);
    NothingRead(key);
  }

  // ---- Where poll reads go ----

  predicate IsPollRead(a: Action, e: Entry<nat>)
  {
    a == Transmitted(OnPoll(e.value), ReadRequest(e.key))
  }

  lemma {:induction false} TickReads(s: State, n: nat, a: Action)
    requires WellFormed(s) && n <= |s.entries| && a in TickUpTo(s, n).1 && a.Transmitted?
    ensures exists i :: 0 <= i < n && IsPollRead(a, s.entries[i])
  {
    var before, e := TickUpTo(s, n - 1), s.entries[n - 1];
    var visited := VisitResult(before.0.items[e.value], e.value, e.key);
    if a in before.1 {
      TickReads(s, n - 1, a);
    } else {
      assert a in visited.1;
      assert IsPollRead(a, e);
    }
  }

  lemma {:induction false} TickSends(s: State, n: nat, a: Action)
    requires WellFormed(s) && n <= |s.entries| && a in OfKind(TickUpTo(s, n).1, Sent)
    ensures a.Transmitted? && exists i :: 0 <= i < n && IsPollRead(a, s.entries[i])
  {
    OfKindMember(TickUpTo(s, n).1, Sent, a);
    TickReads(s, n, a);
  }

  lemma {:induction false} OfKindMember(actions: seq<Action>, kind: Kind, a: Action)
    ensures a in OfKind(actions, kind) <==> a in actions && IsKind(a, kind)
  {
    if actions != [] {
      OfKindMember(actions[..|actions| - 1], kind, a);
      assert actions == actions[..|actions| - 1] + [actions[|actions| - 1]];
    }
  }

  lemma VisitSends(item: ItemValue, slot: nat, key: Address)
    ensures var sent := OfKind(VisitResult(item, slot, key).1, Sent);
            sent == [] || sent == [Transmitted(OnPoll(slot), ReadRequest(key))]
  {
    var timeout, poll := TimeoutResult(item, slot), PollResult(TimeoutResult(item, slot).0, slot, key);
    OfKindConcat(timeout.1, poll.1, Sent);
    if timeout.1 != [] {
      assert timeout.1[..0] == [];
    }
    if poll.1 != [] {
      OneKind(poll.1, Sent, Sent);
    }
  }

  lemma AscendingAppend(actions: seq<Action>, a: Action)
    requires Ascending(actions) && a.Transmitted?
    requires forall b :: b in actions ==> b.Transmitted? && b.telegram.receiver < a.telegram.receiver
    ensures Ascending(actions + [a])
  {
  }

  lemma TickStepSends(s: State, n: nat)
    requires WellFormed(s) && 0 < n <= |s.entries|
    ensures var e := s.entries[n - 1];
            var before, after := OfKind(TickUpTo(s, n - 1).1, Sent), OfKind(TickUpTo(s, n).1, Sent);
            after == before || after == before + [Transmitted(OnPoll(e.value), ReadRequest(e.key))]
  {
    var before, e := TickUpTo(s, n - 1), s.entries[n - 1];
    var visited := VisitResult(before.0.items[e.value], e.value, e.key);
    assert TickUpTo(s, n).1 == before.1 + visited.1;
    OfKindConcat(before.1, visited.1, Sent);
    VisitSends(before.0.items[e.value], e.value, e.key);
    hide *;
    assert OfKind(before.1, Sent) + [] == OfKind(before.1, Sent);
  }

  lemma EarlierReads(s: State, n: nat, b: Action)
    requires WellFormed(s) && 0 < n <= |s.entries| && b in OfKind(TickUpTo(s, n - 1).1, Sent)
    ensures b.Transmitted? && b.telegram.receiver < Eib(s.entries[n - 1].key)
  {
    SortedKeys(s, n);
    hide *;
    TickSends(s, n - 1, b);
    var i :| 0 <= i < n - 1 && IsPollRead(b, s.entries[i]);
    PollReadReceiver(b, s.entries[i]);
  }

  lemma SortedKeys(s: State, n: nat)
    requires WellFormed(s) && 0 < n <= |s.entries|
    ensures forall i :: 0 <= i < n - 1 ==> Eib(s.entries[i].key) < Eib(s.entries[n - 1].key)
  {
    hide Eib;
    assert forall i :: 0 <= i < n - 1 ==> Less(s.entries[i].key, s.entries[n - 1].key);
  }

  lemma PollReadReceiver(a: Action, e: Entry<nat>)
    requires IsPollRead(a, e)
    ensures a.Transmitted? && a.telegram.receiver == Eib(e.key)
  {
    hide Eib;
  }

  lemma NoReads(s: State)
    requires WellFormed(s)
    ensures Ascending(OfKind(TickUpTo(s, 0).1, Sent))
  {
  }

  /** The poll reads of one tick go out in strictly ascending address order. */
  lemma {:induction false} TickReadsAscend(s: State, n: nat)
    requires WellFormed(s) && n <= |s.entries|
    ensures Ascending(OfKind(TickUpTo(s, n).1, Sent))
  {
    hide TickUpTo, OfKind, Ascending;
    if n == 0 {
      NoReads(s);
    } else {
      TickReadsAscend(s, n - 1);
      TickStepSends(s, n);
      var sent, e := OfKind(TickUpTo(s, n - 1).1, Sent), s.entries[n - 1];
      forall b | b in sent
        ensures b.Transmitted? && b.telegram.receiver < Eib(e.key)
      {
        EarlierReads(s, n, b);
      }
      AscendingAppend(sent, Transmitted(OnPoll(e.value), ReadRequest(e.key)));
    }
  }

  /** A poll read that a step sends goes to an address under which its item is registered at that moment. */
  lemma StepReads(s: State, step: Step, tickInterval: int, a: Action)
    requires WellFormed(s) && Possible(step) && tickInterval != 0
    requires a in StepResult(s, step, tickInterval).1 && a.Transmitted? && a.cause.OnPoll?
    ensures step.Tick? && exists i :: 0 <= i < |s.entries| && IsPollRead(a, s.entries[i])
  {
    match step
    case Tick => TickReads(s, |s.entries|, a);
    case Bus(event, telegram) =>
      StartReadsByConnection(s, |s.entries|);
      AllSignals(s, event, |s.entries|);
      DispatchDelivers(s, telegram);
      hide ConnectReads, Signals, DispatchResult;
    case Add(_, _) =>
    case Remove(_) =>
  }

  lemma {:induction false} StartReadsByConnection(s: State, n: nat)
    requires WellFormed(s) && n <= |s.entries|
    ensures forall a :: a in ConnectReads(s, n) ==> a.Transmitted? && a.cause.OnConnect?
  {
    if n > 0 {
      StartReadsByConnection(s, n - 1);
    }
  }

  /** So in every run. */
  lemma {:induction false} PollReadsInRun(s: State, steps: seq<Step>, tickInterval: int, a: Action)
    requires WellFormed(s) && AllPossible(steps) && tickInterval != 0
    requires a in RunResult(s, steps, tickInterval).1 && a.Transmitted? && a.cause.OnPoll?
    ensures exists n, i :: 0 <= n < |steps| && steps[n].Tick?
                           && 0 <= i < |Before(s, steps, tickInterval, n).entries|
                           && IsPollRead(a, Before(s, steps, tickInterval, n).entries[i])
  {
    hide StepResult, IsPollRead;
    var last := |steps| - 1;
    var init := steps[..last];
    if a in RunResult(s, init, tickInterval).1 {
      PollReadsInRun(s, init, tickInterval, a);
      var n, i :| 0 <= n < |init| && init[n].Tick? && 0 <= i < |Before(s, init, tickInterval, n).entries|
                  && IsPollRead(a, Before(s, init, tickInterval, n).entries[i]);
      assert init[..n] == steps[..n] && init[n] == steps[n];
      assert Before(s, steps, tickInterval, n) == Before(s, init, tickInterval, n);
    } else {
      StepReads(RunResult(s, init, tickInterval).0, steps[last], tickInterval, a);
      assert Before(s, steps, tickInterval, last) == RunResult(s, init, tickInterval).0;
    }
  }
}
