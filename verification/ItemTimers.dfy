/**
  One item's poll and timeout counters over any sequence of visits and answers. A visit is one
  loop iteration of a tick for one key of the item; an answer is a GroupValueResponse to one of
  its addresses.
 */
module ItemTimers {
  import opened Bits
  import opened GroupAddress
  import opened ControllerSpec

  datatype ItemEvent = Visit(key: Address) | Answer

  function AfterEvent(item: ItemValue, slot: nat, e: ItemEvent): ItemValue
  {
    match e
    case Visit(key) => VisitResult(item, slot, key).0
    case Answer => item.(startTimeoutTimer := false)
  }

  function EventActions(item: ItemValue, slot: nat, e: ItemEvent): seq<Action>
  {
    match e
    case Visit(key) => VisitResult(item, slot, key).1
    case Answer => []
  }

  function AfterEvents(item: ItemValue, slot: nat, es: seq<ItemEvent>): ItemValue
  {
    if es == [] then item
    else AfterEvent(AfterEvents(item, slot, es[..|es| - 1]), slot, es[|es| - 1])
  }

  /** What the event at index j makes the controller do. */
  function ActionsAt(item: ItemValue, slot: nat, es: seq<ItemEvent>, j: nat): seq<Action>
    requires j < |es|
  {
    EventActions(AfterEvents(item, slot, es[..j]), slot, es[j])
  }

  function AllActions(item: ItemValue, slot: nat, es: seq<ItemEvent>): seq<Action>
  {
    if es == [] then []
    else AllActions(item, slot, es[..|es| - 1]) + EventActions(AfterEvents(item, slot, es[..|es| - 1]), slot, es[|es| - 1])
  }

  /** An item as AddGroupObject makes it. */
  predicate Fresh(item: ItemValue)
  {
    item.counter == item.pollInterval && !item.startTimeoutTimer
  }

  // ---- What the past says, without the counters ----

  function Visits(es: seq<ItemEvent>): nat
  {
    if es == [] then 0 else Visits(es[..|es| - 1]) + (if es[|es| - 1].Visit? then 1 else 0)
  }

  /** Visits since the last poll, for an item that polls on every (P+1)-th visit. */
  function SincePoll(p: nat, es: seq<ItemEvent>): nat
  {
    Visits(es) % (p + 1)
  }

  /** Whether an answer has come since the last poll. */
  predicate Answered(p: nat, es: seq<ItemEvent>)
  {
    es != [] && (es[|es| - 1].Answer? || (SincePoll(p, es) != 0 && Answered(p, es[..|es| - 1])))
  }

  /** A poll is out, unanswered, and its time is not up. */
  predicate Waiting(p: nat, t: nat, es: seq<ItemEvent>)
  {
    Visits(es) >= p + 1 && !Answered(p, es) && SincePoll(p, es) <= t
  }

  lemma CountUp(n: nat, d: nat)
    requires d >= 1
    ensures (n + 1) % d == (if n % d == d - 1 then 0 else n % d + 1)
    ensures (n + 1) / d == (if n % d == d - 1 then n / d + 1 else n / d)
  {
    var q, r := n / d, n % d;
    assert n == d * q + r;
    if r == d - 1 {
      assert n + 1 == d * (q + 1) + 0;
      ModUnique(n + 1, d, q + 1, 0);
    } else {
      ModUnique(n + 1, d, q, r + 1);
    }
  }

  /** The counters in closed form; an armed item has spent as much of its timeout as of its poll interval. */
  predicate Explained(item: ItemValue, es: seq<ItemEvent>, now: ItemValue)
  {
    var p, t := item.pollInterval, item.timeout;
    && now.pollInterval == p && now.timeout == t && now.groupObject == item.groupObject
    && now.counter == p - SincePoll(p, es)
    && (t > 0 ==> (now.startTimeoutTimer <==> Waiting(p, t, es)))
    && (t > 0 && now.startTimeoutTimer ==> now.timeoutCounter == t - SincePoll(p, es)
                                           && p - now.counter == t - now.timeoutCounter)
  }

  lemma ExplainedStep(item: ItemValue, slot: nat, es: seq<ItemEvent>, e: ItemEvent, now: ItemValue)
    requires item.pollInterval > 0 && Explained(item, es, now)
    ensures Explained(item, es + [e], AfterEvent(now, slot, e))
    ensures EventActions(now, slot, e) == Expected(item, slot, es, e)
  {
    var p := item.pollInterval;
    assert (es + [e])[..|es|] == es;
    CountUp(Visits(es), p + 1);
    if Visits(es) < p + 1 {
      FewVisits(Visits(es), p);
    }
  }

  lemma FewVisits(v: nat, p: nat)
    requires v < p + 1
    ensures v % (p + 1) == v
  {
    ModUnique(v, p + 1, 0, v);
  }

  /** What an event after es must make the controller do: a timeout first, then a poll. */
  function Expected(item: ItemValue, slot: nat, es: seq<ItemEvent>, e: ItemEvent): seq<Action>
  {
    var p, t := item.pollInterval, item.timeout;
    if e.Answer? then []
    else
      (if t > 0 && Waiting(p, t, es) && SincePoll(p, es) == t then [TimedOut(slot, item.groupObject)] else []) +
      (if SincePoll(p, es) == p then [Transmitted(OnPoll(slot), ReadRequest(e.key))] else [])
  }

  lemma {:induction false} CountersExplained(item: ItemValue, slot: nat, es: seq<ItemEvent>)
    requires Fresh(item) && item.pollInterval > 0
    ensures Explained(item, es, AfterEvents(item, slot, es))
  {
    if es != [] {
      var init := es[..|es| - 1];
      CountersExplained(item, slot, init);
      ExplainedStep(item, slot, init, es[|es| - 1], AfterEvents(item, slot, init));
      assert init + [es[|es| - 1]] == es;
    } else {
      FewVisits(0, item.pollInterval);
    }
  }

  /** Every action at every moment of every history, from the history alone. */
  lemma ActionsExplained(item: ItemValue, slot: nat, es: seq<ItemEvent>, j: nat)
    requires Fresh(item) && item.pollInterval > 0 && j < |es|
    ensures ActionsAt(item, slot, es, j) == Expected(item, slot, es[..j], es[j])
  {
    CountersExplained(item, slot, es[..j]);
    ExplainedStep(item, slot, es[..j], es[j], AfterEvents(item, slot, es[..j]));
  }

  /** Without a poll interval nothing is ever sent or signalled. */
  lemma {:induction false} NoPollNoAction(item: ItemValue, slot: nat, es: seq<ItemEvent>)
    requires Fresh(item) && item.pollInterval == 0
    ensures AllActions(item, slot, es) == []
    ensures !AfterEvents(item, slot, es).startTimeoutTimer && AfterEvents(item, slot, es).pollInterval == 0
  {
    if es != [] {
      NoPollNoAction(item, slot, es[..|es| - 1]);
    }
  }

  // ---- Polls ----

  predicate PollsAt(item: ItemValue, slot: nat, es: seq<ItemEvent>, j: nat)
    requires j < |es|
  {
    exists k :: 0 <= k < |ActionsAt(item, slot, es, j)| && ActionsAt(item, slot, es, j)[k].Transmitted?
  }

  predicate TimesOutAt(item: ItemValue, slot: nat, es: seq<ItemEvent>, j: nat)
    requires j < |es|
  {
    TimedOut(slot, item.groupObject) in ActionsAt(item, slot, es, j)
  }

  lemma PollsExactly(item: ItemValue, slot: nat, es: seq<ItemEvent>, j: nat)
    requires Fresh(item) && item.pollInterval > 0 && j < |es|
    ensures PollsAt(item, slot, es, j) <==> es[j].Visit? && SincePoll(item.pollInterval, es[..j + 1]) == 0
  {
    ActionsExplained(item, slot, es, j);
    assert es[..j + 1][..j] == es[..j];
    CountUp(Visits(es[..j]), item.pollInterval + 1);
    var actions := ActionsAt(item, slot, es, j);
    if es[j].Visit? && SincePoll(item.pollInterval, es[..j]) == item.pollInterval {
      assert actions[|actions| - 1].Transmitted?;
    }
  }

  function Polls(actions: seq<Action>, slot: nat): nat
  {
    if actions == [] then 0
    else
      var last := actions[|actions| - 1];
      Polls(actions[..|actions| - 1], slot) + (if last.Transmitted? && last.cause == OnPoll(slot) then 1 else 0)
  }

  lemma {:induction false} PollsConcat(a: seq<Action>, b: seq<Action>, slot: nat)
    ensures Polls(a + b, slot) == Polls(a, slot) + Polls(b, slot)
  {
    if b == [] {
      assert a + b == a;
    } else {
      PollsConcat(a, b[..|b| - 1], slot);
      assert (a + b)[..|a + b| - 1] == a + b[..|b| - 1];
    }
  }

  lemma PollsExpected(item: ItemValue, slot: nat, es: seq<ItemEvent>, e: ItemEvent)
    ensures Polls(Expected(item, slot, es, e), slot)
            == if e.Visit? && SincePoll(item.pollInterval, es) == item.pollInterval then 1 else 0
  {
    hide Waiting, SincePoll, ReadRequest;
    if e.Visit? {
      var timeout := if item.timeout > 0 && Waiting(item.pollInterval, item.timeout, es)
                        && SincePoll(item.pollInterval, es) == item.timeout
                     then [TimedOut(slot, item.groupObject)] else [];
      var poll := if SincePoll(item.pollInterval, es) == item.pollInterval
                  then [Transmitted(OnPoll(slot), ReadRequest(e.key))] else [];
      PollsConcat(timeout, poll, slot);
      if timeout != [] {
        PollsSingle(timeout[0], slot);
      }
      if poll != [] {
        PollsSingle(poll[0], slot);
      }
    }
  }

  lemma PollsSingle(a: Action, slot: nat)
    ensures Polls([a], slot) == if a.Transmitted? && a.cause == OnPoll(slot) then 1 else 0
  {
    assert [a][..0] == [];
  }

  /** The number of poll reads is the number of visits divided by P+1. */
  lemma {:induction false} PollConservation(item: ItemValue, slot: nat, es: seq<ItemEvent>)
    requires Fresh(item) && item.pollInterval > 0
    ensures Polls(AllActions(item, slot, es), slot) == Visits(es) / (item.pollInterval + 1)
  {
    var d := item.pollInterval + 1;
    if es == [] {
      ModUnique(0, d, 0, 0);
    } else {
      var j := |es| - 1;
      PollConservation(item, slot, es[..j]);
      ActionsExplained(item, slot, es, j);
      PollsExpected(item, slot, es[..j], es[j]);
      PollsConcat(AllActions(item, slot, es[..j]), ActionsAt(item, slot, es, j), slot);
      CountUp(Visits(es[..j]), d);
    }
  }

  // ---- Timeouts ----

  predicate NoAnswer(es: seq<ItemEvent>, i: nat, j: nat)
    requires i <= j <= |es|
  {
    forall k :: i <= k < j ==> es[k].Visit?
  }

  lemma {:induction false} VisitsSplit(es: seq<ItemEvent>, i: nat)
    requires i <= |es|
    ensures Visits(es) == Visits(es[..i]) + Visits(es[i..])
  {
    if i == |es| {
      assert es[..i] == es && es[i..] == [];
    } else {
      var n := |es| - 1;
      VisitsSplit(es[..n], i);
      assert es[..n][..i] == es[..i];
      assert es[i..][..n - i] == es[..n][i..];
    }
  }

  /** The moment of the last poll, when one is out and unanswered. */
  lemma {:induction false} LastPoll(p: nat, es: seq<ItemEvent>) returns (i: nat)
    requires Visits(es) >= p + 1 && !Answered(p, es)
    ensures i < |es| && es[i].Visit? && SincePoll(p, es[..i + 1]) == 0
    ensures NoAnswer(es, i + 1, |es|) && Visits(es[i + 1..]) == SincePoll(p, es)
  {
    var n := |es| - 1;
    assert es[n].Visit?;
    if SincePoll(p, es) == 0 {
      i := n;
      assert es[..n + 1] == es;
    } else {
      CountUp(Visits(es[..n]), p + 1);
      if Visits(es[..n]) < p + 1 {
        FewVisits(Visits(es[..n]), p);
      }
      i := LastPoll(p, es[..n]);
      assert es[..n][..i + 1] == es[..i + 1];
      assert es[i + 1..][..n - (i + 1)] == es[..n][i + 1..];
      assert forall k :: i + 1 <= k < n ==> es[k] == es[..n][k];
    }
  }

  /** A poll with no answer after it and at most P visits after it is the last one, and still unanswered. */
  lemma {:induction false} StillUnanswered(p: nat, es: seq<ItemEvent>, i: nat)
    requires i < |es| && es[i].Visit? && SincePoll(p, es[..i + 1]) == 0
    requires NoAnswer(es, i + 1, |es|) && Visits(es[i + 1..]) <= p
    ensures Visits(es) >= p + 1 && !Answered(p, es) && SincePoll(p, es) == Visits(es[i + 1..])
  {
    var n := |es| - 1;
    VisitsSplit(es, i + 1);
    if i == n {
      assert es[..i + 1] == es;
      FirstPollVisits(p, es);
    } else {
      assert es[..n][..i + 1] == es[..i + 1];
      assert es[i + 1..][..n - (i + 1)] == es[..n][i + 1..];
      StillUnanswered(p, es[..n], i);
      CountUp(Visits(es[..n]), p + 1);
    }
  }

  lemma FirstPollVisits(p: nat, es: seq<ItemEvent>)
    requires es != [] && es[|es| - 1].Visit? && SincePoll(p, es) == 0
    ensures Visits(es) >= p + 1
  {
    if Visits(es) < p + 1 {
      FewVisits(Visits(es), p);
    }
  }

  /** Poll i is followed, through visit j, by exactly T+1 visits and by no answer. */
  predicate OverdueAt(item: ItemValue, slot: nat, es: seq<ItemEvent>, i: nat, j: nat)
    requires i < j < |es|
  {
    PollsAt(item, slot, es, i) && NoAnswer(es, i + 1, j) && Visits(es[i + 1..j + 1]) == item.timeout + 1
  }

  lemma OverdueVisits(es: seq<ItemEvent>, i: nat, j: nat)
    requires i < j < |es| && es[j].Visit?
    ensures Visits(es[i + 1..j + 1]) == Visits(es[..j][i + 1..]) + 1
  {
    assert es[i + 1..j + 1][..j - (i + 1)] == es[..j][i + 1..];
  }

  /**
    A visit signals a timeout if and only if a timeout is configured that is no longer than the
    poll interval and the visit is the (T+1)-th after a poll that nothing has answered since.
   */
  lemma TimeoutExactly(item: ItemValue, slot: nat, es: seq<ItemEvent>, j: nat)
    requires Fresh(item) && item.pollInterval > 0 && j < |es| && es[j].Visit?
    ensures TimesOutAt(item, slot, es, j) <==>
            0 < item.timeout <= item.pollInterval && exists i :: 0 <= i < j && OverdueAt(item, slot, es, i, j)
  {
    var p, t, before := item.pollInterval, item.timeout, es[..j];
    ActionsExplained(item, slot, es, j);
    if TimesOutAt(item, slot, es, j) {
      var i := LastPoll(p, before);
      assert before[..i + 1] == es[..i + 1];
      PollsExactly(item, slot, es, i);
      OverdueVisits(es, i, j);
      assert forall k :: i + 1 <= k < j ==> before[k] == es[k];
      assert OverdueAt(item, slot, es, i, j);
    }
    if 0 < t <= p && exists i :: 0 <= i < j && OverdueAt(item, slot, es, i, j) {
      var i :| 0 <= i < j && OverdueAt(item, slot, es, i, j);
      assert before[..i + 1] == es[..i + 1];
      PollsExactly(item, slot, es, i);
      OverdueVisits(es, i, j);
      assert forall k :: i + 1 <= k < j ==> before[k] == es[k];
      StillUnanswered(p, before, i);
    }
  }

  lemma VisitsApart(es: seq<ItemEvent>, i: nat, k: nat, j: nat)
    requires i < k < j <= |es| && es[k].Visit?
    ensures Visits(es[..j][i + 1..]) >= 1 + Visits(es[..j][k + 1..])
  {
    var later := es[..j][i + 1..];
    VisitsSplit(later, k - i);
    assert later[k - i..] == es[..j][k + 1..];
    assert later[..k - i][k - i - 1] == es[k];
  }

  lemma MultiplePlus(n: nat, d: nat, r: nat)
    requires r < d && n % d == 0
    ensures (n + r) % d == r
  {
    assert n == d * (n / d);
    ModUnique(n + r, d, n / d, r);
  }

  /** Between a poll and the next one, visits since the last poll are visits after this one. */
  lemma SinceThisPoll(item: ItemValue, slot: nat, es: seq<ItemEvent>, i: nat, j: nat)
    requires Fresh(item) && item.pollInterval > 0 && i < j <= |es| && PollsAt(item, slot, es, i)
    requires Visits(es[..j][i + 1..]) <= item.pollInterval
    ensures SincePoll(item.pollInterval, es[..j]) == Visits(es[..j][i + 1..])
    ensures SincePoll(item.pollInterval, es[..i + 1]) == 0 && es[i].Visit?
  {
    hide PollsAt;
    PollsExactly(item, slot, es, i);
    VisitsSplit(es[..j], i + 1);
    assert es[..j][..i + 1] == es[..i + 1];
    MultiplePlus(Visits(es[..i + 1]), item.pollInterval + 1, Visits(es[..j][i + 1..]));
  }

  /**
    Each poll by itself: of the visits up to and including the one that polls again, exactly the
    (T+1)-th signals a timeout, and only if no answer came in between.
   */
  lemma TimeoutOfPoll(item: ItemValue, slot: nat, es: seq<ItemEvent>, i: nat, j: nat)
    requires Fresh(item) && 0 < item.timeout <= item.pollInterval && i < j < |es|
    requires PollsAt(item, slot, es, i) && es[j].Visit?
    requires Visits(es[i + 1..j + 1]) <= item.pollInterval + 1
    ensures TimesOutAt(item, slot, es, j) <==>
            NoAnswer(es, i + 1, j) && Visits(es[i + 1..j + 1]) == item.timeout + 1
  {
    var p, t, before := item.pollInterval, item.timeout, es[..j];
    OverdueVisits(es, i, j);
    SinceThisPoll(item, slot, es, i, j);
    ActionsExplained(item, slot, es, j);
    assert before[..i + 1] == es[..i + 1];
    if NoAnswer(es, i + 1, j) {
      assert forall k :: i + 1 <= k < j ==> before[k] == es[k];
      StillUnanswered(p, before, i);
    }
    if TimesOutAt(item, slot, es, j) {
      var k := LastPoll(p, before);
      assert NoAnswer(before, k + 1, j) && forall m :: k + 1 <= m < j ==> before[m] == es[m];
      if i < k {
        VisitsApart(es, i, k, j);
      }
    }
  }

  /** A timeout longer than the poll interval never fires: the next poll restarts it first. */
  lemma LongTimeoutNeverFires(item: ItemValue, slot: nat, es: seq<ItemEvent>, j: nat)
    requires Fresh(item) && item.timeout > item.pollInterval && j < |es|
    ensures !TimesOutAt(item, slot, es, j)
  {
    if item.pollInterval == 0 {
      NoPollNoAction(item, slot, es[..j]);
    } else {
      ActionsExplained(item, slot, es, j);
      RemainderBelow(Visits(es[..j]), item.pollInterval + 1);
    }
  }

  lemma RemainderBelow(n: nat, d: nat)
    requires d >= 1
    ensures n % d < d
  {
  }

  // ---- One timeout for each poll that goes unanswered ----

  /** A poll has at most one overdue visit. */
  lemma OneOverdueVisit(item: ItemValue, slot: nat, es: seq<ItemEvent>, i: nat, j: nat, k: nat)
    requires i < j < |es| && i < k < |es| && es[j].Visit? && es[k].Visit?
    requires OverdueAt(item, slot, es, i, j) && OverdueAt(item, slot, es, i, k)
    ensures j == k
  {
    if j < k {
      OverdueVisits(es, i, k);
      VisitsUpTo(es, i, j, k);
    } else if k < j {
      OverdueVisits(es, i, j);
      VisitsUpTo(es, i, k, j);
    }
  }

  lemma VisitsUpTo(es: seq<ItemEvent>, i: nat, j: nat, k: nat)
    requires i < j < k < |es|
    ensures Visits(es[i + 1..j + 1]) <= Visits(es[..k][i + 1..])
  {
    var later := es[..k][i + 1..];
    VisitsSplit(later, j - i);
    assert later[..j - i] == es[i + 1..j + 1];
  }

  /** An overdue visit is overdue for one poll only. */
  lemma OneOverduePoll(item: ItemValue, slot: nat, es: seq<ItemEvent>, i: nat, k: nat, j: nat)
    requires Fresh(item) && i < j < |es| && k < j && es[j].Visit?
    requires OverdueAt(item, slot, es, i, j) && OverdueAt(item, slot, es, k, j)
    requires item.pollInterval > 0
    ensures i == k
  {
    PollsExactly(item, slot, es, i);
    PollsExactly(item, slot, es, k);
    OverdueVisits(es, i, j);
    OverdueVisits(es, k, j);
    if i < k {
      VisitsApart(es, i, k, j);
    } else if k < i {
      VisitsApart(es, k, i, j);
    }
  }

  predicate Overdue(item: ItemValue, slot: nat, es: seq<ItemEvent>, i: nat, n: nat)
    requires n <= |es|
  {
    exists j :: i < j < n && es[j].Visit? && OverdueAt(item, slot, es, i, j)
  }

  /** The polls that had gone T+1 visits without an answer when the first n events were over. */
  function OverduePolls(item: ItemValue, slot: nat, es: seq<ItemEvent>, n: nat): set<nat>
    requires n <= |es|
  {
    set i: nat | i < n && Overdue(item, slot, es, i, n)
  }

  /** The event at index n makes some poll overdue. */
  predicate BecomesOverdue(item: ItemValue, slot: nat, es: seq<ItemEvent>, n: nat)
    requires n < |es|
  {
    es[n].Visit? && exists i :: 0 <= i < n && OverdueAt(item, slot, es, i, n)
  }

  lemma NewOverdue(item: ItemValue, slot: nat, es: seq<ItemEvent>, n: nat, i: nat, k: nat)
    requires Fresh(item) && item.pollInterval > 0 && i < n < |es| && es[n].Visit?
    requires OverdueAt(item, slot, es, i, n)
    ensures Overdue(item, slot, es, k, n + 1) <==> k == i || Overdue(item, slot, es, k, n)
    ensures !Overdue(item, slot, es, i, n)
  {
    hide OverdueAt;
    if Overdue(item, slot, es, i, n) {
      var j :| i < j < n && es[j].Visit? && OverdueAt(item, slot, es, i, j);
      OneOverdueVisit(item, slot, es, i, j, n);
    }
    OverdueStep(item, slot, es, k, n);
    if k < n && OverdueAt(item, slot, es, k, n) {
      OneOverduePoll(item, slot, es, i, k, n);
    }
  }

  lemma NextOverdue(item: ItemValue, slot: nat, es: seq<ItemEvent>, n: nat)
    requires Fresh(item) && item.pollInterval > 0 && n < |es|
    ensures |OverduePolls(item, slot, es, n + 1)|
            == |OverduePolls(item, slot, es, n)| + if BecomesOverdue(item, slot, es, n) then 1 else 0
  {
    hide OverdueAt, Overdue, Fresh;
    var before, after := OverduePolls(item, slot, es, n), OverduePolls(item, slot, es, n + 1);
    if BecomesOverdue(item, slot, es, n) {
      var i: nat :| i < n && OverdueAt(item, slot, es, i, n);
      forall k: nat
        ensures k in after <==> k in before + {i}
      {
        NewOverdue(item, slot, es, n, i, k);
        OverdueBelow(item, slot, es, k, n);
      }
      NewOverdue(item, slot, es, n, i, i);
      assert after == before + {i};
    } else {
      forall k: nat
        ensures k in after <==> k in before
      {
        OverdueStep(item, slot, es, k, n);
        OverdueBelow(item, slot, es, k, n);
      }
      assert after == before;
    }
  }

  lemma OverdueBelow(item: ItemValue, slot: nat, es: seq<ItemEvent>, k: nat, n: nat)
    requires n <= |es|
    ensures Overdue(item, slot, es, k, n) ==> k < n
  {
  }

  lemma OverdueStep(item: ItemValue, slot: nat, es: seq<ItemEvent>, k: nat, n: nat)
    requires n < |es|
    ensures Overdue(item, slot, es, k, n + 1) <==>
            Overdue(item, slot, es, k, n) || (k < n && es[n].Visit? && OverdueAt(item, slot, es, k, n))
  {
    hide OverdueAt;
    if Overdue(item, slot, es, k, n) {
      var j :| k < j < n && es[j].Visit? && OverdueAt(item, slot, es, k, j);
    }
  }

  function Timeouts(actions: seq<Action>, slot: nat): nat
  {
    if actions == [] then 0
    else
      var last := actions[|actions| - 1];
      Timeouts(actions[..|actions| - 1], slot) + (if last.TimedOut? && last.slot == slot then 1 else 0)
  }

  lemma {:induction false} TimeoutsConcat(a: seq<Action>, b: seq<Action>, slot: nat)
    ensures Timeouts(a + b, slot) == Timeouts(a, slot) + Timeouts(b, slot)
  {
    if b == [] {
      assert a + b == a;
    } else {
      TimeoutsConcat(a, b[..|b| - 1], slot);
      assert (a + b)[..|a + b| - 1] == a + b[..|b| - 1];
    }
  }

  lemma TimeoutsSingle(a: Action, slot: nat)
    ensures Timeouts([a], slot) == if a.TimedOut? && a.slot == slot then 1 else 0
  {
    assert [a][..0] == [];
  }

  lemma TimeoutsExpected(item: ItemValue, slot: nat, es: seq<ItemEvent>, e: ItemEvent)
    ensures Timeouts(Expected(item, slot, es, e), slot)
            == if TimedOut(slot, item.groupObject) in Expected(item, slot, es, e) then 1 else 0
  {
    hide Waiting, SincePoll, ReadRequest;
    if e.Visit? {
      var timeout := if item.timeout > 0 && Waiting(item.pollInterval, item.timeout, es)
                        && SincePoll(item.pollInterval, es) == item.timeout
                     then [TimedOut(slot, item.groupObject)] else [];
      var poll := if SincePoll(item.pollInterval, es) == item.pollInterval
                  then [Transmitted(OnPoll(slot), ReadRequest(e.key))] else [];
      TimeoutsConcat(timeout, poll, slot);
      if timeout != [] {
        TimeoutsSingle(timeout[0], slot);
        assert (timeout + poll)[0] == timeout[0];
      }
      if poll != [] {
        TimeoutsSingle(poll[0], slot);
      }
    }
  }

  lemma TimeoutsAt(item: ItemValue, slot: nat, es: seq<ItemEvent>, j: nat)
    requires Fresh(item) && item.pollInterval > 0 && j < |es|
    ensures Timeouts(ActionsAt(item, slot, es, j), slot) == if TimesOutAt(item, slot, es, j) then 1 else 0
  {
    hide ActionsAt, Timeouts, Expected;
    ActionsExplained(item, slot, es, j);
    TimeoutsExpected(item, slot, es[..j], es[j]);
  }

  lemma TimeoutsOfEvent(item: ItemValue, slot: nat, es: seq<ItemEvent>, j: nat)
    requires Fresh(item) && item.pollInterval > 0 && j < |es|
    ensures Timeouts(ActionsAt(item, slot, es, j), slot)
            == if 0 < item.timeout <= item.pollInterval && BecomesOverdue(item, slot, es, j) then 1 else 0
  {
    hide OverdueAt, ActionsAt, Timeouts;
    ActionsExplained(item, slot, es, j);
    TimeoutsExpected(item, slot, es[..j], es[j]);
    if es[j].Visit? {
      TimeoutExactly(item, slot, es, j);
    }
  }

  lemma LastActions(item: ItemValue, slot: nat, es: seq<ItemEvent>, j: nat)
    requires j < |es|
    ensures AllActions(item, slot, es[..j + 1]) == AllActions(item, slot, es[..j]) + ActionsAt(item, slot, es, j)
  {
    assert es[..j + 1][..j] == es[..j];
  }

  lemma NothingOverdue(item: ItemValue, slot: nat, es: seq<ItemEvent>)
    ensures Timeouts(AllActions(item, slot, es[..0]), slot) == 0
    ensures |OverduePolls(item, slot, es, 0)| == 0
  {
    assert es[..0] == [];
    assert OverduePolls(item, slot, es, 0) == {};
  }

  lemma NoPollNoTimeout(item: ItemValue, slot: nat, es: seq<ItemEvent>)
    requires Fresh(item) && item.pollInterval == 0
    ensures Timeouts(AllActions(item, slot, es), slot) == 0
  {
    NoPollNoAction(item, slot, es);
  }

  /** The number of timeouts is the number of polls that went T+1 visits without an answer, if 0 < T <= P, and zero otherwise. */
  lemma {:induction false} TimeoutConservation(item: ItemValue, slot: nat, es: seq<ItemEvent>, n: nat)
    requires Fresh(item) && n <= |es|
    ensures Timeouts(AllActions(item, slot, es[..n]), slot)
            == if 0 < item.timeout <= item.pollInterval then |OverduePolls(item, slot, es, n)| else 0
  {
    hide *;
    if item.pollInterval == 0 {
      NoPollNoTimeout(item, slot, es[..n]);
    } else if n == 0 {
      NothingOverdue(item, slot, es);
    } else {
      var j := n - 1;
      TimeoutConservation(item, slot, es, j);
      NextOverdue(item, slot, es, j);
      TimeoutsOfEvent(item, slot, es, j);
      LastActions(item, slot, es, j);
      TimeoutsConcat(AllActions(item, slot, es[..j]), ActionsAt(item, slot, es, j), slot);
    }
  }

  // ---- The period in milliseconds ----

  /** From one poll to the next there are exactly P+1 visits. */
  lemma PollPeriod(item: ItemValue, slot: nat, es: seq<ItemEvent>, i: nat, j: nat)
    requires Fresh(item) && item.pollInterval > 0 && i < j < |es|
    requires PollsAt(item, slot, es, i) && PollsAt(item, slot, es, j)
    requires forall k :: i < k < j ==> !PollsAt(item, slot, es, k)
    ensures Visits(es[i + 1..j + 1]) == item.pollInterval + 1
  {
    hide PollsAt;
    var p := item.pollInterval;
    PollsExactly(item, slot, es, i);
    PollsExactly(item, slot, es, j);
    NoPollBetween(item, slot, es, i, j);
    OverdueVisits(es, i, j);
    assert es[..j][..i + 1] == es[..i + 1];
    assert es[..j + 1][..j] == es[..j];
    CountUp(Visits(es[..j]), p + 1);
  }

  lemma {:induction false} NoPollBetween(item: ItemValue, slot: nat, es: seq<ItemEvent>, i: nat, j: nat)
    requires Fresh(item) && item.pollInterval > 0 && i < j < |es|
    requires PollsAt(item, slot, es, i)
    requires forall k :: i < k < j ==> !PollsAt(item, slot, es, k)
    ensures Visits(es[..j][i + 1..]) == SincePoll(item.pollInterval, es[..j])
  {
    hide PollsAt;
    var p := item.pollInterval;
    if j == i + 1 {
      PollsExactly(item, slot, es, i);
      assert es[..j][i + 1..] == [];
    } else {
      NoPollBetween(item, slot, es, i, j - 1);
      PollsExactly(item, slot, es, j - 1);
      assert es[..j][..j - 1] == es[..j - 1];
      assert es[..j][i + 1..][..j - 1 - (i + 1)] == es[..j - 1][i + 1..];
      CountUp(Visits(es[..j - 1]), p + 1);
    }
  }

  /**
    A period of P+1 ticks exceeds the configured interval, by at most one tick, if and only if the
    interval's number of ticks fits 32 bits.
   */
  lemma PeriodBound(interval: nat, tickInterval: nat)
    requires 1 <= tickInterval
    ensures var period := (Ticks(interval, tickInterval) + 1) * tickInterval;
            interval < period <= interval + tickInterval <==> interval / tickInterval < ControllerSpec.UINT32_LIMIT
  {
    var q, p := interval / tickInterval, Ticks(interval, tickInterval);
    assert interval == tickInterval * q + interval % tickInterval;
    assert (q + 1) * tickInterval == tickInterval * q + tickInterval;
    if q < ControllerSpec.UINT32_LIMIT {
      ModUnique(q, ControllerSpec.UINT32_LIMIT, 0, q);
    } else {
      MoreTicks(p + 1, q, tickInterval);
    }
  }

  lemma MoreTicks(a: nat, b: nat, tickInterval: nat)
    requires a <= b
    ensures a * tickInterval <= b * tickInterval
  {
  }
}
