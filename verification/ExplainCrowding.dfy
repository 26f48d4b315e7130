/**
 How far the concurrency semaphore can be exceeded: its check and its increment are separate commands.
 */
module ExplainCrowding {
  import opened Common
  import opened Redis
  import opened Explain
  import opened ExplainSafety
  import opened ExplainVerdicts

  // Past the check and not yet counted.
  function Waiting(requests: map<Id, Request>): set<Id> {
    set id | id in requests && requests[id].pc.Enter?
  }

  // Past the check, counted or not, and not yet gone.
  function Seated(requests: map<Id, Request>): set<Id> {
    Waiting(requests) + Inside(requests)
  }

  function Active(s: State): int {
    CounterAt(s, Concurrent)
  }

  lemma SeatedCount(s: State)
    requires Semaphore(s)
    ensures |Seated(s.requests)| == |Waiting(s.requests)| + Active(s)
  {
    assert Waiting(s.requests) !! Inside(s.requests);
  }

  // Where one command takes its request.
  lemma CommandSeat(s: State, id: Id, seconds: nat, cfg: Config)
    requires id in s.requests
    ensures var was, now := s.requests[id].pc, Command(s, id, seconds, cfg).1.pc;
      && (now.Enter? ==> was.Enter? || (was.ReadActive? && Active(s) < cfg.maxConcurrent))
      && (IsInside(now) ==> was.Enter? || IsInside(was))
      && (was.ReadActive? ==> !IsInside(now))
  {
    hide SetEx, SetNx, IncrBy, Expire, Live, Read, NumberAt;
  }

  // Nobody takes a seat but a request whose check has just read less than the maximum.
  lemma SeatedStep(s: State, a: Action, cfg: Config)
    requires Enabled(s, a)
    ensures var s' := Do(s, a, cfg);
      || Seated(s'.requests) <= Seated(s.requests)
      || (Active(s) < cfg.maxConcurrent && Inside(s'.requests) == Inside(s.requests))
  {
    hide Command, Active;
    if a.Advance? {
      CommandSeat(s, a.id, a.seconds, cfg);
    }
  }

  ghost predicate AtMostWaiting(states: seq<State>, k: nat) {
    forall j :: 0 <= j < |states| ==> |Waiting(states[j].requests)| <= k
  }

  /** Nowhere in a run do more than max + k - 1 requests hold a seat, if at most k wait at a time. */
  lemma {:induction false} PeakBound(states: seq<State>, actions: seq<Action>, cfg: Config, k: nat, n: nat)
    requires IsRun(states, actions, cfg) && states[0] == Init(states[0].now) && n <= |actions|
    requires k > 0 && AtMostWaiting(states, k)
    ensures |Seated(states[n].requests)| <= cfg.maxConcurrent + k - 1
    ensures Active(states[n]) <= cfg.maxConcurrent + k - 1
  {
    hide Do, Enabled, Seated, Waiting, Inside, Active;
    ReachableInv(states[n], states[..n + 1], actions[..n], cfg);
    SeatedCount(states[n]);
    if n == 0 {
      AtStart(states[0].now);
    } else {
      PeakBound(states, actions, cfg, k, n - 1);
      ReachableInv(states[n - 1], states[..n], actions[..n - 1], cfg);
      SeatedStep(states[n - 1], actions[n - 1], cfg);
      if Seated(states[n].requests) <= Seated(states[n - 1].requests) {
        SubsetSize(Seated(states[n].requests), Seated(states[n - 1].requests));
      } else {
        SameInside(states[n - 1], states[n]);
      }
    }
  }

  lemma SameInside(s: State, s': State)
    requires Semaphore(s) && Semaphore(s') && Inside(s'.requests) == Inside(s.requests)
    ensures Active(s') == Active(s)
  {
  }

  lemma SubsetSize<T>(small: set<T>, large: set<T>)
    requires small <= large
    ensures |small| <= |large|
  {
    var rest := large - small;
    assert large == small + rest;
  }

  /** From the step that fills the semaphore, as long as it stays full, no newcomer takes a seat: the counter stays
      below the maximum plus the number of requests that were waiting just before that step. */
  lemma {:induction false} CrowdingBound(states: seq<State>, actions: seq<Action>, cfg: Config, i: nat, n: nat)
    requires IsRun(states, actions, cfg) && states[0] == Init(states[0].now) && i < n <= |actions|
    requires Active(states[i]) < cfg.maxConcurrent
    requires forall j :: i < j <= n ==> Active(states[j]) >= cfg.maxConcurrent
    ensures Seated(states[n].requests) <= Seated(states[i].requests)
    ensures Active(states[n]) < cfg.maxConcurrent + |Waiting(states[i].requests)|
  {
    hide Do, Enabled, Seated, Waiting, Inside, Active;
    SeatedStep(states[n - 1], actions[n - 1], cfg);
    ReachableInv(states[n - 1], states[..n], actions[..n - 1], cfg);
    ReachableInv(states[n], states[..n + 1], actions[..n], cfg);
    if i < n - 1 {
      CrowdingBound(states, actions, cfg, i, n - 1);
    } else if Inside(states[n].requests) == Inside(states[i].requests) {
      SameInside(states[i], states[n]);
    }
    ReachableInv(states[i], states[..i + 1], actions[..i], cfg);
    SeatedCount(states[i]);
    SeatedCount(states[n]);
    SubsetSize(Seated(states[n].requests), Seated(states[i].requests));
  }

  /* The bound is reached. */

  // `n` requests with different fingerprints, all past the check; the first `entered` of them have
  // incremented the semaphore.
  ghost predicate Lined(s: State, n: nat, entered: nat) {
    && entered <= n
    && (forall id: Id :: id in s.requests <==> id < n)
    && (forall id :: 0 <= id < n ==> s.requests[id].pc == if id < entered then Call else Enter)
    && Counts(s, entered)
    && (forall key :: key in s.store ==> !key.Cache? && (key.Dedup? ==> |key.fp| < n))
  }

  predicate Counts(s: State, entered: nat) {
    && Hourly !in s.store && Daily !in s.store
    && (if entered == 0 then Concurrent !in s.store
        else Concurrent in s.store && s.store[Concurrent] == Slot(Number(entered), None))
  }

  // The same, and one newcomer on its way to INCRBY.
  ghost predicate Arriving(s: State, n: nat, entered: nat, pc: Pc) {
    && entered <= n
    && (forall id: Id :: id in s.requests <==> id <= n)
    && (forall id :: 0 <= id < n ==> s.requests[id].pc == if id < entered then Call else Enter)
    && s.requests[n].pc == pc && s.requests[n].fp == Name(n)
    && Counts(s, entered)
    && (forall key :: key in s.store ==> !key.Cache?)
    && (forall key :: key in s.store && key.Dedup? ==>
          (if pc.Lookup? || pc.Lock? then |key.fp| < n else |key.fp| <= n))
  }

  function Name(n: nat): (s: string)
    ensures |s| == n
  {
    seq(n, _ => 'a')
  }

  // A run from time 0 in which at most `k` requests wait at a time.
  ghost predicate IsBuilt(states: seq<State>, actions: seq<Action>, cfg: Config, k: nat) {
    IsRun(states, actions, cfg) && states[0] == Init(0) && AtMostWaiting(states, k)
  }

  lemma Extend(states: seq<State>, actions: seq<Action>, a: Action, cfg: Config, k: nat)
    returns (states': seq<State>, actions': seq<Action>)
    requires IsBuilt(states, actions, cfg, k) && Enabled(states[|actions|], a)
    requires |Waiting(Do(states[|actions|], a, cfg).requests)| <= k
    ensures IsBuilt(states', actions', cfg, k) && states'[|actions'|] == Do(states[|actions|], a, cfg)
  {
    hide Do, Enabled, Waiting, Init;
    states', actions' := states + [Do(states[|actions|], a, cfg)], actions + [a];
  }

  function Between(from: nat, end: nat): (r: set<Id>)
    ensures forall id :: id in r <==> from <= id < end
    ensures from <= end ==> |r| == end - from
  {
    if from >= end then {} else Between(from, end - 1) + {end - 1}
  }

  lemma LinedWaiting(s: State, n: nat, entered: nat)
    requires Lined(s, n, entered)
    ensures |Waiting(s.requests)| == n - entered
  {
    assert Waiting(s.requests) == Between(entered, n);
  }

  lemma ArrivingWaiting(s: State, n: nat, entered: nat, pc: Pc)
    requires Arriving(s, n, entered, pc)
    ensures |Waiting(s.requests)| <= n + 1 - entered
  {
    assert Waiting(s.requests) <= Between(entered, n + 1);
    SubsetSize(Waiting(s.requests), Between(entered, n + 1));
  }

  predicate HasLimits(cfg: Config) {
    cfg.hourlyLimit > 0 && cfg.dailyLimit > 0 && cfg.maxConcurrent > 0
  }

  // The stations of a newcomer that reads `active` under the semaphore.
  function NextPc(pc: Pc): Pc {
    match pc
    case Lookup => Lock
    case Lock => ReadHourly
    case ReadHourly => ReadDaily(0)
    case ReadDaily(_) => ReadActive(0, 0)
    case _ => Enter
  }

  lemma ArrivalStep(s: State, n: nat, entered: nat, pc: Pc, cfg: Config)
    requires HasLimits(cfg) && entered < cfg.maxConcurrent
    requires pc in {Lookup, Lock, ReadHourly, ReadDaily(0), ReadActive(0, 0)} && Arriving(s, n, entered, pc)
    ensures Enabled(s, Advance(n, 1)) && Arriving(Do(s, Advance(n, 1), cfg), n, entered, NextPc(pc))
  {
  }

  lemma ArrivalStart(s: State, n: nat, entered: nat, cfg: Config)
    requires Lined(s, n, entered)
    ensures Enabled(s, Arrive(n, Name(n), None)) && Arriving(Do(s, Arrive(n, Name(n), None), cfg), n, entered, Lookup)
  {
  }

  lemma ArrivalEnd(s: State, n: nat, entered: nat)
    requires Arriving(s, n, entered, Enter)
    ensures Lined(s, n + 1, entered)
  {
  }

  lemma EnterOne(s: State, n: nat, entered: nat, cfg: Config)
    requires Lined(s, n, entered) && entered < n
    ensures Enabled(s, Advance(entered, 1)) && Lined(Do(s, Advance(entered, 1), cfg), n, entered + 1)
  {
  }

  // One more request arrives, checks and waits.
  lemma Admit(states: seq<State>, actions: seq<Action>, n: nat, entered: nat, cfg: Config, k: nat)
    returns (states': seq<State>, actions': seq<Action>)
    requires HasLimits(cfg) && entered < cfg.maxConcurrent && n + 1 - entered <= k
    requires IsBuilt(states, actions, cfg, k) && Lined(states[|actions|], n, entered)
    ensures IsBuilt(states', actions', cfg, k) && Lined(states'[|actions'|], n + 1, entered)
  {
    hide Do, Enabled, Arriving, Lined, Waiting, HasLimits;
    var pc := Lookup;
    ArrivalStart(states[|actions|], n, entered, cfg);
    ArrivingWaiting(Do(states[|actions|], Arrive(n, Name(n), None), cfg), n, entered, pc);
    states', actions' := Extend(states, actions, Arrive(n, Name(n), None), cfg, k);
    while pc != Enter
      invariant pc in {Lookup, Lock, ReadHourly, ReadDaily(0), ReadActive(0, 0), Enter}
      invariant IsBuilt(states', actions', cfg, k) && Arriving(states'[|actions'|], n, entered, pc)
      decreases if pc.Lookup? then 5 else if pc.Lock? then 4 else if pc.ReadHourly? then 3
                else if pc.ReadDaily? then 2 else if pc.ReadActive? then 1 else 0
    {
      ArrivalStep(states'[|actions'|], n, entered, pc, cfg);
      pc := NextPc(pc);
      ArrivingWaiting(Do(states'[|actions'|], Advance(n, 1), cfg), n, entered, pc);
      states', actions' := Extend(states', actions', Advance(n, 1), cfg, k);
    }
    ArrivalEnd(states'[|actions'|], n, entered);
  }

  // One of the waiting requests increments the semaphore.
  lemma Count(states: seq<State>, actions: seq<Action>, n: nat, entered: nat, cfg: Config, k: nat)
    returns (states': seq<State>, actions': seq<Action>)
    requires entered < n && n - entered <= k
    requires IsBuilt(states, actions, cfg, k) && Lined(states[|actions|], n, entered)
    ensures IsBuilt(states', actions', cfg, k) && Lined(states'[|actions'|], n, entered + 1)
  {
    hide Do, Enabled, Lined, Waiting;
    EnterOne(states[|actions|], n, entered, cfg);
    LinedWaiting(Do(states[|actions|], Advance(entered, 1), cfg), n, entered + 1);
    states', actions' := Extend(states, actions, Advance(entered, 1), cfg, k);
  }

  // One after the other, `n` requests get in.
  lemma {:induction false} FillUp(n: nat, cfg: Config, k: nat) returns (states: seq<State>, actions: seq<Action>)
    requires HasLimits(cfg) && n <= cfg.maxConcurrent && k > 0
    ensures IsBuilt(states, actions, cfg, k) && Lined(states[|actions|], n, n)
  {
    hide Lined, HasLimits, Waiting, Init, Do, Enabled;
    if n == 0 {
      states, actions := [Init(0)], [];
      AtStart(0);
    } else {
      states, actions := FillUp(n - 1, cfg, k);
      states, actions := Admit(states, actions, n - 1, n - 1, cfg, k);
      states, actions := Count(states, actions, n, n - 1, cfg, k);
    }
  }

  // With one place left, `waiting` more pass the check.
  lemma {:induction false} LineUp(waiting: nat, cfg: Config, k: nat) returns (states: seq<State>, actions: seq<Action>)
    requires HasLimits(cfg) && waiting <= k && k > 0
    ensures IsBuilt(states, actions, cfg, k)
    ensures Lined(states[|actions|], cfg.maxConcurrent - 1 + waiting, cfg.maxConcurrent - 1)
  {
    hide Lined, Do, Enabled, Waiting, IsBuilt;
    var full := cfg.maxConcurrent - 1;
    if waiting == 0 {
      states, actions := FillUp(full, cfg, k);
    } else {
      states, actions := LineUp(waiting - 1, cfg, k);
      states, actions := Admit(states, actions, full + waiting - 1, full, cfg, k);
      assert full + waiting - 1 + 1 == full + waiting;
    }
  }

  lemma {:induction false} EnterAll(k: nat, entered: nat, cfg: Config)
    returns (states: seq<State>, actions: seq<Action>)
    requires HasLimits(cfg) && entered <= k && k > 0
    ensures IsBuilt(states, actions, cfg, k)
    ensures Lined(states[|actions|], cfg.maxConcurrent - 1 + k, cfg.maxConcurrent - 1 + entered)
    decreases entered
  {
    hide Lined, Do, Enabled, Waiting, IsBuilt;
    var full := cfg.maxConcurrent - 1;
    if entered == 0 {
      states, actions := LineUp(k, cfg, k);
    } else {
      states, actions := EnterAll(k, entered - 1, cfg);
      states, actions := Count(states, actions, full + k, full + entered - 1, cfg, k);
      assert full + entered - 1 + 1 == full + entered;
    }
  }

  lemma LinedCount(s: State, n: nat)
    requires Lined(s, n, n)
    ensures Active(s) == n
  {
  }

  /** The peak is reached: k waiting requests bring the counter to max + k - 1. */
  lemma PeakReached(k: nat, cfg: Config) returns (states: seq<State>, actions: seq<Action>)
    requires HasLimits(cfg) && k > 0
    ensures IsRun(states, actions, cfg) && states[0] == Init(0) && AtMostWaiting(states, k)
    ensures Active(states[|actions|]) == cfg.maxConcurrent + k - 1
  {
    hide Lined, Do, Enabled, Waiting, Active, HasLimits, Init, AtMostWaiting;
    states, actions := EnterAll(k, k, cfg);
    LinedCount(states[|actions|], cfg.maxConcurrent - 1 + k);
  }

  /* Counters are never negative, so a limit of 0 admits nobody. */

  ghost predicate NoDebt(s: State) {
    forall key :: key in s.store && (key == Hourly || key == Daily) ==>
      s.store[key].data.Number? && s.store[key].data.n >= 0
  }

  lemma NoDebtStep(s: State, a: Action, cfg: Config)
    requires Enabled(s, a) && NoDebt(s)
    ensures NoDebt(Do(s, a, cfg))
  {
  }

  lemma {:induction false} NoDebtRun(states: seq<State>, actions: seq<Action>, cfg: Config, n: nat)
    requires IsRun(states, actions, cfg) && states[0] == Init(states[0].now) && n <= |actions|
    ensures NoDebt(states[n])
  {
    hide Do, Enabled, NoDebt;
    if n == 0 {
      AtStart(states[0].now);
    } else {
      NoDebtRun(states, actions, cfg, n - 1);
      NoDebtStep(states[n - 1], actions[n - 1], cfg);
    }
  }

  lemma NotNegative(s: State, key: Key)
    requires if key == Concurrent then Semaphore(s) else NoDebt(s) && (key == Hourly || key == Daily)
    ensures CounterAt(s, key) >= 0
  {
  }

  lemma AtStart(now: int)
    ensures var s := Init(now); Lined(s, 0, 0) && Waiting(s.requests) == {} && Seated(s.requests) == {} && NoDebt(s)
  {
  }

  // The states at which a check read room.
  lemma RoomWasRead(states: seq<State>, actions: seq<Action>, cfg: Config, n: nat, id: Id)
    returns (i: nat, j: nat, k: nat)
    requires SawRoom(states, actions, n, id, cfg)
    ensures i < j < k < n && k < |states| && k < |actions|
    ensures CounterAt(states[i], Hourly) < cfg.hourlyLimit
    ensures CounterAt(states[j], Daily) < cfg.dailyLimit
    ensures CounterAt(states[k], Concurrent) < cfg.maxConcurrent
  {
    hide CounterAt;
    var hourly, daily, active :| HasChecked(states, actions, n, id, hourly, daily, active) &&
      hourly < cfg.hourlyLimit && daily < cfg.dailyLimit && active < cfg.maxConcurrent;
    i, j, k :| 0 <= i < j < k < n &&
      ReadsHourly(states, actions, i, id, hourly) && ReadsDaily(states, actions, j, id, hourly, daily) &&
      ReadsActive(states, actions, k, id, hourly, daily, active);
  }

  // Whoever read room read it below a limit above 0.
  lemma RoomNeedsLimits(states: seq<State>, actions: seq<Action>, cfg: Config, n: nat, id: Id)
    requires IsRun(states, actions, cfg) && states[0] == Init(states[0].now)
    requires SawRoom(states, actions, n, id, cfg)
    ensures HasLimits(cfg)
  {
    hide Do, Enabled, SawRoom, NoDebt, CounterAt;
    var i, j, k := RoomWasRead(states, actions, cfg, n, id);
    NoDebtRun(states, actions, cfg, i);
    NotNegative(states[i], Hourly);
    NoDebtRun(states, actions, cfg, j);
    NotNegative(states[j], Daily);
    ReachableInv(states[k], states[..k + 1], actions[..k], cfg);
    NotNegative(states[k], Concurrent);
  }

  lemma NobodyInside(states: seq<State>, actions: seq<Action>, cfg: Config, n: nat)
    requires IsRun(states, actions, cfg) && states[0] == Init(states[0].now) && n <= |actions| && !HasLimits(cfg)
    ensures Active(states[n]) == 0
  {
    hide Do, Enabled, Init, SawRoom, HasLimits;
    ReachableInv(states[n], states[..n + 1], actions[..n], cfg);
    if id :| id in Inside(states[n].requests) {
      AdmittedSawRoom(states, actions, n, id, cfg);
      RoomNeedsLimits(states, actions, cfg, n, id);
      assert false;
    }
  }

  // The limit holds in every run in which at most k requests wait at a time.
  ghost predicate KeepsLimit(cfg: Config, k: nat) {
    forall states: seq<State>, actions: seq<Action> ::
      IsWholeRun(states, actions, cfg) && AtMostWaiting(states, k) ==> ActiveWithin(states, cfg.maxConcurrent)
  }

  predicate IsWholeRun(states: seq<State>, actions: seq<Action>, cfg: Config) {
    IsRun(states, actions, cfg) && states[0] == Init(states[0].now)
  }

  predicate ActiveWithin(states: seq<State>, max: nat) {
    forall j :: 0 <= j < |states| ==> Active(states[j]) <= max
  }

  /** The configured maximum is kept exactly when never more than one request at a time is past its check and not
      yet counted (or a limit of 0 lets nobody past). */
  lemma LimitKeptIff(cfg: Config, k: nat)
    ensures KeepsLimit(cfg, k) <==> k <= 1 || !HasLimits(cfg)
  {
    hide HasLimits, Active, Waiting, Do, Enabled;
    if k <= 1 || !HasLimits(cfg) {
      forall states: seq<State>, actions: seq<Action> |
        IsWholeRun(states, actions, cfg) && AtMostWaiting(states, k)
        ensures ActiveWithin(states, cfg.maxConcurrent)
      {
        forall j | 0 <= j < |states| ensures Active(states[j]) <= cfg.maxConcurrent {
          if HasLimits(cfg) {
            PeakBound(states, actions, cfg, 1, j);
          } else {
            NobodyInside(states, actions, cfg, j);
          }
        }
      }
    } else {
      var states, actions := PeakReached(k, cfg);
      assert IsWholeRun(states, actions, cfg);
      assert Active(states[|actions|]) > cfg.maxConcurrent;
    }
  }

  /** Without such a restriction any number of requests can be inside at once, whatever the maximum is. */
  lemma SemaphoreUnbounded(n: nat, cfg: Config)
    requires HasLimits(cfg)
    ensures exists states: seq<State>, actions: seq<Action> ::
      IsRun(states, actions, cfg) && states[0] == Init(0) && Active(states[|actions|]) == n
  {
    hide HasLimits, Active, Init, Lined, AtMostWaiting, Do, Enabled;
    if n <= cfg.maxConcurrent {
      var states, actions := FillUp(n, cfg, 1);
      LinedCount(states[|actions|], n);
    } else {
      var states, actions := PeakReached(n - cfg.maxConcurrent + 1, cfg);
    }
  }
}
