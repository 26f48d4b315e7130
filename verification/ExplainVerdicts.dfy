/**
 Why a request was let in or refused: what its budget check read, over whole runs.
 */
module ExplainVerdicts {
  import opened Common
  import opened Redis
  import opened Explain

  function CounterAt(s: State, key: Key): int {
    NumberAt(s.store, key, s.now)
  }

  // The i-th action of the run is a command of this request, made from this position.
  predicate Commands(states: seq<State>, actions: seq<Action>, i: nat, id: Id, pc: Pc) {
    && i < |actions| && i < |states|
    && actions[i].Advance? && actions[i].id == id
    && id in states[i].requests && states[i].requests[id].pc == pc
  }

  // The three reads of a request's budget check, each with the value that was under the counter just then.
  predicate ReadsHourly(states: seq<State>, actions: seq<Action>, i: nat, id: Id, hourly: int) {
    Commands(states, actions, i, id, ReadHourly) && CounterAt(states[i], Hourly) == hourly
  }

  predicate ReadsDaily(states: seq<State>, actions: seq<Action>, i: nat, id: Id, hourly: int, daily: int) {
    Commands(states, actions, i, id, ReadDaily(hourly)) && CounterAt(states[i], Daily) == daily
  }

  predicate ReadsActive(states: seq<State>, actions: seq<Action>, i: nat, id: Id,
        hourly: int, daily: int, active: int)
  {
    Commands(states, actions, i, id, ReadActive(hourly, daily)) && CounterAt(states[i], Concurrent) == active
  }

  // Which of them the first n actions contain.
  ghost predicate HasRead(states: seq<State>, actions: seq<Action>, n: nat, id: Id, hourly: int) {
    exists i :: 0 <= i < n && ReadsHourly(states, actions, i, id, hourly)
  }

  ghost predicate HasReadTwo(states: seq<State>, actions: seq<Action>, n: nat, id: Id, hourly: int, daily: int) {
    exists i, j :: 0 <= i < j < n &&
      ReadsHourly(states, actions, i, id, hourly) && ReadsDaily(states, actions, j, id, hourly, daily)
  }

  ghost predicate HasChecked(
      states: seq<State>, actions: seq<Action>, n: nat, id: Id, hourly: int, daily: int, active: int)
  {
    exists i, j, k :: 0 <= i < j < k < n &&
      ReadsHourly(states, actions, i, id, hourly) && ReadsDaily(states, actions, j, id, hourly, daily) &&
      ReadsActive(states, actions, k, id, hourly, daily, active)
  }

  // Its own check read room in all three.
  ghost predicate SawRoom(states: seq<State>, actions: seq<Action>, n: nat, id: Id, cfg: Config) {
    exists hourly, daily, active :: HasChecked(states, actions, n, id, hourly, daily, active) &&
      hourly < cfg.hourlyLimit && daily < cfg.dailyLimit && active < cfg.maxConcurrent
  }

  // Its own check read a full semaphore.
  ghost predicate SawCrowd(states: seq<State>, actions: seq<Action>, n: nat, id: Id, cfg: Config) {
    exists hourly, daily, active :: HasChecked(states, actions, n, id, hourly, daily, active) &&
      active >= cfg.maxConcurrent
  }

  // Its own check read a full usage counter, and a free place.
  ghost predicate SawUsedUp(states: seq<State>, actions: seq<Action>, n: nat, id: Id, cfg: Config) {
    exists hourly, daily, active :: HasChecked(states, actions, n, id, hourly, daily, active) &&
      (hourly >= cfg.hourlyLimit || daily >= cfg.dailyLimit) && active < cfg.maxConcurrent
  }

  predicate IsRefusal(o: Outcome) {
    o.ConcurrencyRefused? || o.BudgetRefused?
  }

  // In some state up to the n-th the key held this explanation, alive.
  ghost predicate Held(states: seq<State>, n: nat, key: Key, e: Explanation) {
    exists i :: 0 <= i <= n && i < |states| && Holds(states[i], key, e)
  }

  predicate Holds(s: State, key: Key, e: Explanation) {
    Read(s.store, key, s.now) == Some(Saved(e))
  }

  // Answers that came from the cache or from another request are marked as cached.
  ghost predicate Shared(states: seq<State>, n: nat, fp: string, o: Outcome) {
    o.Returned? && !o.e.cached ==> Held(states, n, Cache(fp), o.e) && Held(states, n, Result(fp), o.e)
  }

  // What the run up to state n must contain for a request to be where it is.
  ghost predicate Evidence(states: seq<State>, actions: seq<Action>, n: nat, id: Id, r: Request, cfg: Config) {
    match r.pc
    case ReadDaily(hourly) => HasRead(states, actions, n, id, hourly)
    case ReadActive(hourly, daily) => HasReadTwo(states, actions, n, id, hourly, daily)
    case Publish =>
      && SawRoom(states, actions, n, id, cfg)
      && (r.reply.Some? ==> Held(states, n, Cache(r.fp), Own(id, r.reply.value)))
    case Leave(outcome) =>
      && SawRoom(states, actions, n, id, cfg)
      && !IsRefusal(outcome) && Shared(states, n, r.fp, outcome)
    case Done(outcome) =>
      && (outcome.ConcurrencyRefused? ==> SawCrowd(states, actions, n, id, cfg))
      && (outcome.BudgetRefused? ==> SawUsedUp(states, actions, n, id, cfg))
      && (outcome.CallFailed? ==> SawRoom(states, actions, n, id, cfg))
      && Shared(states, n, r.fp, outcome)
    case _ => r.pc.Enter? || IsInside(r.pc) ==> SawRoom(states, actions, n, id, cfg)
  }

  lemma ReadStill(states: seq<State>, actions: seq<Action>, n: nat, id: Id, hourly: int, daily: int, active: int)
    ensures HasRead(states, actions, n, id, hourly) ==> HasRead(states, actions, n + 1, id, hourly)
    ensures HasReadTwo(states, actions, n, id, hourly, daily) ==> HasReadTwo(states, actions, n + 1, id, hourly, daily)
    ensures HasChecked(states, actions, n, id, hourly, daily, active) ==>
      HasChecked(states, actions, n + 1, id, hourly, daily, active)
  {
    hide ReadsHourly, ReadsDaily, ReadsActive;
  }

  lemma HeldStill(states: seq<State>, n: nat, key: Key, e: Explanation)
    requires Held(states, n, key, e)
    ensures Held(states, n + 1, key, e)
  {
  }

  lemma EvidenceKept(states: seq<State>, actions: seq<Action>, n: nat, id: Id, r: Request, cfg: Config)
    requires Evidence(states, actions, n, id, r, cfg)
    ensures Evidence(states, actions, n + 1, id, r, cfg)
  {
    hide HasRead, HasReadTwo, HasChecked, Held;
    forall hourly | HasRead(states, actions, n, id, hourly) ensures HasRead(states, actions, n + 1, id, hourly) {
      ReadStill(states, actions, n, id, hourly, 0, 0);
    }
    forall hourly, daily | HasReadTwo(states, actions, n, id, hourly, daily)
      ensures HasReadTwo(states, actions, n + 1, id, hourly, daily)
    {
      ReadStill(states, actions, n, id, hourly, daily, 0);
    }
    forall hourly, daily, active | HasChecked(states, actions, n, id, hourly, daily, active)
      ensures HasChecked(states, actions, n + 1, id, hourly, daily, active)
    {
      ReadStill(states, actions, n, id, hourly, daily, active);
    }
    forall key, e | Held(states, n, key, e) ensures Held(states, n + 1, key, e) {
      HeldStill(states, n, key, e);
    }
  }

  // One more read.
  lemma ReadOne(states: seq<State>, actions: seq<Action>, n: nat, id: Id)
    requires Commands(states, actions, n, id, ReadHourly)
    ensures HasRead(states, actions, n + 1, id, CounterAt(states[n], Hourly))
  {
    assert ReadsHourly(states, actions, n, id, CounterAt(states[n], Hourly));
  }

  lemma ReadTwo(states: seq<State>, actions: seq<Action>, n: nat, id: Id, hourly: int)
    requires Commands(states, actions, n, id, ReadDaily(hourly)) && HasRead(states, actions, n, id, hourly)
    ensures HasReadTwo(states, actions, n + 1, id, hourly, CounterAt(states[n], Daily))
  {
    hide ReadsHourly;
    assert ReadsDaily(states, actions, n, id, hourly, CounterAt(states[n], Daily));
  }

  lemma ReadThree(states: seq<State>, actions: seq<Action>, n: nat, id: Id, hourly: int, daily: int)
    requires Commands(states, actions, n, id, ReadActive(hourly, daily))
    requires HasReadTwo(states, actions, n, id, hourly, daily)
    ensures HasChecked(states, actions, n + 1, id, hourly, daily, CounterAt(states[n], Concurrent))
  {
    hide ReadsHourly, ReadsDaily;
    assert ReadsActive(states, actions, n, id, hourly, daily, CounterAt(states[n], Concurrent));
  }

  // One command of the request itself.
  lemma EvidenceCommand(states: seq<State>, actions: seq<Action>, n: nat, id: Id, cfg: Config)
    requires n < |actions| && n + 1 < |states| && actions[n].Advance? && actions[n].id == id
    requires id in states[n].requests && Evidence(states, actions, n, id, states[n].requests[id], cfg)
    requires var (store, r) := Command(states[n], id, actions[n].seconds, cfg);
      states[n + 1].store == store && states[n + 1].now == states[n].now
    ensures Evidence(states, actions, n + 1, id, Command(states[n], id, actions[n].seconds, cfg).1, cfg)
  {
    hide HasRead, HasReadTwo, HasChecked, Held, SetEx, SetNx, IncrBy, Expire, Live, Read, NumberAt;
    var r := states[n].requests[id];
    assert Commands(states, actions, n, id, r.pc);
    EvidenceKept(states, actions, n, id, r, cfg);
    match r.pc
    case ReadHourly => ReadOne(states, actions, n, id);
    case ReadDaily(hourly) => ReadTwo(states, actions, n, id, hourly);
    case ReadActive(hourly, daily) => ReadThree(states, actions, n, id, hourly, daily);
    case Save =>
      if r.reply.Some? {
        Stored(states, n, Cache(r.fp), Own(id, r.reply.value), cfg.cacheTtl);
      }
    case Publish =>
      if r.reply.Some? {
        Stored(states, n, Result(r.fp), Own(id, r.reply.value), ResultTtl(cfg));
      }
    case _ =>
  }

  // A stored answer is alive right after it was stored.
  lemma Stored(states: seq<State>, n: nat, key: Key, e: Explanation, seconds: nat)
    requires n + 1 < |states| && states[n + 1].now == states[n].now
    requires states[n + 1].store == SetEx(states[n].store, key, Saved(e), seconds, states[n].now)
    ensures Held(states, n + 1, key, e)
  {
    assert Holds(states[n + 1], key, e);
  }

  lemma EvidenceStep(states: seq<State>, actions: seq<Action>, n: nat, id: Id, cfg: Config)
    requires IsRun(states, actions, cfg) && n < |actions| && id in states[n + 1].requests
    requires id in states[n].requests ==> Evidence(states, actions, n, id, states[n].requests[id], cfg)
    ensures Evidence(states, actions, n + 1, id, states[n + 1].requests[id], cfg)
  {
    hide Command, HasRead, HasReadTwo, HasChecked, Held;
    var s, a := states[n], actions[n];
    assert Enabled(s, a) && states[n + 1] == Do(s, a, cfg);
    if id in s.requests {
      if a.Advance? && a.id == id {
        EvidenceCommand(states, actions, n, id, cfg);
      } else {
        EvidenceKept(states, actions, n, id, s.requests[id], cfg);
      }
    } else {
      assert states[n + 1].requests[id].pc.Lookup?;
    }
  }

  lemma {:induction false} EvidenceRun(states: seq<State>, actions: seq<Action>, n: nat, id: Id, cfg: Config)
    requires IsRun(states, actions, cfg) && states[0] == Init(states[0].now)
    requires n <= |actions| && id in states[n].requests
    ensures Evidence(states, actions, n, id, states[n].requests[id], cfg)
  {
    hide Do, Evidence;
    if n > 0 {
      if id in states[n - 1].requests {
        EvidenceRun(states, actions, n - 1, id, cfg);
      }
      EvidenceStep(states, actions, n - 1, id, cfg);
    }
  }

  /** Whoever calls the model had itself read all three counters, one after the other, each below its limit. */
  lemma AdmittedSawRoom(states: seq<State>, actions: seq<Action>, n: nat, id: Id, cfg: Config)
    requires IsRun(states, actions, cfg) && states[0] == Init(states[0].now)
    requires n <= |actions| && id in states[n].requests && IsInside(states[n].requests[id].pc)
    ensures SawRoom(states, actions, n, id, cfg)
  {
    hide SawRoom, SawCrowd, SawUsedUp;
    EvidenceRun(states, actions, n, id, cfg);
  }

  /** Whoever was refused had itself read the counter that refused it at its limit: concurrency first, usage only
      when it also read a free place. */
  lemma RefusedSawFull(states: seq<State>, actions: seq<Action>, n: nat, id: Id, cfg: Config)
    requires IsRun(states, actions, cfg) && states[0] == Init(states[0].now)
    requires n <= |actions| && id in states[n].requests && states[n].requests[id].pc.Done?
    ensures states[n].requests[id].pc.outcome.ConcurrencyRefused? ==> SawCrowd(states, actions, n, id, cfg)
    ensures states[n].requests[id].pc.outcome.BudgetRefused? ==> SawUsedUp(states, actions, n, id, cfg)
  {
    hide SawRoom, SawCrowd, SawUsedUp;
    EvidenceRun(states, actions, n, id, cfg);
  }

  /** A fresh explanation is returned only after it stood in the cache and under the result key. */
  lemma FreshWasShared(states: seq<State>, actions: seq<Action>, n: nat, id: Id, cfg: Config)
    requires IsRun(states, actions, cfg) && states[0] == Init(states[0].now)
    requires n <= |actions| && id in states[n].requests
    requires var pc := states[n].requests[id].pc; pc.Done? && pc.outcome.Returned? && !pc.outcome.e.cached
    ensures var r := states[n].requests[id];
      Held(states, n, Cache(r.fp), r.pc.outcome.e) && Held(states, n, Result(r.fp), r.pc.outcome.e)
  {
    hide SawRoom, SawCrowd, SawUsedUp;
    EvidenceRun(states, actions, n, id, cfg);
  }
}
