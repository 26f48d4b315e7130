/**
 `explainError` as the server runs it: commands on the shared store one after the other, with other
 requests, time and invalidation acting in between. Every execution is a run of the transition system.
 */
module ExplainService {
  import opened Common
  import opened Redis
  import opened Explain
  import opened ExplainSafety
  import opened ExplainVerdicts

  class Service {
    const cfg: Config
    var s: State
    // What the rest of the world does at each coming await.
    var others: seq<seq<Action>>
    // The run so far.
    ghost var states: seq<State>
    ghost var actions: seq<Action>

    constructor (cfg: Config, now: int, others: seq<seq<Action>>)
      ensures Valid() && this.cfg == cfg && s == Init(now)
    {
      this.cfg := cfg;
      this.s := Init(now);
      this.others := others;
      this.states := [Init(now)];
      this.actions := [];
    }

    ghost predicate Valid()
      reads this
    {
      && |states| == |actions| + 1 && states[|actions|] == s
      && Reachable(s, states, actions, cfg)
    }

    // The request stands before this command.
    predicate At(id: Id, pc: Pc)
      reads this
    {
      id in s.requests && s.requests[id].pc == pc
    }

    // The i-th action of the run is a command of this request, and it left this store behind.
    ghost predicate Did(i: nat, id: Id, store: Store<Key, Explanation>)
      reads this
    {
      && i < |actions| && i + 1 < |states|
      && actions[i].Advance? && actions[i].id == id && states[i + 1].store == store
    }

    // The run has only been prolonged, and the request is still the same one.
    twostate predicate Prolongs(id: Id)
      reads this
    {
      && Valid()
      && old(actions) <= actions && old(states) <= states
      && old(s.now) <= s.now
      && id in old(s.requests) && id in s.requests
      && s.requests[id].fp == old(s.requests[id].fp)
      && s.requests[id].reply == old(s.requests[id].reply)
    }

    method Act(a: Action)
      requires Valid() && Enabled(s, a)
      modifies this
      ensures Valid() && s == Do(old(s), a, cfg) && others == old(others)
      ensures actions == old(actions) + [a] && states == old(states) + [s]
    {
      hide Do, Enabled;
      s := Do(s, a, cfg);
      states, actions := states + [s], actions + [a];
    }

    /** An await: whatever others do meanwhile, this request does not move. */
    method Await(id: Id)
      requires Valid() && id in s.requests
      modifies this
      ensures Prolongs(id) && s.requests[id] == old(s.requests[id])
    {
      hide Reachable;
      if others != [] {
        var batch := others[0];
        others := others[1..];
        for i := 0 to |batch|
          invariant Prolongs(id) && s.requests[id] == old(s.requests[id])
        {
          if Enabled(s, batch[i]) && !(batch[i].Advance? && batch[i].id == id) {
            Act(batch[i]);
          }
        }
      }
    }

    /** One command of the request: the program's own store and next position are those of the system. */
    method Commit(id: Id, seconds: nat, store: Store<Key, Explanation>, r: Request)
      requires Valid() && id in s.requests && !s.requests[id].pc.Done? && seconds > 0
      requires (store, r) == Command(s, id, seconds, cfg)
      modifies this
      ensures Valid() && s == State(old(s.now), store, old(s.requests)[id := r])
      ensures actions == old(actions) + [Advance(id, seconds)] && states == old(states) + [s]
    {
      hide Command, Reachable;
      Act(Advance(id, seconds));
    }

    // Moves on without touching the store.
    method Move(id: Id, pc: Pc)
      requires Valid() && id in s.requests && !s.requests[id].pc.Done?
      requires Command(s, id, 1, cfg) == (s.store, s.requests[id].(pc := pc))
      modifies this
      ensures Prolongs(id) && At(id, pc) && s.requests[id].answered == old(s.requests[id].answered)
      ensures s.store == old(s.store) && s.now == old(s.now) && Did(|old(actions)|, id, old(s.store))
      ensures |actions| == |old(actions)| + 1
    {
      hide Command, Reachable;
      Commit(id, 1, s.store, s.requests[id].(pc := pc));
    }

    /** A hit is a live entry under the cache key. */
    method GetCache(id: Id) returns (cached: Option<Explanation>)
      requires Valid() && At(id, Lookup)
      modifies this
      ensures Prolongs(id)
      ensures cached == match old(Read(s.store, Cache(s.requests[id].fp), s.now))
                        case Some(Saved(e)) => Some(e)
                        case _ => None
      ensures At(id, match cached case Some(e) => Done(Returned(e.(cached := true))) case None => Lock)
    {
      hide Reachable;
      var data := Read(s.store, Cache(s.requests[id].fp), s.now);
      match data {
        case Some(Saved(e)) =>
          Move(id, Done(Returned(e.(cached := true))));
          cached := Some(e);
        case _ =>
          Move(id, Lock);
          cached := None;
      }
      Await(id);
    }

    /** Wins exactly when no lock is alive, and then sets one for the window. */
    method TryAcquire(id: Id) returns (acquired: bool)
      requires Valid() && At(id, Lock)
      modifies this
      ensures Prolongs(id) && At(id, if acquired then ReadHourly else StartWait)
      ensures acquired <==> !old(Live(s.store, Dedup(s.requests[id].fp), s.now))
      ensures Did(|old(actions)|, id,
                  if acquired then old(s.store[Dedup(s.requests[id].fp) := Slot(Owner(id), Some(s.now + cfg.windowMs))])
                  else old(s.store))
    {
      hide Reachable;
      var r := s.requests[id];
      acquired := !Live(s.store, Dedup(r.fp), s.now);
      if acquired {
        var store := s.store[Dedup(r.fp) := Slot(Owner(id), Some(s.now + cfg.windowMs))];
        Commit(id, 1, store, r.(pc := ReadHourly, wonAt := Some(s.now)));
      } else {
        Move(id, StartWait);
      }
      Await(id);
    }

    method StartPoll(id: Id, deadline: int)
      requires Valid() && At(id, Wait(deadline)) && s.now < deadline
      modifies this
      ensures Prolongs(id) && At(id, Poll(deadline)) && |old(states)| < |states|
    {
      hide Reachable;
      Move(id, Poll(deadline));
      Await(id);
    }

    method StartWaiting(id: Id) returns (deadline: int)
      requires Valid() && At(id, StartWait)
      modifies this
      ensures Prolongs(id) && At(id, Wait(deadline)) && deadline == old(s.now) + cfg.windowMs + 2000
      ensures |old(states)| < |states|
    {
      hide Reachable;
      deadline := s.now + cfg.windowMs + 2000;
      Move(id, Wait(deadline));
    }

    method StopWaiting(id: Id, deadline: int)
      requires Valid() && At(id, Wait(deadline)) && s.now >= deadline
      modifies this
      ensures Prolongs(id) && At(id, ReadHourly)
    {
      hide Reachable;
      Move(id, ReadHourly);
    }

    // Sleeping, while others go on.
    method Sleep(id: Id, millis: nat)
      requires Valid() && id in s.requests && millis > 0
      modifies this
      ensures Prolongs(id) && s.requests[id] == old(s.requests[id]) && s.now > old(s.now)
    {
      hide Reachable;
      Await(id);
      Act(Tick(millis));
    }

    // One look at the result key.
    method PollOnce(id: Id, deadline: int) returns (found: Option<Explanation>, ghost at: nat)
      requires Valid() && At(id, Wait(deadline)) && s.now < deadline
      modifies this
      ensures Prolongs(id) && |old(states)| <= at < |states|
      ensures found == match Read(states[at].store, Result(s.requests[id].fp), states[at].now)
                       case Some(Saved(e)) => Some(e)
                       case _ => None
      ensures At(id, match found
                     case Some(e) => Done(Returned(e.(cached := true, requestId := id)))
                     case None => Wait(deadline))
    {
      hide Reachable;
      StartPoll(id, deadline);
      var data := Read(s.store, Result(s.requests[id].fp), s.now);
      at := |states| - 1;
      match data {
        case Some(Saved(e)) =>
          Move(id, Done(Returned(e.(cached := true, requestId := id))));
          found := Some(e);
        case _ =>
          Move(id, Wait(deadline));
          found := None;
      }
    }

    /** Polls the result key until it appears or the window, with its buffer, is over. */
    method WaitForResult(id: Id, pollMs: nat) returns (coalesced: Option<Explanation>, ghost at: nat)
      requires Valid() && At(id, StartWait) && pollMs > 0
      modifies this
      ensures Prolongs(id)
      ensures coalesced.Some? ==>
        && |old(states)| <= at < |states|
        && Read(states[at].store, Result(s.requests[id].fp), states[at].now) == Some(Saved(coalesced.value))
      ensures coalesced.None? ==> s.now >= old(s.now) + cfg.windowMs + 2000
      ensures At(id, match coalesced
                     case Some(e) => Done(Returned(e.(cached := true, requestId := id)))
                     case None => ReadHourly)
    {
      hide Reachable, Read, Command;
      var deadline := StartWaiting(id);
      while s.now < deadline
        invariant Prolongs(id) && At(id, Wait(deadline))
        decreases deadline - s.now
      {
        coalesced, at := PollOnce(id, deadline);
        if coalesced.Some? {
          return;
        }
        Sleep(id, pollMs);
      }
      StopWaiting(id, deadline);
      coalesced, at := None, 0;
    }

    // The reads of the two usage counters.
    method ReadUsage(id: Id) returns (hourly: int, daily: int, ghost second: nat)
      requires Valid() && At(id, ReadHourly)
      modifies this
      ensures Prolongs(id) && At(id, ReadActive(hourly, daily))
      ensures |old(actions)| < second < |actions| && Did(second, id, states[second].store)
      ensures hourly == old(CounterAt(s, Hourly)) && daily == CounterAt(states[second], Daily)
    {
      hide Reachable;
      hourly := NumberAt(s.store, Hourly, s.now);
      Move(id, ReadDaily(hourly));
      Await(id);
      daily := NumberAt(s.store, Daily, s.now);
      second := |actions|;
      Move(id, ReadActive(hourly, daily));
      Await(id);
    }

    /** Reads the three counters one after the other: admits when each is below its limit, and refuses otherwise,
        concurrency first. */
    method AssertBudgetAvailable(id: Id) returns (refusal: Option<Outcome>, ghost second: nat, ghost third: nat)
      requires Valid() && At(id, ReadHourly)
      modifies this
      ensures Prolongs(id)
      ensures At(id, match refusal case Some(o) => Done(o) case None => Enter)
      ensures |old(actions)| < second < third < |actions|
      ensures Did(second, id, states[second].store) && Did(third, id, states[third].store)
      ensures var hourly, daily, active :=
          old(CounterAt(s, Hourly)), CounterAt(states[second], Daily), CounterAt(states[third], Concurrent);
        refusal ==
          if active >= cfg.maxConcurrent then Some(ConcurrencyRefused)
          else if hourly >= cfg.hourlyLimit || daily >= cfg.dailyLimit then Some(BudgetRefused)
          else None
    {
      hide Reachable, Command, CounterAt;
      var hourly, daily;
      hourly, daily, second := ReadUsage(id);
      third := |actions|;
      refusal := Decide(id, hourly, daily);
    }

    // The third read, and the verdict.
    method Decide(id: Id, hourly: int, daily: int) returns (refusal: Option<Outcome>)
      requires Valid() && At(id, ReadActive(hourly, daily))
      modifies this
      ensures Prolongs(id) && Did(|old(actions)|, id, old(s.store))
      ensures At(id, match refusal case Some(o) => Done(o) case None => Enter)
      ensures refusal ==
        if old(CounterAt(s, Concurrent)) >= cfg.maxConcurrent then Some(ConcurrencyRefused)
        else if hourly >= cfg.hourlyLimit || daily >= cfg.dailyLimit then Some(BudgetRefused)
        else None
    {
      hide Reachable;
      var active := NumberAt(s.store, Concurrent, s.now);
      if hourly < cfg.hourlyLimit && daily < cfg.dailyLimit && active < cfg.maxConcurrent {
        refusal := None;
        Move(id, Enter);
      } else if active >= cfg.maxConcurrent {
        refusal := Some(ConcurrencyRefused);
        Move(id, Done(ConcurrencyRefused));
      } else {
        refusal := Some(BudgetRefused);
        Move(id, Done(BudgetRefused));
      }
      Await(id);
    }

    // INCRBY on one of the counters.
    method Increment(id: Id, key: Key, amount: int, r: Request) returns (now: int)
      requires Valid() && id in s.requests && !s.requests[id].pc.Done?
      requires r.fp == s.requests[id].fp && r.reply == s.requests[id].reply
      requires (IncrBy(s.store, key, amount, s.now), r) == Command(s, id, 1, cfg)
      modifies this
      ensures Prolongs(id) && s.requests[id] == r && s.now == old(s.now)
      ensures now == NumberAt(s.store, key, s.now) && Did(|old(actions)|, id, old(IncrBy(s.store, key, amount, s.now)))
      ensures |actions| == |old(actions)| + 1
    {
      hide Command, Reachable;
      var store := IncrBy(s.store, key, amount, s.now);
      now := NumberAt(store, key, s.now);
      Commit(id, 1, store, r);
    }

    /** Both counters are incremented by the tokens; each one that started from 0 gets its expiry. The four commands
        of the request are the actions at these places of the run. */
    method RecordUsage(id: Id, tokens: nat, untilHour: nat, untilMidnight: nat)
      returns (ghost second: nat, ghost third: nat, ghost fourth: nat)
      requires Valid() && At(id, RecordHourly) && tokens == Tokens(s.requests[id])
      requires untilHour > 0 && untilMidnight > 0
      modifies this
      ensures Prolongs(id) && At(id, Save)
      ensures |old(actions)| < second < third < fourth < |actions|
      ensures Did(|old(actions)|, id, old(IncrBy(s.store, Hourly, tokens, s.now)))
      ensures Did(second, id, IncrBy(states[second].store, Daily, tokens, states[second].now))
      ensures Did(third, id,
        ExpiryIfFirst(states[third], Hourly, CounterAt(states[|old(states)|], Hourly) == tokens, untilHour))
      ensures Did(fourth, id,
        ExpiryIfFirst(states[fourth], Daily, CounterAt(states[second + 1], Daily) == tokens, untilMidnight))
    {
      hide ExpiryIfFirst, Command, Do, Enabled, Reachable;
      var hourlyNew, dailyNew;
      hourlyNew, dailyNew, second := IncrementBoth(id, tokens);
      third, fourth := SetExpiries(id, tokens, hourlyNew, dailyNew, untilHour, untilMidnight);
    }

    // EXPIRE, for a counter whose increment was its first.
    static function ExpiryIfFirst(s: State, key: Key, first: bool, seconds: nat): Store<Key, Explanation> {
      if first then Expire(s.store, key, seconds, s.now) else s.store
    }

    method IncrementBoth(id: Id, tokens: nat) returns (hourlyNew: int, dailyNew: int, ghost second: nat)
      requires Valid() && At(id, RecordHourly) && tokens == Tokens(s.requests[id])
      modifies this
      ensures Prolongs(id) && At(id, ExpireHourly(hourlyNew, dailyNew))
      ensures |old(actions)| < second < |actions|
      ensures Did(|old(actions)|, id, old(IncrBy(s.store, Hourly, tokens, s.now)))
      ensures Did(second, id, IncrBy(states[second].store, Daily, tokens, states[second].now))
      ensures hourlyNew == CounterAt(states[|old(states)|], Hourly) && dailyNew == CounterAt(states[second + 1], Daily)
    {
      hide Reachable, Command, IncrBy, CounterAt;
      hourlyNew := IncrementHourly(id, tokens);
      second := |actions|;
      dailyNew := IncrementDaily(id, tokens, hourlyNew);
    }

    method IncrementHourly(id: Id, tokens: nat) returns (hourlyNew: int)
      requires Valid() && At(id, RecordHourly) && tokens == Tokens(s.requests[id])
      modifies this
      ensures Prolongs(id) && At(id, RecordDaily(hourlyNew)) && |actions| > |old(actions)|
      ensures Did(|old(actions)|, id, old(IncrBy(s.store, Hourly, tokens, s.now)))
      ensures hourlyNew == CounterAt(states[|old(states)|], Hourly)
    {
      hide Reachable;
      hourlyNew := NumberAt(s.store, Hourly, s.now) + tokens;
      var _ := Increment(id, Hourly, tokens, s.requests[id].(pc := RecordDaily(hourlyNew)));
      Await(id);
    }

    method IncrementDaily(id: Id, tokens: nat, hourlyNew: int) returns (dailyNew: int)
      requires Valid() && At(id, RecordDaily(hourlyNew)) && tokens == Tokens(s.requests[id])
      modifies this
      ensures Prolongs(id) && At(id, ExpireHourly(hourlyNew, dailyNew)) && |actions| > |old(actions)|
      ensures Did(|old(actions)|, id, old(IncrBy(s.store, Daily, tokens, s.now)))
      ensures dailyNew == CounterAt(states[|old(states)|], Daily)
    {
      hide Reachable;
      dailyNew := NumberAt(s.store, Daily, s.now) + tokens;
      var _ := Increment(id, Daily, tokens, s.requests[id].(pc := ExpireHourly(hourlyNew, dailyNew)));
      Await(id);
    }

    // EXPIRE on one of the usage counters, if its increment was the first.
    method SetExpiry(id: Id, key: Key, first: bool, seconds: nat, pc: Pc)
      requires Valid() && id in s.requests && !s.requests[id].pc.Done? && seconds > 0
      requires (ExpiryIfFirst(s, key, first, seconds), s.requests[id].(pc := pc)) == Command(s, id, seconds, cfg)
      modifies this
      ensures Prolongs(id) && At(id, pc) && |actions| > |old(actions)|
      ensures Did(|old(actions)|, id, old(ExpiryIfFirst(s, key, first, seconds)))
    {
      hide Command, Reachable;
      Commit(id, seconds, ExpiryIfFirst(s, key, first, seconds), s.requests[id].(pc := pc));
      Await(id);
    }

    method SetExpiries(id: Id, tokens: nat, hourlyNew: int, dailyNew: int, untilHour: nat, untilMidnight: nat)
      returns (ghost third: nat, ghost fourth: nat)
      requires Valid() && At(id, ExpireHourly(hourlyNew, dailyNew)) && tokens == Tokens(s.requests[id])
      requires untilHour > 0 && untilMidnight > 0
      modifies this
      ensures Prolongs(id) && At(id, Save)
      ensures |old(actions)| == third < fourth < |actions|
      ensures Did(third, id, ExpiryIfFirst(states[third], Hourly, hourlyNew == tokens, untilHour))
      ensures Did(fourth, id, ExpiryIfFirst(states[fourth], Daily, dailyNew == tokens, untilMidnight))
    {
      hide Reachable;
      third := |actions|;
      SetExpiry(id, Hourly, hourlyNew == tokens, untilHour, ExpireDaily(dailyNew));
      fourth := |actions|;
      SetExpiry(id, Daily, dailyNew == tokens, untilMidnight, Save);
    }

    method SetCache(id: Id, e: Explanation)
      requires Valid() && At(id, Save) && s.requests[id].reply.Some? && e == Own(id, s.requests[id].reply.value)
      modifies this
      ensures Prolongs(id) && At(id, Publish)
      ensures Did(|old(actions)|, id, old(SetEx(s.store, Cache(s.requests[id].fp), Saved(e), cfg.cacheTtl, s.now)))
    {
      hide Reachable;
      var r := s.requests[id];
      Commit(id, 1, SetEx(s.store, Cache(r.fp), Saved(e), cfg.cacheTtl, s.now), r.(pc := Publish));
      Await(id);
    }

    method PublishResult(id: Id, e: Explanation)
      requires Valid() && At(id, Publish) && s.requests[id].reply.Some? && e == Own(id, s.requests[id].reply.value)
      modifies this
      ensures Prolongs(id) && At(id, Leave(Returned(e)))
      ensures Did(|old(actions)|, id, old(SetEx(s.store, Result(s.requests[id].fp), Saved(e), ResultTtl(cfg), s.now)))
    {
      hide Reachable;
      var r := s.requests[id];
      Commit(id, 1, SetEx(s.store, Result(r.fp), Saved(e), ResultTtl(cfg), s.now), r.(pc := Leave(Returned(e))));
      Await(id);
    }

    method ReleaseConcurrency(id: Id, outcome: Outcome)
      requires Valid() && At(id, Leave(outcome))
      modifies this
      ensures Prolongs(id) && At(id, Done(outcome))
      ensures Did(|old(actions)|, id, old(IncrBy(s.store, Concurrent, -1, s.now)))
    {
      hide Reachable;
      var _ := Increment(id, Concurrent, -1, s.requests[id].(pc := Done(outcome)));
      Await(id);
    }

    /** The whole request. Whatever the others do: it ends, it gives back its place in the semaphore,
        and what it returns was answered by the model for the same fingerprint. */
    method ExplainError(id: Id, fp: string, reply: Option<Reply>, pollMs: nat, untilHour: nat, untilMidnight: nat)
      returns (outcome: Outcome)
      requires Valid() && id !in s.requests && pollMs > 0 && untilHour > 0 && untilMidnight > 0
      modifies this
      ensures Valid() && old(actions) <= actions
      ensures At(id, Done(outcome)) && id !in Inside(s.requests)
      ensures s.requests[id].fp == fp
      ensures outcome.Returned? ==> Genuine(s.requests, fp, outcome.e)
      ensures outcome == CallFailed ==> reply.None?
    {
      hide Command, Did, Reachable, Read;
      Act(Arrive(id, fp, reply));
      var cached := GetCache(id);
      if cached.Some? {
        outcome := Returned(cached.value.(cached := true));
      } else {
        outcome := Compute(id, pollMs, untilHour, untilMidnight);
      }
      ReachableInv(s, states, actions, cfg);
      assert RequestSound(s.requests, id);
    }

    method Compute(id: Id, pollMs: nat, untilHour: nat, untilMidnight: nat) returns (outcome: Outcome)
      requires Valid() && At(id, Lock) && pollMs > 0 && untilHour > 0 && untilMidnight > 0
      modifies this
      ensures Prolongs(id) && At(id, Done(outcome))
      ensures outcome == CallFailed ==> s.requests[id].reply.None?
    {
      hide Command, Reachable, Did;
      var coalesced := Coalesce(id, pollMs);
      if coalesced.Some? {
        return Returned(coalesced.value.(cached := true, requestId := id));
      }
      outcome := Answer(id, untilHour, untilMidnight);
    }

    // The dedup step: the explanation of a duplicate in flight, or None when this request must compute.
    method Coalesce(id: Id, pollMs: nat) returns (coalesced: Option<Explanation>)
      requires Valid() && At(id, Lock) && pollMs > 0
      modifies this
      ensures Prolongs(id)
      ensures At(id, match coalesced
                     case Some(e) => Done(Returned(e.(cached := true, requestId := id)))
                     case None => ReadHourly)
    {
      hide Command, Reachable, Did;
      var acquired := TryAcquire(id);
      if acquired {
        return None;
      }
      var result, _ := WaitForResult(id, pollMs);
      coalesced := result;
    }

    method Answer(id: Id, untilHour: nat, untilMidnight: nat) returns (outcome: Outcome)
      requires Valid() && At(id, ReadHourly) && untilHour > 0 && untilMidnight > 0
      modifies this
      ensures Prolongs(id) && At(id, Done(outcome))
      ensures outcome == CallFailed ==> s.requests[id].reply.None?
    {
      hide Command, Reachable, SetEx, IncrBy, CounterAt, Did;
      var refusal, _, _ := AssertBudgetAvailable(id);
      if refusal.Some? {
        return refusal.value;
      }
      AcquireConcurrency(id);
      outcome := TryBlock(id, untilHour, untilMidnight);
      // The finally block, however the try block ended.
      ReleaseConcurrency(id, outcome);
    }

    method AcquireConcurrency(id: Id)
      requires Valid() && At(id, Enter)
      modifies this
      ensures Prolongs(id) && At(id, Call)
      ensures Did(|old(actions)|, id, old(IncrBy(s.store, Concurrent, 1, s.now)))
    {
      hide Reachable;
      var _ := Increment(id, Concurrent, 1, s.requests[id].(pc := Call));
      Await(id);
    }

    method TryBlock(id: Id, untilHour: nat, untilMidnight: nat) returns (outcome: Outcome)
      requires Valid() && At(id, Call) && untilHour > 0 && untilMidnight > 0
      modifies this
      ensures Prolongs(id) && At(id, Leave(outcome))
      ensures outcome ==
        if s.requests[id].reply.Some? then Returned(Own(id, s.requests[id].reply.value)) else CallFailed
    {
      hide Reachable, SetEx, IncrBy, CounterAt, ExpiryIfFirst, Did;
      var r := s.requests[id];
      if r.reply.None? {
        outcome := CallFailed;
        Move(id, Leave(CallFailed));
        return;
      }
      CallLLM(id);
      var _, _, _ := RecordUsage(id, r.reply.value.tokens, untilHour, untilMidnight);
      var explanation := Own(id, r.reply.value);
      SetCache(id, explanation);
      PublishResult(id, explanation);
      outcome := Returned(explanation);
    }

    method CallLLM(id: Id)
      requires Valid() && At(id, Call) && s.requests[id].reply.Some?
      modifies this
      ensures Prolongs(id) && At(id, RecordHourly)
    {
      hide Reachable;
      Commit(id, 1, s.store, s.requests[id].(pc := RecordHourly, answered := true));
      Await(id);
    }
  }
}
