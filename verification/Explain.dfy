/**
 The AI-explanation pipeline (apps/server/src/ai/client.ts) as a transition system: any number of
 requests, each one a program counter over atomic Redis commands, interleaved with the passing of
 time and with cache invalidation.
 */
module Explain {
  import opened Common
  import opened Redis

  type Id = nat

  // What the language model answers if it is called; None when the call throws.
  datatype Reply = Reply(body: string, tokens: nat)

  datatype Explanation = Explanation(body: string, tokens: nat, cached: bool, requestId: Id)

  // The keys in use; the string prefixes keep the kinds apart.
  datatype Key =
    | Hourly
    | Daily
    | Concurrent
    | Dedup(fp: string)
    | Result(fp: string)
    | Cache(fp: string)

  datatype Config = Config(hourlyLimit: nat, dailyLimit: nat, maxConcurrent: nat, windowMs: nat, cacheTtl: nat)

  datatype Outcome =
    | Returned(e: Explanation)
    | ConcurrencyRefused
    | BudgetRefused
    | CallFailed

  // The next command of a request, with the values it still holds.
  datatype Pc =
    | Lookup
    | Lock
    | StartWait
    | Wait(deadline: int)
    | Poll(deadline: int)
    | ReadHourly
    | ReadDaily(hourly: int)
    | ReadActive(hourly: int, daily: int)
    | Enter
    | Call
    | RecordHourly
    | RecordDaily(hourlyNew: int)
    | ExpireHourly(hourlyNew: int, dailyNew: int)
    | ExpireDaily(dailyNew: int)
    | Save
    | Publish
    | Leave(outcome: Outcome)
    | Done(outcome: Outcome)

  // `wonAt` and `answered` are history: when the dedup lock was won, whether the model answered.
  datatype Request = Request(fp: string, reply: Option<Reply>, pc: Pc, wonAt: Option<int>, answered: bool)

  datatype State = State(now: int, store: Store<Key, Explanation>, requests: map<Id, Request>)

  datatype Action =
    | Arrive(id: Id, fp: string, reply: Option<Reply>)
    | Tick(millis: nat)
    | Invalidate(fp: string)
    | Advance(id: Id, seconds: nat)  // `seconds`: the clock-derived TTL, where the command takes one

  function Init(now: int): State {
    State(now, map[], map[])
  }

  predicate Enabled(s: State, a: Action) {
    match a
    case Arrive(id, _, _) => id !in s.requests
    case Advance(id, seconds) => id in s.requests && !s.requests[id].pc.Done? && seconds > 0
    case _ => true
  }

  function Own(id: Id, reply: Reply): Explanation {
    Explanation(reply.body, reply.tokens, false, id)
  }

  function Tokens(r: Request): nat {
    if r.reply.Some? then r.reply.value.tokens else 0
  }

  // assertBudgetAvailable: which refusal, if any, the three values read call for.
  function Verdict(hourly: int, daily: int, active: int, cfg: Config): Pc {
    var hourlyRemaining := if cfg.hourlyLimit - hourly > 0 then cfg.hourlyLimit - hourly else 0;
    var dailyRemaining := if cfg.dailyLimit - daily > 0 then cfg.dailyLimit - daily else 0;
    if hourlyRemaining > 0 && dailyRemaining > 0 && active < cfg.maxConcurrent then Enter
    else if active >= cfg.maxConcurrent then Done(ConcurrencyRefused)
    else Done(BudgetRefused)
  }

  // TTL of a published result: the window in whole seconds, rounded up, and two more.
  function ResultTtl(cfg: Config): nat {
    (cfg.windowMs + 999) / 1000 + 2
  }

  // One command of request `id`: the new store and the new request.
  function Command(s: State, id: Id, seconds: nat, cfg: Config): (Store<Key, Explanation>, Request)
    requires id in s.requests
  {
    var r := s.requests[id];
    var store, now := s.store, s.now;
    match r.pc
    case Lookup =>
      (match Read(store, Cache(r.fp), now)
       case Some(Saved(e)) => (store, r.(pc := Done(Returned(e.(cached := true)))))
       case _ => (store, r.(pc := Lock)))
    case Lock =>
      if Live(store, Dedup(r.fp), now) then (store, r.(pc := StartWait))
      else (SetNx(store, Dedup(r.fp), Owner(id), cfg.windowMs, now), r.(pc := ReadHourly, wonAt := Some(now)))
    case StartWait => (store, r.(pc := Wait(now + cfg.windowMs + 2000)))
    case Wait(deadline) => (store, r.(pc := if now < deadline then Poll(deadline) else ReadHourly))
    case Poll(deadline) =>
      (match Read(store, Result(r.fp), now)
       case Some(Saved(e)) => (store, r.(pc := Done(Returned(e.(cached := true, requestId := id)))))
       case _ => (store, r.(pc := Wait(deadline))))
    case ReadHourly => (store, r.(pc := ReadDaily(NumberAt(store, Hourly, now))))
    case ReadDaily(hourly) => (store, r.(pc := ReadActive(hourly, NumberAt(store, Daily, now))))
    case ReadActive(hourly, daily) =>
      (store, r.(pc := Verdict(hourly, daily, NumberAt(store, Concurrent, now), cfg)))
    case Enter => (IncrBy(store, Concurrent, 1, now), r.(pc := Call))
    case Call =>
      if r.reply.Some? then (store, r.(pc := RecordHourly, answered := true))
      else (store, r.(pc := Leave(CallFailed)))
    case RecordHourly =>
      var store' := IncrBy(store, Hourly, Tokens(r), now);
      (store', r.(pc := RecordDaily(NumberAt(store', Hourly, now))))
    case RecordDaily(hourlyNew) =>
      var store' := IncrBy(store, Daily, Tokens(r), now);
      (store', r.(pc := ExpireHourly(hourlyNew, NumberAt(store', Daily, now))))
    case ExpireHourly(hourlyNew, dailyNew) =>
      (if hourlyNew == Tokens(r) then Expire(store, Hourly, seconds, now) else store, r.(pc := ExpireDaily(dailyNew)))
    case ExpireDaily(dailyNew) =>
      (if dailyNew == Tokens(r) then Expire(store, Daily, seconds, now) else store, r.(pc := Save))
    case Save =>
      if r.reply.Some? then
        (SetEx(store, Cache(r.fp), Saved(Own(id, r.reply.value)), cfg.cacheTtl, now), r.(pc := Publish))
      else (store, r)
    case Publish =>
      if r.reply.Some? then
        (SetEx(store, Result(r.fp), Saved(Own(id, r.reply.value)), ResultTtl(cfg), now),
         r.(pc := Leave(Returned(Own(id, r.reply.value)))))
      else (store, r)
    case Leave(outcome) => (IncrBy(store, Concurrent, -1, now), r.(pc := Done(outcome)))
    case Done(_) => (store, r)
  }

  function Do(s: State, a: Action, cfg: Config): State
    requires Enabled(s, a)
  {
    match a
    case Arrive(id, fp, reply) =>
      s.(requests := s.requests[id := Request(fp, reply, Lookup, None, false)])
    case Tick(millis) => s.(now := s.now + millis)
    case Invalidate(fp) => s.(store := s.store - {Cache(fp)})
    case Advance(id, seconds) =>
      var (store, r) := Command(s, id, seconds, cfg);
      s.(store := store, requests := s.requests[id := r])
  }

  /* Runs. */

  predicate IsRun(states: seq<State>, actions: seq<Action>, cfg: Config) {
    && |states| == |actions| + 1
    && forall i :: 0 <= i < |actions| ==>
         Enabled(states[i], actions[i]) && states[i + 1] == Do(states[i], actions[i], cfg)
  }

  predicate Reachable(s: State, states: seq<State>, actions: seq<Action>, cfg: Config) {
    IsRun(states, actions, cfg) && states[0] == Init(states[0].now) && states[|actions|] == s
  }

  /* What every reachable state satisfies. */

  // Between INCRBY and DECRBY of the semaphore.
  predicate IsInside(pc: Pc) {
    match pc
    case Call => true
    case RecordHourly => true
    case RecordDaily(_) => true
    case ExpireHourly(_, _) => true
    case ExpireDaily(_) => true
    case Save => true
    case Publish => true
    case Leave(_) => true
    case _ => false
  }

  function Inside(requests: map<Id, Request>): set<Id> {
    set id | id in requests && IsInside(requests[id].pc)
  }

  // After the model's answer and before leaving, a request holds that answer.
  predicate HoldsAnswer(pc: Pc) {
    IsInside(pc) && !pc.Call? && !pc.Leave?
  }

  predicate Semaphore(s: State) {
    && NumberAt(s.store, Concurrent, s.now) == |Inside(s.requests)|
    && (Concurrent in s.store ==> s.store[Concurrent].data.Number? && s.store[Concurrent].expires.None?)
  }

  // A request that saw the counter start from 0 and has not yet set its expiry.
  predicate Starting(r: Request, key: Key) {
    match r.pc
    case RecordDaily(h) => key == Hourly && h == Tokens(r)
    case ExpireHourly(h, d) => (key == Hourly && h == Tokens(r)) || (key == Daily && d == Tokens(r))
    case ExpireDaily(d) => key == Daily && d == Tokens(r)
    case _ => false
  }

  predicate ExpirySafe(s: State, key: Key) {
    key in s.store ==>
      && s.store[key].data.Number?
      && (s.store[key].expires.None? ==> exists id :: id in s.requests && Starting(s.requests[id], key))
  }

  // The winner's lock outlives its window; two winners of one fingerprint are a window apart.
  predicate LockHeld(s: State, id: Id, cfg: Config)
    requires id in s.requests
  {
    var r := s.requests[id];
    r.wonAt.Some? ==>
      && r.wonAt.value <= s.now
      && Dedup(r.fp) in s.store
      && s.store[Dedup(r.fp)].expires.Some?
      && s.store[Dedup(r.fp)].expires.value >= r.wonAt.value + cfg.windowMs
  }

  predicate Apart(a: Request, b: Request, cfg: Config) {
    a.fp == b.fp && a.wonAt.Some? && b.wonAt.Some? ==>
      a.wonAt.value + cfg.windowMs <= b.wonAt.value || b.wonAt.value + cfg.windowMs <= a.wonAt.value
  }

  predicate WinnersApart(s: State, cfg: Config) {
    && (forall id :: id in s.requests ==> LockHeld(s, id, cfg))
    && (forall a, b :: a in s.requests && b in s.requests && a != b ==> Apart(s.requests[a], s.requests[b], cfg))
  }

  // The explanation is what the model answered to a request for this fingerprint.
  predicate AnswerOf(r: Request, fp: string, e: Explanation) {
    r.fp == fp && r.answered && r.reply.Some? && e.body == r.reply.value.body && e.tokens == r.reply.value.tokens
  }

  predicate Genuine(requests: map<Id, Request>, fp: string, e: Explanation) {
    exists id :: id in requests && AnswerOf(requests[id], fp, e)
  }

  predicate StoreGenuine(s: State) {
    forall key :: key in s.store && (key.Cache? || key.Result?) ==>
      s.store[key].data.Saved? && Genuine(s.requests, key.fp, s.store[key].data.value)
  }

  predicate RequestSound(requests: map<Id, Request>, id: Id)
    requires id in requests
  {
    var r := requests[id];
    && (HoldsAnswer(r.pc) ==> r.answered && r.reply.Some?)
    && ((r.pc.Leave? || r.pc.Done?) && r.pc.outcome.Returned? ==> Genuine(requests, r.fp, r.pc.outcome.e))
  }

  predicate Provenance(s: State) {
    StoreGenuine(s) && forall id :: id in s.requests ==> RequestSound(s.requests, id)
  }

  predicate Inv(s: State, cfg: Config) {
    && Semaphore(s)
    && ExpirySafe(s, Hourly)
    && ExpirySafe(s, Daily)
    && WinnersApart(s, cfg)
    && Provenance(s)
  }
}
