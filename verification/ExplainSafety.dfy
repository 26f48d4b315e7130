/**
 Safety of the pipeline over all interleavings: the semaphore count, the expiry of the usage
 counters, the separation of dedup winners and the origin of every explanation.
 */
module ExplainSafety {
  import opened Common
  import opened Redis
  import opened Explain

  lemma InvInit(now: int, cfg: Config)
    ensures Inv(Init(now), cfg)
  {
    assert Inside(map[]) == {};
  }

  /* The semaphore. */

  lemma InsideAfter(requests: map<Id, Request>, id: Id, r: Request)
    ensures Inside(requests[id := r]) == if IsInside(r.pc) then Inside(requests) + {id} else Inside(requests) - {id}
  {
  }

  lemma SemaphoreStep(s: State, a: Action, cfg: Config)
    requires Enabled(s, a) && Semaphore(s)
    ensures Semaphore(Do(s, a, cfg))
  {
    hide Inside, Verdict;
    match a
    case Arrive(id, fp, reply) =>
      var r := Request(fp, reply, Lookup, None, false);
      InsideAfter(s.requests, id, r);
      NotInside(s.requests, id);
      assert Inside(s.requests) - {id} == Inside(s.requests);
    case Tick(_) =>
    case Invalidate(_) =>
    case Advance(id, seconds) => SemaphoreCommand(s, id, seconds, cfg);
  }

  lemma NotInside(requests: map<Id, Request>, id: Id)
    ensures id in Inside(requests) <==> id in requests && IsInside(requests[id].pc)
  {
  }

  lemma CommandSemaphore(s: State, id: Id, seconds: nat, cfg: Config)
    requires id in s.requests && Semaphore(s)
    ensures var (store, r) := Command(s, id, seconds, cfg);
      var was, now := IsInside(s.requests[id].pc), IsInside(r.pc);
      && (Concurrent in store ==> store[Concurrent].data.Number? && store[Concurrent].expires.None?)
      && (was == now ==> NumberAt(store, Concurrent, s.now) == NumberAt(s.store, Concurrent, s.now))
      && (!was && now ==> NumberAt(store, Concurrent, s.now) == NumberAt(s.store, Concurrent, s.now) + 1)
      && (was && !now ==> NumberAt(store, Concurrent, s.now) == NumberAt(s.store, Concurrent, s.now) - 1)
  {
    hide Inside;
  }

  lemma SemaphoreCommand(s: State, id: Id, seconds: nat, cfg: Config)
    requires id in s.requests && Semaphore(s)
    ensures var (store, r) := Command(s, id, seconds, cfg);
      Semaphore(State(s.now, store, s.requests[id := r]))
  {
    hide Command, IsInside, Inside;
    var (store, r) := Command(s, id, seconds, cfg);
    CommandSemaphore(s, id, seconds, cfg);
    InsideAfter(s.requests, id, r);
    NotInside(s.requests, id);
    var inside := Inside(s.requests);
    if id in inside {
      assert inside + {id} == inside;
    } else {
      assert inside - {id} == inside;
    }
  }

  /* Expiry of the usage counters. */

  lemma ExpirySafeStep(s: State, a: Action, key: Key, cfg: Config)
    requires key == Hourly || key == Daily
    requires Enabled(s, a) && ExpirySafe(s, key)
    ensures ExpirySafe(Do(s, a, cfg), key)
  {
    hide Starting;
    var s' := Do(s, a, cfg);
    if a.Advance? {
      ExpiryCommand(s, a.id, a.seconds, key, cfg);
    } else if key in s.store && s.store[key].expires.None? {
      var id :| id in s.requests && Starting(s.requests[id], key);
      assert id in s'.requests && s'.requests[id] == s.requests[id];
    }
  }

  lemma CommandExpiry(s: State, id: Id, seconds: nat, key: Key, cfg: Config)
    requires key == Hourly || key == Daily
    requires id in s.requests && (key in s.store ==> s.store[key].data.Number?)
    ensures var (store, r) := Command(s, id, seconds, cfg);
      && (key in store ==> store[key].data.Number?)
      && (key in store && store[key].expires.None? ==>
            || Starting(r, key)
            || (key in s.store && s.store[key].expires.None? && !Starting(s.requests[id], key)))
  {
    hide Verdict;
  }

  lemma ExpiryCommand(s: State, id: Id, seconds: nat, key: Key, cfg: Config)
    requires key == Hourly || key == Daily
    requires id in s.requests && ExpirySafe(s, key)
    ensures var (store, r) := Command(s, id, seconds, cfg);
      ExpirySafe(State(s.now, store, s.requests[id := r]), key)
  {
    hide Command, Starting;
    var (store, r) := Command(s, id, seconds, cfg);
    var requests := s.requests[id := r];
    CommandExpiry(s, id, seconds, key, cfg);
    if key in store && store[key].expires.None? {
      if Starting(r, key) {
        assert requests[id] == r;
      } else {
        var w :| w in s.requests && Starting(s.requests[w], key);
        assert w != id && requests[w] == s.requests[w];
      }
    }
  }

  /* Dedup winners. */

  // A command either leaves the lock of a fingerprint and the request's own win alone, or it wins:
  // then no live lock was there.
  lemma CommandLock(s: State, id: Id, seconds: nat, cfg: Config)
    requires id in s.requests
    ensures var (store, r) := Command(s, id, seconds, cfg);
      var was := s.requests[id];
      && r.fp == was.fp
      && (forall fp :: Dedup(fp) in s.store && fp != was.fp ==>
            Dedup(fp) in store && store[Dedup(fp)] == s.store[Dedup(fp)])
      && (|| (r.wonAt == was.wonAt &&
              (Dedup(was.fp) in s.store ==> Dedup(was.fp) in store && store[Dedup(was.fp)] == s.store[Dedup(was.fp)]))
          || (&& r.wonAt == Some(s.now)
              && !Live(s.store, Dedup(was.fp), s.now)
              && Dedup(was.fp) in store
              && store[Dedup(was.fp)].expires == Some(s.now + cfg.windowMs)))
  {
    hide Verdict, NumberAt;
  }

  lemma WinnersCommand(s: State, id: Id, seconds: nat, cfg: Config)
    requires id in s.requests && WinnersApart(s, cfg)
    ensures var (store, r) := Command(s, id, seconds, cfg);
      WinnersApart(State(s.now, store, s.requests[id := r]), cfg)
  {
    hide Command;
    var (store, r) := Command(s, id, seconds, cfg);
    var was, requests := s.requests[id], s.requests[id := r];
    var s' := State(s.now, store, requests);
    CommandLock(s, id, seconds, cfg);
    forall o | o in requests ensures LockHeld(s', o, cfg) {
      assert LockHeld(s, o, cfg);
    }
    forall a, b | a in requests && b in requests && a != b ensures Apart(requests[a], requests[b], cfg) {
      assert Apart(s.requests[a], s.requests[b], cfg);
      assert LockHeld(s, a, cfg) && LockHeld(s, b, cfg);
    }
  }

  lemma WinnersApartStep(s: State, a: Action, cfg: Config)
    requires Enabled(s, a) && WinnersApart(s, cfg)
    ensures WinnersApart(Do(s, a, cfg), cfg)
  {
    hide Command;
    var s' := Do(s, a, cfg);
    if a.Advance? {
      WinnersCommand(s, a.id, a.seconds, cfg);
    } else {
      forall o | o in s'.requests ensures LockHeld(s', o, cfg) {
        assert o in s.requests ==> LockHeld(s, o, cfg) && s'.requests[o] == s.requests[o];
      }
      forall x, y | x in s'.requests && y in s'.requests && x != y ensures Apart(s'.requests[x], s'.requests[y], cfg) {
        assert x in s.requests && y in s.requests ==> Apart(s.requests[x], s.requests[y], cfg);
      }
    }
  }

  /* Provenance. */

  // Requests that existed keep their fingerprint and the model's answer.
  predicate Extends(before: map<Id, Request>, after: map<Id, Request>) {
    forall id :: id in before ==>
      id in after && after[id].fp == before[id].fp && after[id].reply == before[id].reply &&
      (before[id].answered ==> after[id].answered)
  }

  lemma GenuineKept(before: map<Id, Request>, after: map<Id, Request>, fp: string, e: Explanation)
    requires Extends(before, after) && Genuine(before, fp, e)
    ensures Genuine(after, fp, e)
  {
    var id :| id in before && AnswerOf(before[id], fp, e);
    assert AnswerOf(after[id], fp, e);
  }

  // What a command reads, stores or returns: a stored explanation of its fingerprint, or its own answer.
  lemma CommandOrigin(s: State, id: Id, seconds: nat, cfg: Config)
    requires id in s.requests
    requires HoldsAnswer(s.requests[id].pc) ==> s.requests[id].answered && s.requests[id].reply.Some?
    ensures var (store, r) := Command(s, id, seconds, cfg);
      var was := s.requests[id];
      && r.fp == was.fp && r.reply == was.reply && (was.answered ==> r.answered)
      && (HoldsAnswer(r.pc) ==> r.answered && r.reply.Some?)
      && (forall key :: key in store && (key.Cache? || key.Result?) ==>
            || (key in s.store && store[key] == s.store[key])
            || (key.fp == r.fp && r.answered && r.reply.Some? && store[key].data == Saved(Own(id, r.reply.value))))
      && ((r.pc.Leave? || r.pc.Done?) && r.pc.outcome.Returned? ==>
            || ((was.pc.Leave? || was.pc.Done?) && was.pc.outcome == r.pc.outcome)
            || AnswerOf(r, r.fp, r.pc.outcome.e)
            || (exists key :: key in s.store && (key.Cache? || key.Result?) && key.fp == r.fp &&
                  s.store[key].data.Saved? && SameAnswer(s.store[key].data.value, r.pc.outcome.e)))
  {
    hide NumberAt;
    var (store, r) := Command(s, id, seconds, cfg);
    var was := s.requests[id];
    if was.pc.Lookup? && r.pc.Done? {
      assert SameAnswer(s.store[Cache(was.fp)].data.value, r.pc.outcome.e);
    } else if was.pc.Poll? && r.pc.Done? {
      assert SameAnswer(s.store[Result(was.fp)].data.value, r.pc.outcome.e);
    }
  }

  predicate SameAnswer(a: Explanation, b: Explanation) {
    a.body == b.body && a.tokens == b.tokens
  }

  lemma ProvenanceCommand(s: State, id: Id, seconds: nat, cfg: Config)
    requires id in s.requests && Provenance(s)
    ensures var (store, r) := Command(s, id, seconds, cfg);
      Provenance(State(s.now, store, s.requests[id := r]))
  {
    hide Command, HoldsAnswer;
    var (store, r) := Command(s, id, seconds, cfg);
    var requests := s.requests[id := r];
    assert RequestSound(s.requests, id);
    CommandOrigin(s, id, seconds, cfg);
    assert Extends(s.requests, requests);
    forall key | key in store && (key.Cache? || key.Result?)
      ensures store[key].data.Saved? && Genuine(requests, key.fp, store[key].data.value)
    {
      if key in s.store && store[key] == s.store[key] {
        GenuineKept(s.requests, requests, key.fp, store[key].data.value);
      } else {
        assert AnswerOf(requests[id], key.fp, store[key].data.value);
      }
    }
    forall o | o in requests ensures RequestSound(requests, o) {
      if o != id {
        assert RequestSound(s.requests, o);
        OutcomeKept(s.requests, requests, o);
      } else {
        OwnOutcome(s, id, r);
      }
    }
  }

  lemma OutcomeKept(before: map<Id, Request>, after: map<Id, Request>, o: Id)
    requires Extends(before, after) && o in before && after[o] == before[o] && RequestSound(before, o)
    ensures RequestSound(after, o)
  {
    var r := before[o];
    if (r.pc.Leave? || r.pc.Done?) && r.pc.outcome.Returned? {
      GenuineKept(before, after, r.fp, r.pc.outcome.e);
    }
  }

  lemma OwnOutcome(s: State, id: Id, r: Request)
    requires id in s.requests && Provenance(s)
    requires Extends(s.requests, s.requests[id := r])
    requires HoldsAnswer(r.pc) ==> r.answered && r.reply.Some?
    requires (r.pc.Leave? || r.pc.Done?) && r.pc.outcome.Returned? ==>
      || ((s.requests[id].pc.Leave? || s.requests[id].pc.Done?) && s.requests[id].pc.outcome == r.pc.outcome)
      || AnswerOf(r, r.fp, r.pc.outcome.e)
      || (exists key :: key in s.store && (key.Cache? || key.Result?) && key.fp == r.fp &&
            s.store[key].data.Saved? && SameAnswer(s.store[key].data.value, r.pc.outcome.e))
    ensures RequestSound(s.requests[id := r], id)
  {
    hide HoldsAnswer;
    var requests := s.requests[id := r];
    assert RequestSound(s.requests, id);
    assert requests[id].fp == s.requests[id].fp;
    if (r.pc.Leave? || r.pc.Done?) && r.pc.outcome.Returned? {
      var e := r.pc.outcome.e;
      if AnswerOf(r, r.fp, e) {
        assert AnswerOf(requests[id], r.fp, e);
      } else if (s.requests[id].pc.Leave? || s.requests[id].pc.Done?) && s.requests[id].pc.outcome == r.pc.outcome {
        GenuineKept(s.requests, requests, r.fp, e);
      } else {
        var key :| key in s.store && (key.Cache? || key.Result?) && key.fp == r.fp &&
          s.store[key].data.Saved? && SameAnswer(s.store[key].data.value, e);
        var w :| w in s.requests && AnswerOf(s.requests[w], r.fp, s.store[key].data.value);
        assert AnswerOf(requests[w], r.fp, e);
      }
    }
  }

  lemma ProvenanceStep(s: State, a: Action, cfg: Config)
    requires Enabled(s, a) && Provenance(s)
    ensures Provenance(Do(s, a, cfg))
  {
    hide Command;
    var s' := Do(s, a, cfg);
    if a.Advance? {
      ProvenanceCommand(s, a.id, a.seconds, cfg);
    } else {
      assert Extends(s.requests, s'.requests);
      forall key | key in s'.store && (key.Cache? || key.Result?)
        ensures s'.store[key].data.Saved? && Genuine(s'.requests, key.fp, s'.store[key].data.value)
      {
        GenuineKept(s.requests, s'.requests, key.fp, s.store[key].data.value);
      }
      forall o | o in s'.requests ensures RequestSound(s'.requests, o) {
        if o in s.requests {
          assert RequestSound(s.requests, o);
          OutcomeKept(s.requests, s'.requests, o);
        }
      }
    }
  }

  /* All together, over whole runs. */

  lemma InvStep(s: State, a: Action, cfg: Config)
    requires Enabled(s, a) && Inv(s, cfg)
    ensures Inv(Do(s, a, cfg), cfg)
  {
    hide Do, Semaphore, ExpirySafe, WinnersApart, Provenance;
    SemaphoreStep(s, a, cfg);
    ExpirySafeStep(s, a, Hourly, cfg);
    ExpirySafeStep(s, a, Daily, cfg);
    WinnersApartStep(s, a, cfg);
    ProvenanceStep(s, a, cfg);
  }

  lemma {:induction false} InvRun(states: seq<State>, actions: seq<Action>, cfg: Config, n: nat)
    requires IsRun(states, actions, cfg) && n <= |actions| && Inv(states[0], cfg)
    ensures Inv(states[n], cfg)
  {
    hide Inv, Do;
    if n > 0 {
      InvRun(states, actions, cfg, n - 1);
      InvStep(states[n - 1], actions[n - 1], cfg);
    }
  }

  lemma ReachableInv(s: State, states: seq<State>, actions: seq<Action>, cfg: Config)
    requires Reachable(s, states, actions, cfg)
    ensures Inv(s, cfg)
  {
    hide Inv;
    InvInit(states[0].now, cfg);
    InvRun(states, actions, cfg, |actions|);
  }

  /** The semaphore counts the requests between acquire and release: never negative, 0 at rest. */
  lemma SemaphoreIsExact(s: State, states: seq<State>, actions: seq<Action>, cfg: Config)
    requires Reachable(s, states, actions, cfg)
    ensures NumberAt(s.store, Concurrent, s.now) == |Inside(s.requests)| >= 0
    ensures (forall id :: id in s.requests ==> s.requests[id].pc.Done?) ==> NumberAt(s.store, Concurrent, s.now) == 0
  {
    ReachableInv(s, states, actions, cfg);
    if forall id :: id in s.requests ==> s.requests[id].pc.Done? {
      assert Inside(s.requests) == {};
    }
  }

  /** A usage counter can lack an expiry only while the request that started it is about to set one. */
  lemma CounterExpires(s: State, key: Key, states: seq<State>, actions: seq<Action>, cfg: Config)
    requires Reachable(s, states, actions, cfg) && (key == Hourly || key == Daily)
    requires Live(s.store, key, s.now) && s.store[key].expires.None?
    ensures exists id :: id in s.requests && Starting(s.requests[id], key)
  {
    ReachableInv(s, states, actions, cfg);
  }

  /** Two requests that won the dedup lock of one fingerprint won it at least one window apart. */
  lemma DedupWindow(s: State, a: Id, b: Id, states: seq<State>, actions: seq<Action>, cfg: Config)
    requires Reachable(s, states, actions, cfg)
    requires a in s.requests && b in s.requests && a != b && s.requests[a].fp == s.requests[b].fp
    requires s.requests[a].wonAt.Some? && s.requests[b].wonAt.Some?
    ensures var gap := s.requests[a].wonAt.value - s.requests[b].wonAt.value;
      gap >= cfg.windowMs || -gap >= cfg.windowMs
  {
    ReachableInv(s, states, actions, cfg);
    assert Apart(s.requests[a], s.requests[b], cfg);
  }

  /** Whatever a request returns is what the model answered to a request with the same fingerprint. */
  lemma ReturnedIsGenuine(s: State, id: Id, states: seq<State>, actions: seq<Action>, cfg: Config)
    requires Reachable(s, states, actions, cfg)
    requires id in s.requests && s.requests[id].pc.Done? && s.requests[id].pc.outcome.Returned?
    ensures exists w :: w in s.requests && AnswerOf(s.requests[w], s.requests[id].fp, s.requests[id].pc.outcome.e)
  {
    ReachableInv(s, states, actions, cfg);
    assert RequestSound(s.requests, id);
  }
}
