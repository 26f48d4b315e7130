/**
 What waiting duplicates find: how long a published result stays, and whose name the explanations carry.
 */
module ExplainResults {
  import opened Common
  import opened Redis
  import opened Explain
  import opened ExplainSafety

  // The i-th action publishes an answer for the fingerprint.
  predicate Publishes(states: seq<State>, actions: seq<Action>, i: nat, fp: string) {
    && i < |actions| && i < |states| && actions[i].Advance?
    && var id := actions[i].id;
       id in states[i].requests && states[i].requests[id].pc.Publish? && states[i].requests[id].fp == fp
       && states[i].requests[id].reply.Some?
  }

  // The slot the i-th action leaves: the answer under the requests's own name, for the lock's window in whole seconds
  // and two seconds more.
  predicate IsSlotOf(slot: Slot<Explanation>, s: State, id: Id, cfg: Config) {
    && id in s.requests && s.requests[id].reply.Some?
    && slot.data == Saved(Explanation(s.requests[id].reply.value.body, s.requests[id].reply.value.tokens, false, id))
    && slot.expires.Some?
    && s.now + cfg.windowMs + 2000 <= slot.expires.value < s.now + cfg.windowMs + 3000
  }

  // The last publication before state n, which is not before the i-th action.
  ghost predicate IsLatest(states: seq<State>, actions: seq<Action>, i: nat, j: nat, n: nat, fp: string) {
    && i <= j < n && Publishes(states, actions, j, fp)
    && forall k :: j < k < n ==> !Publishes(states, actions, k, fp)
  }

  lemma ResultCommand(s: State, id: Id, seconds: nat, fp: string, cfg: Config)
    requires id in s.requests
    ensures var store := Command(s, id, seconds, cfg).0;
      var r := s.requests[id];
      if r.pc.Publish? && r.reply.Some? && r.fp == fp then
        Result(fp) in store && IsSlotOf(store[Result(fp)], s, id, cfg)
      else
        && (Result(fp) in store <==> Result(fp) in s.store)
        && (Result(fp) in store ==> store[Result(fp)] == s.store[Result(fp)])
  {
    hide Verdict, NumberAt;
  }

  // What the key holds at state n comes from the j-th action.
  ghost predicate HoldsSince(states: seq<State>, actions: seq<Action>, j: nat, n: nat, fp: string, cfg: Config) {
    && j < |actions| && j < |states| && n < |states| && actions[j].Advance?
    && states[j].now <= states[n].now
    && Result(fp) in states[n].store && IsSlotOf(states[n].store[Result(fp)], states[j], actions[j].id, cfg)
  }

  lemma ResultStep(states: seq<State>, actions: seq<Action>, n: nat, fp: string, cfg: Config)
    requires IsRun(states, actions, cfg) && n < |actions|
    ensures Publishes(states, actions, n, fp) ==> HoldsSince(states, actions, n, n + 1, fp, cfg)
    ensures !Publishes(states, actions, n, fp) ==>
      forall j :: 0 <= j < n && HoldsSince(states, actions, j, n, fp, cfg) ==>
        HoldsSince(states, actions, j, n + 1, fp, cfg)
  {
    hide Command, IsSlotOf;
    var s, a := states[n], actions[n];
    assert Enabled(s, a) && states[n + 1] == Do(s, a, cfg);
    if a.Advance? {
      ResultCommand(s, a.id, a.seconds, fp, cfg);
    }
  }

  /** After a publication the key holds the latest one, alive for the whole window and the two seconds waiters add. */
  lemma {:induction false} PublishedStays(
      states: seq<State>, actions: seq<Action>, i: nat, n: nat, fp: string, cfg: Config) returns (j: nat)
    requires IsRun(states, actions, cfg) && i < n <= |actions| && Publishes(states, actions, i, fp)
    ensures IsLatest(states, actions, i, j, n, fp) && HoldsSince(states, actions, j, n, fp, cfg)
    ensures states[i].now <= states[j].now
    ensures states[n].now < states[i].now + cfg.windowMs + 2000 ==>
      Read(states[n].store, Result(fp), states[n].now) == Some(states[n].store[Result(fp)].data)
    decreases n
  {
    hide Do, Publishes, HoldsSince, Enabled;
    ResultStep(states, actions, n - 1, fp, cfg);
    if Publishes(states, actions, n - 1, fp) {
      j := n - 1;
      TimePasses(states, actions, i, j, cfg);
    } else {
      j := PublishedStays(states, actions, i, n - 1, fp, cfg);
    }
    StillAlive(states, actions, i, j, n, fp, cfg);
  }

  lemma StillAlive(states: seq<State>, actions: seq<Action>, i: nat, j: nat, n: nat, fp: string, cfg: Config)
    requires i < |states| && HoldsSince(states, actions, j, n, fp, cfg) && states[i].now <= states[j].now
    ensures Result(fp) in states[n].store
    ensures states[n].now < states[i].now + cfg.windowMs + 2000 ==>
      Read(states[n].store, Result(fp), states[n].now) == Some(states[n].store[Result(fp)].data)
  {
  }

  lemma {:induction false} TimePasses(states: seq<State>, actions: seq<Action>, i: nat, j: nat, cfg: Config)
    requires IsRun(states, actions, cfg) && i <= j <= |actions|
    ensures states[i].now <= states[j].now
    decreases j
  {
    hide Command;
    if i < j {
      TimePasses(states, actions, i, j - 1, cfg);
      assert states[j] == Do(states[j - 1], actions[j - 1], cfg);
    }
  }

  /** Behind an invalidation the cache misses, for this fingerprint and no other key. */
  lemma InvalidationClears(s: State, fp: string, key: Key, t: int, cfg: Config)
    ensures Read(Do(s, Invalidate(fp), cfg).store, key, t) == if key == Cache(fp) then None else Read(s.store, key, t)
  {
  }

  /** Recording adds what the model's answer cost to the hourly and then to the daily counter, nothing without one. */
  lemma TokensRecorded(s: State, id: Id, seconds: nat, key: Key, cfg: Config)
    requires id in s.requests && (key == Hourly || key == Daily)
    ensures var r := s.requests[id];
      var (cost, here) := (if r.reply.Some? then r.reply.value.tokens else 0,
                           if key == Hourly then r.pc.RecordHourly? else r.pc.RecordDaily?);
      here ==> NumberAt(Command(s, id, seconds, cfg).0, key, s.now) == NumberAt(s.store, key, s.now) + cost
  {
    hide Verdict;
  }

  /* Whose name an explanation carries. */

  // An answer that was given, under the name of the request it was given to, and not marked as cached.
  predicate IsSigned(requests: map<Id, Request>, fp: string, e: Explanation) {
    && !e.cached && e.requestId in requests && AnswerOf(requests[e.requestId], fp, e)
  }

  predicate StoreSigned(s: State) {
    forall key :: key in s.store && (key.Cache? || key.Result?) ==>
      s.store[key].data.Saved? && IsSigned(s.requests, key.fp, s.store[key].data.value)
  }

  // Own answers are returned as they are; others as cached, under the name of this request or of the answered one.
  predicate OutcomeSigned(requests: map<Id, Request>, id: Id)
    requires id in requests
  {
    var r := requests[id];
    && (HoldsAnswer(r.pc) ==> r.answered && r.reply.Some?)
    && (!IsInside(r.pc) && !r.pc.Done? ==> !r.answered)
    && ((r.pc.Leave? || r.pc.Done?) && r.pc.outcome.Returned? ==>
          var e := r.pc.outcome.e;
          if r.answered then e.requestId == id && IsSigned(requests, r.fp, e)
          else e.cached && (e.requestId == id || IsSigned(requests, r.fp, e.(cached := false))))
  }

  predicate Signed(s: State) {
    StoreSigned(s) && forall id :: id in s.requests ==> OutcomeSigned(s.requests, id)
  }

  lemma SignedKept(before: map<Id, Request>, after: map<Id, Request>, fp: string, e: Explanation)
    requires Extends(before, after) && IsSigned(before, fp, e)
    ensures IsSigned(after, fp, e)
  {
  }

  lemma OthersKept(before: map<Id, Request>, after: map<Id, Request>, id: Id)
    requires Extends(before, after) && id in before && after[id] == before[id] && OutcomeSigned(before, id)
    ensures OutcomeSigned(after, id)
  {
  }

  // What a command stores.
  lemma CommandStores(s: State, id: Id, seconds: nat, cfg: Config)
    requires id in s.requests && (HoldsAnswer(s.requests[id].pc) ==> s.requests[id].answered)
    ensures var (store, r) := Command(s, id, seconds, cfg);
      && r.fp == s.requests[id].fp && r.reply == s.requests[id].reply && (s.requests[id].answered ==> r.answered)
      && forall key :: key in store && (key.Cache? || key.Result?) ==>
            || (key in s.store && store[key] == s.store[key])
            || (store[key].data.Saved? && IsSigned(s.requests[id := r], key.fp, store[key].data.value))
  {
    hide NumberAt, Verdict;
  }

  // What it returns.
  lemma CommandReturns(s: State, id: Id, seconds: nat, cfg: Config)
    requires id in s.requests && OutcomeSigned(s.requests, id) && StoreSigned(s)
    requires Extends(s.requests, s.requests[id := Command(s, id, seconds, cfg).1])
    ensures OutcomeSigned(s.requests[id := Command(s, id, seconds, cfg).1], id)
  {
    hide NumberAt, SetNx, SetEx, IncrBy, Expire, IsSigned, Extends;
    var (store, r) := Command(s, id, seconds, cfg);
    var was, requests := s.requests[id], s.requests[id := r];
    if was.pc.Lookup? && r.pc.Done? {
      var e := s.store[Cache(was.fp)].data.value;
      SignedKept(s.requests, requests, was.fp, e);
      assert e.(cached := true).(cached := false) == e by { Unmarked(s.requests, was.fp, e); }
    } else if (was.pc.Leave? || was.pc.Done?) && was.pc.outcome.Returned? {
      var e := was.pc.outcome.e;
      if was.answered {
        SignedKept(s.requests, requests, was.fp, e);
      } else if e.requestId != id {
        SignedKept(s.requests, requests, was.fp, e.(cached := false));
      }
    } else if was.pc.Publish? && was.reply.Some? {
      OwnIsSigned(requests, id);
    }
  }

  lemma Unmarked(requests: map<Id, Request>, fp: string, e: Explanation)
    requires IsSigned(requests, fp, e)
    ensures !e.cached
  {
  }

  lemma OwnIsSigned(requests: map<Id, Request>, id: Id)
    requires id in requests && requests[id].answered && requests[id].reply.Some?
    ensures IsSigned(requests, requests[id].fp, Own(id, requests[id].reply.value))
  {
  }

  lemma SignedStep(s: State, a: Action, cfg: Config)
    requires Enabled(s, a) && Signed(s)
    ensures Signed(Do(s, a, cfg))
  {
    hide Command, OutcomeSigned, IsSigned, Extends;
    var s' := Do(s, a, cfg);
    if a.Advance? {
      assert OutcomeSigned(s.requests, a.id);
      HoldsOwn(s.requests, a.id);
      CommandStores(s, a.id, a.seconds, cfg);
      KeepsRequests(s.requests, s'.requests, a.id);
      CommandReturns(s, a.id, a.seconds, cfg);
    } else {
      KeepsOthers(s, a, cfg);
    }
    forall key | key in s'.store && (key.Cache? || key.Result?)
      ensures s'.store[key].data.Saved? && IsSigned(s'.requests, key.fp, s'.store[key].data.value)
    {
      if key in s.store && s'.store[key] == s.store[key] {
        SignedKept(s.requests, s'.requests, key.fp, s.store[key].data.value);
      }
    }
    forall o | o in s'.requests ensures OutcomeSigned(s'.requests, o) {
      if o in s.requests && s'.requests[o] == s.requests[o] {
        OthersKept(s.requests, s'.requests, o);
      }
    }
  }

  lemma HoldsOwn(requests: map<Id, Request>, id: Id)
    requires id in requests && OutcomeSigned(requests, id)
    ensures HoldsAnswer(requests[id].pc) ==> requests[id].answered
  {
  }

  lemma KeepsRequests(before: map<Id, Request>, after: map<Id, Request>, id: Id)
    requires id in before && id in after && after == before[id := after[id]]
    requires after[id].fp == before[id].fp && after[id].reply == before[id].reply
    requires before[id].answered ==> after[id].answered
    ensures Extends(before, after)
  {
  }

  lemma KeepsOthers(s: State, a: Action, cfg: Config)
    requires Enabled(s, a) && !a.Advance?
    ensures var s' := Do(s, a, cfg);
      && Extends(s.requests, s'.requests)
      && (forall key :: key in s'.store ==> key in s.store && s'.store[key] == s.store[key])
      && forall o :: o in s'.requests && (o in s.requests ==> s'.requests[o] != s.requests[o]) ==>
           OutcomeSigned(s'.requests, o)
  {
  }

  lemma {:induction false} SignedRun(states: seq<State>, actions: seq<Action>, n: nat, cfg: Config)
    requires IsRun(states, actions, cfg) && states[0] == Init(states[0].now) && n <= |actions|
    ensures Signed(states[n])
    decreases n
  {
    hide Do, OutcomeSigned, StoreSigned;
    if n > 0 {
      SignedRun(states, actions, n - 1, cfg);
      assert Enabled(states[n - 1], actions[n - 1]);
      SignedStep(states[n - 1], actions[n - 1], cfg);
    } else {
      NothingSigned(states[0].now);
    }
  }

  lemma NothingSigned(now: int)
    ensures Signed(Init(now))
  {
  }

  /** A returned explanation is marked as cached exactly when its request did not call the model; it carries the
      request's own name, or, only from the cache, the name of the request that was answered. */
  lemma ReturnedIsSigned(s: State, id: Id, states: seq<State>, actions: seq<Action>, cfg: Config)
    requires Reachable(s, states, actions, cfg)
    requires id in s.requests && s.requests[id].pc.Done? && s.requests[id].pc.outcome.Returned?
    ensures var r := s.requests[id];
      var e := r.pc.outcome.e;
      && (e.cached <==> !r.answered)
      && (e.requestId != id ==> e.cached && e.requestId in s.requests && AnswerOf(s.requests[e.requestId], r.fp, e))
  {
    hide Do;
    SignedRun(states, actions, |actions|, cfg);
    assert OutcomeSigned(s.requests, id);
  }
}
