/**
 The token budget over all interleavings: check and recording are separate steps, so the limit can
 be passed, but only by requests that were already past the check.
 */
module ExplainBudget {
  import opened Common
  import opened Redis
  import opened Explain
  import opened ExplainSafety

  predicate IsUsage(key: Key) {
    key == Hourly || key == Daily
  }

  function Limit(key: Key, cfg: Config): nat {
    if key == Hourly then cfg.hourlyLimit else cfg.dailyLimit
  }

  function Used(s: State, key: Key): int {
    NumberAt(s.store, key, s.now)
  }

  // Past a check that read a value below the limit, usage not yet recorded.
  predicate Cleared(r: Request, key: Key, cfg: Config) {
    match r.pc
    case ReadDaily(h) => key == Hourly && h < cfg.hourlyLimit
    case ReadActive(h, d) => if key == Hourly then h < cfg.hourlyLimit else d < cfg.dailyLimit
    case Enter => true
    case Call => true
    case RecordHourly => true
    case RecordDaily(_) => key == Daily
    case _ => false
  }

  function ClearedSet(s: State, key: Key, cfg: Config): (r: set<Id>)
    ensures r <= s.requests.Keys
  {
    set id | id in s.requests && Cleared(s.requests[id], key, cfg)
  }

  // Tokens the model will report for these requests, together.
  ghost function Sum(requests: map<Id, Request>, ids: set<Id>): nat
    requires ids <= requests.Keys
  {
    if ids == {} then 0
    else
      var id :| id in ids;
      Tokens(requests[id]) + Sum(requests, ids - {id})
  }

  lemma {:induction false} SumRemove(requests: map<Id, Request>, ids: set<Id>, x: Id)
    requires ids <= requests.Keys && x in ids
    ensures Sum(requests, ids) == Tokens(requests[x]) + Sum(requests, ids - {x})
    decreases ids
  {
    hide Tokens;
    var id :| id in ids && Sum(requests, ids) == Tokens(requests[id]) + Sum(requests, ids - {id});
    if id != x {
      SumRemove(requests, ids - {id}, x);
      SumRemove(requests, ids - {x}, id);
      assert ids - {id} - {x} == ids - {x} - {id};
    }
  }

  lemma {:induction false} SumMonotone(requests: map<Id, Request>, small: set<Id>, large: set<Id>)
    requires small <= large <= requests.Keys
    ensures Sum(requests, small) <= Sum(requests, large)
    decreases large
  {
    if small != large {
      var x :| x in large && x !in small;
      SumRemove(requests, large, x);
      SumMonotone(requests, small, large - {x});
    }
  }

  lemma {:induction false} SumSame(before: map<Id, Request>, after: map<Id, Request>, ids: set<Id>)
    requires ids <= before.Keys && ids <= after.Keys
    requires forall id :: id in ids ==> Tokens(after[id]) == Tokens(before[id])
    ensures Sum(before, ids) == Sum(after, ids)
    decreases ids
  {
    hide Tokens;
    if ids != {} {
      var x :| x in ids;
      SumRemove(before, ids, x);
      SumRemove(after, ids, x);
      SumSame(before, after, ids - {x});
    }
  }

  // What is used plus what the requests past the check may still add.
  ghost function Committed(s: State, key: Key, cfg: Config): int {
    Used(s, key) + Sum(s.requests, ClearedSet(s, key, cfg))
  }

  // The step of `id` adds its tokens to the counter.
  predicate Records(s: State, a: Action, key: Key) {
    a.Advance? && a.id in s.requests &&
    if key == Hourly then s.requests[a.id].pc.RecordHourly? else s.requests[a.id].pc.RecordDaily?
  }

  lemma CommandUsage(s: State, id: Id, seconds: nat, key: Key, cfg: Config)
    requires IsUsage(key) && id in s.requests && seconds > 0
    requires key in s.store ==> s.store[key].data.Number?
    ensures var (store, r) := Command(s, id, seconds, cfg);
      var was := s.requests[id];
      && Tokens(r) == Tokens(was)
      && (if Records(s, Advance(id, seconds), key)
          then
            && NumberAt(store, key, s.now) == Used(s, key) + Tokens(was)
            && Cleared(was, key, cfg) && !Cleared(r, key, cfg)
          else NumberAt(store, key, s.now) == Used(s, key))
      && (Used(s, key) >= Limit(key, cfg) && Cleared(r, key, cfg) ==> Cleared(was, key, cfg))
  {
  }

  // A recording step spends what was committed; nothing else changes the counter while it is live.
  lemma UsageStep(s: State, a: Action, key: Key, cfg: Config)
    requires IsUsage(key) && Enabled(s, a) && (key in s.store ==> s.store[key].data.Number?)
    requires a.Tick? ==> Live(Do(s, a, cfg).store, key, Do(s, a, cfg).now)
    ensures Records(s, a, key) ==> a.Advance?
    ensures var s' := Do(s, a, cfg);
      && (if Records(s, a, key) then
            && Used(s', key) == Used(s, key) + Tokens(s.requests[a.id])
            && a.id in ClearedSet(s, key, cfg)
            && ClearedSet(s', key, cfg) == ClearedSet(s, key, cfg) - {a.id}
          else Used(s', key) == Used(s, key))
      && (Used(s, key) >= Limit(key, cfg) ==> ClearedSet(s', key, cfg) <= ClearedSet(s, key, cfg))
      && (forall id :: id in s.requests ==> id in s'.requests && Tokens(s'.requests[id]) == Tokens(s.requests[id]))
  {
    hide Command, Limit, Tokens;
    var s' := Do(s, a, cfg);
    if a.Advance? {
      CommandUsage(s, a.id, a.seconds, key, cfg);
    } else if a.Arrive? {
      assert s'.requests[a.id].pc.Lookup?;
    }
  }

  lemma CommittedStep(s: State, a: Action, key: Key, cfg: Config)
    requires IsUsage(key) && Enabled(s, a) && (key in s.store ==> s.store[key].data.Number?)
    requires a.Tick? ==> Live(Do(s, a, cfg).store, key, Do(s, a, cfg).now)
    requires Used(s, key) >= Limit(key, cfg) || Records(s, a, key)
    ensures var s' := Do(s, a, cfg);
      && Used(s', key) >= Used(s, key)
      && Committed(s', key, cfg) <= Committed(s, key, cfg)
      && ClearedSet(s', key, cfg) <= ClearedSet(s, key, cfg)
  {
    hide Do, Records, ClearedSet, Tokens, Used, Limit;
    var s' := Do(s, a, cfg);
    var before, after := ClearedSet(s, key, cfg), ClearedSet(s', key, cfg);
    UsageStep(s, a, key, cfg);
    SumSame(s.requests, s'.requests, after);
    if Records(s, a, key) {
      SumRemove(s.requests, before, a.id);
    } else {
      SumMonotone(s.requests, after, before);
    }
  }

  // A run from the start in which the counter is not lost to its expiry from state `from` on.
  predicate LiveRun(states: seq<State>, actions: seq<Action>, key: Key, cfg: Config, from: nat) {
    && IsUsage(key)
    && IsRun(states, actions, cfg)
    && states[0] == Init(states[0].now)
    && forall j :: from <= j < |states| ==> Live(states[j].store, key, states[j].now)
  }

  lemma CounterIsNumber(states: seq<State>, actions: seq<Action>, key: Key, cfg: Config, n: nat)
    requires IsUsage(key) && IsRun(states, actions, cfg) && states[0] == Init(states[0].now) && n <= |actions|
    ensures key in states[n].store ==> states[n].store[key].data.Number?
  {
    InvInit(states[0].now, cfg);
    InvRun(states, actions, cfg, n);
  }

  lemma {:induction false} FullCounter(states: seq<State>, actions: seq<Action>, key: Key, cfg: Config,
        from: nat, n: nat)
    requires LiveRun(states, actions, key, cfg, from) && from <= n <= |actions|
    requires Used(states[from], key) >= Limit(key, cfg)
    ensures Used(states[n], key) >= Limit(key, cfg)
    ensures Committed(states[n], key, cfg) <= Committed(states[from], key, cfg)
    ensures ClearedSet(states[n], key, cfg) <= ClearedSet(states[from], key, cfg)
    decreases n
  {
    hide Do, Committed, ClearedSet, Used, Limit, Records, Enabled, Live, Init;
    if n > from {
      FullCounter(states, actions, key, cfg, from, n - 1);
      CounterIsNumber(states, actions, key, cfg, n - 1);
      assert states[n - 1 + 1] == Do(states[n - 1], actions[n - 1], cfg);
      assert Live(states[n].store, key, states[n].now);
      CommittedStep(states[n - 1], actions[n - 1], key, cfg);
    }
  }

  /** Once the counter is full, until it expires, only requests already past the check add to it. */
  lemma OnlyClearedAdd(states: seq<State>, actions: seq<Action>, key: Key, cfg: Config, full: nat, j: nat)
    requires LiveRun(states, actions, key, cfg, full) && full <= j < |actions|
    requires Used(states[full], key) >= Limit(key, cfg)
    requires Used(states[j + 1], key) != Used(states[j], key)
    ensures Records(states[j], actions[j], key) && actions[j].id in ClearedSet(states[full], key, cfg)
  {
    hide Do, Committed, ClearedSet, Used, Limit, Records, Enabled, Live, Init;
    FullCounter(states, actions, key, cfg, full, j);
    CounterIsNumber(states, actions, key, cfg, j);
    UsageStep(states[j], actions[j], key, cfg);
  }

  /** The overshoot: from the step that reaches the limit until the counter expires, the total stays below
      the limit plus the tokens of the requests that were past the check just before that step. */
  lemma OvershootBound(states: seq<State>, actions: seq<Action>, key: Key, cfg: Config, i: nat)
    requires LiveRun(states, actions, key, cfg, i + 1) && i < |actions|
    requires Used(states[i], key) < Limit(key, cfg) <= Used(states[i + 1], key)
    ensures ClearedSet(states[i], key, cfg) <= states[i].requests.Keys
    ensures Used(states[|actions|], key) < Limit(key, cfg) + Sum(states[i].requests, ClearedSet(states[i], key, cfg))
  {
    hide Do, ClearedSet, Used, Limit, Records, Enabled, Live, Init;
    CounterIsNumber(states, actions, key, cfg, i);
    UsageStep(states[i], actions[i], key, cfg);
    CommittedStep(states[i], actions[i], key, cfg);
    FullCounter(states, actions, key, cfg, i + 1, |actions|);
  }
}
