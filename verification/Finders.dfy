/**
 Three passes over the same diagnostic events that look for the failing contract: the chain analyzer
 (crates/core/src/decode/chain_analyzer.rs), the deepest-error finder
 (crates/core/src/decode/deepest_error.rs) and the event walker (crates/core/src/decode/event_walker.rs).
 */
module Finders {
  import opened Common
  import opened ScVals
  import opened Diagnostics
  import opened Brackets

  datatype Frame = Frame(address: string, functionName: Option<string>, depth: nat)

  function FirstTopic(e: DiagnosticEvent): Option<string> {
    var topics := Topics(e.topics);
    if topics == [] then None else Some(topics[0])
  }

  function SecondTopic(e: DiagnosticEvent): Option<string> {
    var topics := Topics(e.topics);
    if |topics| < 2 then None else Some(topics[1])
  }

  predicate IsCall(e: DiagnosticEvent) {
    FirstTopic(e) == Some("fn_call")
  }

  predicate IsReturn(e: DiagnosticEvent) {
    FirstTopic(e) == Some("fn_return")
  }

  // The topic at i is the first that is a symbol or a string, and has this text.
  predicate IsFirstText(vs: seq<ScVal>, i: nat, text: string) {
    && i < |vs| && (vs[i] == Symbol(text) || vs[i] == Str(text))
    && forall k :: 0 <= k < i ==> !vs[k].Symbol? && !vs[k].Str?
  }

  ghost predicate StartsWith(vs: seq<ScVal>, text: string) {
    exists i: nat :: IsFirstText(vs, i, text)
  }

  /** Calls and returns are told by the first text among the topics, letter by letter. */
  lemma FirstTextDecides(e: DiagnosticEvent)
    ensures IsCall(e) <==> StartsWith(e.topics, "fn_call")
    ensures IsReturn(e) <==> StartsWith(e.topics, "fn_return")
  {
    hide Topics, StartsWith;
    FirstTextIs(e.topics, "fn_call");
    FirstTextIs(e.topics, "fn_return");
  }

  lemma {:induction false} FirstTextIs(vs: seq<ScVal>, text: string)
    ensures Topics(vs) != [] && Topics(vs)[0] == text <==> StartsWith(vs, text)
  {
    if vs != [] {
      FirstTextIs(vs[1..], text);
      if !vs[0].Symbol? && !vs[0].Str? {
        forall i: nat ensures IsFirstText(vs[1..], i, text) <==> IsFirstText(vs, i + 1, text) {
          assert forall k :: 0 < k < |vs| ==> vs[k] == vs[1..][k - 1];
        }
        if i: nat :| IsFirstText(vs, i, text) {
          assert IsFirstText(vs[1..], i - 1, text);
        }
      } else {
        assert IsFirstText(vs, 0, text) <==> vs[0] == Symbol(text) || vs[0] == Str(text);
      }
    }
  }

  const UNKNOWN: string := "<unknown>"

  // The callee: the emitting contract, else the second topic as a hint.
  function NewFrame(e: DiagnosticEvent, depth: nat): Frame {
    Frame(e.contractId.GetOr(SecondTopic(e).GetOr(UNKNOWN)), SecondTopic(e), depth)
  }

  function DropLast<T>(s: seq<T>): seq<T> {
    if s == [] then [] else s[..|s| - 1]
  }

  // The call stack after a stream of events.
  function Stack(events: seq<DiagnosticEvent>): (r: seq<Frame>)
    ensures forall k :: 0 <= k < |r| ==> r[k].depth == k
  {
    if events == [] then []
    else
      var before, e := Stack(events[..|events| - 1]), events[|events| - 1];
      if IsCall(e) then before + [NewFrame(e, |before|)]
      else if IsReturn(e) then DropLast(before)
      else before
  }

  // The contract a call goes to: the one it names, else its second topic text; that text is also the function's name.
  predicate IsCallee(e: DiagnosticEvent, address: string, functionName: Option<string>) {
    var texts := Topics(e.topics);
    && functionName == (if |texts| >= 2 then Some(texts[1]) else None)
    && match e.contractId
       case Some(contract) => address == contract
       case None => address == if |texts| >= 2 then texts[1] else "<unknown>"
  }

  // The calls before event n that have not returned, from the outermost to the innermost.
  ghost predicate AreRunning(calls: seq<nat>, events: seq<DiagnosticEvent>, n: nat)
    requires n <= |events|
  {
    AreOpen(calls, events, n, IsCall, IsReturn)
  }

  // The stack has one frame for each call that is running.
  lemma {:induction false} StackIsRunning(events: seq<DiagnosticEvent>, n: nat) returns (calls: seq<nat>)
    requires n <= |events|
    ensures Nested(calls, events, n, IsCall, IsReturn)
    ensures var stack := Stack(events[..n]);
      && |stack| == |calls|
      && forall k :: 0 <= k < |stack| ==> IsCallee(events[calls[k]], stack[k].address, stack[k].functionName)
    decreases n
  {
    hide IsCall, IsReturn, AreOpen;
    if n == 0 {
      calls := [];
      NothingOpen(events, IsCall, IsReturn);
    } else {
      var before := StackIsRunning(events, n - 1);
      OpenNext(before, events, n - 1, IsCall, IsReturn);
      calls := Next(before, events, n - 1, IsCall, IsReturn);
      assert events[..n][..n - 1] == events[..n - 1];
      CallOrReturn(events[n - 1]);
    }
  }

  lemma CallOrReturn(e: DiagnosticEvent)
    ensures !(IsCall(e) && IsReturn(e))
  {
  }

  // Calls and returns are bookkeeping; only other events are looked at for failures.
  predicate Fails(events: seq<DiagnosticEvent>, i: nat)
    requires i < |events|
  {
    !IsCall(events[i]) && !IsReturn(events[i]) && IsFailure(events[i])
  }

  // The depth of the frame that is running at event i, 0 when there is none.
  function DepthAt(events: seq<DiagnosticEvent>, i: nat): nat
    requires i < |events|
  {
    var stack := Stack(events[..i]);
    if stack == [] then 0 else |stack| - 1
  }

  // The contract and function that are running at event i.
  function Culprit(events: seq<DiagnosticEvent>, i: nat): (string, Option<string>)
    requires i < |events|
  {
    var stack := Stack(events[..i]);
    if stack == [] then (events[i].contractId.GetOr(UNKNOWN), None)
    else (stack[|stack| - 1].address, stack[|stack| - 1].functionName)
  }

  /* The deepest-error finder. */

  datatype DeepestError = DeepestError(address: string, functionName: Option<string>, depth: nat, code: Option<u32>)

  function ErrorCodeOf(data: ScVal): Option<u32> {
    match data
    case Error(ContractError(code)) => Some(code)
    case _ => None
  }

  function ReportAt(events: seq<DiagnosticEvent>, i: nat): DeepestError
    requires i < |events|
  {
    DeepestError(Culprit(events, i).0, Culprit(events, i).1, DepthAt(events, i), ErrorCodeOf(events[i].data))
  }

  // A failure of maximum depth among the first n events, the earliest of its depth.
  predicate IsDeepest(events: seq<DiagnosticEvent>, n: nat, i: nat)
    requires n <= |events|
  {
    && i < n && Fails(events, i)
    && (forall j :: 0 <= j < n && Fails(events, j) ==> DepthAt(events, j) <= DepthAt(events, i))
    && (forall j :: 0 <= j < i && Fails(events, j) ==> DepthAt(events, j) < DepthAt(events, i))
  }

  // What the report says of the failure at event i, by the calls that are running there.
  ghost predicate TellsOf(report: DeepestError, events: seq<DiagnosticEvent>, i: nat)
    requires i < |events|
  {
    && (forall c: u32 :: report.code == Some(c) <==> events[i].data == Error(ContractError(c)))
    && exists calls :: AreRunning(calls, events, i) &&
         if calls == [] then
           report.address == events[i].contractId.GetOr("<unknown>") && report.functionName.None? && report.depth == 0
         else
           && report.depth == |calls| - 1
           && IsCallee(events[calls[|calls| - 1]], report.address, report.functionName)
  }

  lemma ReportTells(events: seq<DiagnosticEvent>, i: nat)
    requires i < |events|
    ensures TellsOf(ReportAt(events, i), events, i)
  {
    hide IsCall, IsReturn, AreOpen, Stack;
    var calls := StackIsRunning(events, i);
    assert AreRunning(calls, events, i);
  }

  /** The depth of a failure is the number of calls running there, less one. */
  lemma DepthIsRunning(events: seq<DiagnosticEvent>, i: nat, calls: seq<nat>)
    requires i < |events| && AreRunning(calls, events, i)
    ensures DepthAt(events, i) == if calls == [] then 0 else |calls| - 1
  {
    hide IsCall, IsReturn, AreOpen, Stack;
    var running := StackIsRunning(events, i);
    OpenUnique(calls, running, events, i, IsCall, IsReturn);
  }

  method FindDeepest(events: seq<DiagnosticEvent>) returns (r: Option<DeepestError>, ghost at: nat)
    ensures r.None? <==> forall i :: 0 <= i < |events| ==> !Fails(events, i)
    ensures r.Some? ==> IsDeepest(events, |events|, at) && r.value == ReportAt(events, at)
    ensures r.Some? ==> TellsOf(r.value, events, at)
  {
    hide IsFailure, IsCall, IsReturn, TellsOf;
    var stack: seq<Frame> := [];
    r, at := None, 0;
    for i := 0 to |events|
      invariant stack == Stack(events[..i])
      invariant r.None? <==> forall j :: 0 <= j < i ==> !Fails(events, j)
      invariant r.Some? ==> IsDeepest(events, i, at) && r.value == ReportAt(events, at)
    {
      assert events[..i + 1][..i] == events[..i];
      var e := events[i];
      if IsCall(e) {
        stack := stack + [NewFrame(e, |stack|)];
      } else if IsReturn(e) {
        stack := if stack == [] then [] else stack[..|stack| - 1];
      } else if IsFailure(e) {
        assert Fails(events, i);
        var depth := if stack == [] then 0 else stack[|stack| - 1].depth;
        var deeper := r.None? || depth > r.value.depth;
        if deeper {
          if stack != [] {
            var frame := stack[|stack| - 1];
            r := Some(DeepestError(frame.address, frame.functionName, depth, ErrorCodeOf(e.data)));
          } else {
            r := Some(DeepestError(e.contractId.GetOr(UNKNOWN), None, depth, ErrorCodeOf(e.data)));
          }
          at := i;
        }
      }
    }
    if r.Some? {
      ReportTells(events, at);
    }
  }

  /* The chain analyzer. */

  datatype Role = RootCause | FaultLine

  datatype ChainFrame =
    ChainFrame(address: string, functionName: Option<string>, depth: nat, isErrorFrame: bool, role: Role)

  datatype CallChain = CallChain(frames: seq<ChainFrame>, rootCause: nat)

  function ChainOf(stack: seq<Frame>, failing: DiagnosticEvent): (c: CallChain)
    ensures c.rootCause == |c.frames| - 1
    ensures stack != [] ==> c.frames[c.rootCause].address == stack[|stack| - 1].address
  {
    if stack == [] then
      CallChain([ChainFrame(failing.contractId.GetOr(UNKNOWN), None, 0, true, RootCause)], 0)
    else
      var last := |stack| - 1;
      CallChain(seq(|stack|, i requires 0 <= i < |stack| =>
        ChainFrame(stack[i].address, stack[i].functionName, stack[i].depth, i == last,
                   if i == last then RootCause else FaultLine)), last)
  }

  // The chain at event i: a frame for each call that is running, at its depth, the innermost being the root cause; one
  // frame of the event's own contract when none is.
  ghost predicate TellsChain(c: CallChain, events: seq<DiagnosticEvent>, i: nat)
    requires i < |events|
  {
    exists calls :: AreRunning(calls, events, i) &&
      if calls == [] then
        c == CallChain([ChainFrame(events[i].contractId.GetOr("<unknown>"), None, 0, true, RootCause)], 0)
      else
        && |c.frames| == |calls| && c.rootCause == |calls| - 1
        && forall k :: 0 <= k < |calls| ==>
             && IsCallee(events[calls[k]], c.frames[k].address, c.frames[k].functionName)
             && c.frames[k].depth == k
             && (c.frames[k].isErrorFrame <==> k == |calls| - 1)
             && c.frames[k].role == if k == |calls| - 1 then RootCause else FaultLine
  }

  lemma ChainTells(events: seq<DiagnosticEvent>, i: nat)
    requires i < |events|
    ensures TellsChain(ChainOf(Stack(events[..i]), events[i]), events, i)
  {
    hide IsCall, IsReturn, AreOpen, IsCallee;
    var calls := StackIsRunning(events, i);
    assert AreRunning(calls, events, i);
  }

  predicate IsFirstFailure(events: seq<DiagnosticEvent>, i: nat) {
    i < |events| && Fails(events, i) && forall j :: 0 <= j < i ==> !Fails(events, j)
  }

  method Analyze(events: seq<DiagnosticEvent>) returns (r: Option<CallChain>, ghost at: nat)
    ensures r.None? <==> forall i :: 0 <= i < |events| ==> !Fails(events, i)
    ensures r.Some? ==> IsFirstFailure(events, at) && r.value == ChainOf(Stack(events[..at]), events[at])
    ensures r.Some? ==> TellsChain(r.value, events, at)
  {
    hide IsFailure, IsCall, IsReturn, TellsChain, ChainOf;
    var stack: seq<Frame> := [];
    at := 0;
    for i := 0 to |events|
      invariant stack == Stack(events[..i])
      invariant forall j :: 0 <= j < i ==> !Fails(events, j)
    {
      assert events[..i + 1][..i] == events[..i];
      var e := events[i];
      if IsCall(e) {
        stack := stack + [NewFrame(e, |stack|)];
      } else if IsReturn(e) {
        stack := if stack == [] then [] else stack[..|stack| - 1];
      } else if IsFailure(e) {
        assert Fails(events, i);
        ChainTells(events, i);
        return Some(ChainOf(stack, e)), i;
      }
    }
    r := None;
  }

  /* The event walker. */

  // Its stack has no frame for a call that names no contract.
  function WalkerStack(events: seq<DiagnosticEvent>): seq<string> {
    if events == [] then []
    else
      var before, e := WalkerStack(events[..|events| - 1]), events[|events| - 1];
      if IsCall(e) then (if e.contractId.Some? then before + [e.contractId.value] else before)
      else if IsReturn(e) then DropLast(before)
      else before
  }

  // It looks at every event, and blames the top of its stack after the event itself.
  predicate IsFirstWalkerFailure(events: seq<DiagnosticEvent>, i: nat) {
    i < |events| && IsFailure(events[i]) && forall j :: 0 <= j < i ==> !IsFailure(events[j])
  }

  function Blamed(events: seq<DiagnosticEvent>, i: nat): Option<string>
    requires i < |events|
  {
    var stack := WalkerStack(events[..i + 1]);
    if stack == [] then events[i].contractId else Some(stack[|stack| - 1])
  }

  // By brackets again: named calls open, returns close. The innermost that is open behind event i, else its own.
  ghost predicate TellsBlamed(r: Option<string>, events: seq<DiagnosticEvent>, i: nat)
    requires i < |events|
  {
    exists calls :: AreOpen(calls, events, i + 1, IsNamedCall, IsReturn) &&
      r == if calls == [] then events[i].contractId else events[calls[|calls| - 1]].contractId
  }

  predicate IsNamedCall(e: DiagnosticEvent) {
    IsCall(e) && e.contractId.Some?
  }

  lemma {:induction false} WalkerStackIsRunning(events: seq<DiagnosticEvent>, n: nat) returns (calls: seq<nat>)
    requires n <= |events|
    ensures Nested(calls, events, n, IsNamedCall, IsReturn)
    ensures var stack := WalkerStack(events[..n]);
      |stack| == |calls| && forall k :: 0 <= k < |stack| ==> events[calls[k]].contractId == Some(stack[k])
    decreases n
  {
    hide IsCall, IsReturn, AreOpen;
    if n == 0 {
      calls := [];
      NothingOpen(events, IsNamedCall, IsReturn);
    } else {
      var before := WalkerStackIsRunning(events, n - 1);
      OpenNext(before, events, n - 1, IsNamedCall, IsReturn);
      calls := Next(before, events, n - 1, IsNamedCall, IsReturn);
      assert events[..n][..n - 1] == events[..n - 1];
      CallOrReturn(events[n - 1]);
    }
  }

  lemma BlamedTells(events: seq<DiagnosticEvent>, i: nat)
    requires i < |events|
    ensures TellsBlamed(Blamed(events, i), events, i)
  {
    hide IsCall, IsReturn, AreOpen, WalkerStack;
    var calls := WalkerStackIsRunning(events, i + 1);
    assert AreOpen(calls, events, i + 1, IsNamedCall, IsReturn);
  }

  method LocateFailingContract(events: seq<DiagnosticEvent>) returns (r: Option<string>, ghost at: nat)
    ensures (forall i :: 0 <= i < |events| ==> !IsFailure(events[i])) ==> r.None?
    ensures (exists i :: 0 <= i < |events| && IsFailure(events[i])) ==>
      IsFirstWalkerFailure(events, at) && r == Blamed(events, at) && TellsBlamed(r, events, at)
  {
    hide IsFailure, IsCall, IsReturn, TellsBlamed;
    var stack: seq<string> := [];
    at := 0;
    for i := 0 to |events|
      invariant stack == WalkerStack(events[..i])
      invariant forall j :: 0 <= j < i ==> !IsFailure(events[j])
    {
      assert events[..i + 1][..i] == events[..i];
      var e := events[i];
      if IsCall(e) {
        if e.contractId.Some? {
          stack := stack + [e.contractId.value];
        }
      } else if IsReturn(e) {
        stack := if stack == [] then [] else stack[..|stack| - 1];
      }
      if IsFailure(e) {
        BlamedTells(events, i);
        return if stack == [] then e.contractId else Some(stack[|stack| - 1]), i;
      }
    }
    r := None;
  }

  /* How the three agree. */

  /** Deepest error and call chain: there is one exactly when there is the other, the deepest error is at
      least as deep as the chain's root cause, and at the same depth it is the same contract and function. */
  lemma DeepestAgainstChain(events: seq<DiagnosticEvent>, deepest: nat, first: nat)
    requires IsDeepest(events, |events|, deepest) && IsFirstFailure(events, first)
    ensures var chain := ChainOf(Stack(events[..first]), events[first]);
      var root, report := chain.frames[chain.rootCause], ReportAt(events, deepest);
      && root.role == RootCause && root.depth == DepthAt(events, first)
      && report.depth >= root.depth
      && (report.depth == root.depth ==>
            deepest == first && report.address == root.address && report.functionName == root.functionName)
  {
    hide IsFailure, IsCall, IsReturn;
    assert DepthAt(events, first) <= DepthAt(events, deepest);
    if first < deepest {
      assert DepthAt(events, first) < DepthAt(events, deepest);
    } else {
      assert first == deepest;
    }
  }

  lemma BothOrNeither(events: seq<DiagnosticEvent>)
    ensures (exists i: nat :: IsFirstFailure(events, i)) <==> (exists i: nat :: IsDeepest(events, |events|, i))
  {
    hide IsFailure, IsCall, IsReturn;
    if i :| IsFirstFailure(events, i) {
      var d := SomeDeepest(events, |events|, i);
    } else if i: nat :| IsDeepest(events, |events|, i) {
      var f := SomeFirst(events, i);
    }
  }

  lemma {:induction false} SomeDeepest(events: seq<DiagnosticEvent>, n: nat, i: nat) returns (d: nat)
    requires i < n <= |events| && Fails(events, i)
    ensures IsDeepest(events, n, d)
    decreases n
  {
    hide IsFailure, IsCall, IsReturn, DepthAt;
    if exists j :: 0 <= j < n - 1 && Fails(events, j) {
      var j :| 0 <= j < n - 1 && Fails(events, j);
      d := SomeDeepest(events, n - 1, j);
      if Fails(events, n - 1) && DepthAt(events, n - 1) > DepthAt(events, d) {
        d := n - 1;
      }
    } else {
      d := i;
    }
  }

  lemma {:induction false} SomeFirst(events: seq<DiagnosticEvent>, i: nat) returns (f: nat)
    requires i < |events| && Fails(events, i)
    ensures IsFirstFailure(events, f)
    decreases i
  {
    hide IsFailure, IsCall, IsReturn;
    if exists j :: 0 <= j < i && Fails(events, j) {
      var j :| 0 <= j < i && Fails(events, j);
      f := SomeFirst(events, j);
    } else {
      f := i;
    }
  }

  // No call or return before position n is itself a failure.
  predicate QuietBefore(events: seq<DiagnosticEvent>, n: nat) {
    forall j :: 0 <= j < n && j < |events| && (IsCall(events[j]) || IsReturn(events[j])) ==> !IsFailure(events[j])
  }

  /** The walker never stops later than the chain analyzer, and at the same event exactly when no call or return
      before that event is a failure. */
  lemma StopTogether(events: seq<DiagnosticEvent>, first: nat, walked: nat)
    requires IsFirstFailure(events, first) && IsFirstWalkerFailure(events, walked)
    ensures walked <= first
    ensures walked == first <==> QuietBefore(events, first)
  {
    hide IsFailure, IsCall, IsReturn;
    if walked < first {
      assert !Fails(events, walked);
    }
  }

  lemma WalkerFindsSame(events: seq<DiagnosticEvent>, i: nat)
    ensures IsFirstFailure(events, i) && QuietBefore(events, i) <==>
      IsFirstWalkerFailure(events, i) && !IsCall(events[i]) && !IsReturn(events[i])
  {
    hide IsFailure, IsCall, IsReturn;
    if IsFirstWalkerFailure(events, i) {
      forall j | 0 <= j < i ensures !Fails(events, j) {
      }
    }
    if IsFirstFailure(events, i) && QuietBefore(events, i) {
      forall j | 0 <= j < i ensures !IsFailure(events[j]) {
        assert !Fails(events, j);
      }
    }
  }

  // Every call that names no contract is over: the stack has been empty since.
  ghost predicate NamedSinceEmpty(events: seq<DiagnosticEvent>) {
    forall i :: 0 <= i < |events| && IsUnnamedCall(events[i]) ==> EmptyAfter(events, i)
  }

  predicate IsUnnamedCall(e: DiagnosticEvent) {
    IsCall(e) && e.contractId.None?
  }

  ghost predicate EmptyAfter(events: seq<DiagnosticEvent>, i: nat) {
    exists k :: i < k <= |events| && Stack(events[..k]) == []
  }

  predicate SameAddresses(a: seq<Frame>, b: seq<string>) {
    |a| == |b| && forall k :: 0 <= k < |a| ==> a[k].address == b[k]
  }

  /** The walker's stack never is the longer one, and it holds the same addresses exactly when every unnamed call is
      over; otherwise it is shorter. */
  lemma {:induction false} StacksAgree(events: seq<DiagnosticEvent>)
    ensures var a, b := Stack(events), WalkerStack(events);
      && |b| <= |a|
      && (|a| == |b| <==> NamedSinceEmpty(events))
      && (|a| == |b| <==> SameAddresses(a, b))
    decreases |events|
  {
    hide IsCall, IsReturn, NamedSinceEmpty;
    if events == [] {
      NothingUnnamed();
    } else {
      StacksAgree(events[..|events| - 1]);
      NamedStep(events);
    }
  }

  lemma NothingUnnamed()
    ensures NamedSinceEmpty([])
  {
  }

  lemma NamedStep(events: seq<DiagnosticEvent>)
    requires events != []
    ensures Stack(events) == [] ==> NamedSinceEmpty(events)
    ensures Stack(events) != [] ==>
      (NamedSinceEmpty(events) <==>
        NamedSinceEmpty(events[..|events| - 1]) && !IsUnnamedCall(events[|events| - 1]))
  {
    hide IsUnnamedCall, Stack;
    var n := |events| - 1;
    assert events[..|events|] == events;
    assert forall k :: 0 <= k <= n ==> events[..n][..k] == events[..k];
    if Stack(events) == [] {
      assert forall i :: 0 <= i <= n ==> EmptyAfter(events, i);
    } else {
      forall i | 0 <= i <= n ensures EmptyAfter(events, i) <==> i < n && EmptyAfter(events[..n], i) {
        if k :| i < k <= n + 1 && Stack(events[..k]) == [] {
          assert Stack(events[..n][..k]) == [];
        }
        if i < n && EmptyAfter(events[..n], i) {
          var k :| i < k <= n && Stack(events[..n][..k]) == [];
          assert Stack(events[..k]) == [];
        }
      }
      assert forall i :: 0 <= i < n ==> events[..n][i] == events[i];
    }
  }

  // The walker names the chain's root cause at event i; where the chain says "<unknown>" for want of any contract, the
  // walker says nothing.
  predicate NamesSame(events: seq<DiagnosticEvent>, i: nat)
    requires i < |events|
  {
    var chain := ChainOf(Stack(events[..i]), events[i]);
    var root := chain.frames[chain.rootCause];
    match Blamed(events, i)
    case Some(address) => root.address == address
    case None => root.address == UNKNOWN && Stack(events[..i]) == [] && events[i].contractId.None?
  }

  /** Where both stop at the same event and every unnamed call before it is over, they name the same contract. */
  lemma WalkerAgainstChain(events: seq<DiagnosticEvent>, first: nat)
    requires IsFirstFailure(events, first) && QuietBefore(events, first) && NamedSinceEmpty(events[..first])
    ensures IsFirstWalkerFailure(events, first) && NamesSame(events, first)
  {
    hide IsFailure, IsCall, IsReturn, NamedSinceEmpty;
    WalkerFindsSame(events, first);
    StacksAgree(events[..first]);
    assert events[..first + 1][..first] == events[..first];
    assert events[..first + 1][first] == events[first];
  }

  function Backs(n: nat): (r: seq<DiagnosticEvent>)
    ensures |r| == n && forall i :: 0 <= i < n ==> r[i] == BACK
  {
    seq(n, _ => BACK)
  }

  // A failure that is neither a call nor a return.
  predicate IsPlainFailure(e: DiagnosticEvent) {
    IsFailure(e) && !IsCall(e) && !IsReturn(e)
  }

  // The stream goes on with some returns and then fails.
  function Onwards(events: seq<DiagnosticEvent>, count: nat, failing: DiagnosticEvent): (r: seq<DiagnosticEvent>)
    ensures |r| == |events| + count + 1
  {
    events + Backs(count) + [failing]
  }

  // How contract ids are written, as strkeys: different ids differently.
  type Strkey = bytes32 -> string

  ghost predicate Distinct(strkey: Strkey) {
    forall a, b :: strkey(a) == strkey(b) ==> a == b
  }

  // The contract the event names, if any, is one that exists.
  ghost predicate Receivable(e: DiagnosticEvent, strkey: Strkey) {
    e.contractId.Some? ==> exists id :: e.contractId.value == strkey(id)
  }

  // Whatever the failure is and however many calls have returned before it, both stop at it and name the same contract.
  ghost predicate AgreeOnwards(events: seq<DiagnosticEvent>, strkey: Strkey) {
    forall n: nat, failing :: IsPlainFailure(failing) && Receivable(failing, strkey) ==>
      var stream := Onwards(events, n, failing);
      && IsFirstFailure(stream, |events| + n) && IsFirstWalkerFailure(stream, |events| + n)
      && NamesSame(stream, |events| + n)
  }

  /** From any stream without a failure, the two agree on every failure to come exactly when every unnamed call is
      over. */
  lemma AgreeIffNamed(events: seq<DiagnosticEvent>, strkey: Strkey)
    requires Distinct(strkey) && forall i :: 0 <= i < |events| ==> !IsFailure(events[i])
    ensures AgreeOnwards(events, strkey) <==> NamedSinceEmpty(events)
  {
    hide Receivable, IsFailure, IsCall, IsReturn, NamedSinceEmpty, NamesSame, IsPlainFailure, IsFirstFailure,
         IsFirstWalkerFailure;
    if NamedSinceEmpty(events) {
      forall n: nat, failing | IsPlainFailure(failing) && Receivable(failing, strkey)
        ensures var stream := Onwards(events, n, failing);
          && IsFirstFailure(stream, |events| + n) && IsFirstWalkerFailure(stream, |events| + n)
          && NamesSame(stream, |events| + n)
      {
        FailsFirst(events, n, failing);
        NamedOnwards(events, n);
        assert Onwards(events, n, failing)[..|events| + n] == events + Backs(n);
        WalkerAgainstChain(Onwards(events, n, failing), |events| + n);
      }
    } else {
      StacksAgree(events);
      var n := |WalkerStack(events)|;
      var failing := Stranger(Stack(events)[|Stack(events)| - 1 - n].address, strkey);
      DisagreeOnwards(events, failing);
      assert !NamesSame(Onwards(events, n, failing), |events| + n);
    }
  }

  // A failure whose contract is none of that name.
  lemma Stranger(address: string, strkey: Strkey) returns (e: DiagnosticEvent)
    requires Distinct(strkey)
    ensures IsPlainFailure(e) && Receivable(e, strkey) && e.contractId.Some? && e.contractId.value != address
  {
    var zeros: bytes32, ones: bytes32 := seq(32, _ => 0), seq(32, _ => 1);
    assert zeros[0] != ones[0];
    e := DiagnosticEvent(false, Some(strkey(if strkey(zeros) != address then zeros else ones)), [], Void);
  }

  lemma FailsFirst(events: seq<DiagnosticEvent>, n: nat, failing: DiagnosticEvent)
    requires IsPlainFailure(failing) && forall i :: 0 <= i < |events| ==> !IsFailure(events[i])
    ensures var stream := Onwards(events, n, failing);
      IsFirstFailure(stream, |events| + n) && QuietBefore(stream, |events| + n)
  {
    hide IsFailure, IsCall, IsReturn;
    var stream := Onwards(events, n, failing);
    BackIsQuiet();
    assert stream[|events| + n] == failing;
    assert forall i :: 0 <= i < |events| + n ==> stream[i] == if i < |events| then events[i] else BACK;
  }

  lemma BackIsQuiet()
    ensures !IsFailure(BACK) && IsReturn(BACK) && !IsCall(BACK)
  {
    hide IsFailureKeyword, IsCall, IsReturn;
    KindsOf("fn_return", BACK);
    NoKeyword("fn_return");
    assert BACK.topics[1..] == [];
  }

  // Returns leave no call unnamed that was not.
  lemma {:induction false} NamedOnwards(events: seq<DiagnosticEvent>, n: nat)
    requires NamedSinceEmpty(events)
    ensures NamedSinceEmpty(events + Backs(n))
  {
    hide NamedSinceEmpty, Stack, IsCall;
    if n == 0 {
      assert events + Backs(0) == events;
    } else {
      NamedOnwards(events, n - 1);
      var all := events + Backs(n);
      assert all[..|all| - 1] == events + Backs(n - 1) && all[|all| - 1] == BACK;
      NamedStep(all);
      BackIsQuiet();
    }
  }

  // Each return takes one frame off both stacks.
  lemma {:induction false} StacksOnwards(events: seq<DiagnosticEvent>, n: nat)
    requires n <= |Stack(events)|
    ensures var a, b := Stack(events), WalkerStack(events);
      && Stack(events + Backs(n)) == a[..|a| - n]
      && WalkerStack(events + Backs(n)) == b[..if n <= |b| then |b| - n else 0]
  {
    hide IsCall, IsReturn, Stack, WalkerStack;
    if n == 0 {
      assert events + Backs(0) == events;
    } else {
      StacksOnwards(events, n - 1);
      var all := events + Backs(n);
      assert all[..|all| - 1] == events + Backs(n - 1) && all[|all| - 1] == BACK;
      BackIsQuiet();
      StackAfter(all);
    }
  }

  lemma StackAfter(events: seq<DiagnosticEvent>)
    requires events != [] && !IsCall(events[|events| - 1])
    ensures var before, back := events[..|events| - 1], IsReturn(events[|events| - 1]);
      && Stack(events) == (if back then DropLast(Stack(before)) else Stack(before))
      && WalkerStack(events) == if back then DropLast(WalkerStack(before)) else WalkerStack(before)
  {
    hide IsCall, IsReturn;
  }

  lemma DisagreeOnwards(events: seq<DiagnosticEvent>, failing: DiagnosticEvent)
    requires var a, b := Stack(events), WalkerStack(events);
      && |b| < |a| && IsPlainFailure(failing)
      && failing.contractId.Some? && failing.contractId.value != a[|a| - 1 - |b|].address
    ensures var n := |WalkerStack(events)|;
      !NamesSame(Onwards(events, n, failing), |events| + n)
  {
    hide IsFailure, IsCall, IsReturn, Stack, WalkerStack, NamesSame, Onwards;
    var n := |WalkerStack(events)|;
    var stream := Onwards(events, n, failing);
    StacksOnwards(events, n);
    OnwardsParts(events, n, failing);
    StackAfter(stream);
    BlamesApart(stream, |events| + n);
  }

  // The walker's stack is empty, the other one is not: the walker names the event's own contract, the chain that of the
  // frame.
  lemma BlamesApart(events: seq<DiagnosticEvent>, i: nat)
    requires i < |events| && WalkerStack(events[..i + 1]) == [] && events[i].contractId.Some?
    requires var stack := Stack(events[..i]);
      stack != [] && stack[|stack| - 1].address != events[i].contractId.value
    ensures !NamesSame(events, i)
  {
    hide Stack, WalkerStack;
  }

  lemma OnwardsParts(events: seq<DiagnosticEvent>, n: nat, failing: DiagnosticEvent)
    ensures var stream := Onwards(events, n, failing);
      && stream[..|events| + n] == events + Backs(n) && stream[|events| + n] == failing
      && stream[..|stream|] == stream
  {
  }

  /* Inputs on which the two differ. */

  const QUIET_CALL: DiagnosticEvent := DiagnosticEvent(true, None, [Symbol("fn_call"), Symbol("f")], Void)
  const BACK: DiagnosticEvent := DiagnosticEvent(true, None, [Symbol("fn_return")], Void)

  // Events of a contract of any name.
  function FailedCall(contract: string): DiagnosticEvent {
    DiagnosticEvent(false, Some(contract), [Symbol("fn_call"), Symbol("f")], Void)
  }

  function Failed(contract: string): DiagnosticEvent {
    DiagnosticEvent(false, Some(contract), [Symbol("x")], Void)
  }

  /** A call without a contract: the chain blames the function name, the walker the emitting contract, whichever. */
  lemma UnnamedCallDisagrees(a: string)
    ensures var events := [QUIET_CALL, Failed(a)];
      && IsFirstFailure(events, 1) && IsFirstWalkerFailure(events, 1)
      && ChainOf(Stack(events[..1]), events[1]).frames[0].address == "f"
      && Blamed(events, 1) == Some(a)
  {
    hide IsFailureKeyword, Stack, WalkerStack, IsCall, IsReturn;
    var events := [QUIET_CALL, Failed(a)];
    KindsOf("fn_call", QUIET_CALL);
    KindsOf("x", Failed(a));
    NoKeyword("fn_call");
    NoKeyword("f");
    TwoTopics("fn_call", "f");
    assert events[..1] == [QUIET_CALL] && events[..1 + 1] == [QUIET_CALL, Failed(a)];
    StackOfOne(QUIET_CALL);
    StackOfTwo(QUIET_CALL, Failed(a));
  }

  /** A failing call event: the walker stops there, at the callee; the chain goes on to the first other failure. */
  lemma FailingCallDisagrees(a: string, b: string)
    ensures var events := [FailedCall(b), BACK, Failed(a)];
      && IsFirstFailure(events, 2) && IsFirstWalkerFailure(events, 0)
      && ChainOf(Stack(events[..2]), events[2]).frames[0].address == a
      && Blamed(events, 0) == Some(b)
  {
    hide IsFailureKeyword, Topics, NewFrame, Stack, WalkerStack, IsCall, IsReturn;
    var events := [FailedCall(b), BACK, Failed(a)];
    KindsOf("fn_call", FailedCall(b));
    KindsOf("fn_return", BACK);
    KindsOf("x", Failed(a));
    assert events[..0 + 1] == [FailedCall(b)] && events[..2] == [FailedCall(b), BACK];
    StackOfOne(FailedCall(b));
    StackOfTwo(FailedCall(b), BACK);
  }

  lemma StackOfOne(a: DiagnosticEvent)
    requires IsCall(a)
    ensures Stack([a]) == [NewFrame(a, 0)]
    ensures WalkerStack([a]) == if a.contractId.Some? then [a.contractId.value] else []
  {
    hide IsCall, IsReturn, NewFrame;
    assert [a][..0] == [];
  }

  lemma StackOfTwo(a: DiagnosticEvent, b: DiagnosticEvent)
    requires IsCall(a) && !IsCall(b)
    ensures Stack([a, b]) == if IsReturn(b) then [] else Stack([a])
    ensures WalkerStack([a, b]) == if IsReturn(b) then [] else WalkerStack([a])
  {
    hide IsCall, IsReturn, NewFrame;
    assert [a, b][..1] == [a];
    StackOfOne(a);
  }

  lemma TwoTopics(a: string, b: string)
    ensures Topics([Symbol(a), Symbol(b)]) == [a, b]
  {
    assert [Symbol(a), Symbol(b)][1..] == [Symbol(b)] && [Symbol(b)][1..] == [];
    assert Topics([Symbol(b)]) == [b];
  }

  lemma KindsOf(topic: string, e: DiagnosticEvent)
    requires e.topics != [] && e.topics[0] == Symbol(topic)
    ensures IsCall(e) <==> topic == "fn_call"
    ensures IsReturn(e) <==> topic == "fn_return"
  {
  }

  lemma NoKeyword(topic: string)
    requires topic in ["fn_call", "fn_return", "f"]
    ensures !IsFailureKeyword(topic)
  {
    var lower := Lower(topic);
    assert lower == topic;
    forall i | 0 <= i <= |lower| - |"trap"| ensures !OccursAt(lower, "trap", i) {
      assert lower[i..i + 4][0] == lower[i] && lower[i..i + 4][1] == lower[i + 1];
    }
    forall i | 0 <= i <= |lower| - |"failed"| ensures !OccursAt(lower, "failed", i) {
      assert lower[i..i + 6][1] == lower[i + 1];
    }
  }
}
