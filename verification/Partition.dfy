/**
 Attributing diagnostic events to the operations of a transaction
 (crates/core/src/decode/multi_op_decoder.rs).
 */
module Partition {
  import opened Common
  import opened ScVals
  import opened Diagnostics
  import opened Brackets

  datatype Operation =
    | InvokeContract
    | OtherHostFunction
    | ExtendFootprintTtl
    | RestoreFootprint
    | Classic

  predicate IsSoroban(op: Operation) {
    !op.Classic?
  }

  predicate IsCallTopic(s: string) {
    Lower(s) in ["fn_call", "function_call", "call"]
  }

  predicate IsReturnTopic(s: string) {
    Lower(s) in ["fn_return", "function_return", "return"]
  }

  // Any topic, not only the first.
  predicate IsCall(e: DiagnosticEvent) {
    exists i :: 0 <= i < |e.topics| && TopicText(e.topics[i]).Some? && IsCallTopic(TopicText(e.topics[i]).value)
  }

  predicate IsReturn(e: DiagnosticEvent) {
    exists i :: 0 <= i < |e.topics| && TopicText(e.topics[i]).Some? && IsReturnTopic(TopicText(e.topics[i]).value)
  }

  // The positions of the operations that satisfy p, in order.
  function Positions(ops: seq<Operation>, p: Operation -> bool): (r: seq<nat>)
    ensures forall k :: 0 <= k < |r| ==> r[k] < |ops| && p(ops[r[k]])
    ensures forall j, k :: 0 <= j < k < |r| ==> r[j] < r[k]
    ensures forall i :: 0 <= i < |ops| && p(ops[i]) ==> i in r
  {
    if ops == [] then []
    else
      var n := |ops| - 1;
      var r := Positions(ops[..n], p);
      assert forall i :: 0 <= i < |ops| && p(ops[i]) ==> i == n || ops[..n][i] == ops[i];
      if p(ops[n]) then r + [n] else r
  }

  function Invokes(ops: seq<Operation>): seq<nat> {
    Positions(ops, (op: Operation) => op.InvokeContract?)
  }

  function Sorobans(ops: seq<Operation>): seq<nat> {
    Positions(ops, IsSoroban)
  }

  ghost predicate IsOnlyInvoke(ops: seq<Operation>, i: nat) {
    i < |ops| && forall j :: 0 <= j < |ops| ==> (ops[j].InvokeContract? <==> j == i)
  }

  function SingleInvoke(ops: seq<Operation>): Option<nat> {
    var r := Invokes(ops);
    if |r| == 1 then Some(r[0]) else None
  }

  /** The index is that of the one contract invocation, when there is exactly one. */
  lemma SingleInvokeExact(ops: seq<Operation>, i: nat)
    ensures SingleInvoke(ops) == Some(i) <==> IsOnlyInvoke(ops, i)
  {
    var r := Invokes(ops);
    assert |r| > 1 ==> r[0] < r[1];
    if IsOnlyInvoke(ops, i) {
      assert ops[i].InvokeContract? && i in r;
      assert forall k :: 0 <= k < |r| ==> ops[r[k]].InvokeContract? && r[k] == i;
    }
  }

  // The one host-function or footprint operation, when there is exactly one.
  lemma OnlySoroban(ops: seq<Operation>, i: nat)
    ensures Sorobans(ops) == [i] <==>
      && i < |ops|
      && forall j :: 0 <= j < |ops| ==>
           (ops[j] in {InvokeContract, OtherHostFunction, ExtendFootprintTtl, RestoreFootprint} <==> j == i)
  {
    var r := Sorobans(ops);
    assert |r| > 1 ==> r[0] < r[1];
    if Sorobans(ops) == [i] {
      assert r[0] == i;
      forall j | 0 <= j < |ops| && IsSoroban(ops[j]) ensures j == i {
        assert j in r;
      }
    }
    if i < |ops| && forall j :: 0 <= j < |ops| ==> (IsSoroban(ops[j]) <==> j == i) {
      assert IsSoroban(ops[i]) && i in r;
      assert forall k :: 0 <= k < |r| ==> IsSoroban(ops[r[k]]) && r[k] == i;
    }
  }

  /** An event is a call or a return by any symbol or string among its topics, in any case. */
  lemma TopicsDecide(e: DiagnosticEvent)
    ensures IsCall(e) <==>
      exists s :: (Symbol(s) in e.topics || Str(s) in e.topics) && Lower(s) in {"fn_call", "function_call", "call"}
    ensures IsReturn(e) <==>
      exists s :: (Symbol(s) in e.topics || Str(s) in e.topics) &&
        Lower(s) in {"fn_return", "function_return", "return"}
  {
    hide Lower;
    if IsCall(e) {
      var i :| 0 <= i < |e.topics| && TopicText(e.topics[i]).Some? && IsCallTopic(TopicText(e.topics[i]).value);
      var s := TopicText(e.topics[i]).value;
      assert e.topics[i] == Symbol(s) || e.topics[i] == Str(s);
    }
    if IsReturn(e) {
      var i :| 0 <= i < |e.topics| && TopicText(e.topics[i]).Some? && IsReturnTopic(TopicText(e.topics[i]).value);
      var s := TopicText(e.topics[i]).value;
      assert e.topics[i] == Symbol(s) || e.topics[i] == Str(s);
    }
    TextsAt(e.topics);
  }

  lemma TextsAt(vs: seq<ScVal>)
    ensures forall s :: Symbol(s) in vs || Str(s) in vs ==>
      exists i :: 0 <= i < |vs| && TopicText(vs[i]) == Some(s)
  {
    forall s | Symbol(s) in vs || Str(s) in vs ensures exists i :: 0 <= i < |vs| && TopicText(vs[i]) == Some(s) {
      if Symbol(s) in vs {
        var i :| 0 <= i < |vs| && vs[i] == Symbol(s);
        assert TopicText(vs[i]) == Some(s);
      } else {
        var i :| 0 <= i < |vs| && vs[i] == Str(s);
        assert TopicText(vs[i]) == Some(s);
      }
    }
  }

  /* Call depth and top-level slices. */

  function Descend(depth: nat, e: DiagnosticEvent): nat {
    var inside := if IsCall(e) then depth + 1 else depth;
    if IsReturn(e) then (if inside > 0 then inside - 1 else 0) else inside
  }

  // Depth after all these events; a return at depth 0 is ignored.
  function Depth(events: seq<DiagnosticEvent>): nat {
    if events == [] then 0 else Descend(Depth(events[..|events| - 1]), events[|events| - 1])
  }

  /** The depth is the number of calls that have not returned; an event that is both call and return is neither. */
  lemma {:induction false} DepthIsRunning(events: seq<DiagnosticEvent>, n: nat) returns (calls: seq<nat>)
    requires n <= |events|
    ensures Nested(calls, events, n, IsCall, IsReturn) && Depth(events[..n]) == |calls|
    decreases n
  {
    hide IsCall, IsReturn, AreOpen;
    if n == 0 {
      calls := [];
      NothingOpen(events, IsCall, IsReturn);
    } else {
      var before := DepthIsRunning(events, n - 1);
      OpenNext(before, events, n - 1, IsCall, IsReturn);
      calls := Next(before, events, n - 1, IsCall, IsReturn);
      assert events[..n][..n - 1] == events[..n - 1];
    }
  }

  // A top-level call: a call seen at depth 0.
  predicate StartsAt(events: seq<DiagnosticEvent>, i: nat)
    requires i < |events|
  {
    Depth(events[..i]) == 0 && IsCall(events[i])
  }

  predicate InsideAt(events: seq<DiagnosticEvent>, i: nat)
    requires i < |events|
  {
    Depth(events[..i]) > 0 || IsCall(events[i])
  }

  datatype Slice = Slice(start: nat, end: nat)

  // One slice for each top-level call, from the call to the return that brings the depth back to 0.
  function Slices(events: seq<DiagnosticEvent>): seq<Slice> {
    if events == [] then []
    else
      var n := |events| - 1;
      var before := Slices(events[..n]);
      if StartsAt(events, n) then before + [Slice(n, n + 1)]
      else if Depth(events[..n]) > 0 && before != [] then before[|before| - 1 := before[|before| - 1].(end := n + 1)]
      else before
  }

  // Disjoint, in order, within the stream.
  ghost predicate InOrder(slices: seq<Slice>, n: nat) {
    && (forall k :: 0 <= k < |slices| ==> slices[k].start < slices[k].end <= n)
    && (forall j, k :: 0 <= j < k < |slices| ==> slices[j].end <= slices[k].start)
  }

  // Each begins with a top-level call and stays below the top level until its end.
  ghost predicate AreCalls(events: seq<DiagnosticEvent>, slices: seq<Slice>)
    requires InOrder(slices, |events|)
  {
    forall k :: 0 <= k < |slices| ==> IsCallSlice(events, slices[k])
  }

  ghost predicate IsCallSlice(events: seq<DiagnosticEvent>, s: Slice)
    requires s.start < s.end <= |events|
  {
    StartsAt(events, s.start) && forall i :: s.start < i < s.end ==> Depth(events[..i]) > 0
  }

  // It ends where the depth is 0 again, or, for the last one, with the stream.
  ghost predicate AreEnded(events: seq<DiagnosticEvent>, slices: seq<Slice>)
    requires InOrder(slices, |events|)
  {
    forall k :: 0 <= k < |slices| ==>
      Depth(events[..slices[k].end]) == 0 || (k == |slices| - 1 && slices[k].end == |events|)
  }

  ghost predicate InSome(slices: seq<Slice>, i: nat) {
    exists k :: 0 <= k < |slices| && slices[k].start <= i < slices[k].end
  }

  // Nothing inside a call is left out.
  ghost predicate AreComplete(events: seq<DiagnosticEvent>, slices: seq<Slice>) {
    forall i :: 0 <= i < |events| && InsideAt(events, i) ==> InSome(slices, i)
  }

  // The last slice is still open exactly when the depth says so.
  ghost predicate OpenLast(events: seq<DiagnosticEvent>, slices: seq<Slice>) {
    Depth(events) > 0 ==> slices != [] && slices[|slices| - 1].end == |events|
  }

  ghost predicate Covers(events: seq<DiagnosticEvent>, slices: seq<Slice>) {
    && InOrder(slices, |events|)
    && AreCalls(events, slices)
    && AreEnded(events, slices)
    && AreComplete(events, slices)
    && OpenLast(events, slices)
  }

  lemma {:induction false} SlicesCover(events: seq<DiagnosticEvent>)
    ensures Covers(events, Slices(events))
  {
    hide IsCall, IsReturn, AreCalls, AreEnded, AreComplete;
    if events == [] {
      Nothing([]);
    } else {
      SlicesCover(events[..|events| - 1]);
      CallsStep(events);
      EndsStep(events);
      CompleteStep(events);
      OpenStep(events);
    }
  }

  lemma SlicePrefix(events: seq<DiagnosticEvent>, n: nat, s: Slice)
    requires n <= |events| && s.start < s.end <= n
    ensures IsCallSlice(events[..n], s) <==> IsCallSlice(events, s)
  {
    hide IsCall;
    assert forall i :: 0 <= i <= n ==> events[..n][..i] == events[..i];
    assert events[..n][s.start] == events[s.start];
  }

  // The last event opens a slice, prolongs the last one, or changes nothing.
  lemma SlicesLast(events: seq<DiagnosticEvent>)
    requires events != []
    ensures Grows(events, Slices(events[..|events| - 1]), Slices(events))
  {
    hide IsCall, IsReturn, Depth;
  }

  lemma CallsStep(events: seq<DiagnosticEvent>)
    requires events != [] && Covers(events[..|events| - 1], Slices(events[..|events| - 1]))
    ensures InOrder(Slices(events), |events|) && AreCalls(events, Slices(events))
  {
    hide IsCall, IsReturn, AreEnded, AreComplete, Slices, Depth, StartsAt, IsCallSlice;
    SlicesLast(events);
    CallsGrow(events, Slices(events[..|events| - 1]), Slices(events));
  }

  // `after` is `before` with the last event taken into account.
  ghost predicate Grows(events: seq<DiagnosticEvent>, before: seq<Slice>, after: seq<Slice>)
    requires events != []
  {
    var n := |events| - 1;
    if StartsAt(events, n) then after == before + [Slice(n, n + 1)]
    else if Depth(events[..n]) > 0 && before != [] then
      after == before[..|before| - 1] + [Slice(before[|before| - 1].start, n + 1)]
    else after == before
  }

  lemma CallsGrow(events: seq<DiagnosticEvent>, before: seq<Slice>, after: seq<Slice>)
    requires events != [] && InOrder(before, |events| - 1)
    requires AreCalls(events[..|events| - 1], before) && OpenLast(events[..|events| - 1], before)
    requires Grows(events, before, after)
    ensures InOrder(after, |events|) && AreCalls(events, after)
  {
    hide IsCall, IsReturn, Depth, StartsAt, IsCallSlice;
    var n := |events| - 1;
    forall k | 0 <= k < |before| ensures IsCallSlice(events, before[k]) {
      assert IsCallSlice(events[..n], before[k]);
      SlicePrefix(events, n, before[k]);
    }
    if StartsAt(events, n) {
      ShortSlice(events, n);
    } else if Depth(events[..n]) > 0 && before != [] {
      LongerSlice(events, n, before[|before| - 1]);
    }
  }

  lemma ShortSlice(events: seq<DiagnosticEvent>, n: nat)
    requires n < |events| && StartsAt(events, n)
    ensures IsCallSlice(events, Slice(n, n + 1)) && Depth(events[..n]) == 0
  {
    hide IsCall, Depth;
  }

  lemma LongerSlice(events: seq<DiagnosticEvent>, n: nat, s: Slice)
    requires n < |events| && s.start < s.end == n && IsCallSlice(events, s) && Depth(events[..n]) > 0
    ensures IsCallSlice(events, Slice(s.start, n + 1))
  {
    hide IsCall, Depth;
  }

  lemma EndsStep(events: seq<DiagnosticEvent>)
    requires events != [] && Covers(events[..|events| - 1], Slices(events[..|events| - 1]))
    requires InOrder(Slices(events), |events|)
    ensures AreEnded(events, Slices(events))
  {
    hide IsCall, IsReturn, AreCalls, AreComplete, Slices, Depth;
    var n := |events| - 1;
    var before := Slices(events[..n]);
    SlicesLast(events);
    assert forall i :: 0 <= i <= n ==> events[..n][..i] == events[..i];
    assert events[..n + 1] == events;
  }

  lemma CompleteStep(events: seq<DiagnosticEvent>)
    requires events != [] && Covers(events[..|events| - 1], Slices(events[..|events| - 1]))
    ensures AreComplete(events, Slices(events))
  {
    hide IsCall, IsReturn, AreCalls, AreEnded, Slices, Depth, Grows;
    SlicesLast(events);
    CompleteGrows(events, Slices(events[..|events| - 1]), Slices(events));
  }

  lemma CompleteGrows(events: seq<DiagnosticEvent>, before: seq<Slice>, after: seq<Slice>)
    requires events != [] && InOrder(before, |events| - 1) && Grows(events, before, after)
    requires AreComplete(events[..|events| - 1], before) && OpenLast(events[..|events| - 1], before)
    ensures AreComplete(events, after)
  {
    hide IsCall, IsReturn, Depth;
    var n := |events| - 1;
    forall i | 0 <= i < |events| && InsideAt(events, i) ensures InSome(after, i) {
      if i < n {
        assert events[..n][..i] == events[..i] && events[..n][i] == events[i];
        assert InsideAt(events[..n], i);
        StillIn(before, after, i);
      } else {
        assert after[|after| - 1].start <= i < after[|after| - 1].end;
      }
    }
  }

  lemma StillIn(before: seq<Slice>, after: seq<Slice>, i: nat)
    requires InSome(before, i) && |before| <= |after|
    requires forall k :: 0 <= k < |before| ==> after[k].start == before[k].start && after[k].end >= before[k].end
    ensures InSome(after, i)
  {
    var k :| 0 <= k < |before| && before[k].start <= i < before[k].end;
    assert after[k].start <= i < after[k].end;
  }

  lemma OpenStep(events: seq<DiagnosticEvent>)
    requires events != [] && Covers(events[..|events| - 1], Slices(events[..|events| - 1]))
    ensures OpenLast(events, Slices(events))
  {
    hide IsCall, IsReturn, AreCalls, AreEnded, AreComplete, InOrder, Slices;
    SlicesLast(events);
  }

  /* The partitioner. */

  // The events of operation `op`: those of the k-th top-level call when `op` is the k-th invocation.
  function EventsOf(events: seq<DiagnosticEvent>, ops: seq<Operation>, op: nat): seq<DiagnosticEvent> {
    Attributed(events, Slices(events), Invokes(ops), op)
  }

  function Attributed(events: seq<DiagnosticEvent>, slices: seq<Slice>, invokes: seq<nat>, op: nat)
    : seq<DiagnosticEvent>
  {
    if op in invokes then
      TextOf(events, slices, IndexOf(invokes, op))
    else []
  }

  function IndexOf(s: seq<nat>, x: nat): (k: nat)
    requires x in s
    ensures k < |s| && s[k] == x
  {
    if s[0] == x then 0 else 1 + IndexOf(s[1..], x)
  }

  lemma {:induction false} IndexUnique(s: seq<nat>, k: nat)
    requires k < |s| && forall i, j :: 0 <= i < j < |s| ==> s[i] < s[j]
    ensures IndexOf(s, s[k]) == k
  {
  }

  predicate Attributes(partitions: seq<seq<DiagnosticEvent>>, events: seq<DiagnosticEvent>, invokes: seq<nat>) {
    forall i :: 0 <= i < |partitions| ==> partitions[i] == Attributed(events, Slices(events), invokes, i)
  }

  /** With one Soroban operation everything is its own; otherwise each top-level call goes to its invocation. */
  method PartitionEvents(events: seq<DiagnosticEvent>, ops: seq<Operation>)
    returns (partitions: seq<seq<DiagnosticEvent>>)
    ensures |partitions| == |ops|
    ensures |Sorobans(ops)| == 1 ==>
      forall i :: 0 <= i < |ops| ==> partitions[i] == if i == Sorobans(ops)[0] then events else []
    ensures |Sorobans(ops)| != 1 ==> forall i :: 0 <= i < |ops| ==> partitions[i] == EventsOf(events, ops, i)
  {
    hide IsCall, IsReturn, IsSoroban, Attributed, Slices;
    partitions := seq(|ops|, _ => []);
    var invokes, soroban := Invokes(ops), Sorobans(ops);
    if events == [] {
      Nothing(invokes);
      return;
    }
    if |soroban| == 1 {
      partitions := partitions[soroban[0] := events];
      return;
    }
    partitions := PartitionSlices(events, invokes, |ops|);
  }

  method PartitionSlices(events: seq<DiagnosticEvent>, invokes: seq<nat>, count: nat)
    returns (partitions: seq<seq<DiagnosticEvent>>)
    requires forall k :: 0 <= k < |invokes| ==> invokes[k] < count
    requires forall j, k :: 0 <= j < k < |invokes| ==> invokes[j] < invokes[k]
    ensures |partitions| == count && Attributes(partitions, events, invokes)
  {
    hide IsCall, IsReturn, Attributed, Slices, Depth, Covers;
    partitions := seq(count, _ => []);
    var depth, cursor := 0, 0;
    var active: Option<nat> := None;
    Nothing(invokes);
    assert events[..0] == [];
    for n := 0 to |events|
      invariant |partitions| == count
      invariant depth == Depth(events[..n])
      invariant cursor == if |Slices(events[..n])| <= |invokes| then |Slices(events[..n])| else |invokes|
      invariant active == if depth > 0 then ActiveOf(Slices(events[..n]), invokes) else None
      invariant Attributes(partitions, events[..n], invokes)
    {
      assert events[..n + 1][..n] == events[..n];
      var e := events[n];
      CountStep(events[..n + 1]);
      if IsCall(e) {
        if depth == 0 {
          active := if cursor < |invokes| then Some(invokes[cursor]) else None;
          if active.Some? {
            cursor := cursor + 1;
          }
        }
        depth := depth + 1;
      }
      AttributesStep(partitions, events[..n + 1], invokes, active);
      if active.Some? {
        partitions := partitions[active.value := partitions[active.value] + [e]];
      }
      if IsReturn(e) {
        depth := if depth > 0 then depth - 1 else 0;
        if depth == 0 {
          active := None;
        }
      }
    }
    assert events[..|events|] == events;
  }

  // The operation the last slice belongs to, if the invocations reach that far.
  function ActiveOf(slices: seq<Slice>, invokes: seq<nat>): Option<nat> {
    if 0 < |slices| <= |invokes| then Some(invokes[|slices| - 1]) else None
  }

  lemma Nothing(invokes: seq<nat>)
    ensures Slices([]) == [] && Depth([]) == 0 && forall i: nat :: Attributed([], [], invokes, i) == []
    ensures Covers([], [])
  {
  }

  // How depth and the number of slices move with one event.
  lemma CountStep(events: seq<DiagnosticEvent>)
    requires events != []
    ensures var n := |events| - 1;
      var before, after := Slices(events[..n]), Slices(events);
      && Depth(events) == Descend(Depth(events[..n]), events[n])
      && (StartsAt(events, n) ==> |after| == |before| + 1)
      && (!StartsAt(events, n) ==> |after| == |before|)
      && (Depth(events[..n]) > 0 ==> |before| > 0)
  {
    hide IsCall, IsReturn;
    SlicesCover(events[..|events| - 1]);
    hide Covers;
    SlicesLast(events);
  }

  lemma AttributesStep(partitions: seq<seq<DiagnosticEvent>>, events: seq<DiagnosticEvent>, invokes: seq<nat>,
        active: Option<nat>)
    requires events != [] && forall j, k :: 0 <= j < k < |invokes| ==> invokes[j] < invokes[k]
    requires forall k :: 0 <= k < |invokes| ==> invokes[k] < |partitions|
    requires Attributes(partitions, events[..|events| - 1], invokes)
    requires active == if InsideAt(events, |events| - 1) then ActiveOf(Slices(events), invokes) else None
    ensures active.Some? ==> active.value < |partitions|
    ensures
      var next := if active.Some? then partitions[active.value := partitions[active.value] + [events[|events| - 1]]]
                  else partitions;
      Attributes(next, events, invokes)
  {
    hide IsCall, IsReturn, Attributed, Slices, Depth, InsideAt;
    forall i | 0 <= i < |partitions|
      ensures Attributed(events, Slices(events), invokes, i) ==
        if active == Some(i) then partitions[i] + [events[|events| - 1]] else partitions[i]
    {
      AttributeStep(events, invokes, i);
    }
  }

  // One more event goes to the operation of the slice it extends, and to no other.
  lemma AttributeStep(events: seq<DiagnosticEvent>, invokes: seq<nat>, i: nat)
    requires events != [] && forall j, k :: 0 <= j < k < |invokes| ==> invokes[j] < invokes[k]
    ensures var n := |events| - 1;
      var before := Attributed(events[..n], Slices(events[..n]), invokes, i);
      Attributed(events, Slices(events), invokes, i) ==
        if InsideAt(events, n) && ActiveOf(Slices(events), invokes) == Some(i) then before + [events[n]] else before
  {
    hide IsCall, IsReturn, Slices, Depth, AreCalls, AreEnded, AreComplete, InOrder, OpenLast, Grows, InsideAt, TextOf,
         ActiveOf;
    var n := |events| - 1;
    SlicesCover(events[..n]);
    SlicesLast(events);
    if i in invokes {
      var k := IndexOf(invokes, i);
      OwnerOfLast(Slices(events), invokes, i);
      SliceGrows(events, Slices(events[..n]), Slices(events), k);
    } else {
      OwnerOfLast(Slices(events), invokes, i);
    }
  }

  lemma OwnerOfLast(slices: seq<Slice>, invokes: seq<nat>, i: nat)
    requires forall j, k :: 0 <= j < k < |invokes| ==> invokes[j] < invokes[k]
    ensures ActiveOf(slices, invokes) == Some(i) <==> i in invokes && IndexOf(invokes, i) == |slices| - 1
  {
    if i in invokes && 0 < |slices| <= |invokes| {
      assert invokes[IndexOf(invokes, i)] == i;
    }
  }

  function TextOf(events: seq<DiagnosticEvent>, slices: seq<Slice>, k: nat): seq<DiagnosticEvent> {
    if k < |slices| && slices[k].start <= slices[k].end <= |events| then events[slices[k].start..slices[k].end] else []
  }

  lemma SliceGrows(events: seq<DiagnosticEvent>, before: seq<Slice>, after: seq<Slice>, k: nat)
    requires events != []
    requires InOrder(before, |events| - 1) && OpenLast(events[..|events| - 1], before)
    requires Grows(events, before, after)
    ensures var n := |events| - 1;
      TextOf(events, after, k) ==
        if InsideAt(events, n) && k == |after| - 1 then TextOf(events[..n], before, k) + [events[n]]
        else TextOf(events[..n], before, k)
  {
    hide IsCall, IsReturn, Depth;
    var n := |events| - 1;
    if k < |before| {
      var s := before[k];
      assert s.start < s.end <= n;
      assert events[..n][s.start..s.end] == events[s.start..s.end];
      if after != before && k == |after| - 1 {
        assert after[k] == Slice(s.start, n + 1) && s.end == n;
        assert events[s.start..n + 1] == events[s.start..n] + [events[n]];
      } else {
        assert k < |after| && after[k] == before[k];
      }
    }
  }

  /* The value an operation returned. */

  /** The data of the last return event, found from the end. */
  function ReturnValue(events: seq<DiagnosticEvent>): Option<ScVal> {
    if events == [] then None
    else
      var last := events[|events| - 1];
      if IsReturn(last) then Some(last.data) else ReturnValue(events[..|events| - 1])
  }

  ghost predicate IsLastReturn(events: seq<DiagnosticEvent>, i: nat) {
    i < |events| && IsReturn(events[i]) && forall k :: i < k < |events| ==> !IsReturn(events[k])
  }

  /** Any list of events: the data of the last return among them, none exactly when there is no return. */
  lemma {:induction false} LastReturnWins(events: seq<DiagnosticEvent>)
    ensures ReturnValue(events).None? <==> forall i :: 0 <= i < |events| ==> !IsReturn(events[i])
    ensures forall d ::
      ReturnValue(events) == Some(d) <==> exists i: nat :: IsLastReturn(events, i) && events[i].data == d
  {
    hide IsReturn;
    if events != [] {
      var n := |events| - 1;
      var init := events[..n];
      assert forall i :: 0 <= i < n ==> init[i] == events[i];
      if IsReturn(events[n]) {
        assert IsLastReturn(events, n);
      } else {
        LastReturnWins(init);
        forall i: nat ensures IsLastReturn(events, i) <==> IsLastReturn(init, i) {
        }
      }
    }
  }

  // The value reported for an operation: from its events, else from the transaction's metadata, which is that of the
  // only invocation.
  function OperationReturn(events: seq<DiagnosticEvent>, ops: seq<Operation>, i: nat, meta: Option<ScVal>)
    : Option<ScVal>
  {
    match ReturnValue(events)
    case Some(v) => Some(v)
    case None => if SingleInvoke(ops) == Some(i) then meta else None
  }

  lemma OperationReturnExact(events: seq<DiagnosticEvent>, ops: seq<Operation>, i: nat, meta: Option<ScVal>, v: ScVal)
    ensures OperationReturn(events, ops, i, meta) == Some(v) <==>
      || (exists k: nat :: IsLastReturn(events, k) && events[k].data == v)
      || (&& (forall k :: 0 <= k < |events| ==> !IsReturn(events[k]))
          && IsOnlyInvoke(ops, i) && meta == Some(v))
  {
    hide IsReturn, SingleInvoke, IsOnlyInvoke;
    LastReturnWins(events);
    SingleInvokeExact(ops, i);
  }

  lemma ClosingEventReturns(events: seq<DiagnosticEvent>, n: nat)
    requires n < |events| && InsideAt(events, n) && Depth(events[..n + 1]) == 0
    ensures IsReturn(events[n])
  {
    assert events[..n + 1][..n] == events[..n];
  }

  /** A top-level call that has returned yields the data of its last event. */
  lemma ClosedSliceReturn(events: seq<DiagnosticEvent>, k: nat)
    requires k < |Slices(events)|
    ensures var s := Slices(events)[k];
      && s.start < s.end <= |events|
      && (Depth(events[..s.end]) == 0 ==> ReturnValue(events[s.start..s.end]) == Some(events[s.end - 1].data))
  {
    hide IsCall, IsReturn, Depth, Slices;
    SlicesCover(events);
    var s := Slices(events)[k];
    assert IsCallSlice(events, s);
    if Depth(events[..s.end]) == 0 {
      assert InsideAt(events, s.end - 1);
      ClosingEventReturns(events, s.end - 1);
      var part := events[s.start..s.end];
      assert part[|part| - 1] == events[s.end - 1];
    }
  }

  /** The k-th invocation of the transaction gets exactly the k-th top-level call, the rest get nothing. */
  lemma KthCallToKthInvoke(events: seq<DiagnosticEvent>, ops: seq<Operation>, k: nat)
    requires k < |Invokes(ops)|
    ensures var slices := Slices(events);
      && Covers(events, slices)
      && EventsOf(events, ops, Invokes(ops)[k]) ==
           if k < |slices| then events[slices[k].start..slices[k].end] else []
  {
    hide Slices, Invokes, AreCalls, AreEnded, AreComplete;
    SlicesCover(events);
    InvokesOrdered(ops);
    IndexUnique(Invokes(ops), k);
  }

  lemma InvokesOrdered(ops: seq<Operation>)
    ensures forall i, j :: 0 <= i < j < |Invokes(ops)| ==> Invokes(ops)[i] < Invokes(ops)[j]
  {
  }

  lemma NoInvokeNoEvents(events: seq<DiagnosticEvent>, ops: seq<Operation>, i: nat)
    requires i < |ops| && !ops[i].InvokeContract?
    ensures EventsOf(events, ops, i) == []
  {
  }
}
