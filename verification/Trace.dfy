/**
 Building the invocation tree from the host's trace events (crates/core/src/replay/trace.rs).
 */
module Trace {
  import opened Common
  import opened Brackets

  datatype EventType =
    | InvocationStart | InvocationEnd | HostFunctionCall | HostFunctionReturn
    | StorageRead | StorageWrite | AuthCheck | EventEmit | BudgetCheckpoint

  // `contractId` and `functionName` are the string members `contract_id` and `function` in the event's data, if any.
  datatype Event = Event(kind: EventType, contractId: Option<string>, functionName: Option<string>)

  // The fields of a ContractInvocation that the builder fills.
  datatype Invocation =
    Invocation(contractId: string, functionName: string, hostCalls: seq<string>, subs: seq<Invocation>)

  datatype State = State(roots: seq<Invocation>, stack: seq<Invocation>)

  function NewInvocation(e: Event): Invocation {
    Invocation(e.contractId.GetOr("unknown"), e.functionName.GetOr("unknown"), [], [])
  }

  function Step(s: State, e: Event): State {
    var n := |s.stack|;
    match e.kind
    case InvocationStart => s.(stack := s.stack + [NewInvocation(e)])
    case InvocationEnd =>
      if n == 0 then s
      else if n == 1 then State(s.roots + [s.stack[0]], [])
      else
        var parent := s.stack[n - 2];
        s.(stack := s.stack[..n - 2] + [parent.(subs := parent.subs + [s.stack[n - 1]])])
    case HostFunctionCall =>
      if n == 0 then s
      else
        var top := s.stack[n - 1];
        s.(stack := s.stack[..n - 1] + [top.(hostCalls := top.hostCalls + [e.functionName.GetOr("unknown")])])
    case _ => s
  }

  // The builder's state after a stream of events.
  function Fold(events: seq<Event>): State {
    if events == [] then State([], [])
    else Step(Fold(events[..|events| - 1]), events[|events| - 1])
  }

  /** One pass with a stack; invocations still open at the end are dropped. */
  method BuildTraceTree(events: seq<Event>) returns (roots: seq<Invocation>)
    ensures roots == Fold(events).roots
  {
    hide Step;
    roots := [];
    var stack: seq<Invocation> := [];
    for i := 0 to |events|
      invariant State(roots, stack) == Fold(events[..i])
    {
      assert events[..i + 1][..i] == events[..i];
      roots, stack := HandleEvent(roots, stack, events[i]);
    }
    assert events[..|events|] == events;
  }

  // The body of the loop.
  method HandleEvent(before: seq<Invocation>, open: seq<Invocation>, e: Event)
    returns (roots: seq<Invocation>, stack: seq<Invocation>)
    ensures State(roots, stack) == Step(State(before, open), e)
  {
    roots, stack := before, open;
    match e.kind {
      case InvocationStart =>
        stack := stack + [NewInvocation(e)];
      case InvocationEnd =>
        if stack != [] {
          var invocation := stack[|stack| - 1];
          stack := stack[..|stack| - 1];
          if stack != [] {
            var parent := stack[|stack| - 1];
            stack := stack[|stack| - 1 := parent.(subs := parent.subs + [invocation])];
          } else {
            roots := roots + [invocation];
          }
        }
      case HostFunctionCall =>
        if stack != [] {
          var current := stack[|stack| - 1];
          stack := stack[|stack| - 1 := current.(hostCalls := current.hostCalls + [e.functionName.GetOr("unknown")])];
        }
      case _ =>
    }
  }

  /* The meaning of a forest: what it says when read from left to right. */

  datatype Mark = Open(contractId: string, functionName: string) | Close | Host(functionName: string)

  // A call tree that still knows how host calls and sub-invocations alternate.
  datatype Node = Node(contractId: string, functionName: string, items: seq<Item>)
  datatype Item = Call(name: string) | Sub(node: Node)

  function FrameMarks(n: Node): seq<Mark>
    decreases n, 0
  {
    [Open(n.contractId, n.functionName)] + ItemsMarks(n.items)
  }

  function ItemMarks(item: Item): seq<Mark>
    decreases item, 0
  {
    match item
    case Call(name) => [Host(name)]
    case Sub(node) => FrameMarks(node) + [Close]
  }

  function ItemsMarks(items: seq<Item>): seq<Mark>
    decreases items, 0
  {
    if items == [] then []
    else ItemsMarks(items[..|items| - 1]) + ItemMarks(items[|items| - 1])
  }

  // What the builder keeps of a call tree: host calls and sub-invocations in two lists.
  function Erase(n: Node): Invocation
    decreases n, 0
  {
    Invocation(n.contractId, n.functionName, Calls(n.items), Subs(n.items))
  }

  function Calls(items: seq<Item>): seq<string> {
    if items == [] then []
    else
      var last := items[|items| - 1];
      Calls(items[..|items| - 1]) + if last.Call? then [last.name] else []
  }

  function Subs(items: seq<Item>): seq<Invocation>
    decreases items, 0
  {
    if items == [] then []
    else
      var last := items[|items| - 1];
      Subs(items[..|items| - 1]) + SubOf(last)
  }

  function SubOf(item: Item): seq<Invocation>
    decreases item, 0
  {
    if item.Sub? then [Erase(item.node)] else []
  }

  // A forest as the items of an anonymous top level without host calls.
  predicate IsForest(items: seq<Item>) {
    forall i :: 0 <= i < |items| ==> items[i].Sub?
  }

  /* The events that matter: every start, the ends that close something, host calls inside something. */

  function Depth(events: seq<Event>): nat {
    if events == [] then 0
    else
      var d, e := Depth(events[..|events| - 1]), events[|events| - 1];
      if e.kind.InvocationStart? then d + 1
      else if e.kind.InvocationEnd? && d > 0 then d - 1
      else d
  }

  predicate IsStart(e: Event) {
    e.kind.InvocationStart?
  }

  predicate IsEnd(e: Event) {
    e.kind.InvocationEnd?
  }

  /** The depth is the number of invocations that have started and not ended. */
  lemma {:induction false} DepthIsRunning(events: seq<Event>, n: nat) returns (open: seq<nat>)
    requires n <= |events|
    ensures Nested(open, events, n, IsStart, IsEnd)
    ensures Depth(events[..n]) == |open|
    decreases n
  {
    hide AreOpen;
    if n == 0 {
      open := [];
      NothingOpen(events, IsStart, IsEnd);
    } else {
      var before := DepthIsRunning(events, n - 1);
      OpenNext(before, events, n - 1, IsStart, IsEnd);
      open := Next(before, events, n - 1, IsStart, IsEnd);
      assert events[..n][..n - 1] == events[..n - 1];
    }
  }

  function Matters(e: Event, depth: nat): seq<Mark> {
    match e.kind
    case InvocationStart => [Open(e.contractId.GetOr("unknown"), e.functionName.GetOr("unknown"))]
    case InvocationEnd => if depth > 0 then [Close] else []
    case HostFunctionCall => if depth > 0 then [Host(e.functionName.GetOr("unknown"))] else []
    case _ => []
  }

  function Relevant(events: seq<Event>): seq<Mark> {
    if events == [] then []
    else
      var before := events[..|events| - 1];
      Relevant(before) + Matters(events[|events| - 1], Depth(before))
  }

  /* The builder keeps the order of host calls and sub-invocations only within each list; this
     companion of the builder's state keeps all of it. */

  datatype Full = Full(roots: seq<Item>, stack: seq<Node>)

  function FullStep(s: Full, e: Event): Full {
    var n := |s.stack|;
    match e.kind
    case InvocationStart =>
      s.(stack := s.stack + [Node(e.contractId.GetOr("unknown"), e.functionName.GetOr("unknown"), [])])
    case InvocationEnd =>
      if n == 0 then s
      else if n == 1 then Full(s.roots + [Sub(s.stack[0])], [])
      else
        var parent := s.stack[n - 2];
        s.(stack := s.stack[..n - 2] + [parent.(items := parent.items + [Sub(s.stack[n - 1])])])
    case HostFunctionCall =>
      if n == 0 then s
      else
        var top := s.stack[n - 1];
        s.(stack := s.stack[..n - 1] + [top.(items := top.items + [Call(e.functionName.GetOr("unknown"))])])
    case _ => s
  }

  function FullFold(events: seq<Event>): Full {
    if events == [] then Full([], [])
    else FullStep(FullFold(events[..|events| - 1]), events[|events| - 1])
  }

  function EraseAll(stack: seq<Node>): (r: seq<Invocation>)
    ensures |r| == |stack| && forall i :: 0 <= i < |stack| ==> r[i] == Erase(stack[i])
  {
    seq(|stack|, i requires 0 <= i < |stack| => Erase(stack[i]))
  }

  function StackMarks(stack: seq<Node>): seq<Mark> {
    if stack == [] then []
    else StackMarks(stack[..|stack| - 1]) + FrameMarks(stack[|stack| - 1])
  }

  function FullMarks(s: Full): seq<Mark> {
    ItemsMarks(s.roots) + StackMarks(s.stack)
  }

  lemma Nothing()
    ensures Calls([]) == [] && Subs([]) == [] && ItemsMarks([]) == [] && StackMarks([]) == [] && SizeAll([]) == 0
  {
  }

  lemma LastItem(items: seq<Item>, item: Item)
    ensures (items + [item])[..|items|] == items
    ensures ItemsMarks(items + [item]) == ItemsMarks(items) + ItemMarks(item)
    ensures Calls(items + [item]) == Calls(items) + if item.Call? then [item.name] else []
    ensures Subs(items + [item]) == Subs(items) + SubOf(item)
  {
    assert (items + [item])[..|items|] == items;
  }

  lemma LastFrame(stack: seq<Node>, n: Node)
    ensures (stack + [n])[..|stack|] == stack
    ensures StackMarks(stack + [n]) == StackMarks(stack) + FrameMarks(n)
  {
    assert (stack + [n])[..|stack|] == stack;
  }

  // The companion erases to the builder's own state.
  lemma {:induction false} FullErases(events: seq<Event>)
    ensures var f := FullFold(events);
      Fold(events) == State(Subs(f.roots), EraseAll(f.stack)) && IsForest(f.roots) && |f.stack| == Depth(events)
  {
    if events != [] {
      var before := events[..|events| - 1];
      FullErases(before);
      EraseStep(FullFold(before), events[|events| - 1]);
    }
  }

  lemma EraseSub(parent: Node, top: Node)
    ensures Erase(parent.(items := parent.items + [Sub(top)])) ==
      Erase(parent).(subs := Erase(parent).subs + [Erase(top)])
  {
    LastItem(parent.items, Sub(top));
  }

  lemma EraseCall(top: Node, name: string)
    ensures Erase(top.(items := top.items + [Call(name)])) ==
      Erase(top).(hostCalls := Erase(top).hostCalls + [name])
  {
    LastItem(top.items, Call(name));
  }

  lemma EraseStep(f: Full, e: Event)
    requires IsForest(f.roots)
    ensures var f' := FullStep(f, e);
      && Step(State(Subs(f.roots), EraseAll(f.stack)), e) == State(Subs(f'.roots), EraseAll(f'.stack))
      && IsForest(f'.roots)
  {
    hide Calls, Subs, EraseAll;
    var n := |f.stack|;
    match e.kind
    case InvocationStart =>
      Nothing();
      EraseUpdate(f.stack, n, FullStep(f, e).stack[n]);
    case InvocationEnd =>
      if n == 1 {
        LastItem(f.roots, Sub(f.stack[0]));
        assert SubOf(Sub(f.stack[0])) == [Erase(f.stack[0])];
        assert EraseAll([]) == [];
      } else if n > 1 {
        EraseSub(f.stack[n - 2], f.stack[n - 1]);
        EraseUpdate(f.stack, n - 2, FullStep(f, e).stack[n - 2]);
      }
    case HostFunctionCall =>
      if n > 0 {
        EraseCall(f.stack[n - 1], e.functionName.GetOr("unknown"));
        EraseUpdate(f.stack, n - 1, FullStep(f, e).stack[n - 1]);
      }
    case _ =>
  }

  // Cutting the stack at k and putting one frame there.
  lemma EraseUpdate(stack: seq<Node>, k: nat, n: Node)
    requires k <= |stack|
    ensures EraseAll(stack[..k] + [n]) == EraseAll(stack)[..k] + [Erase(n)]
  {
  }

  // Read from left to right, the companion says exactly the events that matter.
  lemma {:induction false} FullReads(events: seq<Event>)
    ensures FullMarks(FullFold(events)) == Relevant(events)
  {
    if events != [] {
      var before := events[..|events| - 1];
      FullReads(before);
      FullErases(before);
      ReadStep(FullFold(before), events[|events| - 1]);
    }
  }

  lemma ReadStep(f: Full, e: Event)
    ensures FullMarks(FullStep(f, e)) == FullMarks(f) + Matters(e, |f.stack|)
  {
    hide StackMarks, ItemsMarks;
    var n := |f.stack|;
    match e.kind
    case InvocationStart =>
      Nothing();
      LastFrame(f.stack, FullStep(f, e).stack[n]);
    case InvocationEnd =>
      if n > 0 {
        CloseStep(f);
      }
    case HostFunctionCall =>
      if n > 0 {
        var top := f.stack[n - 1];
        assert f.stack == f.stack[..n - 1] + [top];
        LastItem(top.items, Call(e.functionName.GetOr("unknown")));
        LastFrame(f.stack[..n - 1], top);
        LastFrame(f.stack[..n - 1], FullStep(f, e).stack[n - 1]);
      }
    case _ =>
  }

  lemma CloseStep(f: Full)
    requires f.stack != []
    ensures FullMarks(FullStep(f, Event(InvocationEnd, None, None))) == FullMarks(f) + [Close]
  {
    hide StackMarks, ItemsMarks;
    var n := |f.stack|;
    var top := f.stack[n - 1];
    assert f.stack == f.stack[..n - 1] + [top];
    LastFrame(f.stack[..n - 1], top);
    if n == 1 {
      LastItem(f.roots, Sub(top));
      assert f.stack[..0] == [] && StackMarks([]) == [] by { Nothing(); }
    } else {
      var parent := f.stack[n - 2];
      assert f.stack[..n - 1] == f.stack[..n - 2] + [parent];
      LastFrame(f.stack[..n - 2], parent);
      LastItem(parent.items, Sub(top));
      LastFrame(f.stack[..n - 2], parent.(items := parent.items + [Sub(top)]));
    }
  }

  /* Main results. */

  /** Any stream: the events that matter spell out one call forest and one chain of open invocations, in exactly one
      way, and the builder's output is that forest, with the open chain left out. */
  lemma TreeReadsEvents(events: seq<Event>) returns (forest: seq<Item>, open: seq<Node>)
    ensures IsForest(forest) && |open| == Depth(events)
    ensures Relevant(events) == ItemsMarks(forest) + StackMarks(open)
    ensures forall forest', open' :: Relevant(events) == ItemsMarks(forest') + StackMarks(open') ==>
      forest' == forest && open' == open
    ensures Fold(events).roots == Subs(forest)
  {
    FullErases(events);
    FullReads(events);
    forest, open := FullFold(events).roots, FullFold(events).stack;
    forall forest', open' | Relevant(events) == ItemsMarks(forest') + StackMarks(open')
      ensures forest' == forest && open' == open
    {
      OneReading(forest', open', forest, open);
    }
  }

  /** A text is spelled out by at most one forest followed by one chain of open invocations. */
  lemma {:induction false} OneReading(forest: seq<Item>, open: seq<Node>, forest': seq<Item>, open': seq<Node>)
    requires ItemsMarks(forest) + StackMarks(open) == ItemsMarks(forest') + StackMarks(open')
    ensures forest == forest' && open == open'
    decreases |open|
  {
    hide ItemsMarks, StackMarks;
    var pre, last := LastOpen(forest, open);
    var pre', last' := LastOpen(forest', open');
    MarksDetermineItems(pre, last, pre', last');
    if open != [] {
      var n, n' := |open| - 1, |open'| - 1;
      AppendCancel(pre[..|pre| - 1], pre[|pre| - 1], pre'[..|pre'| - 1], pre'[|pre'| - 1]);
      assert pre == pre[..|pre| - 1] + [pre[|pre| - 1]];
      OneReading(forest, open[..n], forest', open'[..n']);
      assert open == open[..n] + [open[n]] && open' == open'[..n'] + [open'[n']];
    }
  }

  // The innermost open items, and the text before them.
  lemma LastOpen(forest: seq<Item>, open: seq<Node>) returns (pre: seq<Mark>, last: seq<Item>)
    ensures ItemsMarks(forest) + StackMarks(open) == pre + ItemsMarks(last) && EndsOpen(pre)
    ensures pre == [] <==> open == []
    ensures open == [] ==> last == forest
    ensures open != [] ==>
      var n := |open| - 1;
      && last == open[n].items
      && pre == ItemsMarks(forest) + StackMarks(open[..n]) + [Open(open[n].contractId, open[n].functionName)]
  {
    hide ItemsMarks, StackMarks;
    if open == [] {
      Nothing();
      pre, last := [], forest;
      assert ItemsMarks(forest) + [] == [] + ItemsMarks(forest);
    } else {
      var n := |open| - 1;
      var top := open[n];
      assert open == open[..n] + [top];
      LastFrame(open[..n], top);
      pre, last := ItemsMarks(forest) + StackMarks(open[..n]) + [Open(top.contractId, top.functionName)], top.items;
    }
  }

  /** Building inverts linearisation: a stream whose relevant events spell out a forest yields that forest. */
  lemma BuildInvertsLinearisation(events: seq<Event>, forest: seq<Item>)
    requires IsForest(forest) && Relevant(events) == ItemsMarks(forest)
    ensures Fold(events) == State(Subs(forest), [])
  {
    FullErases(events);
    FullReads(events);
    var f := FullFold(events);
    if f.stack != [] {
      OpenIsNotForest(f, forest);
    } else {
      Nothing();
      assert ItemsMarks(f.roots) == ItemsMarks(forest);
      assert [] + ItemsMarks(f.roots) == [] + ItemsMarks(forest);
      MarksDetermineItems([], f.roots, [], forest);
    }
  }

  // More opens than closes cannot spell a forest.
  lemma OpenIsNotForest(f: Full, forest: seq<Item>)
    requires f.stack != []
    ensures FullMarks(f) != ItemsMarks(forest)
  {
    hide StackMarks, ItemsMarks;
    var n := |f.stack| - 1;
    var top := f.stack[n];
    assert f.stack == f.stack[..n] + [top];
    LastFrame(f.stack[..n], top);
    var pre := ItemsMarks(f.roots) + StackMarks(f.stack[..n]) + [Open(top.contractId, top.functionName)];
    assert FullMarks(f) == pre + ItemsMarks(top.items);
    if FullMarks(f) == ItemsMarks(forest) {
      assert [] + ItemsMarks(forest) == ItemsMarks(forest);
      MarksDetermineItems(pre, top.items, [], forest);
    }
  }

  // A text that is empty or ends in an opening: nothing in it belongs to the items that follow.
  predicate EndsOpen(pre: seq<Mark>) {
    pre == [] || pre[|pre| - 1].Open?
  }

  lemma EndOf(pre: seq<Mark>, items: seq<Item>)
    ensures var all := pre + ItemsMarks(items);
      if items == [] then all == pre
      else all != [] && !all[|all| - 1].Open? && (all[|all| - 1].Host? <==> items[|items| - 1].Call?)
  {
    if items == [] {
      assert pre + [] == pre;
    } else {
      var n := |items| - 1;
      var last := ItemMarks(items[n]);
      assert pre + ItemsMarks(items) == (pre + ItemsMarks(items[..n])) + last;
    }
  }

  lemma {:induction false} MarksDetermineItems(pre: seq<Mark>, a: seq<Item>, pre': seq<Mark>, b: seq<Item>)
    requires EndsOpen(pre) && EndsOpen(pre') && pre + ItemsMarks(a) == pre' + ItemsMarks(b)
    ensures pre == pre' && a == b
    decreases a, 1
  {
    hide ItemsMarks;
    EndOf(pre, a);
    EndOf(pre', b);
    if a != [] && b != [] {
      var x, y := a[|a| - 1], b[|b| - 1];
      assert a == a[..|a| - 1] + [x] && b == b[..|b| - 1] + [y];
      LastItem(a[..|a| - 1], x);
      LastItem(b[..|b| - 1], y);
      if x.Call? {
        CallsAgree(pre, a[..|a| - 1], x, pre', b[..|b| - 1], y);
        MarksDetermineItems(pre, a[..|a| - 1], pre', b[..|b| - 1]);
      } else {
        SubsSplit(pre, a[..|a| - 1], x.node, pre', b[..|b| - 1], y.node);
        NodesAgree(Opened(pre, a[..|a| - 1], x.node), x, Opened(pre', b[..|b| - 1], y.node), y);
        OpenedAgree(pre, a[..|a| - 1], x.node, pre', b[..|b| - 1], y.node);
        MarksDetermineItems(pre, a[..|a| - 1], pre', b[..|b| - 1]);
      }
    }
  }

  lemma {:induction false} NodesAgree(pre: seq<Mark>, x: Item, pre': seq<Mark>, y: Item)
    requires x.Sub? && y.Sub? && EndsOpen(pre) && EndsOpen(pre')
    requires pre + ItemsMarks(x.node.items) == pre' + ItemsMarks(y.node.items)
    ensures pre == pre' && x.node.items == y.node.items
    decreases x, 0
  {
    hide ItemsMarks;
    MarksDetermineItems(pre, x.node.items, pre', y.node.items);
  }

  lemma CallsAgree(pre: seq<Mark>, a: seq<Item>, x: Item, pre': seq<Mark>, b: seq<Item>, y: Item)
    requires x.Call? && y.Call?
    requires pre + (ItemsMarks(a) + ItemMarks(x)) == pre' + (ItemsMarks(b) + ItemMarks(y))
    ensures x == y && pre + ItemsMarks(a) == pre' + ItemsMarks(b)
  {
    hide ItemsMarks;
    AppendCancel(pre + ItemsMarks(a), Host(x.name), pre' + ItemsMarks(b), Host(y.name));
    assert pre + (ItemsMarks(a) + ItemMarks(x)) == (pre + ItemsMarks(a)) + [Host(x.name)];
    assert pre' + (ItemsMarks(b) + ItemMarks(y)) == (pre' + ItemsMarks(b)) + [Host(y.name)];
  }

  lemma AppendCancel<T>(s: seq<T>, x: T, t: seq<T>, y: T)
    ensures s + [x] == t + [y] ==> s == t && x == y
  {
    if s + [x] == t + [y] {
      assert s == (s + [x])[..|s|] && t == (t + [y])[..|t|];
      assert (s + [x])[|s|] == (t + [y])[|t|];
    }
  }

  // Everything up to and including the opening of the last sub-invocation.
  function Opened(pre: seq<Mark>, items: seq<Item>, n: Node): seq<Mark> {
    pre + ItemsMarks(items) + [Open(n.contractId, n.functionName)]
  }

  lemma SubMarks(pre: seq<Mark>, items: seq<Item>, n: Node)
    ensures pre + (ItemsMarks(items) + ItemMarks(Sub(n))) == (Opened(pre, items, n) + ItemsMarks(n.items)) + [Close]
  {
  }

  lemma SubsSplit(pre: seq<Mark>, a: seq<Item>, x: Node, pre': seq<Mark>, b: seq<Item>, y: Node)
    requires pre + (ItemsMarks(a) + ItemMarks(Sub(x))) == pre' + (ItemsMarks(b) + ItemMarks(Sub(y)))
    ensures Opened(pre, a, x) + ItemsMarks(x.items) == Opened(pre', b, y) + ItemsMarks(y.items)
    ensures EndsOpen(Opened(pre, a, x)) && EndsOpen(Opened(pre', b, y))
  {
    hide ItemsMarks, ItemMarks;
    SubMarks(pre, a, x);
    SubMarks(pre', b, y);
    AppendCancel(Opened(pre, a, x) + ItemsMarks(x.items), Close, Opened(pre', b, y) + ItemsMarks(y.items), Close);
  }

  lemma OpenedAgree(pre: seq<Mark>, a: seq<Item>, x: Node, pre': seq<Mark>, b: seq<Item>, y: Node)
    requires Opened(pre, a, x) == Opened(pre', b, y) && x.items == y.items
    ensures x == y && pre + ItemsMarks(a) == pre' + ItemsMarks(b)
  {
    hide ItemsMarks;
    AppendCancel(pre + ItemsMarks(a), Open(x.contractId, x.functionName),
                 pre' + ItemsMarks(b), Open(y.contractId, y.functionName));
  }

  /* Conservation. */

  function Size(t: Invocation): nat
    decreases t, 0
  {
    1 + SizeAll(t.subs)
  }

  function SizeAll(ts: seq<Invocation>): nat
    decreases ts, 0
  {
    if ts == [] then 0 else SizeAll(ts[..|ts| - 1]) + Size(ts[|ts| - 1])
  }

  function Starts(events: seq<Event>): nat {
    if events == [] then 0
    else Starts(events[..|events| - 1]) + if events[|events| - 1].kind.InvocationStart? then 1 else 0
  }

  lemma SizeLast(ts: seq<Invocation>, t: Invocation)
    ensures SizeAll(ts + [t]) == SizeAll(ts) + Size(t)
  {
    assert (ts + [t])[..|ts|] == ts;
  }

  /** No invocation is lost or made up: returned nodes plus nodes still open are the starts seen. */
  lemma {:induction false} NodesAreStarts(events: seq<Event>)
    ensures SizeAll(Fold(events).roots) + SizeAll(Fold(events).stack) == Starts(events)
  {
    if events != [] {
      var before := events[..|events| - 1];
      NodesAreStarts(before);
      SizeStep(Fold(before), events[|events| - 1]);
    }
  }

  lemma SizeStep(s: State, e: Event)
    ensures var s' := Step(s, e);
      SizeAll(s'.roots) + SizeAll(s'.stack) ==
      SizeAll(s.roots) + SizeAll(s.stack) + if e.kind.InvocationStart? then 1 else 0
  {
    hide SizeAll;
    var n := |s.stack|;
    match e.kind
    case InvocationStart =>
      SizeLast(s.stack, NewInvocation(e));
      Nothing();
    case InvocationEnd =>
      if n == 1 {
        assert s.stack == [] + [s.stack[0]];
        SizeLast([], s.stack[0]);
        SizeLast(s.roots, s.stack[0]);
        Nothing();
      } else if n > 1 {
        var parent, top := s.stack[n - 2], s.stack[n - 1];
        assert s.stack == (s.stack[..n - 2] + [parent]) + [top];
        SizeLast(s.stack[..n - 2] + [parent], top);
        SizeLast(s.stack[..n - 2], parent);
        SizeLast(parent.subs, top);
        SizeLast(s.stack[..n - 2], parent.(subs := parent.subs + [top]));
      }
    case HostFunctionCall =>
      if n > 0 {
        var top := s.stack[n - 1];
        assert s.stack == s.stack[..n - 1] + [top];
        SizeLast(s.stack[..n - 1], top);
        SizeLast(s.stack[..n - 1], Step(s, e).stack[n - 1]);
      }
    case _ =>
  }

}
