/**
 Flattening an authorization tree into a depth-labelled list (crates/core/src/decode/auth.rs).
 */
module Auth {
  import opened Common

  // The authorized call: contract and argument texts are those the reader sees.
  datatype AuthFunction = ContractFn(contract: string, name: string, args: seq<string>) | CreateContract

  datatype Invocation = Invocation(function': AuthFunction, subs: seq<Invocation>)

  datatype Kind = ContractFnKind | CreateContractKind

  datatype Item = Item(
    depth: nat,
    kind: Kind,
    contract: Option<string>,
    functionName: Option<string>,
    argCount: nat,
    args: seq<string>,
    target: string)

  function Join(parts: seq<string>, sep: string): string {
    if parts == [] then []
    else if |parts| == 1 then parts[0]
    else parts[0] + sep + Join(parts[1..], sep)
  }

  function ParseFunction(f: AuthFunction, depth: nat): Item {
    match f
    case ContractFn(contract, name, args) =>
      Item(depth, ContractFnKind, Some(contract), Some(name), |args|, args,
           contract + "." + name + "(" + Join(args, ", ") + ")")
    case CreateContract => Item(depth, CreateContractKind, None, None, 0, [], "create_contract")
  }

  // Preorder with depths.
  function Flatten(t: Invocation, depth: nat): seq<Item>
    decreases t, 0
  {
    [ParseFunction(t.function', depth)] + FlattenAll(t.subs, depth + 1)
  }

  function FlattenAll(ts: seq<Invocation>, depth: nat): seq<Item>
    decreases ts, 0
  {
    if ts == [] then [] else Flatten(ts[0], depth) + FlattenAll(ts[1..], depth)
  }

  class Walker {
    var out: seq<Item>

    constructor ()
      ensures out == []
    {
      out := [];
    }

    /** Appends the invocation and everything below it. */
    method WalkInvocation(t: Invocation, depth: nat)
      modifies this
      ensures out == old(out) + Flatten(t, depth)
      decreases t, 0
    {
      out := out + [ParseFunction(t.function', depth)];
      WalkSubs(t.subs, depth + 1);
    }

    method WalkSubs(ts: seq<Invocation>, depth: nat)
      modifies this
      ensures out == old(out) + FlattenAll(ts, depth)
      decreases ts, 0
    {
      for i := 0 to |ts|
        invariant out + FlattenAll(ts[i..], depth) == old(out) + FlattenAll(ts, depth)
      {
        assert ts[i..][1..] == ts[i + 1..];
        WalkInvocation(ts[i], depth);
      }
    }
  }

  /* What the items say. */

  // The functions of a tree, each before those it calls.
  function Functions(t: Invocation): seq<AuthFunction>
    decreases t, 0
  {
    [t.function'] + FunctionsOfAll(t.subs)
  }

  function FunctionsOfAll(ts: seq<Invocation>): seq<AuthFunction>
    decreases ts, 0
  {
    if ts == [] then [] else Functions(ts[0]) + FunctionsOfAll(ts[1..])
  }

  // One text after the other, with the separator in front of each but the first.
  function ListText(parts: seq<string>, sep: string): string {
    if parts == [] then ""
    else if |parts| == 1 then parts[0]
    else ListText(parts[..|parts| - 1], sep) + sep + parts[|parts| - 1]
  }

  predicate Tells(item: Item, f: AuthFunction) {
    match f
    case ContractFn(contract, name, args) =>
      && item.kind == ContractFnKind && item.contract == Some(contract) && item.functionName == Some(name)
      && item.args == args && item.argCount == |args|
      && item.target == contract + "." + name + "(" + ListText(args, ", ") + ")"
    case CreateContract =>
      && item.kind == CreateContractKind && item.contract.None? && item.functionName.None?
      && item.args == [] && item.argCount == 0 && item.target == "create_contract"
  }

  predicate TellAll(items: seq<Item>, fs: seq<AuthFunction>) {
    |items| == |fs| && forall i :: 0 <= i < |items| ==> Tells(items[i], fs[i])
  }

  lemma {:induction false} JoinIsList(parts: seq<string>, sep: string)
    ensures Join(parts, sep) == ListText(parts, sep)
    decreases |parts|
  {
    if |parts| > 1 {
      var init, last := parts[..|parts| - 1], parts[|parts| - 1];
      assert parts == init + [last];
      JoinIsList(init, sep);
      JoinStep(init, last, sep);
    }
  }

  lemma {:induction false} JoinStep(parts: seq<string>, x: string, sep: string)
    requires parts != []
    ensures Join(parts + [x], sep) == Join(parts, sep) + sep + x
    decreases |parts|
  {
    hide Join;
    var first, rest := parts[0], parts[1..];
    assert parts == [first] + rest && parts + [x] == [first] + (rest + [x]);
    JoinCons(first, rest, sep);
    JoinCons(first, rest + [x], sep);
    if rest == [] {
      assert rest + [x] == [x];
      JoinCons(x, [], sep);
      assert parts == [first];
    } else {
      JoinStep(rest, x, sep);
      Regroup(first + sep, Join(rest, sep), sep, x);
    }
  }

  lemma JoinCons(first: string, rest: seq<string>, sep: string)
    ensures Join([first], sep) == first
    ensures rest != [] ==> Join([first] + rest, sep) == first + sep + Join(rest, sep)
  {
    assert ([first] + rest)[1..] == rest;
  }

  lemma Regroup(a: string, b: string, c: string, d: string)
    ensures a + (b + c + d) == a + b + c + d
  {
  }

  lemma FunctionTold(f: AuthFunction, depth: nat)
    ensures Tells(ParseFunction(f, depth), f)
  {
    hide Join, ListText;
    if f.ContractFn? {
      JoinIsList(f.args, ", ");
    }
  }

  lemma {:induction false} TreeTold(t: Invocation, depth: nat)
    ensures TellAll(Flatten(t, depth), Functions(t))
    decreases t, 0
  {
    hide Tells, ParseFunction;
    FunctionTold(t.function', depth);
    ForestTold(t.subs, depth + 1);
  }

  lemma {:induction false} ForestTold(ts: seq<Invocation>, depth: nat)
    ensures TellAll(FlattenAll(ts, depth), FunctionsOfAll(ts))
    decreases ts, 0
  {
    hide Tells, ParseFunction;
    if ts != [] {
      TreeTold(ts[0], depth);
      ForestTold(ts[1..], depth);
    }
  }

  /** The invocations of an authorization entry. */
  method FromEntry(root: Invocation) returns (items: seq<Item>)
    ensures items == Flatten(root, 0)
    ensures TellAll(items, Functions(root))
  {
    TreeTold(root, 0);
    var w := new Walker();
    w.WalkInvocation(root, 0);
    items := w.out;
  }

  /* The inverse. */

  function FunctionOf(item: Item): AuthFunction {
    match item.kind
    case ContractFnKind => ContractFn(item.contract.GetOr(""), item.functionName.GetOr(""), item.args)
    case CreateContractKind => CreateContract
  }

  // The trees at this depth at the front of the list, and what follows them.
  function ReadForest(items: seq<Item>, depth: nat): (r: (seq<Invocation>, seq<Item>))
    ensures |r.1| <= |items|
    decreases |items|
  {
    if items == [] || items[0].depth != depth then ([], items)
    else
      var (subs, rest) := ReadForest(items[1..], depth + 1);
      var (ts, rest') := ReadForest(rest, depth);
      ([Invocation(FunctionOf(items[0]), subs)] + ts, rest')
  }

  function Rebuild(items: seq<Item>): Option<Invocation> {
    var (ts, rest) := ReadForest(items, 0);
    if |ts| == 1 && rest == [] then Some(ts[0]) else None
  }

  // The list goes on with something that does not belong to a forest at this depth.
  predicate Ends(rest: seq<Item>, depth: nat) {
    rest == [] || rest[0].depth < depth
  }

  lemma FlattenStarts(t: Invocation, depth: nat)
    ensures Flatten(t, depth) != [] && Flatten(t, depth)[0].depth == depth
    ensures ParseFunction(t.function', depth).depth == depth
    ensures FunctionOf(ParseFunction(t.function', depth)) == t.function'
  {
    hide Join;
  }

  lemma ReadCons(items: seq<Item>, depth: nat)
    requires items != [] && items[0].depth == depth
    ensures var subs := ReadForest(items[1..], depth + 1);
      var more := ReadForest(subs.1, depth);
      ReadForest(items, depth) == ([Invocation(FunctionOf(items[0]), subs.0)] + more.0, more.1)
  {
    hide FunctionOf;
  }

  lemma FlattenCons(t: Invocation, ts: seq<Invocation>, depth: nat)
    ensures FlattenAll([t] + ts, depth) ==
      [ParseFunction(t.function', depth)] + FlattenAll(t.subs, depth + 1) + FlattenAll(ts, depth)
  {
    hide ParseFunction;
    assert ([t] + ts)[1..] == ts;
  }

  lemma {:induction false} ReadBack(ts: seq<Invocation>, depth: nat, rest: seq<Item>)
    requires Ends(rest, depth)
    ensures ReadForest(FlattenAll(ts, depth) + rest, depth) == (ts, rest)
    decreases ts, 0
  {
    hide ParseFunction, FunctionOf;
    if ts == [] {
      assert FlattenAll(ts, depth) + rest == rest;
    } else {
      hide ReadForest, FlattenAll;
      var t := ts[0];
      var after := FlattenAll(ts[1..], depth) + rest;
      var all := FlattenAll(ts, depth) + rest;
      assert [t] + ts[1..] == ts;
      FlattenCons(t, ts[1..], depth);
      FlattenStarts(t, depth);
      ConsParts(ParseFunction(t.function', depth), FlattenAll(t.subs, depth + 1), FlattenAll(ts[1..], depth), rest);
      AfterEnds(ts[1..], depth, rest);
      ReadSubsBack(t, depth, after);
      ReadBack(ts[1..], depth, rest);
      ReadCons(all, depth);
    }
  }

  lemma ConsParts<T>(x: T, a: seq<T>, b: seq<T>, c: seq<T>)
    ensures var all := [x] + a + b + c; all[0] == x && all[1..] == a + (b + c)
  {
  }

  lemma AfterEnds(ts: seq<Invocation>, depth: nat, rest: seq<Item>)
    requires Ends(rest, depth)
    ensures Ends(FlattenAll(ts, depth) + rest, depth + 1)
  {
    if ts != [] {
      FlattenStarts(ts[0], depth);
    } else {
      assert FlattenAll(ts, depth) + rest == rest;
    }
  }

  lemma {:induction false} ReadSubsBack(t: Invocation, depth: nat, after: seq<Item>)
    requires Ends(after, depth + 1)
    ensures ReadForest(FlattenAll(t.subs, depth + 1) + after, depth + 1) == (t.subs, after)
    decreases t, 0
  {
    ReadBack(t.subs, depth + 1, after);
  }

  /** Flattening loses nothing: the tree can be rebuilt from the list. */
  lemma RebuildInvertsFlatten(t: Invocation)
    ensures Rebuild(Flatten(t, 0)) == Some(t)
  {
    assert FlattenAll([t], 0) + [] == Flatten(t, 0) by {
      assert [t][1..] == [];
    }
    ReadBack([t], 0, []);
  }

  /* Which lists are flattened trees. */

  function Count(t: Invocation): nat
    decreases t, 0
  {
    1 + CountAll(t.subs)
  }

  function CountAll(ts: seq<Invocation>): nat
    decreases ts, 0
  {
    if ts == [] then 0 else Count(ts[0]) + CountAll(ts[1..])
  }

  // From one item to the next the depth rises by at most one.
  predicate Rises(items: seq<Item>) {
    forall i :: 0 < i < |items| ==> items[i].depth <= items[i - 1].depth + 1
  }

  predicate WellShaped(items: seq<Item>) {
    forall i :: 0 <= i < |items| ==> items[i] == ParseFunction(FunctionOf(items[i]), items[i].depth)
  }

  predicate IsPreorder(items: seq<Item>) {
    && items != [] && items[0].depth == 0
    && Rises(items)
    && (forall i :: 0 < i < |items| ==> items[i].depth > 0)
    && WellShaped(items)
  }

  lemma {:induction false} ForestShape(ts: seq<Invocation>, depth: nat)
    ensures var items := FlattenAll(ts, depth);
      && |items| == CountAll(ts)
      && (items != [] ==> items[0].depth == depth)
      && Rises(items) && WellShaped(items)
      && forall i :: 0 <= i < |items| ==> items[i].depth >= depth
    decreases ts, 0
  {
    hide Join;
    if ts != [] {
      var first, rest := Flatten(ts[0], depth), FlattenAll(ts[1..], depth);
      TreeShape(ts[0], depth);
      ForestShape(ts[1..], depth);
      assert FlattenAll(ts, depth) == first + rest;
    }
  }

  lemma {:induction false} TreeShape(t: Invocation, depth: nat)
    ensures var items := Flatten(t, depth);
      && |items| == Count(t)
      && items[0].depth == depth
      && Rises(items) && WellShaped(items)
      && forall i :: 0 < i < |items| ==> items[i].depth > depth
    decreases t, 0
  {
    hide Join;
    ForestShape(t.subs, depth + 1);
  }

  // Reading consumes exactly what it turns into trees.
  lemma {:induction false} ReadIsExact(items: seq<Item>, depth: nat)
    requires WellShaped(items)
    ensures var r := ReadForest(items, depth);
      FlattenAll(r.0, depth) + r.1 == items && WellShaped(r.1)
    decreases |items|
  {
    hide ParseFunction, FunctionOf;
    if items != [] && items[0].depth == depth {
      hide FlattenAll;
      ReadCons(items, depth);
      hide ReadForest;
      var subs := ReadForest(items[1..], depth + 1);
      ReadIsExact(items[1..], depth + 1);
      var more := ReadForest(subs.1, depth);
      ReadIsExact(subs.1, depth);
      FlattenCons(Invocation(FunctionOf(items[0]), subs.0), more.0, depth);
      Reassociate(items, FlattenAll(subs.0, depth + 1), FlattenAll(more.0, depth), more.1);
    } else {
      assert [] + items == items;
    }
  }

  lemma Reassociate<T>(s: seq<T>, a: seq<T>, b: seq<T>, c: seq<T>)
    requires s != [] && a + (b + c) == s[1..]
    ensures [s[0]] + a + b + c == s
  {
    assert [s[0]] + a + b + c == [s[0]] + (a + (b + c));
  }

  lemma {:induction false} ReadStops(items: seq<Item>, depth: nat)
    requires Rises(items) && (items != [] ==> items[0].depth <= depth)
    ensures Ends(ReadForest(items, depth).1, depth) && Rises(ReadForest(items, depth).1)
    decreases |items|
  {
    hide FunctionOf;
    if items != [] && items[0].depth == depth {
      ReadCons(items, depth);
      hide ReadForest;
      ReadStops(items[1..], depth + 1);
      ReadStops(ReadForest(items[1..], depth + 1).1, depth);
    }
  }

  /** The lists that flattening produces are exactly the preorders, and rebuilding is its inverse on them. */
  lemma PreordersAreTrees(items: seq<Item>)
    ensures IsPreorder(items) <==> Rebuild(items).Some? && Flatten(Rebuild(items).value, 0) == items
  {
    hide FunctionOf, ParseFunction, ReadForest;
    if IsPreorder(items) {
      ReadIsExact(items, 0);
      ReadStops(items, 0);
      var r := ReadForest(items, 0);
      OneRoot(r.0, items);
    }
    if Rebuild(items).Some? && Flatten(Rebuild(items).value, 0) == items {
      TreeShape(Rebuild(items).value, 0);
    }
  }

  // Only the first item is at depth 0: there is one root.
  lemma OneRoot(ts: seq<Invocation>, items: seq<Item>)
    requires items != [] && FlattenAll(ts, 0) + [] == items
    requires forall i :: 0 < i < |items| ==> items[i].depth > 0
    ensures |ts| == 1 && Flatten(ts[0], 0) == items
  {
    hide ParseFunction;
    assert FlattenAll(ts, 0) == items;
    var first, rest := Flatten(ts[0], 0), FlattenAll(ts[1..], 0);
    FlattenStarts(ts[0], 0);
    DeeperRest(first, rest, items);
    ForestStarts(ts[1..], 0);
    assert rest == [];
    assert items == first + [] == first;
  }

  lemma ForestStarts(ts: seq<Invocation>, depth: nat)
    ensures FlattenAll(ts, depth) == [] <==> ts == []
    ensures FlattenAll(ts, depth) != [] ==> FlattenAll(ts, depth)[0].depth == depth
  {
    if ts != [] {
      FlattenStarts(ts[0], depth);
    }
  }

  lemma DeeperRest(first: seq<Item>, rest: seq<Item>, items: seq<Item>)
    requires items == first + rest && first != []
    requires forall i :: 0 < i < |items| ==> items[i].depth > 0
    ensures rest == [] || rest[0].depth > 0
  {
    assert rest != [] ==> rest[0] == items[|first|];
  }

  /** Starts at 0, rises by at most one per step, one item per node. */
  lemma FlattenIsPreorder(t: Invocation)
    ensures IsPreorder(Flatten(t, 0)) && |Flatten(t, 0)| == Count(t)
  {
    TreeShape(t, 0);
  }
}
