/**
 Events that open and close, as brackets: which of the opening ones are still open.
 */
module Brackets {

  function Move<T>(e: T, up: T -> bool, down: T -> bool): int {
    (if up(e) then 1 else 0) - if down(e) then 1 else 0
  }

  // Opening events less closing ones, from i up to k.
  function Surplus<T>(s: seq<T>, i: nat, k: nat, up: T -> bool, down: T -> bool): int
    requires i <= k <= |s|
  {
    if i == k then 0 else Surplus(s, i, k - 1, up, down) + Move(s[k - 1], up, down)
  }

  // The event at i opens something that nothing closes before n.
  predicate IsOpen<T>(s: seq<T>, i: nat, n: nat, up: T -> bool, down: T -> bool)
    requires n <= |s|
  {
    i < n && up(s[i]) && forall k :: i < k <= n ==> Surplus(s, i, k, up, down) > 0
  }

  // The open events before n, from the outermost to the innermost.
  ghost predicate AreOpen<T>(open: seq<nat>, s: seq<T>, n: nat, up: T -> bool, down: T -> bool)
    requires n <= |s|
  {
    && (forall k :: 0 <= k < |open| ==> open[k] < n)
    && (forall a, b :: 0 <= a < b < |open| ==> open[a] < open[b])
    && forall i: nat :: i in open <==> IsOpen(s, i, n, up, down)
  }

  // Behind the k-th of them, as many are open as there are from there on.
  ghost predicate Nested<T>(open: seq<nat>, s: seq<T>, n: nat, up: T -> bool, down: T -> bool)
    requires n <= |s|
  {
    && AreOpen(open, s, n, up, down)
    && forall k :: 0 <= k < |open| ==> Surplus(s, open[k], n, up, down) == |open| - k
  }

  lemma NothingOpen<T>(s: seq<T>, up: T -> bool, down: T -> bool)
    ensures Nested([], s, 0, up, down)
  {
  }

  lemma StillOpen<T>(s: seq<T>, i: nat, n: nat, up: T -> bool, down: T -> bool)
    requires n < |s|
    ensures IsOpen(s, i, n + 1, up, down) <==>
      if i == n then up(s[n]) && !down(s[n])
      else IsOpen(s, i, n, up, down) && Surplus(s, i, n, up, down) + Move(s[n], up, down) > 0
  {
    if i < n {
      assert Surplus(s, i, n + 1, up, down) == Surplus(s, i, n, up, down) + Move(s[n], up, down);
    } else if i == n {
      assert Surplus(s, n, n + 1, up, down) == Surplus(s, n, n, up, down) + Move(s[n], up, down);
    }
  }

  // The innermost open event is the next to be closed.
  function Next<T>(open: seq<nat>, s: seq<T>, n: nat, up: T -> bool, down: T -> bool): seq<nat>
    requires n < |s|
  {
    if Move(s[n], up, down) > 0 then open + [n]
    else if Move(s[n], up, down) < 0 && open != [] then open[..|open| - 1]
    else open
  }

  lemma OpenNext<T>(open: seq<nat>, s: seq<T>, n: nat, up: T -> bool, down: T -> bool)
    requires n < |s| && Nested(open, s, n, up, down)
    ensures Nested(Next(open, s, n, up, down), s, n + 1, up, down)
  {
    hide IsOpen;
    var next := Next(open, s, n, up, down);
    forall i: nat ensures i in next <==> IsOpen(s, i, n + 1, up, down) {
      StillOpen(s, i, n, up, down);
      if i in open {
        var k :| 0 <= k < |open| && open[k] == i;
        assert i in next <==> |open| - k + Move(s[n], up, down) > 0 by { InNext(open, k, n, s, up, down); }
      } else {
        assert !IsOpen(s, i, n, up, down);
        assert i in next <==> i == n && Move(s[n], up, down) > 0;
      }
    }
    forall k | 0 <= k < |next|
      ensures next[k] < n + 1 && Surplus(s, next[k], n + 1, up, down) == |next| - k
    {
      if k < |open| {
        assert next[k] == open[k];
      } else {
        assert Surplus(s, n, n, up, down) == 0;
      }
    }
  }

  lemma InNext<T>(open: seq<nat>, k: nat, n: nat, s: seq<T>, up: T -> bool, down: T -> bool)
    requires k < |open| && n < |s| && open[k] < n
    requires forall a, b :: 0 <= a < b < |open| ==> open[a] < open[b]
    ensures open[k] in Next(open, s, n, up, down) <==> |open| - k + Move(s[n], up, down) > 0
  {
    var next := Next(open, s, n, up, down);
    if k < |next| {
      assert next[k] == open[k];
    }
  }

  // There is only one such list.
  lemma OpenUnique<T>(a: seq<nat>, b: seq<nat>, s: seq<T>, n: nat, up: T -> bool, down: T -> bool)
    requires n <= |s| && AreOpen(a, s, n, up, down) && AreOpen(b, s, n, up, down)
    ensures a == b
  {
    hide IsOpen;
    assert forall i: nat :: i in a <==> i in b;
    SameElements(a, b);
  }

  lemma {:induction false} SameElements(a: seq<nat>, b: seq<nat>)
    requires forall i, k :: 0 <= i < k < |a| ==> a[i] < a[k]
    requires forall i, k :: 0 <= i < k < |b| ==> b[i] < b[k]
    requires forall i: nat :: i in a <==> i in b
    ensures a == b
  {
    LastIn(a);
    LastIn(b);
    if a != [] && b != [] {
      var m, n := |a| - 1, |b| - 1;
      assert a[m] in b && b[n] in a;
      assert a[m] == b[n];
      forall i: nat ensures i in a[..m] <==> i in b[..n] {
        assert i in a[..m] <==> i in a && i != a[m];
        assert i in b[..n] <==> i in b && i != b[n];
      }
      SameElements(a[..m], b[..n]);
      assert a == a[..m] + [a[m]] && b == b[..n] + [b[n]];
    }
  }

  lemma LastIn(a: seq<nat>)
    ensures a != [] ==> a[|a| - 1] in a
  {
  }
}
