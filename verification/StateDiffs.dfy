/**
 The state difference of a replayed transaction (crates/core/src/replay/differ.rs), the fold of ledger changes it is
 taken from (sandbox.rs) and the byte totals of its profile (profiler.rs).
 */
module StateDiffs {
  import opened Common
  import Hex

  type Bytes = seq<Hex.byte>
  type Snapshot = map<string, Bytes>

  datatype LedgerChange = LedgerChange(readOnly: bool, key: Bytes, newValue: Option<Bytes>)

  datatype ChangeType = Created | Updated | Deleted | Unchanged

  datatype Entry = Entry(key: string, before: Option<string>, after: Option<string>, change: ChangeType)

  function Lookup(m: Snapshot, key: string): Option<Bytes> {
    if key in m then Some(m[key]) else None
  }

  function Store(m: Snapshot, key: string, value: Option<Bytes>): Snapshot {
    match value
    case Some(bytes) => m[key := bytes]
    case None => m - {key}
  }

  /* The final state. Keys are stored under their base64 text. */

  function FinalState(state: Snapshot, changes: seq<LedgerChange>, encode: Bytes -> string): Snapshot {
    if changes == [] then state
    else
      var last := changes[|changes| - 1];
      var before := FinalState(state, changes[..|changes| - 1], encode);
      if last.readOnly then before else Store(before, encode(last.key), last.newValue)
  }

  method ReplayChanges(state: Snapshot, changes: seq<LedgerChange>, encode: Bytes -> string)
    returns (finalState: Snapshot)
    ensures finalState == FinalState(state, changes, encode)
  {
    finalState := state;
    for i := 0 to |changes|
      invariant finalState == FinalState(state, changes[..i], encode)
    {
      assert changes[..i + 1][..i] == changes[..i];
      var change := changes[i];
      if change.readOnly {
        continue;
      }
      match change.newValue {
        case Some(newValue) => finalState := finalState[encode(change.key) := newValue];
        case None => finalState := finalState - {encode(change.key)};
      }
    }
    assert changes[..|changes|] == changes;
  }

  predicate Writes(change: LedgerChange, key: string, encode: Bytes -> string) {
    !change.readOnly && encode(change.key) == key
  }

  predicate NoneWrites(changes: seq<LedgerChange>, key: string, encode: Bytes -> string) {
    forall i :: 0 <= i < |changes| ==> !Writes(changes[i], key, encode)
  }

  /** A key no writable change names keeps its value. */
  lemma {:induction false} UnwrittenKept(state: Snapshot, changes: seq<LedgerChange>, encode: Bytes -> string,
        key: string)
    requires NoneWrites(changes, key, encode)
    ensures Lookup(FinalState(state, changes, encode), key) == Lookup(state, key)
  {
    if changes != [] {
      assert !Writes(changes[|changes| - 1], key, encode);
      UnwrittenKept(state, changes[..|changes| - 1], encode, key);
    }
  }

  /** Any other key ends up with what the last writable change naming it says. */
  lemma {:induction false} LastWriteWins(
      state: Snapshot, changes: seq<LedgerChange>, encode: Bytes -> string, key: string, i: nat)
    requires i < |changes| && Writes(changes[i], key, encode) && NoneWrites(changes[i + 1..], key, encode)
    ensures Lookup(FinalState(state, changes, encode), key) == changes[i].newValue
  {
    var n := |changes| - 1;
    if i < n {
      assert changes[i + 1..][n - i - 1] == changes[n];
      assert changes[..n][i + 1..] == changes[i + 1..][..n - i - 1];
      LastWriteWins(state, changes[..n], encode, key, i);
    }
  }

  /* The difference. */

  function HexOf(value: Option<Bytes>): Option<string> {
    match value
    case Some(bytes) => Some(Hex.Encode(bytes))
    case None => None
  }

  // One entry tells what the two states hold under its key.
  predicate Describes(e: Entry, before: Snapshot, after: Snapshot) {
    && (e.key in before || e.key in after)
    && e.before == HexOf(Lookup(before, e.key)) && e.after == HexOf(Lookup(after, e.key))
    && (e.change.Created? <==> e.key !in before)
    && (e.change.Deleted? <==> e.key !in after)
    && (e.change.Unchanged? <==> Lookup(before, e.key) == Lookup(after, e.key))
  }

  function KeysOf(entries: seq<Entry>): set<string> {
    set i | 0 <= i < |entries| :: entries[i].key
  }

  predicate DistinctKeys(entries: seq<Entry>) {
    forall i, j :: 0 <= i < j < |entries| ==> entries[i].key != entries[j].key
  }

  // Each key of either state has exactly one entry, and that entry describes it.
  predicate IsDiff(entries: seq<Entry>, before: Snapshot, after: Snapshot) {
    IsPartOfDiff(entries, before.Keys + after.Keys, before, after)
  }

  // A diff in the making: one entry for each of these keys, and it describes it.
  predicate IsPartOfDiff(entries: seq<Entry>, keys: set<string>, before: Snapshot, after: Snapshot) {
    && DistinctKeys(entries) && KeysOf(entries) == keys
    && forall i :: 0 <= i < |entries| ==> Describes(entries[i], before, after)
  }

  lemma AddEntry(entries: seq<Entry>, keys: set<string>, e: Entry, before: Snapshot, after: Snapshot)
    requires IsPartOfDiff(entries, keys, before, after) && e.key !in keys && Describes(e, before, after)
    ensures IsPartOfDiff(entries + [e], keys + {e.key}, before, after)
  {
    var all := entries + [e];
    assert all[|entries|] == e && forall i :: 0 <= i < |entries| ==> all[i] == entries[i];
    assert forall i :: 0 <= i < |entries| ==> entries[i].key in KeysOf(entries);
    assert KeysOf(all) == keys + {e.key} by {
      assert all[|entries|].key in KeysOf(all);
      forall k | k in keys ensures k in KeysOf(all) {
        var i :| 0 <= i < |entries| && entries[i].key == k;
        assert all[i].key == k;
      }
    }
  }

  /** The two loops over the states; a hash map is walked in no particular order. */
  method ComputeDiff(before: Snapshot, after: Snapshot) returns (entries: seq<Entry>)
    ensures IsDiff(entries, before, after)
    ensures forall i, j :: 0 <= i < j < |entries| && entries[i].change.Created? ==> entries[j].change.Created?
  {
    hide IsPartOfDiff;
    entries := [];
    NothingYet(before, after);
    var rest := before.Keys;
    while rest != {}
      invariant rest <= before.Keys
      invariant IsPartOfDiff(entries, before.Keys - rest, before, after)
      invariant forall i :: 0 <= i < |entries| ==> !entries[i].change.Created?
    {
      var key :| key in rest;
      var e: Entry;
      if key in after {
        if before[key] == after[key] {
          e := Entry(key, Some(Hex.Encode(before[key])), Some(Hex.Encode(after[key])), Unchanged);
        } else {
          e := Entry(key, Some(Hex.Encode(before[key])), Some(Hex.Encode(after[key])), Updated);
        }
      } else {
        e := Entry(key, Some(Hex.Encode(before[key])), None, Deleted);
      }
      AddEntry(entries, before.Keys - rest, e, before, after);
      assert before.Keys - rest + {key} == before.Keys - (rest - {key});
      entries := entries + [e];
      rest := rest - {key};
    }
    rest := after.Keys;
    assert before.Keys - {} == before.Keys + (after.Keys - rest);
    while rest != {}
      invariant rest <= after.Keys
      invariant IsPartOfDiff(entries, before.Keys + (after.Keys - rest), before, after)
      invariant forall i, j :: 0 <= i < j < |entries| && entries[i].change.Created? ==> entries[j].change.Created?
    {
      var key :| key in rest;
      if key !in before {
        var e := Entry(key, None, Some(Hex.Encode(after[key])), Created);
        AddEntry(entries, before.Keys + (after.Keys - rest), e, before, after);
        entries := entries + [e];
      }
      assert before.Keys + (after.Keys - rest) + {key} == before.Keys + (after.Keys - (rest - {key}));
      assert key in before ==> before.Keys + (after.Keys - rest) + {key} == before.Keys + (after.Keys - rest);
      rest := rest - {key};
    }
    assert before.Keys + (after.Keys - rest) == before.Keys + after.Keys;
  }

  lemma NothingYet(before: Snapshot, after: Snapshot)
    ensures IsPartOfDiff([], before.Keys - before.Keys, before, after)
  {
  }

  /* The difference as a patch. */

  // Puts one side of an entry into a state; an entry marked unchanged does nothing.
  function ApplyEntry(m: Snapshot, e: Entry, value: Option<string>): Option<Snapshot> {
    if e.change.Unchanged? then Some(m)
    else
      match value
      case None => Some(m - {e.key})
      case Some(text) =>
        match Hex.Decode(text)
        case Some(bytes) => Some(m[e.key := bytes])
        case None => None
  }

  function Forwards(m: Snapshot, entries: seq<Entry>): Option<Snapshot> {
    if entries == [] then Some(m)
    else
      var e := entries[|entries| - 1];
      match Forwards(m, entries[..|entries| - 1])
      case Some(sofar) => ApplyEntry(sofar, e, e.after)
      case None => None
  }

  function Backwards(m: Snapshot, entries: seq<Entry>): Option<Snapshot> {
    if entries == [] then Some(m)
    else
      var e := entries[|entries| - 1];
      match Backwards(m, entries[..|entries| - 1])
      case Some(sofar) => ApplyEntry(sofar, e, e.before)
      case None => None
  }

  // A state with the values another one has under some keys.
  ghost predicate Mixed(m: Snapshot, from: Snapshot, target: Snapshot, keys: set<string>) {
    forall k: string :: Lookup(m, k) == if k in keys then Lookup(target, k) else Lookup(from, k)
  }

  lemma MixedStep(m: Snapshot, from: Snapshot, target: Snapshot, keys: set<string>, e: Entry, value: Option<string>)
    requires Mixed(m, from, target, keys)
    requires value == HexOf(Lookup(target, e.key))
    requires e.change.Unchanged? ==> Lookup(from, e.key) == Lookup(target, e.key)
    ensures ApplyEntry(m, e, value).Some? && Mixed(ApplyEntry(m, e, value).value, from, target, keys + {e.key})
  {
    if e.key in target {
      Hex.DecodeEncode(target[e.key]);
    }
    var r := ApplyEntry(m, e, value).value;
    forall k: string
      ensures Lookup(r, k) == if k in keys + {e.key} then Lookup(target, k) else Lookup(from, k)
    {
      assert Lookup(m, k) == if k in keys then Lookup(target, k) else Lookup(from, k);
    }
  }

  lemma KeysOfStep(entries: seq<Entry>)
    requires entries != []
    ensures KeysOf(entries) == KeysOf(entries[..|entries| - 1]) + {entries[|entries| - 1].key}
  {
    var n := |entries| - 1;
    assert forall i :: 0 <= i < n ==> entries[..n][i] == entries[i];
    forall k | k in KeysOf(entries) ensures k in KeysOf(entries[..n]) + {entries[n].key} {
      var i :| 0 <= i < |entries| && entries[i].key == k;
      assert i < n ==> entries[..n][i].key == k;
    }
    forall k | k in KeysOf(entries[..n]) ensures k in KeysOf(entries) {
      var i :| 0 <= i < n && entries[..n][i].key == k;
      assert entries[i].key == k;
    }
  }

  lemma {:induction false} ForwardsMixes(before: Snapshot, after: Snapshot, entries: seq<Entry>)
    requires forall i :: 0 <= i < |entries| ==> Describes(entries[i], before, after)
    ensures Forwards(before, entries).Some?
    ensures Mixed(Forwards(before, entries).value, before, after, KeysOf(entries))
  {
    hide Mixed, KeysOf, ApplyEntry;
    if entries == [] {
      MixedNothing(before, after);
    } else {
      var e, init := entries[|entries| - 1], entries[..|entries| - 1];
      ForwardsMixes(before, after, init);
      KeysOfStep(entries);
      MixedStep(Forwards(before, init).value, before, after, KeysOf(init), e, e.after);
    }
  }

  lemma {:induction false} BackwardsMixes(before: Snapshot, after: Snapshot, entries: seq<Entry>)
    requires forall i :: 0 <= i < |entries| ==> Describes(entries[i], before, after)
    ensures Backwards(after, entries).Some?
    ensures Mixed(Backwards(after, entries).value, after, before, KeysOf(entries))
  {
    hide Mixed, KeysOf, ApplyEntry;
    if entries == [] {
      MixedNothing(after, before);
    } else {
      var e, init := entries[|entries| - 1], entries[..|entries| - 1];
      BackwardsMixes(before, after, init);
      KeysOfStep(entries);
      MixedStep(Backwards(after, init).value, after, before, KeysOf(init), e, e.before);
    }
  }

  lemma MixedNothing(from: Snapshot, target: Snapshot)
    ensures Mixed(from, from, target, KeysOf([]))
  {
  }

  lemma MixedAll(m: Snapshot, from: Snapshot, target: Snapshot, keys: set<string>)
    requires Mixed(m, from, target, keys) && from.Keys <= keys && target.Keys <= keys
    ensures m == target
  {
    forall k: string ensures Lookup(m, k) == Lookup(target, k) {
      assert k !in keys ==> k !in from && k !in target;
    }
    assert forall k: string :: k in m <==> Lookup(m, k).Some?;
    assert forall k: string :: k in target <==> Lookup(target, k).Some?;
  }

  /** Applied forwards the diff turns the first state into the second, applied backwards the second into the first. */
  lemma PatchBothWays(before: Snapshot, after: Snapshot, entries: seq<Entry>)
    requires IsDiff(entries, before, after)
    ensures Forwards(before, entries) == Some(after)
    ensures Backwards(after, entries) == Some(before)
  {
    hide Mixed;
    ForwardsMixes(before, after, entries);
    MixedAll(Forwards(before, entries).value, before, after, KeysOf(entries));
    BackwardsMixes(before, after, entries);
    MixedAll(Backwards(after, entries).value, after, before, KeysOf(entries));
  }

  /** Every entry not marked unchanged has a key that some writable ledger change names. */
  lemma ChangedKeysWereWritten(
      state: Snapshot, changes: seq<LedgerChange>, encode: Bytes -> string, entries: seq<Entry>, i: nat)
    requires IsDiff(entries, state, FinalState(state, changes, encode))
    requires i < |entries| && !entries[i].change.Unchanged?
    ensures !NoneWrites(changes, entries[i].key, encode)
  {
    if NoneWrites(changes, entries[i].key, encode) {
      UnwrittenKept(state, changes, encode, entries[i].key);
      assert false;
    }
  }

  /* Byte totals. */

  function TextBytes(text: Option<string>): nat {
    match text
    case Some(t) => |t| / 2
    case None => 0
  }

  // Bytes read and written according to one entry.
  function EntryBytes(e: Entry): (nat, nat) {
    match e.change
    case Created => (0, TextBytes(e.after))
    case Updated => (TextBytes(e.before), TextBytes(e.after))
    case _ => (TextBytes(e.before), 0)
  }

  function Totals(entries: seq<Entry>): (nat, nat) {
    if entries == [] then (0, 0)
    else
      var (read, written) := Totals(entries[..|entries| - 1]);
      var (r, w) := EntryBytes(entries[|entries| - 1]);
      (read + r, written + w)
  }

  method ByteTotals(entries: seq<Entry>) returns (read: nat, written: nat)
    ensures (read, written) == Totals(entries)
  {
    written := 0;
    read := 0;
    for i := 0 to |entries|
      invariant (read, written) == Totals(entries[..i])
    {
      assert entries[..i + 1][..i] == entries[..i];
      var e := entries[i];
      match e.change {
        case Created =>
          if e.after.Some? { written := written + |e.after.value| / 2; }
        case Updated =>
          if e.after.Some? { written := written + |e.after.value| / 2; }
          if e.before.Some? { read := read + |e.before.value| / 2; }
        case _ =>
          if e.before.Some? { read := read + |e.before.value| / 2; }
      }
    }
    assert entries[..|entries|] == entries;
  }

  // The size of a state.
  ghost function Size(m: Snapshot): nat
    decreases m.Keys
  {
    if m == map[] then 0
    else
      var k :| k in m;
      |m[k]| + Size(m - {k})
  }

  lemma {:induction false} SizeWithout(m: Snapshot, k: string)
    requires k in m
    ensures Size(m) == |m[k]| + Size(m - {k})
    decreases m.Keys
  {
    var picked :| picked in m && Size(m) == |m[picked]| + Size(m - {picked});
    if picked != k {
      hide Size;
      SizeWithout(m - {picked}, k);
      SizeWithout(m - {k}, picked);
      assert m - {picked} - {k} == m - {k} - {picked};
    }
  }

  // The part of a state under some keys.
  function Part(m: Snapshot, keys: set<string>): Snapshot {
    map k | k in m && k in keys :: m[k]
  }

  lemma PartStep(m: Snapshot, keys: set<string>, k: string)
    requires k !in keys
    ensures Size(Part(m, keys + {k})) == Size(Part(m, keys)) + if k in m then |m[k]| else 0
  {
    var part := Part(m, keys + {k});
    if k in m {
      SizeWithout(part, k);
      assert part - {k} == Part(m, keys);
    } else {
      assert part == Part(m, keys);
    }
  }

  // The keys under which two states agree, or do not.
  function UnchangedKeys(before: Snapshot, after: Snapshot): set<string> {
    set k | k in after && Lookup(before, k) == Lookup(after, k)
  }

  lemma {:induction false} TotalsOfPart(before: Snapshot, after: Snapshot, entries: seq<Entry>)
    requires DistinctKeys(entries)
    requires forall i :: 0 <= i < |entries| ==> Describes(entries[i], before, after)
    ensures Totals(entries) ==
      (Size(Part(before, KeysOf(entries))), Size(Part(after - UnchangedKeys(before, after), KeysOf(entries))))
  {
    hide KeysOf, UnchangedKeys, Size;
    var changed := after - UnchangedKeys(before, after);
    if entries == [] {
      PartOfNothing(before);
      PartOfNothing(changed);
    } else {
      var n := |entries| - 1;
      var e, init := entries[n], entries[..n];
      TotalsOfPart(before, after, init);
      KeysOfStep(entries);
      NewKey(entries);
      PartStep(before, KeysOf(init), e.key);
      PartStep(changed, KeysOf(init), e.key);
      BytesOf(e, before, after);
    }
  }

  lemma PartOfNothing(m: Snapshot)
    ensures Size(Part(m, KeysOf([]))) == 0
  {
  }

  lemma NewKey(entries: seq<Entry>)
    requires entries != [] && DistinctKeys(entries)
    ensures entries[|entries| - 1].key !in KeysOf(entries[..|entries| - 1])
  {
  }

  lemma BytesOf(e: Entry, before: Snapshot, after: Snapshot)
    requires Describes(e, before, after)
    ensures var changed := after - UnchangedKeys(before, after);
      EntryBytes(e) == (
        if e.key in before then |before[e.key]| else 0,
        if e.key in changed then |changed[e.key]| else 0)
  {
  }

  lemma PartOfAll(m: Snapshot, keys: set<string>)
    requires m.Keys <= keys
    ensures Part(m, keys) == m
  {
  }

  lemma PartsWithout(m: Snapshot, keys: set<string>, k: string)
    ensures Part(m - {k}, keys) == if k in keys then Part(m, keys) - {k} else Part(m, keys)
    ensures m - {k} - keys == if k in keys then m - keys else m - keys - {k}
  {
  }

  lemma NothingToSplit(m: Snapshot, keys: set<string>)
    requires m.Keys == {}
    ensures Size(m) == 0 && Size(Part(m, keys)) == 0 && Size(m - keys) == 0
  {
  }

  // Sizes add up.
  lemma {:induction false} SizeSplit(m: Snapshot, keys: set<string>)
    ensures Size(m) == Size(Part(m, keys)) + Size(m - keys)
    decreases m.Keys
  {
    hide Size;
    if k :| k in m {
      SizeWithout(m, k);
      SizeSplit(m - {k}, keys);
      PartsWithout(m, keys, k);
      SizeWithout(if k in keys then Part(m, keys) else m - keys, k);
    } else {
      NothingToSplit(m, keys);
    }
  }

  /** Byte conservation: what is read is the whole initial state, what is written is the final state without the
      entries that did not change. */
  lemma BytesConserved(before: Snapshot, after: Snapshot, entries: seq<Entry>)
    requires IsDiff(entries, before, after)
    ensures Totals(entries).0 == Size(before)
    ensures Totals(entries).1 == Size(after) - Size(Part(after, UnchangedKeys(before, after)))
  {
    var same := UnchangedKeys(before, after);
    TotalsOfPart(before, after, entries);
    PartOfAll(before, KeysOf(entries));
    PartOfAll(after - same, KeysOf(entries));
    SizeSplit(after, same);
  }
}
