/**
 The exact condition under which reading a JSON document as a Soroban value and printing that
 value gives the document back.
 */
module RoundTripJson {
  import opened Common
  import opened Hex
  import opened Json
  import opened ScVals
  import opened ScValToJson
  import opened JsonToScVal
  import opened RoundTrip

  // Key text, key and value of a key/value item.
  function PairOf(item: Json): Converted
    requires IsPair(item)
  {
    Converted(KeyText(MemberOf(item, "key")), MemberOf(item, "key"), MemberOf(item, "value"))
  }

  function PairsOf(items: seq<Json>): (r: seq<Converted>)
    requires forall i :: 0 <= i < |items| ==> IsPair(items[i])
    ensures |r| == |items| && forall i :: 0 <= i < |items| ==> r[i] == PairOf(items[i])
  {
    seq(|items|, i requires 0 <= i < |items| => PairOf(items[i]))
  }

  // An unmarked object that the reader takes for a contract instance: an executable it understands, and storage that
  // is null or has the form of a map.
  predicate LooksInstance(j: Json)
    requires j.Object?
    decreases j, 1
  {
    && Has(j.members, "executable") && Has(j.members, "storage")
    && ParseExecutable(MemberOf(j, "executable")).Some?
    && (MemberOf(j, "storage").Null? || LooksMap(MemberOf(j, "storage")))
  }

  // A key/value list, or an object without any mark.
  predicate LooksMap(j: Json)
    decreases j, 2
  {
    match j
    case Array(items) => IsLossless(items)
    case Object(ms) =>
      !Has(ms, "__truncated__") && ErrorMarker(ms).None? && NonceMarker(ms).None? && !LooksInstance(j)
    case _ => false
  }

  // The document survives being read and printed.
  predicate Faithful(j: Json, depth: nat, sk: Strkeys)
    decreases j, 1
  {
    depth <= MAX_DEPTH &&
    match j
    case Float(_) => false
    case Number(n) => I64_MIN <= n <= U64_MAX
    case String(s) => FaithfulString(s, sk)
    case Array(items) =>
      if IsLossless(items) then
        // Printed as a list only because two keys have the same text.
        Collides(PairsOf(items)) && forall i :: 0 <= i < |items| ==> FaithfulPair(items[i], depth + 1, sk)
      else
        forall i :: 0 <= i < |items| ==> Faithful(items[i], depth + 1, sk)
    case Object(ms) =>
      !Has(ms, "__truncated__") &&
      if ErrorMarker(ms).Some? then FaithfulError(ms)
      else if NonceMarker(ms).Some? then true
      else if LooksInstance(j) then
        && |ms| == 2
        && CanonicalExecutable(MemberOf(j, "executable"))
        && (MemberOf(j, "storage").Null? || Faithful(MemberOf(j, "storage"), depth + 1, sk))
      else
        forall i :: 0 <= i < |ms| ==> FaithfulMember(ms[i], depth + 1, sk)
    case _ => true
  }

  predicate FaithfulPair(item: Json, depth: nat, sk: Strkeys)
    requires IsPair(item)
    decreases item, 0
  {
    Faithful(MemberOf(item, "key"), depth, sk) && Faithful(MemberOf(item, "value"), depth, sk)
  }

  predicate FaithfulMember(m: Member, depth: nat, sk: Strkeys)
    decreases m, 0
  {
    FaithfulString(m.key, sk) && Faithful(m.value, depth, sk)
  }

  predicate Stable(j: Json, depth: nat, sk: Strkeys) {
    var r := Parse(j, depth, sk);
    r.Ok? && ScValToJson.Convert(r.value, depth, sk) == j
  }

  /** Main result: a document is reproduced exactly when it is `Faithful`. */
  lemma {:induction false} StableIffFaithful(j: Json, depth: nat, sk: Strkeys)
    requires WellFormed(j) && Lawful(sk)
    ensures Stable(j, depth, sk) <==> Faithful(j, depth, sk)
    decreases j, 2
  {
    if depth <= MAX_DEPTH {
      match j
      case Array(items) =>
        if IsLossless(items) {
          StablePairs(j, depth, sk);
        } else {
          StableItems(j, depth, sk);
        }
      case Object(ms) =>
        if !Has(ms, "__truncated__") {
          StableObject(j, depth, sk);
        }
      case String(s) => StableString(s, depth, sk);
      case Number(n) => StableNumber(n, depth, sk);
      case _ =>
    }
  }

  lemma StableString(s: string, depth: nat, sk: Strkeys)
    requires Lawful(sk) && depth <= MAX_DEPTH
    ensures Stable(Json.String(s), depth, sk) <==> FaithfulString(s, sk)
  {
    hide ParseString, LeafJson, FaithfulString;
    StringRoundTrip(s, sk);
    assert ScValToJson.Convert(ParseString(s, sk), depth, sk) == Json.String(Canonicalize(s, sk));
  }

  lemma StableNumber(n: int, depth: nat, sk: Strkeys)
    requires depth <= MAX_DEPTH
    ensures Stable(Json.Number(n), depth, sk) <==> I64_MIN <= n <= U64_MAX
  {
  }

  lemma {:induction false} StableItems(j: Json, depth: nat, sk: Strkeys)
    requires WellFormed(j) && Lawful(sk) && depth <= MAX_DEPTH && j.Array? && !IsLossless(j.items)
    ensures Stable(j, depth, sk) <==> Faithful(j, depth, sk)
    decreases j, 1
  {
    hide IsLossless, Stable, Faithful, Parse, ScValToJson.Convert;
    var items := j.items;
    ListReprint(j, depth, sk);
    forall i | 0 <= i < |items|
      ensures Stable(items[i], depth + 1, sk) <==> Faithful(items[i], depth + 1, sk)
    {
      StableIffFaithful(items[i], depth + 1, sk);
    }
    ItemsStable(items, depth + 1, sk);
  }

  lemma ListReprint(j: Json, depth: nat, sk: Strkeys)
    requires depth <= MAX_DEPTH && j.Array? && !IsLossless(j.items)
    ensures var r := ParseAll(j.items, depth + 1, sk);
      Stable(j, depth, sk) <==> r.Ok? && ScValToJson.ConvertAll(r.value, depth + 1, sk) == j.items
    ensures Faithful(j, depth, sk) <==> forall i :: 0 <= i < |j.items| ==> Faithful(j.items[i], depth + 1, sk)
  {
    hide IsLossless;
  }

  lemma ItemsStable(items: seq<Json>, depth: nat, sk: Strkeys)
    ensures var r := ParseAll(items, depth, sk);
      r.Ok? && ScValToJson.ConvertAll(r.value, depth, sk) == items <==>
      forall i :: 0 <= i < |items| ==> Stable(items[i], depth, sk)
  {
    hide Parse, ScValToJson.Convert;
    ParseAllSpec(items, depth, sk);
  }

  /* Key/value lists. */

  lemma LosslessBack(item: Json, c: Converted)
    requires WellFormed(item) && IsPair(item)
    ensures LosslessItem(c) == item <==> c.key == MemberOf(item, "key") && c.value == MemberOf(item, "value")
  {
    assert StringLess("key", "value");
    PairOfKeys(item.members, "key", "value");
  }

  predicate StablePair(item: Json, depth: nat, sk: Strkeys)
    requires IsPair(item)
  {
    Stable(MemberOf(item, "key"), depth, sk) && Stable(MemberOf(item, "value"), depth, sk)
  }

  lemma {:induction false} StablePairFaithful(item: Json, depth: nat, sk: Strkeys)
    requires WellFormed(item) && Lawful(sk) && IsPair(item)
    ensures StablePair(item, depth, sk) <==> FaithfulPair(item, depth, sk)
    decreases item, 0
  {
    hide Stable, Faithful;
    WellFormedMember(item, "key");
    WellFormedMember(item, "value");
    StableIffFaithful(MemberOf(item, "key"), depth, sk);
    StableIffFaithful(MemberOf(item, "value"), depth, sk);
  }

  lemma WellFormedMember(j: Json, key: string)
    requires WellFormed(j) && j.Object? && Has(j.members, key)
    ensures WellFormed(MemberOf(j, key))
  {
    var v := MemberOf(j, key);
    var i :| 0 <= i < |j.members| && j.members[i] == Member(key, v);
    assert WellFormed(j.members[i].value);
  }

  lemma {:induction false} StablePairs(j: Json, depth: nat, sk: Strkeys)
    requires WellFormed(j) && Lawful(sk) && depth <= MAX_DEPTH && j.Array? && IsLossless(j.items)
    ensures Stable(j, depth, sk) <==> Faithful(j, depth, sk)
    decreases j, 1
  {
    hide IsPair, MapJson, Collides, StablePair, FaithfulPair, Stable, Faithful, Parse, ScValToJson.Convert,
         ConvertEntries;
    var items := j.items;
    PairListReprint(j, depth, sk);
    forall i | 0 <= i < |items|
      ensures StablePair(items[i], depth + 1, sk) <==> FaithfulPair(items[i], depth + 1, sk)
    {
      StablePairFaithful(items[i], depth + 1, sk);
    }
    ParsePairsSpec(items, depth + 1, sk);
    var r := ParsePairs(items, depth + 1, sk);
    if r.Ok? {
      PairsReprint(items, r.value, depth + 1, sk);
    } else {
      PairsUnreadable(items, depth + 1, sk);
    }
  }

  lemma PairListReprint(j: Json, depth: nat, sk: Strkeys)
    requires depth <= MAX_DEPTH && j.Array? && IsLossless(j.items)
    ensures var r := ParsePairs(j.items, depth + 1, sk);
      Stable(j, depth, sk) <==> r.Ok? && MapJson(ConvertEntries(r.value, depth + 1, sk)) == j
    ensures Faithful(j, depth, sk) <==>
      Collides(PairsOf(j.items)) && forall i :: 0 <= i < |j.items| ==> FaithfulPair(j.items[i], depth + 1, sk)
  {
    hide IsPair, MapJson, Collides, FaithfulPair;
  }

  lemma PairsUnreadable(items: seq<Json>, depth: nat, sk: Strkeys)
    requires IsLossless(items) && ParsePairs(items, depth, sk).Err?
    ensures exists i :: 0 <= i < |items| && !StablePair(items[i], depth, sk)
  {
    hide IsPair, Parse;
    ParsePairsSpec(items, depth, sk);
    var i :| 0 <= i < |items| && !PairParses(items[i], depth, sk);
    assert !StablePair(items[i], depth, sk);
  }

  lemma PairReprints(item: Json, e: Entry, depth: nat, sk: Strkeys)
    requires IsPair(item) && WellFormed(item) && ParsesTo(item, e, depth, sk)
    ensures LosslessItem(ConvertEntry(e, depth, sk)) == item <==> StablePair(item, depth, sk)
    ensures StablePair(item, depth, sk) ==> ConvertEntry(e, depth, sk) == PairOf(item)
  {
    hide Parse, ScValToJson.Convert, LosslessItem;
    LosslessBack(item, ConvertEntry(e, depth, sk));
  }

  lemma PairsReprint(items: seq<Json>, entries: seq<Entry>, depth: nat, sk: Strkeys)
    requires IsLossless(items) && |entries| == |items|
    requires forall i :: 0 <= i < |items| ==> WellFormed(items[i])
    requires forall i :: 0 <= i < |items| ==> ParsesTo(items[i], entries[i], depth, sk)
    ensures MapJson(ConvertEntries(entries, depth, sk)) == Json.Array(items) <==>
      Collides(PairsOf(items)) && forall i :: 0 <= i < |items| ==> StablePair(items[i], depth, sk)
  {
    hide IsPair, ParsesTo, ConvertEntry, LosslessItem, StablePair, PairOf, WellFormed, Collides;
    var conv := ConvertEntries(entries, depth, sk);
    forall i | 0 <= i < |items|
      ensures LosslessItem(conv[i]) == items[i] <==> StablePair(items[i], depth, sk)
      ensures StablePair(items[i], depth, sk) ==> conv[i] == PairOf(items[i])
    {
      PairReprints(items[i], entries[i], depth, sk);
    }
    if forall i :: 0 <= i < |items| ==> StablePair(items[i], depth, sk) {
      assert conv == PairsOf(items);
      assert LosslessItems(conv) == items;
    }
    if LosslessItems(conv) == items {
      forall i | 0 <= i < |items| ensures StablePair(items[i], depth, sk) {
        assert LosslessItems(conv)[i] == LosslessItem(conv[i]);
      }
    }
  }

  /* Objects. */

  lemma {:induction false} StableObject(j: Json, depth: nat, sk: Strkeys)
    requires WellFormed(j) && Lawful(sk) && depth <= MAX_DEPTH && j.Object? && !Has(j.members, "__truncated__")
    ensures Stable(j, depth, sk) <==> Faithful(j, depth, sk)
    decreases j, 1
  {
    hide ErrorMarker, NonceMarker, Has, Get, ErrorJson, FaithfulError, InstanceMarker, LooksInstance;
    var ms := j.members;
    if ErrorMarker(ms).Some? {
      ErrorRoundTrip(ms);
    } else if NonceMarker(ms).Some? {
      NonceRoundTrip(ms);
    } else if LooksInstance(j) && InstanceMarker(j, depth, sk).Some? {
      StableInstance(j, depth, sk);
    } else if LooksInstance(j) {
      UnstableInstance(j, depth, sk);
    } else {
      if InstanceMarker(j, depth, sk).Some? {
        LooksRight(j, depth, sk);
      }
      StableMembers(j, depth, sk);
    }
  }

  predicate IsUnmarked(j: Json, depth: nat) {
    && depth <= MAX_DEPTH && j.Object? && !Has(j.members, "__truncated__")
    && ErrorMarker(j.members).None? && NonceMarker(j.members).None?
  }

  // If it can be read at all, a document is read as a map, or as a contract instance, when it looks like one.
  lemma {:induction false} LooksRight(j: Json, depth: nat, sk: Strkeys)
    requires Parse(j, depth, sk).Ok?
    ensures Parse(j, depth, sk).value.Map? <==> LooksMap(j)
    ensures j.Object? && IsUnmarked(j, depth) ==> (InstanceMarker(j, depth, sk).Some? <==> LooksInstance(j))
    decreases j
  {
    hide ErrorMarker, NonceMarker, Has, Get, ParseExecutable, IsLossless, ParseString, ParseNumber;
    if !j.Array? && !j.Object? {
      LeafIsNoMap(j, depth, sk);
    }
    if j.Object? && IsUnmarked(j, depth) && Has(j.members, "executable") && Has(j.members, "storage") {
      var storage := MemberOf(j, "storage");
      if Parse(storage, depth + 1, sk).Ok? {
        LooksRight(storage, depth + 1, sk);
      } else if InstanceMarker(j, depth, sk).None? {
        MemberUnreadable(j, "storage", depth + 1, sk);
      }
    }
  }

  lemma LeafIsNoMap(j: Json, depth: nat, sk: Strkeys)
    requires Parse(j, depth, sk).Ok? && !j.Array? && !j.Object?
    ensures !Parse(j, depth, sk).value.Map?
  {
    hide ParseHex, ParseAddress, ParseU128, ParseI128;
  }

  lemma MemberUnreadable(j: Json, key: string, depth: nat, sk: Strkeys)
    requires j.Object? && Has(j.members, key) && Parse(MemberOf(j, key), depth, sk).Err?
    ensures ParseMembers(j.members, depth, sk).Err?
  {
    hide Parse;
    ParseMembersSpec(j.members, depth, sk);
    var i :| 0 <= i < |j.members| && j.members[i] == Member(key, MemberOf(j, key));
    assert Parse(j.members[i].value, depth, sk).Err?;
  }

  // It looks like an instance but its storage cannot be read: then nothing can.
  lemma {:induction false} UnstableInstance(j: Json, depth: nat, sk: Strkeys)
    requires WellFormed(j) && Lawful(sk) && IsUnmarked(j, depth)
    requires LooksInstance(j) && InstanceMarker(j, depth, sk).None?
    ensures !Stable(j, depth, sk) && !Faithful(j, depth, sk)
    decreases j, 0
  {
    hide ErrorMarker, NonceMarker, Has, Get, ParseExecutable, CanonicalExecutable, Stable, LooksMap;
    var storage := MemberOf(j, "storage");
    if Parse(storage, depth + 1, sk).Ok? {
      LooksRight(storage, depth + 1, sk);
      assert false;
    }
    MemberUnreadable(j, "storage", depth + 1, sk);
    WellFormedMember(j, "storage");
    StableIffFaithful(storage, depth + 1, sk);
    UnreadNotStable(storage, depth + 1, sk);
    UnreadNotStable(j, depth, sk);
  }

  lemma UnreadNotStable(j: Json, depth: nat, sk: Strkeys)
    requires Parse(j, depth, sk).Err?
    ensures !Stable(j, depth, sk)
  {
    hide Parse;
  }

  predicate PlainInstance(j: Json, depth: nat, sk: Strkeys) {
    IsUnmarked(j, depth) && LooksInstance(j) && InstanceMarker(j, depth, sk).Some?
  }

  lemma InstanceReprint(j: Json, depth: nat, sk: Strkeys)
    requires PlainInstance(j, depth, sk)
    ensures var v := InstanceMarker(j, depth, sk).value;
      && v.ContractInstance?
      && (Stable(j, depth, sk) <==>
           InstanceJson(v.executable, StorageJson(v.storage, depth + 1, sk)) == j)
      && ParseExecutable(MemberOf(j, "executable")) == Some(v.executable)
      && (v.storage.NoStorage? <==> MemberOf(j, "storage").Null?)
      && (v.storage.Stored? ==>
           Parse(MemberOf(j, "storage"), depth + 1, sk) == Ok(Map(v.storage.entries)))
  {
    hide ErrorMarker, NonceMarker, ParseExecutable, InstanceJson, MapJson, StorageJson, Get, LooksMap;
  }

  lemma InstanceFaithful(j: Json, depth: nat, sk: Strkeys)
    requires PlainInstance(j, depth, sk)
    ensures Has(j.members, "executable") && Has(j.members, "storage")
    ensures Faithful(j, depth, sk) <==>
      && |j.members| == 2
      && CanonicalExecutable(MemberOf(j, "executable"))
      && (MemberOf(j, "storage").Null? || Faithful(MemberOf(j, "storage"), depth + 1, sk))
  {
    hide ErrorMarker, NonceMarker, CanonicalExecutable, ParseExecutable, Get, Parse, LooksMap;
  }

  lemma {:induction false} StableInstance(j: Json, depth: nat, sk: Strkeys)
    requires WellFormed(j) && Lawful(sk) && PlainInstance(j, depth, sk)
    ensures Stable(j, depth, sk) <==> Faithful(j, depth, sk)
    decreases j, 0
  {
    hide Lawful, WellFormed, Stable, Faithful, Parse, ScValToJson.Convert, MapJson, ParseExecutable, ExecutableJson,
         CanonicalExecutable, LooksMap, Get, InstanceMarker, InstanceJson, ErrorMarker, NonceMarker;
    InstanceReprint(j, depth, sk);
    InstanceFaithful(j, depth, sk);
    WellFormedMember(j, "executable");
    WellFormedMember(j, "storage");
    ExecutableRoundTrip(MemberOf(j, "executable"));
    var v := InstanceMarker(j, depth, sk).value;
    if v.storage.Stored? {
      StableIffFaithful(MemberOf(j, "storage"), depth + 1, sk);
      InstanceFits(j, depth, sk);
      StorageStable(v.storage.entries, MemberOf(j, "storage"), depth, sk);
    }
    InstanceParts(j, v.executable, StorageJson(v.storage, depth + 1, sk));
  }

  lemma StorageStable(entries: seq<Entry>, storage: Json, depth: nat, sk: Strkeys)
    requires Parse(storage, depth + 1, sk) == Ok(Map(entries))
    requires ConvertEntries(entries, depth + 1, sk) == ConvertEntries(entries, depth + 2, sk)
    ensures Stable(storage, depth + 1, sk) <==> StorageJson(Stored(entries), depth + 1, sk) == storage
  {
    hide MapJson;
    assert depth + 1 <= MAX_DEPTH;
  }

  lemma InstanceParts(j: Json, exec: Executable, storage: Json)
    requires WellFormed(j) && j.Object? && Has(j.members, "executable") && Has(j.members, "storage")
    ensures InstanceJson(exec, storage) == j <==>
      && |j.members| == 2
      && ExecutableJson(exec) == MemberOf(j, "executable")
      && storage == MemberOf(j, "storage")
  {
    hide ExecutableJson;
    if |j.members| == 2 {
      assert StringLess("executable", "storage");
      PairOfKeys(j.members, "executable", "storage");
    }
  }

  lemma {:induction false} StableMemberFaithful(m: Member, depth: nat, sk: Strkeys)
    requires WellFormed(m.value) && Lawful(sk)
    ensures Canonicalize(m.key, sk) == m.key && Stable(m.value, depth, sk) <==> FaithfulMember(m, depth, sk)
    decreases m, 0
  {
    hide Stable, Faithful;
    StringRoundTrip(m.key, sk);
    StableIffFaithful(m.value, depth, sk);
  }

  predicate PlainObject(j: Json, depth: nat, sk: Strkeys) {
    IsUnmarked(j, depth) && !LooksInstance(j) && InstanceMarker(j, depth, sk).None?
  }

  lemma ObjectReprint(j: Json, depth: nat, sk: Strkeys)
    requires PlainObject(j, depth, sk)
    ensures var r := ParseMembers(j.members, depth + 1, sk);
      Stable(j, depth, sk) <==> r.Ok? && MapJson(ConvertEntries(r.value, depth + 1, sk)) == j
    ensures Faithful(j, depth, sk) <==>
      forall i :: 0 <= i < |j.members| ==> FaithfulMember(j.members[i], depth + 1, sk)
  {
    hide ErrorMarker, NonceMarker, InstanceMarker, LooksInstance, Has, MapJson, FaithfulMember;
  }

  lemma {:induction false} MembersStable(ms: seq<Member>, depth: nat, sk: Strkeys)
    requires Lawful(sk) && forall i :: 0 <= i < |ms| ==> WellFormed(ms[i].value)
    ensures forall i :: 0 <= i < |ms| ==>
      ((Canonicalize(ms[i].key, sk) == ms[i].key && Stable(ms[i].value, depth, sk)) <==>
       FaithfulMember(ms[i], depth, sk))
    decreases ms, 1
  {
    hide FaithfulMember, Canonicalize, Stable, WellFormed;
    forall i | 0 <= i < |ms|
      ensures Canonicalize(ms[i].key, sk) == ms[i].key && Stable(ms[i].value, depth, sk)
        <==> FaithfulMember(ms[i], depth, sk)
    {
      StableMemberFaithful(ms[i], depth, sk);
    }
  }

  lemma MembersUnreadable(ms: seq<Member>, depth: nat, sk: Strkeys)
    requires ParseMembers(ms, depth, sk).Err?
    ensures exists i :: 0 <= i < |ms| && !Stable(ms[i].value, depth, sk)
  {
    hide Parse, ScValToJson.Convert;
    ParseMembersSpec(ms, depth, sk);
    var i :| 0 <= i < |ms| && Parse(ms[i].value, depth, sk).Err?;
    assert !Stable(ms[i].value, depth, sk);
  }

  lemma {:induction false} StableMembers(j: Json, depth: nat, sk: Strkeys)
    requires WellFormed(j) && Lawful(sk) && j.Object? && PlainObject(j, depth, sk)
    ensures Stable(j, depth, sk) <==> Faithful(j, depth, sk)
    decreases j, 0
  {
    hide MapJson, FaithfulMember, Canonicalize, Faithful, Stable, Parse, ScValToJson.Convert, PlainObject;
    ObjectReprint(j, depth, sk);
    var ms := j.members;
    MembersStable(ms, depth + 1, sk);
    var r := ParseMembers(ms, depth + 1, sk);
    if r.Ok? {
      ParseMembersSpec(ms, depth + 1, sk);
      MembersReprint(ms, r.value, depth + 1, sk);
    } else {
      MembersUnreadable(ms, depth + 1, sk);
    }
  }

  // The printed entries of an object that was read: its keys made canonical, its values printed again.
  predicate Reprints(ms: seq<Member>, conv: seq<Converted>, sk: Strkeys) {
    |conv| == |ms| && forall i :: 0 <= i < |ms| ==> conv[i].text == Canonicalize(ms[i].key, sk)
  }

  lemma MembersReprint(ms: seq<Member>, entries: seq<Entry>, depth: nat, sk: Strkeys)
    requires Sorted(ms) && Lawful(sk) && |entries| == |ms|
    requires forall i :: 0 <= i < |ms| ==>
      entries[i].key == ParseString(ms[i].key, sk) && Parse(ms[i].value, depth, sk) == Ok(entries[i].val)
    ensures MapJson(ConvertEntries(entries, depth, sk)) == Json.Object(ms) <==>
      forall i :: 0 <= i < |ms| ==> Canonicalize(ms[i].key, sk) == ms[i].key && Stable(ms[i].value, depth, sk)
  {
    hide Parse, ScValToJson.Convert, ParseString, Collides;
    var conv := ConvertEntries(entries, depth, sk);
    forall i | 0 <= i < |ms|
      ensures conv[i].text == Canonicalize(ms[i].key, sk)
      ensures conv[i].value == ms[i].value <==> Stable(ms[i].value, depth, sk)
    {
      assert conv[i] == ConvertEntry(entries[i], depth, sk);
      StringPrints(ms[i], entries[i], depth, sk);
    }
    assert Reprints(ms, conv, sk);
    if forall i :: 0 <= i < |ms| ==> conv[i].text == ms[i].key {
      DistinctTexts(ms, conv);
      ObjectInOrder(ms, conv);
    } else if !Collides(conv) && ObjectOf(conv) == ms {
      KeysUnmoved(ms, conv, sk);
    }
  }

  lemma StringPrints(m: Member, e: Entry, depth: nat, sk: Strkeys)
    requires e.key == ParseString(m.key, sk) && Parse(m.value, depth, sk) == Ok(e.val)
    ensures KeyText(ScValToJson.Convert(e.key, depth, sk)) == Canonicalize(m.key, sk)
  {
    hide ParseString, LeafJson;
    assert depth <= MAX_DEPTH;
  }

  lemma DistinctTexts(ms: seq<Member>, conv: seq<Converted>)
    requires Sorted(ms) && |conv| == |ms| && forall i :: 0 <= i < |ms| ==> conv[i].text == ms[i].key
    ensures !Collides(conv)
  {
    forall i, k | 0 <= i < k < |conv| ensures conv[i].text != conv[k].text {
      StringLessAsymmetric(ms[i].key, ms[k].key);
    }
  }

  // Entries that arrive in key order end up in that order.
  lemma {:induction false} ObjectInOrder(ms: seq<Member>, conv: seq<Converted>)
    requires Sorted(ms) && |conv| == |ms| && forall i :: 0 <= i < |ms| ==> conv[i].text == ms[i].key
    ensures |ObjectOf(conv)| == |ms|
    ensures forall i :: 0 <= i < |ms| ==> ObjectOf(conv)[i] == Member(ms[i].key, conv[i].value)
    ensures ObjectOf(conv) == ms <==> forall i :: 0 <= i < |ms| ==> conv[i].value == ms[i].value
    decreases |ms|
  {
    if ms != [] {
      var n := |ms| - 1;
      ObjectInOrder(ms[..n], conv[..n]);
      InsertLast(ObjectOf(conv[..n]), conv[n].text, conv[n].value);
    }
  }

  lemma {:induction false} ObjectKeys(conv: seq<Converted>)
    ensures forall m :: m in ObjectOf(conv) ==> exists i :: 0 <= i < |conv| && conv[i].text == m.key
    decreases |conv|
  {
    if conv != [] {
      var n := |conv| - 1;
      ObjectKeys(conv[..n]);
      InsertKeys(ObjectOf(conv[..n]), conv[n].text, conv[n].value);
      forall m | m in ObjectOf(conv) ensures exists i :: 0 <= i < |conv| && conv[i].text == m.key {
        if m in ObjectOf(conv[..n]) {
          var i :| 0 <= i < n && conv[..n][i].text == m.key;
          assert conv[i].text == m.key;
        } else {
          assert conv[n].text == m.key;
        }
      }
    }
  }

  // If the canonical keys are the keys that were there, every key already was canonical.
  lemma KeysUnmoved(ms: seq<Member>, conv: seq<Converted>, sk: Strkeys)
    requires Lawful(sk) && Reprints(ms, conv, sk) && ObjectOf(conv) == ms
    ensures forall i :: 0 <= i < |ms| ==> conv[i].text == ms[i].key
  {
    hide Canonicalize, FaithfulString;
    ObjectKeys(conv);
    forall i | 0 <= i < |ms| ensures conv[i].text == ms[i].key {
      assert ms[i] in ObjectOf(conv);
      var k :| 0 <= k < |conv| && conv[k].text == ms[i].key;
      CanonicalizeFaithful(ms[k].key, sk);
      StringRoundTrip(ms[i].key, sk);
    }
  }
}
