/**
 Which JSON documents the reader accepts, markers and depth limit included.
 */
module RoundTripRead {
  import opened Common
  import opened Json
  import opened ScVals
  import opened ScValToJson
  import opened JsonToScVal
  import opened RoundTrip
  import opened RoundTripJson
  import opened RoundTripValue

  // Everything that is read lies within the depth limit, is no fraction, fits 64 bits and is not marked as truncated.
  // What an error marker, a nonce marker or an executable holds is not looked at any further.
  predicate Accepted(j: Json, depth: nat)
    decreases j, 1
  {
    depth <= MAX_DEPTH &&
    match j
    case Float(_) => false
    case Number(n) => I64_MIN <= n <= U64_MAX
    case Array(items) =>
      if IsLossless(items) then forall i :: 0 <= i < |items| ==> AcceptedPair(items[i], depth + 1)
      else forall i :: 0 <= i < |items| ==> Accepted(items[i], depth + 1)
    case Object(ms) =>
      !Has(ms, "__truncated__") &&
      (|| ErrorMarker(ms).Some?
       || NonceMarker(ms).Some?
       || if LooksInstance(j) then MemberOf(j, "storage").Null? || Accepted(MemberOf(j, "storage"), depth + 1)
          else forall i :: 0 <= i < |ms| ==> AcceptedMember(ms[i], depth + 1))
    case _ => true
  }

  predicate AcceptedPair(item: Json, depth: nat)
    requires IsPair(item)
    decreases item, 0
  {
    Accepted(MemberOf(item, "key"), depth) && Accepted(MemberOf(item, "value"), depth)
  }

  predicate AcceptedMember(m: Member, depth: nat)
    decreases m, 0
  {
    Accepted(m.value, depth)
  }

  /** A document is read if and only if it is `Accepted`. */
  lemma {:induction false} ReadsIffAccepted(j: Json, depth: nat, sk: Strkeys)
    ensures Parse(j, depth, sk).Ok? <==> Accepted(j, depth)
    decreases j, 1
  {
    hide IsLossless, ErrorMarker, NonceMarker, Has, ParseString;
    if depth <= MAX_DEPTH {
      match j
      case Array(items) =>
        if IsLossless(items) {
          PairsRead(items, depth + 1, sk);
        } else {
          ItemsRead(items, depth + 1, sk);
        }
      case Object(ms) =>
        if IsUnmarked(j, depth) {
          if LooksInstance(j) {
            InstanceReads(j, depth, sk);
          } else {
            NoInstance(j, depth, sk);
            MembersRead(ms, depth + 1, sk);
          }
        }
      case _ =>
    }
  }

  lemma {:induction false} ItemsRead(items: seq<Json>, depth: nat, sk: Strkeys)
    ensures ParseAll(items, depth, sk).Ok? <==> forall i :: 0 <= i < |items| ==> Accepted(items[i], depth)
    decreases items, 0
  {
    hide Parse, Accepted;
    ParseAllSpec(items, depth, sk);
    forall i | 0 <= i < |items| ensures Parse(items[i], depth, sk).Ok? <==> Accepted(items[i], depth) {
      ReadsIffAccepted(items[i], depth, sk);
    }
  }

  lemma {:induction false} PairsRead(items: seq<Json>, depth: nat, sk: Strkeys)
    requires IsLossless(items)
    ensures ParsePairs(items, depth, sk).Ok? <==> forall i :: 0 <= i < |items| ==> AcceptedPair(items[i], depth)
    decreases items, 0
  {
    hide Parse, Accepted, IsPair, PairParses, AcceptedPair;
    ParsePairsSpec(items, depth, sk);
    forall i | 0 <= i < |items| ensures PairParses(items[i], depth, sk) <==> AcceptedPair(items[i], depth) {
      PairReads(items[i], depth, sk);
    }
  }

  lemma {:induction false} PairReads(item: Json, depth: nat, sk: Strkeys)
    requires IsPair(item)
    ensures PairParses(item, depth, sk) <==> AcceptedPair(item, depth)
    decreases item, 0
  {
    hide Parse, Accepted;
    ReadsIffAccepted(MemberOf(item, "key"), depth, sk);
    ReadsIffAccepted(MemberOf(item, "value"), depth, sk);
  }

  lemma {:induction false} MembersRead(ms: seq<Member>, depth: nat, sk: Strkeys)
    ensures ParseMembers(ms, depth, sk).Ok? <==> forall i :: 0 <= i < |ms| ==> AcceptedMember(ms[i], depth)
    decreases ms, 0
  {
    hide Parse, Accepted, AcceptedMember;
    ParseMembersSpec(ms, depth, sk);
    forall i | 0 <= i < |ms| ensures Parse(ms[i].value, depth, sk).Ok? <==> AcceptedMember(ms[i], depth) {
      MemberReads(ms[i], depth, sk);
    }
  }

  lemma {:induction false} MemberReads(m: Member, depth: nat, sk: Strkeys)
    ensures Parse(m.value, depth, sk).Ok? <==> AcceptedMember(m, depth)
    decreases m, 0
  {
    hide Parse, Accepted;
    ReadsIffAccepted(m.value, depth, sk);
  }

  // What looks like an instance is read exactly when its storage is.
  lemma {:induction false} InstanceReads(j: Json, depth: nat, sk: Strkeys)
    requires j.Object? && IsUnmarked(j, depth) && LooksInstance(j)
    ensures Parse(j, depth, sk).Ok? <==>
      MemberOf(j, "storage").Null? || Accepted(MemberOf(j, "storage"), depth + 1)
    decreases j, 0
  {
    hide Accepted, LooksMap, ErrorMarker, NonceMarker, Get, ParseExecutable;
    var storage := MemberOf(j, "storage");
    if !storage.Null? {
      ReadsIffAccepted(storage, depth + 1, sk);
      if Parse(storage, depth + 1, sk).Ok? {
        LooksRight(storage, depth + 1, sk);
      } else {
        MemberUnreadable(j, "storage", depth + 1, sk);
      }
    }
  }

  // What does not look like one is no instance.
  lemma NoInstance(j: Json, depth: nat, sk: Strkeys)
    requires j.Object? && IsUnmarked(j, depth) && !LooksInstance(j)
    ensures InstanceMarker(j, depth, sk).None?
  {
    hide LooksInstance, InstanceMarker, ErrorMarker, NonceMarker, Has;
    if InstanceMarker(j, depth, sk).Some? {
      LooksRight(j, depth, sk);
    }
  }

  /** So a value is read back from what it prints exactly when its document is `Accepted`. */
  lemma ReadBackIffAccepted(v: ScVal, sk: Strkeys)
    ensures Parse(ScValToJson.Convert(v, 0, sk), 0, sk).Ok? <==> Accepted(ScValToJson.Convert(v, 0, sk), 0)
  {
    ReadsIffAccepted(ScValToJson.Convert(v, 0, sk), 0, sk);
  }

  /* Contract-instance storage is read one level deeper than it is printed. */

  // A list nested n levels deep around v.
  function Nested(n: nat, v: ScVal): ScVal {
    if n == 0 then v else Vec([Nested(n - 1, v)])
  }

  // A contract instance whose storage holds one entry.
  const SMALL_INSTANCE: ScVal := ContractInstance(StellarAsset, Stored([Entry(Str("k"), Void)]))

  lemma {:induction false} NestedFits(n: nat, depth: nat)
    ensures Fits(Nested(n, SMALL_INSTANCE), depth) <==> depth + n <= MAX_DEPTH - 1
  {
    if n > 0 {
      NestedFits(n - 1, depth + 1);
      var items := [Nested(n - 1, SMALL_INSTANCE)];
      assert ItemsFit(items, depth + 1) <==> Fits(items[0], depth + 1);
    } else {
      var entries := [Entry(Str("k"), Void)];
      assert EntriesFit(entries, depth + 1) <==> EntryFits(entries[0], depth + 1);
    }
  }

  lemma {:induction false} NestedAccepted(n: nat, depth: nat, sk: Strkeys)
    ensures var j := ScValToJson.Convert(Nested(n, SMALL_INSTANCE), depth, sk);
      !IsPair(j) && (Accepted(j, depth) <==> depth + n <= MAX_DEPTH - 2)
  {
    hide IsPair, ScValToJson.Convert, Accepted;
    if n == 0 {
      SmallAccepted(depth, sk);
    } else {
      NestedAccepted(n - 1, depth + 1, sk);
      WrapAccepted(Nested(n - 1, SMALL_INSTANCE), depth, sk);
    }
  }

  lemma WrapAccepted(inner: ScVal, depth: nat, sk: Strkeys)
    requires !IsPair(ScValToJson.Convert(inner, depth + 1, sk))
    ensures var j := ScValToJson.Convert(Vec([inner]), depth, sk);
      !IsPair(j) &&
      (Accepted(j, depth) <==> depth <= MAX_DEPTH && Accepted(ScValToJson.Convert(inner, depth + 1, sk), depth + 1))
  {
    hide LeafJson, MapJson;
    if depth <= MAX_DEPTH {
      var item := ScValToJson.Convert(inner, depth + 1, sk);
      var items := ScValToJson.ConvertAll([inner], depth + 1, sk);
      assert items == [item] && !IsPair(items[0]);
      assert ScValToJson.Convert(Vec([inner]), depth, sk) == Json.Array(items);
    } else {
      TwoMembers(TRUNCATED.members);
    }
  }

  lemma SmallAccepted(depth: nat, sk: Strkeys)
    ensures var j := ScValToJson.Convert(SMALL_INSTANCE, depth, sk);
      !IsPair(j) && (Accepted(j, depth) <==> depth <= MAX_DEPTH - 2)
  {
    hide Get, ParseExecutable, ExecutableJson, MapJson, Accepted, ConvertEntries, LooksMap, InstanceJson;
    if depth > MAX_DEPTH {
      TwoMembers(TRUNCATED.members);
      TooDeep(TRUNCATED, depth);
    } else {
      var storage := MapJson(ConvertEntries([Entry(Str("k"), Void)], depth + 1, sk));
      var j := InstanceJson(StellarAsset, storage);
      SmallPrints(depth, sk);
      AssetMembers(storage);
      SmallStorage(depth + 1, sk);
      InstanceAccepted(j, storage, depth);
    }
  }

  lemma SmallPrints(depth: nat, sk: Strkeys)
    requires depth <= MAX_DEPTH
    ensures ScValToJson.Convert(SMALL_INSTANCE, depth, sk) ==
      InstanceJson(StellarAsset, MapJson(ConvertEntries([Entry(Str("k"), Void)], depth + 1, sk)))
  {
    hide MapJson, ConvertEntries, InstanceJson;
  }

  lemma AssetMembers(storage: Json)
    ensures var j := InstanceJson(StellarAsset, storage);
      && j.Object? && |j.members| == 2
      && Get(j.members, "executable") == Some(ExecutableJson(StellarAsset))
      && Get(j.members, "storage") == Some(storage)
      && ParseExecutable(ExecutableJson(StellarAsset)).Some?
      && !Has(j.members, "__truncated__") && !Has(j.members, "type") && !Has(j.members, "nonce")
      && !IsPair(j)
  {
    hide Get, ParseExecutable, ExecutableJson;
    TwoMembers(InstanceJson(StellarAsset, storage).members);
    ExecutableFaithful(StellarAsset);
  }

  lemma TooDeep(j: Json, depth: nat)
    requires depth > MAX_DEPTH
    ensures !Accepted(j, depth)
  {
  }

  // What it prints, and from where on it is accepted.
  lemma SmallStorage(depth: nat, sk: Strkeys)
    ensures var storage := MapJson(ConvertEntries([Entry(Str("k"), Void)], depth, sk));
      && !storage.Null? && (depth <= MAX_DEPTH ==> LooksMap(storage))
      && (Accepted(storage, depth) <==> depth <= MAX_DEPTH - 1)
  {
    if depth <= MAX_DEPTH {
      var c := Converted("k", Json.String("k"), Json.Null);
      assert ConvertEntries([Entry(Str("k"), Void)], depth, sk) == [c];
      assert [c][..0] == [];
      var ms := [Member("k", Json.Null)];
      assert ObjectOf([c]) == ms && MapJson([c]) == Json.Object(ms);
      assert ms[1..] == [];
      assert AcceptedMember(ms[0], depth + 1) <==> depth + 1 <= MAX_DEPTH;
    }
  }

  lemma InstanceAccepted(j: Json, storage: Json, depth: nat)
    requires depth <= MAX_DEPTH && j.Object? && |j.members| == 2 && !storage.Null?
    requires Get(j.members, "executable").Some? && ParseExecutable(Get(j.members, "executable").value).Some?
    requires Get(j.members, "storage") == Some(storage)
    requires !Has(j.members, "__truncated__") && !Has(j.members, "type") && !Has(j.members, "nonce")
    requires depth < MAX_DEPTH ==> LooksMap(storage)
    ensures Accepted(j, depth) <==> depth < MAX_DEPTH && Accepted(storage, depth + 1)
  {
    hide Get, ParseExecutable, LooksMap;
    if depth == MAX_DEPTH {
      TooDeep(storage, depth + 1);
      TooDeep(j.members[0].value, depth + 1);
      assert !AcceptedMember(j.members[0], depth + 1);
    }
  }

  /** Nested n levels deep, the instance prints untruncated for n up to 99 and is read back for n up to 98. */
  lemma StorageDepthMismatch(n: nat, sk: Strkeys)
    ensures var v := Nested(n, SMALL_INSTANCE);
      && (Fits(v, 0) <==> n <= MAX_DEPTH - 1)
      && (Parse(ScValToJson.Convert(v, 0, sk), 0, sk).Ok? <==> n <= MAX_DEPTH - 2)
  {
    hide Parse, Accepted, Fits;
    NestedFits(n, 0);
    NestedAccepted(n, 0, sk);
    ReadBackIffAccepted(Nested(n, SMALL_INSTANCE), sk);
  }
}
