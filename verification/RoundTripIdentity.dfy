/**
 Which values come back from their own JSON: types are inferred again, so only those that inference would choose.
 */
module RoundTripIdentity {
  import opened Common
  import opened Decimal
  import opened Json
  import opened ScVals
  import opened ScValToJson
  import opened JsonToScVal
  import opened RoundTrip
  import opened RoundTripJson
  import opened RoundTripValue
  import U256
  import Hex

  predicate ComesBack(v: ScVal, depth: nat, sk: Strkeys) {
    Parse(ScValToJson.Convert(v, depth, sk), depth, sk) == Ok(v)
  }

  // A text that is read as nothing but a text.
  predicate PlainText(s: string, sk: Strkeys) {
    s != "LedgerKeyContractInstance" && ParseHex(s).None? && ParseAddress(s, sk).None? && !IsWide(s)
  }

  // The value is the one its document is taken for: integers are of the narrowest type, unsigned first, or, from 64
  // bits on, by range; texts are plain strings; nothing is a symbol, a time, 256 bits wide, or absent.
  predicate Inferred(v: ScVal, depth: nat, sk: Strkeys)
    decreases v, 2
  {
    depth <= MAX_DEPTH &&
    match v
    case Void => true
    case Bool(_) => true
    case U32(_) => true
    case Bytes(_) => true
    case LedgerKeyContractInstance => true
    case LedgerKeyNonce(_) => true
    case I32(i) => i < 0
    case U64(u) => u > 0xFFFF_FFFF
    case I64(i) => i < -0x8000_0000
    case U128(hi, _) => hi > 0
    case I128(hi, lo) => var z := U256.I128Value(hi, lo); z < I64_MIN || I64_MAX < z <= U64_MAX
    case Str(s) => PlainText(s, sk)
    case Address(_) => true
    case Error(err) => CodeKnown(err)
    case Vec(items) =>
      && !IsLossless(ScValToJson.ConvertAll(items, depth + 1, sk))
      && forall i :: 0 <= i < |items| ==> Inferred(items[i], depth + 1, sk)
    case Map(entries) => InferredEntries(entries, depth + 1, sk)
    case ContractInstance(_, NoStorage) => true
    case ContractInstance(_, Stored(entries)) => depth < MAX_DEPTH && InferredEntries(entries, depth + 2, sk)
    case _ => false
  }

  // A map with colliding keys, or one whose keys are what is read from their texts, in the order of the texts, and
  // which carries no mark.
  predicate InferredEntries(entries: seq<Entry>, depth: nat, sk: Strkeys)
    decreases entries, 1
  {
    var conv := ConvertEntries(entries, depth, sk);
    if Collides(conv) then forall i :: 0 <= i < |entries| ==> InferredEntry(entries[i], depth, sk)
    else
      && LooksMap(Json.Object(ObjectOf(conv))) && Ascending(conv)
      && forall i :: 0 <= i < |entries| ==>
           entries[i].key == ParseString(conv[i].text, sk) && InferredValue(entries[i], depth, sk)
  }

  predicate InferredEntry(e: Entry, depth: nat, sk: Strkeys)
    decreases e, 0
  {
    Inferred(e.key, depth, sk) && Inferred(e.val, depth, sk)
  }

  predicate InferredValue(e: Entry, depth: nat, sk: Strkeys)
    decreases e, 0
  {
    Inferred(e.val, depth, sk)
  }

  predicate Ascending(conv: seq<Converted>) {
    forall i, j :: 0 <= i < j < |conv| ==> StringLess(conv[i].text, conv[j].text)
  }

  /* Values without parts. */

  // A decimal text is nothing but a number, and one of this value.
  lemma DecimalRead(z: int, sk: Strkeys)
    requires I128_MIN <= z <= U128_MAX
    ensures var s := IntText(z);
      && ParseHex(s).None? && ParseAddress(s, sk).None? && s != "LedgerKeyContractInstance"
      && ParseU128(s) == (if z >= 0 then Some(z) else None)
      && ParseI128(s) == if z <= I128_MAX then Some(z) else None
  {
    hide Text, Value;
    var s := IntText(z);
    TextIsCanonical(if z < 0 then -z else z);
    assert z < 0 ==> s[1..] == Text(-z) && s[0] == '-';
    assert IsDigit(s[0]) || s[0] == '-';
    assert |s| >= 2 ==> s[..2][0] == s[0] && s[..2][1] == s[1];
  }

  lemma WideRead(z: int, sk: Strkeys)
    requires I128_MIN <= z <= U128_MAX
    ensures ParseString(IntText(z), sk) ==
      if z > U64_MAX then WideUnsigned(z) else if z < I64_MIN || z > I64_MAX then WideSigned(z) else Str(IntText(z))
  {
    hide ParseHex, ParseAddress, ParseU128, ParseI128, IntText;
    DecimalRead(z, sk);
  }

  // The two halves of a wide number.
  lemma Halves(hi: int, lo: int)
    requires 0 <= lo < U256.TWO64
    ensures (hi * U256.TWO64 + lo) / U256.TWO64 == hi && (hi * U256.TWO64 + lo) % U256.TWO64 == lo
  {
  }

  lemma WidesComeBack(v: ScVal, depth: nat, sk: Strkeys)
    requires depth <= MAX_DEPTH && (v.U128? || v.I128? || v.U256? || v.I256?)
    ensures ComesBack(v, depth, sk) <==> Inferred(v, depth, sk)
  {
    hide Text, IntText, U256.U256Value, U256.I256Value, ParseHex, ParseAddress, ParseU128, ParseI128;
    match v
    case U128(hi, lo) =>
      PlainIntText(U256.U128Value(hi, lo));
      WideRead(U256.U128Value(hi, lo), sk);
      Halves(hi, lo);
    case I128(hi, lo) =>
      WideRead(U256.I128Value(hi, lo), sk);
      Halves(hi, lo);
    case _ =>
  }

  lemma PlainIntText(n: nat)
    ensures IntText(n) == Text(n)
  {
  }

  lemma TextsComeBack(v: ScVal, depth: nat, sk: Strkeys)
    requires Lawful(sk) && depth <= MAX_DEPTH && (v.Str? || v.Symbol? || v.Address? || v.Bytes?)
    ensures ComesBack(v, depth, sk) <==> Inferred(v, depth, sk)
  {
    hide ParseString, Hex.Encode;
    match v
    case Str(s) => TextRead(s, sk);
    case Symbol(s) => TextRead(s, sk);
    case Bytes(bytes) => HexRead(bytes, sk);
    case Address(a) => AddressRead(a, sk);
  }

  lemma TextRead(s: string, sk: Strkeys)
    ensures ParseString(s, sk) == Str(s) <==> PlainText(s, sk)
    ensures !ParseString(s, sk).Symbol?
  {
    hide ParseHex, ParseAddress, ParseU128, ParseI128;
  }

  lemma HexRead(bytes: seq<Hex.byte>, sk: Strkeys)
    ensures ParseString(HexText(bytes), sk) == Bytes(bytes)
  {
    hide Hex.Decode, Hex.Encode;
    Hex.DecodeEncode(bytes);
    var s := HexText(bytes);
    assert s[..2] == "0x" && s[2..] == Hex.Encode(bytes);
    assert s[0] == '0';
  }

  lemma AddressRead(a: ScAddress, sk: Strkeys)
    requires Lawful(sk)
    ensures ParseString(sk.encode(a), sk) == Address(a)
  {
    hide Value;
    var s := sk.encode(a);
    match a {
      case Account(key) => assert sk.account(s) == Some(key);
      case Contract(id) => assert sk.contract(s) == Some(id);
    }
    assert |s| >= 2 ==> s[..2][0] == s[0];
    assert ParseHex(s).None? && ParseU128(s).None? && ParseI128(s).None?;
  }

  lemma ErrorComesBack(v: ScVal, depth: nat, sk: Strkeys)
    requires depth <= MAX_DEPTH && v.Error?
    ensures ComesBack(v, depth, sk) <==> Inferred(v, depth, sk)
  {
    hide ErrorMarker, Get, CodeKnown, ErrorJson;
    LeafWellFormed(v, sk);
    ErrorRead(v.err);
    ErrorMembers(v.err);
    assert ScValToJson.Convert(v, depth, sk) == ErrorJson(v.err);
    assert !CodeKnown(v.err) ==> InstanceMarker(ErrorJson(v.err), depth, sk).None?;
  }

  lemma ErrorMembers(err: ScError)
    ensures var ms := ErrorJson(err).members;
      ErrorJson(err).Object? && |ms| == 2 && !Has(ms, "__truncated__") && !Has(ms, "executable")
  {
    hide Get;
    TwoMembers(ErrorJson(err).members);
  }

  lemma LeafComesBack(v: ScVal, depth: nat, sk: Strkeys)
    requires Lawful(sk) && depth <= MAX_DEPTH && !IsContainer(v)
    ensures ComesBack(v, depth, sk) <==> Inferred(v, depth, sk)
  {
    if v.U128? || v.I128? || v.U256? || v.I256? {
      WidesComeBack(v, depth, sk);
    } else if v.Str? || v.Symbol? || v.Address? || v.Bytes? {
      TextsComeBack(v, depth, sk);
    } else if v.Error? {
      ErrorComesBack(v, depth, sk);
    } else {
      SmallComesBack(v, depth, sk);
    }
  }

  // Numbers of up to 64 bits, constants and the nonce key.
  lemma SmallComesBack(v: ScVal, depth: nat, sk: Strkeys)
    requires depth <= MAX_DEPTH && !IsContainer(v) && !v.Error?
    requires !v.U128? && !v.I128? && !v.U256? && !v.I256? && !v.Str? && !v.Symbol? && !v.Address? && !v.Bytes?
    ensures ComesBack(v, depth, sk) <==> Inferred(v, depth, sk)
  {
    hide ParseHex, ParseAddress, ParseU128, ParseI128, Text, IntText;
    if v.LedgerKeyNonce? {
      var ms := LeafJson(v, sk).members;
      assert ms[1..] == [] && Get(ms[1..], "type").None? && Get(ms[1..], "__truncated__").None?;
    }
  }

  /* Vectors. */

  lemma {:induction false} VecComesBack(v: ScVal, depth: nat, sk: Strkeys)
    requires Lawful(sk) && depth <= MAX_DEPTH && v.Vec?
    ensures ComesBack(v, depth, sk) <==> Inferred(v, depth, sk)
    decreases v, 2
  {
    hide Parse, ScValToJson.Convert, IsLossless, ComesBack, Inferred;
    VecUnfolds(v.items, depth, sk);
    var printed := ScValToJson.ConvertAll(v.items, depth + 1, sk);
    if !IsLossless(printed) {
      ParseAllSpec(printed, depth + 1, sk);
      forall i | 0 <= i < |v.items|
        ensures Parse(printed[i], depth + 1, sk) == Ok(v.items[i]) <==> Inferred(v.items[i], depth + 1, sk)
      {
        ComesBackIffInferred(v.items[i], depth + 1, sk);
        BackIs(v.items[i], depth + 1, sk);
      }
      SameItems(printed, v.items, depth + 1, sk);
    }
  }

  lemma BackIs(v: ScVal, depth: nat, sk: Strkeys)
    ensures ComesBack(v, depth, sk) <==> Parse(ScValToJson.Convert(v, depth, sk), depth, sk) == Ok(v)
  {
  }

  lemma VecUnfolds(items: seq<ScVal>, depth: nat, sk: Strkeys)
    requires depth <= MAX_DEPTH
    ensures var printed := ScValToJson.ConvertAll(items, depth + 1, sk);
      && (ComesBack(Vec(items), depth, sk) <==> !IsLossless(printed) && ParseAll(printed, depth + 1, sk) == Ok(items))
      && (Inferred(Vec(items), depth, sk) <==>
           !IsLossless(printed) && forall i :: 0 <= i < |items| ==> Inferred(items[i], depth + 1, sk))
  {
    hide IsLossless;
    assert ScValToJson.Convert(Vec(items), depth, sk) == Json.Array(ScValToJson.ConvertAll(items, depth + 1, sk));
  }

  lemma SameItems(printed: seq<Json>, items: seq<ScVal>, depth: nat, sk: Strkeys)
    requires |printed| == |items|
    ensures ParseAll(printed, depth, sk) == Ok(items) <==>
      forall i :: 0 <= i < |items| ==> Parse(printed[i], depth, sk) == Ok(items[i])
  {
    hide Parse;
    ParseAllSpec(printed, depth, sk);
    var r := ParseAll(printed, depth, sk);
    if forall i :: 0 <= i < |items| ==> Parse(printed[i], depth, sk) == Ok(items[i]) {
      assert r.Ok? && r.value == items;
    }
  }

  /* Maps. */

  // Entries come back as those of a map.
  predicate EntriesComeBack(entries: seq<Entry>, depth: nat, sk: Strkeys) {
    Parse(MapJson(ConvertEntries(entries, depth + 1, sk)), depth, sk) == Ok(Map(entries))
  }

  lemma {:induction false} EntriesIff(entries: seq<Entry>, depth: nat, sk: Strkeys)
    requires Lawful(sk) && depth <= MAX_DEPTH
    ensures EntriesComeBack(entries, depth, sk) <==> InferredEntries(entries, depth + 1, sk)
    decreases entries, 1
  {
    hide Collides, EntriesComeBack, InferredEntries, ConvertEntries;
    if Collides(ConvertEntries(entries, depth + 1, sk)) {
      CollidingIff(entries, depth, sk);
    } else {
      PlainIff(entries, depth, sk);
    }
  }

  // Colliding keys: a list of pairs.
  lemma {:induction false} CollidingIff(entries: seq<Entry>, depth: nat, sk: Strkeys)
    requires Lawful(sk) && depth <= MAX_DEPTH && Collides(ConvertEntries(entries, depth + 1, sk))
    ensures EntriesComeBack(entries, depth, sk) <==> InferredEntries(entries, depth + 1, sk)
    decreases entries, 0
  {
    hide Parse, ConvertEntry, Collides, IsPair, LosslessItem, InferredEntry, ParsesTo;
    var conv := ConvertEntries(entries, depth + 1, sk);
    var items := LosslessItems(conv);
    PairsUnfold(conv, entries, depth, sk);
    forall i | 0 <= i < |entries|
      ensures ParsesTo(items[i], entries[i], depth + 1, sk) <==> InferredEntry(entries[i], depth + 1, sk)
    {
      EntryIff(entries[i], depth + 1, sk);
    }
  }

  lemma PairsUnfold(conv: seq<Converted>, entries: seq<Entry>, depth: nat, sk: Strkeys)
    requires depth <= MAX_DEPTH && Collides(conv) && |conv| == |entries|
    requires forall i :: 0 <= i < |conv| ==> conv[i].text == KeyText(conv[i].key)
    ensures var items := LosslessItems(conv);
      && (forall i :: 0 <= i < |items| ==> IsPair(items[i]))
      && (Parse(MapJson(conv), depth, sk) == Ok(Map(entries)) <==>
           forall i :: 0 <= i < |items| ==> ParsesTo(items[i], entries[i], depth + 1, sk))
  {
    hide IsPair, LosslessItem, KeyText, ParsesTo;
    var items := LosslessItems(conv);
    assert conv != [];
    forall i | 0 <= i < |items| ensures IsPair(items[i]) {
      LosslessParts(conv[i]);
    }
    assert IsLossless(items);
    assert MapJson(conv) == Json.Array(items);
    SamePairs(items, entries, depth + 1, sk);
  }

  lemma SamePairs(items: seq<Json>, entries: seq<Entry>, depth: nat, sk: Strkeys)
    requires |items| == |entries| && forall i :: 0 <= i < |items| ==> IsPair(items[i])
    ensures ParsePairs(items, depth, sk) == Ok(entries) <==>
      forall i :: 0 <= i < |items| ==> ParsesTo(items[i], entries[i], depth, sk)
  {
    hide Parse, IsPair;
    ParsePairsSpec(items, depth, sk);
    var r := ParsePairs(items, depth, sk);
    if forall i :: 0 <= i < |items| ==> ParsesTo(items[i], entries[i], depth, sk) {
      forall i | 0 <= i < |items| ensures PairParses(items[i], depth, sk) && r.Ok? ==> r.value[i] == entries[i] {
        assert ParsesTo(items[i], entries[i], depth, sk);
      }
      assert r.Ok? && r.value == entries;
    }
  }

  lemma {:induction false} EntryIff(e: Entry, depth: nat, sk: Strkeys)
    requires Lawful(sk)
    ensures var item := LosslessItem(ConvertEntry(e, depth, sk));
      IsPair(item) && (ParsesTo(item, e, depth, sk) <==> InferredEntry(e, depth, sk))
    decreases e, 0
  {
    hide Parse, ScValToJson.Convert, Inferred, IsPair;
    LosslessParts(ConvertEntry(e, depth, sk));
    ComesBackIffInferred(e.key, depth, sk);
    ComesBackIffInferred(e.val, depth, sk);
    assert PairOf(LosslessItem(ConvertEntry(e, depth, sk))) == ConvertEntry(e, depth, sk);
  }

  // Different keys: an object.
  lemma {:induction false} PlainIff(entries: seq<Entry>, depth: nat, sk: Strkeys)
    requires Lawful(sk) && depth <= MAX_DEPTH && !Collides(ConvertEntries(entries, depth + 1, sk))
    ensures EntriesComeBack(entries, depth, sk) <==> InferredEntries(entries, depth + 1, sk)
    decreases entries, 0
  {
    hide Parse, ConvertEntry, Collides, InferredValue, LooksMap, Ascending, ReadsAs, ObjectOf, EntriesComeBack,
         InferredEntries;
    var conv := ConvertEntries(entries, depth + 1, sk);
    var ms := ObjectOf(conv);
    PlainUnfolds(conv, entries, depth, sk);
    if LooksMap(Json.Object(ms)) {
      if ReadsAs(ms, entries, depth + 1, sk) {
        KeysAscend(entries, conv, depth + 1, sk);
      }
      if Ascending(conv) {
        forall i | 0 <= i < |entries|
          ensures Parse(conv[i].value, depth + 1, sk) == Ok(entries[i].val) <==>
            InferredValue(entries[i], depth + 1, sk)
        {
          ValueIff(entries[i], depth + 1, sk);
        }
        ReadInOrder(conv, entries, depth + 1, sk);
      }
    }
  }

  lemma PlainUnfolds(conv: seq<Converted>, entries: seq<Entry>, depth: nat, sk: Strkeys)
    requires depth <= MAX_DEPTH && conv == ConvertEntries(entries, depth + 1, sk) && !Collides(conv)
    ensures EntriesComeBack(entries, depth, sk) <==>
      LooksMap(Json.Object(ObjectOf(conv))) && ReadsAs(ObjectOf(conv), entries, depth + 1, sk)
    ensures InferredEntries(entries, depth + 1, sk) <==>
      && LooksMap(Json.Object(ObjectOf(conv))) && Ascending(conv)
      && forall i :: 0 <= i < |entries| ==>
           entries[i].key == ParseString(conv[i].text, sk) && InferredValue(entries[i], depth + 1, sk)
  {
    hide Parse, Collides, LooksMap, Ascending, ReadsAs, ObjectOf, InferredValue, InferredEntry, ConvertEntries,
         ParseString;
    ObjectUnfolds(ObjectOf(conv), entries, depth, sk);
  }

  // Reading an object whose members are the entries, in order.
  lemma ReadInOrder(conv: seq<Converted>, entries: seq<Entry>, depth: nat, sk: Strkeys)
    requires Ascending(conv) && |conv| == |entries|
    ensures ReadsAs(ObjectOf(conv), entries, depth, sk) <==>
      forall i :: 0 <= i < |entries| ==>
        entries[i].key == ParseString(conv[i].text, sk) && Parse(conv[i].value, depth, sk) == Ok(entries[i].val)
  {
    hide Parse, ParseString, ObjectOf, Ascending;
    InOrder(conv);
  }

  // Entries read from the members of an object.
  predicate ReadsAs(ms: seq<Member>, entries: seq<Entry>, depth: nat, sk: Strkeys) {
    && |ms| == |entries|
    && forall i :: 0 <= i < |ms| ==>
         entries[i].key == ParseString(ms[i].key, sk) && Parse(ms[i].value, depth, sk) == Ok(entries[i].val)
  }

  lemma ObjectUnfolds(ms: seq<Member>, entries: seq<Entry>, depth: nat, sk: Strkeys)
    requires depth <= MAX_DEPTH
    ensures Parse(Json.Object(ms), depth, sk) == Ok(Map(entries)) <==>
      LooksMap(Json.Object(ms)) && ReadsAs(ms, entries, depth + 1, sk)
  {
    hide LooksMap, ErrorMarker, NonceMarker, InstanceMarker, ReadsAs;
    var j := Json.Object(ms);
    if Parse(j, depth, sk).Ok? {
      LooksRight(j, depth, sk);
    }
    if LooksMap(j) {
      MapUnmarked(j, depth, sk);
    }
    SameMembers(ms, entries, depth + 1, sk);
  }

  // What looks like a map carries no mark.
  lemma MapUnmarked(j: Json, depth: nat, sk: Strkeys)
    requires depth <= MAX_DEPTH && j.Object? && LooksMap(j)
    ensures IsUnmarked(j, depth) && InstanceMarker(j, depth, sk).None?
  {
    hide ErrorMarker, NonceMarker, InstanceMarker, Has, LooksInstance;
    if InstanceMarker(j, depth, sk).Some? {
      LooksRight(j, depth, sk);
    }
  }

  lemma SameMembers(ms: seq<Member>, entries: seq<Entry>, depth: nat, sk: Strkeys)
    ensures ParseMembers(ms, depth, sk) == Ok(entries) <==> ReadsAs(ms, entries, depth, sk)
  {
    hide Parse, ParseString;
    ParseMembersSpec(ms, depth, sk);
    var r := ParseMembers(ms, depth, sk);
    if ReadsAs(ms, entries, depth, sk) {
      assert r.Ok? && forall i :: 0 <= i < |ms| ==> r.value[i] == Entry(entries[i].key, entries[i].val);
      assert r.value == entries;
    }
  }

  // The texts of keys that were read from an object, printed again, ascend.
  lemma KeysAscend(entries: seq<Entry>, conv: seq<Converted>, depth: nat, sk: Strkeys)
    requires Lawful(sk) && conv == ConvertEntries(entries, depth, sk) && ReadsAs(ObjectOf(conv), entries, depth, sk)
    ensures Ascending(conv)
  {
    hide Parse, ScValToJson.Convert, ParseString, Canonicalize, Insert;
    var ms := ObjectOf(conv);
    forall i | 0 <= i < |ms| ensures conv[i].text == Canonicalize(ms[i].key, sk) {
      assert conv[i] == ConvertEntry(entries[i], depth, sk);
      StringPrints(ms[i], entries[i], depth, sk);
    }
    assert Reprints(ms, conv, sk);
    KeysUnmoved(ms, conv, sk);
    ObjectSorted(conv);
  }

  lemma {:induction false} ObjectSorted(conv: seq<Converted>)
    ensures Sorted(ObjectOf(conv))
  {
    hide Insert, Sorted;
    if conv != [] {
      var last := conv[|conv| - 1];
      ObjectSorted(conv[..|conv| - 1]);
      InsertSorted(ObjectOf(conv[..|conv| - 1]), last.text, last.value);
    } else {
      assert Sorted([]) by { NothingSorted(); }
    }
  }

  lemma NothingSorted()
    ensures Sorted([])
  {
  }

  // Ascending entries make an object in their order.
  lemma InOrder(conv: seq<Converted>)
    requires Ascending(conv)
    ensures var ms := ObjectOf(conv);
      |ms| == |conv| && forall i :: 0 <= i < |conv| ==> ms[i] == Member(conv[i].text, conv[i].value)
  {
    hide ObjectOf, StringLess;
    var ms := seq(|conv|, i requires 0 <= i < |conv| => Member(conv[i].text, conv[i].value));
    assert Sorted(ms);
    ObjectInOrder(ms, conv);
  }

  lemma {:induction false} ValueIff(e: Entry, depth: nat, sk: Strkeys)
    requires Lawful(sk)
    ensures Parse(ConvertEntry(e, depth, sk).value, depth, sk) == Ok(e.val) <==> InferredValue(e, depth, sk)
    decreases e, 0
  {
    hide Parse, ScValToJson.Convert, Inferred;
    ComesBackIffInferred(e.val, depth, sk);
  }

  /* Contract instances. */

  lemma {:induction false} InstanceComesBack(v: ScVal, depth: nat, sk: Strkeys)
    requires Lawful(sk) && depth <= MAX_DEPTH && v.ContractInstance?
    ensures ComesBack(v, depth, sk) <==> Inferred(v, depth, sk)
    decreases v, 1
  {
    hide Parse, ScValToJson.Convert, ComesBack, InferredEntries, StorageComesBack;
    InstanceUnfolds(v, depth, sk);
    if v.storage.Stored? {
      StorageIff(v.storage, depth, sk);
    }
  }

  // Storage is printed at one depth and read one deeper.
  predicate StorageComesBack(s: Storage, depth: nat, sk: Strkeys)
    requires s.Stored?
  {
    Parse(MapJson(ConvertEntries(s.entries, depth + 1, sk)), depth + 1, sk) == Ok(Map(s.entries))
  }

  lemma InstanceUnfolds(v: ScVal, depth: nat, sk: Strkeys)
    requires depth <= MAX_DEPTH && v.ContractInstance?
    ensures ComesBack(v, depth, sk) <==> v.storage.NoStorage? || StorageComesBack(v.storage, depth, sk)
  {
    hide ExecutableJson, ParseExecutable, Get, MapJson, ErrorMarker, NonceMarker;
    var storage := StorageJson(v.storage, depth + 1, sk);
    var j := InstanceJson(v.executable, storage);
    assert ScValToJson.Convert(v, depth, sk) == j;
    TwoMembers(j.members);
    ExecutableFaithful(v.executable);
    NoMarks(j.members);
    if v.storage.Stored? {
      MapIsNotNull(v.storage, depth + 1, sk);
    }
    InstanceParses(j, v.executable, storage, depth, sk);
  }

  lemma NoMarks(ms: seq<Member>)
    requires |ms| == 2 && !Has(ms, "type") && !Has(ms, "nonce")
    ensures ErrorMarker(ms).None? && NonceMarker(ms).None?
  {
    hide Get;
  }

  lemma MapIsNotNull(s: Storage, depth: nat, sk: Strkeys)
    requires s.Stored?
    ensures !MapJson(ConvertEntries(s.entries, depth, sk)).Null?
  {
  }

  lemma InstanceParses(j: Json, exec: Executable, storage: Json, depth: nat, sk: Strkeys)
    requires IsUnmarked(j, depth) && Has(j.members, "executable") && Has(j.members, "storage")
    requires ParseExecutable(MemberOf(j, "executable")) == Some(exec) && MemberOf(j, "storage") == storage
    ensures storage.Null? ==> Parse(j, depth, sk) == Ok(ContractInstance(exec, NoStorage))
    ensures !storage.Null? ==> forall s: Storage, e ::
      Parse(j, depth, sk) == Ok(ContractInstance(e, s)) <==>
        s.Stored? && e == exec && Parse(storage, depth + 1, sk) == Ok(Map(s.entries))
  {
    hide ParseExecutable, Get, ErrorMarker, NonceMarker;
  }

  lemma {:induction false} StorageIff(s: Storage, depth: nat, sk: Strkeys)
    requires Lawful(sk) && depth <= MAX_DEPTH && s.Stored?
    ensures StorageComesBack(s, depth, sk) <==> depth < MAX_DEPTH && InferredEntries(s.entries, depth + 2, sk)
    decreases s, 0
  {
    hide InferredEntries, MapJson, Parse, EntriesFit;
    if depth < MAX_DEPTH {
      EntriesIff(s.entries, depth + 1, sk);
      if StorageComesBack(s, depth, sk) {
        EntriesRead(s.entries, MapJson(ConvertEntries(s.entries, depth + 1, sk)), depth + 1, sk);
      } else if EntriesComeBack(s.entries, depth + 1, sk) {
        EntriesRead(s.entries, MapJson(ConvertEntries(s.entries, depth + 2, sk)), depth + 1, sk);
      }
    } else {
      TooDeepToRead(MapJson(ConvertEntries(s.entries, depth + 1, sk)), depth + 1, sk);
    }
  }

  lemma TooDeepToRead(j: Json, depth: nat, sk: Strkeys)
    requires depth > MAX_DEPTH
    ensures Parse(j, depth, sk).Err?
  {
  }

  // Entries that were read print the same one level further up.
  lemma EntriesRead(entries: seq<Entry>, j: Json, depth: nat, sk: Strkeys)
    requires Parse(j, depth, sk) == Ok(Map(entries))
    ensures ConvertEntries(entries, depth, sk) == ConvertEntries(entries, depth + 1, sk)
  {
    hide Parse, EntriesFit, ConvertEntries;
    ParseFits(j, depth, sk);
    EntriesFitAbove(entries, depth + 1, depth, sk);
  }

  /* All values. */

  /** A value is what is read from its own JSON if and only if it is `Inferred`. */
  lemma {:induction false} ComesBackIffInferred(v: ScVal, depth: nat, sk: Strkeys)
    requires Lawful(sk)
    ensures ComesBack(v, depth, sk) <==> Inferred(v, depth, sk)
    decreases v, 3
  {
    hide ComesBack;
    if depth > MAX_DEPTH {
      TooDeepToComeBack(v, depth, sk);
    } else if v.Vec? {
      VecComesBack(v, depth, sk);
    } else if v.Map? {
      MapComesBack(v, depth, sk);
    } else if v.ContractInstance? {
      InstanceComesBack(v, depth, sk);
    } else {
      LeafComesBack(v, depth, sk);
    }
  }

  lemma TooDeepToComeBack(v: ScVal, depth: nat, sk: Strkeys)
    requires depth > MAX_DEPTH
    ensures !ComesBack(v, depth, sk)
  {
  }

  lemma {:induction false} MapComesBack(v: ScVal, depth: nat, sk: Strkeys)
    requires Lawful(sk) && depth <= MAX_DEPTH && v.Map?
    ensures ComesBack(v, depth, sk) <==> Inferred(v, depth, sk)
    decreases v, 2
  {
    hide Parse, InferredEntries, MapJson;
    MapPrints(v.entries, depth, sk);
    EntriesIff(v.entries, depth, sk);
  }

  /** No symbol and no point in time comes back: the one is read as a text, the other as a number. */
  lemma SymbolsAndTimesChange(s: string, t: U256.u64, sk: Strkeys)
    requires Lawful(sk)
    ensures !ComesBack(Symbol(s), 0, sk) && !ComesBack(Timepoint(t), 0, sk)
    ensures Parse(ScValToJson.Convert(Symbol("transfer"), 0, sk), 0, sk) == Ok(Str("transfer"))
  {
    hide ComesBack, ParseString;
    ComesBackIffInferred(Symbol(s), 0, sk);
    ComesBackIffInferred(Timepoint(t), 0, sk);
    TransferRead(sk);
  }

  lemma TransferRead(sk: Strkeys)
    ensures ParseString("transfer", sk) == Str("transfer")
  {
    hide Value;
    assert "transfer"[..2][0] == 't';
  }
}
