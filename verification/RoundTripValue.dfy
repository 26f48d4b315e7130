/**
 What the document theorem says about Soroban values: which of them print to JSON that reads back.
 */
module RoundTripValue {
  import opened Common
  import opened Decimal
  import opened Json
  import opened ScVals
  import opened ScValToJson
  import opened JsonToScVal
  import opened RoundTrip
  import opened RoundTripJson

  /* Printing always yields well-formed JSON. */

  lemma {:induction false} PrintsWellFormed(v: ScVal, depth: nat, sk: Strkeys)
    ensures WellFormed(ScValToJson.Convert(v, depth, sk))
    decreases v, 1
  {
    hide MapJson, ErrorJson, InstanceJson, LeafJson;
    if depth > MAX_DEPTH {
      assert StringLess("__truncated__", "reason");
    } else {
      match v
      case Vec(items) =>
        forall i | 0 <= i < |items| ensures WellFormed(ScValToJson.Convert(items[i], depth + 1, sk)) {
          PrintsWellFormed(items[i], depth + 1, sk);
        }
      case Map(entries) => EntriesWellFormed(entries, depth + 1, sk);
      case ContractInstance(exec, storage) =>
        StorageWellFormed(storage, depth + 1, sk);
        InstanceWellFormed(exec, StorageJson(storage, depth + 1, sk));
      case _ => LeafWellFormed(v, sk);
    }
  }

  lemma LeafWellFormed(v: ScVal, sk: Strkeys)
    requires !IsContainer(v)
    ensures WellFormed(LeafJson(v, sk))
    ensures v.Error? ==> LeafJson(v, sk) == ErrorJson(v.err)
  {
    hide ErrorJson, Text, IntText;
    if v.Error? {
      ErrorWellFormed(v.err);
    }
  }

  lemma InstanceWellFormed(exec: Executable, storage: Json)
    requires WellFormed(storage)
    ensures WellFormed(InstanceJson(exec, storage))
  {
    assert StringLess("type", "wasmHash") && StringLess("executable", "storage");
    assert WellFormed(ExecutableJson(exec));
  }

  lemma ErrorWellFormed(err: ScError)
    ensures WellFormed(ErrorJson(err))
  {
    assert StringLess("code", "type");
  }

  lemma {:induction false} EntryWellFormed(e: Entry, depth: nat, sk: Strkeys)
    ensures WellFormed(ConvertEntry(e, depth, sk).key) && WellFormed(ConvertEntry(e, depth, sk).value)
    decreases e, 0
  {
    PrintsWellFormed(e.key, depth, sk);
    PrintsWellFormed(e.val, depth, sk);
  }

  lemma {:induction false} EntriesWellFormed(entries: seq<Entry>, depth: nat, sk: Strkeys)
    ensures WellFormed(MapJson(ConvertEntries(entries, depth, sk)))
    decreases entries, 0
  {
    hide ConvertEntry;
    var conv := ConvertEntries(entries, depth, sk);
    forall i | 0 <= i < |conv| ensures WellFormed(conv[i].key) && WellFormed(conv[i].value) {
      EntryWellFormed(entries[i], depth, sk);
    }
    MapWellFormed(conv);
  }

  lemma {:induction false} StorageWellFormed(s: Storage, depth: nat, sk: Strkeys)
    ensures WellFormed(StorageJson(s, depth, sk))
    decreases s, 0
  {
    hide MapJson;
    if s.Stored? {
      EntriesWellFormed(s.entries, depth, sk);
    }
  }

  lemma MapWellFormed(conv: seq<Converted>)
    requires forall i :: 0 <= i < |conv| ==> WellFormed(conv[i].key) && WellFormed(conv[i].value)
    ensures WellFormed(MapJson(conv))
  {
    hide Collides, Insert;
    if Collides(conv) {
      assert StringLess("key", "value");
      forall i | 0 <= i < |conv| ensures WellFormed(LosslessItems(conv)[i]) {
        assert WellFormed(LosslessItem(conv[i]));
      }
    } else {
      ObjectWellFormed(conv);
    }
  }

  lemma {:induction false} ObjectWellFormed(conv: seq<Converted>)
    requires forall i :: 0 <= i < |conv| ==> WellFormed(conv[i].value)
    ensures WellFormed(Json.Object(ObjectOf(conv)))
    decreases |conv|
  {
    if conv != [] {
      var n := |conv| - 1;
      var before := ObjectOf(conv[..n]);
      ObjectWellFormed(conv[..n]);
      InsertSorted(before, conv[n].text, conv[n].value);
      InsertKeys(before, conv[n].text, conv[n].value);
      forall i | 0 <= i < |ObjectOf(conv)| ensures WellFormed(ObjectOf(conv)[i].value) {
        assert ObjectOf(conv)[i] in ObjectOf(conv);
      }
    }
  }

  /** Every value: its JSON is reproduced by reading and printing exactly when it is `Faithful`. */
  lemma PrintParsePrint(v: ScVal, sk: Strkeys)
    requires Lawful(sk)
    ensures var j := ScValToJson.Convert(v, 0, sk);
      (Parse(j, 0, sk).Ok? && ScValToJson.Convert(Parse(j, 0, sk).value, 0, sk) == j) <==> Faithful(j, 0, sk)
  {
    PrintsWellFormed(v, 0, sk);
    StableIffFaithful(ScValToJson.Convert(v, 0, sk), 0, sk);
  }

  /* A class of values that are always reproduced. */

  // Objects the reader takes for something other than a map.
  predicate MarkerShaped(ms: seq<Member>) {
    || Has(ms, "__truncated__")
    || (|ms| == 2 && Has(ms, "type") && Has(ms, "code"))
    || (|ms| == 1 && Has(ms, "nonce"))
    || (Has(ms, "executable") && Has(ms, "storage"))
  }

  // Within the depth limit, texts canonical, no list that looks like a colliding map, no map that
  // looks like a marker.
  predicate Readable(v: ScVal, depth: nat, sk: Strkeys)
    decreases v, 2
  {
    depth <= MAX_DEPTH &&
    match v
    case Str(s) => FaithfulString(s, sk)
    case Symbol(s) => FaithfulString(s, sk)
    case Error(err) => CodeKnown(err) || depth < MAX_DEPTH
    case Vec(items) =>
      && !IsLossless(ScValToJson.ConvertAll(items, depth + 1, sk))
      && forall i :: 0 <= i < |items| ==> Readable(items[i], depth + 1, sk)
    case Map(entries) => ReadableEntries(entries, depth + 1, sk)
    case ContractInstance(_, Stored(entries)) =>
      depth < MAX_DEPTH && ReadableEntries(entries, depth + 2, sk)
    case _ => true
  }

  predicate ReadableEntry(e: Entry, depth: nat, sk: Strkeys)
    decreases e, 0
  {
    Readable(e.key, depth, sk) && Readable(e.val, depth, sk)
  }

  predicate ReadableEntries(entries: seq<Entry>, depth: nat, sk: Strkeys)
    decreases entries, 1
  {
    && (forall i :: 0 <= i < |entries| ==> ReadableEntry(entries[i], depth, sk))
    && var conv := ConvertEntries(entries, depth, sk);
       Collides(conv) || !MarkerShaped(ObjectOf(conv))
  }

  /** Readable values print to JSON that is reproduced; reading is then idempotent. */
  lemma ReadableRoundTrip(v: ScVal, sk: Strkeys)
    requires Lawful(sk) && Readable(v, 0, sk)
    ensures var j := ScValToJson.Convert(v, 0, sk);
      && Parse(j, 0, sk).Ok?
      && var v' := Parse(j, 0, sk).value;
         && ScValToJson.Convert(v', 0, sk) == j
         && Parse(ScValToJson.Convert(v', 0, sk), 0, sk) == Ok(v')
  {
    hide Readable, Faithful, ScValToJson.Convert, Parse;
    ReadableIsFaithful(v, 0, sk);
    PrintParsePrint(v, sk);
  }

  // A text that cannot be hex or a number.
  lemma WordFaithful(s: string, sk: Strkeys)
    requires s != [] && !IsDigit(s[0]) && s[0] !in ['+', '-']
    ensures FaithfulString(s, sk)
  {
    assert |s| >= 2 ==> s[..2][0] == s[0];
  }

  lemma HexFaithful(bytes: seq<Hex.byte>, sk: Strkeys)
    ensures FaithfulString(HexText(bytes), sk)
  {
    Hex.DecodeEncode(bytes);
    var s := HexText(bytes);
    assert s[..2] == "0x" && s[2..] == Hex.Encode(bytes);
  }

  // Three of the ten host error codes are unknown to the reader.
  predicate CodeKnown(err: ScError) {
    err.HostError? ==> CodeOf(CodeName(err.reason)).Some?
  }

  lemma TwoMembers(ms: seq<Member>)
    requires |ms| == 2 && ms[0].key != ms[1].key
    ensures Get(ms, ms[0].key) == Some(ms[0].value) && Get(ms, ms[1].key) == Some(ms[1].value)
    ensures forall key :: key != ms[0].key && key != ms[1].key ==> !Has(ms, key)
  {
    assert ms[1..] == [ms[1]] && ms[1..][1..] == [];
    assert Get([ms[1]], ms[1].key) == Some(ms[1].value);
    forall key | key != ms[0].key && key != ms[1].key ensures !Has(ms, key) {
      assert Get([ms[1]], key).None?;
    }
  }

  lemma ErrorRead(err: ScError)
    ensures ErrorMarker(ErrorJson(err).members) == if CodeKnown(err) then Some(err) else None
  {
    hide Get;
    TwoMembers(ErrorJson(err).members);
    if err.HostError? {
      assert KindOf(KindName(err.kind)) == Some(err.kind) && KindName(err.kind) != "Contract";
      assert CodeKnown(err) ==> CodeOf(CodeName(err.reason)) == Some(err.reason);
    }
  }

  lemma ErrorFaithful(err: ScError, depth: nat, sk: Strkeys)
    requires depth <= MAX_DEPTH && (CodeKnown(err) || depth < MAX_DEPTH)
    ensures Faithful(ErrorJson(err), depth, sk)
  {
    hide ErrorMarker, Get, FaithfulString, Has, CodeOf, PlainObject;
    var j := ErrorJson(err);
    TwoMembers(j.members);
    ErrorRead(err);
    if !CodeKnown(err) {
      ErrorNamesFaithful(err, sk);
      UnknownErrorPlain(j, depth, sk);
      ObjectReprint(j, depth, sk);
    }
  }

  lemma UnknownErrorPlain(j: Json, depth: nat, sk: Strkeys)
    requires depth <= MAX_DEPTH && j.Object? && |j.members| == 2 && ErrorMarker(j.members).None?
    requires !Has(j.members, "__truncated__") && !Has(j.members, "nonce") && !Has(j.members, "executable")
    ensures PlainObject(j, depth, sk)
  {
    hide ErrorMarker, Get;
  }

  lemma ErrorNamesFaithful(err: ScError, sk: Strkeys)
    ensures FaithfulString("code", sk) && FaithfulString("type", sk)
    ensures err.HostError? ==> FaithfulString(CodeName(err.reason), sk) && FaithfulString(KindName(err.kind), sk)
  {
    hide FaithfulString;
    WordFaithful("code", sk);
    WordFaithful("type", sk);
    if err.HostError? {
      WordFaithful(CodeName(err.reason), sk);
      WordFaithful(KindName(err.kind), sk);
    }
  }

  lemma LeafFaithful(v: ScVal, depth: nat, sk: Strkeys)
    requires Lawful(sk) && !IsContainer(v) && depth <= MAX_DEPTH && !v.Error?
    requires v.Str? ==> FaithfulString(v.text, sk)
    requires v.Symbol? ==> FaithfulString(v.sym, sk)
    ensures Faithful(LeafJson(v, sk), depth, sk)
  {
    hide ParseHex, ParseAddress, IsWide, CanonicalNumber, Text, U256.U256Value, U256.I256Value, WellFormed;
    match v
    case U128(hi, lo) => NumberTextFaithful(U256.U128Value(hi, lo), sk);
    case I128(hi, lo) => NumberTextFaithful(U256.I128Value(hi, lo), sk);
    case U256(p) => NumberTextFaithful(U256.U256Value(p), sk);
    case I256(p) => NumberTextFaithful(U256.I256Value(p), sk);
    case Bytes(bytes) => HexFaithful(bytes, sk);
    case Address(a) => WordFaithful(sk.encode(a), sk);
    case _ =>
  }

  lemma {:induction false} ReadableIsFaithful(v: ScVal, depth: nat, sk: Strkeys)
    requires Lawful(sk) && Readable(v, depth, sk)
    ensures Faithful(ScValToJson.Convert(v, depth, sk), depth, sk)
    decreases v, 2
  {
    hide LeafJson, MapJson, IsLossless, FaithfulString, ErrorJson, ReadableEntries, EntriesFit, CodeKnown,
         ErrorMarker, NonceMarker, LooksInstance, CanonicalExecutable, FaithfulMember, FaithfulPair, Collides,
         WellFormed, InstanceJson, StorageJson, FaithfulError;
    match v
    case Vec(items) =>
      forall i | 0 <= i < |items| ensures Faithful(ScValToJson.Convert(items[i], depth + 1, sk), depth + 1, sk) {
        ReadableIsFaithful(items[i], depth + 1, sk);
      }
    case Map(entries) => EntriesFaithful(entries, depth, sk);
    case ContractInstance(exec, storage) => InstanceIsFaithful(v, depth, sk);
    case Error(err) =>
      LeafWellFormed(v, sk);
      ErrorFaithful(err, depth, sk);
    case _ => LeafFaithful(v, depth, sk);
  }

  lemma {:induction false} EntryIsFaithful(e: Entry, depth: nat, sk: Strkeys)
    requires Lawful(sk) && ReadableEntry(e, depth, sk)
    ensures var c := ConvertEntry(e, depth, sk);
      c.text == KeyText(c.key) && Faithful(c.key, depth, sk) && Faithful(c.value, depth, sk)
    decreases e, 0
  {
    hide Readable, Faithful;
    ReadableIsFaithful(e.key, depth, sk);
    ReadableIsFaithful(e.val, depth, sk);
  }

  lemma {:induction false} EntriesFaithful(entries: seq<Entry>, depth: nat, sk: Strkeys)
    requires Lawful(sk) && depth <= MAX_DEPTH && ReadableEntries(entries, depth + 1, sk)
    ensures Faithful(MapJson(ConvertEntries(entries, depth + 1, sk)), depth, sk)
    decreases entries, 0
  {
    hide ReadableEntry, ConvertEntry, Faithful, Collides, MarkerShaped, FaithfulString;
    var conv := ConvertEntries(entries, depth + 1, sk);
    forall i | 0 <= i < |conv|
      ensures conv[i].text == KeyText(conv[i].key) && FaithfulString(conv[i].text, sk)
      ensures Faithful(conv[i].key, depth + 1, sk) && Faithful(conv[i].value, depth + 1, sk)
    {
      EntryIsFaithful(entries[i], depth + 1, sk);
      KeyTextFaithful(conv[i].key, depth + 1, sk);
    }
    if Collides(conv) {
      PairsAreFaithful(conv, depth, sk);
    } else {
      MembersAreFaithful(conv, depth, sk);
    }
  }

  // The text of a reproducible key is one.
  lemma KeyTextFaithful(key: Json, depth: nat, sk: Strkeys)
    requires Faithful(key, depth, sk)
    ensures FaithfulString(KeyText(key), sk)
  {
    hide FaithfulString, LooksInstance, ErrorMarker, NonceMarker, IsLossless;
    match key
    case String(s) =>
    case Number(n) => NumberTextFaithful(n, sk);
    case _ => WordFaithful(KeyText(key), sk);
  }

  // Readable values lie within the depth limit.
  lemma {:induction false} ReadableFits(v: ScVal, depth: nat, sk: Strkeys)
    requires Readable(v, depth, sk)
    ensures Fits(v, depth)
    decreases v, 2
  {
    hide IsLossless, FaithfulString, ReadableEntries, EntriesFit, CodeKnown, ScValToJson.ConvertAll,
         ScValToJson.Convert;
    match v
    case Vec(items) =>
      forall i | 0 <= i < |items| ensures Fits(items[i], depth + 1) {
        ReadableFits(items[i], depth + 1, sk);
      }
    case Map(entries) => ReadableEntriesFit(entries, depth + 1, sk);
    case ContractInstance(_, storage) =>
      if storage.Stored? {
        StoredEntriesFit(storage, depth, sk);
      }
    case _ =>
  }

  lemma {:induction false} StoredEntriesFit(s: Storage, depth: nat, sk: Strkeys)
    requires s.Stored? && ReadableEntries(s.entries, depth + 2, sk)
    ensures EntriesFit(s.entries, depth + 1) && EntriesFit(s.entries, depth + 2)
    decreases s, 0
  {
    ReadableEntriesFit(s.entries, depth + 2, sk);
    EntriesFitAbove(s.entries, depth + 2, depth + 1, sk);
  }

  lemma {:induction false} ReadableEntriesFit(entries: seq<Entry>, depth: nat, sk: Strkeys)
    requires ReadableEntries(entries, depth, sk)
    ensures EntriesFit(entries, depth)
    decreases entries, 1
  {
    hide Fits, ConvertEntries, Collides, MarkerShaped, ReadableEntry;
    forall i | 0 <= i < |entries| ensures EntryFits(entries[i], depth) {
      ReadableEntryFits(entries[i], depth, sk);
    }
  }

  lemma {:induction false} ReadableEntryFits(e: Entry, depth: nat, sk: Strkeys)
    requires ReadableEntry(e, depth, sk)
    ensures EntryFits(e, depth)
    decreases e, 0
  {
    hide Fits, Readable;
    ReadableFits(e.key, depth, sk);
    ReadableFits(e.val, depth, sk);
  }

  lemma LosslessParts(c: Converted)
    requires c.text == KeyText(c.key)
    ensures IsPair(LosslessItem(c)) && PairOf(LosslessItem(c)) == c
  {
    var ms := LosslessItem(c).members;
    assert ms[1..] == [ms[1]];
    assert Get(ms, "key") == Some(c.key) && Get(ms[1..], "value") == Some(c.value);
    assert Get(ms, "value") == Some(c.value);
  }

  lemma PairsAreFaithful(conv: seq<Converted>, depth: nat, sk: Strkeys)
    requires depth <= MAX_DEPTH && Collides(conv)
    requires forall i :: 0 <= i < |conv| ==> conv[i].text == KeyText(conv[i].key)
    requires forall i :: 0 <= i < |conv| ==>
      Faithful(conv[i].key, depth + 1, sk) && Faithful(conv[i].value, depth + 1, sk)
    ensures Faithful(Json.Array(LosslessItems(conv)), depth, sk)
  {
    hide IsPair, LosslessItem, KeyText;
    var items := LosslessItems(conv);
    forall i | 0 <= i < |items| ensures IsPair(items[i]) && PairOf(items[i]) == conv[i] {
      LosslessParts(conv[i]);
    }
    assert conv != [];
    assert PairsOf(items) == conv;
    forall i | 0 <= i < |items| ensures FaithfulPair(items[i], depth + 1, sk) {
      assert PairOf(items[i]) == conv[i];
    }
  }

  lemma {:induction false} ObjectMembers(conv: seq<Converted>)
    ensures forall m :: m in ObjectOf(conv) ==>
      exists i :: 0 <= i < |conv| && conv[i].text == m.key && conv[i].value == m.value
    decreases |conv|
  {
    hide Insert;
    if conv != [] {
      var n := |conv| - 1;
      ObjectMembers(conv[..n]);
      InsertKeys(ObjectOf(conv[..n]), conv[n].text, conv[n].value);
      forall m | m in ObjectOf(conv)
        ensures exists i :: 0 <= i < |conv| && conv[i].text == m.key && conv[i].value == m.value
      {
        if m in ObjectOf(conv[..n]) {
          var i :| 0 <= i < n && conv[..n][i].text == m.key && conv[..n][i].value == m.value;
          assert conv[i].text == m.key;
        } else {
          assert conv[n].text == m.key;
        }
      }
    }
  }

  lemma MarkersAbsent(j: Json, depth: nat, sk: Strkeys)
    requires j.Object? && depth <= MAX_DEPTH && !MarkerShaped(j.members)
    ensures PlainObject(j, depth, sk)
  {
    hide Get;
  }

  lemma MembersAreFaithful(conv: seq<Converted>, depth: nat, sk: Strkeys)
    requires depth <= MAX_DEPTH && !MarkerShaped(ObjectOf(conv))
    requires forall i :: 0 <= i < |conv| ==> FaithfulString(conv[i].text, sk) && Faithful(conv[i].value, depth + 1, sk)
    ensures Faithful(Json.Object(ObjectOf(conv)), depth, sk)
  {
    hide MarkerShaped, FaithfulString, PlainObject;
    var j := Json.Object(ObjectOf(conv));
    MarkersAbsent(j, depth, sk);
    ObjectReprint(j, depth, sk);
    ObjectMembers(conv);
    forall i | 0 <= i < |j.members| ensures FaithfulMember(j.members[i], depth + 1, sk) {
      assert j.members[i] in ObjectOf(conv);
    }
  }

  lemma ExecutableFaithful(exec: Executable)
    ensures ParseExecutable(ExecutableJson(exec)) == Some(exec) && CanonicalExecutable(ExecutableJson(exec))
  {
    hide Hex.Encode, Hex.Decode, Hex.IsLowerHex;
    var ms := ExecutableJson(exec).members;
    if exec.Wasm? {
      Hex.DecodeEncode(exec.hash);
      assert ms[1..] == [ms[1]];
      assert Get(ms[1..], "wasmHash") == Some(ms[1].value);
      var s := HexText(exec.hash);
      assert s[..2] == "0x" && s[2..] == Hex.Encode(exec.hash);
    }
  }

  // A faithful map document that is not an instance or error marker reads as a map.
  lemma MapReads(entries: seq<Entry>, depth: nat, sk: Strkeys)
    requires Lawful(sk) && depth <= MAX_DEPTH && ReadableEntries(entries, depth + 1, sk)
    requires Faithful(MapJson(ConvertEntries(entries, depth + 1, sk)), depth, sk)
    ensures var j := MapJson(ConvertEntries(entries, depth + 1, sk));
      !j.Null? && Parse(j, depth, sk).Ok? && Parse(j, depth, sk).value.Map?
  {
    hide ReadableEntry, ConvertEntry, Faithful, FaithfulString, MarkerShaped, ScValToJson.Convert, KeyText, Insert,
         IsPair;
    var conv := ConvertEntries(entries, depth + 1, sk);
    var j := MapJson(conv);
    PrintsWellFormed(Map(entries), depth, sk);
    MapPrints(entries, depth, sk);
    StableIffFaithful(j, depth, sk);
    if Collides(conv) {
      forall i | 0 <= i < |conv| ensures IsPair(LosslessItem(conv[i])) {
        assert conv[i] == ConvertEntry(entries[i], depth + 1, sk);
        LosslessParts(conv[i]);
      }
      assert j.items[0] == LosslessItem(conv[0]);
      assert IsLossless(j.items);
    } else {
      MarkersAbsent(j, depth, sk);
    }
  }

  lemma MapPrints(entries: seq<Entry>, depth: nat, sk: Strkeys)
    requires depth <= MAX_DEPTH
    ensures ScValToJson.Convert(Map(entries), depth, sk) == MapJson(ConvertEntries(entries, depth + 1, sk))
  {
    hide MapJson;
  }

  lemma {:induction false} InstanceIsFaithful(v: ScVal, depth: nat, sk: Strkeys)
    requires Lawful(sk) && v.ContractInstance? && Readable(v, depth, sk)
    ensures Faithful(ScValToJson.Convert(v, depth, sk), depth, sk)
    decreases v, 1
  {
    hide MapJson, ReadableEntries, EntriesFit, ExecutableJson, CanonicalExecutable, ParseExecutable, Has, Get,
         StorageJson;
    var storage := StorageJson(v.storage, depth + 1, sk);
    var j := InstanceJson(v.executable, storage);
    TwoMembers(j.members);
    ExecutableFaithful(v.executable);
    StorageReads(v.storage, depth, sk);
    InstanceDocument(j, v.executable, storage, depth, sk);
  }

  lemma {:induction false} StorageReads(s: Storage, depth: nat, sk: Strkeys)
    requires Lawful(sk) && depth <= MAX_DEPTH
    requires s.Stored? ==> depth < MAX_DEPTH && ReadableEntries(s.entries, depth + 2, sk)
    ensures var j := StorageJson(s, depth + 1, sk);
      j.Null? || (Faithful(j, depth + 1, sk) && Parse(j, depth + 1, sk).Ok? && Parse(j, depth + 1, sk).value.Map?)
    decreases s, 0
  {
    hide MapJson, ReadableEntries, EntriesFit, Faithful, Parse;
    match s
    case NoStorage =>
    case Stored(entries) =>
      EntriesFaithful(entries, depth + 1, sk);
      StoredEntriesFit(s, depth, sk);
      EntriesFitAbove(entries, depth + 2, depth + 1, sk);
      MapReads(entries, depth + 1, sk);
  }

  lemma InstanceDocument(j: Json, exec: Executable, storage: Json, depth: nat, sk: Strkeys)
    requires depth <= MAX_DEPTH && j.Object? && |j.members| == 2
    requires Get(j.members, "executable") == Some(ExecutableJson(exec)) && Get(j.members, "storage") == Some(storage)
    requires !Has(j.members, "__truncated__") && !Has(j.members, "type") && !Has(j.members, "nonce")
    requires ParseExecutable(ExecutableJson(exec)) == Some(exec) && CanonicalExecutable(ExecutableJson(exec))
    requires storage.Null? || (Faithful(storage, depth + 1, sk) &&
      Parse(storage, depth + 1, sk).Ok? && Parse(storage, depth + 1, sk).value.Map?)
    ensures Faithful(j, depth, sk)
  {
    hide ExecutableJson, CanonicalExecutable, ParseExecutable, Get;
    InstanceRead(j, exec, storage, depth, sk);
    InstanceFaithful(j, depth, sk);
  }

  lemma InstanceRead(j: Json, exec: Executable, storage: Json, depth: nat, sk: Strkeys)
    requires depth <= MAX_DEPTH && j.Object? && |j.members| == 2
    requires Get(j.members, "executable") == Some(ExecutableJson(exec)) && Get(j.members, "storage") == Some(storage)
    requires !Has(j.members, "__truncated__") && !Has(j.members, "type") && !Has(j.members, "nonce")
    requires ParseExecutable(ExecutableJson(exec)) == Some(exec)
    requires storage.Null? || (Parse(storage, depth + 1, sk).Ok? && Parse(storage, depth + 1, sk).value.Map?)
    ensures PlainInstance(j, depth, sk)
  {
    hide ExecutableJson, ParseExecutable, Get, Parse, LooksMap;
    if !storage.Null? {
      LooksRight(storage, depth + 1, sk);
    }
  }
}
