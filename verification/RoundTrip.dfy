/**
 When does printing a value, reading it back and printing it again give the same JSON?
 `Faithful` is the exact answer for every JSON document; the theorems on values follow from it.
 */
module RoundTrip {
  import opened Common
  import opened Decimal
  import opened U256
  import opened Hex
  import opened Json
  import opened ScVals
  import opened ScValToJson
  import opened JsonToScVal

  /* Strings. */

  // An integer that needs more than 64 bits.
  predicate IsWide(s: string) {
    var u, i := ParseU128(s), ParseI128(s);
    (u.Some? && u.value > U64_MAX) || (i.Some? && (i.value < I64_MIN || i.value > I64_MAX))
  }

  predicate CanonicalNumber(s: string) {
    Canonical(s) || (s != [] && s[0] == '-' && Canonical(s[1..]))
  }

  // Hex must be lower case; a wide integer must carry no plus sign and no leading zeros.
  predicate FaithfulString(s: string, sk: Strkeys) {
    s == "LedgerKeyContractInstance" ||
    if ParseHex(s).Some? then IsLowerHex(s[2..])
    else ParseAddress(s, sk).Some? || !IsWide(s) || CanonicalNumber(s)
  }

  // The text a string turns into after one reading and printing.
  function Canonicalize(s: string, sk: Strkeys): (r: string)
    ensures !IsContainer(ParseString(s, sk)) && LeafJson(ParseString(s, sk), sk) == Json.String(r)
  {
    LeafJson(ParseString(s, sk), sk).s
  }

  lemma WideText(s: string, sk: Strkeys)
    ensures var u := ParseU128(s); u.Some? && u.value > U64_MAX ==>
      LeafJson(WideUnsigned(u.value), sk) == Json.String(Text(u.value))
    ensures var i := ParseI128(s); i.Some? ==>
      LeafJson(WideSigned(i.value), sk) == Json.String(IntText(i.value))
  {
    hide Text, IntText, Value, IsDigits;
  }

  lemma UnsignedText(s: string)
    requires ParseU128(s).Some?
    ensures Text(ParseU128(s).value) == s <==> CanonicalNumber(s)
  {
    var u := ParseU128(s).value;
    TextIsCanonical(u);
    if Canonical(s) {
      assert IsDigit(s[0]);
      CanonicalIsText(s);
    }
  }

  lemma SignedText(s: string)
    requires ParseI128(s).Some? && ParseI128(s).value != 0
    ensures IntText(ParseI128(s).value) == s <==> CanonicalNumber(s)
  {
    hide Text, Value;
    var i := ParseI128(s).value;
    if i < 0 {
      NegativeText(s);
    } else {
      TextIsCanonical(i);
      if Canonical(s) {
        assert IsDigit(s[0]);
        CanonicalIsText(s);
      }
    }
  }

  lemma NegativeText(s: string)
    requires s != [] && s[0] == '-' && IsDigits(s[1..]) && Value(s[1..]) > 0
    ensures "-" + Text(Value(s[1..])) == s <==> CanonicalNumber(s)
  {
    hide Text, Value;
    var t := Text(Value(s[1..]));
    TextIsCanonical(Value(s[1..]));
    assert ("-" + t)[1..] == t;
    assert s == "-" + s[1..];
    assert !IsDigit(s[0]);
    if Canonical(s[1..]) {
      CanonicalIsText(s[1..]);
    }
  }

  lemma StringRoundTrip(s: string, sk: Strkeys)
    requires Lawful(sk)
    ensures Canonicalize(s, sk) == s <==> FaithfulString(s, sk)
  {
    hide Text, Value, Canonical, CanonicalNumber, Hex.Decode, IsLowerHex, Hex.Encode;
    if s == "LedgerKeyContractInstance" {
    } else if ParseHex(s).Some? {
      EncodeDecode(s[2..]);
      assert s == "0x" + s[2..];
      assert ("0x" + Hex.Encode(ParseHex(s).value))[2..] == Hex.Encode(ParseHex(s).value);
    } else if ParseAddress(s, sk).Some? {
    } else if IsWide(s) {
      WideRoundTrip(s, sk);
    }
  }

  lemma WideRoundTrip(s: string, sk: Strkeys)
    requires IsWide(s)
    ensures var u := ParseU128(s);
      var v := if u.Some? && u.value > U64_MAX then WideUnsigned(u.value) else WideSigned(ParseI128(s).value);
      LeafJson(v, sk) == Json.String(s) <==> CanonicalNumber(s)
  {
    hide Text, Value, Canonical, CanonicalNumber;
    WideText(s, sk);
    var u := ParseU128(s);
    if u.Some? && u.value > U64_MAX {
      UnsignedText(s);
    } else {
      SignedText(s);
    }
  }

  lemma NumberTextFaithful(z: int, sk: Strkeys)
    ensures FaithfulString(IntText(z), sk)
  {
    var s := IntText(z);
    TextIsCanonical(if z < 0 then -z else z);
    assert z < 0 ==> s[1..] == Text(-z);
    assert |s| >= 2 ==> s[..2][0] == s[0] && s[..2][1] == s[1];
    assert ParseHex(s).None?;
  }

  // One reading makes every string canonical: a second one changes nothing.
  lemma CanonicalizeFaithful(s: string, sk: Strkeys)
    requires Lawful(sk)
    ensures FaithfulString(Canonicalize(s, sk), sk)
  {
    hide Text, Value, Canonical, CanonicalNumber, Hex.Decode, IsLowerHex, Hex.Encode;
    var r := Canonicalize(s, sk);
    if s == "LedgerKeyContractInstance" {
    } else if ParseHex(s).Some? {
      DecodeEncode(ParseHex(s).value);
      assert r == "0x" + Hex.Encode(ParseHex(s).value);
      assert r[..2] == "0x" && r[2..] == Hex.Encode(ParseHex(s).value);
    } else if ParseAddress(s, sk).Some? {
      assert r == s;
    } else if IsWide(s) {
      WideText(s, sk);
      var u := ParseU128(s);
      if u.Some? && u.value > U64_MAX {
        NumberTextFaithful(u.value, sk);
      } else {
        NumberTextFaithful(ParseI128(s).value, sk);
      }
    }
  }

  /* Markers. */

  predicate FaithfulError(ms: seq<Member>)
    requires ErrorMarker(ms).Some?
  {
    var code := Get(ms, "code").value;
    code.Number? ==> code.n < 0x1_0000_0000
  }

  lemma PairOfKeys(ms: seq<Member>, low: string, high: string)
    requires Sorted(ms) && |ms| == 2 && Has(ms, low) && Has(ms, high) && StringLess(low, high)
    ensures ms == [Member(low, Get(ms, low).value), Member(high, Get(ms, high).value)]
  {
    StringLessAsymmetric(low, high);
    StringLessAsymmetric(ms[0].key, ms[1].key);
    var i :| 0 <= i < |ms| && ms[i] == Member(low, Get(ms, low).value);
    var k :| 0 <= k < |ms| && ms[k] == Member(high, Get(ms, high).value);
    assert i == 0 && k == 1;
  }

  lemma Names(kind: string, code: string)
    ensures KindOf("").None?
    ensures KindOf(kind).Some? ==> KindName(KindOf(kind).value) == kind
    ensures CodeOf(code).Some? ==> CodeName(CodeOf(code).value) == code
  {
  }

  lemma ErrorRoundTrip(ms: seq<Member>)
    requires Sorted(ms) && ErrorMarker(ms).Some?
    ensures ErrorJson(ErrorMarker(ms).value) == Json.Object(ms) <==> FaithfulError(ms)
  {
    hide KindName, CodeName, KindOf, CodeOf;
    assert StringLess("code", "type");
    PairOfKeys(ms, "code", "type");
    var kind := AsText(Get(ms, "type")).GetOr("");
    var code := Get(ms, "code").value;
    assert kind != "" ==> Get(ms, "type").value == Json.String(kind);
    if kind != "Contract" {
      Names(kind, code.s);
    }
  }

  lemma NonceRoundTrip(ms: seq<Member>)
    requires NonceMarker(ms).Some?
    ensures ms == [Member("nonce", Json.Number(NonceMarker(ms).value))]
  {
  }

  // Exactly the members the printer writes, the hash in lower case behind its prefix.
  predicate CanonicalExecutable(j: Json) {
    && j.Object?
    && (|| j.members == [Member("type", Json.String("StellarAsset"))]
        || (&& |j.members| == 2
            && j.members[0] == Member("type", Json.String("Wasm"))
            && j.members[1].key == "wasmHash"
            && j.members[1].value.String?
            && var h := j.members[1].value.s; |h| == 66 && h[..2] == "0x" && IsLowerHex(h[2..])))
  }

  lemma ExecutableRoundTrip(j: Json)
    requires WellFormed(j) && ParseExecutable(j).Some?
    ensures ExecutableJson(ParseExecutable(j).value) == j <==> CanonicalExecutable(j)
  {
    var exec := ParseExecutable(j).value;
    if exec.Wasm? {
      WasmRoundTrip(j);
    }
  }

  lemma WasmRoundTrip(j: Json)
    requires WellFormed(j) && ParseExecutable(j).Some? && ParseExecutable(j).value.Wasm?
    ensures ExecutableJson(ParseExecutable(j).value) == j <==> CanonicalExecutable(j)
  {
    hide Hex.Decode, Hex.Encode, IsLowerHex;
    var hash := ParseExecutable(j).value.hash;
    var text := AsText(Get(j.members, "wasmHash")).GetOr("");
    var digits := if |text| >= 2 && text[..2] == "0x" then text[2..] else text;
    EncodeDecode(digits);
    assert |HexText(hash)| == 66 && HexText(hash)[..2] == "0x" && HexText(hash)[2..] == Hex.Encode(hash);
    if CanonicalExecutable(j) {
      assert j.members == [j.members[0], j.members[1]];
      assert Get(j.members, "wasmHash") == Some(j.members[1].value) by {
        assert j.members[1..] == [j.members[1]];
      }
      assert text == "0x" + text[2..];
    }
  }

  /* Nesting. */

  // Everything in the value lies within the depth limit when printing starts at `depth`.
  predicate Fits(v: ScVal, depth: nat)
    decreases v, 1
  {
    depth <= MAX_DEPTH &&
    match v
    case Vec(items) => ItemsFit(items, depth + 1)
    case Map(entries) => EntriesFit(entries, depth + 1)
    case ContractInstance(_, Stored(entries)) => EntriesFit(entries, depth + 1)
    case _ => true
  }

  predicate ItemsFit(items: seq<ScVal>, depth: nat)
    decreases items, 0
  {
    forall i :: 0 <= i < |items| ==> Fits(items[i], depth)
  }

  predicate EntriesFit(entries: seq<Entry>, depth: nat)
    decreases entries, 0
  {
    forall i :: 0 <= i < |entries| ==> EntryFits(entries[i], depth)
  }

  predicate EntryFits(e: Entry, depth: nat)
    decreases e, 0
  {
    Fits(e.key, depth) && Fits(e.val, depth)
  }

  // A value that fits at some depth prints the same, untruncated, anywhere above it.
  lemma {:induction false} FitsAbove(v: ScVal, depth: nat, above: nat, sk: Strkeys)
    requires Fits(v, depth) && above <= depth
    ensures Fits(v, above) && ScValToJson.Convert(v, above, sk) == ScValToJson.Convert(v, depth, sk)
    decreases v, 1
  {
    hide MapJson, LeafJson, InstanceJson, ItemsFit, EntriesFit;
    match v
    case Vec(items) => ItemsFitAbove(items, depth + 1, above + 1, sk);
    case Map(entries) => EntriesFitAbove(entries, depth + 1, above + 1, sk);
    case ContractInstance(_, Stored(entries)) => EntriesFitAbove(entries, depth + 1, above + 1, sk);
    case _ =>
  }

  lemma {:induction false} ItemsFitAbove(items: seq<ScVal>, depth: nat, above: nat, sk: Strkeys)
    requires ItemsFit(items, depth) && above <= depth
    ensures ItemsFit(items, above)
    ensures ScValToJson.ConvertAll(items, above, sk) == ScValToJson.ConvertAll(items, depth, sk)
    decreases items, 0
  {
    hide Fits, ScValToJson.Convert;
    forall i | 0 <= i < |items|
      ensures Fits(items[i], above)
      ensures ScValToJson.Convert(items[i], above, sk) == ScValToJson.Convert(items[i], depth, sk)
    {
      FitsAbove(items[i], depth, above, sk);
    }
  }

  lemma {:induction false} EntriesFitAbove(entries: seq<Entry>, depth: nat, above: nat, sk: Strkeys)
    requires EntriesFit(entries, depth) && above <= depth
    ensures EntriesFit(entries, above)
    ensures ConvertEntries(entries, above, sk) == ConvertEntries(entries, depth, sk)
    decreases entries, 0
  {
    hide Fits, ScValToJson.Convert;
    forall i | 0 <= i < |entries|
      ensures EntryFits(entries[i], above)
      ensures ConvertEntry(entries[i], above, sk) == ConvertEntry(entries[i], depth, sk)
    {
      EntryFitsAbove(entries[i], depth, above, sk);
    }
  }

  lemma {:induction false} EntryFitsAbove(e: Entry, depth: nat, above: nat, sk: Strkeys)
    requires EntryFits(e, depth) && above <= depth
    ensures EntryFits(e, above)
    ensures ConvertEntry(e, above, sk) == ConvertEntry(e, depth, sk)
    decreases e, 0
  {
    hide Fits, ScValToJson.Convert;
    FitsAbove(e.key, depth, above, sk);
    FitsAbove(e.val, depth, above, sk);
  }

  /* What the sequence readers return, element by element. */

  lemma {:induction false} ParseAllSpec(items: seq<Json>, depth: nat, sk: Strkeys)
    ensures var r := ParseAll(items, depth, sk);
      && (r.Ok? <==> forall i :: 0 <= i < |items| ==> Parse(items[i], depth, sk).Ok?)
      && (r.Ok? ==> |r.value| == |items| && forall i :: 0 <= i < |items| ==>
            Parse(items[i], depth, sk) == Ok(r.value[i]))
  {
    hide Parse;
    if items != [] {
      ParseAllSpec(items[1..], depth, sk);
      assert forall i :: 0 < i < |items| ==> items[i] == items[1..][i - 1];
      assert forall i :: 0 <= i < |items| - 1 ==> items[1..][i] == items[i + 1];
    }
  }

  lemma {:induction false} ParseMembersSpec(ms: seq<Member>, depth: nat, sk: Strkeys)
    ensures var r := ParseMembers(ms, depth, sk);
      && (r.Ok? <==> forall i :: 0 <= i < |ms| ==> Parse(ms[i].value, depth, sk).Ok?)
      && (r.Ok? ==> |r.value| == |ms| && forall i :: 0 <= i < |ms| ==>
            r.value[i].key == ParseString(ms[i].key, sk) && Parse(ms[i].value, depth, sk) == Ok(r.value[i].val))
  {
    hide Parse, ParseString;
    if ms != [] {
      ParseMembersSpec(ms[1..], depth, sk);
      assert forall i :: 0 < i < |ms| ==> ms[i] == ms[1..][i - 1];
      assert forall i :: 0 <= i < |ms| - 1 ==> ms[1..][i] == ms[i + 1];
    }
  }

  // A key/value item parses to this entry.
  predicate ParsesTo(item: Json, e: Entry, depth: nat, sk: Strkeys)
    requires IsPair(item)
  {
    Parse(MemberOf(item, "key"), depth, sk) == Ok(e.key) && Parse(MemberOf(item, "value"), depth, sk) == Ok(e.val)
  }

  predicate PairParses(item: Json, depth: nat, sk: Strkeys)
    requires IsPair(item)
  {
    Parse(MemberOf(item, "key"), depth, sk).Ok? && Parse(MemberOf(item, "value"), depth, sk).Ok?
  }

  lemma {:induction false} ParsePairsSpec(items: seq<Json>, depth: nat, sk: Strkeys)
    requires forall i :: 0 <= i < |items| ==> IsPair(items[i])
    ensures var r := ParsePairs(items, depth, sk);
      && (r.Ok? <==> forall i :: 0 <= i < |items| ==> PairParses(items[i], depth, sk))
      && (r.Ok? ==> |r.value| == |items| && forall i :: 0 <= i < |items| ==>
            ParsesTo(items[i], r.value[i], depth, sk))
  {
    hide Parse, IsPair, MemberOf;
    if items != [] {
      assert IsPair(items[0]);
      ParsePairsSpec(items[1..], depth, sk);
      assert forall i :: 0 < i < |items| ==> items[i] == items[1..][i - 1];
      assert forall i :: 0 <= i < |items| - 1 ==> items[1..][i] == items[i + 1];
    }
  }

  // Whatever the reader accepts fits the printer's depth limit.
  lemma {:induction false} ParseFits(j: Json, depth: nat, sk: Strkeys)
    requires Parse(j, depth, sk).Ok?
    ensures Fits(Parse(j, depth, sk).value, depth)
    decreases j, 1
  {
    hide ParseString, ParseNumber, ErrorMarker, NonceMarker, ParseExecutable, Has;
    match j
    case Array(items) =>
      if IsLossless(items) {
        PairsFit(items, depth + 1, sk);
      } else {
        AllFit(items, depth + 1, sk);
      }
    case Object(ms) =>
      if InstanceMarker(j, depth, sk).Some? {
        InstanceFits(j, depth, sk);
      }
      MembersFit(ms, depth + 1, sk);
    case Number(n) => LeafFits(n, "", depth, sk);
    case String(s) => LeafFits(0, s, depth, sk);
    case _ =>
  }

  lemma LeafFits(n: int, s: string, depth: nat, sk: Strkeys)
    requires depth <= MAX_DEPTH
    ensures Fits(ParseString(s, sk), depth)
    ensures ParseNumber(n).Ok? ==> Fits(ParseNumber(n).value, depth)
  {
  }

  lemma {:induction false} AllFit(items: seq<Json>, depth: nat, sk: Strkeys)
    ensures ParseAll(items, depth, sk).Ok? ==> ItemsFit(ParseAll(items, depth, sk).value, depth)
    decreases items, 0
  {
    hide Parse, Fits;
    ParseAllSpec(items, depth, sk);
    forall i | 0 <= i < |items| && Parse(items[i], depth, sk).Ok?
      ensures Fits(Parse(items[i], depth, sk).value, depth)
    {
      ParseFits(items[i], depth, sk);
    }
  }

  lemma {:induction false} PairFits(item: Json, depth: nat, sk: Strkeys)
    requires IsPair(item) && PairParses(item, depth, sk)
    ensures Fits(Parse(MemberOf(item, "key"), depth, sk).value, depth)
    ensures Fits(Parse(MemberOf(item, "value"), depth, sk).value, depth)
    decreases item, 0
  {
    hide Parse, Fits;
    ParseFits(MemberOf(item, "key"), depth, sk);
    ParseFits(MemberOf(item, "value"), depth, sk);
  }

  lemma {:induction false} PairsFit(items: seq<Json>, depth: nat, sk: Strkeys)
    requires forall i :: 0 <= i < |items| ==> IsPair(items[i])
    ensures ParsePairs(items, depth, sk).Ok? ==> EntriesFit(ParsePairs(items, depth, sk).value, depth)
    decreases items, 0
  {
    hide Parse, Fits, IsPair, MemberOf;
    ParsePairsSpec(items, depth, sk);
    if ParsePairs(items, depth, sk).Ok? {
      var r := ParsePairs(items, depth, sk).value;
      forall i | 0 <= i < |r| ensures EntryFits(r[i], depth) {
        assert ParsesTo(items[i], r[i], depth, sk);
        PairFits(items[i], depth, sk);
      }
    }
  }

  lemma {:induction false} MemberFits(m: Member, depth: nat, sk: Strkeys)
    requires Parse(m.value, depth, sk).Ok?
    ensures depth <= MAX_DEPTH && Fits(Parse(m.value, depth, sk).value, depth)
    decreases m, 0
  {
    ParseFits(m.value, depth, sk);
  }

  lemma {:induction false} MembersFit(ms: seq<Member>, depth: nat, sk: Strkeys)
    ensures ParseMembers(ms, depth, sk).Ok? ==> EntriesFit(ParseMembers(ms, depth, sk).value, depth)
    decreases ms, 0
  {
    hide Parse, Fits, ParseString;
    ParseMembersSpec(ms, depth, sk);
    if ParseMembers(ms, depth, sk).Ok? {
      var r := ParseMembers(ms, depth, sk).value;
      forall i | 0 <= i < |r| ensures EntryFits(r[i], depth) {
        MemberFits(ms[i], depth, sk);
        LeafFits(0, ms[i].key, depth, sk);
      }
    }
  }

  // Storage is read one level deeper than it is printed.
  lemma {:induction false} InstanceFits(j: Json, depth: nat, sk: Strkeys)
    requires j.Object? && InstanceMarker(j, depth, sk).Some? && depth <= MAX_DEPTH
    ensures Fits(InstanceMarker(j, depth, sk).value, depth)
    ensures var storage := InstanceMarker(j, depth, sk).value.storage;
      storage.Stored? ==>
        ConvertEntries(storage.entries, depth + 1, sk) == ConvertEntries(storage.entries, depth + 2, sk)
    decreases j, 0
  {
    hide Parse, EntriesFit, ParseExecutable;
    var storage := MemberOf(j, "storage");
    if !storage.Null? {
      ParseFits(storage, depth + 1, sk);
      var entries := InstanceMarker(j, depth, sk).value.storage.entries;
      EntriesFitAbove(entries, depth + 2, depth + 1, sk);
    }
  }
}
