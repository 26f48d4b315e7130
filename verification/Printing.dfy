/**
 What every value is printed as, said without the printer: `Shows` describes one document for each value.
 */
module Printing {
  import opened Common
  import opened Decimal
  import opened Json
  import opened ScVals
  import opened ScValToJson
  import U256
  import Hex

  // Digits without superfluous zeros, behind a minus sign for negative numbers, that evaluate to the number.
  predicate Denotes(s: string, z: int) {
    if s != [] && s[0] == '-' then Canonical(s[1..]) && z < 0 && z + Value(s[1..]) == 0
    else Canonical(s) && z == Value(s)
  }

  // The prefix and two lower-case digits for each byte, the high half first.
  predicate IsHexOf(s: string, bytes: seq<Hex.byte>) {
    && |s| == 2 + 2 * |bytes| && s[0] == '0' && s[1] == 'x'
    && forall i :: 0 <= i < |bytes| ==>
         s[2 + 2 * i] == HexDigit(bytes[i] / 16) && s[3 + 2 * i] == HexDigit(bytes[i] % 16)
  }

  // 128 and 256 bits as the words that hold them, the first one signed or not.
  function Words2(hi: int, lo: int): int {
    hi * 0x1_0000_0000_0000_0000 + lo
  }

  function Words4(a: int, b: int, c: int, d: int): int {
    Words2(Words2(Words2(a, b), c), d)
  }

  // The document of a value, given those of its parts.
  predicate Shows(j: Json, v: ScVal, depth: nat, sk: Strkeys) {
    if depth > 100 then
      j == Json.Object([Member("__truncated__", Json.Bool(true)),
                        Member("reason", Json.String("max recursion depth (100) exceeded"))])
    else
      match v
      case Void => j.Null?
      case NoVec => j.Null?
      case NoMap => j.Null?
      case Bool(b) => j == Json.Bool(b)
      case U32(n) => j == Json.Number(n)
      case I32(n) => j == Json.Number(n)
      case U64(n) => j == Json.Number(n)
      case I64(n) => j == Json.Number(n)
      case Timepoint(n) => j == Json.Number(n)
      case Duration(n) => j == Json.Number(n)
      case U128(hi, lo) => j.String? && Denotes(j.s, Words2(hi, lo))
      case I128(hi, lo) => j.String? && Denotes(j.s, Words2(hi, lo))
      case U256(p) => j.String? && Denotes(j.s, Words4(p.hiHi, p.hiLo, p.loHi, p.loLo))
      case I256(p) => j.String? && Denotes(j.s, Words4(p.hiHi, p.hiLo, p.loHi, p.loLo))
      case Bytes(bytes) => j.String? && IsHexOf(j.s, bytes)
      case Str(s) => j == Json.String(s)
      case Symbol(s) => j == Json.String(s)
      case Address(a) => j == Json.String(sk.encode(a))
      case LedgerKeyContractInstance => j == Json.String("LedgerKeyContractInstance")
      case LedgerKeyNonce(n) => j == Json.Object([Member("nonce", Json.Number(n))])
      case Error(ContractError(code)) =>
        j == Json.Object([Member("code", Json.Number(code)), Member("type", Json.String("Contract"))])
      case Error(HostError(kind, code)) =>
        j == Json.Object([Member("code", Json.String(CodeName(code))), Member("type", Json.String(KindName(kind)))])
      case Vec(items) =>
        && j.Array? && |j.items| == |items|
        && forall i :: 0 <= i < |items| ==> j.items[i] == ScValToJson.Convert(items[i], depth + 1, sk)
      case Map(entries) => ShowsEntries(j, entries, depth + 1, sk)
      case ContractInstance(exec, storage) =>
        && j.Object? && |j.members| == 2
        && j.members[0].key == "executable" && ShowsExecutable(j.members[0].value, exec)
        && j.members[1].key == "storage" &&
        match storage
        case NoStorage => j.members[1].value.Null?
        case Stored(entries) => ShowsEntries(j.members[1].value, entries, depth + 1, sk)
  }

  predicate ShowsExecutable(j: Json, exec: Executable) {
    match exec
    case StellarAsset => j == Json.Object([Member("type", Json.String("StellarAsset"))])
    case Wasm(hash) =>
      && j.Object? && |j.members| == 2
      && j.members[0] == Member("type", Json.String("Wasm"))
      && j.members[1].key == "wasmHash" && j.members[1].value.String? && IsHexOf(j.members[1].value.s, hash)
  }

  // The text under which a key goes into an object.
  function TextOf(e: Entry, depth: nat, sk: Strkeys): string {
    KeyText(ScValToJson.Convert(e.key, depth, sk))
  }

  function MemberFor(e: Entry, depth: nat, sk: Strkeys): Member {
    Member(TextOf(e, depth, sk), ScValToJson.Convert(e.val, depth, sk))
  }

  predicate SomeTextTwice(entries: seq<Entry>, depth: nat, sk: Strkeys) {
    exists i, k :: 0 <= i < k < |entries| && TextOf(entries[i], depth, sk) == TextOf(entries[k], depth, sk)
  }

  // With a text twice, the list of all pairs, in order; else an object with a member for every entry and no other.
  predicate ShowsEntries(j: Json, entries: seq<Entry>, depth: nat, sk: Strkeys) {
    if SomeTextTwice(entries, depth, sk) then
      && j.Array? && |j.items| == |entries|
      && forall i :: 0 <= i < |entries| ==>
           j.items[i] == Json.Object([Member("key", ScValToJson.Convert(entries[i].key, depth, sk)),
                                      Member("value", ScValToJson.Convert(entries[i].val, depth, sk))])
    else
      && j.Object? && Sorted(j.members)
      && (forall i :: 0 <= i < |entries| ==> MemberFor(entries[i], depth, sk) in j.members)
      && forall m :: m in j.members ==> exists i :: 0 <= i < |entries| && m == MemberFor(entries[i], depth, sk)
  }

  /** The printer's document is the only one that shows the value, at every depth. */
  lemma PrintsWhatShows(j: Json, v: ScVal, depth: nat, sk: Strkeys)
    ensures Shows(j, v, depth, sk) <==> j == ScValToJson.Convert(v, depth, sk)
  {
    hide ShowsEntries, MapJson, ShowsExecutable, ExecutableJson, ConvertEntries;
    if depth <= MAX_DEPTH {
      match v
      case Vec(items) => SameItems(j, items, depth, sk);
      case Map(entries) => EntriesShown(j, entries, depth + 1, sk);
      case ContractInstance(exec, storage) => InstanceShown(j, exec, storage, depth, sk);
      case _ => LeafShown(j, v, depth, sk);
    }
  }

  lemma SameItems(j: Json, items: seq<ScVal>, depth: nat, sk: Strkeys)
    requires depth <= MAX_DEPTH
    ensures Shows(j, Vec(items), depth, sk) <==> j == ScValToJson.Convert(Vec(items), depth, sk)
  {
    var printed := ScValToJson.ConvertAll(items, depth + 1, sk);
    assert ScValToJson.Convert(Vec(items), depth, sk) == Json.Array(printed);
    if Shows(j, Vec(items), depth, sk) {
      assert j.items == printed;
    }
  }

  lemma LeafShown(j: Json, v: ScVal, depth: nat, sk: Strkeys)
    requires depth <= MAX_DEPTH && !IsContainer(v)
    ensures Shows(j, v, depth, sk) <==> j == ScValToJson.Convert(v, depth, sk)
  {
    hide Denotes, IsHexOf, Text, IntText, HexText, U256.U256Value, CodeName, KindName;
    if v.U128? || v.I128? || v.U256? || v.I256? {
      WideShown(j, v, depth, sk);
    } else if v.Bytes? && j.String? {
      HexShown(j.s, v.bytes);
    }
  }

  lemma WideShown(j: Json, v: ScVal, depth: nat, sk: Strkeys)
    requires depth <= MAX_DEPTH && (v.U128? || v.I128? || v.U256? || v.I256?)
    ensures Shows(j, v, depth, sk) <==> j == ScValToJson.Convert(v, depth, sk)
  {
    hide Denotes, Text, IntText, U256.U256Value;
    match v
    case U128(hi, lo) => NumberShown(j, U256.U128Value(hi, lo));
    case I128(hi, lo) => NumberShown(j, U256.I128Value(hi, lo));
    case U256(p) =>
      UnsignedWords(p);
      NumberShown(j, U256.U256Value(p));
    case I256(p) => NumberShown(j, U256.I256Value(p));
  }

  lemma UnsignedWords(p: U256.U256Parts)
    ensures U256.U256Value(p) == Words4(p.hiHi, p.hiLo, p.loHi, p.loLo)
  {
    U256.LimbsUnrolled([p.hiHi, p.hiLo, p.loHi, p.loLo]);
  }

  lemma NumberShown(j: Json, z: int)
    ensures z >= 0 ==> IntText(z) == Text(z)
    ensures j.String? ==> (Denotes(j.s, z) <==> j.s == IntText(z))
  {
    if j.String? {
      NumberTextShown(j.s, z);
    }
  }

  // The only text that denotes a number is the printed one.
  lemma NumberTextShown(s: string, z: int)
    ensures Denotes(s, z) <==> s == IntText(z)
  {
    hide Text, Value;
    TextIsCanonical(if z < 0 then -z else z);
    if z < 0 {
      assert ("-" + Text(-z))[1..] == Text(-z);
    }
    if Denotes(s, z) {
      if s[0] == '-' {
        CanonicalIsText(s[1..]);
        assert s == "-" + s[1..];
      } else {
        CanonicalIsText(s);
      }
    }
    if s == IntText(z) && z >= 0 {
      assert IsDigit(s[0]);
    }
  }

  lemma {:induction false} EncodedAt(bytes: seq<Hex.byte>, i: nat)
    requires i < |bytes|
    ensures var s := Hex.Encode(bytes);
      s[2 * i] == HexDigit(bytes[i] / 16) && s[2 * i + 1] == HexDigit(bytes[i] % 16)
  {
    var s := Hex.Encode(bytes);
    if i == 0 {
      DigitShown(bytes[0] / 16);
      DigitShown(bytes[0] % 16);
    } else {
      EncodedAt(bytes[1..], i - 1);
      assert s[2..] == Hex.Encode(bytes[1..]);
      assert s[2..][2 * (i - 1)] == s[2 * i] && s[2..][2 * (i - 1) + 1] == s[2 * i + 1];
    }
  }

  lemma DigitShown(n: nat)
    requires n < 16
    ensures Hex.HexChar(n) == HexDigit(n)
  {
  }

  lemma HexShown(s: string, bytes: seq<Hex.byte>)
    ensures IsHexOf(s, bytes) <==> s == HexText(bytes)
  {
    hide HexDigit;
    var t := HexText(bytes);
    forall i | 0 <= i < |bytes|
      ensures t[2 + 2 * i] == HexDigit(bytes[i] / 16) && t[3 + 2 * i] == HexDigit(bytes[i] % 16)
    {
      EncodedAt(bytes, i);
    }
    if IsHexOf(s, bytes) {
      forall k | 0 <= k < |s| ensures s[k] == t[k] {
        if k >= 2 {
          var i := (k - 2) / 2;
          assert bytes[i] / 16 < 16 && s[2 + 2 * i] == HexDigit(bytes[i] / 16) == t[2 + 2 * i];
          assert s[3 + 2 * i] == HexDigit(bytes[i] % 16) == t[3 + 2 * i];
        }
      }
      assert s == t;
    }
  }

  lemma ExecutableShown(j: Json, exec: Executable)
    ensures ShowsExecutable(j, exec) <==> j == ExecutableJson(exec)
  {
    hide IsHexOf, HexText;
    if exec.Wasm? && j.Object? && |j.members| == 2 && j.members[1].value.String? {
      HexShown(j.members[1].value.s, exec.hash);
      assert j.members == [j.members[0], j.members[1]];
    }
  }

  lemma InstanceShown(j: Json, exec: Executable, storage: Storage, depth: nat, sk: Strkeys)
    requires depth <= MAX_DEPTH
    ensures var v := ContractInstance(exec, storage);
      Shows(j, v, depth, sk) <==> j == ScValToJson.Convert(v, depth, sk)
  {
    hide ShowsEntries, MapJson, ShowsExecutable, ExecutableJson, ConvertEntries;
    if j.Object? && |j.members| == 2 {
      assert j.members == [j.members[0], j.members[1]];
      ExecutableShown(j.members[0].value, exec);
      if storage.Stored? {
        EntriesShown(j.members[1].value, storage.entries, depth + 1, sk);
      }
    }
  }

  /* Maps. */

  lemma EntriesShown(j: Json, entries: seq<Entry>, depth: nat, sk: Strkeys)
    ensures ShowsEntries(j, entries, depth, sk) <==> j == MapJson(ConvertEntries(entries, depth, sk))
  {
    hide ScValToJson.Convert, KeyText, ObjectOf, Insert;
    var conv := ConvertEntries(entries, depth, sk);
    assert Collides(conv) <==> SomeTextTwice(entries, depth, sk) by { TextsCollide(conv, entries, depth, sk); }
    if Collides(conv) {
      ListShown(j, conv, entries, depth, sk);
    } else {
      ObjectShown(j, conv, entries, depth, sk);
    }
  }

  lemma TextsCollide(conv: seq<Converted>, entries: seq<Entry>, depth: nat, sk: Strkeys)
    requires conv == ConvertEntries(entries, depth, sk)
    ensures Collides(conv) <==> SomeTextTwice(entries, depth, sk)
  {
    hide ScValToJson.Convert, KeyText;
    forall i | 0 <= i < |conv| ensures conv[i].text == TextOf(entries[i], depth, sk) {
      assert conv[i] == ConvertEntry(entries[i], depth, sk);
    }
  }

  lemma ListShown(j: Json, conv: seq<Converted>, entries: seq<Entry>, depth: nat, sk: Strkeys)
    requires conv == ConvertEntries(entries, depth, sk) && Collides(conv) && SomeTextTwice(entries, depth, sk)
    ensures ShowsEntries(j, entries, depth, sk) <==> j == MapJson(conv)
  {
    hide ScValToJson.Convert, KeyText, Collides, SomeTextTwice;
    var items := LosslessItems(conv);
    forall i | 0 <= i < |items|
      ensures items[i] == Json.Object([Member("key", ScValToJson.Convert(entries[i].key, depth, sk)),
                                       Member("value", ScValToJson.Convert(entries[i].val, depth, sk))])
    {
      assert conv[i] == ConvertEntry(entries[i], depth, sk);
    }
    if ShowsEntries(j, entries, depth, sk) {
      assert j.items == items;
    }
  }

  lemma ObjectShown(j: Json, conv: seq<Converted>, entries: seq<Entry>, depth: nat, sk: Strkeys)
    requires conv == ConvertEntries(entries, depth, sk) && !Collides(conv) && !SomeTextTwice(entries, depth, sk)
    ensures ShowsEntries(j, entries, depth, sk) <==> j == MapJson(conv)
  {
    hide ScValToJson.Convert, KeyText, SomeTextTwice, ObjectOf, Sorted, MemberFor, Collides;
    var ms := ObjectOf(conv);
    ObjectHolds(conv);
    forall i | 0 <= i < |conv| ensures Member(conv[i].text, conv[i].value) == MemberFor(entries[i], depth, sk) {
      EntryMember(entries[i], depth, sk);
      assert conv[i] == ConvertEntry(entries[i], depth, sk);
    }
    assert ShowsEntries(Json.Object(ms), entries, depth, sk);
    if ShowsEntries(j, entries, depth, sk) {
      SortedUnique(j.members, ms);
    }
  }

  lemma EntryMember(e: Entry, depth: nat, sk: Strkeys)
    ensures var c := ConvertEntry(e, depth, sk); Member(c.text, c.value) == MemberFor(e, depth, sk)
  {
  }

  // The object has the members it was given and no others, in order.
  lemma {:induction false} ObjectHolds(conv: seq<Converted>)
    requires !Collides(conv)
    ensures var ms := ObjectOf(conv);
      && Sorted(ms)
      && (forall i :: 0 <= i < |conv| ==> Member(conv[i].text, conv[i].value) in ms)
      && forall m :: m in ms ==> exists i :: 0 <= i < |conv| && m == Member(conv[i].text, conv[i].value)
    decreases |conv|
  {
    hide Insert, Sorted;
    if conv == [] {
      NothingSorted();
    } else {
      var n := |conv| - 1;
      var init, before := conv[..n], ObjectOf(conv[..n]);
      assert !Collides(init) by {
        assert forall i :: 0 <= i < n ==> init[i] == conv[i];
      }
      ObjectHolds(init);
      InsertSorted(before, conv[n].text, conv[n].value);
      InsertHolds(before, conv[n].text, conv[n].value);
      forall m | m in ObjectOf(conv) ensures exists i :: 0 <= i < |conv| && m == Member(conv[i].text, conv[i].value) {
        if m in before {
          var i :| 0 <= i < n && m == Member(init[i].text, init[i].value);
          assert m == Member(conv[i].text, conv[i].value);
        } else {
          assert m == Member(conv[n].text, conv[n].value);
        }
      }
      forall i | 0 <= i < |conv| ensures Member(conv[i].text, conv[i].value) in ObjectOf(conv) {
        if i < n {
          assert conv[i] == init[i] && conv[i].text != conv[n].text;
        }
      }
    }
  }

  lemma NothingSorted()
    ensures Sorted([])
  {
  }

  lemma {:induction false} InsertHolds(ms: seq<Member>, key: string, value: Json)
    ensures Member(key, value) in Insert(ms, key, value)
    ensures forall m :: m in Insert(ms, key, value) ==> m in ms || m == Member(key, value)
    ensures forall m :: m in ms && m.key != key ==> m in Insert(ms, key, value)
  {
    if ms != [] {
      InsertHolds(ms[1..], key, value);
      assert forall m :: m in ms <==> m == ms[0] || m in ms[1..];
    }
  }

  // Sorted members are determined by which they are.
  lemma {:induction false} SortedUnique(a: seq<Member>, b: seq<Member>)
    requires Sorted(a) && Sorted(b) && forall m :: m in a <==> m in b
    ensures a == b
  {
    FirstIsIn(a);
    FirstIsIn(b);
    if a != [] && b != [] {
      assert a[0] in b && b[0] in a;
      FirstIsLeast(a, b[0]);
      FirstIsLeast(b, a[0]);
      if a[0] != b[0] {
        StringLessAsymmetric(a[0].key, b[0].key);
      }
      TailWithoutFirst(a);
      TailWithoutFirst(b);
      SortedUnique(a[1..], b[1..]);
      assert a == [a[0]] + a[1..] && b == [b[0]] + b[1..];
    }
  }

  lemma FirstIsIn(ms: seq<Member>)
    ensures ms != [] ==> ms[0] in ms
  {
  }

  lemma FirstIsLeast(ms: seq<Member>, m: Member)
    requires ms != [] && Sorted(ms) && m in ms
    ensures m == ms[0] || StringLess(ms[0].key, m.key)
  {
  }

  lemma TailWithoutFirst(ms: seq<Member>)
    requires ms != [] && Sorted(ms)
    ensures Sorted(ms[1..]) && forall m :: m in ms[1..] <==> m in ms && m != ms[0]
  {
    forall i | 0 < i < |ms| ensures ms[i] != ms[0] {
      StringLessAsymmetric(ms[0].key, ms[i].key);
    }
    assert forall i :: 0 < i < |ms| ==> ms[i] in ms[1..] by {
      assert forall i :: 0 < i < |ms| ==> ms[1..][i - 1] == ms[i];
    }
  }

  /* Texts of keys. */

  /** The text of a key: a string is its own text, anything else has that of its JSON. */
  lemma KeyTexts(key: Json)
    ensures match key
      case String(s) => KeyText(key) == s
      case Null => KeyText(key) == "null"
      case Bool(b) => KeyText(key) == if b then "true" else "false"
      case Number(n) => Denotes(KeyText(key), n)
      case Float(text) => KeyText(key) == text
      case Array(items) => KeyText(key) == "[" + ItemsText(items) + "]"
      case Object(ms) => KeyText(key) == "{" + MembersText(ms) + "}"
  {
    if key.Number? {
      NumberTextShown(KeyText(key), key.n);
    }
  }

  /** Lists are written item by item with commas between them. */
  lemma {:induction false} ItemsWritten(a: seq<Json>, item: Json, b: seq<Json>)
    ensures ItemsText([]) == "" && ItemsText([item]) == JsonText(item)
    ensures a != [] && b != [] ==> ItemsText(a + b) == ItemsText(a) + "," + ItemsText(b)
    decreases |a|
  {
    if a != [] && b != [] {
      assert (a + b)[0] == a[0] && (a + b)[1..] == a[1..] + b;
      if |a| == 1 {
        assert a[1..] + b == b;
      } else {
        ItemsWritten(a[1..], item, b);
        Regroup(JsonText(a[0]) + ",", ItemsText(a[1..]), ",", ItemsText(b));
      }
    }
  }

  /** Members are written as quoted keys, colons and values, with commas between them. */
  lemma {:induction false} MembersWritten(a: seq<Member>, m: Member, b: seq<Member>)
    ensures MembersText([]) == "" && MembersText([m]) == "\"" + Escape(m.key) + "\":" + JsonText(m.value)
    ensures a != [] && b != [] ==> MembersText(a + b) == MembersText(a) + "," + MembersText(b)
    decreases |a|
  {
    hide Escape, JsonText;
    QuotedKey(m.key, JsonText(m.value));
    if a != [] && b != [] {
      assert (a + b)[0] == a[0] && (a + b)[1..] == a[1..] + b;
      var first := Quote(a[0].key) + ":" + JsonText(a[0].value);
      if |a| == 1 {
        assert a[1..] + b == b;
      } else {
        MembersWritten(a[1..], m, b);
        Regroup(first + ",", MembersText(a[1..]), ",", MembersText(b));
      }
    }
  }

  lemma QuotedKey(key: string, value: string)
    ensures Quote(key) + ":" + value == "\"" + Escape(key) + "\":" + value
  {
    hide Escape;
    assert "\"" + ":" == "\":";
    assert Quote(key) + ":" == "\"" + Escape(key) + ("\"" + ":");
  }

  lemma Regroup(a: string, b: string, c: string, d: string)
    ensures a + (b + c + d) == a + b + c + d
  {
  }

  /** Quotes, backslashes and control characters are escaped, everything else is written as it is. */
  lemma {:induction false} EscapesWritten(a: string, c: char, b: string)
    ensures Escape("") == "" && Escape(a + b) == Escape(a) + Escape(b)
    ensures c >= ' ' && c != '\"' && c != '\\' ==> Escape([c]) == [c]
    ensures c == '\"' || c == '\\' ==> Escape([c]) == ['\\', c]
    ensures c < ' ' ==> Escape([c]) == match c as int
      case 8 => "\\b" case 9 => "\\t" case 10 => "\\n" case 12 => "\\f" case 13 => "\\r"
      case n => "\\u00" + [HexDigit(n / 16), HexDigit(n % 16)]
  {
    assert [c][1..] == [];
    if a == "" {
      assert a + b == b;
    } else {
      assert (a + b)[1..] == a[1..] + b;
      EscapesWritten(a[1..], c, b);
    }
  }

  /** Error kinds and codes are printed under the names they have in the protocol. */
  lemma ErrorNames()
    ensures
      [KindName(WasmVm), KindName(Context), KindName(StorageErr), KindName(ObjectErr), KindName(Crypto),
       KindName(Events), KindName(Budget), KindName(ValueErr), KindName(Auth)] ==
      ["WasmVm", "Context", "Storage", "Object", "Crypto", "Events", "Budget", "Value", "Auth"]
    ensures
      [CodeName(ArithDomain), CodeName(IndexBounds), CodeName(InvalidInput), CodeName(MissingValue),
       CodeName(ExistingValue), CodeName(ExceededLimit), CodeName(InvalidAction), CodeName(InternalError),
       CodeName(UnexpectedType), CodeName(UnexpectedSize)] ==
      ["ArithDomain", "IndexBounds", "InvalidInput", "MissingValue", "ExistingValue", "ExceededLimit",
       "InvalidAction", "InternalError", "UnexpectedType", "UnexpectedSize"]
  {
  }

  /** Different errors are printed differently. */
  lemma ErrorsToldApart(a: ScError, b: ScError, depth: nat, sk: Strkeys)
    requires depth <= MAX_DEPTH
    ensures ScValToJson.Convert(Error(a), depth, sk) == ScValToJson.Convert(Error(b), depth, sk) <==> a == b
  {
    PrintsWhatShows(ScValToJson.Convert(Error(a), depth, sk), Error(a), depth, sk);
    PrintsWhatShows(ScValToJson.Convert(Error(b), depth, sk), Error(b), depth, sk);
    if a.HostError? && b.HostError? {
      NamesDiffer(a.kind, b.kind, a.reason, b.reason);
    }
  }

  lemma NamesDiffer(k: ErrorKind, k': ErrorKind, c: ErrorCode, c': ErrorCode)
    ensures KindName(k) == KindName(k') <==> k == k'
    ensures CodeName(c) == CodeName(c') <==> c == c'
    ensures KindName(k) != "Contract"
  {
  }
}
