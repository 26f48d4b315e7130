/**
 What every document is read as, said without the reader: `Means` describes the values of a document, of which there is
 at most one, and `FailsWith` its error.
 */
module Reading {
  import opened Common
  import opened Decimal
  import opened Json
  import opened ScVals
  import opened ScValToJson
  import opened JsonToScVal
  import opened RoundTrip
  import opened Printing
  import Hex

  /* Texts. */

  // An optional sign and digits, leading zeros allowed, that evaluate to the number.
  predicate Spells(s: string, z: int) {
    var digits := if s != [] && s[0] in ['+', '-'] then s[1..] else s;
    digits != [] && IsDigits(digits) && z == if s[0] == '-' then 0 - Value(digits) else Value(digits) as int
  }

  // Integers of up to 128 bits that do not fit 64, unsigned and signed.
  predicate IsWideUnsigned(z: int) {
    0xFFFF_FFFF_FFFF_FFFF < z <= 0xFFFF_FFFF_FFFF_FFFF_FFFF_FFFF_FFFF_FFFF
  }

  predicate IsWideSigned(z: int) {
    || -0x8000_0000_0000_0000_0000_0000_0000_0000 <= z < -0x8000_0000_0000_0000
    || 0x7FFF_FFFF_FFFF_FFFF < z <= 0xFFFF_FFFF_FFFF_FFFF
  }

  predicate IsHexText(s: string, bytes: seq<Hex.byte>) {
    |s| >= 2 && s[..2] == "0x" && Lower(s[2..]) == Hex.Encode(bytes)
  }

  // Any text stands for one value; one that stands for nothing else is a string.
  ghost predicate TextMeans(s: string, v: ScVal, sk: Strkeys) {
    match v
    case LedgerKeyContractInstance => s == "LedgerKeyContractInstance"
    case Bytes(bytes) => IsHexText(s, bytes)
    case Address(a) => s == sk.encode(a)
    case U128(hi, lo) => IsWideUnsigned(Words2(hi, lo)) && Spells(s, Words2(hi, lo))
    case I128(hi, lo) => IsWideSigned(Words2(hi, lo)) && Spells(s, Words2(hi, lo))
    case Str(t) =>
      && s == t && s != "LedgerKeyContractInstance"
      && (forall bytes :: !IsHexText(s, bytes))
      && (forall a :: s != sk.encode(a))
      && (forall z :: Spells(s, z) ==> !IsWideUnsigned(z) && !IsWideSigned(z))
    case _ => false
  }

  lemma NibbleExact(c: char, n: nat)
    requires n < 16
    ensures Hex.Nibble(c) == Some(n) <==> LowerChar(c) == Hex.HexChar(n)
  {
  }

  lemma {:induction false} DecodeExact(s: string, bytes: seq<Hex.byte>)
    ensures Hex.Decode(s) == Some(bytes) <==> Lower(s) == Hex.Encode(bytes)
  {
    if |s| >= 2 && bytes != [] {
      DecodeExact(s[2..], bytes[1..]);
      var b := bytes[0];
      NibbleExact(s[0], b / 16);
      NibbleExact(s[1], b % 16);
      assert bytes == [b] + bytes[1..];
      assert Lower(s)[2..] == Lower(s[2..]);
      Hex.EqualParts([Hex.HexChar(b / 16), Hex.HexChar(b % 16)], Hex.Encode(bytes[1..]), Lower(s));
      assert Hex.Decode(s) == Some(bytes) <==>
        Hex.Nibble(s[0]) == Some(b / 16) && Hex.Nibble(s[1]) == Some(b % 16) && Hex.Decode(s[2..]) == Some(bytes[1..])
      by { DecodeParts(s, bytes); }
    } else if |s| < 2 {
      assert |Lower(s)| == |s|;
    } else {
      assert |Lower(s)| >= 2;
    }
  }

  lemma DecodeParts(s: string, bytes: seq<Hex.byte>)
    requires |s| >= 2 && bytes != []
    ensures Hex.Decode(s) == Some(bytes) <==>
      && Hex.Nibble(s[0]) == Some(bytes[0] / 16) && Hex.Nibble(s[1]) == Some(bytes[0] % 16)
      && Hex.Decode(s[2..]) == Some(bytes[1..])
  {
    hide Hex.Nibble;
    NibbleSmall(s[0]);
    NibbleSmall(s[1]);
    match (Hex.Nibble(s[0]), Hex.Nibble(s[1]), Hex.Decode(s[2..])) {
      case (Some(hi), Some(lo), Some(rest)) =>
        Hex.ByteParts(hi, lo);
        Hex.ByteParts(bytes[0] / 16, bytes[0] % 16);
        assert ([Hex.ByteOf(hi, lo)] + rest)[1..] == rest;
        assert bytes == [bytes[0]] + bytes[1..];
      case _ =>
    }
  }

  lemma NibbleSmall(c: char)
    ensures Hex.Nibble(c).Some? ==> Hex.Nibble(c).value < 16
  {
  }

  lemma HexMeans(s: string, bytes: seq<Hex.byte>)
    ensures ParseHex(s) == Some(bytes) <==> IsHexText(s, bytes)
  {
    if |s| >= 2 {
      DecodeExact(s[2..], bytes);
    }
  }

  lemma AddressMeans(s: string, a: ScAddress, sk: Strkeys)
    requires Lawful(sk)
    ensures ParseAddress(s, sk) == Some(a) <==> s == sk.encode(a)
  {
    match a
    case Account(key) => assert sk.account(sk.encode(Account(key))) == Some(key);
    case Contract(id) => assert sk.contract(sk.encode(Contract(id))) == Some(id);
  }

  lemma NumberMeans(s: string, z: int)
    ensures ParseU128(s) == Some(z) && z > U64_MAX <==> IsWideUnsigned(z) && Spells(s, z)
    ensures ParseI128(s) == Some(z) <==> Spells(s, z) && I128_MIN <= z <= I128_MAX
  {
    hide Value;
  }

  // A text spells at most one number, and then it is neither hex nor an address nor the sentinel.
  lemma SpellsOne(s: string, z: int, y: int)
    requires Spells(s, z)
    ensures Spells(s, y) ==> y == z
    ensures s != [] && (IsDigit(s[0]) || s[0] in ['+', '-']) && (|s| >= 2 ==> IsDigit(s[1]))
  {
    hide Value;
  }

  /** A text is read as the value it stands for. */
  lemma TextReadAs(s: string, v: ScVal, sk: Strkeys)
    requires Lawful(sk)
    ensures ParseString(s, sk) == v <==> TextMeans(s, v, sk)
  {
    hide ParseHex, ParseAddress, ParseU128, ParseI128, Spells, IsHexText;
    forall bytes ensures ParseHex(s) == Some(bytes) <==> IsHexText(s, bytes) {
      HexMeans(s, bytes);
    }
    forall a ensures ParseAddress(s, sk) == Some(a) <==> s == sk.encode(a) {
      AddressMeans(s, a, sk);
    }
    Shapes(s, sk);
    if ParseHex(s).None? && ParseAddress(s, sk).None? && s != "LedgerKeyContractInstance" {
      NumbersRead(s, v, sk);
    } else {
      PlainRead(s, v, sk);
    }
  }

  // What has one of the other forms is no number.
  lemma Shapes(s: string, sk: Strkeys)
    requires Lawful(sk)
    ensures s == "LedgerKeyContractInstance" || ParseHex(s).Some? || ParseAddress(s, sk).Some? ==>
      forall z :: !Spells(s, z)
    ensures ParseHex(s).Some? ==> ParseAddress(s, sk).None? && s != "LedgerKeyContractInstance"
    ensures ParseAddress(s, sk).Some? ==> s != "LedgerKeyContractInstance"
  {
    hide Spells, Hex.Decode;
    assert |s| >= 2 ==> s[..2][0] == s[0] && s[..2][1] == s[1];
    forall z | Spells(s, z)
      ensures s != "LedgerKeyContractInstance" && ParseHex(s).None? && ParseAddress(s, sk).None?
    {
      SpellsOne(s, z, z);
    }
  }

  lemma PlainRead(s: string, v: ScVal, sk: Strkeys)
    requires Lawful(sk)
    requires s == "LedgerKeyContractInstance" || ParseHex(s).Some? || ParseAddress(s, sk).Some?
    requires forall z :: !Spells(s, z)
    requires ParseHex(s).Some? ==> ParseAddress(s, sk).None? && s != "LedgerKeyContractInstance"
    requires ParseAddress(s, sk).Some? ==> s != "LedgerKeyContractInstance"
    requires forall bytes :: ParseHex(s) == Some(bytes) <==> IsHexText(s, bytes)
    requires forall a :: ParseAddress(s, sk) == Some(a) <==> s == sk.encode(a)
    ensures ParseString(s, sk) == v <==> TextMeans(s, v, sk)
  {
    hide ParseHex, ParseAddress, ParseU128, ParseI128, Spells, IsHexText, Lawful;
  }

  lemma NumbersRead(s: string, v: ScVal, sk: Strkeys)
    requires ParseHex(s).None? && ParseAddress(s, sk).None? && s != "LedgerKeyContractInstance"
    requires forall bytes :: ParseHex(s) == Some(bytes) <==> IsHexText(s, bytes)
    requires forall a :: ParseAddress(s, sk) == Some(a) <==> s == sk.encode(a)
    ensures ParseString(s, sk) == v <==> TextMeans(s, v, sk)
  {
    hide ParseHex, ParseAddress, ParseU128, ParseI128, Spells, IsHexText;
    forall z ensures ParseU128(s) == Some(z) && z > U64_MAX <==> IsWideUnsigned(z) && Spells(s, z)
      ensures ParseI128(s) == Some(z) <==> Spells(s, z) && I128_MIN <= z <= I128_MAX
    {
      NumberMeans(s, z);
    }
    forall z, y | Spells(s, z) && Spells(s, y) ensures z == y {
      SpellsOne(s, z, y);
    }
    match v
    case U128(hi, lo) => Halves(hi, lo);
    case I128(hi, lo) => Halves(hi, lo);
    case _ =>
  }

  lemma Halves(hi: int, lo: int)
    requires 0 <= lo < 0x1_0000_0000_0000_0000
    ensures var z := Words2(hi, lo);
      z / 0x1_0000_0000_0000_0000 == hi && z % 0x1_0000_0000_0000_0000 == lo
  {
  }

  /* Marks. */

  // `Member(key, value)` with the first such key.
  predicate Holds(ms: seq<Member>, key: string, value: Json) {
    Get(ms, key) == Some(value)
  }

  // Exactly the members `type` and `code`: a contract error's code is taken modulo 2^32, of the host codes seven are
  // known.
  predicate IsErrorMark(ms: seq<Member>, err: ScError) {
    && |ms| == 2 && Has(ms, "type") && Has(ms, "code")
    && match err
       case ContractError(code) =>
         && Holds(ms, "type", Json.String("Contract"))
         && var c := Get(ms, "code").value;
            c.Number? && 0 <= c.n <= 0xFFFF_FFFF_FFFF_FFFF && (c.n - code) % 0x1_0000_0000 == 0
       case HostError(kind, code) =>
         && Holds(ms, "type", Json.String(KindName(kind))) && Holds(ms, "code", Json.String(CodeName(code)))
         && code in {InvalidInput, MissingValue, ExceededLimit, InvalidAction, InternalError, UnexpectedType,
                     UnexpectedSize}
  }

  predicate IsNonceMark(ms: seq<Member>, n: int) {
    |ms| == 1 && Holds(ms, "nonce", Json.Number(n)) && -0x8000_0000_0000_0000 <= n <= 0x7FFF_FFFF_FFFF_FFFF
  }

  // The hash is 64 hex digits of either case, with or without the prefix.
  predicate IsExecutable(j: Json, exec: Executable) {
    && j.Object?
    && match exec
       case StellarAsset => Holds(j.members, "type", Json.String("StellarAsset"))
       case Wasm(hash) =>
         && Holds(j.members, "type", Json.String("Wasm"))
         && var t := Get(j.members, "wasmHash");
            t.Some? && t.value.String? && (IsHexText(t.value.s, hash) || Lower(t.value.s) == Hex.Encode(hash))
  }

  // The executable is understood, the storage is absent or read as a map.
  predicate IsInstanceMark(ms: seq<Member>, exec: Executable, storage: Storage, depth: nat, sk: Strkeys) {
    && Has(ms, "executable") && Has(ms, "storage") && IsExecutable(Get(ms, "executable").value, exec)
    && var stored := Get(ms, "storage").value;
       match storage
       case NoStorage => stored.Null?
       case Stored(entries) => Parse(stored, depth + 1, sk) == Ok(Map(entries))
  }

  lemma ErrorMarked(ms: seq<Member>, err: ScError)
    ensures ErrorMarker(ms) == Some(err) <==> IsErrorMark(ms, err)
  {
    hide Get;
    if err.HostError? {
      KnownCode(err.reason);
      KindKnown(err.kind);
      assert KindOf("").None?;
      if ErrorMarker(ms) == Some(err) {
        Names(AsText(Get(ms, "type")).GetOr(""), Get(ms, "code").value.s);
      }
    }
  }

  lemma KnownCode(code: ErrorCode)
    ensures CodeOf(CodeName(code)) == if code in {InvalidInput, MissingValue, ExceededLimit, InvalidAction,
                                                  InternalError, UnexpectedType, UnexpectedSize}
                                      then Some(code) else None
  {
  }

  lemma KindKnown(kind: ErrorKind)
    ensures KindOf(KindName(kind)) == Some(kind) && KindName(kind) != "Contract" && KindName(kind) != ""
  {
  }

  lemma NonceMarked(ms: seq<Member>, n: int)
    ensures NonceMarker(ms).Some? && NonceMarker(ms).value == n <==> IsNonceMark(ms, n)
  {
  }

  lemma ExecutableMarked(j: Json, exec: Executable)
    ensures ParseExecutable(j) == Some(exec) <==> IsExecutable(j, exec)
  {
    hide Get, Hex.Decode, Hex.Encode;
    if exec.Wasm? && j.Object? {
      var t := AsText(Get(j.members, "wasmHash")).GetOr("");
      DecodeExact(t, exec.hash);
      if |t| >= 2 {
        DecodeExact(t[2..], exec.hash);
        if t[..2] == "0x" {
          assert t[..2][1] == 'x' && Lower(t)[1] == 'x';
          assert Lower(t) != Hex.Encode(exec.hash) by { assert Hex.IsLowerHex(Hex.Encode(exec.hash)); }
        }
      }
    }
  }

  lemma InstanceMarked(j: Json, exec: Executable, storage: Storage, depth: nat, sk: Strkeys)
    requires j.Object?
    ensures InstanceMarker(j, depth, sk) == Some(ContractInstance(exec, storage)) <==>
      IsInstanceMark(j.members, exec, storage, depth, sk)
  {
    hide Get, ParseExecutable, IsExecutable, Parse;
    NullIsNoMap(depth + 1, sk);
    if Has(j.members, "executable") && Has(j.members, "storage") {
      var found := ParseExecutable(MemberOf(j, "executable"));
      ExecutableMarked(MemberOf(j, "executable"), exec);
    }
  }

  lemma NullIsNoMap(depth: nat, sk: Strkeys)
    ensures Parse(Json.Null, depth, sk).Ok? ==> !Parse(Json.Null, depth, sk).value.Map?
  {
  }

  lemma OnlyInstances(j: Json, depth: nat, sk: Strkeys)
    requires j.Object?
    ensures var r := InstanceMarker(j, depth, sk); r.Some? ==> r.value.ContractInstance?
  {
    hide Get, ParseExecutable, Parse;
  }

  /* Documents. */

  // An object with the members `key` and `value` and no other.
  predicate IsKeyValue(j: Json, key: Json, value: Json) {
    j.Object? && |j.members| == 2 && Holds(j.members, "key", key) && Holds(j.members, "value", value)
  }

  ghost predicate HasKeyValue(j: Json) {
    j.Object? && exists key, value :: IsKeyValue(j, key, value)
  }

  ghost function KeyIn(j: Json): Json
    requires HasKeyValue(j)
  {
    Get(j.members, "key").value
  }

  ghost function ValueIn(j: Json): Json
    requires HasKeyValue(j)
  {
    Get(j.members, "value").value
  }

  ghost predicate IsPairList(items: seq<Json>) {
    items != [] && forall i :: 0 <= i < |items| ==> HasKeyValue(items[i])
  }

  lemma PairsHaveBoth(j: Json)
    ensures IsPair(j) <==> HasKeyValue(j)
    ensures IsPair(j) ==> KeyIn(j) == MemberOf(j, "key") && ValueIn(j) == MemberOf(j, "value")
  {
    hide Get;
    if IsPair(j) {
      assert IsKeyValue(j, MemberOf(j, "key"), MemberOf(j, "value"));
    }
  }

  lemma PairListsAre(items: seq<Json>)
    ensures IsPairList(items) <==> IsLossless(items)
    ensures IsPairList(items) ==> forall i :: 0 <= i < |items| ==>
      && IsPair(items[i])
      && KeyIn(items[i]) == MemberOf(items[i], "key") && ValueIn(items[i]) == MemberOf(items[i], "value")
  {
    hide HasKeyValue, Get, KeyIn, ValueIn;
    forall i | 0 <= i < |items|
      ensures IsPair(items[i]) <==> HasKeyValue(items[i])
      ensures IsPair(items[i]) ==>
        KeyIn(items[i]) == MemberOf(items[i], "key") && ValueIn(items[i]) == MemberOf(items[i], "value")
    {
      PairsHaveBoth(items[i]);
    }
  }

  ghost predicate Unmarked(ms: seq<Member>, depth: nat, sk: Strkeys) {
    && (forall err :: !IsErrorMark(ms, err))
    && (forall n :: !IsNonceMark(ms, n))
    && (forall exec, storage :: !IsInstanceMark(ms, exec, storage, depth, sk))
  }

  // The value of a document, given those of its parts.
  ghost predicate Means(j: Json, v: ScVal, depth: nat, sk: Strkeys) {
    && depth <= 100
    && match j
       case Null => v.Void?
       case Bool(b) => v == ScVal.Bool(b)
       // The narrowest type of those that hold the number, unsigned before signed.
       case Number(n) =>
         || (v.U32? && v.u == n)
         || (v.I32? && v.i == n && n < 0)
         || (v.U64? && v.ul == n && n > 0xFFFF_FFFF)
         || (v.I64? && v.il == n && n < -0x8000_0000)
       case Float(_) => false
       case String(s) => TextMeans(s, v, sk)
       case Array(items) =>
         if IsPairList(items) then
           && v.Map? && |v.entries| == |items|
           && forall i :: 0 <= i < |items| ==>
                && Parse(KeyIn(items[i]), depth + 1, sk) == Ok(v.entries[i].key)
                && Parse(ValueIn(items[i]), depth + 1, sk) == Ok(v.entries[i].val)
         else
           && v.Vec? && |v.items| == |items|
           && forall i :: 0 <= i < |items| ==> Parse(items[i], depth + 1, sk) == Ok(v.items[i])
       case Object(ms) =>
         && !Has(ms, "__truncated__")
         && match v
            case Error(err) => IsErrorMark(ms, err)
            case LedgerKeyNonce(n) => IsNonceMark(ms, n)
            case ContractInstance(exec, storage) => IsInstanceMark(ms, exec, storage, depth, sk)
            case Map(entries) =>
              && Unmarked(ms, depth, sk) && |entries| == |ms|
              && forall i :: 0 <= i < |ms| ==>
                   TextMeans(ms[i].key, entries[i].key, sk) && Parse(ms[i].value, depth + 1, sk) == Ok(entries[i].val)
            case _ => false
  }

  /** The reader returns the value a document means, and only if there is one. */
  lemma ReadsWhatIsMeant(j: Json, v: ScVal, depth: nat, sk: Strkeys)
    requires Lawful(sk)
    ensures Parse(j, depth, sk) == Ok(v) <==> Means(j, v, depth, sk)
  {
    hide Lawful, TextMeans, ParseString, ErrorMarker, NonceMarker, InstanceMarker, Has, HasKeyValue, Unmarked,
         IsErrorMark, IsNonceMark, IsInstanceMark;
    if depth <= MAX_DEPTH {
      match j
      case String(s) => TextReadAs(s, v, sk);
      case Array(items) =>
        if IsPairList(items) {
          PairsMeant(items, v, depth, sk);
        } else {
          ItemsMeant(items, v, depth, sk);
        }
      case Object(ms) => ObjectMeant(j, v, depth, sk);
      case _ =>
    }
  }

  lemma ItemsMeant(items: seq<Json>, v: ScVal, depth: nat, sk: Strkeys)
    requires depth <= MAX_DEPTH && !IsPairList(items)
    ensures Parse(Json.Array(items), depth, sk) == Ok(v) <==> Means(Json.Array(items), v, depth, sk)
  {
    hide HasKeyValue;
    var r := ParseAll(items, depth + 1, sk);
    ParseAllSpec(items, depth + 1, sk);
    UnfoldItems(items, depth, sk);
    hide Parse;
    if Means(Json.Array(items), v, depth, sk) {
      assert r.Ok? && r.value == v.items;
    }
  }

  lemma UnfoldItems(items: seq<Json>, depth: nat, sk: Strkeys)
    requires depth <= MAX_DEPTH && !IsPairList(items)
    ensures var r := ParseAll(items, depth + 1, sk);
      Parse(Json.Array(items), depth, sk) == if r.Ok? then Ok(Vec(r.value)) else Err(r.error)
  {
    hide IsLossless, IsPairList;
    PairListsAre(items);
  }

  lemma PairsMeant(items: seq<Json>, v: ScVal, depth: nat, sk: Strkeys)
    requires depth <= MAX_DEPTH && IsPairList(items)
    ensures Parse(Json.Array(items), depth, sk) == Ok(v) <==> Means(Json.Array(items), v, depth, sk)
  {
    hide IsPair, HasKeyValue, KeyIn, ValueIn;
    PairListsAre(items);
    var r := ParsePairs(items, depth + 1, sk);
    ParsePairsSpec(items, depth + 1, sk);
    UnfoldPairs(items, depth, sk);
    hide Parse;
    if Means(Json.Array(items), v, depth, sk) {
      forall i | 0 <= i < |items| ensures PairParses(items[i], depth + 1, sk) && r.Ok? ==> r.value[i] == v.entries[i] {
        assert r.Ok? ==> ParsesTo(items[i], r.value[i], depth + 1, sk);
      }
      assert r.Ok? && r.value == v.entries;
    }
  }

  lemma UnfoldPairs(items: seq<Json>, depth: nat, sk: Strkeys)
    requires depth <= MAX_DEPTH && IsPairList(items)
    ensures IsLossless(items)
    ensures var r := ParsePairs(items, depth + 1, sk);
      Parse(Json.Array(items), depth, sk) == if r.Ok? then Ok(Map(r.value)) else Err(r.error)
  {
    hide IsPair, IsPairList;
    PairListsAre(items);
  }

  lemma ObjectMeant(j: Json, v: ScVal, depth: nat, sk: Strkeys)
    requires Lawful(sk) && depth <= MAX_DEPTH && j.Object?
    ensures Parse(j, depth, sk) == Ok(v) <==> Means(j, v, depth, sk)
  {
    hide Lawful, TextMeans, ParseString, ErrorMarker, NonceMarker, InstanceMarker, Has, Unmarked, IsErrorMark,
         IsNonceMark, IsInstanceMark, ParseMembers;
    var ms := j.members;
    if !Has(ms, "__truncated__") {
      MarksMeant(j, depth, sk);
      UnfoldObject(j, depth, sk);
      if IsBare(j, depth, sk) {
        if v.Map? { MembersMeant(ms, v.entries, depth, sk); }
      }
    }
  }

  // No mark, as far as the reader can see.
  predicate IsBare(j: Json, depth: nat, sk: Strkeys)
    requires j.Object?
  {
    ErrorMarker(j.members).None? && NonceMarker(j.members).None? && InstanceMarker(j, depth, sk).None?
  }

  lemma UnfoldObject(j: Json, depth: nat, sk: Strkeys)
    requires depth <= MAX_DEPTH && j.Object? && !Has(j.members, "__truncated__")
    ensures ErrorMarker(j.members).Some? ==> Parse(j, depth, sk) == Ok(Error(ErrorMarker(j.members).value))
    ensures ErrorMarker(j.members).None? && NonceMarker(j.members).Some? ==>
      Parse(j, depth, sk) == Ok(LedgerKeyNonce(NonceMarker(j.members).value))
    ensures ErrorMarker(j.members).None? && NonceMarker(j.members).None? && InstanceMarker(j, depth, sk).Some? ==>
      Parse(j, depth, sk) == Ok(InstanceMarker(j, depth, sk).value)
    ensures IsBare(j, depth, sk) ==>
      var r := ParseMembers(j.members, depth + 1, sk);
      Parse(j, depth, sk) == if r.Ok? then Ok(Map(r.value)) else Err(r.error)
  {
    hide ErrorMarker, NonceMarker, InstanceMarker, Has;
  }

  // The reader sees the marks there are; there is at most one.
  lemma MarksMeant(j: Json, depth: nat, sk: Strkeys)
    requires j.Object?
    ensures var ms := j.members;
      && (forall err :: ErrorMarker(ms) == Some(err) <==> IsErrorMark(ms, err))
      && (forall n :: NonceMarker(ms).Some? && NonceMarker(ms).value == n <==> IsNonceMark(ms, n))
      && (forall exec, storage :: InstanceMarker(j, depth, sk) == Some(ContractInstance(exec, storage)) <==>
           IsInstanceMark(ms, exec, storage, depth, sk))
      && (IsBare(j, depth, sk) <==> Unmarked(ms, depth, sk))
      && (ErrorMarker(ms).Some? ==> NonceMarker(ms).None? && InstanceMarker(j, depth, sk).None?)
      && (NonceMarker(ms).Some? ==> InstanceMarker(j, depth, sk).None?)
      && var r := InstanceMarker(j, depth, sk); r.Some? ==> r.value.ContractInstance?
  {
    hide ErrorMarker, NonceMarker, InstanceMarker, IsErrorMark, IsNonceMark, IsInstanceMark;
    var ms := j.members;
    forall err ensures ErrorMarker(ms) == Some(err) <==> IsErrorMark(ms, err) {
      ErrorMarked(ms, err);
    }
    forall n ensures NonceMarker(ms).Some? && NonceMarker(ms).value == n <==> IsNonceMark(ms, n) {
      NonceMarked(ms, n);
    }
    forall exec, storage
      ensures InstanceMarker(j, depth, sk) == Some(ContractInstance(exec, storage)) <==>
        IsInstanceMark(ms, exec, storage, depth, sk)
    {
      InstanceMarked(j, exec, storage, depth, sk);
    }
    OnlyInstances(j, depth, sk);
    OneMark(j, depth, sk);
    if ErrorMarker(ms).Some? {
      assert IsErrorMark(ms, ErrorMarker(ms).value);
    } else if NonceMarker(ms).Some? {
      assert IsNonceMark(ms, NonceMarker(ms).value);
    } else if InstanceMarker(j, depth, sk).Some? {
      var v := InstanceMarker(j, depth, sk).value;
      assert v == ContractInstance(v.executable, v.storage);
      assert IsInstanceMark(ms, v.executable, v.storage, depth, sk);
    }
  }

  lemma OneMark(j: Json, depth: nat, sk: Strkeys)
    requires j.Object?
    ensures var ms := j.members;
      && (ErrorMarker(ms).Some? ==> NonceMarker(ms).None? && InstanceMarker(j, depth, sk).None?)
      && (NonceMarker(ms).Some? ==> InstanceMarker(j, depth, sk).None?)
  {
    hide Get, ParseExecutable, Parse, KindOf, CodeOf;
    var ms := j.members;
    if Has(ms, "executable") && Has(ms, "storage") {
      if Has(ms, "type") {
        ThreeKeys(ms, "executable", "storage", "type");
      }
      TwoKeys(ms, "executable", "storage");
    }
  }

  lemma TwoKeys(ms: seq<Member>, a: string, b: string)
    requires Has(ms, a) && Has(ms, b) && a != b
    ensures |ms| >= 2
  {
    var i :| 0 <= i < |ms| && ms[i].key == a;
    var k :| 0 <= k < |ms| && ms[k].key == b;
    assert i != k;
  }

  lemma ThreeKeys(ms: seq<Member>, a: string, b: string, c: string)
    requires Has(ms, a) && Has(ms, b) && Has(ms, c) && a != b && b != c && a != c
    ensures |ms| >= 3
  {
    var i :| 0 <= i < |ms| && ms[i].key == a;
    var k :| 0 <= k < |ms| && ms[k].key == b;
    var l :| 0 <= l < |ms| && ms[l].key == c;
    assert i != k && k != l && i != l;
  }

  lemma MembersMeant(ms: seq<Member>, entries: seq<Entry>, depth: nat, sk: Strkeys)
    requires Lawful(sk)
    ensures ParseMembers(ms, depth + 1, sk) == Ok(entries) <==>
      && |entries| == |ms|
      && forall i :: 0 <= i < |ms| ==>
           TextMeans(ms[i].key, entries[i].key, sk) && Parse(ms[i].value, depth + 1, sk) == Ok(entries[i].val)
  {
    hide Lawful, Parse, ParseString, TextMeans;
    var r := ParseMembers(ms, depth + 1, sk);
    ParseMembersSpec(ms, depth + 1, sk);
    if |entries| == |ms| {
      forall i | 0 <= i < |ms|
        ensures ParseString(ms[i].key, sk) == entries[i].key <==> TextMeans(ms[i].key, entries[i].key, sk)
      {
        TextReadAs(ms[i].key, entries[i].key, sk);
      }
      if forall i :: 0 <= i < |ms| ==>
           TextMeans(ms[i].key, entries[i].key, sk) && Parse(ms[i].value, depth + 1, sk) == Ok(entries[i].val)
      {
        assert r.Ok? && forall i :: 0 <= i < |ms| ==> r.value[i] == Entry(entries[i].key, entries[i].val);
        assert r.value == entries;
      }
    }
  }

  /* Errors. */

  // The first part that fails, with its error, everything before it being readable.
  predicate FailsAt(parts: seq<Json>, i: nat, e: Failure, depth: nat, sk: Strkeys) {
    && i < |parts| && Parse(parts[i], depth, sk) == Err(e)
    && forall k :: 0 <= k < i ==> Parse(parts[k], depth, sk).Ok?
  }

  ghost predicate FirstFails(parts: seq<Json>, e: Failure, depth: nat, sk: Strkeys) {
    exists i: nat :: FailsAt(parts, i, e, depth, sk)
  }

  function Values(ms: seq<Member>): (r: seq<Json>)
    ensures |r| == |ms| && forall i :: 0 <= i < |ms| ==> r[i] == ms[i].value
  {
    seq(|ms|, i requires 0 <= i < |ms| => ms[i].value)
  }

  // Keys and values in the order in which they are read.
  ghost function KeysAndValues(items: seq<Json>): (r: seq<Json>)
    requires forall i :: 0 <= i < |items| ==> HasKeyValue(items[i])
  {
    if items == [] then [] else [KeyIn(items[0]), ValueIn(items[0])] + KeysAndValues(items[1..])
  }

  // Why a document is not read.
  ghost predicate FailsWith(j: Json, e: Failure, depth: nat, sk: Strkeys) {
    if depth > 100 then e == TooDeep
    else
      match j
      case Float(_) => e == NotAnInteger
      case Number(n) =>
        e == NotAnInteger && !(-0x8000_0000_0000_0000 <= n <= 0xFFFF_FFFF_FFFF_FFFF)
      case Array(items) =>
        if IsPairList(items) then FirstFails(KeysAndValues(items), e, depth + 1, sk)
        else FirstFails(items, e, depth + 1, sk)
      case Object(ms) =>
        if Has(ms, "__truncated__") then e == TruncatedMarker
        else Unmarked(ms, depth, sk) && FirstFails(Values(ms), e, depth + 1, sk)
      case _ => false
  }

  lemma {:induction false} ItemsFail(items: seq<Json>, e: Failure, depth: nat, sk: Strkeys)
    ensures ParseAll(items, depth, sk) == Err(e) <==> FirstFails(items, e, depth, sk)
  {
    hide Parse, FirstFails;
    if items == [] {
      NothingFails(e, depth, sk);
    } else {
      ItemsFail(items[1..], e, depth, sk);
      assert items == [items[0]] + items[1..];
      FailsCons(items[0], items[1..], e, depth, sk);
    }
  }

  lemma NothingFails(e: Failure, depth: nat, sk: Strkeys)
    ensures !FirstFails([], e, depth, sk)
  {
  }

  lemma FailsCons(first: Json, rest: seq<Json>, e: Failure, depth: nat, sk: Strkeys)
    ensures FirstFails([first] + rest, e, depth, sk) <==>
      if Parse(first, depth, sk).Ok? then FirstFails(rest, e, depth, sk) else Parse(first, depth, sk) == Err(e)
  {
    hide Parse, FailsAt;
    var all := [first] + rest;
    FailsFirst(first, rest, e, depth, sk);
    forall i: nat
      ensures FailsAt(all, i + 1, e, depth, sk) <==> Parse(first, depth, sk).Ok? && FailsAt(rest, i, e, depth, sk)
    {
      FailsLater(first, rest, i, e, depth, sk);
    }
    if i: nat :| FailsAt(all, i, e, depth, sk) {
      if i > 0 {
        assert FailsAt(rest, i - 1, e, depth, sk);
      }
    }
  }

  lemma FailsFirst(first: Json, rest: seq<Json>, e: Failure, depth: nat, sk: Strkeys)
    ensures FailsAt([first] + rest, 0, e, depth, sk) <==> Parse(first, depth, sk) == Err(e)
  {
    hide Parse;
  }

  lemma FailsLater(first: Json, rest: seq<Json>, i: nat, e: Failure, depth: nat, sk: Strkeys)
    ensures FailsAt([first] + rest, i + 1, e, depth, sk) <==>
      Parse(first, depth, sk).Ok? && FailsAt(rest, i, e, depth, sk)
  {
    hide Parse;
    var all := [first] + rest;
    assert all[0] == first && forall k :: 0 <= k < |rest| ==> all[k + 1] == rest[k];
    assert forall k :: 0 < k < |all| ==> all[k] == rest[k - 1];
  }

  lemma {:induction false} MembersFail(ms: seq<Member>, e: Failure, depth: nat, sk: Strkeys)
    ensures ParseMembers(ms, depth, sk) == Err(e) <==> FirstFails(Values(ms), e, depth, sk)
  {
    hide Parse, FirstFails, ParseString;
    if ms == [] {
      NothingFails(e, depth, sk);
    } else {
      MembersFail(ms[1..], e, depth, sk);
      assert Values(ms) == [ms[0].value] + Values(ms[1..]);
      FailsCons(ms[0].value, Values(ms[1..]), e, depth, sk);
    }
  }

  lemma {:induction false} PairsFail(items: seq<Json>, e: Failure, depth: nat, sk: Strkeys)
    requires forall i :: 0 <= i < |items| ==> IsPair(items[i]) && HasKeyValue(items[i])
    ensures ParsePairs(items, depth, sk) == Err(e) <==> FirstFails(KeysAndValues(items), e, depth, sk)
  {
    hide Parse, FirstFails, Get, HasKeyValue, KeyIn, ValueIn;
    if items == [] {
      NothingFails(e, depth, sk);
    } else {
      assert IsPair(items[0]);
      PairsHaveBoth(items[0]);
      var key, value, rest := MemberOf(items[0], "key"), MemberOf(items[0], "value"), KeysAndValues(items[1..]);
      PairsFail(items[1..], e, depth, sk);
      FailsCons(value, rest, e, depth, sk);
      FailsCons(key, [value] + rest, e, depth, sk);
      assert [key] + ([value] + rest) == [key, value] + rest;
    }
  }

  /** The reader's error is that of the first part it cannot read, and there is one exactly when it returns no value. */
  lemma FailsAsSaid(j: Json, e: Failure, depth: nat, sk: Strkeys)
    requires Lawful(sk)
    ensures Parse(j, depth, sk) == Err(e) <==> FailsWith(j, e, depth, sk)
  {
    hide Lawful, TextMeans, ParseString, ErrorMarker, NonceMarker, InstanceMarker, Has, HasKeyValue, Unmarked,
         FirstFails;
    if depth <= MAX_DEPTH {
      match j
      case Array(items) =>
        if IsPairList(items) {
          UnfoldPairs(items, depth, sk);
          PairListsAre(items);
          PairsFail(items, e, depth + 1, sk);
        } else {
          UnfoldItems(items, depth, sk);
          ItemsFail(items, e, depth + 1, sk);
        }
      case Object(ms) =>
        if !Has(ms, "__truncated__") {
          MarksMeant(j, depth, sk);
          UnfoldObject(j, depth, sk);
          MembersFail(ms, e, depth + 1, sk);
        }
      case _ =>
    }
  }

  /** Every address comes back from its text. */
  lemma AddressReadBack(a: ScAddress, depth: nat, sk: Strkeys)
    requires Lawful(sk) && depth <= MAX_DEPTH
    ensures Parse(Json.String(sk.encode(a)), depth, sk) == Ok(Address(a))
  {
    hide TextMeans, Parse;
    TextReadAs(sk.encode(a), Address(a), sk);
    ReadsWhatIsMeant(Json.String(sk.encode(a)), Address(a), depth, sk);
    AddressText(a, sk);
  }

  lemma AddressText(a: ScAddress, sk: Strkeys)
    ensures TextMeans(sk.encode(a), Address(a), sk)
  {
  }
}
