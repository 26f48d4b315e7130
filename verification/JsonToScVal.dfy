/**
 Reading JSON back into a Soroban value (crates/core/src/decode/json_to_scval.rs).
 */
module JsonToScVal {
  import opened Common
  import opened Decimal
  import opened U256
  import opened Hex
  import opened Json
  import opened ScVals
  import opened ScValToJson

  datatype Failure = TooDeep | NotAnInteger | TruncatedMarker

  type Parsed = Result<ScVal, Failure>

  const I64_MIN: int := -0x8000_0000_0000_0000
  const I64_MAX: int := 0x7FFF_FFFF_FFFF_FFFF
  const U64_MAX: int := 0xFFFF_FFFF_FFFF_FFFF
  const U128_MAX: int := 0xFFFF_FFFF_FFFF_FFFF_FFFF_FFFF_FFFF_FFFF
  const I128_MIN: int := -0x8000_0000_0000_0000_0000_0000_0000_0000
  const I128_MAX: int := 0x7FFF_FFFF_FFFF_FFFF_FFFF_FFFF_FFFF_FFFF

  // The narrowest type that holds the number; unsigned first.
  function ParseNumber(n: int): Parsed {
    if I64_MIN <= n <= I64_MAX then
      if 0 <= n <= 0xFFFF_FFFF then Ok(U32(n))
      else if -0x8000_0000 <= n <= 0x7FFF_FFFF then Ok(I32(n))
      else if n < 0 then Ok(I64(n))
      else Ok(U64(n))
    else if 0 <= n <= U64_MAX then Ok(U64(n))
    else Err(NotAnInteger)
  }

  // `u128::from_str`: an optional plus sign and at least one digit.
  function ParseU128(s: string): Option<nat> {
    var digits := if s != [] && s[0] == '+' then s[1..] else s;
    if digits != [] && IsDigits(digits) && Value(digits) <= U128_MAX then Some(Value(digits)) else None
  }

  // `i128::from_str`: an optional sign and at least one digit.
  function ParseI128(s: string): Option<int> {
    var digits := if s != [] && s[0] in ['+', '-'] then s[1..] else s;
    if digits != [] && IsDigits(digits) then
      var magnitude: int := Value(digits);
      var z: int := if s[0] == '-' then -magnitude else magnitude;
      if I128_MIN <= z <= I128_MAX then Some(z) else None
    else None
  }

  function WideUnsigned(u: nat): ScVal
    requires u <= U128_MAX
  {
    U128(u / TWO64, u % TWO64)
  }

  // `i >> 64` and `i & (2^64 - 1)`: the arithmetic shift rounds towards negative infinity.
  function WideSigned(z: int): ScVal
    requires I128_MIN <= z <= I128_MAX
  {
    I128(z / TWO64, z % TWO64)
  }

  // Byte strings: the `0x` prefix and an even number of hex digits.
  function ParseHex(s: string): Option<seq<byte>> {
    if |s| >= 2 && s[..2] == "0x" then Hex.Decode(s[2..]) else None
  }

  function ParseAddress(s: string, sk: Strkeys): Option<ScAddress> {
    if |s| == 56 && s[0] == 'G' && sk.account(s).Some? then Some(Account(sk.account(s).value))
    else if |s| == 56 && s[0] == 'C' && sk.contract(s).Some? then Some(Contract(sk.contract(s).value))
    else None
  }

  function ParseString(s: string, sk: Strkeys): ScVal {
    if s == "LedgerKeyContractInstance" then LedgerKeyContractInstance
    else if ParseHex(s).Some? then Bytes(ParseHex(s).value)
    else if ParseAddress(s, sk).Some? then Address(ParseAddress(s, sk).value)
    else
      var u := ParseU128(s);
      if u.Some? && u.value > U64_MAX then WideUnsigned(u.value)
      else
        var i := ParseI128(s);
        if i.Some? && (i.value < I64_MIN || i.value > I64_MAX) then WideSigned(i.value)
        else Str(s)
  }

  // `{"key": …, "value": …}` and nothing else.
  predicate IsPair(j: Json) {
    j.Object? && |j.members| == 2 && Has(j.members, "key") && Has(j.members, "value")
  }

  predicate IsLossless(items: seq<Json>) {
    items != [] && forall i :: 0 <= i < |items| ==> IsPair(items[i])
  }

  // `obj.get(key).unwrap()`.
  function MemberOf(j: Json, key: string): (v: Json)
    requires j.Object? && Has(j.members, key)
    ensures v < j
  {
    var v := Get(j.members, key).value;
    assert v < j by {
      var i :| 0 <= i < |j.members| && j.members[i] == Member(key, v);
      assert j.members[i].value < j;
    }
    v
  }

  function Parse(j: Json, depth: nat, sk: Strkeys): Parsed
    decreases j, 2
  {
    if depth > MAX_DEPTH then Err(TooDeep)
    else
      match j
      case Null => Ok(Void)
      case Bool(b) => Ok(ScVal.Bool(b))
      case Number(n) => ParseNumber(n)
      case Float(_) => Err(NotAnInteger)
      case String(s) => Ok(ParseString(s, sk))
      case Array(items) =>
        if IsLossless(items) then
          var entries :- ParsePairs(items, depth + 1, sk);
          Ok(Map(entries))
        else
          var vals :- ParseAll(items, depth + 1, sk);
          Ok(Vec(vals))
      case Object(ms) =>
        if Has(ms, "__truncated__") then Err(TruncatedMarker)
        else if ErrorMarker(ms).Some? then Ok(Error(ErrorMarker(ms).value))
        else if NonceMarker(ms).Some? then Ok(LedgerKeyNonce(NonceMarker(ms).value))
        else
          var instance := InstanceMarker(j, depth, sk);
          if instance.Some? then Ok(instance.value)
          else
            var entries :- ParseMembers(ms, depth + 1, sk);
            Ok(Map(entries))
  }

  function ParseAll(items: seq<Json>, depth: nat, sk: Strkeys): Result<seq<ScVal>, Failure>
    decreases items, 0
  {
    if items == [] then Ok([])
    else
      var first :- Parse(items[0], depth, sk);
      var rest :- ParseAll(items[1..], depth, sk);
      Ok([first] + rest)
  }

  function ParsePairs(items: seq<Json>, depth: nat, sk: Strkeys): Result<seq<Entry>, Failure>
    requires forall i :: 0 <= i < |items| ==> IsPair(items[i])
    decreases items, 0
  {
    if items == [] then Ok([])
    else
      assert IsPair(items[0]);
      var key :- Parse(MemberOf(items[0], "key"), depth, sk);
      var val :- Parse(MemberOf(items[0], "value"), depth, sk);
      var rest :- ParsePairs(items[1..], depth, sk);
      Ok([Entry(key, val)] + rest)
  }

  function ParseMembers(ms: seq<Member>, depth: nat, sk: Strkeys): Result<seq<Entry>, Failure>
    decreases ms, 0
  {
    if ms == [] then Ok([])
    else
      var val :- Parse(ms[0].value, depth, sk);
      var rest :- ParseMembers(ms[1..], depth, sk);
      Ok([Entry(ParseString(ms[0].key, sk), val)] + rest)
  }

  function AsText(j: Option<Json>): Option<string> {
    if j.Some? && j.value.String? then Some(j.value.s) else None
  }

  // The error codes the reader knows: seven of the ten that exist.
  function CodeOf(name: string): Option<ErrorCode> {
    match name
    case "UnexpectedType" => Some(UnexpectedType)
    case "UnexpectedSize" => Some(UnexpectedSize)
    case "MissingValue" => Some(MissingValue)
    case "InternalError" => Some(InternalError)
    case "ExceededLimit" => Some(ExceededLimit)
    case "InvalidAction" => Some(InvalidAction)
    case "InvalidInput" => Some(InvalidInput)
    case _ => None
  }

  function KindOf(name: string): Option<ErrorKind> {
    match name
    case "WasmVm" => Some(WasmVm)
    case "Context" => Some(Context)
    case "Storage" => Some(StorageErr)
    case "Object" => Some(ObjectErr)
    case "Crypto" => Some(Crypto)
    case "Events" => Some(Events)
    case "Budget" => Some(Budget)
    case "Value" => Some(ValueErr)
    case "Auth" => Some(Auth)
    case _ => None
  }

  // An error marker: exactly the members `type` and `code`, both understood.
  function ErrorMarker(ms: seq<Member>): Option<ScError> {
    if |ms| == 2 && Has(ms, "type") && Has(ms, "code") then
      var kind := AsText(Get(ms, "type")).GetOr("");
      var code := Get(ms, "code").value;
      if kind == "Contract" then
        if code.Number? && 0 <= code.n <= U64_MAX then
          // The `as u32` cast keeps the low 32 bits.
          Some(ContractError(code.n % 0x1_0000_0000))
        else None
      else if KindOf(kind).Some? && code.String? && CodeOf(code.s).Some? then
        Some(HostError(KindOf(kind).value, CodeOf(code.s).value))
      else None
    else None
  }

  function NonceMarker(ms: seq<Member>): Option<i64> {
    if |ms| == 1 && Has(ms, "nonce") then
      var n := Get(ms, "nonce").value;
      if n.Number? && I64_MIN <= n.n <= I64_MAX then Some(n.n) else None
    else None
  }

  function ParseExecutable(j: Json): Option<Executable> {
    if !j.Object? then None
    else
      var kind := AsText(Get(j.members, "type")).GetOr("");
      if kind == "Wasm" then
        var hash := AsText(Get(j.members, "wasmHash")).GetOr("");
        var digits := if |hash| >= 2 && hash[..2] == "0x" then hash[2..] else hash;
        var bytes := Hex.Decode(digits);
        if bytes.Some? && |bytes.value| == 32 then Some(Wasm(bytes.value)) else None
      else if kind == "StellarAsset" then Some(StellarAsset)
      else None
  }

  // A contract-instance marker; a member that does not fit makes it an ordinary map.
  function InstanceMarker(j: Json, depth: nat, sk: Strkeys): Option<ScVal>
    requires j.Object?
    decreases j, 1
  {
    if !Has(j.members, "executable") || !Has(j.members, "storage") then None
    else
      var exec := ParseExecutable(MemberOf(j, "executable"));
      var storage := MemberOf(j, "storage");
      if exec.None? then None
      else if storage.Null? then Some(ContractInstance(exec.value, NoStorage))
      else
        match Parse(storage, depth + 1, sk)
        case Ok(Map(entries)) => Some(ContractInstance(exec.value, Stored(entries)))
        case _ => None
  }

  /* The reader itself: a recursion that fills `items` and `entries` vectors in loops, stopping at the first error. */

  function Prepend<T>(front: seq<T>, r: Result<seq<T>, Failure>): (p: Result<seq<T>, Failure>)
    ensures front == [] ==> p == r
    ensures r == Ok([]) ==> p == Ok(front)
  {
    match r
    case Ok(back) =>
      assert front == [] ==> front + back == back;
      assert back == [] ==> front + back == front;
      Ok(front + back)
    case Err(e) => Err(e)
  }

  method FromJson(j: Json, depth: nat, sk: Strkeys) returns (r: Parsed)
    ensures r == Parse(j, depth, sk)
    decreases j, 2
  {
    hide IsLossless, ErrorMarker, NonceMarker, Has, ParseString, ParseNumber;
    if depth > MAX_DEPTH {
      return Err(TooDeep);
    }
    match j {
      case Null => r := Ok(Void);
      case Bool(b) => r := Ok(ScVal.Bool(b));
      case Number(n) => r := ParseNumber(n);
      case Float(_) => r := Err(NotAnInteger);
      case String(s) => r := Ok(ParseString(s, sk));
      case Array(items) =>
        if IsLossless(items) {
          var entries := PairsFromJson(items, depth + 1, sk);
          r := if entries.Ok? then Ok(Map(entries.value)) else Err(entries.error);
        } else {
          var vals := ItemsFromJson(items, depth + 1, sk);
          r := if vals.Ok? then Ok(Vec(vals.value)) else Err(vals.error);
        }
      case Object(ms) => r := ObjectFromJson(j, depth, sk);
    }
  }

  method ObjectFromJson(j: Json, depth: nat, sk: Strkeys) returns (r: Parsed)
    requires j.Object? && depth <= MAX_DEPTH
    ensures r == Parse(j, depth, sk)
    decreases j, 1
  {
    hide ErrorMarker, NonceMarker, Has, InstanceMarker;
    var ms := j.members;
    if Has(ms, "__truncated__") {
      return Err(TruncatedMarker);
    }
    var err := ErrorMarker(ms);
    if err.Some? {
      return Ok(Error(err.value));
    }
    var nonce := NonceMarker(ms);
    if nonce.Some? {
      return Ok(LedgerKeyNonce(nonce.value));
    }
    var instance := InstanceFromJson(j, depth, sk);
    if instance.Some? {
      return Ok(instance.value);
    }
    var entries := MembersFromJson(ms, depth + 1, sk);
    r := if entries.Ok? then Ok(Map(entries.value)) else Err(entries.error);
  }

  method InstanceFromJson(j: Json, depth: nat, sk: Strkeys) returns (r: Option<ScVal>)
    requires j.Object?
    ensures r == InstanceMarker(j, depth, sk)
    decreases j, 0
  {
    hide ParseExecutable, Get;
    if !Has(j.members, "executable") || !Has(j.members, "storage") {
      return None;
    }
    var exec := ParseExecutable(MemberOf(j, "executable"));
    if exec.None? {
      return None;
    }
    var storage := MemberOf(j, "storage");
    if storage.Null? {
      return Some(ContractInstance(exec.value, NoStorage));
    }
    var parsed := FromJson(storage, depth + 1, sk);
    match parsed
    case Ok(Map(entries)) => r := Some(ContractInstance(exec.value, Stored(entries)));
    case _ => r := None;
  }

  method ItemsFromJson(items: seq<Json>, depth: nat, sk: Strkeys) returns (r: Result<seq<ScVal>, Failure>)
    ensures r == ParseAll(items, depth, sk)
    decreases items, 0
  {
    hide Parse;
    var out: seq<ScVal> := [];
    assert items[0..] == items;
    for i := 0 to |items|
      invariant ParseAll(items, depth, sk) == Prepend(out, ParseAll(items[i..], depth, sk))
    {
      assert items[i..][1..] == items[i + 1..];
      var item := FromJson(items[i], depth, sk);
      if item.Err? {
        return Err(item.error);
      }
      ghost var rest := ParseAll(items[i + 1..], depth, sk);
      assert rest.Ok? ==> out + ([item.value] + rest.value) == (out + [item.value]) + rest.value;
      out := out + [item.value];
    }
    assert items[|items|..] == [];
    r := Ok(out);
  }

  method PairFromJson(item: Json, depth: nat, sk: Strkeys) returns (r: Result<Entry, Failure>)
    requires IsPair(item)
    ensures var k, v := Parse(MemberOf(item, "key"), depth, sk), Parse(MemberOf(item, "value"), depth, sk);
      r == if k.Err? then Err(k.error) else if v.Err? then Err(v.error) else Ok(Entry(k.value, v.value))
    decreases item, 0
  {
    hide Parse;
    var key := FromJson(MemberOf(item, "key"), depth, sk);
    if key.Err? {
      return Err(key.error);
    }
    var val := FromJson(MemberOf(item, "value"), depth, sk);
    if val.Err? {
      return Err(val.error);
    }
    r := Ok(Entry(key.value, val.value));
  }

  method PairsFromJson(items: seq<Json>, depth: nat, sk: Strkeys) returns (r: Result<seq<Entry>, Failure>)
    requires IsLossless(items)
    ensures r == ParsePairs(items, depth, sk)
    decreases items, 0
  {
    hide Parse, IsPair, MemberOf;
    var out: seq<Entry> := [];
    assert items[0..] == items;
    for i := 0 to |items|
      invariant ParsePairs(items, depth, sk) == Prepend(out, ParsePairs(items[i..], depth, sk))
    {
      assert items[i..][1..] == items[i + 1..];
      assert IsPair(items[i]);
      var entry := PairFromJson(items[i], depth, sk);
      if entry.Err? {
        return Err(entry.error);
      }
      ghost var rest := ParsePairs(items[i + 1..], depth, sk);
      assert rest.Ok? ==> out + ([entry.value] + rest.value) == (out + [entry.value]) + rest.value;
      out := out + [entry.value];
    }
    assert items[|items|..] == [];
    r := Ok(out);
  }

  method MemberFromJson(m: Member, depth: nat, sk: Strkeys) returns (r: Parsed)
    ensures r == Parse(m.value, depth, sk)
    decreases m, 0
  {
    r := FromJson(m.value, depth, sk);
  }

  method MembersFromJson(ms: seq<Member>, depth: nat, sk: Strkeys) returns (r: Result<seq<Entry>, Failure>)
    ensures r == ParseMembers(ms, depth, sk)
    decreases ms, 0
  {
    hide Parse, ParseString;
    var out: seq<Entry> := [];
    assert ms[0..] == ms;
    for i := 0 to |ms|
      invariant ParseMembers(ms, depth, sk) == Prepend(out, ParseMembers(ms[i..], depth, sk))
    {
      assert ms[i..][1..] == ms[i + 1..];
      var key := ParseString(ms[i].key, sk);
      var val := MemberFromJson(ms[i], depth, sk);
      if val.Err? {
        return Err(val.error);
      }
      ghost var rest := ParseMembers(ms[i + 1..], depth, sk);
      assert rest.Ok? ==> out + ([Entry(key, val.value)] + rest.value) == (out + [Entry(key, val.value)]) + rest.value;
      out := out + [Entry(key, val.value)];
    }
    assert ms[|ms|..] == [];
    r := Ok(out);
  }
}
