/**
 Rendering a Soroban value as JSON (crates/core/src/decode/scval_to_json.rs).
 */
module ScValToJson {
  import opened Common
  import opened Decimal
  import opened U256
  import opened Hex
  import opened Json
  import opened ScVals

  const MAX_DEPTH: nat := 100

  const TRUNCATED: Json :=
    Json.Object([Member("__truncated__", Json.Bool(true)),
                 Member("reason", Json.String("max recursion depth (100) exceeded"))])

  // One map entry after conversion: its key as text, its key, its value.
  datatype Converted = Converted(text: string, key: Json, value: Json)

  function KeyText(key: Json): string {
    match key
    case String(s) => s
    case _ => JsonText(key)
  }

  predicate IsContainer(v: ScVal) {
    v.Vec? || v.Map? || v.ContractInstance?
  }

  // Values without parts of their own kind.
  function LeafJson(v: ScVal, sk: Strkeys): Json
    requires !IsContainer(v)
  {
    match v
    case Bool(b) => Json.Bool(b)
    case Void => Json.Null
    case NoVec => Json.Null
    case NoMap => Json.Null
    case Error(err) => ErrorJson(err)
    case U32(u) => Json.Number(u)
    case I32(i) => Json.Number(i)
    case U64(u) => Json.Number(u)
    case I64(i) => Json.Number(i)
    case Timepoint(t) => Json.Number(t)
    case Duration(t) => Json.Number(t)
    case U128(hi, lo) => Json.String(Text(U128Value(hi, lo)))
    case I128(hi, lo) => Json.String(IntText(I128Value(hi, lo)))
    case U256(p) => Json.String(Text(U256Value(p)))
    case I256(p) => Json.String(IntText(I256Value(p)))
    case Bytes(bytes) => Json.String(HexText(bytes))
    case Str(s) => Json.String(s)
    case Symbol(s) => Json.String(s)
    case Address(a) => Json.String(sk.encode(a))
    case LedgerKeyContractInstance => Json.String("LedgerKeyContractInstance")
    case LedgerKeyNonce(nonce) => Json.Object([Member("nonce", Json.Number(nonce))])
  }

  function Convert(v: ScVal, depth: nat, sk: Strkeys): Json
    decreases v, 1
  {
    if depth > MAX_DEPTH then TRUNCATED
    else
      match v
      case Vec(items) => Json.Array(ConvertAll(items, depth + 1, sk))
      case Map(entries) => MapJson(ConvertEntries(entries, depth + 1, sk))
      case ContractInstance(exec, storage) => InstanceJson(exec, StorageJson(storage, depth + 1, sk))
      case _ => LeafJson(v, sk)
  }

  function ConvertAll(items: seq<ScVal>, depth: nat, sk: Strkeys): (r: seq<Json>)
    ensures |r| == |items|
    ensures forall i :: 0 <= i < |items| ==> r[i] == Convert(items[i], depth, sk)
    decreases items, 0
  {
    if items == [] then []
    else [Convert(items[0], depth, sk)] + ConvertAll(items[1..], depth, sk)
  }

  function ConvertEntry(e: Entry, depth: nat, sk: Strkeys): (c: Converted)
    ensures c.text == KeyText(c.key)
    decreases e, 0
  {
    var key := Convert(e.key, depth, sk);
    Converted(KeyText(key), key, Convert(e.val, depth, sk))
  }

  function ConvertEntries(entries: seq<Entry>, depth: nat, sk: Strkeys): (r: seq<Converted>)
    ensures |r| == |entries|
    ensures forall i :: 0 <= i < |entries| ==> r[i] == ConvertEntry(entries[i], depth, sk)
    decreases entries, 0
  {
    if entries == [] then []
    else [ConvertEntry(entries[0], depth, sk)] + ConvertEntries(entries[1..], depth, sk)
  }

  function StorageJson(s: Storage, depth: nat, sk: Strkeys): Json
    decreases s, 0
  {
    match s
    case NoStorage => Json.Null
    case Stored(entries) => MapJson(ConvertEntries(entries, depth, sk))
  }

  // Two keys with the same text.
  predicate Collides(converted: seq<Converted>) {
    exists i, j :: 0 <= i < j < |converted| && converted[i].text == converted[j].text
  }

  function LosslessItem(c: Converted): Json {
    Json.Object([Member("key", c.key), Member("value", c.value)])
  }

  function LosslessItems(converted: seq<Converted>): (r: seq<Json>)
    ensures |r| == |converted|
    ensures forall i :: 0 <= i < |converted| ==> r[i] == LosslessItem(converted[i])
  {
    seq(|converted|, i requires 0 <= i < |converted| => LosslessItem(converted[i]))
  }

  // All entries inserted into an empty object, in order.
  function ObjectOf(converted: seq<Converted>): seq<Member> {
    if converted == [] then []
    else
      var last := converted[|converted| - 1];
      Insert(ObjectOf(converted[..|converted| - 1]), last.text, last.value)
  }

  // A plain object, or a list of key/value pairs when two keys would fall together.
  function MapJson(converted: seq<Converted>): Json {
    if Collides(converted) then Json.Array(LosslessItems(converted)) else Json.Object(ObjectOf(converted))
  }

  function HexText(bytes: seq<byte>): string {
    "0x" + Hex.Encode(bytes)
  }

  function ExecutableJson(exec: Executable): Json {
    match exec
    case Wasm(hash) =>
      Json.Object([Member("type", Json.String("Wasm")), Member("wasmHash", Json.String(HexText(hash)))])
    case StellarAsset => Json.Object([Member("type", Json.String("StellarAsset"))])
  }

  function InstanceJson(exec: Executable, storage: Json): Json {
    Json.Object([Member("executable", ExecutableJson(exec)), Member("storage", storage)])
  }

  function KindName(kind: ErrorKind): string {
    match kind
    case WasmVm => "WasmVm"
    case Context => "Context"
    case StorageErr => "Storage"
    case ObjectErr => "Object"
    case Crypto => "Crypto"
    case Events => "Events"
    case Budget => "Budget"
    case ValueErr => "Value"
    case Auth => "Auth"
  }

  function CodeName(code: ErrorCode): string {
    match code
    case ArithDomain => "ArithDomain"
    case IndexBounds => "IndexBounds"
    case InvalidInput => "InvalidInput"
    case MissingValue => "MissingValue"
    case ExistingValue => "ExistingValue"
    case ExceededLimit => "ExceededLimit"
    case InvalidAction => "InvalidAction"
    case InternalError => "InternalError"
    case UnexpectedType => "UnexpectedType"
    case UnexpectedSize => "UnexpectedSize"
  }

  function ErrorJson(err: ScError): Json {
    match err
    case ContractError(code) =>
      Json.Object([Member("code", Json.Number(code)), Member("type", Json.String("Contract"))])
    case HostError(kind, code) =>
      Json.Object([Member("code", Json.String(CodeName(code))), Member("type", Json.String(KindName(kind)))])
  }

  /* The converter itself: a recursion whose map case fills a vector and a set in loops. */

  method ToJson(v: ScVal, depth: nat, sk: Strkeys) returns (j: Json)
    ensures j == Convert(v, depth, sk)
    decreases v, 1
  {
    hide MapJson, Text, IntText, ErrorJson, ExecutableJson, U256Value, I256Value;
    if depth > MAX_DEPTH {
      return TRUNCATED;
    }
    match v {
      case U256(p) =>
        var s := U256ToDecimal(p);
        j := Json.String(s);
      case I256(p) =>
        var s := I256ToDecimal(p);
        j := Json.String(s);
      case Vec(items) =>
        var out := ItemsToJson(items, depth + 1, sk);
        j := Json.Array(out);
      case Map(entries) =>
        j := MapToJson(entries, depth + 1, sk);
      case ContractInstance(exec, storage) =>
        var stored := Json.Null;
        if storage.Stored? {
          stored := MapToJson(storage.entries, depth + 1, sk);
        }
        j := InstanceJson(exec, stored);
      case _ =>
        j := LeafJson(v, sk);
    }
  }

  method ItemsToJson(items: seq<ScVal>, depth: nat, sk: Strkeys) returns (out: seq<Json>)
    ensures out == ConvertAll(items, depth, sk)
    decreases items, 0
  {
    hide *;
    out := [];
    for i := 0 to |items|
      invariant out == ConvertAll(items, depth, sk)[..i]
    {
      var item := ToJson(items[i], depth, sk);
      out := out + [item];
    }
    assert out == ConvertAll(items, depth, sk);
  }

  method EntryToJson(e: Entry, depth: nat, sk: Strkeys) returns (c: Converted)
    ensures c == ConvertEntry(e, depth, sk)
    decreases e, 0
  {
    var key := ToJson(e.key, depth, sk);
    var value := ToJson(e.val, depth, sk);
    c := Converted(KeyText(key), key, value);
  }

  method MapToJson(entries: seq<Entry>, depth: nat, sk: Strkeys) returns (j: Json)
    ensures j == MapJson(ConvertEntries(entries, depth, sk))
    decreases entries, 0
  {
    hide *;
    var converted: seq<Converted> := [];
    for i := 0 to |entries|
      invariant converted == ConvertEntries(entries, depth, sk)[..i]
    {
      var c := EntryToJson(entries[i], depth, sk);
      converted := converted + [c];
    }
    assert converted == ConvertEntries(entries, depth, sk);
    j := AssembleMap(converted);
  }

  /** Chooses between the object and the lossless list, and builds it. */
  method AssembleMap(converted: seq<Converted>) returns (j: Json)
    ensures j == MapJson(converted)
  {
    hide Collides, Insert;
    var hasCollision := HasCollision(converted);
    if hasCollision {
      var items := [];
      for i := 0 to |converted|
        invariant items == LosslessItems(converted)[..i]
      {
        items := items + [LosslessItem(converted[i])];
      }
      j := Json.Array(items);
    } else {
      var obj: seq<Member> := [];
      for i := 0 to |converted|
        invariant obj == ObjectOf(converted[..i])
      {
        assert converted[..i + 1][..i] == converted[..i];
        obj := Insert(obj, converted[i].text, converted[i].value);
      }
      assert converted[..|converted|] == converted;
      j := Json.Object(obj);
    }
  }

  /** The running set of key texts finds a repeated one exactly when there is one. */
  method HasCollision(converted: seq<Converted>) returns (found: bool)
    ensures found <==> Collides(converted)
  {
    var seen: set<string> := {};
    for i := 0 to |converted|
      invariant forall t :: t in seen <==> exists k :: 0 <= k < i && converted[k].text == t
      invariant forall a, b :: 0 <= a < b < i ==> converted[a].text != converted[b].text
    {
      if converted[i].text in seen {
        return true;
      }
      seen := seen + {converted[i].text};
    }
    found := false;
  }
}
