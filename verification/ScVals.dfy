/**
 Soroban values, as the contract host passes them.
 */
module ScVals {
  import opened Common
  import opened U256
  import opened Hex

  type u32 = n: nat | n < 0x1_0000_0000
  type i32 = z: int | -0x8000_0000 <= z < 0x8000_0000

  // A 32-byte key or hash.
  type bytes32 = b: seq<byte> | |b| == 32 witness seq(32, _ => 0)

  datatype ScVal =
    | Void
    | Bool(b: bool)
    | Error(err: ScError)
    | U32(u: u32)
    | I32(i: i32)
    | U64(ul: u64)
    | I64(il: i64)
    | Timepoint(time: u64)
    | Duration(span: u64)
    | U128(uhi: u64, ulo: u64)
    | I128(ihi: i64, ilo: u64)
    | U256(uparts: U256Parts)
    | I256(iparts: I256Parts)
    | Bytes(bytes: seq<byte>)
    | Str(text: string)
    | Symbol(sym: string)
    | NoVec
    | Vec(items: seq<ScVal>)
    | NoMap
    | Map(entries: seq<Entry>)
    | Address(address: ScAddress)
    | ContractInstance(executable: Executable, storage: Storage)
    | LedgerKeyContractInstance
    | LedgerKeyNonce(nonce: i64)

  datatype Entry = Entry(key: ScVal, val: ScVal)

  datatype Storage = NoStorage | Stored(entries: seq<Entry>)

  datatype Executable = Wasm(hash: bytes32) | StellarAsset

  datatype ScAddress = Account(key: bytes32) | Contract(id: bytes32)

  datatype ScError = ContractError(code: u32) | HostError(kind: ErrorKind, reason: ErrorCode)

  datatype ErrorKind = WasmVm | Context | StorageErr | ObjectErr | Crypto | Events | Budget | ValueErr | Auth

  datatype ErrorCode =
    | ArithDomain | IndexBounds | InvalidInput | MissingValue | ExistingValue
    | ExceededLimit | InvalidAction | InternalError | UnexpectedType | UnexpectedSize

  // The strkey text form of addresses, defined outside this repository: an encoder and,
  // for accounts and contracts, a checked decoder.
  datatype Strkeys = Strkeys(
    encode: ScAddress -> string,
    account: string -> Option<bytes32>,
    contract: string -> Option<bytes32>)

  // What a strkey codec guarantees: decoding undoes encoding, a text that decodes is the one encoding of its key, and
  // texts have 56 characters of which the first tells accounts from contracts.
  ghost predicate Lawful(sk: Strkeys) {
    && (forall s :: sk.account(s).Some? ==> sk.encode(Account(sk.account(s).value)) == s)
    && (forall s :: sk.contract(s).Some? ==> sk.encode(Contract(sk.contract(s).value)) == s)
    && (forall key :: sk.account(sk.encode(Account(key))) == Some(key))
    && (forall id :: sk.contract(sk.encode(Contract(id))) == Some(id))
    && (forall a :: |sk.encode(a)| == 56 && sk.encode(a)[0] == if a.Account? then 'G' else 'C')
  }
}
