/**
 JSON values as `serde_json` holds them: objects are ordered by key.
 */
module Json {
  import opened Common
  import opened Decimal

  datatype Json =
    | Null
    | Bool(b: bool)
    | Number(n: int)
    | Float(text: string)  // a number that is not an integer
    | String(s: string)
    | Array(items: seq<Json>)
    | Object(members: seq<Member>)

  datatype Member = Member(key: string, value: Json)

  // Keys strictly increasing, as in a `BTreeMap`.
  predicate Sorted(ms: seq<Member>) {
    forall i, j :: 0 <= i < j < |ms| ==> StringLess(ms[i].key, ms[j].key)
  }

  // Every object, at every level, is ordered by key.
  predicate WellFormed(j: Json)
    decreases j
  {
    match j
    case Array(items) => forall i :: 0 <= i < |items| ==> WellFormed(items[i])
    case Object(ms) => Sorted(ms) && forall i :: 0 <= i < |ms| ==> WellFormed(ms[i].value)
    case _ => true
  }

  function Get(ms: seq<Member>, key: string): (r: Option<Json>)
    ensures r.Some? ==> exists i :: 0 <= i < |ms| && ms[i] == Member(key, r.value)
    ensures r.None? ==> forall i :: 0 <= i < |ms| ==> ms[i].key != key
  {
    if ms == [] then None
    else if ms[0].key == key then Some(ms[0].value)
    else
      var r := Get(ms[1..], key);
      assert r.Some? ==>
        exists i :: 0 <= i < |ms[1..]| && ms[1..][i] == Member(key, r.value) && ms[i + 1] == ms[1..][i];
      r
  }

  predicate Has(ms: seq<Member>, key: string) {
    Get(ms, key).Some?
  }

  // `BTreeMap::insert`: keeps the order, replaces the value of a key already present.
  function Insert(ms: seq<Member>, key: string, value: Json): seq<Member> {
    if ms == [] then [Member(key, value)]
    else if ms[0].key == key then [Member(key, value)] + ms[1..]
    else if StringLess(key, ms[0].key) then [Member(key, value)] + ms
    else [ms[0]] + Insert(ms[1..], key, value)
  }

  lemma {:induction false} InsertKeys(ms: seq<Member>, key: string, value: Json)
    ensures forall m :: m in Insert(ms, key, value) ==> m in ms || m == Member(key, value)
  {
    if ms != [] {
      InsertKeys(ms[1..], key, value);
    }
  }

  lemma {:induction false} InsertSorted(ms: seq<Member>, key: string, value: Json)
    requires Sorted(ms)
    ensures Sorted(Insert(ms, key, value))
  {
    if ms != [] && ms[0].key != key {
      if StringLess(key, ms[0].key) {
        forall j | 0 <= j < |ms| ensures StringLess(key, ms[j].key) {
          if j > 0 { StringLessTransitive(key, ms[0].key, ms[j].key); }
        }
      } else {
        StringLessTotal(key, ms[0].key);
        InsertSorted(ms[1..], key, value);
        InsertKeys(ms[1..], key, value);
        var rest := Insert(ms[1..], key, value);
        forall j | 0 <= j < |rest| ensures StringLess(ms[0].key, rest[j].key) {
          assert rest[j] in rest;
          assert rest[j] in ms[1..] || rest[j].key == key;
        }
      }
    }
  }

  // A key above every key present goes to the end.
  lemma {:induction false} InsertLast(ms: seq<Member>, key: string, value: Json)
    requires forall i :: 0 <= i < |ms| ==> StringLess(ms[i].key, key)
    ensures Insert(ms, key, value) == ms + [Member(key, value)]
  {
    if ms != [] {
      StringLessAsymmetric(ms[0].key, key);
      InsertLast(ms[1..], key, value);
    }
  }

  /* Compact JSON text, `Value::to_string`. */

  function HexDigit(n: nat): char
    requires n < 16
  {
    "0123456789abcdef"[n]
  }

  function EscapeChar(c: char): string {
    if c == '\"' then "\\\""
    else if c == '\\' then "\\\\"
    else if c as int == 8 then "\\b"
    else if c as int == 9 then "\\t"
    else if c as int == 10 then "\\n"
    else if c as int == 12 then "\\f"
    else if c as int == 13 then "\\r"
    else if c as int < 32 then "\\u00" + [HexDigit(c as int / 16), HexDigit(c as int % 16)]
    else [c]
  }

  function Escape(s: string): string {
    if s == [] then [] else EscapeChar(s[0]) + Escape(s[1..])
  }

  function Quote(s: string): string {
    "\"" + Escape(s) + "\""
  }

  function JsonText(j: Json): string
    decreases j
  {
    match j
    case Null => "null"
    case Bool(b) => if b then "true" else "false"
    case Number(n) => IntText(n)
    case Float(text) => text
    case String(s) => Quote(s)
    case Array(items) => "[" + ItemsText(items) + "]"
    case Object(ms) => "{" + MembersText(ms) + "}"
  }

  function ItemsText(items: seq<Json>): string
    decreases items
  {
    if items == [] then []
    else if |items| == 1 then JsonText(items[0])
    else JsonText(items[0]) + "," + ItemsText(items[1..])
  }

  function MembersText(ms: seq<Member>): string
    decreases ms
  {
    if ms == [] then []
    else
      var first := Quote(ms[0].key) + ":" + JsonText(ms[0].value);
      if |ms| == 1 then first else first + "," + MembersText(ms[1..])
  }
}
