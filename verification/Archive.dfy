/**
 The record-marking stream of history archives (crates/core/src/archive/mod.rs; section 11 of
 RFC 5531): records split into fragments, each behind a four-byte header that holds its length and,
 in the highest bit, whether it is the last of its record. Decoding a record is a parameter.
 */
module Archive {
  import opened Common
  import opened Hex

  const TWO31: int := 0x8000_0000
  const TWO32: int := 0x1_0000_0000

  datatype Fragment = Fragment(isLast: bool, payload: seq<byte>)

  datatype Error =
    | TruncatedHeader(found: nat)
    | TruncatedPayload(expected: nat, found: nat)
    | Undecodable
    | Unterminated

  // `u32::from_be_bytes`.
  function FromBigEndian(b: seq<byte>): (n: nat)
    requires |b| == 4
    ensures n < TWO32
  {
    var b0: int := b[0];
    var b1: int := b[1];
    var b2: int := b[2];
    var b3: int := b[3];
    ((b0 * 256 + b1) * 256 + b2) * 256 + b3
  }

  // `u32::to_be_bytes`.
  function ToBigEndian(n: nat): (b: seq<byte>)
    requires n < TWO32
    ensures |b| == 4
  {
    [n / 0x100_0000, n / 0x1_0000 % 256, n / 0x100 % 256, n % 256]
  }

  lemma BigEndianRoundTrip(n: nat)
    requires n < TWO32
    ensures FromBigEndian(ToBigEndian(n)) == n
  {
    var q1 := n / 256;
    var q2 := q1 / 256;
    assert n / 0x1_0000 == q2 && n / 0x100_0000 == q2 / 256;
    assert n == q1 * 256 + n % 256 && q1 == q2 * 256 + q1 % 256 && q2 == q2 / 256 * 256 + q2 % 256;
  }

  lemma BigEndianUnique(b: seq<byte>)
    requires |b| == 4
    ensures ToBigEndian(FromBigEndian(b)) == b
  {
    var n: int := FromBigEndian(b);
    var b0: int, b1: int, b2: int := b[0], b[1], b[2];
    assert n % 256 == b[3] && n / 256 == (b0 * 256 + b1) * 256 + b2;
    assert n / 256 % 256 == b2 && n / 256 / 256 == b0 * 256 + b1;
    assert n / 0x1_0000 == n / 256 / 256 && n / 0x100_0000 == n / 256 / 256 / 256;
    assert ToBigEndian(n)[0] == b[0] && ToBigEndian(n)[1] == b[1];
    assert ToBigEndian(n)[2] == b[2] && ToBigEndian(n)[3] == b[3];
  }

  // The highest bit and the other 31 of a header.
  predicate IsLast(header: nat) {
    header / TWO31 % 2 == 1
  }

  function LengthOf(header: nat): nat {
    header % TWO31
  }

  // `frame_record`: only the low 31 bits of the length fit.
  function Frame(f: Fragment): seq<byte> {
    var header := |f.payload| % TWO32 % TWO31 + if f.isLast then TWO31 else 0;
    ToBigEndian(header) + f.payload
  }

  function FrameAll(fs: seq<Fragment>): seq<byte> {
    if fs == [] then [] else Frame(fs[0]) + FrameAll(fs[1..])
  }

  // The fragment at the front of a stream.
  predicate Complete(bytes: seq<byte>) {
    |bytes| >= 4 && LengthOf(FromBigEndian(bytes[..4])) <= |bytes| - 4
  }

  function FrontOf(bytes: seq<byte>): Fragment
    requires Complete(bytes)
  {
    var header := FromBigEndian(bytes[..4]);
    Fragment(IsLast(header), bytes[4..4 + LengthOf(header)])
  }

  // The length in the bytes of a header: the first byte without its highest bit, then the other three.
  function LengthIn(b: seq<byte>): nat
    requires |b| >= 4
  {
    var b0: int, b1: int, b2: int, b3: int := b[0], b[1], b[2], b[3];
    b0 % 128 * 0x100_0000 + b1 * 0x1_0000 + b2 * 0x100 + b3
  }

  lemma HeaderBytes(b: seq<byte>)
    requires |b| == 4
    ensures LengthOf(FromBigEndian(b)) == LengthIn(b)
    ensures IsLast(FromBigEndian(b)) <==> b[0] >= 128
  {
    var b0: int := b[0];
    var low := LengthIn(b);
    assert FromBigEndian(b) == b0 / 128 * TWO31 + low;
  }

  /** The fragment at the front, byte by byte. */
  lemma FrontBytes(bytes: seq<byte>)
    ensures Complete(bytes) <==> |bytes| >= 4 && LengthIn(bytes) <= |bytes| - 4
    ensures Complete(bytes) ==>
      && (FrontOf(bytes).isLast <==> bytes[0] >= 128)
      && FrontOf(bytes).payload == bytes[4..4 + LengthIn(bytes)]
      && AfterFront(bytes) == bytes[4 + LengthIn(bytes)..]
  {
    hide FromBigEndian, LengthOf, IsLast;
    if |bytes| >= 4 {
      HeaderBytes(bytes[..4]);
    }
  }

  function AfterFront(bytes: seq<byte>): seq<byte>
    requires Complete(bytes)
    ensures |AfterFront(bytes)| < |bytes|
  {
    bytes[4 + LengthOf(FromBigEndian(bytes[..4]))..]
  }

  // The always-buffering parser: every payload goes through the buffer.
  function ParseFrom<T>(bytes: seq<byte>, buf: seq<byte>, decode: seq<byte> -> Option<T>): Result<seq<T>, Error>
    decreases |bytes|
  {
    if bytes == [] then if buf == [] then Ok([]) else Err(Unterminated)
    else if |bytes| < 4 then Err(TruncatedHeader(|bytes|))
    else if !Complete(bytes) then Err(TruncatedPayload(LengthOf(FromBigEndian(bytes[..4])), |bytes| - 4))
    else
      var f, rest := FrontOf(bytes), AfterFront(bytes);
      if f.isLast then
        match decode(buf + f.payload)
        case None => Err(Undecodable)
        case Some(e) => Prepend([e], ParseFrom(rest, [], decode))
      else ParseFrom(rest, buf + f.payload, decode)
  }

  function Prepend<T>(front: seq<T>, r: Result<seq<T>, Error>): (p: Result<seq<T>, Error>)
    ensures front == [] ==> p == r
  {
    match r
    case Ok(back) =>
      assert front == [] ==> front + back == back;
      Ok(front + back)
    case Err(e) => Err(e)
  }

  lemma PrependTwice<T>(a: seq<T>, b: seq<T>, r: Result<seq<T>, Error>)
    ensures Prepend(a, Prepend(b, r)) == Prepend(a + b, r)
  {
    if r.Ok? {
      assert a + (b + r.value) == (a + b) + r.value;
    }
  }

  /** The parser as written: single-fragment records are decoded where they lie, others are buffered. */
  method ParseLedgerHeaderStream<T>(bytes: seq<byte>, decode: seq<byte> -> Option<T>)
    returns (r: Result<seq<T>, Error>)
    ensures r == ParseFrom(bytes, [], decode)
  {
    hide FromBigEndian, LengthOf, IsLast;
    var cursor := bytes;
    var entries: seq<T> := [];
    var recordBuf: seq<byte> := [];
    while cursor != []
      invariant ParseFrom(bytes, [], decode) == Prepend(entries, ParseFrom(cursor, recordBuf, decode))
      decreases |cursor|
    {
      if |cursor| < 4 {
        return Err(TruncatedHeader(|cursor|));
      }
      ghost var before, beforeEntries, beforeBuf := cursor, entries, recordBuf;
      var header := FromBigEndian(cursor[..4]);
      cursor := cursor[4..];
      var isLast, length := IsLast(header), LengthOf(header);
      if length > |cursor| {
        return Err(TruncatedPayload(length, |cursor|));
      }
      var fragment := cursor[..length];
      cursor := cursor[length..];
      assert FrontOf(before) == Fragment(isLast, fragment) && AfterFront(before) == cursor;
      if isLast && recordBuf == [] {
        var entry := decode(fragment);
        assert recordBuf + fragment == fragment;
        if entry.None? {
          return Err(Undecodable);
        }
        entries := entries + [entry.value];
        PrependTwice(beforeEntries, [entry.value], ParseFrom(cursor, [], decode));
      } else {
        recordBuf := recordBuf + fragment;
        if isLast {
          var entry := decode(recordBuf);
          if entry.None? {
            return Err(Undecodable);
          }
          entries := entries + [entry.value];
          recordBuf := [];
          PrependTwice(beforeEntries, [entry.value], ParseFrom(cursor, [], decode));
        }
      }
    }
    if recordBuf != [] {
      return Err(Unterminated);
    }
    assert entries + [] == entries;
    r := Ok(entries);
  }

  /* What a stream of fragments means. */

  // A payload short enough for its length to fit the header.
  predicate Fits(f: Fragment) {
    |f.payload| < TWO31
  }

  predicate AllFit(fs: seq<Fragment>) {
    forall i :: 0 <= i < |fs| ==> Fits(fs[i])
  }

  // The records: payloads joined up to each final fragment; `buf` is what an open record has so far.
  function Records(fs: seq<Fragment>, buf: seq<byte>): seq<seq<byte>> {
    if fs == [] then []
    else if fs[0].isLast then [buf + fs[0].payload] + Records(fs[1..], [])
    else Records(fs[1..], buf + fs[0].payload)
  }

  // Payload bytes after the last final fragment.
  function Tail(fs: seq<Fragment>, buf: seq<byte>): seq<byte> {
    if fs == [] then buf
    else if fs[0].isLast then Tail(fs[1..], [])
    else Tail(fs[1..], buf + fs[0].payload)
  }

  // Payloads, one after the other.
  function Joined(parts: seq<seq<byte>>): seq<byte> {
    if parts == [] then [] else Joined(parts[..|parts| - 1]) + parts[|parts| - 1]
  }

  function Payloads(fs: seq<Fragment>): (r: seq<seq<byte>>)
    ensures |r| == |fs| && forall i :: 0 <= i < |fs| ==> r[i] == fs[i].payload
  {
    seq(|fs|, i requires 0 <= i < |fs| => fs[i].payload)
  }

  /** A record ends with each final fragment, and with nothing else: it has the payloads since the one before, and what
      comes behind the last final fragment is the tail. */
  lemma {:induction false} RecordsEnd(fs: seq<Fragment>, f: Fragment, buf: seq<byte>)
    ensures Records([], buf) == [] && Tail([], buf) == buf
    ensures f.isLast ==>
      Records(fs + [f], buf) == Records(fs, buf) + [Tail(fs, buf) + f.payload] && Tail(fs + [f], buf) == []
    ensures !f.isLast ==>
      Records(fs + [f], buf) == Records(fs, buf) && Tail(fs + [f], buf) == Tail(fs, buf) + f.payload
    decreases |fs|
  {
    if fs == [] {
      assert [] + [f] == [f] && [f][1..] == [];
    } else {
      assert (fs + [f])[0] == fs[0] && (fs + [f])[1..] == fs[1..] + [f];
      RecordsEnd(fs[1..], f, if fs[0].isLast then [] else buf + fs[0].payload);
    }
  }

  /** No byte is lost or moved: records and tail together are all payloads, in order. */
  lemma {:induction false} RecordsConserve(fs: seq<Fragment>)
    ensures Joined(Records(fs, [])) + Tail(fs, []) == Joined(Payloads(fs))
    decreases |fs|
  {
    if fs != [] {
      var init, last := fs[..|fs| - 1], fs[|fs| - 1];
      assert fs == init + [last];
      assert Payloads(fs)[..|fs| - 1] == Payloads(init);
      RecordsConserve(init);
      RecordsEnd(init, last, []);
      var records, tail := Records(init, []), Tail(init, []);
      if last.isLast {
        assert (records + [tail + last.payload])[..|records|] == records;
        assert Joined(records) + (tail + last.payload) == Joined(records) + tail + last.payload;
      } else {
        assert Joined(records) + (tail + last.payload) == Joined(records) + tail + last.payload;
      }
    }
  }

  ghost predicate Decodes<T>(records: seq<seq<byte>>, entries: seq<T>, decode: seq<byte> -> Option<T>) {
    |records| == |entries| && forall i :: 0 <= i < |records| ==> decode(records[i]) == Some(entries[i])
  }

  lemma HeaderRoundTrip(f: Fragment, rest: seq<byte>)
    requires Fits(f)
    ensures var bytes := Frame(f) + rest;
      Complete(bytes) && FrontOf(bytes) == f && AfterFront(bytes) == rest && |bytes| == 4 + |f.payload| + |rest|
  {
    hide FromBigEndian, ToBigEndian;
    var n := |f.payload| % TWO32 % TWO31 + if f.isLast then TWO31 else 0;
    BigEndianRoundTrip(n);
    HeaderParts(|f.payload|, f.isLast);
    var bytes := Frame(f) + rest;
    assert bytes[..4] == ToBigEndian(n);
    assert bytes[4..4 + |f.payload|] == f.payload;
    assert bytes[4 + |f.payload|..] == rest;
  }

  lemma HeaderParts(length: nat, isLast: bool)
    requires length < TWO31
    ensures var n := length % TWO32 % TWO31 + if isLast then TWO31 else 0;
      LengthOf(n) == length && (IsLast(n) <==> isLast)
  {
  }

  lemma FrontFramed(bytes: seq<byte>)
    requires Complete(bytes)
    ensures Fits(FrontOf(bytes)) && Frame(FrontOf(bytes)) + AfterFront(bytes) == bytes
  {
    hide FromBigEndian, ToBigEndian;
    var header := FromBigEndian(bytes[..4]);
    BigEndianUnique(bytes[..4]);
    HeaderWhole(header);
    var f := FrontOf(bytes);
    assert |f.payload| == LengthOf(header);
    assert bytes == bytes[..4] + f.payload + AfterFront(bytes);
  }

  lemma HeaderWhole(header: nat)
    requires header < TWO32
    ensures LengthOf(header) < TWO31
    ensures LengthOf(header) % TWO32 % TWO31 + (if IsLast(header) then TWO31 else 0) == header
  {
  }

  // The fragments of a stream that consists of whole fragments.
  function Fragments(bytes: seq<byte>): Option<seq<Fragment>>
    decreases |bytes|
  {
    if bytes == [] then Some([])
    else if !Complete(bytes) then None
    else
      match Fragments(AfterFront(bytes))
      case None => None
      case Some(fs) => Some([FrontOf(bytes)] + fs)
  }

  /** A byte string is a sequence of whole fragments in at most one way. */
  lemma {:induction false} FragmentsExact(bytes: seq<byte>, fs: seq<Fragment>)
    ensures Fragments(bytes) == Some(fs) <==> AllFit(fs) && FrameAll(fs) == bytes
    decreases |bytes|, |fs|
  {
    hide Frame, FrontOf, AfterFront, Complete;
    if bytes == [] {
      if fs != [] { FrameNonempty(fs[0], FrameAll(fs[1..])); }
    } else if fs == [] {
      if Complete(bytes) {
        var r := Fragments(AfterFront(bytes));
        assert r.Some? ==> [FrontOf(bytes)] + r.value != [];
      }
    } else {
      assert fs == [fs[0]] + fs[1..];
      if Complete(bytes) {
        FrontFramed(bytes);
        FragmentsExact(AfterFront(bytes), fs[1..]);
      }
      if AllFit(fs) {
        HeaderRoundTrip(fs[0], FrameAll(fs[1..]));
        FitTail(fs);
      }
      if Complete(bytes) {
        FrontAndRest(bytes, fs);
      }
    }
  }

  lemma FrameNonempty(f: Fragment, rest: seq<byte>)
    ensures Frame(f) + rest != []
  {
  }

  lemma FitTail(fs: seq<Fragment>)
    requires fs != []
    ensures AllFit(fs) <==> Fits(fs[0]) && AllFit(fs[1..])
  {
    if Fits(fs[0]) && AllFit(fs[1..]) {
      assert forall i :: 0 < i < |fs| ==> fs[i] == fs[1..][i - 1];
    }
  }

  lemma FrontAndRest(bytes: seq<byte>, fs: seq<Fragment>)
    requires Complete(bytes) && fs != []
    ensures FrontOf(bytes) == fs[0] && AllFit(fs[1..]) && FrameAll(fs[1..]) == AfterFront(bytes) <==>
      AllFit(fs) && FrameAll(fs) == bytes
  {
    hide Frame, FrontOf, AfterFront, Complete;
    FrontFramed(bytes);
    FitTail(fs);
    if AllFit(fs) {
      HeaderRoundTrip(fs[0], FrameAll(fs[1..]));
    }
  }

  // Parsing framed fragments follows the fragments.
  lemma {:induction false} ParseFramed<T>(bytes: seq<byte>, fs: seq<Fragment>, buf: seq<byte>,
                                          decode: seq<byte> -> Option<T>, entries: seq<T>)
    requires Fragments(bytes) == Some(fs)
    ensures ParseFrom(bytes, buf, decode) == Ok(entries) <==>
      Tail(fs, buf) == [] && Decodes(Records(fs, buf), entries, decode)
    decreases |bytes|
  {
    hide Frame, FrontOf, AfterFront, Complete;
    if bytes != [] {
      WholeHeader(bytes);
      var f, rest := FrontOf(bytes), AfterFront(bytes);
      assert fs[0] == f && fs[1..] == Fragments(rest).value;
      if f.isLast {
        var e := decode(buf + f.payload);
        if entries != [] {
          ParseFramed(rest, fs[1..], [], decode, entries[1..]);
        }
        DecodesCons(buf + f.payload, Records(fs[1..], []), entries, decode);
        PrependOk(e, ParseFrom(rest, [], decode), entries);
      } else {
        ParseFramed(rest, fs[1..], buf + f.payload, decode, entries);
      }
    }
  }

  lemma WholeHeader(bytes: seq<byte>)
    ensures Complete(bytes) ==> |bytes| >= 4
  {
  }

  lemma DecodesCons<T>(record: seq<byte>, records: seq<seq<byte>>, entries: seq<T>, decode: seq<byte> -> Option<T>)
    ensures Decodes([record] + records, entries, decode) <==>
      entries != [] && decode(record) == Some(entries[0]) && Decodes(records, entries[1..], decode)
  {
    if entries != [] && decode(record) == Some(entries[0]) && Decodes(records, entries[1..], decode) {
      forall i | 0 <= i < |entries| ensures decode(([record] + records)[i]) == Some(entries[i]) {
        if i > 0 { assert entries[1..][i - 1] == entries[i]; }
      }
    }
    if Decodes([record] + records, entries, decode) {
      assert ([record] + records)[0] == record;
      forall i | 0 <= i < |records| ensures decode(records[i]) == Some(entries[1..][i]) {
        assert ([record] + records)[i + 1] == records[i];
      }
    }
  }

  lemma PrependOk<T>(e: Option<T>, r: Result<seq<T>, Error>, entries: seq<T>)
    ensures e.Some? ==>
      (Prepend([e.value], r) == Ok(entries) <==> entries != [] && entries[0] == e.value && r == Ok(entries[1..]))
  {
    if e.Some? && entries != [] {
      assert entries == [entries[0]] + entries[1..];
      if r.Ok? { assert ([e.value] + r.value)[1..] == r.value; }
    }
  }

  // Anything but whole fragments is an error.
  lemma {:induction false} BrokenStream<T>(bytes: seq<byte>, buf: seq<byte>, decode: seq<byte> -> Option<T>)
    requires Fragments(bytes).None?
    ensures ParseFrom(bytes, buf, decode).Err?
    decreases |bytes|
  {
    hide FrontOf, AfterFront, Complete;
    WholeHeader(bytes);
    if Complete(bytes) {
      var f, rest := FrontOf(bytes), AfterFront(bytes);
      BrokenStream(rest, if f.isLast then [] else buf + f.payload, decode);
    }
  }

  /** Main result: the parser succeeds exactly when the bytes are whole fragments, no payload is left after
      the last final fragment and every record decodes; it returns the decoded records in order. */
  lemma ParseExact<T>(bytes: seq<byte>, decode: seq<byte> -> Option<T>, entries: seq<T>)
    ensures ParseFrom(bytes, [], decode) == Ok(entries) <==>
      exists fs :: AllFit(fs) && FrameAll(fs) == bytes && Tail(fs, []) == [] &&
        Decodes(Records(fs, []), entries, decode)
  {
    hide ParseFrom, FrameAll, AllFit, Tail, Records, Decodes, Fragments;
    match Fragments(bytes)
    case Some(fs) =>
      FragmentsExact(bytes, fs);
      ParseFramed(bytes, fs, [], decode, entries);
      forall gs | AllFit(gs) && FrameAll(gs) == bytes ensures gs == fs {
        FragmentsExact(bytes, gs);
      }
    case None =>
      BrokenStream(bytes, [], decode);
      forall gs ensures !(AllFit(gs) && FrameAll(gs) == bytes) {
        FragmentsExact(bytes, gs);
      }
  }

  /** Framing undone: however records were cut into fragments, the decoded records come back. */
  lemma UndoesFraming<T>(fs: seq<Fragment>, entries: seq<T>, decode: seq<byte> -> Option<T>)
    requires AllFit(fs) && Tail(fs, []) == [] && Decodes(Records(fs, []), entries, decode)
    ensures ParseFrom(FrameAll(fs), [], decode) == Ok(entries)
  {
    ParseExact(FrameAll(fs), decode, entries);
  }

  const EMPTY: Fragment := Fragment(false, [])

  function Empties(n: nat): (fs: seq<Fragment>)
    ensures |fs| == n && forall i :: 0 <= i < n ==> fs[i] == EMPTY
  {
    seq(n, _ => EMPTY)
  }

  // What the parser does with the fragment at the front.
  function Rest<T>(f: Fragment, bytes: seq<byte>, buf: seq<byte>, decode: seq<byte> -> Option<T>)
    : Result<seq<T>, Error>
  {
    if !f.isLast then ParseFrom(bytes, buf + f.payload, decode)
    else
      match decode(buf + f.payload)
      case Some(entry) => Prepend([entry], ParseFrom(bytes, [], decode))
      case None => Err(Undecodable)
  }

  lemma ParseFront<T>(f: Fragment, bytes: seq<byte>, buf: seq<byte>, decode: seq<byte> -> Option<T>)
    requires Fits(f)
    ensures ParseFrom(Frame(f) + bytes, buf, decode) == Rest(f, bytes, buf, decode)
  {
    hide Frame, FrontOf, AfterFront, Complete;
    HeaderRoundTrip(f, bytes);
    WholeHeader(Frame(f) + bytes);
  }

  /** Empty non-final fragments at the end of complete fragments, however many, change nothing: neither the records
      nor the error. */
  lemma {:induction false} EmptyTailAccepted<T>(fs: seq<Fragment>, n: nat, buf: seq<byte>,
        decode: seq<byte> -> Option<T>)
    requires AllFit(fs)
    ensures ParseFrom(FrameAll(fs + Empties(n)), buf, decode) == ParseFrom(FrameAll(fs), buf, decode)
    decreases |fs|
  {
    hide ParseFrom, Frame, Prepend;
    if fs == [] {
      assert fs + Empties(n) == Empties(n);
      OnlyEmpties(n, buf, decode);
    } else {
      var f := fs[0];
      FitTail(fs);
      assert (fs + Empties(n))[1..] == fs[1..] + Empties(n);
      ParseFront(f, FrameAll(fs[1..]), buf, decode);
      ParseFront(f, FrameAll(fs[1..] + Empties(n)), buf, decode);
      EmptyTailAccepted(fs[1..], n, if f.isLast then [] else buf + f.payload, decode);
    }
  }

  lemma {:induction false} OnlyEmpties<T>(n: nat, buf: seq<byte>, decode: seq<byte> -> Option<T>)
    ensures ParseFrom(FrameAll(Empties(n)), buf, decode) == ParseFrom([], buf, decode)
  {
    hide ParseFrom, Frame;
    if n > 0 {
      assert Empties(n)[1..] == Empties(n - 1) && buf + [] == buf;
      ParseFront(EMPTY, FrameAll(Empties(n - 1)), buf, decode);
      OnlyEmpties(n - 1, buf, decode);
    }
  }

  /* Which error. */

  ghost predicate AllDecode<T>(records: seq<seq<byte>>, decode: seq<byte> -> Option<T>) {
    forall i :: 0 <= i < |records| ==> decode(records[i]).Some?
  }

  // The whole fragments at the front are `fs`, `rest` follows, and this is what is wrong.
  ghost predicate IsWrong<T>(
      fs: seq<Fragment>, rest: seq<byte>, buf: seq<byte>, decode: seq<byte> -> Option<T>, e: Error)
  {
    var records := Records(fs, buf);
    match e
    case Undecodable =>
      // The record that ends with the last of these fragments is the first that does not decode.
      && fs != [] && fs[|fs| - 1].isLast && records != []
      && AllDecode(records[..|records| - 1], decode) && decode(records[|records| - 1]).None?
    case TruncatedHeader(found) =>
      AllDecode(records, decode) && found == |rest| && 0 < found < 4
    case TruncatedPayload(expected, found) =>
      && AllDecode(records, decode) && |rest| >= 4
      && expected == LengthIn(rest) && found == |rest| - 4 && found < expected
    case Unterminated =>
      AllDecode(records, decode) && rest == [] && Tail(fs, buf) != []
  }

  lemma DecodeCons<T>(record: seq<byte>, records: seq<seq<byte>>, decode: seq<byte> -> Option<T>)
    ensures AllDecode([record] + records, decode) <==> decode(record).Some? && AllDecode(records, decode)
  {
    var all := [record] + records;
    if AllDecode(all, decode) {
      assert all[0] == record;
      assert forall i :: 0 <= i < |records| ==> all[i + 1] == records[i];
    }
  }

  lemma WrongCons<T>(f: Fragment, fs: seq<Fragment>, rest: seq<byte>, buf: seq<byte>,
        decode: seq<byte> -> Option<T>, e: Error)
    ensures IsWrong([f] + fs, rest, buf, decode, e) <==>
      if !f.isLast then IsWrong(fs, rest, buf + f.payload, decode, e)
      else if decode(buf + f.payload).Some? then IsWrong(fs, rest, [], decode, e)
      else fs == [] && e == Undecodable
  {
    hide LengthIn, AllDecode;
    var all := [f] + fs;
    var record := buf + f.payload;
    assert all[1..] == fs && (fs != [] ==> all[|all| - 1] == fs[|fs| - 1]);
    LastRecord(fs, []);
    LastRecord(fs, record);
    if f.isLast {
      var records := Records(fs, []);
      assert Records(all, buf) == [record] + records;
      DecodeCons(record, records, decode);
      if records != [] {
        DecodeCons(record, records[..|records| - 1], decode);
        assert ([record] + records)[..|records|] == [record] + records[..|records| - 1];
        assert ([record] + records)[|records|] == records[|records| - 1];
      } else {
        assert ([record] + records)[..0] == records;
        NothingToDecode(decode);
      }
    }
  }

  lemma NothingToDecode<T>(decode: seq<byte> -> Option<T>)
    ensures AllDecode([], decode)
  {
  }

  lemma {:induction false} LastRecord(fs: seq<Fragment>, buf: seq<byte>)
    ensures fs != [] && fs[|fs| - 1].isLast ==> Records(fs, buf) != []
  {
    if |fs| > 1 {
      LastRecord(fs[1..], if fs[0].isLast then [] else buf + fs[0].payload);
    }
  }

  // Without a whole fragment at the front.
  lemma NothingWhole<T>(rest: seq<byte>, buf: seq<byte>, decode: seq<byte> -> Option<T>, e: Error)
    ensures !Complete(rest) ==> (ParseFrom(rest, buf, decode) == Err(e) <==> IsWrong([], rest, buf, decode, e))
    ensures IsWrong([], rest, buf, decode, e) ==> !Complete(rest)
  {
    hide FromBigEndian, LengthOf, LengthIn;
    if |rest| >= 4 {
      HeaderBytes(rest[..4]);
      assert LengthIn(rest[..4]) == LengthIn(rest) by { SameLength(rest); }
    }
  }

  lemma SameLength(bytes: seq<byte>)
    requires |bytes| >= 4
    ensures LengthIn(bytes[..4]) == LengthIn(bytes)
  {
  }

  lemma {:induction false} WrongIsReported<T>(fs: seq<Fragment>, rest: seq<byte>, buf: seq<byte>,
        decode: seq<byte> -> Option<T>, e: Error)
    requires AllFit(fs) && IsWrong(fs, rest, buf, decode, e)
    ensures ParseFrom(FrameAll(fs) + rest, buf, decode) == Err(e)
    decreases |fs|
  {
    if fs == [] {
      assert FrameAll(fs) + rest == rest;
      NothingWhole(rest, buf, decode, e);
    } else {
      hide ParseFrom, Frame, IsWrong, FrameAll;
      var f, more := fs[0], fs[1..];
      assert fs == [f] + more;
      FitTail(fs);
      WrongCons(f, more, rest, buf, decode, e);
      FrameCons(f, more);
      assert FrameAll(fs) + rest == Frame(f) + (FrameAll(more) + rest);
      ParseFront(f, FrameAll(more) + rest, buf, decode);
      if !f.isLast {
        WrongIsReported(more, rest, buf + f.payload, decode, e);
      } else if decode(buf + f.payload).Some? {
        WrongIsReported(more, rest, [], decode, e);
      }
    }
  }

  lemma FrameCons(f: Fragment, fs: seq<Fragment>)
    ensures FrameAll([f] + fs) == Frame(f) + FrameAll(fs) && FrameAll([]) == []
  {
    assert ([f] + fs)[1..] == fs;
  }

  lemma {:induction false} ReportedIsWrong<T>(bytes: seq<byte>, buf: seq<byte>, decode: seq<byte> -> Option<T>,
        e: Error)
    returns (fs: seq<Fragment>, rest: seq<byte>)
    requires ParseFrom(bytes, buf, decode) == Err(e)
    ensures AllFit(fs) && FrameAll(fs) + rest == bytes && IsWrong(fs, rest, buf, decode, e)
    decreases |bytes|
  {
    hide Frame, FrameAll, IsWrong, Complete, ParseFrom, FrontOf, AfterFront;
    if !Complete(bytes) {
      NothingWhole(bytes, buf, decode, e);
      fs, rest := [], bytes;
      FrameCons(Fragment(false, []), []);
      assert [] + rest == rest;
    } else {
      var f, after := FrontOf(bytes), AfterFront(bytes);
      WholeHeader(bytes);
      FrontFramed(bytes);
      ParseFront(f, after, buf, decode);
      var more: seq<Fragment> := [];
      if f.isLast && decode(buf + f.payload).None? {
        rest := after;
        FrameCons(f, []);
      } else if f.isLast {
        more, rest := ReportedIsWrong(after, [], decode, e);
      } else {
        more, rest := ReportedIsWrong(after, buf + f.payload, decode, e);
      }
      fs := [f] + more;
      WrongCons(f, more, rest, buf, decode, e);
      FrameCons(f, more);
      FitTail(fs);
      assert fs[1..] == more;
      assert Frame(f) + (FrameAll(more) + rest) == FrameAll(fs) + rest;
    }
  }

  /** The error says what is wrong with the first part of the stream that is: after whole fragments whose records
      decode, a cut header, a cut payload with both lengths, a record that does not decode, or an open record. */
  lemma ErrorExact<T>(bytes: seq<byte>, decode: seq<byte> -> Option<T>, e: Error)
    ensures ParseFrom(bytes, [], decode) == Err(e) <==>
      exists fs, rest :: AllFit(fs) && FrameAll(fs) + rest == bytes && IsWrong(fs, rest, [], decode, e)
  {
    hide ParseFrom, IsWrong, AllFit, FrameAll;
    if ParseFrom(bytes, [], decode) == Err(e) {
      var fs, rest := ReportedIsWrong(bytes, [], decode, e);
    }
    forall fs, rest | AllFit(fs) && FrameAll(fs) + rest == bytes && IsWrong(fs, rest, [], decode, e)
      ensures ParseFrom(bytes, [], decode) == Err(e)
    {
      WrongIsReported(fs, rest, [], decode, e);
    }
  }
}
