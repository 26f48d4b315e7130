/**
 Printing of 128-bit and 256-bit integers that arrive as 64-bit limbs
 (crates/core/src/decode/scval_to_json.rs).
 */
module U256 {
  import opened Decimal

  const TWO64: int := 0x1_0000_0000_0000_0000
  const TWO63: int := 0x8000_0000_0000_0000
  const TWO256: int := 0x1_0000_0000_0000_0000_0000_0000_0000_0000_0000_0000_0000_0000_0000_0000_0000_0000
  const CHUNK_DIV: int := 1_000_000_000_000_000_000

  type u64 = n: nat | n < 0x1_0000_0000_0000_0000
  type i64 = z: int | -0x8000_0000_0000_0000 <= z < 0x8000_0000_0000_0000

  // Four big-endian limbs.
  type Limbs = s: seq<u64> | |s| == 4 witness [0, 0, 0, 0]

  // Value of a big-endian limb sequence.
  function LimbsValue(limbs: seq<u64>): nat {
    if limbs == [] then 0
    else LimbsValue(limbs[..|limbs| - 1]) * TWO64 + limbs[|limbs| - 1]
  }

  const ZERO: Limbs := [0, 0, 0, 0]

  lemma LimbsUnrolled(l: Limbs)
    ensures LimbsValue(l) == ((l[0] * TWO64 + l[1]) * TWO64 + l[2]) * TWO64 + l[3]
    ensures LimbsValue(l) < TWO256
    ensures LimbsValue(l) == 0 <==> l == ZERO
  {
    assert l[..3][..2] == l[..2] && l[..2][..1] == l[..1] && l[..1][..0] == [];
    assert LimbsValue(l[..1]) == l[0];
    assert LimbsValue(l[..2]) == l[0] * TWO64 + l[1];
    assert LimbsValue(l[..3]) == (l[0] * TWO64 + l[1]) * TWO64 + l[2];
  }

  lemma LimbsBound(l: Limbs)
    ensures LimbsValue(l) < TWO256
    ensures LimbsValue(l) == 0 <==> l == ZERO
  {
    hide LimbsValue;
    LimbsUnrolled(l);
  }

  // The digits contributed by every chunk below the most significant one.
  function LowChunks(chunks: seq<u64>): string {
    if chunks == [] then [] else Padded(chunks[|chunks| - 1], 18) + LowChunks(chunks[..|chunks| - 1])
  }

  /** One long-division pass: divides the limbs by 10^18, leaving quotient and remainder. */
  method DivideByChunk(limbs: Limbs) returns (next: Limbs, rem: nat)
    ensures LimbsValue(limbs) == LimbsValue(next) * CHUNK_DIV + rem
    ensures rem < CHUNK_DIV
  {
    next, rem := ZERO, 0;
    for i := 0 to 4
      invariant LimbsValue(limbs[..i]) == LimbsValue(next[..i]) * CHUNK_DIV + rem
      invariant rem < CHUNK_DIV
    {
      var cur := rem * TWO64 + limbs[i];
      // The `as u64` casts of the quotient digit and of the remainder lose nothing.
      assert cur / CHUNK_DIV < TWO64 && cur % CHUNK_DIV < TWO64;
      ghost var before := next;
      next := next[i := (cur / CHUNK_DIV) % TWO64];
      rem := cur % CHUNK_DIV;
      assert next[..i] == before[..i];
      assert next[..i + 1][..i] == next[..i] && limbs[..i + 1][..i] == limbs[..i];
    }
    assert limbs[..4] == limbs && next[..4] == next;
  }

  // Chunks of a number still to be divided: what is left of it, then the digits split off so far.
  predicate ChunksOf(n: nat, rest: nat, chunks: seq<u64>) {
    if rest > 0 then Text(n) == Text(rest) + LowChunks(chunks)
    else chunks != [] && Text(n) == Text(chunks[|chunks| - 1]) + LowChunks(chunks[..|chunks| - 1])
  }

  /** Repeated division until nothing is left: base-10^18 digits, least significant first. */
  method SplitChunks(input: Limbs) returns (chunks: seq<u64>)
    requires input != ZERO
    ensures ChunksOf(LimbsValue(input), 0, chunks)
  {
    hide Text, Padded, LimbsValue, ChunksOf, LowChunks;
    LimbsBound(input);
    var limbs := input;
    chunks := [];
    ChunksStart(LimbsValue(input));
    while limbs != ZERO
      invariant ChunksOf(LimbsValue(input), LimbsValue(limbs), chunks)
      decreases LimbsValue(limbs)
    {
      LimbsBound(limbs);
      var next, rem := DivideByChunk(limbs);
      ChunkOff(LimbsValue(limbs), LimbsValue(next), rem);
      ChunksGrow(LimbsValue(input), LimbsValue(limbs), LimbsValue(next), rem, chunks);
      chunks := chunks + [rem % TWO64];
      limbs := next;
    }
    LimbsBound(limbs);
  }

  lemma ChunksStart(n: nat)
    requires n > 0
    ensures ChunksOf(n, n, [])
  {
    hide Text;
    assert Text(n) + [] == Text(n);
  }

  lemma ChunksGrow(n: nat, rest: nat, q: nat, rem: u64, chunks: seq<u64>)
    requires rest > 0 && ChunksOf(n, rest, chunks)
    requires q == 0 ==> rest == rem
    requires q > 0 ==> Text(rest) == Text(q) + Padded(rem, 18)
    ensures ChunksOf(n, q, chunks + [rem])
  {
    hide Text, Padded;
    var grown := chunks + [rem];
    assert grown[..|grown| - 1] == chunks;
    if q > 0 {
      assert LowChunks(grown) == Padded(rem, 18) + LowChunks(chunks);
      assert (Text(q) + Padded(rem, 18)) + LowChunks(chunks) == Text(q) + (Padded(rem, 18) + LowChunks(chunks));
    }
  }

  /** The decimal text is that of the 256-bit value: all digits, no leading zero. */
  method LimbsToDecimal(input: Limbs) returns (out: string)
    ensures out == Text(LimbsValue(input))
  {
    hide Text, Padded;
    LimbsBound(input);
    if input == ZERO {
      TextOfZero();
      return "0";
    }
    hide LimbsValue;
    var chunks := SplitChunks(input);
    out := Text(chunks[|chunks| - 1]);
    ghost var goal := out + LowChunks(chunks[..|chunks| - 1]);
    var i := |chunks| - 1;
    while i > 0
      invariant 0 <= i < |chunks|
      invariant goal == out + LowChunks(chunks[..i])
    {
      i := i - 1;
      assert chunks[..i + 1][..i] == chunks[..i];
      ghost var before := out;
      out := out + Padded(chunks[i], 18);
      assert before + (Padded(chunks[i], 18) + LowChunks(chunks[..i])) == out + LowChunks(chunks[..i]);
    }
  }

  lemma TextOfZero()
    ensures Text(0) == "0"
  {
  }

  lemma ChunkOff(n: nat, q: nat, r: nat)
    requires n > 0 && n == q * CHUNK_DIV + r && r < CHUNK_DIV
    ensures q < n
    ensures q == 0 ==> n == r
    ensures q > 0 ==> Text(n) == Text(q) + Padded(r, 18)
  {
    assert Pow10(18) == CHUNK_DIV by {
      assert Pow10(6) == 1_000_000;
      assert Pow10(12) == 1_000_000_000_000;
    }
    DivModUnique(n, CHUNK_DIV, q, r);
    if q > 0 {
      TextSplit(n, 18);
      LowDigitsModulo(n, 18);
      PaddedIsLowDigits(r, 18);
    }
  }

  function TwoPow64(k: nat): (p: nat)
    ensures p > 0
  {
    if k == 0 then 1 else TWO64 * TwoPow64(k - 1)
  }

  // The same value read from the most significant end.
  function SuffixValue(limbs: seq<u64>): nat {
    if limbs == [] then 0
    else limbs[0] * TwoPow64(|limbs| - 1) + SuffixValue(limbs[1..])
  }

  lemma SuffixIsLimbs(l: Limbs)
    ensures SuffixValue(l) == LimbsValue(l)
    ensures TwoPow64(4) == TWO256
  {
    LimbsUnrolled(l);
    assert TwoPow64(0) == 1 && TwoPow64(1) == TWO64;
    assert TwoPow64(2) == TWO64 * TWO64;
    assert TwoPow64(3) == TWO64 * TWO64 * TWO64;
    assert SuffixValue(l[4..]) == 0;
    assert l[3..][1..] == l[4..] && SuffixValue(l[3..]) == l[3];
    assert l[2..][1..] == l[3..] && SuffixValue(l[2..]) == l[2] * TWO64 + l[3];
    assert l[1..][1..] == l[2..];
    assert SuffixValue(l[1..]) == l[1] * TwoPow64(2) + SuffixValue(l[2..]);
    assert SuffixValue(l) == l[0] * TwoPow64(3) + SuffixValue(l[1..]);
  }

  // The limbs from i on have been negated, with the given carry into the next one.
  predicate NegatedFrom(limbs: Limbs, out: Limbs, carry: nat, i: nat)
    requires i <= 4
  {
    SuffixValue(out[i..]) + carry * TwoPow64(4 - i) == TwoPow64(4 - i) - SuffixValue(limbs[i..])
  }

  /** Complement-and-add-one with a carry: two's-complement negation modulo 2^256. */
  method Negate(limbs: Limbs) returns (out: Limbs)
    ensures LimbsValue(out) == (TWO256 - LimbsValue(limbs)) % TWO256
  {
    out := ZERO;
    var carry := 1;
    var i := 4;
    while i > 0
      invariant 0 <= i <= 4
      invariant 0 <= carry <= 1
      invariant NegatedFrom(limbs, out, carry, i)
    {
      i := i - 1;
      var sum := (TWO64 - 1 - limbs[i]) + carry;
      NegateStep(limbs, out, carry, i);
      out := out[i := sum % TWO64];
      carry := sum / TWO64;
    }
    NegateEnd(limbs, out, carry);
  }

  lemma NegateStep(limbs: Limbs, out: Limbs, carry: nat, i: nat)
    requires i < 4 && NegatedFrom(limbs, out, carry, i + 1)
    ensures var sum := (TWO64 - 1 - limbs[i]) + carry;
      NegatedFrom(limbs, out[i := sum % TWO64], sum / TWO64, i)
  {
    var sum := (TWO64 - 1 - limbs[i]) + carry;
    var out' := out[i := sum % TWO64];
    assert out'[i + 1..] == out[i + 1..];
    assert out'[i..][1..] == out[i + 1..] && limbs[i..][1..] == limbs[i + 1..];
    var p := TwoPow64(3 - i);
    assert TwoPow64(4 - i) == TWO64 * p;
    NegateDigit(limbs[i], carry, sum / TWO64, sum % TWO64, p);
  }

  lemma NegateDigit(limb: u64, carryIn: nat, carryOut: nat, digit: nat, p: nat)
    requires carryOut * TWO64 + digit == TWO64 - 1 - limb + carryIn
    ensures digit * p + carryOut * (TWO64 * p) == TWO64 * p - p - limb * p + carryIn * p
  {
    assert (carryOut * TWO64 + digit) * p == (TWO64 - 1 - limb + carryIn) * p;
  }

  lemma NegateEnd(limbs: Limbs, out: Limbs, carry: nat)
    requires carry <= 1 && NegatedFrom(limbs, out, carry, 0)
    ensures LimbsValue(out) == (TWO256 - LimbsValue(limbs)) % TWO256
  {
    hide LimbsValue, SuffixValue, TwoPow64;
    assert out[0..] == out && limbs[0..] == limbs;
    SuffixIsLimbs(out);
    SuffixIsLimbs(limbs);
    LimbsBound(out);
    LimbsBound(limbs);
    if carry == 0 {
      assert 0 * TwoPow64(4) == 0;
    } else {
      assert 1 * TwoPow64(4) == TWO256;
    }
  }

  // Stellar's Int256Parts and UInt256Parts.
  datatype I256Parts = I256Parts(hiHi: i64, hiLo: u64, loHi: u64, loLo: u64)
  datatype U256Parts = U256Parts(hiHi: u64, hiLo: u64, loHi: u64, loLo: u64)

  // `as u64` of a signed word.
  function Reinterpret(z: i64): u64 {
    if z < 0 then z + TWO64 else z
  }

  function U256Value(p: U256Parts): nat {
    LimbsValue([p.hiHi, p.hiLo, p.loHi, p.loLo])
  }

  function I256Value(p: I256Parts): int {
    ((p.hiHi * TWO64 + p.hiLo) * TWO64 + p.loHi) * TWO64 + p.loLo
  }

  method U256ToDecimal(p: U256Parts) returns (out: string)
    ensures out == Text(U256Value(p))
  {
    out := LimbsToDecimal([p.hiHi, p.hiLo, p.loHi, p.loLo]);
  }

  /** Sign and magnitude of a two's-complement number, the minimum included. */
  method I256ToDecimal(p: I256Parts) returns (out: string)
    ensures out == IntText(I256Value(p))
  {
    hide Text, Value, LimbsValue, I256Value;
    var negative := p.hiHi < 0;
    var limbs: Limbs := [Reinterpret(p.hiHi), p.hiLo, p.loHi, p.loLo];
    var magnitudeLimbs := limbs;
    if negative {
      magnitudeLimbs := Negate(limbs);
    }
    MagnitudeOf(p);
    var magnitude := LimbsToDecimal(magnitudeLimbs);
    TextIsCanonical(LimbsValue(magnitudeLimbs));
    if negative && magnitude != "0" {
      out := "-" + magnitude;
    } else {
      out := magnitude;
    }
  }

  lemma MagnitudeOf(p: I256Parts)
    ensures var limbs := [Reinterpret(p.hiHi), p.hiLo, p.loHi, p.loLo];
      if p.hiHi < 0 then I256Value(p) < 0 && (TWO256 - LimbsValue(limbs)) % TWO256 == -I256Value(p)
      else LimbsValue(limbs) == I256Value(p)
  {
    var limbs := [Reinterpret(p.hiHi), p.hiLo, p.loHi, p.loLo];
    LimbsUnrolled(limbs);
  }

  // `(hi << 64) | lo` on 128-bit words: the two halves occupy disjoint bits.
  function U128Value(hi: u64, lo: u64): (n: nat)
    ensures n < TWO64 * TWO64
  {
    hi * TWO64 + lo
  }

  function I128Value(hi: i64, lo: u64): (z: int)
    ensures -TWO63 * TWO64 <= z < TWO63 * TWO64
  {
    hi * TWO64 + lo
  }
}
