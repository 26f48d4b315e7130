/**
 Lower-case hexadecimal text of byte strings.
 */
module Hex {
  import opened Common

  type byte = n: nat | n < 256

  function Nibble(c: char): Option<nat> {
    if '0' <= c <= '9' then Some((c - '0') as nat)
    else if 'a' <= c <= 'f' then Some((c - 'a') as nat + 10)
    else if 'A' <= c <= 'F' then Some((c - 'A') as nat + 10)
    else None
  }

  predicate IsLowerHex(s: string) {
    forall i :: 0 <= i < |s| ==> '0' <= s[i] <= '9' || 'a' <= s[i] <= 'f'
  }

  function HexChar(n: nat): (c: char)
    requires n < 16
    ensures Nibble(c) == Some(n) && ('0' <= c <= '9' || 'a' <= c <= 'f')
  {
    if n < 10 then '0' + n as char else 'a' + (n - 10) as char
  }

  function Encode(bytes: seq<byte>): (s: string)
    ensures |s| == 2 * |bytes|
    ensures IsLowerHex(s)
  {
    if bytes == [] then []
    else [HexChar(bytes[0] / 16), HexChar(bytes[0] % 16)] + Encode(bytes[1..])
  }

  // `hex::decode`: an odd length or a character outside [0-9a-fA-F] is an error.
  function Decode(s: string): Option<seq<byte>> {
    if s == [] then Some([])
    else if |s| == 1 then None
    else
      match (Nibble(s[0]), Nibble(s[1]), Decode(s[2..]))
      case (Some(hi), Some(lo), Some(rest)) => Some([ByteOf(hi, lo)] + rest)
      case _ => None
  }

  function ByteOf(hi: nat, lo: nat): byte {
    (16 * hi + lo) % 256
  }

  lemma ByteParts(hi: nat, lo: nat)
    requires hi < 16 && lo < 16
    ensures ByteOf(hi, lo) == 16 * hi + lo && ByteOf(hi, lo) / 16 == hi && ByteOf(hi, lo) % 16 == lo
  {
  }

  lemma NibbleBack(c: char)
    requires Nibble(c).Some?
    ensures Nibble(c).value < 16
    ensures HexChar(Nibble(c).value) == c <==> IsLowerHex([c])
  {
    assert IsLowerHex([c]) <==> ('0' <= [c][0] <= '9' || 'a' <= [c][0] <= 'f');
  }

  lemma {:induction false} DecodeEncode(bytes: seq<byte>)
    ensures Decode(Encode(bytes)) == Some(bytes)
  {
    if bytes != [] {
      DecodeEncode(bytes[1..]);
      var b := bytes[0];
      ByteParts(b / 16, b % 16);
      var s := Encode(bytes);
      assert s[2..] == Encode(bytes[1..]);
      assert Nibble(s[0]) == Some(b / 16) && Nibble(s[1]) == Some(b % 16);
      assert [b] + bytes[1..] == bytes;
    }
  }

  // Decoding and encoding again gives the text back exactly when it was lower case.
  lemma {:induction false} EncodeDecode(s: string)
    requires Decode(s).Some?
    ensures Encode(Decode(s).value) == s <==> IsLowerHex(s)
  {
    if s != [] {
      EncodeDecode(s[2..]);
      var hi, lo, rest := Nibble(s[0]).value, Nibble(s[1]).value, Decode(s[2..]).value;
      NibbleBack(s[0]);
      NibbleBack(s[1]);
      ByteParts(hi, lo);
      var bytes := [ByteOf(hi, lo)] + rest;
      assert Decode(s).value == bytes && bytes[1..] == rest;
      assert Encode(bytes) == [HexChar(hi), HexChar(lo)] + Encode(rest);
      EqualParts([HexChar(hi), HexChar(lo)], Encode(rest), s);
      LowerHexParts(s);
    }
  }

  lemma EqualParts(a: string, b: string, s: string)
    requires |a| == 2 <= |s|
    ensures a + b == s <==> a[0] == s[0] && a[1] == s[1] && b == s[2..]
  {
    assert b == (a + b)[2..];
    assert s == [s[0], s[1]] + s[2..];
    assert a == [a[0], a[1]];
  }

  lemma LowerHexParts(s: string)
    requires |s| >= 2
    ensures IsLowerHex(s) <==> IsLowerHex([s[0]]) && IsLowerHex([s[1]]) && IsLowerHex(s[2..])
  {
    if IsLowerHex([s[0]]) && IsLowerHex([s[1]]) && IsLowerHex(s[2..]) {
      forall i | 0 <= i < |s| ensures '0' <= s[i] <= '9' || 'a' <= s[i] <= 'f' {
        if i == 0 { assert [s[0]][0] == s[0]; }
        else if i == 1 { assert [s[1]][0] == s[1]; }
        else { assert s[2..][i - 2] == s[i]; }
      }
    }
  }
}
