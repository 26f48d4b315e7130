/**
 The dedup fingerprint (apps/server/src/dedup/dedup.ts): a hash of the lower-cased fields joined by colons.
 The hash is a parameter that tells any two texts apart; so is the lower-casing, of which little is needed.
 */
module Fingerprints {
  import opened Common

  type Texts = string -> string

  function Canonical(txHash: string, network: string, kind: string, lower: Texts): string {
    lower(txHash) + ":" + lower(network) + ":" + lower(kind)
  }

  function Fingerprint(txHash: string, network: string, kind: string, lower: Texts, sha: Texts): string {
    sha(Canonical(txHash, network, kind, lower))
  }

  ghost predicate Injective(sha: Texts) {
    forall a, b :: sha(a) == sha(b) ==> a == b
  }

  // A character that lower-casing leaves alone.
  predicate Stays(c: char, lower: Texts) {
    lower([c]) == [c]
  }

  predicate AllStay(s: string, lower: Texts) {
    forall i :: 0 <= i < |s| ==> Stays(s[i], lower)
  }

  // Lower-casing neither makes nor removes colons, and leaves lower-case text alone.
  ghost predicate LowerCases(lower: Texts) {
    && Stays(':', lower)
    && (forall s :: NoColon(lower(s)) <==> NoColon(s))
    && (forall s :: AllStay(lower(s), lower))
    && (forall s :: AllStay(s, lower) ==> lower(s) == s)
  }

  predicate NoColon(s: string) {
    ':' !in s
  }

  // The requests' fields agree up to case.
  predicate SameFields(t1: string, n1: string, k1: string, t2: string, n2: string, k2: string, lower: Texts) {
    lower(t1) == lower(t2) && lower(n1) == lower(n2) && lower(k1) == lower(k2)
  }

  // ASCII lower-casing is an instance.
  lemma AsciiLowerCases()
    ensures LowerCases(Lower)
  {
    forall s: string ensures NoColon(Lower(s)) <==> NoColon(s) {
      forall i | 0 <= i < |s| ensures Lower(s)[i] == ':' <==> s[i] == ':' {
        assert Lower(s)[i] == LowerChar(s[i]);
      }
      assert ':' in s ==> exists i :: 0 <= i < |s| && Lower(s)[i] == ':';
    }
    forall c: char ensures Stays(c, Lower) <==> LowerChar(c) == c {
      assert Lower([c])[0] == LowerChar(c) && |Lower([c])| == 1;
    }
  }

  // What stands before the first colon is determined, if it has none itself.
  lemma SplitAtColon(a: string, b: string, s: string, t: string)
    requires NoColon(a) && NoColon(b) && a + ":" + s == b + ":" + t
    ensures a == b && s == t
  {
    var x, y := a + ":" + s, b + ":" + t;
    assert x[|a|] == ':' && y[|b|] == ':';
    assert a == x[..|a|] && b == y[..|b|];
    assert s == x[|a| + 1..] && t == y[|b| + 1..];
  }

  // A text with one colon splits at it and nowhere else.
  lemma OnlySplit(a: string, b: string, s: string, t: string)
    requires NoColon(a) && NoColon(s) && a + ":" + s == b + ":" + t
    ensures a == b && s == t
  {
    var x, y := a + ":" + s, b + ":" + t;
    assert x[|a|] == ':' && y[|b|] == ':';
    assert forall i :: 0 <= i < |x| && x[i] == ':' ==> i == |a|;
    assert a == x[..|a|] && b == y[..|b|];
    assert s == x[|a| + 1..] && t == y[|b| + 1..];
  }

  lemma SameSuffix(a: string, b: string, c: string)
    requires a + c == b + c
    ensures a == b
  {
    assert a == (a + c)[..|a|] && b == (b + c)[..|b|];
  }

  lemma CanonicalParts(t: string, n: string, k: string, lower: Texts)
    ensures Canonical(t, n, k, lower) == lower(t) + ":" + (lower(n) + ":" + lower(k))
    ensures Canonical(t, n, k, lower) == (lower(t) + ":" + lower(n)) + (":" + lower(k))
  {
  }

  /** A request's fingerprint, for one kind of request, is its own exactly when neither hash nor network contains a
      colon: otherwise some other request has it too. */
  lemma OwnFingerprint(t: string, n: string, k: string, lower: Texts, sha: Texts)
    requires Injective(sha) && LowerCases(lower)
    ensures (forall t', n' :: Fingerprint(t', n', k, lower, sha) == Fingerprint(t, n, k, lower, sha) ==>
              SameFields(t', n', k, t, n, k, lower)) <==> NoColon(t) && NoColon(n)
  {
    if NoColon(t) && NoColon(n) {
      forall t', n' | Fingerprint(t', n', k, lower, sha) == Fingerprint(t, n, k, lower, sha)
        ensures SameFields(t', n', k, t, n, k, lower)
      {
        CanonicalParts(t, n, k, lower);
        CanonicalParts(t', n', k, lower);
        SameSuffix(lower(t) + ":" + lower(n), lower(t') + ":" + lower(n'), ":" + lower(k));
        OnlySplit(lower(t), lower(t'), lower(n), lower(n'));
      }
    } else {
      var t', n' := Confused(t, n, k, lower);
      assert Fingerprint(t', n', k, lower, sha) == Fingerprint(t, n, k, lower, sha);
    }
  }

  // With a colon in one of them, hash and network can be cut elsewhere.
  lemma Confused(t: string, n: string, k: string, lower: Texts) returns (t': string, n': string)
    requires LowerCases(lower) && !(NoColon(t) && NoColon(n))
    ensures Canonical(t', n', k, lower) == Canonical(t, n, k, lower) && lower(t') != lower(t)
  {
    hide Stays;
    var x, y := lower(t), lower(n);
    if !NoColon(t) {
      var i := ColonIn(x);
      t', n' := x[..i], x[i + 1..] + ":" + y;
      assert x == x[..i] + ":" + x[i + 1..];
      Fixed(t', n', lower);
      assert x + ":" + y + ":" + lower(k) == t' + ":" + n' + ":" + lower(k);
    } else {
      var i := ColonIn(y);
      t', n' := x + ":" + y[..i], y[i + 1..];
      assert y == y[..i] + ":" + y[i + 1..];
      Fixed(t', n', lower);
      assert x + ":" + y + ":" + lower(k) == t' + ":" + n' + ":" + lower(k);
    }
  }

  lemma ColonIn(s: string) returns (i: nat)
    requires !NoColon(s)
    ensures i < |s| && s[i] == ':'
  {
    i :| 0 <= i < |s| && s[i] == ':';
  }

  lemma Fixed(a: string, b: string, lower: Texts)
    requires LowerCases(lower) && AllStay(a, lower) && AllStay(b, lower)
    ensures lower(a) == a && lower(b) == b
  {
  }

  /** Over all kinds of requests it is its own exactly when no field contains a colon. */
  lemma OwnFingerprintOfAll(t: string, n: string, k: string, lower: Texts, sha: Texts)
    requires Injective(sha) && LowerCases(lower)
    ensures (forall t', n', k' :: Fingerprint(t', n', k', lower, sha) == Fingerprint(t, n, k, lower, sha) ==>
              SameFields(t', n', k', t, n, k, lower)) <==> NoColon(t) && NoColon(n) && NoColon(k)
  {
    if NoColon(t) && NoColon(n) && NoColon(k) {
      forall t', n', k' | Fingerprint(t', n', k', lower, sha) == Fingerprint(t, n, k, lower, sha)
        ensures SameFields(t', n', k', t, n, k, lower)
      {
        CanonicalParts(t, n, k, lower);
        CanonicalParts(t', n', k', lower);
        OnlyTwoSplits(lower(t), lower(n), lower(k), lower(t'), lower(n'), lower(k'));
      }
    } else if NoColon(t) && NoColon(n) {
      var x, y, z := lower(t), lower(n), lower(k);
      var i := ColonIn(z);
      var n', k' := y + ":" + z[..i], z[i + 1..];
      assert z == z[..i] + ":" + z[i + 1..];
      Fixed(n', k', lower);
      Fixed(x, x, lower);
      assert x + ":" + y + ":" + z == x + ":" + n' + ":" + k';
      assert Fingerprint(x, n', k', lower, sha) == Fingerprint(t, n, k, lower, sha);
    } else {
      var t', n' := Confused(t, n, k, lower);
      assert Fingerprint(t', n', k, lower, sha) == Fingerprint(t, n, k, lower, sha);
    }
  }

  // A text with two colons splits in three at them.
  lemma OnlyTwoSplits(a: string, b: string, c: string, x: string, y: string, z: string)
    requires NoColon(a) && NoColon(b) && NoColon(c)
    requires a + ":" + (b + ":" + c) == x + ":" + (y + ":" + z)
    ensures a == x && b == y && c == z
  {
    var l, r := a + ":" + (b + ":" + c), x + ":" + (y + ":" + z);
    assert l[|a|] == ':' && l[|a| + 1 + |b|] == ':';
    assert r[|x|] == ':' && r[|x| + 1 + |y|] == ':';
    assert forall i :: 0 <= i < |l| && l[i] == ':' ==> i == |a| || i == |a| + 1 + |b|;
    assert |x| == |a| && |y| == |b|;
    assert a == l[..|a|] && x == r[..|a|];
    assert b == l[|a| + 1..|a| + 1 + |b|] && y == r[|a| + 1..|a| + 1 + |b|];
    assert c == l[|a| + |b| + 2..] && z == r[|a| + |b| + 2..];
  }

  /** Two requests share a fingerprint exactly when their fields agree up to case, if hash and network of the first
      contain no colon and the kinds are the same, or nothing that could be confused with a field contains one. */
  lemma SameFingerprint(t1: string, n1: string, k1: string, t2: string, n2: string, k2: string,
        lower: Texts, sha: Texts)
    requires Injective(sha) && LowerCases(lower) && NoColon(t1) && NoColon(n1)
    requires k1 == k2 || NoColon(k1) || (NoColon(t2) && NoColon(n2))
    ensures Fingerprint(t1, n1, k1, lower, sha) == Fingerprint(t2, n2, k2, lower, sha) <==>
      SameFields(t1, n1, k1, t2, n2, k2, lower)
  {
    if k1 == k2 {
      OwnFingerprint(t1, n1, k1, lower, sha);
    } else if NoColon(k1) {
      OwnFingerprintOfAll(t1, n1, k1, lower, sha);
    } else if Canonical(t1, n1, k1, lower) == Canonical(t2, n2, k2, lower) {
      CanonicalParts(t1, n1, k1, lower);
      CanonicalParts(t2, n2, k2, lower);
      SplitAtColon(lower(t1), lower(t2), lower(n1) + ":" + lower(k1), lower(n2) + ":" + lower(k2));
      SplitAtColon(lower(n1), lower(n2), lower(k1), lower(k2));
    }
  }

  /** For fields in lower case it is the hash of hash, network and kind, in this order and with colons between. */
  lemma FingerprintText(t: string, n: string, k: string, lower: Texts, sha: Texts)
    requires LowerCases(lower) && AllStay(t, lower) && AllStay(n, lower) && AllStay(k, lower)
    ensures Fingerprint(t, n, k, lower, sha) == sha(t + ":" + n + ":" + k)
  {
    Fixed(t, n, lower);
    Fixed(k, k, lower);
  }

  /** An input on which two different requests share one. */
  lemma ColonsConfuse(sha: Texts)
    ensures Fingerprint("a:b", "c", "explain", Lower, sha) == Fingerprint("a", "b:c", "explain", Lower, sha)
    ensures !SameFields("a:b", "c", "explain", "a", "b:c", "explain", Lower)
  {
    assert Lower("a:b") == "a:b" && Lower("b:c") == "b:c" && Lower("a") == "a" && Lower("c") == "c";
    assert "a:b" + ":" + "c" == "a" + ":" + "b:c";
  }
}
