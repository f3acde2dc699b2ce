/** `BagKeyComparer`: the equality and hash the station dictionaries use.
    `Equals` compares only the first min(len1, len2) bytes, so a key equals
    each of its prefixes; `GetHashCode` packs at most the first four bytes,
    stopping early at a zero byte, into a 32-bit signed integer. */
module KeyComparer {
  import opened Common

  /** The two keys agree on every index both of them have. */
  predicate PrefixAgree(a: seq<byte>, b: seq<byte>)
  {
    forall i :: 0 <= i < |a| && i < |b| ==> a[i] == b[i]
  }

  /** `Equals(b1, b2)`: the same reference, or both present and agreeing up to
      the shorter length. */
  method Equals(b1: array?<byte>, b2: array?<byte>) returns (r: bool)
    ensures r <==> (b1 == b2 || (b1 != null && b2 != null && PrefixAgree(b1[..], b2[..])))
  {
    if b1 == b2 {
      return true;
    }
    if b2 == null || b1 == null {
      return false;
    }
    var len := Min(b1.Length, b2.Length);
    for i := 0 to len
      invariant forall k :: 0 <= k < i ==> b1[k] == b2[k]
    {
      if b1[i] != b2[i] {
        return false;
      }
    }
    return true;
  }

  lemma PrefixAgreeSymmetric(a: seq<byte>, b: seq<byte>)
    ensures PrefixAgree(a, b) <==> PrefixAgree(b, a)
  {
  }

  lemma PrefixAgreeReflexive(a: seq<byte>)
    ensures PrefixAgree(a, a)
  {
  }

  /** The quirk: a key is equal to every extension of it. */
  lemma PrefixAgreeExtension(a: seq<byte>, x: seq<byte>)
    ensures PrefixAgree(a, a + x)
  {
  }

  /** Two keys that are equal under the comparer and have the same length are
      the same key. */
  lemma PrefixAgreeSameLength(a: seq<byte>, b: seq<byte>)
    requires |a| == |b| && PrefixAgree(a, b)
    ensures a == b
  {
  }

  /** The comparer is not transitive: "ab" equals "a", "a" equals "ac", but
      "ab" differs from "ac". */
  lemma PrefixAgreeNotTransitive()
    ensures PrefixAgree([97, 98], [97]) && PrefixAgree([97], [97, 99])
    ensures !PrefixAgree([97, 98], [97, 99])
  {
    assert [97, 98][1] != [97, 99][1];
  }

  const TwoTo32: int := 0x1_0000_0000

  /** The signed reading of a 32-bit pattern. */
  function ToInt32(x: int): (r: int)
    ensures -0x8000_0000 <= r < 0x8000_0000 && (r - x) % TwoTo32 == 0
    ensures 0 <= x < 0x8000_0000 ==> r == x
  {
    var m := x % TwoTo32;
    if m < 0x8000_0000 then m else m - TwoTo32
  }

  /** `(hash << 8) | b` on a C# int: the shift keeps the low 32 bits and
      leaves the low byte clear for `b`. */
  function ShiftIn(hash: int, b: byte): int
  {
    ToInt32(hash * 256 + b)
  }

  /** The bytes read as a big-endian number. */
  function Pack(p: seq<byte>): (r: nat)
  {
    if p == [] then 0 else Pack(p[..|p| - 1]) * 256 + p[|p| - 1]
  }

  function Pow256(n: nat): nat
  {
    if n == 0 then 1 else 256 * Pow256(n - 1)
  }

  lemma {:induction false} PackBound(p: seq<byte>)
    ensures Pack(p) < Pow256(|p|)
  {
    if p != [] {
      PackBound(p[..|p| - 1]);
    }
  }

  lemma SmallPowers()
    ensures Pow256(0) == 1 && Pow256(1) == 256 && Pow256(2) == 0x1_0000
    ensures Pow256(3) == 0x100_0000 && Pow256(4) == TwoTo32
  {
  }

  /** How many leading bytes `GetHashCode` folds in: the first byte always,
      then further bytes up to the fourth until a zero byte. */
  function HashLength(s: seq<byte>, i: nat): (n: nat)
    requires 1 <= i <= Min(|s|, 4)
    ensures i <= n <= Min(|s|, 4)
    ensures forall k :: i <= k < n ==> s[k] != 0
    ensures n < Min(|s|, 4) ==> s[n] == 0
    decreases 4 - i
  {
    if i < Min(|s|, 4) && s[i] != 0 then HashLength(s, i + 1) else i
  }

  /** `GetHashCode`: a reading of an empty key fails (b[0] is out of range). */
  function Hash(s: seq<byte>): (r: Result<int>)
    ensures r.Err? <==> |s| == 0
    ensures r.Err? ==> r.error == EmptyKey
    ensures r.Ok? ==> -0x8000_0000 <= r.value < 0x8000_0000
  {
    if |s| == 0 then Err(EmptyKey)
    else
      Ok(ToInt32(Pack(s[..HashLength(s, 1)])))
  }

  method GetHashCode(b: array<byte>) returns (r: Result<int>)
    ensures r == Hash(b[..])
  {
    if b.Length == 0 {
      return Err(EmptyKey);
    }
    var hash: int := b[0];
    SmallPowers();
    var len := Min(b.Length, 4);
    var i := 1;
    assert b[..1] == [] + [b[0]];
    while i < len && b[i] != 0
      invariant 1 <= i <= len
      invariant forall k :: 1 <= k < i ==> b[k] != 0
      invariant HashLength(b[..], 1) == HashLength(b[..], i)
      invariant Pack(b[..i]) < Pow256(i) <= TwoTo32
      invariant hash == ToInt32(Pack(b[..i]))
    {
      assert b[..i + 1][..i] == b[..i];
      ShiftInStep(b[..i], b[i]);
      hash := ShiftIn(hash, b[i]);
      i := i + 1;
      PackBound(b[..i]);
    }
    r := Ok(hash);
  }

  /** Shifting a byte into the hash of fewer than four bytes appends it to
      their big-endian number. */
  lemma ShiftInStep(p: seq<byte>, x: byte)
    requires |p| < 4 && Pack(p) < Pow256(|p|)
    ensures Pack(p) < TwoTo32 && Pack(p + [x]) < TwoTo32
    ensures ShiftIn(ToInt32(Pack(p)), x) == ToInt32(Pack(p + [x]))
  {
    SmallPowers();
    assert Pow256(|p|) <= 0x100_0000 by {
      if |p| == 3 {} else if |p| == 2 {} else if |p| == 1 {} else {}
    }
    var n := Pack(p);
    assert n < 0x100_0000;
    assert (p + [x])[..|p|] == p;
    assert Pack(p + [x]) == n * 256 + x;
    assert ToInt32(n) == n;
  }

  /** The lookup probe is the key followed by zero padding (the cleared
      station buffer); it hashes like the key itself. */
  lemma HashOfPadded(key: seq<byte>, n: nat)
    requires |key| > 0
    ensures Hash(key + Zeros(n)) == Hash(key)
  {
    var s := key + Zeros(n);
    HashLengthPadded(key, n, 1);
    var a := HashLength(s, 1);
    assert s[..a] == key[..a];
  }

  /** Padding a key with zero bytes does not change how many of its bytes
      the hash folds in. */
  lemma {:induction false} HashLengthPadded(key: seq<byte>, n: nat, i: nat)
    requires 1 <= i <= Min(|key|, 4)
    ensures 1 <= i <= Min(|key + Zeros(n)|, 4)
    ensures HashLength(key + Zeros(n), i) == HashLength(key, i)
    decreases 4 - i
  {
    var s := key + Zeros(n);
    if i < Min(|key|, 4) && key[i] != 0 {
      assert s[i] == key[i];
      HashLengthPadded(key, n, i + 1);
    } else if i < Min(|s|, 4) && i == |key| {
      assert s[i] == 0;
    } else if i < Min(|key|, 4) {
      assert s[i] == key[i];
    }
  }

  /** The key a zero-padded buffer holds: its first byte, then the bytes up to
      the next zero byte. */
  function KeyPart(s: seq<byte>): (r: seq<byte>)
    ensures |r| <= |s| && r == s[..|r|]
    ensures |s| > 0 ==> |r| > 0
    ensures forall k :: 1 <= k < |r| ==> r[k] != 0
    ensures |r| < |s| ==> s[|r|] == 0
  {
    if |s| == 0 then [] else s[..KeyEnd(s, 1)]
  }

  /** The first zero byte at or after `i`, or the end of `s`. */
  function KeyEnd(s: seq<byte>, i: nat): (n: nat)
    requires 1 <= i <= |s|
    ensures i <= n <= |s|
    ensures forall k :: i <= k < n ==> s[k] != 0
    ensures n < |s| ==> s[n] == 0
    decreases |s| - i
  {
    if i < |s| && s[i] != 0 then KeyEnd(s, i + 1) else i
  }

  /** A key without zero bytes is the key its zero-padded buffer holds. */
  lemma KeyPartOfPadded(key: seq<byte>, n: nat)
    requires |key| > 0 && forall k :: 0 <= k < |key| ==> key[k] != 0
    ensures KeyPart(key + Zeros(n)) == key
  {
    var s := key + Zeros(n);
    KeyEndOfPadded(key, n, 1);
    assert s[..|key|] == key;
  }

  lemma {:induction false} KeyEndOfPadded(key: seq<byte>, n: nat, i: nat)
    requires 1 <= i <= |key| && forall k :: 0 <= k < |key| ==> key[k] != 0
    ensures i <= |key + Zeros(n)| && KeyEnd(key + Zeros(n), i) == |key|
    decreases |key| - i
  {
    var s := key + Zeros(n);
    if i < |key| {
      assert s[i] == key[i];
      KeyEndOfPadded(key, n, i + 1);
    } else if i < |s| {
      assert s[i] == 0;
    }
  }

  /** `BagKeyComparer.Equals` on two keys' contents: as written, agreement on
      the shorter length; corrected, the same key up to zero padding. */
  predicate SameKey(a: seq<byte>, b: seq<byte>, variant: Variant)
  {
    match variant
    case AsWritten => PrefixAgree(a, b)
    case Corrected => KeyPart(a) == KeyPart(b)
  }

  /** The hash folds in the bytes of the key part, at most four of them. */
  lemma {:induction false} HashLengthOfKeyPart(s: seq<byte>, i: nat)
    requires 1 <= i <= Min(|s|, 4)
    ensures HashLength(s, i) == Min(KeyEnd(s, i), 4)
    decreases 4 - i
  {
    if i < Min(|s|, 4) && s[i] != 0 {
      HashLengthOfKeyPart(s, i + 1);
    }
  }

  /** The corrected comparison agrees with the hash: keys it calls equal have
      equal hash codes, the contract a dictionary relies on. */
  lemma SameKeyHash(a: seq<byte>, b: seq<byte>)
    requires SameKey(a, b, Corrected)
    ensures Hash(a) == Hash(b)
  {
    if |a| > 0 {
      var p := KeyPart(a);
      HashLengthOfKeyPart(a, 1);
      HashLengthOfKeyPart(b, 1);
      var m := Min(|p|, 4);
      assert a[..HashLength(a, 1)] == p[..m] == b[..HashLength(b, 1)];
    }
  }

  /** As written, the comparer breaks that contract: "a" equals "ab" but the
      two hash differently. */
  lemma PrefixBreaksHash()
    ensures SameKey([97], [97, 98], AsWritten)
    ensures Hash([97]) != Hash([97, 98])
  {
    assert [97, 98][..2] == [97, 98];
    assert Pack([97, 98]) == 97 * 256 + 98 by {
      assert [97, 98][..1] == [97];
      assert [97][..0] == [];
    }
    assert [97][..1] == [97];
    assert Pack([97]) == 97 by {
      assert [97][..0] == [];
    }
  }
}
