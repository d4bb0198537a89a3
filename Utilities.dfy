/** The repository's Utilities class: the two hash functions (SHA-256 of a
    string, rendered as lowercase hexadecimal, the pair version XORing the two
    digests byte by byte first) and the verifier of Merkle inclusion proofs. */
module Utilities {
  import opened Results
  import opened PowersOfTwo
  import opened Transactions
  import opened SinglyLinkedLists

  /** A byte of a digest, read unsigned as `0xff & b` does. */
  type byte = x: int | 0 <= x < 256

  const ZeroDigest: seq<byte> := seq(32, _ => 0)

  /** SHA-256 (FIPS 180-4) of the UTF-8 bytes of a string, taken as given:
      any function from strings to 32-byte digests. */
  type Sha256 = f: string -> seq<byte> | forall s :: |f(s)| == 32
    witness (s: string) => ZeroDigest

  predicate IsLowerHexDigit(c: char)
  {
    '0' <= c <= '9' || 'a' <= c <= 'f'
  }

  /** The lowercase hexadecimal digit of d. */
  function HexDigit(d: int): (c: char)
    requires 0 <= d < 16
    ensures IsLowerHexDigit(c)
  {
    if d < 10 then ('0' as int + d) as char else ('a' as int + d - 10) as char
  }

  /** The value of a lowercase hexadecimal digit. */
  function HexValue(c: char): (d: int)
    requires IsLowerHexDigit(c)
    ensures 0 <= d < 16
  {
    if c <= '9' then c as int - '0' as int else c as int - 'a' as int + 10
  }

  lemma HexValueOfDigit(d: int)
    requires 0 <= d < 16
    ensures HexValue(HexDigit(d)) == d
  {
  }

  /** Java's Integer.toHexString on 0..255: lowercase digits, no leading zero. */
  function ToHexString(v: int): (h: string)
    requires 0 <= v < 256
    ensures 1 <= |h| <= 2 && (|h| == 1 <==> v < 16)
  {
    if v < 16 then [HexDigit(v)] else [HexDigit(v / 16), HexDigit(v % 16)]
  }

  /** One byte as the hash functions emit it: toHexString of the unsigned
      byte, with a '0' in front when that is a single digit. */
  function HexByte(b: byte): (h: string)
    ensures |h| == 2 && IsLowerHexDigit(h[0]) && IsLowerHexDigit(h[1])
    ensures HexValue(h[0]) * 16 + HexValue(h[1]) == b
  {
    var hex := ToHexString(b);
    HexValueOfDigit(b / 16);
    HexValueOfDigit(b % 16);
    if |hex| == 1 then "0" + hex else hex
  }

  /** The bytes, two lowercase digits each, most significant digit first. */
  function Hex(bytes: seq<byte>): (s: string)
    ensures |s| == 2 * |bytes|
    ensures forall i :: 0 <= i < |s| ==> IsLowerHexDigit(s[i])
  {
    if bytes == [] then "" else Hex(bytes[..|bytes| - 1]) + HexByte(bytes[|bytes| - 1])
  }

  /** Base16 decoding of a lowercase digit string, two digits per byte
      (of an odd-length string, the first digit is ignored). */
  function UnHex(s: string): (bytes: seq<byte>)
    requires forall i :: 0 <= i < |s| ==> IsLowerHexDigit(s[i])
    ensures 2 * |bytes| <= |s| < 2 * |bytes| + 2
  {
    if |s| < 2 then []
    else UnHex(s[..|s| - 2]) + [(HexValue(s[|s| - 2]) * 16 + HexValue(s[|s| - 1]))]
  }

  /** Decoding a string with two digits of value v appended appends v. */
  lemma UnHexSnoc(p: string, h: string, v: int)
    requires forall i :: 0 <= i < |p| ==> IsLowerHexDigit(p[i])
    requires |h| == 2 && IsLowerHexDigit(h[0]) && IsLowerHexDigit(h[1])
    requires HexValue(h[0]) * 16 + HexValue(h[1]) == v
    ensures forall i :: 0 <= i < |p + h| ==> IsLowerHexDigit((p + h)[i])
    ensures UnHex(p + h) == UnHex(p) + [v]
  {
    var s := p + h;
    assert s[..|s| - 2] == p;
    assert s[|s| - 2] == h[0] && s[|s| - 1] == h[1];
  }

  lemma {:induction false} HexRoundTrip(bytes: seq<byte>)
    ensures UnHex(Hex(bytes)) == bytes
  {
    if bytes != [] {
      var init, last := bytes[..|bytes| - 1], bytes[|bytes| - 1];
      var p, h := Hex(init), HexByte(last);
      calc {
        UnHex(Hex(bytes));
        UnHex(p + h);
        { UnHexSnoc(p, h, last); }
        UnHex(p) + [last];
        { HexRoundTrip(init); }
        init + [last];
        bytes;
      }
    }
  }

  /** The single-input hash function as a value. */
  function Digest(sha: Sha256, input: string): (h: string)
    ensures |h| == 64 && forall i :: 0 <= i < |h| ==> IsLowerHexDigit(h[i])
  {
    Hex(sha(input))
  }

  /** Every digest decodes back to the 32 bytes SHA-256 gave. */
  lemma DigestDecodes(sha: Sha256, input: string)
    ensures UnHex(Digest(sha, input)) == sha(input)
  {
    HexRoundTrip(sha(input));
  }

  /** Bitwise exclusive or of two non-negative integers, bit by bit from the
      least significant end. */
  function BitXor(a: nat, b: nat): nat
  {
    if a == 0 && b == 0 then 0
    else 2 * BitXor(a / 2, b / 2) + (if a % 2 == b % 2 then 0 else 1)
  }

  lemma {:induction false} BitXorSymmetric(a: nat, b: nat)
    ensures BitXor(a, b) == BitXor(b, a)
  {
    if a != 0 || b != 0 {
      BitXorSymmetric(a / 2, b / 2);
    }
  }

  lemma {:induction false} BitXorBound(a: nat, b: nat, k: nat)
    requires a < Pow2(k) && b < Pow2(k)
    ensures BitXor(a, b) < Pow2(k)
  {
    if k > 0 && (a != 0 || b != 0) {
      BitXorBound(a / 2, b / 2, k - 1);
    }
  }

  /** `0xff & (x ^ y)` on two unsigned bytes. */
  function XorByte(x: byte, y: byte): (z: byte)
    ensures z == BitXor(x, y)
  {
    assert Pow2(8) == 256;
    BitXorBound(x, y, 8);
    BitXor(x, y)
  }

  lemma {:induction false} BitXorSelf(a: nat)
    ensures BitXor(a, a) == 0
  {
    if a != 0 {
      BitXorSelf(a / 2);
    }
  }

  /** The two digests XORed byte by byte, as `encodedhash1[i] ^ encodedhash2[i]`. */
  function Xor(a: seq<byte>, b: seq<byte>): (c: seq<byte>)
    requires |a| == |b|
    ensures |c| == |a|
    ensures forall i :: 0 <= i < |a| ==> c[i] == BitXor(a[i], b[i])
  {
    seq(|a|, i requires 0 <= i < |a| => XorByte(a[i], b[i]))
  }

  /** The pair hash function as a value: the two digests XORed, then hex. */
  function Combine(sha: Sha256, input1: string, input2: string): (h: string)
    ensures |h| == 64 && forall i :: 0 <= i < |h| ==> IsLowerHexDigit(h[i])
  {
    Hex(Xor(sha(input1), sha(input2)))
  }

  /** The pair hash does not depend on the order of its inputs. */
  lemma CombineSymmetric(sha: Sha256, a: string, b: string)
    ensures Combine(sha, a, b) == Combine(sha, b, a)
  {
    forall i | 0 <= i < 32 {
      BitXorSymmetric(sha(a)[i], sha(b)[i]);
    }
    assert Xor(sha(a), sha(b)) == Xor(sha(b), sha(a));
  }

  lemma {:induction false} HexOfZeros(n: nat)
    ensures Hex(seq(n, _ => 0)) == seq(2 * n, _ => '0')
  {
    if n > 0 {
      var z: seq<byte> := seq(n, _ => 0);
      assert z[..n - 1] == seq(n - 1, _ => 0);
      HexOfZeros(n - 1);
      assert seq(2 * n, _ => '0') == seq(2 * (n - 1), _ => '0') + "00";
    }
  }

  /** Pairing a string with itself gives 64 '0' characters. */
  lemma CombineSelf(sha: Sha256, a: string)
    ensures Combine(sha, a, a) == seq(64, _ => '0')
  {
    forall i | 0 <= i < 32 {
      BitXorSelf(sha(a)[i]);
    }
    assert Xor(sha(a), sha(a)) == seq(32, _ => 0);
    HexOfZeros(32);
  }

  lemma HexSnoc(bytes: seq<byte>, b: byte)
    ensures Hex(bytes + [b]) == Hex(bytes) + HexByte(b)
  {
    assert (bytes + [b])[..|bytes|] == bytes;
  }

  /** The first i + 1 bytes of s: the first i and then s[i]. */
  lemma TakeSnoc<T>(s: seq<T>, i: nat)
    requires i < |s|
    ensures s[..i + 1] == s[..i] + [s[i]]
  {
  }

  /** The single-input hash function, byte loop and all. */
  method CryptographicHash(sha: Sha256, input: string) returns (hexString: string)
    ensures hexString == Digest(sha, input)
  {
    var encodedhash := sha(input);
    hexString := "";
    for i := 0 to |encodedhash|
      invariant hexString == Hex(encodedhash[..i])
    {
      var hex := ToHexString(encodedhash[i]);
      ghost var before := hexString;
      if |hex| == 1 {
        hexString := hexString + "0";
      }
      hexString := hexString + hex;
      PadStep(before, hex, encodedhash[i]);
      TakeSnoc(encodedhash, i);
      HexSnoc(encodedhash[..i], encodedhash[i]);
    }
    assert encodedhash[..|encodedhash|] == encodedhash;
  }

  /** Appending '0' when toHexString gave one digit, then its digits,
      appends the byte's two hex digits. */
  lemma PadStep(before: string, hex: string, b: byte)
    requires hex == ToHexString(b)
    ensures (if |hex| == 1 then before + "0" else before) + hex == before + HexByte(b)
  {
    if |hex| == 1 {
      assert (before + "0") + hex == before + ("0" + hex);
    }
  }

  /** One more byte of the pair hash: the XOR of the next two bytes, in hex. */
  lemma PairStep(a: seq<byte>, b: seq<byte>, i: nat)
    requires |a| == |b| && i < |a|
    ensures Hex(Xor(a[..i + 1], b[..i + 1])) == Hex(Xor(a[..i], b[..i])) + HexByte(XorByte(a[i], b[i]))
  {
    TakeSnoc(a, i);
    TakeSnoc(b, i);
    assert Xor(a[..i + 1], b[..i + 1]) == Xor(a[..i], b[..i]) + [XorByte(a[i], b[i])];
    HexSnoc(Xor(a[..i], b[..i]), XorByte(a[i], b[i]));
  }

  /** The pair hash function, XORing the two digests byte by byte. */
  method CryptographicHashPair(sha: Sha256, input1: string, input2: string) returns (hexString: string)
    ensures hexString == Combine(sha, input1, input2)
  {
    var encodedhash1 := sha(input1);
    var encodedhash2 := sha(input2);
    hexString := "";
    for i := 0 to |encodedhash1|
      invariant hexString == Hex(Xor(encodedhash1[..i], encodedhash2[..i]))
    {
      var x := XorByte(encodedhash1[i], encodedhash2[i]);
      var hex := ToHexString(x);
      ghost var before := hexString;
      if |hex| == 1 {
        hexString := hexString + "0";
      }
      hexString := hexString + hex;
      PadStep(before, hex, x);
      PairStep(encodedhash1, encodedhash2, i);
    }
    assert encodedhash1[..|encodedhash1|] == encodedhash1;
    assert encodedhash2[..|encodedhash2|] == encodedhash2;
  }

  /** The running hash after pairing start with each proof entry in turn,
      the running hash always first. */
  function Fold(sha: Sha256, start: string, proof: seq<string>): string
    decreases |proof|
  {
    if proof == [] then start else Fold(sha, Combine(sha, start, proof[0]), proof[1..])
  }

  lemma {:induction false} FoldAppend(sha: Sha256, start: string, proof: seq<string>, last: string)
    ensures Fold(sha, start, proof + [last]) == Combine(sha, Fold(sha, start, proof), last)
    decreases |proof|
  {
    if proof != [] {
      assert (proof + [last])[1..] == proof[1..] + [last];
      FoldAppend(sha, Combine(sha, start, proof[0]), proof[1..], last);
    }
  }

  /** The two guards at the top of verifyTransaction; None stands for null. */
  predicate PassesGate(proof: Option<seq<string>>, blockRootHash: Option<string>)
  {
    && proof.Some? && |proof.value| != 0
    && blockRootHash.Some? && |blockRootHash.value| != 0
    && !(|proof.value| < 2 || BitAnd(|proof.value|, |proof.value| - 1) != 0)
  }

  /** What verifyTransaction returns. */
  predicate Accepts(sha: Sha256, t: Transaction, proof: Option<seq<string>>, blockRootHash: Option<string>)
  {
    PassesGate(proof, blockRootHash)
    && Fold(sha, Digest(sha, ToString(t)), proof.value) == blockRootHash.value
  }

  /** The gate lets through exactly the non-null proofs whose length is a
      power of two of at least 2, against a non-null, non-empty root hash. */
  lemma GateMeaning(proof: Option<seq<string>>, blockRootHash: Option<string>)
    ensures PassesGate(proof, blockRootHash) <==>
      && proof.Some? && |proof.value| >= 2 && IsPowerOfTwo(|proof.value|)
      && blockRootHash.Some? && blockRootHash.value != ""
  {
    if proof.Some? && |proof.value| >= 1 {
      BitAndTest(|proof.value|);
    }
  }

  /** Proofs of length 1 and 3 (the proofs of trees of height 1 and 3) are
      refused whatever they contain. */
  lemma GateRefusesShortTrees(sha: Sha256, t: Transaction, proof: seq<string>, blockRootHash: Option<string>)
    requires |proof| == 1 || |proof| == 3
    ensures !Accepts(sha, t, Some(proof), blockRootHash)
  {
    GateMeaning(Some(proof), blockRootHash);
    assert !IsPowerOfTwo(3) by {
      assert 3 % 2 == 1;
    }
  }

  /** verifyTransaction: refuses at the gate, or drains the proof list
      folding each entry into the running hash, then compares with the root. */
  method VerifyTransaction(sha: Sha256, t: Transaction, proof: SinglyLinkedList?<string>, blockRootHash: Option<string>)
    returns (verified: bool)
    requires proof != null ==> proof.Valid()
    modifies if proof == null then {} else proof.Repr
    ensures proof != null ==> proof.Valid() && proof.Repr <= old(proof.Repr)
    ensures verified == Accepts(sha, t, if proof == null then None else Some(old(proof.Contents)), blockRootHash)
    ensures proof != null && PassesGate(Some(old(proof.Contents)), blockRootHash) ==> proof.Contents == []
    ensures proof != null && !PassesGate(Some(old(proof.Contents)), blockRootHash) ==>
      proof.Contents == old(proof.Contents)
  {
    if proof == null || proof.IsEmpty() || blockRootHash.None? || |blockRootHash.value| == 0 {
      return false;
    }
    if proof.Size() < 2 || BitAnd(proof.Size(), proof.Size() - 1) != 0 {
      return false;
    }
    var parent := CryptographicHash(sha, ToString(t));
    parent := FoldProof(sha, proof, parent);
    return parent == blockRootHash.value;
  }

  /** The loop of verifyTransaction: removes the proof's entries front first,
      pairing the running hash with each. */
  method FoldProof(sha: Sha256, proof: SinglyLinkedList<string>, start: string) returns (parent: string)
    requires proof.Valid()
    modifies proof.Repr
    ensures proof.Valid() && proof.Repr <= old(proof.Repr) && proof.Contents == []
    ensures parent == Fold(sha, start, old(proof.Contents))
  {
    parent := start;
    while proof.Size() > 0
      invariant proof.Valid() && proof.Repr <= old(proof.Repr)
      invariant Fold(sha, parent, proof.Contents) == Fold(sha, start, old(proof.Contents))
      decreases |proof.Contents|
    {
      ghost var rest := proof.Contents;
      assert Fold(sha, parent, rest) == Fold(sha, Combine(sha, parent, rest[0]), rest[1..]);
      parent := FoldNext(sha, proof, parent);
    }
  }

  /** One iteration of that loop: the running hash a is paired with the
      head entry, which is then removed. */
  method FoldNext(sha: Sha256, proof: SinglyLinkedList<string>, a: string) returns (parent: string)
    requires proof.Valid() && proof.Contents != []
    modifies proof.Repr
    ensures proof.Valid() && proof.Repr <= old(proof.Repr)
    ensures proof.Contents == old(proof.Contents)[1..]
    ensures parent == Combine(sha, a, old(proof.Contents)[0])
  {
    var entry := proof.Get(0);
    var b := entry.value;
    parent := CryptographicHashPair(sha, a, b);
    var removed := proof.Remove(0);
    assert old(proof.Contents)[..0] + old(proof.Contents)[1..] == old(proof.Contents)[1..];
  }
}
