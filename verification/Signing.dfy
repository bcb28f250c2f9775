/**
 * Signing with an already expanded Ed25519 key, and scalar clamping.
 *
 * The curve and the hash are parameters: any commutative group action in which the base point has order L, any
 * 32-byte point encoding, any hash.
 */
module Signing {
  import opened Common
  import opened PathCodec

  /** The order of the Ed25519 base point, 2^252 + 27742317777372353535851937790883648493. */
  const L: nat := 7237005577332262213973186563042994240857116359379907606001950938285454250989

  // ------------------------------------------------------------ little-endian integers

  function FromLE(bytes: seq<byte>): nat {
    if bytes == [] then 0 else bytes[0] + 256 * FromLE(bytes[1..])
  }

  function ToLE(n: nat, len: nat): (r: seq<byte>)
    ensures |r| == len
  {
    if len == 0 then [] else [n % 256] + ToLE(n / 256, len - 1)
  }

  function Pow256(n: nat): (r: nat)
    ensures r > 0
  {
    if n == 0 then 1 else 256 * Pow256(n - 1)
  }

  lemma {:induction false} Pow256Sum(a: nat, b: nat)
    ensures Pow256(a + b) == Pow256(a) * Pow256(b)
  {
    if a > 0 {
      Pow256Sum(a - 1, b);
      assert Pow256(a + b) == 256 * Pow256(a - 1 + b);
    }
  }

  /** Writing a number that fits and reading it back is the identity. */
  lemma {:induction false} FromToLE(n: nat, len: nat)
    requires n < Pow256(len)
    ensures FromLE(ToLE(n, len)) == n
  {
    if len > 0 {
      FromToLE(n / 256, len - 1);
      assert ToLE(n, len)[1..] == ToLE(n / 256, len - 1);
    }
  }

  /** Reading bytes and writing them back is the identity. */
  lemma {:induction false} ToFromLE(bytes: seq<byte>)
    ensures FromLE(bytes) < Pow256(|bytes|)
    ensures ToLE(FromLE(bytes), |bytes|) == bytes
  {
    if bytes != [] {
      var rest := bytes[1..];
      ToFromLE(rest);
      assert FromLE(bytes) % 256 == bytes[0] && FromLE(bytes) / 256 == FromLE(rest);
      assert bytes == [bytes[0]] + rest;
    }
  }

  /** L in powers of two: 16 times 256 to the 31st is 2^252. */
  lemma OrderOfBase()
    ensures L == 16 * Pow256(31) + 27742317777372353535851937790883648493
  {
    var n := 31;
    ThirtyOneBytes(n);
  }

  lemma LFitsIn32Bytes()
    ensures L < Pow256(32)
  {
    assert Pow256(4) == 0x1_0000_0000;
    Pow256Sum(4, 4);
    Pow256Sum(8, 8);
    Pow256Sum(16, 16);
    assert Pow256(16) == 0x1_00000000_00000000_00000000_00000000;
    assert Pow256(32) == 0x1_00000000_00000000_00000000_00000000 * 0x1_00000000_00000000_00000000_00000000;
  }

  // ------------------------------------------------------------ the group

  datatype Group<!P> = Group(mul: (nat, P) -> P, add: (P, P) -> P, base: P, zero: P)

  ghost predicate Adds<P>(g: Group<P>, m: nat, n: nat, p: P) {
    g.mul(m + n, p) == g.add(g.mul(m, p), g.mul(n, p))
  }

  ghost predicate Composes<P>(g: Group<P>, m: nat, n: nat, p: P) {
    g.mul(m * n, p) == g.mul(m, g.mul(n, p))
  }

  ghost predicate IsGroup<P(!new)>(g: Group<P>) {
    && (forall m: nat, n: nat, p :: Adds(g, m, n, p))
    && (forall m: nat, n: nat, p :: Composes(g, m, n, p))
    && (forall p :: g.mul(0, p) == g.zero)
    && g.mul(L, g.base) == g.zero
  }

  lemma ReduceMultiplier<P(!new)>(g: Group<P>, n: nat)
    requires IsGroup(g)
    ensures g.mul(n, g.base) == g.mul(n % L, g.base)
  {
    var q, m := n / L, n % L;
    assert n == q * L + m;
    assert Adds(g, q * L, m, g.base);
    assert Composes(g, q, L, g.base);
    assert Composes(g, q, 0, g.base);
    assert Adds(g, 0, m, g.base);
  }

  /** Reducing the challenge does not change its multiple of a multiple of the base. */
  lemma ReduceChallenge<P(!new)>(g: Group<P>, k: nat, a: nat)
    requires IsGroup(g)
    ensures g.mul((k % L) * a, g.base) == g.mul(k, g.mul(a, g.base))
  {
    var k' := k % L;
    assert k' * a == a * k' && k * a == a * k;
    assert Composes(g, a, k', g.base);
    ReduceMultiplier(g, k);
    assert Composes(g, a, k, g.base);
    assert Composes(g, k, a, g.base);
  }

  // ------------------------------------------------------------ signing

  /** The base times a scalar given as bytes. */
  function BaseTimes<P>(g: Group<P>, scalar: seq<byte>): P {
    g.mul(FromLE(scalar), g.base)
  }

  lemma EncodedNonce<P>(g: Group<P>, r: nat)
    requires r < L
    ensures BaseTimes(g, ToLE(r, 32)) == g.mul(r, g.base)
  {
    EncodedBelowL(r);
  }

  function Sign<P>(g: Group<P>, encode: P -> seq<byte>, hash: seq<byte> -> seq<byte>,
                   message: seq<byte>, scalar: seq<byte>, prefix: seq<byte>, publicKey: seq<byte>): seq<byte>
  {
    var r := FromLE(hash(prefix + message)) % L;
    var R := encode(BaseTimes(g, ToLE(r, 32)));
    R + ToLE(Response(r, FromLE(hash(R + publicKey + message)), FromLE(scalar)), 32)
  }

  /** The second half: nonce plus reduced challenge times secret scalar, modulo L. */
  function Response(r: nat, challenge: nat, a: nat): (s: nat)
    ensures s < L
  {
    var k := challenge % L;
    (r + k * a) % L
  }

  /** The check of section 5.1.7 of RFC 8032 on decoded points: S below L, and [S]B == R + [k]A, with k the unreduced
      hash of the encoded R, the encoded A and the message. */
  ghost predicate Verifies<P>(g: Group<P>, encode: P -> seq<byte>, hash: seq<byte> -> seq<byte>,
                              message: seq<byte>, signature: seq<byte>, publicPoint: P, noncePoint: P)
  {
    && |signature| == 64
    && signature[..32] == encode(noncePoint)
    && FromLE(signature[32..]) < L
    && var k := FromLE(hash(signature[..32] + encode(publicPoint) + message));
    g.mul(FromLE(signature[32..]), g.base) == g.add(noncePoint, g.mul(k, publicPoint))
  }

  /** The nonce survives its encoding, so the signature is made of the nonce's own point. */
  lemma SignedBytes<P(!new)>(g: Group<P>, encode: P -> seq<byte>, hash: seq<byte> -> seq<byte>,
                             message: seq<byte>, scalar: seq<byte>, prefix: seq<byte>, publicKey: seq<byte>)
    ensures var r := FromLE(hash(prefix + message)) % L;
            var R := encode(g.mul(r, g.base));
            var challenge := FromLE(hash(R + publicKey + message));
            Sign(g, encode, hash, message, scalar, prefix, publicKey) ==
            R + ToLE(Response(r, challenge, FromLE(scalar)), 32)
  {
    var r := FromLE(hash(prefix + message)) % L;
    EncodedNonce(g, r);
  }

  /** The two halves of a signature. */
  lemma SignatureHalves<P(!new)>(g: Group<P>, encode: P -> seq<byte>, hash: seq<byte> -> seq<byte>,
                           message: seq<byte>, scalar: seq<byte>, prefix: seq<byte>, publicKey: seq<byte>)
    requires forall p :: |encode(p)| == 32
    ensures var signature := Sign(g, encode, hash, message, scalar, prefix, publicKey);
            var r := FromLE(hash(prefix + message)) % L;
            var R := encode(g.mul(r, g.base));
            var k := FromLE(hash(R + publicKey + message)) % L;
            && |signature| == 64
            && signature[..32] == R
            && FromLE(signature[32..]) == (r + k * FromLE(scalar)) % L
            && ToLE(FromLE(signature[32..]), 32) == signature[32..]
  {
    var r := FromLE(hash(prefix + message)) % L;
    var R := encode(g.mul(r, g.base));
    SignedBytes(g, encode, hash, message, scalar, prefix, publicKey);
    HalvesOf(R, Response(r, FromLE(hash(R + publicKey + message)), FromLE(scalar)));
  }

  lemma HalvesOf(R: seq<byte>, s: nat)
    requires |R| == 32 && s < L
    ensures var signature := R + ToLE(s, 32);
            && |signature| == 64 && signature[..32] == R && signature[32..] == ToLE(s, 32)
            && FromLE(signature[32..]) == s && ToLE(FromLE(signature[32..]), 32) == signature[32..]
  {
    var signature := R + ToLE(s, 32);
    EncodedBelowL(s);
    assert signature[..32] == R && signature[32..] == ToLE(s, 32);
  }

  /** Numbers below L survive 32 bytes. */
  lemma EncodedBelowL(n: nat)
    requires n < L
    ensures FromLE(ToLE(n, 32)) == n
  {
    LFitsIn32Bytes();
    FromToLE(n, 32);
  }

  lemma SignedEquation<P(!new)>(g: Group<P>, r: nat, k: nat, a: nat)
    requires IsGroup(g)
    ensures g.mul(Response(r, k, a), g.base) == g.add(g.mul(r, g.base), g.mul(k, g.mul(a, g.base)))
  {
    ReduceMultiplier(g, r + (k % L) * a);
    ReduceChallenge(g, k, a);
    assert Adds(g, r, (k % L) * a, g.base);
  }

  /** Main result: under the public key of the scalar the signature verifies, its second half is below L, and it is
      the exact 32-byte encoding of that number. */
  lemma SignatureVerifies<P(!new)>(g: Group<P>, encode: P -> seq<byte>, hash: seq<byte> -> seq<byte>,
                                   message: seq<byte>, scalar: seq<byte>, prefix: seq<byte>)
    requires IsGroup(g) && forall p :: |encode(p)| == 32
    ensures var A := g.mul(FromLE(scalar), g.base);
            var signature := Sign(g, encode, hash, message, scalar, prefix, encode(A));
            var R := g.mul(FromLE(hash(prefix + message)) % L, g.base);
            && Verifies(g, encode, hash, message, signature, A, R)
            && ToLE(FromLE(signature[32..]), 32) == signature[32..]
  {
    var a := FromLE(scalar);
    var r := FromLE(hash(prefix + message)) % L;
    var R, A := encode(g.mul(r, g.base)), encode(g.mul(a, g.base));
    var k := FromLE(hash(R + A + message));
    SignedBytes(g, encode, hash, message, scalar, prefix, A);
    BytesVerify(g, encode, hash, message, r, a, k, Response(r, k, a));
  }

  /** A nonce point and a number that solves the signing equation verify. */
  lemma BytesVerify<P(!new)>(g: Group<P>, encode: P -> seq<byte>, hash: seq<byte> -> seq<byte>,
                             message: seq<byte>, r: nat, a: nat, k: nat, s: nat)
    requires IsGroup(g) && |encode(g.mul(r, g.base))| == 32 && s == Response(r, k, a)
    requires k == FromLE(hash(encode(g.mul(r, g.base)) + encode(g.mul(a, g.base)) + message))
    ensures var signature := encode(g.mul(r, g.base)) + ToLE(s, 32);
            && Verifies(g, encode, hash, message, signature, g.mul(a, g.base), g.mul(r, g.base))
            && ToLE(FromLE(signature[32..]), 32) == signature[32..]
  {
    HalvesOf(encode(g.mul(r, g.base)), s);
    SignedEquation(g, r, k, a);
  }

  // ------------------------------------------------------------ clamping

  /** `b & 248`, `b & 63`, `b & 127` and `b | 64` on bytes. */
  function And248(b: byte): byte { b - b % 8 }

  function And63(b: byte): byte { b % 64 }

  function And127(b: byte): byte { b % 128 }

  function Or64(b: byte): byte { if (b / 64) % 2 == 1 then b else b + 64 }

  /** decodeScalar25519 of section 5 of RFC 7748, as the list of bytes it decodes. */
  function RfcScalarBytes(k: seq<byte>): seq<byte>
    requires |k| == 32
  {
    k[0 := And248(k[0])][31 := Or64(And127(k[31]))]
  }

  /** The clamp as the program edits its byte array; fewer than 32 bytes fail on the last index. */
  method ClampScalar(k: seq<byte>) returns (r: Option<seq<byte>>)
    ensures r.Some? <==> |k| >= 32
    ensures r.Some? ==> r.value == RfcScalarBytes(k[..32])
  {
    var n := Min(|k|, 32);
    var clamped := new byte[n](i requires 0 <= i < n <= |k| => k[i]);
    if n < 32 {
      return None;
    }
    clamped[0] := And248(clamped[0]);
    clamped[31] := And63(clamped[31]);
    clamped[31] := Or64(clamped[31]);
    assert clamped[..] == RfcScalarBytes(k[..32]);
    return Some(clamped[..]);
  }

  lemma {:induction false} FromLEJoin(a: seq<byte>, b: seq<byte>)
    ensures FromLE(a + b) == FromLE(a) + Pow256(|a|) * FromLE(b)
  {
    if a == [] {
      assert a + b == b;
    } else {
      FromLEJoin(a[1..], b);
      assert (a + b)[1..] == a[1..] + b;
      assert 256 * (Pow256(|a| - 1) * FromLE(b)) == Pow256(|a|) * FromLE(b);
    }
  }

  /** The value of a byte string lies between multiples, given by its last byte, of the power of the others. */
  lemma TopByteBounds(c: seq<byte>)
    requires c != []
    ensures var p, top := Pow256(|c| - 1), c[|c| - 1] as int; p * top <= FromLE(c) < p * top + p
  {
    var low := c[..|c| - 1];
    var top := c[|c| - 1];
    assert c == low + [top];
    FromLEJoin(low, [top]);
    assert [top][1..] == [];
    ToFromLE(low);
  }

  const TWO_TO_254: nat := 0x40000000_00000000_00000000_00000000_00000000_00000000_00000000_00000000

  lemma ThirtyOneBytes(n: nat)
    requires n == 31
    ensures 64 * Pow256(n) == TWO_TO_254
  {
    assert Pow256(3) == 0x100_0000 && Pow256(4) == 0x1_0000_0000;
    Pow256Sum(4, 4);
    Pow256Sum(8, 8);
    Pow256Sum(16, 8);
    Pow256Sum(24, 4);
    Pow256Sum(28, 3);
  }

  /** A clamped scalar is a multiple of 8 in [2^254, 2^255), and clamping it again changes nothing. */
  lemma ClampedScalar(k: seq<byte>)
    requires |k| == 32
    ensures var c := RfcScalarBytes(k);
            && FromLE(c) % 8 == 0
            && TWO_TO_254 <= FromLE(c) < 2 * TWO_TO_254
            && RfcScalarBytes(c) == c
  {
    var c := RfcScalarBytes(k);
    LowBits(c);
    HighBits(c);
    ClampTwice(k);
  }

  /** Clamping clears the low three bits and the top bit, sets the second highest, and keeps every other bit. */
  lemma ClampKeepsRest(k: seq<byte>)
    requires |k| == 32
    ensures var c := RfcScalarBytes(k);
            && |c| == 32
            && (forall i :: 1 <= i < 31 ==> c[i] == k[i])
            && c[0] % 8 == 0 && c[0] / 8 == k[0] / 8
            && c[31] / 64 == 1 && c[31] % 64 == k[31] % 64
  {
  }

  lemma LowBits(c: seq<byte>)
    requires c != [] && c[0] % 8 == 0
    ensures FromLE(c) % 8 == 0
  {
    assert FromLE(c) == c[0] + 256 * FromLE(c[1..]);
  }

  lemma HighBits(c: seq<byte>)
    requires |c| == 32 && 64 <= c[31] < 128
    ensures TWO_TO_254 <= FromLE(c) < 2 * TWO_TO_254
  {
    TopByteBounds(c);
    ThirtyOneBytes(|c| - 1);
    TopByteRange(Pow256(|c| - 1), c[31]);
  }

  lemma TopByteRange(p: nat, top: int)
    requires 64 <= top <= 127
    ensures 64 * p <= p * top && p * top + p <= 128 * p
  {
  }

  lemma ClampedBytes(low: byte, high: byte)
    ensures And248(And248(low)) == And248(low)
    ensures Or64(And127(Or64(And127(high)))) == Or64(And127(high))
  {
    assert And248(low) % 8 == 0;
    var top := Or64(And127(high));
    assert 64 <= top < 128;
    assert And127(top) == top && Or64(top) == top;
  }

  lemma ClampTwice(k: seq<byte>)
    requires |k| == 32
    ensures RfcScalarBytes(RfcScalarBytes(k)) == RfcScalarBytes(k)
  {
    var c := RfcScalarBytes(k);
    ClampedBytes(k[0], k[31]);
    assert c[0 := c[0]][31 := c[31]] == c;
  }
}
