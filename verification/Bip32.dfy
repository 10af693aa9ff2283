/** Extended keys: roots, derivation and signatures. Hash functions, point encoding and the curve are parameters. */
module Bip32 {
  import opened Arith
  import opened Bip32Bytes
  import opened Group
  import opened MachineInts
  import opened ScalarLimbs
  import ScalarMulAdd
  import opened ScalarMultBase

  /** The hash functions, by their output lengths only. */
  datatype Hashes = Hashes(sha512: seq<byte> -> seq<byte>, hmac512: (seq<byte>, seq<byte>) -> seq<byte>, sha256: seq<byte> -> seq<byte>)

  ghost predicate IsHashes(h: Hashes) {
    && (forall m {:trigger h.sha512(m)} :: |h.sha512(m)| == 64)
    && (forall k, m {:trigger h.hmac512(k, m)} :: |h.hmac512(k, m)| == 64)
    && (forall m {:trigger h.sha256(m)} :: |h.sha256(m)| == 32)
  }

  /** The curve: a group with its table of base multiples and an encoding of points. */
  datatype Curve<!T> = Curve(g: Group<T>, table: Table<T>, encode: T -> seq<byte>)

  ghost predicate IsCurve<T(!new)>(c: Curve<T>, pointB: T) {
    IsAbelian(c.g) && IsBaseTable(c.g, c.table, n => Times(c.g, n, pointB)) && forall p {:trigger c.encode(p)} :: |c.encode(p)| == 32
  }

  // The private scalar, the left half of a key.

  /** A scalar as the root has it: a multiple of 8, the third highest bit clear, the second highest set. */
  ghost predicate IsRootScalar(n: int) {
    n % 8 == 0 && TWO_254 <= n < TWO_254 + TWO_254 / 2
  }

  ghost predicate IsScalar(n: int) {
    n % 8 == 0 && TWO_254 <= n < 2 * TWO_254
  }

  /** A scalar below 2^255 meets the precondition of the base multiplication. */
  lemma ScalarTopByte(s: seq<byte>)
    requires |s| == 32 && IsScalar(LittleEndian(s))
    ensures s[31] <= 127
  {
    hide LittleEndian;
    TopByte(s);
  }

  lemma RootBytes(s: seq<byte>)
    requires |s| == 32 && s[0] % 8 == 0 && 0x40 <= s[31] <= 0x5f
    ensures IsRootScalar(LittleEndian(s))
  {
    hide LittleEndian;
    TopByte(s);
    LittleEndianLow(s);
  }

  /** x & 0b1111_1000 */
  function ClearLow3(x: byte): byte {
    x - x % 8
  }

  /** x & 0b0101_1111 */
  function ClearBits7And5(x: byte): byte {
    x % 0x20 + x / 0x40 % 2 * 0x40
  }

  /** x | 0b0100_0000 */
  function SetBit6(x: byte): byte {
    if x / 0x40 % 2 == 1 then x else x + 0x40
  }

  /**
   * The left half that the comments describe for a hash: the lowest three bits and the highest cleared,
   * the second highest set. They discard a hash with the third highest bit set; the code clears that bit.
   */
  function Described(hash: seq<byte>): seq<byte>
    requires |hash| == 64
  {
    [hash[0] / 8 * 8] + hash[1..31] + [hash[31] % 0x40 + 0x40]
  }

  lemma RootTopByte(x: byte)
    ensures var y := SetBit6(ClearBits7And5(x));
      0x40 <= y <= 0x5f && y % 0x20 == x % 0x20 && (y == x % 0x40 + 0x40 <==> x / 0x20 % 2 == 0)
  {
  }

  lemma RootLowByte(x: byte)
    ensures ClearLow3(x) % 8 == 0 && ClearLow3(x) / 8 == x / 8 && ClearLow3(x) == x / 8 * 8
  {
  }

  /** The root key of a seed: the one described exactly if the third highest bit of the hash is clear. */
  method NewXPrv(seed: seq<byte>, h: Hashes) returns (key: seq<byte>, ok: bool)
    requires IsHashes(h)
    ensures ok == (|seed| == 32)
    ensures if !ok then key == [] else |key| == 96 && IsRootScalar(LittleEndian(key[..32]))
    ensures ok ==> var e := h.sha512(seed);
      key[1..31] == e[1..31] && key[32..64] == e[32..] && key[64..] == h.sha256([1] + seed)
      && key[0] / 8 == e[0] / 8 && key[31] % 0x20 == e[31] % 0x20
      && (key[..32] == Described(e) <==> e[31] / 0x20 % 2 == 0)
  {
    hide ClearLow3, ClearBits7And5, SetBit6, LittleEndian;
    if |seed| != 32 { return [], false; }
    RootLowByte(h.sha512(seed)[0]);
    RootTopByte(h.sha512(seed)[31]);
    ghost var hash := h.sha512(seed);
    var e := h.sha512(seed);
    e := e[0 := ClearLow3(e[0])];
    e := e[31 := ClearBits7And5(e[31])];
    e := e[31 := SetBit6(e[31])];
    RootBytes(e[..32]);
    var chainCode := h.sha256([1] + seed);
    key := e + chainCode;
    ok := true;
    assert key[..32] == [hash[0] / 8 * 8] + hash[1..31] + [key[31]];
    assert Described(hash)[31] == hash[31] % 0x40 + 0x40;
    assert key[..32] == e[..32] && key[1..31] == hash[1..31] && key[32..64] == hash[32..] && key[64..] == chainCode;
  }

  /** Forces the bits of a root in place. */
  method NormalizeBytesForce3rd(bytes: array<byte>)
    requires bytes.Length >= 32
    modifies bytes
    ensures IsRootScalar(LittleEndian(bytes[..32]))
    ensures bytes[0] / 8 == old(bytes[0]) / 8 && bytes[31] % 0x20 == old(bytes[31]) % 0x20
    ensures forall i {:trigger bytes[i]} :: 0 <= i < bytes.Length && i != 0 && i != 31 ==> bytes[i] == old(bytes[i])
  {
    bytes[0] := ClearLow3(bytes[0]);
    bytes[31] := bytes[31] % 0x20;
    bytes[31] := SetBit6(bytes[31]);
    RootBytes(bytes[..32]);
  }

  // Derivation.

  /** The left half of a child is that of the parent plus eight times a 224-bit number, modulo 2^256. */
  ghost predicate IsChild(parent: seq<byte>, child: seq<byte>) {
    |parent| == 96 && |child| == 96 &&
    exists z {:trigger 8 * z} :: 0 <= z < TWO_256 / 0x1_0000_0000 && LittleEndian(child[..32]) == (LittleEndian(parent[..32]) + 8 * z) % TWO_256
  }

  /** After i steps from a root there are still (2^26 - i) steps to go. */
  ghost predicate HasRoom(n: int, i: int) {
    n % 8 == 0 && TWO_254 <= n < TWO_254 + TWO_254 / 2 + i * (TWO_256 / 0x2000_0000)
  }

  lemma ChildHasRoom(n: int, z: int, i: nat)
    requires HasRoom(n, i) && i < 0x400_0000 && 0 <= z < TWO_256 / 0x1_0000_0000
    ensures HasRoom((n + 8 * z) % TWO_256, i + 1)
  {
    MulMono(i + 1, 0x400_0000, TWO_256 / 0x2000_0000);
    assert (i + 1) * (TWO_256 / 0x2000_0000) == i * (TWO_256 / 0x2000_0000) + TWO_256 / 0x2000_0000;
    DivAdd(n + 8 * z, n, 8, z);
  }

  lemma RoomIsScalar(n: int, i: nat)
    requires HasRoom(n, i) && i <= 0x400_0000
    ensures IsScalar(n)
  {
    MulMono(i, 0x400_0000, TWO_256 / 0x2000_0000);
  }

  /** A run of derivations. */
  ghost predicate IsPath(keys: seq<seq<byte>>) {
    forall i {:trigger keys[i]} :: 0 < i < |keys| ==> IsChild(keys[i - 1], keys[i])
  }

  lemma {:induction false} PathHasRoom(keys: seq<seq<byte>>, i: nat)
    requires IsPath(keys) && i < |keys| <= 0x400_0001 && |keys[0]| == 96 && IsRootScalar(LittleEndian(keys[0][..32]))
    ensures |keys[i]| == 96 && HasRoom(LittleEndian(keys[i][..32]), i)
  {
    hide LittleEndian;
    if i > 0 {
      PathHasRoom(keys, i - 1);
      assert IsChild(keys[i - 1], keys[i]);
      var z :| 0 <= z < TWO_256 / 0x1_0000_0000 && LittleEndian(keys[i][..32]) == (LittleEndian(keys[i - 1][..32]) + 8 * z) % TWO_256;
      ChildHasRoom(LittleEndian(keys[i - 1][..32]), z, i - 1);
    }
  }

  /**
   * In every run of up to 2^26 derivations from a root the left half stays a multiple of 8 in
   * [2^254, 2^255), so the precondition of the base multiplication holds for every key of the run.
   */
  lemma PathKeepsScalars(keys: seq<seq<byte>>, i: nat)
    requires IsPath(keys) && i < |keys| <= 0x400_0001 && |keys[0]| == 96 && IsRootScalar(LittleEndian(keys[0][..32]))
    ensures |keys[i]| == 96 && IsScalar(LittleEndian(keys[i][..32])) && keys[i][31] <= 127
  {
    hide LittleEndian;
    PathHasRoom(keys, i);
    RoomIsScalar(LittleEndian(keys[i][..32]), i);
    ScalarTopByte(keys[i][..32]);
  }

  /** The public key: the encoding of the private scalar times the base point. */
  method MakePublicKey<T(!new)>(c: Curve<T>, extendedSecret: seq<byte>, ghost pointB: T) returns (result: seq<byte>)
    requires IsCurve(c, pointB) && |extendedSecret| >= 32 && extendedSecret[31] <= 127
    ensures |result| == 32 && result == c.encode(Times(c.g, LittleEndian(extendedSecret[..32]), pointB))
  {
    hide LittleEndian, Times, IsBaseTable, IsAbelian;
    var key := ArrayOf(extendedSecret[..32]);
    var h := GeScalarMultBase(c.g, c.table, key, pointB);
    result := c.encode(h);
  }

  method ArrayOf(s: seq<byte>) returns (a: array<byte>)
    ensures fresh(a) && a[..] == s
  {
    a := new byte[|s|](i requires 0 <= i < |s| => s[i]);
  }

  function SerializedIndex(index: uint32): seq<byte> {
    [index % 0x100, index / 0x100 % 0x100, index / 0x1_0000 % 0x100, index / 0x100_0000]
  }

  /** The index is written in four bytes, the least significant first. */
  lemma IndexIsLittleEndian(index: uint32)
    ensures |SerializedIndex(index)| == 4 && LittleEndian(SerializedIndex(index)) == index
  {
    FourBytes(index % 0x100, index / 0x100 % 0x100, index / 0x1_0000 % 0x100, index / 0x100_0000);
    DigitsOfIndex(index);
  }

  lemma FourBytes(a: byte, b: byte, c: byte, d: byte)
    ensures LittleEndian([a, b, c, d]) == a as int + 0x100 * b as int + 0x1_0000 * c as int + 0x100_0000 * d as int
  {
    assert [a, b, c, d][1..] == [b, c, d] && [b, c, d][1..] == [c, d] && [c, d][1..] == [d];
    assert LittleEndian([d]) == d;
    assert LittleEndian([c, d]) == c as int + 0x100 * d as int;
  }

  lemma DigitsOfIndex(index: uint32)
    ensures index == index % 0x100 + 0x100 * (index / 0x100 % 0x100) + 0x1_0000 * (index / 0x1_0000 % 0x100) + 0x100_0000 * (index / 0x100_0000)
  {
    var q := index / 0x100;
    assert q / 0x100 == index / 0x1_0000 && q / 0x100 / 0x100 == index / 0x100_0000;
  }

  /** What is hashed for a child: the private key if the index is hardened, else the public key. */
  ghost function ChildMessage<T>(c: Curve<T>, key: seq<byte>, index: uint32, pointB: T, tag: byte): seq<byte>
    requires |key| == 96 && tag <= 1
  {
    (if index >= 0x8000_0000 then [tag] + key[..64] else [tag + 2] + c.encode(Times(c.g, LittleEndian(key[..32]), pointB))) + SerializedIndex(index)
  }

  /** Under one parent every child and every one of the two hashes has a message of its own. */
  lemma MessagesDiffer<T(!new)>(c: Curve<T>, key: seq<byte>, i: uint32, j: uint32, pointB: T, s: byte, t: byte)
    requires IsCurve(c, pointB) && |key| == 96 && s <= 1 && t <= 1
    ensures ChildMessage(c, key, i, pointB, s) == ChildMessage(c, key, j, pointB, t) ==> i == j && s == t
  {
    hide LittleEndian, Times, IsBaseTable, IsAbelian, SerializedIndex;
    IndexIsLittleEndian(i);
    IndexIsLittleEndian(j);
    var a, b := ChildMessage(c, key, i, pointB, s), ChildMessage(c, key, j, pointB, t);
    if a == b {
      assert a[0] == b[0];
      assert a[|a| - 4..] == SerializedIndex(i) && b[|b| - 4..] == SerializedIndex(j);
    }
  }

  /** The parts of a message: a hardened child (index from 2^31 on) hashes the private key, another one the public key. */
  lemma MessageParts<T(!new)>(c: Curve<T>, key: seq<byte>, index: uint32, pointB: T, tag: byte)
    requires IsCurve(c, pointB) && |key| == 96 && tag <= 1
    ensures var m := ChildMessage(c, key, index, pointB, tag);
      if index >= 0x8000_0000 then |m| == 69 && m[0] == tag && m[1..65] == key[..64] && LittleEndian(m[65..]) == index
      else |m| == 37 && m[0] == tag + 2 && m[1..33] == c.encode(Times(c.g, LittleEndian(key[..32]), pointB)) && LittleEndian(m[33..]) == index
  {
    hide LittleEndian, Times, IsBaseTable, IsAbelian, SerializedIndex;
    IndexIsLittleEndian(index);
    var m := ChildMessage(c, key, index, pointB, tag);
    assert m[|m| - 4..] == SerializedIndex(index);
  }

  /** The child key at an index. */
  method Derive<T(!new)>(c: Curve<T>, h: Hashes, key: seq<byte>, index: uint32, ghost pointB: T) returns (out: seq<byte>)
    requires IsCurve(c, pointB) && IsHashes(h) && |key| == 96 && (index < 0x8000_0000 ==> key[31] <= 127)
    ensures |out| == 96 && IsChild(key, out)
    ensures var z := h.hmac512(key[64..], ChildMessage(c, key, index, pointB, 0));
      && LittleEndian(out[..32]) == (LittleEndian(key[..32]) + 8 * LittleEndian(z[..28])) % TWO_256
      && LittleEndian(out[32..64]) == (LittleEndian(key[32..64]) + LittleEndian(z[32..])) % TWO_256
    ensures out[64..] == h.hmac512(key[64..], ChildMessage(c, key, index, pointB, 1))[32..]
  {
    hide LittleEndian, Times, IsBaseTable, IsAbelian;
    var serializedIndex := SerializedIndex(index);
    var zmac, imac: seq<byte>;
    if index >= 0x8000_0000 {
      zmac := [0] + key[..64] + serializedIndex;
      imac := [1] + key[..64] + serializedIndex;
    } else {
      assert key[..64][..32] == key[..32];
      var pk := MakePublicKey(c, key[..64], pointB);
      zmac := [2] + pk + serializedIndex;
      imac := [3] + pk + serializedIndex;
    }
    var zout := h.hmac512(key[64..], zmac);
    var iout := h.hmac512(key[64..], imac);
    var left := Add28Mul8(key[..32], zout[..32]);
    var right := Add256Bits(key[32..64], zout[32..64]);
    out := left + right + iout[32..];
    assert zout[..32][..28] == zout[..28] && zout[32..64] == zout[32..];
    assert out[..32] == left && out[32..64] == right && out[64..] == iout[32..];
    ChildBound(zout[..28]);
    assert LittleEndian(out[..32]) == (LittleEndian(key[..32]) + 8 * LittleEndian(zout[..28])) % TWO_256;
  }

  lemma ChildBound(z: seq<byte>)
    requires |z| == 28
    ensures LittleEndian(z) < TWO_256 / 0x1_0000_0000
  {
    hide LittleEndian, Two;
    LittleEndianBound(z);
    BigTwos(248, 256, 8 * 28);
  }

  // Signatures (sections 5.1.6 and 5.1.7 of RFC 8032).

  /** A hash as a scalar. */
  ghost function HashScalar(hash: seq<byte>): nat {
    LittleEndian(hash) % L
  }

  /** What verification checks, for the public key that encodes `pointA`: S is reduced and S * B = R + k * A. */
  ghost predicate Verifies<T(!new)>(c: Curve<T>, h: Hashes, pointA: T, message: seq<byte>, signature: seq<byte>, pointB: T) {
    |signature| == 64 && 0 <= LittleEndian(signature[32..]) < L &&
    var k := HashScalar(h.sha512(signature[..32] + c.encode(pointA) + message));
    exists r {:trigger c.encode(r)} :: c.encode(r) == signature[..32] &&
      Times(c.g, LittleEndian(signature[32..]), pointB) == c.g.add(r, Times(c.g, k, pointA))
  }

  /** Signs a message: R followed by S. For a base point of order L the signature verifies under the public key. */
  method Sign<T(!new)>(c: Curve<T>, h: Hashes, prv: seq<byte>, message: seq<byte>, ghost pointB: T) returns (signature: seq<byte>)
    requires IsCurve(c, pointB) && IsHashes(h) && |prv| >= 64 && prv[31] <= 127
    ensures |signature| == 64
    ensures var a, nonce := LittleEndian(prv[..32]), HashScalar(h.sha512(prv[32..64] + message));
      var r, pk := c.encode(Times(c.g, nonce, pointB)), c.encode(Times(c.g, a, pointB));
      signature[..32] == r && LittleEndian(signature[32..]) == (HashScalar(h.sha512(r + pk + message)) * a + nonce) % L
    ensures Times(c.g, L, pointB) == c.g.zero ==> Verifies(c, h, Times(c.g, LittleEndian(prv[..32]), pointB), message, signature, pointB)
  {
    hide LittleEndian, Times, IsBaseTable, IsAbelian, Verifies;
    var publicKey := MakePublicKey(c, prv, pointB);
    var nonce := HashToScalar(h, prv[32..64] + message);
    ReducedTopByte(nonce[..]);
    var point := GeScalarMultBase(c.g, c.table, nonce, pointB);
    var r := c.encode(point);
    signature := r + publicKey;
    var hramReduced := HashToScalar(h, signature + message);
    assert signature[32..64] == publicKey;
    var s := ArrayOf(signature[32..64]);
    var b := ArrayOf(prv[..32]);
    ScalarMulAdd.ScMulAdd(s, hramReduced, b, nonce);
    signature := signature[..32] + s[..];
    SignedVerifies(c, h, prv, message, signature, pointB);
  }

  lemma SignedVerifies<T(!new)>(c: Curve<T>, h: Hashes, prv: seq<byte>, message: seq<byte>, signature: seq<byte>, pointB: T)
    requires IsCurve(c, pointB) && |prv| >= 64 && |signature| == 64
    requires var a, nonce := LittleEndian(prv[..32]), HashScalar(h.sha512(prv[32..64] + message));
      var r, pk := c.encode(Times(c.g, nonce, pointB)), c.encode(Times(c.g, a, pointB));
      signature[..32] == r && LittleEndian(signature[32..]) == (HashScalar(h.sha512(r + pk + message)) * a + nonce) % L
    ensures Times(c.g, L, pointB) == c.g.zero ==> Verifies(c, h, Times(c.g, LittleEndian(prv[..32]), pointB), message, signature, pointB)
  {
    hide Times, IsBaseTable, IsAbelian, LittleEndian;
    var a, nonce, s := LittleEndian(prv[..32]), HashScalar(h.sha512(prv[32..64] + message)), LittleEndian(signature[32..]);
    var pointR, pointA := Times(c.g, nonce, pointB), Times(c.g, a, pointB);
    var k := HashScalar(h.sha512(signature[..32] + c.encode(pointA) + message));
    if Times(c.g, L, pointB) == c.g.zero {
      SignatureVerifies(c.g, pointB, a, nonce, k, s);
      assert c.encode(pointR) == signature[..32];
    }
  }

  /** A SHA-512 hash as a scalar. */
  method HashToScalar(h: Hashes, message: seq<byte>) returns (out: array<byte>)
    requires IsHashes(h)
    ensures fresh(out) && out.Length == 32 && LittleEndian(out[..]) == LittleEndian(h.sha512(message)) % L
  {
    hide LittleEndian;
    var hashFull := ArrayOf(h.sha512(message));
    out := new byte[32];
    ScalarMulAdd.ScReduce(out, hashFull);
  }

  /** A reduced scalar meets the precondition of the base multiplication. */
  lemma ReducedTopByte(s: seq<byte>)
    requires |s| == 32 && LittleEndian(s) < L
    ensures s[31] <= 127
  {
    hide LittleEndian;
    TopByte(s);
  }

  /** k * (m * x) = (k * m) * x. */
  lemma {:induction false} TimesTimes<T(!new)>(g: Group<T>, k: nat, m: int, x: T)
    requires IsAbelian(g)
    ensures Times(g, k * m, x) == Times(g, k, Times(g, m, x))
  {
    if k > 0 {
      TimesTimes(g, k - 1, m, x);
      assert k * m == (k - 1) * m + m;
      TimesAdd(g, (k - 1) * m, m, x);
      TimesNext(g, k - 1, Times(g, m, x));
    }
  }

  lemma {:induction false} TimesZero<T(!new)>(g: Group<T>, k: nat)
    requires IsAbelian(g)
    ensures Times(g, k, g.zero) == g.zero
  {
    if k > 0 {
      TimesZero(g, k - 1);
      assert Neutral(g, g.zero);
    }
  }

  /** A multiple of a point of order L depends on the factor modulo L only. */
  lemma TimesMod<T(!new)>(g: Group<T>, n: nat, x: T)
    requires IsAbelian(g) && Times(g, L, x) == g.zero
    ensures Times(g, n % L, x) == Times(g, n, x)
  {
    hide Times, IsAbelian;
    var q := n / L;
    assert q * L + n % L == n;
    TimesTimes(g, q, L, x);
    TimesZero(g, q);
    TimesAdd(g, q * L, n % L, x);
    var y := Times(g, n % L, x);
    assert g.add(g.zero, y) == y by { ZeroLeft(g, y); }
  }

  lemma ZeroLeft<T(!new)>(g: Group<T>, y: T)
    requires IsAbelian(g)
    ensures g.add(g.zero, y) == y
  {
    assert Commutes(g, g.zero, y) && Neutral(g, y);
  }

  /** The equation that verification checks: S * B = R + k * A, for a base point of order L. */
  lemma SignatureVerifies<T(!new)>(g: Group<T>, pointB: T, a: nat, nonce: nat, k: nat, s: nat)
    requires IsAbelian(g) && Times(g, L, pointB) == g.zero && s == (k * a + nonce) % L
    ensures Times(g, s, pointB) == g.add(Times(g, nonce, pointB), Times(g, k, Times(g, a, pointB)))
  {
    hide Times, IsAbelian;
    MulMono(0, k, a);
    TimesMod(g, k * a + nonce, pointB);
    TimesAdd(g, k * a, nonce, pointB);
    TimesTimes(g, k, a, pointB);
    assert Commutes(g, Times(g, nonce, pointB), Times(g, k, Times(g, a, pointB))) by { Commute(g, Times(g, nonce, pointB), Times(g, k, Times(g, a, pointB))); }
  }

  lemma Commute<T(!new)>(g: Group<T>, x: T, y: T)
    requires IsAbelian(g)
    ensures Commutes(g, x, y)
  {
  }
}
