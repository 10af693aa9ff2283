/** Pointer addresses: a header, a credential and three numbers of variable length. */
module PointerAddress {
  import opened Arith
  import opened MachineInts
  import opened Wrappers

  // Numbers of variable length: base 128, most significant digit first, all digits but the last marked.

  const MARK := 0x80

  /** The marked digits in front of the last one. */
  function Leading(n: nat): (s: seq<byte>) {
    if n == 0 then [] else Leading(n / 0x80) + [n % 0x80 + MARK]
  }

  function VarNat(n: nat): (s: seq<byte>)
    ensures |s| >= 1
  {
    Leading(n / 0x80) + [n % 0x80]
  }

  /** The number that digits stand for, marked or not. */
  function Base128(s: seq<byte>): nat {
    if s == [] then 0 else 0x80 * Base128(s[..|s| - 1]) + s[|s| - 1] % 0x80
  }

  /** How many bytes come before the first unmarked one. */
  function MarkedPrefix(s: seq<byte>): (k: nat)
    ensures k <= |s|
    ensures k < |s| ==> s[k] < MARK
    ensures forall i {:trigger s[i]} :: 0 <= i < k ==> s[i] >= MARK
  {
    if s == [] || s[0] < MARK then 0 else 1 + MarkedPrefix(s[1..])
  }

  /** The number at the front and its length; `None` if no byte ends it. The number wraps at 64 bits. */
  function ReadNat(s: seq<byte>): Option<(nat, nat)> {
    var k := MarkedPrefix(s);
    if k == |s| then None else Some((Base128(s[..k + 1]) % 0x1_0000_0000_0000_0000, k + 1))
  }

  lemma BaseAppend(s: seq<byte>, x: byte)
    ensures Base128(s + [x]) == 0x80 * Base128(s) + x % 0x80
  {
    assert (s + [x])[..|s|] == s;
  }

  lemma {:induction false} LeadingIsMarked(n: nat)
    ensures forall i {:trigger Leading(n)[i]} :: 0 <= i < |Leading(n)| ==> Leading(n)[i] >= MARK
    ensures Base128(Leading(n)) == n && (Leading(n) == [] <==> n == 0)
    ensures n > 0 ==> Leading(n)[0] != MARK
  {
    hide Base128;
    if n > 0 {
      LeadingIsMarked(n / 0x80);
      BaseAppend(Leading(n / 0x80), n % 0x80 + MARK);
    } else {
      BaseOfNone();
    }
  }

  lemma BaseOfNone()
    ensures Base128([]) == 0
  {
  }

  lemma VarNatBase(n: nat)
    ensures Base128(VarNat(n)) == n
  {
    hide Base128, Leading;
    LeadingIsMarked(n / 0x80);
    BaseAppend(Leading(n / 0x80), n % 0x80);
  }

  lemma {:induction false} PrefixIs(s: seq<byte>, k: nat)
    requires k < |s| && s[k] < MARK && forall i {:trigger s[i]} :: 0 <= i < k ==> s[i] >= MARK
    ensures MarkedPrefix(s) == k
  {
  }

  /** A number followed by anything is read back, with its exact length. */
  lemma ReadVarNat(n: nat, rest: seq<byte>)
    requires n < 0x1_0000_0000_0000_0000
    ensures ReadNat(VarNat(n) + rest) == Some((n, |VarNat(n)|))
  {
    hide Base128, Leading, MarkedPrefix;
    var lead, s := Leading(n / 0x80), VarNat(n) + rest;
    LeadingIsMarked(n / 0x80);
    forall i {:trigger s[i]} | 0 <= i < |lead| ensures s[i] >= MARK { assert s[i] == lead[i]; }
    PrefixIs(s, |lead|);
    assert s[..|lead| + 1] == VarNat(n);
    VarNatBase(n);
  }

  lemma LeadingAppend(n: nat, m: nat, x: byte)
    requires x >= MARK && n == 0x80 * m + x % 0x80 && n > 0
    ensures Leading(n) == Leading(m) + [x]
  {
    assert n / 0x80 == m && n % 0x80 + MARK == x;
  }

  /** Marked digits are the leading digits of their number unless they start with a zero digit. */
  lemma {:induction false} LeadingOfBase(s: seq<byte>)
    requires forall i {:trigger s[i]} :: 0 <= i < |s| ==> s[i] >= MARK
    ensures Leading(Base128(s)) == s <==> s == [] || s[0] != MARK
    ensures s != [] && s[0] != MARK ==> Base128(s) > 0
  {
    hide Base128, Leading;
    if s != [] {
      var t, x := s[..|s| - 1], s[|s| - 1];
      assert s == t + [x];
      LeadingOfBase(t);
      BaseAppend(t, x);
      LeadingIsMarked(Base128(s));
      if t == [] { BaseOfNone(); } else { assert t[0] == s[0]; }
      if s[0] != MARK {
        assert x % 0x80 > 0 || t != [];
        LeadingAppend(Base128(s), Base128(t), x);
        if t == [] { LeadingIsMarked(0); }
      }
    } else {
      BaseOfNone();
      LeadingIsMarked(0);
    }
  }

  lemma LastOfVarNat(m: nat, lead: seq<byte>, x: byte)
    requires x < MARK && m == 0x80 * Base128(lead) + x % 0x80
    ensures VarNat(m) == Leading(Base128(lead)) + [x]
  {
    hide Base128, Leading;
    assert m / 0x80 == Base128(lead) && m % 0x80 == x;
  }

  /**
   * A number that was read is spelled in the canonical way exactly if it fits into 64 bits and its
   * first digit is not zero (a single digit may be).
   */
  lemma CanonicalNat(s: seq<byte>)
    requires ReadNat(s).Some?
    ensures var (n, k) := ReadNat(s).value;
      0 < k <= |s| && (VarNat(n) == s[..k] <==> s[0] != MARK && Base128(s[..k]) < 0x1_0000_0000_0000_0000)
  {
    hide Base128, Leading, VarNat, MarkedPrefix;
    var (n, k) := ReadNat(s).value;
    var lead, x := s[..k - 1], s[k - 1];
    assert s[..k] == lead + [x];
    BaseAppend(lead, x);
    LeadingOfBase(lead);
    LastOfVarNat(Base128(s[..k]), lead, x);
    VarNatBase(n);
    if lead != [] { assert lead[0] == s[0]; }
    if VarNat(n) == s[..k] && n == Base128(s[..k]) { assert Leading(Base128(lead)) + [x] == lead + [x]; SameLead(Leading(Base128(lead)), lead, x); }
  }

  lemma SameLead(a: seq<byte>, b: seq<byte>, x: byte)
    requires a + [x] == b + [x]
    ensures a == b
  {
    assert a == (a + [x])[..|a + [x]| - 1] == (b + [x])[..|b + [x]| - 1] == b;
  }

  /** Reverses an array in place. */
  method ReverseAny(a: array<byte>)
    modifies a
    ensures forall k {:trigger a[k]} :: 0 <= k < a.Length ==> a[k] == old(a[a.Length - 1 - k])
  {
    var i, j := 0, a.Length - 1;
    while i < j
      invariant 0 <= i <= a.Length && j == a.Length - 1 - i
      invariant forall k {:trigger a[k]} :: 0 <= k < i ==> a[k] == old(a[a.Length - 1 - k])
      invariant forall k {:trigger a[k]} :: j < k < a.Length ==> a[k] == old(a[a.Length - 1 - k])
      invariant forall k {:trigger a[k]} :: i <= k <= j ==> a[k] == old(a[k])
    {
      a[i], a[j] := a[j], a[i];
      i, j := i + 1, j - 1;
    }
  }

  function Reversed(s: seq<byte>): (r: seq<byte>)
    ensures |r| == |s|
  {
    seq(|s|, i requires 0 <= i < |s| => s[|s| - 1 - i])
  }

  lemma ReversedAppend(s: seq<byte>, x: byte)
    ensures Reversed(s + [x]) == [x] + Reversed(s)
  {
  }

  lemma NextDigit(num: nat, before: seq<byte>, digit: byte)
    requires num > 0 && digit == num % 0x80 + MARK
    ensures Leading(num) + Reversed(before) == Leading(num / 0x80) + Reversed(before + [digit])
  {
    ReversedAppend(before, digit);
    assert Leading(num) == Leading(num / 0x80) + [digit];
  }

  method VariableNatEncode(num0: uint64) returns (r: seq<byte>)
    ensures r == VarNat(num0)
  {
    hide Leading, Reversed;
    var num := num0;
    LowDigit(num);
    var output: seq<byte> := [num % 0x100 % 0x80];
    num := num / 128;
    OneReversed(output[0]);
    while num > 0
      invariant 0 <= num && Leading(num) + Reversed(output) == VarNat(num0)
    {
      LowDigit(num);
      var digit: byte := num % 0x100 % 0x80 + 0x80;
      NextDigit(num, output, digit);
      output := output + [digit];
      num := num / 128;
    }
    NoLeading(Reversed(output));
    r := ReverseAll(output);
  }

  lemma LowDigit(n: nat)
    ensures n % 0x100 % 0x80 == n % 0x80
  {
  }

  lemma OneReversed(x: byte)
    ensures Reversed([x]) == [x]
  {
  }

  lemma NoLeading(s: seq<byte>)
    ensures Leading(0) + s == s
  {
  }

  /** The bytes appended to an output buffer, put in reverse. */
  method ReverseAll(output: seq<byte>) returns (r: seq<byte>)
    ensures r == Reversed(output)
  {
    var a := new byte[|output|](i requires 0 <= i < |output| => output[i]);
    ReverseAny(a);
    r := a[..];
    assert forall k {:trigger r[k]} :: 0 <= k < |r| ==> r[k] == a[k] == output[|output| - 1 - k];
  }

  /** Reads a number; shifting left by seven bits drops what does not fit into 64. */
  method VariableNatDecode(raw: seq<byte>) returns (output: uint64, bytesRead: nat, ok: bool)
    ensures ok == ReadNat(raw).Some?
    ensures if ok then ReadNat(raw) == Some((output, bytesRead)) else output == 0 && bytesRead == 0
  {
    output, bytesRead := 0, 0;
    for i := 0 to |raw|
      invariant bytesRead == i && output == Base128(raw[..i]) % 0x1_0000_0000_0000_0000
      invariant forall k {:trigger raw[k]} :: 0 <= k < i ==> raw[k] >= MARK
    {
      var rbyte := raw[i];
      assert raw[..i + 1][..i] == raw[..i];
      WrappedStep(Base128(raw[..i]), rbyte % 0x80);
      output := OrDisjoint(rbyte % 0x80, output as int * 0x80 % 0x1_0000_0000_0000_0000, 0x80);
      bytesRead := bytesRead + 1;
      if rbyte < 0x80 {
        PrefixIs(raw, i);
        return output, bytesRead, true;
      }
    }
    assert MarkedPrefix(raw) == |raw|;
    return 0, 0, false;
  }

  lemma WrappedStep(m: nat, x: nat)
    requires x < 0x80
    ensures m % 0x1_0000_0000_0000_0000 * 0x80 % 0x1_0000_0000_0000_0000 % 0x80 == 0
    ensures m % 0x1_0000_0000_0000_0000 * 0x80 % 0x1_0000_0000_0000_0000 + x == (0x80 * m + x) % 0x1_0000_0000_0000_0000
  {
    // With m = 2^64 q + 2^57 u + r the shift keeps r only.
    var q, u, r := m / 0x1_0000_0000_0000_0000, m % 0x1_0000_0000_0000_0000 / 0x200_0000_0000_0000, m % 0x200_0000_0000_0000;
    assert m == 0x1_0000_0000_0000_0000 * q + 0x200_0000_0000_0000 * u + r;
    DivUnique(m % 0x1_0000_0000_0000_0000 * 0x80, 0x1_0000_0000_0000_0000, u, 0x80 * r);
    DivUnique(0x80 * m + x, 0x1_0000_0000_0000_0000, 0x80 * q + u, 0x80 * r + x);
  }

  // Addresses.

  datatype Network = Network(id: byte, magic: uint32)
  datatype Kind = KeyHash | ScriptHash
  datatype Credential = Credential(kind: Kind, payload: seq<byte>)
  datatype Pointer = Pointer(slot: uint64, txIndex: uint64, certIndex: uint64)
  datatype Address = Address(network: Network, payment: Credential, stake: Pointer)

  const MAIN_NET := Network(1, 764824073)
  const TEST_NET := Network(0, 1097911063)
  /** What the lookup of an unknown network gives. */
  const NO_NETWORK := Network(0, 0)

  function NetworkOf(id: byte): Network {
    if id == 1 then MAIN_NET else if id == 0 then TEST_NET else NO_NETWORK
  }

  /** The addresses that are not pointer addresses are told apart by type only; indexing past the end is a panic. */
  datatype Result = Read(address: Address) | OtherType(typ: nat) | TooShort | BadNumber | TrailingData | Unsupported | Panic

  function HeaderOf(p: Address): byte {
    0x40 + (if p.payment.kind == KeyHash then 0 else 0x10) + p.network.id % 0x10
  }

  function BytesOf(p: Address): seq<byte> {
    [HeaderOf(p)] + p.payment.payload + VarNat(p.stake.slot) + VarNat(p.stake.txIndex) + VarNat(p.stake.certIndex)
  }

  function ReadPointer(data: seq<byte>): Result
    requires |data| > 0
  {
    if |data| < 32 then TooShort else
    var kind := if data[0] / 0x10 % 2 == 0 then KeyHash else ScriptHash;
    match ReadNat(data[29..])
    case None => BadNumber
    case Some((slot, a)) =>
      match ReadNat(data[29 + a..])
      case None => BadNumber
      case Some((txIndex, b)) =>
        match ReadNat(data[29 + a + b..])
        case None => BadNumber
        case Some((certIndex, c)) =>
          if 29 + a + b + c < |data| then TrailingData
          else Read(Address(NetworkOf(data[0] % 0x10), Credential(kind, data[1..29]), Pointer(slot, txIndex, certIndex)))
  }

  function ReadAddress(data: seq<byte>): Result {
    if data == [] then Panic else
    var typ := data[0] / 0x10;
    if typ == 8 then OtherType(8)
    else if typ <= 3 then if |data| < 57 then Panic else OtherType(typ)
    else if typ == 4 || typ == 5 then ReadPointer(data)
    else if typ == 6 || typ == 7 || typ == 14 || typ == 15 then
      if |data| < 29 then TooShort else if |data| > 29 then TrailingData else OtherType(typ)
    else Unsupported
  }

  predicate KnownNetwork(n: Network) {
    n == MAIN_NET || n == TEST_NET
  }

  /** The address that is read from the bytes of an address is that address. */
  lemma AddressRoundTrip(p: Address)
    requires KnownNetwork(p.network) && |p.payment.payload| == 28
    ensures ReadAddress(BytesOf(p)) == Read(p)
  {
    hide VarNat, ReadNat;
    var data := BytesOf(p);
    var x, y, z := VarNat(p.stake.slot), VarNat(p.stake.txIndex), VarNat(p.stake.certIndex);
    ReadVarNat(p.stake.slot, y + z);
    ReadVarNat(p.stake.txIndex, z);
    ReadVarNat(p.stake.certIndex, []);
    assert data[1..29] == p.payment.payload;
    assert data[29..] == x + (y + z);
    assert data[29 + |x|..] == y + z;
    assert data[29 + |x| + |y|..] == z + [];
  }

  /** The number at the front does not start with a zero digit and fits into 64 bits. */
  predicate StartsCanonically(s: seq<byte>) {
    var k := MarkedPrefix(s);
    k < |s| && s[0] != MARK && Base128(s[..k + 1]) < 0x1_0000_0000_0000_0000
  }

  /** How many bytes the number at `off` takes. */
  function NumberEnd(data: seq<byte>, off: nat): (end: nat)
    ensures end > off
  {
    off + (if off <= |data| then MarkedPrefix(data[off..]) else 0) + 1
  }

  /** The three numbers of a pointer address are spelled in the canonical way. */
  predicate CanonicalNumbers(data: seq<byte>) {
    var second := NumberEnd(data, 29);
    var third := NumberEnd(data, second);
    && 29 <= |data| && StartsCanonically(data[29..])
    && second <= |data| && StartsCanonically(data[second..])
    && third <= |data| && StartsCanonically(data[third..])
  }

  /**
   * The bytes an address was read from are its bytes exactly if the network is known and each of the
   * three numbers starts with a digit that is not a marked zero and fits into 64 bits.
   */
  lemma BytesOfRead(data: seq<byte>)
    requires ReadAddress(data).Read?
    ensures BytesOf(ReadAddress(data).address) == data <==> data[0] % 0x10 <= 1 && CanonicalNumbers(data)
  {
    hide VarNat, ReadNat, StartsCanonically, MarkedPrefix, NumberEnd;
    var p := ReadAddress(data).address;
    var x, y, z := VarNat(p.stake.slot), VarNat(p.stake.txIndex), VarNat(p.stake.certIndex);
    var second := NumberEnd(data, 29);
    var third := NumberEnd(data, second);
    ThreeNumbers(data, p);
    assert BytesOf(p) == ([HeaderOf(p)] + data[1..29]) + (x + (y + z));
    assert data == ([data[0]] + data[1..29]) + data[29..];
    if BytesOf(p) == data { assert BytesOf(p)[29..] == x + (y + z) && BytesOf(p)[0] == HeaderOf(p); }
    NumberInFront(data[29..], p.stake.slot, second - 29, y + z);
    NumberInFront(data[second..], p.stake.txIndex, third - second, z);
    NumberInFront(data[third..], p.stake.certIndex, |data| - third, []);
    assert data[29..][second - 29..] == data[second..] && data[second..][third - second..] == data[third..];
    assert data[third..][|data| - third..] == [] && z + [] == z;
  }

  /** Bytes that start with a number are its digits and `rest` exactly if that number is canonical and `rest` follows. */
  lemma NumberInFront(s: seq<byte>, n: uint64, k: nat, rest: seq<byte>)
    requires ReadNat(s) == Some((n, k))
    ensures k <= |s| && (s == VarNat(n) + rest <==> StartsCanonically(s) && s[k..] == rest)
  {
    hide VarNat, MarkedPrefix, Base128;
    CanonicalNat(s);
    assert s == s[..k] + s[k..];
    if s == VarNat(n) + rest {
      ReadVarNat(n, rest);
      assert s[..k] == VarNat(n) && s[k..] == rest;
    }
  }

  /** The first digit weighs most: 128 to the number of digits after it. */
  lemma {:induction false} FirstDigitWeighsMost(x: byte, s: seq<byte>)
    ensures Base128([x] + s) == x % 0x80 * Two(7 * |s|) + Base128(s)
  {
    if s == [] {
      BaseOfNone();
      BaseAppend([], x);
      assert [x] + [] == [] + [x] && Two(0) == 1;
    } else {
      hide Base128;
      var u, y := s[..|s| - 1], s[|s| - 1];
      assert s == u + [y] && [x] + s == ([x] + u) + [y];
      FirstDigitWeighsMost(x, u);
      BaseAppend(u, y);
      BaseAppend([x] + u, y);
      SevenMore(|u|);
      MulAssoc(0x80, Two(7 * |u|), Two(7 * |s|), x % 0x80);
    }
  }

  lemma SevenMore(n: nat)
    ensures Two(7 * (n + 1)) == 0x80 * Two(7 * n)
  {
    TwoAdd(7, 7 * n);
    TwoValues();
    assert 7 * (n + 1) == 7 + 7 * n;
  }

  /** The digits of a number in front of a known next digit. */
  lemma OneMoreDigit(n: nat, q: nat)
    requires n > 0 && q == n / 0x80
    ensures Leading(n) == Leading(q) + [n % 0x80 + 0x80]
  {
  }

  /** The pointer addresses of the test vectors of CIP-0019: slot 2498243, transaction 27, certificate 3 on the main network. */
  lemma KnownAddresses(payload: seq<byte>)
    requires |payload| == 28
    ensures var numbers := [0x81, 0x98, 0xbd, 0x43, 0x1b, 0x03];
      && BytesOf(Address(Network(1, 764824073), Credential(KeyHash, payload), Pointer(2498243, 27, 3))) == [0x41] + payload + numbers
      && BytesOf(Address(Network(1, 764824073), Credential(ScriptHash, payload), Pointer(2498243, 27, 3))) == [0x51] + payload + numbers
      && ReadAddress([0x41] + payload + numbers) == Read(Address(Network(1, 764824073), Credential(KeyHash, payload), Pointer(2498243, 27, 3)))
      && ReadAddress([0x51] + payload + numbers) == Read(Address(Network(1, 764824073), Credential(ScriptHash, payload), Pointer(2498243, 27, 3)))
  {
    KnownNumbers();
    hide VarNat, ReadAddress;
    var p := Address(Network(1, 764824073), Credential(KeyHash, payload), Pointer(2498243, 27, 3));
    AddressRoundTrip(p);
    AddressRoundTrip(p.(payment := Credential(ScriptHash, payload)));
    assert [0x81, 0x98, 0xbd, 0x43] + [0x1b] + [0x03] == [0x81, 0x98, 0xbd, 0x43, 0x1b, 0x03];
  }

  lemma KnownNumbers()
    ensures VarNat(2498243) == [0x81, 0x98, 0xbd, 0x43] && VarNat(27) == [0x1b] && VarNat(3) == [0x03]
  {
    hide Leading;
    OneMoreDigit(19517, 152);
    OneMoreDigit(152, 1);
    OneMoreDigit(1, 0);
    assert Leading(0) == [] by { LeadingIsMarked(0); }
  }

  /** Bytes that spell one number: all but the last are marked. */
  predicate IsNumber(s: seq<byte>) {
    s != [] && s[|s| - 1] < 0x80 && forall i {:trigger s[i]} :: 0 <= i < |s| - 1 ==> s[i] >= 0x80
  }

  lemma ReadOfNumber(s: seq<byte>, rest: seq<byte>)
    requires IsNumber(s)
    ensures ReadNat(s + rest) == Some((Base128(s) % 0x1_0000_0000_0000_0000, |s|))
  {
    hide Base128, MarkedPrefix;
    var t := s + rest;
    forall i {:trigger t[i]} | 0 <= i < |s| ensures t[i] == s[i] {}
    PrefixIs(t, |s| - 1);
    assert t[..|s|] == s;
  }

  lemma NumberOfRead(s: seq<byte>)
    requires ReadNat(s).Some?
    ensures var k := ReadNat(s).value.1; k <= |s| && IsNumber(s[..k])
  {
    hide Base128;
  }

  /** Three numbers, with nothing missing and nothing left. */
  ghost predicate IsThreeNumbers(s: seq<byte>) {
    exists x, y, z :: IsNumber(x) && IsNumber(y) && IsNumber(z) && s == x + y + z
  }

  /** A pointer address is read exactly from a byte of type 4 or 5, 28 bytes and three numbers. */
  lemma PointerShape(data: seq<byte>)
    ensures ReadAddress(data).Read? <==> |data| > 29 && 4 <= data[0] / 0x10 <= 5 && IsThreeNumbers(data[29..])
  {
    hide ReadNat, IsNumber, ReadPointer;
    if ReadAddress(data).Read? { ReadHasShape(data); }
    if |data| > 29 && 4 <= data[0] / 0x10 <= 5 && IsThreeNumbers(data[29..]) {
      var x, y, z :| IsNumber(x) && IsNumber(y) && IsNumber(z) && data[29..] == x + y + z;
      ShapeIsRead(data, x, y, z);
    }
  }

  lemma ReadHasShape(data: seq<byte>)
    requires ReadAddress(data).Read?
    ensures |data| > 29 && 4 <= data[0] / 0x10 <= 5 && IsThreeNumbers(data[29..])
  {
    ReadType(data);
    hide ReadNat, IsNumber, ReadAddress, ReadPointer, NumberEnd, HeaderOf, IsThreeNumbers, Base128, MarkedPrefix;
    var p := ReadAddress(data).address;
    ThreeNumbers(data, p);
    var second := NumberEnd(data, 29);
    var third := NumberEnd(data, second);
    NumberBetween(data, 29, second);
    NumberBetween(data, second, third);
    NumberBetween(data, third, |data|);
    Pieces(data, 29, second, third);
  }

  lemma NumberBetween(data: seq<byte>, from: nat, to: nat)
    requires from < to <= |data| && ReadNat(data[from..]).Some? && ReadNat(data[from..]).value.1 == to - from
    ensures IsNumber(data[from..to])
  {
    hide ReadNat, IsNumber;
    NumberOfRead(data[from..]);
    assert data[from..][..to - from] == data[from..to];
  }

  lemma Pieces(data: seq<byte>, a: nat, b: nat, c: nat)
    requires a < b < c < |data| && IsNumber(data[a..b]) && IsNumber(data[b..c]) && IsNumber(data[c..|data|])
    ensures IsThreeNumbers(data[a..])
  {
    hide IsNumber;
    assert data[a..] == data[a..b] + data[b..c] + data[c..|data|];
  }

  lemma ReadType(data: seq<byte>)
    requires ReadAddress(data).Read?
    ensures |data| > 29 && 4 <= data[0] / 0x10 <= 5
  {
    hide ReadNat;
  }

  lemma ShapeIsRead(data: seq<byte>, x: seq<byte>, y: seq<byte>, z: seq<byte>)
    requires |data| > 29 && 4 <= data[0] / 0x10 <= 5 && IsNumber(x) && IsNumber(y) && IsNumber(z) && data[29..] == x + y + z
    ensures ReadAddress(data).Read?
  {
    hide ReadNat;
    ReadOfNumber(x, y + z);
    ReadOfNumber(y, z);
    ReadOfNumber(z, []);
    assert data[29..] == x + (y + z);
    assert data[29 + |x|..] == y + z;
    assert data[29 + |x| + |y|..] == z + [];
  }

  /** A leading zero digit is dropped: 0x80 0x00 is read as 0, which is written 0x00. */
  lemma LeadingZeroIsDropped(rest: seq<byte>)
    ensures ReadNat([0x80, 0x00] + rest) == Some((0, 2)) && VarNat(0) == [0x00] && !StartsCanonically([0x80, 0x00] + rest)
  {
    var s := [0x80, 0x00] + rest;
    PrefixIs(s, 1);
    assert s[..2] == [0x80, 0x00];
    assert [0x80, 0x00][..1] == [0x80] && Base128([0x80]) == 0;
  }

  /** A number beyond 64 bits wraps: 2^64 is read as 0. */
  lemma LargeNumberWraps(rest: seq<byte>)
    ensures ReadNat(VarNat(0x1_0000_0000_0000_0000) + rest) == Some((0, 10))
    ensures !StartsCanonically(VarNat(0x1_0000_0000_0000_0000) + rest)
  {
    hide Base128, Leading, MarkedPrefix;
    var n := 0x1_0000_0000_0000_0000;
    var lead, s := Leading(n / 0x80), VarNat(n) + rest;
    LeadingIsMarked(n / 0x80);
    forall i {:trigger s[i]} | 0 <= i < |lead| ensures s[i] >= MARK { assert s[i] == lead[i]; }
    PrefixIs(s, |lead|);
    assert s[..|lead| + 1] == VarNat(n);
    VarNatBase(n);
    LeadingLength();
  }

  lemma LeadingLength()
    ensures |Leading(0x200_0000_0000_0000)| == 9
  {
    assert |Leading(0x4_0000_0000_0000)| == 8 by { assert |Leading(0x10_0000)| == 3; }
  }

  /** An address with network number 2 is read, and written with network number 0. */
  lemma UnknownNetwork(payload: seq<byte>)
    requires |payload| == 28
    ensures ReadAddress([0x42] + payload + [0, 0, 0]) == Read(Address(NO_NETWORK, Credential(KeyHash, payload), Pointer(0, 0, 0)))
    ensures BytesOf(Address(NO_NETWORK, Credential(KeyHash, payload), Pointer(0, 0, 0))) == [0x40] + payload + [0, 0, 0]
  {
    hide ReadNat, VarNat;
    var data := [0x42] + payload + [0, 0, 0];
    ReadZero([0, 0]);
    ReadZero([0]);
    ReadZero([]);
    assert data[29..] == [0] + [0, 0] && data[30..] == [0] + [0] && data[31..] == [0] + [] && data[1..29] == payload;
  }

  lemma ReadZero(rest: seq<byte>)
    ensures ReadNat([0] + rest) == Some((0, 1)) && VarNat(0) == [0]
  {
    assert VarNat(0) == [0];
    ReadVarNat(0, rest);
  }

  /** Where the three numbers of an address stand. */
  lemma ThreeNumbers(data: seq<byte>, p: Address)
    requires ReadAddress(data) == Read(p)
    ensures |data| >= 29 && p.payment.payload == data[1..29] && (HeaderOf(p) == data[0] <==> data[0] % 0x10 <= 1)
    ensures ReadNat(data[29..]) == Some((p.stake.slot, NumberEnd(data, 29) - 29))
    ensures var second := NumberEnd(data, 29);
      && second <= |data|
      && ReadNat(data[second..]) == Some((p.stake.txIndex, NumberEnd(data, second) - second))
    ensures var third := NumberEnd(data, NumberEnd(data, 29));
      && third <= |data|
      && ReadNat(data[third..]) == Some((p.stake.certIndex, |data| - third))
  {
    hide MarkedPrefix, Base128, ReadNat, HeaderOf;
    HeaderOfRead(data, p);
    NumberAt(data, 29);
    NumberAt(data, NumberEnd(data, 29));
    NumberAt(data, NumberEnd(data, NumberEnd(data, 29)));
  }

  lemma HeaderOfRead(data: seq<byte>, p: Address)
    requires ReadAddress(data) == Read(p)
    ensures HeaderOf(p) == data[0] <==> data[0] % 0x10 <= 1
  {
    hide ReadNat;
  }

  lemma NumberAt(data: seq<byte>, off: nat)
    ensures off <= |data| && ReadNat(data[off..]).Some? ==>
      ReadNat(data[off..]).value.1 == NumberEnd(data, off) - off && NumberEnd(data, off) <= |data|
  {
  }

  /** The credential whose kind bit `bit` of the header tells; a shift past the header's eight bits leaves none. */
  method ReadAddrCred(data: seq<byte>, header: byte, bit: byte, pos: nat) returns (c: Credential)
    requires pos + 28 <= |data|
    ensures c == Credential(if header / Two(bit) % 2 == 0 then KeyHash else ScriptHash, data[pos..pos + 28])
  {
    var hashBytes := data[pos..pos + 28];
    if header / Two(bit) % 2 == 0 { return Credential(KeyHash, hashBytes); }
    return Credential(ScriptHash, hashBytes);
  }

  method Bytes(p: Address) returns (buf: seq<byte>)
    ensures buf == BytesOf(p)
  {
    hide VarNat;
    var kind := OrDisjoint(0, if p.payment.kind == KeyHash then 0 else 0x10, 0x10);
    var header := OrDisjoint(p.network.id % 0x10, OrDisjoint(kind, 0x40, 0x40), 0x10);
    buf := [header];
    buf := buf + p.payment.payload;
    var s := VariableNatEncode(p.stake.slot);
    buf := buf + s;
    s := VariableNatEncode(p.stake.txIndex);
    buf := buf + s;
    s := VariableNatEncode(p.stake.certIndex);
    buf := buf + s;
  }

  method NewAddressFromBytes(data: seq<byte>) returns (r: Result)
    ensures r == ReadAddress(data)
  {
    hide ReadNat;
    if |data| == 0 { return Panic; }
    var header := data[0];
    var netId := header % 0x10;
    var typ := header / 0x10;
    if typ == 8 { return OtherType(8); }
    if typ <= 3 {
      if |data| < 57 { return Panic; }
      return OtherType(typ);
    }
    if typ == 4 || typ == 5 {
      if |data| < 1 + 28 + 1 + 1 + 1 { return TooShort; }
      var byteIndex := 1;
      var payment := ReadAddrCred(data, header, 4, 1);
      assert Two(4) == 0x10;
      byteIndex := byteIndex + 28;
      var slot, slotBytes, ok := VariableNatDecode(data[byteIndex..]);
      if !ok { return BadNumber; }
      LengthRead(data[byteIndex..]);
      byteIndex := byteIndex + slotBytes;
      var txIndex, txBytes, certIndex, certBytes;
      txIndex, txBytes, ok := VariableNatDecode(data[byteIndex..]);
      if !ok { return BadNumber; }
      LengthRead(data[byteIndex..]);
      byteIndex := byteIndex + txBytes;
      certIndex, certBytes, ok := VariableNatDecode(data[byteIndex..]);
      if !ok { return BadNumber; }
      byteIndex := byteIndex + certBytes;
      if byteIndex < |data| { return TrailingData; }
      return Read(Address(NetworkOf(netId), payment, Pointer(slot, txIndex, certIndex)));
    }
    if typ == 6 || typ == 7 || typ == 14 || typ == 15 {
      if |data| < 29 { return TooShort; }
      if |data| > 29 { return TrailingData; }
      return OtherType(typ);
    }
    return Unsupported;
  }

  lemma LengthRead(s: seq<byte>)
    requires ReadNat(s).Some?
    ensures ReadNat(s).value.1 <= |s|
  {
  }
}
