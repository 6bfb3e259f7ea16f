/**
 IPv6 addresses and the byte-wise prefix tests of the tunnel server, with what those tests mean:
 a test on the first `n` bits is equality of the 128-bit addresses divided by `2^(128-n)`.
 */
module Ipv6 {
  import opened Arithmetic
  import opened Bytes

  const ADDRESS_LEN := 16
  const ADDRESS_BITS := 128

  type Address = a: seq<bv8> | |a| == ADDRESS_LEN witness Unspecified()

  function Unspecified(): seq<bv8> {
    seq(ADDRESS_LEN, _ => 0)
  }

  /** The `/52` test: six whole bytes and the upper half of the seventh. */
  predicate Same52(a: Address, b: Address) {
    a[..6] == b[..6] && a[6] & 0xf0 == b[6] & 0xf0
  }

  /** The `/62` test: seven whole bytes and six bits of the eighth. */
  predicate Same62(a: Address, b: Address) {
    a[..7] == b[..7] && a[7] & 0xfc == b[7] & 0xfc
  }

  predicate Same64(a: Address, b: Address) {
    a[..8] == b[..8]
  }

  predicate SameInterface(a: Address, b: Address) {
    a[8..] == b[8..]
  }

  predicate IsLinkLocal(a: Address) {
    a[0] == 0xfe && a[1] == 0x80
  }

  // ------------------------------------------------------------------ what the tests mean

  /** The address as a sequence of numbers below 256. */
  ghost function Octets(a: Address): (o: seq<byte>)
    ensures |o| == ADDRESS_LEN
    ensures forall i | 0 <= i < ADDRESS_LEN :: o[i] == a[i] as int
  {
    seq(ADDRESS_LEN, i requires 0 <= i < ADDRESS_LEN => a[i] as int)
  }

  lemma OctetsInjective(a: Address, b: Address, k: nat)
    requires k <= ADDRESS_LEN
    ensures a[..k] == b[..k] <==> Octets(a)[..k] == Octets(b)[..k]
  {
    if Octets(a)[..k] == Octets(b)[..k] {
      forall i | 0 <= i < k ensures a[i] == b[i] {
        assert Octets(a)[..k][i] == Octets(b)[..k][i];
        SameNumber(a[i], b[i]);
      }
    }
  }

  lemma SameNumber(x: bv8, y: bv8)
    requires x as int == y as int
    ensures x == y
  {
  }

  /** The number whose big-endian octets are `bytes`. */
  ghost function Value(bytes: seq<byte>): nat {
    if bytes == [] then 0 else 256 * Value(bytes[..|bytes| - 1]) + bytes[|bytes| - 1]
  }

  lemma {:induction false} ValueInjective(a: seq<byte>, b: seq<byte>)
    requires |a| == |b| && Value(a) == Value(b)
    ensures a == b
  {
    if a != [] {
      var n := |a| - 1;
      ValueInjective(a[..n], b[..n]);
      assert a == a[..n] + [a[n]] && b == b[..n] + [b[n]];
    }
  }

  /** Dividing by `256^k` drops the last `k` octets. */
  lemma {:induction false} ValueOfFront(bytes: seq<byte>, k: nat)
    requires k <= |bytes|
    ensures Value(bytes) / Pow2(8 * k) == Value(bytes[..|bytes| - k])
  {
    if k == 0 {
      assert bytes[..|bytes|] == bytes;
    } else {
      var front := bytes[..|bytes| - 1];
      ValueOfFront(front, k - 1);
      assert front[..|front| - (k - 1)] == bytes[..|bytes| - k];
      assert Value(bytes) / 256 == Value(front);
      DivideTwice(Value(bytes), 256, Pow2(8 * (k - 1)));
      Pow2Sum(8, 8 * (k - 1));
      assert Pow2(8) == 256;
    }
  }

  /** Dividing by `2^low` more keeps the upper bits of octet `k`. */
  lemma LeadingBits(bytes: seq<byte>, k: nat, low: nat)
    requires k < |bytes|
    ensures Value(bytes) / Pow2(8 * (|bytes| - k - 1) + low)
         == (256 * Value(bytes[..k]) + bytes[k]) / Pow2(low)
  {
    var front, n := bytes[..k + 1], 8 * (|bytes| - k - 1);
    ValueOfFront(bytes, |bytes| - k - 1);
    assert front[..k] == bytes[..k];
    Pow2Sum(n, low);
    DivideTwice(Value(bytes), Pow2(n), Pow2(low));
  }

  lemma Leading4(bytes: seq<byte>, k: nat)
    requires k < |bytes|
    ensures Value(bytes) / Pow2(8 * (|bytes| - k - 1) + 4) == (256 * Value(bytes[..k]) + bytes[k]) / 16
  {
    LeadingBits(bytes, k, 4);
    assert Pow2(4) == 16;
  }

  /** Octet `k` adds its own leading bits to those of the octets before it, and they do not mix. */
  lemma Leading4EqualIff(a: seq<byte>, b: seq<byte>, k: nat)
    requires k < |a| == |b|
    ensures a[..k] == b[..k] && a[k] / 16 == b[k] / 16
       <==> (256 * Value(a[..k]) + a[k]) / 16 == (256 * Value(b[..k]) + b[k]) / 16
  {
    var u, v := Value(a[..k]), Value(b[..k]);
    Split16(u, a[k], v, b[k]);
    if u == v {
      ValueInjective(a[..k], b[..k]);
    }
  }

  lemma Leading6(bytes: seq<byte>, k: nat)
    requires k < |bytes|
    ensures Value(bytes) / Pow2(8 * (|bytes| - k - 1) + 2) == (256 * Value(bytes[..k]) + bytes[k]) / 4
  {
    LeadingBits(bytes, k, 2);
    assert Pow2(2) == 4;
  }

  lemma Leading6EqualIff(a: seq<byte>, b: seq<byte>, k: nat)
    requires k < |a| == |b|
    ensures a[..k] == b[..k] && a[k] / 4 == b[k] / 4
       <==> (256 * Value(a[..k]) + a[k]) / 4 == (256 * Value(b[..k]) + b[k]) / 4
  {
    var u, v := Value(a[..k]), Value(b[..k]);
    Split4(u, a[k], v, b[k]);
    if u == v {
      ValueInjective(a[..k], b[..k]);
    }
  }

  lemma Split16(u: nat, x: byte, v: nat, y: byte)
    ensures (256 * u + x) / 16 == (256 * v + y) / 16 <==> u == v && x / 16 == y / 16
  {
    assert (256 * u + x) / 16 == 16 * u + x / 16;
    assert (256 * v + y) / 16 == 16 * v + y / 16;
  }

  lemma Split4(u: nat, x: byte, v: nat, y: byte)
    ensures (256 * u + x) / 4 == (256 * v + y) / 4 <==> u == v && x / 4 == y / 4
  {
    assert (256 * u + x) / 4 == 64 * u + x / 4;
    assert (256 * v + y) / 4 == 64 * v + y / 4;
  }

  lemma WholeOctetsEqualIff(a: seq<byte>, b: seq<byte>, k: nat)
    requires k <= |a| == |b|
    ensures a[..k] == b[..k] <==> Value(a) / Pow2(8 * (|a| - k)) == Value(b) / Pow2(8 * (|a| - k))
  {
    ValueOfFront(a, |a| - k);
    ValueOfFront(b, |a| - k);
    if Value(a[..k]) == Value(b[..k]) {
      ValueInjective(a[..k], b[..k]);
    }
  }

  lemma MaskOfBits(x: bv8)
    ensures (x & 0xf0) as int == x as int / 16 * 16
    ensures (x & 0xfc) as int == x as int / 4 * 4
  {
  }

  lemma Same52InOctets(a: Address, b: Address)
    ensures var x, y := Octets(a), Octets(b); Same52(a, b) <==> x[..6] == y[..6] && x[6] / 16 == y[6] / 16
  {
    MaskOfBits(a[6]);
    MaskOfBits(b[6]);
    OctetsInjective(a, b, 6);
  }

  lemma Same62InOctets(a: Address, b: Address)
    ensures var x, y := Octets(a), Octets(b); Same62(a, b) <==> x[..7] == y[..7] && x[7] / 4 == y[7] / 4
  {
    MaskOfBits(a[7]);
    MaskOfBits(b[7]);
    OctetsInjective(a, b, 7);
  }

  lemma Octets52Exact(x: seq<byte>, y: seq<byte>, n: nat)
    requires |x| == |y| == ADDRESS_LEN && n == ADDRESS_BITS - 52
    ensures x[..6] == y[..6] && x[6] / 16 == y[6] / 16 <==> Value(x) / Pow2(n) == Value(y) / Pow2(n)
  {
    Leading4(x, 6);
    Leading4(y, 6);
    Leading4EqualIff(x, y, 6);
  }

  /** The byte tests compare the first 52, 62 and 64 bits of the addresses, and nothing else. */
  lemma Same52IsExact(a: Address, b: Address)
    ensures Same52(a, b) <==> Value(Octets(a)) / Pow2(76) == Value(Octets(b)) / Pow2(76)
  {
    Same52InOctets(a, b);
    Octets52Exact(Octets(a), Octets(b), 76);
  }

  lemma Octets62Exact(x: seq<byte>, y: seq<byte>, n: nat)
    requires |x| == |y| == ADDRESS_LEN && n == ADDRESS_BITS - 62
    ensures x[..7] == y[..7] && x[7] / 4 == y[7] / 4 <==> Value(x) / Pow2(n) == Value(y) / Pow2(n)
  {
    Leading6(x, 7);
    Leading6(y, 7);
    Leading6EqualIff(x, y, 7);
  }

  lemma Same62IsExact(a: Address, b: Address)
    ensures Same62(a, b) <==> Value(Octets(a)) / Pow2(66) == Value(Octets(b)) / Pow2(66)
  {
    Same62InOctets(a, b);
    Octets62Exact(Octets(a), Octets(b), 66);
  }

  lemma Same64IsExact(a: Address, b: Address)
    ensures Same64(a, b) <==> Value(Octets(a)) / Pow2(64) == Value(Octets(b)) / Pow2(64)
  {
    OctetsInjective(a, b, 8);
    WholeOctetsEqualIff(Octets(a), Octets(b), 8);
  }

  /** Sharing 62 bits is an equivalence, and addresses that share them share 52 too. */
  lemma PrefixesNest(a: Address, b: Address, c: Address)
    ensures Same62(a, a)
    ensures Same62(a, b) ==> Same62(b, a) && Same52(a, b)
    ensures Same62(a, b) && Same62(b, c) ==> Same62(a, c)
  {
    if Same62(a, b) {
      assert a[..7][..6] == a[..6] && b[..7][..6] == b[..6];
      assert a[..7][6] == a[6] && b[..7][6] == b[6];
    }
  }

  lemma RemainderOfNext(v: nat, x: byte, d: nat)
    requires d > 0
    ensures (256 * v + x) % (256 * d) == 256 * (v % d) + x < 256 * d
  {
    var q, r := v / d, v % d;
    assert v == q * d + r;
    assert 256 * v + x == q * (256 * d) + (256 * r + x);
    QuotientUnique(256 * v + x, 256 * d, q, 256 * r + x);
  }

  /** The remainder modulo `256^k` is the number of the last `k` octets. */
  lemma {:induction false} ValueOfBack(bytes: seq<byte>, k: nat)
    requires k <= |bytes|
    ensures Value(bytes) % Pow2(8 * k) == Value(bytes[|bytes| - k..])
  {
    if k > 0 {
      var front, back := bytes[..|bytes| - 1], bytes[|bytes| - k..];
      ValueOfBack(front, k - 1);
      assert front[|front| - (k - 1)..] == back[..k - 1];
      RemainderOfNext(Value(front), bytes[|bytes| - 1], Pow2(8 * (k - 1)));
      Pow2Sum(8, 8 * (k - 1));
      assert Pow2(8) == 256;
    }
  }

  /** The number of the last 64 bits. */
  ghost function InterfaceId(a: Address): nat {
    Value(Octets(a)) % Pow2(64)
  }

  lemma BackOctetsInjective(a: Address, b: Address, k: nat)
    requires k <= ADDRESS_LEN
    ensures a[k..] == b[k..] <==> Octets(a)[k..] == Octets(b)[k..]
  {
    if Octets(a)[k..] == Octets(b)[k..] {
      forall i | k <= i < ADDRESS_LEN ensures a[i] == b[i] {
        assert Octets(a)[k..][i - k] == Octets(b)[k..][i - k];
        SameNumber(a[i], b[i]);
      }
    }
    if a[k..] == b[k..] {
      forall i | k <= i < ADDRESS_LEN ensures Octets(a)[i] == Octets(b)[i] {
        assert a[k..][i - k] == b[k..][i - k];
      }
    }
  }

  /** The interface test compares the last 64 bits, and nothing else. */
  lemma SameInterfaceIsExact(a: Address, b: Address)
    ensures SameInterface(a, b) <==> InterfaceId(a) == InterfaceId(b)
  {
    BackOctetsInjective(a, b, 8);
    ValueOfBack(Octets(a), 8);
    ValueOfBack(Octets(b), 8);
    if InterfaceId(a) == InterfaceId(b) {
      ValueInjective(Octets(a)[8..], Octets(b)[8..]);
    }
  }

  /** The link-local test looks at the first 16 bits: they are fe80. */
  lemma IsLinkLocalIsExact(a: Address)
    ensures IsLinkLocal(a) <==> Value(Octets(a)) / Pow2(112) == 0xfe80
    ensures IsLinkLocal(a) <==> Octets(a)[0] == 254 && Octets(a)[1] == 128
  {
    var x := Octets(a);
    ValueOfFront(x, 14);
    assert x[..2] == [x[0], x[1]];
    ValueOfTwo(x[0], x[1]);
    OctetIs(a[0], 0xfe);
    OctetIs(a[1], 0x80);
  }

  lemma ValueOfTwo(x: byte, y: byte)
    ensures Value([x, y]) == 256 * x + y
  {
    assert [x, y][..1] == [x] && [x][..0] == [];
    assert Value([x]) == 256 * Value([]) + x;
  }

  lemma OctetIs(x: bv8, y: bv8)
    ensures x == y <==> x as int == y as int
  {
    if x as int == y as int {
      SameNumber(x, y);
    }
  }
}
