/** IP addresses as byte strings: their bits, their big-endian value and their order. */
module Addresses {
  import opened GoTypes

  newtype byte = x: int | 0 <= x < 256

  type Bytes = seq<byte>
  type Bit = b: int | 0 <= b < 2

  function PowerOf256(n: nat): (p: nat)
    ensures p >= 1
  {
    if n == 0 then 1 else 256 * PowerOf256(n - 1)
  }

  /** `net.IP.To4` on a parsed address: 4 bytes stay, 16 bytes lose the ::ffff:0:0/96 prefix. */
  const V4_IN_V6_PREFIX: Bytes := [0, 0, 0, 0, 0, 0, 0, 0, 0, 0, 0xff, 0xff]

  function To4(ip: Bytes): Option<Bytes> {
    if |ip| == 4 then Some(ip)
    else if |ip| == 16 && ip[..12] == V4_IN_V6_PREFIX then Some(ip[12..])
    else None
  }

  function To16(ip: Bytes): Option<Bytes> {
    if |ip| == 4 then Some(V4_IN_V6_PREFIX + ip)
    else if |ip| == 16 then Some(ip)
    else None
  }

  /** The bytes the code goes by: 4 if the address has an IPv4 form, else 16. */
  function Walked(ip: Bytes): Option<Bytes> {
    if To4(ip).Some? then To4(ip) else To16(ip)
  }

  /** An IPv4 address as `net.ParseIP` returns it. */
  function Mapped(quad: Bytes): (ip: Bytes)
    requires |quad| == 4
    ensures |ip| == 16 && To4(ip) == Some(quad)
  {
    V4_IN_V6_PREFIX + quad
  }

  /** What `net.ParseCIDR` returns. */
  datatype Network = Network(ip: Bytes, prefixLen: nat)

  // ---------------------------------------------------------------- bits

  function Power2(k: nat): (p: nat)
    ensures p >= 1
  {
    if k == 0 then 1 else 2 * Power2(k - 1)
  }

  /** Bit `k` of a byte, the most significant first: `(b >> (7 - k)) & 1`. */
  function BitOf(b: nat, k: nat): Bit
    requires k < 8
    decreases 8 - k
  {
    if k == 7 then b % 2 else BitOf(b / 2, k + 1)
  }

  lemma {:induction false} BitIsBinaryDigit(b: nat, k: nat)
    requires k < 8
    ensures BitOf(b, k) == b / Power2(7 - k) % 2
    decreases 8 - k
  {
    if k < 7 {
      BitIsBinaryDigit(b / 2, k + 1);
      HalfThenDivide(b, Power2(6 - k));
    }
  }

  lemma HalfThenDivide(b: nat, p: nat)
    requires p >= 1
    ensures b / 2 / p == b / (2 * p)
  {
    var q, r := b / 2 / p, b / 2 % p;
    QuotientIs(b, 2 * p, q, 2 * r + b % 2);
  }

  lemma QuotientIs(b: nat, d: nat, q: nat, r: nat)
    requires r < d && b == d * q + r
    ensures b / d == q
  {
    var e := b / d;
    assert e < q ==> d * (e + 1) <= d * q;
    assert e > q ==> d * (q + 1) <= d * e;
  }

  function BitAt(bs: Bytes, pos: nat): Bit
    requires pos < 8 * |bs|
  {
    BitOf(bs[pos / 8] as int, pos % 8)
  }

  /** The first `n` bits agree. */
  ghost predicate SameBits(a: Bytes, b: Bytes, n: nat)
    requires n <= 8 * |a| && n <= 8 * |b|
  {
    forall i :: 0 <= i < n ==> BitAt(a, i) == BitAt(b, i)
  }

  /** The low `n` bits of a byte determine it modulo 2^n. */
  lemma {:induction false} BitsDetermineByte(a: nat, b: nat, k: nat)
    requires k < 8 && a < Power2(k + 1) && b < Power2(k + 1)
    requires forall j: nat :: 7 - k <= j < 8 ==> BitOf(a, j) == BitOf(b, j)
    ensures a == b
  {
    assert BitOf(a, 7) == BitOf(b, 7);
    if k > 0 {
      forall j: nat | 8 - k <= j < 8 ensures BitOf(a / 2, j) == BitOf(b / 2, j) {
        assert BitOf(a, j - 1) == BitOf(b, j - 1);
      }
      BitsDetermineByte(a / 2, b / 2, k - 1);
    }
  }

  /** Octet-aligned bit prefixes are byte prefixes. */
  lemma AlignedPrefix(a: Bytes, b: Bytes, k: nat)
    requires k <= |a| && k <= |b|
    ensures SameBits(a, b, 8 * k) <==> a[..k] == b[..k]
  {
    if SameBits(a, b, 8 * k) {
      forall i | 0 <= i < k ensures a[i] == b[i] {
        var x, y := a[i] as int, b[i] as int;
        forall j: nat | j < 8 ensures BitOf(x, j) == BitOf(y, j) {
          assert BitAt(a, 8 * i + j) == BitAt(b, 8 * i + j);
        }
        assert Power2(8) == 2 * Power2(7) == 256 by { assert Power2(4) == 16; }
        BitsDetermineByte(x, y, 7);
      }
    }
    if a[..k] == b[..k] {
      forall p | 0 <= p < 8 * k ensures BitAt(a, p) == BitAt(b, p) {
        assert a[p / 8] == a[..k][p / 8] == b[..k][p / 8];
      }
    }
  }

  /** The network of `prefixLen` leading bits of `net` (section 3.1 of RFC 4632). */
  ghost predicate Contains(net: Bytes, prefixLen: nat, ip: Bytes) {
    |net| == |ip| && prefixLen <= 8 * |net| && SameBits(net, ip, prefixLen)
  }

  /** The length of the mask once the network is cut to `size` bytes. */
  function MaskLength(net: Network, size: nat): nat {
    if size == |net.ip| then net.prefixLen
    else if net.prefixLen > 96 then net.prefixLen - 96
    else 0
  }

  /** `net.IPNet.Contains` as Go has it: both sides in their IPv4 form if they have one, the
      first twelve bytes of the mask going with the prefix. */
  ghost predicate IpNetContains(net: Network, ip: Bytes) {
    match Walked(net.ip)
    case None => false
    case Some(bytes) =>
      Contains(bytes, MaskLength(net, |bytes|), if To4(ip).Some? then To4(ip).value else ip)
  }

  /** Of 4 or 16 bytes, with a prefix within them: as `net.ParseCIDR` returns a network. */
  ghost predicate WellFormed(net: Network) {
    |net.ip| in {4, 16} && net.prefixLen <= 8 * |net.ip|
  }

  /** The addresses in a network, bit by bit: of the network's own family, and with the same leading
      bits, those of the four bytes if the network has four. */
  ghost predicate InNetwork(net: Network, ip: Bytes) {
    && WellFormed(net) && |ip| == 16
    && (To4(net.ip).Some? <==> To4(ip).Some?)
    && SameBits(net.ip, if |net.ip| == 4 then ip[12..] else ip, net.prefixLen)
  }

  lemma QuadBits(a: Bytes, b: Bytes, n: nat)
    requires |a| == |b| == 16 && a[..12] == b[..12] && n <= 128
    ensures SameBits(a, b, n) <==> SameBits(a[12..], b[12..], if n > 96 then n - 96 else 0)
  {
    AlignedPrefix(a, b, 12);
    forall i: nat | i < 32 ensures BitAt(a, 96 + i) == BitAt(a[12..], i) && BitAt(b, 96 + i) == BitAt(b[12..], i) {
      assert a[12..][i / 8] == a[(96 + i) / 8] && b[12..][i / 8] == b[(96 + i) / 8];
    }
    if SameBits(a, b, n) {
      forall i | 0 <= i < n - 96 ensures BitAt(a[12..], i) == BitAt(b[12..], i) {
        assert BitAt(a, 96 + i) == BitAt(b, 96 + i);
      }
    }
    if SameBits(a[12..], b[12..], if n > 96 then n - 96 else 0) {
      forall i | 96 <= i < n ensures BitAt(a, i) == BitAt(b, i) {
        assert BitAt(a[12..], i - 96) == BitAt(b[12..], i - 96);
      }
    }
  }

  /** Cutting both sides to their IPv4 forms and the mask with them leaves the same addresses in, at
      every prefix length. */
  lemma ContainsIff(net: Network, ip: Bytes)
    requires WellFormed(net) && |ip| == 16
    ensures IpNetContains(net, ip) <==> InNetwork(net, ip)
  {
    if |net.ip| == 16 && To4(net.ip).Some? && To4(ip).Some? {
      QuadBits(net.ip, ip, net.prefixLen);
    }
  }

  // ---------------------------------------------------------------- big-endian value

  function Value(bs: Bytes): (v: nat)
    ensures v < PowerOf256(|bs|)
  {
    if bs == [] then 0
    else Value(bs[..|bs| - 1]) * 256 + bs[|bs| - 1] as int
  }

  lemma {:induction false} ValueOfConcat(a: Bytes, b: Bytes)
    ensures Value(a + b) == Value(a) * PowerOf256(|b|) + Value(b)
  {
    if b == [] {
      assert a + b == a;
    } else {
      var b', l := b[..|b| - 1], b[|b| - 1] as int;
      assert (a + b)[..|a + b| - 1] == a + b';
      ValueOfConcat(a, b');
      ConcatStep(Value(a), PowerOf256(|b'|), Value(b'), l);
    }
  }

  lemma ConcatStep(x: nat, p: nat, y: nat, l: nat)
    ensures (x * p + y) * 256 + l == x * (256 * p) + (y * 256 + l)
  {
  }

  /** `bytes.Compare` at equal length, as "strictly before". */
  predicate BytesLess(a: Bytes, b: Bytes)
    requires |a| == |b|
  {
    a != [] && (a[0] < b[0] || (a[0] == b[0] && BytesLess(a[1..], b[1..])))
  }

  lemma ValueFromFront(a: Bytes)
    requires a != []
    ensures Value(a) == a[0] as int * PowerOf256(|a| - 1) + Value(a[1..])
  {
    assert a == a[..1] + a[1..];
    ValueOfConcat(a[..1], a[1..]);
    assert a[..1][..0] == [];
    assert Value(a[..1]) == a[0] as int;
  }

  /** A larger leading digit decides, whatever follows. */
  lemma LeadingDigitDecides(x: nat, y: nat, p: nat, u: nat, v: nat)
    requires x < y && u < p && v < p
    ensures x * p + u < y * p + v
  {
    assert (x + 1) * p <= y * p;
  }

  /** Byte order is numeric order of the big-endian values. */
  lemma {:induction false} OrderIsNumeric(a: Bytes, b: Bytes)
    requires |a| == |b|
    ensures BytesLess(a, b) <==> Value(a) < Value(b)
    ensures a == b <==> Value(a) == Value(b)
  {
    if a != [] {
      var p := PowerOf256(|a| - 1);
      ValueFromFront(a);
      ValueFromFront(b);
      OrderIsNumeric(a[1..], b[1..]);
      if a[0] < b[0] {
        LeadingDigitDecides(a[0] as int, b[0] as int, p, Value(a[1..]), Value(b[1..]));
      } else if b[0] < a[0] {
        LeadingDigitDecides(b[0] as int, a[0] as int, p, Value(b[1..]), Value(a[1..]));
      } else {
        assert a == [a[0]] + a[1..] && b == [b[0]] + b[1..];
      }
    }
  }
}
