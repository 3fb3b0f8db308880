/** Two ways to match an IPv4 address against a block (netutils/ipmatch.go). */
module IpMatch {
  import opened Addresses
  import opened GoTypes
  import opened GoStrings

  // ---------------------------------------------------------------- decimal text

  function Digit(d: nat): char
    requires d < 10
  {
    '0' + d as char
  }

  predicate IsDigit(c: char) {
    '0' <= c <= '9'
  }

  function Dec(n: nat): (s: string)
    ensures s != "" && forall i :: 0 <= i < |s| ==> IsDigit(s[i])
  {
    if n < 10 then [Digit(n)] else Dec(n / 10) + [Digit(n % 10)]
  }

  function DigitValue(c: char): nat
    requires IsDigit(c)
  {
    c as int - '0' as int
  }

  function DigitsValue(s: string): nat
    requires forall i :: 0 <= i < |s| ==> IsDigit(s[i])
  {
    if s == "" then 0 else DigitsValue(s[..|s| - 1]) * 10 + DigitValue(s[|s| - 1])
  }

  /** A number in decimal digits. */
  function ParseDec(s: string): Option<nat> {
    if s != "" && forall i :: 0 <= i < |s| ==> IsDigit(s[i]) then Some(DigitsValue(s)) else None
  }

  lemma {:induction false} DecimalRoundTrip(n: nat)
    ensures ParseDec(Dec(n)) == Some(n)
    ensures n > 0 ==> Dec(n)[0] != '0'
    ensures n < 10 ==> |Dec(n)| == 1
    ensures n < 100 ==> |Dec(n)| <= 2
    ensures n < 1000 ==> |Dec(n)| <= 3
  {
    if n >= 10 {
      DecimalRoundTrip(n / 10);
      assert Dec(n)[..|Dec(n)| - 1] == Dec(n / 10);
    } else {
      assert DigitsValue(Dec(n)[..0]) == 0;
    }
  }

  /** One octet of a dotted quad: at most three digits, no leading zero, at most 255. */
  function ParseOctet(s: string): Option<byte> {
    match ParseDec(s)
    case None => None
    case Some(v) => if |s| <= 3 && (|s| > 1 ==> s[0] != '0') && v <= 255 then Some(v as byte) else None
  }

  lemma OctetRoundTrip(b: byte)
    ensures ParseOctet(Dec(b as nat)) == Some(b)
  {
    DecimalRoundTrip(b as nat);
  }

  // ---------------------------------------------------------------- dotted quads

  function JoinFour(a: string, b: string, c: string, d: string): string {
    a + "." + (b + "." + (c + "." + d))
  }

  /** The canonical text of four bytes. */
  function Quad(ip: Bytes): string
    requires |ip| == 4
  {
    JoinFour(Dec(ip[0] as nat), Dec(ip[1] as nat), Dec(ip[2] as nat), Dec(ip[3] as nat))
  }

  function ParseQuad(s: string): Option<Bytes> {
    var parts := Split(s, '.');
    if |parts| == 4
       && ParseOctet(parts[0]).Some? && ParseOctet(parts[1]).Some?
       && ParseOctet(parts[2]).Some? && ParseOctet(parts[3]).Some?
    then Some([ParseOctet(parts[0]).value, ParseOctet(parts[1]).value,
               ParseOctet(parts[2]).value, ParseOctet(parts[3]).value])
    else None
  }

  lemma SplitFour(a: string, b: string, c: string, d: string)
    requires '.' !in a && '.' !in b && '.' !in c && '.' !in d
    ensures Split(JoinFour(a, b, c, d), '.') == [a, b, c, d]
  {
    SplitJoin(a, '.', b + "." + (c + "." + d));
    SplitJoin(b, '.', c + "." + d);
    SplitJoin(c, '.', d);
    SplitJoin(d, '.', "");
  }

  lemma QuadSplits(ip: Bytes)
    requires |ip| == 4
    ensures Split(Quad(ip), '.') == [Dec(ip[0] as nat), Dec(ip[1] as nat), Dec(ip[2] as nat), Dec(ip[3] as nat)]
  {
    SplitFour(Dec(ip[0] as nat), Dec(ip[1] as nat), Dec(ip[2] as nat), Dec(ip[3] as nat));
  }

  lemma QuadRoundTrip(ip: Bytes)
    requires |ip| == 4
    ensures ParseQuad(Quad(ip)) == Some(ip)
  {
    QuadSplits(ip);
    OctetRoundTrip(ip[0]);
    OctetRoundTrip(ip[1]);
    OctetRoundTrip(ip[2]);
    OctetRoundTrip(ip[3]);
    assert ip == [ip[0], ip[1], ip[2], ip[3]];
  }

  lemma {:induction false} DecOfParsed(s: string)
    requires ParseDec(s).Some? && (|s| > 1 ==> s[0] != '0')
    ensures Dec(DigitsValue(s)) == s
    ensures s[0] != '0' ==> DigitsValue(s) > 0
  {
    var n := |s| - 1;
    assert s == s[..n] + [s[n]];
    if n > 0 {
      DecOfParsed(s[..n]);
    }
  }

  /** Only canonical text parses: four numbers up to 255 without leading zeros. */
  lemma OnlyQuadsParse(s: string)
    requires ParseQuad(s).Some?
    ensures s == Quad(ParseQuad(s).value)
  {
    var parts := Split(s, '.');
    JoinUndoesSplit(s, '.');
    DecOfParsed(parts[0]);
    DecOfParsed(parts[1]);
    DecOfParsed(parts[2]);
    DecOfParsed(parts[3]);
    assert parts == [parts[0], parts[1], parts[2], parts[3]];
    JoinsFour(parts[0], parts[1], parts[2], parts[3]);
  }

  lemma JoinsFour(a: string, b: string, c: string, d: string)
    ensures Join([a, b, c, d], '.') == JoinFour(a, b, c, d)
  {
    assert Join([c, d], '.') == c + "." + d by {
      assert [c, d][1..] == [d];
    }
    assert Join([b, c, d], '.') == b + "." + (c + "." + d) by {
      assert [b, c, d][1..] == [c, d];
    }
    assert [a, b, c, d][1..] == [b, c, d];
  }

  // ---------------------------------------------------------------- parsing as Go does

  /** Text with a ':' is parsed by these; its grammar is not spelled out. */
  datatype ColonParser = ColonParser(ip: string -> Option<Bytes>, cidr: string -> Option<Network>)

  function ParseIP(s: string, colon: ColonParser): Option<Bytes> {
    if ':' in s then colon.ip(s)
    else match ParseQuad(s)
         case None => None
         case Some(q) => Some(V4_IN_V6_PREFIX + q)
  }

  /** The lowest `k` bits cleared. */
  function ClearLow(b: nat, k: nat): (r: nat)
    ensures r <= b
  {
    if k == 0 then b else 2 * ClearLow(b / 2, k - 1)
  }

  /** What is left of byte `i` under a mask of `prefixLen` ones. */
  function MaskByte(b: byte, i: nat, prefixLen: nat): byte {
    if 8 * i + 8 <= prefixLen then b
    else if prefixLen <= 8 * i then 0
    else ClearLow(b as nat, 8 * i + 8 - prefixLen) as byte
  }

  function Masked(ip: Bytes, prefixLen: nat): (r: Bytes)
    ensures |r| == |ip|
  {
    seq(|ip|, i requires 0 <= i < |ip| => MaskByte(ip[i], i, prefixLen))
  }

  lemma {:induction false} ClearLowBits(b: nat, k: nat, j: nat)
    requires k <= 8 && j < 8
    ensures BitOf(ClearLow(b, k), j) == if j < 8 - k then BitOf(b, j) else 0
    decreases 8 - j
  {
    if k > 0 && j < 7 {
      ClearLowBits(b / 2, k - 1, j + 1);
    }
  }

  /** The mask keeps the first bits and clears the others. */
  lemma MaskedBits(ip: Bytes, prefixLen: nat, i: nat)
    requires i < 8 * |ip|
    ensures BitAt(Masked(ip, prefixLen), i) == if i < prefixLen then BitAt(ip, i) else 0
  {
    var first := 8 * (i / 8);
    if first + 8 > prefixLen {
      ClearLowBits(ip[i / 8] as nat, if prefixLen <= first then 8 else first + 8 - prefixLen, i % 8);
      ClearLowBits(0, 8, i % 8);
    }
  }

  function ParseCIDR(s: string, colon: ColonParser): Option<Network> {
    if ':' in s then colon.cidr(s)
    else
      var parts := Split(s, '/');
      if |parts| != 2 || ParseQuad(parts[0]).None? || ParseDec(parts[1]).None? || ParseDec(parts[1]).value > 32
      then None
      else Some(Network(Masked(ParseQuad(parts[0]).value, ParseDec(parts[1]).value), ParseDec(parts[1]).value))
  }

  /** Everything before a scope id. */
  function TrimScope(ip: string): string {
    if ip == "" || ip[0] == '%' then "" else [ip[0]] + TrimScope(ip[1..])
  }

  // ---------------------------------------------------------------- the two matchers

  predicate OctetMatches(octet: string, pattern: string) {
    pattern == "*" || octet == pattern
  }

  method MatchIpWildcard(ipAddress: string, wildcard: string) returns (matches: bool)
    ensures matches <==> WildcardMatches(ipAddress, wildcard)
  {
    var ipOctets := Split(ipAddress, '.');
    var wildcardOctets := Split(wildcard, '.');
    if |ipOctets| != 4 || |wildcardOctets| != 4 {
      return false;
    }
    for i := 0 to 4
      invariant forall j :: 0 <= j < i ==> OctetMatches(ipOctets[j], wildcardOctets[j])
    {
      if wildcardOctets[i] == "*" {
        continue;
      }
      if ipOctets[i] != wildcardOctets[i] {
        return false;
      }
    }
    matches := true;
  }

  /** Four parts each, and part for part a star or the same text. */
  ghost predicate WildcardMatches(ip: string, wildcard: string) {
    var a, b := Split(ip, '.'), Split(wildcard, '.');
    |a| == 4 && |b| == 4 && forall i :: 0 <= i < 4 ==> OctetMatches(a[i], b[i])
  }

  ghost predicate CidrMatches(ip: string, cidr: string, colon: ColonParser) {
    var net := ParseCIDR(cidr, colon);
    net.Some? && IpNetContains(net.value, ParseIP(TrimScope(ip), colon).GetOr([]))
  }

  // ---------------------------------------------------------------- they agree on octets

  /** The first `k` octets of `block` in decimal, then stars. */
  function WildcardOf(block: Bytes, k: nat): string
    requires |block| == 4 && k <= 4
  {
    JoinFour(PatternOctet(block, k, 0), PatternOctet(block, k, 1), PatternOctet(block, k, 2), PatternOctet(block, k, 3))
  }

  function PatternOctet(block: Bytes, k: nat, i: nat): (s: string)
    requires |block| == 4 && i < 4
    ensures '.' !in s
  {
    if i < k then Dec(block[i] as nat) else "*"
  }

  /** A dotted quad over a prefix length. */
  function CidrText(quad: Bytes, prefixLen: nat): string
    requires |quad| == 4
  {
    Quad(quad) + "/" + Dec(prefixLen)
  }

  /** The first `k` octets of `block`, then zeros, over a prefix of length `8 * k`. */
  function CidrOf(block: Bytes, k: nat): string
    requires |block| == 4 && k <= 4
  {
    CidrText(ZeroedFrom(block, k), 8 * k)
  }

  function ZeroedFrom(block: Bytes, k: nat): (r: Bytes)
    requires k <= |block|
    ensures |r| == |block|
  {
    block[..k] + seq(|block| - k, _ => 0)
  }

  lemma WildcardComparesOctets(ip: Bytes, block: Bytes, k: nat)
    requires |ip| == 4 && |block| == 4 && k <= 4
    ensures WildcardMatches(Quad(ip), WildcardOf(block, k)) <==> ip[..k] == block[..k]
  {
    QuadSplits(ip);
    SplitFour(PatternOctet(block, k, 0), PatternOctet(block, k, 1),
              PatternOctet(block, k, 2), PatternOctet(block, k, 3));
    forall i | 0 <= i < 4
      ensures OctetMatches(Dec(ip[i] as nat), PatternOctet(block, k, i)) <==> i >= k || ip[i] == block[i]
    {
      OctetRoundTrip(ip[i]);
      OctetRoundTrip(block[i]);
      assert IsDigit(Dec(block[i] as nat)[0]);
    }
    var a, b := Split(Quad(ip), '.'), Split(WildcardOf(block, k), '.');
    forall i | 0 <= i < 4 ensures a[i] == Dec(ip[i] as nat) && b[i] == PatternOctet(block, k, i) {}
    if ip[..k] == block[..k] {
      forall i | 0 <= i < k ensures ip[i] == block[i] { assert ip[..k][i] == block[..k][i]; }
    }
  }

  lemma {:induction false} TrimScopeIs(s: string, scope: string)
    requires '%' !in s
    ensures TrimScope(s) == TrimScope(s + "%" + scope) == s
  {
    if s != "" {
      TrimScopeIs(s[1..], scope);
      assert s == [s[0]] + s[1..];
      assert (s + "%" + scope)[1..] == s[1..] + "%" + scope;
    }
  }

  lemma QuadCharacters(ip: Bytes, c: char)
    requires |ip| == 4 && !IsDigit(c) && c != '.'
    ensures c !in Quad(ip)
  {
  }

  lemma CidrParses(quad: Bytes, p: nat, colon: ColonParser)
    requires |quad| == 4 && p <= 32
    ensures ParseCIDR(CidrText(quad, p), colon) == Some(Network(Masked(quad, p), p))
  {
    QuadCharacters(quad, ':');
    QuadCharacters(quad, '/');
    QuadRoundTrip(quad);
    DecimalRoundTrip(p);
    SplitJoin(Quad(quad), '/', Dec(p));
    SplitJoin(Dec(p), '/', "");
    assert CidrText(quad, p) == Quad(quad) + ['/'] + Dec(p);
  }

  /** On canonical IPv4 text a CIDR of any prefix length contains exactly the addresses with the same
      leading bits, whatever its quad has beyond them. */
  lemma CidrComparesBits(ip: Bytes, quad: Bytes, p: nat, colon: ColonParser)
    requires |ip| == 4 && |quad| == 4 && p <= 32
    ensures CidrMatches(Quad(ip), CidrText(quad, p), colon) <==> SameBits(quad, ip, p)
  {
    CidrParses(quad, p, colon);
    QuadCharacters(ip, '%');
    QuadCharacters(ip, ':');
    TrimScopeIs(Quad(ip), "");
    QuadRoundTrip(ip);
    var masked := Masked(quad, p);
    ContainsIff(Network(masked, p), Mapped(ip));
    assert Mapped(ip)[12..] == ip;
    forall i | 0 <= i < p ensures BitAt(masked, i) == BitAt(quad, i) {
      MaskedBits(quad, p, i);
    }
    assert SameBits(masked, ip, p) <==> SameBits(quad, ip, p) by {
      if SameBits(quad, ip, p) {
        forall i | 0 <= i < p ensures BitAt(masked, i) == BitAt(ip, i) {
          assert BitAt(quad, i) == BitAt(ip, i);
        }
      }
    }
  }

  lemma CidrComparesOctets(ip: Bytes, block: Bytes, k: nat, colon: ColonParser)
    requires |ip| == 4 && |block| == 4 && k <= 4
    ensures CidrMatches(Quad(ip), CidrOf(block, k), colon) <==> ip[..k] == block[..k]
  {
    var zeroed := ZeroedFrom(block, k);
    CidrComparesBits(ip, zeroed, 8 * k, colon);
    AlignedPrefix(zeroed, ip, k);
    assert zeroed[..k] == block[..k];
  }

  /** On canonical IPv4 text, `k` literal octets and stars match exactly the addresses of the
      block of prefix length `8 * k`. */
  lemma WildcardIsCidr(ip: Bytes, block: Bytes, k: nat, colon: ColonParser)
    requires |ip| == 4 && |block| == 4 && k <= 4
    ensures WildcardMatches(Quad(ip), WildcardOf(block, k)) <==> CidrMatches(Quad(ip), CidrOf(block, k), colon)
  {
    WildcardComparesOctets(ip, block, k);
    CidrComparesOctets(ip, block, k, colon);
  }
}
