/** Reserved zones: what the radix tree means for CIDR ranges (geodb/specialRange.go). */
module ReservedZones {
  import opened Addresses
  import opened GoTypes
  import opened ReservedTree

  /** Reserved ranges written with a ':' go to one tree, the others to the other tree. */
  datatype TableLine = TableLine(hasColon: bool, entry: Entry)

  function Family(lines: seq<TableLine>, colon: bool): seq<Entry> {
    if lines == [] then []
    else
      var front := Family(lines[..|lines| - 1], colon);
      var last := lines[|lines| - 1];
      if last.hasColon == colon then front + [last.entry] else front
  }

  lemma StoreAppends(es: seq<Entry>, e: Entry)
    ensures StoreAll(AsStored(es + [e])) == StoreAll(AsStored(es))[KeyOf(e.net) := e.zone]
  {
    var ss, ts := AsStored(es), AsStored(es + [e]);
    SameFirst(ss, ts, |ss|);
  }

  lemma SameFirst(ss: seq<Stored>, ts: seq<Stored>, n: nat)
    requires n <= |ss| && n <= |ts|
    requires forall i :: 0 <= i < n ==> ss[i] == ts[i]
    ensures StoreFirst(ss, n) == StoreFirst(ts, n)
  {
  }

  /** One turn of the loop in `initReservedIPTrees`. */
  method InsertLine(v4: RadixTree, v6: RadixTree, line: TableLine, ghost before: seq<TableLine>)
    requires v4.Valid() && v6.Valid() && v4 != v6
    requires v4.repr !! v6.repr
    requires v4.contents == StoreAll(AsStored(Family(before, false)))
    requires v6.contents == StoreAll(AsStored(Family(before, true)))
    modifies v4, v4.repr, v6, v6.repr
    ensures v4.Valid() && v6.Valid() && fresh(v4.repr - old(v4.repr)) && fresh(v6.repr - old(v6.repr))
    ensures v4.repr !! v6.repr
    ensures v4.contents == StoreAll(AsStored(Family(before + [line], false)))
    ensures v6.contents == StoreAll(AsStored(Family(before + [line], true)))
  {
    assert (before + [line])[..|before|] == before;
    StoreAppends(Family(before, line.hasColon), line.entry);
    if line.hasColon {
      v6.InsertEntry(line.entry);
    } else {
      v4.InsertEntry(line.entry);
    }
  }

  /** `initReservedIPTrees`, for one order in which Go may visit its table. */
  method InitReservedIPTrees(lines: seq<TableLine>) returns (v4: RadixTree, v6: RadixTree)
    ensures fresh(v4) && fresh(v6) && v4.Valid() && v6.Valid()
    ensures v4.contents == StoreAll(AsStored(Family(lines, false)))
    ensures v6.contents == StoreAll(AsStored(Family(lines, true)))
  {
    v4 := new RadixTree();
    v6 := new RadixTree();
    assert lines[..0] == [];
    for i := 0 to |lines|
      invariant fresh(v4) && fresh(v4.repr) && v4.Valid()
      invariant fresh(v6) && fresh(v6.repr) && v6.Valid()
      invariant v4 != v6 && v4.repr !! v6.repr
      invariant v4.contents == StoreAll(AsStored(Family(lines[..i], false)))
      invariant v6.contents == StoreAll(AsStored(Family(lines[..i], true)))
    {
      InsertLine(v4, v6, lines[i], lines[..i]);
      assert lines[..i + 1] == lines[..i] + [lines[i]];
    }
    assert lines[..|lines|] == lines;
  }

  /** `getReservedIPZone`. `parsed` is what `net.ParseIP` made of the text, `hasColon` whether
      the text contains a ':'. */
  method GetReservedIPZone(parsed: Option<Bytes>, hasColon: bool, v4: RadixTree, v6: RadixTree)
    returns (zone: string)
    requires v4.Valid() && v6.Valid()
    ensures zone == Zone(parsed, hasColon, v4.contents, v6.contents)
  {
    if parsed.None? {
      return "";
    }
    var ip := parsed.value;
    var isIPv4Str := To4(ip).Some? && !hasColon;
    if isIPv4Str {
      zone := v4.Search(ip);
    } else {
      zone := v6.Search(ip);
    }
  }

  function Zone(parsed: Option<Bytes>, hasColon: bool, m4: map<Path, string>, m6: map<Path, string>): string {
    if parsed.None? then ""
    else Lookup(if To4(parsed.value).Some? && !hasColon then m4 else m6, AddressPath(parsed.value))
  }

  function AddressPath(ip: Bytes): Path {
    FullPath(Walked(ip).GetOr([]))
  }

  // ---------------------------------------------------------------- what a range means

  /** `net.ParseCIDR` returns 4 or 16 bytes with everything beyond the prefix cleared. */
  ghost predicate Parsed(net: Network) {
    && |net.ip| in {4, 16}
    && net.prefixLen <= 8 * |net.ip|
    && forall i :: net.prefixLen <= i < 8 * |net.ip| ==> BitAt(net.ip, i) == 0
  }

  /** The range of section 3.1 of RFC 4632, on 16-byte addresses. */
  ghost predicate Covers(net: Network, ip: Bytes)
    requires |ip| == 16
  {
    Contains(To16(net.ip).GetOr([]), if |net.ip| == 4 then net.prefixLen + 96 else net.prefixLen, ip)
  }

  /** The prefix length fits the bytes that `insert` walks along. */
  predicate Fits(net: Network) {
    net.prefixLen <= 8 * |Walked(net.ip).GetOr([])|
  }

  ghost predicate StoredPrefixOf(net: Network, ip: Bytes)
    requires Walked(net.ip).Some?
  {
    KeyOf(net).PrefixOf(AddressPath(ip))
  }

  /** A network loses 12 bytes on insertion exactly if it lies in ::ffff:0:0/96, and then its
      prefix length is too long for what is left. */
  lemma FitsUnlessMapped(net: Network)
    requires Parsed(net)
    ensures Fits(net) <==> |Walked(net.ip).value| == |net.ip|
    ensures !Fits(net) ==> net.prefixLen >= 96 && |net.ip| == 16 && |Walked(net.ip).value| == 4
  {
    if |net.ip| == 16 && To4(net.ip).Some? {
      assert net.ip[11] == net.ip[..12][11] == 0xff;
      assert BitAt(net.ip, 95) == BitOf(0xff, 7) == 1;
    }
  }

  lemma EmbeddedBits(x: Bytes, i: nat)
    requires |x| == 4 && i < 32
    ensures BitAt(V4_IN_V6_PREFIX + x, 96 + i) == BitAt(x, i)
  {
  }

  /** All bytes are walked along. */
  predicate Whole(net: Network) {
    |net.ip| in {4, 16} && net.prefixLen <= 8 * |net.ip| && Walked(net.ip) == Some(net.ip)
  }

  /** Then, for addresses of the network's own family, the stored key is a prefix of exactly those
      in the range. */
  lemma StoredPrefixIsRange(net: Network, ip: Bytes)
    requires Whole(net)
    requires |ip| == 16 && |Walked(ip).value| == |net.ip|
    ensures StoredPrefixOf(net, ip) <==> Covers(net, ip)
  {
    var walked := Walked(ip).value;
    PrefixMeansEqualBits(net.ip, net.prefixLen, walked, 8 * |walked|);
    if |net.ip| == 4 {
      assert ip == V4_IN_V6_PREFIX + walked;
      forall i | 0 <= i < net.prefixLen
        ensures BitAt(To16(net.ip).value, 96 + i) == BitAt(net.ip, i) && BitAt(ip, 96 + i) == BitAt(walked, i)
      {
        EmbeddedBits(net.ip, i);
        EmbeddedBits(walked, i);
      }
      forall i | 0 <= i < 96 ensures BitAt(To16(net.ip).value, i) == BitAt(ip, i) {}
      if Covers(net, ip) {
        forall i | 0 <= i < net.prefixLen ensures BitAt(net.ip, i) == BitAt(walked, i) {
          assert BitAt(To16(net.ip).value, 96 + i) == BitAt(ip, 96 + i);
        }
      }
      if SameBits(net.ip, walked, net.prefixLen) {
        forall i | 0 <= i < 96 + net.prefixLen ensures BitAt(To16(net.ip).value, i) == BitAt(ip, i) {
          if i >= 96 {
            assert BitAt(net.ip, i - 96) == BitAt(walked, i - 96);
          }
        }
      }
    }
  }

  /** An address of the network's own family that a misplaced network captures although it is
      outside its range. */
  function Captured(net: Network): Bytes {
    Walked(net.ip).GetOr([]) + [1, 0, 0, 0, 0, 0, 0, 0, 0, 0, 0, 0]
  }

  lemma MisplacedCaptures(net: Network)
    requires Parsed(net) && !Fits(net)
    ensures |Captured(net)| == 16 && |Walked(Captured(net)).value| == |net.ip|
    ensures StoredPrefixOf(net, Captured(net)) && !Covers(net, Captured(net))
  {
    FitsUnlessMapped(net);
    var walked, ip := Walked(net.ip).value, Captured(net);
    assert ip[4] == 1;
    assert ip[..12][4] == 1 && net.ip[..12][4] == 0;
    AlignedPrefix(walked, ip, 4);
    PrefixMeansEqualBits(walked, 32, ip, 128);
    assert BitAt(ip, 39) == BitOf(1, 7) == 1;
    assert BitAt(net.ip, 39) == BitOf(0, 7) == 0;
  }

  /** For addresses of its own family `insert` represents a range faithfully exactly if the
      prefix length fits the bytes it walks along. These are all the addresses that the IPv4 tree
      is asked about. */
  lemma FaithfulIffFits(net: Network)
    requires Parsed(net)
    ensures Fits(net) <==>
            forall ip: Bytes :: |ip| == 16 && |Walked(ip).value| == |net.ip| ==>
                           (StoredPrefixOf(net, ip) <==> Covers(net, ip))
  {
    FitsUnlessMapped(net);
    if Fits(net) {
      forall ip: Bytes | |ip| == 16 && |Walked(ip).value| == |net.ip|
        ensures StoredPrefixOf(net, ip) <==> Covers(net, ip)
      {
        StoredPrefixIsRange(net, ip);
      }
    } else {
      MisplacedCaptures(net);
    }
  }

  // ------------------------------------------------- mapped addresses in the IPv6 tree

  /** `::ffff:0:0/96`, the range of these addresses, which the table names IPv4Mapped. */
  const MAPPED: Network := Network(V4_IN_V6_PREFIX + [0, 0, 0, 0], 96)

  /** The IPv6 tree is also asked about mapped addresses written with a colon, and walks along
      their last four bytes. */
  lemma MappedIsReadFromItsQuad(net: Network, quad: Bytes)
    requires |net.ip| == 16 && Whole(net) && |quad| == 4
    ensures StoredPrefixOf(net, Mapped(quad)) <==> net.prefixLen <= 32 && SameBits(net.ip, quad, net.prefixLen)
  {
    if net.prefixLen <= 32 {
      PrefixMeansEqualBits(net.ip, net.prefixLen, quad, 32);
    } else if StoredPrefixOf(net, Mapped(quad)) {
      PrefixIsNotLonger(KeyOf(net), AddressPath(Mapped(quad)));
    }
  }

  lemma ZeroBits(k: nat)
    requires k < 8
    ensures BitOf(0, k) == 0
    decreases 8 - k
  {
  }

  /** The first eighty bits of a mapped address are zero. */
  lemma MappedStartsWithZeros(quad: Bytes, i: nat)
    requires |quad| == 4 && i < 80
    ensures BitAt(Mapped(quad), i) == 0
  {
    assert Mapped(quad)[i / 8] == V4_IN_V6_PREFIX[i / 8] == 0;
    ZeroBits(i % 8);
  }

  lemma LongRangesMissMapped(net: Network, quad: Bytes)
    requires |net.ip| == 16 && Whole(net) && |quad| == 4
    ensures Covers(net, Mapped(quad)) ==> net.prefixLen < 96
  {
    if net.prefixLen >= 96 && Covers(net, Mapped(quad)) {
      AlignedPrefix(net.ip, Mapped(quad), 12);
    }
  }

  /** A range that covers one mapped address and does not lie among them covers them all. */
  lemma CoversAllMapped(net: Network, quad: Bytes)
    requires |net.ip| == 16 && Whole(net) && |quad| == 4
    ensures Covers(net, Mapped(quad)) <==> Covers(net, MAPPED.ip)
  {
    LongRangesMissMapped(net, quad);
    LongRangesMissMapped(net, [0, 0, 0, 0]);
    assert Mapped(quad)[..12] == MAPPED.ip[..12];
    AlignedPrefix(Mapped(quad), MAPPED.ip, 12);
    assert forall i :: 0 <= i < 96 ==> BitAt(Mapped(quad), i) == BitAt(MAPPED.ip, i);
  }

  /** Some mapped address is misread if the prefix is short but not empty: one that begins like
      the network, or, for a network of zeros, one that does not. */
  lemma ShortPrefixMisreads(net: Network) returns (quad: Bytes)
    requires Parsed(net) && |net.ip| == 16 && 0 < net.prefixLen <= 32
    ensures |quad| == 4 && !(StoredPrefixOf(net, Mapped(quad)) <==> Covers(net, Mapped(quad)))
  {
    FitsUnlessMapped(net);
    if i :| 0 <= i < net.prefixLen && BitAt(net.ip, i) == 1 {
      quad := net.ip[..4];
      AlignedPrefix(net.ip, quad, 4);
      assert quad[..4] == quad;
      MappedIsReadFromItsQuad(net, quad);
      MappedStartsWithZeros(quad, i);
    } else {
      quad := [255, 255, 255, 255];
      MappedIsReadFromItsQuad(net, quad);
      assert BitAt(quad, 0) == BitOf(255, 0) == 1;
      assert BitAt(net.ip, 0) == 0;
      forall i | 0 <= i < net.prefixLen ensures BitAt(net.ip, i) == BitAt(Mapped(quad), i) {
        MappedStartsWithZeros(quad, i);
      }
    }
  }

  /** What it takes for an IPv6 range to be read rightly at every address that its tree can be
      asked about. Fitting is not enough. */
  lemma FaithfulEverywhereIff(net: Network)
    requires Parsed(net) && |net.ip| == 16
    ensures (forall ip: Bytes :: |ip| == 16 ==> (StoredPrefixOf(net, ip) <==> Covers(net, ip)))
            <==> net.prefixLen == 0 || (net.prefixLen > 32 && Fits(net) && !Covers(net, MAPPED.ip))
  {
    FitsUnlessMapped(net);
    if net.prefixLen == 0 {
      forall ip: Bytes | |ip| == 16 ensures StoredPrefixOf(net, ip) && Covers(net, ip) {
        PrefixMeansEqualBits(net.ip, 0, Walked(ip).value, 8 * |Walked(ip).value|);
      }
    } else if net.prefixLen <= 32 {
      var quad := ShortPrefixMisreads(net);
    } else if !Fits(net) {
      MisplacedCaptures(net);
    } else {
      forall ip: Bytes | |ip| == 16
        ensures (StoredPrefixOf(net, ip) <==> Covers(net, ip)) <==> To4(ip).None? || !Covers(net, MAPPED.ip)
      {
        if To4(ip).None? {
          StoredPrefixIsRange(net, ip);
        } else {
          assert ip == Mapped(ip[12..]);
          MappedIsReadFromItsQuad(net, ip[12..]);
          CoversAllMapped(net, ip[12..]);
        }
      }
      assert To4(MAPPED.ip).Some?;
    }
  }

  // ---------------------------------------------------------------- lookups over a table

  /** `zone` belongs to the longest range that covers `ip`, or no range does and it is "". */
  ghost predicate LongestRange(es: seq<Entry>, ip: Bytes, zone: string)
    requires |ip| == 16
  {
    || (zone == "" && forall i :: 0 <= i < |es| ==> !Covers(es[i].net, ip))
    || (exists i :: 0 <= i < |es| && Covers(es[i].net, ip) && es[i].zone == zone
                    && forall j :: 0 <= j < |es| && Covers(es[j].net, ip) ==>
                         es[j].net.prefixLen <= es[i].net.prefixLen)
  }

  /** End to end, over any table in any order, for any address: the tree answers with the longest
      covering range if every covering range is stored above the address with its full length, and
      whatever else is stored above it is shorter than some covering range. */
  lemma TreeAnswersLongestRange(es: seq<Entry>, ip: Bytes)
    requires |ip| == 16
    requires forall i :: 0 <= i < |es| && Covers(es[i].net, ip) ==>
               StoredPrefixOf(es[i].net, ip) && KeyOf(es[i].net).Length() == es[i].net.prefixLen
    requires forall i :: 0 <= i < |es| && StoredPrefixOf(es[i].net, ip) && !Covers(es[i].net, ip) ==>
               exists j :: 0 <= j < |es| && Covers(es[j].net, ip) && KeyOf(es[i].net).Length() < es[j].net.prefixLen
    ensures LongestRange(es, ip, Lookup(StoreAll(AsStored(es)), AddressPath(ip)))
  {
    var ss, p := AsStored(es), AddressPath(ip);
    LookupAfterInserts(ss, p);
    assert forall i :: 0 <= i < |es| ==> ss[i] == Stored(KeyOf(es[i].net), es[i].zone);
    if i: nat :| Answers(ss, p, i) && Lookup(StoreAll(ss), p) == ss[i].zone {
      assert Covers(es[i].net, ip);
    }
  }

  /** The answer is unique if ranges of one length that cover the address have one zone. */
  lemma LongestRangeIsUnique(es: seq<Entry>, ip: Bytes, y: string, z: string)
    requires |ip| == 16
    requires forall e, f :: e in es && f in es && Covers(e.net, ip) && Covers(f.net, ip) ==>
               e.net.prefixLen != f.net.prefixLen || e.zone == f.zone
    requires LongestRange(es, ip, y) && LongestRange(es, ip, z)
    ensures y == z
  {
  }

  // ---------------------------------------------------------------- the table as it stands

  /** A line of the table: the leading bytes of a range, the rest being zero. */
  datatype Lead = Lead(bytes: Bytes, prefixLen: nat, zone: string)

  function Padded(lead: Bytes, size: nat): (ip: Bytes)
    requires |lead| <= size
    ensures |ip| == size
  {
    lead + seq(size - |lead|, _ => 0)
  }

  const LEADS_V4: seq<Lead> := [
    Lead([10], 8, "Private"),
    Lead([172, 16], 12, "Private"),
    Lead([192, 168], 16, "Private"),
    Lead([100, 64], 10, "CarrierNAT"),
    Lead([127], 8, "Loopback"),
    Lead([169, 254], 16, "LinkLocal"),
    Lead([224], 4, "Multicast"),
    Lead([240], 4, "Reserved"),
    Lead([192, 0, 2], 24, "Documentation"),
    Lead([198, 51, 100], 24, "Documentation"),
    Lead([203, 0, 113], 24, "Documentation"),
    Lead([198, 18], 15, "Interconnect")
  ]

  const LEADS_V6: seq<Lead> := [
    Lead([0xfe, 0x80], 10, "LinkLocal"),
    Lead([0xfc], 7, "UniqueLocal"),
    Lead([0xff], 8, "Multicast"),
    Lead([0x20, 0x01, 0x0d, 0xb8], 32, "Documentation"),
    Lead([0x20, 0x02], 16, "6to4"),
    Lead([0x20, 0x01], 32, "Teredo"),
    Lead([0x20, 0x01, 0x00, 0x20], 28, "ORCHID"),
    Lead([0x20, 0x01, 0x00, 0x02], 48, "Benchmarking"),
    Lead([0x01], 64, "Discard"),
    Lead([0x00, 0x64, 0xff, 0x9b], 96, "Translation"),
    Lead([0x00, 0x64, 0xff, 0x9b, 0x00, 0x01], 48, "Translation")
  ]

  const UNSPECIFIED: Network := Network(Padded([], 16), 128)
  const LOOPBACK: Network := Network([0, 0, 0, 0, 0, 0, 0, 0, 0, 0, 0, 0, 0, 0, 0, 1], 128)

  /** A line that makes an entry. */
  predicate Sound(l: Lead, size: nat) {
    |l.bytes| <= size && l.prefixLen <= 8 * size && l.zone != ""
  }

  function LeadEntry(l: Lead, size: nat): Entry
    requires Sound(l, size) && size in {4, 16}
  {
    ReservedRange(Network(Padded(l.bytes, size), l.prefixLen), l.zone)
  }

  /** The twelve IPv4 lines of the table. */
  ghost predicate InTableV4(e: Entry) {
    exists l :: l in LEADS_V4 && Sound(l, 4) && e == LeadEntry(l, 4)
  }

  /** The fourteen IPv6 lines of the table. */
  ghost predicate InTableV6(e: Entry) {
    || e == ReservedRange(MAPPED, "IPv4Mapped")
    || e == ReservedRange(UNSPECIFIED, "Unspecified")
    || e == ReservedRange(LOOPBACK, "Loopback")
    || exists l :: l in LEADS_V6 && Sound(l, 16) && e == LeadEntry(l, 16)
  }

  function Lines(leads: seq<Lead>, size: nat): (es: seq<Entry>)
    requires size in {4, 16} && forall l :: l in leads ==> Sound(l, size)
    ensures |es| == |leads| && forall i :: 0 <= i < |es| ==> es[i] == LeadEntry(leads[i], size)
  {
    seq(|leads|, i requires 0 <= i < |leads| => LeadEntry(leads[i], size))
  }

  /** The lines as lists; Go visits them in any order. */
  function TableV4(): seq<Entry> {
    Lines(LEADS_V4, 4)
  }

  function TableV6(): seq<Entry> {
    [ReservedRange(MAPPED, "IPv4Mapped"), ReservedRange(UNSPECIFIED, "Unspecified"),
     ReservedRange(LOOPBACK, "Loopback")]
    + Lines(LEADS_V6, 16)
  }

  lemma LinesAre(leads: seq<Lead>, size: nat, e: Entry)
    requires size in {4, 16} && forall l :: l in leads ==> Sound(l, size)
    ensures e in Lines(leads, size) <==> exists l :: l in leads && Sound(l, size) && e == LeadEntry(l, size)
  {
    var es := Lines(leads, size);
    if e in es {
      var k :| 0 <= k < |es| && es[k] == e;
      assert leads[k] in leads;
    }
    if l :| l in leads && Sound(l, size) && e == LeadEntry(l, size) {
      var k :| 0 <= k < |leads| && leads[k] == l;
      assert es[k] == e;
    }
  }

  lemma TableV4IsTheTable(e: Entry)
    ensures e in TableV4() <==> InTableV4(e)
  {
    LinesAre(LEADS_V4, 4, e);
  }

  lemma TableV6IsTheTable(e: Entry)
    ensures e in TableV6() <==> InTableV6(e)
  {
    LinesAre(LEADS_V6, 16, e);
  }

  /** `b` can be halved `n` times without a remainder. */
  predicate EvenTimes(b: nat, n: nat) {
    n == 0 || (b % 2 == 0 && EvenTimes(b / 2, n - 1))
  }

  lemma {:induction false} LowBitsAreZero(b: nat, n: nat, j: nat)
    requires 8 <= n + j && j < 8 && EvenTimes(b, n)
    ensures BitOf(b, j) == 0
    decreases 8 - j
  {
    if j < 7 {
      LowBitsAreZero(b / 2, n - 1, j + 1);
    }
  }

  /** The bytes of the table in which a prefix ends. */
  lemma EvenBytes()
    ensures EvenTimes(0x10, 4) && EvenTimes(0x20, 4) && EvenTimes(0xe0, 4) && EvenTimes(0xf0, 4)
    ensures EvenTimes(0x40, 6) && EvenTimes(0x80, 6)
    ensures EvenTimes(0x12, 1) && EvenTimes(0xfc, 1)
  {
  }

  /** From bit `n` on there are only zeros: in the byte that the prefix ends in, and after it. */
  lemma TailIsZero(ip: Bytes, n: nat)
    requires n <= 8 * |ip| && (n % 8 == 0 || EvenTimes(ip[n / 8] as int, 8 - n % 8))
    requires forall k :: (n + 7) / 8 <= k < |ip| ==> ip[k] == 0
    ensures forall i :: n <= i < 8 * |ip| ==> BitAt(ip, i) == 0
  {
    forall i | n <= i < 8 * |ip| ensures BitAt(ip, i) == 0 {
      if i / 8 == n / 8 && n % 8 != 0 {
        LowBitsAreZero(ip[n / 8] as int, 8 - n % 8, i % 8);
      } else {
        assert ip[i / 8] == 0;
        ZeroBits(i % 8);
      }
    }
  }

  /** Lines as `net.ParseCIDR` leaves them: beyond the prefix there are only zeros. */
  lemma TailsV4(l: Lead)
    requires l in LEADS_V4
    ensures Sound(l, 4)
    ensures forall k :: (l.prefixLen + 7) / 8 <= k < 4 ==> Padded(l.bytes, 4)[k] == 0
  {
  }

  lemma LastByteV4(l: Lead)
    requires l in LEADS_V4 && Sound(l, 4)
    ensures l.prefixLen % 8 == 0 || EvenTimes(Padded(l.bytes, 4)[l.prefixLen / 8] as int, 8 - l.prefixLen % 8)
  {
    EvenBytes();
  }

  lemma LinesV4AreParsed(l: Lead)
    requires l in LEADS_V4
    ensures Sound(l, 4) && Parsed(Network(Padded(l.bytes, 4), l.prefixLen))
  {
    TailsV4(l);
    LastByteV4(l);
    TailIsZero(Padded(l.bytes, 4), l.prefixLen);
  }

  lemma TailsV6(l: Lead)
    requires l in LEADS_V6
    ensures Sound(l, 16)
    ensures forall k :: (l.prefixLen + 7) / 8 <= k < 16 ==> Padded(l.bytes, 16)[k] == 0
  {
  }

  lemma LastByteV6(l: Lead)
    requires l in LEADS_V6 && Sound(l, 16)
    ensures l.prefixLen % 8 == 0 || EvenTimes(Padded(l.bytes, 16)[l.prefixLen / 8] as int, 8 - l.prefixLen % 8)
  {
    EvenBytes();
  }

  lemma LinesV6AreParsed(l: Lead)
    requires l in LEADS_V6
    ensures Sound(l, 16) && Parsed(Network(Padded(l.bytes, 16), l.prefixLen))
  {
    TailsV6(l);
    LastByteV6(l);
    TailIsZero(Padded(l.bytes, 16), l.prefixLen);
  }

  /** A covered address begins with the bytes of the range. */
  lemma CoveredBytes(net: Network, ip: Bytes, k: nat)
    requires |net.ip| == 16 && |ip| == 16 && Covers(net, ip) && 8 * k <= net.prefixLen
    ensures ip[..k] == net.ip[..k]
  {
    AlignedPrefix(net.ip, ip, k);
  }

  // ------------------------------------------------- the IPv4 lines

  /** The IPv4 range that covers the quad, in terms of its own bits. */
  lemma CoversQuad(net: Network, quad: Bytes)
    requires |net.ip| == 4 && net.prefixLen <= 32 && |quad| == 4
    ensures Covers(net, Mapped(quad)) <==> SameBits(net.ip, quad, net.prefixLen)
  {
    StoredPrefixIsRange(net, Mapped(quad));
    PrefixMeansEqualBits(net.ip, net.prefixLen, quad, 32);
  }

  /** Which zone a line of this length has that covers addresses with this first byte. */
  function ZoneV4(prefixLen: nat, first: byte): string {
    match prefixLen
    case 4 => if BitOf(first as int, 3) == 0 then "Multicast" else "Reserved"
    case 8 => if first == 10 then "Private" else "Loopback"
    case 10 => "CarrierNAT"
    case 15 => "Interconnect"
    case 16 => if first == 192 then "Private" else "LinkLocal"
    case 24 => "Documentation"
    case _ => "Private"
  }

  lemma FirstByteV4(l: Lead)
    requires l in LEADS_V4
    ensures |l.bytes| > 0 && 4 <= l.prefixLen <= 32 && (l.prefixLen < 8 ==> l.prefixLen == 4)
    ensures l.zone == ZoneV4(l.prefixLen, l.bytes[0])
  {
    assert BitOf(224, 3) == 0 && BitOf(240, 3) == 1;
  }

  lemma LengthTellsZoneV4(e: Entry, quad: Bytes)
    requires InTableV4(e) && |quad| == 4 && Covers(e.net, Mapped(quad))
    ensures e.zone == ZoneV4(e.net.prefixLen, quad[0])
  {
    var l :| l in LEADS_V4 && Sound(l, 4) && e == LeadEntry(l, 4);
    FirstByteV4(l);
    CoversQuad(e.net, quad);
    if e.net.prefixLen >= 8 {
      AlignedPrefix(e.net.ip, quad, 1);
      assert e.net.ip[..1][0] == quad[..1][0];
    } else {
      assert BitAt(e.net.ip, 3) == BitAt(quad, 3);
    }
  }

  /** The IPv4 table as it stands, visited in any order, gives every IPv4 address the zone of the
      longest range that covers it, or "" if none does. */
  lemma TableV4AnswersLongestRange(es: seq<Entry>, ip: Bytes, zone: string)
    requires forall e: Entry :: e in es <==> InTableV4(e)
    requires |ip| == 16 && To4(ip).Some?
    ensures zone == Lookup(StoreAll(AsStored(es)), AddressPath(ip)) <==> LongestRange(es, ip, zone)
  {
    var quad := ip[12..];
    assert ip == Mapped(quad);
    forall i | 0 <= i < |es|
      ensures Whole(es[i].net) && KeyOf(es[i].net).Length() == es[i].net.prefixLen
      ensures StoredPrefixOf(es[i].net, ip) <==> Covers(es[i].net, ip)
    {
      assert es[i] in es;
      StoredPrefixIsRange(es[i].net, ip);
    }
    TreeAnswersLongestRange(es, ip);
    forall e | e in es && Covers(e.net, ip) ensures e.zone == ZoneV4(e.net.prefixLen, quad[0]) {
      LengthTellsZoneV4(e, quad);
    }
    if LongestRange(es, ip, zone) {
      LongestRangeIsUnique(es, ip, zone, Lookup(StoreAll(AsStored(es)), AddressPath(ip)));
    }
  }

  // ------------------------------------------------- the IPv6 lines

  /** The lines other than IPv4Mapped are walked along whole. */
  lemma OthersAreWhole(e: Entry)
    requires InTableV6(e) && e.zone != "IPv4Mapped"
    ensures |e.net.ip| == 16 && Whole(e.net) && KeyOf(e.net).Length() == e.net.prefixLen
  {
    assert e.net.ip[..12][11] == e.net.ip[11];
  }

  /** Which zone a covering line of this length has. */
  function ZoneV6(prefixLen: nat, ip: Bytes): string
    requires |ip| == 16
  {
    match prefixLen
    case 7 => "UniqueLocal"
    case 8 => "Multicast"
    case 10 => "LinkLocal"
    case 16 => "6to4"
    case 28 => "ORCHID"
    case 32 => if ip[2] == 0x0d then "Documentation" else "Teredo"
    case 48 => if ip[0] == 0x20 then "Benchmarking" else "Translation"
    case 64 => "Discard"
    case 96 => if ip[1] == 0x64 then "Translation" else "IPv4Mapped"
    case _ => if ip[15] == 0 then "Unspecified" else "Loopback"
  }

  lemma LineTellsZoneV6(l: Lead)
    requires l in LEADS_V6 && Sound(l, 16)
    ensures l.prefixLen <= 96 && l.zone == ZoneV6(l.prefixLen, Padded(l.bytes, 16))
  {
  }

  lemma EntryTellsZoneV6(e: Entry)
    requires InTableV6(e)
    ensures |e.net.ip| == 16 && e.zone == ZoneV6(e.net.prefixLen, e.net.ip)
    ensures e.net.prefixLen <= 96 || e.net in {UNSPECIFIED, LOOPBACK}
  {
    if l :| l in LEADS_V6 && Sound(l, 16) && e == LeadEntry(l, 16) {
      LineTellsZoneV6(l);
    }
  }

  lemma LengthTellsZoneV6(e: Entry, ip: Bytes)
    requires InTableV6(e) && |ip| == 16 && Covers(e.net, ip)
    ensures e.zone == ZoneV6(e.net.prefixLen, ip)
  {
    EntryTellsZoneV6(e);
    if e.net.prefixLen > 96 {
      WholeAddressOnly(e.net, ip);
    } else if e.net.prefixLen >= 32 {
      var net := e.net.ip;
      CoveredBytes(e.net, ip, 3);
      assert net[..3][0] == ip[..3][0] && net[..3][1] == ip[..3][1] && net[..3][2] == ip[..3][2];
    }
  }

  lemma OneBitIn(l: Lead) returns (i: nat)
    requires l in LEADS_V6
    ensures |l.bytes| <= 8 && i < 8 * |l.bytes| && i < 32 && i < l.prefixLen <= 96
    ensures BitAt(l.bytes, i) == 1
  {
    assert BitOf(0xfe, 0) == BitOf(0xfc, 0) == BitOf(0xff, 0) == 1;
    assert BitOf(0x20, 2) == BitOf(0x01, 7) == BitOf(0x64, 1) == 1;
    var b := l.bytes[0];
    i := if b == 0 then 9 else if b == 0x01 then 7 else if b == 0x20 then 2 else 0;
  }

  /** A line with a leading one neither covers an address with four leading zero bytes nor is
      stored above a path of 32 zeros. */
  lemma LeadsExclude(l: Lead, bytes: Bytes, i: nat)
    requires l in LEADS_V6 && Sound(l, 16)
    requires |bytes| >= 4 && bytes[..4] == [0, 0, 0, 0]
    requires i < 8 * |l.bytes| && i < 32 && i < l.prefixLen && BitAt(l.bytes, i) == 1
    ensures BitAt(Padded(l.bytes, 16), i) != BitAt(bytes, i)
  {
    assert bytes[i / 8] == bytes[..4][i / 8] == 0;
    ZeroBits(i % 8);
  }

  /** Over four zero bytes only three lines matter. */
  lemma ZerosLeaveThree(e: Entry, ip: Bytes)
    requires InTableV6(e) && e.net !in {MAPPED, UNSPECIFIED, LOOPBACK}
    requires |ip| == 16 && ip[..4] == [0, 0, 0, 0]
    ensures !Covers(e.net, ip)
    ensures (To4(ip).None? || ip[12..] == [0, 0, 0, 0]) ==> !StoredPrefixOf(e.net, ip)
  {
    OthersAreWhole(e);
    var l :| l in LEADS_V6 && Sound(l, 16) && e == LeadEntry(l, 16);
    var i := OneBitIn(l);
    LeadsExclude(l, ip, i);
    if To4(ip).None? {
      StoredPrefixIsRange(e.net, ip);
    } else if ip[12..] == [0, 0, 0, 0] {
      assert ip == Mapped(ip[12..]);
      LeadsExclude(l, ip[12..], i);
      MappedIsReadFromItsQuad(e.net, ip[12..]);
    }
  }

  /** :: and ::1 are lines for themselves alone. */
  lemma WholeAddressOnly(net: Network, ip: Bytes)
    requires net in {UNSPECIFIED, LOOPBACK} && |ip| == 16
    ensures Covers(net, ip) <==> ip == net.ip
    ensures StoredPrefixOf(net, ip) <==> ip == net.ip
  {
    assert net.ip[..12][11] == net.ip[11];
    AlignedPrefix(net.ip, ip, 16);
    assert net.ip == net.ip[..16] && ip == ip[..16];
    if To4(ip).None? {
      StoredPrefixIsRange(net, ip);
    } else {
      assert ip == Mapped(ip[12..]);
      MappedIsReadFromItsQuad(net, ip[12..]);
    }
  }

  /** The IPv4Mapped line covers the mapped addresses, but is stored as 32 zero bits. */
  lemma MappedLine(ip: Bytes)
    requires |ip| == 16
    ensures Covers(MAPPED, ip) <==> To4(ip).Some?
    ensures StoredPrefixOf(MAPPED, ip) <==> Walked(ip).value[..4] == [0, 0, 0, 0]
    ensures KeyOf(MAPPED).Length() == 32
  {
    assert MAPPED.ip[..12] == V4_IN_V6_PREFIX;
    AlignedPrefix(MAPPED.ip, ip, 12);
    var walked := Walked(ip).value;
    assert Walked(MAPPED.ip) == Some([0, 0, 0, 0]);
    AlignedPrefix([0, 0, 0, 0], walked, 4);
    PrefixMeansEqualBits([0, 0, 0, 0], 32, walked, 8 * |walked|);
  }

  /** And a mapped address is looked up by its last four bytes, so the line meant for such
      addresses answers for none of them but ::ffff:0.0.0.0. */
  lemma MappedLineMissesMapped(ip: Bytes)
    requires |ip| == 16 && To4(ip).Some?
    ensures Covers(MAPPED, ip)
    ensures StoredPrefixOf(MAPPED, ip) <==> ip == MAPPED.ip
  {
    MappedLine(ip);
    assert ip == Mapped(ip[12..]) && ip[12..][..4] == ip[12..];
  }

  /** Four leading zero bytes, but neither :: nor ::1 nor an IPv4-mapped address. */
  predicate LowAddress(ip: Bytes) {
    && |ip| == 16
    && ip[..4] == [0, 0, 0, 0]
    && To4(ip).None?
    && ip != UNSPECIFIED.ip && ip != LOOPBACK.ip
  }

  lemma OnlyStoredPrefixAnswers(es: seq<Entry>, e: Entry, ip: Bytes)
    requires e in es && StoredPrefixOf(e.net, ip)
    requires forall f :: f in es && StoredPrefixOf(f.net, ip) ==> f == e
    ensures Lookup(StoreAll(AsStored(es)), AddressPath(ip)) == e.zone
  {
    var ss := AsStored(es);
    LookupAfterInserts(ss, AddressPath(ip));
    var k :| 0 <= k < |es| && es[k] == e;
    assert ss[k] == Stored(KeyOf(e.net), e.zone);
    if i: nat :| Answers(ss, AddressPath(ip), i) && Lookup(StoreAll(ss), AddressPath(ip)) == ss[i].zone {
      assert es[i] in es && StoredPrefixOf(es[i].net, ip);
    }
  }

  lemma ZerosLeaveMapped(e: Entry, ip: Bytes)
    requires InTableV6(e) && (LowAddress(ip) || ip == MAPPED.ip) && StoredPrefixOf(e.net, ip)
    ensures e == ReservedRange(MAPPED, "IPv4Mapped")
  {
    assert UNSPECIFIED.ip[11] == LOOPBACK.ip[11] == 0 && MAPPED.ip[11] == 0xff;
    assert MAPPED.ip[..4] == MAPPED.ip[12..] == [0, 0, 0, 0];
    if e.net in {UNSPECIFIED, LOOPBACK} {
      WholeAddressOnly(e.net, ip);
    } else if e.net != MAPPED {
      ZerosLeaveThree(e, ip);
    } else {
      OnlyMappedIsMapped(e);
    }
  }

  /** Where four zero bytes are walked along and neither :: nor ::1 is meant, the table answers
      IPv4Mapped. */
  lemma ZerosReadAsMapped(es: seq<Entry>, ip: Bytes)
    requires forall e: Entry :: e in es <==> InTableV6(e)
    requires LowAddress(ip) || ip == MAPPED.ip
    ensures Lookup(StoreAll(AsStored(es)), AddressPath(ip)) == "IPv4Mapped"
  {
    var mapped: Entry := ReservedRange(MAPPED, "IPv4Mapped");
    MappedLine(ip);
    forall f | f in es && StoredPrefixOf(f.net, ip) ensures f == mapped {
      ZerosLeaveMapped(f, ip);
    }
    assert ip == MAPPED.ip ==> ip[12..][..4] == [0, 0, 0, 0];
    assert mapped in es;
    OnlyStoredPrefixAnswers(es, mapped, ip);
  }

  lemma OnlyMappedIsMapped(e: Entry)
    requires InTableV6(e)
    ensures e.net == MAPPED <==> e == ReservedRange(MAPPED, "IPv4Mapped")
    ensures e.zone == "IPv4Mapped" <==> e == ReservedRange(MAPPED, "IPv4Mapped")
  {
    if e.zone != "IPv4Mapped" {
      OthersAreWhole(e);
    }
  }

  /** With the table as it stands, visited in any order, every low address is reported as
      IPv4Mapped, although ::ffff:0:0/96 does not contain it. */
  lemma LowAddressesReadAsMapped(es: seq<Entry>, ip: Bytes)
    requires forall e: Entry :: e in es <==> InTableV6(e)
    requires LowAddress(ip)
    ensures Lookup(StoreAll(AsStored(es)), AddressPath(ip)) == "IPv4Mapped"
    ensures !Covers(MAPPED, ip) && !LongestRange(es, ip, "IPv4Mapped")
  {
    ZerosReadAsMapped(es, ip);
    MappedLine(ip);
    forall e | e in es && e.zone == "IPv4Mapped" ensures !Covers(e.net, ip) {
      OnlyMappedIsMapped(e);
    }
  }

  /** Another mapped address is never answered as the table has it: its longest range is
      IPv4Mapped, which is stored elsewhere. */
  lemma MappedIsMisread(es: seq<Entry>, ip: Bytes)
    requires forall e: Entry :: e in es <==> InTableV6(e)
    requires |ip| == 16 && To4(ip).Some? && ip != MAPPED.ip
    ensures LongestRange(es, ip, "IPv4Mapped")
    ensures !LongestRange(es, ip, Lookup(StoreAll(AsStored(es)), AddressPath(ip)))
  {
    var zone := Lookup(StoreAll(AsStored(es)), AddressPath(ip));
    MappedIsLongest(es, ip);
    if LongestRange(es, ip, zone) {
      LongestRangeV6IsUnique(es, ip, zone, "IPv4Mapped");
      LookupAfterInserts(AsStored(es), AddressPath(ip));
      var i: nat :| Answers(AsStored(es), AddressPath(ip), i) && zone == AsStored(es)[i].zone;
      assert es[i] in es;
      OnlyMappedIsMapped(es[i]);
      MappedLineMissesMapped(ip);
      assert false;
    }
  }

  lemma MappedIsLongest(es: seq<Entry>, ip: Bytes)
    requires forall e: Entry :: e in es <==> InTableV6(e)
    requires |ip| == 16 && To4(ip).Some?
    ensures LongestRange(es, ip, "IPv4Mapped")
  {
    var mapped: Entry := ReservedRange(MAPPED, "IPv4Mapped");
    MappedLine(ip);
    assert ip == Mapped(ip[12..]);
    forall e | e in es && Covers(e.net, ip) ensures e.net.prefixLen <= 96 {
      if e.zone != "IPv4Mapped" {
        OthersAreWhole(e);
        LongRangesMissMapped(e.net, ip[12..]);
      } else {
        OnlyMappedIsMapped(e);
      }
    }
    assert mapped in es;
    var k :| 0 <= k < |es| && es[k] == mapped;
  }

  lemma LongestRangeV6IsUnique(es: seq<Entry>, ip: Bytes, y: string, z: string)
    requires forall e: Entry :: e in es <==> InTableV6(e)
    requires |ip| == 16 && LongestRange(es, ip, y) && LongestRange(es, ip, z)
    ensures y == z
  {
    forall e | e in es && Covers(e.net, ip) ensures e.zone == ZoneV6(e.net.prefixLen, ip) {
      LengthTellsZoneV6(e, ip);
    }
    LongestRangeIsUnique(es, ip, y, z);
  }

  lemma ReadAsMeant(e: Entry, ip: Bytes)
    requires InTableV6(e) && |ip| == 16 && To4(ip).None?
    ensures Covers(e.net, ip) ==> StoredPrefixOf(e.net, ip) && KeyOf(e.net).Length() == e.net.prefixLen
    ensures StoredPrefixOf(e.net, ip) && !Covers(e.net, ip) ==> e.net == MAPPED
  {
    if e.zone == "IPv4Mapped" {
      OnlyMappedIsMapped(e);
      MappedLine(ip);
    } else {
      OthersAreWhole(e);
      StoredPrefixIsRange(e.net, ip);
    }
  }

  lemma ZerosCoveredByWhole(ip: Bytes) returns (e: Entry)
    requires |ip| == 16 && To4(ip).None? && !LowAddress(ip) && ip[..4] == [0, 0, 0, 0]
    ensures InTableV6(e) && Covers(e.net, ip) && e.net.prefixLen == 128
  {
    if ip == UNSPECIFIED.ip {
      e := ReservedRange(UNSPECIFIED, "Unspecified");
    } else {
      e := ReservedRange(LOOPBACK, "Loopback");
    }
    WholeAddressOnly(e.net, ip);
  }

  lemma IndexOf(es: seq<Entry>, e: Entry) returns (j: nat)
    requires e in es
    ensures j < |es| && es[j] == e
  {
    j :| 0 <= j < |es| && es[j] == e;
  }

  /** Elsewhere the lines are read as they are meant, :: and ::1 because their lines are longer
      than the misplaced one. */
  lemma OthersAnswerLongest(es: seq<Entry>, ip: Bytes)
    requires forall e: Entry :: e in es <==> InTableV6(e)
    requires |ip| == 16 && To4(ip).None? && !LowAddress(ip)
    ensures LongestRange(es, ip, Lookup(StoreAll(AsStored(es)), AddressPath(ip)))
  {
    forall i | 0 <= i < |es|
      ensures Covers(es[i].net, ip) ==>
                StoredPrefixOf(es[i].net, ip) && KeyOf(es[i].net).Length() == es[i].net.prefixLen
      ensures StoredPrefixOf(es[i].net, ip) && !Covers(es[i].net, ip) ==> es[i].net == MAPPED
    {
      assert es[i] in es;
      ReadAsMeant(es[i], ip);
    }
    if StoredPrefixOf(MAPPED, ip) {
      MappedLine(ip);
      var e := ZerosCoveredByWhole(ip);
      var j := IndexOf(es, e);
    }
    TreeAnswersLongestRange(es, ip);
  }

  /** The IPv6 table as it stands, visited in any order: a lookup in its tree answers with the
      longest covering range exactly for addresses that are neither low nor mapped, and for
      ::ffff:0.0.0.0. */
  lemma TableV6AnswersLongestRangeIff(es: seq<Entry>, ip: Bytes)
    requires forall e: Entry :: e in es <==> InTableV6(e)
    requires |ip| == 16
    ensures (forall zone :: zone == Lookup(StoreAll(AsStored(es)), AddressPath(ip)) <==> LongestRange(es, ip, zone))
            <==> (To4(ip).None? && !LowAddress(ip)) || ip == MAPPED.ip
  {
    var answer := Lookup(StoreAll(AsStored(es)), AddressPath(ip));
    if LowAddress(ip) {
      LowAddressesReadAsMapped(es, ip);
    } else if To4(ip).None? {
      OthersAnswerLongest(es, ip);
    } else if ip == MAPPED.ip {
      ZerosReadAsMapped(es, ip);
      MappedIsLongest(es, ip);
    } else {
      MappedIsMisread(es, ip);
    }
    forall zone | LongestRange(es, ip, zone) && LongestRange(es, ip, answer) ensures zone == answer {
      LongestRangeV6IsUnique(es, ip, zone, answer);
    }
  }

  /** What one of the two trees holds after the lines were inserted. */
  ghost function TreeOf(lines: seq<TableLine>, colon: bool): map<Path, string> {
    StoreAll(AsStored(Family(lines, colon)))
  }

  /** The whole table as it stands, in any order: the IPv4 lines are written without a colon, the
      IPv6 lines with one. */
  ghost predicate TheTable(lines: seq<TableLine>) {
    forall l: TableLine :: l in lines <==> if l.hasColon then InTableV6(l.entry) else InTableV4(l.entry)
  }

  ghost predicate CoveringLine(lines: seq<TableLine>, colon: bool, ip: Bytes, l: TableLine)
    requires |ip| == 16
  {
    l in lines && l.hasColon == colon && Covers(l.entry.net, ip)
  }

  /** `zone` is that of the longest range among the lines with or without a colon that covers the
      address, or none of them does and it is "". */
  ghost predicate LongestLine(lines: seq<TableLine>, colon: bool, ip: Bytes, zone: string)
    requires |ip| == 16
  {
    || (zone == "" && forall l :: !CoveringLine(lines, colon, ip, l))
    || (exists l :: CoveringLine(lines, colon, ip, l) && l.entry.zone == zone
                    && forall m :: CoveringLine(lines, colon, ip, m) ==>
                         m.entry.net.prefixLen <= l.entry.net.prefixLen)
  }

  /** The lines that reach a tree are those written with or without a colon. */
  lemma {:induction false} FamilyIs(lines: seq<TableLine>, colon: bool, e: Entry)
    ensures e in Family(lines, colon) <==> TableLine(colon, e) in lines
  {
    if lines != [] {
      FamilyIs(lines[..|lines| - 1], colon, e);
      assert lines == lines[..|lines| - 1] + [lines[|lines| - 1]];
    }
  }

  lemma CoveringLineIsEntry(lines: seq<TableLine>, colon: bool, ip: Bytes, e: Entry)
    requires |ip| == 16
    ensures e in Family(lines, colon) && Covers(e.net, ip)
            <==> CoveringLine(lines, colon, ip, TableLine(colon, e))
  {
  }

  lemma LongestLineIsRange(lines: seq<TableLine>, colon: bool, ip: Bytes, zone: string)
    requires |ip| == 16
    ensures LongestLine(lines, colon, ip, zone) <==> LongestRange(Family(lines, colon), ip, zone)
  {
    if LongestLine(lines, colon, ip, zone) {
      LineGivesRange(lines, colon, ip, zone);
    }
    if LongestRange(Family(lines, colon), ip, zone) {
      RangeGivesLine(lines, colon, ip, zone);
    }
  }

  lemma LineGivesRange(lines: seq<TableLine>, colon: bool, ip: Bytes, zone: string)
    requires |ip| == 16 && LongestLine(lines, colon, ip, zone)
    ensures LongestRange(Family(lines, colon), ip, zone)
  {
    var es := Family(lines, colon);
    forall i | 0 <= i < |es| && Covers(es[i].net, ip)
      ensures CoveringLine(lines, colon, ip, TableLine(colon, es[i]))
    {
      CoveringLineIsEntry(lines, colon, ip, es[i]);
    }
    if l :| CoveringLine(lines, colon, ip, l) && l.entry.zone == zone
            && forall m :: CoveringLine(lines, colon, ip, m) ==> m.entry.net.prefixLen <= l.entry.net.prefixLen {
      CoveringLineIsEntry(lines, colon, ip, l.entry);
      var i := IndexOf(es, l.entry);
    }
  }

  lemma RangeGivesLine(lines: seq<TableLine>, colon: bool, ip: Bytes, zone: string)
    requires |ip| == 16 && LongestRange(Family(lines, colon), ip, zone)
    ensures LongestLine(lines, colon, ip, zone)
  {
    var es := Family(lines, colon);
    forall m | CoveringLine(lines, colon, ip, m) ensures m.entry in es && Covers(m.entry.net, ip) {
      CoveringLineIsEntry(lines, colon, ip, m.entry);
    }
    if i :| 0 <= i < |es| && Covers(es[i].net, ip) && es[i].zone == zone
            && forall j :: 0 <= j < |es| && Covers(es[j].net, ip) ==> es[j].net.prefixLen <= es[i].net.prefixLen {
      CoveringLineIsEntry(lines, colon, ip, es[i]);
    }
  }

  /** `zone` is the one answer that the lines in charge allow: those without a colon for dotted
      text, those with one for all other text. */
  ghost predicate AnswersLongestRange(lines: seq<TableLine>, ip: Bytes, hasColon: bool, zone: string)
    requires |ip| == 16
  {
    var colon := hasColon || To4(ip).None?;
    forall z :: z == zone <==> LongestLine(lines, colon, ip, z)
  }

  /** The whole lookup over the whole table, in whatever order it was inserted: this holds exactly
      for dotted text, for addresses that are neither low nor mapped, and for ::ffff:0.0.0.0. */
  lemma ReservedZoneIff(lines: seq<TableLine>, ip: Bytes, hasColon: bool)
    requires TheTable(lines) && |ip| == 16
    ensures AnswersLongestRange(lines, ip, hasColon,
                                Zone(Some(ip), hasColon, TreeOf(lines, false), TreeOf(lines, true)))
            <==> (To4(ip).Some? && !hasColon) || (To4(ip).None? && !LowAddress(ip)) || ip == MAPPED.ip
  {
    var zone := Zone(Some(ip), hasColon, TreeOf(lines, false), TreeOf(lines, true));
    forall z: string, colon: bool
      ensures LongestLine(lines, colon, ip, z) <==> LongestRange(Family(lines, colon), ip, z)
    {
      LongestLineIsRange(lines, colon, ip, z);
    }
    forall e: Entry, colon: bool ensures e in Family(lines, colon) <==> TableLine(colon, e) in lines {
      FamilyIs(lines, colon, e);
    }
    if To4(ip).Some? && !hasColon {
      forall z ensures z == zone <==> LongestRange(Family(lines, false), ip, z) {
        TableV4AnswersLongestRange(Family(lines, false), ip, z);
      }
    } else {
      TableV6AnswersLongestRangeIff(Family(lines, true), ip);
    }
  }

  /** The trees are filled on the first lookup. Over the table as it stands the answer to the
      text is the zone of the longest covering line exactly where `ReservedZoneIff` says. */
  method ReservedZone(lines: seq<TableLine>, parsed: Option<Bytes>, hasColon: bool) returns (zone: string)
    requires parsed.Some? ==> |parsed.value| == 16
    ensures parsed.None? ==> zone == ""
    ensures parsed.Some? && TheTable(lines) ==>
              var ip := parsed.value;
              AnswersLongestRange(lines, ip, hasColon, zone)
              <==> (To4(ip).Some? && !hasColon) || (To4(ip).None? && !LowAddress(ip)) || ip == MAPPED.ip
  {
    var v4, v6 := InitReservedIPTrees(lines);
    zone := GetReservedIPZone(parsed, hasColon, v4, v6);
    if parsed.Some? && TheTable(lines) {
      ReservedZoneIff(lines, parsed.value, hasColon);
    }
  }

  /** For example ::ffff:252.0.0.1, which fc00::/7 does not contain, is reported as UniqueLocal,
      and that although this range fits. */
  lemma MappedReadAsUniqueLocal(es: seq<Entry>)
    requires forall e: Entry :: e in es <==> InTableV6(e)
    ensures var ip := Mapped([252, 0, 0, 1]);
            && Lookup(StoreAll(AsStored(es)), AddressPath(ip)) == "UniqueLocal"
            && forall e :: e in es && e.zone == "UniqueLocal" ==> Fits(e.net) && !Covers(e.net, ip)
  {
    var quad: Bytes := [252, 0, 0, 1];
    var local := Lead([0xfc], 7, "UniqueLocal");
    assert local == LEADS_V6[1] && local in LEADS_V6;
    var e: Entry := LeadEntry(local, 16);
    assert InTableV6(e);
    forall f | f in es ensures StoredPrefixOf(f.net, Mapped(quad)) <==> f == e {
      QuadStartsAsUniqueLocal(f, quad);
    }
    OnlyStoredPrefixAnswers(es, e, Mapped(quad));
    forall f | f in es && f.zone == "UniqueLocal" ensures Fits(f.net) && !Covers(f.net, Mapped(quad)) {
      UniqueLocalMissesMapped(f, quad);
    }
  }

  lemma UniqueLocalMissesMapped(e: Entry, quad: Bytes)
    requires InTableV6(e) && e.zone == "UniqueLocal" && |quad| == 4
    ensures Fits(e.net) && !Covers(e.net, Mapped(quad))
  {
    OthersAreWhole(e);
    assert BitAt(e.net.ip, 0) == BitOf(0xfc, 0) == 1;
    MappedStartsWithZeros(quad, 0);
  }

  lemma LeadFirstByte(l: Lead)
    requires l in LEADS_V6
    ensures l.bytes != [] && l.bytes[0] in {0xfe, 0xff, 0xfc, 0x20, 0x01, 0x00} && l.prefixLen >= 7
    ensures l.bytes[0] == 0xfc <==> l == Lead([0xfc], 7, "UniqueLocal")
  {
  }

  /** A small byte starts with a zero bit. */
  lemma {:induction false} SmallByteStartsWithZero(b: nat, k: nat)
    requires k < 8 && b < Power2(7 - k)
    ensures BitOf(b, k) == 0
    decreases 8 - k
  {
    if k < 7 {
      SmallByteStartsWithZero(b / 2, k + 1);
    }
  }

  lemma FirstByteBits(b: nat)
    ensures BitOf(b, 6) == b / 2 % 2
    ensures b < 128 ==> BitOf(b, 0) == 0
    ensures BitOf(252, 0) == 1
  {
    assert BitOf(b, 6) == BitOf(b / 2, 7);
    assert Power2(7) == 128 by { assert Power2(4) == 16; }
    if b < 128 {
      SmallByteStartsWithZero(b, 0);
    }
  }

  lemma FirstByteDecides(l: Lead, quad: Bytes)
    requires l in LEADS_V6 && Sound(l, 16) && l.prefixLen <= 32 && |quad| == 4 && quad[0] == 252
    ensures SameBits(Padded(l.bytes, 16), quad, l.prefixLen) <==> l == Lead([0xfc], 7, "UniqueLocal")
  {
    var net := Padded(l.bytes, 16);
    LeadFirstByte(l);
    FirstByteBits(l.bytes[0] as int);
    FirstByteBits(252);
    assert l.bytes[0] == 252 ==> forall i :: 0 <= i < 7 ==> BitAt(net, i) == BitAt(quad, i);
    assert l.bytes[0] != 252 ==> BitAt(net, 0) != BitAt(quad, 0) || BitAt(net, 6) != BitAt(quad, 6);
  }

  lemma QuadStartsAsUniqueLocal(f: Entry, quad: Bytes)
    requires InTableV6(f) && quad == [252, 0, 0, 1]
    ensures StoredPrefixOf(f.net, Mapped(quad)) <==> f == LeadEntry(Lead([0xfc], 7, "UniqueLocal"), 16)
  {
    if f.zone == "IPv4Mapped" {
      OnlyMappedIsMapped(f);
      MappedLine(Mapped(quad));
      assert quad[..4][0] == 252;
    } else {
      OtherStartsAsUniqueLocal(f, quad);
    }
  }

  lemma OtherStartsAsUniqueLocal(f: Entry, quad: Bytes)
    requires InTableV6(f) && f.zone != "IPv4Mapped" && |quad| == 4 && quad[0] == 252
    ensures StoredPrefixOf(f.net, Mapped(quad)) <==> f == LeadEntry(Lead([0xfc], 7, "UniqueLocal"), 16)
  {
    OthersAreWhole(f);
    MappedIsReadFromItsQuad(f.net, quad);
    if f.net.prefixLen <= 32 {
      var l := LeadOf(f);
      FirstByteDecides(l, quad);
      LeadFirstByte(l);
    }
  }

  lemma LeadOf(e: Entry) returns (l: Lead)
    requires InTableV6(e) && e.net.prefixLen <= 32
    ensures l in LEADS_V6 && Sound(l, 16) && e == LeadEntry(l, 16)
  {
    l :| l in LEADS_V6 && Sound(l, 16) && e == LeadEntry(l, 16);
  }
}
