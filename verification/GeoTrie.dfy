/** Country lookup over a sorted list of range endpoints (geodb/trie.go, geodb/geoloader.go). */
module GeoTrie {
  import opened Addresses
  import opened GoTypes
  import GoSort

  datatype IpRange = IpRange(startIP: uint64, ccIdx: uint16)
  datatype IpRangeV6 = IpRangeV6(startIPHigh: uint64, startIPLow: uint64, ccIdx: uint16)

  lemma Powers()
    ensures PowerOf256(4) == 0x1_0000_0000 && PowerOf256(8) == TWO64
  {
  }

  function Ipv4ToUint64(ip: Bytes): uint64 {
    match To4(ip)
    case None => 0
    case Some(b) => Powers(); Value(b)
  }

  function Ipv6ToUint64Pair(ip: Bytes): (uint64, uint64) {
    match To16(ip)
    case None => (0, 0)
    case Some(b) => Powers(); (Value(b[..8]), Value(b[8..]))
  }

  /** The bytes of a parsed address that a family compares. */
  function FamilyForm(ip: Bytes, v6: bool): Option<Bytes> {
    if v6 then To16(ip) else To4(ip)
  }

  /** A parsed address as one number: 32 bits, or 128 bits as `big.Int` has them. */
  function Number(ip: Bytes, v6: bool): nat {
    Value(FamilyForm(ip, v6).GetOr([]))
  }

  lemma PairIsNumber(ip: Bytes)
    requires |ip| == 16
    ensures Ipv6ToUint64Pair(ip).0 * TWO64 + Ipv6ToUint64Pair(ip).1 == Number(ip, true)
  {
    Powers();
    assert ip == ip[..8] + ip[8..];
    ValueOfConcat(ip[..8], ip[8..]);
  }

  /** Both halves at once. */
  method Halves(ip: Bytes) returns (high: uint64, low: uint64)
    requires |ip| == 16
    ensures high * TWO64 + low == Number(ip, true)
  {
    PairIsNumber(ip);
    var pair := Ipv6ToUint64Pair(ip);
    high, low := pair.0, pair.1;
  }

  /** An endpoint: where it lies and the country it leads to. */
  type Endpoint = (nat, string)

  /** `r` is the country of the greatest endpoint at or below `v`; "" if every endpoint is above.
      Endpoints may tie, so more than one answer can be admissible. */
  ghost predicate Preceding(es: seq<Endpoint>, v: nat, r: string) {
    || (r == "" && forall e :: e in es ==> e.0 > v)
    || (exists e :: Greatest(es, v, e) && e.1 == r)
  }

  ghost predicate Greatest(es: seq<Endpoint>, v: nat, e: Endpoint) {
    e in es && e.0 <= v && forall f :: f in es && f.0 <= v ==> f.0 <= e.0
  }

  ghost predicate Ascending(es: seq<Endpoint>) {
    forall i, j :: 0 <= i < j < |es| ==> es[i].0 <= es[j].0
  }

  /** Which endpoints lie above `v`. */
  function AboveIn(es: seq<Endpoint>, v: nat): (p: seq<bool>)
    ensures |p| == |es| && forall i :: 0 <= i < |es| ==> p[i] == (es[i].0 > v)
  {
    seq(|es|, i requires 0 <= i < |es| => es[i].0 > v)
  }

  /** Where the binary search for an address ends in a list, sorted or not. */
  function Found(es: seq<Endpoint>, v: nat): (idx: nat)
    ensures idx <= |es|
  {
    GoSort.Bisect(AboveIn(es, v), 0, |es|)
  }

  function CodeBefore(es: seq<Endpoint>, idx: nat): string
    requires idx <= |es|
  {
    if idx == 0 then "" else es[idx - 1].1
  }

  /** The code that the search gives. */
  function FoundCode(es: seq<Endpoint>, v: nat): string {
    CodeBefore(es, Found(es, v))
  }

  /** The list turns from at most `v` to above `v` here. */
  predicate TurnsAt(es: seq<Endpoint>, v: nat, idx: nat) {
    idx <= |es| && (idx > 0 ==> es[idx - 1].0 <= v) && (idx < |es| ==> es[idx].0 > v)
  }

  lemma FoundTurns(es: seq<Endpoint>, v: nat)
    ensures TurnsAt(es, v, Found(es, v))
  {
    GoSort.BisectTurns(AboveIn(es, v), 0, |es|);
  }

  lemma TurningPoint(es: seq<Endpoint>, v: nat, idx: nat)
    requires Ascending(es) && TurnsAt(es, v, idx)
    ensures Preceding(es, v, CodeBefore(es, idx))
  {
    forall e | e in es && e.0 <= v ensures idx > 0 && e.0 <= es[idx - 1].0 {
      var i :| 0 <= i < |es| && es[i] == e;
      assert i < idx;
    }
    assert idx > 0 ==> Greatest(es, v, es[idx - 1]);
  }

  /** In a sorted list it is the code of the greatest endpoint at or below the address. */
  lemma SortedFindsPreceding(es: seq<Endpoint>, v: nat)
    requires Ascending(es)
    ensures Preceding(es, v, FoundCode(es, v))
  {
    FoundTurns(es, v);
    TurningPoint(es, v, Found(es, v));
  }

  /** Where a known code stands in the table. */
  function Position(table: seq<string>, cc: string): (i: nat)
    requires cc in table
    ensures i < |table| && table[i] == cc
  {
    var n := |table| - 1;
    if table[n] == cc then n else Position(table[..n], cc)
  }

  /** The text that the sixteen-bit index of a known code leads back to. */
  function Resolve(table: seq<string>, cc: string): string
    requires cc in table
  {
    table[Position(table, cc) % TWO16]
  }

  predicate LessV4(a: IpRange, b: IpRange) {
    a.startIP < b.startIP
  }

  predicate LessV6(a: IpRangeV6, b: IpRangeV6) {
    if a.startIPHigh != b.startIPHigh then a.startIPHigh < b.startIPHigh else a.startIPLow < b.startIPLow
  }

  function NumberV6(r: IpRangeV6): nat {
    r.startIPHigh * TWO64 + r.startIPLow
  }

  lemma LessIsNumeric()
    ensures forall a, b :: LessV6(a, b) <==> NumberV6(a) < NumberV6(b)
    ensures GoSort.StrictWeakOrder(LessV4) && GoSort.StrictWeakOrder(LessV6)
  {
  }

  /** Distinct codes, each with its position modulo 65536 as its index. */
  ghost predicate Numbered(table: seq<string>, index: map<string, uint16>) {
    && (forall c :: c in index <==> c in table)
    && (forall i {:trigger table[i]} :: 0 <= i < |table| ==> index[table[i]] == i % TWO16)
    && (forall i, j :: 0 <= i < j < |table| ==> table[i] != table[j])
  }

  lemma NumberedGrows(table: seq<string>, index: map<string, uint16>, cc: string)
    requires Numbered(table, index) && cc !in table
    ensures Numbered(table + [cc], index[cc := |table| % TWO16])
    ensures cc in table + [cc] && Position(table + [cc], cc) == |table|
  {
    assert (table + [cc])[|table|] == cc;
  }

  class Trie {
    var ranges: seq<IpRange>
    var rangesV6: seq<IpRangeV6>
    var ccTable: seq<string>
    var ccToIndex: map<string, uint16>
    var isIPv6: bool

    ghost predicate Valid()
      reads this
    {
      && Numbered(ccTable, ccToIndex)
      && (forall r :: r in ranges ==> r.ccIdx < |ccTable|)
      && (forall r :: r in rangesV6 ==> r.ccIdx < |ccTable|)
    }

    /** The endpoints of a family as a lookup sees them, in list order, through the code table. */
    ghost function Listed(v6: bool): seq<Endpoint>
      requires Valid()
      reads this
    {
      if v6 then
        seq(|rangesV6|, i requires 0 <= i < |rangesV6| && Valid() reads this =>
              var r := rangesV6[i]; (NumberV6(r), ccTable[r.ccIdx]))
      else
        seq(|ranges|, i requires 0 <= i < |ranges| && Valid() reads this =>
              var r := ranges[i]; (r.startIP as nat, ccTable[r.ccIdx]))
    }

    ghost predicate Built(v6: bool)
      reads this
    {
      if v6 then GoSort.Ordered(rangesV6, LessV6) else GoSort.Ordered(ranges, LessV4)
    }

    constructor ()
      ensures Valid() && ccTable == [] && !isIPv6 && Listed(false) == [] && Listed(true) == []
    {
      ranges, rangesV6, ccTable, ccToIndex, isIPv6 := [], [], [], map[], false;
    }

    /** Codes are numbered in order of appearance, modulo 65536. */
    method GetOrCreateCCIndex(cc: string) returns (idx: uint16)
      requires Valid()
      modifies `ccTable, `ccToIndex
      ensures Valid()
      ensures ccTable == if cc in old(ccTable) then old(ccTable) else old(ccTable) + [cc]
      ensures idx < |ccTable| && ccTable[idx] == Resolve(ccTable, cc)
      ensures Listed(false) == old(Listed(false)) && Listed(true) == old(Listed(true))
    {
      if cc in ccToIndex {
        idx := ccToIndex[cc];
        assert ccTable[Position(ccTable, cc)] == cc;
        return;
      }
      idx := |ccTable| % TWO16;
      ccTable := ccTable + [cc];
      ccToIndex := ccToIndex[cc := idx];
      NumberedGrows(old(ccTable), old(ccToIndex), cc);
    }

    /** The sixteen-bit index is faithful exactly for the first 65536 codes; the code at position
        `i` leads to the one at position `i` modulo 65536. */
    lemma ResolvedIff(i: nat)
      requires Valid() && i < |ccTable|
      ensures Resolve(ccTable, ccTable[i]) == ccTable[i % TWO16]
      ensures Resolve(ccTable, ccTable[i]) == ccTable[i] <==> i < TWO16
    {
      assert Position(ccTable, ccTable[i]) == i;
    }

    /** `insert`; `None` is text that does not parse. */
    method Insert(ip: Option<Bytes>, cc: string)
      requires Valid()
      requires ip.Some? ==> |ip.value| == 16
      modifies this
      ensures Valid()
      ensures ip.None? ==> ccTable == old(ccTable) && isIPv6 == old(isIPv6)
                           && Listed(false) == old(Listed(false)) && Listed(true) == old(Listed(true))
      ensures ip.Some? ==> cc in ccTable && isIPv6 == To4(ip.value).None?
      ensures ip.Some? ==> ccTable == if cc in old(ccTable) then old(ccTable) else old(ccTable) + [cc]
      ensures ip.Some? ==> Listed(isIPv6) == (if isIPv6 then old(Listed(true)) else old(Listed(false)))
                                             + [(Number(ip.value, isIPv6), Resolve(ccTable, cc))]
      ensures ip.Some? ==> Listed(!isIPv6) == if isIPv6 then old(Listed(false)) else old(Listed(true))
    {
      if ip.None? {
        return;
      }
      var ccIdx := GetOrCreateCCIndex(cc);
      if To4(ip.value).Some? {
        AppendV4(ip.value, ccIdx);
      } else {
        var high, low := Halves(ip.value);
        AppendV6(high, low, ccIdx, Number(ip.value, true));
      }
    }

    method AppendV4(ip: Bytes, ccIdx: uint16)
      requires Valid() && ccIdx < |ccTable| && To4(ip).Some?
      modifies `ranges, `isIPv6
      ensures Valid() && !isIPv6
      ensures Listed(false) == old(Listed(false)) + [(Number(ip, false), ccTable[ccIdx])]
      ensures Listed(true) == old(Listed(true))
    {
      isIPv6 := false;
      var r := IpRange(Ipv4ToUint64(ip), ccIdx);
      ranges := ranges + [r];
    }

    method AppendV6(high: uint64, low: uint64, ccIdx: uint16, ghost n: nat)
      requires Valid() && ccIdx < |ccTable| && n == high * TWO64 + low
      modifies `rangesV6, `isIPv6
      ensures Valid() && isIPv6
      ensures Listed(true) == old(Listed(true)) + [(n, ccTable[ccIdx])]
      ensures Listed(false) == old(Listed(false))
    {
      isIPv6 := true;
      var r := IpRangeV6(high, low, ccIdx);
      rangesV6 := rangesV6 + [r];
    }

    /** Sorts the list of the family inserted last; the other list stays as it is, so it is
        sorted afterwards only if it came in sorted. */
    method Build()
      requires Valid()
      modifies `ranges, `rangesV6
      ensures Valid() && Built(isIPv6)
      ensures |Listed(isIPv6)| == |if isIPv6 then old(Listed(true)) else old(Listed(false))|
      ensures forall e :: e in Listed(isIPv6) <==> e in if isIPv6 then old(Listed(true)) else old(Listed(false))
      ensures Listed(!isIPv6) == if isIPv6 then old(Listed(false)) else old(Listed(true))
    {
      LessIsNumeric();
      if isIPv6 {
        BuildV6();
      } else {
        BuildV4();
      }
    }

    method BuildV4()
      requires Valid()
      modifies `ranges
      ensures Valid() && Built(false) && |ranges| == |old(ranges)|
      ensures forall e :: e in Listed(false) <==> e in old(Listed(false))
    {
      LessIsNumeric();
      var sorted := GoSort.SortSlice(ranges, LessV4);
      SameElements(sorted, ranges);
      ghost var before := Listed(false);
      ranges := sorted;
      SameImage(ranges, old(ranges), Listed(false), before);
    }

    method BuildV6()
      requires Valid()
      modifies `rangesV6
      ensures Valid() && Built(true) && |rangesV6| == |old(rangesV6)|
      ensures forall e :: e in Listed(true) <==> e in old(Listed(true))
    {
      LessIsNumeric();
      var sorted := GoSort.SortSlice(rangesV6, LessV6);
      SameElements(sorted, rangesV6);
      ghost var before := Listed(true);
      rangesV6 := sorted;
      SameImage(rangesV6, old(rangesV6), Listed(true), before);
    }

    /** The sort order of either family is the order of the numbers. */
    lemma BuiltIff(v6: bool)
      requires Valid()
      ensures Built(v6) <==> Ascending(Listed(v6))
    {
      LessIsNumeric();
      if v6 {
        assert forall i :: 0 <= i < |rangesV6| ==> Listed(true)[i].0 == NumberV6(rangesV6[i]);
      } else {
        assert forall i :: 0 <= i < |ranges| ==> Listed(false)[i].0 == ranges[i].startIP;
      }
    }

    /** Where `sort.Search` ends in the IPv4 list. */
    method FindIPv4(ipVal: uint64) returns (idx: nat)
      requires Valid()
      ensures idx == Found(Listed(false), ipVal)
    {
      var rs := ranges;
      ghost var answers := AboveIn(Listed(false), ipVal);
      assert forall i :: 0 <= i < |rs| ==> answers[i] == (rs[i].startIP > ipVal);
      idx := GoSort.SearchFirst(|rs|, i requires 0 <= i < |rs| => rs[i].startIP > ipVal, answers);
    }

    /** The code is the one that the binary search ends at, and so, in a sorted list, that of the
        greatest endpoint at or below the address. */
    method SearchIPv4(ip: Bytes) returns (cc: string)
      requires Valid()
      ensures cc == FoundCode(Listed(false), Ipv4ToUint64(ip))
      ensures Built(false) ==> Preceding(Listed(false), Ipv4ToUint64(ip), cc)
    {
      BuiltFinds(false, Ipv4ToUint64(ip));
      if |ranges| == 0 {
        return "";
      }
      var idx := FindIPv4(Ipv4ToUint64(ip));
      cc := if idx == 0 then "" else ccTable[ranges[idx - 1].ccIdx];
    }

    /** Where `sort.Search` ends in the IPv6 list, and the code before it. */
    method FindIPv6(high: uint64, low: uint64, ghost v: nat) returns (cc: string)
      requires Valid() && v == high * TWO64 + low
      ensures cc == FoundCode(Listed(true), v)
    {
      var rs := rangesV6;
      ghost var answers := AboveIn(Listed(true), v);
      forall i | 0 <= i < |rs| ensures answers[i] == Above(rs[i], high, low) {
        AboveIsGreater(rs[i], high, low);
      }
      var idx := GoSort.SearchFirst(|rs|, i requires 0 <= i < |rs| => Above(rs[i], high, low), answers);
      cc := if idx == 0 then "" else ccTable[rs[idx - 1].ccIdx];
    }

    method SearchIPv6(ip: Bytes) returns (cc: string)
      requires Valid()
      requires |ip| == 16
      ensures cc == FoundCode(Listed(true), Number(ip, true))
      ensures Built(true) ==> Preceding(Listed(true), Number(ip, true), cc)
    {
      ghost var v := Number(ip, true);
      BuiltFinds(true, v);
      if |rangesV6| == 0 {
        return "";
      }
      var high, low := Halves(ip);
      cc := FindIPv6(high, low, v);
    }

    lemma BuiltFinds(v6: bool, v: nat)
      requires Valid()
      ensures Built(v6) ==> Preceding(Listed(v6), v, FoundCode(Listed(v6), v))
    {
      BuiltIff(v6);
      if Ascending(Listed(v6)) {
        SortedFindsPreceding(Listed(v6), v);
      }
    }
  }

  /** The test that `searchIPv6` makes of one endpoint. */
  predicate Above(r: IpRangeV6, high: uint64, low: uint64) {
    if r.startIPHigh != high then r.startIPHigh > high else r.startIPLow > low
  }

  lemma AboveIsGreater(r: IpRangeV6, high: uint64, low: uint64)
    ensures Above(r, high, low) <==> NumberV6(r) > high * TWO64 + low
  {
  }

  lemma SameElements<T>(a: seq<T>, b: seq<T>)
    requires multiset(a) == multiset(b)
    ensures |a| == |b| && forall x :: x in a <==> x in b
  {
    assert |a| == |multiset(a)| && |b| == |multiset(b)|;
    assert forall x :: x in a <==> x in multiset(a);
    assert forall x :: x in b <==> x in multiset(b);
  }

  /** Lists that give equal elements equal endpoints hold the same endpoints. */
  lemma SameImage<T>(a: seq<T>, b: seq<T>, ea: seq<Endpoint>, eb: seq<Endpoint>)
    requires |ea| == |a| && |eb| == |b| && forall x :: x in a <==> x in b
    requires forall i, j :: 0 <= i < |a| && 0 <= j < |b| && a[i] == b[j] ==> ea[i] == eb[j]
    ensures forall e :: e in ea <==> e in eb
  {
    forall e ensures e in ea <==> e in eb {
      if e in ea {
        var i :| 0 <= i < |ea| && ea[i] == e;
        assert a[i] in b;
        var j :| 0 <= j < |b| && b[j] == a[i];
      }
      if e in eb {
        var j :| 0 <= j < |eb| && eb[j] == e;
        assert b[j] in a;
        var i :| 0 <= i < |a| && a[i] == b[j];
      }
    }
  }
}
