/** The two ways to look a country up, and when they agree (geodb/geoloader.go,
    geodb/slowSearch.go). */
module GeoStore {
  import opened Addresses
  import opened GoTypes
  import opened GeoTrie
  import GoStrings

  /** A CSV row with its two addresses parsed. */
  datatype Row = Row(start: Option<Bytes>, end: Option<Bytes>, cc: string)

  /** `ipv4ToUInt32` indexes what `To4` returns, which is nothing for an IPv6 address. */
  predicate Panics(row: Row, ip: Option<Bytes>, v6: bool) {
    && !v6 && row.start.Some? && row.end.Some? && ip.Some?
    && (To4(row.start.value).None? || To4(row.end.value).None? || To4(ip.value).None?)
  }

  /** The test `isIPv4InRange` or `isIPv6InRange` makes of one row. */
  predicate InRange(row: Row, ip: Option<Bytes>, v6: bool) {
    && row.start.Some? && row.end.Some? && ip.Some? && !Panics(row, ip, v6)
    && Number(row.start.value, v6) <= Number(ip.value, v6) <= Number(row.end.value, v6)
  }

  /** The linear scan: the first row that contains the address. */
  function Scan(rows: seq<Row>, ip: Option<Bytes>, v6: bool): string {
    if rows == [] then ""
    else if InRange(rows[0], ip, v6) then rows[0].cc
    else Scan(rows[1..], ip, v6)
  }

  /** The scan meets a row that it cannot read. */
  predicate ScanPanics(rows: seq<Row>, ip: Option<Bytes>, v6: bool) {
    rows != [] && (Panics(rows[0], ip, v6) || (!InRange(rows[0], ip, v6) && ScanPanics(rows[1..], ip, v6)))
  }

  /** What a row promises: byte by byte the address is neither before its start nor after its end. */
  ghost predicate RowHolds(row: Row, ip: Option<Bytes>, v6: bool) {
    && row.start.Some? && row.end.Some? && ip.Some?
    && Between(FamilyForm(row.start.value, v6), FamilyForm(ip.value, v6), FamilyForm(row.end.value, v6))
  }

  ghost predicate Between(a: Option<Bytes>, x: Option<Bytes>, b: Option<Bytes>) {
    && a.Some? && x.Some? && b.Some? && |a.value| == |x.value| == |b.value|
    && !BytesLess(x.value, a.value) && !BytesLess(b.value, x.value)
  }

  /** `cc` is the code of the first row that holds the address, or no row does and it is "". */
  ghost predicate FirstRowAnswer(rows: seq<Row>, ip: Option<Bytes>, v6: bool, cc: string) {
    || (cc == "" && forall row :: row in rows ==> !RowHolds(row, ip, v6))
    || (exists i: nat :: FirstHolding(rows, i, ip, v6) && cc == rows[i].cc)
  }

  ghost predicate FirstHolding(rows: seq<Row>, i: nat, ip: Option<Bytes>, v6: bool) {
    i < |rows| && RowHolds(rows[i], ip, v6) && forall j :: 0 <= j < i ==> !RowHolds(rows[j], ip, v6)
  }

  /** Row `i` parses and is compared as IPv4 without being IPv4, and no earlier row holds the
      address. */
  ghost predicate UnreadRow(rows: seq<Row>, i: nat, ip: Option<Bytes>, v6: bool) {
    && i < |rows| && !v6 && ip.Some? && rows[i].start.Some? && rows[i].end.Some?
    && !(To4(rows[i].start.value).Some? && To4(rows[i].end.value).Some? && To4(ip.value).Some?)
    && forall j :: 0 <= j < i ==> !RowHolds(rows[j], ip, v6)
  }

  ghost predicate MeetsUnread(rows: seq<Row>, ip: Option<Bytes>, v6: bool) {
    exists i: nat :: UnreadRow(rows, i, ip, v6)
  }

  predicate InFamily(ip: Bytes, v6: bool) {
    |ip| == 16 && (v6 <==> To4(ip).None?)
  }

  // ---------------------------------------------------------------- what a construction reads

  /** An address that parsed, and the code of its row. */
  datatype Arrival = Arrival(ip: Bytes, cc: string)

  function End(ip: Option<Bytes>, cc: string): seq<Arrival> {
    if ip.Some? then [Arrival(ip.value, cc)] else []
  }

  /** The inserts of `constrctTrieTree` that have an effect, in order: both ends of every row. */
  function Arrivals(rows: seq<Row>): seq<Arrival> {
    if rows == [] then []
    else
      var row := rows[|rows| - 1];
      Arrivals(rows[..|rows| - 1]) + End(row.start, row.cc) + End(row.end, row.cc)
  }

  /** The codes in order of first appearance. */
  function CodeTable(seen: seq<Arrival>): (table: seq<string>)
    ensures forall a :: a in seen ==> a.cc in table
  {
    if seen == [] then []
    else
      var a, table := seen[|seen| - 1], CodeTable(seen[..|seen| - 1]);
      assert seen == seen[..|seen| - 1] + [a];
      if a.cc in table then table else table + [a.cc]
  }

  /** The endpoints of one family in the order of arrival, each with the code that its index leads
      to when it arrives. */
  function EndpointList(seen: seq<Arrival>, v6: bool): seq<Endpoint> {
    if seen == [] then []
    else
      var a, before := seen[|seen| - 1], EndpointList(seen[..|seen| - 1], v6);
      if InFamily(a.ip, v6) then before + [(Number(a.ip, v6), Resolve(CodeTable(seen), a.cc))] else before
  }

  /** The family of the last arrival, which is the one that gets sorted. */
  predicate LastFamily(seen: seq<Arrival>) {
    seen != [] && To4(seen[|seen| - 1].ip).None?
  }

  /** `net.ParseIP` gives 16 bytes or nothing. */
  predicate ParsedIP(ip: Option<Bytes>) {
    ip.Some? ==> |ip.value| == 16
  }

  ghost predicate ParsedRows(rows: seq<Row>) {
    forall row :: row in rows ==> ParsedIP(row.start) && ParsedIP(row.end)
  }

  /** What the trie holds after these arrivals. */
  ghost predicate Holds(t: Trie, seen: seq<Arrival>)
    reads t
  {
    && t.Valid() && t.ccTable == CodeTable(seen) && t.isIPv6 == LastFamily(seen)
    && t.Listed(false) == EndpointList(seen, false) && t.Listed(true) == EndpointList(seen, true)
  }

  lemma ArrivalAppends(seen: seq<Arrival>, a: Arrival)
    ensures CodeTable(seen + [a]) == if a.cc in CodeTable(seen) then CodeTable(seen) else CodeTable(seen) + [a.cc]
    ensures forall v6 :: EndpointList(seen + [a], v6) == EndpointList(seen, v6) +
              if InFamily(a.ip, v6) then [(Number(a.ip, v6), Resolve(CodeTable(seen + [a]), a.cc))] else []
  {
  }

  method InsertEnd(t: Trie, ip: Option<Bytes>, cc: string, ghost seen: seq<Arrival>)
    requires Holds(t, seen) && ParsedIP(ip)
    modifies t
    ensures Holds(t, seen + End(ip, cc))
  {
    if ip.None? {
      t.Insert(ip, cc);
      assert seen + [] == seen;
      return;
    }
    ArrivalAppends(seen, Arrival(ip.value, cc));
    t.Insert(ip, cc);
  }

  lemma RowArrives(rows: seq<Row>, i: nat)
    requires i < |rows|
    ensures Arrivals(rows[..i + 1])
            == Arrivals(rows[..i]) + End(rows[i].start, rows[i].cc) + End(rows[i].end, rows[i].cc)
  {
    assert rows[..i + 1][..i] == rows[..i];
  }

  /** The loop of `constrctTrieTree`. */
  method InsertRows(rows: seq<Row>) returns (t: Trie)
    requires ParsedRows(rows)
    ensures fresh(t) && Holds(t, Arrivals(rows))
  {
    t := new Trie();
    assert rows[..0] == [];
    for i := 0 to |rows|
      invariant fresh(t) && Holds(t, Arrivals(rows[..i]))
    {
      var row := rows[i];
      assert row in rows;
      ghost var before := Arrivals(rows[..i]);
      RowArrives(rows, i);
      InsertEnd(t, row.start, row.cc, before);
      InsertEnd(t, row.end, row.cc, before + End(row.start, row.cc));
    }
    assert rows[..|rows|] == rows;
  }

  /** The trie after `build`: the family of the last arrival is sorted, the other is left in the
      order of arrival, and no endpoint is lost or invented. */
  ghost predicate BuiltFrom(t: Trie, seen: seq<Arrival>)
    reads t
  {
    && t.Valid() && t.ccTable == CodeTable(seen)
    && t.Built(LastFamily(seen))
    && |t.Listed(LastFamily(seen))| == |EndpointList(seen, LastFamily(seen))|
    && (forall e :: e in t.Listed(LastFamily(seen)) <==> e in EndpointList(seen, LastFamily(seen)))
    && t.Listed(!LastFamily(seen)) == EndpointList(seen, !LastFamily(seen))
  }

  /** `constrctTrieTree`, on whatever rows. */
  method ConstructTrie(rows: seq<Row>) returns (t: Trie)
    requires ParsedRows(rows)
    ensures fresh(t) && BuiltFrom(t, Arrivals(rows))
    ensures forall v6 :: t.Built(v6) <==> EndsSorted(Arrivals(rows), v6)
  {
    t := InsertRows(rows);
    t.Build();
    SortedWhen(t, Arrivals(rows));
  }

  /** The list of a family ends up sorted if and only if it is the family of the last arrival or
      came in sorted; so a table of mixed families may leave one list unsorted. */
  ghost predicate EndsSorted(seen: seq<Arrival>, v6: bool) {
    v6 == LastFamily(seen) || Ascending(EndpointList(seen, v6))
  }

  lemma SortedWhen(t: Trie, seen: seq<Arrival>)
    requires BuiltFrom(t, seen)
    ensures forall v6 :: t.Built(v6) <==> EndsSorted(seen, v6)
  {
    t.BuiltIff(!LastFamily(seen));
  }

  // ---------------------------------------------------------------- the endpoints of the rows

  /** `e` is an end of the row with the row's own code. */
  ghost predicate EndOf(row: Row, v6: bool, e: Endpoint) {
    && e.1 == row.cc
    && (|| (row.start.Some? && InFamily(row.start.value, v6) && e.0 == Number(row.start.value, v6))
        || (row.end.Some? && InFamily(row.end.value, v6) && e.0 == Number(row.end.value, v6)))
  }

  lemma {:induction false} ArrivalsAreEnds(rows: seq<Row>, a: Arrival)
    ensures a in Arrivals(rows) <==>
            exists row :: row in rows && a.cc == row.cc && (row.start == Some(a.ip) || row.end == Some(a.ip))
  {
    if rows != [] {
      var n := |rows| - 1;
      ArrivalsAreEnds(rows[..n], a);
      assert rows == rows[..n] + [rows[n]];
      var start, end := End(rows[n].start, rows[n].cc), End(rows[n].end, rows[n].cc);
      assert a in Arrivals(rows) <==> a in Arrivals(rows[..n]) || a in start || a in end;
    }
  }

  /** The code table holds every code that arrived once: its length is the number of codes. */
  lemma {:induction false} TableIsCodes(seen: seq<Arrival>)
    ensures forall c :: c in CodeTable(seen) <==> exists a :: a in seen && a.cc == c
    ensures forall i, j :: 0 <= i < j < |CodeTable(seen)| ==> CodeTable(seen)[i] != CodeTable(seen)[j]
  {
    if seen != [] {
      var n := |seen| - 1;
      TableIsCodes(seen[..n]);
      assert seen == seen[..n] + [seen[n]];
    }
  }

  lemma {:induction false} TableGrows(seen: seq<Arrival>, n: nat)
    requires n <= |seen|
    ensures CodeTable(seen[..n]) <= CodeTable(seen)
  {
    if n < |seen| {
      var m := |seen| - 1;
      TableGrows(seen[..m], n);
      assert seen[..m][..n] == seen[..n];
    } else {
      assert seen[..n] == seen;
    }
  }

  lemma LastEndpoint(seen: seq<Arrival>, v6: bool)
    requires seen != [] && |CodeTable(seen)| <= TWO16
    ensures var a, before := seen[|seen| - 1], EndpointList(seen[..|seen| - 1], v6);
            EndpointList(seen, v6) == if InFamily(a.ip, v6) then before + [(Number(a.ip, v6), a.cc)] else before
  {
    assert Resolve(CodeTable(seen), seen[|seen| - 1].cc) == seen[|seen| - 1].cc;
  }

  /** With at most 65536 codes every endpoint keeps the code of its row. */
  lemma {:induction false} SmallTableKeepsCodes(seen: seq<Arrival>, v6: bool, e: Endpoint)
    requires |CodeTable(seen)| <= TWO16
    ensures e in EndpointList(seen, v6) <==>
            exists a :: a in seen && InFamily(a.ip, v6) && e == (Number(a.ip, v6), a.cc)
  {
    if seen != [] {
      var n := |seen| - 1;
      var a := seen[n];
      TableGrows(seen, n);
      SmallTableKeepsCodes(seen[..n], v6, e);
      assert seen == seen[..n] + [a];
      LastEndpoint(seen, v6);
    }
  }

  /** So then the trie holds exactly the two ends of every row. */
  lemma EndpointsAreRowEnds(rows: seq<Row>, v6: bool, e: Endpoint)
    requires |CodeTable(Arrivals(rows))| <= TWO16
    ensures e in EndpointList(Arrivals(rows), v6) <==> exists row :: row in rows && EndOf(row, v6, e)
  {
    var seen := Arrivals(rows);
    SmallTableKeepsCodes(seen, v6, e);
    if e in EndpointList(seen, v6) {
      var a :| a in seen && InFamily(a.ip, v6) && e == (Number(a.ip, v6), a.cc);
      ArrivalsAreEnds(rows, a);
      var row :| row in rows && a.cc == row.cc && (row.start == Some(a.ip) || row.end == Some(a.ip));
      assert EndOf(row, v6, e);
    }
    if row :| row in rows && EndOf(row, v6, e) {
      var ip := if row.start.Some? && InFamily(row.start.value, v6) && e.0 == Number(row.start.value, v6)
                then row.start.value else row.end.value;
      ArrivalsAreEnds(rows, Arrival(ip, row.cc));
      assert Arrival(ip, row.cc) in seen;
    }
  }

  // ---------------------------------------------------------------- the slow form and its cache

  lemma InRangeIsHolding(row: Row, ip: Option<Bytes>, v6: bool)
    requires ParsedIP(row.start) && ParsedIP(row.end) && ParsedIP(ip)
    ensures InRange(row, ip, v6) <==> RowHolds(row, ip, v6)
  {
    if row.start.Some? && row.end.Some? && ip.Some? && !Panics(row, ip, v6) {
      var a, x, b := FamilyForm(row.start.value, v6), FamilyForm(ip.value, v6), FamilyForm(row.end.value, v6);
      OrderIsNumeric(x.value, a.value);
      OrderIsNumeric(b.value, x.value);
    }
  }

  /** There is one such answer. */
  lemma FirstRowAnswerIsUnique(rows: seq<Row>, ip: Option<Bytes>, v6: bool, a: string, b: string)
    requires FirstRowAnswer(rows, ip, v6, a) && FirstRowAnswer(rows, ip, v6, b)
    ensures a == b
  {
  }

  lemma NextRowAnswers(rows: seq<Row>, ip: Option<Bytes>, v6: bool, cc: string)
    requires rows != [] && !RowHolds(rows[0], ip, v6) && FirstRowAnswer(rows[1..], ip, v6, cc)
    ensures FirstRowAnswer(rows, ip, v6, cc)
  {
  }

  /** The scan answers with the first row that holds the address. */
  lemma {:induction false} ScanFindsFirst(rows: seq<Row>, ip: Option<Bytes>, v6: bool)
    requires ParsedRows(rows) && ParsedIP(ip)
    ensures FirstRowAnswer(rows, ip, v6, Scan(rows, ip, v6))
  {
    if rows != [] {
      assert rows[0] in rows;
      InRangeIsHolding(rows[0], ip, v6);
      if RowHolds(rows[0], ip, v6) {
        assert FirstHolding(rows, 0, ip, v6);
      } else {
        ScanFindsFirst(rows[1..], ip, v6);
        NextRowAnswers(rows, ip, v6, Scan(rows, ip, v6));
      }
    }
  }

  /** It panics exactly if a row with parsed ends, one of them without an IPv4 form, comes before
      the first row that holds the address. */
  lemma {:induction false} ScanPanicsIff(rows: seq<Row>, ip: Option<Bytes>, v6: bool)
    requires ParsedRows(rows) && ParsedIP(ip)
    ensures ScanPanics(rows, ip, v6) <==> MeetsUnread(rows, ip, v6)
  {
    if rows != [] {
      var rest := rows[1..];
      assert rows[0] in rows;
      InRangeIsHolding(rows[0], ip, v6);
      ScanPanicsIff(rest, ip, v6);
      assert Panics(rows[0], ip, v6) <==> UnreadRow(rows, 0, ip, v6);
      if i: nat :| UnreadRow(rest, i, ip, v6) && !RowHolds(rows[0], ip, v6) {
        assert UnreadRow(rows, i + 1, ip, v6);
      }
      if i: nat :| UnreadRow(rows, i, ip, v6) && i > 0 {
        assert forall j :: 0 <= j < i - 1 ==> rest[j] == rows[j + 1];
        assert UnreadRow(rest, i - 1, ip, v6);
      }
    }
  }

  lemma SomeRowHolds(rows: seq<Row>, ip: Option<Bytes>, v6: bool)
    requires ParsedRows(rows) && ParsedIP(ip)
    ensures (exists row :: row in rows && InRange(row, ip, v6)) <==> exists row :: row in rows && RowHolds(row, ip, v6)
  {
    forall row | row in rows ensures InRange(row, ip, v6) <==> RowHolds(row, ip, v6) {
      InRangeIsHolding(row, ip, v6);
    }
  }

  /** The linear scan of `slowSearchIpv4` or `slowSearchIpv6`, behind its cache. */
  class SlowTable {
    const rows: seq<Row>
    const v6: bool
    const parse: string -> Option<Bytes>
    const zone: string -> string
    var cache: map<string, string>

    ghost predicate Valid()
      reads this
    {
      && ParsedRows(rows)
      && (forall ip :: ParsedIP(parse(ip)))
      && forall ip :: ip in cache ==> cache[ip] == Scan(rows, parse(ip), v6) && !ScanPanics(rows, parse(ip), v6)
    }

    constructor (rows: seq<Row>, v6: bool, parse: string -> Option<Bytes>, zone: string -> string)
      requires ParsedRows(rows) && forall ip :: ParsedIP(parse(ip))
      ensures Valid() && this.rows == rows && this.v6 == v6 && this.parse == parse && this.zone == zone
    {
      this.rows, this.v6, this.parse, this.zone, cache := rows, v6, parse, zone, map[];
    }

    /** Whatever was looked up or cleared before: the reserved zone, else the code of the first row
        that holds the address. It panics exactly where the plain scan would; what it remembers did
        not. */
    method SlowSearch(ip: string) returns (cc: string, panicked: bool)
      requires Valid()
      modifies `cache
      ensures Valid()
      ensures zone(ip) != "" ==> cc == zone(ip) && !panicked
      ensures zone(ip) == "" ==> (panicked <==> MeetsUnread(rows, parse(ip), v6))
      ensures zone(ip) == "" && !panicked ==> FirstRowAnswer(rows, parse(ip), v6, cc)
      ensures cache == if !panicked && zone(ip) == "" && (exists row :: row in rows && RowHolds(row, parse(ip), v6))
                       then old(cache)[ip := cc] else old(cache)
    {
      ScanFindsFirst(rows, parse(ip), v6);
      ScanPanicsIff(rows, parse(ip), v6);
      SomeRowHolds(rows, parse(ip), v6);
      cc, panicked := CachedScan(ip);
    }

    /** The answer and the panics of the plain scan, behind the reserved zones. */
    method CachedScan(ip: string) returns (cc: string, panicked: bool)
      requires Valid()
      modifies `cache
      ensures Valid()
      ensures zone(ip) != "" ==> cc == zone(ip) && !panicked
      ensures zone(ip) == "" ==> (panicked <==> ScanPanics(rows, parse(ip), v6))
      ensures zone(ip) == "" && !panicked ==> cc == Scan(rows, parse(ip), v6)
      ensures cache == if !panicked && zone(ip) == "" && (exists row :: row in rows && InRange(row, parse(ip), v6))
                       then old(cache)[ip := cc] else old(cache)
    {
      panicked := false;
      var reservedZone := zone(ip);
      if reservedZone != "" {
        return reservedZone, false;
      }
      cc := if ip in cache then cache[ip] else "";
      if cc != "" {
        GapAnswers(rows, parse(ip), v6);
        return;
      }
      assert rows[0..] == rows;
      for i := 0 to |rows|
        invariant Valid() && cache == old(cache)
        invariant Scan(rows, parse(ip), v6) == Scan(rows[i..], parse(ip), v6)
        invariant ScanPanics(rows, parse(ip), v6) == ScanPanics(rows[i..], parse(ip), v6)
        invariant forall j :: 0 <= j < i ==> !InRange(rows[j], parse(ip), v6)
      {
        assert rows[i..][1..] == rows[i + 1..];
        if Panics(rows[i], parse(ip), v6) {
          return "", true;
        }
        if InRange(rows[i], parse(ip), v6) {
          cache := cache[ip := rows[i].cc];
          return rows[i].cc, false;
        }
      }
      assert rows[|rows|..] == [];
      cc := "";
    }

    method ClearCache()
      requires Valid()
      modifies `cache
      ensures Valid() && cache == map[]
    {
      cache := map[];
    }
  }

  /** Where no row is in range the scan gives "". */
  lemma {:induction false} GapAnswers(rows: seq<Row>, ip: Option<Bytes>, v6: bool)
    ensures (forall row :: row in rows ==> !InRange(row, ip, v6)) ==> Scan(rows, ip, v6) == ""
  {
    if rows != [] {
      GapAnswers(rows[1..], ip, v6);
      assert rows[0] in rows;
    }
  }

  // ---------------------------------------------------------------- agreement

  ghost predicate Covered(rows: seq<Row>, ip: Bytes, v6: bool) {
    exists row :: row in rows && InRange(row, Some(ip), v6)
  }

  lemma {:induction false} GreatestExists(es: seq<Endpoint>, v: nat)
    requires exists e: Endpoint :: e in es && e.0 <= v
    ensures exists e: Endpoint :: Greatest(es, v, e)
  {
    var n := |es| - 1;
    var rest := es[..n];
    var last: Endpoint := es[n];
    assert forall e: Endpoint :: e in es <==> e in rest || e == last;
    if exists e: Endpoint :: e in rest && e.0 <= v {
      GreatestExists(rest, v);
      var e: Endpoint :| Greatest(rest, v, e);
      assert Greatest(es, v, if last.0 <= v && e.0 <= last.0 then last else e);
    } else {
      assert Greatest(es, v, last);
    }
  }

  /** The fast form always has an answer. */
  lemma FastAnswerExists(es: seq<Endpoint>, v: nat)
    ensures exists r :: Preceding(es, v, r)
  {
    if exists e: Endpoint :: e in es && e.0 <= v {
      GreatestExists(es, v);
      var e: Endpoint :| Greatest(es, v, e);
      assert Preceding(es, v, e.1);
    } else {
      assert Preceding(es, v, "");
    }
  }

  /** Every endpoint at or below `v` with another code than `c` lies below one with code `c` that
      is itself at or below `v`. */
  ghost predicate Outranked(es: seq<Endpoint>, v: nat, c: string) {
    forall e: Endpoint :: e in es && e.0 <= v && e.1 != c ==>
      exists f: Endpoint :: f in es && e.0 < f.0 <= v && f.1 == c
  }

  /** When `c` is the only admissible fast answer. */
  lemma OnlyAnswerIff(es: seq<Endpoint>, v: nat, c: string)
    ensures (forall r :: Preceding(es, v, r) ==> r == c)
            <==> Outranked(es, v, c) && (c == "" || exists e: Endpoint :: e in es && e.0 <= v)
  {
    if forall r :: Preceding(es, v, r) ==> r == c {
      OnlyAnswerOutranks(es, v, c);
    } else {
      var r :| Preceding(es, v, r) && r != c;
      if e: Endpoint :| Greatest(es, v, e) && e.1 == r {
        assert e in es && e.0 <= v && e.1 != c;
      }
    }
  }

  lemma OnlyAnswerOutranks(es: seq<Endpoint>, v: nat, c: string)
    requires forall r :: Preceding(es, v, r) ==> r == c
    ensures Outranked(es, v, c) && (c == "" || exists e: Endpoint :: e in es && e.0 <= v)
  {
    FastAnswerExists(es, v);
    forall e: Endpoint | e in es && e.0 <= v && e.1 != c
      ensures exists f: Endpoint :: f in es && e.0 < f.0 <= v && f.1 == c
    {
      GreatestExists(es, v);
      var f: Endpoint :| Greatest(es, v, f);
      assert Preceding(es, v, f.1);
      assert Greatest(es, v, e) ==> Preceding(es, v, e.1);
    }
  }

  /** Whether the sort's choice among ties shows: the answer is unique if and only if any two
      endpoints at one place with different codes have a greater one at or below the address. */
  lemma TiesDoNotShowIff(es: seq<Endpoint>, v: nat)
    ensures (forall r, s :: Preceding(es, v, r) && Preceding(es, v, s) ==> r == s)
            <==> forall e: Endpoint, f: Endpoint :: e in es && f in es && e.0 == f.0 <= v && e.1 != f.1 ==>
                   exists g: Endpoint :: g in es && e.0 < g.0 <= v
  {
    if forall r, s :: Preceding(es, v, r) && Preceding(es, v, s) ==> r == s {
      forall e: Endpoint, f: Endpoint | e in es && f in es && e.0 == f.0 <= v && e.1 != f.1
        ensures exists g: Endpoint :: g in es && e.0 < g.0 <= v
      {
        assert Greatest(es, v, e) ==> Preceding(es, v, e.1) && Preceding(es, v, f.1) by {
          assert Greatest(es, v, e) ==> Greatest(es, v, f);
        }
      }
    } else {
      var r, s :| Preceding(es, v, r) && Preceding(es, v, s) && r != s;
      if e: Endpoint :| Greatest(es, v, e) && e.1 == r {
        var f: Endpoint :| Greatest(es, v, f) && f.1 == s;
        assert e in es && f in es && e.0 == f.0 <= v && e.1 != f.1;
      }
    }
  }

  /** What the fast form promises over any rows: for the family that gets sorted the preceding
      endpoint, whatever the sort made of ties; for the other one the endpoint that a binary search
      of the list in its order of arrival ends at. */
  ghost predicate FastAnswer(seen: seq<Arrival>, v6: bool, v: nat, cc: string) {
    if v6 == LastFamily(seen) then Preceding(EndpointList(seen, v6), v, cc)
    else cc == FoundCode(EndpointList(seen, v6), v)
  }

  /** The slow form answers, and whatever the fast form may answer is the same. */
  ghost predicate Agrees(rows: seq<Row>, v6: bool, ip: Bytes) {
    && !ScanPanics(rows, Some(ip), v6)
    && forall fast :: FastAnswer(Arrivals(rows), v6, Number(ip, v6), fast) ==> fast == Scan(rows, Some(ip), v6)
  }

  /** `c` is the only preceding answer. */
  ghost predicate OnlyPreceding(es: seq<Endpoint>, v: nat, c: string) {
    Outranked(es, v, c) && (c == "" || exists e: Endpoint :: e in es && e.0 <= v)
  }

  /** The exact condition for agreement, for any rows at all: the scan does not panic, and, if the
      family gets sorted, every endpoint at or below the address that does not carry the scan's code
      is outranked by one that does; if it does not get sorted, the search of the list as it came in
      ends at the scan's code. */
  lemma AgreeIff(rows: seq<Row>, v6: bool, ip: Bytes)
    ensures Agrees(rows, v6, ip) <==>
            && !ScanPanics(rows, Some(ip), v6)
            && if v6 == LastFamily(Arrivals(rows))
               then OnlyPreceding(EndpointList(Arrivals(rows), v6), Number(ip, v6), Scan(rows, Some(ip), v6))
               else FoundCode(EndpointList(Arrivals(rows), v6), Number(ip, v6)) == Scan(rows, Some(ip), v6)
  {
    var seen, v := Arrivals(rows), Number(ip, v6);
    OnlyAnswerIff(EndpointList(seen, v6), v, Scan(rows, Some(ip), v6));
    if v6 == LastFamily(seen) {
      assert forall r :: FastAnswer(seen, v6, v, r) <==> Preceding(EndpointList(seen, v6), v, r);
    } else {
      assert FastAnswer(seen, v6, v, FoundCode(EndpointList(seen, v6), v));
    }
  }

  /** Where the list ends up sorted, either way, the first condition is enough. */
  lemma SortedAgrees(rows: seq<Row>, v6: bool, ip: Bytes)
    requires EndsSorted(Arrivals(rows), v6) && !ScanPanics(rows, Some(ip), v6)
    requires OnlyPreceding(EndpointList(Arrivals(rows), v6), Number(ip, v6), Scan(rows, Some(ip), v6))
    ensures Agrees(rows, v6, ip)
  {
    var es, v := EndpointList(Arrivals(rows), v6), Number(ip, v6);
    if v6 != LastFamily(Arrivals(rows)) {
      SortedFindsPreceding(es, v);
      OnlyAnswerIff(es, v, Scan(rows, Some(ip), v6));
    }
    AgreeIff(rows, v6, ip);
  }

  /** In a gap this means: nothing lies below, or all that lies nearest below carries no code. */
  lemma GapAgreesIff(rows: seq<Row>, v6: bool, ip: Bytes)
    requires !Covered(rows, ip, v6)
    ensures Agrees(rows, v6, ip) <==>
            && !ScanPanics(rows, Some(ip), v6)
            && if v6 == LastFamily(Arrivals(rows))
               then forall e: Endpoint :: Greatest(EndpointList(Arrivals(rows), v6), Number(ip, v6), e) ==> e.1 == ""
               else FoundCode(EndpointList(Arrivals(rows), v6), Number(ip, v6)) == ""
  {
    GapAnswers(rows, Some(ip), v6);
    AgreeIff(rows, v6, ip);
    NoCodeIff(EndpointList(Arrivals(rows), v6), Number(ip, v6));
  }

  lemma NoCodeIff(es: seq<Endpoint>, v: nat)
    ensures OnlyPreceding(es, v, "") <==> forall e: Endpoint :: Greatest(es, v, e) ==> e.1 == ""
  {
    OnlyAnswerIff(es, v, "");
    forall e: Endpoint | Greatest(es, v, e) ensures Preceding(es, v, e.1) {
    }
  }

  /** Row `i` is the one that the scan stops at. */
  ghost predicate FirstCovering(rows: seq<Row>, i: nat, ip: Bytes, v6: bool) {
    && i < |rows| && InRange(rows[i], Some(ip), v6)
    && forall j :: 0 <= j < i ==> !InRange(rows[j], Some(ip), v6) && !Panics(rows[j], Some(ip), v6)
  }

  lemma {:induction false} SomeRowIsFirst(rows: seq<Row>, n: nat, ip: Bytes, v6: bool)
    requires n <= |rows| && exists j :: 0 <= j < n && InRange(rows[j], Some(ip), v6)
    requires forall j :: 0 <= j < n ==> !Panics(rows[j], Some(ip), v6)
    ensures exists i: nat :: FirstCovering(rows, i, ip, v6)
  {
    if exists j :: 0 <= j < n - 1 && InRange(rows[j], Some(ip), v6) {
      SomeRowIsFirst(rows, n - 1, ip, v6);
    } else {
      assert FirstCovering(rows, n - 1, ip, v6);
    }
  }

  lemma {:induction false} FirstCoveringDecides(rows: seq<Row>, i: nat, ip: Bytes, v6: bool)
    requires FirstCovering(rows, i, ip, v6)
    ensures Scan(rows, Some(ip), v6) == rows[i].cc && !ScanPanics(rows, Some(ip), v6)
  {
    if i > 0 {
      assert !InRange(rows[0], Some(ip), v6) && !Panics(rows[0], Some(ip), v6);
      FirstCoveringDecides(rows[1..], i - 1, ip, v6);
    }
  }

  /** A condition to check row by row: where the list ends up sorted, agreement holds for an address
      in the `i`-th row, the first to cover it, if no end of a differently coded row lies from the
      row's start up to the address. */
  lemma CoveredAgrees(rows: seq<Row>, i: nat, v6: bool, ip: Bytes)
    requires |CodeTable(Arrivals(rows))| <= TWO16 && EndsSorted(Arrivals(rows), v6)
    requires FirstCovering(rows, i, ip, v6) && InFamily(rows[i].start.value, v6)
    requires forall row: Row, e: Endpoint :: row in rows && EndOf(row, v6, e) ==>
               e.0 < Number(rows[i].start.value, v6) || e.0 > Number(ip, v6) || row.cc == rows[i].cc
    ensures Agrees(rows, v6, ip)
  {
    FirstCoveringDecides(rows, i, ip, v6);
    RowDecides(rows, i, v6, Number(ip, v6));
    SortedAgrees(rows, v6, ip);
  }

  /** The start of the row outranks what lies before it, and nothing after it needs to be. */
  lemma RowDecides(rows: seq<Row>, i: nat, v6: bool, v: nat)
    requires |CodeTable(Arrivals(rows))| <= TWO16
    requires i < |rows| && rows[i].start.Some? && InFamily(rows[i].start.value, v6)
    requires Number(rows[i].start.value, v6) <= v
    requires forall row: Row, e: Endpoint :: row in rows && EndOf(row, v6, e) ==>
               e.0 < Number(rows[i].start.value, v6) || e.0 > v || row.cc == rows[i].cc
    ensures OnlyPreceding(EndpointList(Arrivals(rows), v6), v, rows[i].cc)
  {
    var es := EndpointList(Arrivals(rows), v6);
    var start: Endpoint := (Number(rows[i].start.value, v6), rows[i].cc);
    assert rows[i] in rows && EndOf(rows[i], v6, start);
    EndpointsAreRowEnds(rows, v6, start);
    forall e: Endpoint | e in es && e.0 <= v && e.1 != rows[i].cc ensures e.0 < start.0 {
      EndpointsAreRowEnds(rows, v6, e);
      var row :| row in rows && EndOf(row, v6, e);
    }
    assert start in es;
  }

  /** Whatever parses is of one family. */
  ghost predicate OneFamily(rows: seq<Row>, v6: bool) {
    forall row :: row in rows ==>
      && (row.start.Some? ==> InFamily(row.start.value, v6))
      && (row.end.Some? ==> InFamily(row.end.value, v6))
  }

  /** Then its list ends up sorted. */
  lemma OneFamilySorts(rows: seq<Row>, v6: bool)
    requires OneFamily(rows, v6)
    ensures EndsSorted(Arrivals(rows), v6)
  {
    var seen := Arrivals(rows);
    if seen != [] {
      var a := seen[|seen| - 1];
      ArrivalsAreEnds(rows, a);
      assert InFamily(a.ip, v6);
    }
  }

  /** Rows of one family that run forwards and do not overlap. */
  ghost predicate Disjoint(rows: seq<Row>, v6: bool) {
    && (forall row :: row in rows ==>
          && row.start.Some? && InFamily(row.start.value, v6)
          && row.end.Some? && InFamily(row.end.value, v6)
          && Number(row.start.value, v6) <= Number(row.end.value, v6))
    && (forall i, j :: 0 <= i < |rows| && 0 <= j < |rows| && i != j ==>
          || Number(rows[i].end.value, v6) < Number(rows[j].start.value, v6)
          || Number(rows[j].end.value, v6) < Number(rows[i].start.value, v6))
  }

  lemma DisjointEnds(rows: seq<Row>, i: nat, j: nat, v6: bool, v: nat, e: Endpoint)
    requires Disjoint(rows, v6) && i < |rows| && j < |rows| && EndOf(rows[j], v6, e)
    requires Number(rows[i].start.value, v6) <= e.0 <= v <= Number(rows[i].end.value, v6)
    ensures i == j
  {
    assert rows[i] in rows && rows[j] in rows;
  }

  lemma DisjointFirst(rows: seq<Row>, v6: bool, ip: Bytes) returns (i: nat)
    requires Disjoint(rows, v6) && Covered(rows, ip, v6)
    ensures FirstCovering(rows, i, ip, v6)
  {
    var covering :| covering in rows && InRange(covering, Some(ip), v6);
    forall j | 0 <= j < |rows| ensures !Panics(rows[j], Some(ip), v6) {
      assert rows[j] in rows;
    }
    SomeRowIsFirst(rows, |rows|, ip, v6);
    i :| FirstCovering(rows, i, ip, v6);
  }

  /** The address is in one of such rows, and there are at most 65536 codes. */
  ghost predicate CleanlyCovered(rows: seq<Row>, v6: bool, ip: Bytes) {
    Disjoint(rows, v6) && |CodeTable(Arrivals(rows))| <= TWO16 && Covered(rows, ip, v6)
  }

  /** Over such rows every covered address is answered alike. */
  lemma DisjointRowsAgree(rows: seq<Row>, v6: bool, ip: Bytes)
    requires CleanlyCovered(rows, v6, ip)
    ensures Agrees(rows, v6, ip)
  {
    OneFamilySorts(rows, v6);
    var i := DisjointFirst(rows, v6, ip);
    assert rows[i] in rows;
    forall row: Row, e: Endpoint | row in rows && EndOf(row, v6, e)
      ensures e.0 < Number(rows[i].start.value, v6) || e.0 > Number(ip, v6) || row.cc == rows[i].cc
    {
      var j :| 0 <= j < |rows| && rows[j] == row;
      if Number(rows[i].start.value, v6) <= e.0 <= Number(ip, v6) {
        DisjointEnds(rows, i, j, v6, Number(ip, v6), e);
      }
    }
    CoveredAgrees(rows, i, v6, ip);
  }

  lemma QuadNumber(quad: Bytes)
    requires |quad| == 4
    ensures Number(Mapped(quad), false)
            == ((quad[0] as int * 256 + quad[1] as int) * 256 + quad[2] as int) * 256 + quad[3] as int
  {
    var three, two, one := quad[..3], quad[..3][..2], quad[..3][..2][..1];
    assert one[..0] == [] && Value(one) == quad[0] as int;
    assert Value(two) == Value(one) * 256 + quad[1] as int;
    assert Value(three) == Value(two) * 256 + quad[2] as int;
    assert Value(quad) == Value(three) * 256 + quad[3] as int;
  }

  function Quad(a: byte, b: byte, c: byte, d: byte): Option<Bytes> {
    Some(Mapped([a, b, c, d]))
  }

  const SHIPPED_RS := Row(Quad(81, 18, 56, 0), Quad(81, 18, 58, 193), "RS")
  const SHIPPED_NL := Row(Quad(81, 18, 58, 192), Quad(81, 18, 58, 193), "NL")
  const SHIPPED_DE := Row(Quad(81, 18, 58, 192), Quad(81, 18, 58, 191), "DE")

  /** The table in the repository holds these three rows one after the other. At 81.18.58.192 the
      slow form answers RS, the fast form NL or DE, whichever the sort put last: so the forms
      disagree at a covered address and ties do show. */
  lemma ShippedRowsDisagree(rows: seq<Row>, i: nat)
    requires |CodeTable(Arrivals(rows))| <= TWO16 && !LastFamily(Arrivals(rows))
    requires i + 2 < |rows| && rows[i] == SHIPPED_RS && rows[i + 1] == SHIPPED_NL && rows[i + 2] == SHIPPED_DE
    requires forall j :: 0 <= j < i ==>
               !InRange(rows[j], Quad(81, 18, 58, 192), false) && !Panics(rows[j], Quad(81, 18, 58, 192), false)
    ensures var seen, ip := Arrivals(rows), Mapped([81, 18, 58, 192]);
            && Scan(rows, Some(ip), false) == "RS"
            && FastAnswer(seen, false, Number(ip, false), "NL")
            && FastAnswer(seen, false, Number(ip, false), "DE")
  {
    QuadNumber([81, 18, 56, 0]);
    QuadNumber([81, 18, 58, 192]);
    QuadNumber([81, 18, 58, 193]);
    FirstCoveringDecides(rows, i, Mapped([81, 18, 58, 192]), false);
    StartIsAnswer(rows, i + 1, Mapped([81, 18, 58, 192]));
    StartIsAnswer(rows, i + 2, Mapped([81, 18, 58, 192]));
  }

  lemma StartIsAnswer(rows: seq<Row>, i: nat, ip: Bytes)
    requires |CodeTable(Arrivals(rows))| <= TWO16
    requires i < |rows| && rows[i].start == Some(ip) && InFamily(ip, false)
    ensures Preceding(EndpointList(Arrivals(rows), false), Number(ip, false), rows[i].cc)
  {
    var e: Endpoint := (Number(ip, false), rows[i].cc);
    assert rows[i] in rows && EndOf(rows[i], false, e);
    EndpointsAreRowEnds(rows, false, e);
    assert Greatest(EndpointList(Arrivals(rows), false), Number(ip, false), e);
  }

  lemma {:induction false} TableIsShort(seen: seq<Arrival>)
    ensures |CodeTable(seen)| <= |seen|
  {
    if seen != [] {
      TableIsShort(seen[..|seen| - 1]);
    }
  }

  /** What an arrival adds to the list of a family. */
  function OneEndpoint(a: Arrival, v6: bool): seq<Endpoint> {
    if InFamily(a.ip, v6) then [(Number(a.ip, v6), a.cc)] else []
  }

  /** The arrivals of a family in order, each with its own code. */
  function Own(seen: seq<Arrival>, n: nat, v6: bool): seq<Endpoint>
    requires n <= |seen|
  {
    if n == 0 then [] else Own(seen, n - 1, v6) + OneEndpoint(seen[n - 1], v6)
  }

  lemma {:induction false} ListIsOwn(seen: seq<Arrival>, n: nat, v6: bool)
    requires n <= |seen| <= TWO16
    ensures EndpointList(seen[..n], v6) == Own(seen, n, v6)
  {
    if n > 0 {
      var first := seen[..n];
      ListIsOwn(seen, n - 1, v6);
      assert first[..n - 1] == seen[..n - 1];
      TableIsShort(first);
      LastEndpoint(first, v6);
    }
  }

  /** Two IPv4 rows in falling order, and after them a row of the other family. */
  function MixedRows(ip6: Bytes): seq<Row> {
    [Row(Quad(5, 0, 0, 0), Quad(6, 0, 0, 0), "A"), Row(Quad(1, 0, 0, 0), Quad(2, 0, 0, 0), "B"),
     Row(Some(ip6), Some(ip6), "C")]
  }

  lemma MixedArrivals(ip6: Bytes)
    ensures Arrivals(MixedRows(ip6)) ==
            [Arrival(Mapped([5, 0, 0, 0]), "A"), Arrival(Mapped([6, 0, 0, 0]), "A"),
             Arrival(Mapped([1, 0, 0, 0]), "B"), Arrival(Mapped([2, 0, 0, 0]), "B"),
             Arrival(ip6, "C"), Arrival(ip6, "C")]
  {
    var rows := MixedRows(ip6);
    var two, one := rows[..2], rows[..2][..1];
    assert one[..0] == [] && Arrivals(one[..0]) == [];
    assert Arrivals(one) == [Arrival(Mapped([5, 0, 0, 0]), "A"), Arrival(Mapped([6, 0, 0, 0]), "A")];
    assert Arrivals(two) == Arrivals(one) + [Arrival(Mapped([1, 0, 0, 0]), "B"), Arrival(Mapped([2, 0, 0, 0]), "B")];
    assert Arrivals(rows) == Arrivals(two) + [Arrival(ip6, "C"), Arrival(ip6, "C")];
  }

  lemma MixedNumbers()
    ensures Number(Mapped([5, 0, 0, 0]), false) == 0x500_0000 && Number(Mapped([6, 0, 0, 0]), false) == 0x600_0000
    ensures Number(Mapped([1, 0, 0, 0]), false) == 0x100_0000 && Number(Mapped([2, 0, 0, 0]), false) == 0x200_0000
  {
    QuadNumber([5, 0, 0, 0]);
    QuadNumber([6, 0, 0, 0]);
    QuadNumber([1, 0, 0, 0]);
    QuadNumber([2, 0, 0, 0]);
  }

  lemma SixListed(s: seq<Arrival>, e0: Endpoint, e1: Endpoint, e2: Endpoint, e3: Endpoint)
    requires |s| == 6 && OneEndpoint(s[4], false) == OneEndpoint(s[5], false) == []
    requires OneEndpoint(s[0], false) == [e0] && OneEndpoint(s[1], false) == [e1]
    requires OneEndpoint(s[2], false) == [e2] && OneEndpoint(s[3], false) == [e3]
    ensures Own(s, 6, false) == [e0, e1, e2, e3]
  {
    assert Own(s, 1, false) == [e0];
    assert Own(s, 2, false) == [e0, e1];
    assert Own(s, 3, false) == [e0, e1, e2];
    assert Own(s, 4, false) == [e0, e1, e2, e3];
    assert Own(s, 5, false) == Own(s, 4, false);
  }

  /** The IPv4 list stays as it came in. */
  lemma MixedList(ip6: Bytes)
    requires |ip6| == 16 && To4(ip6).None?
    ensures EndpointList(Arrivals(MixedRows(ip6)), false)
            == [(0x500_0000, "A"), (0x600_0000, "A"), (0x100_0000, "B"), (0x200_0000, "B")]
  {
    MixedArrivals(ip6);
    MixedNumbers();
    var seen := Arrivals(MixedRows(ip6));
    SixListed(seen, (0x500_0000, "A"), (0x600_0000, "A"), (0x100_0000, "B"), (0x200_0000, "B"));
    ListIsOwn(seen, 6, false);
    assert seen[..6] == seen;
  }

  /** Why sortedness matters: in this table everything that `CoveredAgrees` asks for holds at 5.5.0.0
      but that, the scan answers A, and the search of the unsorted list ends at B. */
  lemma MixedRowsDisagree(ip6: Bytes)
    requires |ip6| == 16 && To4(ip6).None?
    ensures var rows, ip := MixedRows(ip6), Mapped([5, 5, 0, 0]);
            && !EndsSorted(Arrivals(rows), false)
            && OnlyPreceding(EndpointList(Arrivals(rows), false), Number(ip, false), "A")
            && Scan(rows, Some(ip), false) == "A"
            && FastAnswer(Arrivals(rows), false, Number(ip, false), "B")
            && !Agrees(rows, false, ip)
  {
    var rows, ip := MixedRows(ip6), Mapped([5, 5, 0, 0]);
    MixedArrivals(ip6);
    MixedList(ip6);
    MixedScan(ip6);
    var es := EndpointList(Arrivals(rows), false);
    FoundAtEnd(es, Number(ip, false));
    assert es[0] in es;
    assert !Ascending(es) by {
      assert es[2].0 < es[0].0;
    }
    assert FastAnswer(Arrivals(rows), false, Number(ip, false), "B");
  }

  lemma MixedScan(ip6: Bytes)
    requires |ip6| == 16
    ensures Number(Mapped([5, 5, 0, 0]), false) == 0x505_0000
    ensures Scan(MixedRows(ip6), Quad(5, 5, 0, 0), false) == "A"
  {
    QuadNumber([5, 0, 0, 0]);
    QuadNumber([5, 5, 0, 0]);
    QuadNumber([6, 0, 0, 0]);
  }

  /** The halving of a list of four that ends low. */
  lemma FoundAtEnd(es: seq<Endpoint>, v: nat)
    requires |es| == 4 && es[2].0 <= v && es[3].0 <= v
    ensures FoundCode(es, v) == es[3].1
  {
    var p := AboveIn(es, v);
    assert GoSort.Bisect(p, 3, 4) == GoSort.Bisect(p, 4, 4) == 4;
    assert GoSort.Bisect(p, 0, 4) == GoSort.Bisect(p, 3, 4);
  }

  // ---------------------------------------------------------------- the store

  /** `Store.search` over the four combinations of fast and slow mode. */
  class Store {
    const parse: string -> Option<Bytes>
    const zone: string -> string
    const slowV4: SlowTable
    const slowV6: SlowTable
    var geotrie: Trie?
    var geotrieIpv6: Trie?

    ghost predicate TrieFor(t: Trie?, rows: seq<Row>)
      reads t
    {
      t != null ==> BuiltFrom(t, Arrivals(rows))
    }

    ghost predicate Valid()
      reads this, slowV4, slowV6, geotrie, geotrieIpv6
    {
      && slowV4 != slowV6
      && slowV4.Valid() && !slowV4.v6 && slowV4.parse == parse && slowV4.zone == zone
      && slowV6.Valid() && slowV6.v6 && slowV6.parse == parse && slowV6.zone == zone
      && TrieFor(geotrie, slowV4.rows)
      && TrieFor(geotrieIpv6, slowV6.rows)
    }

    constructor (rowsV4: seq<Row>, rowsV6: seq<Row>, allowSlowV4: bool, allowSlowV6: bool,
                 parse: string -> Option<Bytes>, zone: string -> string)
      requires forall ip :: ParsedIP(parse(ip))
      requires ParsedRows(rowsV4) && ParsedRows(rowsV6)
      ensures Valid() && slowV4.rows == rowsV4 && slowV6.rows == rowsV6
      ensures this.parse == parse && this.zone == zone
      ensures (geotrie == null <==> allowSlowV4) && (geotrieIpv6 == null <==> allowSlowV6)
    {
      this.parse, this.zone := parse, zone;
      slowV4 := new SlowTable(rowsV4, false, parse, zone);
      slowV6 := new SlowTable(rowsV6, true, parse, zone);
      var t4: Trie?, t6: Trie? := null, null;
      if !allowSlowV4 {
        t4 := ConstructTrie(rowsV4);
      }
      if !allowSlowV6 {
        t6 := ConstructTrie(rowsV6);
      }
      geotrie, geotrieIpv6 := t4, t6;
    }

    /** The address a request text stands for: the front part of a comma-separated list. */
    function Front(ip: string): string {
      if ',' in ip then GoStrings.TrimSpace(GoStrings.Split(ip, ',')[0]) else ip
    }

    /** The text before the first comma without blanks around it; all of it if there is no comma. */
    lemma FrontIs(front: string, others: string)
      requires ',' !in front
      ensures Front(front) == front && Front(front + [','] + others) == GoStrings.TrimSpace(front)
    {
      GoStrings.SplitJoin(front, ',', others);
    }

    predicate IsIPv6(ip: string) {
      parse(ip).Some? && To4(parse(ip).value).None?
    }

    function Rows(ip: string): seq<Row> {
      if IsIPv6(ip) then slowV6.rows else slowV4.rows
    }

    /** The request goes to a trie and reaches its search. */
    ghost predicate Fast(ip: string)
      reads this
    {
      (if IsIPv6(ip) then geotrieIpv6 else geotrie) != null && zone(ip) == "" && parse(ip).Some?
    }

    /** The reserved zone of the address, else the code of the first row that holds it. */
    ghost predicate Expected(ip: string, cc: string) {
      if zone(ip) != "" then cc == zone(ip) else FirstRowAnswer(Rows(ip), parse(ip), IsIPv6(ip), cc)
    }

    /** `trie.search`, which repeats the test for reserved zones. */
    method FastSearch(t: Trie, ghost rows: seq<Row>, ip: string) returns (cc: string)
      requires BuiltFrom(t, Arrivals(rows))
      requires ParsedIP(parse(ip))
      ensures zone(ip) != "" ==> cc == zone(ip)
      ensures zone(ip) == "" && parse(ip).None? ==> cc == ""
      ensures zone(ip) == "" && parse(ip).Some? ==>
                FastAnswer(Arrivals(rows), IsIPv6(ip), Number(parse(ip).value, IsIPv6(ip)), cc)
    {
      var reservedZone := zone(ip);
      if reservedZone != "" {
        return reservedZone;
      }
      if parse(ip).None? {
        return "";
      }
      if To4(parse(ip).value).Some? {
        cc := t.SearchIPv4(parse(ip).value);
      } else {
        cc := t.SearchIPv6(parse(ip).value);
      }
      SearchedAnswer(t, Arrivals(rows), IsIPv6(ip), Number(parse(ip).value, IsIPv6(ip)), cc);
    }

    /** Whatever the modes and whatever was looked up before, reserved and unparsable addresses and
        every address in slow mode get the expected answer, unless the scan panics. In fast mode the
        answer is the fast one, and the expected one too wherever the forms agree; so it is for every
        covered address over rows that do not overlap. */
    method Search(text: string) returns (cc: string, panicked: bool)
      requires Valid()
      modifies slowV4`cache, slowV6`cache
      ensures Valid()
      ensures var ip := Front(text);
              panicked <==> !Fast(ip) && zone(ip) == "" && MeetsUnread(Rows(ip), parse(ip), IsIPv6(ip))
      ensures !panicked && !Fast(Front(text)) ==> Expected(Front(text), cc)
      ensures var ip := Front(text); Fast(ip) ==>
                FastAnswer(Arrivals(Rows(ip)), IsIPv6(ip), Number(parse(ip).value, IsIPv6(ip)), cc)
      ensures var ip := Front(text);
              Fast(ip) && Agrees(Rows(ip), IsIPv6(ip), parse(ip).value) ==> Expected(ip, cc)
      ensures var ip := Front(text);
              Fast(ip) && CleanlyCovered(Rows(ip), IsIPv6(ip), parse(ip).value) ==> Expected(ip, cc)
    {
      var ip := Front(text);
      panicked := false;
      if IsIPv6(ip) {
        if geotrieIpv6 == null {
          cc, panicked := slowV6.SlowSearch(ip);
        } else {
          cc := FastSearch(geotrieIpv6, slowV6.rows, ip);
        }
      } else {
        if geotrie == null {
          cc, panicked := slowV4.SlowSearch(ip);
        } else {
          cc := FastSearch(geotrie, slowV4.rows, ip);
        }
      }
      if Fast(ip) {
        FastIsExpected(Rows(ip), IsIPv6(ip), parse(ip).value, cc);
      }
    }
  }

  /** Where the forms agree the fast answer is that of the first row, and so it is for covered
      addresses over rows that do not overlap. */
  lemma FastIsExpected(rows: seq<Row>, v6: bool, ip: Bytes, cc: string)
    requires ParsedRows(rows) && |ip| == 16
    requires FastAnswer(Arrivals(rows), v6, Number(ip, v6), cc)
    ensures Agrees(rows, v6, ip) || CleanlyCovered(rows, v6, ip) ==> FirstRowAnswer(rows, Some(ip), v6, cc)
  {
    ScanFindsFirst(rows, Some(ip), v6);
    if CleanlyCovered(rows, v6, ip) {
      DisjointRowsAgree(rows, v6, ip);
    }
  }

  /** What a search of the built trie finds, in terms of what went in. */
  lemma SearchedAnswer(t: Trie, seen: seq<Arrival>, v6: bool, v: nat, cc: string)
    requires BuiltFrom(t, seen)
    requires cc == FoundCode(t.Listed(v6), v)
    requires t.Built(v6) ==> Preceding(t.Listed(v6), v, cc)
    ensures FastAnswer(seen, v6, v, cc)
  {
    if v6 == LastFamily(seen) {
      SamePreceding(t.Listed(v6), EndpointList(seen, v6), v, cc);
    }
  }

  lemma SamePreceding(a: seq<Endpoint>, b: seq<Endpoint>, v: nat, cc: string)
    requires forall e: Endpoint :: e in a <==> e in b
    requires Preceding(a, v, cc)
    ensures Preceding(b, v, cc)
  {
    if e: Endpoint :| Greatest(a, v, e) && e.1 == cc {
      assert Greatest(b, v, e);
    }
  }
}
