/** One day of request statistics without a cap (statistic/statistic.go, statistic/structconv.go). */
module DailySummary {
  import opened MapSums
  import opened GoStrings

  /** The nine counter maps. */
  datatype Dim =
    | ForwardTypes | RequestOrigin | RequestClientIp | Referer | UserAgent
    | RequestURL | RequestMethods | DownstreamHostnames | UpstreamHostnames

  datatype RequestInfo = RequestInfo(
    ipAddr: string, country: string, succ: bool, forwardType: string, requestMethod: string, referer: string,
    userAgent: string, requestURL: string, target: string, upstream: string)

  /** The library calls that `RecordRequest` makes; `isPage` is the test of the URL's extension. */
  datatype Lib = Lib(isValidIp: string -> bool, sanitize: string -> string, isPage: string -> bool)

  /** The client address of a request; of a forwarded list only the first one, if it is valid. */
  function ClientIp(ri: RequestInfo, lib: Lib): string {
    var first := Split(TrimSpace(ri.ipAddr), ',')[0];
    if ',' in ri.ipAddr && lib.isValidIp(if HasPrefix(first, "[") then first[1..] else first) then first else ri.ipAddr
  }

  /** An address without a comma stands for itself; of a list the first part stands for it, with a
      bracket that it may start with, if that part is a valid address without the bracket. */
  lemma ClientIpIs(ri: RequestInfo, lib: Lib, first: string, bare: string, others: string)
    requires ',' !in first && (first == "[" + bare || (first == bare && !("[" <= bare)))
    ensures ',' !in ri.ipAddr ==> ClientIp(ri, lib) == ri.ipAddr
    ensures TrimSpace(ri.ipAddr) == first + [','] + others ==>
              ClientIp(ri, lib) == if lib.isValidIp(bare) then first else ri.ipAddr
  {
    SplitJoin(first, ',', others);
    var before, after := TrimSpaceIs(ri.ipAddr);
    assert TrimSpace(ri.ipAddr) == first + [','] + others ==> ri.ipAddr[|before| + |first|] == ',';
  }

  /** Does a request count in a map? */
  predicate CountsIn(ri: RequestInfo, lib: Lib, d: Dim) {
    match d
    case RequestMethods => ri.requestMethod != ""
    case RequestURL => lib.isPage(ri.requestURL)
    case DownstreamHostnames => lib.isPage(ri.requestURL)
    case UpstreamHostnames => lib.isPage(ri.requestURL)
    case _ => true
  }

  /** Under which key? */
  function KeyIn(ri: RequestInfo, lib: Lib, d: Dim): string {
    match d
    case ForwardTypes => ri.forwardType
    case RequestOrigin => ToLower(ri.country)
    case RequestClientIp => ClientIp(ri, lib)
    case Referer => lib.sanitize(ri.referer)
    case UserAgent => ri.userAgent
    case RequestURL => ri.requestURL
    case RequestMethods => ri.requestMethod
    case DownstreamHostnames => ri.target
    case UpstreamHostnames => ri.upstream
  }

  /** The size counters beside the maps. */
  datatype BoundedCounters = BoundedCounters(
    forwardTypes: int, requestOrigin: int, requestClientIp: int,
    referer: int, userAgent: int, requestURL: int, requestMethods: int,
    downstreamHostnames: int, upstreamHostnames: int)

  datatype Summary = Summary(
    totalRequest: nat, errorRequest: nat, validRequest: nat,
    forwardTypes: Counts, requestOrigin: Counts, requestClientIp: Counts,
    referer: Counts, userAgent: Counts, requestURL: Counts, requestMethods: Counts,
    downstreamHostnames: Counts, upstreamHostnames: Counts,
    bounded: BoundedCounters)

  datatype Export = Export(
    totalRequest: nat, errorRequest: nat, validRequest: nat,
    forwardTypes: Counts, requestOrigin: Counts, requestClientIp: Counts,
    referer: Counts, userAgent: Counts, requestURL: Counts, requestMethods: Counts,
    downstreams: Counts, upstreams: Counts)

  function CountsOf(s: Summary, d: Dim): Counts {
    match d
    case ForwardTypes => s.forwardTypes
    case RequestOrigin => s.requestOrigin
    case RequestClientIp => s.requestClientIp
    case Referer => s.referer
    case UserAgent => s.userAgent
    case RequestURL => s.requestURL
    case RequestMethods => s.requestMethods
    case DownstreamHostnames => s.downstreamHostnames
    case UpstreamHostnames => s.upstreamHostnames
  }

  function SizeOf(s: Summary, d: Dim): int {
    match d
    case ForwardTypes => s.bounded.forwardTypes
    case RequestOrigin => s.bounded.requestOrigin
    case RequestClientIp => s.bounded.requestClientIp
    case Referer => s.bounded.referer
    case UserAgent => s.bounded.userAgent
    case RequestURL => s.bounded.requestURL
    case RequestMethods => s.bounded.requestMethods
    case DownstreamHostnames => s.bounded.downstreamHostnames
    case UpstreamHostnames => s.bounded.upstreamHostnames
  }

  function Exported(e: Export, d: Dim): Counts {
    match d
    case ForwardTypes => e.forwardTypes
    case RequestOrigin => e.requestOrigin
    case RequestClientIp => e.requestClientIp
    case Referer => e.referer
    case UserAgent => e.userAgent
    case RequestURL => e.requestURL
    case RequestMethods => e.requestMethods
    case DownstreamHostnames => e.downstreams
    case UpstreamHostnames => e.upstreams
  }

  /** The summary of a day without requests. */
  ghost predicate Empty(s: Summary) {
    && s.totalRequest == s.errorRequest == s.validRequest == 0
    && forall d :: CountsOf(s, d) == map[] && SizeOf(s, d) == 0
  }

  /** The summary that the collector keeps and updates in place. */
  class LiveSummary {
    var totalRequest: nat
    var errorRequest: nat
    var validRequest: nat
    var forwardTypes: Counts
    var requestOrigin: Counts
    var requestClientIp: Counts
    var referer: Counts
    var userAgent: Counts
    var requestURL: Counts
    var requestMethods: Counts
    var downstreamHostnames: Counts
    var upstreamHostnames: Counts
    var bounded: BoundedCounters

    function Value(): Summary
      reads this
    {
      Summary(
        totalRequest, errorRequest, validRequest,
        forwardTypes, requestOrigin, requestClientIp, referer, userAgent,
        requestURL, requestMethods, downstreamHostnames, upstreamHostnames,
        bounded)
    }

    constructor (value: Summary)
      ensures Value() == value
    {
      totalRequest, errorRequest, validRequest := value.totalRequest, value.errorRequest, value.validRequest;
      forwardTypes := value.forwardTypes;
      requestOrigin := value.requestOrigin;
      requestClientIp := value.requestClientIp;
      referer := value.referer;
      userAgent := value.userAgent;
      requestURL := value.requestURL;
      requestMethods := value.requestMethods;
      downstreamHostnames := value.downstreamHostnames;
      upstreamHostnames := value.upstreamHostnames;
      bounded := value.bounded;
    }

    method CountTotals(ri: RequestInfo)
      modifies `totalRequest, `validRequest, `errorRequest
      ensures TotalsMoved(old(Value()), ri, Value())
    {
      totalRequest := totalRequest + 1;
      if ri.succ {
        validRequest := validRequest + 1;
      } else {
        errorRequest := errorRequest + 1;
      }
    }

    method CountKinds(ri: RequestInfo)
      modifies this
      ensures KindsMoved(old(Value()), ri, Value())
    {
      forwardTypes := UnboundedIncr(forwardTypes, ri.forwardType);
      if ri.requestMethod != "" {
        requestMethods := UnboundedIncr(requestMethods, ri.requestMethod);
      }
      requestOrigin := UnboundedIncr(requestOrigin, ToLower(ri.country));
    }

    method CountClient(ri: RequestInfo, lib: Lib)
      modifies this
      ensures ClientMoved(old(Value()), ri, lib, Value())
    {
      requestClientIp := UnboundedIncr(requestClientIp, ClientIp(ri, lib));
      referer := UnboundedIncr(referer, lib.sanitize(ri.referer));
      userAgent := UnboundedIncr(userAgent, ri.userAgent);
    }

    /** The maps that count pages only. */
    method CountPage(ri: RequestInfo)
      modifies this
      ensures PagesMoved(old(Value()), ri, Value())
    {
      requestURL := UnboundedIncr(requestURL, ri.requestURL);
      downstreamHostnames := UnboundedIncr(downstreamHostnames, ri.target);
      upstreamHostnames := UnboundedIncr(upstreamHostnames, ri.upstream);
    }
  }

  // ---------------------------------------------------------------- export and import

  /** The range over a map, in any order, into a plain map. */
  method SyncMapToMapStringInt(syncMap: Counts) returns (result: Counts)
    ensures result == syncMap
  {
    result := map[];
    var rest := syncMap.Keys;
    while rest != {}
      invariant rest <= syncMap.Keys
      invariant forall k :: k in result <==> k in syncMap && k !in rest
      invariant forall k :: k in result ==> result[k] == syncMap[k]
      decreases |rest|
    {
      var key :| key in rest;
      result := result[key := syncMap[key]];
      rest := rest - {key};
    }
  }

  /** And back, storing one entry after the other. */
  method MapStringIntToSyncMap(m: Counts) returns (syncMap: Counts)
    ensures syncMap == m
  {
    syncMap := map[];
    var rest := m.Keys;
    while rest != {}
      invariant rest <= m.Keys
      invariant forall k :: k in syncMap <==> k in m && k !in rest
      invariant forall k :: k in syncMap ==> syncMap[k] == m[k]
      decreases |rest|
    {
      var k :| k in rest;
      syncMap := syncMap[k := m[k]];
      rest := rest - {k};
    }
  }

  /** `e` carries the totals and the nine maps of `s`. */
  ghost predicate Exports(s: Summary, e: Export) {
    && e.totalRequest == s.totalRequest && e.errorRequest == s.errorRequest && e.validRequest == s.validRequest
    && forall d :: Exported(e, d) == CountsOf(s, d)
  }

  /** `s` carries the totals and the nine maps of `e`, and its size counters are the maps' sizes. */
  ghost predicate Imports(e: Export, s: Summary) {
    && Exports(s, e)
    && forall d :: SizeOf(s, d) == |Exported(e, d)|
  }

  /** Map by map, each under its own name. */
  lemma ExportsByName(s: Summary, e: Export)
    requires Exports(s, e)
    ensures e.totalRequest == s.totalRequest && e.errorRequest == s.errorRequest && e.validRequest == s.validRequest
    ensures e.forwardTypes == s.forwardTypes && e.requestOrigin == s.requestOrigin
    ensures e.requestClientIp == s.requestClientIp && e.referer == s.referer && e.userAgent == s.userAgent
    ensures e.requestURL == s.requestURL && e.requestMethods == s.requestMethods
    ensures e.downstreams == s.downstreamHostnames && e.upstreams == s.upstreamHostnames
  {
    assert Exported(e, ForwardTypes) == CountsOf(s, ForwardTypes);
    assert Exported(e, RequestOrigin) == CountsOf(s, RequestOrigin);
    assert Exported(e, RequestClientIp) == CountsOf(s, RequestClientIp);
    assert Exported(e, Referer) == CountsOf(s, Referer);
    assert Exported(e, UserAgent) == CountsOf(s, UserAgent);
    assert Exported(e, RequestURL) == CountsOf(s, RequestURL);
    assert Exported(e, RequestMethods) == CountsOf(s, RequestMethods);
    assert Exported(e, DownstreamHostnames) == CountsOf(s, DownstreamHostnames);
    assert Exported(e, UpstreamHostnames) == CountsOf(s, UpstreamHostnames);
  }

  method DailySummaryToExport(summary: LiveSummary) returns (exported: Export)
    ensures Exports(summary.Value(), exported)
  {
    var forwardTypes := SyncMapToMapStringInt(summary.forwardTypes);
    var requestOrigin := SyncMapToMapStringInt(summary.requestOrigin);
    var requestClientIp := SyncMapToMapStringInt(summary.requestClientIp);
    var referer := SyncMapToMapStringInt(summary.referer);
    var userAgent := SyncMapToMapStringInt(summary.userAgent);
    var requestURL := SyncMapToMapStringInt(summary.requestURL);
    var requestMethods := SyncMapToMapStringInt(summary.requestMethods);
    var downstreams := SyncMapToMapStringInt(summary.downstreamHostnames);
    var upstreams := SyncMapToMapStringInt(summary.upstreamHostnames);
    exported := Export(
      summary.totalRequest, summary.errorRequest, summary.validRequest,
      forwardTypes, requestOrigin, requestClientIp, referer, userAgent, requestURL,
      requestMethods, downstreams, upstreams);
  }

  method DailySummaryExportToSummary(exported: Export) returns (summary: LiveSummary)
    ensures fresh(summary) && Imports(exported, summary.Value())
  {
    var forwardTypes := MapStringIntToSyncMap(exported.forwardTypes);
    var requestOrigin := MapStringIntToSyncMap(exported.requestOrigin);
    var requestClientIp := MapStringIntToSyncMap(exported.requestClientIp);
    var referer := MapStringIntToSyncMap(exported.referer);
    var userAgent := MapStringIntToSyncMap(exported.userAgent);
    var requestURL := MapStringIntToSyncMap(exported.requestURL);
    var requestMethods := MapStringIntToSyncMap(exported.requestMethods);
    var downstreamHostnames := MapStringIntToSyncMap(exported.downstreams);
    var upstreamHostnames := MapStringIntToSyncMap(exported.upstreams);
    var bounded := BoundedCounters(
      |exported.forwardTypes|, |exported.requestOrigin|, |exported.requestClientIp|,
      |exported.referer|, |exported.userAgent|, |exported.requestURL|,
      |exported.requestMethods|, |exported.downstreams|, |exported.upstreams|);
    summary := new LiveSummary(Summary(
      exported.totalRequest, exported.errorRequest, exported.validRequest,
      forwardTypes, requestOrigin, requestClientIp, referer,
      userAgent, requestURL, requestMethods, downstreamHostnames, upstreamHostnames,
      bounded));
  }

  /** Exporting what was imported brings the export back. */
  lemma ImportRoundTrip(e: Export, s: Summary, e': Export)
    requires Imports(e, s) && Exports(s, e')
    ensures e' == e
  {
    forall d ensures Exported(e', d) == Exported(e, d) {
    }
    SameExports(e, e');
  }

  /** Importing what was exported brings totals and maps back, with size counters that match the
      maps; when they did before, it brings back everything. */
  lemma ExportRoundTrip(s: Summary, e: Export, s': Summary)
    requires Exports(s, e) && Imports(e, s')
    ensures s' == s.(bounded := s'.bounded)
    ensures s' == s <==> forall d :: SizeOf(s, d) == |CountsOf(s, d)|
  {
    SameSummaries(s, s');
  }

  lemma SameExports(e: Export, f: Export)
    requires e.totalRequest == f.totalRequest && e.errorRequest == f.errorRequest && e.validRequest == f.validRequest
    requires forall d :: Exported(e, d) == Exported(f, d)
    ensures e == f
  {
    assert Exported(e, ForwardTypes) == Exported(f, ForwardTypes);
    assert Exported(e, RequestOrigin) == Exported(f, RequestOrigin);
    assert Exported(e, RequestClientIp) == Exported(f, RequestClientIp);
    assert Exported(e, Referer) == Exported(f, Referer);
    assert Exported(e, UserAgent) == Exported(f, UserAgent);
    assert Exported(e, RequestURL) == Exported(f, RequestURL);
    assert Exported(e, RequestMethods) == Exported(f, RequestMethods);
    assert Exported(e, DownstreamHostnames) == Exported(f, DownstreamHostnames);
    assert Exported(e, UpstreamHostnames) == Exported(f, UpstreamHostnames);
  }

  lemma SameSummaries(s: Summary, t: Summary)
    requires s.totalRequest == t.totalRequest && s.errorRequest == t.errorRequest && s.validRequest == t.validRequest
    requires forall d :: CountsOf(s, d) == CountsOf(t, d)
    ensures s == t.(bounded := s.bounded)
    ensures s == t <==> forall d :: SizeOf(s, d) == SizeOf(t, d)
  {
    assert CountsOf(s, ForwardTypes) == CountsOf(t, ForwardTypes);
    assert CountsOf(s, RequestOrigin) == CountsOf(t, RequestOrigin);
    assert CountsOf(s, RequestClientIp) == CountsOf(t, RequestClientIp);
    assert CountsOf(s, Referer) == CountsOf(t, Referer);
    assert CountsOf(s, UserAgent) == CountsOf(t, UserAgent);
    assert CountsOf(s, RequestURL) == CountsOf(t, RequestURL);
    assert CountsOf(s, RequestMethods) == CountsOf(t, RequestMethods);
    assert CountsOf(s, DownstreamHostnames) == CountsOf(t, DownstreamHostnames);
    assert CountsOf(s, UpstreamHostnames) == CountsOf(t, UpstreamHostnames);
    if forall d :: SizeOf(s, d) == SizeOf(t, d) {
      assert SizeOf(s, ForwardTypes) == SizeOf(t, ForwardTypes);
      assert SizeOf(s, RequestOrigin) == SizeOf(t, RequestOrigin);
      assert SizeOf(s, RequestClientIp) == SizeOf(t, RequestClientIp);
      assert SizeOf(s, Referer) == SizeOf(t, Referer);
      assert SizeOf(s, UserAgent) == SizeOf(t, UserAgent);
      assert SizeOf(s, RequestURL) == SizeOf(t, RequestURL);
      assert SizeOf(s, RequestMethods) == SizeOf(t, RequestMethods);
      assert SizeOf(s, DownstreamHostnames) == SizeOf(t, DownstreamHostnames);
      assert SizeOf(s, UpstreamHostnames) == SizeOf(t, UpstreamHostnames);
    }
  }

  // ---------------------------------------------------------------- recording

  /** `unboundedIncr`: load, check, store. */
  function UnboundedIncr(m: Counts, key: string): Counts {
    if key !in m then m[key := 1] else m[key := m[key] + 1]
  }

  /** The summary after one more request. */
  ghost predicate Recorded(s: Summary, ri: RequestInfo, lib: Lib, s': Summary) {
    && s'.totalRequest == s.totalRequest + 1
    && s'.validRequest == s.validRequest + (if ri.succ then 1 else 0)
    && s'.errorRequest == s.errorRequest + (if ri.succ then 0 else 1)
    && (forall d :: MovedIn(CountsOf(s, d), ri, lib, d, CountsOf(s', d)))
    && s'.bounded == s.bounded
  }

  ghost predicate MovedIn(m: Counts, ri: RequestInfo, lib: Lib, d: Dim, m': Counts) {
    m' == if CountsIn(ri, lib, d) then UnboundedIncr(m, KeyIn(ri, lib, d)) else m
  }

  lemma FirstCount(s: Summary, ri: RequestInfo, lib: Lib, s': Summary, d: Dim)
    requires Empty(s) && Recorded(s, ri, lib, s')
    ensures CountsOf(s', d) == if CountsIn(ri, lib, d) then map[KeyIn(ri, lib, d) := 1] else map[]
  {
  }

  /** The first request of a day: which text it counts under in which map. */
  lemma FirstRequest(s: Summary, ri: RequestInfo, lib: Lib, s': Summary)
    requires Empty(s) && Recorded(s, ri, lib, s')
    ensures s'.forwardTypes == map[ri.forwardType := 1] && s'.requestOrigin == map[ToLower(ri.country) := 1]
    ensures s'.requestClientIp == map[ClientIp(ri, lib) := 1] && s'.userAgent == map[ri.userAgent := 1]
    ensures s'.referer == map[lib.sanitize(ri.referer) := 1]
    ensures s'.requestMethods == if ri.requestMethod == "" then map[] else map[ri.requestMethod := 1]
  {
    FirstCount(s, ri, lib, s', ForwardTypes);
    FirstCount(s, ri, lib, s', RequestOrigin);
    FirstCount(s, ri, lib, s', RequestClientIp);
    FirstCount(s, ri, lib, s', UserAgent);
    FirstCount(s, ri, lib, s', Referer);
    FirstCount(s, ri, lib, s', RequestMethods);
  }

  /** And the three maps that count pages only. */
  lemma FirstPage(s: Summary, ri: RequestInfo, lib: Lib, s': Summary)
    requires Empty(s) && Recorded(s, ri, lib, s')
    ensures lib.isPage(ri.requestURL) ==>
              && s'.requestURL == map[ri.requestURL := 1] && s'.downstreamHostnames == map[ri.target := 1]
              && s'.upstreamHostnames == map[ri.upstream := 1]
    ensures !lib.isPage(ri.requestURL) ==>
              s'.requestURL == s'.downstreamHostnames == s'.upstreamHostnames == map[]
  {
    FirstCount(s, ri, lib, s', RequestURL);
    FirstCount(s, ri, lib, s', DownstreamHostnames);
    FirstCount(s, ri, lib, s', UpstreamHostnames);
  }

  ghost predicate TotalsMoved(s: Summary, ri: RequestInfo, s': Summary) {
    s' == s.(totalRequest := s.totalRequest + 1,
             validRequest := s.validRequest + if ri.succ then 1 else 0,
             errorRequest := s.errorRequest + if ri.succ then 0 else 1)
  }

  ghost predicate KindsMoved(s: Summary, ri: RequestInfo, s': Summary) {
    s' == s.(forwardTypes := UnboundedIncr(s.forwardTypes, ri.forwardType),
             requestMethods := if ri.requestMethod != "" then UnboundedIncr(s.requestMethods, ri.requestMethod)
                               else s.requestMethods,
             requestOrigin := UnboundedIncr(s.requestOrigin, ToLower(ri.country)))
  }

  ghost predicate ClientMoved(s: Summary, ri: RequestInfo, lib: Lib, s': Summary) {
    s' == s.(requestClientIp := UnboundedIncr(s.requestClientIp, ClientIp(ri, lib)),
             referer := UnboundedIncr(s.referer, lib.sanitize(ri.referer)),
             userAgent := UnboundedIncr(s.userAgent, ri.userAgent))
  }

  ghost predicate PagesMoved(s: Summary, ri: RequestInfo, s': Summary) {
    s' == s.(requestURL := UnboundedIncr(s.requestURL, ri.requestURL),
             downstreamHostnames := UnboundedIncr(s.downstreamHostnames, ri.target),
             upstreamHostnames := UnboundedIncr(s.upstreamHostnames, ri.upstream))
  }

  /** The four parts of a request's counting, one after the other. */
  ghost predicate PartsMoved(s: Summary, ri: RequestInfo, lib: Lib, t: Summary, u: Summary, v: Summary, s': Summary) {
    && TotalsMoved(s, ri, t) && KindsMoved(t, ri, u) && ClientMoved(u, ri, lib, v)
    && if lib.isPage(ri.requestURL) then PagesMoved(v, ri, s') else s' == v
  }

  predicate PartKinds(d: Dim) {
    d.ForwardTypes? || d.RequestMethods? || d.RequestOrigin?
  }

  predicate PartClient(d: Dim) {
    d.RequestClientIp? || d.Referer? || d.UserAgent?
  }

  lemma KindsMap(s: Summary, ri: RequestInfo, lib: Lib, s': Summary, d: Dim)
    requires KindsMoved(s, ri, s')
    ensures PartKinds(d) ==> MovedIn(CountsOf(s, d), ri, lib, d, CountsOf(s', d))
    ensures !PartKinds(d) ==> CountsOf(s', d) == CountsOf(s, d)
  {
  }

  lemma ClientMap(s: Summary, ri: RequestInfo, lib: Lib, s': Summary, d: Dim)
    requires ClientMoved(s, ri, lib, s')
    ensures PartClient(d) ==> MovedIn(CountsOf(s, d), ri, lib, d, CountsOf(s', d))
    ensures !PartClient(d) ==> CountsOf(s', d) == CountsOf(s, d)
  {
  }

  lemma PagesMap(s: Summary, ri: RequestInfo, lib: Lib, s': Summary, d: Dim)
    requires if lib.isPage(ri.requestURL) then PagesMoved(s, ri, s') else s' == s
    ensures !PartKinds(d) && !PartClient(d) ==> MovedIn(CountsOf(s, d), ri, lib, d, CountsOf(s', d))
    ensures PartKinds(d) || PartClient(d) ==> CountsOf(s', d) == CountsOf(s, d)
  {
  }

  lemma PartsMoveMap(s: Summary, ri: RequestInfo, lib: Lib, t: Summary, u: Summary, v: Summary, s': Summary, d: Dim)
    requires PartsMoved(s, ri, lib, t, u, v, s')
    ensures MovedIn(CountsOf(s, d), ri, lib, d, CountsOf(s', d))
  {
    assert CountsOf(t, d) == CountsOf(s, d);
    KindsMap(t, ri, lib, u, d);
    ClientMap(u, ri, lib, v, d);
    PagesMap(v, ri, lib, s', d);
  }

  lemma PartsMakeRecord(s: Summary, ri: RequestInfo, lib: Lib, t: Summary, u: Summary, v: Summary, s': Summary)
    requires PartsMoved(s, ri, lib, t, u, v, s')
    ensures Recorded(s, ri, lib, s')
  {
    forall d ensures MovedIn(CountsOf(s, d), ri, lib, d, CountsOf(s', d)) {
      PartsMoveMap(s, ri, lib, t, u, v, s', d);
    }
  }

  /** Today's summary as it is read back: a day that is not stored leaves the empty record. */
  ghost predicate Loaded(stats: map<string, Export>, day: string, s: Summary) {
    if day in stats then Imports(stats[day], s) else Empty(s)
  }

  class Collector {
    const lib: Lib
    var summary: LiveSummary
    /** The stored summaries by day. */
    var stats: map<string, Export>

    /** Takes up what is stored for today. */
    constructor (lib: Lib, stats: map<string, Export>, today: string)
      ensures this.lib == lib && this.stats == stats
      ensures fresh(summary) && Loaded(stats, today, summary.Value())
    {
      var loaded := LoadSummaryOfDay(stats, today);
      this.lib, this.stats, summary := lib, stats, loaded;
    }

    static method LoadSummaryOfDay(stats: map<string, Export>, day: string) returns (loaded: LiveSummary)
      ensures fresh(loaded) && Loaded(stats, day, loaded.Value())
    {
      var target := Export(0, 0, 0, map[], map[], map[], map[], map[], map[], map[], map[], map[]);
      if day in stats {
        target := stats[day];
      }
      loaded := DailySummaryExportToSummary(target);
      assert day !in stats ==> forall d :: Exported(target, d) == map[];
    }

    method RecordRequest(ri: RequestInfo)
      modifies summary
      ensures Recorded(old(summary.Value()), ri, lib, summary.Value())
    {
      summary.CountTotals(ri);
      ghost var t := summary.Value();
      summary.CountKinds(ri);
      ghost var u := summary.Value();
      summary.CountClient(ri, lib);
      ghost var v := summary.Value();
      if lib.isPage(ri.requestURL) {
        summary.CountPage(ri);
      }
      PartsMakeRecord(old(summary.Value()), ri, lib, t, u, v, summary.Value());
    }

    method SaveSummaryOfDay(day: string)
      modifies `stats
      ensures stats.Keys == old(stats).Keys + {day} && Exports(summary.Value(), stats[day])
      ensures forall other :: other in old(stats) && other != day ==> stats[other] == old(stats)[other]
    {
      var exported := DailySummaryToExport(summary);
      stats := stats[day := exported];
    }

    method ResetSummaryOfDay()
      modifies `summary
      ensures fresh(summary) && Empty(summary.Value())
    {
      var sizes := BoundedCounters(0, 0, 0, 0, 0, 0, 0, 0, 0);
      summary := new LiveSummary(
        Summary(0, 0, 0, map[], map[], map[], map[], map[], map[], map[], map[], map[], sizes));
    }
  }

  // ---------------------------------------------------------------- conservation

  ghost function SumOf(s: Summary, d: Dim): nat {
    Sum(CountsOf(s, d))
  }

  /** Every request is counted once in each of the five maps that take them all, and the three
      page maps agree. The numbers are the sums of the maps. */
  predicate Balanced(total: nat, valid: nat, error: nat, forwardTypes: nat, requestOrigin: nat, requestClientIp: nat,
                     referer: nat, userAgent: nat, requestURL: nat, requestMethods: nat,
                     downstreams: nat, upstreams: nat)
  {
    && total == valid + error
    && forwardTypes == requestOrigin == requestClientIp == referer == userAgent == total
    && requestURL == downstreams == upstreams <= total
    && requestMethods <= total
  }

  ghost predicate Conserved(s: Summary) {
    Balanced(s.totalRequest, s.validRequest, s.errorRequest,
             SumOf(s, ForwardTypes), SumOf(s, RequestOrigin), SumOf(s, RequestClientIp),
             SumOf(s, Referer), SumOf(s, UserAgent), SumOf(s, RequestURL), SumOf(s, RequestMethods),
             SumOf(s, DownstreamHostnames), SumOf(s, UpstreamHostnames))
  }

  ghost predicate ConservedExport(e: Export) {
    Balanced(e.totalRequest, e.validRequest, e.errorRequest,
             Sum(e.forwardTypes), Sum(e.requestOrigin), Sum(e.requestClientIp),
             Sum(e.referer), Sum(e.userAgent), Sum(e.requestURL), Sum(e.requestMethods),
             Sum(e.downstreams), Sum(e.upstreams))
  }

  /** The collector and its database. */
  datatype State = State(summary: Summary, stats: map<string, Export>)

  ghost predicate Records(s: State, ri: RequestInfo, lib: Lib, s': State) {
    Recorded(s.summary, ri, lib, s'.summary) && s'.stats == s.stats
  }

  ghost predicate Saves(s: State, day: string, s': State) {
    && s'.summary == s.summary
    && day in s'.stats && Exports(s.summary, s'.stats[day])
    && forall other :: other in s'.stats && other != day ==> other in s.stats && s'.stats[other] == s.stats[other]
  }

  ghost predicate Restores(s: State, day: string, s': State) {
    s'.stats == s.stats && Loaded(s.stats, day, s'.summary)
  }

  ghost predicate Resets(s: State, s': State) {
    s'.stats == s.stats && Empty(s'.summary)
  }

  ghost predicate Step(lib: Lib, s: State, s': State) {
    || (exists ri :: Records(s, ri, lib, s'))
    || (exists day :: Saves(s, day, s'))
    || (exists day :: Restores(s, day, s'))
    || Resets(s, s')
  }

  ghost predicate Run(lib: Lib, ss: seq<State>) {
    && ss != [] && Empty(ss[0].summary) && ss[0].stats == map[]
    && forall i :: 0 <= i < |ss| - 1 ==> Step(lib, ss[i], ss[i + 1])
  }

  ghost predicate AllConserved(s: State) {
    Conserved(s.summary) && forall day :: day in s.stats ==> ConservedExport(s.stats[day])
  }

  lemma SumCounts(s: Summary, ri: RequestInfo, lib: Lib, s': Summary, d: Dim)
    requires Recorded(s, ri, lib, s')
    ensures SumOf(s', d) == SumOf(s, d) + if CountsIn(ri, lib, d) then 1 else 0
  {
    assert MovedIn(CountsOf(s, d), ri, lib, d, CountsOf(s', d));
    SumPut(CountsOf(s, d), KeyIn(ri, lib, d), Get(CountsOf(s, d), KeyIn(ri, lib, d)) + 1);
  }

  lemma RecordKeeps(s: Summary, ri: RequestInfo, lib: Lib, s': Summary)
    requires Conserved(s) && Recorded(s, ri, lib, s')
    ensures Conserved(s')
  {
    SumCounts(s, ri, lib, s', ForwardTypes);
    SumCounts(s, ri, lib, s', RequestOrigin);
    SumCounts(s, ri, lib, s', RequestClientIp);
    SumCounts(s, ri, lib, s', Referer);
    SumCounts(s, ri, lib, s', UserAgent);
    SumCounts(s, ri, lib, s', RequestURL);
    SumCounts(s, ri, lib, s', RequestMethods);
    SumCounts(s, ri, lib, s', DownstreamHostnames);
    SumCounts(s, ri, lib, s', UpstreamHostnames);
  }

  lemma ExportedSum(s: Summary, e: Export, d: Dim)
    requires Exports(s, e)
    ensures Sum(Exported(e, d)) == SumOf(s, d)
  {
    assert Exported(e, d) == CountsOf(s, d);
  }

  /** Conservation is a matter of totals and maps alone. */
  lemma ConservedByExport(s: Summary, e: Export)
    requires Exports(s, e)
    ensures Conserved(s) <==> ConservedExport(e)
  {
    ExportedSum(s, e, ForwardTypes);
    ExportedSum(s, e, RequestOrigin);
    ExportedSum(s, e, RequestClientIp);
    ExportedSum(s, e, Referer);
    ExportedSum(s, e, UserAgent);
    ExportedSum(s, e, RequestURL);
    ExportedSum(s, e, RequestMethods);
    ExportedSum(s, e, DownstreamHostnames);
    ExportedSum(s, e, UpstreamHostnames);
  }

  lemma EmptyIsConserved(s: Summary)
    requires Empty(s)
    ensures Conserved(s)
  {
    forall d ensures SumOf(s, d) == 0 {
      assert CountsOf(s, d) == map[];
    }
  }

  lemma SaveConserves(s: State, day: string, s': State)
    requires AllConserved(s) && Saves(s, day, s')
    ensures AllConserved(s')
  {
    ConservedByExport(s.summary, s'.stats[day]);
  }

  lemma RestoreConserves(s: State, day: string, s': State)
    requires AllConserved(s) && Restores(s, day, s')
    ensures AllConserved(s')
  {
    if day in s.stats {
      ConservedByExport(s'.summary, s.stats[day]);
    } else {
      EmptyIsConserved(s'.summary);
    }
  }

  lemma ResetConserves(s: State, s': State)
    requires AllConserved(s) && Resets(s, s')
    ensures AllConserved(s')
  {
    EmptyIsConserved(s'.summary);
  }

  lemma StepConserves(lib: Lib, s: State, s': State)
    requires AllConserved(s) && Step(lib, s, s')
    ensures AllConserved(s')
  {
    if ri :| Records(s, ri, lib, s') {
      RecordKeeps(s.summary, ri, lib, s'.summary);
    } else if day :| Saves(s, day, s') {
      SaveConserves(s, day, s');
    } else if day :| Restores(s, day, s') {
      RestoreConserves(s, day, s');
    } else {
      ResetConserves(s, s');
    }
  }

  /** Over any run of requests, saves, restores and resets, the day at hand and every stored
      day conserve their counts. */
  lemma {:induction false} RunConserves(lib: Lib, ss: seq<State>, n: nat)
    requires Run(lib, ss) && n < |ss|
    ensures AllConserved(ss[n])
  {
    if n > 0 {
      RunConserves(lib, ss, n - 1);
      assert Step(lib, ss[n - 1], ss[n]);
      StepConserves(lib, ss[n - 1], ss[n]);
    } else {
      EmptyIsConserved(ss[0].summary);
    }
  }

  /** How many of the first `n` requests count in a map under a key. */
  ghost function Tally(ris: seq<RequestInfo>, n: nat, lib: Lib, d: Dim, key: string): nat
    requires n <= |ris|
  {
    if n == 0 then 0
    else
      Tally(ris, n - 1, lib, d, key)
      + if CountsIn(ris[n - 1], lib, d) && KeyIn(ris[n - 1], lib, d) == key then 1 else 0
  }

  lemma CountMoves(s: Summary, ri: RequestInfo, lib: Lib, s': Summary, d: Dim, key: string)
    requires Recorded(s, ri, lib, s')
    ensures Get(CountsOf(s', d), key)
            == Get(CountsOf(s, d), key) + if CountsIn(ri, lib, d) && KeyIn(ri, lib, d) == key then 1 else 0
  {
    var m, m' := CountsOf(s, d), CountsOf(s', d);
    assert MovedIn(m, ri, lib, d, m');
  }

  /** Each map tells exactly how often each key occurred among the requests. */
  lemma {:induction false} CountsAreTallies(lib: Lib, ris: seq<RequestInfo>, ss: seq<Summary>, n: nat, d: Dim,
                                            key: string)
    requires |ss| == |ris| + 1 && Empty(ss[0]) && n <= |ris|
    requires forall i :: 0 <= i < |ris| ==> Recorded(ss[i], ris[i], lib, ss[i + 1])
    ensures Get(CountsOf(ss[n], d), key) == Tally(ris, n, lib, d, key)
  {
    if n > 0 {
      CountsAreTallies(lib, ris, ss, n - 1, d, key);
      CountMoves(ss[n - 1], ris[n - 1], lib, ss[n], d, key);
    }
  }
}
