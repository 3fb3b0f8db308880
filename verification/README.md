# Zoraxy: verified models of its stateful core

Zoraxy is a reverse proxy written in Go. This project models the parts of it whose
correctness is not visible from one function body, and proves what they promise over
every input, every run and every interleaving. Each module follows one or two source
files. Objects whose methods update fields are classes, loops are loops, and a method is
proved against a specification that the lemmas beside it reason about.

| module | models |
|---|---|
| `GoSort`, `GoStrings` | the standard library calls in use: `sort.Slice`, `sort.Search`, string functions |
| `Addresses` | addresses as bytes, their bits, their big-endian value, `IPNet.Contains` |
| `ReservedTree`, `ReservedZones` | the binary radix tree of reserved ranges, and what it means for CIDR ranges (sections 3.1 and 5.1 of RFC 4632) |
| `GeoTrie`, `GeoStore` | country lookup by sorted endpoints and binary search, the cached linear scan, and when they agree |
| `MapSums`, `BoundedCounter`, `BoundedRuns` | counter maps with a soft cap, least-frequent eviction, and every run of them |
| `DailySummary` | one day of request counters, its export and its restore |
| `Bandwidth`, `BandwidthRuns` | the day-total bandwidth tracker in 64-bit arithmetic, and its save protocol |
| `RateLimit` | the per-IP rate limiter as interleaved atomic steps, and as calls one at a time |
| `Hostnames` | resolving a host name over an unordered registry |
| `PluginRouting` | plugin capture paths across tags, and the dispatch to a plugin's router |
| `Listeners` | the reconciling of secondary listeners |
| `FileTable` | a key-value table kept in escaped file names |
| `TrustedProxies`, `IpMatch`, `IpScan` | the trusted-proxy cache, two IPv4 matchers, the range enumerator |

Where Go leaves an order open (map iteration, `sort.Slice` on ties, goroutine
scheduling), the model leaves it open too: loops pick any remaining element, callers of
the sort see only "ordered and a permutation", and concurrent code is a relation between
states.

## What turned out not to hold

- **Reserved zones.** A reserved lookup should give the zone of the longest range that covers the
  address. Over the table as it stands, in any order, it does so exactly for dotted IPv4 text,
  for addresses that are neither low nor mapped, and for `::ffff:0.0.0.0` (`ReservedZoneIff`). There
  are two reasons. `insert` stops early when the prefix is longer than the bytes it walks along:
  `net.IP.To4` cuts the network of `::ffff:0:0/96` to four zero bytes, so it is stored as 32 zero
  bits, and every address with four leading zero bytes other than `::`, `::1` and the mapped ones
  (for example `0:0:1::5`) is reported as IPv4Mapped (`LowAddressesReadAsMapped`). And a mapped
  address written with a colon goes to the IPv6 tree, but walks along its last four bytes:
  `::ffff:252.0.0.1` is reported as UniqueLocal (`MappedReadAsUniqueLocal`), although `fc00::/7`
  fits and does not contain it, and the line meant for mapped addresses answers for none of them
  but `::ffff:0.0.0.0` (`MappedLineMissesMapped`). For single ranges the exact conditions are
  `FaithfulIffFits`, for addresses of the range's own family, which are all that the IPv4 tree is
  asked about, and `FaithfulEverywhereIff`, for all that the IPv6 tree is asked about.
- **Country codes.** The index of a code is 16 bits wide and wraps. `ResolvedIff`: it is faithful
  exactly for the first 65536 codes.
- **Fast and slow country lookup.** They agree on an address, whatever the sort made of ties,
  exactly under the condition of `AgreeIff`, for any rows. For the family that gets sorted, that of
  the last address in the table, it is: every endpoint at or below the address that does not carry
  the code of the first covering row (or "" in a gap) lies below another that does, and one that
  does exists unless the code is empty. A list of the other family stays in its order of arrival, and
  the condition is that the binary search of it ends at that code. The condition fails in gaps
  (`GapAgreesIff`), where rows overlap or run backwards, and in unsorted lists. Lines 75209-75211 of
  `geoipv4.csv` overlap and run backwards: at 81.18.58.192 the scan answers RS and the trie NL or DE,
  whichever of two tied endpoints the sort put last (`ShippedRowsDisagree`). `MixedRowsDisagree` is a
  table with a row of the other family at its end. Agreement is proved where the list ends up sorted
  and a condition holds that can be checked row by row (`CoveredAgrees`), and for every covered
  address over rows of one family that do not overlap (`DisjointRowsAgree`, and end to end in
  `Store.Search`). `TiesDoNotShowIff` says when the order of ties shows.
- **Slow country lookup.** The IPv4 scan panics exactly if a row whose ends parse, one of them without
  an IPv4 form, comes before the first row that contains the address (`ScanPanicsIff`).
- **Rate limit.** The web page shows the limit as so many requests per second. The code admits
  one less: it counts the request first and then refuses at `count >= limit`
  (`SequentialAdmissions`).
- **Bandwidth.** Totals are 64-bit signed numbers. `TotalIsExactIffItFits`: a day's total is the
  true one exactly while that fits. `TotalsNeverFallIff`: if no single sample moves 2^63 bytes, totals
  never fall within a day exactly while that fits; `OverfullTotalFalls` is the input that shows it.
- **File table.** Escaping `/` as `-SLASH_SIGN-` is undone by unescaping exactly for keys that
  contain neither `-SLASH_SIGN-` nor `-SLASH_SIGN/` (`RoundTripIff`). Any other key shares its file
  with a different key (`MisreadKeyCollides`).
- **Static dispatch.** A request that a plugin wins finds its router exactly if the path starts with
  `/` and the plugin has not been stopped (`HandleRoute`). For a running plugin that leaves two ways
  to miss: a path without a leading `/`, and an ingress that makes no valid URL, over which starting
  the plugin panics and leaves it enabled without routers. And a plugin can be stopped while the
  index still leads to it: a rebuild stops it and returns without indexing when the build or the new
  start fails (`RebuildPlugin`). That lasts if its process ended with status 0, since only a process
  that ends with an error is followed by indexing (`PluginDied`).
- **Day summary.** Export and import bring totals and maps back, but rebuild the size counters; so
  they bring everything back exactly if the counters matched the maps before (`ExportRoundTrip`),
  which they do not after requests in the mode without a cap.
- **Range enumeration.** The loop ends exactly if the end of the range is not
  `ffff:ffff:ffff:ffff:ffff:ffff:ffff:ffff` (`StopsIff`); no IPv4 range has that end.

## Model

| member | source | states |
|---|---|---|
| ReservedTree.RadixTree.Insert | src/mod/geodb/specialRange.go:81-120 | after inserting, the stored zones are the old ones with this zone under the path of the prefix cut to the bytes at hand; text that does not parse changes nothing; the tree stays well formed |
| ReservedTree.RadixTree.Grow | src/mod/geodb/specialRange.go:98-115 | walking down creates the missing nodes and nothing else: every stored zone stays where it was, and the walk ends at the node of the prefix |
| ReservedTree.RadixTree.Descend | src/mod/geodb/specialRange.go:107-114 | a new child hangs below its parent under the right bit and keeps the tree's shape |
| ReservedTree.RadixTree.Search | src/mod/geodb/specialRange.go:123-159 | the loop downwards finds the zone of the nearest marked path at or above the address |
| ReservedTree.LookupIsLongestMatch | src/mod/geodb/specialRange.go:122-159 | what a search returns is the longest stored prefix of the address or "" if there is none, and no other answer is |
| ReservedTree.LookupAfterInserts | src/mod/geodb/specialRange.go:70-120 | after any sequence of inserts the answer is that of the longest inserted prefix, the last insert winning among equal ones, or "" |
| ReservedTree.InsertOrderIsIrrelevant | src/mod/geodb/specialRange.go:70-76 | with distinct prefixes, two insert orders of one table give the same tree contents |
| ReservedTree.PrefixMeansEqualBits | src/mod/geodb/specialRange.go:106-107 | a path is above an address exactly if the leading bits agree |
| ReservedZones.InitReservedIPTrees | src/mod/geodb/specialRange.go:64-78 | for any visiting order, lines with a colon end up in one tree and the others in the other, in that order |
| ReservedZones.GetReservedIPZone | src/mod/geodb/specialRange.go:163-182 | dotted text is looked up in the IPv4 tree, everything with a colon in the other, unparsable text gives "" |
| ReservedZones.StoredPrefixIsRange | src/mod/geodb/specialRange.go:87-115 | for addresses of the network's own family, if all its bytes are walked along, the stored path is above exactly the addresses of the CIDR range |
| ReservedZones.FitsUnlessMapped | src/mod/geodb/specialRange.go:87-96 | a parsed network fits exactly if it does not lie in ::ffff:0:0/96 |
| ReservedZones.FaithfulIffFits | src/mod/geodb/specialRange.go:101-106 | for addresses of its own family a range is represented faithfully if and only if its prefix length fits the bytes |
| ReservedZones.MappedIsReadFromItsQuad | src/mod/geodb/specialRange.go:163-182 | in the IPv6 tree a mapped address written with a colon meets exactly the stored prefixes of at most 32 bits that agree with its last four bytes |
| ReservedZones.FaithfulEverywhereIff | src/mod/geodb/specialRange.go:122-182 | an IPv6 range is represented faithfully for every address that its tree can be asked about if and only if it is empty-prefixed, or longer than 32 bits, fitting, and free of mapped addresses |
| ReservedZones.MisplacedCaptures | src/mod/geodb/specialRange.go:104-106 | for every network that does not fit, an address outside its range that the tree nevertheless gives to it |
| ReservedZones.TreeAnswersLongestRange | src/mod/geodb/specialRange.go:64-159 | end to end, over any table in any insert order: an address gets the zone of the longest range that covers it if covering ranges are stored above it in full length and whatever else is stored above it is shorter than one of them |
| ReservedZones.TableV4IsTheTable | src/mod/geodb/specialRange.go:28-40 | the list of twelve lines contains exactly the IPv4 entries that the theorem about them speaks of |
| ReservedZones.LinesV4AreParsed | src/mod/geodb/specialRange.go:28-40 | each of the twelve networks is as parsing leaves it: zero beyond its prefix |
| ReservedZones.TableV4AnswersLongestRange | src/mod/geodb/specialRange.go:28-40 | with the IPv4 table as it is, in any order, every IPv4 address gets the zone of the longest range that covers it, or "", and no other answer is right |
| ReservedZones.LowAddressesReadAsMapped | src/mod/geodb/specialRange.go:40-54 | with the IPv6 table as it is, in any order, every address with four leading zero bytes except ::, ::1 and mapped ones is answered IPv4Mapped although that range does not contain it |
| ReservedZones.TableV6IsTheTable | src/mod/geodb/specialRange.go:40-54 | the list of fourteen lines contains exactly the entries the table predicate describes |
| ReservedZones.LinesV6AreParsed | src/mod/geodb/specialRange.go:41-54 | the networks of the IPv6 lines are as parsing leaves them: zero beyond their prefixes |
| ReservedZones.TableV6AnswersLongestRangeIff | src/mod/geodb/specialRange.go:40-54 | with the IPv6 table as it is, in any order, for every 16-byte address: the lookup gives the one longest-range answer if and only if the address is neither low nor mapped, or is ::ffff:0.0.0.0 |
| ReservedZones.ReservedZoneIff | src/mod/geodb/specialRange.go:163-182 | the whole lookup over the table's lines in any order, IPv4 lines without a colon and IPv6 lines with one: it gives the one answer that belongs to the longest covering line of the kind in charge exactly for dotted text, for addresses neither low nor mapped, and for ::ffff:0.0.0.0 |
| ReservedZones.FamilyIs | src/mod/geodb/specialRange.go:70-76 | an entry reaches a tree exactly if a line with it is written with a colon, for the one, or without, for the other |
| ReservedZones.LongestLineIsRange | src/mod/geodb/specialRange.go:70-76 | the longest covering range of a tree's entries is the longest covering line written in that way |
| ReservedZones.ReservedZone | src/mod/geodb/specialRange.go:64-182 | filling both trees and looking the text up: "" for text that does not parse, and over the table as it stands the longest-line answer exactly under the condition of ReservedZoneIff |
| ReservedZones.MappedReadAsUniqueLocal | src/mod/geodb/specialRange.go:175-181 | ::ffff:252.0.0.1 is answered UniqueLocal, although no UniqueLocal range covers it and that range fits |
| ReservedZones.MappedLineMissesMapped | src/mod/geodb/specialRange.go:43 | the IPv4Mapped line covers all mapped addresses and is found for none of them but ::ffff:0.0.0.0 |
| GeoTrie.Trie.GetOrCreateCCIndex | src/mod/geodb/trie.go:46-54 | a known code keeps the table as it is, a new one is appended; what earlier endpoints resolve to does not change |
| GeoTrie.Trie.ResolvedIff | src/mod/geodb/trie.go:50-53 | code number i resolves to code number i modulo 65536, so to itself if and only if i is below 65536 |
| GeoTrie.PairIsNumber | src/mod/geodb/trie.go:66-74 | the pair of 64-bit halves is the 128-bit big-endian number of the slow form |
| GeoTrie.LessIsNumeric | src/mod/geodb/trie.go:107-120 | the sort order on halves is the order of 128-bit numbers, and both sort orders are strict weak orders |
| GeoTrie.Trie.Insert | src/mod/geodb/trie.go:77-103 | one endpoint with the number of the address and the code its index leads to is appended to its family, the other family is untouched, unparsable text changes nothing |
| GeoTrie.Trie.Build | src/mod/geodb/trie.go:107-120 | sorts the family inserted last, loses or invents no endpoint, and leaves the other list in its order |
| GeoTrie.Trie.BuiltIff | src/mod/geodb/trie.go:107-120 | a list counts as sorted exactly if the numbers of its endpoints ascend |
| GeoTrie.Trie.SearchIPv4 | src/mod/geodb/trie.go:143-162 | the code is the one that the halving ends at, sorted or not; in a sorted list that is the code of the greatest endpoint at or below the address, "" if all are above |
| GeoTrie.Trie.SearchIPv6 | src/mod/geodb/trie.go:165-186 | the same for 128-bit addresses compared by halves |
| GoSort.SearchFirst | src/mod/geodb/trie.go:151-153 | the library loop ends where the halving specified by recursion ends, for any function |
| GoSort.BisectTurns | src/mod/geodb/trie.go:151-153 | at that index the answers turn from false to true |
| GeoStore.ConstructTrie | src/mod/geodb/geoloader.go:45-59 | for any rows: every parsed end arrives in order with the code its index leads to then; the family of the last arrival is sorted, the other keeps its order, and each list is sorted exactly if it is that family or came in sorted |
| GeoStore.TableIsCodes | src/mod/geodb/trie.go:46-54 | the code table holds every code that arrived, once, so its length is the number of codes |
| GeoStore.EndpointsAreRowEnds | src/mod/geodb/geoloader.go:45-59 | with at most 65536 codes a family's endpoints are exactly the parsed ends of the rows in that family, with the rows' own codes |
| GeoStore.OneFamilySorts | src/mod/geodb/geoloader.go:45-59 | if whatever parses is of one family, its list ends up sorted |
| GeoStore.ScanFindsFirst | src/mod/geodb/slowSearch.go:69-82 | the scan returns the code of the first row whose start is not after the address and whose end is not before it, byte by byte, or "" and there is none |
| GeoStore.FirstRowAnswerIsUnique | src/mod/geodb/slowSearch.go:69-82 | the rows determine that answer |
| GeoStore.InRangeIsHolding | src/mod/geodb/slowSearch.go:22-53 | the numeric test of a row holds exactly if, byte by byte, the address is neither before the start nor after the end |
| GeoStore.SlowTable.SlowSearch | src/mod/geodb/slowSearch.go:55-113 | whatever was looked up before: the reserved zone, else the code of the first row that holds the address byte by byte, or ""; it panics exactly if a row that cannot be read as IPv4 comes first; it remembers exactly the answers a row gave |
| GeoStore.ScanPanicsIff | src/mod/geodb/slowSearch.go:17-35 | the scan panics if and only if it is the IPv4 one and a row with parsed ends, one of them (or the address) without an IPv4 form, comes before the first row that holds the address byte by byte |
| GeoStore.SlowTable.ClearCache | src/mod/geodb/geodb.go:110-112 | clearing the cache keeps it consistent with the data |
| GeoStore.GapAnswers | src/mod/geodb/slowSearch.go:80-82 | an address that no row covers is answered "" by the scan |
| GeoStore.OnlyAnswerIff | src/mod/geodb/trie.go:143-162 | a code is the only admissible fast answer if and only if every endpoint at or below the address with another code is outranked by one with that code, and there is an endpoint or the code is empty |
| GeoStore.AgreeIff | src/mod/geodb/trie.go:107-186 | for any rows and address: the slow form answers and every admissible fast answer is the same if and only if the scan does not panic and, for the family that gets sorted, every other endpoint at or below is outranked and there is one or the code is empty, for the other family, the search of the list as it came in ends at the code |
| GeoStore.SortedAgrees | src/mod/geodb/trie.go:107-186 | where the list ends up sorted, either way, the first of these conditions is enough |
| GeoStore.GapAgreesIff | src/mod/geodb/trie.go:107-186 | in a gap they agree if and only if the scan does not panic and all that lies nearest below, or what the search of an unsorted list ends at, carries the empty code |
| GeoStore.CoveredAgrees | src/mod/geodb/trie.go:145-161 | where the list ends up sorted they agree on an address if no end of a differently coded row lies from the start of the first covering row up to the address |
| GeoStore.DisjointRowsAgree | src/mod/geodb/trie.go:145-161 | over rows of one family that run forwards and do not overlap, with at most 65536 codes, they agree on every covered address |
| GeoStore.TiesDoNotShowIff | src/mod/geodb/trie.go:116-118 | the order of ties in the sort shows if and only if two endpoints at one place differ in code and nothing greater lies at or below the address |
| GeoStore.ShippedRowsDisagree | src/mod/geodb/slowSearch.go:69-82 | with lines 75209-75211 of geoipv4.csv in the table, the scan answers RS at 81.18.58.192, which they cover, while NL and DE are both admissible fast answers |
| GeoStore.MixedRowsDisagree | src/mod/geodb/trie.go:107-120 | in a table of two falling IPv4 rows and an IPv6 row everything but sortedness speaks for A at 5.5.0.0, the scan answers A, and the search of the unsorted list B |
| GeoStore.Store.constructor | src/mod/geodb/geodb.go:47-118 | from any rows, a new store has a trie for each family not in slow mode and answers consistently from the start |
| GeoStore.Store.FastSearch | src/mod/geodb/trie.go:124-139 | reserved zones come first, unparsable text gives "", anything else the preceding endpoint of its family if that family gets sorted, else the one that the search of the list as it came in ends at |
| GeoStore.Store.Search | src/mod/geodb/geoloader.go:12-42 | in all four mode combinations, over any rows and after any history: the reserved zone, else the code of the first row that holds the address byte by byte, for all text that is reserved, does not parse or is looked up in slow mode, or a panic exactly where an unreadable row comes first; the fast answer in fast mode, which is the expected one wherever the forms agree and for every covered address over rows that do not overlap |
| GeoStore.Store.FrontIs | src/mod/geodb/geoloader.go:13-18 | the text before the first comma, trimmed; text without a comma as it is |
| BoundedCounter.BoundedMap.constructor | src/mod/statistic/bounded.go:30-34 | a run starts on a restored map, with its size as the size counter |
| BoundedCounter.BoundedMap.Incr | src/mod/statistic/bounded.go:66-95 | one increment is one step: count a known key, or insert and trim once the cap is passed; the size counter stays the size of the map |
| BoundedCounter.BoundedMap.EvictLeastFrequent | src/mod/statistic/bounded.go:99-132 | what stays is exactly the target number of entries, none of which counts less than one that went; at or below the target nothing changes |
| BoundedCounter.BoundedMap.DeleteFront | src/mod/statistic/bounded.go:127-130 | deleting the front of the sorted list splits the map into kept and dropped entries in count order |
| BoundedCounter.Entries | src/mod/statistic/bounded.go:105-109 | the range over the map lists every entry once |
| BoundedRuns.DroppedIsInfrequent | src/mod/statistic/bounded.go:122-131 | a dropped count times target + 1 is at most the sum of all counts |
| BoundedRuns.StepKeeps | src/mod/statistic/bounded.go:66-132 | every step keeps the cap, the size accounting, conservation per key and in total, and the frequency bound on everything dropped, relative to the map at the start |
| BoundedRuns.RunKeeps | src/mod/statistic/bounded.go:66-132 | all of that holds in every state of every run from any restored map; one above the cap does not grow and is within the cap from the first trim on |
| BoundedRuns.CountsAndCost | src/mod/statistic/bounded.go:13-18 | the map is never larger than the cap and the restored map; stored counts never exceed true ones; stored and evicted counts add up to the restored ones and the increments; trims times what a trim frees is at most the number of restored and inserted keys |
| BoundedRuns.FrequentKeySurvives | src/mod/statistic/bounded.go:16-18 | a key whose count times target + 1 exceeds the restored counts plus the increments so far outlives the next step with its count |
| BoundedRuns.TrimStartsAboveCap | src/mod/statistic/bounded.go:111-120 | in a run a trim starts from cap + 1 entries, the first one after a restore above the cap from one more than were restored; it leaves exactly the target, nine tenths of the cap rounded down but at least one entry, and never takes the reconciling branch |
| DailySummary.Collector.RecordRequest | src/mod/statistic/statistic.go:211-276 | a request adds one to the total, to one of the two outcome counts, and to its key in exactly the maps it counts in |
| DailySummary.RecordKeeps | src/mod/statistic/statistic.go:211-276 | the sums of the five general maps stay equal to the total, the three page maps stay equal to each other and below it |
| DailySummary.RunConserves | src/mod/statistic/statistic.go:163-188 | that conservation holds for the day at hand and for every stored day, over any run of requests, saves, restores and resets |
| DailySummary.CountsAreTallies | src/mod/statistic/statistic.go:225-272 | after any requests each map tells for each key exactly how many of them counted there |
| DailySummary.FirstRequest | src/mod/statistic/statistic.go:225-255 | the first request of a day leaves exactly one count in each of six maps, under its own text |
| DailySummary.FirstPage | src/mod/statistic/statistic.go:257-272 | the maps of pages hold one count each if the request is for a page and nothing otherwise |
| DailySummary.ClientIpIs | src/mod/statistic/statistic.go:235-245 | an address without a comma is counted as it is, a list under its first part if that is a valid address once a leading bracket is ignored |
| DailySummary.SyncMapToMapStringInt | src/mod/statistic/structconv.go:21-32 | ranging over a map in any order copies every entry and no other |
| DailySummary.DailySummaryToExport | src/mod/statistic/structconv.go:34-61 | the export carries the totals and each of the nine maps under its own name |
| DailySummary.ExportsByName | src/mod/statistic/structconv.go:34-61 | totals and each of the nine maps go to the field of the same name |
| DailySummary.DailySummaryExportToSummary | src/mod/statistic/structconv.go:63-99 | the summary carries the totals and nine maps of the export, and each size counter is the size of its map |
| DailySummary.ExportRoundTrip | src/mod/statistic/structconv.go:34-99 | importing what was exported changes nothing but the size counters, and brings back everything if and only if those matched the maps |
| DailySummary.ImportRoundTrip | src/mod/statistic/structconv.go:34-99 | exporting what was imported gives the same export |
| DailySummary.Collector.SaveSummaryOfDay | src/mod/statistic/statistic.go:163-169 | the day's record becomes an export of the summary, other days stay |
| DailySummary.Collector.LoadSummaryOfDay | src/mod/statistic/statistic.go:177-184 | a stored day is imported, any other gives the empty summary |
| DailySummary.Collector.ResetSummaryOfDay | src/mod/statistic/statistic.go:187-189 | the summary is that of a day without requests |
| Bandwidth.Tracker.constructor | src/statuspage.go:88-101 | a start takes the stored totals if they are of today and zero otherwise, with no readings and nothing marked unsaved |
| Bandwidth.Tracker.RolloverIfNeeded | src/statuspage.go:203-213 | on another day the totals are zero and marked unsaved, on the same day nothing changes |
| Bandwidth.Tracker.Accumulate | src/statuspage.go:160-199 | the loop of wrapping 64-bit additions adds the exact sum of forward movement, reduced once, and leaves the last reading of every interface |
| Bandwidth.Tracker.BeginSave | src/statuspage.go:221-232 | hands out the current totals exactly if they are marked unsaved, and takes the mark away |
| Bandwidth.Tracker.FailSave | src/statuspage.go:234-239 | a failed write puts the mark back and changes nothing else |
| Bandwidth.Tracker.GetBandwidthToday | src/statuspage.go:244-252 | shows the totals of the current day, after a rollover if one is due |
| BandwidthRuns.DaysAddUp | src/statuspage.go:160-213 | over any number of days, as long as each day's total fits, the totals at the ends of the days add up to the total at the start plus all forward movement between consecutive samples, so midnight loses nothing and counts nothing twice |
| BandwidthRuns.TotalIsExactIffItFits | src/statuspage.go:166-199 | after any samples of a day the stored total is the true sum of forward movement if and only if that is below 2^63 |
| BandwidthRuns.TotalsNeverFallIff | src/statuspage.go:62-67 | if no sample moves 2^63 or more, no sample of a day lowers the total if and only if the true total is below 2^63 |
| BandwidthRuns.OverfullTotalFalls | src/statuspage.go:195 | one byte beyond 2^63 - 1 makes the total negative |
| BandwidthRuns.MovedIsOverCommon | src/statuspage.go:168-192 | for distinct interface names, movement is the sum over interfaces present in both snapshots |
| BandwidthRuns.MovementTelescopes | src/statuspage.go:64-67 | on a fixed set of monotone counters movement is the last reading minus the first |
| BandwidthRuns.MovementLedger | src/statuspage.go:160-199 | over any samples, with counters that rise, fall, come and go: movement is last level minus first, plus all falls (to zero where a counter went away), minus the starts of new counters |
| BandwidthRuns.StepKeeps | src/statuspage.go:88-101 | each step of sampling, showing, saving, failing and restarting keeps the save invariant, also when a failed or interrupted write leaves no readable record |
| BandwidthRuns.RunKeeps | src/statuspage.go:203-240 | in every reachable state the totals are marked, or being written, or given back by the database; only totals really held are ever stored |
| BandwidthRuns.RestartRestores | src/statuspage.go:94-100 | a restart at any point brings back zero or totals really held that day, and exactly the current ones if nothing was marked or being written |
| BandwidthRuns.SaveSurvivesRestart | src/statuspage.go:216-240 | marked totals can be saved whenever no write is under way, and a restart on the same day starts from them |
| BandwidthRuns.CrashOutcomes | src/statuspage.go:216-240 | the record a crash leaves is the old one or, in the middle of a write, the new one or none, and nothing else |
| RateLimit.RunKeeps | src/mod/dynamicproxy/ratelimit.go:19-49 | in every interleaving the table, the counters and the requests stay consistent: one counter per IP and window, distinct tickets |
| RateLimit.RunKeepsCounts | src/mod/dynamicproxy/ratelimit.go:19-22 | in every interleaving each counter equals the number of requests that incremented it |
| RateLimit.WindowAdmissions | src/mod/dynamicproxy/ratelimit.go:85-94 | between two clears an IP is admitted at most limit - 1 times plus once per request in flight at the opening clear, in every interleaving |
| RateLimit.RejectedOnlyAtLimit | src/mod/dynamicproxy/ratelimit.go:25-32 | a request that starts and is refused in one window has at least limit requests counted in it |
| RateLimit.RejectedOnlyByFullCounter | src/mod/dynamicproxy/ratelimit.go:25-32 | in every interleaving, whatever clears come in between, a request is only rejected by a counter of its IP that was opened between its arrival and its decision and has counted at least as many requests as its limit |
| RateLimit.AloneDecides | src/mod/dynamicproxy/ratelimit.go:85-94 | a request that runs undisturbed is admitted if and only if its number in the window is below the limit |
| RateLimit.SequentialAdmissions | src/mod/dynamicproxy/ratelimit.go:85-94 | of n requests one after the other in a fresh window exactly min(n, limit - 1) get through |
| RateLimit.RequestCountPerIpTable.Increment | src/mod/dynamicproxy/ratelimit.go:19-22 | the count of one IP goes up by one, all others stay |
| RateLimit.RequestCountPerIpTable.Exceeded | src/mod/dynamicproxy/ratelimit.go:25-32 | an unknown IP never exceeds, a known one exactly from the limit on |
| RateLimit.RequestCountPerIpTable.Clear | src/mod/dynamicproxy/ratelimit.go:44-49 | the table is empty afterwards |
| RateLimit.RequestCountPerIpTable.HandleRateLimit | src/mod/dynamicproxy/ratelimit.go:79-94 | a client address without a port passes uncounted; any other is counted and admitted if and only if its count is below the limit |
| Hostnames.Router.AddProxyRouteToRuntime | src/mod/dynamicproxy/router.go:77-91 | an endpoint that is ready or has no origins is registered under its lower-cased root, any other is refused; the registry invariant holds |
| Hostnames.Router.Remove | src/mod/dynamicproxy/endpoints.go:319-323 | exactly the endpoint's key disappears and the invariant holds |
| Hostnames.Router.UpdateToRuntime | src/mod/dynamicproxy/endpoints.go:333-336 | the endpoint is stored under its lower-cased root and the invariant holds |
| Hostnames.Router.CheckEndpoint | src/mod/dynamicproxy/proxyRequestHandler.go:59-86 | a rule matches by its root, or by an alias if its root is a well-formed pattern that does not match; a bad alias is skipped |
| Hostnames.Router.Collect | src/mod/dynamicproxy/proxyRequestHandler.go:51-88 | the range over the registry, in any order, collects every enabled match once |
| Hostnames.Router.GetProxyEndpointFromHostname | src/mod/dynamicproxy/proxyRequestHandler.go:38-114 | an enabled exact hit wins, else the one match preferred to all others (longer root, fewer wildcard characters, smaller first differing byte), else the disabled exact hit or nothing |
| Hostnames.Router.LongestRootWins | src/mod/dynamicproxy/proxyRequestHandler.go:90-111 | without an enabled exact hit no match has a longer root than the answer, an equally long one with fewer wildcards, or an equal number and a smaller first differing byte |
| Hostnames.MoreSpecificIsPreferred | src/mod/dynamicproxy/proxyRequestHandler.go:97-109 | the comparison of the sort is: longer root, then fewer stars and question marks, then the smaller byte where they first differ |
| Hostnames.Router.ResolutionIsUnique | src/mod/dynamicproxy/proxyRequestHandler.go:90-111 | the registry determines the answer, so the iteration order of the map does not show |
| Hostnames.Router.DisabledOnlyAsLastResort | src/mod/dynamicproxy/proxyRequestHandler.go:42-48 | a disabled endpoint is returned only if nothing enabled matches |
| Hostnames.EndpointOrder | src/mod/dynamicproxy/proxyRequestHandler.go:97-109 | longer, then fewer wildcards, then lexicographic is a strict weak order on endpoints |
| Hostnames.MoreSpecificIsTotal | src/mod/dynamicproxy/proxyRequestHandler.go:97-109 | of two different roots exactly one is more specific |
| GoStrings.PrefixOrderIsLength | src/mod/plugins/traffic_router.go:27 | for two prefixes of one path, Go's order on strings is the order of lengths |
| GoStrings.LessByFirstDifference | src/mod/dynamicproxy/proxyRequestHandler.go:108 | one string is less exactly if, after equal bytes, it ends or has the smaller byte |
| GoStrings.CountIsMultiplicity | src/mod/dynamicproxy/proxyRequestHandler.go:103-104 | counting a character gives how often it occurs |
| GoStrings.ToLowerByLetter | src/mod/dynamicproxy/router.go:78 | each upper-case letter becomes its lower-case one and nothing else changes |
| GoStrings.TrimSpaceIs | src/mod/geodb/geoloader.go:17 | the text is what was cut off in front, the result, and what was cut off behind; only blanks are cut off, and all at both ends |
| GoStrings.TrimSuffixIs | src/mod/plugins/plugins.go:276 | a suffix that is there is cut off, and nothing else |
| GoStrings.JoinUndoesSplit | src/mod/netutils/ipmatch.go:86-87 | joining the parts gives the text back and no part holds a separator |
| PluginRouting.LongestPrefixIsLongest | src/mod/plugins/traffic_router.go:25 | the tree lookup gives the longest registered prefix if there is one |
| PluginRouting.Manager.FindStaticRoute | src/mod/plugins/traffic_router.go:20-32 | comparing with > on strings, the loop finds the longest capture path over all tags, with the plugins of the first tag that has it |
| PluginRouting.Manager.HandleRoute | src/mod/plugins/traffic_router.go:11-49 | at any time, indexed or stale: a request is won by a plugin that captures the longest path matching under any tag, by the first tag that knows it, and by none exactly if nothing non-empty matches; it finds its router exactly if the path has a leading slash and the plugin is not stopped, for a running plugin exactly if the path has a leading slash and its ingress parses; with a sound index the winner is loaded and runs |
| PluginRouting.WinnerIsKeyed | src/mod/plugins/plugins.go:299-306 | the trimmed winning prefix is a router key of the chosen plugin's capture paths if and only if the request path starts with a slash |
| PluginRouting.Manager.WinnerCaptures | src/mod/plugins/static_forwarder.go:57-81 | the plugin behind the winning path was loaded and captures that very path; with a sound index it is loaded and runs |
| PluginRouting.TrimmedPrefixIsRouterKeyIff | src/mod/plugins/plugins.go:273-300 | for every raw capture path, trimming the matched prefix gives its router key for rooted request paths and no router's key for others |
| PluginRouting.Manager.Dispatch | src/mod/plugins/plugins.go:299-306 | a request is forwarded exactly if the plugin is not stopped and the trimmed prefix is the key of one of its capture paths, and then to the router made for that key |
| PluginRouting.Manager.GetForwarderRadixTreeFromPlugins | src/mod/plugins/static_forwarder.go:51-102 | every path of the tree leads to an enabled plugin of the group that captures it, and every capture path of such a plugin is in the tree |
| PluginRouting.Manager.InsertPaths | src/mod/plugins/static_forwarder.go:75-97 | a path already taken keeps its plugins, every other path of the plugin is added |
| PluginRouting.Manager.UpdateTagsToPluginMaps | src/mod/plugins/static_forwarder.go:17-33 | afterwards exactly the current tags are indexed, each soundly and completely |
| PluginRouting.Manager.LoadPlugin | src/mod/plugins/plugins.go:101-117 | a plugin found on disk joins the loaded ones and all stays consistent |
| PluginRouting.Manager.ForgetPlugin | src/mod/plugins/plugins.go:76-84 | a plugin whose directory is gone is loaded no more; the index is not touched and all stays consistent |
| PluginRouting.Manager.StartPlugin | src/mod/plugins/lifecycle.go:22-182 | an error before the plugin is marked leaves it as it was, after that it is enabled, and only a bad ingress panics |
| PluginRouting.Manager.EnablePlugin | src/mod/plugins/plugins.go:192-201 | on success the plugin runs and the index is up to date; an error or a panic leaves the index as it was; a sound index stays sound |
| PluginRouting.Manager.DisablePlugin | src/mod/plugins/plugins.go:204-213 | the plugin is disabled, has no routers, and the index is up to date |
| PluginRouting.Manager.PluginDied | src/mod/plugins/lifecycle.go:130-142 | a plugin whose process died is disabled and out of the index although it keeps its routers; all stays consistent, so it can be started again |
| PluginRouting.Manager.RebuildPlugin | src/mod/plugins/hotrebuild.go:13-97 | a plugin that ran is stopped behind the old index when the build or the new start fails, and indexed again when both succeed |
| PluginRouting.Plugin.StartAllStaticPathRouters | src/mod/plugins/plugins.go:266-287 | there is a router for the normal form of every non-empty capture path; with an ingress that does not parse there is none and it panics exactly if there is a non-empty path |
| PluginRouting.Plugin.StopAllStaticPathRouters | src/mod/plugins/plugins.go:290-296 | no router is left |
| Listeners.Router.GetCommonListeningPorts | src/mod/dynamicproxy/dynamicproxy.go:721-753 | lists exactly the non-empty trimmed ports of enabled endpoints, each with exactly the domains that ask for it |
| Listeners.AddPorts | src/mod/dynamicproxy/dynamicproxy.go:740-747 | the domain is added under each port it asks for and nowhere else |
| Listeners.Router.StartSecondaryListeners | src/mod/dynamicproxy/dynamicproxy.go:411-497 | missing listeners are started, running ones keep their server, the two maps keep equal keys |
| Listeners.Router.StopUnwanted | src/mod/dynamicproxy/dynamicproxy.go:525-537 | exactly the servers whose address is not asked for are stopped and removed |
| Listeners.Router.UpdateSecondaryListeners | src/mod/dynamicproxy/dynamicproxy.go:516-541 | while running the live addresses become exactly those asked for; an address wanted before and after keeps its very server, unstopped; every other old server is stopped |
| Listeners.Router.StopProxyService | src/mod/dynamicproxy/dynamicproxy.go:544-615 | an error and no change if nothing runs, else every listener is stopped and both maps are empty |
| FileTable.RoundTripIff | src/mod/database/database_openwrt.go:100-158 | unescaping undoes escaping if and only if the key contains neither misread pattern |
| FileTable.EscapeUndoesUnescape | src/mod/database/database_openwrt.go:158 | escaping undoes unescaping on every file name |
| FileTable.ListedKey | src/mod/database/database_openwrt.go:156-158 | the extension is cut off right even if the key has dots, so a listing shows the unescaped escaped key |
| FileTable.SafeKeysDoNotCollide | src/mod/database/database_openwrt.go:100-102 | distinct keys in which nothing is misread never share a file |
| FileTable.MisreadKeyCollides | src/mod/database/database_openwrt.go:100-158 | every other key shares its file with a different key, under which it is listed |
| FileTable.Table.Write | src/mod/database/database_openwrt.go:92-103 | a successful write stores exactly the marshalled value under the key's file; a failed one leaves the file untouched or holding the first part of the value; no other file changes |
| FileTable.Table.Read | src/mod/database/database_openwrt.go:105-121 | gives the decoded content of the key's file, an error if there is none or it cannot be read or decoded |
| FileTable.Table.KeyExists | src/mod/database/database_openwrt.go:123-128 | tells whether the key's file exists |
| FileTable.Table.Delete | src/mod/database/database_openwrt.go:130-140 | removes the key's file, or reports an error and changes nothing |
| FileTable.Table.ListTable | src/mod/database/database_openwrt.go:142-172 | readable files once with the key read off the name, up to the first that cannot be read: all of them exactly if all can be read; an error without the directory |
| FileTable.TableRefinesMap | src/mod/database/database_openwrt.go:92-140 | for keys in which nothing is misread, every run of write and delete calls, failing or not, is a run of the same calls on a map from keys to values with the same outcomes, and the files hold that map all along |
| FileTable.CallRefines | src/mod/database/database_openwrt.go:92-140 | one write or delete of a key in which nothing is misread, whatever the disk does, is the same call on the map |
| FileTable.RepresentedReads | src/mod/database/database_openwrt.go:105-128 | what a read finds under a key in which nothing is misread is what the map has there |
| FileTable.LastWriteIsRead | src/mod/database/database_openwrt.go:92-121 | in a run of calls the last successful write of a key is what its file holds until the key is written or deleted again |
| FileTable.ListingIsExact | src/mod/database/database_openwrt.go:142-172 | of files that hold a map a listing is exactly the live keys with their values, each once |
| FileTable.ListedUnderOwnNameIff | src/mod/database/database_openwrt.go:92-172 | a key written on its own is listed under its own name if and only if nothing in it is misread |
| TrustedProxies.Controller.IsTrustedProxy | src/mod/access/trustedProxy.go:26-47 | the answer through the cache is the uncached one: an exact entry, or a range entry of the address's family whose leading bits, to its exact prefix length, are those of the address |
| TrustedProxies.Controller.RebuildTrustedCIDRCache | src/mod/access/trustedProxy.go:51-69 | afterwards the cache holds exactly the ranges of the map |
| TrustedProxies.Controller.AddTrustedProxy | src/mod/access/trustedProxy.go:78-85 | adds an absent entry and keeps the cache in step |
| TrustedProxies.Controller.RemoveTrustedProxy | src/mod/access/trustedProxy.go:88-95 | removes a present entry and keeps the cache in step |
| TrustedProxies.Controller.LoadTrustedProxies | src/mod/access/trustedProxy.go:111-151 | merges the loaded entries in order, changes nothing on an error, keeps the cache in step |
| TrustedProxies.MergedEntry | src/mod/access/trustedProxy.go:124-148 | after a load each key has its last loaded entry, and a key that was not loaded what it had |
| IpMatch.MatchIpWildcard | src/mod/netutils/ipmatch.go:84-105 | the octet loop accepts exactly if both sides have four parts that agree or are starred |
| IpMatch.DecimalRoundTrip | src/mod/netutils/ipmatch.go:121 | decimal printing is undone by parsing and has no leading zero |
| IpMatch.QuadRoundTrip | src/mod/netutils/ipmatch.go:121 | the canonical text of four bytes parses back to them |
| IpMatch.OnlyQuadsParse | src/mod/netutils/ipmatch.go:121 | text that parses as a dotted quad is the canonical text of its four bytes |
| IpMatch.MaskedBits | src/mod/netutils/ipmatch.go:115 | masking keeps the bits of the prefix and clears all others |
| IpMatch.CidrComparesBits | src/mod/netutils/ipmatch.go:108-125 | for every prefix length up to 32 a CIDR matches exactly the canonical addresses with the same leading bits, whatever its quad has beyond them |
| IpMatch.CidrComparesOctets | src/mod/netutils/ipmatch.go:108-125 | an octet-aligned CIDR contains exactly the addresses with the same leading octets |
| IpMatch.WildcardComparesOctets | src/mod/netutils/ipmatch.go:84-105 | a wildcard of k octets and stars matches exactly the addresses with those leading octets |
| IpMatch.WildcardIsCidr | src/mod/netutils/ipmatch.go:84-125 | on canonical text the two matchers agree on every octet-aligned block |
| Addresses.AlignedPrefix | src/mod/netutils/ipmatch.go:124 | equal leading bits up to an octet boundary are equal leading bytes |
| Addresses.ContainsIff | src/mod/access/trustedProxy.go:39-43 | for every prefix length and both families a network contains an address exactly if they are of one family and agree in that many leading bits |
| Addresses.BitIsBinaryDigit | src/mod/geodb/specialRange.go:106-107 | bit k of a byte is its binary digit of weight 2^(7-k) |
| Addresses.OrderIsNumeric | src/mod/ipscan/ipscan.go:38 | comparing bytes from the front is comparing big-endian numbers |
| IpScan.Inc | src/mod/ipscan/ipscan.go:84-91 | the carry loop turns the array in place into the next address |
| IpScan.NextIsPlusOne | src/mod/ipscan/ipscan.go:84-91 | the next address is one more, and zero after all ones |
| IpScan.VisitRange | src/mod/ipscan/ipscan.go:44-63 | watched for any number of rounds: the loop has stopped exactly if the end is not all ones and the rounds cover the range, and has then visited as many addresses as the range has |
| IpScan.VisitedInOrder | src/mod/ipscan/ipscan.go:44-63 | the visited addresses are the numbers from start to end, each once and in order |
| IpScan.ScanIpRange | src/mod/ipscan/ipscan.go:31-69 | unparsable ends and reversed ranges are errors; otherwise it is still running exactly if the end is all ones or the rounds are too few, else it has visited exactly the range |
| IpScan.StopsIff | src/mod/ipscan/ipscan.go:44 | the loop ends if and only if the end of the range is not all ones |

## Left out

- Concurrency outside the named step models: `boundedIncr` trims, `RecordRequest` counters, cache rebuilds and host appends are modelled as atomic calls, and the save protocol has one saver.
- DailySummary: models the mode without a cap; with a cap each of the nine maps is one `BoundedMap`. Totals and counts are unbounded numbers, and the maps hold nothing but numbers under text, so the type filter of the export has nothing to drop.
- IpScan.ScanIpRange: the probing of hosts and the final sort by text; a loop without end is watched for any number of rounds.
- PluginRouting: the dynamic capture routes, the rewriting of the request URL after dispatch, the editing of plugin groups, and what a start or a stop does beside the state of routing.
- GeoStore: takes the reserved-zone test as a parameter; in the code it is `getReservedIPZone`, modelled by `ReservedZones.ReservedZone`. Its country data are rows with parsed addresses.
- Hostnames: endpoints are values, so a root domain changed through a pointer while registered is not modelled; lower-casing is that of ASCII.
- FileTable: case-insensitive file systems and name length limits; what a failing decode leaves in the caller's variable.
- Listeners: sockets, shutdown timeouts and a server that fails to listen, which stays in the maps.
- RateLimit: the choice of the client address among request headers, and the 64-bit width of the counters.
- Parsing of IPv6 and CIDR text, JSON, CSV, `filepath.Match` and the radix library are parameters or specified functions; dotted quads and decimal prefixes are parsed concretely in `IpMatch`.
- HTTP handlers, dispatch, forwarding, WebSocket, certificates, sessions, geodb downloads, Docker, mDNS and logging: plumbing without state of this kind.
- Load balancer, redirection table, upstream and virtual directory lists: members that would add nothing hard.
