/** What the bandwidth tracker's totals mean over a day (statuspage.go). */
module BandwidthRuns {
  import opened Bandwidth
  import opened GoTypes
  import opened MapSums

  /** The tracker after the first `n` of a day's samples. */
  function After(t: Track, samples: seq<seq<Reading>>, n: nat): Track
    requires n <= |samples|
  {
    if n == 0 then t else Sampled(After(t, samples, n - 1), samples[n - 1], t.day)
  }

  function Latest(readings: seq<Reading>): Seen {
    Snapshot(readings, |readings|)
  }

  /** The readings that sample `i` is compared with. */
  function Previous(seen: Seen, samples: seq<seq<Reading>>, i: nat): Seen
    requires i <= |samples|
  {
    if i == 0 then seen else Latest(samples[i - 1])
  }

  function Before(t: Track, samples: seq<seq<Reading>>, i: nat): Seen
    requires i <= |samples|
  {
    Previous(t.seen, samples, i)
  }

  /** What has really moved forward over the first `n` samples, in unbounded numbers. */
  function MovedOver(seen: Seen, samples: seq<seq<Reading>>, n: nat, d: Direction): nat
    requires n <= |samples|
  {
    if n == 0 then 0
    else MovedOver(seen, samples, n - 1, d) + Moved(Previous(seen, samples, n - 1), samples[n - 1], |samples[n - 1]|, d)
  }

  /** That, on top of the total at the start. */
  function TrueTotal(t: Track, samples: seq<seq<Reading>>, n: nat, d: Direction): int
    requires n <= |samples|
  {
    t.Of(d) + MovedOver(t.seen, samples, n, d)
  }

  lemma WrapIsIdentity(x: int)
    ensures Wrap(x) == x <==> -TWO63 <= x < TWO63
  {
  }

  /** Adding one direction's movement is exact where it fits, also when nothing but the other
      direction trips the guard. */
  lemma GuardedAddIsExact(total: int64, moved: nat, other: bool)
    requires total >= 0 && total + moved < TWO63
    ensures (if Wrap(moved) > 0 || other then Wrap(total + moved) else total) == total + moved
  {
    WrapIsIdentity(moved);
    WrapIsIdentity(total + moved);
  }

  /** A total that fits is only ever the true one, whichever direction trips the guard. */
  lemma SampleIsExact(t: Track, readings: seq<Reading>, d: Direction)
    requires t.Of(d) >= 0 && t.Of(d) + Moved(t.seen, readings, |readings|, d) < TWO63
    ensures Sampled(t, readings, t.day).Of(d) == t.Of(d) + Moved(t.seen, readings, |readings|, d)
  {
    var rx, tx := Moved(t.seen, readings, |readings|, Rx), Moved(t.seen, readings, |readings|, Tx);
    if d.Rx? {
      GuardedAddIsExact(t.rx, rx, Wrap(tx) > 0);
    } else {
      GuardedAddIsExact(t.tx, tx, Wrap(rx) > 0);
    }
  }

  lemma {:induction false} TrueTotalGrows(t: Track, samples: seq<seq<Reading>>, m: nat, n: nat, d: Direction)
    requires m <= n <= |samples|
    ensures TrueTotal(t, samples, m, d) <= TrueTotal(t, samples, n, d)
  {
    if m < n {
      TrueTotalGrows(t, samples, m, n - 1, d);
    }
  }

  lemma SeenIsLatest(t: Track, samples: seq<seq<Reading>>, n: nat)
    requires n <= |samples|
    ensures After(t, samples, n).seen == Before(t, samples, n) && After(t, samples, n).day == t.day
  {
  }

  lemma {:induction false} FittingTotalIsExact(t: Track, samples: seq<seq<Reading>>, n: nat, d: Direction)
    requires n <= |samples| && t.Of(d) >= 0 && TrueTotal(t, samples, n, d) < TWO63
    ensures After(t, samples, n).Of(d) == TrueTotal(t, samples, n, d)
  {
    if n > 0 {
      FittingTotalIsExact(t, samples, n - 1, d);
      SeenIsLatest(t, samples, n - 1);
      TrueTotalGrows(t, samples, 0, n - 1, d);
      SampleIsExact(After(t, samples, n - 1), samples[n - 1], d);
    }
  }

  /** Within a day the stored total is the true one if and only if that fits 63 bits. */
  lemma TotalIsExactIffItFits(t: Track, samples: seq<seq<Reading>>, n: nat, d: Direction)
    requires n <= |samples| && t.Of(d) >= 0
    ensures After(t, samples, n).Of(d) == TrueTotal(t, samples, n, d) <==> TrueTotal(t, samples, n, d) < TWO63
  {
    if TrueTotal(t, samples, n, d) < TWO63 {
      FittingTotalIsExact(t, samples, n, d);
    }
  }

  lemma GuardedAddRisesIff(total: int64, moved: nat, other: bool)
    requires total >= 0 && moved < TWO63
    ensures total <= (if Wrap(moved) > 0 || other then Wrap(total + moved) else total) <==> total + moved < TWO63
  {
    WrapIsIdentity(moved);
    WrapIsIdentity(total + moved);
  }

  lemma SampleRisesIff(t: Track, readings: seq<Reading>, d: Direction)
    requires t.Of(d) >= 0 && Moved(t.seen, readings, |readings|, d) < TWO63
    ensures t.Of(d) <= Sampled(t, readings, t.day).Of(d) <==> t.Of(d) + Moved(t.seen, readings, |readings|, d) < TWO63
  {
    var rx, tx := Moved(t.seen, readings, |readings|, Rx), Moved(t.seen, readings, |readings|, Tx);
    if d.Rx? {
      GuardedAddRisesIff(t.rx, rx, Wrap(tx) > 0);
    } else {
      GuardedAddRisesIff(t.tx, tx, Wrap(rx) > 0);
    }
  }

  /** Sample `i` keeps or raises the total. */
  ghost predicate Holds(t: Track, samples: seq<seq<Reading>>, i: nat, d: Direction)
    requires i < |samples|
  {
    After(t, samples, i).Of(d) <= After(t, samples, i + 1).Of(d)
  }

  /** No single sample moves more than fits. */
  ghost predicate SmallSteps(t: Track, samples: seq<seq<Reading>>, n: nat, d: Direction)
    requires n <= |samples|
  {
    n == 0 || (SmallSteps(t, samples, n - 1, d)
               && Moved(Before(t, samples, n - 1), samples[n - 1], |samples[n - 1]|, d) < TWO63)
  }

  lemma HoldsIff(t: Track, samples: seq<seq<Reading>>, i: nat, d: Direction)
    requires i < |samples| && t.Of(d) >= 0 && TrueTotal(t, samples, i, d) < TWO63
    requires Moved(Before(t, samples, i), samples[i], |samples[i]|, d) < TWO63
    ensures Holds(t, samples, i, d) <==> TrueTotal(t, samples, i + 1, d) < TWO63
  {
    var u := After(t, samples, i);
    FittingTotalIsExact(t, samples, i, d);
    SeenIsLatest(t, samples, i);
    SampleRisesIff(u, samples[i], d);
  }

  /** Within a day totals never fall exactly as long as the true total fits 63 bits. */
  lemma {:induction false} TotalsNeverFallIff(t: Track, samples: seq<seq<Reading>>, n: nat, d: Direction)
    requires n <= |samples| && t.Of(d) >= 0 && SmallSteps(t, samples, n, d)
    ensures (forall i :: 0 <= i < n ==> Holds(t, samples, i, d)) <==> TrueTotal(t, samples, n, d) < TWO63
  {
    if n > 0 {
      TotalsNeverFallIff(t, samples, n - 1, d);
      TrueTotalGrows(t, samples, n - 1, n, d);
      if TrueTotal(t, samples, n - 1, d) < TWO63 {
        HoldsIff(t, samples, n - 1, d);
      }
    }
  }

  lemma OneReading(seen: Seen, r: Reading, d: Direction)
    ensures Moved(seen, [r], 1, d) == Forward(seen, r, d)
  {
    assert Moved(seen, [r], 0, d) == 0;
  }

  lemma WrapAtTheTop()
    ensures Wrap(1) == 1 && Wrap(0) == 0 && Wrap(TWO63 - 1 + 1) == -TWO63
  {
  }

  /** One byte more than fits, and the total turns negative. */
  lemma OverfullTotalFalls(day: string, name: string)
    ensures var t := Track(day, TWO63 - 1, 0, map[name := NicCounter(0, 0)], false);
            Sampled(t, [Reading(name, NicCounter(1, 0))], day).rx == -TWO63
  {
    var r := Reading(name, NicCounter(1, 0));
    var t := Track(day, TWO63 - 1, 0, map[name := NicCounter(0, 0)], false);
    OneReading(t.seen, r, Rx);
    OneReading(t.seen, r, Tx);
    assert Forward(t.seen, r, Rx) == 1 && Forward(t.seen, r, Tx) == 0;
    WrapAtTheTop();
    assert RolledOver(t, day) == t;
    assert Sampled(t, [r], day).rx == Wrap(t.rx + 1);
  }

  // ---------------------------------------------------------------- many days

  /** The samples taken on one calendar day. */
  datatype Day = Day(date: string, samples: seq<seq<Reading>>)

  /** The tracker after the first `n` samples of a day, the first of which may find another day's
      totals. */
  function Through(t: Track, day: Day, n: nat): Track
    requires n <= |day.samples|
  {
    if n == 0 then t else Sampled(Through(t, day, n - 1), day.samples[n - 1], day.date)
  }

  /** The tracker after the first `n` days. */
  function AfterDays(t: Track, days: seq<Day>, n: nat): Track
    requires n <= |days|
  {
    if n == 0 then t else Through(AfterDays(t, days, n - 1), days[n - 1], |days[n - 1].samples|)
  }

  /** The totals at the end of each of the first `n` days, added up. */
  function DayTotals(t: Track, days: seq<Day>, n: nat, d: Direction): int
    requires n <= |days|
  {
    if n == 0 then 0 else DayTotals(t, days, n - 1, d) + AfterDays(t, days, n).Of(d)
  }

  function AllSamples(days: seq<Day>, n: nat): seq<seq<Reading>>
    requires n <= |days|
  {
    if n == 0 then [] else AllSamples(days, n - 1) + days[n - 1].samples
  }

  /** What the tracker counts from on day `i`. */
  function Morning(t: Track, days: seq<Day>, i: nat): Track
    requires i < |days|
  {
    RolledOver(AfterDays(t, days, i), days[i].date)
  }

  lemma {:induction false} ThroughIsAfter(t: Track, day: Day, n: nat)
    requires 0 < n <= |day.samples|
    ensures Through(t, day, n) == After(RolledOver(t, day.date), day.samples, n)
  {
    var u := RolledOver(t, day.date);
    if n > 1 {
      ThroughIsAfter(t, day, n - 1);
      SeenIsLatest(u, day.samples, n - 1);
    } else {
      assert After(u, day.samples, 0) == u;
    }
  }

  lemma {:induction false} MovedOverConcat(seen: Seen, a: seq<seq<Reading>>, b: seq<seq<Reading>>, n: nat, d: Direction)
    requires n <= |b|
    ensures MovedOver(seen, a + b, |a| + n, d)
            == MovedOver(seen, a, |a|, d) + MovedOver(Previous(seen, a, |a|), b, n, d)
    ensures Previous(seen, a + b, |a| + n) == Previous(Previous(seen, a, |a|), b, n)
  {
    if n > 0 {
      MovedOverConcat(seen, a, b, n - 1, d);
      assert (a + b)[|a| + n - 1] == b[n - 1];
    } else {
      MovedOverPrefix(seen, a, b, |a|, d);
    }
  }

  lemma {:induction false} MovedOverPrefix(seen: Seen, a: seq<seq<Reading>>, b: seq<seq<Reading>>, n: nat, d: Direction)
    requires n <= |a|
    ensures MovedOver(seen, a + b, n, d) == MovedOver(seen, a, n, d)
    ensures Previous(seen, a + b, n) == Previous(seen, a, n)
  {
    if n > 0 {
      MovedOverPrefix(seen, a, b, n - 1, d);
    }
  }

  lemma OneDay(u: Track, day: Day, d: Direction)
    requires day.samples != [] && RolledOver(u, day.date).Of(d) >= 0
    requires TrueTotal(RolledOver(u, day.date), day.samples, |day.samples|, d) < TWO63
    ensures var v := Through(u, day, |day.samples|);
            && v.Of(d) == (if u.day == day.date then u.Of(d) else 0) + MovedOver(u.seen, day.samples, |day.samples|, d)
            && v.seen == Previous(u.seen, day.samples, |day.samples|)
            && v.day == day.date
  {
    ThroughIsAfter(u, day, |day.samples|);
    FittingTotalIsExact(RolledOver(u, day.date), day.samples, |day.samples|, d);
    SeenIsLatest(RolledOver(u, day.date), day.samples, |day.samples|);
  }

  /** Days with samples, each on another date than the one before, the first on the tracker's. */
  ghost predicate Calendar(t: Track, days: seq<Day>) {
    && (forall i :: 0 <= i < |days| ==> days[i].samples != [])
    && (days != [] ==> days[0].date == t.day)
    && (forall i :: 0 < i < |days| ==> days[i].date != days[i - 1].date)
  }

  function AllMoved(t: Track, days: seq<Day>, n: nat, d: Direction): nat
    requires n <= |days|
  {
    MovedOver(t.seen, AllSamples(days, n), |AllSamples(days, n)|, d)
  }

  function LastSeen(t: Track, days: seq<Day>, n: nat): Seen
    requires n <= |days|
  {
    Previous(t.seen, AllSamples(days, n), |AllSamples(days, n)|)
  }

  /** Day `i` ends with a total that fits 63 bits. */
  ghost predicate DayFits(t: Track, days: seq<Day>, i: nat, d: Direction)
    requires i < |days|
  {
    TrueTotal(Morning(t, days, i), days[i].samples, |days[i].samples|, d) < TWO63
  }

  lemma DayCountsOn(t: Track, days: seq<Day>, i: nat, d: Direction)
    requires i < |days| && days[i].samples != [] && DayFits(t, days, i, d)
    requires Morning(t, days, i).Of(d) >= 0 && AfterDays(t, days, i).seen == LastSeen(t, days, i)
    ensures AfterDays(t, days, i + 1).Of(d)
            == Morning(t, days, i).Of(d) + AllMoved(t, days, i + 1, d) - AllMoved(t, days, i, d)
    ensures AfterDays(t, days, i + 1).seen == LastSeen(t, days, i + 1)
    ensures AfterDays(t, days, i + 1).day == days[i].date
  {
    var u, day := AfterDays(t, days, i), days[i];
    OneDay(u, day, d);
    MovedOverConcat(t.seen, AllSamples(days, i), day.samples, |day.samples|, d);
  }

  /** Nothing is lost or counted twice at midnight: as long as each day's total fits, the totals of
      the days add up to the total at the start and all forward movement since. */
  lemma {:induction false} DaysAddUp(t: Track, days: seq<Day>, n: nat, d: Direction)
    requires 0 < n <= |days| && t.Of(d) >= 0 && Calendar(t, days)
    requires forall i :: 0 <= i < n ==> DayFits(t, days, i, d)
    ensures DayTotals(t, days, n, d) == t.Of(d) + AllMoved(t, days, n, d)
    ensures AfterDays(t, days, n).seen == LastSeen(t, days, n)
    ensures AfterDays(t, days, n).day == days[n - 1].date
  {
    if n > 1 {
      DaysAddUp(t, days, n - 1, d);
    }
    DayCountsOn(t, days, n - 1, d);
  }

  // ---------------------------------------------------------------- which interfaces count

  ghost predicate DistinctNames(readings: seq<Reading>) {
    forall i, j :: 0 <= i < j < |readings| ==> readings[i].name != readings[j].name
  }

  /** Forward movement by name, over the interfaces present in both snapshots. */
  function Common(earlier: Seen, later: Seen, d: Direction): Counts {
    map name | name in later && name in earlier :: Forward(earlier, Reading(name, later[name]), d)
  }

  lemma {:induction false} SnapshotNames(readings: seq<Reading>, n: nat, name: string)
    requires n <= |readings|
    ensures name in Snapshot(readings, n) <==> exists i :: 0 <= i < n && readings[i].name == name
  {
    if n > 0 {
      SnapshotNames(readings, n - 1, name);
    }
  }

  lemma CommonGrows(seen: Seen, snap: Seen, r: Reading, d: Direction)
    requires r.name !in snap
    ensures Sum(Common(seen, snap[r.name := r.counter], d)) == Sum(Common(seen, snap, d)) + Forward(seen, r, d)
  {
    var a, b := Common(seen, snap, d), Common(seen, snap[r.name := r.counter], d);
    if r.name in seen {
      assert b == a[r.name := Forward(seen, r, d)];
      SumPut(a, r.name, Forward(seen, r, d));
    } else {
      assert b == a;
    }
  }

  lemma {:induction false} MovedIsOverCommon(seen: Seen, readings: seq<Reading>, n: nat, d: Direction)
    requires n <= |readings| && DistinctNames(readings)
    ensures Moved(seen, readings, n, d) == Sum(Common(seen, Snapshot(readings, n), d))
  {
    if n > 0 {
      MovedIsOverCommon(seen, readings, n - 1, d);
      SnapshotNames(readings, n - 1, readings[n - 1].name);
      CommonGrows(seen, Snapshot(readings, n - 1), readings[n - 1], d);
    }
  }

  function Totals(s: Seen, d: Direction): Counts {
    map name | name in s :: s[name].Of(d) as nat
  }

  /** All counters of a snapshot, added up. */
  ghost function Level(s: Seen, d: Direction): nat {
    Sum(Totals(s, d))
  }

  /** How far the counters fell; a counter that went away fell to zero. */
  function Falls(earlier: Seen, later: Seen, d: Direction): Counts {
    map name | name in earlier ::
      var left: nat := if name in later then later[name].Of(d) else 0;
      if left < earlier[name].Of(d) then earlier[name].Of(d) - left else 0
  }

  /** What counters show that were not there before. */
  function Fresh(earlier: Seen, later: Seen, d: Direction): Counts {
    map name | name in later && name !in earlier :: later[name].Of(d) as nat
  }

  /** The part of a map in `names`, or the part outside. */
  function Part(m: Counts, names: set<string>, inside: bool): Counts {
    map name | name in m && (name in names) == inside :: m[name]
  }

  lemma SumOfParts(m: Counts, names: set<string>)
    ensures Sum(m) == Sum(Part(m, names, true)) + Sum(Part(m, names, false))
  {
    SumSplit(m, Part(m, names, true), Part(m, names, false));
  }

  /** Outside the common names: what is new starts there, and what went away fell all the way. */
  lemma OutsideCommon(earlier: Seen, later: Seen, both: set<string>, d: Direction)
    requires both == earlier.Keys * later.Keys
    ensures Part(Totals(later, d), both, false) == Fresh(earlier, later, d)
    ensures Part(Falls(earlier, later, d), both, false) == Part(Totals(earlier, d), both, false)
  {
  }

  /** The higher of both counters, by common name. */
  function Higher(earlier: Seen, later: Seen, d: Direction): Counts {
    map name | name in earlier && name in later ::
      if later[name].Of(d) < earlier[name].Of(d) then earlier[name].Of(d) as nat else later[name].Of(d) as nat
  }

  lemma LaterAndFalls(earlier: Seen, later: Seen, both: set<string>, d: Direction)
    requires both == earlier.Keys * later.Keys
    ensures Sum(Higher(earlier, later, d))
            == Sum(Part(Totals(later, d), both, true)) + Sum(Part(Falls(earlier, later, d), both, true))
  {
    SumPointwise(Part(Totals(later, d), both, true), Part(Falls(earlier, later, d), both, true),
                 Higher(earlier, later, d));
  }

  lemma EarlierAndMoved(earlier: Seen, later: Seen, both: set<string>, d: Direction)
    requires both == earlier.Keys * later.Keys
    ensures Sum(Higher(earlier, later, d))
            == Sum(Part(Totals(earlier, d), both, true)) + Sum(Common(earlier, later, d))
  {
    SumPointwise(Part(Totals(earlier, d), both, true), Common(earlier, later, d), Higher(earlier, later, d));
  }

  /** Between two snapshots every change of a counter is movement, a fall or the start of a counter. */
  lemma SnapshotLedger(earlier: Seen, later: Seen, d: Direction)
    ensures Level(later, d) + Sum(Falls(earlier, later, d))
            == Level(earlier, d) + Sum(Common(earlier, later, d)) + Sum(Fresh(earlier, later, d))
  {
    var both := earlier.Keys * later.Keys;
    SumOfParts(Totals(later, d), both);
    SumOfParts(Totals(earlier, d), both);
    SumOfParts(Falls(earlier, later, d), both);
    OutsideCommon(earlier, later, both, d);
    LaterAndFalls(earlier, later, both, d);
    EarlierAndMoved(earlier, later, both, d);
  }

  lemma SampleLedger(seen: Seen, readings: seq<Reading>, d: Direction)
    requires DistinctNames(readings)
    ensures Moved(seen, readings, |readings|, d)
            == Level(Latest(readings), d) - Level(seen, d)
               + Sum(Falls(seen, Latest(readings), d)) - Sum(Fresh(seen, Latest(readings), d))
  {
    MovedIsOverCommon(seen, readings, |readings|, d);
    SnapshotLedger(seen, Latest(readings), d);
  }

  ghost function FallsOver(seen: Seen, samples: seq<seq<Reading>>, n: nat, d: Direction): nat
    requires n <= |samples|
  {
    if n == 0 then 0
    else FallsOver(seen, samples, n - 1, d)
         + Sum(Falls(Previous(seen, samples, n - 1), Previous(seen, samples, n), d))
  }

  ghost function FreshOver(seen: Seen, samples: seq<seq<Reading>>, n: nat, d: Direction): nat
    requires n <= |samples|
  {
    if n == 0 then 0
    else FreshOver(seen, samples, n - 1, d)
         + Sum(Fresh(Previous(seen, samples, n - 1), Previous(seen, samples, n), d))
  }

  /** The ledger moves on right with sample `i`. */
  ghost predicate Balances(seen: Seen, samples: seq<seq<Reading>>, i: nat, d: Direction)
    requires i < |samples|
  {
    MovedOver(seen, samples, i + 1, d) - MovedOver(seen, samples, i, d)
    == Level(Previous(seen, samples, i + 1), d) - Level(Previous(seen, samples, i), d)
       + FallsOver(seen, samples, i + 1, d) - FallsOver(seen, samples, i, d)
       - (FreshOver(seen, samples, i + 1, d) - FreshOver(seen, samples, i, d))
  }

  lemma SampleBalances(seen: Seen, samples: seq<seq<Reading>>, i: nat, d: Direction)
    requires i < |samples| && DistinctNames(samples[i])
    ensures Balances(seen, samples, i, d)
  {
    SampleLedger(Previous(seen, samples, i), samples[i], d);
  }

  lemma {:induction false} StepsBalance(seen: Seen, samples: seq<seq<Reading>>, n: nat, d: Direction)
    requires n <= |samples| && forall i :: 0 <= i < n ==> Balances(seen, samples, i, d)
    ensures MovedOver(seen, samples, n, d)
            == Level(Previous(seen, samples, n), d) - Level(seen, d)
               + FallsOver(seen, samples, n, d) - FreshOver(seen, samples, n, d)
  {
    if n > 0 {
      StepsBalance(seen, samples, n - 1, d);
      assert Balances(seen, samples, n - 1, d);
    }
  }

  /** Over any samples, with counters that rise, fall, come and go: the movement counted is the last
      level less the first, with what was lost in falls made up for and the starts of new counters
      left out. */
  lemma MovementLedger(seen: Seen, samples: seq<seq<Reading>>, n: nat, d: Direction)
    requires n <= |samples| && forall i :: 0 <= i < n ==> DistinctNames(samples[i])
    ensures MovedOver(seen, samples, n, d)
            == Level(Previous(seen, samples, n), d) - Level(seen, d)
               + FallsOver(seen, samples, n, d) - FreshOver(seen, samples, n, d)
  {
    forall i | 0 <= i < n ensures Balances(seen, samples, i, d) {
      SampleBalances(seen, samples, i, d);
    }
    StepsBalance(seen, samples, n, d);
  }

  /** The interfaces of a sample are those of the snapshot before, and no counter falls. */
  ghost predicate SteadyAt(seen: Seen, samples: seq<seq<Reading>>, i: nat, d: Direction)
    requires i < |samples|
  {
    var earlier, later := Previous(seen, samples, i), Previous(seen, samples, i + 1);
    && DistinctNames(samples[i])
    && later.Keys == earlier.Keys
    && forall name :: name in earlier ==> earlier[name].Of(d) <= later[name].Of(d)
  }

  lemma SumOfZeros(m: Counts)
    requires forall k :: k in m ==> m[k] == 0
    ensures Sum(m) == 0
  {
  }

  lemma {:induction false} NothingLost(seen: Seen, samples: seq<seq<Reading>>, n: nat, d: Direction)
    requires n <= |samples| && forall i :: 0 <= i < n ==> SteadyAt(seen, samples, i, d)
    ensures FallsOver(seen, samples, n, d) == FreshOver(seen, samples, n, d) == 0
  {
    if n > 0 {
      NothingLost(seen, samples, n - 1, d);
      assert SteadyAt(seen, samples, n - 1, d);
      SumOfZeros(Falls(Previous(seen, samples, n - 1), Previous(seen, samples, n), d));
      SumOfZeros(Fresh(Previous(seen, samples, n - 1), Previous(seen, samples, n), d));
    }
  }

  /** So on a fixed set of monotone counters movement telescopes: last reading minus first, and the
      day's total is the total at its start plus that. */
  lemma MovementTelescopes(seen: Seen, samples: seq<seq<Reading>>, n: nat, d: Direction)
    requires n <= |samples| && forall i :: 0 <= i < n ==> SteadyAt(seen, samples, i, d)
    ensures MovedOver(seen, samples, n, d) == Level(Previous(seen, samples, n), d) - Level(seen, d)
  {
    forall i | 0 <= i < n ensures DistinctNames(samples[i]) {
      assert SteadyAt(seen, samples, i, d);
    }
    MovementLedger(seen, samples, n, d);
    NothingLost(seen, samples, n, d);
  }

  // ---------------------------------------------------------------- the save protocol

  /** One tracker, one saver and the database. `held` is every total the tracker ever had. */
  datatype State = State(track: Track, pending: Stored, db: Stored, held: set<Record>)

  ghost predicate Started(s: State, today: string) {
    && s.track == Track(today, Restored(s.db, today).rx, Restored(s.db, today).tx, map[], false)
    && s.pending == Nothing
  }

  /** The first start, on whatever record an earlier installation left. */
  ghost predicate Init(s: State, today: string) {
    Started(s, today) && s.held == {Snap(s.track)} + if s.db.Stored? then {s.db.record} else {}
  }

  ghost predicate Moves(s: State, s': State, track: Track) {
    s' == s.(track := track, held := s.held + {Snap(track)})
  }

  ghost predicate Sample(s: State, readings: seq<Reading>, today: string, s': State) {
    Moves(s, s', Sampled(s.track, readings, today))
  }

  ghost predicate Show(s: State, today: string, s': State) {
    Moves(s, s', RolledOver(s.track, today))
  }

  ghost predicate SaveBegins(s: State, s': State) {
    && s.pending == Nothing && s.track.dirty
    && s' == s.(track := s.track.(dirty := false), pending := Stored(Snap(s.track)))
  }

  ghost predicate SaveSucceeds(s: State, s': State) {
    s.pending.Stored? && s' == s.(db := s.pending, pending := Nothing)
  }

  /** A write that fails leaves the old record, the new one, or none that can be read. */
  ghost predicate SaveFails(s: State, s': State) {
    && s.pending.Stored? && (s'.db == s.db || s'.db == s.pending || s'.db == Nothing)
    && s' == s.(track := s.track.(dirty := true), pending := Nothing, db := s'.db)
  }

  /** The process dies, even in the middle of a write, and comes back on some day. */
  ghost predicate Restart(s: State, today: string, s': State) {
    && (s'.db == s.db || (s.pending.Stored? && (s'.db == s.pending || s'.db == Nothing)))
    && Started(s', today)
    && s'.held == s.held + {Snap(s'.track)}
  }

  ghost predicate Step(s: State, s': State) {
    || (exists readings, today :: Sample(s, readings, today, s'))
    || (exists today :: Show(s, today, s'))
    || SaveBegins(s, s') || SaveSucceeds(s, s') || SaveFails(s, s')
    || (exists today :: Restart(s, today, s'))
  }

  /** Either the totals are marked unsaved, or a write of them is under way, or the database
      gives them back. */
  ghost predicate NothingForgotten(s: State) {
    s.track.dirty || s.pending == Stored(Snap(s.track)) || Restored(s.db, s.track.day) == Snap(s.track)
  }

  /** A write that is under way writes the current totals unless those are marked again. */
  ghost predicate PendingIsCurrent(s: State) {
    s.pending.Stored? ==> s.track.dirty || s.pending == Stored(Snap(s.track))
  }

  ghost predicate OnlyHeldIsStored(s: State) {
    && Snap(s.track) in s.held
    && (s.pending.Stored? ==> s.pending.record in s.held)
    && (s.db.Stored? ==> s.db.record in s.held)
  }

  ghost predicate Run(ss: seq<State>, today: string) {
    ss != [] && Init(ss[0], today) && forall i :: 0 <= i < |ss| - 1 ==> Step(ss[i], ss[i + 1])
  }

  lemma StepKeeps(s: State, s': State)
    requires NothingForgotten(s) && PendingIsCurrent(s) && OnlyHeldIsStored(s) && Step(s, s')
    ensures NothingForgotten(s') && PendingIsCurrent(s') && OnlyHeldIsStored(s')
  {
  }

  lemma {:induction false} RunKeeps(ss: seq<State>, today: string, n: nat)
    requires Run(ss, today) && n < |ss|
    ensures NothingForgotten(ss[n]) && PendingIsCurrent(ss[n]) && OnlyHeldIsStored(ss[n])
  {
    if n > 0 {
      RunKeeps(ss, today, n - 1);
      assert Step(ss[n - 1], ss[n]);
      StepKeeps(ss[n - 1], ss[n]);
    }
  }

  /** Marked totals can be saved whenever no write is under way, and then a restart on the same day
      starts from them. */
  lemma SaveSurvivesRestart(s: State) returns (begun: State, saved: State, restarted: State)
    requires s.pending == Nothing && s.track.dirty
    ensures SaveBegins(s, begun) && SaveSucceeds(begun, saved) && Restart(saved, s.track.day, restarted)
    ensures !saved.track.dirty && saved.pending == Nothing
    ensures Snap(restarted.track) == Snap(saved.track) == Snap(s.track)
  {
    begun := s.(track := s.track.(dirty := false), pending := Stored(Snap(s.track)));
    saved := begun.(db := begun.pending, pending := Nothing);
    restarted := Restarted(saved, saved.db, s.track.day);
  }

  ghost function Restarted(s: State, db: Stored, today: string): State {
    var r := Restored(db, today);
    State(Track(today, r.rx, r.tx, map[], false), Nothing, db, s.held + {r})
  }

  /** Every outcome of a crash is covered: the old record, and in the middle of a write also the new
      one or none. */
  lemma CrashOutcomes(s: State, db: Stored, today: string)
    ensures (exists s' :: Restart(s, today, s') && s'.db == db)
            <==> db == s.db || (s.pending.Stored? && (db == s.pending || db == Nothing))
  {
    if db == s.db || (s.pending.Stored? && (db == s.pending || db == Nothing)) {
      assert Restart(s, today, Restarted(s, db, today));
    }
  }

  /** A restart at any point of any run brings back zero or totals the tracker really had on
      that day; and exactly the current ones if nothing is marked unsaved or being written. */
  lemma RestartRestores(ss: seq<State>, today: string, n: nat, day: string, s': State)
    requires Run(ss, today) && n < |ss| && Restart(ss[n], day, s')
    ensures Snap(s'.track) == Record(day, 0, 0) || (Snap(s'.track) in ss[n].held && Snap(s'.track).date == day)
    ensures !ss[n].track.dirty && ss[n].pending == Nothing && day == ss[n].track.day ==>
              Snap(s'.track) == Snap(ss[n].track)
  {
    RunKeeps(ss, today, n);
  }
}
