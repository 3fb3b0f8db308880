/** Counter maps with a soft cap and least-frequent eviction (statistic/bounded.go). */
module BoundedCounter {
  import GoSort

  import opened MapSums

  // ---------------------------------------------------------------- specification

  /** How many entries a trim leaves: 90% of the cap, rounded down, but at least one. */
  function Target(capN: nat): nat {
    if capN * 9 / 10 < 1 then 1 else capN * 9 / 10
  }

  /** `m` falls apart into `target` kept entries and dropped ones that count no more. Nothing is
      said about which of several equal counts goes. */
  ghost predicate Trim(m: Counts, target: nat, kept: Counts, dropped: Counts) {
    && Splits(m, kept, dropped)
    && |kept| == target
    && forall k, d :: k in kept && d in dropped ==> dropped[d] <= kept[k]
  }

  /** A counter map with its past: every increment, and what each trim dropped. */
  datatype State = State(m: Counts, history: seq<string>, inserts: nat, trims: seq<Counts>)

  /** Where a run starts: on a map that was restored, or on the empty one. */
  function Start(m0: Counts): State {
    State(m0, [], 0, [])
  }

  ghost predicate Step(capN: nat, s: State, key: string, s': State) {
    && s'.history == s.history + [key]
    && if key in s.m then
         s'.m == s.m[key := s.m[key] + 1] && s'.inserts == s.inserts && s'.trims == s.trims
       else
         && s'.inserts == s.inserts + 1
         && if |s.m[key := 1]| <= capN then
              s'.m == s.m[key := 1] && s'.trims == s.trims
            else
              exists dropped :: Trim(s.m[key := 1], Target(capN), s'.m, dropped) && s'.trims == s.trims + [dropped]
  }

  // ---------------------------------------------------------------- the code

  datatype Entry = Entry(key: string, count: nat)

  predicate CountLess(a: Entry, b: Entry) {
    a.count < b.count
  }

  ghost predicate Lists(es: seq<Entry>, m: Counts) {
    && |es| == |m|
    && (forall e :: e in es ==> e.key in m && m[e.key] == e.count)
    && (forall i, j :: 0 <= i < j < |es| ==> es[i].key != es[j].key)
  }

  /** `Range`: visits every entry once, in no particular order. */
  method Entries(m: Counts) returns (es: seq<Entry>)
    ensures Lists(es, m)
  {
    es := [];
    var rest := m;
    while rest != map[]
      invariant |es| + |rest| == |m|
      invariant forall k :: k in rest ==> k in m && rest[k] == m[k]
      invariant forall e :: e in es ==> e.key in m && m[e.key] == e.count && e.key !in rest
      invariant forall i, j :: 0 <= i < j < |es| ==> es[i].key != es[j].key
      decreases |rest|
    {
      var k :| k in rest;
      es := es + [Entry(k, rest[k])];
      assert (rest - {k}).Keys == rest.Keys - {k};
      rest := rest - {k};
    }
  }

  /** Equal entries at two places count twice. */
  lemma CountedTwice(fs: seq<Entry>, i: nat, j: nat)
    requires i < j < |fs| && fs[i] == fs[j]
    ensures multiset(fs)[fs[i]] >= 2
  {
    var front, back := fs[..j], fs[j..];
    assert fs == front + back;
    assert front[i] == fs[i] && fs[i] in multiset(front);
    assert back[0] == fs[j] && fs[j] in multiset(back);
  }

  lemma PermutedEntries(es: seq<Entry>, fs: seq<Entry>)
    requires multiset(es) == multiset(fs)
    ensures |fs| == |es| && forall e :: e in fs ==> e in es
  {
    assert |fs| == |multiset(fs)| == |es|;
    forall e | e in fs ensures e in es {
      assert e in multiset(fs);
    }
  }

  lemma PermutedList(es: seq<Entry>, fs: seq<Entry>, m: Counts)
    requires Lists(es, m) && multiset(es) == multiset(fs)
    ensures Lists(fs, m)
  {
    PermutedEntries(es, fs);
    forall i, j | 0 <= i < j < |fs| ensures fs[i].key != fs[j].key {
      if fs[i].key == fs[j].key {
        assert fs[i] in fs && fs[j] in fs;
        CountedTwice(fs, i, j);
        AtMostOnce(es, fs[i]);
      }
    }
  }

  lemma {:induction false} AtMostOnce(es: seq<Entry>, e: Entry)
    requires forall i, j :: 0 <= i < j < |es| ==> es[i].key != es[j].key
    ensures multiset(es)[e] <= 1
  {
    if es != [] {
      var n := |es| - 1;
      assert es == es[..n] + [es[n]];
      AtMostOnce(es[..n], e);
      if es[n] == e {
        assert e !in es[..n];
      }
    }
  }

  lemma ListSize(es: seq<Entry>, m: Counts, n: nat)
    requires Lists(es, m) && n <= |es|
    ensures |FrontKeys(es, n)| == n
  {
    if n > 0 {
      ListSize(es, m, n - 1);
      var k := es[n - 1].key;
      assert k !in FrontKeys(es, n - 1);
      assert FrontKeys(es, n) == FrontKeys(es, n - 1) + {es[n - 1].key};
    }
  }

  class BoundedMap {
    var m: Counts
    var size: int
    /** Only for the specification. */
    ghost var history: seq<string>
    ghost var inserts: nat
    ghost var trims: seq<Counts>

    ghost function Now(): State
      reads this
    {
      State(m, history, inserts, trims)
    }

    ghost predicate Valid()
      reads this
    {
      size == |m|
    }

    /** A map with the size counter of `newBoundedCounter(len(m))`; a new day starts on the empty
        one. */
    constructor (m0: Counts)
      ensures Valid() && Now() == Start(m0)
    {
      m, size := m0, |m0|;
      history, inserts, trims := [], 0, [];
    }

    /** `boundedIncr`, one call at a time. */
    method Incr(key: string, capN: nat)
      requires Valid() && capN > 0
      modifies this
      ensures Valid()
      ensures Step(capN, old(Now()), key, Now())
    {
      history := history + [key];
      if key in m {
        m := m[key := m[key] + 1];
        return;
      }
      m := m[key := 1];
      inserts := inserts + 1;
      size := size + 1;
      if size <= capN {
        return;
      }
      EvictLeastFrequent(capN);
    }

    /** `evictLeastFrequent`. With at most the target left it only reconciles the size. */
    method EvictLeastFrequent(capN: nat)
      requires Valid()
      modifies `m, `size, `trims
      ensures Valid()
      ensures |old(m)| <= Target(capN) ==> m == old(m) && trims == old(trims)
      ensures |old(m)| > Target(capN) ==>
                exists dropped :: Trim(old(m), Target(capN), m, dropped) && trims == old(trims) + [dropped]
    {
      var entries := Entries(m);
      var target := capN * 9 / 10;
      if target < 1 {
        target := 1;
      }
      if |entries| <= target {
        size := |entries|;
        return;
      }
      var sorted := GoSort.SortSlice(entries, CountLess);
      PermutedList(entries, sorted, m);
      var evictCount := |entries| - target;
      DeleteFront(sorted, evictCount);
      size := size - evictCount;
    }

    /** Deletes the first `n` entries of a list that is ascending by count. */
    method DeleteFront(es: seq<Entry>, n: nat)
      requires Lists(es, m) && GoSort.Ordered(es, CountLess) && n <= |es|
      modifies `m, `trims
      ensures |m| == |old(m)| - n
      ensures exists dropped :: Trim(old(m), |es| - n, m, dropped) && trims == old(trims) + [dropped]
    {
      ghost var all := m;
      for i := 0 to n
        invariant m == all - FrontKeys(es, i)
        invariant trims == old(trims)
      {
        DeleteNext(es, all, i);
        m := m - {es[i].key};
      }
      FrontIsTrim(es, all, n);
      trims := trims + [Front(es, all, n)];
    }
  }

  ghost function FrontKeys(es: seq<Entry>, n: nat): set<string>
    requires n <= |es|
  {
    set i | 0 <= i < n :: es[i].key
  }

  ghost function Front(es: seq<Entry>, all: Counts, n: nat): Counts
    requires n <= |es|
  {
    map k | k in all && k in FrontKeys(es, n) :: all[k]
  }

  lemma DeleteNext(es: seq<Entry>, all: Counts, i: nat)
    requires i < |es|
    ensures all - FrontKeys(es, i) - {es[i].key} == all - FrontKeys(es, i + 1)
  {
  }

  lemma SizeWithout(m: Counts, ks: set<string>)
    requires ks <= m.Keys
    ensures |m - ks| == |m| - |ks|
  {
  }

  lemma FrontKeysKnown(es: seq<Entry>, all: Counts, n: nat)
    requires Lists(es, all) && n <= |es|
    ensures FrontKeys(es, n) <= all.Keys
  {
  }

  lemma FrontSize(es: seq<Entry>, all: Counts, n: nat)
    requires Lists(es, all) && n <= |es|
    ensures |all - FrontKeys(es, n)| == |es| - n
  {
    ListSize(es, all, n);
    FrontKeysKnown(es, all, n);
    SizeWithout(all, FrontKeys(es, n));
  }

  lemma FrontIsTrim(es: seq<Entry>, all: Counts, n: nat)
    requires Lists(es, all) && GoSort.Ordered(es, CountLess) && n <= |es|
    ensures |all - FrontKeys(es, n)| == |es| - n
    ensures Trim(all, |es| - n, all - FrontKeys(es, n), Front(es, all, n))
  {
    FrontSize(es, all, n);
    FrontSplits(all, FrontKeys(es, n));
    var kept, dropped := all - FrontKeys(es, n), Front(es, all, n);
    forall k, d | k in kept && d in dropped ensures dropped[d] <= kept[k] {
      FrontCountsLess(es, all, n, k, d);
    }
  }

  /** Any set of keys splits a map. */
  lemma FrontSplits(all: Counts, ks: set<string>)
    ensures Splits(all, all - ks, map k | k in all && k in ks :: all[k])
  {
  }

  lemma FrontCountsLess(es: seq<Entry>, all: Counts, n: nat, k: string, d: string)
    requires Lists(es, all) && GoSort.Ordered(es, CountLess) && n <= |es|
    requires k in all && k !in FrontKeys(es, n) && d in FrontKeys(es, n)
    ensures d in all && all[d] <= all[k]
  {
    ListSize(es, all, |es|);
    FrontKeysKnown(es, all, |es|);
    SubsetOfSameSize(FrontKeys(es, |es|), all.Keys);
    var i :| 0 <= i < |es| && es[i].key == k;
    var j :| 0 <= j < n && es[j].key == d;
    assert es[i] in es && es[j] in es;
  }
}
