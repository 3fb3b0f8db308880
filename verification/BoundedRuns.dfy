/** What every run of capped increments keeps (statistic/bounded.go). */
module BoundedRuns {
  import opened BoundedCounter
  import opened GoTypes
  import opened MapSums

  /** How often `k` was really counted. */
  ghost function Occurrences(history: seq<string>, k: string): nat {
    if history == [] then 0
    else Occurrences(history[..|history| - 1], k) + if history[|history| - 1] == k then 1 else 0
  }

  /** What the trims took away from `k`. */
  ghost function Lost(trims: seq<Counts>, k: string): nat {
    if trims == [] then 0 else Lost(trims[..|trims| - 1], k) + Get(trims[|trims| - 1], k)
  }

  /** What the trims took away altogether. */
  ghost function LostInAll(trims: seq<Counts>): nat {
    if trims == [] then 0 else LostInAll(trims[..|trims| - 1]) + Sum(trims[|trims| - 1])
  }

  /** How many entries the trims took away. */
  ghost function Freed(trims: seq<Counts>): nat {
    if trims == [] then 0 else Freed(trims[..|trims| - 1]) + |trims[|trims| - 1]|
  }

  /** The cap holds from the first trim on; before, a restored map above it does not grow. Every
      entry was there at the start or inserted, and is there or was dropped. */
  ghost predicate SizesOk(capN: nat, m0: Counts, s: State) {
    && (|s.m| <= capN || (s.trims == [] && |s.m| <= |m0|))
    && |m0| + s.inserts == |s.m| + Freed(s.trims)
  }

  /** A trim frees this much, and more only if the restored map was above the cap. */
  ghost predicate TrimsOk(capN: nat, m0: Counts, s: State) {
    forall i :: 0 <= i < |s.trims| ==>
      && |s.trims[i]| >= capN + 1 - Target(capN)
      && (|m0| <= capN ==> |s.trims[i]| == capN + 1 - Target(capN))
  }

  ghost predicate KeyConserved(m0: Counts, s: State, k: string) {
    Get(m0, k) + Occurrences(s.history, k) == Get(s.m, k) + Lost(s.trims, k)
  }

  ghost predicate TotalConserved(m0: Counts, s: State) {
    Sum(m0) + |s.history| == Sum(s.m) + LostInAll(s.trims)
  }

  /** No count `c` was dropped unless `c * (target + 1)` is at most the sum of the restored counts
      plus the number of increments. */
  ghost predicate DroppedOk(capN: nat, m0: Counts, s: State) {
    forall i, k :: 0 <= i < |s.trims| && k in s.trims[i] ==>
      s.trims[i][k] * (Target(capN) + 1) <= Sum(m0) + |s.history|
  }

  ghost predicate Invariant(capN: nat, m0: Counts, s: State) {
    && SizesOk(capN, m0, s)
    && TrimsOk(capN, m0, s)
    && (forall k {:trigger KeyConserved(m0, s, k)} :: KeyConserved(m0, s, k))
    && TotalConserved(m0, s)
    && DroppedOk(capN, m0, s)
  }

  /** The states that incrementing `keys` one after the other leads through, from a restored map. */
  ghost predicate Run(capN: nat, m0: Counts, keys: seq<string>, ss: seq<State>) {
    && |ss| == |keys| + 1 && ss[0] == Start(m0)
    && forall i :: 0 <= i < |keys| ==> Step(capN, ss[i], keys[i], ss[i + 1])
  }

  lemma TargetIsBelowCap(capN: nat)
    requires capN > 0
    ensures 0 < Target(capN) <= capN
  {
  }

  /** Everything a trim drops counts at most its share: with the entries that stay, at least
      `target + 1` entries count that much. */
  lemma DroppedIsInfrequent(m: Counts, target: nat, kept: Counts, dropped: Counts, d: string)
    requires Trim(m, target, kept, dropped) && d in dropped
    ensures dropped[d] * (target + 1) <= Sum(m)
  {
    SumSplit(m, kept, dropped);
    SumAtLeast(kept, dropped[d]);
    SumRemove(dropped, d);
    Distribute(target, dropped[d]);
  }

  lemma TrimSizes(m: Counts, target: nat, kept: Counts, dropped: Counts)
    requires Trim(m, target, kept, dropped)
    ensures |m| == target + |dropped|
  {
    assert m.Keys == kept.Keys + dropped.Keys;
  }

  lemma OccurrencesStep(history: seq<string>, key: string, k: string)
    ensures Occurrences(history + [key], k) == Occurrences(history, k) + if key == k then 1 else 0
  {
  }

  lemma LostStep(trims: seq<Counts>, dropped: Counts, k: string)
    ensures Lost(trims + [dropped], k) == Lost(trims, k) + Get(dropped, k)
    ensures LostInAll(trims + [dropped]) == LostInAll(trims) + Sum(dropped)
    ensures Freed(trims + [dropped]) == Freed(trims) + |dropped|
  {
  }

  /** The one step that evicts. */
  ghost predicate TrimStep(capN: nat, s: State, key: string, s': State, dropped: Counts) {
    && key !in s.m && |s.m[key := 1]| > capN
    && Trim(s.m[key := 1], Target(capN), s'.m, dropped)
    && s' == State(s'.m, s.history + [key], s.inserts + 1, s.trims + [dropped])
  }

  lemma TrimKeepsSizes(capN: nat, m0: Counts, s: State, key: string, s': State, dropped: Counts)
    requires capN > 0 && SizesOk(capN, m0, s) && TrimStep(capN, s, key, s', dropped)
    ensures SizesOk(capN, m0, s') && s'.trims != []
    ensures |dropped| == |s.m| + 1 - Target(capN) >= capN + 1 - Target(capN)
    ensures |m0| <= capN ==> |s.m| == capN
  {
    TargetIsBelowCap(capN);
    TrimSizes(s.m[key := 1], Target(capN), s'.m, dropped);
    LostStep(s.trims, dropped, key);
  }

  lemma TrimKeepsTrims(capN: nat, m0: Counts, s: State, key: string, s': State, dropped: Counts)
    requires capN > 0 && SizesOk(capN, m0, s) && TrimsOk(capN, m0, s) && TrimStep(capN, s, key, s', dropped)
    ensures TrimsOk(capN, m0, s')
  {
    TrimKeepsSizes(capN, m0, s, key, s', dropped);
  }

  /** So the entries freed are at least that many times the trims, and exactly that many if every
      trim frees just so much. */
  lemma {:induction false} FreedBound(trims: seq<Counts>, least: nat)
    requires forall i :: 0 <= i < |trims| ==> |trims[i]| >= least
    ensures |trims| * least <= Freed(trims)
    ensures (forall i :: 0 <= i < |trims| ==> |trims[i]| == least) ==> |trims| * least == Freed(trims)
  {
    if trims != [] {
      var n := |trims| - 1;
      FreedBound(trims[..n], least);
      Distribute(n, least);
    }
  }

  lemma TrimKeepsKey(capN: nat, m0: Counts, s: State, key: string, s': State, dropped: Counts, k: string)
    requires KeyConserved(m0, s, k) && TrimStep(capN, s, key, s', dropped)
    ensures KeyConserved(m0, s', k)
  {
  }

  lemma TrimKeepsTotal(capN: nat, m0: Counts, s: State, key: string, s': State, dropped: Counts)
    requires TotalConserved(m0, s) && TrimStep(capN, s, key, s', dropped)
    ensures TotalConserved(m0, s') && Sum(s.m[key := 1]) <= Sum(m0) + |s'.history|
  {
    LostStep(s.trims, dropped, "");
    SumPut(s.m, key, 1);
    SumSplit(s.m[key := 1], s'.m, dropped);
  }

  lemma TrimKeepsDropped(capN: nat, m0: Counts, s: State, key: string, s': State, dropped: Counts)
    requires TotalConserved(m0, s) && DroppedOk(capN, m0, s) && TrimStep(capN, s, key, s', dropped)
    ensures DroppedOk(capN, m0, s')
  {
    TrimKeepsTotal(capN, m0, s, key, s', dropped);
    forall i, k | 0 <= i < |s'.trims| && k in s'.trims[i]
      ensures s'.trims[i][k] * (Target(capN) + 1) <= Sum(m0) + |s'.history|
    {
      if i == |s.trims| {
        DroppedIsInfrequent(s.m[key := 1], Target(capN), s'.m, dropped, k);
      }
    }
  }

  lemma TrimKeeps(capN: nat, m0: Counts, s: State, key: string, s': State, dropped: Counts)
    requires capN > 0 && Invariant(capN, m0, s) && TrimStep(capN, s, key, s', dropped)
    ensures Invariant(capN, m0, s')
  {
    TrimKeepsSizes(capN, m0, s, key, s', dropped);
    TrimKeepsTrims(capN, m0, s, key, s', dropped);
    TrimKeepsTotal(capN, m0, s, key, s', dropped);
    TrimKeepsDropped(capN, m0, s, key, s', dropped);
    forall k ensures KeyConserved(m0, s', k) {
      assert KeyConserved(m0, s, k);
      TrimKeepsKey(capN, m0, s, key, s', dropped, k);
    }
  }

  /** A step that only counts. */
  ghost predicate CountStep(s: State, key: string, s': State) {
    s' == State(s.m[key := Get(s.m, key) + 1], s.history + [key], s.inserts + (if key in s.m then 0 else 1), s.trims)
  }

  lemma CountKeepsSizes(capN: nat, m0: Counts, s: State, key: string, s': State)
    requires SizesOk(capN, m0, s) && CountStep(s, key, s') && (key in s.m || |s'.m| <= capN)
    ensures SizesOk(capN, m0, s')
  {
  }

  lemma CountKeepsKey(m0: Counts, s: State, key: string, s': State, k: string)
    requires KeyConserved(m0, s, k) && CountStep(s, key, s')
    ensures KeyConserved(m0, s', k)
  {
    OccurrencesStep(s.history, key, k);
  }

  lemma CountKeepsTotal(m0: Counts, s: State, key: string, s': State)
    requires TotalConserved(m0, s) && CountStep(s, key, s')
    ensures TotalConserved(m0, s')
  {
    SumPut(s.m, key, Get(s.m, key) + 1);
  }

  lemma CountKeeps(capN: nat, m0: Counts, s: State, key: string, s': State)
    requires Invariant(capN, m0, s) && CountStep(s, key, s') && (key in s.m || |s'.m| <= capN)
    ensures Invariant(capN, m0, s')
  {
    CountKeepsSizes(capN, m0, s, key, s');
    CountKeepsTotal(m0, s, key, s');
    forall k ensures KeyConserved(m0, s', k) {
      assert KeyConserved(m0, s, k);
      CountKeepsKey(m0, s, key, s', k);
    }
  }

  lemma StepKinds(capN: nat, s: State, key: string, s': State)
    requires Step(capN, s, key, s')
    ensures || (CountStep(s, key, s') && (key in s.m || |s'.m| <= capN))
            || (exists dropped :: TrimStep(capN, s, key, s', dropped))
  {
    if key !in s.m && |s.m[key := 1]| > capN {
      var dropped :| Trim(s.m[key := 1], Target(capN), s'.m, dropped) && s'.trims == s.trims + [dropped];
      assert TrimStep(capN, s, key, s', dropped);
    }
  }

  lemma StepKeeps(capN: nat, m0: Counts, s: State, key: string, s': State)
    requires capN > 0 && Invariant(capN, m0, s) && Step(capN, s, key, s')
    ensures Invariant(capN, m0, s')
  {
    StepKinds(capN, s, key, s');
    if dropped :| TrimStep(capN, s, key, s', dropped) {
      TrimKeeps(capN, m0, s, key, s', dropped);
    } else {
      CountKeeps(capN, m0, s, key, s');
    }
  }

  /** In every state of every run from a restored map: it is within the cap, or was above it at the
      start and has not grown; counts are conserved key by key and in all; the inserts pay for the
      trims; and nothing frequent was dropped. */
  lemma {:induction false} RunKeeps(capN: nat, m0: Counts, keys: seq<string>, ss: seq<State>, n: nat)
    requires capN > 0 && Run(capN, m0, keys, ss) && n < |ss|
    ensures Invariant(capN, m0, ss[n])
  {
    if n > 0 {
      RunKeeps(capN, m0, keys, ss, n - 1);
      StepKeeps(capN, m0, ss[n - 1], keys[n - 1], ss[n]);
    }
  }

  lemma {:induction false} HistoryIsKeys(capN: nat, m0: Counts, keys: seq<string>, ss: seq<State>, n: nat)
    requires Run(capN, m0, keys, ss) && n < |ss|
    ensures ss[n].history == keys[..n]
  {
    if n > 0 {
      HistoryIsKeys(capN, m0, keys, ss, n - 1);
      assert Step(capN, ss[n - 1], keys[n - 1], ss[n]);
    }
  }

  /** A key whose stored count times `target + 1` exceeds the restored counts plus the increments so
      far outlives the next step, and with its count. */
  lemma FrequentKeySurvives(capN: nat, m0: Counts, s: State, key: string, s': State, k: string)
    requires TotalConserved(m0, s) && Step(capN, s, key, s')
    requires k in s.m && s.m[k] * (Target(capN) + 1) > Sum(m0) + |s'.history|
    ensures k in s'.m && s'.m[k] == s.m[k] + if k == key then 1 else 0
  {
    StepKinds(capN, s, key, s');
    if dropped :| TrimStep(capN, s, key, s', dropped) {
      TrimKeepsTotal(capN, m0, s, key, s', dropped);
      FrequentIsKept(s.m[key := 1], Target(capN), s'.m, dropped, k, Sum(m0) + |s'.history|);
    }
  }

  lemma FrequentIsKept(m: Counts, target: nat, kept: Counts, dropped: Counts, k: string, bound: nat)
    requires Trim(m, target, kept, dropped) && k in m && Sum(m) <= bound && m[k] * (target + 1) > bound
    ensures k in kept && kept[k] == m[k]
  {
    if k in dropped {
      DroppedIsInfrequent(m, target, kept, dropped, k);
    }
  }

  lemma TrimsCost(capN: nat, m0: Counts, s: State)
    requires capN > 0 && SizesOk(capN, m0, s) && TrimsOk(capN, m0, s)
    ensures |s.trims| * (capN + 1 - Target(capN)) + |s.m| <= |m0| + s.inserts
    ensures |m0| <= capN ==> |s.trims| * (capN + 1 - Target(capN)) + |s.m| == |m0| + s.inserts
  {
    TargetIsBelowCap(capN);
    FreedBound(s.trims, capN + 1 - Target(capN));
  }

  /** What callers of the dashboard may rely on: a stored count is never too high, and the number
      of trims is at most the number of restored and new keys divided by what one trim frees. */
  lemma CountsAndCost(capN: nat, m0: Counts, keys: seq<string>, ss: seq<State>, k: string)
    requires capN > 0 && Run(capN, m0, keys, ss)
    ensures var s := ss[|keys|];
            && |s.m| <= Max(|m0|, capN)
            && Get(s.m, k) <= Get(m0, k) + Occurrences(keys, k)
            && Sum(s.m) + LostInAll(s.trims) == Sum(m0) + |keys|
            && |s.trims| * (capN + 1 - Target(capN)) + |s.m| <= |m0| + s.inserts
            && (|m0| <= capN ==> |s.trims| * (capN + 1 - Target(capN)) + |s.m| == |m0| + s.inserts)
            && (s.trims == [] ==> Get(s.m, k) == Get(m0, k) + Occurrences(keys, k))
  {
    RunKeeps(capN, m0, keys, ss, |keys|);
    HistoryIsKeys(capN, m0, keys, ss, |keys|);
    assert KeyConserved(m0, ss[|keys|], k);
    TrimsCost(capN, m0, ss[|keys|]);
    assert keys[..|keys|] == keys;
  }

  /** In a run a trim starts from exactly one entry more than the cap, or, if it is the first and the
      restored map was above the cap, one more than that map had. So the reconciling branch of the
      eviction is never taken. The trim leaves exactly the target: nine tenths of the cap, rounded
      down, but one entry at least. */
  lemma TrimStartsAboveCap(capN: nat, m0: Counts, s: State, key: string, s': State)
    requires capN > 0 && Invariant(capN, m0, s) && Step(capN, s, key, s')
    requires s'.trims != s.trims
    ensures |s.m[key := 1]| == 1 + (if s.trims == [] then Max(|m0|, capN) else capN) > Target(capN)
    ensures |s'.m| == Target(capN)
    ensures if capN < 2 then |s'.m| == 1 else 10 * |s'.m| <= 9 * capN < 10 * (|s'.m| + 1)
    ensures |s'.trims| == |s.trims| + 1 && |s'.trims[|s.trims|]| == |s.m| + 1 - Target(capN)
  {
    TargetIsBelowCap(capN);
    var dropped :| Trim(s.m[key := 1], Target(capN), s'.m, dropped) && s'.trims == s.trims + [dropped];
    TrimSizes(s.m[key := 1], Target(capN), s'.m, dropped);
  }
}
