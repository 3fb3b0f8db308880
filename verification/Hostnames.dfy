/** Resolving a host name to a proxy endpoint (dynamicproxy/proxyRequestHandler.go, router.go,
    endpoints.go). */
module Hostnames {
  import opened GoStrings
  import opened GoTypes
  import GoSort

  datatype Endpoint = Endpoint(root: string, aliases: seq<string>, disabled: bool)

  /** The outcome of `filepath.Match`. */
  datatype MatchResult = BadPattern | Match | NoMatch

  function Wildcards(s: string): nat {
    Count(s, '*') + Count(s, '?')
  }

  /** More specific first: longer, then fewer wildcards, then lexicographic. */
  predicate MoreSpecific(a: string, b: string) {
    if |a| != |b| then |a| > |b|
    else if Wildcards(a) != Wildcards(b) then Wildcards(a) < Wildcards(b)
    else Less(a, b)
  }

  predicate EndpointLess(a: Endpoint, b: Endpoint) {
    MoreSpecific(a.root, b.root)
  }

  lemma MoreSpecificIsTotal(a: string, b: string)
    ensures MoreSpecific(a, b) ==> !MoreSpecific(b, a) && a != b
    ensures MoreSpecific(a, b) || a == b || MoreSpecific(b, a)
  {
    LessTotal(a, b);
    LessIrreflexive(a);
    if Less(a, b) { LessAsymmetric(a, b); }
  }

  lemma MoreSpecificIsTransitive(a: string, b: string, c: string)
    requires MoreSpecific(a, b) && MoreSpecific(b, c)
    ensures MoreSpecific(a, c)
  {
    if Less(a, b) && Less(b, c) { LessTransitive(a, b, c); }
  }

  lemma EndpointOrder()
    ensures GoSort.StrictWeakOrder(EndpointLess)
  {
    forall a: Endpoint, b: Endpoint | EndpointLess(a, b) ensures !EndpointLess(b, a) {
      MoreSpecificIsTotal(a.root, b.root);
    }
    forall a: Endpoint, b: Endpoint, c: Endpoint | !EndpointLess(a, b) && !EndpointLess(b, c)
      ensures !EndpointLess(a, c)
    {
      MoreSpecificIsTotal(a.root, b.root);
      MoreSpecificIsTotal(b.root, c.root);
      MoreSpecificIsTotal(a.root, c.root);
      if EndpointLess(a, c) {
        if b.root != a.root {
          MoreSpecificIsTransitive(b.root, a.root, c.root);
        }
      }
    }
  }

  /** What it means to come first, letter by letter: a longer root; among equally long ones fewer
      stars and question marks; among those the smaller byte where the two first differ. */
  ghost predicate Preferred(a: string, b: string) {
    var stars, others := multiset(a)['*'] + multiset(a)['?'], multiset(b)['*'] + multiset(b)['?'];
    || |a| > |b|
    || (|a| == |b| && stars < others)
    || (|a| == |b| && stars == others && exists n: nat :: SmallerAt(a, b, n))
  }

  lemma MoreSpecificIsPreferred(a: string, b: string)
    ensures MoreSpecific(a, b) <==> Preferred(a, b)
  {
    CountIsMultiplicity(a, '*');
    CountIsMultiplicity(a, '?');
    CountIsMultiplicity(b, '*');
    CountIsMultiplicity(b, '?');
    LessByFirstDifference(a, b);
  }

  class Router {
    /** `filepath.Match(pattern, name)` */
    const matcher: (string, string) -> MatchResult
    var endpoints: map<string, Endpoint>

    constructor (matcher: (string, string) -> MatchResult)
      ensures this.matcher == matcher && endpoints == map[] && Valid()
    {
      this.matcher, endpoints := matcher, map[];
    }

    /** Every endpoint is registered under its lower-cased root domain. */
    ghost predicate Valid()
      reads this
    {
      forall k :: k in endpoints ==> k == ToLower(endpoints[k].root)
    }

    /** `AddProxyRouteToRuntime`; `ready` is the load balancer's verdict on the upstreams. */
    method AddProxyRouteToRuntime(ep: Endpoint, origins: nat, ready: bool) returns (ok: bool)
      requires Valid()
      modifies this
      ensures Valid() && (ok <==> origins == 0 || ready)
      ensures endpoints == if ok then old(endpoints)[ToLower(ep.root) := ep] else old(endpoints)
    {
      var lookupHostname := ToLower(ep.root);
      if origins == 0 {
        endpoints := endpoints[lookupHostname := ep];
        return true;
      }
      if !ready {
        return false;
      }
      endpoints := endpoints[lookupHostname := ep];
      ok := true;
    }

    method Remove(ep: Endpoint)
      requires Valid()
      modifies this
      ensures Valid() && endpoints == old(endpoints) - {ToLower(ep.root)}
    {
      endpoints := endpoints - {ToLower(ep.root)};
    }

    method UpdateToRuntime(ep: Endpoint)
      requires Valid()
      modifies this
      ensures Valid() && endpoints == old(endpoints)[ToLower(ep.root) := ep]
    {
      endpoints := endpoints[ToLower(ep.root) := ep];
    }

    /** A bad root pattern disables the rule, a bad alias only itself. */
    predicate Matches(ep: Endpoint, hostname: string) {
      || matcher(ep.root, hostname).Match?
      || (matcher(ep.root, hostname).NoMatch?
          && exists i :: 0 <= i < |ep.aliases| && matcher(ep.aliases[i], hostname).Match?)
    }

    ghost predicate Candidate(ep: Endpoint, hostname: string)
      reads this
    {
      ep in endpoints.Values && !ep.disabled && Matches(ep, hostname)
    }

    /** What a lookup has to answer. No order of visiting the registry enters. */
    ghost predicate Resolves(hostname: string, answer: Option<Endpoint>)
      reads this
    {
      var key := ToLower(hostname);
      if key in endpoints && !endpoints[key].disabled then
        answer == Some(endpoints[key])
      else if exists ep :: Candidate(ep, key) then
        && answer.Some? && Candidate(answer.value, key)
        && forall ep :: Candidate(ep, key) && ep != answer.value ==> Preferred(answer.value.root, ep.root)
      else
        answer == if key in endpoints then Some(endpoints[key]) else None
    }

    /** The answer is determined by the registry. */
    lemma ResolutionIsUnique(hostname: string, a: Option<Endpoint>, b: Option<Endpoint>)
      requires Resolves(hostname, a) && Resolves(hostname, b)
      ensures a == b
    {
      if a.Some? && b.Some? && a != b {
        MoreSpecificIsTotal(a.value.root, b.value.root);
        MoreSpecificIsPreferred(a.value.root, b.value.root);
        MoreSpecificIsPreferred(b.value.root, a.value.root);
      }
    }

    /** Without an enabled exact hit no match has a longer root than the answer, none that is as
        long has fewer wildcards, and none that has as many differs first by a smaller byte. */
    lemma LongestRootWins(hostname: string, answer: Endpoint, ep: Endpoint)
      requires Resolves(hostname, Some(answer)) && Candidate(ep, ToLower(hostname))
      requires ToLower(hostname) in endpoints ==> endpoints[ToLower(hostname)].disabled
      ensures Candidate(answer, ToLower(hostname)) && |ep.root| <= |answer.root|
      ensures |ep.root| == |answer.root| ==> Wildcards(answer.root) <= Wildcards(ep.root)
      ensures |ep.root| == |answer.root| && Wildcards(answer.root) == Wildcards(ep.root) ==>
                ep == answer || exists n: nat :: SmallerAt(answer.root, ep.root, n)
    {
      MoreSpecificIsPreferred(answer.root, ep.root);
      LessByFirstDifference(answer.root, ep.root);
    }

    /** A disabled endpoint comes back only if no enabled one matches. */
    lemma DisabledOnlyAsLastResort(hostname: string, ep: Endpoint)
      requires Resolves(hostname, Some(ep)) && ep.disabled
      ensures forall other :: !Candidate(other, ToLower(hostname))
    {
    }

    method CheckEndpoint(ep: Endpoint, hostname: string) returns (hit: bool)
      ensures hit <==> Matches(ep, hostname)
    {
      var outcome := matcher(ep.root, hostname);
      if outcome.BadPattern? {
        return false;
      }
      if outcome.Match? {
        return true;
      }
      for i := 0 to |ep.aliases|
        invariant forall j :: 0 <= j < i ==> !matcher(ep.aliases[j], hostname).Match?
      {
        if matcher(ep.aliases[i], hostname).Match? {
          return true;
        }
      }
      hit := false;
    }

    /** `Range` over the registry, in whatever order, collecting the enabled matches. */
    method Collect(hostname: string) returns (found: seq<Endpoint>)
      requires Valid()
      ensures forall ep :: ep in found <==> Candidate(ep, hostname)
      ensures forall i, j :: 0 <= i < j < |found| ==> found[i].root != found[j].root
    {
      found := [];
      var rest := endpoints;
      while rest != map[]
        invariant forall k :: k in rest ==> k in endpoints && rest[k] == endpoints[k]
        invariant forall k :: k in endpoints && k !in rest && !endpoints[k].disabled && Matches(endpoints[k], hostname)
                              ==> endpoints[k] in found
        invariant forall ep :: ep in found ==> Candidate(ep, hostname) && ToLower(ep.root) !in rest
        invariant forall i, j :: 0 <= i < j < |found| ==> found[i].root != found[j].root
        decreases |rest|
      {
        var k :| k in rest;
        var ep := rest[k];
        assert (rest - {k}).Keys == rest.Keys - {k};
        if !ep.disabled {
          var hit := CheckEndpoint(ep, hostname);
          if hit {
            found := found + [ep];
          }
        }
        rest := rest - {k};
      }
    }

    method GetProxyEndpointFromHostname(hostname: string) returns (answer: Option<Endpoint>)
      requires Valid()
      ensures Resolves(hostname, answer)
    {
      var name := ToLower(hostname);
      answer := None;
      if name in endpoints {
        answer := Some(endpoints[name]);
        if !endpoints[name].disabled {
          return;
        }
      }
      var found := Collect(name);
      if |found| == 1 {
        answer := Some(found[0]);
      } else if |found| > 1 {
        EndpointOrder();
        var sorted := GoSort.SortSlice(found, EndpointLess);
        HeadIsBest(found, sorted);
        answer := Some(sorted[0]);
      }
      assert found == [] ==> forall ep :: !Candidate(ep, name);
    }

    lemma HeadIsBest(found: seq<Endpoint>, sorted: seq<Endpoint>)
      requires GoSort.Ordered(sorted, EndpointLess) && multiset(sorted) == multiset(found) && found != []
      requires forall i, j :: 0 <= i < j < |found| ==> found[i].root != found[j].root
      ensures sorted != [] && sorted[0] in found
      ensures forall ep :: ep in found && ep != sorted[0] ==> Preferred(sorted[0].root, ep.root)
    {
      assert |sorted| == |multiset(sorted)| == |found|;
      assert sorted[0] in multiset(found);
      forall ep | ep in found && ep != sorted[0] ensures Preferred(sorted[0].root, ep.root) {
        assert ep in multiset(sorted);
        var i :| 0 <= i < |sorted| && sorted[i] == ep;
        MoreSpecificIsTotal(sorted[0].root, ep.root);
        MoreSpecificIsPreferred(sorted[0].root, ep.root);
      }
    }
  }
}
