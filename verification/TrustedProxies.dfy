/** Trusted proxies and their pre-parsed CIDR cache (access/trustedProxy.go). */
module TrustedProxies {
  import opened Addresses
  import opened GoTypes

  datatype TrustedProxy = TrustedProxy(ip: string, desc: string)

  /** The entry `k` is a range that parses to `net`. */
  ghost predicate RangeEntry(proxies: map<string, TrustedProxy>, parse: string -> Option<Network>, k: string,
                             net: Network) {
    k in proxies && '/' in k && parse(k) == Some(net)
  }

  /** What `net.ParseIP` and `net.ParseCIDR` give if they give anything. */
  ghost predicate ParsersSized(parseIP: string -> Option<Bytes>, parseCIDR: string -> Option<Network>) {
    && (forall s :: parseIP(s).Some? ==> |parseIP(s).value| == 16)
    && (forall s :: parseCIDR(s).Some? ==> WellFormed(parseCIDR(s).value))
  }

  class Controller {
    /** `net.ParseIP` and `net.ParseCIDR`. */
    const parseIP: string -> Option<Bytes>
    const parseCIDR: string -> Option<Network>
    var trustedProxies: map<string, TrustedProxy>
    var trustedCIDRs: seq<Network>

    constructor (parseIP: string -> Option<Bytes>, parseCIDR: string -> Option<Network>)
      requires ParsersSized(parseIP, parseCIDR)
      ensures Valid() && trustedProxies == map[] && this.parseIP == parseIP && this.parseCIDR == parseCIDR
    {
      this.parseIP, this.parseCIDR, trustedProxies, trustedCIDRs := parseIP, parseCIDR, map[], [];
    }

    ghost predicate KeysMatch()
      reads `trustedProxies
    {
      forall k :: k in trustedProxies ==> trustedProxies[k].ip == k
    }

    /** The cache holds the ranges of the map, no more and no less. */
    ghost predicate Valid()
      reads this
    {
      && KeysMatch()
      && ParsersSized(parseIP, parseCIDR)
      && (forall net :: net in trustedCIDRs ==> exists k :: RangeEntry(trustedProxies, parseCIDR, k, net))
      && (forall k, net :: RangeEntry(trustedProxies, parseCIDR, k, net) ==> net in trustedCIDRs)
    }

    /** The answer without a cache: an exact entry, or a range entry with the address in its network. */
    ghost predicate Trusted(ip: string)
      reads `trustedProxies
    {
      && parseIP(ip).Some?
      && (|| ip in trustedProxies
          || exists k, net :: RangeEntry(trustedProxies, parseCIDR, k, net) && InNetwork(net, parseIP(ip).value))
    }

    method RebuildTrustedCIDRCache()
      requires KeysMatch() && ParsersSized(parseIP, parseCIDR)
      modifies `trustedCIDRs
      ensures Valid()
    {
      var cidrs: seq<Network> := [];
      var rest := trustedProxies;
      while rest != map[]
        invariant forall k :: k in rest ==> k in trustedProxies && rest[k] == trustedProxies[k]
        invariant forall net :: net in cidrs ==> exists k :: RangeEntry(trustedProxies, parseCIDR, k, net)
        invariant forall k, net :: RangeEntry(trustedProxies, parseCIDR, k, net) && k !in rest ==> net in cidrs
        decreases |rest|
      {
        var key :| key in rest;
        var proxy := rest[key];
        assert (rest - {key}).Keys == rest.Keys - {key};
        if '/' in proxy.ip && parseCIDR(proxy.ip).Some? {
          assert RangeEntry(trustedProxies, parseCIDR, key, parseCIDR(proxy.ip).value);
          cidrs := cidrs + [parseCIDR(proxy.ip).value];
        }
        rest := rest - {key};
      }
      label Collected:
      trustedCIDRs := cidrs;
      forall net | net in cidrs ensures exists k :: RangeEntry(trustedProxies, parseCIDR, k, net) {
        var k :| old@Collected(RangeEntry(trustedProxies, parseCIDR, k, net));
        assert RangeEntry(trustedProxies, parseCIDR, k, net);
      }
    }

    method IsTrustedProxy(ip: string) returns (trusted: bool)
      requires Valid()
      ensures trusted <==> Trusted(ip)
    {
      var parsedIP := parseIP(ip);
      if parsedIP.None? {
        return false;
      }
      if ip in trustedProxies {
        return true;
      }
      for i := 0 to |trustedCIDRs|
        invariant forall j :: 0 <= j < i ==> !InNetwork(trustedCIDRs[j], parsedIP.value)
      {
        assert trustedCIDRs[i] in trustedCIDRs;
        ContainsIff(trustedCIDRs[i], parsedIP.value);
        var contained := NetContains(trustedCIDRs[i], parsedIP.value);
        if contained {
          return true;
        }
      }
      trusted := false;
    }

    method AddTrustedProxy(ip: string, desc: string) returns (added: bool)
      requires Valid()
      modifies this
      ensures Valid() && (added <==> ip !in old(trustedProxies))
      ensures trustedProxies == if added then old(trustedProxies)[ip := TrustedProxy(ip, desc)] else old(trustedProxies)
    {
      added := ip !in trustedProxies;
      if added {
        trustedProxies := trustedProxies[ip := TrustedProxy(ip, desc)];
        RebuildTrustedCIDRCache();
      }
    }

    method RemoveTrustedProxy(ip: string) returns (removed: bool)
      requires Valid()
      modifies this
      ensures Valid() && (removed <==> ip in old(trustedProxies))
      ensures trustedProxies == old(trustedProxies) - {ip}
    {
      removed := ip in trustedProxies;
      if removed {
        trustedProxies := trustedProxies - {ip};
        RebuildTrustedCIDRCache();
      }
    }

    /** `None` is a file that could not be read, written or decoded: nothing changes. Entries
        are added to what is there, later ones replacing earlier ones. */
    method LoadTrustedProxies(loaded: Option<seq<TrustedProxy>>) returns (ok: bool)
      requires Valid()
      modifies this
      ensures Valid() && (ok <==> loaded.Some?)
      ensures trustedProxies ==
              if ok then Merged(old(trustedProxies), loaded.value, |loaded.value|) else old(trustedProxies)
    {
      if loaded.None? {
        return false;
      }
      for i := 0 to |loaded.value|
        invariant KeysMatch()
        invariant trustedProxies == Merged(old(trustedProxies), loaded.value, i)
      {
        trustedProxies := trustedProxies[loaded.value[i].ip := loaded.value[i]];
      }
      RebuildTrustedCIDRCache();
      ok := true;
    }
  }

  function Merged(m: map<string, TrustedProxy>, ps: seq<TrustedProxy>, n: nat): map<string, TrustedProxy>
    requires n <= |ps|
  {
    if n == 0 then m else Merged(m, ps, n - 1)[ps[n - 1].ip := ps[n - 1]]
  }

  /** The last loaded entry of a key takes its place; what was not loaded stays as it was. */
  lemma {:induction false} MergedEntry(m: map<string, TrustedProxy>, ps: seq<TrustedProxy>, n: nat, key: string)
    requires n <= |ps|
    ensures var after := Merged(m, ps, n);
            || (exists i :: 0 <= i < n && ps[i].ip == key && key in after && after[key] == ps[i]
                            && forall j :: i < j < n ==> ps[j].ip != key)
            || ((forall j :: 0 <= j < n ==> ps[j].ip != key)
                && (key in after <==> key in m) && (key in m ==> after[key] == m[key]))
  {
    if n > 0 {
      MergedEntry(m, ps, n - 1, key);
      assert ps[n - 1].ip == key ==> Merged(m, ps, n)[key] == ps[n - 1];
    }
  }

  /** `net.IPNet.Contains`, compared bit by bit. */
  method NetContains(net: Network, ip: Bytes) returns (contained: bool)
    ensures contained <==> IpNetContains(net, ip)
  {
    var bytes := Walked(net.ip);
    if bytes.None? {
      return false;
    }
    var prefixLen := MaskLength(net, |bytes.value|);
    var x := if To4(ip).Some? then To4(ip).value else ip;
    if |bytes.value| != |x| || prefixLen > 8 * |x| {
      return false;
    }
    for i := 0 to prefixLen
      invariant SameBits(bytes.value, x, i)
    {
      if BitAt(bytes.value, i) != BitAt(x, i) {
        return false;
      }
    }
    contained := true;
  }
}
