/** Keeping secondary listeners in step with the endpoints (dynamicproxy/dynamicproxy.go). */
module Listeners {
  import opened GoStrings

  datatype Endpoint = Endpoint(disabled: bool, listeningPorts: seq<string>)

  /** A secondary HTTP server; its stop channel, once written to, shuts it down. */
  class Server {
    const addr: string
    var stopped: bool

    constructor (addr: string)
      ensures this.addr == addr && !stopped
    {
      this.addr, stopped := addr, false;
    }
  }

  /** The endpoint asks for the address: one of its ports is that address once trimmed. */
  predicate Listens(ep: Endpoint, addr: string) {
    !ep.disabled && addr != "" && exists i :: 0 <= i < |ep.listeningPorts| && TrimSpace(ep.listeningPorts[i]) == addr
  }

  predicate Asks(endpoints: map<string, Endpoint>, domain: string, addr: string) {
    domain in endpoints && Listens(endpoints[domain], addr)
  }

  /** Some enabled endpoint asks for the address. */
  ghost predicate Wanted(endpoints: map<string, Endpoint>, addr: string) {
    exists domain :: Asks(endpoints, domain, addr)
  }

  type PortMap = map<string, seq<string>>

  predicate Named(ports: PortMap, addr: string, domain: string) {
    addr in ports && domain in ports[addr]
  }

  /** The addresses asked for, each with exactly the domains that ask for it. */
  ghost predicate Lists(ports: PortMap, endpoints: map<string, Endpoint>) {
    && (forall addr :: addr in ports ==> ports[addr] != [])
    && (forall addr, domain {:trigger Named(ports, addr, domain)} {:trigger Asks(endpoints, domain, addr)} ::
          Named(ports, addr, domain) <==> Asks(endpoints, domain, addr))
  }

  lemma ListedIsWanted(ports: PortMap, endpoints: map<string, Endpoint>, addr: string)
    requires Lists(ports, endpoints)
    ensures addr in ports <==> Wanted(endpoints, addr)
  {
    if addr in ports {
      assert Named(ports, addr, ports[addr][0]);
    }
    if domain :| Asks(endpoints, domain, addr) {
      assert Named(ports, addr, domain);
    }
  }

  /** Adds `domain` under every address that `ep` asks for. */
  method AddPorts(before: PortMap, domain: string, ep: Endpoint) returns (ports: PortMap)
    requires !ep.disabled && forall addr :: addr in before ==> before[addr] != []
    ensures forall addr :: addr in ports ==> ports[addr] != []
    ensures forall addr, d {:trigger Named(ports, addr, d)} {:trigger Named(before, addr, d)} ::
              Named(ports, addr, d) <==> Named(before, addr, d) || (d == domain && Listens(ep, addr))
  {
    ports := before;
    for i := 0 to |ep.listeningPorts|
      invariant forall addr :: addr in ports ==> ports[addr] != []
      invariant forall addr, d {:trigger Named(ports, addr, d)} {:trigger Named(before, addr, d)} ::
                  Named(ports, addr, d) <==> Named(before, addr, d) || (d == domain && ListensFirst(ep, i, addr))
    {
      ghost var prior := ports;
      var port := TrimSpace(ep.listeningPorts[i]);
      if port != "" {
        var domains := if port in ports then ports[port] else [];
        ports := ports[port := domains + [domain]];
      }
      forall addr, d
        ensures Named(ports, addr, d) <==> Named(before, addr, d) || (d == domain && ListensFirst(ep, i + 1, addr))
      {
        assert Named(prior, addr, d) <==> Named(before, addr, d) || (d == domain && ListensFirst(ep, i, addr));
        assert ListensFirst(ep, i + 1, addr) <==> ListensFirst(ep, i, addr) || (port != "" && port == addr);
      }
    }
  }

  /** One of the first `n` ports is that address once trimmed. */
  predicate ListensFirst(ep: Endpoint, n: nat, addr: string)
    requires n <= |ep.listeningPorts|
  {
    addr != "" && exists i :: 0 <= i < n && TrimSpace(ep.listeningPorts[i]) == addr
  }

  lemma ListsGrows(before: PortMap, done: map<string, Endpoint>, domain: string, ep: Endpoint, ports: PortMap)
    requires Lists(before, done) && domain !in done
    requires forall addr :: addr in ports ==> ports[addr] != []
    requires forall addr, d {:trigger Named(ports, addr, d)} {:trigger Named(before, addr, d)} ::
               Named(ports, addr, d) <==> Named(before, addr, d) || (d == domain && Listens(ep, addr))
    ensures Lists(ports, done[domain := ep])
  {
  }

  class Router {
    var endpoints: map<string, Endpoint>
    var running: bool
    /** The main server, the TLS listener or the redirector exists. */
    var mainUp: bool
    var secondaryServers: map<string, Server>
    var secondaryStopChans: map<string, Server>

    /** Every live server runs under its own address, and its stop channel stops it. */
    ghost predicate Valid()
      reads this, secondaryServers.Values
    {
      && secondaryStopChans == secondaryServers
      && forall addr :: addr in secondaryServers ==>
           secondaryServers[addr].addr == addr && !secondaryServers[addr].stopped
    }

    constructor ()
      ensures Valid() && endpoints == map[] && !running && !mainUp && secondaryServers == map[]
    {
      endpoints, running, mainUp, secondaryServers, secondaryStopChans := map[], false, false, map[], map[];
    }

    method GetCommonListeningPorts() returns (ports: PortMap)
      ensures Lists(ports, endpoints)
    {
      ports := map[];
      var rest := endpoints;
      ghost var done: map<string, Endpoint> := map[];
      while rest != map[]
        invariant forall d :: d in endpoints <==> d in rest || d in done
        invariant forall d :: d in rest ==> d !in done
        invariant forall d :: d in rest ==> rest[d] == endpoints[d]
        invariant forall d :: d in done ==> d in endpoints && done[d] == endpoints[d]
        invariant Lists(ports, done)
        decreases |rest|
      {
        var domain :| domain in rest;
        var ep := rest[domain];
        assert (rest - {domain}).Keys == rest.Keys - {domain};
        ghost var before := ports;
        if !ep.disabled {
          ports := AddPorts(ports, domain, ep);
        }
        ListsGrows(before, done, domain, ep, ports);
        done := done[domain := ep];
        rest := rest - {domain};
      }
      assert done == endpoints;
    }

    method StartOne(addr: string) returns (server: Server)
      requires Valid() && addr !in secondaryServers
      modifies `secondaryServers, `secondaryStopChans
      ensures Valid() && fresh(server) && secondaryServers == old(secondaryServers)[addr := server]
    {
      server := new Server(addr);
      secondaryServers := secondaryServers[addr := server];
      secondaryStopChans := secondaryStopChans[addr := server];
    }

    method StopOne(addr: string)
      requires Valid() && addr in secondaryServers
      modifies `secondaryServers, `secondaryStopChans, secondaryServers[addr]
      ensures Valid() && secondaryServers == old(secondaryServers) - {addr}
      ensures old(secondaryServers[addr]).stopped
    {
      if addr in secondaryStopChans {
        secondaryStopChans[addr].stopped := true;
      }
      secondaryServers := secondaryServers - {addr};
      secondaryStopChans := secondaryStopChans - {addr};
    }

    method StartMissing(addrs: set<string>)
      requires Valid()
      modifies `secondaryServers, `secondaryStopChans
      ensures Valid()
      ensures forall addr :: addr in secondaryServers <==> addr in old(secondaryServers) || addr in addrs
      ensures forall addr :: addr in old(secondaryServers) ==> secondaryServers[addr] == old(secondaryServers[addr])
      ensures forall addr :: addr in secondaryServers && addr !in old(secondaryServers) ==>
                fresh(secondaryServers[addr])
    {
      var rest := addrs;
      while rest != {}
        invariant Valid()
        invariant forall addr :: addr in rest ==> addr in addrs
        invariant forall addr :: addr in old(secondaryServers) ==>
                    addr in secondaryServers && secondaryServers[addr] == old(secondaryServers[addr])
        invariant forall addr :: addr in secondaryServers && addr !in old(secondaryServers) ==>
                    addr in addrs && fresh(secondaryServers[addr])
        invariant forall addr :: addr in addrs && addr !in rest ==> addr in secondaryServers
        decreases |rest|
      {
        var addr :| addr in rest;
        rest := rest - {addr};
        if addr !in secondaryServers {
          var server := StartOne(addr);
        }
      }
    }

    /** Starts a server for every address asked for that has none. */
    method StartSecondaryListeners()
      requires Valid()
      modifies `secondaryServers, `secondaryStopChans
      ensures Valid()
      ensures forall addr :: addr in secondaryServers <==> addr in old(secondaryServers) || Wanted(endpoints, addr)
      ensures forall addr :: addr in old(secondaryServers) ==> secondaryServers[addr] == old(secondaryServers[addr])
      ensures forall addr :: addr in secondaryServers && addr !in old(secondaryServers) ==>
                fresh(secondaryServers[addr])
    {
      var ports := GetCommonListeningPorts();
      StartMissing(ports.Keys);
      forall addr ensures addr in ports.Keys <==> Wanted(endpoints, addr) {
        ListedIsWanted(ports, endpoints, addr);
      }
    }

    /** Stops the servers whose address is not in `ports`. */
    method StopUnwanted(ports: PortMap)
      requires Valid()
      modifies `secondaryServers, `secondaryStopChans, secondaryServers.Values
      ensures Valid()
      ensures forall addr :: addr in secondaryServers <==> addr in old(secondaryServers) && addr in ports
      ensures forall addr :: addr in secondaryServers ==> secondaryServers[addr] == old(secondaryServers[addr])
      ensures forall addr :: addr in old(secondaryServers) ==>
                (old(secondaryServers[addr]).stopped <==> addr !in ports)
    {
      var rest := secondaryServers.Keys;
      while rest != {}
        invariant rest <= secondaryServers.Keys <= old(secondaryServers.Keys)
        invariant forall addr :: addr in old(secondaryServers) && addr !in rest ==>
                    (addr in secondaryServers <==> addr in ports)
        invariant Valid()
        invariant forall addr :: addr in secondaryServers ==> secondaryServers[addr] == old(secondaryServers[addr])
        invariant forall addr :: addr in old(secondaryServers) ==>
                    (old(secondaryServers[addr]).stopped <==> addr !in secondaryServers)
        decreases |rest|
      {
        var addr :| addr in rest;
        rest := rest - {addr};
        if addr !in ports {
          StopOne(addr);
        }
      }
    }

    /** `UpdateSecondaryListeners`: afterwards exactly the addresses asked for are live, one
        that was live and is still asked for kept its server, every other was stopped. */
    method UpdateSecondaryListeners()
      requires Valid()
      modifies `secondaryServers, `secondaryStopChans, secondaryServers.Values
      ensures Valid()
      ensures !running ==> secondaryServers == old(secondaryServers)
      ensures running ==> forall addr :: addr in secondaryServers <==> Wanted(endpoints, addr)
      ensures running ==> forall addr :: addr in old(secondaryServers) && Wanted(endpoints, addr) ==>
                secondaryServers[addr] == old(secondaryServers[addr])
      ensures running ==> forall addr :: addr in old(secondaryServers) ==>
                (old(secondaryServers[addr]).stopped <==> !Wanted(endpoints, addr))
      ensures running ==> forall addr :: addr in secondaryServers && addr !in old(secondaryServers) ==>
                fresh(secondaryServers[addr])
    {
      if !running {
        return;
      }
      var ports := GetCommonListeningPorts();
      forall addr ensures addr in ports <==> Wanted(endpoints, addr) {
        ListedIsWanted(ports, endpoints, addr);
      }
      StopUnwanted(ports);
      StartSecondaryListeners();
    }

    /** `StopProxyService`: an error, and no change, if nothing runs. */
    method StopProxyService() returns (ok: bool)
      requires Valid()
      modifies this, secondaryServers.Values
      ensures Valid() && endpoints == old(endpoints)
      ensures ok <==> old(mainUp) || old(secondaryServers) != map[]
      ensures ok ==> !running && !mainUp && secondaryServers == map[]
                     && forall addr :: addr in old(secondaryServers) ==> old(secondaryServers[addr]).stopped
      ensures !ok ==> running == old(running) && secondaryServers == old(secondaryServers)
    {
      if !mainUp && |secondaryServers| == 0 {
        return false;
      }
      StopUnwanted(map[]);
      mainUp, running := false, false;
      secondaryServers, secondaryStopChans := map[], map[];
      ok := true;
    }
  }
}
