/** Walking through a range of addresses (ipscan/ipscan.go). */
module IpScan {
  import opened Addresses
  import opened GoTypes

  /** The next address, carrying from the last byte; all ones are followed by all zeros. */
  function Next(ip: Bytes): (r: Bytes)
    ensures |r| == |ip|
  {
    if ip == [] then []
    else
      var n := |ip| - 1;
      if ip[n] == 255 then Next(ip[..n]) + [0] else ip[..n] + [ip[n] + 1]
  }

  /** `inc`: the carry loop, in place. */
  method Inc(ip: array<byte>)
    modifies ip
    ensures ip[..] == Next(old(ip[..]))
  {
    ghost var before := ip[..];
    var j := ip.Length - 1;
    assert before[..j + 1] == before;
    while j >= 0
      invariant -1 <= j < ip.Length
      invariant ip[..j + 1] == before[..j + 1]
      invariant Next(before) == Next(before[..j + 1]) + ip[j + 1..]
    {
      var last := before[..j + 1];
      assert last[..j] == before[..j];
      assert ip[j] == before[..j + 1][j];
      if ip[j] == 255 {
        ip[j] := 0;
        assert ip[j..] == [0] + ip[j + 1..];
        assert Next(last) == Next(before[..j]) + [0];
      } else {
        ip[j] := ip[j] + 1;
        assert ip[..] == ip[..j] + [ip[j]] + ip[j + 1..];
        return;
      }
      j := j - 1;
    }
  }

  predicate AllOnes(ip: Bytes) {
    forall i :: 0 <= i < |ip| ==> ip[i] == 255
  }

  lemma {:induction false} AllOnesIsGreatest(ip: Bytes)
    ensures AllOnes(ip) <==> Value(ip) == PowerOf256(|ip|) - 1
  {
    if ip != [] {
      var n := |ip| - 1;
      AllOnesIsGreatest(ip[..n]);
      assert AllOnes(ip) <==> AllOnes(ip[..n]) && ip[n] == 255;
    }
  }

  /** `inc` adds one to the big-endian value, modulo 256^n. */
  lemma {:induction false} NextIsPlusOne(ip: Bytes)
    ensures Value(Next(ip)) == if AllOnes(ip) then 0 else Value(ip) + 1
  {
    if ip != [] {
      var n := |ip| - 1;
      NextIsPlusOne(ip[..n]);
      assert AllOnes(ip) <==> AllOnes(ip[..n]) && ip[n] == 255;
      if ip[n] == 255 {
        assert Next(ip)[..n] == Next(ip[..n]);
      } else {
        assert Next(ip)[..n] == ip[..n];
      }
    }
  }

  /** The address after `k` rounds. */
  function After(ip: Bytes, k: nat): (r: Bytes)
    ensures |r| == |ip|
  {
    if k == 0 then ip else Next(After(ip, k - 1))
  }

  /** The first `n` addresses from `start` on. */
  function Walk(start: Bytes, n: nat): (r: seq<Bytes>)
    ensures |r| == n
  {
    if n == 0 then [] else Walk(start, n - 1) + [After(start, n - 1)]
  }

  lemma {:induction false} RoundsCount(ip: Bytes, k: nat)
    requires Value(ip) + k < PowerOf256(|ip|)
    ensures Value(After(ip, k)) == Value(ip) + k
  {
    if k > 0 {
      RoundsCount(ip, k - 1);
      AllOnesIsGreatest(After(ip, k - 1));
      NextIsPlusOne(After(ip, k - 1));
    }
  }

  predicate AtMost(a: Bytes, b: Bytes)
    requires |a| == |b|
  {
    !BytesLess(b, a)
  }

  /** How many addresses there are from `start` to `end`. */
  function Size(start: Bytes, end: Bytes): int {
    Value(end) - Value(start) + 1
  }

  /** All ones end a range that nothing is beyond; any other end is passed after as many rounds as
      there are addresses, and not before. */
  lemma RoundsLeft(start: Bytes, end: Bytes, k: nat)
    requires |start| == |end|
    ensures AllOnes(end) ==> AtMost(After(start, k), end)
    ensures !AllOnes(end) && k <= Size(start, end) ==>
              Value(After(start, k)) == Value(start) + k && (AtMost(After(start, k), end) <==> k < Size(start, end))
  {
    AllOnesIsGreatest(end);
    OrderIsNumeric(end, After(start, k));
    if !AllOnes(end) && k <= Size(start, end) {
      RoundsCount(start, k);
    }
  }

  /** The first `n` rounds all pass the test. */
  ghost predicate AllAtMost(start: Bytes, end: Bytes, n: nat)
    requires |start| == |end|
  {
    n == 0 || (AllAtMost(start, end, n - 1) && AtMost(After(start, n - 1), end))
  }

  lemma {:induction false} StoppedBefore(start: Bytes, end: Bytes, n: nat, i: nat)
    requires |start| == |end| && AllAtMost(start, end, n) && !AtMost(After(start, i), end)
    ensures n <= i
  {
    if n > 0 {
      StoppedBefore(start, end, n - 1, i);
    }
  }

  /** Where the loop stands after `n` rounds that all passed the test. */
  lemma RoundsSoFar(start: Bytes, end: Bytes, n: nat)
    requires |start| == |end| && AtMost(start, end)
    requires AllAtMost(start, end, n)
    ensures AtMost(After(start, n), end) <==> AllOnes(end) || n < Size(start, end)
    ensures !AllOnes(end) ==> n <= Size(start, end)
  {
    OrderIsNumeric(end, start);
    RoundsLeft(start, end, n);
    if !AllOnes(end) {
      RoundsLeft(start, end, Size(start, end));
      StoppedBefore(start, end, n, Size(start, end));
    }
  }

  /** One round's step from the `n`-th address to the next. */
  method Advance(ip: array<byte>, ghost start: Bytes, ghost n: nat)
    requires ip[..] == After(start, n)
    modifies ip
    ensures ip[..] == After(start, n + 1)
  {
    Inc(ip);
  }

  /** The loop of `ScanIpRange`, watched for at most `rounds` rounds. `ipStart` itself is advanced.
      The loop has come to its end exactly if the range does not end in all ones and there were
      rounds enough; by then it has visited as many addresses as there are from start to end. */
  method VisitRange(ipStart: array<byte>, ipEnd: Bytes, rounds: nat) returns (visited: seq<Bytes>, stopped: bool)
    requires ipStart.Length == |ipEnd|
    requires AtMost(ipStart[..], ipEnd)
    modifies ipStart
    ensures stopped <==> !AllOnes(ipEnd) && Size(old(ipStart[..]), ipEnd) <= rounds
    ensures |visited| == if stopped then Size(old(ipStart[..]), ipEnd) else rounds
    ensures ipStart[..] == After(old(ipStart[..]), |visited|)
    ensures visited == Walk(old(ipStart[..]), |visited|)
  {
    visited := [];
    ghost var start := ipStart[..];
    while AtMost(ipStart[..], ipEnd) && |visited| < rounds
      invariant |visited| <= rounds
      invariant ipStart[..] == After(start, |visited|)
      invariant visited == Walk(start, |visited|)
      invariant AllAtMost(start, ipEnd, |visited|)
      decreases rounds - |visited|
    {
      visited := visited + [ipStart[..]];
      Advance(ipStart, start, |visited| - 1);
    }
    RoundsSoFar(start, ipEnd, |visited|);
    stopped := !AtMost(ipStart[..], ipEnd);
  }

  /** These are the addresses from start to end, each once and in order. */
  lemma {:induction false} VisitedInOrder(start: Bytes, end: Bytes, n: nat, i: nat)
    requires |start| == |end| && i < n <= Size(start, end)
    ensures |Walk(start, n)[i]| == |start| && Value(Walk(start, n)[i]) == Value(start) + i
  {
    if i == n - 1 {
      RoundsCount(start, i);
    } else {
      VisitedInOrder(start, end, n - 1, i);
    }
  }

  datatype Scan = InvalidAddress | InvalidRange | Running | Visited(addresses: seq<Bytes>)

  /** `ScanIpRange` up to the probing of hosts, watched for at most `rounds` rounds. Parsed addresses
      all have 16 bytes. */
  method ScanIpRange(start: Option<array<byte>>, end: Option<Bytes>, rounds: nat) returns (scan: Scan)
    requires start.Some? ==> start.value.Length == 16
    requires end.Some? ==> |end.value| == 16
    modifies if start.Some? then {start.value} else {}
    ensures scan.InvalidAddress? <==> start.None? || end.None?
    ensures start.Some? && end.Some? ==>
              (scan.InvalidRange? <==> Value(end.value) < Value(old(start.value[..])))
    ensures scan.Running? || scan.Visited? ==>
              (scan.Running? <==> AllOnes(end.value) || rounds < Size(old(start.value[..]), end.value))
    ensures scan.Visited? ==>
              && |scan.addresses| == Size(old(start.value[..]), end.value)
              && forall i :: 0 <= i < |scan.addresses| ==>
                   |scan.addresses[i]| == 16 && Value(scan.addresses[i]) == Value(old(start.value[..])) + i
  {
    if start.None? || end.None? {
      return InvalidAddress;
    }
    OrderIsNumeric(end.value, start.value[..]);
    if BytesLess(end.value, start.value[..]) {
      return InvalidRange;
    }
    var visited, stopped := VisitRange(start.value, end.value, rounds);
    scan := if stopped then Visited(visited) else Running;
    ghost var first := old(start.value[..]);
    forall i | stopped && 0 <= i < |visited| ensures |visited[i]| == 16 && Value(visited[i]) == Value(first) + i {
      VisitedInOrder(first, end.value, |visited|, i);
    }
  }

  /** The loop comes to an end if and only if the end of the range is not all ones: after
      ffff:ffff:ffff:ffff:ffff:ffff:ffff:ffff the address wraps to zero and the test never fails.
      An IPv4 range is never affected, since its end is parsed to 16 bytes that begin with zeros. */
  lemma StopsIff(start: Bytes, end: Bytes)
    requires |start| == |end| && AtMost(start, end)
    ensures (exists k: nat :: !AtMost(After(start, k), end)) <==> !AllOnes(end)
  {
    OrderIsNumeric(end, start);
    if AllOnes(end) {
      forall k: nat ensures AtMost(After(start, k), end) {
        RoundsLeft(start, end, k);
      }
    } else {
      var k: nat := Size(start, end);
      RoundsLeft(start, end, k);
      assert !AtMost(After(start, k), end);
    }
  }
}
