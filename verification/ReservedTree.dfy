/** The binary radix tree of reserved CIDR ranges (geodb/specialRange.go). */
module ReservedTree {
  import opened Addresses
  import opened GoTypes

  /** A bit string, read from the root of the tree downwards. */
  datatype Path = Top | Step(parent: Path, bit: Bit) {
    function Length(): nat {
      if Top? then 0 else parent.Length() + 1
    }

    predicate PrefixOf(p: Path) {
      this == p || (p.Step? && PrefixOf(p.parent))
    }
  }

  /** The first `n` bits of an address. */
  function PathTo(bytes: Bytes, n: nat): (p: Path)
    requires n <= 8 * |bytes|
    ensures p.Length() == n
  {
    if n == 0 then Top else Step(PathTo(bytes, n - 1), BitAt(bytes, n - 1))
  }

  function FullPath(bytes: Bytes): Path {
    PathTo(bytes, 8 * |bytes|)
  }

  lemma {:induction false} PrefixMeansEqualBits(a: Bytes, n: nat, b: Bytes, m: nat)
    requires n <= 8 * |a| && n <= m <= 8 * |b|
    ensures PathTo(a, n).PrefixOf(PathTo(b, m)) <==> PathTo(a, n) == PathTo(b, n)
    ensures PathTo(a, n) == PathTo(b, n) <==> SameBits(a, b, n)
  {
    if n < m {
      PrefixMeansEqualBits(a, n, b, m - 1);
    } else {
      EqualPathsMeanEqualBits(a, b, n);
      if PathTo(a, n).PrefixOf(PathTo(b, n)) {
        PrefixIsNotLonger(PathTo(a, n), PathTo(b, n));
      }
    }
  }

  lemma {:induction false} EqualPathsMeanEqualBits(a: Bytes, b: Bytes, n: nat)
    requires n <= 8 * |a| && n <= 8 * |b|
    ensures PathTo(a, n) == PathTo(b, n) <==> SameBits(a, b, n)
  {
    if n > 0 {
      EqualPathsMeanEqualBits(a, b, n - 1);
    }
  }

  lemma PrefixIsNotLonger(p: Path, q: Path)
    requires p.PrefixOf(q)
    ensures p.Length() <= q.Length() && (p.Length() == q.Length() ==> p == q)
  {
  }

  /** Two prefixes of one path that have one length are one path. */
  lemma PrefixesOfOneLength(p: Path, q: Path, full: Path)
    requires p.PrefixOf(full) && q.PrefixOf(full) && p.Length() == q.Length()
    ensures p == q
  {
    PrefixIsNotLonger(p, full);
    PrefixIsNotLonger(q, full);
    if p != full && q != full {
      PrefixesOfOneLength(p, q, full.parent);
    }
  }

  // ---------------------------------------------------------------- specification

  /** Zone stored at `p` or, failing that, at the nearest path above it. */
  function Lookup(m: map<Path, string>, p: Path): string {
    if p in m then m[p]
    else if p.Top? then ""
    else Lookup(m, p.parent)
  }

  function LookupAbove(m: map<Path, string>, p: Path): string {
    if p.Top? then "" else Lookup(m, p.parent)
  }

  /** Store `zone` at `key`; the empty zone reads as "no entry". */
  function Put(m: map<Path, string>, key: Path, zone: string): map<Path, string> {
    if zone == "" then m - {key} else m[key := zone]
  }

  lemma PutChangesOne(m: map<Path, string>, key: Path, zone: string)
    ensures forall q :: q != key ==> (q in Put(m, key, zone) <==> q in m)
    ensures forall q :: q != key && q in m ==> Put(m, key, zone)[q] == m[q]
    ensures key in Put(m, key, zone) <==> zone != ""
    ensures zone != "" ==> Put(m, key, zone)[key] == zone
  {
  }

  /** The path `insert` follows; it stops early when the bytes run out. */
  function KeyOf(net: Network): Path
    requires Walked(net.ip).Some?
  {
    var bytes := Walked(net.ip).value;
    PathTo(bytes, Min(net.prefixLen, 8 * |bytes|))
  }

  // ---------------------------------------------------------------- the tree

  class Node {
    var children: seq<Node?>
    var zoneName: string
    var prefixLen: nat
    /** Where in its tree the node stands. */
    ghost const path: Path

    constructor (ghost path: Path)
      ensures children == [null, null] && zoneName == "" && prefixLen == 0 && this.path == path
    {
      children, zoneName, prefixLen := [null, null], "", 0;
      this.path := path;
    }
  }

  class RadixTree {
    var root: Node
    /** Every node of the tree under the path that leads to it. */
    ghost var nodes: map<Path, Node>
    ghost var repr: set<Node>
    /** The zones stored in the tree, by path. */
    ghost var contents: map<Path, string>

    ghost function Slot(p: Path): Node?
      reads this
    {
      if p in nodes then nodes[p] else null
    }

    ghost function ZoneAt(p: Path): string
      reads this
    {
      if p in contents then contents[p] else ""
    }

    ghost predicate NodeOk(p: Path)
      requires p in nodes
      reads this, repr
    {
      var n := nodes[p];
      && n in repr
      && n.path == p
      && n.zoneName == ZoneAt(p)
      && |n.children| == 2
      && n.children[0] == Slot(Step(p, 0))
      && n.children[1] == Slot(Step(p, 1))
      && (p.Step? ==> p.parent in nodes)
    }

    ghost predicate Valid()
      reads this, repr
    {
      && Top in nodes && nodes[Top] == root
      && (forall p {:trigger NodeOk(p)} :: p in nodes ==> NodeOk(p))
      && (forall p :: p in contents ==> p in nodes && contents[p] != "")
    }

    constructor ()
      ensures Valid() && fresh(repr)
      ensures contents == map[]
    {
      root := new Node(Top);
      new;
      nodes, repr, contents := map[Top := root], {root}, map[];
    }

    /** One step down, creating the child if it is missing. */
    method Descend(ghost p: Path, current: Node, bit: Bit) returns (next: Node)
      requires Valid() && p in nodes && nodes[p] == current
      modifies `nodes, `repr, current
      ensures Valid() && fresh(repr - old(repr))
      ensures Step(p, bit) in nodes && nodes[Step(p, bit)] == next && next in repr
    {
      assert NodeOk(p);
      if current.children[bit] == null {
        var child := new Node(Step(p, bit));
        current.children := current.children[bit := child];
        nodes, repr := nodes[Step(p, bit) := child], repr + {child};
        forall q | q in nodes ensures NodeOk(q) {
          if q in old(nodes) {
            assert old(NodeOk(q));
          } else {
            forall b: Bit ensures Step(q, b) !in nodes {
              assert Step(q, b) in old(nodes) ==> old(NodeOk(Step(q, b)));
            }
          }
        }
      }
      next := current.children[bit];
      assert NodeOk(Step(p, bit));
    }

    /** Marks the node at `p`. */
    method Mark(ghost p: Path, node: Node, zone: string, prefixLen: nat)
      requires Valid() && p in nodes && nodes[p] == node
      modifies node, `contents
      ensures Valid()
      ensures contents == Put(old(contents), p, zone)
      ensures nodes == old(nodes) && node.prefixLen == prefixLen
    {
      assert NodeOk(p);
      node.zoneName := zone;
      node.prefixLen := prefixLen;
      contents := Put(contents, p, zone);
      PutChangesOne(old(contents), p, zone);
      forall q | q in nodes ensures NodeOk(q) {
        assert old(NodeOk(q));
        assert ZoneAt(q) == if q == p then zone else old(ZoneAt(q));
      }
    }

    /** The loop of `insert`: walks down along the prefix, creating what is missing. */
    method Grow(ipBytes: Bytes, prefixLen: nat) returns (current: Node)
      requires Valid()
      modifies this, repr
      ensures Valid() && fresh(repr - old(repr))
      ensures contents == old(contents)
      ensures var key := PathTo(ipBytes, Min(prefixLen, 8 * |ipBytes|));
              key in nodes && nodes[key] == current && current in repr
    {
      current := root;
      assert NodeOk(Top);
      var bitPos := 0;
      while bitPos < prefixLen
        invariant Valid() && fresh(repr - old(repr))
        invariant bitPos <= Min(prefixLen, 8 * |ipBytes|)
        invariant PathTo(ipBytes, bitPos) in nodes && nodes[PathTo(ipBytes, bitPos)] == current
        invariant current in repr
        invariant contents == old(contents)
      {
        var byteIdx := bitPos / 8;
        if byteIdx >= |ipBytes| {
          break;
        }
        current := Descend(PathTo(ipBytes, bitPos), current, BitAt(ipBytes, bitPos));
        bitPos := bitPos + 1;
      }
    }

    /** `insert` after parsing; `None` is text that does not parse. */
    method Insert(cidr: Option<Network>, zone: string)
      requires Valid()
      modifies this, repr
      ensures Valid() && fresh(repr - old(repr))
      ensures contents == if cidr.None? || Walked(cidr.value.ip).None? then old(contents)
                            else Put(old(contents), KeyOf(cidr.value), zone)
      ensures cidr.Some? && Walked(cidr.value.ip).Some? ==>
                KeyOf(cidr.value) in nodes && nodes[KeyOf(cidr.value)].prefixLen == cidr.value.prefixLen
    {
      if cidr.None? || Walked(cidr.value.ip).None? {
        return;
      }
      var node := Grow(Walked(cidr.value.ip).value, cidr.value.prefixLen);
      Mark(KeyOf(cidr.value), node, zone, cidr.value.prefixLen);
    }

    /** `insert` of an entry that parses. */
    method InsertEntry(e: Entry)
      requires Valid()
      modifies this, repr
      ensures Valid() && fresh(repr - old(repr))
      ensures contents == old(contents)[KeyOf(e.net) := e.zone]
    {
      Insert(Some(e.net), e.zone);
    }

    /** Below a missing node nothing is stored. */
    lemma NothingBelow(q: Path, p: Path)
      requires Valid() && q !in nodes && q.PrefixOf(p)
      ensures p !in nodes && LookupAbove(contents, q) == Lookup(contents, p)
    {
      if q != p {
        NothingBelow(q, p.parent);
      }
      assert p in nodes ==> NodeOk(p);
    }

    method Search(ip: Bytes) returns (zone: string)
      requires Valid()
      ensures zone == Lookup(contents, FullPath(Walked(ip).GetOr([])))
    {
      var ipBytes := Walked(ip).GetOr([]);
      var current: Node? := root;
      zone := "";
      var bitPos := 0;
      while bitPos < 8 * |ipBytes| && current != null
        invariant bitPos <= 8 * |ipBytes|
        invariant current == Slot(PathTo(ipBytes, bitPos))
        invariant zone == LookupAbove(contents, PathTo(ipBytes, bitPos))
        decreases 8 * |ipBytes| - bitPos
      {
        assert NodeOk(PathTo(ipBytes, bitPos));
        if current.zoneName != "" {
          zone := current.zoneName;
        }
        var bit := BitAt(ipBytes, bitPos);
        current := current.children[bit];
        bitPos := bitPos + 1;
      }
      if current != null && current.zoneName != "" {
        zone := current.zoneName;
      }
      if current != null {
        assert NodeOk(FullPath(ipBytes));
      } else {
        PrefixMeansEqualBits(ipBytes, bitPos, ipBytes, 8 * |ipBytes|);
        NothingBelow(PathTo(ipBytes, bitPos), FullPath(ipBytes));
      }
    }
  }

  // ---------------------------------------------------------------- longest prefix match

  /** Section 5.1 of RFC 4632: `r` is stored under a prefix of `p` and no longer prefix is
      stored, or nothing that is stored is a prefix and `r` is empty. */
  ghost predicate IsLongestMatch(m: map<Path, string>, p: Path, r: string) {
    || (r == "" && forall q :: q in m ==> !q.PrefixOf(p))
    || (exists q :: q in m && q.PrefixOf(p) && m[q] == r
                    && forall k :: k in m && k.PrefixOf(p) ==> k.Length() <= q.Length())
  }

  lemma {:induction false} LookupFinds(m: map<Path, string>, p: Path)
    ensures IsLongestMatch(m, p, Lookup(m, p))
  {
    if p in m {
      forall k | k in m && k.PrefixOf(p) ensures k.Length() <= p.Length() {
        PrefixIsNotLonger(k, p);
      }
    } else if p.Step? {
      LookupFinds(m, p.parent);
    }
  }

  /** `search` computes the longest match and nothing else does. */
  lemma LookupIsLongestMatch(m: map<Path, string>, p: Path, r: string)
    ensures r == Lookup(m, p) <==> IsLongestMatch(m, p, r)
  {
    LookupFinds(m, p);
    forall q, k | q in m && k in m && q.PrefixOf(p) && k.PrefixOf(p) && q.Length() == k.Length()
      ensures q == k
    {
      PrefixesOfOneLength(q, k, p);
    }
  }

  // ---------------------------------------------------------------- many inserts

  datatype ReservedRange = ReservedRange(net: Network, zone: string)

  /** A table entry: its address has 4 or 16 bytes and its zone has a name. */
  type Entry = r: ReservedRange | Walked(r.net.ip).Some? && r.zone != ""
    witness ReservedRange(Network([10, 0, 0, 0], 8), "Private")

  /** An entry as the tree sees it. */
  datatype Stored = Stored(key: Path, zone: string)

  function AsStored(es: seq<Entry>): (ss: seq<Stored>)
    ensures |ss| == |es|
  {
    seq(|es|, i requires 0 <= i < |es| => Stored(KeyOf(es[i].net), es[i].zone))
  }

  /** The map after the first `n` inserts. */
  function StoreFirst(ss: seq<Stored>, n: nat): map<Path, string>
    requires n <= |ss|
  {
    if n == 0 then map[] else StoreFirst(ss, n - 1)[ss[n - 1].key := ss[n - 1].zone]
  }

  function StoreAll(ss: seq<Stored>): map<Path, string> {
    StoreFirst(ss, |ss|)
  }

  /** Among the first `n` inserts, insert `i` is the last one under `p`. */
  ghost predicate LastUnder(ss: seq<Stored>, n: nat, p: Path, i: nat)
    requires n <= |ss|
  {
    i < n && ss[i].key == p && forall j :: i < j < n ==> ss[j].key != p
  }

  lemma {:induction false} StoredUnder(ss: seq<Stored>, n: nat, p: Path)
    requires n <= |ss|
    ensures p in StoreFirst(ss, n) ==> exists i: nat :: LastUnder(ss, n, p, i) && StoreFirst(ss, n)[p] == ss[i].zone
    ensures p !in StoreFirst(ss, n) ==> forall i :: 0 <= i < n ==> ss[i].key != p
  {
    if n > 0 {
      StoredUnder(ss, n - 1, p);
      if ss[n - 1].key == p {
        assert LastUnder(ss, n, p, n - 1);
      } else if p in StoreFirst(ss, n - 1) {
        var i: nat :| LastUnder(ss, n - 1, p, i) && StoreFirst(ss, n - 1)[p] == ss[i].zone;
        assert LastUnder(ss, n, p, i);
      }
    }
  }

  /** Insert `i` has to answer for address `p`: its key is a prefix of `p`, no other inserted
      prefix of `p` is longer, and no later insert repeats the key. */
  ghost predicate Answers(ss: seq<Stored>, p: Path, i: nat) {
    && i < |ss|
    && ss[i].key.PrefixOf(p)
    && LastUnder(ss, |ss|, ss[i].key, i)
    && forall j :: 0 <= j < |ss| && ss[j].key.PrefixOf(p) ==>
                     ss[j].key.Length() <= ss[i].key.Length()
  }

  /** After any run of inserts a lookup answers with the longest inserted prefix, the last
      insert winning among equal ones, or "" when no inserted prefix matches. */
  lemma LookupAfterInserts(ss: seq<Stored>, p: Path)
    ensures || (exists i: nat :: Answers(ss, p, i) && Lookup(StoreAll(ss), p) == ss[i].zone)
            || (Lookup(StoreAll(ss), p) == "" && forall i :: 0 <= i < |ss| ==> !ss[i].key.PrefixOf(p))
    ensures forall i: nat :: Answers(ss, p, i) ==> Lookup(StoreAll(ss), p) == ss[i].zone
  {
    var m := StoreAll(ss);
    LookupFinds(m, p);
    forall i | 0 <= i < |ss| ensures ss[i].key in m {
      StoredUnder(ss, |ss|, ss[i].key);
    }
    if q :| q in m && q.PrefixOf(p) && m[q] == Lookup(m, p)
            && forall k :: k in m && k.PrefixOf(p) ==> k.Length() <= q.Length() {
      StoredUnder(ss, |ss|, q);
      var i: nat :| LastUnder(ss, |ss|, q, i) && m[q] == ss[i].zone;
      assert Answers(ss, p, i);
      forall j: nat | Answers(ss, p, j) ensures j == i {
        PrefixesOfOneLength(ss[j].key, q, p);
      }
    }
  }

  ghost predicate DistinctKeys(ss: seq<Stored>) {
    forall i, j :: 0 <= i < j < |ss| ==> ss[i].key != ss[j].key
  }

  /** Go walks the table of reserved ranges in an arbitrary order. With distinct prefixes the
      order leaves no trace. */
  lemma InsertOrderIsIrrelevant(ss: seq<Stored>, ts: seq<Stored>)
    requires DistinctKeys(ss) && DistinctKeys(ts)
    requires forall s: Stored :: s in ss <==> s in ts
    ensures StoreAll(ss) == StoreAll(ts)
  {
    forall p
      ensures p in StoreAll(ss) <==> p in StoreAll(ts)
      ensures p in StoreAll(ss) && p in StoreAll(ts) ==> StoreAll(ss)[p] == StoreAll(ts)[p]
    {
      StoredUnder(ss, |ss|, p);
      StoredUnder(ts, |ts|, p);
      if i: nat :| LastUnder(ss, |ss|, p, i) {
        assert ss[i] in ts;
      }
      if j: nat :| LastUnder(ts, |ts|, p, j) {
        assert ts[j] in ss;
      }
    }
  }
}
