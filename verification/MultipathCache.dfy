/** The path cache over whole runs: lookups in two lock sections, with topology updates anywhere in between. */
module MultipathCache {
  import opened Common
  import opened ShortestPaths
  import opened MultipathPaths
  import opened MultipathTopology
  import opened MultipathDijkstra
  import opened MultipathKPaths

  // ---------- What a cached path must be ----------

  ghost predicate Hop(links: set<OlsrLink>, a: nat, b: nat) {
    exists l :: l in links && l.src.addr == a && l.dst.addr == b
  }

  function Prior(s: nat, p: seq<nat>, i: nat): nat
    requires i < |p|
  {
    if i == 0 then s else p[i - 1]
  }

  /** p leads from s over existing links, omits s and visits no node twice. */
  ghost predicate IsPath(links: set<OlsrLink>, s: nat, p: seq<nat>) {
    && (forall i :: 0 <= i < |p| ==> Hop(links, Prior(s, p, i), p[i]))
    && s !in p && Distinct(p)
  }

  predicate EndsAt(s: nat, p: seq<nat>, d: nat) {
    d == if p == [] then s else p[|p| - 1]
  }

  /** path_hops is the length of the buffer; its first pad entries were never written. */
  ghost predicate CachedPath(links: set<OlsrLink>, s: nat, p: OlsrPath, pad: nat) {
    && p.pathHops == |p.path| && pad <= |p.path|
    && (forall i :: 0 <= i < pad ==> p.path[i] == 0)
    && IsPath(links, s, p.path[pad..])
  }

  /** What the ring of an entry says about the topology: conf paths to its destination, or none when it cannot be
      reached. */
  ghost predicate RingTrue(nodes: set<OlsrNode>, links: set<OlsrLink>, s: nat, d: nat, ring: seq<OlsrPath>, conf: nat,
                           pad: nat)
  {
    && (forall p :: p in ring ==> CachedPath(links, s, p, pad))
    && (d in Addrs(nodes) ==> forall p :: p in ring ==> pad <= |p.path| && EndsAt(s, p.path[pad..], d))
    && (d in Addrs(nodes) ==> |ring| == if Reachable(Wires(links), s, d) then conf else 0)
  }

  /** The addresses of a cheapest route form a path over existing links. */
  lemma RouteIsPath(links: set<OlsrLink>, costs: map<OlsrLink, nat>, s: nat, w: seq<Arc>, d: nat)
    requires BestRoute(ArcsUnder(links, costs), s, w, d)
    ensures IsPath(links, s, Heads(w)) && EndsAt(s, Heads(w), d)
  {
    var g := ArcsUnder(links, costs);
    WalkArcs(g, s, w, d);
    forall i | 0 <= i < |w|
      ensures Hop(links, Prior(s, Heads(w), i), Heads(w)[i])
    {
      assert w[i] in g;
      var l :| l in links && l in costs && w[i] == Arc(l.src.addr, l.dst.addr, costs[l]);
    }
  }

  lemma HeldPath(links: set<OlsrLink>, costs: map<OlsrLink, nat>, s: nat, w: seq<Arc>, d: nat, p: OlsrPath, h: nat)
    requires BestRoute(ArcsUnder(links, costs), s, w, d) && Holds(p, h, w)
    ensures CachedPath(links, s, p, h) && h <= |p.path| && EndsAt(s, p.path[h..], d) && p.path[h..] == Heads(w)
  {
    hide BestRoute, IsPath;
    RouteIsPath(links, costs, s, w, d);
    assert p.path[h..] == Heads(w);
  }

  /** A freshly filled entry tells the truth. */
  lemma FilledEntry(t: Topology, b: PathBuffer, conf: nat, ff: Factors, h: nat, rounds: seq<Round>)
    requires t.StoreOk() && EntryFilled(t, b.ring, b.src, b.dst, conf, ff, h, rounds)
    ensures RingTrue(t.nodes, t.links, b.src, b.dst, b.ring, conf, h)
  {
    hide Topology.StoreOk, BestRoute, Holds, GetNode, CachedPath, EndsAt, Reachable, CostAfter;
    DestinationFound(t, b.dst);
    forall p | p in b.ring
      ensures CachedPath(t.links, b.src, p, h) && h <= |p.path|
              && (b.dst in Addrs(t.nodes) ==> EndsAt(b.src, p.path[h..], b.dst))
    {
      var i :| 0 <= i < |b.ring| && b.ring[i] == p;
      var j := if i == 0 then 0 else |b.ring| - i;
      assert RoundOk(t.nodes, t.links, b.src, GetNode(t.hash, b.dst).addr, rounds[j], rounds[..j], ff);
      HeldPath(t.links, rounds[j].costs, b.src, rounds[j].route, GetNode(t.hash, b.dst).addr, p, h);
    }
  }

  lemma DestinationFound(t: Topology, d: nat)
    requires t.StoreOk()
    ensures d in Addrs(t.nodes) ==> GetNode(t.hash, d) != null && GetNode(t.hash, d).addr == d
  {
    if d in Addrs(t.nodes) {
      var n := NodeAt(t.nodes, d);
      assert n.addrTab[0] == Some(d);
      LookupAgrees(t.nodes, t.hash, d);
    }
  }

  // ---------- Coherence ----------

  ghost predicate Entry(nodes: set<OlsrNode>, links: set<OlsrLink>, s: nat, d: nat, ring: seq<OlsrPath>, conf: nat,
                        exact: bool)
  {
    exists pad :: RingTrue(nodes, links, s, d, ring, conf, pad) && (exact ==> pad == 0)
  }

  ghost predicate HopsZero(nodes: set<OlsrNode>, s: nat)
    reads nodes`dijkstraHops
  {
    forall n :: n in nodes && n.addr == s ==> n.dijkstraHops == 0
  }

  /** Every entry agrees with the topology. When all lookups so far came from one source, sole, no path has unused
      entries. */
  ghost predicate Coherent(t: Topology, conf: nat, sole: Option<nat>)
    reads t`pathBuffers, t`nodes, t`links, t.pathBuffers`ring, t.nodes`dijkstraHops
  {
    && (forall b :: b in t.pathBuffers ==> Entry(t.nodes, t.links, b.src, b.dst, b.ring, conf, sole.Some?))
    && (sole.Some? ==> HopsZero(t.nodes, sole.value))
  }

  // ---------- Lookup ----------

  datatype ReadResult = NoNode | Hit(path: OlsrPath) | NoPath | Miss(src: nat, dst: nat)

  /** The first entry for a pair; the number of entries if there is none. */
  function FindEntry(buffers: seq<PathBuffer>, s: nat, d: nat): (c: nat)
    ensures c <= |buffers|
    ensures c < |buffers| ==> buffers[c].src == s && buffers[c].dst == d
    ensures forall i :: 0 <= i < c ==> buffers[i].src != s || buffers[i].dst != d
  {
    if buffers == [] then 0
    else if buffers[0].src == s && buffers[0].dst == d then 0
    else 1 + FindEntry(buffers[1..], s, d)
  }

  function Answer(ring: seq<OlsrPath>): ReadResult {
    if ring == [] then NoPath else ReadResult.Hit(ring[0])
  }

  /** Scans the cache for the pair and takes a hit. */
  method ScanCache(t: Topology, s: nat, d: nat) returns (r: ReadResult)
    requires t.Valid()
    modifies t.pathBuffers`lstPath, t.pathBuffers`ring
    ensures t.Valid()
    ensures var c := FindEntry(t.pathBuffers, s, d);
            && r == (if c == |t.pathBuffers| then Miss(s, d) else Answer(old(t.pathBuffers[c].ring)))
            && (c < |t.pathBuffers| ==> t.pathBuffers[c].ring == Rotate(old(t.pathBuffers[c].ring)))
            && forall b: PathBuffer :: b in t.pathBuffers && (c < |t.pathBuffers| ==> b != t.pathBuffers[c]) ==>
                 b.ring == old(b.ring)
  {
    hide Topology.StoreOk, PathBuffer.RingOk;
    var c := 0;
    while c < |t.pathBuffers| && !(t.pathBuffers[c].src == s && t.pathBuffers[c].dst == d)
      invariant 0 <= c <= |t.pathBuffers|
      invariant forall i :: 0 <= i < c ==> t.pathBuffers[i].src != s || t.pathBuffers[i].dst != d
    {
      c := c + 1;
    }
    if c == |t.pathBuffers| {
      return Miss(s, d);
    }
    var path := HitEntry(t.pathBuffers[c], t.pathBuffers, t.paths);
    if path == null {
      return NoPath;
    }
    r := ReadResult.Hit(path);
  }

  /** A hit on one entry keeps the whole cache well formed. */
  method HitEntry(b: PathBuffer, ghost buffers: seq<PathBuffer>, ghost paths: set<OlsrPath>) returns (path: OlsrPath?)
    requires RingsOk(buffers, paths) && b in buffers
    modifies b`lstPath, b`ring
    ensures RingsOk(buffers, paths)
    ensures path == Head(old(b.ring)) && b.ring == Rotate(old(b.ring))
  {
    hide PathBuffer.RingOk;
    path := b.Hit();
    assert forall p: OlsrPath :: p in b.ring <==> p in old(b.ring);
    assert forall j, p: OlsrPath :: 0 <= j < |buffers| ==> (p in buffers[j].ring <==> p in old(buffers[j].ring));
    assert old(Apart(buffers));
    forall c: PathBuffer | c in buffers
      ensures c.RingOk()
    {
      assert c != b ==> old(c.RingOk());
    }
  }

  /** A hit is a path of the current topology from s to d; an empty entry means that d cannot be reached (or that no
      paths are wanted); a miss means that there is no entry. */
  ghost predicate Truthful(t: Topology, r: ReadResult, s: nat, d: nat, conf: nat, exact: bool)
    reads t`pathBuffers, t`links
  {
    match r
    case NoNode => false
    case Hit(p) => LeadsTo(t.links, s, p, d, exact)
    case NoPath => conf == 0 || !Reachable(Wires(t.links), s, d)
    case Miss(src, dst) => src == s && dst == d && forall b :: b in t.pathBuffers ==> b.src != s || b.dst != d
  }

  ghost predicate LeadsTo(links: set<OlsrLink>, s: nat, p: OlsrPath, d: nat, exact: bool) {
    exists pad: nat :: CachedPath(links, s, p, pad) && EndsAt(s, p.path[pad..], d) && (exact ==> pad == 0)
  }

  /** What the cache answers is true. */
  lemma AnswerIsTrue(t: Topology, s: nat, d: nat, conf: nat, sole: Option<nat>)
    requires Coherent(t, conf, sole) && d in Addrs(t.nodes)
    ensures var c := FindEntry(t.pathBuffers, s, d);
            Truthful(t, if c == |t.pathBuffers| then Miss(s, d) else Answer(t.pathBuffers[c].ring),
                     s, d, conf, sole.Some?)
  {
    hide CachedPath, EndsAt, Addrs;
    var c := FindEntry(t.pathBuffers, s, d);
    if c < |t.pathBuffers| {
      var b := t.pathBuffers[c];
      assert Entry(t.nodes, t.links, s, d, b.ring, conf, sole.Some?);
      var pad :| RingTrue(t.nodes, t.links, s, d, b.ring, conf, pad) && (sole.Some? ==> pad == 0);
      if b.ring != [] {
        assert CachedPath(t.links, s, b.ring[0], pad);
      }
    }
  }

  /** Turning a ring round changes nothing about what it says. */
  lemma EntryRotates(nodes: set<OlsrNode>, links: set<OlsrLink>, s: nat, d: nat, ring: seq<OlsrPath>, conf: nat,
                     exact: bool)
    requires Entry(nodes, links, s, d, ring, conf, exact)
    ensures Entry(nodes, links, s, d, Rotate(ring), conf, exact)
  {
    hide CachedPath, EndsAt, Addrs;
    var pad :| RingTrue(nodes, links, s, d, ring, conf, pad) && (exact ==> pad == 0);
    assert forall p :: p in Rotate(ring) ==> p in ring;
    assert RingTrue(nodes, links, s, d, Rotate(ring), conf, pad);
  }

  ghost function RingMap(buffers: seq<PathBuffer>): map<PathBuffer, seq<OlsrPath>>
    reads buffers`ring
  {
    map b | b in buffers :: b.ring
  }

  /** The answer comes from the first entry for the pair, which moves on by one path; the other entries stay. */
  ghost predicate Taken(buffers: seq<PathBuffer>, before: map<PathBuffer, seq<OlsrPath>>, s: nat, d: nat, r: ReadResult)
    reads buffers`ring
  {
    var c := FindEntry(buffers, s, d);
    && (forall b :: b in buffers ==> b in before)
    && r == (if c == |buffers| then Miss(s, d) else Answer(before[buffers[c]]))
    && forall b :: b in buffers ==> b.ring == if c < |buffers| && b == buffers[c] then Rotate(before[b]) else before[b]
  }

  /** The read-locked half of a lookup. */
  method ReadSection(t: Topology, srcReq: nat, dstReq: nat, ghost conf: nat, ghost sole: Option<nat>)
    returns (r: ReadResult)
    requires t.Valid() && Coherent(t, conf, sole)
    modifies t.pathBuffers`lstPath, t.pathBuffers`ring
    ensures t.Valid() && Coherent(t, conf, sole)
    ensures r.NoNode? <==> GetNode(t.hash, srcReq) == null || GetNode(t.hash, dstReq) == null
    ensures !r.NoNode? ==> Truthful(t, r, GetNode(t.hash, srcReq).addr, GetNode(t.hash, dstReq).addr, conf, sole.Some?)
    ensures !r.NoNode? ==> Taken(t.pathBuffers, old(RingMap(t.pathBuffers)), GetNode(t.hash, srcReq).addr,
                                 GetNode(t.hash, dstReq).addr, r)
  {
    hide Topology.StoreOk, RingsOk, GetNode, Entry, Rotate, FindEntry, Truthful, HopsZero, Addrs;
    var srcNode, dstNode := GetNode(t.hash, srcReq), GetNode(t.hash, dstReq);
    if srcNode == null || dstNode == null {
      return NoNode;
    }
    t.KnownNodes(dstReq);
    AddrsOf(t.nodes, dstNode);
    AnswerIsTrue(t, srcNode.addr, dstNode.addr, conf, sole);
    r := ScanCache(t, srcNode.addr, dstNode.addr);
    forall b | b in t.pathBuffers
      ensures Entry(t.nodes, t.links, b.src, b.dst, b.ring, conf, sole.Some?)
    {
      EntryRotates(t.nodes, t.links, b.src, b.dst, old(b.ring), conf, sole.Some?);
    }
  }

  lemma AddrsOf(nodes: set<OlsrNode>, n: OlsrNode)
    requires n in nodes
    ensures n.addr in Addrs(nodes)
  {
  }

  lemma RingStarts(t: Topology, c: nat)
    requires t.Valid() && c < |t.pathBuffers| && t.pathBuffers[c].ring != []
    ensures var ring := t.pathBuffers[c].ring; Distinct(ring) && Rotations(ring, 0) == ring && Hits(ring, 0) == []
  {
    assert t.pathBuffers[c].RingOk();
  }

  /** A hit on the entry at c. */
  method NextHit(t: Topology, srcReq: nat, dstReq: nat, ghost conf: nat, ghost sole: Option<nat>, ghost c: nat)
    returns (p: OlsrPath)
    requires t.Valid() && Coherent(t, conf, sole) && c < |t.pathBuffers| && t.pathBuffers[c].ring != []
    requires GetNode(t.hash, srcReq) != null && GetNode(t.hash, dstReq) != null
    requires c == FindEntry(t.pathBuffers, GetNode(t.hash, srcReq).addr, GetNode(t.hash, dstReq).addr)
    modifies t.pathBuffers`lstPath, t.pathBuffers`ring
    ensures t.Valid() && Coherent(t, conf, sole)
    ensures t.pathBuffers[c].ring != [] && p == old(t.pathBuffers[c].ring[0])
            && t.pathBuffers[c].ring == Rotate(old(t.pathBuffers[c].ring))
  {
    hide Topology.Valid, Topology.StoreOk, Coherent, GetNode, FindEntry, Truthful;
    var r := ReadSection(t, srcReq, dstReq, conf, sole);
    p := r.path;
  }

  /** Consecutive hits on one pair go round its ring. */
  method ServeHits(t: Topology, srcReq: nat, dstReq: nat, n: nat, ghost conf: nat, ghost sole: Option<nat>,
                   ghost c: nat)
    returns (taken: seq<OlsrPath>)
    requires t.Valid() && Coherent(t, conf, sole) && c < |t.pathBuffers| && t.pathBuffers[c].ring != []
    requires GetNode(t.hash, srcReq) != null && GetNode(t.hash, dstReq) != null
    requires c == FindEntry(t.pathBuffers, GetNode(t.hash, srcReq).addr, GetNode(t.hash, dstReq).addr)
    modifies t.pathBuffers`lstPath, t.pathBuffers`ring
    ensures t.Valid() && Coherent(t, conf, sole)
    ensures taken == Hits(old(t.pathBuffers[c].ring), n)
    ensures n == |old(t.pathBuffers[c].ring)| ==> taken == old(t.pathBuffers[c].ring) == t.pathBuffers[c].ring
                                                  && Distinct(taken)
  {
    hide Topology.Valid, Topology.StoreOk, Coherent, GetNode, FindEntry, Rotations, Hits, Rotate;
    ghost var ring := t.pathBuffers[c].ring;
    RingStarts(t, c);
    taken := [];
    var i := 0;
    while i < n
      invariant 0 <= i <= n && t.Valid() && Coherent(t, conf, sole)
      invariant t.pathBuffers[c].ring == Rotations(ring, i) && t.pathBuffers[c].ring != []
      invariant taken == Hits(ring, i)
    {
      var p := NextHit(t, srcReq, dstReq, conf, sole, c);
      MoreHits(ring, i);
      taken := taken + [p];
      i := i + 1;
    }
    FullRound(ring);
  }

  // ---------- Runs ----------

  /** What a true ring means for whoever takes its first path. */
  lemma FirstPath(nodes: set<OlsrNode>, links: set<OlsrLink>, s: nat, d: nat, ring: seq<OlsrPath>, conf: nat, pad: nat,
                  exact: bool)
    requires RingTrue(nodes, links, s, d, ring, conf, pad) && (exact ==> pad == 0)
    ensures Entry(nodes, links, s, d, ring, conf, exact)
    ensures d in Addrs(nodes) ==> (ring == [] <==> conf == 0 || !Reachable(Wires(links), s, d))
    ensures d in Addrs(nodes) && ring != [] ==> LeadsTo(links, s, ring[0], d, exact)
  {
    hide CachedPath, EndsAt, Addrs, Reachable;
    if ring != [] {
      assert CachedPath(links, s, ring[0], pad);
    }
  }

  lemma HopsZeroLeft(t: Topology, s: nat)
    requires t.StoreOk()
    ensures HopsZero(t.nodes, s) <==> HopsLeft(t.nodes, s) == 0
  {
    StoreAddrsDiffer(t);
    if s in Addrs(t.nodes) {
      assert forall n :: n in t.nodes && n.addr == s ==> n == NodeAt(t.nodes, s);
    }
  }

  lemma CoherentAfter(t: Topology, conf: nat, sole: Option<nat>)
    requires t.pathBuffers != [] && (sole.Some? ==> HopsZero(t.nodes, sole.value))
    requires Entry(t.nodes, t.links, t.pathBuffers[0].src, t.pathBuffers[0].dst, t.pathBuffers[0].ring, conf,
                   sole.Some?)
    requires forall b :: b in t.pathBuffers[1..] ==> Entry(t.nodes, t.links, b.src, b.dst, b.ring, conf, sole.Some?)
    ensures Coherent(t, conf, sole)
  {
    hide Entry, HopsZero;
    assert t.pathBuffers == [t.pathBuffers[0]] + t.pathBuffers[1..];
  }

  /** The write-locked half of a lookup that missed: topology updates may have come in between. */
  method WriteSection(t: Topology, src: nat, dst: nat, conf: nat, ff: Factors, ghost sole: Option<nat>)
    returns (path: OlsrPath?)
    requires t.Valid() && Coherent(t, conf, sole) && (sole.Some? ==> src == sole.value)
    modifies t`pathBuffers, t`paths
    modifies t.nodes`dijkstraCost, t.nodes`dijkstraPath, t.nodes`dijkstraHops, t.nodes`dijkstraProcessed
    modifies t.links`dijkstraCost, t.links`dijkstraCostP1
    ensures t.Valid() && Coherent(t, conf, sole) && fresh(t.paths - old(t.paths))
    ensures t.pathBuffers != [] && t.pathBuffers[1..] == old(t.pathBuffers) && fresh(t.pathBuffers[0])
    ensures dst in Addrs(t.nodes) ==> (path == null <==> conf == 0 || !Reachable(Wires(t.links), src, dst))
    ensures dst in Addrs(t.nodes) && path != null ==> LeadsTo(t.links, src, path, dst, sole.Some?)
  {
    hide Topology.StoreOk, RingsOk, EntryFilled, HopsLeft, HopsZero, RingTrue, Reachable, Wires, Addrs, Entry, LeadsTo;
    ghost var h := HopsLeft(t.nodes, src);
    HopsZeroLeft(t, src);
    ghost var rounds;
    path, rounds := TcKDijkstra(t, src, dst, conf, ff);
    FilledEntry(t, t.pathBuffers[0], conf, ff, h, rounds);
    HopsZeroLeft(t, src);
    FirstPath(t.nodes, t.links, src, dst, t.pathBuffers[0].ring, conf, h, sole.Some?);
    forall b | b in t.pathBuffers[1..]
      ensures Entry(t.nodes, t.links, b.src, b.dst, b.ring, conf, sole.Some?)
    {
      assert b.ring == old(b.ring);
    }
    CoherentAfter(t, conf, sole);
  }

  /** One critical section: a topology update, or either half of a lookup. */
  datatype Op =
    | AddNode(addr: nat)
    | RemoveNode(addr: nat)
    | AddLink(src: nat, dst: nat, cost: nat)
    | RemoveLink(src: nat, dst: nat)
    | AddAlias(addr: nat, alias: nat)
    | RemoveAlias(addr: nat, alias: nat)
    | Read(src: nat, dst: nat)
    | Write(src: nat, dst: nat)

  /** No alias slot is free. */
  predicate Full(tab: seq<Option<nat>>) {
    forall i :: 1 <= i < |tab| ==> tab[i].Some?
  }

  /** All but the two operations that break the store: a second owner for an address, and the removal of a main address
      as if it were an alias. */
  predicate Allowed(t: Topology, op: Op)
    requires |t.hash| == HASH_TAB_SIZE
    reads t, t.nodeLst`addrTab
  {
    match op
    case AddAlias(addr, alias) =>
      var n := GetNode(t.hash, addr);
      n == null || GetNode(t.hash, alias) == null || (n in t.nodeLst && Full(n.addrTab))
    case RemoveAlias(addr, alias) => GetNode(t.hash, addr) == null || forall n :: n in t.nodeLst ==> n.addr != alias
    case _ => true
  }

  lemma NoEntries(t: Topology, conf: nat, sole: Option<nat>)
    requires t.pathBuffers == [] && (sole.Some? ==> HopsZero(t.nodes, sole.value))
    ensures Coherent(t, conf, sole)
  {
  }

  /** The store stays right exactly for the allowed alias operations. */
  method AliasUpdate(t: Topology, op: Op)
    requires t.Valid() && (op.AddAlias? || op.RemoveAlias?)
    modifies t`hash, t.nodes`addrTab
    ensures t.Valid() <==> old(Allowed(t, op))
  {
    hide Topology.StoreOk, RingsOk, GetNode;
    if op.AddAlias? {
      t.KnownNodes(op.addr);
      NodesListed(t);
      FullIffNoFree();
      t.AddAlias(op.addr, op.alias);
    } else {
      MainAddrIff(t, op.alias);
      t.RemoveAlias(op.addr, op.alias);
    }
  }

  lemma NodesListed(t: Topology)
    requires t.StoreOk()
    ensures forall n :: n in t.nodes <==> n in t.nodeLst
  {
  }

  /** Every topology update leaves the cache coherent, mostly by emptying it. */
  method Update(t: Topology, op: Op, ghost conf: nat, ghost sole: Option<nat>)
    requires t.Valid() && Coherent(t, conf, sole) && Allowed(t, op) && !op.Read? && !op.Write?
    modifies t, t.paths`next, t.nodes`addrTab
    modifies t.nodes`linkSrc, t.nodes`outs, t.nodes`linkDst, t.nodes`ins
    modifies t.links`srcNext, t.links`srcPrev, t.links`dstNext, t.links`dstPrev
    ensures t.Valid() && Coherent(t, conf, sole)
    ensures fresh(t.nodes - old(t.nodes)) && fresh(t.links - old(t.links)) && t.paths <= old(t.paths)
    ensures t.pathBuffers == [] || t.pathBuffers == old(t.pathBuffers)
  {
    hide Topology.StoreOk, RingsOk, Entry, GetNode;
    match op
    case AddNode(addr) =>
      t.AddNode(addr);
    case RemoveNode(addr) =>
      t.RemoveNode(addr);
    case AddLink(src, dst, cost) =>
      ghost var _ := t.AddLink(src, dst, cost);
    case RemoveLink(src, dst) =>
      var _ := t.RemoveLink(src, dst);
    case AddAlias(addr, alias) =>
      FullIffNoFree();
      t.AddAlias(addr, alias);
    case RemoveAlias(addr, alias) =>
      MainAddrIff(t, alias);
      t.RemoveAlias(addr, alias);
    case Read(_, _) =>
    case Write(_, _) =>
  }

  lemma FullIffNoFree()
    ensures forall tab, pos :: FirstFree(tab, pos) ==> (pos < 0 <==> Full(tab))
  {
  }

  lemma MainAddrIff(t: Topology, alias: nat)
    requires t.StoreOk()
    ensures (forall n :: n in t.nodeLst ==> n.addr != alias) <==> forall n :: n in t.nodes ==> n.addr != alias
  {
  }

  /** Any critical section. */
  method Step(t: Topology, op: Op, conf: nat, ff: Factors, ghost sole: Option<nat>)
    requires t.Valid() && Coherent(t, conf, sole) && Allowed(t, op)
    requires op.Write? && sole.Some? ==> op.src == sole.value
    modifies t, t.paths, t.nodes, t.links, t.pathBuffers
    ensures t.Valid() && Coherent(t, conf, sole)
    ensures fresh(t.nodes - old(t.nodes)) && fresh(t.links - old(t.links)) && fresh(t.paths - old(t.paths))
    ensures forall j :: 0 <= j < |t.pathBuffers| ==> t.pathBuffers[j] in old(t.pathBuffers) || fresh(t.pathBuffers[j])
  {
    hide Topology.StoreOk, RingsOk, Coherent, GetNode, Addrs, Truthful, LeadsTo, Reachable, Allowed;
    if op.Read? {
      var _ := ReadSection(t, op.src, op.dst, conf, sole);
    } else if op.Write? {
      var _ := WriteSection(t, op.src, op.dst, conf, ff, sole);
    } else {
      Update(t, op, conf, sole);
    }
  }

  /** Cache coherence over every run: whatever the order of updates and lookup halves, and so whatever happens between
      the two halves of a lookup, the cache agrees with the topology. Operations outside the assumptions are skipped. */
  method Run(t: Topology, ops: seq<Op>, conf: nat, ff: Factors, ghost sole: Option<nat>)
    requires t.Valid() && Coherent(t, conf, sole)
    requires sole.Some? ==> forall i :: 0 <= i < |ops| && ops[i].Write? ==> ops[i].src == sole.value
    modifies t, t.paths, t.nodes, t.links, t.pathBuffers
    ensures t.Valid() && Coherent(t, conf, sole)
  {
    hide Topology.StoreOk, RingsOk, Coherent, Allowed;
    var i := 0;
    while i < |ops|
      invariant 0 <= i <= |ops| && t.Valid() && Coherent(t, conf, sole)
      invariant fresh(t.nodes - old(t.nodes)) && fresh(t.links - old(t.links)) && fresh(t.paths - old(t.paths))
      invariant forall j :: 0 <= j < |t.pathBuffers| ==>
                  t.pathBuffers[j] in old(t.pathBuffers) || fresh(t.pathBuffers[j])
    {
      if Allowed(t, ops[i]) {
        Step(t, ops[i], conf, ff, sole);
      }
      i := i + 1;
    }
  }
}
