/** Several paths to one destination: after each round the links of the path found are made dearer. */
module MultipathKPaths {
  import opened Common
  import opened ShortestPaths
  import opened MultipathPaths
  import opened MultipathTopology
  import opened MultipathDijkstra

  /** The penalties: fp for the links of the path, fe for other links into its nodes. */
  datatype Factors = Factors(fp: nat -> nat, fe: nat -> nat)

  // ---------- What one round does to the costs ----------

  /** l is a link of the walk (or parallel to one). */
  ghost predicate Along(l: OlsrLink, w: seq<Arc>) {
    exists j :: 0 <= j < |w| && w[j].src == l.src.addr && w[j].dst == l.dst.addr
  }

  /** l enters a node that the walk enters. */
  ghost predicate Enters(l: OlsrLink, w: seq<Arc>) {
    exists j :: 0 <= j < |w| && w[j].dst == l.dst.addr
  }

  /** l is the first link that its source lists back along the first arc of the walk. */
  ghost predicate BackLink(l: OlsrLink, w: seq<Arc>)
    reads l.src`outs
  {
    && w != [] && l.src.addr == w[0].dst && l.dst.addr == w[0].src
    && exists i :: 0 <= i < |l.src.outs| && l.src.outs[i] == l
                   && forall j :: 0 <= j < i ==> l.src.outs[j].dst.addr != w[0].src
  }

  /** What a link of cost c costs in the round after the one that found w. */
  ghost function NextCost(l: OlsrLink, c: nat, w: seq<Arc>, ff: Factors): nat
    reads l.src`outs
  {
    if Along(l, w) then ff.fp(c)
    else if Enters(l, w) then ff.fe(c)
    else if BackLink(l, w) then ff.fp(c)
    else c
  }

  ghost function NewCost(l: OlsrLink, w: seq<Arc>, ff: Factors): nat
    reads l`dijkstraCost, l.src`outs
  {
    NextCost(l, l.dijkstraCost, w, ff)
  }

  /** The cost of l when the first part of one step, the links into its head, has been done. */
  ghost function HalfCost(l: OlsrLink, a: Arc, w: seq<Arc>, ff: Factors): nat
    reads l`dijkstraCost, l.src`outs
  {
    if l.dst.addr == a.dst then (if l.src.addr == a.src then ff.fp(l.dijkstraCost) else ff.fe(l.dijkstraCost))
    else NewCost(l, w, ff)
  }

  ghost predicate Priced(nodes: set<OlsrNode>, links: set<OlsrLink>, w: seq<Arc>, ff: Factors)
    reads links`dijkstraCost, links`dijkstraCostP1, nodes`outs
  {
    forall l :: l in links ==> l.src in nodes && l.dijkstraCostP1 == NewCost(l, w, ff)
  }

  ghost predicate HalfPriced(nodes: set<OlsrNode>, links: set<OlsrLink>, a: Arc, w: seq<Arc>, ff: Factors)
    reads links`dijkstraCost, links`dijkstraCostP1, nodes`outs
  {
    forall l :: l in links ==> l.src in nodes && l.dijkstraCostP1 == HalfCost(l, a, w, ff)
  }

  /** No more arcs follow: the walk is simple and a comes right before it. */
  ghost predicate Extends(a: Arc, w: seq<Arc>) {
    && a.src != a.dst
    && (w != [] ==> w[0].src == a.dst)
    && (forall j :: 0 <= j < |w| ==> w[j].dst != a.dst && w[j].dst != a.src)
  }

  /** Putting one more arc in front of the walk: its head's links are priced anew, the old back link loses
      its price to that, and the first link back along the new arc is priced. */
  lemma NewCostStep(l: OlsrLink, a: Arc, w: seq<Arc>, ff: Factors)
    requires Extends(a, w)
    ensures NewCost(l, [a] + w, ff) == if BackLink(l, [a] + w) then ff.fp(l.dijkstraCost) else HalfCost(l, a, w, ff)
  {
    var v := [a] + w;
    assert v[0] == a;
    assert forall j :: 0 <= j < |w| ==> v[j + 1] == w[j];
    assert Enters(l, v) <==> l.dst.addr == a.dst || Enters(l, w);
    assert Along(l, v) <==> (l.src.addr == a.src && l.dst.addr == a.dst) || Along(l, w);
  }

  /** The loop over the links that enter prev: those from node cost fp, the others fe. */
  method ReweightIns(prev: OlsrNode, node: OlsrNode, ff: Factors, ghost nodes: set<OlsrNode>,
                     ghost links: set<OlsrLink>,
                     ghost a: Arc, ghost w: seq<Arc>)
    requires Threaded(nodes, links, links) && EndsOk(nodes, links) && DifferentAddrs(nodes)
    requires prev in nodes && node in nodes && a.src == node.addr && a.dst == prev.addr
    requires Priced(nodes, links, w, ff)
    modifies links`dijkstraCostP1
    ensures HalfPriced(nodes, links, a, w, ff)
    ensures forall l :: l in links ==>
                          l.dijkstraCostP1 == if l.dst != prev then old(l.dijkstraCostP1)
                              else if l.src == node then ff.fp(l.dijkstraCost) else ff.fe(l.dijkstraCost)
  {
    hide Threaded, NewCost;
    ListsOf(nodes, links, links, prev);
    var link := prev.linkDst;
    ghost var i := 0;
    while link != null
      invariant 0 <= i <= |prev.ins| && link == Nth(prev.ins, i)
      invariant forall l :: l in links ==> l.dijkstraCostP1 == if l in prev.ins[..i] then HalfCost(l, a, w, ff)
                  else NewCost(l, w, ff)
      decreases |prev.ins| - i
    {
      assert link in prev.ins;
      assert prev.ins[..i + 1] == prev.ins[..i] + [link];
      if link.src == node {
        link.dijkstraCostP1 := ff.fp(link.dijkstraCost);
      } else {
        link.dijkstraCostP1 := ff.fe(link.dijkstraCost);
      }
      i := i + 1;
      link := link.dstNext;
    }
    assert prev.ins[..|prev.ins|] == prev.ins;
    forall l | l in links
      ensures l.dijkstraCostP1 == HalfCost(l, a, w, ff)
    {
      assert l in Elements(prev.ins) <==> l.dst == prev;
    }
  }

  /** Both inner loops of one step. */
  method Reweight(prev: OlsrNode, node: OlsrNode, ff: Factors, t: Topology, ghost s: nat, ghost w: seq<Arc>,
                  ghost i: nat)
    requires t.StoreOk() && prev in t.nodes && node in t.nodes
    requires Simple(s, w) && i < |w| && node.addr == At(s, w, i) && prev.addr == At(s, w, i + 1)
    requires Priced(t.nodes, t.links, w[i + 1..], ff)
    modifies t.links`dijkstraCostP1
    ensures Priced(t.nodes, t.links, w[i..], ff)
  {
    hide Priced, HalfPriced, Topology.StoreOk, Threaded;
    StoreFacts(t);
    ExtendsTail(s, w, i);
    ReweightIns(prev, node, ff, t.nodes, t.links, w[i], w[i + 1..]);
    ReweightBack(prev, node, ff, t.nodes, t.links, w[i], w[i + 1..]);
  }

  /** The search for a link back to node, and its price. */
  method ReweightBack(prev: OlsrNode, node: OlsrNode, ff: Factors, ghost nodes: set<OlsrNode>,
                      ghost links: set<OlsrLink>,
                      ghost a: Arc, ghost w: seq<Arc>)
    requires Threaded(nodes, links, links) && EndsOk(nodes, links) && DifferentAddrs(nodes)
    requires prev in nodes && node in nodes && a.src == node.addr && a.dst == prev.addr && Extends(a, w)
    requires HalfPriced(nodes, links, a, w, ff)
    modifies links`dijkstraCostP1
    ensures Priced(nodes, links, [a] + w, ff)
  {
    hide Threaded, NewCost, HalfCost;
    ListsOf(nodes, links, links, prev);
    var link := prev.linkSrc;
    ghost var i := 0;
    while link != null && link.dst != node
      invariant 0 <= i <= |prev.outs| && link == Nth(prev.outs, i)
      invariant forall j :: 0 <= j < i ==> prev.outs[j].dst != node
      decreases |prev.outs| - i
    {
      i := i + 1;
      link := link.srcNext;
    }
    if link != null {
      link.dijkstraCostP1 := ff.fp(link.dijkstraCost);
    }
    forall l | l in links
      ensures l.dijkstraCostP1 == NewCost(l, [a] + w, ff)
    {
      NewCostStep(l, a, w, ff);
      FirstBack(prev, node, nodes, links, a, w, i, l);
    }
  }

  /** The link found is the first link back, and the only one. */
  lemma FirstBack(prev: OlsrNode, node: OlsrNode, nodes: set<OlsrNode>, links: set<OlsrLink>, a: Arc, w: seq<Arc>,
                  i: nat, l: OlsrLink)
    requires DifferentAddrs(nodes) && EndsOk(nodes, links) && l in links
    requires prev in nodes && node in nodes && a.src == node.addr && a.dst == prev.addr
    requires i <= |prev.outs| && forall m :: m in prev.outs ==> m in links
    requires forall j :: 0 <= j < i ==> prev.outs[j].dst != node
    requires i < |prev.outs| ==> prev.outs[i].dst == node && prev.outs[i].src == prev
    ensures BackLink(l, [a] + w) <==> i < |prev.outs| && prev.outs[i] == l
  {
    assert ([a] + w)[0] == a;
    if l.src == prev && BackLink(l, [a] + w) {
      var k :| 0 <= k < |prev.outs| && prev.outs[k] == l && forall j :: 0 <= j < k ==> prev.outs[j].dst.addr != a.src;
      assert l.dst == node;
    }
    if i < |prev.outs| && prev.outs[i] == l {
      forall j | 0 <= j < i
        ensures prev.outs[j].dst.addr != a.src
      {
        assert prev.outs[j] in links;
      }
    }
  }

  // ---------- Copying one path ----------

  function Zeros(n: nat): (z: seq<nat>)
    ensures |z| == n && forall i :: 0 <= i < n ==> z[i] == 0
  {
    if n == 0 then [] else Zeros(n - 1) + [0]
  }

  /** The addresses that a walk visits after its start. */
  function Heads(w: seq<Arc>): (a: seq<nat>)
    ensures |a| == |w| && forall i :: 0 <= i < |w| ==> a[i] == w[i].dst
  {
    if w == [] then [] else Heads(w[..|w| - 1]) + [w[|w| - 1].dst]
  }

  /** The address that the walk has reached after i arcs. */
  function At(s: nat, w: seq<Arc>, i: nat): nat
    requires i <= |w|
  {
    if i == 0 then s else w[i - 1].dst
  }

  /** Following the dijkstra_path pointers from the node after i arcs gives the node after i - 1. */
  lemma PointerBack(nodes: set<OlsrNode>, s: nat, st: Search, w: seq<Arc>, i: nat, node: OlsrNode)
    requires Mirrors(nodes, st) && Simple(s, w) && Follows(st, w) && s !in st.parent
    requires i <= |w| && node in nodes && node.addr == At(s, w, i)
    ensures i == 0 <==> node.dijkstraPath == null
    ensures i > 0 ==> node.dijkstraPath in nodes && node.dijkstraPath.addr == At(s, w, i - 1) == w[i - 1].src
                      && node.addr == w[i - 1].dst
  {
    assert NodeMirrors(node, nodes, st);
  }

  lemma ExtendsTail(s: nat, w: seq<Arc>, i: nat)
    requires Simple(s, w) && i < |w|
    ensures Extends(w[i], w[i + 1..]) && [w[i]] + w[i + 1..] == w[i..] && w[i].src == At(s, w, i)
  {
  }

  /** Walks the dijkstra_path pointers back from dst: writes the addresses from the end of the buffer, and prices the
      links around every arc. */
  method CopyRoute(t: Topology, dst: OlsrNode, ff: Factors, ghost s: nat, ghost st: Search, ghost w: seq<Arc>,
                   ghost h: nat)
    returns (path: seq<nat>)
    requires t.StoreOk() && dst in t.nodes && Mirrors(t.nodes, st) && s !in st.parent
    requires Simple(s, w) && Follows(st, w) && dst.addr == At(s, w, |w|) && dst.dijkstraHops == h + |w|
    requires Priced(t.nodes, t.links, [], ff)
    modifies t.links`dijkstraCostP1
    ensures path == Zeros(h) + Heads(w)
    ensures Priced(t.nodes, t.links, w, ff)
  {
    hide Priced, Mirrors, Simple, Follows, Extends, Topology.StoreOk, Zeros, Heads, At;
    var buff := new nat[dst.dijkstraHops](_ => 0);
    var j := dst.dijkstraHops - 1;
    var node: OlsrNode? := dst;
    var prev: OlsrNode? := null;
    ghost var i := |w|;
    assert w[|w|..] == [];
    while node != null
      invariant -1 <= i <= |w| && j == h + (if i < 0 then 0 else i) - 1
      invariant i >= 0 ==> node != null && node in t.nodes && node.addr == At(s, w, i)
      invariant i < 0 ==> node == null
      invariant prev == null <==> i == |w|
      invariant i < |w| ==> prev in t.nodes && prev.addr == At(s, w, i + 1)
      invariant Priced(t.nodes, t.links, w[if i == |w| then i else i + 1..], ff)
      invariant forall x :: 0 <= x < buff.Length ==>
                  buff[x] == if x < h + (if i < 0 then 0 else i) then 0 else w[x - h].dst
      decreases i
    {
      PointerBack(t.nodes, s, st, w, i, node);
      if node.dijkstraPath != null {
        buff[j] := node.addr;
        j := j - 1;
      }
      if prev != null {
        Reweight(prev, node, ff, t, s, w, i);
      }
      prev := node;
      node := node.dijkstraPath;
      i := i - 1;
    }
    path := buff[..];
  }

  lemma StoreFacts(t: Topology)
    requires t.StoreOk()
    ensures Threaded(t.nodes, t.links, t.links) && EndsOk(t.nodes, t.links) && DifferentAddrs(t.nodes)
            && NodeListOk(t.nodeLst, t.nodes)
  {
    StoreAddrsDiffer(t);
  }

  // ---------- One round ----------

  /** Outside a round both working costs of every link agree. */
  ghost predicate Level(links: set<OlsrLink>)
    reads links`dijkstraCost, links`dijkstraCostP1
  {
    forall l :: l in links ==> l.dijkstraCost == l.dijkstraCostP1
  }

  /** The inner loop of the reset, over the links that leave one node. */
  method ResetNode(node: OlsrNode)
    requires node.OutsOk()
    modifies node.outs`dijkstraCost, node.outs`dijkstraCostP1
    ensures forall l :: l in node.outs ==> l.dijkstraCost == l.dijkstraCostP1 == l.cost
  {
    var link := node.linkSrc;
    ghost var i := 0;
    while link != null
      invariant 0 <= i <= |node.outs| && link == Nth(node.outs, i)
      invariant forall j :: 0 <= j < i ==> node.outs[j].dijkstraCost == node.outs[j].dijkstraCostP1 == node.outs[j].cost
      decreases |node.outs| - i
    {
      link.dijkstraCost, link.dijkstraCostP1 := link.cost, link.cost;
      i := i + 1;
      link := link.srcNext;
    }
  }

  /** The inner loop of the commit. */
  method CommitNode(node: OlsrNode)
    requires node.OutsOk()
    modifies node.outs`dijkstraCost
    ensures forall l :: l in node.outs ==> l.dijkstraCost == l.dijkstraCostP1
  {
    var link := node.linkSrc;
    ghost var i := 0;
    while link != null
      invariant 0 <= i <= |node.outs| && link == Nth(node.outs, i)
      invariant forall j :: 0 <= j < i ==> node.outs[j].dijkstraCost == node.outs[j].dijkstraCostP1
      decreases |node.outs| - i
    {
      link.dijkstraCost := link.dijkstraCostP1;
      i := i + 1;
      link := link.srcNext;
    }
  }

  /** Every link starts with its real cost. */
  method ResetCosts(t: Topology)
    requires t.StoreOk()
    modifies t.links`dijkstraCost, t.links`dijkstraCostP1
    ensures Level(t.links) && forall l :: l in t.links ==> l.dijkstraCost == l.cost
  {
    hide Threaded, Topology.StoreOk, Elements;
    StoreFacts(t);
    var i := 0;
    while i < |t.nodeLst|
      invariant 0 <= i <= |t.nodeLst|
      invariant forall l :: l in t.links && l.src in t.nodeLst[..i] ==> l.dijkstraCost == l.dijkstraCostP1 == l.cost
    {
      OutsOf(t, t.nodeLst[i]);
      ResetNode(t.nodeLst[i]);
      assert t.nodeLst[..i + 1] == t.nodeLst[..i] + [t.nodeLst[i]];
      i := i + 1;
    }
    assert t.nodeLst[..i] == t.nodeLst;
  }

  /** The costs of the next round take effect. */
  method CommitCosts(t: Topology)
    requires t.StoreOk()
    modifies t.links`dijkstraCost
    ensures Level(t.links)
  {
    hide Threaded, Topology.StoreOk, Elements;
    StoreFacts(t);
    var i := 0;
    while i < |t.nodeLst|
      invariant 0 <= i <= |t.nodeLst|
      invariant forall l :: l in t.links && l.src in t.nodeLst[..i] ==> l.dijkstraCost == l.dijkstraCostP1
    {
      OutsOf(t, t.nodeLst[i]);
      CommitNode(t.nodeLst[i]);
      assert t.nodeLst[..i + 1] == t.nodeLst[..i] + [t.nodeLst[i]];
      i := i + 1;
    }
    assert t.nodeLst[..i] == t.nodeLst;
  }

  lemma OutsOf(t: Topology, n: OlsrNode)
    requires t.StoreOk() && n in t.nodeLst
    ensures n in t.nodes && n.OutsOk()
    ensures forall l :: l in n.outs ==> l in t.links && l.src == n
    ensures forall l :: l in t.links && l.src == n ==> l in n.outs
  {
    assert ListsOk(n, t.links, t.links);
  }

  /** The hop count left at the node with main address s. */
  ghost function HopsLeft(nodes: set<OlsrNode>, s: nat): nat
    reads nodes`dijkstraHops
  {
    if s in Addrs(nodes) then NodeAt(nodes, s).dijkstraHops else 0
  }

  /** w is a cheapest route from s to d, and visits no node twice. */
  ghost predicate BestRoute(g: set<Arc>, s: nat, w: seq<Arc>, d: nat) {
    IsWalk(g, s, w, d) && Simple(s, w) && IsDistance(g, s, d, Fin(WalkCost(w)))
  }

  lemma {:induction false} WalkArcs(g: set<Arc>, s: nat, w: seq<Arc>, d: nat)
    requires IsWalk(g, s, w, d)
    ensures forall i :: 0 <= i < |w| ==> w[i] in g
    ensures d == At(s, w, |w|)
    decreases |w|
  {
    if w != [] {
      WalkArcs(g, w[0].dst, w[1..], d);
      assert forall i :: 1 <= i < |w| ==> w[i] == w[1..][i - 1];
    }
  }

  lemma SourceHops(nodes: set<OlsrNode>, s: nat)
    ensures HopsOf(Start(Addrs(nodes), s, HopsMap(nodes)), s) == HopsLeft(nodes, s)
  {
  }

  lemma SourceHopsNow(nodes: set<OlsrNode>, st: Search, s: nat)
    requires Mirrors(nodes, st) && st.hops.Keys == Addrs(nodes)
    ensures HopsOf(st, s) == HopsLeft(nodes, s)
  {
    if s in Addrs(nodes) {
      assert NodeMirrors(NodeAt(nodes, s), nodes, st);
    }
  }

  /** No route: the search never reached d. */
  lemma NoRoute(g: set<Arc>, addrs: set<nat>, s: nat, st: Search, d: nat)
    requires Final(g, addrs, s, st) && d in addrs && CostOf(st, d).Inf?
    ensures !Reachable(g, s, d)
  {
    if s in addrs {
      FinalDistances(g, addrs, s, st, d);
    } else {
      forall w
        ensures !IsWalk(g, s, w, d)
      {
      }
    }
  }

  lemma RouteFacts(g: set<Arc>, addrs: set<nat>, s: nat, st: Search, d: nat)
    returns (w: seq<Arc>)
    requires Final(g, addrs, s, st) && CostOf(st, d).Fin?
    ensures BestRoute(g, s, w, d) && Simple(s, w) && Follows(st, w) && d == At(s, w, |w|)
    ensures s !in st.parent && HopsOf(st, d) == HopsOf(st, s) + |w|
    ensures forall a :: a in w ==> a in g
  {
    SourceKnown(g, addrs, s, st, d);
    w := Route(g, addrs, s, st, d);
    hide Route, Shape, ParentsOk, Before, Final, Ordered, AllRelaxed, Simple, Follows, IsDistance, IsWalk, Distinct,
         WalkCost, HopsOf, CostOf;
    RouteWalk(g, addrs, s, st, d);
    RouteSimple(g, addrs, s, st, d);
    FinalDistances(g, addrs, s, st, d);
  }

  lemma SourceKnown(g: set<Arc>, addrs: set<nat>, s: nat, st: Search, d: nat)
    requires Final(g, addrs, s, st) && CostOf(st, d).Fin?
    ensures s in addrs && s !in st.parent && d in st.done && Parented(g, addrs, s, st) && CostOf(st, s) == Fin(0)
    decreases PositionOf(st.done, d)
  {
    if d != s {
      ParentIsEarlier(g, addrs, s, st, d);
      SourceKnown(g, addrs, s, st, st.parent[d].src);
    }
  }

  /** What a finished search says about the destination node. */
  lemma FinalAt(t: Topology, g: set<Arc>, addrs: set<nat>, s: nat, st: Search, dst: OlsrNode)
    requires Mirrors(t.nodes, st) && Final(g, addrs, s, st) && addrs == Addrs(t.nodes) && dst in t.nodes
    ensures dst.addr in addrs && dst.dijkstraCost == CostOf(st, dst.addr) && dst.dijkstraHops == HopsOf(st, dst.addr)
    ensures HopsOf(st, s) == HopsLeft(t.nodes, s)
  {
    assert NodeMirrors(dst, t.nodes, st);
    SourceHopsNow(t.nodes, st, s);
  }

  /** What dijkstra leaves in a node: its exact distance, the maximum value exactly when it cannot be reached, and
      otherwise pointers along a cheapest route whose length the hop count tells. */
  lemma NodeResult(t: Topology, s: nat, st: Search, n: OlsrNode)
    requires Mirrors(t.nodes, st) && Final(Arcs(t.links), Addrs(t.nodes), s, st) && n in t.nodes
    ensures s in Addrs(t.nodes) ==> IsDistance(Arcs(t.links), s, n.addr, n.dijkstraCost)
    ensures n.dijkstraCost.Inf? <==> !Reachable(Arcs(t.links), s, n.addr)
    ensures n.dijkstraCost.Fin? ==>
              exists w :: BestRoute(Arcs(t.links), s, w, n.addr) && Follows(st, w)
                          && n.dijkstraHops == HopsLeft(t.nodes, s) + |w|
  {
    hide Mirrors, Final, Arcs, Addrs, BestRoute, Follows, HopsLeft, Reachable, IsDistance, HopsOf, CostOf;
    var g, addrs := Arcs(t.links), Addrs(t.nodes);
    FinalAt(t, g, addrs, s, st, n);
    if s in addrs {
      FinalDistances(g, addrs, s, st, n.addr);
    }
    if n.dijkstraCost.Inf? {
      NoRoute(g, addrs, s, st, n.addr);
    } else {
      var w := RouteFacts(g, addrs, s, st, n.addr);
      RouteReaches(g, s, w, n.addr);
    }
  }

  lemma NoPrice(t: Topology, ff: Factors)
    requires t.StoreOk() && Level(t.links)
    ensures Priced(t.nodes, t.links, [], ff)
  {
    forall l | l in t.links
      ensures l.dijkstraCostP1 == NewCost(l, [], ff)
    {
    }
  }

  lemma RouteReaches(g: set<Arc>, s: nat, w: seq<Arc>, d: nat)
    requires BestRoute(g, s, w, d)
    ensures Reachable(g, s, d)
  {
  }

  method CommitPrices(t: Topology, ghost w: seq<Arc>, ff: Factors)
    requires t.StoreOk() && Priced(t.nodes, t.links, w, ff)
    modifies t.links`dijkstraCost
    ensures Level(t.links) && forall l :: l in t.links ==> l.dijkstraCost == old(NewCost(l, w, ff))
  {
    hide Topology.StoreOk, NextCost;
    CommitCosts(t);
    forall l | l in t.links
      ensures l.dijkstraCost == old(NewCost(l, w, ff))
    {
      assert old(l.dijkstraCostP1) == old(NewCost(l, w, ff));
    }
  }

  /** One round: the path object, and what the links cost in the next round. */
  method FindPath(t: Topology, srcAddr: nat, dst: OlsrNode, ff: Factors) returns (path: OlsrPath?, ghost w: seq<Arc>)
    requires t.StoreOk() && dst in t.nodes && Level(t.links)
    modifies t.nodes`dijkstraCost, t.nodes`dijkstraPath, t.nodes`dijkstraHops, t.nodes`dijkstraProcessed
    modifies t.links`dijkstraCost, t.links`dijkstraCostP1
    ensures Level(t.links) && HopsLeft(t.nodes, srcAddr) == old(HopsLeft(t.nodes, srcAddr))
    ensures path == null <==> !Reachable(old(Arcs(t.links)), srcAddr, dst.addr)
    ensures path != null ==> fresh(path) && BestRoute(old(Arcs(t.links)), srcAddr, w, dst.addr)
    ensures path != null ==> path.path == Zeros(old(HopsLeft(t.nodes, srcAddr))) + Heads(w)
                             && path.pathHops == |path.path|
    ensures path != null ==> forall l :: l in t.links ==> l.dijkstraCost == old(NewCost(l, w, ff))
  {
    hide Topology.StoreOk, Mirrors, Final, Level, Arcs, HopsMap, Start, BestRoute, Follows, HopsLeft, Priced, Reachable,
         NextCost;
    ghost var g, addrs, h := Arcs(t.links), Addrs(t.nodes), HopsLeft(t.nodes, srcAddr);
    SourceHops(t.nodes, srcAddr);
    ghost var st := Dijkstra(t, srcAddr);
    w := [];
    FinalAt(t, g, addrs, srcAddr, st, dst);
    if dst.dijkstraCost.Inf? {
      NoRoute(g, addrs, srcAddr, st, dst.addr);
      return null, w;
    }
    w := RouteFacts(g, addrs, srcAddr, st, dst.addr);
    NoPrice(t, ff);
    var p := CopyRoute(t, dst, ff, srcAddr, st, w, h);
    path := new OlsrPath(p, dst.dijkstraHops);
    label Copied:
    CommitPrices(t, w, ff);
    RouteReaches(g, srcAddr, w, dst.addr);
    forall l | l in t.links
      ensures l.dijkstraCost == old(NewCost(l, w, ff))
    {
      assert old@Copied(NewCost(l, w, ff)) == old(NewCost(l, w, ff));
    }
  }

  // ---------- All rounds ----------

  /** The graph with the links' real costs. */
  ghost function Wires(links: set<OlsrLink>): set<Arc> {
    set l | l in links :: Arc(l.src.addr, l.dst.addr, l.cost)
  }

  ghost function ArcsUnder(links: set<OlsrLink>, costs: map<OlsrLink, nat>): set<Arc> {
    set l | l in links && l in costs :: Arc(l.src.addr, l.dst.addr, costs[l])
  }

  /** What one round saw and found. */
  datatype Round = Round(costs: map<OlsrLink, nat>, route: seq<Arc>)

  /** What l costs once the given rounds are over: its real cost, or what the last of them made of it. */
  ghost function CostAfter(l: OlsrLink, rounds: seq<Round>, ff: Factors): nat
    reads l.src`outs
  {
    if rounds == [] then l.cost
    else
      var r := rounds[|rounds| - 1];
      if l in r.costs then NextCost(l, r.costs[l], r.route, ff) else 0
  }

  /** The round after the given ones finds a cheapest route under the costs they left. */
  ghost predicate RoundOk(nodes: set<OlsrNode>, links: set<OlsrLink>, s: nat, d: nat, r: Round, before: seq<Round>,
                          ff: Factors)
    reads nodes`outs
  {
    && r.costs.Keys == links && BestRoute(ArcsUnder(links, r.costs), s, r.route, d)
    && forall l :: l in links && l.src in nodes ==> r.costs[l] == CostAfter(l, before, ff)
  }

  ghost predicate RoundsOk(nodes: set<OlsrNode>, links: set<OlsrLink>, s: nat, d: nat, rounds: seq<Round>, ff: Factors)
    reads nodes`outs
  {
    forall j :: 0 <= j < |rounds| ==> RoundOk(nodes, links, s, d, rounds[j], rounds[..j], ff)
  }

  ghost function CostMap(links: set<OlsrLink>): map<OlsrLink, nat>
    reads links`dijkstraCost
  {
    map l | l in links :: l.dijkstraCost
  }

  /** p holds the route, with h unused entries in front. */
  predicate Holds(p: OlsrPath, h: nat, route: seq<Arc>) {
    p.path == Zeros(h) + Heads(route) && p.pathHops == |p.path|
  }

  /** The ring after the given rounds: the first path, then the later ones in reverse order. */
  ghost predicate RingHolds(ring: seq<OlsrPath>, h: nat, rounds: seq<Round>) {
    && |ring| == |rounds|
    && forall i :: 0 <= i < |ring| ==> Holds(ring[i], h, rounds[if i == 0 then 0 else |ring| - i].route)
  }

  lemma {:induction false} Recost(g: set<Arc>, g': set<Arc>, s: nat, w: seq<Arc>, d: nat) returns (w': seq<Arc>)
    requires IsWalk(g, s, w, d)
    requires Twinned(g, g')
    ensures IsWalk(g', s, w', d)
    decreases |w|
  {
    if w == [] {
      w' := [];
    } else {
      var b :| b in g' && b.src == w[0].src && b.dst == w[0].dst;
      var rest := Recost(g, g', b.dst, w[1..], d);
      w' := [b] + rest;
      assert w'[1..] == rest;
    }
  }

  /** Each arc of g has a twin in g' between the same ends. */
  ghost predicate Twinned(g: set<Arc>, g': set<Arc>) {
    forall a :: a in g ==> exists b :: b in g' && b.src == a.src && b.dst == a.dst
  }

  lemma TwinReach(g: set<Arc>, g': set<Arc>, s: nat, d: nat)
    requires Twinned(g, g') && Reachable(g, s, d)
    ensures Reachable(g', s, d)
  {
    var w :| IsWalk(g, s, w, d);
    var _ := Recost(g, g', s, w, d);
  }

  lemma ArcsTwin(links: set<OlsrLink>)
    ensures Twinned(Arcs(links), Wires(links)) && Twinned(Wires(links), Arcs(links))
  {
    forall a | a in Arcs(links)
      ensures exists b :: b in Wires(links) && b.src == a.src && b.dst == a.dst
    {
      var l :| l in links && a == ArcOf(l);
      assert Arc(l.src.addr, l.dst.addr, l.cost) in Wires(links);
    }
    forall a | a in Wires(links)
      ensures exists b :: b in Arcs(links) && b.src == a.src && b.dst == a.dst
    {
      var l :| l in links && a == Arc(l.src.addr, l.dst.addr, l.cost);
      assert ArcOf(l) in Arcs(links);
    }
  }

  /** Prices do not change what can be reached. */
  lemma SameReach(links: set<OlsrLink>, s: nat, d: nat)
    ensures Reachable(Arcs(links), s, d) <==> Reachable(Wires(links), s, d)
  {
    hide Arcs, Wires, Twinned, Reachable;
    ArcsTwin(links);
    if Reachable(Arcs(links), s, d) {
      TwinReach(Arcs(links), Wires(links), s, d);
    }
    if Reachable(Wires(links), s, d) {
      TwinReach(Wires(links), Arcs(links), s, d);
    }
  }

  lemma CostsNow(links: set<OlsrLink>)
    ensures ArcsUnder(links, CostMap(links)) == Arcs(links)
  {
    forall a | a in Arcs(links)
      ensures a in ArcsUnder(links, CostMap(links))
    {
      var l :| l in links && a == ArcOf(l);
    }
  }

  lemma MoreRounds(nodes: set<OlsrNode>, links: set<OlsrLink>, s: nat, d: nat, rounds: seq<Round>, ff: Factors,
                   r: Round)
    requires RoundsOk(nodes, links, s, d, rounds, ff) && RoundOk(nodes, links, s, d, r, rounds, ff)
    ensures RoundsOk(nodes, links, s, d, rounds + [r], ff)
  {
    hide RoundOk;
    var more := rounds + [r];
    forall j | 0 <= j < |more|
      ensures RoundOk(nodes, links, s, d, more[j], more[..j], ff)
    {
      assert more[..j] == rounds[..j];
    }
    assert rounds[..|rounds|] == rounds;
  }

  /** The rounds, each of which puts its path into the ring of b. */
  method FillEntry(t: Topology, b: PathBuffer, srcAddr: nat, dst: OlsrNode, conf: nat, ff: Factors)
    returns (first: OlsrPath?, ghost rounds: seq<Round>)
    requires t.StoreOk() && dst in t.nodes && b.lstPath == null && b.ring == []
    requires Level(t.links) && forall l :: l in t.links ==> l.dijkstraCost == l.cost
    modifies b`lstPath, b`ring
    modifies t.nodes`dijkstraCost, t.nodes`dijkstraPath, t.nodes`dijkstraHops, t.nodes`dijkstraProcessed
    modifies t.links`dijkstraCost, t.links`dijkstraCostP1
    ensures b.RingOk() && first == Head(b.ring) && forall i :: 0 <= i < |b.ring| ==> fresh(b.ring[i])
    ensures HopsLeft(t.nodes, srcAddr) == old(HopsLeft(t.nodes, srcAddr))
    ensures RingHolds(b.ring, old(HopsLeft(t.nodes, srcAddr)), rounds)
    ensures RoundsOk(t.nodes, t.links, srcAddr, dst.addr, rounds, ff)
    ensures |rounds| == if Reachable(Wires(t.links), srcAddr, dst.addr) then conf else 0
  {
    hide Topology.StoreOk, Level, Arcs, BestRoute, HopsLeft, NextCost, Reachable, RoundsOk, RingHolds, CostAfter,
         PathBuffer.RingOk, ArcsUnder, Wires, Heads, Zeros;
    first := null;
    rounds := [];
    NoRounds(t, b, srcAddr, dst.addr, ff);
    var indexPath := 0;
    while indexPath < conf
      invariant 0 <= indexPath <= conf && |rounds| == indexPath
      invariant Level(t.links) && b.RingOk() && first == Head(b.ring)
      invariant HopsLeft(t.nodes, srcAddr) == old(HopsLeft(t.nodes, srcAddr))
      invariant RingHolds(b.ring, old(HopsLeft(t.nodes, srcAddr)), rounds)
      invariant forall i :: 0 <= i < |b.ring| ==> fresh(b.ring[i])
      invariant RoundsOk(t.nodes, t.links, srcAddr, dst.addr, rounds, ff)
      invariant forall l :: l in t.links ==> l.dijkstraCost == CostAfter(l, rounds, ff)
      invariant indexPath > 0 ==> Reachable(Wires(t.links), srcAddr, dst.addr)
    {
      ghost var costs := CostMap(t.links);
      CostsNow(t.links);
      SameReach(t.links, srcAddr, dst.addr);
      var path;
      ghost var w;
      path, w := FindPath(t, srcAddr, dst, ff);
      if path == null {
        return;
      }
      MoreRounds(t.nodes, t.links, srcAddr, dst.addr, rounds, ff, Round(costs, w));
      CostsLater(t.links, rounds, ff, Round(costs, w));
      first := AddPath(b, path, first, old(HopsLeft(t.nodes, srcAddr)), rounds, Round(costs, w));
      rounds := rounds + [Round(costs, w)];
      indexPath := indexPath + 1;
    }
  }

  /** The first path found is the one to start with; later ones go in after it. */
  method AddPath(b: PathBuffer, path: OlsrPath, first: OlsrPath?, ghost h: nat, ghost rounds: seq<Round>,
                 ghost r: Round)
    returns (start: OlsrPath)
    requires b.RingOk() && path !in b.ring && first == Head(b.ring)
    requires RingHolds(b.ring, h, rounds) && Holds(path, h, r.route)
    modifies b`lstPath, b`ring, b.ring`next, path`next
    ensures b.RingOk() && start == Head(b.ring) && RingHolds(b.ring, h, rounds + [r])
    ensures b.ring == if old(b.ring) == [] then [path] else [old(b.ring)[0], path] + old(b.ring)[1..]
  {
    hide Holds, RingHolds;
    ghost var ring := b.ring;
    if b.lstPath == null {
      start := path;
    } else {
      start := first;
    }
    b.Insert(path);
    RingHoldsStep(ring, h, rounds, path, r);
  }

  lemma RingHoldsStep(ring: seq<OlsrPath>, h: nat, rounds: seq<Round>, path: OlsrPath, r: Round)
    requires RingHolds(ring, h, rounds) && Holds(path, h, r.route)
    ensures RingHolds(if ring == [] then [path] else [ring[0], path] + ring[1..], h, rounds + [r])
  {
    hide Holds;
    var longer := if ring == [] then [path] else [ring[0], path] + ring[1..];
    forall i | 0 <= i < |longer|
      ensures Holds(longer[i], h, (rounds + [r])[if i == 0 then 0 else |longer| - i].route)
    {
      if i >= 2 {
        assert longer[i] == ring[i - 1];
      }
    }
  }

  lemma CostsLater(links: set<OlsrLink>, rounds: seq<Round>, ff: Factors, r: Round)
    requires r.costs.Keys == links
    ensures forall l :: l in links ==> CostAfter(l, rounds + [r], ff) == NextCost(l, r.costs[l], r.route, ff)
  {
  }

  lemma NoRounds(t: Topology, b: PathBuffer, s: nat, d: nat, ff: Factors)
    requires b.lstPath == null && b.ring == []
    ensures b.RingOk() && RoundsOk(t.nodes, t.links, s, d, [], ff) && forall h :: RingHolds(b.ring, h, [])
    ensures forall l :: l in t.links ==> CostAfter(l, [], ff) == l.cost
  {
  }

  // ---------- The cache entry ----------

  ghost function PathSet(ring: seq<OlsrPath>): set<OlsrPath> {
    set p | p in ring
  }

  /** A new entry whose paths are new leaves the cache well formed. */
  lemma EntryAdded(buffers: seq<PathBuffer>, paths: set<OlsrPath>, b: PathBuffer)
    requires RingsOk(buffers, paths) && b !in buffers && b.RingOk() && forall p :: p in b.ring ==> p !in paths
    ensures RingsOk([b] + buffers, paths + PathSet(b.ring))
  {
    hide PathBuffer.RingOk;
    var more := [b] + buffers;
    assert Distinct(more) by {
      DistinctCons(b, buffers);
    }
    forall c, p | c in more && p in c.ring
      ensures p in paths + PathSet(b.ring)
    {
      assert c == b || c in buffers;
    }
    ApartCons(b, buffers, paths);
  }

  lemma DistinctCons<T>(x: T, list: seq<T>)
    requires Distinct(list) && x !in list
    ensures Distinct([x] + list)
  {
  }

  lemma ApartCons(b: PathBuffer, buffers: seq<PathBuffer>, paths: set<OlsrPath>)
    requires Apart(buffers) && forall p :: p in b.ring ==> p !in paths
    requires forall c, p :: c in buffers && p in c.ring ==> p in paths
    ensures Apart([b] + buffers)
  {
    var more := [b] + buffers;
    forall i, j, p | 0 <= i < |more| && 0 <= j < |more| && i != j && p in more[i].ring
      ensures p !in more[j].ring
    {
      if i == 0 {
        assert more[j] == buffers[j - 1] && buffers[j - 1] in buffers;
      } else if j == 0 {
        assert more[i] == buffers[i - 1] && buffers[i - 1] in buffers;
      } else {
        assert more[i] == buffers[i - 1] && more[j] == buffers[j - 1];
      }
    }
  }

  /** Fills the entry b if its destination is a known address. */
  method FindPaths(t: Topology, b: PathBuffer, srcAddr: nat, dstAddr: nat, conf: nat, ff: Factors)
    returns (first: OlsrPath?, ghost rounds: seq<Round>)
    requires t.StoreOk() && b.lstPath == null && b.ring == []
    modifies b`lstPath, b`ring
    modifies t.nodes`dijkstraCost, t.nodes`dijkstraPath, t.nodes`dijkstraHops, t.nodes`dijkstraProcessed
    modifies t.links`dijkstraCost, t.links`dijkstraCostP1
    ensures b.RingOk() && first == Head(b.ring) && forall i :: 0 <= i < |b.ring| ==> fresh(b.ring[i])
    ensures HopsLeft(t.nodes, srcAddr) == old(HopsLeft(t.nodes, srcAddr))
    ensures EntryFilled(t, b.ring, srcAddr, dstAddr, conf, ff, old(HopsLeft(t.nodes, srcAddr)), rounds)
  {
    hide Topology.StoreOk, PathBuffer.RingOk, RoundsOk, Reachable, GetNode, Level, HopsLeft, RingHolds, Wires;
    first := null;
    rounds := [];
    EmptyRing(b);
    var dst := GetNode(t.hash, dstAddr);
    if dst != null {
      t.KnownNodes(dstAddr);
      ResetCosts(t);
      first, rounds := FillEntry(t, b, srcAddr, dst, conf, ff);
    }
  }

  /** A ring holds the paths of the rounds: conf of them if the node that owns dstAddr can be reached, none otherwise.
      */
  ghost predicate EntryFilled(t: Topology, ring: seq<OlsrPath>, srcAddr: nat, dstAddr: nat, conf: nat, ff: Factors,
                              h: nat, rounds: seq<Round>)
    requires |t.hash| == HASH_TAB_SIZE
    reads t`hash, t`nodes, t`links, t.nodes`outs
  {
    && RingHolds(ring, h, rounds)
    && (GetNode(t.hash, dstAddr) == null ==> rounds == [])
    && (GetNode(t.hash, dstAddr) != null ==> RoundsOk(t.nodes, t.links, srcAddr, GetNode(t.hash, dstAddr).addr, rounds,
                                                      ff))
    && (GetNode(t.hash, dstAddr) != null ==>
          |rounds| == if Reachable(Wires(t.links), srcAddr, GetNode(t.hash, dstAddr).addr) then conf else 0)
  }

  /** tc_k_dijstra: one new cache entry in front, filled if the destination can be reached. */
  method TcKDijkstra(t: Topology, srcAddr: nat, dstAddr: nat, conf: nat, ff: Factors)
    returns (first: OlsrPath?, ghost rounds: seq<Round>)
    requires t.Valid()
    modifies t`pathBuffers, t`paths
    modifies t.nodes`dijkstraCost, t.nodes`dijkstraPath, t.nodes`dijkstraHops, t.nodes`dijkstraProcessed
    modifies t.links`dijkstraCost, t.links`dijkstraCostP1
    ensures t.Valid() && fresh(t.paths - old(t.paths))
    ensures HopsLeft(t.nodes, srcAddr) == old(HopsLeft(t.nodes, srcAddr))
    ensures t.pathBuffers != [] && t.pathBuffers[1..] == old(t.pathBuffers)
    ensures fresh(t.pathBuffers[0]) && t.pathBuffers[0].src == srcAddr && t.pathBuffers[0].dst == dstAddr
    ensures first == Head(t.pathBuffers[0].ring)
    ensures EntryFilled(t, t.pathBuffers[0].ring, srcAddr, dstAddr, conf, ff, old(HopsLeft(t.nodes, srcAddr)), rounds)
  {
    hide Topology.StoreOk, RingsOk, PathBuffer.RingOk, EntryFilled, HopsLeft;
    var b := new PathBuffer(srcAddr, dstAddr);
    ghost var buffers, paths := t.pathBuffers, t.paths;
    t.pathBuffers := [b] + t.pathBuffers;
    first, rounds := FindPaths(t, b, srcAddr, dstAddr, conf, ff);
    EntryAdded(buffers, paths, b);
    t.paths := paths + PathSet(b.ring);
  }

  lemma EmptyRing(b: PathBuffer)
    requires b.lstPath == null && b.ring == []
    ensures b.RingOk() && forall h :: RingHolds(b.ring, h, [])
  {
  }

  // ---------- What the rounds mean ----------

  /** FP and FE never make a link cheaper. */
  ghost predicate Penalties(ff: Factors) {
    forall c :: ff.fp(c) >= c && ff.fe(c) >= c
  }

  /** The first path is a shortest path under the links' real costs. */
  lemma FirstIsShortest(nodes: set<OlsrNode>, links: set<OlsrLink>, s: nat, d: nat, rounds: seq<Round>, ff: Factors)
    requires RoundsOk(nodes, links, s, d, rounds, ff) && EndsOk(nodes, links) && rounds != []
    ensures BestRoute(Wires(links), s, rounds[0].route, d)
  {
    hide BestRoute;
    var r := rounds[0];
    assert RoundOk(nodes, links, s, d, r, rounds[..0], ff);
    assert ArcsUnder(links, r.costs) == Wires(links) by {
      forall l | l in links
        ensures r.costs[l] == l.cost
      {
      }
    }
  }

  /** What a round does to the price c of a link l. A link that enters a node of the route costs FP if it comes from the
      node before it there, and FE if it comes from elsewhere. Of the other links only the first that the second node
      lists back to the source changes its price, to FP; so no link is penalised twice. */
  lemma AfterRound(nodes: set<OlsrNode>, links: set<OlsrLink>, s: nat, d: nat, rounds: seq<Round>, ff: Factors, j: nat,
                   l: OlsrLink)
    requires RoundsOk(nodes, links, s, d, rounds, ff) && EndsOk(nodes, links) && j + 1 < |rounds| && l in links
    ensures l in rounds[j].costs && l in rounds[j + 1].costs
    ensures var c, c', w := rounds[j].costs[l], rounds[j + 1].costs[l], rounds[j].route;
            && (forall k :: 0 <= k < |w| && w[k].dst == l.dst.addr ==>
                              c' == if w[k].src == l.src.addr then ff.fp(c) else ff.fe(c))
            && ((forall k :: 0 <= k < |w| ==> w[k].dst != l.dst.addr) ==>
                  var back := w != [] && l.src.addr == w[0].dst && l.dst.addr == s
                              && exists i :: 0 <= i < |l.src.outs| && l.src.outs[i] == l
                                             && forall k :: 0 <= k < i ==> l.src.outs[k].dst.addr != s;
                  c' == if back then ff.fp(c) else c)
  {
    hide BestRoute, NextCost, ArcsUnder;
    assert RoundOk(nodes, links, s, d, rounds[j], rounds[..j], ff);
    assert RoundOk(nodes, links, s, d, rounds[j + 1], rounds[..j + 1], ff);
    assert rounds[..j + 1][j] == rounds[j];
    BestIsSimple(ArcsUnder(links, rounds[j].costs), s, rounds[j].route, d);
    PriceOf(l, rounds[j].costs[l], rounds[j].route, ff, s);
  }

  lemma BestIsSimple(g: set<Arc>, s: nat, w: seq<Arc>, d: nat)
    requires BestRoute(g, s, w, d)
    ensures Simple(s, w) && (w != [] ==> w[0].src == s)
  {
  }

  lemma PriceOf(l: OlsrLink, c: nat, w: seq<Arc>, ff: Factors, s: nat)
    requires Simple(s, w) && (w != [] ==> w[0].src == s)
    ensures forall k :: 0 <= k < |w| && w[k].dst == l.dst.addr ==>
                          NextCost(l, c, w, ff) == if w[k].src == l.src.addr then ff.fp(c) else ff.fe(c)
    ensures (forall k :: 0 <= k < |w| ==> w[k].dst != l.dst.addr) ==>
              var back := w != [] && l.src.addr == w[0].dst && l.dst.addr == s
                          && exists i :: 0 <= i < |l.src.outs| && l.src.outs[i] == l
                                         && forall k :: 0 <= k < i ==> l.src.outs[k].dst.addr != s;
              NextCost(l, c, w, ff) == if back then ff.fp(c) else c
  {
    forall k | 0 <= k < |w| && w[k].dst == l.dst.addr
      ensures Enters(l, w) && (Along(l, w) <==> w[k].src == l.src.addr)
    {
      if i :| 0 <= i < |w| && w[i].src == l.src.addr && w[i].dst == l.dst.addr {
        assert i == k;
      }
    }
    if forall k :: 0 <= k < |w| ==> w[k].dst != l.dst.addr {
      assert !Enters(l, w) && !Along(l, w);
    }
  }

  /** A walk under dearer prices has a twin under cheaper ones that costs no more. */
  lemma {:induction false} CheaperTwin(links: set<OlsrLink>, low: map<OlsrLink, nat>, high: map<OlsrLink, nat>, s: nat,
                                       w: seq<Arc>, d: nat)
    returns (w': seq<Arc>)
    requires low.Keys == links && high.Keys == links && forall l :: l in links ==> low[l] <= high[l]
    requires IsWalk(ArcsUnder(links, high), s, w, d)
    ensures IsWalk(ArcsUnder(links, low), s, w', d) && WalkCost(w') <= WalkCost(w)
    decreases |w|
  {
    if w == [] {
      w' := [];
    } else {
      var l :| l in links && w[0] == Arc(l.src.addr, l.dst.addr, high[l]);
      var b := Arc(l.src.addr, l.dst.addr, low[l]);
      var rest := CheaperTwin(links, low, high, w[0].dst, w[1..], d);
      w' := [b] + rest;
      assert b in ArcsUnder(links, low);
      assert w'[1..] == rest;
    }
  }

  /** Later paths are never cheaper: the price of the best route does not fall from one round to the next. */
  lemma PricesRise(nodes: set<OlsrNode>, links: set<OlsrLink>, s: nat, d: nat, rounds: seq<Round>, ff: Factors, j: nat)
    requires RoundsOk(nodes, links, s, d, rounds, ff) && EndsOk(nodes, links) && Penalties(ff) && j + 1 < |rounds|
    ensures WalkCost(rounds[j].route) <= WalkCost(rounds[j + 1].route)
  {
    hide ArcsUnder, IsWalk, Simple, WalkCost;
    assert RoundOk(nodes, links, s, d, rounds[j], rounds[..j], ff);
    assert RoundOk(nodes, links, s, d, rounds[j + 1], rounds[..j + 1], ff);
    forall l | l in links
      ensures rounds[j].costs[l] <= rounds[j + 1].costs[l]
    {
      AfterRound(nodes, links, s, d, rounds, ff, j, l);
    }
    var twin := CheaperTwin(links, rounds[j].costs, rounds[j + 1].costs, s, rounds[j + 1].route, d);
  }

  /** path_hops is the number of links of the path exactly when the source's hop count was 0. */
  lemma HopsExact(ring: seq<OlsrPath>, h: nat, rounds: seq<Round>, i: nat)
    requires RingHolds(ring, h, rounds) && i < |ring|
    ensures var w := rounds[if i == 0 then 0 else |ring| - i].route;
            && (ring[i].pathHops == |w| <==> h == 0)
            && ring[i].path[h..] == Heads(w)
  {
    var w := rounds[if i == 0 then 0 else |ring| - i].route;
    assert Holds(ring[i], h, w);
    assert ring[i].path[h..] == Heads(w);
  }

  const PAIR: set<Arc> := {Arc(1, 2, 1), Arc(2, 1, 1)}

  lemma NoRepeat(w: seq<Arc>, a: Arc)
    requires forall i :: 0 <= i < |w| ==> w[i] == a
    requires forall i, j :: 0 <= i < j < |w| ==> w[i].dst != w[j].dst
    ensures |w| <= 1
  {
    var last := |w| - 1;
    assert 0 < last ==> w[0].dst != w[last].dst;
  }

  /** A cheapest route between the two is the one arc. */
  lemma PairRoute(s: nat, d: nat, w: seq<Arc>)
    requires (s == 1 && d == 2) || (s == 2 && d == 1)
    requires Simple(s, w) && d == At(s, w, |w|) && forall a :: a in w ==> a in PAIR
    ensures w == [Arc(s, d, 1)]
  {
    assert forall i :: 0 <= i < |w| ==> w[i] in PAIR && w[i].dst != s;
    assert forall i :: 0 <= i < |w| ==> w[i] == Arc(s, d, 1);
    NoRepeat(w, Arc(s, d, 1));
  }

  lemma OneHop(s: nat, d: nat, st: Search)
    requires (s == 1 && d == 2) || (s == 2 && d == 1)
    requires Final(PAIR, {1, 2}, s, st)
    ensures CostOf(st, d) == Fin(1) && HopsOf(st, d) == HopsOf(st, s) + 1
  {
    var a := Arc(s, d, 1);
    assert IsWalk(PAIR, s, [a], d) && WalkCost([a]) == 1 by {
      assert [a][1..] == [];
    }
    hide Final, HopsOf, CostOf, IsWalk, WalkCost, Follows, Simple;
    FinalDistances(PAIR, {1, 2}, s, st, d);
    var w := RouteFacts(PAIR, {1, 2}, s, st, d);
    PairRoute(s, d, w);
  }

  /** Hop counts survive from one search to the next: with two nodes linked both ways, a search from 2 and then one from
      1 leave node 2 at hop count 2, one link away. */
  lemma StaleHops(first: Search, second: Search)
    requires Final(PAIR, {1, 2}, 2, first) && HopsOf(first, 2) == 0
    requires Final(PAIR, {1, 2}, 1, second) && HopsOf(second, 1) == HopsOf(first, 1)
    ensures CostOf(second, 2) == Fin(1) && HopsOf(second, 2) == 2
  {
    OneHop(2, 1, first);
    OneHop(1, 2, second);
  }

  /** Two nodes. */
  method PairNodes() returns (t: Topology, n1: OlsrNode, n2: OlsrNode)
    ensures fresh(t) && fresh(t.nodes) && t.Valid() && t.nodes == {n1, n2} && t.links == {} && t.paths == {}
    ensures n1.addr == 1 && n2.addr == 2 && n1.dijkstraHops == n2.dijkstraHops == 0
  {
    hide Topology.StoreOk, RingsOk, GetNode;
    t := new Topology();
    t.KnownNodes(1);
    t.AddNode(1);
    n1 := t.nodeLst[0];
    OnlyOneAddr(t, n1);
    t.AddNode(2);
    n2 := t.nodeLst[0];
  }

  /** Two nodes linked both ways. */
  method PairStore() returns (t: Topology, n1: OlsrNode, n2: OlsrNode, ghost l: OlsrLink, ghost m: OlsrLink)
    ensures fresh(t) && fresh(t.nodes) && fresh(t.links) && t.StoreOk()
    ensures t.nodes == {n1, n2} && n1.addr == 1 && n2.addr == 2 && n1.dijkstraHops == n2.dijkstraHops == 0
    ensures t.links == {l, m} && l.src == m.dst == n1 && l.dst == m.src == n2 && l.cost == m.cost == 1
  {
    hide Topology.StoreOk, RingsOk, GetNode;
    t, n1, n2 := PairNodes();
    MainAddrFound(t, n1);
    MainAddrFound(t, n2);
    l := t.AddLink(1, 2, 1);
    m := t.AddLink(2, 1, 1);
  }

  lemma OnlyOneAddr(t: Topology, n: OlsrNode)
    requires t.StoreOk() && t.nodes == {n} && n.addrTab == [Some(1), None, None, None, None]
    ensures GetNode(t.hash, 2) == null
  {
    LookupAgrees(t.nodes, t.hash, 2);
  }

  lemma PairArcs(t: Topology, n1: OlsrNode, n2: OlsrNode, l: OlsrLink, m: OlsrLink)
    requires t.links == {l, m} && l.src == m.dst == n1 && l.dst == m.src == n2 && n1.addr == 1 && n2.addr == 2
    requires t.nodes == {n1, n2} && l.dijkstraCost == m.dijkstraCost == 1
    ensures Arcs(t.links) == PAIR && Addrs(t.nodes) == {1, 2}
    ensures HopsLeft(t.nodes, 1) == n1.dijkstraHops && HopsLeft(t.nodes, 2) == n2.dijkstraHops
  {
  }

  /** The search of a lookup from 2 leaves node 1 at hop count 1. */
  method PairSearched() returns (t: Topology, n1: OlsrNode, n2: OlsrNode, ghost first: Search)
    ensures fresh(t) && fresh(t.nodes) && fresh(t.links) && t.StoreOk()
    ensures t.nodes == {n1, n2} && n1.addr == 1 && n2.addr == 2
    ensures Arcs(t.links) == PAIR && Addrs(t.nodes) == {1, 2} && Level(t.links)
    ensures Final(PAIR, {1, 2}, 2, first) && HopsOf(first, 2) == 0
    ensures HopsLeft(t.nodes, 1) == HopsOf(first, 1) == 1
  {
    hide Topology.StoreOk, RingsOk, Arcs, Addrs, HopsLeft, Mirrors, Final, HopsMap, Start, HopsOf, Level;
    ghost var l, m;
    t, n1, n2, l, m := PairStore();
    ResetCosts(t);
    PairArcs(t, n1, n2, l, m);
    SourceHops(t.nodes, 2);
    first := Dijkstra(t, 2);
    FinalAt(t, PAIR, {1, 2}, 2, first, n1);
    OneHop(2, 1, first);
    PairArcs(t, n1, n2, l, m);
  }

  /** The next search, from 1, ends with node 2 at hop count 2, one link away. */
  method StaleRun() returns (n2: OlsrNode)
    ensures n2.dijkstraCost == Fin(1) && n2.dijkstraHops == 2
  {
    hide Topology.StoreOk, RingsOk, Arcs, Addrs, HopsLeft, Mirrors, Final, HopsMap, Start, HopsOf, CostOf, Level;
    var t, n1;
    ghost var first;
    t, n1, n2, first := PairSearched();
    SourceHops(t.nodes, 1);
    ghost var second := Dijkstra(t, 1);
    FinalAt(t, PAIR, {1, 2}, 1, second, n2);
    StaleHops(first, second);
  }

  /** A lookup from 1 to 2 after one from 2 gives a path with an entry in front that was never written. */
  method StalePath(ff: Factors) returns (path: OlsrPath?)
    ensures path != null && path.path == [0, 2] && path.pathHops == 2
  {
    hide Topology.StoreOk, RingsOk, Arcs, Addrs, HopsLeft, Level, BestRoute, Reachable;
    var t, n1, n2;
    ghost var first, w;
    t, n1, n2, first := PairSearched();
    PairReaches();
    path, w := FindPath(t, 1, n2, ff);
    PairBest(w);
  }

  lemma PairReaches()
    ensures Reachable(PAIR, 1, 2)
  {
    assert [Arc(1, 2, 1)][1..] == [];
    assert IsWalk(PAIR, 1, [Arc(1, 2, 1)], 2);
  }

  lemma PairBest(w: seq<Arc>)
    requires BestRoute(PAIR, 1, w, 2)
    ensures Zeros(1) + Heads(w) == [0, 2]
  {
    WalkArcs(PAIR, 1, w, 2);
    PairRoute(1, 2, w);
    assert Zeros(1) == [0];
  }
}
