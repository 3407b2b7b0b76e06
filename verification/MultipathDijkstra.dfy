/** Shortest paths in the multipath engine: the list-based Dijkstra that writes its result into the nodes. */
module MultipathDijkstra {
  import opened Common
  import opened ShortestPaths
  import opened MultipathTopology

  /** The graph under the current working costs of the links. */
  ghost function Arcs(links: set<OlsrLink>): set<Arc>
    reads links`dijkstraCost
  {
    set l | l in links :: ArcOf(l)
  }

  ghost function ArcOf(l: OlsrLink): Arc
    reads l`dijkstraCost
  {
    Arc(l.src.addr, l.dst.addr, l.dijkstraCost)
  }

  ghost function Addrs(nodes: set<OlsrNode>): set<nat> {
    set n | n in nodes :: n.addr
  }

  ghost predicate DifferentAddrs(nodes: set<OlsrNode>) {
    forall m, n :: m in nodes && n in nodes && m.addr == n.addr ==> m == n
  }

  lemma StoreAddrsDiffer(t: Topology)
    requires t.StoreOk()
    ensures DifferentAddrs(t.nodes) && Graph(Arcs(t.links), Addrs(t.nodes)) && NodeListOk(t.nodeLst, t.nodes)
  {
    forall m, n | m in t.nodes && n in t.nodes && m.addr == n.addr
      ensures m == n
    {
      assert m.addrTab[0] == Some(m.addr) && n.addrTab[0] == Some(n.addr);
      OneOwner(t.nodes, t.hash, m, n, m.addr);
    }
  }

  /** The working fields of one node are the search's values for its address. */
  ghost predicate NodeMirrors(n: OlsrNode, nodes: set<OlsrNode>, st: Search)
    reads n`dijkstraCost, n`dijkstraPath, n`dijkstraHops, n`dijkstraProcessed
  {
    && n.dijkstraCost == CostOf(st, n.addr)
    && n.dijkstraHops == HopsOf(st, n.addr)
    && (n.dijkstraProcessed <==> n.addr in st.done)
    && (n.dijkstraPath == null <==> n.addr !in st.parent)
    && (n.dijkstraPath != null ==> n.dijkstraPath in nodes && n.dijkstraPath.addr == st.parent[n.addr].src)
  }

  ghost predicate Mirrors(nodes: set<OlsrNode>, st: Search)
    reads nodes`dijkstraCost, nodes`dijkstraPath, nodes`dijkstraHops, nodes`dijkstraProcessed
  {
    forall n :: n in nodes ==> NodeMirrors(n, nodes, st)
  }

  /** The body of the relaxation loop. */
  method RelaxLink(node: OlsrNode, link: OlsrLink, ghost nodes: set<OlsrNode>, ghost st: Search, ghost g: set<Arc>,
                   ghost addrs: set<nat>, ghost s: nat, ghost relaxed: set<Arc>)
    returns (ghost st': Search)
    requires DifferentAddrs(nodes) && Mirrors(nodes, st) && node in nodes && link.src == node && link.dst in nodes
    requires Inv(g, addrs, s, st, relaxed) && ArcOf(link) in g && Costliest(st, node.addr)
    modifies link.dst`dijkstraCost, link.dst`dijkstraPath, link.dst`dijkstraHops
    ensures Mirrors(nodes, st') && st' == Relax(st, ArcOf(link))
    ensures Inv(g, addrs, s, st', relaxed + {ArcOf(link)}) && Costliest(st', node.addr)
    ensures st'.done == st.done && HopsOf(st', s) == HopsOf(st, s)
  {
    hide Inv;
    ghost var a := ArcOf(link);
    RelaxEffect(g, addrs, s, st, relaxed, a);
    RelaxInv(g, addrs, s, st, relaxed, a);
    st' := Relax(st, a);
    assert NodeMirrors(node, nodes, st) && NodeMirrors(link.dst, nodes, st);
    if !link.dst.dijkstraProcessed {
      var minCost := Fin(node.dijkstraCost.c + link.dijkstraCost);
      if Less(minCost, link.dst.dijkstraCost) {
        link.dst.dijkstraCost := minCost;
        link.dst.dijkstraPath := node;
        link.dst.dijkstraHops := node.dijkstraHops + 1;
      }
    }
    forall n | n in nodes
      ensures NodeMirrors(n, nodes, st')
    {
      assert old(NodeMirrors(n, nodes, st));
      if n != link.dst {
        assert n.addr != link.dst.addr;
      }
    }
  }

  /** Everything the relaxation of one node needs to know about the store. */
  ghost predicate Frozen(t: Topology, g: set<Arc>, addrs: set<nat>)
    reads t`nodes, t`links, t.links`dijkstraCost
  {
    && DifferentAddrs(t.nodes) && EndsOk(t.nodes, t.links)
    && g == Arcs(t.links) && addrs == Addrs(t.nodes)
  }

  ghost function OutArcs(node: OlsrNode, i: nat): set<Arc>
    requires i <= |node.outs|
    reads node`outs, node.outs`dijkstraCost
  {
    set j | 0 <= j < i :: ArcOf(node.outs[j])
  }

  /** Relaxes every link that leaves node, which was settled last. */
  method RelaxNode(t: Topology, node: OlsrNode, ghost st0: Search, ghost g: set<Arc>, ghost addrs: set<nat>,
                   ghost s: nat,
                   ghost relaxed: set<Arc>)
    returns (ghost st: Search)
    requires Frozen(t, g, addrs) && node in t.nodes && node.OutsOk() && (forall l :: l in node.outs ==> l in t.links)
    requires Mirrors(t.nodes, st0) && Inv(g, addrs, s, st0, relaxed) && Costliest(st0, node.addr)
    modifies t.nodes`dijkstraCost, t.nodes`dijkstraPath, t.nodes`dijkstraHops
    ensures Mirrors(t.nodes, st) && Inv(g, addrs, s, st, relaxed + OutArcs(node, |node.outs|))
    ensures st.done == st0.done && HopsOf(st, s) == HopsOf(st0, s)
  {
    hide Inv, Mirrors, HopsOf, Costliest, OutArcs;
    st := st0;
    var link := node.linkSrc;
    ghost var i := 0;
    NoOutArcs(node, relaxed);
    while link != null
      invariant 0 <= i <= |node.outs| && link == Nth(node.outs, i)
      invariant Mirrors(t.nodes, st) && Costliest(st, node.addr)
      invariant Inv(g, addrs, s, st, relaxed + OutArcs(node, i))
      invariant st.done == st0.done && HopsOf(st, s) == HopsOf(st0, s)
      decreases |node.outs| - i
    {
      OutArcsStep(node, i, relaxed);
      assert link in node.outs;
      st := RelaxLink(node, link, t.nodes, st, g, addrs, s, relaxed + OutArcs(node, i));
      i := i + 1;
      link := link.srcNext;
    }
  }

  lemma NoOutArcs(node: OlsrNode, relaxed: set<Arc>)
    ensures relaxed + OutArcs(node, 0) == relaxed
  {
  }

  lemma OutArcsStep(node: OlsrNode, i: nat, relaxed: set<Arc>)
    requires i < |node.outs|
    ensures relaxed + OutArcs(node, i + 1) == relaxed + OutArcs(node, i) + {ArcOf(node.outs[i])}
  {
  }

  /** The out-list of a node gives exactly the arcs that leave it. */
  lemma OutArcsAll(t: Topology, node: OlsrNode)
    requires t.StoreOk() && node in t.nodes && DifferentAddrs(t.nodes)
    ensures OutArcs(node, |node.outs|) == set a | a in Arcs(t.links) && a.src == node.addr
  {
    assert ListsOk(node, t.links, t.links);
    forall a | a in Arcs(t.links) && a.src == node.addr
      ensures a in OutArcs(node, |node.outs|)
    {
      var l :| l in t.links && ArcOf(l) == a;
      assert l.src == node;
      var j :| 0 <= j < |node.outs| && node.outs[j] == l;
    }
    forall a | a in OutArcs(node, |node.outs|)
      ensures a in Arcs(t.links) && a.src == node.addr
    {
      var j :| 0 <= j < |node.outs| && ArcOf(node.outs[j]) == a;
      assert node.outs[j] in t.links;
    }
  }

  /** The list of nodes still to process. */
  ghost predicate TodoOk(todo: seq<OlsrNode>, nodes: set<OlsrNode>, st: Search) {
    && Distinct(todo)
    && (forall n :: n in todo ==> n in nodes && n.addr !in st.done)
    && forall n :: n in nodes && n.addr !in st.done ==> n in todo
  }

  /** The first node of least cost below the maximum value, or -1. */
  method SelectMin(todo: seq<OlsrNode>) returns (best: int)
    ensures -1 <= best < |todo|
    ensures best == -1 ==> forall i :: 0 <= i < |todo| ==> todo[i].dijkstraCost.Inf?
    ensures best >= 0 ==> todo[best].dijkstraCost.Fin?
    ensures best >= 0 ==> forall i :: 0 <= i < |todo| ==> AtMost(todo[best].dijkstraCost, todo[i].dijkstraCost)
    ensures best >= 0 ==> forall i :: 0 <= i < best ==> !AtMost(todo[i].dijkstraCost, todo[best].dijkstraCost)
  {
    best := -1;
    var minCost := Inf;
    var i := 0;
    while i < |todo|
      invariant 0 <= i <= |todo| && -1 <= best < i
      invariant minCost == if best == -1 then Inf else todo[best].dijkstraCost
      invariant best >= 0 ==> minCost.Fin?
      invariant forall j :: 0 <= j < i ==> AtMost(minCost, todo[j].dijkstraCost)
      invariant best >= 0 ==> forall j :: 0 <= j < best ==> !AtMost(todo[j].dijkstraCost, minCost)
    {
      if Less(todo[i].dijkstraCost, minCost) {
        best := i;
        minCost := todo[i].dijkstraCost;
      }
      i := i + 1;
    }
  }

  /** Takes the cheapest node off the list and marks it processed. */
  method SettleNode(todo: seq<OlsrNode>, best: nat, node: OlsrNode, ghost nodes: set<OlsrNode>, ghost st: Search,
                    ghost g: set<Arc>,
                    ghost addrs: set<nat>, ghost s: nat, ghost relaxed: set<Arc>)
    returns (rest: seq<OlsrNode>)
    requires best < |todo| && todo[best] == node && TodoOk(todo, nodes, st) && DifferentAddrs(nodes)
             && addrs == Addrs(nodes)
    requires Mirrors(nodes, st) && Inv(g, addrs, s, st, relaxed)
    requires todo[best].dijkstraCost.Fin?
    requires forall i :: 0 <= i < |todo| ==> AtMost(todo[best].dijkstraCost, todo[i].dijkstraCost)
    modifies node`dijkstraProcessed
    ensures rest == RemoveAt(todo, best)
    ensures Mirrors(nodes, Settle(st, node.addr)) && TodoOk(rest, nodes, Settle(st, node.addr))
    ensures Inv(g, addrs, s, Settle(st, node.addr), relaxed) && Costliest(Settle(st, node.addr), node.addr)
  {
    hide Inv;
    CheapestListed(todo, best, nodes, st, addrs);
    SettleInv(g, addrs, s, st, relaxed, node.addr);
    RemoveAtIndex(todo, best);
    rest := RemoveAt(todo, best);
    node.dijkstraProcessed := true;
    ghost var st' := Settle(st, node.addr);
    forall n | n in nodes
      ensures NodeMirrors(n, nodes, st')
    {
      assert old(NodeMirrors(n, nodes, st));
    }
    assert forall n: OlsrNode :: n in nodes && n.addr == node.addr ==> n == node;
    forall n: OlsrNode | n in nodes && n.addr !in st'.done
      ensures n in rest
    {
      var i :| 0 <= i < |todo| && todo[i] == n;
      assert rest[if i < best then i else i - 1] == n;
    }
  }

  lemma CheapestListed(todo: seq<OlsrNode>, best: nat, nodes: set<OlsrNode>, st: Search, addrs: set<nat>)
    requires best < |todo| && TodoOk(todo, nodes, st) && Mirrors(nodes, st) && addrs == Addrs(nodes)
    requires todo[best].dijkstraCost.Fin?
    requires forall i :: 0 <= i < |todo| ==> AtMost(todo[best].dijkstraCost, todo[i].dijkstraCost)
    ensures Cheapest(addrs, st, todo[best].addr)
  {
    assert NodeMirrors(todo[best], nodes, st);
    forall v | v in addrs && v !in st.done
      ensures AtMost(CostOf(st, todo[best].addr), CostOf(st, v))
    {
      var n: OlsrNode :| n in nodes && n.addr == v;
      assert NodeMirrors(n, nodes, st);
      var i :| 0 <= i < |todo| && todo[i] == n;
    }
  }

  ghost function NodeAt(nodes: set<OlsrNode>, a: nat): (n: OlsrNode)
    requires a in Addrs(nodes)
    ensures n in nodes && n.addr == a
  {
    var n: OlsrNode :| n in nodes && n.addr == a;
    n
  }

  ghost function HopsMap(nodes: set<OlsrNode>): (hops: map<nat, nat>)
    reads nodes`dijkstraHops
    ensures hops.Keys == Addrs(nodes)
  {
    map a | a in Addrs(nodes) :: NodeAt(nodes, a).dijkstraHops
  }

  /** The initialisation loop. Hop counts are left as an earlier run left them. */
  method InitSearch(t: Topology, srcAddr: nat) returns (nodeList: seq<OlsrNode>)
    requires NodeListOk(t.nodeLst, t.nodes) && DifferentAddrs(t.nodes)
    modifies t.nodes`dijkstraCost, t.nodes`dijkstraPath, t.nodes`dijkstraProcessed
    ensures var st := Start(Addrs(t.nodes), srcAddr, HopsMap(t.nodes));
            Mirrors(t.nodes, st) && TodoOk(nodeList, t.nodes, st)
  {
    nodeList := [];
    var i := 0;
    while i < |t.nodeLst|
      invariant 0 <= i <= |t.nodeLst|
      invariant |nodeList| == i && forall j :: 0 <= j < i ==> nodeList[i - 1 - j] == t.nodeLst[j]
      invariant forall j :: 0 <= j < i ==> Cleared(t.nodeLst[j], srcAddr)
    {
      var node := t.nodeLst[i];
      node.dijkstraProcessed := false;
      node.dijkstraPath := null;
      nodeList := [node] + nodeList;
      if node.addr == srcAddr {
        node.dijkstraCost := Fin(0);
      } else {
        node.dijkstraCost := Inf;
      }
      i := i + 1;
    }
    AllCleared(t, srcAddr, nodeList);
  }

  ghost predicate Cleared(n: OlsrNode, srcAddr: nat)
    reads n`dijkstraCost, n`dijkstraPath, n`dijkstraProcessed
  {
    n.dijkstraPath == null && !n.dijkstraProcessed && n.dijkstraCost == if n.addr == srcAddr then Fin(0) else Inf
  }

  lemma AllCleared(t: Topology, srcAddr: nat, nodeList: seq<OlsrNode>)
    requires NodeListOk(t.nodeLst, t.nodes) && DifferentAddrs(t.nodes)
    requires |nodeList| == |t.nodeLst| && forall j :: 0 <= j < |nodeList| ==>
                                            nodeList[|nodeList| - 1 - j] == t.nodeLst[j]
    requires forall j :: 0 <= j < |t.nodeLst| ==> Cleared(t.nodeLst[j], srcAddr)
    ensures var st := Start(Addrs(t.nodes), srcAddr, HopsMap(t.nodes));
            Mirrors(t.nodes, st) && TodoOk(nodeList, t.nodes, st)
  {
    var st := Start(Addrs(t.nodes), srcAddr, HopsMap(t.nodes));
    forall n | n in t.nodes
      ensures NodeMirrors(n, t.nodes, st) && n in nodeList
    {
      var j :| 0 <= j < |t.nodeLst| && t.nodeLst[j] == n;
      assert Cleared(n, srcAddr);
      assert nodeList[|nodeList| - 1 - j] == n;
    }
    assert forall j :: 0 <= j < |nodeList| ==> nodeList[j] == t.nodeLst[|nodeList| - 1 - j];
  }

  /** dijkstra: afterwards the nodes hold a finished search from srcAddr. */
  method Dijkstra(t: Topology, srcAddr: nat) returns (ghost st: Search)
    requires t.StoreOk()
    modifies t.nodes`dijkstraCost, t.nodes`dijkstraPath, t.nodes`dijkstraHops, t.nodes`dijkstraProcessed
    ensures Mirrors(t.nodes, st) && Final(Arcs(t.links), Addrs(t.nodes), srcAddr, st)
    ensures HopsOf(st, srcAddr) == HopsOf(Start(Addrs(t.nodes), srcAddr, old(HopsMap(t.nodes))), srcAddr)
  {
    hide Inv, Mirrors, HopsOf, TodoOk, Arcs, Addrs, ShortestPaths.Leaving, HopsMap, Start, Topology.StoreOk, Final,
         NodeListOk, DifferentAddrs, Graph;
    ghost var g, addrs := Arcs(t.links), Addrs(t.nodes);
    StoreAddrsDiffer(t);
    ghost var hops := HopsMap(t.nodes);
    var nodeList := InitSearch(t, srcAddr);
    st := Start(addrs, srcAddr, hops);
    StartInv(g, addrs, srcAddr, hops);
    NothingSettled(g, addrs, srcAddr, hops);
    while nodeList != []
      invariant Mirrors(t.nodes, st) && TodoOk(nodeList, t.nodes, st)
      invariant Inv(g, addrs, srcAddr, st, ShortestPaths.Leaving(g, st.done))
      invariant HopsOf(st, srcAddr) == HopsOf(Start(addrs, srcAddr, hops), srcAddr)
      decreases |nodeList|
    {
      var best := SelectMin(nodeList);
      if best == -1 {
        break;
      }
      var node := nodeList[best];
      st, nodeList := Step(t, nodeList, best, node, st, g, addrs, srcAddr);
    }
    NothingLeft(t, nodeList, st, g, addrs, srcAddr);
  }

  lemma NothingSettled(g: set<Arc>, addrs: set<nat>, s: nat, hops: map<nat, nat>)
    ensures ShortestPaths.Leaving(g, Start(addrs, s, hops).done) == {}
  {
  }

  lemma NothingLeft(t: Topology, nodeList: seq<OlsrNode>, st: Search, g: set<Arc>, addrs: set<nat>, s: nat)
    requires addrs == Addrs(t.nodes) && Mirrors(t.nodes, st) && TodoOk(nodeList, t.nodes, st)
    requires Inv(g, addrs, s, st, ShortestPaths.Leaving(g, st.done))
    requires forall i :: 0 <= i < |nodeList| ==> nodeList[i].dijkstraCost.Inf?
    ensures Final(g, addrs, s, st)
  {
    hide Inv;
    forall v | v in addrs && CostOf(st, v).Fin?
      ensures v in st.done
    {
      var n := NodeAt(t.nodes, v);
      assert NodeMirrors(n, t.nodes, st);
    }
  }

  /** One round of the main loop: settle the cheapest node, then relax its links. */
  method Step(t: Topology, nodeList: seq<OlsrNode>, best: nat, node: OlsrNode, ghost st: Search, ghost g: set<Arc>,
              ghost addrs: set<nat>, ghost s: nat)
    returns (ghost st': Search, rest: seq<OlsrNode>)
    requires t.StoreOk() && g == Arcs(t.links) && addrs == Addrs(t.nodes)
    requires best < |nodeList| && nodeList[best] == node && TodoOk(nodeList, t.nodes, st) && Mirrors(t.nodes, st)
    requires Inv(g, addrs, s, st, ShortestPaths.Leaving(g, st.done))
    requires node.dijkstraCost.Fin?
    requires forall i :: 0 <= i < |nodeList| ==> AtMost(node.dijkstraCost, nodeList[i].dijkstraCost)
    modifies t.nodes`dijkstraCost, t.nodes`dijkstraPath, t.nodes`dijkstraHops, t.nodes`dijkstraProcessed
    ensures |rest| == |nodeList| - 1 && Mirrors(t.nodes, st') && TodoOk(rest, t.nodes, st')
    ensures Inv(g, addrs, s, st', ShortestPaths.Leaving(g, st'.done))
    ensures HopsOf(st', s) == HopsOf(st, s)
  {
    hide Inv, Mirrors, Costliest, ShortestPaths.Leaving, Threaded, HashOk, NodeListOk, OutArcs;
    StoreAddrsDiffer(t);
    OutArcsAll(t, node);
    ListsOf(t.nodes, t.links, t.links, node);
    ghost var relaxed := ShortestPaths.Leaving(g, st.done);
    rest := SettleNode(nodeList, best, node, t.nodes, st, g, addrs, s, relaxed);
    ghost var mid := Settle(st, node.addr);
    LeavingSettled(g, st, node.addr);
    assert HopsOf(mid, s) == HopsOf(st, s);
    st' := RelaxNode(t, node, mid, g, addrs, s, relaxed);
    assert TodoOk(rest, t.nodes, st');
  }

  lemma LeavingSettled(g: set<Arc>, st: Search, u: nat)
    ensures ShortestPaths.Leaving(g, Settle(st, u).done) == ShortestPaths.Leaving(g, st.done) + set a | a in g
            && a.src == u
  {
  }
}
