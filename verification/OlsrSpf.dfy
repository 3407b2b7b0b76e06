/** The shortest path first run of olsrd: a candidate tree keyed by path cost, the path list it yields, and next hops
    that are handed down from the neighbours. */
module OlsrSpf {
  import opened Common
  import LinkQuality
  import opened ShortestPaths

  const ROUTE_COST_BROKEN: nat := 0xffff_ffff
  const MAX_ENTRIES: nat := 1023

  /** An edge of the link state database: its cost comes from the link quality (LinkQuality.CalcCost); inv is the entry
      that owns the inverse edge, if there is one. */
  datatype TcEdge = TcEdge(dest: nat, cost: LinkCost, inv: TcEntry?)

  class TcEntry {
    const addr: nat
    var edges: seq<TcEdge>
    var pathCost: nat
    var nextHop: Option<nat>     // a link
    var hops: nat

    constructor (addr: nat)
      ensures this.addr == addr && edges == [] && nextHop == None
    {
      this.addr, edges, pathCost, nextHop, hops := addr, [], ROUTE_COST_BROKEN, None, 0;
    }
  }

  // ---------- The graph ----------

  /** The edges that have an inverse. */
  ghost function UsableOf(tc: TcEntry, n: nat): set<Arc>
    requires n <= |tc.edges|
    reads tc`edges
  {
    set i | 0 <= i < n && tc.edges[i].inv != null :: Arc(tc.addr, (tc.edges[i].inv as TcEntry).addr, tc.edges[i].cost)
  }

  ghost function Usable(tcs: set<TcEntry>): set<Arc>
    reads tcs`edges
  {
    set tc, a | tc in tcs && a in UsableOf(tc, |tc.edges|) :: a
  }

  ghost function Addrs(tcs: set<TcEntry>): set<nat> {
    set tc | tc in tcs :: tc.addr
  }

  ghost predicate DifferentAddrs(tcs: set<TcEntry>) {
    forall a, b :: a in tcs && b in tcs && a.addr == b.addr ==> a == b
  }

  /** The inverse of an edge belongs to the entry it leads to. */
  ghost predicate EdgeOk(tcs: set<TcEntry>, e: TcEdge) {
    e.inv != null ==> e.inv in tcs && e.inv.addr == e.dest
  }

  ghost predicate EdgesOk(tcs: set<TcEntry>, edges: seq<TcEdge>) {
    && (forall i :: 0 <= i < |edges| ==> EdgeOk(tcs, edges[i]))
    && forall i, j :: 0 <= i < j < |edges| ==> edges[i].dest != edges[j].dest
  }

  /** Entries have different addresses, as have the edges of one entry. */
  ghost predicate LsdbOk(tcs: set<TcEntry>)
    reads tcs`edges
  {
    && DifferentAddrs(tcs)
    && forall tc :: tc in tcs ==> EdgesOk(tcs, tc.edges)
  }

  /** No path with at most as many edges as there are nodes costs as much as the maximum. */
  ghost predicate NoOverflow(g: set<Arc>, nodes: set<nat>, s: nat) {
    forall w, t :: IsWalk(g, s, w, t) && |w| <= |nodes| ==> WalkCost(w) < ROUTE_COST_BROKEN
  }

  // ---------- The search, with next hops ----------

  // What the run adds to the plain search: the path list is sorted, and next hops come from the neighbours. preset
  // holds the next hops before the run, nh the current ones.

  ghost predicate Sorted(st: Search) {
    forall i, j :: 0 <= i < j < |st.done| ==> AtMost(CostOf(st, st.done[i]), CostOf(st, st.done[j]))
  }

  ghost predicate SourceFirst(st: Search, s: nat) {
    (st.done != [] ==> st.done[0] == s) && (st.done == [] ==> forall v :: CostOf(st, v).Fin? ==> v == s)
  }

  /** Every usable edge of the source leads to a neighbour with a next hop. */
  ghost predicate Covered(g: set<Arc>, s: nat, preset: map<nat, Option<nat>>) {
    forall a :: a in g && a.src == s ==> a.dst in preset && preset[a.dst].Some?
  }

  /** A node reached straight from the source has its preset next hop, any other has that of its parent. */
  ghost predicate HopOk(s: nat, st: Search, preset: map<nat, Option<nat>>, nh: map<nat, Option<nat>>, v: nat)
    requires v in nh && nh.Keys == preset.Keys
  {
    if v !in st.parent then nh[v] == preset[v]
    else nh[v].Some? && if st.parent[v].src == s then nh[v] == preset[v]
                        else st.parent[v].src in nh && nh[v] == nh[st.parent[v].src]
  }

  ghost predicate NextHops(nodes: set<nat>, s: nat, st: Search, preset: map<nat, Option<nat>>,
                           nh: map<nat, Option<nat>>)
  {
    nh.Keys == nodes && preset.Keys == nodes && forall v :: v in nodes ==> HopOk(s, st, preset, nh, v)
  }

  lemma SettleSorted(nodes: set<nat>, s: nat, st: Search, u: nat)
    requires Shape(nodes, s, st) && Sorted(st) && Ordered(nodes, st) && Cheapest(nodes, st, u) && SourceFirst(st, s)
             && s in nodes
    ensures Sorted(Settle(st, u)) && SourceFirst(Settle(st, u), s)
  {
    var st' := Settle(st, u);
    forall i, j | 0 <= i < j < |st'.done|
      ensures AtMost(CostOf(st', st'.done[i]), CostOf(st', st'.done[j]))
    {
      assert st'.done[i] == st.done[i] && st.done[i] in st.done;
      assert CostOf(st', st'.done[i]) == CostOf(st, st.done[i]) && CostOf(st', st'.done[j]) == CostOf(st, st'.done[j]);
      if j < |st.done| {
        assert st'.done[j] == st.done[j];
      }
    }
  }

  lemma SettleNextHops(nodes: set<nat>, s: nat, st: Search, preset: map<nat, Option<nat>>, nh: map<nat, Option<nat>>,
                       u: nat)
    requires NextHops(nodes, s, st, preset, nh)
    ensures NextHops(nodes, s, Settle(st, u), preset, nh)
  {
    forall v | v in nodes
      ensures HopOk(s, Settle(st, u), preset, nh, v)
    {
      assert HopOk(s, st, preset, nh, v);
    }
  }

  predicate Improves(st: Search, a: Arc) {
    CostOf(st, a.src).Fin? && Less(Fin(CostOf(st, a.src).c + a.cost), CostOf(st, a.dst))
  }

  /** Only an unsettled node other than the source improves. */
  lemma RelaxFacts(g: set<Arc>, nodes: set<nat>, s: nat, st: Search, relaxed: set<Arc>, a: Arc)
    requires Inv(g, nodes, s, st, relaxed) && a in g && Costliest(st, a.src)
    ensures Improves(st, a) ==> a.dst !in st.done && a.dst != s && Relax(st, a) == Improve(st, a)
    ensures !Improves(st, a) ==> Relax(st, a) == st
    ensures a.dst in nodes && a.src in nodes && CostOf(st, a.src).Fin? && HopsOf(Relax(st, a), s) == HopsOf(st, s)
    ensures Relax(st, a).done == st.done && forall v :: v != a.dst ==> CostOf(Relax(st, a), v) == CostOf(st, v)
  {
    hide ParentsOk, AllRelaxed, Ordered;
    RelaxEffect(g, nodes, s, st, relaxed, a);
    assert a.src in st.done;
  }

  /** Looking at one more edge keeps the path list sorted. */
  lemma RelaxSorted(st: Search, s: nat, a: Arc)
    requires Sorted(st) && SourceFirst(st, s) && a.src in st.done && CostOf(st, a.src).Fin?
             && (Improves(st, a) ==> a.dst !in st.done)
    ensures Sorted(Relax(st, a)) && SourceFirst(Relax(st, a), s)
  {
    var st' := Relax(st, a);
    if st' != st {
      assert forall v :: v != a.dst ==> CostOf(st', v) == CostOf(st, v);
      assert CostOf(st', a.dst) == Fin(CostOf(st, a.src).c + a.cost);
      SameOrder(st, st');
    }
  }

  lemma SameOrder(st: Search, st': Search)
    requires Sorted(st) && st'.done == st.done && forall v :: v in st.done ==> CostOf(st', v) == CostOf(st, v)
    ensures Sorted(st')
  {
    hide CostOf;
    forall i, j | 0 <= i < j < |st'.done|
      ensures AtMost(CostOf(st', st'.done[i]), CostOf(st', st'.done[j]))
    {
      assert st.done[i] in st.done && st.done[j] in st.done;
    }
  }

  /** The next hops after one improvement. */
  function Pull(nh: map<nat, Option<nat>>, a: Arc): map<nat, Option<nat>> {
    if a.src in nh && nh[a.src].Some? then nh[a.dst := nh[a.src]] else nh
  }

  lemma ImproveNextHops(g: set<Arc>, nodes: set<nat>, s: nat, st: Search, preset: map<nat, Option<nat>>,
                        nh: map<nat, Option<nat>>, a: Arc)
    requires Shape(nodes, s, st) && ParentsOk(g, s, st) && NextHops(nodes, s, st, preset, nh) && Graph(g, nodes)
    requires Covered(g, s, preset) && s in nodes && preset[s] == None
    requires a in g && a.src in st.done && CostOf(st, a.src).Fin? && a.dst !in st.done && a.dst != s
    requires a.src == s ==> st.done == [s]
    ensures NextHops(nodes, s, Improve(st, a), preset, Pull(nh, a))
  {
    var st', nh' := Improve(st, a), Pull(nh, a);
    assert HopOk(s, st, preset, nh, a.src) && HopOk(s, st, preset, nh, s) && HopOk(s, st, preset, nh, a.dst);
    assert s in st.parent ==> ParentOk(g, s, st, s);
    assert a.dst in st.parent ==> ParentOk(g, s, st, a.dst);
    assert HopOk(s, st', preset, nh', a.dst);
    forall v | v in nodes && v != a.dst
      ensures HopOk(s, st', preset, nh', v)
    {
      assert HopOk(s, st, preset, nh, v);
      assert v in st.parent ==> ParentOk(g, s, st, v) && st.parent[v].src != a.dst;
    }
  }

  /** At the end the next hop of every reached node is that of the first node on a cheapest route to it. */
  lemma {:induction false} RouteNextHop(g: set<Arc>, nodes: set<nat>, s: nat, st: Search, preset: map<nat, Option<nat>>,
                                        nh: map<nat, Option<nat>>, v: nat)
    requires Parented(g, nodes, s, st) && NextHops(nodes, s, st, preset, nh) && v in st.done && v != s
    ensures var w := Route(g, nodes, s, st, v);
            w != [] && w[0].src == s && w[0].dst in preset && v in nh && nh[v].Some? && nh[v] == preset[w[0].dst]
    decreases PositionOf(st.done, v)
  {
    RouteStep(g, nodes, s, st, v);
    var a := st.parent[v];
    assert HopOk(s, st, preset, nh, v);
    hide Parented, CostOf, HopsOf, PositionOf, Route;
    if a.src == s {
      RouteOfSource(g, nodes, s, st);
    } else {
      RouteNextHop(g, nodes, s, st, preset, nh, a.src);
    }
  }

  /** Everything the run keeps. */
  ghost predicate RunInv(g: set<Arc>, nodes: set<nat>, s: nat, st: Search, relaxed: set<Arc>,
                         preset: map<nat, Option<nat>>,
                         nh: map<nat, Option<nat>>)
  {
    && Inv(g, nodes, s, st, relaxed) && s in nodes && HopsOf(st, s) == 0
    && Sorted(st) && SourceFirst(st, s)
    && nh.Keys == nodes && preset.Keys == nodes
    && (Covered(g, s, preset) && preset[s] == None ==> NextHops(nodes, s, st, preset, nh))
  }

  /** The node being explored: the one settled last. */
  ghost predicate Exploring(st: Search, s: nat, u: nat) {
    Costliest(st, u) && CostOf(st, u).Fin? && (u == s ==> st.done == [s])
  }

  lemma RunRelax(g: set<Arc>, nodes: set<nat>, s: nat, st: Search, relaxed: set<Arc>, preset: map<nat, Option<nat>>,
                 nh: map<nat, Option<nat>>, a: Arc)
    requires RunInv(g, nodes, s, st, relaxed, preset, nh) && Exploring(st, s, a.src) && a in g
    ensures RunInv(g, nodes, s, Relax(st, a), relaxed + {a}, preset, if Improves(st, a) then Pull(nh, a) else nh)
    ensures Exploring(Relax(st, a), s, a.src) && Relax(st, a).done == st.done
    ensures Improves(st, a) ==> a.dst !in st.done && a.dst != s && Relax(st, a) == Improve(st, a)
    ensures !Improves(st, a) ==> Relax(st, a) == st
    ensures NoOverflow(g, nodes, s) ==> CostOf(st, a.src).c + a.cost < ROUTE_COST_BROKEN
    ensures a.dst in nodes && a.src in nodes
  {
    hide Inv, NextHops, Covered, Sorted, SourceFirst, Costliest, Relax, Improves, CostOf, HopsOf, Pull, NoOverflow;
    RelaxInv(g, nodes, s, st, relaxed, a);
    RelaxFacts(g, nodes, s, st, relaxed, a);
    ExploredIsDone(st, a.src);
    RelaxSorted(st, s, a);
    PullKeys(nh, a, nodes);
    RelaxNextHops(g, nodes, s, st, relaxed, preset, nh, a);
    StepFits(g, nodes, s, st, relaxed, a);
    LoopKeepsCost(st, a);
  }

  lemma ExploredIsDone(st: Search, u: nat)
    requires Costliest(st, u)
    ensures u in st.done
  {
  }

  lemma PullKeys(nh: map<nat, Option<nat>>, a: Arc, nodes: set<nat>)
    requires nh.Keys == nodes && a.dst in nodes
    ensures Pull(nh, a).Keys == nodes
  {
  }

  /** A path to a settled node and one more edge have at most as many edges as there are nodes. */
  lemma StepFits(g: set<Arc>, nodes: set<nat>, s: nat, st: Search, relaxed: set<Arc>, a: Arc)
    requires Inv(g, nodes, s, st, relaxed) && s in nodes && a in g && a.src in st.done && CostOf(st, a.src).Fin?
    ensures NoOverflow(g, nodes, s) ==> CostOf(st, a.src).c + a.cost < ROUTE_COST_BROKEN
  {
    hide Route, IsWalk, WalkCost, HopsOf, Before, AllRelaxed, Ordered, NoOverflow, Simple, Follows;
    var w := Route(g, nodes, s, st, a.src);
    RouteWalk(g, nodes, s, st, a.src);
    RouteSimple(g, nodes, s, st, a.src);
    forall b | b in w
      ensures b.dst in nodes
    {
      assert b in g;
    }
    SimpleLength(s, w, nodes);
    WalkAppend(g, s, w, a.src, a);
    OverflowAt(g, nodes, s, w + [a], a.dst);
  }

  lemma OverflowAt(g: set<Arc>, nodes: set<nat>, s: nat, w: seq<Arc>, t: nat)
    requires IsWalk(g, s, w, t) && |w| <= |nodes|
    ensures NoOverflow(g, nodes, s) ==> WalkCost(w) < ROUTE_COST_BROKEN
  {
  }

  lemma SimpleLength(s: nat, w: seq<Arc>, nodes: set<nat>)
    requires Simple(s, w) && s in nodes && forall a :: a in w ==> a.dst in nodes
    ensures |w| + 1 <= |nodes|
  {
    var visited := seq(|w| + 1, i requires 0 <= i <= |w| => if i == 0 then s else w[i - 1].dst);
    forall v | v in visited
      ensures v in nodes
    {
      var i :| 0 <= i <= |w| && visited[i] == v;
      assert i > 0 ==> w[i - 1] in w;
    }
    DoneSize(visited, nodes);
  }

  /** The explored node keeps its cost, even if an edge leads back to it. */
  lemma LoopKeepsCost(st: Search, a: Arc)
    requires CostOf(st, a.src).Fin?
    ensures CostOf(Relax(st, a), a.src) == CostOf(st, a.src)
  {
  }

  lemma RelaxNextHops(g: set<Arc>, nodes: set<nat>, s: nat, st: Search, relaxed: set<Arc>,
                      preset: map<nat, Option<nat>>,
                      nh: map<nat, Option<nat>>, a: Arc)
    requires Inv(g, nodes, s, st, relaxed) && s in nodes && s in preset && a in g && a.src in st.done
             && CostOf(st, a.src).Fin?
    requires Covered(g, s, preset) && preset[s] == None ==> NextHops(nodes, s, st, preset, nh)
    requires a.src == s ==> st.done == [s]
    requires Improves(st, a) ==> a.dst !in st.done && a.dst != s && Relax(st, a) == Improve(st, a)
    requires !Improves(st, a) ==> Relax(st, a) == st
    ensures Covered(g, s, preset) && preset[s] == None ==>
              NextHops(nodes, s, Relax(st, a), preset, if Improves(st, a) then Pull(nh, a) else nh)
  {
    hide Relax, Improve, Pull, NextHops, Covered, Shape, ParentsOk, AllRelaxed, Ordered, Graph;
    if Improves(st, a) && Covered(g, s, preset) && preset[s] == None {
      ImproveNextHops(g, nodes, s, st, preset, nh, a);
    }
  }

  lemma RunSettle(g: set<Arc>, nodes: set<nat>, s: nat, st: Search, relaxed: set<Arc>, preset: map<nat, Option<nat>>,
                  nh: map<nat, Option<nat>>, u: nat)
    requires RunInv(g, nodes, s, st, relaxed, preset, nh) && Cheapest(nodes, st, u)
    ensures RunInv(g, nodes, s, Settle(st, u), relaxed, preset, nh)
    ensures Exploring(Settle(st, u), s, u) && |st.done| + 1 <= |nodes|
  {
    hide Inv, NextHops, Covered, Sorted, SourceFirst, Costliest, CostOf, HopsOf;
    SettleFacts(g, nodes, s, st, relaxed, u);
    SettleInv(g, nodes, s, st, relaxed, u);
    SettleCost(st, u);
    SettleNextHopsIf(g, nodes, s, st, preset, nh, u);
  }

  lemma SettleFacts(g: set<Arc>, nodes: set<nat>, s: nat, st: Search, relaxed: set<Arc>, u: nat)
    requires Inv(g, nodes, s, st, relaxed) && Cheapest(nodes, st, u) && Sorted(st) && SourceFirst(st, s) && s in nodes
    ensures Sorted(Settle(st, u)) && SourceFirst(Settle(st, u), s) && |st.done| + 1 <= |nodes|
    ensures HopsOf(Settle(st, u), s) == HopsOf(st, s)
    ensures u == s ==> Settle(st, u).done == [s]
  {
    hide ParentsOk, AllRelaxed, Sorted;
    SettleSorted(nodes, s, st, u);
    SettleShape(nodes, s, st, u);
    DoneSize(Settle(st, u).done, nodes);
  }

  lemma SettleCost(st: Search, u: nat)
    ensures CostOf(Settle(st, u), u) == CostOf(st, u)
  {
  }

  lemma SettleNextHopsIf(g: set<Arc>, nodes: set<nat>, s: nat, st: Search, preset: map<nat, Option<nat>>,
                         nh: map<nat, Option<nat>>, u: nat)
    requires s in preset && (Covered(g, s, preset) && preset[s] == None ==> NextHops(nodes, s, st, preset, nh))
    ensures Covered(g, s, preset) && preset[s] == None ==> NextHops(nodes, s, Settle(st, u), preset, nh)
  {
    if Covered(g, s, preset) && preset[s] == None {
      SettleNextHops(nodes, s, st, preset, nh, u);
    }
  }

  lemma {:induction false} DoneSize(done: seq<nat>, nodes: set<nat>)
    requires Distinct(done) && forall v :: v in done ==> v in nodes
    ensures |done| <= |nodes|
    decreases |done|
  {
    if done != [] {
      var last := done[|done| - 1];
      assert last in done;
      DoneSize(done[..|done| - 1], nodes - {last});
    }
  }

  // ---------- The run ----------

  function Num(c: Cost): nat {
    if c.Inf? then ROUTE_COST_BROKEN else c.c
  }

  ghost predicate EntryMirrors(tc: TcEntry, st: Search, nh: map<nat, Option<nat>>)
    reads tc`pathCost, tc`hops, tc`nextHop
  {
    && tc.pathCost == Num(CostOf(st, tc.addr)) && (CostOf(st, tc.addr).Fin? ==> tc.pathCost < ROUTE_COST_BROKEN)
    && tc.hops == HopsOf(st, tc.addr) % 256
    && tc.addr in nh && tc.nextHop == nh[tc.addr]
  }

  ghost predicate Mirrors(tcs: set<TcEntry>, st: Search, nh: map<nat, Option<nat>>)
    reads tcs`pathCost, tcs`hops, tcs`nextHop
  {
    forall tc :: tc in tcs ==> EntryMirrors(tc, st, nh)
  }

  ghost predicate Waiting(tc: TcEntry, st: Search, cur: TcEntry?) {
    CostOf(st, tc.addr).Fin? && (tc.addr !in st.done || tc == cur)
  }

  /** The candidate tree holds exactly the reached entries that are not on the path list yet, and cur while it is being
      explored, each under its current cost. */
  ghost predicate CandOk(cand: map<TcEntry, nat>, tcs: set<TcEntry>, st: Search, cur: TcEntry?)
    reads tcs`pathCost
  {
    && (forall tc :: tc in cand ==> tc in tcs && Waiting(tc, st, cur) && cand[tc] == tc.pathCost)
    && forall tc :: tc in tcs && Waiting(tc, st, cur) ==> tc in cand
  }

  method AddCand(cand: map<TcEntry, nat>, tc: TcEntry) returns (tree: map<TcEntry, nat>)
    requires tc !in cand
    ensures tree == cand[tc := tc.pathCost]
  {
    tree := cand[tc := tc.pathCost];
  }

  method DelCand(cand: map<TcEntry, nat>, tc: TcEntry) returns (tree: map<TcEntry, nat>)
    requires tc in cand
    ensures tree == cand - {tc}
  {
    tree := cand - {tc};
  }

  /** An entry of least key; which one among equals is up to the tree. */
  method ExtractBest(cand: map<TcEntry, nat>) returns (tc: TcEntry?)
    ensures tc == null <==> cand == map[]
    ensures tc != null ==> tc in cand && forall o :: o in cand ==> cand[tc] <= cand[o]
  {
    tc := null;
    var rest := cand.Keys;
    while rest != {}
      invariant rest <= cand.Keys
      invariant tc == null ==> rest == cand.Keys
      invariant tc != null ==> tc in cand && forall o :: o in cand && o !in rest ==> cand[tc] <= cand[o]
      decreases |rest|
    {
      var o :| o in rest;
      if tc == null || cand[o] < cand[tc] {
        tc := o;
      }
      rest := rest - {o};
    }
  }

  lemma HopByte(h: nat)
    ensures (h % 256 + 1) % 256 == (h + 1) % 256
  {
  }

  /** Takes newTc off the tree if it is there, and puts it back under its new cost, with the next hop of tc if it has
      one. */
  method UpdateEntry(cand: map<TcEntry, nat>, tc: TcEntry, newTc: TcEntry, newCost: nat)
    returns (tree: map<TcEntry, nat>)
    requires newTc in cand <==> newTc.pathCost < ROUTE_COST_BROKEN
    requires tc != newTc
    modifies newTc`pathCost, newTc`nextHop, newTc`hops
    ensures tree == cand[newTc := newCost] && newTc.pathCost == newCost && newTc.hops == (tc.hops + 1) % 256
    ensures newTc.nextHop == if tc.nextHop.Some? then tc.nextHop else old(newTc.nextHop)
  {
    tree := cand;
    if newTc.pathCost < ROUTE_COST_BROKEN {
      tree := DelCand(tree, newTc);
    }
    newTc.pathCost := newCost;
    tree := AddCand(tree, newTc);
    if tc.nextHop.Some? {
      newTc.nextHop := tc.nextHop;
    }
    newTc.hops := (tc.hops + 1) % 256;
  }

  lemma InTree(cand: map<TcEntry, nat>, tcs: set<TcEntry>, st: Search, nh: map<nat, Option<nat>>, cur: TcEntry,
               o: TcEntry)
    requires CandOk(cand, tcs, st, cur) && o in tcs && EntryMirrors(o, st, nh)
    ensures o.addr !in st.done ==> (o in cand <==> o.pathCost < ROUTE_COST_BROKEN)
  {
    assert o in cand <==> Waiting(o, st, cur);
  }

  /** The body of the loop over the edges of tc, for an edge with an inverse. */
  method RelaxEdge(cand: map<TcEntry, nat>, tc: TcEntry, cost: nat, newTc: TcEntry, ghost tcs: set<TcEntry>,
                   ghost st: Search,
                   ghost nh: map<nat, Option<nat>>, ghost g: set<Arc>, ghost nodes: set<nat>, ghost s: nat,
                   ghost relaxed: set<Arc>, ghost preset: map<nat, Option<nat>>)
    returns (tree: map<TcEntry, nat>, ghost st': Search, ghost nh': map<nat, Option<nat>>)
    requires DifferentAddrs(tcs) && tc in tcs && newTc in tcs && Mirrors(tcs, st, nh) && CandOk(cand, tcs, st, tc)
    requires Arc(tc.addr, newTc.addr, cost) in g && NoOverflow(g, nodes, s)
    requires RunInv(g, nodes, s, st, relaxed, preset, nh) && Exploring(st, s, tc.addr)
    modifies newTc`pathCost, newTc`nextHop, newTc`hops
    ensures Mirrors(tcs, st', nh') && CandOk(tree, tcs, st', tc) && st'.done == st.done
    ensures RunInv(g, nodes, s, st', relaxed + {Arc(tc.addr, newTc.addr, cost)}, preset, nh')
            && Exploring(st', s, tc.addr)
  {
    hide RunInv, Exploring, CostOf, HopsOf, Relax, Improve, Pull, Improves, Waiting, NoOverflow;
    ghost var a := Arc(tc.addr, newTc.addr, cost);
    RunRelax(g, nodes, s, st, relaxed, preset, nh, a);
    st', nh' := Relax(st, a), if Improves(st, a) then Pull(nh, a) else nh;
    tree := cand;
    ExploredCost(st, s, tc.addr);
    assert EntryMirrors(tc, st, nh) && EntryMirrors(newTc, st, nh);
    CheaperIff(st, a, tc.pathCost, newTc.pathCost);
    var newCost := (tc.pathCost + cost) % 0x1_0000_0000;
    InTree(cand, tcs, st, nh, tc, newTc);
    if newCost < newTc.pathCost {
      HopByte(HopsOf(st, tc.addr));
      tree := UpdateEntry(cand, tc, newTc, newCost);
      ImprovedEntry(st, st', nh, nh', a);
      forall o | o in tcs
        ensures EntryMirrors(o, st', nh')
      {
        assert o != newTc ==> old(EntryMirrors(o, st, nh)) && o.addr != newTc.addr;
      }
      WaitingStep(tcs, st, st', tc, newTc);
      forall o | o in tree
        ensures o in tcs && Waiting(o, st', tc) && tree[o] == o.pathCost
      {
        assert o != newTc ==> o in cand && cand[o] == old(o.pathCost);
      }
    }
  }

  lemma WaitingStep(tcs: set<TcEntry>, st: Search, st': Search, cur: TcEntry, newTc: TcEntry)
    requires DifferentAddrs(tcs) && newTc in tcs && st'.done == st.done && newTc.addr !in st.done
             && CostOf(st', newTc.addr).Fin?
    requires forall v :: v != newTc.addr ==> CostOf(st', v) == CostOf(st, v)
    ensures forall o :: o in tcs ==> (Waiting(o, st', cur) <==> o == newTc || Waiting(o, st, cur))
  {
    hide CostOf;
    forall o | o in tcs && o != newTc
      ensures Waiting(o, st', cur) <==> Waiting(o, st, cur)
    {
      assert o.addr != newTc.addr;
    }
  }

  /** The 32-bit sum does not wrap, and comparing it with the stored cost decides whether the edge improves. */
  lemma CheaperIff(st: Search, a: Arc, from: nat, to: nat)
    requires CostOf(st, a.src).Fin? && CostOf(st, a.src).c + a.cost < ROUTE_COST_BROKEN
    requires from == Num(CostOf(st, a.src)) && to == Num(CostOf(st, a.dst))
    ensures (from + a.cost) % 0x1_0000_0000 == CostOf(st, a.src).c + a.cost < ROUTE_COST_BROKEN
    ensures (from + a.cost) % 0x1_0000_0000 < to <==> Improves(st, a)
  {
  }

  lemma ExploredCost(st: Search, s: nat, u: nat)
    requires Exploring(st, s, u)
    ensures CostOf(st, u).Fin? && u in st.done
  {
  }

  lemma ImprovedEntry(st: Search, st': Search, nh: map<nat, Option<nat>>, nh': map<nat, Option<nat>>, a: Arc)
    requires CostOf(st, a.src).Fin? && st' == Improve(st, a) && nh' == Pull(nh, a) && a.src in nh && a.dst in nh
    ensures CostOf(st', a.dst) == Fin(CostOf(st, a.src).c + a.cost) && HopsOf(st', a.dst) == HopsOf(st, a.src) + 1
    ensures a.dst in nh' && nh'[a.dst] == (if nh[a.src].Some? then nh[a.src] else nh[a.dst])
    ensures forall v :: v != a.dst ==> CostOf(st', v) == CostOf(st, v) && HopsOf(st', v) == HopsOf(st, v)
    ensures forall v :: v != a.dst && v in nh ==> v in nh' && nh'[v] == nh[v]
  {
  }

  lemma UsableStep(tc: TcEntry, i: nat)
    requires i < |tc.edges|
    ensures UsableOf(tc, 0) == {}
    ensures UsableOf(tc, i + 1) == UsableOf(tc, i) + if tc.edges[i].inv == null then {}
              else {Arc(tc.addr, (tc.edges[i].inv as TcEntry).addr, tc.edges[i].cost)}
  {
  }

  lemma UsableEdge(tcs: set<TcEntry>, tc: TcEntry, i: nat)
    requires tc in tcs && i < |tc.edges| && tc.edges[i].inv != null
    ensures Arc(tc.addr, (tc.edges[i].inv as TcEntry).addr, tc.edges[i].cost) in Usable(tcs)
  {
    assert Arc(tc.addr, (tc.edges[i].inv as TcEntry).addr, tc.edges[i].cost) in UsableOf(tc, |tc.edges|);
  }

  /** olsr_spf_relax: explores all edges of tc. */
  method SpfRelax(cand: map<TcEntry, nat>, tc: TcEntry, ghost tcs: set<TcEntry>, ghost st0: Search,
                  ghost nh0: map<nat, Option<nat>>,
                  ghost g: set<Arc>, ghost nodes: set<nat>, ghost s: nat, ghost relaxed: set<Arc>,
                  ghost preset: map<nat, Option<nat>>)
    returns (tree: map<TcEntry, nat>, ghost st: Search, ghost nh: map<nat, Option<nat>>)
    requires LsdbOk(tcs) && tc in tcs && Mirrors(tcs, st0, nh0) && CandOk(cand, tcs, st0, tc) && g == Usable(tcs)
    requires NoOverflow(g, nodes, s) && RunInv(g, nodes, s, st0, relaxed, preset, nh0) && Exploring(st0, s, tc.addr)
    modifies tcs`pathCost, tcs`nextHop, tcs`hops
    ensures Mirrors(tcs, st, nh) && CandOk(tree, tcs, st, tc) && st.done == st0.done
    ensures RunInv(g, nodes, s, st, relaxed + UsableOf(tc, |tc.edges|), preset, nh) && Exploring(st, s, tc.addr)
  {
    hide RunInv, Exploring, Mirrors, CandOk, UsableOf, Usable, NoOverflow;
    tree, st, nh := cand, st0, nh0;
    NoneUsable(tc, relaxed);
    var i := 0;
    while i < |tc.edges|
      invariant 0 <= i <= |tc.edges|
      invariant Mirrors(tcs, st, nh) && CandOk(tree, tcs, st, tc) && st.done == st0.done
      invariant RunInv(g, nodes, s, st, relaxed + UsableOf(tc, i), preset, nh) && Exploring(st, s, tc.addr)
    {
      var tcEdge := tc.edges[i];
      UsableStep(tc, i);
      if tcEdge.inv != null {
        UsableEdge(tcs, tc, i);
        tree, st, nh := RelaxEdge(tree, tc, tcEdge.cost, tcEdge.inv, tcs, st, nh, g, nodes, s,
                                  relaxed + UsableOf(tc, i), preset);
        UnionStep(relaxed, UsableOf(tc, i), Arc(tc.addr, tcEdge.inv.addr, tcEdge.cost));
      }
      i := i + 1;
    }
  }

  lemma NoneUsable(tc: TcEntry, relaxed: set<Arc>)
    ensures relaxed + UsableOf(tc, 0) == relaxed && forall x: set<Arc> :: x + {} == x
  {
  }

  lemma UnionStep(x: set<Arc>, y: set<Arc>, a: Arc)
    ensures x + y + {a} == x + (y + {a})
  {
  }

  /** The path list is the list of settled nodes. */
  ghost predicate Listed(pathList: seq<TcEntry>, tcs: set<TcEntry>, st: Search) {
    |pathList| == |st.done| && forall i :: 0 <= i < |pathList| ==> pathList[i] in tcs && pathList[i].addr == st.done[i]
  }

  lemma BestIsCheapest(cand: map<TcEntry, nat>, tcs: set<TcEntry>, st: Search, nh: map<nat, Option<nat>>, tc: TcEntry,
                       nodes: set<nat>)
    requires CandOk(cand, tcs, st, null) && Mirrors(tcs, st, nh) && nodes == Addrs(tcs)
    requires tc in cand && forall o :: o in cand ==> cand[tc] <= cand[o]
    ensures tc in tcs && Cheapest(nodes, st, tc.addr)
  {
    assert EntryMirrors(tc, st, nh);
    forall v | v in nodes && v !in st.done
      ensures AtMost(CostOf(st, tc.addr), CostOf(st, v))
    {
      var o :| o in tcs && o.addr == v;
      assert EntryMirrors(o, st, nh);
      assert Waiting(o, st, null) ==> o in cand;
    }
  }

  lemma SettleMirrors(cand: map<TcEntry, nat>, tcs: set<TcEntry>, st: Search, nh: map<nat, Option<nat>>, tc: TcEntry)
    requires CandOk(cand, tcs, st, null) && Mirrors(tcs, st, nh) && tc in tcs && DifferentAddrs(tcs)
             && tc.addr !in st.done
    ensures CandOk(cand, tcs, Settle(st, tc.addr), tc) && Mirrors(tcs, Settle(st, tc.addr), nh)
  {
    var st' := Settle(st, tc.addr);
    assert forall v :: CostOf(st', v) == CostOf(st, v) && HopsOf(st', v) == HopsOf(st, v);
    forall o | o in tcs
      ensures EntryMirrors(o, st', nh)
    {
      assert EntryMirrors(o, st, nh);
    }
    forall o | o in tcs
      ensures Waiting(o, st', tc) <==> Waiting(o, st, null)
    {
      assert o != tc ==> o.addr != tc.addr;
    }
  }

  lemma LeavingMore(tcs: set<TcEntry>, st: Search, tc: TcEntry)
    requires tc in tcs && DifferentAddrs(tcs)
    ensures Leaving(Usable(tcs), Settle(st, tc.addr).done) == Leaving(Usable(tcs), st.done) + UsableOf(tc, |tc.edges|)
  {
    forall a
      ensures a in UsableOf(tc, |tc.edges|) <==> a in Usable(tcs) && a.src == tc.addr
    {
      if a in Usable(tcs) && a.src == tc.addr {
        var o :| o in tcs && a in UsableOf(o, |o.edges|);
        assert o.addr == tc.addr;
      }
    }
  }

  method DropExplored(cand: map<TcEntry, nat>, tc: TcEntry, ghost tcs: set<TcEntry>, ghost st: Search)
    returns (tree: map<TcEntry, nat>)
    requires CandOk(cand, tcs, st, tc) && tc in tcs && tc.addr in st.done && CostOf(st, tc.addr).Fin?
             && DifferentAddrs(tcs)
    ensures CandOk(tree, tcs, st, null)
  {
    assert Waiting(tc, st, tc);
    tree := DelCand(cand, tc);
    forall o | o in tcs
      ensures Waiting(o, st, null) <==> Waiting(o, st, tc) && o != tc
    {
      assert o != tc ==> o.addr != tc.addr;
    }
  }

  /** Explores the best candidate and moves it from the tree to the path list. */
  method SpfStep(cand: map<TcEntry, nat>, pathList: seq<TcEntry>, tc: TcEntry, ghost tcs: set<TcEntry>,
                 ghost st0: Search,
                 ghost nh0: map<nat, Option<nat>>, ghost g: set<Arc>, ghost nodes: set<nat>, ghost s: nat,
                 ghost preset: map<nat, Option<nat>>)
    returns (tree: map<TcEntry, nat>, list: seq<TcEntry>, ghost st: Search, ghost nh: map<nat, Option<nat>>)
    requires LsdbOk(tcs) && Mirrors(tcs, st0, nh0) && CandOk(cand, tcs, st0, null) && Listed(pathList, tcs, st0)
    requires g == Usable(tcs) && nodes == Addrs(tcs)
    requires RunInv(g, nodes, s, st0, Leaving(g, st0.done), preset, nh0) && NoOverflow(g, nodes, s)
    requires tc in cand && forall o :: o in cand ==> cand[tc] <= cand[o]
    modifies tcs`pathCost, tcs`nextHop, tcs`hops
    ensures Mirrors(tcs, st, nh) && CandOk(tree, tcs, st, null) && Listed(list, tcs, st) && list == pathList + [tc]
    ensures RunInv(g, nodes, s, st, Leaving(g, st.done), preset, nh) && |st.done| == |st0.done| + 1
  {
    hide RunInv, Exploring, Mirrors, Usable, Leaving, UsableOf, NoOverflow;
    BestIsCheapest(cand, tcs, st0, nh0, tc, nodes);
    RunSettle(g, nodes, s, st0, Leaving(g, st0.done), preset, nh0, tc.addr);
    ghost var mid := Settle(st0, tc.addr);
    SettleMirrors(cand, tcs, st0, nh0, tc);
    tree, st, nh := SpfRelax(cand, tc, tcs, mid, nh0, g, nodes, s, Leaving(g, st0.done), preset);
    LeavingMore(tcs, st0, tc);
    ExploredCost(st, s, tc.addr);
    tree := DropExplored(tree, tc, tcs, st);
    list := pathList + [tc];
  }

  // ---------- What the run computes ----------

  function Dist(pathCost: nat): Cost {
    if pathCost == ROUTE_COST_BROKEN then Inf else Fin(pathCost)
  }

  /** w is a cheapest route to tc; hops counts its links (in one byte), and next_hop is the preset of its first node,
      given that the presets cover the edges of the source. */
  ghost predicate RoutedBy(g: set<Arc>, s: nat, preset: map<nat, Option<nat>>, tc: TcEntry, w: seq<Arc>)
    reads tc`pathCost, tc`hops, tc`nextHop
  {
    && IsWalk(g, s, w, tc.addr) && WalkCost(w) == tc.pathCost && tc.hops == |w| % 256
    && (Covered(g, s, preset) && s in preset && preset[s] == None && tc.addr != s ==>
          w != [] && w[0].dst in preset && preset[w[0].dst].Some? && tc.nextHop == preset[w[0].dst])
  }

  /** The path list is in non-decreasing order of cost and holds exactly the reachable entries, every entry has its
      exact distance, and every listed one a cheapest route. */
  ghost predicate SpfResult(tcs: set<TcEntry>, s: nat, preset: map<nat, Option<nat>>, pathList: seq<TcEntry>)
    reads tcs`edges, tcs`pathCost, tcs`hops, tcs`nextHop
  {
    && (forall tc :: tc in pathList ==> tc in tcs)
    && (forall i, j :: 0 <= i < j < |pathList| ==> pathList[i] != pathList[j])
    && (forall i, j :: 0 <= i < j < |pathList| && pathList[i] in tcs && pathList[j] in tcs ==>
          pathList[i].pathCost <= pathList[j].pathCost)
    && (forall tc :: tc in tcs ==> (tc in pathList <==> Reachable(Usable(tcs), s, tc.addr)))
    && (forall tc :: tc in tcs ==> IsDistance(Usable(tcs), s, tc.addr, Dist(tc.pathCost)))
    && (forall tc :: tc in tcs && tc in pathList ==> exists w :: RoutedBy(Usable(tcs), s, preset, tc, w))
  }

  ghost predicate Finished(tcs: set<TcEntry>, g: set<Arc>, s: nat, preset: map<nat, Option<nat>>, st: Search,
                           nh: map<nat, Option<nat>>)
    reads tcs`pathCost, tcs`hops, tcs`nextHop
  {
    && Mirrors(tcs, st, nh) && DifferentAddrs(tcs) && Final(g, Addrs(tcs), s, st) && s in Addrs(tcs)
    && HopsOf(st, s) == 0 && Sorted(st)
    && nh.Keys == Addrs(tcs) && preset.Keys == Addrs(tcs)
    && (Covered(g, s, preset) && preset[s] == None ==> NextHops(Addrs(tcs), s, st, preset, nh))
  }

  /** Nothing left on the tree. */
  lemma TreeEmpty(tcs: set<TcEntry>, g: set<Arc>, s: nat, st: Search, preset: map<nat, Option<nat>>,
                  nh: map<nat, Option<nat>>, cand: map<TcEntry, nat>)
    requires CandOk(cand, tcs, st, null) && cand == map[] && Mirrors(tcs, st, nh) && DifferentAddrs(tcs)
    requires RunInv(g, Addrs(tcs), s, st, Leaving(g, st.done), preset, nh)
    ensures Finished(tcs, g, s, preset, st, nh)
  {
    hide Inv, Mirrors, Sorted, SourceFirst, NextHops, Covered;
    forall v | v in Addrs(tcs) && CostOf(st, v).Fin?
      ensures v in st.done
    {
      var o :| o in tcs && o.addr == v;
      assert Waiting(o, st, null) ==> o in cand;
    }
  }

  lemma EntryDistance(tcs: set<TcEntry>, g: set<Arc>, s: nat, st: Search, preset: map<nat, Option<nat>>,
                      nh: map<nat, Option<nat>>, tc: TcEntry)
    requires Finished(tcs, g, s, preset, st, nh) && tc in tcs
    ensures IsDistance(g, s, tc.addr, Dist(tc.pathCost))
    ensures tc.addr in st.done <==> Reachable(g, s, tc.addr)
    ensures tc.addr in st.done <==> tc.pathCost != ROUTE_COST_BROKEN
  {
    hide Inv, Sorted, NextHops, Covered;
    FinalDistances(g, Addrs(tcs), s, st, tc.addr);
    assert EntryMirrors(tc, st, nh);
    DoneFinite(g, Addrs(tcs), s, st);
  }

  lemma DoneFinite(g: set<Arc>, nodes: set<nat>, s: nat, st: Search)
    requires Final(g, nodes, s, st)
    ensures forall v :: v in st.done ==> v in nodes && CostOf(st, v).Fin?
    ensures Parented(g, nodes, s, st) && Distinct(st.done)
  {
  }

  lemma EntryRoute(tcs: set<TcEntry>, g: set<Arc>, s: nat, st: Search, preset: map<nat, Option<nat>>,
                   nh: map<nat, Option<nat>>, tc: TcEntry)
    requires Finished(tcs, g, s, preset, st, nh) && tc in tcs && tc.addr in st.done
    ensures exists w :: RoutedBy(g, s, preset, tc, w)
  {
    hide Final, Sorted, NextHops, Covered, Route, IsWalk, WalkCost, Parented, CostOf, HopsOf, Mirrors;
    DoneFinite(g, Addrs(tcs), s, st);
    SourceFree(g, Addrs(tcs), s, st);
    var w := Route(g, Addrs(tcs), s, st, tc.addr);
    RouteWalk(g, Addrs(tcs), s, st, tc.addr);
    MirrorOf(tcs, st, nh, tc);
    if Covered(g, s, preset) && preset[s] == None && tc.addr != s {
      RouteNextHop(g, Addrs(tcs), s, st, preset, nh, tc.addr);
    }
    assert RoutedBy(g, s, preset, tc, w);
  }

  lemma MirrorOf(tcs: set<TcEntry>, st: Search, nh: map<nat, Option<nat>>, tc: TcEntry)
    requires Mirrors(tcs, st, nh) && tc in tcs
    ensures EntryMirrors(tc, st, nh)
  {
  }

  lemma SourceFree(g: set<Arc>, nodes: set<nat>, s: nat, st: Search)
    requires Final(g, nodes, s, st) && s in nodes
    ensures CostOf(st, s) == Fin(0)
  {
  }

  lemma ListSorted(tcs: set<TcEntry>, s: nat, g: set<Arc>, preset: map<nat, Option<nat>>, pathList: seq<TcEntry>,
                   st: Search, nh: map<nat, Option<nat>>)
    requires Finished(tcs, g, s, preset, st, nh) && Listed(pathList, tcs, st)
    ensures forall i, j :: 0 <= i < j < |pathList| ==> pathList[i] != pathList[j]
    ensures forall i, j :: 0 <= i < j < |pathList| && pathList[i] in tcs && pathList[j] in tcs ==>
              pathList[i].pathCost <= pathList[j].pathCost
    ensures forall tc :: tc in tcs ==> (tc in pathList <==> tc.addr in st.done)
  {
    hide Inv, NextHops, Covered;
    DoneFinite(g, Addrs(tcs), s, st);
    forall i, j | 0 <= i < j < |pathList| && pathList[i] in tcs && pathList[j] in tcs
      ensures pathList[i].pathCost <= pathList[j].pathCost
    {
      assert EntryMirrors(pathList[i], st, nh) && EntryMirrors(pathList[j], st, nh);
      assert st.done[j] in st.done;
    }
    forall tc | tc in tcs && tc.addr in st.done
      ensures tc in pathList
    {
      var i :| 0 <= i < |st.done| && st.done[i] == tc.addr;
      assert pathList[i] == tc;
    }
  }

  lemma ResultHolds(tcs: set<TcEntry>, s: nat, preset: map<nat, Option<nat>>, pathList: seq<TcEntry>, st: Search,
                    nh: map<nat, Option<nat>>)
    requires Finished(tcs, Usable(tcs), s, preset, st, nh) && Listed(pathList, tcs, st)
    ensures SpfResult(tcs, s, preset, pathList)
  {
    hide Finished, Usable, RoutedBy, IsDistance, Reachable;
    var g := Usable(tcs);
    ListSorted(tcs, s, g, preset, pathList, st, nh);
    forall tc | tc in tcs
      ensures IsDistance(g, s, tc.addr, Dist(tc.pathCost)) && (tc in pathList <==> Reachable(g, s, tc.addr))
      ensures tc in pathList ==> exists w :: RoutedBy(g, s, preset, tc, w)
    {
      EntryDistance(tcs, g, s, st, preset, nh, tc);
      if tc in pathList {
        EntryRoute(tcs, g, s, st, preset, nh, tc);
      }
    }
  }

  // ---------- The whole calculation ----------

  ghost function TcAt(tcs: set<TcEntry>, a: nat): (tc: TcEntry)
    requires a in Addrs(tcs)
    ensures tc in tcs && tc.addr == a
  {
    var tc: TcEntry :| tc in tcs && tc.addr == a;
    tc
  }

  ghost function NextHopMap(tcs: set<TcEntry>): (nh: map<nat, Option<nat>>)
    reads tcs`nextHop
    ensures nh.Keys == Addrs(tcs)
  {
    map a | a in Addrs(tcs) :: TcAt(tcs, a).nextHop
  }

  ghost predicate Primed(tcs: set<TcEntry>, myself: TcEntry)
    reads tcs`pathCost, tcs`hops
  {
    forall tc :: tc in tcs ==> tc.hops == 0 && tc.pathCost == if tc == myself then 0 else ROUTE_COST_BROKEN
  }

  ghost function NoHops(nodes: set<nat>): map<nat, nat> {
    map a | a in nodes :: 0
  }

  lemma RunStarts(tcs: set<TcEntry>, myself: TcEntry, cand: map<TcEntry, nat>)
    requires LsdbOk(tcs) && myself in tcs && Primed(tcs, myself) && cand == map[myself := 0]
    ensures var g, nodes, s, nh := Usable(tcs), Addrs(tcs), myself.addr, NextHopMap(tcs);
            var st := Start(nodes, s, NoHops(nodes));
            && RunInv(g, nodes, s, st, Leaving(g, st.done), nh, nh) && Mirrors(tcs, st, nh)
            && CandOk(cand, tcs, st, null)
            && st.done == []
  {
    hide Usable, NextHopMap, RunInv, Graph, Addrs;
    UsableGraph(tcs);
    SelfListed(tcs, myself);
    StartRuns(Usable(tcs), Addrs(tcs), myself.addr, NextHopMap(tcs));
    forall tc | tc in tcs
      ensures EntryMirrors(tc, Start(Addrs(tcs), myself.addr, NoHops(Addrs(tcs))), NextHopMap(tcs))
    {
      SelfListed(tcs, tc);
    }
  }

  lemma SelfListed(tcs: set<TcEntry>, tc: TcEntry)
    requires tc in tcs && DifferentAddrs(tcs)
    ensures tc.addr in Addrs(tcs) && NextHopMap(tcs)[tc.addr] == tc.nextHop
  {
    assert TcAt(tcs, tc.addr) == tc;
  }

  lemma StartRuns(g: set<Arc>, nodes: set<nat>, s: nat, preset: map<nat, Option<nat>>)
    requires Graph(g, nodes) && s in nodes && preset.Keys == nodes
    ensures var st := Start(nodes, s, NoHops(nodes)); RunInv(g, nodes, s, st, Leaving(g, st.done), preset, preset)
  {
    StartInv(g, nodes, s, NoHops(nodes));
    var st := Start(nodes, s, NoHops(nodes));
    assert Leaving(g, st.done) == {};
  }

  lemma UsableGraph(tcs: set<TcEntry>)
    requires LsdbOk(tcs)
    ensures Graph(Usable(tcs), Addrs(tcs))
  {
    forall a | a in Usable(tcs)
      ensures a.src in Addrs(tcs) && a.dst in Addrs(tcs)
    {
      var tc :| tc in tcs && a in UsableOf(tc, |tc.edges|);
      assert EdgesOk(tcs, tc.edges);
    }
  }

  /** olsr_spf_run_full: from the tree that holds only ourselves. */
  method SpfRunFull(candTree: map<TcEntry, nat>, myself: TcEntry, ghost tcs: set<TcEntry>)
    returns (pathList: seq<TcEntry>, pathCount: nat)
    requires LsdbOk(tcs) && myself in tcs && Primed(tcs, myself) && candTree == map[myself := 0]
    requires NoOverflow(Usable(tcs), Addrs(tcs), myself.addr)
    modifies tcs`pathCost, tcs`nextHop, tcs`hops
    ensures SpfResult(tcs, myself.addr, old(NextHopMap(tcs)), pathList) && pathCount == |pathList|
  {
    hide RunInv, Mirrors, CandOk, Usable, Leaving, SpfResult, NextHopMap, Listed, LsdbOk, Finished, Addrs, NoOverflow;
    ghost var g, nodes, s, preset := Usable(tcs), Addrs(tcs), myself.addr, NextHopMap(tcs);
    RunStarts(tcs, myself, candTree);
    ghost var st, nh := Start(nodes, s, NoHops(nodes)), preset;
    var cand: map<TcEntry, nat> := candTree;
    pathList, pathCount := [], 0;
    NothingListed(tcs, st);
    var tc: TcEntry? := ExtractBest(cand);
    while tc != null
      invariant tc == null <==> cand == map[]
      invariant tc != null ==> tc in cand && forall o :: o in cand ==> cand[tc] <= cand[o]
      invariant Mirrors(tcs, st, nh) && CandOk(cand, tcs, st, null) && Listed(pathList, tcs, st)
                && pathCount == |pathList|
      invariant RunInv(g, nodes, s, st, Leaving(g, st.done), preset, nh)
      decreases |nodes| - |st.done|
    {
      DoneFits(g, nodes, s, st, preset, nh);
      cand, pathList, st, nh := SpfStep(cand, pathList, tc, tcs, st, nh, g, nodes, s, preset);
      DoneFits(g, nodes, s, st, preset, nh);
      pathCount := pathCount + 1;
      tc := ExtractBest(cand);
    }
    LsdbAddrs(tcs);
    TreeEmpty(tcs, g, s, st, preset, nh, cand);
    ResultHolds(tcs, s, preset, pathList, st, nh);
  }

  lemma NothingListed(tcs: set<TcEntry>, st: Search)
    requires st.done == []
    ensures Listed([], tcs, st)
  {
  }

  lemma LsdbAddrs(tcs: set<TcEntry>)
    requires LsdbOk(tcs)
    ensures DifferentAddrs(tcs)
  {
  }

  lemma DoneFits(g: set<Arc>, nodes: set<nat>, s: nat, st: Search, preset: map<nat, Option<nat>>,
                 nh: map<nat, Option<nat>>)
    requires RunInv(g, nodes, s, st, Leaving(g, st.done), preset, nh)
    ensures |st.done| <= |nodes|
  {
    DoneSize(st.done, nodes);
  }

  // ---------- Next hops of the neighbours ----------

  /** A neighbour: its status, its best link if it has one, and the quality of that link both ways. */
  datatype Neighbor = Neighbor(addr: nat, sym: bool, link: Option<nat>, lq: nat, nlq: nat)

  /** A symmetric neighbour without a link has no edge; one with a link has an edge, and its entry the link as next hop
      if the edge has an inverse. */
  ghost predicate NeighborSet(tcs: set<TcEntry>, edges: seq<TcEdge>, nb: Neighbor)
    reads tcs`nextHop
  {
    && (nb.sym && nb.link == None ==> forall i :: 0 <= i < |edges| ==> edges[i].dest != nb.addr)
    && (nb.sym && nb.link.Some? ==> exists i :: 0 <= i < |edges| && edges[i].dest == nb.addr
                                                && (edges[i].inv != null && edges[i].inv in tcs ==>
                                                      edges[i].inv.nextHop == nb.link))
  }

  /** The edge to an address, or the number of edges. */
  method LookupEdge(edges: seq<TcEdge>, addr: nat) returns (i: nat)
    ensures i <= |edges| && (i < |edges| ==> edges[i].dest == addr)
    ensures i == |edges| ==> forall j :: 0 <= j < |edges| ==> edges[j].dest != addr
  {
    i := 0;
    while i < |edges| && edges[i].dest != addr
      invariant i <= |edges| && forall j :: 0 <= j < i ==> edges[j].dest != addr
    {
      i := i + 1;
    }
  }

  method LookupEntry(tcTree: seq<TcEntry>, addr: nat) returns (tc: TcEntry?)
    ensures tc != null ==> tc in tcTree && tc.addr == addr
    ensures tc == null ==> forall v :: v in tcTree ==> v.addr != addr
  {
    var i := 0;
    while i < |tcTree| && tcTree[i].addr != addr
      invariant i <= |tcTree| && forall j :: 0 <= j < i ==> tcTree[j].addr != addr
    {
      i := i + 1;
    }
    tc := if i < |tcTree| then tcTree[i] else null;
  }

  // ---------- Inverse edges ----------

  ghost predicate HasEdge(edges: seq<TcEdge>, dest: nat) {
    exists i :: 0 <= i < |edges| && edges[i].dest == dest
  }

  ghost function EdgeMap(tcs: set<TcEntry>): map<TcEntry, seq<TcEdge>>
    reads tcs`edges
  {
    map tc | tc in tcs :: tc.edges
  }

  /** An edge knows its inverse exactly if the entry that it leads to is there and has an edge back. */
  ghost predicate InverseOk(m: map<TcEntry, seq<TcEdge>>, tc: TcEntry, e: TcEdge) {
    if e.inv == null then forall v :: v in m && v.addr == e.dest ==> !HasEdge(m[v], tc.addr)
    else e.inv in m && e.inv.addr == e.dest && HasEdge(m[e.inv], tc.addr)
  }

  ghost predicate Mutual(m: map<TcEntry, seq<TcEdge>>) {
    forall tc, i :: tc in m && 0 <= i < |m[tc]| ==> InverseOk(m, tc, m[tc][i])
  }

  /** Then the graph of the search consists of the edges that lead to a known entry with an edge back; an arc costs what
      the edge does along which it goes, not the one back. */
  lemma UsableIff(tcs: set<TcEntry>, a: Arc)
    requires LsdbOk(tcs) && Mutual(EdgeMap(tcs))
    ensures a in Usable(tcs) <==>
            exists tc, v :: tc in tcs && v in tcs && tc.addr == a.src && v.addr == a.dst
                            && (exists e :: e in tc.edges && e.dest == a.dst && e.cost == a.cost)
                            && exists e :: e in v.edges && e.dest == a.src
  {
    hide Usable;
    if a in Usable(tcs) {
      ArcHasEdge(tcs, a);
    }
    forall tc, v, e | tc in tcs && v in tcs && tc.addr == a.src && v.addr == a.dst
                      && e in tc.edges && e.dest == a.dst && e.cost == a.cost
                      && exists f :: f in v.edges && f.dest == a.src
      ensures a in Usable(tcs)
    {
      var i :| 0 <= i < |tc.edges| && tc.edges[i] == e;
      EdgeGivesArc(tcs, tc, i, v);
    }
  }

  lemma ArcHasEdge(tcs: set<TcEntry>, a: Arc)
    requires LsdbOk(tcs) && Mutual(EdgeMap(tcs)) && a in Usable(tcs)
    ensures exists tc, v :: tc in tcs && v in tcs && tc.addr == a.src && v.addr == a.dst
                            && (exists e :: e in tc.edges && e.dest == a.dst && e.cost == a.cost)
                            && exists e :: e in v.edges && e.dest == a.src
  {
    var tc :| tc in tcs && a in UsableOf(tc, |tc.edges|);
    var i :| 0 <= i < |tc.edges| && tc.edges[i].inv != null
      && a == Arc(tc.addr, (tc.edges[i].inv as TcEntry).addr, tc.edges[i].cost);
    assert InverseOk(EdgeMap(tcs), tc, EdgeMap(tcs)[tc][i]);
    var e := tc.edges[i];
    var j :| 0 <= j < |e.inv.edges| && e.inv.edges[j].dest == tc.addr;
    assert e in tc.edges && e.inv.edges[j] in e.inv.edges;
  }

  lemma EdgeGivesArc(tcs: set<TcEntry>, tc: TcEntry, i: nat, v: TcEntry)
    requires LsdbOk(tcs) && Mutual(EdgeMap(tcs)) && tc in tcs && v in tcs && i < |tc.edges|
    requires v.addr == tc.edges[i].dest && exists f :: f in v.edges && f.dest == tc.addr
    ensures Arc(tc.addr, v.addr, tc.edges[i].cost) in Usable(tcs)
  {
    var f :| f in v.edges && f.dest == tc.addr;
    var j :| 0 <= j < |v.edges| && v.edges[j] == f;
    assert HasEdge(EdgeMap(tcs)[v], tc.addr);
    assert InverseOk(EdgeMap(tcs), tc, EdgeMap(tcs)[tc][i]);
    assert Arc(tc.addr, v.addr, tc.edges[i].cost) in UsableOf(tc, |tc.edges|);
  }

  /** The edges to other destinations are the same. */
  ghost predicate OthersKept(edges: seq<TcEdge>, was: seq<TcEdge>, addr: nat) {
    (forall e :: e in edges && e.dest != addr ==> e in was) && forall e :: e in was && e.dest != addr ==> e in edges
  }

  /** The edge to addr, if there is one, gets this inverse. */
  function WithInverse(edges: seq<TcEdge>, addr: nat, inv: TcEntry?): (r: seq<TcEdge>)
    ensures |r| == |edges|
    ensures forall i :: 0 <= i < |edges| ==> r[i] == if edges[i].dest == addr then edges[i].(inv := inv) else edges[i]
  {
    seq(|edges|, i requires 0 <= i < |edges| => if edges[i].dest == addr then edges[i].(inv := inv) else edges[i])
  }

  lemma SameDests(edges: seq<TcEdge>, addr: nat, inv: TcEntry?)
    ensures forall d :: HasEdge(WithInverse(edges, addr, inv), d) <==> HasEdge(edges, d)
  {
    var r := WithInverse(edges, addr, inv);
    forall d | HasEdge(edges, d)
      ensures HasEdge(r, d)
    {
      var i :| 0 <= i < |edges| && edges[i].dest == d;
      assert r[i].dest == d;
    }
  }

  lemma OneInverse(edges: seq<TcEdge>, i: nat, inv: TcEntry?)
    requires i < |edges| && forall j :: 0 <= j < |edges| && j != i ==> edges[j].dest != edges[i].dest
    ensures WithInverse(edges, edges[i].dest, inv) == edges[i := edges[i].(inv := inv)]
  {
  }

  lemma NoInverse(edges: seq<TcEdge>, addr: nat, inv: TcEntry?)
    requires !HasEdge(edges, addr)
    ensures WithInverse(edges, addr, inv) == edges
  {
  }

  /** Our edges have changed, and the entry with address addr points back to us or to nothing. */
  ghost predicate Rewired(m: map<TcEntry, seq<TcEdge>>, m': map<TcEntry, seq<TcEdge>>, myself: TcEntry, addr: nat,
                          inv: TcEntry?)
  {
    && m'.Keys == m.Keys && myself in m && myself.addr != addr
    && (forall tc :: tc in m && tc != myself && tc.addr != addr ==> m'[tc] == m[tc])
    && forall tc :: tc in m && tc != myself && tc.addr == addr ==> m'[tc] == WithInverse(m[tc], myself.addr, inv)
  }

  /** Inverses stay right if our edge to addr appears or disappears, and both ends are told. */
  lemma RewiredMutual(m: map<TcEntry, seq<TcEdge>>, m': map<TcEntry, seq<TcEdge>>, myself: TcEntry, addr: nat)
    requires Mutual(m) && DifferentAddrs(m.Keys) && myself in m && m'.Keys == m.Keys
    requires Rewired(m, m', myself, addr, if HasEdge(m'[myself], addr) then myself else null)
    requires forall d :: d != addr ==> (HasEdge(m'[myself], d) <==> HasEdge(m[myself], d))
    requires forall i :: 0 <= i < |m'[myself]| ==>
                           if m'[myself][i].dest == addr then InverseOk(m, myself, m'[myself][i])
                               else m'[myself][i] in m[myself]
    ensures Mutual(m')
  {
    hide HasEdge, WithInverse;
    var inv := if HasEdge(m'[myself], addr) then myself else null;
    forall tc | tc in m && tc.addr == addr
      ensures forall d :: HasEdge(m'[tc], d) <==> HasEdge(m[tc], d)
    {
      SameDests(m[tc], myself.addr, inv);
    }
    forall tc, i | tc in m' && 0 <= i < |m'[tc]|
      ensures InverseOk(m', tc, m'[tc][i])
    {
      var e := m'[tc][i];
      if tc == myself {
        assert e.dest != addr ==> InverseOk(m, myself, e);
      } else {
        assert InverseOk(m, tc, m[tc][i]);
      }
    }
  }

  /** The edge back to us forgets its inverse. */
  method ClearInverse(myself: TcEntry, inv: TcEntry, ghost tcs: set<TcEntry>)
    requires LsdbOk(tcs) && inv in tcs && inv != myself && HasEdge(inv.edges, myself.addr)
    modifies inv`edges
    ensures LsdbOk(tcs) && inv.edges == WithInverse(old(inv.edges), myself.addr, null)
  {
    EdgeFacts(tcs, inv);
    var j := LookupEdge(inv.edges, myself.addr);
    OneInverse(inv.edges, j, null);
    inv.edges := inv.edges[j := inv.edges[j].(inv := null)];
  }

  /** olsr_delete_tc_edge_entry, on one of our edges. */
  method DeleteEdge(myself: TcEntry, i: nat, ghost tcs: set<TcEntry>)
    requires LsdbOk(tcs) && Mutual(EdgeMap(tcs)) && myself in tcs && i < |myself.edges|
             && myself.edges[i].dest != myself.addr
    modifies tcs`edges
    ensures LsdbOk(tcs) && Mutual(EdgeMap(tcs))
    ensures !HasEdge(myself.edges, old(myself.edges)[i].dest)
    ensures OthersKept(myself.edges, old(myself.edges), old(myself.edges)[i].dest)
    ensures Rewired(old(EdgeMap(tcs)), EdgeMap(tcs), myself, old(myself.edges)[i].dest, null)
  {
    hide Mutual, HasEdge, WithInverse, OthersKept;
    ghost var m, d := EdgeMap(tcs), myself.edges[i].dest;
    EdgeFacts(tcs, myself);
    MutualAt(m, myself, i);
    WithoutEdge(m[myself], i);
    var inv := myself.edges[i].inv;
    myself.edges := myself.edges[..i] + myself.edges[i + 1..];
    if inv != null {
      ClearInverse(myself, inv, tcs);
    }
    forall tc | tc in tcs && tc != myself && tc.addr == d
      ensures tc.edges == WithInverse(m[tc], myself.addr, null)
    {
      if inv == null {
        NoInverse(m[tc], myself.addr, null);
      }
    }
    RewiredMutual(m, EdgeMap(tcs), myself, d);
  }

  lemma EdgeFacts(tcs: set<TcEntry>, tc: TcEntry)
    requires LsdbOk(tcs) && tc in tcs
    ensures EdgesOk(tcs, tc.edges)
  {
  }

  lemma MutualAt(m: map<TcEntry, seq<TcEdge>>, tc: TcEntry, i: nat)
    requires Mutual(m) && tc in m && i < |m[tc]|
    ensures InverseOk(m, tc, m[tc][i])
  {
  }

  lemma WithoutEdge(edges: seq<TcEdge>, i: nat)
    requires i < |edges| && forall j, k :: 0 <= j < k < |edges| ==> edges[j].dest != edges[k].dest
    ensures var rest := edges[..i] + edges[i + 1..];
            && !HasEdge(rest, edges[i].dest)
            && (forall d :: d != edges[i].dest ==> (HasEdge(rest, d) <==> HasEdge(edges, d)))
            && (forall k :: 0 <= k < |rest| ==> rest[k] in edges) && OthersKept(rest, edges, edges[i].dest)
  {
    var rest := edges[..i] + edges[i + 1..];
    forall e | e in edges && e.dest != edges[i].dest
      ensures e in rest
    {
      var k :| 0 <= k < |edges| && edges[k] == e;
      assert rest[if k < i then k else k - 1] == e;
    }
    forall d | d != edges[i].dest && HasEdge(edges, d)
      ensures HasEdge(rest, d)
    {
      var k :| 0 <= k < |edges| && edges[k].dest == d;
      assert rest[if k < i then k else k - 1].dest == d;
    }
  }

  /** Looks for the entry that a new edge of ours leads to, and connects its edge back to us, if there is one. */
  method ConnectInverse(myself: TcEntry, addr: nat, tcTree: seq<TcEntry>, ghost tcs: set<TcEntry>)
    returns (inv: TcEntry?)
    requires tcs == (set tc | tc in tcTree) && LsdbOk(tcs) && myself in tcs && addr != myself.addr
    modifies (tcs - {myself})`edges
    ensures LsdbOk(tcs)
    ensures inv != null ==> inv in tcs && inv.addr == addr && old(HasEdge(inv.edges, myself.addr))
    ensures inv == null ==> forall v :: v in tcs && v.addr == addr ==> !HasEdge(old(v.edges), myself.addr)
    ensures forall tc :: tc in tcs && tc != myself ==>
                           tc.edges == if tc.addr == addr then WithInverse(old(tc.edges), myself.addr, myself)
                               else old(tc.edges)
  {
    hide WithInverse;
    inv := null;
    var v := LookupEntry(tcTree, addr);
    if v != null {
      EdgeFacts(tcs, v);
      var j := LookupEdge(v.edges, myself.addr);
      if j < |v.edges| {
        OneInverse(v.edges, j, myself);
        v.edges := v.edges[j := v.edges[j].(inv := myself)];
        inv := v;
      } else {
        NoInverse(v.edges, myself.addr, myself);
      }
    }
  }

  /** olsr_calc_tc_edge_entry_etx: without link quality an edge keeps its cost. */
  function EdgeCost(lqLevel: nat, was: LinkCost, lq: nat, nlq: nat): LinkCost {
    if lqLevel < 1 then was else LinkQuality.CalcCost(lq, nlq)
  }

  /** olsr_add_tc_edge_entry, on our entry. Nothing is known of the quality yet, so that the edge costs as much as a
      broken link, or nothing without link quality. */
  method AddEdge(myself: TcEntry, addr: nat, tcTree: seq<TcEntry>, lqLevel: nat, ghost tcs: set<TcEntry>)
    requires tcs == (set tc | tc in tcTree) && LsdbOk(tcs) && Mutual(EdgeMap(tcs)) && myself in tcs
    requires addr != myself.addr && !HasEdge(myself.edges, addr)
    modifies tcs`edges
    ensures LsdbOk(tcs) && Mutual(EdgeMap(tcs))
    ensures exists e: TcEdge :: myself.edges == old(myself.edges) + [e] && e.dest == addr
                                && e.cost == if lqLevel < 1 then 0 else LINK_COST_BROKEN
    ensures OthersKept(myself.edges, old(myself.edges), addr)
    ensures Rewired(old(EdgeMap(tcs)), EdgeMap(tcs), myself, addr, myself)
  {
    hide Mutual, HasEdge, WithInverse, EdgesOk, OthersKept;
    ghost var m := EdgeMap(tcs);
    var inv := ConnectInverse(myself, addr, tcTree, tcs);
    EdgeFacts(tcs, myself);
    var tcEdge := TcEdge(addr, EdgeCost(lqLevel, 0, 0, 0), inv);
    myself.edges := myself.edges + [tcEdge];
    OneMoreEdge(m[myself], tcEdge);
    StillEdgesOk(tcs, m[myself], tcEdge);
    RewiredMutual(m, EdgeMap(tcs), myself, addr);
  }

  lemma StillEdgesOk(tcs: set<TcEntry>, edges: seq<TcEdge>, e: TcEdge)
    requires EdgesOk(tcs, edges) && EdgeOk(tcs, e) && !HasEdge(edges, e.dest)
    ensures EdgesOk(tcs, edges + [e])
  {
  }

  /** olsr_copylq_link_entry_2_tc_edge_entry and olsr_calc_tc_edge_entry_etx: the edge costs what the link costs. */
  method RefreshEdge(myself: TcEntry, i: nat, lq: nat, nlq: nat, lqLevel: nat, ghost tcs: set<TcEntry>)
    requires LsdbOk(tcs) && Mutual(EdgeMap(tcs)) && myself in tcs && i < |myself.edges|
    modifies myself`edges
    ensures LsdbOk(tcs) && Mutual(EdgeMap(tcs))
    ensures var e := old(myself.edges)[i];
            myself.edges == old(myself.edges)[i := e.(cost := if lqLevel < 1 then e.cost
                                                      else LinkQuality.CalcCost(lq, nlq))]
  {
    hide Mutual;
    ghost var m := EdgeMap(tcs);
    EdgeFacts(tcs, myself);
    var cost := EdgeCost(lqLevel, myself.edges[i].cost, lq, nlq);
    myself.edges := myself.edges[i := myself.edges[i].(cost := cost)];
    PricedMutual(m, EdgeMap(tcs), myself, i, cost);
  }

  lemma PricedMutual(m: map<TcEntry, seq<TcEdge>>, m': map<TcEntry, seq<TcEdge>>, myself: TcEntry, i: nat,
                     cost: LinkCost)
    requires Mutual(m) && myself in m && i < |m[myself]|
             && m' == m[myself := m[myself][i := m[myself][i].(cost := cost)]]
    ensures Mutual(m')
  {
    hide HasEdge;
    forall tc, d | tc in m
      ensures HasEdge(m'[tc], d) <==> HasEdge(m[tc], d)
    {
      assert forall k :: 0 <= k < |m[tc]| ==> m'[tc][k].dest == m[tc][k].dest;
      SameDestinations(m[tc], m'[tc], d);
    }
    forall tc, k | tc in m' && 0 <= k < |m'[tc]|
      ensures InverseOk(m', tc, m'[tc][k])
    {
      assert InverseOk(m, tc, m[tc][k]);
    }
  }

  lemma SameDestinations(edges: seq<TcEdge>, more: seq<TcEdge>, d: nat)
    requires |more| == |edges| && forall k :: 0 <= k < |edges| ==> more[k].dest == edges[k].dest
    ensures HasEdge(more, d) <==> HasEdge(edges, d)
  {
    if HasEdge(edges, d) {
      var k :| 0 <= k < |edges| && edges[k].dest == d;
      assert more[k].dest == d;
    }
  }

  lemma OneMoreEdge(edges: seq<TcEdge>, e: TcEdge)
    requires !HasEdge(edges, e.dest)
    ensures var more := edges + [e];
            && HasEdge(more, e.dest) && OthersKept(more, edges, e.dest)
            && (forall d :: d != e.dest ==> (HasEdge(more, d) <==> HasEdge(edges, d)))
            && forall k :: 0 <= k < |more| ==> if more[k].dest == e.dest then more[k] == e else more[k] in edges
  {
    var more := edges + [e];
    assert more[|edges|] == e;
    forall d | HasEdge(edges, d)
      ensures HasEdge(more, d)
    {
      var k :| 0 <= k < |edges| && edges[k].dest == d;
      assert more[k].dest == d;
    }
  }

  /** What our edge to a neighbour costs: one that was there what its link costs, a new one as much as a broken link;
      without link quality one that was there what it did, and a new one nothing. */
  ghost predicate Priced(edges: seq<TcEdge>, nb: Neighbor, was: seq<TcEdge>, lqLevel: nat) {
    && (forall e, f :: e in edges && f in was && e.dest == f.dest == nb.addr ==>
                         e.cost == if lqLevel < 1 then f.cost else LinkQuality.CalcCost(nb.lq, nb.nlq))
    && forall e :: e in edges && e.dest == nb.addr && !HasEdge(was, nb.addr) ==>
                     e.cost == if lqLevel < 1 then 0 else LINK_COST_BROKEN
  }

  /** The entry of a neighbour keeps its edges; only which inverse its edge to us has may change. */
  ghost predicate SameButInverse(edges: seq<TcEdge>, was: seq<TcEdge>, addr: nat) {
    && |edges| == |was|
    && forall i :: 0 <= i < |was| ==> edges[i] == was[i]
                                      || (was[i].dest == addr && edges[i] == was[i].(inv := edges[i].inv))
  }

  ghost predicate OnlyInverses(m: map<TcEntry, seq<TcEdge>>, m': map<TcEntry, seq<TcEdge>>, myself: TcEntry) {
    m'.Keys == m.Keys && forall tc :: tc in m && tc != myself ==> SameButInverse(m'[tc], m[tc], myself.addr)
  }

  lemma RewiredOnly(m: map<TcEntry, seq<TcEdge>>, m': map<TcEntry, seq<TcEdge>>, myself: TcEntry, addr: nat,
                    inv: TcEntry?)
    requires Rewired(m, m', myself, addr, inv)
    ensures OnlyInverses(m, m', myself)
  {
    hide WithInverse;
  }

  lemma OnlyOurs(m: map<TcEntry, seq<TcEdge>>, m': map<TcEntry, seq<TcEdge>>, myself: TcEntry)
    requires m'.Keys == m.Keys && forall tc :: tc in m && tc != myself ==> m'[tc] == m[tc]
    ensures OnlyInverses(m, m', myself)
  {
  }

  lemma NewEdgePriced(edges: seq<TcEdge>, e: TcEdge, nb: Neighbor, lqLevel: nat)
    requires e.dest == nb.addr && !HasEdge(edges, nb.addr)
    requires e.cost == if lqLevel < 1 then 0 else LINK_COST_BROKEN
    ensures Priced(edges + [e], nb, edges, lqLevel)
  {
  }

  lemma RefreshedPriced(edges: seq<TcEdge>, i: nat, nb: Neighbor, lqLevel: nat)
    requires i < |edges| && edges[i].dest == nb.addr
    requires forall j, k :: 0 <= j < k < |edges| ==> edges[j].dest != edges[k].dest
    ensures var cost := if lqLevel < 1 then edges[i].cost else LinkQuality.CalcCost(nb.lq, nb.nlq);
            Priced(edges[i := edges[i].(cost := cost)], nb, edges, lqLevel)
  {
    hide LinkQuality.CalcCost;
    assert edges[i] in edges && HasEdge(edges, nb.addr);
  }

  lemma PricedTransfer(edges: seq<TcEdge>, nb: Neighbor, was: seq<TcEdge>, was': seq<TcEdge>, lqLevel: nat)
    requires Priced(edges, nb, was, lqLevel)
    requires (forall e :: e in was && e.dest == nb.addr ==> e in was')
             && forall e :: e in was' && e.dest == nb.addr ==> e in was
    ensures Priced(edges, nb, was', lqLevel)
  {
    SameHasEdge(was, was', nb.addr);
    hide HasEdge, LinkQuality.CalcCost;
  }

  /** The same, said of the edges of all neighbours. */
  lemma PricedAll(edges: seq<TcEdge>, nbs: seq<Neighbor>, was: seq<TcEdge>, lqLevel: nat)
    requires forall i :: 0 <= i < |nbs| && nbs[i].sym ==> Priced(edges, nbs[i], was, lqLevel)
    ensures forall i, e, f :: 0 <= i < |nbs| && nbs[i].sym && e in edges && f in was
                              && e.dest == f.dest == nbs[i].addr ==>
                                e.cost == if lqLevel < 1 then f.cost else LinkQuality.CalcCost(nbs[i].lq, nbs[i].nlq)
    ensures forall i, e :: 0 <= i < |nbs| && nbs[i].sym && e in edges && e.dest == nbs[i].addr
                           && (forall f :: f in was ==> f.dest != nbs[i].addr) ==>
                             e.cost == if lqLevel < 1 then 0 else LINK_COST_BROKEN
  {
    hide LinkQuality.CalcCost;
    forall i | 0 <= i < |nbs| && nbs[i].sym && forall f :: f in was ==> f.dest != nbs[i].addr
      ensures !HasEdge(was, nbs[i].addr)
    {
    }
  }

  lemma NoEdgePriced(edges: seq<TcEdge>, nb: Neighbor, was: seq<TcEdge>, lqLevel: nat)
    requires !HasEdge(edges, nb.addr)
    ensures Priced(edges, nb, was, lqLevel) && forall i :: 0 <= i < |edges| ==> edges[i].dest != nb.addr
  {
  }

  /** A neighbour with a link: its edge is added, or refreshed. i is the position of the edge, or the number of edges.
      */
  method ConnectNeighbor(myself: TcEntry, nb: Neighbor, i: nat, tcTree: seq<TcEntry>, lqLevel: nat,
                         ghost tcs: set<TcEntry>)
    requires tcs == (set tc | tc in tcTree) && LsdbOk(tcs) && Mutual(EdgeMap(tcs)) && myself in tcs
             && nb.addr != myself.addr
    requires i < |myself.edges| ==> myself.edges[i].dest == nb.addr
    requires i >= |myself.edges| ==> i == |myself.edges| && !HasEdge(myself.edges, nb.addr)
    modifies tcs`edges
    ensures LsdbOk(tcs) && Mutual(EdgeMap(tcs)) && i < |myself.edges| && myself.edges[i].dest == nb.addr
    ensures Priced(myself.edges, nb, old(myself.edges), lqLevel)
    ensures OthersKept(myself.edges, old(myself.edges), nb.addr)
            && OnlyInverses(old(EdgeMap(tcs)), EdgeMap(tcs), myself)
  {
    hide Mutual, HasEdge, OthersKept, OnlyInverses, Rewired, EdgeOk, Priced, LinkQuality.CalcCost;
    ghost var m := EdgeMap(tcs);
    if i == |myself.edges| {
      AddEdge(myself, nb.addr, tcTree, lqLevel, tcs);
      RewiredOnly(m, EdgeMap(tcs), myself, nb.addr, myself);
      NewEdgePriced(m[myself], myself.edges[i], nb, lqLevel);
    } else {
      EdgeFacts(tcs, myself);
      RefreshEdge(myself, i, nb.lq, nb.nlq, lqLevel, tcs);
      RefreshedPriced(m[myself], i, nb, lqLevel);
      OneChanged(m[myself], i, myself.edges[i]);
      OnlyOurs(m, EdgeMap(tcs), myself);
    }
  }

  /** The loop body over the neighbours. */
  method SetNeighbor(myself: TcEntry, nb: Neighbor, tcTree: seq<TcEntry>, lqLevel: nat, ghost tcs: set<TcEntry>)
    requires tcs == (set tc | tc in tcTree) && LsdbOk(tcs) && Mutual(EdgeMap(tcs)) && myself in tcs
             && nb.addr != myself.addr
    modifies tcs`edges, tcs`nextHop
    ensures LsdbOk(tcs) && Mutual(EdgeMap(tcs)) && NeighborSet(tcs, myself.edges, nb)
    ensures nb.sym ==> Priced(myself.edges, nb, old(myself.edges), lqLevel)
    ensures !nb.sym ==> myself.edges == old(myself.edges)
    ensures OthersKept(myself.edges, old(myself.edges), nb.addr)
            && OnlyInverses(old(EdgeMap(tcs)), EdgeMap(tcs), myself)
    ensures forall tc: TcEntry :: tc in tcs && tc.addr != nb.addr ==> tc.nextHop == old(tc.nextHop)
  {
    hide Mutual, LsdbOk, EdgeMap, HasEdge, OthersKept, OnlyInverses, Rewired, Priced;
    var i := LookupEdge(myself.edges, nb.addr);
    EdgeAt(myself.edges, i, nb.addr);
    OnlyOurs(EdgeMap(tcs), EdgeMap(tcs), myself);
    NothingKept(myself.edges, nb.addr);
    if nb.sym {
      if nb.link == None {
        ghost var m := EdgeMap(tcs);
        if i < |myself.edges| {
          DeleteEdge(myself, i, tcs);
          RewiredOnly(m, EdgeMap(tcs), myself, nb.addr, null);
        }
        NoEdgePriced(myself.edges, nb, old(myself.edges), lqLevel);
      } else {
        ConnectNeighbor(myself, nb, i, tcTree, lqLevel, tcs);
        EdgeFacts(tcs, myself);
        var tcEdge := myself.edges[i];
        if tcEdge.inv != null {
          InverseAt(tcs, myself.edges, i);
          tcEdge.inv.nextHop := nb.link;
        }
      }
    }
  }

  lemma EdgeAt(edges: seq<TcEdge>, i: nat, addr: nat)
    requires i <= |edges| && (i < |edges| ==> edges[i].dest == addr)
    requires i == |edges| ==> forall j :: 0 <= j < |edges| ==> edges[j].dest != addr
    ensures HasEdge(edges, addr) <==> i < |edges|
  {
  }

  lemma NothingKept(edges: seq<TcEdge>, addr: nat)
    ensures OthersKept(edges, edges, addr)
  {
  }

  lemma OneChanged(edges: seq<TcEdge>, i: nat, e: TcEdge)
    requires i < |edges| && e.dest == edges[i].dest
             && forall j, k :: 0 <= j < k < |edges| ==> edges[j].dest != edges[k].dest
    ensures OthersKept(edges[i := e], edges, e.dest)
    ensures forall f :: f in edges[i := e] && f.dest == e.dest ==> f == e
  {
    var more := edges[i := e];
    forall f: TcEdge | f.dest != e.dest && f in edges
      ensures f in more
    {
      var k :| 0 <= k < |edges| && edges[k] == f;
      assert more[k] == f;
    }
  }

  lemma InverseAt(tcs: set<TcEntry>, edges: seq<TcEdge>, i: nat)
    requires EdgesOk(tcs, edges) && i < |edges| && edges[i].inv != null
    ensures edges[i].inv in tcs && edges[i].inv.addr == edges[i].dest
  {
    assert EdgeOk(tcs, edges[i]);
  }

  /** Neighbours have different addresses, none of them ours. */
  ghost predicate NeighborsOk(myself: TcEntry, nbs: seq<Neighbor>) {
    && (forall i :: 0 <= i < |nbs| ==> nbs[i].addr != myself.addr)
    && forall i, j :: 0 <= i < j < |nbs| ==> nbs[i].addr != nbs[j].addr
  }

  ghost predicate ToSymmetric(nbs: seq<Neighbor>, dest: nat) {
    exists i :: 0 <= i < |nbs| && nbs[i].sym && nbs[i].addr == dest
  }

  /** The loop over all neighbours. */
  method SetNeighbors(myself: TcEntry, nbs: seq<Neighbor>, tcTree: seq<TcEntry>, lqLevel: nat, ghost tcs: set<TcEntry>)
    requires tcs == (set tc | tc in tcTree) && LsdbOk(tcs) && Mutual(EdgeMap(tcs)) && myself in tcs
             && NeighborsOk(myself, nbs)
    modifies tcs`edges, tcs`nextHop
    ensures LsdbOk(tcs) && Mutual(EdgeMap(tcs)) && myself.nextHop == old(myself.nextHop)
    ensures forall i :: 0 <= i < |nbs| ==> NeighborSet(tcs, myself.edges, nbs[i])
    ensures forall i :: 0 <= i < |nbs| && nbs[i].sym ==> Priced(myself.edges, nbs[i], old(myself.edges), lqLevel)
    ensures forall e: TcEdge :: !ToSymmetric(nbs, e.dest) ==> (e in myself.edges <==> e in old(myself.edges))
    ensures OnlyInverses(old(EdgeMap(tcs)), EdgeMap(tcs), myself)
  {
    hide LsdbOk, Mutual, NeighborSet, Priced, OnlyInverses, HasEdge;
    ghost var m := EdgeMap(tcs);
    NothingChanged(m, myself);
    var i := 0;
    while i < |nbs|
      invariant 0 <= i <= |nbs| && LsdbOk(tcs) && Mutual(EdgeMap(tcs)) && myself.nextHop == old(myself.nextHop)
      invariant forall j :: 0 <= j < i ==> NeighborSet(tcs, myself.edges, nbs[j])
      invariant forall j :: 0 <= j < i && nbs[j].sym ==> Priced(myself.edges, nbs[j], m[myself], lqLevel)
      invariant forall e: TcEdge :: !ToSymmetric(nbs[..i], e.dest) ==> (e in myself.edges <==> e in m[myself])
      invariant OnlyInverses(m, EdgeMap(tcs), myself)
    {
      i := i + 1;
      SetNextNeighbor(myself, nbs, i - 1, tcTree, lqLevel, tcs, m);
    }
    assert nbs[..i] == nbs;
  }

  lemma NothingChanged(m: map<TcEntry, seq<TcEdge>>, myself: TcEntry)
    ensures OnlyInverses(m, m, myself)
  {
  }

  lemma ChangesCompose(m: map<TcEntry, seq<TcEdge>>, m': map<TcEntry, seq<TcEdge>>, m'': map<TcEntry, seq<TcEdge>>,
                       myself: TcEntry)
    requires OnlyInverses(m, m', myself) && OnlyInverses(m', m'', myself)
    ensures OnlyInverses(m, m'', myself)
  {
    forall tc | tc in m && tc != myself
      ensures SameButInverse(m''[tc], m[tc], myself.addr)
    {
      assert SameButInverse(m'[tc], m[tc], myself.addr) && SameButInverse(m''[tc], m'[tc], myself.addr);
    }
  }

  method SetNextNeighbor(myself: TcEntry, nbs: seq<Neighbor>, i: nat, tcTree: seq<TcEntry>, lqLevel: nat,
                         ghost tcs: set<TcEntry>,
                         ghost m: map<TcEntry, seq<TcEdge>>)
    requires tcs == (set tc | tc in tcTree) && LsdbOk(tcs) && Mutual(EdgeMap(tcs)) && myself in tcs
             && NeighborsOk(myself, nbs)
    requires i < |nbs| && myself in m && OnlyInverses(m, EdgeMap(tcs), myself)
    requires forall j :: 0 <= j < i ==> NeighborSet(tcs, myself.edges, nbs[j])
    requires forall j :: 0 <= j < i && nbs[j].sym ==> Priced(myself.edges, nbs[j], m[myself], lqLevel)
    requires forall e: TcEdge :: !ToSymmetric(nbs[..i], e.dest) ==> (e in myself.edges <==> e in m[myself])
    modifies tcs`edges, tcs`nextHop
    ensures LsdbOk(tcs) && Mutual(EdgeMap(tcs)) && myself.nextHop == old(myself.nextHop)
    ensures forall j :: 0 <= j <= i ==> NeighborSet(tcs, myself.edges, nbs[j])
    ensures forall j :: 0 <= j <= i && nbs[j].sym ==> Priced(myself.edges, nbs[j], m[myself], lqLevel)
    ensures forall e: TcEdge :: !ToSymmetric(nbs[..i + 1], e.dest) ==> (e in myself.edges <==> e in m[myself])
    ensures OnlyInverses(m, EdgeMap(tcs), myself)
  {
    hide LsdbOk, Mutual, OnlyInverses, HasEdge, EdgeMap;
    OwnEdges(tcs, myself);
    NotYetSet(nbs, i);
    SetNeighbor(myself, nbs[i], tcTree, lqLevel, tcs);
    if nbs[i].sym {
      PricedTransfer(myself.edges, nbs[i], old(myself.edges), m[myself], lqLevel);
    }
    forall j | 0 <= j < i && nbs[j].sym
      ensures Priced(myself.edges, nbs[j], m[myself], lqLevel)
    {
      assert nbs[j].addr != nbs[i].addr;
    }
    ChangesCompose(m, old(EdgeMap(tcs)), EdgeMap(tcs), myself);
    forall j | 0 <= j < i
      ensures NeighborSet(tcs, myself.edges, nbs[j])
    {
      ghost var nb, was := nbs[j], old(myself.edges);
      assert old(NeighborSet(tcs, was, nb)) && nb.addr != nbs[i].addr;
      if nb.sym && nb.link == None {
        forall k | 0 <= k < |myself.edges|
          ensures myself.edges[k].dest != nb.addr
        {
          assert myself.edges[k] in myself.edges;
        }
      }
      if nb.sym && nb.link.Some? {
        ghost var k :| 0 <= k < |was| && was[k].dest == nb.addr
          && (was[k].inv != null && was[k].inv in tcs ==> old(was[k].inv.nextHop) == nb.link);
        assert was[k] in was;
        assert was[k] in myself.edges;
      }
    }
    MoreSymmetric(nbs, i);
  }

  lemma NotYetSet(nbs: seq<Neighbor>, i: nat)
    requires i < |nbs| && forall j, k :: 0 <= j < k < |nbs| ==> nbs[j].addr != nbs[k].addr
    ensures !ToSymmetric(nbs[..i], nbs[i].addr)
  {
  }

  lemma SameHasEdge(edges: seq<TcEdge>, was: seq<TcEdge>, d: nat)
    ensures (forall e: TcEdge :: e.dest == d ==> (e in edges <==> e in was)) ==>
              (HasEdge(edges, d) <==> HasEdge(was, d))
  {
    if forall e: TcEdge :: e.dest == d ==> (e in edges <==> e in was) {
      if HasEdge(edges, d) {
        var i :| 0 <= i < |edges| && edges[i].dest == d;
        assert edges[i] in was;
      }
      if HasEdge(was, d) {
        var i :| 0 <= i < |was| && was[i].dest == d;
        assert was[i] in edges;
      }
    }
  }

  lemma OwnEdges(tcs: set<TcEntry>, myself: TcEntry)
    requires LsdbOk(tcs) && myself in tcs
    ensures forall i :: 0 <= i < |myself.edges| ==> EdgeOk(tcs, myself.edges[i])
  {
    assert EdgesOk(tcs, myself.edges);
  }

  lemma MoreSymmetric(nbs: seq<Neighbor>, i: nat)
    requires i < |nbs|
    ensures forall d :: ToSymmetric(nbs[..i + 1], d) <==> ToSymmetric(nbs[..i], d) || (nbs[i].sym && nbs[i].addr == d)
  {
    var some, more := nbs[..i], nbs[..i + 1];
    assert forall j :: 0 <= j < i ==> more[j] == some[j];
    assert more[i] == nbs[i];
    forall d | ToSymmetric(some, d)
      ensures ToSymmetric(more, d)
    {
      var j :| 0 <= j < i && some[j].sym && some[j].addr == d;
      assert more[j].sym && more[j].addr == d;
    }
    forall d | ToSymmetric(more, d)
      ensures ToSymmetric(some, d) || (nbs[i].sym && nbs[i].addr == d)
    {
      var j :| 0 <= j <= i && more[j].sym && more[j].addr == d;
      assert j < i ==> some[j].sym && some[j].addr == d;
    }
    if nbs[i].sym {
      assert ToSymmetric(more, nbs[i].addr);
    }
  }

  /** Every edge of ours that has an inverse leads to a symmetric neighbour. */
  ghost predicate EdgesToNeighbors(edges: seq<TcEdge>, nbs: seq<Neighbor>) {
    forall e :: e in edges && e.inv != null ==> ToSymmetric(nbs, e.dest)
  }

  /** Then the presets cover our edges. */
  lemma PresetsCover(tcs: set<TcEntry>, myself: TcEntry, nbs: seq<Neighbor>, was: seq<TcEdge>)
    requires LsdbOk(tcs) && myself in tcs && EdgesToNeighbors(was, nbs)
    requires forall i :: 0 <= i < |nbs| ==> NeighborSet(tcs, myself.edges, nbs[i])
    requires forall e: TcEdge :: !ToSymmetric(nbs, e.dest) ==> (e in myself.edges <==> e in was)
    ensures Covered(Usable(tcs), myself.addr, NextHopMap(tcs))
  {
    forall a | a in Usable(tcs) && a.src == myself.addr
      ensures a.dst in NextHopMap(tcs) && NextHopMap(tcs)[a.dst].Some?
    {
      var i := EdgeOfArc(tcs, myself, a);
      var e := myself.edges[i];
      assert e in myself.edges;
      assert e in was ==> ToSymmetric(nbs, e.dest);
      var j :| 0 <= j < |nbs| && nbs[j].sym && nbs[j].addr == e.dest;
      assert NeighborSet(tcs, myself.edges, nbs[j]);
      SelfListed(tcs, e.inv);
    }
  }

  lemma EdgeOfArc(tcs: set<TcEntry>, myself: TcEntry, a: Arc) returns (i: nat)
    requires LsdbOk(tcs) && myself in tcs && a in Usable(tcs) && a.src == myself.addr
    ensures i < |myself.edges| && myself.edges[i].inv != null && myself.edges[i].inv in tcs
    ensures myself.edges[i].inv.addr == a.dst == myself.edges[i].dest
    ensures forall j :: 0 <= j < |myself.edges| && myself.edges[j].dest == a.dst ==> j == i
  {
    var tc :| tc in tcs && a in UsableOf(tc, |tc.edges|);
    assert tc == myself;
    i :| 0 <= i < |tc.edges| && tc.edges[i].inv != null
      && a == Arc(tc.addr, (tc.edges[i].inv as TcEntry).addr, tc.edges[i].cost);
    assert EdgesOk(tcs, myself.edges);
    assert EdgeOk(tcs, myself.edges[i]);
  }

  /** A symmetric neighbour whose edge has an inverse gets its best link. */
  ghost predicate PresetFor(edges: seq<TcEdge>, preset: map<nat, Option<nat>>, nb: Neighbor) {
    nb.sym && nb.link.Some? ==>
      exists i :: 0 <= i < |edges| && edges[i].dest == nb.addr
                  && (edges[i].inv != null ==> nb.addr in preset && preset[nb.addr] == nb.link)
  }

  lemma PresetsSay(edges: seq<TcEdge>, preset: map<nat, Option<nat>>, nbs: seq<Neighbor>)
    requires forall i :: 0 <= i < |nbs| ==> PresetFor(edges, preset, nbs[i])
    ensures forall i :: 0 <= i < |nbs| && nbs[i].sym && nbs[i].link.Some? ==>
                          exists e :: e in edges && e.dest == nbs[i].addr
                                      && (e.inv != null ==> nbs[i].addr in preset
                                                            && preset[nbs[i].addr] == nbs[i].link)
  {
    forall i | 0 <= i < |nbs| && nbs[i].sym && nbs[i].link.Some?
      ensures exists e :: e in edges && e.dest == nbs[i].addr
                          && (e.inv != null ==> nbs[i].addr in preset && preset[nbs[i].addr] == nbs[i].link)
    {
      assert PresetFor(edges, preset, nbs[i]);
      var k :| 0 <= k < |edges| && edges[k].dest == nbs[i].addr
               && (edges[k].inv != null ==> nbs[i].addr in preset && preset[nbs[i].addr] == nbs[i].link);
      assert edges[k] in edges;
    }
  }

  lemma PresetIs(tcs: set<TcEntry>, myself: TcEntry, nb: Neighbor)
    requires LsdbOk(tcs) && myself in tcs && NeighborSet(tcs, myself.edges, nb)
    ensures PresetFor(myself.edges, NextHopMap(tcs), nb)
  {
    if nb.sym && nb.link.Some? {
      var i :| 0 <= i < |myself.edges| && myself.edges[i].dest == nb.addr
               && (myself.edges[i].inv != null && myself.edges[i].inv in tcs ==>
                     myself.edges[i].inv.nextHop == nb.link);
      assert EdgesOk(tcs, myself.edges);
      assert EdgeOk(tcs, myself.edges[i]);
      if myself.edges[i].inv != null {
        SelfListed(tcs, myself.edges[i].inv);
      }
    }
  }

  /** The loop that initialises all entries. */
  method ClearEntries(tcTree: seq<TcEntry>)
    modifies (set tc | tc in tcTree)`pathCost, (set tc | tc in tcTree)`nextHop, (set tc | tc in tcTree)`hops
    ensures forall tc :: tc in tcTree ==> tc.nextHop == None && tc.pathCost == ROUTE_COST_BROKEN && tc.hops == 0
  {
    var i := 0;
    while i < |tcTree|
      invariant 0 <= i <= |tcTree|
      invariant forall j :: 0 <= j < i ==> tcTree[j].nextHop == None && tcTree[j].pathCost == ROUTE_COST_BROKEN
                                           && tcTree[j].hops == 0
    {
      tcTree[i].nextHop := None;
      tcTree[i].pathCost := ROUTE_COST_BROKEN;
      tcTree[i].hops := 0;
      i := i + 1;
    }
  }

  lemma {:induction false} WalkBound(g: set<Arc>, s: nat, w: seq<Arc>, t: nat)
    requires IsWalk(g, s, w, t) && forall a :: a in g ==> a.cost <= LINK_COST_BROKEN
    ensures WalkCost(w) <= |w| * LINK_COST_BROKEN
    decreases |w|
  {
    if w != [] {
      WalkBound(g, w[0].dst, w[1..], t);
    }
  }

  /** Up to 1023 entries no path cost reaches the maximum, whatever the edges cost. */
  lemma FewEntries(tcs: set<TcEntry>, s: nat)
    requires LsdbOk(tcs) && |Addrs(tcs)| <= MAX_ENTRIES
    ensures NoOverflow(Usable(tcs), Addrs(tcs), s)
  {
    var g := Usable(tcs);
    forall a | a in g
      ensures a.cost <= LINK_COST_BROKEN
    {
      var tc :| tc in tcs && a in UsableOf(tc, |tc.edges|);
      assert EdgesOk(tcs, tc.edges);
    }
    forall w, t | IsWalk(g, s, w, t) && |w| <= |Addrs(tcs)|
      ensures WalkCost(w) < ROUTE_COST_BROKEN
    {
      WalkBound(g, s, w, t);
    }
  }

  /** olsr_calculate_routing_table, up to the path list. Without an entry for ourselves nothing is reached. */
  method CalculateRoutingTable(tcTree: seq<TcEntry>, myself: TcEntry?, nbs: seq<Neighbor>, lqLevel: nat,
                               ghost tcs: set<TcEntry>)
    returns (pathList: seq<TcEntry>, ghost preset: map<nat, Option<nat>>)
    requires tcs == (set tc | tc in tcTree) && LsdbOk(tcs) && Mutual(EdgeMap(tcs)) && |Addrs(tcs)| <= MAX_ENTRIES
    requires myself != null ==> myself in tcs && NeighborsOk(myself, nbs)
    modifies tcs
    ensures LsdbOk(tcs) && Mutual(EdgeMap(tcs))
    ensures myself == null ==> pathList == [] && forall tc :: tc in tcs ==>
                                                   tc.pathCost == ROUTE_COST_BROKEN && tc.nextHop == None
    ensures myself != null ==> SpfResult(tcs, myself.addr, preset, pathList) && myself.addr in preset
                               && preset[myself.addr] == None
    ensures myself != null ==>
              forall i :: 0 <= i < |nbs| && nbs[i].sym && nbs[i].link.Some? ==>
                            exists e :: e in myself.edges && e.dest == nbs[i].addr
                                        && (e.inv != null ==> nbs[i].addr in preset
                                                              && preset[nbs[i].addr] == nbs[i].link)
    ensures myself != null ==>
              forall i, e, f :: 0 <= i < |nbs| && nbs[i].sym && e in myself.edges && f in old(myself.edges)
                                && e.dest == f.dest == nbs[i].addr ==>
                                  e.cost == if lqLevel < 1 then f.cost
                                      else LinkQuality.CalcCost(nbs[i].lq, nbs[i].nlq)
    ensures myself != null ==>
              forall i, e :: 0 <= i < |nbs| && nbs[i].sym && e in myself.edges && e.dest == nbs[i].addr
                             && (forall f :: f in old(myself.edges) ==> f.dest != nbs[i].addr) ==>
                               e.cost == if lqLevel < 1 then 0 else LINK_COST_BROKEN
    ensures myself != null ==>
              forall i, e :: 0 <= i < |nbs| && nbs[i].sym && nbs[i].link == None && e in myself.edges ==>
                               e.dest != nbs[i].addr
    ensures myself != null ==>
              forall e: TcEdge :: !ToSymmetric(nbs, e.dest) ==> (e in myself.edges <==> e in old(myself.edges))
    ensures if myself != null then OnlyInverses(old(EdgeMap(tcs)), EdgeMap(tcs), myself)
            else EdgeMap(tcs) == old(EdgeMap(tcs))
    ensures myself != null && EdgesToNeighbors(old(myself.edges), nbs) ==> Covered(Usable(tcs), myself.addr, preset)
  {
    hide LsdbOk, Mutual, Priced, HasEdge, SpfResult, NeighborSet, NextHopMap, Covered, EdgesToNeighbors, Usable,
         NeighborsOk, ToSymmetric, PresetFor, Addrs, NoOverflow, OnlyInverses, LinkQuality.CalcCost;
    ClearEntries(tcTree);
    pathList, preset := [], map[];
    if myself == null {
      return;
    }
    myself.pathCost := 0;
    SetNeighbors(myself, nbs, tcTree, lqLevel, tcs);
    preset := NextHopMap(tcs);
    Presets(tcs, myself, nbs, old(myself.edges));
    PresetsSay(myself.edges, preset, nbs);
    PricedAll(myself.edges, nbs, old(myself.edges), lqLevel);
    NoLinkNoEdge(tcs, myself.edges, nbs);
    FewEntries(tcs, myself.addr);
    var pathCount;
    pathList, pathCount := SpfRunFull(map[myself := 0], myself, tcs);
  }

  lemma NoLinkNoEdge(tcs: set<TcEntry>, edges: seq<TcEdge>, nbs: seq<Neighbor>)
    requires forall i :: 0 <= i < |nbs| ==> NeighborSet(tcs, edges, nbs[i])
    ensures forall i, e :: 0 <= i < |nbs| && nbs[i].sym && nbs[i].link == None && e in edges ==> e.dest != nbs[i].addr
  {
    forall i, e | 0 <= i < |nbs| && nbs[i].sym && nbs[i].link == None && e in edges
      ensures e.dest != nbs[i].addr
    {
      assert NeighborSet(tcs, edges, nbs[i]);
    }
  }

  lemma Presets(tcs: set<TcEntry>, myself: TcEntry, nbs: seq<Neighbor>, was: seq<TcEdge>)
    requires LsdbOk(tcs) && myself in tcs
    requires forall i :: 0 <= i < |nbs| ==> NeighborSet(tcs, myself.edges, nbs[i])
    requires forall e: TcEdge :: !ToSymmetric(nbs, e.dest) ==> (e in myself.edges <==> e in was)
    ensures myself.addr in NextHopMap(tcs) && NextHopMap(tcs)[myself.addr] == myself.nextHop
    ensures forall i :: 0 <= i < |nbs| ==> PresetFor(myself.edges, NextHopMap(tcs), nbs[i])
    ensures EdgesToNeighbors(was, nbs) ==> Covered(Usable(tcs), myself.addr, NextHopMap(tcs))
  {
    SelfListed(tcs, myself);
    forall i | 0 <= i < |nbs|
      ensures PresetFor(myself.edges, NextHopMap(tcs), nbs[i])
    {
      PresetIs(tcs, myself, nbs[i]);
    }
    if EdgesToNeighbors(was, nbs) {
      PresetsCover(tcs, myself, nbs, was);
    }
  }
}
