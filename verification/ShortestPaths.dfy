/** Single-source shortest paths as a state machine over maps: the invariant that both
    Dijkstra implementations keep, and what it means when nothing is left to settle. */
module ShortestPaths {
  import opened Common

  datatype Arc = Arc(src: nat, dst: nat, cost: nat)

  /** Inf is the value a node starts with; no path has been found. */
  datatype Cost = Inf | Fin(c: nat)

  predicate Less(a: Cost, b: Cost) {
    a.Fin? && (b.Inf? || a.c < b.c)
  }

  predicate AtMost(a: Cost, b: Cost) {
    b.Inf? || (a.Fin? && a.c <= b.c)
  }

  // ---------- Walks ----------

  ghost predicate IsWalk(g: set<Arc>, s: nat, w: seq<Arc>, t: nat)
    decreases |w|
  {
    if w == [] then s == t
    else w[0] in g && w[0].src == s && IsWalk(g, w[0].dst, w[1..], t)
  }

  function WalkCost(w: seq<Arc>): nat {
    if w == [] then 0 else w[0].cost + WalkCost(w[1..])
  }

  /** d is the cost of a cheapest walk from s to t; Inf when there is none. */
  ghost predicate IsDistance(g: set<Arc>, s: nat, t: nat, d: Cost) {
    && (d.Fin? ==> exists w :: IsWalk(g, s, w, t) && WalkCost(w) == d.c)
    && forall w :: IsWalk(g, s, w, t) ==> d.Fin? && d.c <= WalkCost(w)
  }

  ghost predicate Reachable(g: set<Arc>, s: nat, t: nat) {
    exists w :: IsWalk(g, s, w, t)
  }

  lemma {:induction false} WalkAppend(g: set<Arc>, s: nat, w: seq<Arc>, t: nat, a: Arc)
    requires IsWalk(g, s, w, t) && a in g && a.src == t
    ensures IsWalk(g, s, w + [a], a.dst) && WalkCost(w + [a]) == WalkCost(w) + a.cost
    decreases |w|
  {
    if w == [] {
      assert [a][1..] == [];
      assert w + [a] == [a];
    } else {
      WalkAppend(g, w[0].dst, w[1..], t, a);
      assert (w + [a])[1..] == w[1..] + [a];
    }
  }

  // ---------- The search ----------

  /** parent[v] is the arc that last improved v; done lists the settled nodes in order. */
  datatype Search = Search(cost: map<nat, Cost>, parent: map<nat, Arc>, hops: map<nat, nat>, done: seq<nat>)

  function CostOf(st: Search, v: nat): Cost {
    if v in st.cost then st.cost[v] else Inf
  }

  function HopsOf(st: Search, v: nat): nat {
    if v in st.hops then st.hops[v] else 0
  }

  /** What a relaxed arc guarantees. */
  predicate Relaxed(st: Search, a: Arc) {
    CostOf(st, a.src).Fin? && AtMost(CostOf(st, a.dst), Fin(CostOf(st, a.src).c + a.cost))
  }

  ghost predicate Graph(g: set<Arc>, nodes: set<nat>) {
    forall a :: a in g ==> a.src in nodes && a.dst in nodes
  }

  /** u comes before v in done. */
  ghost predicate Before(done: seq<nat>, u: nat, v: nat) {
    exists i, j :: 0 <= i < j < |done| && done[i] == u && done[j] == v
  }

  /** v was last improved by an arc from a settled node, settled before v if v is settled. */
  ghost predicate ParentOk(g: set<Arc>, s: nat, st: Search, v: nat)
    requires v in st.parent
  {
    var a := st.parent[v];
    && v != s && a in g && a.dst == v && a.src in st.done
    && CostOf(st, a.src).Fin? && CostOf(st, v) == Fin(CostOf(st, a.src).c + a.cost)
    && HopsOf(st, v) == HopsOf(st, a.src) + 1
    && (v in st.done ==> Before(st.done, a.src, v))
  }

  ghost predicate Shape(nodes: set<nat>, s: nat, st: Search) {
    && st.cost.Keys == nodes && st.hops.Keys == nodes && st.parent.Keys <= nodes
    && (s in nodes ==> CostOf(st, s) == Fin(0))
    && (forall v :: v in st.done ==> v in nodes && CostOf(st, v).Fin?)
    && Distinct(st.done)
  }

  ghost predicate ParentsOk(g: set<Arc>, s: nat, st: Search) {
    && (forall v :: v in st.parent ==> ParentOk(g, s, st, v))
    && (forall v :: CostOf(st, v).Fin? && v != s ==> v in st.parent)
  }

  /** Settled nodes cost no more than the others. */
  ghost predicate Ordered(nodes: set<nat>, st: Search) {
    forall u, v :: u in st.done && v in nodes && v !in st.done ==> AtMost(CostOf(st, u), CostOf(st, v))
  }

  ghost predicate AllRelaxed(g: set<Arc>, st: Search, relaxed: set<Arc>) {
    forall a :: a in relaxed ==> a in g && a.src in st.done && Relaxed(st, a)
  }

  /** The invariant, when the arcs of relaxed have been looked at. */
  ghost predicate Inv(g: set<Arc>, nodes: set<nat>, s: nat, st: Search, relaxed: set<Arc>) {
    Graph(g, nodes) && Shape(nodes, s, st) && ParentsOk(g, s, st) && Ordered(nodes, st) && AllRelaxed(g, st, relaxed)
  }

  function Start(nodes: set<nat>, s: nat, hops: map<nat, nat>): Search {
    Search(map v | v in nodes :: if v == s then Fin(0) else Inf, map[], hops, [])
  }

  lemma StartInv(g: set<Arc>, nodes: set<nat>, s: nat, hops: map<nat, nat>)
    requires Graph(g, nodes) && hops.Keys == nodes
    ensures Inv(g, nodes, s, Start(nodes, s, hops), {})
  {
  }

  function Settle(st: Search, u: nat): Search {
    st.(done := st.done + [u])
  }

  ghost predicate Cheapest(nodes: set<nat>, st: Search, u: nat) {
    && u in nodes && u !in st.done && CostOf(st, u).Fin?
    && forall v :: v in nodes && v !in st.done ==> AtMost(CostOf(st, u), CostOf(st, v))
  }

  lemma BeforeAppend(done: seq<nat>, u: nat)
    ensures forall x, v :: Before(done, x, v) ==> Before(done + [u], x, v)
    ensures forall x :: x in done ==> Before(done + [u], x, u)
  {
    forall x, v | Before(done, x, v)
      ensures Before(done + [u], x, v)
    {
      var i, j :| 0 <= i < j < |done| && done[i] == x && done[j] == v;
      assert (done + [u])[i] == x && (done + [u])[j] == v;
    }
    forall x | x in done
      ensures Before(done + [u], x, u)
    {
      var i :| 0 <= i < |done| && done[i] == x;
      assert (done + [u])[i] == x && (done + [u])[|done|] == u;
    }
  }

  lemma SettleParents(g: set<Arc>, s: nat, st: Search, u: nat)
    requires ParentsOk(g, s, st) && u !in st.done
    ensures ParentsOk(g, s, Settle(st, u))
  {
    var st' := Settle(st, u);
    assert forall v :: CostOf(st', v) == CostOf(st, v) && HopsOf(st', v) == HopsOf(st, v);
    BeforeAppend(st.done, u);
    forall v | v in st'.parent
      ensures ParentOk(g, s, st', v)
    {
      ParentTransfer(g, s, st, st', v);
    }
  }

  /** The condition on one parent only looks at the two ends of its arc. */
  lemma ParentTransfer(g: set<Arc>, s: nat, st: Search, st': Search, v: nat)
    requires v in st.parent && ParentOk(g, s, st, v) && v in st'.parent && st'.parent[v] == st.parent[v]
    requires CostOf(st', v) == CostOf(st, v) && HopsOf(st', v) == HopsOf(st, v)
    requires CostOf(st', st.parent[v].src) == CostOf(st, st.parent[v].src)
    requires HopsOf(st', st.parent[v].src) == HopsOf(st, st.parent[v].src)
    requires st.parent[v].src in st'.done && (v in st'.done ==> Before(st'.done, st.parent[v].src, v))
    ensures ParentOk(g, s, st', v)
  {
  }

  lemma SettleInv(g: set<Arc>, nodes: set<nat>, s: nat, st: Search, relaxed: set<Arc>, u: nat)
    requires Inv(g, nodes, s, st, relaxed) && Cheapest(nodes, st, u)
    ensures Inv(g, nodes, s, Settle(st, u), relaxed) && Costliest(Settle(st, u), u)
  {
    SettleParents(g, s, st, u);
    SettleShape(nodes, s, st, u);
    SettleOrdered(nodes, st, u);
    SettleRelaxed(g, st, relaxed, u);
  }

  lemma SettleShape(nodes: set<nat>, s: nat, st: Search, u: nat)
    requires Shape(nodes, s, st) && u in nodes && u !in st.done && CostOf(st, u).Fin?
    ensures Shape(nodes, s, Settle(st, u))
  {
  }

  lemma SettleOrdered(nodes: set<nat>, st: Search, u: nat)
    requires Ordered(nodes, st) && Cheapest(nodes, st, u)
    ensures Ordered(nodes, Settle(st, u)) && Costliest(Settle(st, u), u)
  {
    var st' := Settle(st, u);
    assert forall v :: CostOf(st', v) == CostOf(st, v);
    hide CostOf;
  }

  lemma SettleRelaxed(g: set<Arc>, st: Search, relaxed: set<Arc>, u: nat)
    requires AllRelaxed(g, st, relaxed)
    ensures AllRelaxed(g, Settle(st, u), relaxed)
  {
    forall a | a in relaxed
      ensures Relaxed(Settle(st, u), a)
    {
      assert Relaxed(st, a);
    }
  }

  function Improve(st: Search, a: Arc): Search
    requires CostOf(st, a.src).Fin?
  {
    st.(cost := st.cost[a.dst := Fin(CostOf(st, a.src).c + a.cost)],
        parent := st.parent[a.dst := a],
        hops := st.hops[a.dst := HopsOf(st, a.src) + 1])
  }

  /** One look at an arc out of a settled node: the head improves if that is cheaper. */
  function Relax(st: Search, a: Arc): Search {
    if CostOf(st, a.src).Fin? && Less(Fin(CostOf(st, a.src).c + a.cost), CostOf(st, a.dst)) then Improve(st, a) else st
  }

  /** No settled node costs more than u, so no settled node can improve from u. */
  ghost predicate Costliest(st: Search, u: nat) {
    u in st.done && forall v :: v in st.done ==> AtMost(CostOf(st, v), CostOf(st, u))
  }

  lemma ImproveKeepsParents(g: set<Arc>, s: nat, st: Search, a: Arc)
    requires ParentsOk(g, s, st) && a in g && a.src in st.done && CostOf(st, a.src).Fin?
    requires a.dst != s && a.dst !in st.done
    ensures ParentsOk(g, s, Improve(st, a))
  {
    var st' := Improve(st, a);
    assert forall v :: v != a.dst ==> CostOf(st', v) == CostOf(st, v) && HopsOf(st', v) == HopsOf(st, v);
    assert CostOf(st', a.dst) == Fin(CostOf(st, a.src).c + a.cost) && HopsOf(st', a.dst) == HopsOf(st, a.src) + 1;
    forall v | v in st'.parent && v != a.dst
      ensures ParentOk(g, s, st', v)
    {
      assert ParentOk(g, s, st, v);
      ParentTransfer(g, s, st, st', v);
    }
    assert ParentOk(g, s, st', a.dst);
  }

  /** Only the head of an unsettled arc improves. */
  lemma RelaxEffect(g: set<Arc>, nodes: set<nat>, s: nat, st: Search, relaxed: set<Arc>, a: Arc)
    requires Inv(g, nodes, s, st, relaxed) && a in g && Costliest(st, a.src)
    ensures a.src in st.done && CostOf(st, a.src).Fin?
    ensures a.dst in st.done || a.dst == s ==> Relax(st, a) == st
    ensures Relax(st, a).done == st.done && Relaxed(Relax(st, a), a)
    ensures Relax(st, a) == st || Relax(st, a) == Improve(st, a)
    ensures forall v :: v != a.dst ==> CostOf(Relax(st, a), v) == CostOf(st, v)
    ensures AtMost(CostOf(st, a.src), CostOf(Relax(st, a), a.dst)) || a.dst in st.done
    ensures AtMost(CostOf(Relax(st, a), a.dst), CostOf(st, a.dst))
  {
    hide ParentsOk, AllRelaxed;
  }

  lemma RelaxShape(nodes: set<nat>, s: nat, st: Search, a: Arc)
    requires Shape(nodes, s, st) && a.dst in nodes && a.dst != s && CostOf(st, a.src).Fin?
    ensures Shape(nodes, s, Improve(st, a))
  {
  }

  lemma StillRelaxed(g: set<Arc>, st: Search, st': Search, relaxed: set<Arc>, d: nat)
    requires AllRelaxed(g, st, relaxed) && st'.done == st.done && d !in st.done
    requires forall v :: v != d ==> CostOf(st', v) == CostOf(st, v)
    requires AtMost(CostOf(st', d), CostOf(st, d))
    ensures AllRelaxed(g, st', relaxed)
  {
    hide CostOf;
    forall b | b in relaxed
      ensures Relaxed(st', b)
    {
      assert Relaxed(st, b);
    }
  }

  lemma RelaxOrdered(nodes: set<nat>, st: Search, st': Search, a: Arc)
    requires Ordered(nodes, st) && Costliest(st, a.src) && st'.done == st.done && a.dst !in st.done
    requires forall v :: v != a.dst ==> CostOf(st', v) == CostOf(st, v)
    requires AtMost(CostOf(st, a.src), CostOf(st', a.dst)) && CostOf(st, a.src).Fin?
    ensures Ordered(nodes, st') && Costliest(st', a.src)
  {
    hide CostOf;
  }

  lemma OneMoreRelaxed(g: set<Arc>, st: Search, relaxed: set<Arc>, a: Arc)
    requires AllRelaxed(g, st, relaxed) && a in g && a.src in st.done && Relaxed(st, a)
    ensures AllRelaxed(g, st, relaxed + {a})
  {
    hide Relaxed;
  }

  lemma RelaxInv(g: set<Arc>, nodes: set<nat>, s: nat, st: Search, relaxed: set<Arc>, a: Arc)
    requires Inv(g, nodes, s, st, relaxed) && a in g && Costliest(st, a.src)
    ensures Inv(g, nodes, s, Relax(st, a), relaxed + {a}) && Costliest(Relax(st, a), a.src)
  {
    hide Shape, ParentsOk, Ordered, AllRelaxed, Costliest, Relaxed, CostOf, Improve, Relax;
    var st' := Relax(st, a);
    RelaxEffect(g, nodes, s, st, relaxed, a);
    if st' != st {
      ImproveKeepsParents(g, s, st, a);
      RelaxShape(nodes, s, st, a);
      StillRelaxed(g, st, st', relaxed, a.dst);
      RelaxOrdered(nodes, st, st', a);
    }
    OneMoreRelaxed(g, st', relaxed, a);
  }

  /** Nothing left to settle: every unsettled node is unreached and every arc out of a settled node is relaxed. */
  ghost predicate Final(g: set<Arc>, nodes: set<nat>, s: nat, st: Search) {
    && Inv(g, nodes, s, st, Leaving(g, st.done))
    && forall v :: v in nodes && CostOf(st, v).Fin? ==> v in st.done
  }

  ghost function Leaving(g: set<Arc>, done: seq<nat>): set<Arc> {
    set a | a in g && a.src in done
  }

  lemma {:induction false} LowerBound(g: set<Arc>, nodes: set<nat>, s: nat, st: Search, u: nat, w: seq<Arc>, t: nat)
    requires Final(g, nodes, s, st) && u in nodes && CostOf(st, u).Fin? && IsWalk(g, u, w, t)
    ensures CostOf(st, t).Fin? && CostOf(st, t).c <= CostOf(st, u).c + WalkCost(w)
    decreases |w|
  {
    if w != [] {
      var a := w[0];
      assert a in Leaving(g, st.done);
      assert Relaxed(st, a);
      LowerBound(g, nodes, s, st, a.dst, w[1..], t);
    }
  }

  function PositionOf(done: seq<nat>, v: nat): (i: nat)
    requires v in done
    ensures i < |done| && done[i] == v
  {
    if done[0] == v then 0 else 1 + PositionOf(done[1..], v)
  }

  ghost predicate Parented(g: set<Arc>, nodes: set<nat>, s: nat, st: Search) {
    Shape(nodes, s, st) && ParentsOk(g, s, st)
  }

  lemma ParentIsEarlier(g: set<Arc>, nodes: set<nat>, s: nat, st: Search, v: nat)
    requires Parented(g, nodes, s, st) && v in st.done && v != s
    ensures v in st.parent && ParentOk(g, s, st, v)
    ensures PositionOf(st.done, st.parent[v].src) < PositionOf(st.done, v)
  {
    assert ParentOk(g, s, st, v);
    var i, j :| 0 <= i < j < |st.done| && st.done[i] == st.parent[v].src && st.done[j] == v;
    hide ParentOk, ParentsOk;
    assert PositionOf(st.done, v) == j;
    assert PositionOf(st.done, st.parent[v].src) == i;
  }

  /** The walk that the parents describe, from s to the settled node v. */
  ghost function Route(g: set<Arc>, nodes: set<nat>, s: nat, st: Search, v: nat): (w: seq<Arc>)
    requires Parented(g, nodes, s, st) && v in st.done
    decreases PositionOf(st.done, v)
  {
    if v == s then []
    else
      ParentIsEarlier(g, nodes, s, st, v);
      Route(g, nodes, s, st, st.parent[v].src) + [st.parent[v]]
  }

  lemma RouteStep(g: set<Arc>, nodes: set<nat>, s: nat, st: Search, v: nat)
    requires Parented(g, nodes, s, st) && v in st.done && v != s
    ensures v in st.parent && st.parent[v] in g && st.parent[v].src in st.done && st.parent[v].dst == v
    ensures PositionOf(st.done, st.parent[v].src) < PositionOf(st.done, v)
    ensures CostOf(st, st.parent[v].src).Fin? && CostOf(st,
                                                        v) == Fin(CostOf(st, st.parent[v].src).c + st.parent[v].cost)
    ensures HopsOf(st, v) == HopsOf(st, st.parent[v].src) + 1
    ensures Route(g, nodes, s, st, v) == Route(g, nodes, s, st, st.parent[v].src) + [st.parent[v]]
  {
    ParentIsEarlier(g, nodes, s, st, v);
    hide ParentsOk, Shape, Before, PositionOf, CostOf, HopsOf;
  }

  lemma {:induction false} RouteWalk(g: set<Arc>, nodes: set<nat>, s: nat, st: Search, v: nat)
    requires Parented(g, nodes, s, st) && v in st.done && CostOf(st, s) == Fin(0)
    ensures IsWalk(g, s, Route(g, nodes, s, st, v), v)
    ensures CostOf(st, v) == Fin(WalkCost(Route(g, nodes, s, st, v)))
    ensures HopsOf(st, v) == HopsOf(st, s) + |Route(g, nodes, s, st, v)|
    decreases PositionOf(st.done, v)
  {
    if v != s {
      RouteStep(g, nodes, s, st, v);
      var a := st.parent[v];
      hide Parented, CostOf, HopsOf, PositionOf, Route;
      RouteWalk(g, nodes, s, st, a.src);
      WalkAppend(g, s, Route(g, nodes, s, st, a.src), a.src, a);
    }
  }

  /** A walk from s that visits no node twice. */
  ghost predicate Simple(s: nat, w: seq<Arc>) {
    && (forall j :: 0 <= j < |w| ==> w[j].src == if j == 0 then s else w[j - 1].dst)
    && (forall j :: 0 <= j < |w| ==> w[j].dst != s)
    && forall i, j :: 0 <= i < j < |w| ==> w[i].dst != w[j].dst
  }

  /** w follows the parents of st. */
  ghost predicate Follows(st: Search, w: seq<Arc>) {
    forall j :: 0 <= j < |w| ==> w[j].dst in st.parent && st.parent[w[j].dst] == w[j]
  }

  lemma {:induction false} RouteSimple(g: set<Arc>, nodes: set<nat>, s: nat, st: Search, v: nat)
    requires Parented(g, nodes, s, st) && v in st.done
    ensures Simple(s, Route(g, nodes, s, st, v)) && Follows(st, Route(g, nodes, s, st, v))
    ensures forall a :: a in Route(g, nodes, s, st, v) ==>
              a in g && a.dst in st.done && PositionOf(st.done, a.dst) <= PositionOf(st.done, v)
    ensures var w := Route(g, nodes, s, st, v); v == if w == [] then s else w[|w| - 1].dst
    decreases PositionOf(st.done, v)
  {
    hide Route, CostOf, HopsOf, Parented, PositionOf, Simple;
    if v == s {
      RouteOfSource(g, nodes, s, st);
    } else {
      RouteStep(g, nodes, s, st, v);
      var a := st.parent[v];
      RouteSimple(g, nodes, s, st, a.src);
      var w := Route(g, nodes, s, st, a.src);
      SimpleAppend(s, w, a, st.done);
      FollowsAppend(st, w, a);
    }
  }

  lemma RouteOfSource(g: set<Arc>, nodes: set<nat>, s: nat, st: Search)
    requires Parented(g, nodes, s, st) && s in st.done
    ensures Route(g, nodes, s, st, s) == [] && Simple(s, [])
  {
  }

  lemma FollowsAppend(st: Search, w: seq<Arc>, a: Arc)
    requires Follows(st, w) && a.dst in st.parent && st.parent[a.dst] == a
    ensures Follows(st, w + [a])
  {
  }

  lemma SimpleAppend(s: nat, w: seq<Arc>, a: Arc, done: seq<nat>)
    requires Simple(s, w) && a.src == (if w == [] then s else w[|w| - 1].dst) && a.dst != s
    requires a.dst in done && a.src in done && PositionOf(done, a.src) < PositionOf(done, a.dst)
    requires forall b :: b in w ==> b.dst in done && PositionOf(done, b.dst) <= PositionOf(done, a.src)
    ensures Simple(s, w + [a])
  {
    hide PositionOf;
    forall i | 0 <= i < |w|
      ensures w[i].dst != a.dst
    {
      assert w[i] in w;
    }
    var longer := w + [a];
    assert forall j :: 0 <= j < |w| ==> longer[j] == w[j];
    assert longer[|w|] == a;
  }

  /** A finished search holds exact distances. */
  lemma FinalDistances(g: set<Arc>, nodes: set<nat>, s: nat, st: Search, t: nat)
    requires Final(g, nodes, s, st) && s in nodes
    ensures IsDistance(g, s, t, CostOf(st, t))
  {
    forall w | IsWalk(g, s, w, t)
      ensures CostOf(st, t).Fin? && CostOf(st, t).c <= WalkCost(w)
    {
      LowerBound(g, nodes, s, st, s, w, t);
    }
    if CostOf(st, t).Fin? {
      RouteWalk(g, nodes, s, st, t);
    }
  }
}
