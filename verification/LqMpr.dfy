/** Selection of multipoint relays by link quality: for every two-hop neighbour the cheapest connecting neighbours. */
module LqMpr {
  import opened Common

  const WILL_ALWAYS: nat := 7

  class Neighbor {
    const sym: bool
    const willingness: nat
    var isMpr: bool
    var wasMpr: bool
    var skip: bool

    constructor (sym: bool, willingness: nat)
      ensures this.sym == sym && this.willingness == willingness && !isMpr
    {
      this.sym, this.willingness, isMpr, wasMpr, skip := sym, willingness, false, false, false;
    }
  }

  /** A neighbour that connects to a two-hop neighbour, and the cost of the path through it. */
  datatype Walker = Walker(neighbor: Neighbor, pathCost: nat)

  /** What we know about a two-hop neighbour as a direct, symmetric neighbour. */
  datatype Direct = NotSymmetric | NoLink | Link(cost: nat)

  datatype TwoHop = TwoHop(direct: Direct, nblist: seq<Walker>)

  /** The cost that a path has to beat. */
  function BestOneHop(t: TwoHop): nat {
    if t.direct.Link? then t.direct.cost else LINK_COST_BROKEN
  }

  predicate Eligible(t: TwoHop, w: Walker) {
    w.neighbor.sym && w.pathCost < LINK_COST_BROKEN && w.pathCost < BestOneHop(t)
  }

  ghost function EligibleOf(t: TwoHop): set<Neighbor> {
    set i | 0 <= i < |t.nblist| && Eligible(t, t.nblist[i]) :: t.nblist[i].neighbor
  }

  ghost predicate Known(t: TwoHop, nbs: set<Neighbor>) {
    forall i :: 0 <= i < |t.nblist| ==> t.nblist[i].neighbor in nbs
  }

  // ---------- The relays, as a function of the tables ----------

  /** Connection i is cheaper than connection j, or as cheap and earlier in the list. */
  predicate Beats(t: TwoHop, i: nat, j: nat)
    requires i < |t.nblist| && j < |t.nblist|
  {
    t.nblist[i].pathCost < t.nblist[j].pathCost || (t.nblist[i].pathCost == t.nblist[j].pathCost && i < j)
  }

  /** Connection i goes through an eligible neighbour that is not out. */
  ghost predicate Candidate(t: TwoHop, out: set<Neighbor>, i: nat) {
    i < |t.nblist| && Eligible(t, t.nblist[i]) && t.nblist[i].neighbor !in out
  }

  /** m has a connection that beats all of n's. */
  ghost predicate ComesBefore(t: TwoHop, m: Neighbor, n: Neighbor) {
    exists i: nat :: Candidate(t, {}, i) && t.nblist[i].neighbor == m
                && forall j: nat :: Candidate(t, {}, j) && t.nblist[j].neighbor == n ==> Beats(t, i, j)
  }

  ghost function Ahead(t: TwoHop, n: Neighbor): set<Neighbor> {
    set m | m in EligibleOf(t) && ComesBefore(t, m, n)
  }

  /** The eligible neighbours that fewer than coverage others come before. */
  ghost function Selected(t: TwoHop, coverage: nat): set<Neighbor> {
    set n | n in EligibleOf(t) && |Ahead(t, n)| < coverage
  }

  predicate Always(n: Neighbor) {
    n.sym && n.willingness == WILL_ALWAYS
  }

  /** The relays after the first count two-hop neighbours have been served: the neighbours that are always willing, and
      whoever is selected for one of those, unless that one is our neighbour without a link. */
  ghost function Relays(nbs: set<Neighbor>, ts: seq<TwoHop>, count: nat, coverage: nat): set<Neighbor>
    requires count <= |ts|
  {
    set n | n in nbs && (Always(n) || exists j :: 0 <= j < count && !ts[j].direct.NoLink?
                                                  && n in Selected(ts[j], coverage))
  }

  lemma RelaysStep(nbs: set<Neighbor>, ts: seq<TwoHop>, j: nat, coverage: nat)
    requires j < |ts| && Known(ts[j], nbs)
    ensures Selected(ts[j], coverage) <= nbs
    ensures Relays(nbs, ts, j + 1, coverage) == Relays(nbs, ts, j, coverage) + if ts[j].direct.NoLink? then {}
              else Selected(ts[j], coverage)
  {
    hide Eligible, Ahead;
  }

  lemma NoRelaysYet(nbs: set<Neighbor>, ts: seq<TwoHop>, coverage: nat)
    ensures forall n :: n in Relays(nbs, ts, 0, coverage) <==> n in nbs && n.sym && n.willingness == 7
  {
  }

  // ---------- Greedy selection ----------

  /** At most k eligible neighbours, all of which come before the other eligible ones. */
  ghost predicate Leading(t: TwoHop, chosen: set<Neighbor>, k: nat) {
    && chosen <= EligibleOf(t) && |chosen| <= k
    && forall m, n :: m in chosen && n in EligibleOf(t) && n !in chosen ==> ComesBefore(t, m, n)
  }

  ghost predicate Best(t: TwoHop, out: set<Neighbor>, at: nat) {
    Candidate(t, out, at) && forall j: nat :: Candidate(t, out, j) && j != at ==> Beats(t, at, j)
  }

  lemma NotBoth(t: TwoHop, m: Neighbor, n: Neighbor)
    requires n in EligibleOf(t) && m in EligibleOf(t)
    ensures !(ComesBefore(t, m, n) && ComesBefore(t, n, m))
  {
    if ComesBefore(t, m, n) {
      var i: nat :| Candidate(t, {}, i) && t.nblist[i].neighbor == m
                    && forall j: nat :: Candidate(t, {}, j) && t.nblist[j].neighbor == n ==> Beats(t, i, j);
      forall j: nat | Candidate(t, {}, j) && t.nblist[j].neighbor == n
        ensures !(forall k: nat :: Candidate(t, {}, k) && t.nblist[k].neighbor == m ==> Beats(t, j, k))
      {
        assert Beats(t, i, j) && !Beats(t, j, i);
      }
    }
  }

  /** Leading neighbours to which none can be added are the selected ones. */
  lemma LeadingIsSelected(t: TwoHop, chosen: set<Neighbor>, coverage: nat)
    requires Leading(t, chosen, coverage) && (|chosen| == coverage || EligibleOf(t) <= chosen)
    ensures chosen == Selected(t, coverage)
  {
    hide ComesBefore, EligibleOf;
    forall n | n in EligibleOf(t)
      ensures n in chosen <==> |Ahead(t, n)| < coverage
    {
      if n in chosen {
        forall m | m in Ahead(t, n)
          ensures m in chosen - {n}
        {
          NotBoth(t, m, n);
        }
        SubsetSize(Ahead(t, n), chosen - {n});
      } else {
        SubsetSize(chosen, Ahead(t, n));
      }
    }
  }

  /** Adding the neighbour with the best connection keeps the neighbours leading. */
  lemma OneMoreLeading(t: TwoHop, chosen: set<Neighbor>, k: nat, at: nat)
    requires Leading(t, chosen, k) && Best(t, chosen, at)
    ensures Leading(t, chosen + {t.nblist[at].neighbor}, k + 1)
  {
    hide Eligible, Beats;
    var best := t.nblist[at].neighbor;
    forall n | n in EligibleOf(t) && n !in chosen && n != best
      ensures ComesBefore(t, best, n)
    {
      assert Candidate(t, {}, at);
      forall j: nat | Candidate(t, {}, j) && t.nblist[j].neighbor == n
        ensures Beats(t, at, j)
      {
        assert Candidate(t, chosen, j);
      }
    }
  }

  ghost function BestUpTo(t: TwoHop, out: set<Neighbor>, i: nat): (at: int)
    requires i <= |t.nblist|
    ensures -1 <= at < i
    ensures at >= 0 ==> Candidate(t, out, at) && forall j :: 0 <= j < i && Candidate(t, out, j) && j != at ==>
                                                   Beats(t, at, j)
    ensures at == -1 ==> forall j :: 0 <= j < i ==> !Candidate(t, out, j)
  {
    if i == 0 then -1
    else
      var at := BestUpTo(t, out, i - 1);
      if Candidate(t, out, i - 1) && (at == -1 || Beats(t, i - 1, at)) then i - 1 else at
  }

  lemma {:induction false} GreedyLeads(t: TwoHop, k: nat) returns (chosen: set<Neighbor>)
    ensures Leading(t, chosen, k) && (|chosen| == k || EligibleOf(t) <= chosen)
  {
    hide Eligible, Beats, ComesBefore;
    if k == 0 {
      chosen := {};
    } else {
      chosen := GreedyLeads(t, k - 1);
      var at := BestUpTo(t, chosen, |t.nblist|);
      if at == -1 {
        NoCandidate(t, chosen);
      } else {
        OneMoreLeading(t, chosen, k - 1, at);
        chosen := chosen + {t.nblist[at].neighbor};
      }
    }
  }

  lemma NoCandidate(t: TwoHop, out: set<Neighbor>)
    requires forall j :: 0 <= j < |t.nblist| ==> !Candidate(t, out, j)
    ensures EligibleOf(t) <= out
  {
    hide Eligible;
    forall n | n in EligibleOf(t)
      ensures n in out
    {
      var i :| 0 <= i < |t.nblist| && Eligible(t, t.nblist[i]) && t.nblist[i].neighbor == n;
      assert Candidate(t, out, i) <==> n !in out;
    }
  }

  /** As many neighbours as wanted are selected, or all that are eligible; an eligible one that is left out is beaten by
      every selected one. */
  lemma CoverageReached(t: TwoHop, coverage: nat)
    ensures |Selected(t, coverage)| == coverage
            || (|Selected(t, coverage)| < coverage && Selected(t, coverage) == EligibleOf(t))
    ensures forall m, n :: m in Selected(t, coverage) && n in EligibleOf(t) && n !in Selected(t, coverage) ==>
              exists i :: 0 <= i < |t.nblist| && t.nblist[i].neighbor == m
                          && forall j :: 0 <= j < |t.nblist| && t.nblist[j].neighbor == n ==>
                                           t.nblist[i].pathCost < t.nblist[j].pathCost
                                           || (t.nblist[i].pathCost == t.nblist[j].pathCost && i < j)
  {
    hide Selected, EligibleOf, ComesBefore;
    var chosen := GreedyLeads(t, coverage);
    LeadingIsSelected(t, chosen, coverage);
    forall m, n | m in chosen && n in EligibleOf(t) && n !in chosen
      ensures exists i :: 0 <= i < |t.nblist| && t.nblist[i].neighbor == m
                          && forall j :: 0 <= j < |t.nblist| && t.nblist[j].neighbor == n ==>
                                           t.nblist[i].pathCost < t.nblist[j].pathCost
                                           || (t.nblist[i].pathCost == t.nblist[j].pathCost && i < j)
    {
      BeatsAll(t, m, n);
    }
  }

  lemma BeatsAll(t: TwoHop, m: Neighbor, n: Neighbor)
    requires ComesBefore(t, m, n) && n in EligibleOf(t)
    ensures exists i :: 0 <= i < |t.nblist| && t.nblist[i].neighbor == m
                        && forall j :: 0 <= j < |t.nblist| && t.nblist[j].neighbor == n ==>
                                         t.nblist[i].pathCost < t.nblist[j].pathCost
                                         || (t.nblist[i].pathCost == t.nblist[j].pathCost && i < j)
  {
    var i: nat :| Candidate(t, {}, i) && t.nblist[i].neighbor == m
                  && forall j: nat :: Candidate(t, {}, j) && t.nblist[j].neighbor == n ==> Beats(t, i, j);
    forall j | 0 <= j < |t.nblist| && t.nblist[j].neighbor == n
      ensures t.nblist[i].pathCost < t.nblist[j].pathCost
              || (t.nblist[i].pathCost == t.nblist[j].pathCost && i < j)
    {
      assert Candidate(t, {}, j) ==> Beats(t, i, j);
    }
  }

  /** Symmetric neighbours with a path to the two-hop neighbour that is not broken and beats the direct link, if there
      is one. */
  lemma EligibleIs(t: TwoHop)
    ensures EligibleOf(t) == set i | 0 <= i < |t.nblist| && t.nblist[i].neighbor.sym
                                     && t.nblist[i].pathCost < LINK_COST_BROKEN
                                     && (t.direct.Link? ==> t.nblist[i].pathCost < t.direct.cost)
                                   :: t.nblist[i].neighbor
  {
  }

  /** Without a path that beats the direct link nobody is eligible. */
  lemma NobodyEligible(t: TwoHop)
    requires t.direct.Link? && forall i :: 0 <= i < |t.nblist| ==> t.nblist[i].pathCost >= t.direct.cost
    ensures EligibleOf(t) == {}
  {
  }

  /** A neighbour without a link, or with one that no path beats, adds no relay. */
  lemma AddsNone(nbs: set<Neighbor>, ts: seq<TwoHop>, j: nat, coverage: nat)
    requires j < |ts| && Known(ts[j], nbs)
    requires ts[j].direct.NoLink?
             || (ts[j].direct.Link?
                 && forall i :: 0 <= i < |ts[j].nblist| ==> ts[j].nblist[i].pathCost >= ts[j].direct.cost)
    ensures Relays(nbs, ts, j + 1, coverage) == Relays(nbs, ts, j, coverage)
  {
    RelaysStep(nbs, ts, j, coverage);
    if ts[j].direct.Link? {
      NobodyEligible(ts[j]);
    }
  }

  /** Every two-hop neighbour that is not our neighbour without a link is reached through as many relays of the whole
      table as wanted, or through all neighbours with a path that is not broken and beats the direct link. */
  lemma AllCovered(nbs: set<Neighbor>, ts: seq<TwoHop>, coverage: nat, j: nat)
    requires j < |ts| && Known(ts[j], nbs) && !ts[j].direct.NoLink?
    ensures var t := ts[j];
            var eligible := set i | 0 <= i < |t.nblist| && t.nblist[i].neighbor.sym
                                    && t.nblist[i].pathCost < LINK_COST_BROKEN
                                    && (t.direct.Link? ==> t.nblist[i].pathCost < t.direct.cost)
                                  :: t.nblist[i].neighbor;
            |Relays(nbs, ts, |ts|, coverage) * eligible| >= coverage || eligible <= Relays(nbs, ts, |ts|, coverage)
  {
    hide Eligible, Ahead;
    EligibleIs(ts[j]);
    CoverageReached(ts[j], coverage);
    var reached := Relays(nbs, ts, |ts|, coverage) * EligibleOf(ts[j]);
    forall n | n in Selected(ts[j], coverage)
      ensures n in reached
    {
      assert exists k :: 0 <= k < |ts| && !ts[k].direct.NoLink? && n in Selected(ts[k], coverage);
    }
    SubsetSize(Selected(ts[j], coverage), reached);
  }

  // ---------- The selection ----------

  /** The first pass: only symmetric neighbours that are always willing are relays. */
  method ResetRelays(neighborTable: seq<Neighbor>) returns (changes: bool)
    modifies (set n | n in neighborTable)`isMpr, (set n | n in neighborTable)`wasMpr
    requires forall i, j :: 0 <= i < j < |neighborTable| ==> neighborTable[i] != neighborTable[j]
    ensures forall n :: n in neighborTable ==> n.wasMpr == old(n.isMpr) && (n.isMpr <==> Always(n))
    ensures changes <==> exists n :: n in neighborTable && n.isMpr && !n.wasMpr
  {
    changes := false;
    var i := 0;
    while i < |neighborTable|
      invariant 0 <= i <= |neighborTable|
      invariant forall j :: 0 <= j < |neighborTable| ==>
                              var n := neighborTable[j];
                              if j < i then n.wasMpr == old(n.isMpr) && (n.isMpr <==> Always(n))
                              else n.isMpr == old(n.isMpr)
      invariant changes <==> exists j :: 0 <= j < i && neighborTable[j].isMpr && !neighborTable[j].wasMpr
    {
      var neigh := neighborTable[i];
      neigh.wasMpr := neigh.isMpr;
      neigh.isMpr := false;
      i := i + 1;
      if !(!neigh.sym || neigh.willingness != WILL_ALWAYS) {
        neigh.isMpr := true;
        if neigh.isMpr != neigh.wasMpr {
          changes := true;
        }
      }
    }
  }

  /** Whether a two-hop neighbour needs relays, and the cost to beat. */
  method CheckDirect(t: TwoHop) returns (needed: bool, best1hop: nat)
    ensures needed <==> !t.direct.NoLink? && (t.direct.Link? ==> exists i :: 0 <= i < |t.nblist|
                                                                            && t.nblist[i].pathCost < t.direct.cost)
    ensures needed ==> best1hop == if t.direct.Link? then t.direct.cost else LINK_COST_BROKEN
  {
    best1hop := LINK_COST_BROKEN;
    if !t.direct.NotSymmetric? {
      if t.direct.NoLink? {
        return false, best1hop;
      }
      best1hop := t.direct.cost;
      var i := 0;
      while i < |t.nblist| && t.nblist[i].pathCost >= best1hop
        invariant 0 <= i <= |t.nblist| && forall j :: 0 <= j < i ==> t.nblist[j].pathCost >= best1hop
      {
        i := i + 1;
      }
      if i == |t.nblist| {
        return false, best1hop;
      }
    }
    needed := true;
  }

  /** The cheapest symmetric connecting neighbour below a broken link that has not been selected yet; -1 if there is
      none. */
  method FindBest(t: TwoHop) returns (at: int, best: nat)
    ensures -1 <= at < |t.nblist|
    ensures at == -1 ==> forall i :: 0 <= i < |t.nblist| && t.nblist[i].neighbor.sym && !t.nblist[i].neighbor.skip ==>
                                       t.nblist[i].pathCost >= LINK_COST_BROKEN
    ensures at >= 0 ==> t.nblist[at].neighbor.sym && !t.nblist[at].neighbor.skip
                        && t.nblist[at].pathCost == best < LINK_COST_BROKEN
    ensures at >= 0 ==> forall i :: 0 <= i < |t.nblist| && t.nblist[i].neighbor.sym && !t.nblist[i].neighbor.skip ==>
                                      best <= t.nblist[i].pathCost && (i < at ==> best < t.nblist[i].pathCost)
  {
    at, best := -1, LINK_COST_BROKEN;
    var i := 0;
    while i < |t.nblist|
      invariant 0 <= i <= |t.nblist| && -1 <= at < i
      invariant at == -1 ==> best == LINK_COST_BROKEN
      invariant at >= 0 ==> t.nblist[at].neighbor.sym && !t.nblist[at].neighbor.skip
                            && t.nblist[at].pathCost == best < LINK_COST_BROKEN
      invariant forall j :: 0 <= j < i && t.nblist[j].neighbor.sym && !t.nblist[j].neighbor.skip ==>
                              best <= t.nblist[j].pathCost && (j < at ==> best < t.nblist[j].pathCost)
    {
      if t.nblist[i].neighbor.sym && !t.nblist[i].neighbor.skip && t.nblist[i].pathCost < best {
        at, best := i, t.nblist[i].pathCost;
      }
      i := i + 1;
    }
  }

  /** Clears the marks of the connecting neighbours. */
  method ClearSkips(t: TwoHop, ghost nbs: set<Neighbor>)
    requires Known(t, nbs)
    modifies nbs`skip
    ensures forall i :: 0 <= i < |t.nblist| ==> !t.nblist[i].neighbor.skip
  {
    var i := 0;
    while i < |t.nblist|
      invariant 0 <= i <= |t.nblist| && forall j :: 0 <= j < i ==> !t.nblist[j].neighbor.skip
    {
      t.nblist[i].neighbor.skip := false;
      i := i + 1;
    }
  }

  /** The connection that the search finds is the best candidate, if it beats the one-hop cost; otherwise there is none.
      */
  lemma FoundBest(t: TwoHop, relays: set<Neighbor>, at: int, best: nat)
    requires -1 <= at < |t.nblist|
    requires at == -1 ==> forall i :: 0 <= i < |t.nblist| && t.nblist[i].neighbor.sym
                                      && t.nblist[i].neighbor !in relays ==>
                                        t.nblist[i].pathCost >= LINK_COST_BROKEN
    requires at >= 0 ==> t.nblist[at].neighbor.sym && t.nblist[at].neighbor !in relays
                         && t.nblist[at].pathCost == best < LINK_COST_BROKEN
    requires at >= 0 ==> forall i :: 0 <= i < |t.nblist| && t.nblist[i].neighbor.sym
                                     && t.nblist[i].neighbor !in relays ==>
                                       best <= t.nblist[i].pathCost && (i < at ==> best < t.nblist[i].pathCost)
    ensures at >= 0 && best < BestOneHop(t) ==> Best(t, relays, at)
    ensures at == -1 || best >= BestOneHop(t) ==> EligibleOf(t) <= relays
  {
  }

  /** The selection loop for one two-hop neighbour. */
  method SelectRelays(t: TwoHop, best1hop: nat, coverage: nat, ghost nbs: set<Neighbor>) returns (changes: bool)
    requires Known(t, nbs) && best1hop == BestOneHop(t)
    modifies nbs`isMpr, nbs`skip
    ensures forall n :: n in nbs ==> (n.isMpr <==> old(n.isMpr) || n in Selected(t, coverage))
    ensures changes <==> exists n :: n in Selected(t, coverage) && !n.wasMpr
  {
    hide Eligible, Selected, EligibleOf, ComesBefore, Best;
    ClearSkips(t, nbs);
    changes := false;
    ghost var relays: set<Neighbor> := {};
    NoneLeading(t);
    var k := 0;
    while k < coverage
      invariant 0 <= k <= coverage && |relays| == k && Leading(t, relays, k)
      invariant forall n :: n in nbs ==> (n.isMpr <==> old(n.isMpr) || n in relays)
      invariant forall i :: 0 <= i < |t.nblist| ==> (t.nblist[i].neighbor.skip <==> t.nblist[i].neighbor in relays)
      invariant changes <==> exists n :: n in relays && !n.wasMpr
    {
      var at, best := FindBest(t);
      FoundBest(t, relays, at, best);
      if at == -1 || best >= best1hop {
        break;
      }
      OneMoreLeading(t, relays, k, at);
      var neigh := t.nblist[at].neighbor;
      neigh.isMpr := true;
      neigh.skip := true;
      relays := relays + {neigh};
      if neigh.isMpr != neigh.wasMpr {
        changes := true;
      }
      k := k + 1;
    }
    LeadingIsSelected(t, relays, coverage);
  }

  lemma NoneLeading(t: TwoHop)
    ensures Leading(t, {}, 0)
  {
  }

  /** The body of the loop over the two-hop neighbours. */
  method ServeTwoHop(t: TwoHop, coverage: nat, ghost nbs: set<Neighbor>) returns (changes: bool)
    requires Known(t, nbs)
    modifies nbs`isMpr, nbs`skip
    ensures forall n :: n in nbs ==> (n.isMpr <==> old(n.isMpr) || (!t.direct.NoLink? && n in Selected(t, coverage)))
    ensures changes <==> !t.direct.NoLink? && exists n :: n in Selected(t, coverage) && !n.wasMpr
  {
    hide Eligible, Ahead;
    changes := false;
    var needed, best1hop := CheckDirect(t);
    if needed {
      changes := SelectRelays(t, best1hop, coverage, nbs);
    } else if !t.direct.NoLink? {
      NobodyEligible(t);
    }
  }

  // ---------- What is signalled ----------

  /** Some neighbour has become a relay. */
  ghost predicate Joined(before: set<Neighbor>, after: set<Neighbor>) {
    exists n :: n in after && n !in before
  }

  lemma MissedIff(before: set<Neighbor>, after: set<Neighbor>)
    ensures before != after && !Joined(before, after) <==> after < before
  {
  }

  /** olsr_calculate_lq_mpr. The relays are determined by the tables. A change is signalled when a neighbour becomes a
      relay; it goes unsignalled exactly when neighbours only stop being relays. */
  method CalculateLqMpr(neighborTable: seq<Neighbor>, ts: seq<TwoHop>, coverage: nat, tcRedundancy: nat,
                        ghost nbs: set<Neighbor>)
    returns (signal: bool)
    requires nbs == (set n | n in neighborTable)
    requires forall i, j :: 0 <= i < j < |neighborTable| ==> neighborTable[i] != neighborTable[j]
    requires forall j :: 0 <= j < |ts| ==> Known(ts[j], nbs)
    modifies nbs`isMpr, nbs`wasMpr, nbs`skip
    ensures forall n :: n in nbs ==> (n.isMpr <==> n in Relays(nbs, ts, |ts|, coverage)) && n.wasMpr == old(n.isMpr)
    ensures var before, after := (set n | n in nbs && old(n.isMpr)), Relays(nbs, ts, |ts|, coverage);
            && (signal <==> tcRedundancy > 0 && Joined(before, after))
            && (tcRedundancy > 0 ==> (before != after && !signal <==> after < before))
  {
    hide Selected, Known, Relays;
    var changes := ResetRelays(neighborTable);
    NoRelaysYet(nbs, ts, coverage);
    var j := 0;
    while j < |ts|
      invariant 0 <= j <= |ts|
      invariant forall n :: n in nbs ==> (n.isMpr <==> n in Relays(nbs, ts, j, coverage)) && n.wasMpr == old(n.isMpr)
      invariant changes <==> exists n :: n in nbs && n.isMpr && !n.wasMpr
    {
      RelaysStep(nbs, ts, j, coverage);
      var more := ServeTwoHop(ts[j], coverage, nbs);
      changes := changes || more;
      j := j + 1;
    }
    RelaysKnown(nbs, ts, coverage);
    signal := changes && tcRedundancy > 0;
    MissedIff((set n | n in nbs && old(n.isMpr)), Relays(nbs, ts, |ts|, coverage));
  }

  lemma RelaysKnown(nbs: set<Neighbor>, ts: seq<TwoHop>, coverage: nat)
    ensures Relays(nbs, ts, |ts|, coverage) <= nbs
  {
  }

  /** A neighbour that only stops being a relay is not signalled. */
  method DroppedRelay() returns (n: Neighbor, signal: bool)
    ensures n.wasMpr && !n.isMpr && !signal
  {
    n := new Neighbor(true, 3);
    n.isMpr := true;
    signal := CalculateLqMpr([n], [], 1, 1, {n});
  }
}
