/** The topology store of the multipath engine: nodes, and links threaded into the out-list
    of their source and the in-list of their destination. */
module MultipathTopology {
  import opened Common
  import SP = ShortestPaths
  import opened MultipathPaths

  const MAX_IP_ALIAS_BY_NODE: nat := 5
  const HASH_TAB_SIZE: nat := 256

  class OlsrNode {
    const addr: nat                      // main address
    var addrTab: seq<Option<nat>>        // main address first, then aliases
    var linkSrc: OlsrLink?               // links that leave this node
    var linkDst: OlsrLink?               // links that enter this node
    var dijkstraCost: SP.Cost
    var dijkstraPath: OlsrNode?
    var dijkstraHops: nat
    var dijkstraProcessed: bool
    ghost var outs: seq<OlsrLink>        // the list that starts at linkSrc
    ghost var ins: seq<OlsrLink>         // the list that starts at linkDst

    constructor (addr: nat)
      ensures this.addr == addr && linkSrc == null && linkDst == null && outs == [] && ins == []
      ensures dijkstraHops == 0 && addrTab == [None, None, None, None, None]
    {
      this.addr := addr;
      linkSrc, linkDst, dijkstraPath := null, null, null;
      dijkstraCost, dijkstraHops, dijkstraProcessed := SP.Fin(0), 0, false;
      addrTab := [None, None, None, None, None];
      outs, ins := [], [];
    }

    ghost predicate OutsOk()
      reads this`linkSrc, this`outs, outs`srcNext, outs`srcPrev
    {
      && linkSrc == Nth(outs, 0)
      && (forall i :: 0 <= i < |outs| ==> outs[i].src == this)
      && (forall i, j :: 0 <= i < j < |outs| ==> outs[i] != outs[j])
      && (forall i {:trigger outs[i].srcNext} :: 0 <= i < |outs| ==> outs[i].srcNext == Nth(outs, i + 1))
      && (forall i {:trigger outs[i].srcPrev} :: 0 <= i < |outs| ==> outs[i].srcPrev == Nth(outs, i - 1))
    }

    ghost predicate InsOk()
      reads this`linkDst, this`ins, ins`dstNext, ins`dstPrev
    {
      && linkDst == Nth(ins, 0)
      && (forall i :: 0 <= i < |ins| ==> ins[i].dst == this)
      && (forall i, j :: 0 <= i < j < |ins| ==> ins[i] != ins[j])
      && (forall i {:trigger ins[i].dstNext} :: 0 <= i < |ins| ==> ins[i].dstNext == Nth(ins, i + 1))
      && (forall i {:trigger ins[i].dstPrev} :: 0 <= i < |ins| ==> ins[i].dstPrev == Nth(ins, i - 1))
    }
  }

  class OlsrLink {
    const src: OlsrNode
    const dst: OlsrNode
    const cost: nat
    var dijkstraCost: nat
    var dijkstraCostP1: nat
    var srcNext: OlsrLink?
    var srcPrev: OlsrLink?
    var dstNext: OlsrLink?
    var dstPrev: OlsrLink?

    constructor (src: OlsrNode, dst: OlsrNode, cost: nat)
      ensures this.src == src && this.dst == dst && this.cost == cost
      ensures srcNext == null && srcPrev == null && dstNext == null && dstPrev == null
    {
      this.src, this.dst, this.cost := src, dst, cost;
      dijkstraCost, dijkstraCostP1 := 0, 0;
      srcNext, srcPrev, dstNext, dstPrev := null, null, null, null;
    }
  }

  ghost function Nth(list: seq<OlsrLink>, i: int): OlsrLink? {
    if 0 <= i < |list| then list[i] else null
  }

  function RemoveAt<T>(list: seq<T>, i: nat): seq<T>
    requires i < |list|
  {
    list[..i] + list[i + 1..]
  }

  /** The list without the first occurrence of x. */
  function Without<T(==)>(list: seq<T>, x: T): seq<T> {
    if list == [] then [] else if list[0] == x then list[1..] else [list[0]] + Without(list[1..], x)
  }

  lemma {:induction false} WithoutOk<T>(list: seq<T>, x: T)
    requires Distinct(list)
    ensures Distinct(Without(list, x))
    ensures forall n :: n in Without(list, x) ==> n in list && n != x
    ensures forall n :: n in list && n != x ==> n in Without(list, x)
  {
    if list != [] {
      WithoutOk(list[1..], x);
      assert forall n :: n in list <==> n == list[0] || n in list[1..];
      assert list[0] !in list[1..];
    }
  }

  lemma {:induction false} WithoutAt<T>(list: seq<T>, i: nat)
    requires i < |list| && forall j :: 0 <= j < i ==> list[j] != list[i]
    ensures Without(list, list[i]) == RemoveAt(list, i)
  {
    if i > 0 {
      WithoutAt(list[1..], i - 1);
      assert RemoveAt(list, i) == [list[0]] + RemoveAt(list[1..], i - 1);
    }
  }

  lemma RemoveAtIndex<T>(list: seq<T>, i: nat)
    requires i < |list|
    ensures |RemoveAt(list, i)| == |list| - 1
    ensures forall k :: 0 <= k < |list| - 1 ==> RemoveAt(list, i)[k] == list[if k < i then k else k + 1]
  {
  }

  lemma NthRemoveAt(list: seq<OlsrLink>, i: nat)
    requires i < |list|
    ensures forall k :: Nth(RemoveAt(list, i), k) == Nth(list, if k < i then k else k + 1)
  {
  }

  /** Splices link out of the out-list of its source: only its two neighbours change. */
  method SpliceSrc(link: OlsrLink, ghost i: nat)
    requires link.src.OutsOk() && i < |link.src.outs| && link.src.outs[i] == link
    modifies link.src`linkSrc, link.src.outs`srcNext, link.src.outs`srcPrev
    ensures link.src.linkSrc == if i == 0 then Nth(link.src.outs, 1) else Nth(link.src.outs, 0)
    ensures forall m {:trigger link.src.outs[m].srcNext} :: 0 <= m < |link.src.outs| && m != i ==>
                          link.src.outs[m].srcNext == Nth(link.src.outs, if m == i - 1 then i + 1 else m + 1)
    ensures forall m {:trigger link.src.outs[m].srcPrev} :: 0 <= m < |link.src.outs| && m != i ==>
                          link.src.outs[m].srcPrev == Nth(link.src.outs, if m == i + 1 then i - 1 else m - 1)
    ensures link.srcNext == old(link.srcNext)
  {
    if link.srcPrev == null {
      link.src.linkSrc := link.srcNext;
    } else {
      link.srcPrev.srcNext := link.srcNext;
    }
    if link.srcNext != null {
      link.srcNext.srcPrev := link.srcPrev;
    }
  }

  method UnlinkSrc(link: OlsrLink, ghost i: nat)
    requires link.src.OutsOk() && i < |link.src.outs| && link.src.outs[i] == link
    modifies link.src`linkSrc, link.src`outs, link.src.outs`srcNext, link.src.outs`srcPrev
    ensures link.src.outs == RemoveAt(old(link.src.outs), i) && link.src.OutsOk()
    ensures link.srcNext == old(link.srcNext)
  {
    hide RemoveAt, Nth;
    SpliceSrc(link, i);
    ghost var was := link.src.outs;
    ghost var rest := RemoveAt(was, i);
    link.src.outs := rest;
    RemoveAtIndex(was, i);
    NthRemoveAt(was, i);
    forall k | 0 <= k < |rest|
      ensures rest[k].srcNext == Nth(rest, k + 1) && rest[k].srcPrev == Nth(rest, k - 1)
    {
      var m := if k < i then k else k + 1;
      assert rest[k] == was[m];
      assert was[m].srcNext == Nth(was, if m == i - 1 then i + 1 else m + 1);
      assert was[m].srcPrev == Nth(was, if m == i + 1 then i - 1 else m - 1);
    }
  }

  /** Splices link out of the in-list of its destination: only its two neighbours change. */
  method SpliceDst(link: OlsrLink, ghost i: nat)
    requires link.dst.InsOk() && i < |link.dst.ins| && link.dst.ins[i] == link
    modifies link.dst`linkDst, link.dst.ins`dstNext, link.dst.ins`dstPrev
    ensures link.dst.linkDst == if i == 0 then Nth(link.dst.ins, 1) else Nth(link.dst.ins, 0)
    ensures forall m {:trigger link.dst.ins[m].dstNext} :: 0 <= m < |link.dst.ins| && m != i ==>
                          link.dst.ins[m].dstNext == Nth(link.dst.ins, if m == i - 1 then i + 1 else m + 1)
    ensures forall m {:trigger link.dst.ins[m].dstPrev} :: 0 <= m < |link.dst.ins| && m != i ==>
                          link.dst.ins[m].dstPrev == Nth(link.dst.ins, if m == i + 1 then i - 1 else m - 1)
    ensures link.dstNext == old(link.dstNext)
  {
    if link.dstPrev == null {
      link.dst.linkDst := link.dstNext;
    } else {
      link.dstPrev.dstNext := link.dstNext;
    }
    if link.dstNext != null {
      link.dstNext.dstPrev := link.dstPrev;
    }
  }

  method UnlinkDst(link: OlsrLink, ghost i: nat)
    requires link.dst.InsOk() && i < |link.dst.ins| && link.dst.ins[i] == link
    modifies link.dst`linkDst, link.dst`ins, link.dst.ins`dstNext, link.dst.ins`dstPrev
    ensures link.dst.ins == RemoveAt(old(link.dst.ins), i) && link.dst.InsOk()
    ensures link.dstNext == old(link.dstNext)
  {
    hide RemoveAt, Nth;
    SpliceDst(link, i);
    ghost var was := link.dst.ins;
    ghost var rest := RemoveAt(was, i);
    link.dst.ins := rest;
    RemoveAtIndex(was, i);
    NthRemoveAt(was, i);
    forall k | 0 <= k < |rest|
      ensures rest[k].dstNext == Nth(rest, k + 1) && rest[k].dstPrev == Nth(rest, k - 1)
    {
      var m := if k < i then k else k + 1;
      assert rest[k] == was[m];
      assert was[m].dstNext == Nth(was, if m == i - 1 then i + 1 else m + 1);
      assert was[m].dstPrev == Nth(was, if m == i + 1 then i - 1 else m - 1);
    }
  }

  /** Puts link at the head of the out-list of its source. */
  method PushSrc(link: OlsrLink)
    requires link.src.OutsOk() && link !in link.src.outs && link.srcPrev == null
    modifies link`srcNext, link.src`linkSrc, link.src`outs, link.src.outs`srcPrev
    ensures link.src.outs == [link] + old(link.src.outs) && link.src.OutsOk()
  {
    if link.src.linkSrc != null {
      link.src.linkSrc.srcPrev := link;
    }
    link.srcNext := link.src.linkSrc;
    link.src.linkSrc := link;
    link.src.outs := [link] + link.src.outs;
  }

  /** Puts link at the head of the in-list of its destination. */
  method PushDst(link: OlsrLink)
    requires link.dst.InsOk() && link !in link.dst.ins && link.dstPrev == null
    modifies link`dstNext, link.dst`linkDst, link.dst`ins, link.dst.ins`dstPrev
    ensures link.dst.ins == [link] + old(link.dst.ins) && link.dst.InsOk()
  {
    if link.dst.linkDst != null {
      link.dst.linkDst.dstPrev := link;
    }
    link.dstNext := link.dst.linkDst;
    link.dst.linkDst := link;
    link.dst.ins := [link] + link.dst.ins;
  }

  /** Every node of nodes lists exactly the links of outLinks that leave it and the links of inLinks that enter it,
      each once. */
  ghost predicate Threaded(nodes: set<OlsrNode>, outLinks: set<OlsrLink>, inLinks: set<OlsrLink>)
    reads nodes`linkSrc, nodes`outs, nodes`linkDst, nodes`ins
    reads outLinks`srcNext, outLinks`srcPrev, inLinks`dstNext, inLinks`dstPrev
  {
    forall n :: n in nodes ==> ListsOk(n, outLinks, inLinks)
  }

  ghost predicate ListsOk(n: OlsrNode, outLinks: set<OlsrLink>, inLinks: set<OlsrLink>)
    reads n`linkSrc, n`outs, n`linkDst, n`ins
    reads outLinks`srcNext, outLinks`srcPrev, inLinks`dstNext, inLinks`dstPrev
  {
    && (forall l :: l in n.outs ==> l in outLinks)
    && (forall l :: l in outLinks && l.src == n ==> l in n.outs)
    && (forall l :: l in n.ins ==> l in inLinks)
    && (forall l :: l in inLinks && l.dst == n ==> l in n.ins)
    && n.OutsOk() && n.InsOk()
  }

  method DropFromIns(link: OlsrLink, ghost nodes: set<OlsrNode>, ghost outLinks: set<OlsrLink>,
                     ghost inLinks: set<OlsrLink>)
    requires Threaded(nodes, outLinks, inLinks) && link in inLinks && link.dst in nodes
    modifies link.dst`linkDst, link.dst`ins, link.dst.ins`dstNext, link.dst.ins`dstPrev
    ensures Threaded(nodes, outLinks, inLinks - {link})
    ensures link.dst.ins == Without(old(link.dst.ins), link)
    ensures link.dstNext == old(link.dstNext)
  {
    hide Without;
    assert ListsOk(link.dst, outLinks, inLinks);
    ghost var i :| 0 <= i < |link.dst.ins| && link.dst.ins[i] == link;
    WithoutAt(link.dst.ins, i);
    UnlinkDst(link, i);
    forall n | n in nodes
      ensures ListsOk(n, outLinks, inLinks - {link})
    {
      assert old(ListsOk(n, outLinks, inLinks));
      assert n != link.dst ==> n.ins == old(n.ins) && forall l :: l in n.ins ==> l !in old(link.dst.ins);
    }
  }

  method DropFromOuts(link: OlsrLink, ghost nodes: set<OlsrNode>, ghost outLinks: set<OlsrLink>,
                      ghost inLinks: set<OlsrLink>)
    requires Threaded(nodes, outLinks, inLinks) && link in outLinks && link.src in nodes
    modifies link.src`linkSrc, link.src`outs, link.src.outs`srcNext, link.src.outs`srcPrev
    ensures Threaded(nodes, outLinks - {link}, inLinks)
    ensures link.src.outs == Without(old(link.src.outs), link)
    ensures link.srcNext == old(link.srcNext)
  {
    hide Without;
    assert ListsOk(link.src, outLinks, inLinks);
    ghost var i :| 0 <= i < |link.src.outs| && link.src.outs[i] == link;
    WithoutAt(link.src.outs, i);
    UnlinkSrc(link, i);
    forall n | n in nodes
      ensures ListsOk(n, outLinks - {link}, inLinks)
    {
      assert old(ListsOk(n, outLinks, inLinks));
      assert n != link.src ==> n.outs == old(n.outs) && forall l :: l in n.outs ==> l !in old(link.src.outs);
    }
  }

  /** First half of removing a node: its outgoing links leave the in-lists of their destinations, its own included. */
  method DetachOuts(node: OlsrNode, ghost nodes: set<OlsrNode>, ghost links: set<OlsrLink>)
    requires Threaded(nodes, links, links) && node in nodes && node.OutsOk()
    requires forall l :: l in node.outs ==> l in links && l.dst in nodes
    modifies nodes`linkDst, nodes`ins, links`dstNext, links`dstPrev
    ensures Threaded(nodes, links, links - Elements(node.outs))
    ensures forall n :: n in nodes ==> n.ins == Minus(old(n.ins), Elements(node.outs))
  {
    hide Threaded, ListsOk, Elements, Minus, Without;
    ghost var i := 0;
    var link := node.linkSrc;
    NoElements(node.outs, links);
    NothingTaken(nodes, links, links);
    while link != null
      invariant 0 <= i <= |node.outs| && link == Nth(node.outs, i)
      invariant Threaded(nodes, links, links - Elements(node.outs[..i]))
      invariant forall n :: n in nodes ==> n.ins == Minus(old(n.ins), Elements(node.outs[..i]))
      decreases |node.outs| - i
    {
      ElementsStep(node.outs, i, links);
      ListOf(nodes, links, links - Elements(node.outs[..i]), link.dst);
      assert forall l :: l in link.dst.ins ==> l in links;
      label Before:
      DropFromIns(link, nodes, links, links - Elements(node.outs[..i]));
      forall n | n in nodes
        ensures n.ins == Minus(old(n.ins), Elements(node.outs[..i + 1]))
      {
        OneTaken(old(n.ins), Elements(node.outs[..i]), link, n == link.dst);
        assert n != link.dst ==> n.ins == old@Before(n.ins);
      }
      i := i + 1;
      link := link.srcNext;
    }
  }

  /** Second half of removing a node: its incoming links leave the out-lists of their sources. */
  method DetachIns(node: OlsrNode, ghost nodes: set<OlsrNode>, ghost links: set<OlsrLink>, ghost inLinks: set<OlsrLink>)
    requires Threaded(nodes, links, inLinks) && node in nodes && node.InsOk()
    requires forall l :: l in node.ins ==> l in links && l.src in nodes
    modifies nodes`linkSrc, nodes`outs, links`srcNext, links`srcPrev
    ensures Threaded(nodes, links - Elements(node.ins), inLinks)
    ensures forall n :: n in nodes ==> n.outs == Minus(old(n.outs), Elements(node.ins))
  {
    hide Threaded, ListsOk, Elements, Minus, Without;
    ghost var i := 0;
    var link := node.linkDst;
    NoElements(node.ins, links);
    NothingTaken(nodes, links, inLinks);
    while link != null
      invariant 0 <= i <= |node.ins| && link == Nth(node.ins, i)
      invariant Threaded(nodes, links - Elements(node.ins[..i]), inLinks)
      invariant forall n :: n in nodes ==> n.outs == Minus(old(n.outs), Elements(node.ins[..i]))
      decreases |node.ins| - i
    {
      ElementsStep(node.ins, i, links);
      ListOf(nodes, links - Elements(node.ins[..i]), inLinks, link.src);
      assert forall l :: l in link.src.outs ==> l in links;
      label Before:
      DropFromOuts(link, nodes, links - Elements(node.ins[..i]), inLinks);
      forall n | n in nodes
        ensures n.outs == Minus(old(n.outs), Elements(node.ins[..i + 1]))
      {
        OneTaken(old(n.outs), Elements(node.ins[..i]), link, n == link.src);
        assert n != link.src ==> n.outs == old@Before(n.outs);
      }
      i := i + 1;
      link := link.dstNext;
    }
  }

  /** The list without the elements of gone. */
  ghost function Minus(list: seq<OlsrLink>, gone: set<OlsrLink>): seq<OlsrLink> {
    if list == [] then [] else (if list[0] in gone then [] else [list[0]]) + Minus(list[1..], gone)
  }

  lemma {:induction false} MinusNone(list: seq<OlsrLink>)
    ensures Minus(list, {}) == list
    decreases |list|
  {
    if list != [] {
      MinusNone(list[1..]);
    }
  }

  lemma {:induction false} MinusMembers(list: seq<OlsrLink>, gone: set<OlsrLink>)
    ensures forall l :: l in Minus(list, gone) <==> l in list && l !in gone
    decreases |list|
  {
    if list != [] {
      MinusMembers(list[1..], gone);
      assert forall l :: l in list <==> l == list[0] || l in list[1..];
    }
  }

  lemma {:induction false} MinusSame(list: seq<OlsrLink>, gone: set<OlsrLink>, x: OlsrLink)
    requires x !in list
    ensures Minus(list, gone + {x}) == Minus(list, gone)
    decreases |list|
  {
    if list != [] {
      assert list[0] in list && forall l :: l in list[1..] ==> l in list;
      MinusSame(list[1..], gone, x);
    }
  }

  /** Taking out one more element. */
  lemma {:induction false} MinusOne(list: seq<OlsrLink>, gone: set<OlsrLink>, x: OlsrLink)
    requires Distinct(list) && x in list && x !in gone
    ensures Without(Minus(list, gone), x) == Minus(list, gone + {x})
    decreases |list|
  {
    hide Minus, Without;
    var first, rest := list[0], list[1..];
    MinusUnfold(list, gone);
    MinusUnfold(list, gone + {x});
    WithoutHead(first, Minus(rest, gone), x);
    if first == x {
      MinusSame(rest, gone, x);
    } else {
      MinusOne(rest, gone, x);
    }
  }

  lemma MinusUnfold(list: seq<OlsrLink>, gone: set<OlsrLink>)
    requires list != []
    ensures list[0] in gone ==> Minus(list, gone) == Minus(list[1..], gone)
    ensures list[0] !in gone ==> Minus(list, gone) == [list[0]] + Minus(list[1..], gone)
  {
  }

  lemma WithoutHead<T>(first: T, rest: seq<T>, x: T)
    ensures Without([first] + rest, x) == if first == x then rest else [first] + Without(rest, x)
  {
    assert ([first] + rest)[1..] == rest;
  }

  lemma NothingTaken(nodes: set<OlsrNode>, outLinks: set<OlsrLink>, inLinks: set<OlsrLink>)
    requires Threaded(nodes, outLinks, inLinks)
    ensures forall n :: n in nodes ==> Minus(n.outs, {}) == n.outs && Minus(n.ins, {}) == n.ins
    ensures forall n :: n in nodes ==> Distinct(n.outs) && Distinct(n.ins)
    ensures forall n, l :: n in nodes && l in outLinks ==> (l in n.outs <==> l.src == n)
    ensures forall n, l :: n in nodes && l in inLinks ==> (l in n.ins <==> l.dst == n)
  {
    forall n | n in nodes
      ensures Minus(n.outs, {}) == n.outs && Minus(n.ins, {}) == n.ins
    {
      MinusNone(n.outs);
      MinusNone(n.ins);
    }
    assert forall n :: n in nodes ==> ListsOk(n, outLinks, inLinks);
  }

  lemma OneTaken(list: seq<OlsrLink>, gone: set<OlsrLink>, x: OlsrLink, here: bool)
    requires Distinct(list) && x !in gone && (here <==> x in list)
    ensures here ==> Without(Minus(list, gone), x) == Minus(list, gone + {x})
    ensures !here ==> Minus(list, gone) == Minus(list, gone + {x})
  {
    if here {
      MinusOne(list, gone, x);
    } else {
      MinusSame(list, gone, x);
    }
  }

  ghost function Elements(list: seq<OlsrLink>): set<OlsrLink> {
    set l | l in list
  }

  lemma NoElements(list: seq<OlsrLink>, links: set<OlsrLink>)
    ensures links - Elements(list[..0]) == links && list[..|list|] == list && Elements(list[..0]) == {}
  {
  }

  lemma ElementsStep(list: seq<OlsrLink>, i: nat, links: set<OlsrLink>)
    requires i < |list| && list[i] in links
    requires forall a, b :: 0 <= a < b < |list| ==> list[a] != list[b]
    ensures list[i] in links - Elements(list[..i])
    ensures links - Elements(list[..i + 1]) == links - Elements(list[..i]) - {list[i]}
    ensures Elements(list[..i + 1]) == Elements(list[..i]) + {list[i]} && list[i] !in Elements(list[..i])
  {
    assert list[..i + 1] == list[..i] + [list[i]];
  }

  lemma ListOf(nodes: set<OlsrNode>, outLinks: set<OlsrLink>, inLinks: set<OlsrLink>, n: OlsrNode)
    requires Threaded(nodes, outLinks, inLinks) && n in nodes
    ensures forall l :: l in n.outs ==> l in outLinks && l.src == n
    ensures forall l :: l in n.ins ==> l in inLinks && l.dst == n
  {
  }

  // ---------- The address table ----------

  /** An entry of a hash chain: addr is slot pos of node's address table. */
  datatype NodeAddr = NodeAddr(addr: nat, node: OlsrNode, pos: nat)

  /** The first byte of the address as it lies in memory. */
  function GetHashKey(addr: nat): (h: nat)
    ensures h < HASH_TAB_SIZE
  {
    addr % 256
  }

  ghost predicate EntryOk(e: NodeAddr, nodes: set<OlsrNode>, h: nat)
    reads nodes`addrTab
  {
    && GetHashKey(e.addr) == h && e.node in nodes
    && e.pos < |e.node.addrTab| && e.node.addrTab[e.pos] == Some(e.addr)
  }

  ghost predicate TabOk(n: OlsrNode, hash: seq<seq<NodeAddr>>)
    requires |hash| == HASH_TAB_SIZE
    reads n`addrTab
  {
    && |n.addrTab| == MAX_IP_ALIAS_BY_NODE
    && forall pos :: 0 <= pos < |n.addrTab| && n.addrTab[pos].Some? ==>
                       NodeAddr(n.addrTab[pos].value, n, pos) in hash[GetHashKey(n.addrTab[pos].value)]
  }

  ghost predicate ChainDistinct(chain: seq<NodeAddr>) {
    forall i, j :: 0 <= i < j < |chain| ==> chain[i].addr != chain[j].addr
  }

  /** The chains hold exactly the addresses in the nodes' tables, each address once. */
  ghost predicate HashOk(nodes: set<OlsrNode>, hash: seq<seq<NodeAddr>>)
    reads nodes`addrTab
  {
    && |hash| == HASH_TAB_SIZE
    && (forall h, e :: 0 <= h < |hash| && e in hash[h] ==> EntryOk(e, nodes, h))
    && (forall h :: 0 <= h < |hash| ==> ChainDistinct(hash[h]))
    && (forall n :: n in nodes ==> TabOk(n, hash))
  }

  ghost predicate Owns(n: OlsrNode, addr: nat)
    reads n`addrTab
  {
    Some(addr) in n.addrTab
  }

  lemma OwnersListed(nodes: set<OlsrNode>, hash: seq<seq<NodeAddr>>, n: OlsrNode, addr: nat)
    requires HashOk(nodes, hash) && n in nodes && Owns(n, addr)
    ensures exists e :: e in hash[GetHashKey(addr)] && e.addr == addr && e.node == n
  {
    var pos :| 0 <= pos < |n.addrTab| && n.addrTab[pos] == Some(addr);
    assert TabOk(n, hash);
    assert NodeAddr(addr, n, pos) in hash[GetHashKey(addr)];
  }

  function FindAddr(chain: seq<NodeAddr>, addr: nat): (node: OlsrNode?)
    ensures node == null ==> forall e :: e in chain ==> e.addr != addr
    ensures node != null ==> exists i :: 0 <= i < |chain| && chain[i].addr == addr && chain[i].node == node
  {
    if chain == [] then null
    else if chain[0].addr == addr then chain[0].node
    else
      assert forall e :: e in chain ==> e == chain[0] || e in chain[1..];
      FindAddr(chain[1..], addr)
  }

  /** tc_get_node: the node of the first entry for an address, or null. */
  function GetNode(hash: seq<seq<NodeAddr>>, addr: nat): OlsrNode?
    requires |hash| == HASH_TAB_SIZE
  {
    FindAddr(hash[GetHashKey(addr)], addr)
  }

  /** The lookup agrees with the nodes' own address tables. */
  lemma LookupAgrees(nodes: set<OlsrNode>, hash: seq<seq<NodeAddr>>, addr: nat)
    requires HashOk(nodes, hash)
    ensures GetNode(hash, addr) != null ==> GetNode(hash, addr) in nodes && Owns(GetNode(hash, addr), addr)
    ensures forall n :: n in nodes && Owns(n, addr) ==> GetNode(hash, addr) == n
  {
    var chain := hash[GetHashKey(addr)];
    assert ChainDistinct(chain);
    if GetNode(hash, addr) != null {
      var i :| 0 <= i < |chain| && chain[i].addr == addr && chain[i].node == GetNode(hash, addr);
      assert EntryOk(chain[i], nodes, GetHashKey(addr));
    }
    forall n | n in nodes && Owns(n, addr)
      ensures GetNode(hash, addr) == n
    {
      OwnersListed(nodes, hash, n, addr);
      var e :| e in chain && e.addr == addr && e.node == n;
    }
  }

  /** The first free alias slot, or none. */
  ghost predicate FirstFree(tab: seq<Option<nat>>, pos: int) {
    && |tab| == MAX_IP_ALIAS_BY_NODE
    && (pos == -1 || (1 <= pos < MAX_IP_ALIAS_BY_NODE && tab[pos].None?))
    && forall i :: 1 <= i < MAX_IP_ALIAS_BY_NODE && (pos == -1 || i < pos) ==> tab[i].Some?
  }

  method FreeSlot(node: OlsrNode) returns (pos: int)
    requires |node.addrTab| == MAX_IP_ALIAS_BY_NODE
    ensures FirstFree(node.addrTab, pos)
    ensures pos == -1 <==> forall i :: 1 <= i < MAX_IP_ALIAS_BY_NODE ==> node.addrTab[i].Some?
    ensures pos != -1 ==> 1 <= pos < MAX_IP_ALIAS_BY_NODE && node.addrTab[pos].None?
                          && forall i :: 1 <= i < pos ==> node.addrTab[i].Some?
  {
    pos := 1;
    while pos < MAX_IP_ALIAS_BY_NODE
      invariant 1 <= pos <= MAX_IP_ALIAS_BY_NODE
      invariant forall i :: 1 <= i < pos ==> node.addrTab[i].Some?
    {
      if node.addrTab[pos].None? {
        return;
      }
      pos := pos + 1;
    }
    pos := -1;
  }

  /** No node has this address. */
  ghost predicate NoOwner(nodes: set<OlsrNode>, addr: nat)
    reads nodes`addrTab
  {
    forall n :: n in nodes ==> !Owns(n, addr)
  }

  /** tc_add_node_addr: enters an address at the head of its chain, and in slot 0 or the first free alias slot; pos is
      -1 when there is none. The table stays right exactly when the address is new. */
  method AddNodeAddr(node: OlsrNode, addr: nat, mainAddr: bool, hash: seq<seq<NodeAddr>>, ghost nodes: set<OlsrNode>)
    returns (pos: int, table: seq<seq<NodeAddr>>)
    requires HashOk(nodes, hash) && |node.addrTab| == MAX_IP_ALIAS_BY_NODE
    requires node in nodes || forall i :: 0 <= i < MAX_IP_ALIAS_BY_NODE ==> node.addrTab[i].None?
    requires mainAddr ==> node.addrTab[0].None?
    modifies node`addrTab
    ensures if mainAddr then pos == 0 else FirstFree(old(node.addrTab), pos)
    ensures |table| == HASH_TAB_SIZE
    ensures pos < 0 ==> table == hash && node.addrTab == old(node.addrTab)
    ensures pos >= 0 ==> node.addrTab == old(node.addrTab)[pos := Some(addr)]
    ensures pos >= 0 ==> (HashOk(nodes + {node}, table) <==> old(NoOwner(nodes, addr)))
  {
    hide GetHashKey;
    if mainAddr {
      pos := 0;
    } else {
      pos := FreeSlot(node);
    }
    if pos < 0 {
      return pos, hash;
    }
    var key := GetHashKey(addr);
    ghost var isNew := NoOwner(nodes, addr);
    if isNew {
      UnknownAddr(nodes, hash, addr);
    } else {
      KnownAddr(nodes, hash, addr);
    }
    table := hash[key := [NodeAddr(addr, node, pos)] + hash[key]];
    node.addrTab := node.addrTab[pos := Some(addr)];
    if isNew {
      forall h, e | 0 <= h < HASH_TAB_SIZE && e in table[h]
        ensures EntryOk(e, nodes + {node}, h)
      {
        if e != NodeAddr(addr, node, pos) {
          assert e in hash[h];
          assert old(EntryOk(e, nodes, h));
        }
      }
      forall h | 0 <= h < HASH_TAB_SIZE
        ensures ChainDistinct(table[h])
      {
        assert ChainDistinct(hash[h]);
        assert forall e :: e in hash[h] ==> e.addr != addr;
      }
      forall n | n in nodes + {node}
        ensures TabOk(n, table)
      {
        assert n in nodes ==> old(TabOk(n, hash));
      }
    } else {
      ChainTwice(hash[key], NodeAddr(addr, node, pos));
      assert !ChainDistinct(table[key]);
    }
  }

  lemma KnownAddr(nodes: set<OlsrNode>, hash: seq<seq<NodeAddr>>, addr: nat)
    requires HashOk(nodes, hash) && !NoOwner(nodes, addr)
    ensures exists e :: e in hash[GetHashKey(addr)] && e.addr == addr
  {
    var n :| n in nodes && Owns(n, addr);
    OwnersListed(nodes, hash, n, addr);
  }

  lemma ChainTwice(chain: seq<NodeAddr>, e: NodeAddr)
    requires exists f :: f in chain && f.addr == e.addr
    ensures !ChainDistinct([e] + chain)
  {
    var i :| 0 <= i < |chain| && chain[i].addr == e.addr;
    assert ([e] + chain)[0].addr == ([e] + chain)[i + 1].addr;
  }

  lemma UnknownAddr(nodes: set<OlsrNode>, hash: seq<seq<NodeAddr>>, addr: nat)
    requires HashOk(nodes, hash)
    requires forall n :: n in nodes ==> !Owns(n, addr)
    ensures forall h, e :: 0 <= h < |hash| && e in hash[h] ==> e.addr != addr
  {
    forall h, e | 0 <= h < |hash| && e in hash[h]
      ensures e.addr != addr
    {
      assert EntryOk(e, nodes, h);
    }
  }

  lemma LookupOwner(nodes: set<OlsrNode>, hash: seq<seq<NodeAddr>>, addr: nat)
    requires HashOk(nodes, hash)
    ensures NoOwner(nodes, addr) <==> GetNode(hash, addr) == null
  {
    LookupAgrees(nodes, hash, addr);
  }

  lemma FreeIsAlias(tab: seq<Option<nat>>, pos: int)
    requires FirstFree(tab, pos)
    ensures pos < 0 || 1 <= pos < |tab|
  {
  }

  /** No address belongs to two nodes. */
  lemma OneOwner(nodes: set<OlsrNode>, hash: seq<seq<NodeAddr>>, m: OlsrNode, n: OlsrNode, addr: nat)
    requires HashOk(nodes, hash) && m in nodes && n in nodes && Owns(m, addr) && Owns(n, addr)
    ensures m == n
  {
    OwnersListed(nodes, hash, m, addr);
    OwnersListed(nodes, hash, n, addr);
    assert ChainDistinct(hash[GetHashKey(addr)]);
  }

  /** tc_rmv_node_addr: takes an address out of its chain and its node's table. */
  method RemoveNodeAddr(hash: seq<seq<NodeAddr>>, addr: nat, ghost nodes: set<OlsrNode>)
    returns (table: seq<seq<NodeAddr>>, owner: OlsrNode?, pos: nat)
    requires HashOk(nodes, hash)
    modifies nodes`addrTab
    ensures |table| == HASH_TAB_SIZE && HashOk(nodes, table)
    ensures owner == null ==> table == hash && forall n :: n in nodes ==> !Owns(n, addr) && n.addrTab == old(n.addrTab)
    ensures owner != null ==> owner in nodes && pos < |old(owner.addrTab)| && old(owner.addrTab)[pos] == Some(addr)
    ensures owner != null ==> owner.addrTab == old(owner.addrTab)[pos := None]
    ensures forall n :: n in nodes && n != owner ==> n.addrTab == old(n.addrTab)
  {
    hide GetHashKey;
    var key := GetHashKey(addr);
    var chain := hash[key];
    var i := 0;
    while i < |chain| && chain[i].addr != addr
      invariant 0 <= i <= |chain|
      invariant forall j :: 0 <= j < i ==> chain[j].addr != addr
    {
      i := i + 1;
    }
    if i == |chain| {
      forall n | n in nodes && Owns(n, addr)
        ensures false
      {
        OwnersListed(nodes, hash, n, addr);
      }
      return hash, null, 0;
    }
    assert EntryOk(chain[i], nodes, key);
    owner, pos := chain[i].node, chain[i].pos;
    table := hash[key := RemoveAt(chain, i)];
    DropEntry(hash, key, i);
    owner.addrTab := owner.addrTab[pos := None];
    forall h, e | 0 <= h < HASH_TAB_SIZE && e in table[h]
      ensures EntryOk(e, nodes, h)
    {
      assert old(EntryOk(e, nodes, h));
      assert e.addr != addr;
    }
    forall n | n in nodes
      ensures TabOk(n, table)
    {
      assert old(TabOk(n, hash));
      forall p | 0 <= p < |n.addrTab| && n.addrTab[p].Some?
        ensures NodeAddr(n.addrTab[p].value, n, p) in table[GetHashKey(n.addrTab[p].value)]
      {
        var e := NodeAddr(n.addrTab[p].value, n, p);
        assert e in hash[GetHashKey(e.addr)];
        assert e != chain[i];
      }
    }
  }

  lemma DropEntry(hash: seq<seq<NodeAddr>>, key: nat, i: nat)
    requires key < |hash| && i < |hash[key]|
    requires forall h :: 0 <= h < |hash| ==> ChainDistinct(hash[h])
    requires forall h, e :: 0 <= h < |hash| && e in hash[h] ==> GetHashKey(e.addr) == h
    ensures var table := hash[key := RemoveAt(hash[key], i)];
      && (forall h, e :: 0 <= h < |hash| ==> (e in table[h] <==> e in hash[h] && e != hash[key][i]))
      && (forall h, e :: 0 <= h < |hash| && e in table[h] ==> e.addr != hash[key][i].addr)
      && (forall h :: 0 <= h < |hash| ==> ChainDistinct(table[h]))
  {
    hide GetHashKey;
    RemoveAtIndex(hash[key], i);
    var chain := hash[key];
    var rest := RemoveAt(chain, i);
    assert ChainDistinct(chain);
    forall e
      ensures e in rest <==> e in chain && e != chain[i]
    {
      if e in chain && e != chain[i] {
        var j :| 0 <= j < |chain| && chain[j] == e;
        assert rest[if j < i then j else j - 1] == e;
      }
    }
  }

  // ---------- The store ----------

  /** l is the first link of an out-list to the node with this main address. */
  ghost predicate FirstTo(outs: seq<OlsrLink>, l: OlsrLink, addr: nat) {
    exists i :: 0 <= i < |outs| && outs[i] == l && forall j :: 0 <= j < i ==> outs[j].dst.addr != addr
  }

  class Topology {
    var nodeLst: seq<OlsrNode>
    var hash: seq<seq<NodeAddr>>
    var pathBuffers: seq<PathBuffer>
    ghost var nodes: set<OlsrNode>       // the elements of nodeLst
    ghost var links: set<OlsrLink>       // every link of the store
    ghost var paths: set<OlsrPath>       // every cached path

    constructor ()
      ensures Valid() && nodeLst == [] && nodes == {} && links == {} && pathBuffers == [] && paths == {}
    {
      nodeLst, pathBuffers, nodes, links, paths := [], [], {}, {}, {};
      hash := seq(HASH_TAB_SIZE, _ => []);
    }

    /** The address table, the two threadings of the links and the node list agree on one graph. */
    ghost predicate StoreOk()
      ensures StoreOk() ==> |hash| == HASH_TAB_SIZE
      reads this`nodeLst, this`hash, this`nodes, this`links
      reads nodes`addrTab, nodes`linkSrc, nodes`outs, nodes`linkDst, nodes`ins
      reads links`srcNext, links`srcPrev, links`dstNext, links`dstPrev
    {
      && NodeListOk(nodeLst, nodes) && MainAddrs(nodes)
      && |hash| == HASH_TAB_SIZE && HashOk(nodes, hash)
      && Threaded(nodes, links, links)
      && EndsOk(nodes, links)
    }

    /** tc_add_node: a node with a new main address; the path cache is emptied. An address that is already
        known changes nothing. */
    method AddNode(addr: nat)
      requires Valid()
      modifies this, paths`next
      ensures Valid() && links == old(links)
      ensures old(GetNode(hash, addr)) != null ==>
                && nodeLst == old(nodeLst) && nodes == old(nodes) && hash == old(hash)
                && pathBuffers == old(pathBuffers) && paths == old(paths)
      ensures old(GetNode(hash, addr)) == null ==>
                && pathBuffers == [] && paths == {} && |nodeLst| == |old(nodeLst)| + 1 && nodeLst[1..] == old(nodeLst)
                && nodes == old(nodes) + {nodeLst[0]}
                && fresh(nodeLst[0]) && nodeLst[0].addr == addr && nodeLst[0].dijkstraHops == 0
                && nodeLst[0].addrTab == [Some(addr), None, None, None, None]
      ensures forall n :: n in old(nodes) ==> n.addrTab == old(n.addrTab)
    {
      hide Topology.StoreOk, RingsOk, GetNode;
      if GetNode(hash, addr) != null {
        return;
      }
      var newNode := new OlsrNode(addr);
      var buff := pathBuffers;
      pathBuffers, paths := [], {};
      StoreNode(newNode);
      var _ := FreePathBuffer(buff, old(paths));
      NoRingsOk();
    }

    method StoreNode(newNode: OlsrNode)
      requires StoreOk() && newNode !in nodes && GetNode(hash, newNode.addr) == null
      requires newNode.linkSrc == null && newNode.linkDst == null && newNode.outs == [] && newNode.ins == []
      requires newNode.addrTab == [None, None, None, None, None]
      modifies this`hash, this`nodeLst, this`nodes, newNode`addrTab
      ensures StoreOk() && nodeLst == [newNode] + old(nodeLst) && nodes == old(nodes) + {newNode}
      ensures newNode.addrTab == [Some(newNode.addr), None, None, None, None]
    {
      hide HashOk, Threaded, EndsOk, GetNode, NodeListOk;
      hash := EnterNode(newNode, hash, nodes, links);
      NodeListAdd(nodeLst, nodes, newNode);
      nodeLst := [newNode] + nodeLst;
      nodes := nodes + {newNode};
    }

    /** tc_add_link: empties the path cache and, if both ends are known, adds one link at the head of both lists. */
    method AddLink(addrSrc: nat, addrDst: nat, cost: nat) returns (ghost added: OlsrLink?)
      requires Valid()
      modifies this`links, this`pathBuffers, this`paths, paths`next
      modifies nodes`linkSrc, nodes`outs, nodes`linkDst, nodes`ins, links`srcPrev, links`dstPrev
      ensures Valid() && pathBuffers == [] && paths == {}
      ensures added == null <==> GetNode(hash, addrSrc) == null || GetNode(hash, addrDst) == null
      ensures added == null ==> links == old(links)
      ensures added != null ==> fresh(added) && links == old(links) + {added} && added.cost == cost
      ensures added != null ==> added.src == GetNode(hash, addrSrc) && added.dst == GetNode(hash, addrDst)
      ensures added != null ==> forall n :: n in nodes ==>
                                              && n.outs == (if n == added.src then [added] + old(n.outs)
                                                            else old(n.outs))
                                              && n.ins == (if n == added.dst then [added] + old(n.ins) else old(n.ins))
    {
      hide Topology.StoreOk, RingsOk, GetNode;
      var buff := pathBuffers;
      pathBuffers, paths := [], {};
      added := InsertLink(addrSrc, addrDst, cost);
      var _ := FreePathBuffer(buff, old(paths));
      NoRingsOk();
    }

    method InsertLink(addrSrc: nat, addrDst: nat, cost: nat) returns (ghost added: OlsrLink?)
      requires StoreOk()
      modifies this`links, nodes`linkSrc, nodes`outs, nodes`linkDst, nodes`ins, links`srcPrev, links`dstPrev
      ensures StoreOk()
      ensures added == null <==> GetNode(hash, addrSrc) == null || GetNode(hash, addrDst) == null
      ensures added == null ==> links == old(links)
      ensures added != null ==> fresh(added) && links == old(links) + {added} && added.cost == cost
      ensures added != null ==> added.src == GetNode(hash, addrSrc) && added.dst == GetNode(hash, addrDst)
      ensures added != null ==> forall n :: n in nodes ==>
                                              && n.outs == (if n == added.src then [added] + old(n.outs)
                                                            else old(n.outs))
                                              && n.ins == (if n == added.dst then [added] + old(n.ins) else old(n.ins))
    {
      hide Topology.StoreOk, GetNode;
      var nodeSrc, nodeDst := GetNode(hash, addrSrc), GetNode(hash, addrDst);
      added := null;
      if nodeSrc != null && nodeDst != null {
        KnownNodes(addrSrc);
        KnownNodes(addrDst);
        var link := new OlsrLink(nodeSrc, nodeDst, cost);
        StoreLink(link);
        added := link;
      }
    }

    lemma KnownNodes(addr: nat)
      requires StoreOk()
      ensures GetNode(hash, addr) != null ==> GetNode(hash, addr) in nodes
    {
      LookupAgrees(nodes, hash, addr);
    }

    method StoreLink(link: OlsrLink)
      requires StoreOk() && link !in links && link.src in nodes && link.dst in nodes
      requires link.srcPrev == null && link.dstPrev == null
      modifies this`links, nodes`linkSrc, nodes`outs, nodes`linkDst, nodes`ins, links`srcPrev, links`dstPrev
      modifies link`srcNext, link`dstNext
      ensures StoreOk() && links == old(links) + {link}
      ensures forall n :: n in nodes ==> n.outs == if n == link.src then [link] + old(n.outs) else old(n.outs)
      ensures forall n :: n in nodes ==> n.ins == if n == link.dst then [link] + old(n.ins) else old(n.ins)
    {
      hide HashOk, Threaded, NodeListOk, MainAddrs;
      ThreadLink(link, nodes, links);
      links := links + {link};
    }

    /** tc_remove_link: empties the path cache and takes out the first link from source to destination, if any. */
    method RemoveLink(addrSrc: nat, addrDst: nat) returns (removed: OlsrLink?)
      requires Valid()
      modifies this`links, this`pathBuffers, this`paths, paths`next
      modifies nodes`linkSrc, nodes`outs, nodes`linkDst, nodes`ins, links`srcNext, links`srcPrev, links`dstNext,
               links`dstPrev
      ensures Valid() && pathBuffers == [] && paths == {}
      ensures removed == null ==> links == old(links)
      ensures removed == null ==> GetNode(hash, addrSrc) == null
                                  || forall l :: l in links && l.src == GetNode(hash, addrSrc) ==> l.dst.addr != addrDst
      ensures removed != null ==> removed in old(links) && links == old(links) - {removed}
      ensures removed != null ==> removed.src == GetNode(hash, addrSrc) && removed.dst.addr == addrDst
      ensures removed != null ==> FirstTo(old(removed.src.outs), removed, addrDst)
      ensures removed != null ==> forall n :: n in nodes ==>
                                                && n.outs == (if n == removed.src
                                                              then Without<OlsrLink>(old(n.outs), removed)
                                                              else old(n.outs))
                                                && n.ins == (if n == removed.dst
                                                             then Without<OlsrLink>(old(n.ins), removed)
                                                             else old(n.ins))
    {
      hide Topology.StoreOk, RingsOk, GetNode, Without, FirstTo;
      var buff := pathBuffers;
      pathBuffers, paths := [], {};
      removed := TakeLink(addrSrc, addrDst);
      var _ := FreePathBuffer(buff, old(paths));
      NoRingsOk();
    }

    method TakeLink(addrSrc: nat, addrDst: nat) returns (removed: OlsrLink?)
      requires StoreOk()
      modifies this`links, nodes`linkSrc, nodes`outs, nodes`linkDst, nodes`ins
      modifies links`srcNext, links`srcPrev, links`dstNext, links`dstPrev
      ensures StoreOk()
      ensures removed == null ==> links == old(links)
      ensures removed == null ==> GetNode(hash, addrSrc) == null
                                  || forall l :: l in links && l.src == GetNode(hash, addrSrc) ==> l.dst.addr != addrDst
      ensures removed != null ==> removed in old(links) && links == old(links) - {removed}
      ensures removed != null ==> removed.src == GetNode(hash, addrSrc) && removed.dst.addr == addrDst
      ensures removed != null ==> FirstTo(old(removed.src.outs), removed, addrDst)
      ensures removed != null ==> forall n :: n in nodes ==>
                                                && n.outs == (if n == removed.src
                                                              then Without<OlsrLink>(old(n.outs), removed)
                                                              else old(n.outs))
                                                && n.ins == (if n == removed.dst
                                                             then Without<OlsrLink>(old(n.ins), removed)
                                                             else old(n.ins))
    {
      hide Topology.StoreOk, GetNode;
      removed := null;
      var nodeSrc := GetNode(hash, addrSrc);
      if nodeSrc != null {
        KnownNodes(addrSrc);
        removed := FindLink(nodeSrc, addrDst);
        label Found:
        if removed != null {
          DropLink(removed);
          forall n | n in nodes
            ensures n.outs == (if n == removed.src then Without<OlsrLink>(old(n.outs), removed) else old(n.outs))
            ensures n.ins == (if n == removed.dst then Without<OlsrLink>(old(n.ins), removed) else old(n.ins))
          {
            assert old@Found(n.outs) == old(n.outs) && old@Found(n.ins) == old(n.ins);
          }
        }
      }
    }

    /** Walks the out-list of a node to its first link to a main address. */
    method FindLink(node: OlsrNode, addrDst: nat) returns (link: OlsrLink?)
      requires StoreOk() && node in nodes
      ensures link != null ==> link in links && link.src == node && link.dst.addr == addrDst
                               && FirstTo(node.outs, link, addrDst)
      ensures link == null ==> forall l :: l in links && l.src == node ==> l.dst.addr != addrDst
    {
      ListOf(nodes, links, links, node);
      assert ListsOk(node, links, links);
      hide Threaded, HashOk, NodeListOk, MainAddrs;
      link := node.linkSrc;
      ghost var i := 0;
      while link != null && link.dst.addr != addrDst
        invariant 0 <= i <= |node.outs| && link == Nth(node.outs, i)
        invariant forall j :: 0 <= j < i ==> node.outs[j].dst.addr != addrDst
        decreases |node.outs| - i
      {
        i := i + 1;
        link := link.srcNext;
      }
    }

    method DropLink(link: OlsrLink)
      requires StoreOk() && link in links
      modifies this`links, nodes`linkSrc, nodes`outs, nodes`linkDst, nodes`ins
      modifies links`srcNext, links`srcPrev, links`dstNext, links`dstPrev
      ensures StoreOk() && links == old(links) - {link}
      ensures forall n :: n in nodes ==> n.outs == if n == link.src then Without(old(n.outs), link) else old(n.outs)
      ensures forall n :: n in nodes ==> n.ins == if n == link.dst then Without(old(n.ins), link) else old(n.ins)
    {
      hide HashOk, Threaded, NodeListOk;
      UnthreadLink(link, nodes, links);
      links := links - {link};
    }

    /** tc_remove_node: takes out the node that owns addr with its addresses and exactly its incident links, and
        empties the path cache; each of those links is freed once. An unknown address changes nothing. */
    method RemoveNode(addr: nat)
      requires Valid()
      modifies this, paths`next, nodes`addrTab
      modifies nodes`linkSrc, nodes`outs, nodes`linkDst, nodes`ins, links`srcNext, links`srcPrev, links`dstNext,
               links`dstPrev
      ensures Valid()
      ensures old(GetNode(hash, addr)) == null ==>
                && nodeLst == old(nodeLst) && nodes == old(nodes) && hash == old(hash) && links == old(links)
                && pathBuffers == old(pathBuffers) && paths == old(paths)
      ensures old(GetNode(hash, addr)) != null ==>
                && pathBuffers == [] && paths == {} && nodes == old(nodes) - {old(GetNode(hash, addr))}
                && links == NotTouching(old(links), old(GetNode(hash, addr)))
      ensures forall n :: n in nodes ==> n.addrTab == old(n.addrTab)
      ensures old(GetNode(hash, addr)) != null ==>
                var node := old(GetNode(hash, addr));
                && (forall n :: n in nodes ==> ListsLeft(n.outs, old(n.outs), n.ins, old(n.ins), old(node.outs),
                                                         old(node.ins)))
                && ToBeFreed(node, old(links))
    {
      hide Topology.StoreOk, RingsOk, GetNode, ToBeFreed;
      var node := GetNode(hash, addr);
      if node == null {
        return;
      }
      KnownNodes(addr);
      var buff := pathBuffers;
      pathBuffers, paths := [], {};
      EraseNode(node);
      var _ := FreePathBuffer(buff, old(paths));
      NoRingsOk();
    }

    method EraseNode(node: OlsrNode)
      requires StoreOk() && node in nodes
      modifies this`nodeLst, this`hash, this`nodes, this`links, nodes`addrTab
      modifies nodes`linkSrc, nodes`outs, nodes`linkDst, nodes`ins, links`srcNext, links`srcPrev, links`dstNext,
               links`dstPrev
      ensures StoreOk()
      ensures nodes == old(nodes) - {node} && links == NotTouching(old(links), node)
      ensures forall n :: n in nodes ==> n.addrTab == old(n.addrTab)
      ensures forall n :: n in nodes ==> ListsLeft(n.outs, old(n.outs), n.ins, old(n.ins), old(node.outs),
                                                   old(node.ins))
      ensures ToBeFreed(node, old(links))
    {
      hide HashOk, Threaded, NodeListOk, NotTouching, ToBeFreed, EndsOk, ListsLeft, Minus, Without;
      NodeListRemove(nodeLst, nodes, node);
      nodeLst := Without(nodeLst, node);
      hash := RemoveAddrs(node, hash, nodes);
      DetachNode(node, nodes, links);
      EndsRemain(nodes, links, node);
      nodes, links := nodes - {node}, NotTouching(links, node);
    }

    /** tc_add_alias: one more address for a known node, if a slot is free. The graph and the path cache stay as they
        are. The original does not check that the address is new: the store stays right exactly when it is. */
    method AddAlias(addr: nat, alias: nat)
      requires Valid()
      modifies this`hash, nodes`addrTab
      ensures |hash| == HASH_TAB_SIZE
      ensures old(GetNode(hash, addr)) == null ==> hash == old(hash)
      ensures forall n :: n in nodes && n != old(GetNode(hash, addr)) ==> n.addrTab == old(n.addrTab)
      ensures old(GetNode(hash, addr)) != null ==>
                var n := old(GetNode(hash, addr));
                n in nodes && exists pos :: FirstFree(old(n.addrTab), pos)
                                            && n.addrTab == (if pos < 0 then old(n.addrTab)
                                                             else old(n.addrTab)[pos := Some(alias)])
                                            && (Valid() <==> pos < 0 || old(GetNode(hash, alias)) == null)
      ensures old(GetNode(hash, addr)) == null ==> Valid()
    {
      hide Threaded, EndsOk, NodeListOk, RingsOk, HashOk, GetNode, TabOk, FirstFree;
      var node := GetNode(hash, addr);
      if node == null {
        return;
      }
      LookupAgrees(nodes, hash, addr);
      LookupOwner(nodes, hash, alias);
      TabLength(nodes, hash, node);
      var pos;
      pos, hash := AddNodeAddr(node, alias, false, hash, nodes);
      assert nodes + {node} == nodes;
      FreeIsAlias(old(node.addrTab), pos);
    }

    /** tc_remove_alias: takes an alias away from whichever node owns it, if addr is known. A main address goes the same
        way, which breaks the store. */
    method RemoveAlias(addr: nat, alias: nat)
      requires Valid()
      modifies this`hash, nodes`addrTab
      ensures |hash| == HASH_TAB_SIZE
      ensures Valid() <==> old(GetNode(hash, addr)) == null || forall n :: n in nodes ==> n.addr != alias
      ensures old(GetNode(hash, addr)) == null ==> hash == old(hash)
                                                   && forall n :: n in nodes ==> n.addrTab == old(n.addrTab)
      ensures forall n :: n in nodes && n != old(GetNode(hash, alias)) ==> n.addrTab == old(n.addrTab)
      ensures old(GetNode(hash, addr)) != null ==> forall n :: n in nodes ==> !Owns(n, alias)
    {
      hide Threaded, EndsOk, NodeListOk, RingsOk, HashOk, GetNode;
      if GetNode(hash, addr) == null {
        return;
      }
      LookupAgrees(nodes, hash, alias);
      var owner := GetNode(hash, alias);
      if owner != null {
        OnlySlot(nodes, hash, owner, alias);
      }
      var removed, pos;
      hash, removed, pos := RemoveNodeAddr(hash, alias, nodes);
    }

    ghost predicate Valid()
      ensures Valid() ==> |hash| == HASH_TAB_SIZE
      reads this`nodeLst, this`hash, this`nodes, this`links, this`pathBuffers, this`paths
      reads nodes`addrTab, nodes`linkSrc, nodes`outs, nodes`linkDst, nodes`ins
      reads links`srcNext, links`srcPrev, links`dstNext, links`dstPrev
      reads pathBuffers`ring, pathBuffers`lstPath, paths`next
    {
      StoreOk() && RingsOk(pathBuffers, paths)
    }
  }

  ghost function NotTouching(links: set<OlsrLink>, node: OlsrNode): set<OlsrLink> {
    set l | l in links && l.src != node && l.dst != node
  }

  lemma EndsRemain(nodes: set<OlsrNode>, links: set<OlsrLink>, node: OlsrNode)
    requires EndsOk(nodes, links)
    ensures EndsOk(nodes - {node}, NotTouching(links, node))
  {
  }

  lemma NodeListRemove(nodeLst: seq<OlsrNode>, nodes: set<OlsrNode>, n: OlsrNode)
    requires NodeListOk(nodeLst, nodes) && n in nodes
    ensures NodeListOk(Without(nodeLst, n), nodes - {n})
  {
    hide Without;
    WithoutOk(nodeLst, n);
  }

  /** All addresses of a node leave the table. */
  method RemoveAddrs(node: OlsrNode, hash: seq<seq<NodeAddr>>, ghost nodes: set<OlsrNode>)
    returns (table: seq<seq<NodeAddr>>)
    requires HashOk(nodes, hash) && node in nodes
    modifies nodes`addrTab
    ensures |table| == HASH_TAB_SIZE && HashOk(nodes - {node}, table)
    ensures forall n :: n in nodes && n != node ==> n.addrTab == old(n.addrTab)
  {
    table := hash;
    var index := 0;
    while index < MAX_IP_ALIAS_BY_NODE
      invariant 0 <= index <= MAX_IP_ALIAS_BY_NODE
      invariant HashOk(nodes, table)
      invariant forall i :: 0 <= i < index ==> i < |node.addrTab| && node.addrTab[i].None?
      invariant forall n :: n in nodes && n != node ==> n.addrTab == old(n.addrTab)
    {
      table := RemoveAddr(node, index, table, nodes);
      index := index + 1;
    }
    NoAddrsLeft(nodes, table, node);
  }

  method RemoveAddr(node: OlsrNode, index: nat, hash: seq<seq<NodeAddr>>, ghost nodes: set<OlsrNode>)
    returns (table: seq<seq<NodeAddr>>)
    requires HashOk(nodes, hash) && node in nodes && index < MAX_IP_ALIAS_BY_NODE
    modifies nodes`addrTab
    ensures HashOk(nodes, table)
    ensures |node.addrTab| == |old(node.addrTab)| == MAX_IP_ALIAS_BY_NODE
            && node.addrTab == old(node.addrTab)[index := None]
    ensures forall n :: n in nodes && n != node ==> n.addrTab == old(n.addrTab)
  {
    assert TabOk(node, hash);
    table := hash;
    if node.addrTab[index].Some? {
      var addr := node.addrTab[index].value;
      assert Owns(node, addr);
      ghost var was := node.addrTab;
      OnlyOwner(nodes, hash, node, addr, index);
      var owner, pos;
      table, owner, pos := RemoveNodeAddr(hash, addr, nodes);
    }
  }

  /** An address sits in one slot of one node. */
  lemma OnlyOwner(nodes: set<OlsrNode>, hash: seq<seq<NodeAddr>>, node: OlsrNode, addr: nat, index: nat)
    requires HashOk(nodes, hash) && node in nodes && index < |node.addrTab| && node.addrTab[index] == Some(addr)
    ensures forall n :: n in nodes && Owns(n, addr) ==> n == node
    ensures forall i :: 0 <= i < |node.addrTab| && node.addrTab[i] == Some(addr) ==> i == index
  {
    assert Owns(node, addr);
    forall n | n in nodes && Owns(n, addr)
      ensures n == node
    {
      OneOwner(nodes, hash, n, node, addr);
    }
    forall i | 0 <= i < |node.addrTab| && node.addrTab[i] == Some(addr)
      ensures i == index
    {
      assert TabOk(node, hash);
      assert NodeAddr(addr, node, i) in hash[GetHashKey(addr)] && NodeAddr(addr, node, index) in hash[GetHashKey(addr)];
      assert ChainDistinct(hash[GetHashKey(addr)]);
    }
  }

  lemma TabLength(nodes: set<OlsrNode>, hash: seq<seq<NodeAddr>>, node: OlsrNode)
    requires HashOk(nodes, hash) && node in nodes
    ensures |node.addrTab| == MAX_IP_ALIAS_BY_NODE
  {
    assert TabOk(node, hash);
  }

  lemma OnlySlot(nodes: set<OlsrNode>, hash: seq<seq<NodeAddr>>, node: OlsrNode, addr: nat)
    requires HashOk(nodes, hash) && node in nodes && Owns(node, addr)
    ensures forall n :: n in nodes && Owns(n, addr) ==> n == node
    ensures forall i, j :: 0 <= i < j < |node.addrTab| ==>
              node.addrTab[i] != Some(addr) || node.addrTab[j] != Some(addr)
  {
    var pos :| 0 <= pos < |node.addrTab| && node.addrTab[pos] == Some(addr);
    OnlyOwner(nodes, hash, node, addr, pos);
  }

  lemma NoAddrsLeft(nodes: set<OlsrNode>, hash: seq<seq<NodeAddr>>, node: OlsrNode)
    requires HashOk(nodes, hash) && forall i :: 0 <= i < MAX_IP_ALIAS_BY_NODE ==>
                                      i < |node.addrTab| && node.addrTab[i].None?
    requires node in nodes
    ensures HashOk(nodes - {node}, hash)
  {
    assert TabOk(node, hash);
    forall h, e | 0 <= h < |hash| && e in hash[h]
      ensures EntryOk(e, nodes - {node}, h)
    {
      assert EntryOk(e, nodes, h);
    }
  }

  /** The lists of another node lose the links to and from the removed one, and keep their order. */
  ghost predicate ListsLeft(outs: seq<OlsrLink>, outsWas: seq<OlsrLink>, ins: seq<OlsrLink>, insWas: seq<OlsrLink>,
                            nodeOuts: seq<OlsrLink>, nodeIns: seq<OlsrLink>)
  {
    outs == Minus(outsWas, Elements(nodeIns)) && ins == Minus(insWas, Elements(nodeOuts))
  }

  /** Takes all links of a node out of the lists of the other nodes. What is left in its own two lists are its links,
      each once: a link from the node to itself only leaves. */
  method DetachNode(node: OlsrNode, ghost nodes: set<OlsrNode>, ghost links: set<OlsrLink>)
    requires Threaded(nodes, links, links) && EndsOk(nodes, links) && node in nodes
    modifies nodes`linkSrc, nodes`outs, nodes`linkDst, nodes`ins, links`srcNext, links`srcPrev, links`dstNext,
             links`dstPrev
    ensures Threaded(nodes - {node}, NotTouching(links, node), NotTouching(links, node))
    ensures forall n :: n in nodes && n != node ==>
              ListsLeft(n.outs, old(n.outs), n.ins, old(n.ins), old(node.outs), old(node.ins))
    ensures ToBeFreed(node, links)
  {
    hide Threaded, Elements, NotTouching, ToBeFreed, OlsrNode.OutsOk, OlsrNode.InsOk;
    ghost var outs, ins := Elements(node.outs), Elements(node.ins);
    ListsOf(nodes, links, links, node);
    Leaving(nodes, links, node);
    DetachOuts(node, nodes, links);
    ListsOf(nodes, links, links - outs, node);
    DetachIns(node, nodes, links, links - outs);
    ghost var left := Elements(node.ins);
    NarrowLinks(nodes, links, node, outs, left);
    ListsOf(nodes, links - left, links - outs, node);
    FreedOnce(node, links, outs, left);
    forall n | n in nodes && n != node
      ensures ListsLeft(n.outs, old(n.outs), n.ins, old(n.ins), old(node.outs), old(node.ins))
    {
      MinusAgree(old(n.outs), left, ins);
    }
  }

  /** Two sets that agree on a list leave the same of it. */
  lemma {:induction false} MinusAgree(list: seq<OlsrLink>, gone: set<OlsrLink>, gone': set<OlsrLink>)
    requires forall l :: l in list ==> (l in gone <==> l in gone')
    ensures Minus(list, gone) == Minus(list, gone')
    decreases |list|
  {
    if list != [] {
      assert list[0] in list && forall l :: l in list[1..] ==> l in list;
      MinusAgree(list[1..], gone, gone');
    }
  }

  /** What the original frees with a node: its two lists, in which every link that touches it occurs once. */
  ghost predicate ToBeFreed(node: OlsrNode, links: set<OlsrLink>)
    reads node`linkSrc, node`outs, node`linkDst, node`ins, node.outs`srcNext, node.outs`srcPrev, node.ins`dstNext,
          node.ins`dstPrev
  {
    && node.OutsOk() && node.InsOk() && Elements(node.outs) !! Elements(node.ins)
    && Elements(node.outs) + Elements(node.ins) == links - NotTouching(links, node)
  }

  lemma FreedOnce(node: OlsrNode, links: set<OlsrLink>, outs: set<OlsrLink>, left: set<OlsrLink>)
    requires node.OutsOk() && node.InsOk()
    requires outs == (set l | l in links && l.src == node) && left == set l | l in links - outs && l.dst == node
    requires Elements(node.outs) == (set l | l in links - left && l.src == node) && Elements(node.ins) == left
    ensures ToBeFreed(node, links)
  {
    hide OlsrNode.OutsOk, OlsrNode.InsOk, Elements;
  }

  lemma Leaving(nodes: set<OlsrNode>, links: set<OlsrLink>, node: OlsrNode)
    requires Threaded(nodes, links, links)
    ensures forall n, l :: n in nodes && l in n.outs ==> l in links && l.src == n
  {
    forall n, l | n in nodes && l in n.outs
      ensures l in links && l.src == n
    {
      ListOf(nodes, links, links, n);
    }
  }

  lemma ListsOf(nodes: set<OlsrNode>, outLinks: set<OlsrLink>, inLinks: set<OlsrLink>, n: OlsrNode)
    requires Threaded(nodes, outLinks, inLinks) && n in nodes
    ensures n.OutsOk() && n.InsOk()
    ensures (forall l :: l in n.outs ==> l in outLinks) && forall l :: l in n.ins ==> l in inLinks
    ensures Elements(n.outs) == set l | l in outLinks && l.src == n
    ensures Elements(n.ins) == set l | l in inLinks && l.dst == n
  {
    assert ListsOk(n, outLinks, inLinks);
  }

  lemma NarrowLinks(nodes: set<OlsrNode>, links: set<OlsrLink>, node: OlsrNode, outs: set<OlsrLink>,
                    left: set<OlsrLink>)
    requires Threaded(nodes, links - left, links - outs)
    requires outs == (set l | l in links && l.src == node) && left == set l | l in links - outs && l.dst == node
    ensures Threaded(nodes - {node}, NotTouching(links, node), NotTouching(links, node))
  {
    forall n | n in nodes - {node}
      ensures ListsOk(n, NotTouching(links, node), NotTouching(links, node))
    {
      assert ListsOk(n, links - left, links - outs);
    }
  }

  method UnthreadLink(link: OlsrLink, ghost nodes: set<OlsrNode>, ghost links: set<OlsrLink>)
    requires Threaded(nodes, links, links) && link in links && link.src in nodes && link.dst in nodes
    modifies nodes`linkSrc, nodes`outs, nodes`linkDst, nodes`ins
    modifies links`srcNext, links`srcPrev, links`dstNext, links`dstPrev
    ensures Threaded(nodes, links - {link}, links - {link})
    ensures forall n :: n in nodes ==> n.outs == if n == link.src then Without(old(n.outs), link) else old(n.outs)
    ensures forall n :: n in nodes ==> n.ins == if n == link.dst then Without(old(n.ins), link) else old(n.ins)
  {
    hide Threaded;
    ListOf(nodes, links, links, link.dst);
    DropFromIns(link, nodes, links, links);
    ListOf(nodes, links, links - {link}, link.src);
    DropFromOuts(link, nodes, links, links - {link});
  }

  method ThreadLink(link: OlsrLink, ghost nodes: set<OlsrNode>, ghost links: set<OlsrLink>)
    requires Threaded(nodes, links, links) && link !in links && link.src in nodes && link.dst in nodes
    requires link.srcPrev == null && link.dstPrev == null
    modifies nodes`linkSrc, nodes`outs, nodes`linkDst, nodes`ins, links`srcPrev, links`dstPrev
    modifies link`srcNext, link`dstNext
    ensures Threaded(nodes, links + {link}, links + {link})
    ensures forall n :: n in nodes ==> n.outs == if n == link.src then [link] + old(n.outs) else old(n.outs)
    ensures forall n :: n in nodes ==> n.ins == if n == link.dst then [link] + old(n.ins) else old(n.ins)
  {
    ThreadSrc(link, nodes, links);
    ThreadDst(link, nodes, links + {link}, links);
  }

  method ThreadSrc(link: OlsrLink, ghost nodes: set<OlsrNode>, ghost links: set<OlsrLink>)
    requires Threaded(nodes, links, links) && link !in links && link.src in nodes && link.srcPrev == null
    modifies nodes`linkSrc, nodes`outs, links`srcPrev, link`srcNext
    ensures Threaded(nodes, links + {link}, links)
    ensures forall n :: n in nodes ==> n.outs == if n == link.src then [link] + old(n.outs) else old(n.outs)
  {
    assert ListsOk(link.src, links, links);
    PushSrc(link);
    forall n | n in nodes
      ensures ListsOk(n, links + {link}, links)
    {
      assert old(ListsOk(n, links, links));
    }
  }

  method ThreadDst(link: OlsrLink, ghost nodes: set<OlsrNode>, ghost outLinks: set<OlsrLink>,
                   ghost inLinks: set<OlsrLink>)
    requires Threaded(nodes, outLinks, inLinks) && link !in inLinks && link.dst in nodes && link.dstPrev == null
    modifies nodes`linkDst, nodes`ins, inLinks`dstPrev, link`dstNext
    ensures Threaded(nodes, outLinks, inLinks + {link})
    ensures forall n :: n in nodes ==> n.ins == if n == link.dst then [link] + old(n.ins) else old(n.ins)
  {
    assert ListsOk(link.dst, outLinks, inLinks);
    PushDst(link);
    forall n | n in nodes
      ensures ListsOk(n, outLinks, inLinks + {link})
    {
      assert old(ListsOk(n, outLinks, inLinks));
    }
  }

  ghost predicate NodeListOk(nodeLst: seq<OlsrNode>, nodes: set<OlsrNode>) {
    && Distinct(nodeLst)
    && (forall n :: n in nodeLst ==> n in nodes)
    && (forall n :: n in nodes ==> n in nodeLst)
  }

  ghost predicate MainAddrs(nodes: set<OlsrNode>)
    reads nodes`addrTab
  {
    forall n :: n in nodes ==> n.addrTab != [] && n.addrTab[0] == Some(n.addr)
  }

  lemma NodeListAdd(nodeLst: seq<OlsrNode>, nodes: set<OlsrNode>, n: OlsrNode)
    requires NodeListOk(nodeLst, nodes) && n !in nodes
    ensures NodeListOk([n] + nodeLst, nodes + {n})
  {
  }

  /** Links join nodes of the store. */
  ghost predicate EndsOk(nodes: set<OlsrNode>, links: set<OlsrLink>) {
    forall l :: l in links ==> l.src in nodes && l.dst in nodes
  }

  /** Enters the main address of a new node; the new node has no links. */
  method EnterNode(newNode: OlsrNode, hash: seq<seq<NodeAddr>>, ghost nodes: set<OlsrNode>, ghost links: set<OlsrLink>)
    returns (table: seq<seq<NodeAddr>>)
    requires HashOk(nodes, hash) && GetNode(hash, newNode.addr) == null && newNode !in nodes
    requires Threaded(nodes, links, links) && EndsOk(nodes, links)
    requires newNode.linkSrc == null && newNode.linkDst == null && newNode.outs == [] && newNode.ins == []
    requires newNode.addrTab == [None, None, None, None, None]
    modifies newNode`addrTab
    ensures |table| == HASH_TAB_SIZE && HashOk(nodes + {newNode}, table)
    ensures newNode.addrTab == [Some(newNode.addr), None, None, None, None]
    ensures Threaded(nodes + {newNode}, links, links) && EndsOk(nodes + {newNode}, links)
  {
    hide HashOk, Threaded, EndsOk, GetHashKey;
    LookupOwner(nodes, hash, newNode.addr);
    NewNodeUnlinked(nodes, newNode, links);
    var pos;
    pos, table := AddNodeAddr(newNode, newNode.addr, true, hash, nodes);
  }

  lemma NewNodeUnlinked(nodes: set<OlsrNode>, n: OlsrNode, links: set<OlsrLink>)
    requires Threaded(nodes, links, links) && EndsOk(nodes, links) && n !in nodes
    requires n.linkSrc == null && n.linkDst == null && n.outs == [] && n.ins == []
    ensures Threaded(nodes + {n}, links, links) && EndsOk(nodes + {n}, links)
  {
  }

  lemma MainAddrFound(t: Topology, n: OlsrNode)
    requires t.StoreOk() && n in t.nodes
    ensures GetNode(t.hash, n.addr) == n
  {
    assert n.addrTab[0] == Some(n.addr);
    LookupAgrees(t.nodes, t.hash, n.addr);
  }

  /** A node gets the main address of another one as an alias. */
  method AliasTaken() returns (t: Topology)
    ensures !t.Valid()
  {
    hide Topology.StoreOk, RingsOk, GetNode;
    t := new Topology();
    t.KnownNodes(1);
    t.AddNode(1);
    var n := t.nodeLst[0];
    t.AddNode(2);
    MainAddrFound(t, n);
    assert n.addrTab[1].None?;
    if GetNode(t.hash, 2) == null {
      MainAddrFound(t, t.nodeLst[0]);
    }
    t.AddAlias(1, 2);
  }

  /** A node loses its main address. */
  method MainAddrTaken() returns (t: Topology)
    ensures !t.Valid()
  {
    hide Topology.StoreOk, RingsOk, GetNode;
    t := new Topology();
    t.KnownNodes(1);
    t.AddNode(1);
    MainAddrFound(t, t.nodeLst[0]);
    t.RemoveAlias(1, 1);
  }

  lemma NoRingsOk()
    ensures RingsOk([], {})
  {
  }
}
