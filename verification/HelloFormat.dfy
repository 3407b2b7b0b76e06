/** HELLO messages on the wire (section 6.1 of RFC 3626): groups of neighbour addresses under one link code, and the
    parser that reads them back. */
module HelloFormat {
  import opened Common

  type Byte = n: nat | n < 256

  type Addr = a: seq<Byte> | |a| == 4 witness [0, 0, 0, 0]

  const HELLO_MESSAGE: Byte := 1
  const HELLO_HDRSIZE: nat := 16
  const HIDE_LINK: nat := 4
  const MAX_LINK: nat := 4
  const MAX_NEIGH: nat := 2

  /** What a HELLO says about one neighbour. */
  datatype Entry = Entry(address: Addr, link: nat, status: nat)

  /** Neighbours with one status and link, as they are sent. */
  datatype Group = Group(status: nat, link: nat, addrs: seq<Addr>)

  /** The fields that all fragments of one HELLO share. */
  datatype Header = Header(vtime: Byte, originator: Addr, ttl: Byte, htime: Byte, willingness: Byte)

  function Hi(n: nat): Byte {
    n / 256 % 256
  }

  function Lo(n: nat): Byte {
    n % 256
  }

  function Word(hi: Byte, lo: Byte): nat {
    256 * hi + lo
  }

  function LinkCode(status: nat, link: nat): Byte {
    (link + 4 * status) % 256
  }

  function ExtractLink(code: Byte): nat {
    code % 4
  }

  function ExtractStatus(code: Byte): nat {
    code / 4 % 4
  }

  // ---------- Encoding ----------

  function EncodeAddrs(addrs: seq<Addr>): (b: seq<Byte>)
    ensures |b| == 4 * |addrs|
  {
    if addrs == [] then [] else EncodeAddrs(addrs[..|addrs| - 1]) + addrs[|addrs| - 1]
  }

  function EncodeGroup(g: Group): (b: seq<Byte>)
    ensures |b| == 4 + 4 * |g.addrs|
  {
    var size := 4 + 4 * |g.addrs|;
    [LinkCode(g.status, g.link), 0, Hi(size), Lo(size)] + EncodeAddrs(g.addrs)
  }

  function EncodeGroups(groups: seq<Group>): seq<Byte> {
    if groups == [] then [] else EncodeGroups(groups[..|groups| - 1]) + EncodeGroup(groups[|groups| - 1])
  }

  function EncodeHeader(h: Header, seqno: nat, size: nat): (b: seq<Byte>)
    ensures |b| == HELLO_HDRSIZE
  {
    [HELLO_MESSAGE, h.vtime, Hi(size), Lo(size)] + h.originator
    + [h.ttl, 0, Hi(seqno), Lo(seqno)] + [0, 0, h.htime, h.willingness]
  }

  function EncodeMessage(h: Header, seqno: nat, groups: seq<Group>): seq<Byte> {
    var body := EncodeGroups(groups);
    EncodeHeader(h, seqno, HELLO_HDRSIZE + |body|) + body
  }

  // ---------- Entries ----------

  function GroupEntries(g: Group): (e: seq<Entry>)
    ensures |e| == |g.addrs|
    decreases |g.addrs|
  {
    if g.addrs == [] then []
    else GroupEntries(g.(addrs := g.addrs[..|g.addrs| - 1])) + [Entry(g.addrs[|g.addrs| - 1], g.link, g.status)]
  }

  function Entries(groups: seq<Group>): seq<Entry> {
    if groups == [] then [] else Entries(groups[..|groups| - 1]) + GroupEntries(groups[|groups| - 1])
  }

  function Reverse<T>(s: seq<T>): (r: seq<T>)
    ensures |r| == |s| && forall i :: 0 <= i < |s| ==> r[i] == s[|s| - 1 - i]
  {
    if s == [] then [] else [s[|s| - 1]] + Reverse(s[..|s| - 1])
  }

  lemma ReverseMultiset<T>(s: seq<T>)
    ensures multiset(Reverse(s)) == multiset(s)
  {
    if s != [] {
      ReverseMultiset(s[..|s| - 1]);
      assert s == s[..|s| - 1] + [s[|s| - 1]];
    }
  }

  // ---------- The parser ----------

  /** The inner loop: addresses up to limit2, each put in front of the list. None when the message ends too early. */
  function ParseAddrs(ser: seq<Byte>, curr: nat, limit2: nat, code: Byte,
                      neighbors: seq<Entry>): (r: Option<(nat, seq<Entry>)>)
    ensures r.Some? ==> r.value.0 >= curr
    decreases |ser| - curr
  {
    if curr >= limit2 then Some((curr, neighbors))
    else if curr + 4 > |ser| then None
    else ParseAddrs(ser, curr + 4, limit2, code,
                    [Entry(ser[curr..curr + 4], ExtractLink(code), ExtractStatus(code))] + neighbors)
  }

  /** The outer loop over the groups. */
  function ParseGroups(ser: seq<Byte>, curr: nat, limit: nat, neighbors: seq<Entry>): Option<seq<Entry>>
    decreases |ser| - curr
  {
    if curr >= limit then Some(neighbors)
    else if curr + 4 > |ser| then None
    else
      var r := ParseAddrs(ser, curr + 4, curr + Word(ser[curr + 2], ser[curr + 3]), ser[curr], neighbors);
      if r.None? then None else ParseGroups(ser, r.value.0, limit, r.value.1)
  }

  datatype Hello = Hello(header: Header, seqno: nat, neighbors: seq<Entry>)

  /** What the parser makes of a message; None if it is no HELLO or ends too early. */
  function ParseMessage(ser: seq<Byte>): Option<Hello> {
    if |ser| < HELLO_HDRSIZE || ser[0] != HELLO_MESSAGE then None
    else
      var r := ParseGroups(ser, HELLO_HDRSIZE, Word(ser[2], ser[3]), []);
      if r.None? then None
      else Some(Hello(Header(ser[1], ser[4..8], ser[8], ser[14], ser[15]), Word(ser[10], ser[11]), r.value))
  }

  // ---------- The bytes ----------

  // What a message says, byte by byte.

  function BigEndian(ser: seq<Byte>, at: nat): nat
    requires at + 2 <= |ser|
  {
    256 * (ser[at] as nat) + ser[at + 1] as nat
  }

  /** How many addresses a group of this size has: one for every four bytes begun behind its first four. */
  function Slots(size: nat): nat {
    if size == 0 then 0 else (size - 1) / 4
  }

  /** Of the groups that follow each other from here on, one starts there. */
  ghost predicate StartsAt(ser: seq<Byte>, from: nat, at: nat)
    decreases at - from
  {
    from == at
    || (from < at && from + 4 <= |ser| && StartsAt(ser, from + 4 + 4 * Slots(BigEndian(ser, from + 2)), at))
  }

  /** One of the groups from here up to the limit starts there, and has an address k. */
  ghost predicate SlotFrom(ser: seq<Byte>, from: nat, limit: nat, at: nat, k: nat) {
    && StartsAt(ser, from, at) && at < limit && at + 4 <= |ser|
    && k < Slots(BigEndian(ser, at + 2)) && at + 8 + 4 * k <= |ser|
  }

  /** One of the groups of the message starts there, and has an address k. */
  ghost predicate Slot(ser: seq<Byte>, at: nat, k: nat) {
    16 <= |ser| && SlotFrom(ser, 16, BigEndian(ser, 2), at, k)
  }

  /** What the message says about address k of the group that starts there. */
  function EntryAt(ser: seq<Byte>, at: nat, k: nat): Entry
    requires at + 8 + 4 * k <= |ser|
  {
    Entry(ser[at + 4 + 4 * k..at + 8 + 4 * k], ser[at] % 4, ser[at] / 4 % 4)
  }

  /** What the parser makes of the addresses of a group, from number k on. */
  lemma {:induction false} AddrsExactly(ser: seq<Byte>, at: nat, size: nat, k: nat, before: seq<Entry>, e: Entry)
    requires at + 4 <= |ser| && k <= Slots(size)
             && ParseAddrs(ser, at + 4 + 4 * k, at + size, ser[at], before).Some?
    ensures var r := ParseAddrs(ser, at + 4 + 4 * k, at + size, ser[at], before).value;
            && r.0 == at + 4 + 4 * Slots(size) && (k < Slots(size) ==> r.0 <= |ser|)
            && (e in r.1 <==> e in before || exists j :: k <= j < Slots(size) && e == EntryAt(ser, at, j))
    decreases Slots(size) - k
  {
    if k < Slots(size) {
      AddrsExactly(ser, at, size, k + 1, [EntryAt(ser, at, k)] + before, e);
    }
  }

  lemma NextSlots(ser: seq<Byte>, from: nat, limit: nat, at: nat, k: nat)
    requires from < limit && from + 4 <= |ser|
    ensures var size := BigEndian(ser, from + 2);
            SlotFrom(ser, from, limit, at, k) <==>
            (at == from && k < Slots(size) && from + 8 + 4 * k <= |ser|)
            || SlotFrom(ser, from + 4 + 4 * Slots(size), limit, at, k)
  {
    StartsBehind(ser, from + 4 + 4 * Slots(BigEndian(ser, from + 2)), at);
  }

  lemma StartsBehind(ser: seq<Byte>, from: nat, at: nat)
    ensures StartsAt(ser, from, at) ==> from <= at
  {
  }

  lemma {:induction false} GroupsExactly(ser: seq<Byte>, from: nat, limit: nat, before: seq<Entry>, e: Entry)
    requires ParseGroups(ser, from, limit, before).Some?
    ensures e in ParseGroups(ser, from, limit, before).value <==>
            e in before || exists at: nat, k: nat :: SlotFrom(ser, from, limit, at, k) && e == EntryAt(ser, at, k)
    decreases |ser| - from
  {
    if from < limit {
      hide ParseAddrs, Slots, StartsAt;
      var size := BigEndian(ser, from + 2);
      var r := ParseAddrs(ser, from + 4, from + Word(ser[from + 2], ser[from + 3]), ser[from], before).value;
      AddrsExactly(ser, from, size, 0, before, e);
      GroupsExactly(ser, r.0, limit, r.1, e);
      forall at: nat, k: nat
        ensures SlotFrom(ser, from, limit, at, k) <==>
                (at == from && k < Slots(size) && from + 8 + 4 * k <= |ser|) || SlotFrom(ser, r.0, limit, at, k)
      {
        NextSlots(ser, from, limit, at, k);
      }
    }
  }

  /** The bytes end inside the group that starts there. */
  predicate EndsInside(ser: seq<Byte>, at: nat) {
    at + 4 > |ser| || at + 4 + 4 * Slots(BigEndian(ser, at + 2)) > |ser|
  }

  /** One of the groups that follow is not there as a whole. */
  ghost predicate CutFrom(ser: seq<Byte>, from: nat, limit: nat, at: nat) {
    StartsAt(ser, from, at) && at < limit && EndsInside(ser, at)
  }

  lemma {:induction false} AddrsCut(ser: seq<Byte>, at: nat, size: nat, k: nat, before: seq<Entry>)
    requires at + 4 + 4 * k <= |ser| && k <= Slots(size)
    ensures ParseAddrs(ser, at + 4 + 4 * k, at + size, ser[at], before).None? <==> at + 4 + 4 * Slots(size) > |ser|
    decreases Slots(size) - k
  {
    if k < Slots(size) && at + 8 + 4 * k <= |ser| {
      AddrsCut(ser, at, size, k + 1, [EntryAt(ser, at, k)] + before);
    }
  }

  lemma {:induction false} GroupsCut(ser: seq<Byte>, from: nat, limit: nat, before: seq<Entry>)
    ensures ParseGroups(ser, from, limit, before).None? <==> exists at: nat :: CutFrom(ser, from, limit, at)
    decreases |ser| - from
  {
    if from >= limit {
      forall at: nat
        ensures !CutFrom(ser, from, limit, at)
      {
        StartsBehind(ser, from, at);
      }
    } else if from + 4 > |ser| {
      assert CutFrom(ser, from, limit, from);
    } else {
      var size := BigEndian(ser, from + 2);
      AddrsCut(ser, from, size, 0, before);
      if from + 4 + 4 * Slots(size) > |ser| {
        assert CutFrom(ser, from, limit, from);
      } else {
        hide ParseAddrs, Slots;
        var r := ParseAddrs(ser, from + 4, from + size, ser[from], before).value;
        AddrsExactly(ser, from, size, 0, before, Entry(ser[from..from + 4], 0, 0));
        GroupsCut(ser, r.0, limit, r.1);
        forall at: nat
          ensures CutFrom(ser, from, limit, at) <==> CutFrom(ser, r.0, limit, at)
        {
          StartsBehind(ser, r.0, at);
        }
      }
    }
  }

  /** Nothing is parsed exactly if this is no HELLO or the bytes end within a header or a group. */
  lemma ParseFailsIff(ser: seq<Byte>)
    ensures ParseMessage(ser).None? <==>
            |ser| < 16 || ser[0] != 1
            || exists at: nat :: StartsAt(ser, 16, at) && at < BigEndian(ser, 2) && EndsInside(ser, at)
  {
    hide ParseGroups, Slots, StartsAt;
    if |ser| >= 16 && ser[0] == 1 {
      GroupsCut(ser, 16, BigEndian(ser, 2), []);
      forall at: nat
        ensures CutFrom(ser, 16, BigEndian(ser, 2), at) <==> StartsAt(ser, 16, at) && at < BigEndian(ser, 2)
                                                             && EndsInside(ser, at)
      {
      }
    }
  }

  /** The parser finds what the bytes say: the header field by field, and an entry for every address of every group,
      with the link in the two lowest bits of the first byte of the group and the status in the next two. */
  lemma ParsedExactly(ser: seq<Byte>)
    requires ParseMessage(ser).Some?
    ensures var hello := ParseMessage(ser).value;
            && 16 <= |ser| && ser[0] == 1
            && hello.header == Header(ser[1], ser[4..8], ser[8], ser[14], ser[15])
            && hello.seqno == 256 * (ser[10] as nat) + ser[11] as nat
            && forall e :: e in hello.neighbors <==>
                           exists at: nat, k: nat :: Slot(ser, at, k)
                                           && e == Entry(ser[at + 4 + 4 * k..at + 8 + 4 * k], ser[at] % 4,
                                                         ser[at] / 4 % 4)
  {
    var neighbors := ParseMessage(ser).value.neighbors;
    hide ParseMessage, ParseGroups, Slots, StartsAt;
    forall e
      ensures e in neighbors <==> exists at: nat, k: nat :: Slot(ser, at, k) && e == EntryAt(ser, at, k)
    {
      WholeMessage(ser, e);
    }
  }

  lemma WholeMessage(ser: seq<Byte>, e: Entry)
    requires ParseMessage(ser).Some?
    ensures e in ParseMessage(ser).value.neighbors <==>
            exists at: nat, k: nat :: Slot(ser, at, k) && e == EntryAt(ser, at, k)
  {
    hide ParseGroups, Slots, StartsAt;
    GroupsExactly(ser, 16, BigEndian(ser, 2), [], e);
    forall at: nat, k: nat
      ensures Slot(ser, at, k) <==> SlotFrom(ser, 16, BigEndian(ser, 2), at, k)
    {
    }
  }

  /** deserialize_hello. */
  method DeserializeHello(ser: seq<Byte>) returns (hello: Option<Hello>)
    ensures hello == ParseMessage(ser)
    ensures hello.Some? ==>
              && 16 <= |ser| && hello.value.header == Header(ser[1], ser[4..8], ser[8], ser[14], ser[15])
              && forall e :: e in hello.value.neighbors <==>
                             exists at: nat, k: nat :: Slot(ser, at, k)
                                                       && e == Entry(ser[at + 4 + 4 * k..at + 8 + 4 * k], ser[at] % 4,
                                                                     ser[at] / 4 % 4)
  {
    if ParseMessage(ser).Some? {
      ParsedExactly(ser);
    }
    hide Slot;
    if |ser| < HELLO_HDRSIZE || ser[0] != HELLO_MESSAGE {
      return None;
    }
    var limit := Word(ser[2], ser[3]);
    var curr := HELLO_HDRSIZE;
    var neighbors: seq<Entry> := [];
    while curr < limit
      invariant ParseGroups(ser, HELLO_HDRSIZE, limit, []) == ParseGroups(ser, curr, limit, neighbors)
      decreases limit - curr
    {
      if curr + 4 > |ser| {
        return None;
      }
      var code := ser[curr];
      var limit2 := curr + Word(ser[curr + 2], ser[curr + 3]);
      ghost var start, before := curr + 4, neighbors;
      curr := curr + 4;
      while curr < limit2
        invariant start <= curr
        invariant ParseAddrs(ser, start, limit2, code, before) == ParseAddrs(ser, curr, limit2, code, neighbors)
        decreases limit2 - curr
      {
        if curr + 4 > |ser| {
          return None;
        }
        neighbors := [Entry(ser[curr..curr + 4], ExtractLink(code), ExtractStatus(code))] + neighbors;
        curr := curr + 4;
      }
    }
    hello := Some(Hello(Header(ser[1], ser[4..8], ser[8], ser[14], ser[15]), Word(ser[10], ser[11]), neighbors));
  }

  // ---------- The bytes of an encoded message ----------

  /** The header, byte by byte. */
  lemma HeaderBytes(h: Header, seqno: nat, groups: seq<Group>)
    requires HELLO_HDRSIZE + |EncodeGroups(groups)| < 65536 && seqno < 65536
    ensures var m := EncodeMessage(h, seqno, groups);
            && 16 <= |m| && m[0] == 1 && m[1] == h.vtime && 256 * (m[2] as nat) + m[3] as nat == |m|
            && m[4..8] == h.originator && m[8] == h.ttl && m[9] == 0
            && 256 * (m[10] as nat) + m[11] as nat == seqno
            && m[12] == m[13] == 0 && m[14] == h.htime && m[15] == h.willingness
  {
    hide EncodeGroups;
    var m, head := EncodeMessage(h, seqno, groups), EncodeHeader(h, seqno, HELLO_HDRSIZE + |EncodeGroups(groups)|);
    assert forall i :: 0 <= i < HELLO_HDRSIZE ==> m[i] == head[i];
  }

  /** A group: its first byte has the link in the lowest two bits and the status in the next two, then come a zero, the
      size and the addresses. */
  lemma GroupLayout(g: Group)
    requires CodeOk(g) && 4 + 4 * |g.addrs| < 65536
    ensures var b := EncodeGroup(g);
            && b[0] < 16 && b[0] % 4 == g.link && b[0] / 4 == g.status && b[1] == 0
            && 256 * (b[2] as nat) + b[3] as nat == |b| == 4 + 4 * |g.addrs|
            && forall k :: 0 <= k < |g.addrs| ==> b[4 + 4 * k..8 + 4 * k] == g.addrs[k]
  {
    hide EncodeAddrs;
    var b := EncodeGroup(g);
    forall k | 0 <= k < |g.addrs|
      ensures b[4 + 4 * k..8 + 4 * k] == g.addrs[k]
    {
      AddrAt(g.addrs, k);
      assert b[4 + 4 * k..8 + 4 * k] == EncodeAddrs(g.addrs)[4 * k..4 * k + 4];
    }
  }

  lemma {:induction false} StartsNext(ser: seq<Byte>, from: nat, at: nat)
    requires StartsAt(ser, from, at) && at + 4 <= |ser|
    ensures StartsAt(ser, from, at + 4 + 4 * Slots(BigEndian(ser, at + 2)))
    decreases at - from
  {
    hide Slots;
    if from < at {
      StartsNext(ser, from + 4 + 4 * Slots(BigEndian(ser, from + 2)), at);
    }
  }

  /** A group that starts and is there is followed by the next start. */
  lemma StartsBehindGroup(m: seq<Byte>, at: nat, g: Group)
    requires CodeOk(g) && StartsAt(m, 16, at) && at + |EncodeGroup(g)| <= |m| < 65536
             && m[at..at + |EncodeGroup(g)|] == EncodeGroup(g)
    ensures StartsAt(m, 16, at + |EncodeGroup(g)|)
  {
    hide EncodeGroup, StartsAt, Slots;
    GroupLayout(g);
    var b := m[at..at + |EncodeGroup(g)|];
    assert m[at + 2] == b[2] && m[at + 3] == b[3];
    StartsNext(m, 16, at);
    SlotsOf(|g.addrs|);
  }

  lemma GroupInMessage(h: Header, seqno: nat, groups: seq<Group>, g: nat)
    requires g < |groups|
    ensures var m, at, b := EncodeMessage(h, seqno, groups), 16 + |EncodeGroups(groups[..g])|, EncodeGroup(groups[g]);
            at + |b| <= |m| && m[at..at + |b|] == b
  {
    hide EncodeGroup, EncodeGroups, EncodeHeader;
    var m, at, b := EncodeMessage(h, seqno, groups), 16 + |EncodeGroups(groups[..g])|, EncodeGroup(groups[g]);
    GroupAt(groups, g);
    assert m[16..] == EncodeGroups(groups);
    Subslice(m, 16, at, |b|);
  }

  /** The groups follow each other behind the header. */
  lemma {:induction false} GroupStarts(h: Header, seqno: nat, groups: seq<Group>, g: nat)
    requires HELLO_HDRSIZE + |EncodeGroups(groups)| < 65536 && g < |groups|
             && forall i :: 0 <= i < |groups| ==> CodeOk(groups[i])
    ensures var m, at, b := EncodeMessage(h, seqno, groups), 16 + |EncodeGroups(groups[..g])|, EncodeGroup(groups[g]);
            StartsAt(m, 16, at) && at + |b| <= |m| && m[at..at + |b|] == b
    decreases g
  {
    hide EncodeGroup, EncodeGroups, EncodeHeader, CodeOk;
    GroupInMessage(h, seqno, groups, g);
    if g == 0 {
      NoGroups(groups);
    } else {
      var last := 16 + |EncodeGroups(groups[..g - 1])|;
      GroupStarts(h, seqno, groups, g - 1);
      GroupsPrefix(groups, g - 1);
      StartsBehindGroup(EncodeMessage(h, seqno, groups), last, groups[g - 1]);
    }
  }

  lemma SlotsOf(n: nat)
    ensures Slots(4 + 4 * n) == n
  {
  }

  // ---------- Round trip ----------

  predicate CodeOk(g: Group) {
    g.status <= 3 && g.link <= 3
  }

  lemma CodeRoundTrip(status: nat, link: nat)
    requires status <= 3 && link <= 3
    ensures ExtractStatus(LinkCode(status, link)) == status && ExtractLink(LinkCode(status, link)) == link
  {
  }

  lemma WordRoundTrip(n: nat)
    requires n < 65536
    ensures Word(Hi(n), Lo(n)) == n
  {
  }

  lemma {:induction false} AddrAt(addrs: seq<Addr>, k: nat)
    requires k < |addrs|
    ensures EncodeAddrs(addrs)[4 * k..4 * k + 4] == addrs[k]
    decreases |addrs|
  {
    var rest := addrs[..|addrs| - 1];
    if k < |addrs| - 1 {
      AddrAt(rest, k);
      assert EncodeAddrs(addrs)[4 * k..4 * k + 4] == EncodeAddrs(rest)[4 * k..4 * k + 4];
    }
  }

  /** The entries of the first k addresses of a group. */
  function FirstEntries(g: Group, k: nat): seq<Entry>
    requires k <= |g.addrs|
  {
    GroupEntries(g.(addrs := g.addrs[..k]))
  }

  lemma FirstEntriesStep(g: Group, k: nat)
    requires k < |g.addrs|
    ensures FirstEntries(g, k + 1) == FirstEntries(g, k) + [Entry(g.addrs[k], g.link, g.status)]
  {
    assert g.addrs[..k + 1][..k] == g.addrs[..k];
  }

  lemma ReverseAppend<T>(s: seq<T>, x: T)
    ensures Reverse(s + [x]) == [x] + Reverse(s)
  {
    assert (s + [x])[..|s|] == s;
  }

  /** The parser reads the addresses of one group, last one first. */
  lemma {:induction false} AddrsParse(ser: seq<Byte>, at: nat, g: Group, k: nat, before: seq<Entry>)
    requires k <= |g.addrs| && CodeOk(g) && at + 4 * |g.addrs| <= |ser|
             && ser[at..at + 4 * |g.addrs|] == EncodeAddrs(g.addrs)
    ensures ParseAddrs(ser, at + 4 * k, at + 4 * |g.addrs|, LinkCode(g.status, g.link),
                       Reverse(before + FirstEntries(g, k)))
            == Some((at + 4 * |g.addrs|, Reverse(before + GroupEntries(g))))
    decreases |g.addrs| - k
  {
    hide Reverse, EncodeAddrs, LinkCode, ExtractStatus, ExtractLink;
    if k == |g.addrs| {
      assert g.(addrs := g.addrs[..k]) == g;
    } else {
      AddrAt(g.addrs, k);
      var curr := at + 4 * k;
      assert ser[curr..curr + 4] == ser[at..at + 4 * |g.addrs|][4 * k..4 * k + 4];
      CodeRoundTrip(g.status, g.link);
      FirstEntriesStep(g, k);
      var e := Entry(g.addrs[k], g.link, g.status);
      assert before + FirstEntries(g, k + 1) == (before + FirstEntries(g, k)) + [e];
      ReverseAppend(before + FirstEntries(g, k), e);
      AddrsParse(ser, at, g, k + 1, before);
    }
  }

  lemma GroupsPrefix(groups: seq<Group>, g: nat)
    requires g < |groups|
    ensures EncodeGroups(groups[..g + 1]) == EncodeGroups(groups[..g]) + EncodeGroup(groups[g])
    ensures Entries(groups[..g + 1]) == Entries(groups[..g]) + GroupEntries(groups[g])
  {
    assert groups[..g + 1][..g] == groups[..g];
  }

  /** Where group g starts, its bytes follow. */
  lemma {:induction false} GroupAt(groups: seq<Group>, g: nat)
    requires g < |groups|
    ensures var start, size := |EncodeGroups(groups[..g])|, |EncodeGroup(groups[g])|;
            start + size <= |EncodeGroups(groups)|
              && EncodeGroups(groups)[start..start + size] == EncodeGroup(groups[g])
    decreases |groups|
  {
    hide EncodeGroup;
    var last := |groups| - 1;
    if g < last {
      GroupAt(groups[..last], g);
      assert groups[..last][..g] == groups[..g];
      var start, size := |EncodeGroups(groups[..g])|, |EncodeGroup(groups[g])|;
      assert EncodeGroups(groups)[start..start + size] == EncodeGroups(groups[..last])[start..start + size];
    }
  }

  /** One group: its header and its addresses. */
  lemma GroupParse(ser: seq<Byte>, at: nat, g: Group, before: seq<Entry>)
    requires CodeOk(g) && at + |EncodeGroup(g)| <= |ser| < 65536 && ser[at..at + |EncodeGroup(g)|] == EncodeGroup(g)
    ensures Word(ser[at + 2], ser[at + 3]) == |EncodeGroup(g)| && ser[at] == LinkCode(g.status, g.link)
    ensures ParseAddrs(ser, at + 4, at + |EncodeGroup(g)|, ser[at], Reverse(before))
            == Some((at + |EncodeGroup(g)|, Reverse(before + GroupEntries(g))))
  {
    hide EncodeAddrs, Hi, Lo, Word, LinkCode, ParseAddrs, Reverse;
    var enc, size := EncodeGroup(g), 4 + 4 * |g.addrs|;
    var here := ser[at..at + size];
    assert ser[at] == here[0] && ser[at + 2] == here[2] && ser[at + 3] == here[3];
    WordRoundTrip(size);
    assert ser[at + 4..at + 4 + 4 * |g.addrs|] == enc[4..];
    assert FirstEntries(g, 0) == [] && before + [] == before;
    AddrsParse(ser, at + 4, g, 0, before);
  }

  lemma Subslice(s: seq<Byte>, from: nat, at: nat, size: nat)
    requires from <= at && at + size <= |s|
    ensures s[at..at + size] == s[from..][at - from..at - from + size]
  {
  }

  /** The parser reads the groups, last one first. */
  lemma {:induction false} GroupsParse(ser: seq<Byte>, groups: seq<Group>, g: nat)
    requires g <= |groups| && HELLO_HDRSIZE <= |ser| < 65536 && ser[HELLO_HDRSIZE..] == EncodeGroups(groups)
    requires forall i :: 0 <= i < |groups| ==> CodeOk(groups[i])
    ensures ParseGroups(ser, HELLO_HDRSIZE + |EncodeGroups(groups[..g])|, |ser|, Reverse(Entries(groups[..g])))
            == Some(Reverse(Entries(groups)))
    decreases |groups| - g
  {
    hide EncodeGroup, EncodeGroups, Entries, GroupEntries, ParseAddrs, Reverse, CodeOk, Word;
    if g == |groups| {
      assert groups[..g] == groups;
    } else {
      var at, size := HELLO_HDRSIZE + |EncodeGroups(groups[..g])|, |EncodeGroup(groups[g])|;
      GroupAt(groups, g);
      GroupsPrefix(groups, g);
      Subslice(ser, HELLO_HDRSIZE, at, size);
      GroupParse(ser, at, groups[g], Entries(groups[..g]));
      GroupSize(groups[g]);
      GroupsParse(ser, groups, g + 1);
    }
  }

  lemma GroupSize(g: Group)
    ensures |EncodeGroup(g)| >= 4
  {
  }

  /** Parsing undoes encoding: the fields come back, and the entries in reverse order. */
  lemma MessageRoundTrip(h: Header, seqno: nat, groups: seq<Group>)
    requires HELLO_HDRSIZE + |EncodeGroups(groups)| < 65536 && seqno < 65536
             && forall i :: 0 <= i < |groups| ==> CodeOk(groups[i])
    ensures ParseMessage(EncodeMessage(h, seqno, groups)) == Some(Hello(h, seqno, Reverse(Entries(groups))))
  {
    hide EncodeGroups, Entries, ParseGroups, Hi, Lo, Word, CodeOk, Reverse;
    var ser := EncodeMessage(h, seqno, groups);
    var size := HELLO_HDRSIZE + |EncodeGroups(groups)|;
    var head := EncodeHeader(h, seqno, size);
    assert forall i :: 0 <= i < HELLO_HDRSIZE ==> ser[i] == head[i];
    assert ser[4..8] == h.originator;
    assert ser[HELLO_HDRSIZE..] == EncodeGroups(groups);
    WordRoundTrip(size);
    WordRoundTrip(seqno);
    NoGroups(groups);
    GroupsParse(ser, groups, 0);
  }

  lemma NoGroups(groups: seq<Group>)
    ensures EncodeGroups(groups[..0]) == [] && Reverse(Entries(groups[..0])) == []
  {
  }
}
