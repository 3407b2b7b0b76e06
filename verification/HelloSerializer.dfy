/** Building a HELLO: neighbours grouped by status and link, written into a message buffer, and cut into several
    messages when the output buffer runs full. */
module HelloSerializer {
  import opened Common
  import opened HelloFormat

  const MAXMESSAGESIZE: nat := 1500
  const OLSR_HEADERSIZE: nat := 4
  const UDP_IPV4_HDRSIZE: nat := 28
  const MSG_BUFFER_SIZE: nat := MAXMESSAGESIZE - OLSR_HEADERSIZE

  // ---------- The output buffer ----------

  function Concat<T>(parts: seq<seq<T>>): seq<T> {
    if parts == [] then [] else Concat(parts[..|parts| - 1]) + parts[|parts| - 1]
  }

  lemma ConcatOneMore<T>(parts: seq<seq<T>>, last: seq<T>)
    ensures Concat(parts + [last]) == Concat(parts) + last
  {
    assert (parts + [last])[..|parts|] == parts;
  }

  /** The output buffer of an interface, and the message counter. */
  class Output {
    const maxsize: nat
    var buff: seq<Byte>                       // pending bytes
    var packets: seq<seq<Byte>>               // what has been sent
    var msgSeqno: nat
    ghost var pushed: seq<seq<Byte>>          // every message that went into the buffer
    ghost var sent: seq<seq<seq<Byte>>>       // the messages of every packet
    ghost var pending: seq<seq<Byte>>         // the messages in the buffer

    constructor (maxsize: nat)
      ensures Valid() && this.maxsize == maxsize && buff == [] && packets == [] && pushed == [] && msgSeqno == 0
    {
      this.maxsize, buff, packets, msgSeqno, pushed, sent, pending := maxsize, [], [], 0, [], [], [];
    }

    /** No message is lost or cut: what was pushed is sent or pending, in order, and packets hold whole messages. */
    ghost predicate Valid()
      reads this
    {
      && |buff| <= maxsize && msgSeqno < 65536
      && (forall i :: 0 <= i < |packets| ==> |packets[i]| <= maxsize)
      && |sent| == |packets| && (forall i :: 0 <= i < |packets| ==> packets[i] == Concat(sent[i]))
      && buff == Concat(pending) && pushed == Concat(sent) + pending
    }

    /** net_outbuffer_bytes_left. */
    function BytesLeft(): (left: nat)
      requires Valid()
      reads this
      ensures left + |buff| == maxsize
    {
      maxsize - |buff|
    }

    /** net_outbuffer_push: all of the data or nothing. */
    method Push(data: seq<Byte>) returns (added: nat)
      requires Valid()
      modifies this`buff, this`pushed, this`pending
      ensures Valid()
      ensures |data| > old(BytesLeft()) ==> added == 0 && buff == old(buff) && pushed == old(pushed)
      ensures |data| <= old(BytesLeft()) ==> added == |data| && buff == old(buff) + data
                                             && pushed == old(pushed) + [data]
    {
      if |buff| + |data| > maxsize {
        return 0;
      }
      buff := buff + data;
      added := |data|;
      ConcatOneMore(pending, data);
      pushed, pending := pushed + [data], pending + [data];
    }

    /** net_output: sends what is pending. */
    method Flush()
      requires Valid()
      modifies this`buff, this`packets, this`sent, this`pending
      ensures Valid() && buff == [] && packets == old(packets) + if old(buff) == [] then [] else [old(buff)]
      ensures old(buff) != [] ==> pending == []
      ensures old(buff) == [] ==> pending == old(pending)
    {
      if buff != [] {
        packets := packets + [buff];
        buff := [];
        ConcatOneMore(sent, pending);
        sent, pending := sent + [pending], [];
      }
    }

    /** get_msg_seqno. */
    method NextSeqno() returns (seqno: nat)
      requires Valid()
      modifies this`msgSeqno
      ensures Valid() && seqno == old(msgSeqno) && msgSeqno == (seqno + 1) % 65536
    {
      seqno := msgSeqno;
      msgSeqno := (msgSeqno + 1) % 65536;
    }
  }

  // ---------- What is to be sent ----------

  predicate Wanted(nb: Entry, i: nat, j: nat) {
    nb.status == i && nb.link == j && j != HIDE_LINK
  }

  /** The entries that the loops have added before they reach neighbour k for status i and link j. */
  function Emitted(nbs: seq<Entry>, i: nat, j: nat, k: nat): seq<Entry>
    requires k <= |nbs|
    decreases i, j, k
  {
    if k > 0 then Emitted(nbs, i, j, k - 1) + if Wanted(nbs[k - 1], i, j) then [nbs[k - 1]] else []
    else if j > 0 then Emitted(nbs, i, j - 1, |nbs|)
    else if i > 0 then Emitted(nbs, i - 1, MAX_LINK + 1, 0)
    else []
  }

  /** Neighbours that a HELLO can carry. */
  predicate Sendable(nb: Entry) {
    nb.status <= MAX_NEIGH && nb.link <= MAX_LINK && nb.link != HIDE_LINK
  }

  function SendableOf(nbs: seq<Entry>): seq<Entry> {
    if nbs == [] then []
    else SendableOf(nbs[..|nbs| - 1]) + if Sendable(nbs[|nbs| - 1]) then [nbs[|nbs| - 1]] else []
  }

  predicate Earlier(e: Entry, i: nat, j: nat) {
    e.link != HIDE_LINK && e.link <= MAX_LINK && (e.status < i || (e.status == i && e.link < j))
  }

  lemma CountAppend(s: seq<Entry>, x: Entry, e: Entry)
    ensures multiset(s + [x])[e] == multiset(s)[e] + if x == e then 1 else 0
  {
  }

  lemma CountStep(added: seq<Entry>, seen: seq<Entry>, nb: Entry, i: nat, j: nat, e: Entry)
    requires Wanted(e, i, j) ==> multiset(added)[e] == multiset(seen)[e]
    ensures var more := added + if Wanted(nb, i, j) then [nb] else [];
            multiset(more)[e] == if Wanted(e, i, j) then multiset(seen + [nb])[e] else multiset(added)[e]
  {
    CountAppend(seen, nb, e);
    CountAppend(added, nb, e);
    assert added + [] == added;
  }

  /** How often e has been added when the loops reach neighbour k for status i and link j. */
  function TimesAdded(nbs: seq<Entry>, i: nat, j: nat, k: nat, e: Entry): nat
    requires k <= |nbs|
  {
    if Earlier(e, i, j) then multiset(nbs)[e] else if Wanted(e, i, j) then multiset(nbs[..k])[e] else 0
  }

  lemma NextLink(nbs: seq<Entry>, i: nat, j: nat, e: Entry)
    requires j <= MAX_LINK
    ensures TimesAdded(nbs, i, j + 1, 0, e) == TimesAdded(nbs, i, j, |nbs|, e)
  {
    assert nbs[..|nbs|] == nbs && nbs[..0] == [];
  }

  lemma NextStatus(nbs: seq<Entry>, i: nat, e: Entry)
    ensures TimesAdded(nbs, i + 1, 0, 0, e) == TimesAdded(nbs, i, MAX_LINK + 1, 0, e)
  {
    assert nbs[..0] == [];
  }

  lemma NextNeighbor(nbs: seq<Entry>, i: nat, j: nat, k: nat, e: Entry, added: seq<Entry>)
    requires k < |nbs| && multiset(added)[e] == TimesAdded(nbs, i, j, k, e)
    ensures multiset(added + if Wanted(nbs[k], i, j) then [nbs[k]] else [])[e] == TimesAdded(nbs, i, j, k + 1, e)
  {
    assert nbs[..k + 1] == nbs[..k] + [nbs[k]];
    CountStep(added, nbs[..k], nbs[k], i, j, e);
  }

  /** Each neighbour is added once, when the loops come to its status and link. */
  lemma {:induction false} EmittedCount(nbs: seq<Entry>, i: nat, j: nat, k: nat, e: Entry)
    requires k <= |nbs| && j <= MAX_LINK + 1
    ensures multiset(Emitted(nbs, i, j, k))[e] == TimesAdded(nbs, i, j, k, e)
    decreases i, j, k
  {
    hide TimesAdded, Wanted, Emitted;
    EmittedUnfold(nbs, i, j, k);
    if k > 0 {
      EmittedCount(nbs, i, j, k - 1, e);
      NextNeighbor(nbs, i, j, k - 1, e, Emitted(nbs, i, j, k - 1));
    } else if j > 0 {
      EmittedCount(nbs, i, j - 1, |nbs|, e);
      NextLink(nbs, i, j - 1, e);
    } else if i > 0 {
      EmittedCount(nbs, i - 1, MAX_LINK + 1, 0, e);
      NextStatus(nbs, i - 1, e);
    } else {
      NothingAdded(nbs, e);
    }
  }

  lemma EmittedUnfold(nbs: seq<Entry>, i: nat, j: nat, k: nat)
    requires k <= |nbs|
    ensures k > 0 ==> Emitted(nbs, i, j, k) == Emitted(nbs, i, j, k - 1) + if Wanted(nbs[k - 1], i, j)
              then [nbs[k - 1]] else []
    ensures k == 0 < j ==> Emitted(nbs, i, j, k) == Emitted(nbs, i, j - 1, |nbs|)
    ensures k == j == 0 < i ==> Emitted(nbs, i, j, k) == Emitted(nbs, i - 1, MAX_LINK + 1, 0)
    ensures k == j == i == 0 ==> Emitted(nbs, i, j, k) == []
  {
  }

  lemma NothingAdded(nbs: seq<Entry>, e: Entry)
    ensures TimesAdded(nbs, 0, 0, 0, e) == 0
  {
    assert nbs[..0] == [];
  }

  /** Sendable are the neighbours of the three statuses and the four links that are not hidden. */
  lemma {:induction false} SendableCount(nbs: seq<Entry>, e: Entry)
    ensures multiset(SendableOf(nbs))[e] == if e.status <= 2 && e.link <= 3 then multiset(nbs)[e] else 0
    decreases |nbs|
  {
    if nbs != [] {
      SendableCount(nbs[..|nbs| - 1], e);
      assert nbs == nbs[..|nbs| - 1] + [nbs[|nbs| - 1]];
    }
  }

  /** What is sent is exactly the sendable neighbours. */
  lemma EmittedAll(nbs: seq<Entry>)
    ensures multiset(Emitted(nbs, MAX_NEIGH + 1, 0, 0)) == multiset(SendableOf(nbs))
  {
    forall e
      ensures multiset(Emitted(nbs, MAX_NEIGH + 1, 0, 0))[e] == multiset(SendableOf(nbs))[e]
    {
      EmittedCount(nbs, MAX_NEIGH + 1, 0, 0, e);
      SendableCount(nbs, e);
    }
  }

  // ---------- The message under construction ----------

  /** Offsets into the message buffer: the end of the message, the header of the current group, and the place for its
      next address; first until the group has an address; remain is the room in the output buffer. */
  datatype Cursor = Cursor(curr: nat, hinfo: nat, haddr: nat, first: bool, remain: nat)

  /** What has been written: the groups of the fragments already pushed, the finished groups of the current message, and
      the addresses of the open group. */
  datatype Log = Log(frags: seq<seq<Group>>, done: seq<Group>, addrs: seq<Addr>)

  /** The header fields that stay for all fragments. */
  ghost predicate HeaderSet(m: seq<Byte>, h: Header) {
    && |m| >= HELLO_HDRSIZE
    && m[0] == HELLO_MESSAGE && m[1] == h.vtime && m[4..8] == h.originator && m[8] == h.ttl && m[9] == 0
    && m[12] == 0 && m[13] == 0 && m[14] == h.htime && m[15] == h.willingness
  }

  /** The finished groups, as far as offset end. */
  ghost predicate BodySet(m: seq<Byte>, done: seq<Group>, end: nat) {
    HELLO_HDRSIZE <= end <= |m| && end == HELLO_HDRSIZE + |EncodeGroups(done)|
      && m[HELLO_HDRSIZE..end] == EncodeGroups(done)
  }

  /** The open group; its size field is not written yet. */
  ghost predicate GroupSet(m: seq<Byte>, c: Cursor, i: nat, j: nat, addrs: seq<Addr>) {
    && c.haddr == c.hinfo + 4 + 4 * |addrs| <= |m|
    && (c.first <==> addrs == [])
    && c.curr == (if c.first then c.hinfo else c.haddr)
    && (!c.first ==> m[c.hinfo] == LinkCode(i, j) && m[c.hinfo + 1] == 0
                     && m[c.hinfo + 4..c.haddr] == EncodeAddrs(addrs))
  }

  ghost predicate Layout(m: seq<Byte>, h: Header, c: Cursor, done: seq<Group>, addrs: seq<Addr>, i: nat, j: nat) {
    HeaderSet(m, h) && BodySet(m, done, c.hinfo) && GroupSet(m, c, i, j, addrs)
  }

  // ---------- Writing into the message buffer ----------

  function WithWord(m: seq<Byte>, at: nat, n: nat): (r: seq<Byte>)
    requires at + 2 <= |m|
    ensures |r| == |m| && forall k :: 0 <= k < |m| ==>
                            r[k] == if k == at then Hi(n) else if k == at + 1 then Lo(n) else m[k]
  {
    m[at := Hi(n)][at + 1 := Lo(n)]
  }

  function WithAddr(m: seq<Byte>, at: nat, a: Addr): (r: seq<Byte>)
    requires at + 4 <= |m|
    ensures |r| == |m| && forall k :: 0 <= k < |m| ==> r[k] == if at <= k < at + 4 then a[k - at] else m[k]
  {
    m[..at] + a + m[at + 4..]
  }

  function Opened(m: seq<Byte>, at: nat, i: nat, j: nat): (r: seq<Byte>)
    requires at + 1 < |m|
    ensures |r| == |m|
  {
    m[at + 1 := 0][at := LinkCode(i, j)]
  }

  function Max(a: nat, b: nat): nat {
    if a < b then b else a
  }

  /** The message buffer and the memory behind it; top is the end of the farthest write. */
  class Message {
    const bytes: array<Byte>
    ghost var top: nat

    constructor (size: nat)
      ensures fresh(bytes) && bytes.Length == size && top == 0
    {
      bytes, top := new Byte[size](_ => 0), 0;
    }

    method PutWord(at: nat, n: nat)
      requires at + 2 <= bytes.Length
      modifies bytes, this`top
      ensures bytes[..] == WithWord(old(bytes[..]), at, n) && top == Max(old(top), at + 2)
    {
      bytes[at], bytes[at + 1] := Hi(n), Lo(n);
      top := Max(top, at + 2);
    }

    method PutAddr(at: nat, a: Addr)
      requires at + 4 <= bytes.Length
      modifies bytes, this`top
      ensures bytes[..] == WithAddr(old(bytes[..]), at, a) && top == Max(old(top), at + 4)
    {
      bytes[at], bytes[at + 1], bytes[at + 2], bytes[at + 3] := a[0], a[1], a[2], a[3];
      top := Max(top, at + 4);
    }

    /** The first two bytes of a group. */
    method OpenGroup(at: nat, i: nat, j: nat)
      requires at + 2 <= bytes.Length
      modifies bytes, this`top
      ensures bytes[..] == Opened(old(bytes[..]), at, i, j) && top == Max(old(top), at + 2)
    {
      bytes[at + 1] := 0;
      bytes[at] := LinkCode(i, j);
      top := Max(top, at + 2);
    }

    /** Fills the message header and the HELLO header; sequence number and size come last. */
    method PutHeader(h: Header)
      requires bytes.Length >= HELLO_HDRSIZE
      modifies bytes, this`top
      ensures HeaderSet(bytes[..], h) && top == Max(old(top), HELLO_HDRSIZE)
    {
      bytes[0], bytes[1], bytes[8], bytes[9] := HELLO_MESSAGE, h.vtime, h.ttl, 0;
      PutAddr(4, h.originator);
      bytes[12], bytes[13], bytes[14], bytes[15] := 0, 0, h.htime, h.willingness;
      top := Max(top, HELLO_HDRSIZE);
      assert bytes[4..8] == h.originator;
    }
  }

  /** Changes at or beyond an offset leave what is before it. */
  lemma SamePrefix(m: seq<Byte>, m': seq<Byte>, h: Header, done: seq<Group>, end: nat)
    requires HeaderSet(m, h) && BodySet(m, done, end) && |m'| == |m| && forall k :: 0 <= k < end ==> m'[k] == m[k]
    ensures HeaderSet(m', h) && BodySet(m', done, end)
  {
    assert m'[4..8] == m[4..8];
    assert m'[HELLO_HDRSIZE..end] == m[HELLO_HDRSIZE..end];
  }

  /** Starting a group if need be, and adding an address. */
  function WithEntry(m: seq<Byte>, c: Cursor, i: nat, j: nat, a: Addr): seq<Byte>
    requires c.haddr + 4 <= |m| && c.hinfo + 1 < |m|
  {
    WithAddr(if c.first then Opened(m, c.hinfo, i, j) else m, c.haddr, a)
  }

  lemma OneMoreAddr(addrs: seq<Addr>, a: Addr)
    ensures EncodeAddrs(addrs + [a]) == EncodeAddrs(addrs) + a
  {
    assert (addrs + [a])[..|addrs|] == addrs;
  }

  lemma AddrsExtended(m: seq<Byte>, m': seq<Byte>, start: nat, end: nat, addrs: seq<Addr>, a: Addr)
    requires start <= end && end + 4 <= |m'| && |m| == |m'| && m[start..end] == EncodeAddrs(addrs)
    requires forall k :: start <= k < end ==> m'[k] == m[k]
    requires forall k :: 0 <= k < 4 ==> m'[end + k] == a[k]
    ensures m'[start..end + 4] == EncodeAddrs(addrs + [a])
  {
    hide EncodeAddrs;
    OneMoreAddr(addrs, a);
    assert m'[end..end + 4] == a;
    assert m'[start..end] == m[start..end];
    assert m'[start..end + 4] == m'[start..end] + m'[end..end + 4];
  }

  lemma EntryWritten(m: seq<Byte>, h: Header, c: Cursor, done: seq<Group>, addrs: seq<Addr>, i: nat, j: nat, a: Addr)
    requires Layout(m, h, c, done, addrs, i, j) && c.haddr + 4 <= |m|
    ensures Layout(WithEntry(m, c, i, j, a), h, c.(curr := c.haddr + 4, haddr := c.haddr + 4, first := false), done,
                   addrs + [a], i, j)
  {
    hide HeaderSet, BodySet, EncodeAddrs, LinkCode, WithAddr;
    var m' := WithEntry(m, c, i, j, a);
    BodyStart(m, done, c.hinfo);
    SamePrefix(m, m', h, done, c.hinfo);
    NoAddrs(m, c.hinfo + 4);
    AddrsExtended(m, m', c.hinfo + 4, c.haddr, addrs, a);
  }

  lemma BodyStart(m: seq<Byte>, done: seq<Group>, end: nat)
    requires BodySet(m, done, end)
    ensures HELLO_HDRSIZE <= end <= |m|
  {
  }

  lemma NoAddrs(m: seq<Byte>, at: nat)
    requires at <= |m|
    ensures m[at..at] == EncodeAddrs([])
  {
  }

  lemma GroupBytes(m: seq<Byte>, at: nat, g: Group)
    requires at + 4 + 4 * |g.addrs| <= |m| && m[at + 4..at + 4 + 4 * |g.addrs|] == EncodeAddrs(g.addrs)
    requires m[at] == LinkCode(g.status, g.link) && m[at + 1] == 0
    requires m[at + 2] == Hi(4 + 4 * |g.addrs|) && m[at + 3] == Lo(4 + 4 * |g.addrs|)
    ensures m[at..at + 4 + 4 * |g.addrs|] == EncodeGroup(g)
  {
    hide EncodeAddrs, Hi, Lo, LinkCode;
    var size := 4 + 4 * |g.addrs|;
    assert m[at..at + 4] == [LinkCode(g.status, g.link), 0, Hi(size), Lo(size)];
    assert m[at..at + size] == m[at..at + 4] + m[at + 4..at + size];
  }

  lemma BodyExtended(m: seq<Byte>, done: seq<Group>, at: nat, g: Group)
    requires BodySet(m, done, at) && at + |EncodeGroup(g)| <= |m| && m[at..at + |EncodeGroup(g)|] == EncodeGroup(g)
    ensures BodySet(m, done + [g], at + |EncodeGroup(g)|)
  {
    hide EncodeGroup;
    assert (done + [g])[..|done|] == done;
    var end := at + |EncodeGroup(g)|;
    assert m[HELLO_HDRSIZE..end] == m[HELLO_HDRSIZE..at] + m[at..end];
  }

  /** Writing its size completes a group. */
  lemma GroupWritten(m: seq<Byte>, h: Header, c: Cursor, done: seq<Group>, addrs: seq<Addr>, i: nat, j: nat)
    requires Layout(m, h, c, done, addrs, i, j) && !c.first
    ensures var m', g := WithWord(m, c.hinfo + 2, c.haddr - c.hinfo), Group(i, j, addrs);
            HeaderSet(m', h) && BodySet(m', done + [g], c.haddr)
  {
    hide HeaderSet, BodySet, EncodeAddrs, LinkCode, WithWord, Hi, Lo;
    var m', g := WithWord(m, c.hinfo + 2, c.haddr - c.hinfo), Group(i, j, addrs);
    BodyStart(m, done, c.hinfo);
    SamePrefix(m, m', h, done, c.hinfo);
    assert m'[c.hinfo + 4..c.haddr] == m[c.hinfo + 4..c.haddr];
    GroupBytes(m', c.hinfo, g);
    BodyExtended(m', done, c.hinfo, g);
  }

  /** Sequence number and size complete a message. */
  lemma MessageWritten(m: seq<Byte>, h: Header, seqno: nat, groups: seq<Group>, end: nat)
    requires HeaderSet(m, h) && BodySet(m, groups, end)
    ensures var m' := WithWord(WithWord(m, 10, seqno), 2, end);
            HeaderSet(m', h) && BodySet(m', groups, end) && m'[..end] == EncodeMessage(h, seqno, groups)
  {
    var m' := WithWord(WithWord(m, 10, seqno), 2, end);
    assert m'[HELLO_HDRSIZE..end] == m[HELLO_HDRSIZE..end];
    assert m'[4..8] == m[4..8];
    hide EncodeGroups, Hi, Lo;
    var head := EncodeHeader(h, seqno, end);
    assert forall k :: 0 <= k < HELLO_HDRSIZE ==> m'[k] == head[k] by {
      assert forall k :: 4 <= k < 8 ==> m'[k] == m[4..8][k - 4];
    }
    assert m'[..end] == head + m'[HELLO_HDRSIZE..end];
  }

  // ---------- How far the writes reach ----------

  /** Every offset is a multiple of four, so that the last group starts at or before the largest one in the output
      buffer. */
  function Reach(maxsize: nat): nat {
    maxsize / 4 * 4 + 4
  }

  lemma WithinReach(at: nat, maxsize: nat)
    ensures at % 4 == 0 && at <= maxsize ==> at + 4 <= Reach(maxsize)
    ensures maxsize < Reach(maxsize) <= maxsize + 4
  {
  }

  /** Where the serializer stands, and the end of its farthest write so far. */
  datatype Spot = Spot(c: Cursor, top: nat)

  function Fresh(remain: nat): Cursor {
    Cursor(HELLO_HDRSIZE, HELLO_HDRSIZE, HELLO_HDRSIZE + 4, true, remain)
  }

  predicate HasRoom(c: Cursor) {
    c.curr + 4 + (if c.first then 4 else 0) <= c.remain
  }

  /** A partial message goes out, if there is anything in it: the size of its last group is written, started or not. */
  function Emptied(s: Spot, maxsize: nat): Spot {
    Spot(Fresh(maxsize), if s.c.curr > HELLO_HDRSIZE then Max(s.top, s.c.hinfo + 4) else s.top)
  }

  /** One address more. */
  function Added(s: Spot, maxsize: nat): Spot {
    var r := if HasRoom(s.c) then s else Emptied(s, maxsize);
    Spot(r.c.(curr := r.c.haddr + 4, haddr := r.c.haddr + 4, first := false), Max(r.top, r.c.haddr + 4))
  }

  /** A started group ends. */
  function Ended(s: Spot): Spot {
    if s.c.first then s
    else Spot(Cursor(s.c.curr, s.c.haddr, s.c.haddr + 4, true, s.c.remain), Max(s.top, s.c.hinfo + 4))
  }

  /** Where the serializer stands when the loops reach neighbour k for status i and link j. */
  function Traced(start: Spot, nbs: seq<Entry>, maxsize: nat, i: nat, j: nat, k: nat): Spot
    requires k <= |nbs|
    decreases i, j, k
  {
    if k > 0 then
      var s := Traced(start, nbs, maxsize, i, j, k - 1);
      if Wanted(nbs[k - 1], i, j) then Added(s, maxsize) else s
    else if j == HIDE_LINK + 1 then Traced(start, nbs, maxsize, i, j - 1, 0)
    else if j > 0 then Ended(Traced(start, nbs, maxsize, i, j - 1, |nbs|))
    else if i > 0 then Traced(start, nbs, maxsize, i - 1, MAX_LINK + 1, 0)
    else start
  }

  /** The room at the start: a HELLO that has no room for its header flushes the output buffer first. */
  function StartRoom(maxsize: nat, pending: nat): nat
    requires pending <= maxsize
  {
    if HELLO_HDRSIZE > maxsize - pending then maxsize else maxsize - pending
  }

  /** The end of the farthest write for a list of neighbours, when the output buffer has this much room at the start. */
  function Farthest(nbs: seq<Entry>, maxsize: nat, remain: nat): nat {
    Traced(Spot(Fresh(remain), HELLO_HDRSIZE), nbs, maxsize, MAX_NEIGH + 1, 0, 0).top
  }

  lemma TracedUnfold(start: Spot, nbs: seq<Entry>, maxsize: nat, i: nat, j: nat, k: nat)
    requires k < |nbs|
    ensures var s := Traced(start, nbs, maxsize, i, j, k);
            Traced(start, nbs, maxsize, i, j, k + 1) == if Wanted(nbs[k], i, j) then Added(s, maxsize) else s
  {
  }

  lemma TracedNext(start: Spot, nbs: seq<Entry>, maxsize: nat, i: nat, j: nat)
    ensures j != HIDE_LINK ==>
              Traced(start, nbs, maxsize, i, j + 1, 0) == Ended(Traced(start, nbs, maxsize, i, j, |nbs|))
    ensures Traced(start, nbs, maxsize, i, HIDE_LINK + 1, 0) == Traced(start, nbs, maxsize, i, HIDE_LINK, 0)
    ensures Traced(start, nbs, maxsize, i + 1, 0, 0) == Traced(start, nbs, maxsize, i, MAX_LINK + 1, 0)
    ensures Traced(start, nbs, maxsize, 0, 0, 0) == start
  {
  }

  // ---------- When a HELLO stays inside the message buffer ----------

  /** What every step keeps: offsets are multiples of four, the message fits the output buffer, and so does the farthest
      write, but for the size of a group that is not started. */
  ghost predicate Aligned(s: Spot, limit: nat) {
    && s.c.hinfo % 4 == 0 && s.c.curr <= limit && s.c.remain <= limit && s.top <= Reach(limit)
    && (if s.c.first then s.c.curr == s.c.hinfo && s.c.haddr == s.c.hinfo + 4
        else s.c.curr == s.c.haddr && s.c.hinfo + 8 <= s.c.haddr && s.c.haddr % 4 == 0)
  }

  lemma AddedAligned(s: Spot, maxsize: nat, limit: nat)
    requires Aligned(s, limit) && maxsize <= limit && HELLO_HDRSIZE + 8 <= limit
    ensures Aligned(Added(s, maxsize), limit)
  {
    hide Reach;
    WithinReach(s.c.hinfo, limit);
  }

  lemma EndedAligned(s: Spot, limit: nat)
    requires Aligned(s, limit)
    ensures Aligned(Ended(s), limit)
  {
  }

  lemma {:induction false} TracedAligned(start: Spot, nbs: seq<Entry>, maxsize: nat, i: nat, j: nat, k: nat, limit: nat)
    requires k <= |nbs| && Aligned(start, limit) && maxsize <= limit && HELLO_HDRSIZE + 8 <= limit
    ensures Aligned(Traced(start, nbs, maxsize, i, j, k), limit)
    decreases i, j, k
  {
    hide Aligned, Added, Ended, Wanted;
    if k > 0 {
      TracedAligned(start, nbs, maxsize, i, j, k - 1, limit);
      AddedAligned(Traced(start, nbs, maxsize, i, j, k - 1), maxsize, limit);
    } else if j == HIDE_LINK + 1 {
      TracedAligned(start, nbs, maxsize, i, j - 1, 0, limit);
    } else if j > 0 {
      TracedAligned(start, nbs, maxsize, i, j - 1, |nbs|, limit);
      EndedAligned(Traced(start, nbs, maxsize, i, j - 1, |nbs|), limit);
    } else if i > 0 {
      TracedAligned(start, nbs, maxsize, i - 1, MAX_LINK + 1, 0, limit);
    }
  }

  /** No list of neighbours makes the serializer write beyond the reach of the output buffer. */
  lemma FarthestBound(nbs: seq<Entry>, maxsize: nat, remain: nat)
    requires HELLO_HDRSIZE <= remain <= maxsize
    ensures Farthest(nbs, maxsize, remain) <= Reach(Max(maxsize, HELLO_HDRSIZE + 8))
  {
    hide Traced;
    var limit := Max(maxsize, HELLO_HDRSIZE + 8);
    WithinReach(HELLO_HDRSIZE, limit);
    TracedAligned(Spot(Fresh(remain), HELLO_HDRSIZE), nbs, maxsize, MAX_NEIGH + 1, 0, 0, limit);
  }

  /** As many neighbours of one group as the message buffer holds, and one of the next group. */
  function Overfull(): seq<Entry> {
    seq(FULL_GROUP, _ => Entry([0, 0, 0, 0], 0, 0)) + [Entry([0, 0, 0, 0], 1, 0)]
  }

  const FULL_GROUP: nat := 369

  lemma {:induction false} FillGroup(nbs: seq<Entry>, maxsize: nat, k: nat)
    requires k < |nbs| && (forall n :: 0 <= n < k ==> Wanted(nbs[n], 0, 0)) && HELLO_HDRSIZE + 4 + 4 * k <= maxsize
    ensures var s := Traced(Spot(Fresh(maxsize), HELLO_HDRSIZE), nbs, maxsize, 0, 0, k);
            s.c == Cursor(if k == 0 then HELLO_HDRSIZE else HELLO_HDRSIZE + 4 + 4 * k, HELLO_HDRSIZE,
                          HELLO_HDRSIZE + 4 + 4 * k, k == 0, maxsize)
    decreases k
  {
    if k > 0 {
      FillGroup(nbs, maxsize, k - 1);
    }
  }

  lemma {:induction false} NoneWanted(start: Spot, nbs: seq<Entry>, maxsize: nat, i: nat, j: nat, k: nat)
    requires k <= |nbs| && forall n :: 0 <= n < k ==> !Wanted(nbs[n], i, j)
    ensures Traced(start, nbs, maxsize, i, j, k) == Traced(start, nbs, maxsize, i, j, 0)
    decreases k
  {
    if k > 0 {
      NoneWanted(start, nbs, maxsize, i, j, k - 1);
    }
  }

  /** What has been written stays written. */
  lemma {:induction false} TopGrows(start: Spot, nbs: seq<Entry>, maxsize: nat, i: nat, j: nat, k: nat)
    requires k <= |nbs| && (i > 0 || j > 1 || (j == 1 && k == |nbs|))
    ensures Traced(start, nbs, maxsize, i, j, k).top >= Traced(start, nbs, maxsize, 0, 1, |nbs|).top
    decreases i, j, k
  {
    if i == 0 && j == 1 && k == |nbs| {
    } else if k > 0 {
      TopGrows(start, nbs, maxsize, i, j, k - 1);
    } else if j == HIDE_LINK + 1 {
      TopGrows(start, nbs, maxsize, i, j - 1, 0);
    } else if j > 0 {
      TopGrows(start, nbs, maxsize, i, j - 1, |nbs|);
    } else {
      TopGrows(start, nbs, maxsize, i - 1, MAX_LINK + 1, 0);
    }
  }

  /** The group fills the message buffer; what is written for the last neighbour lies behind it, whether the next group
      still goes into this message or the message is sent first. */
  lemma OverfullWrites(maxsize: nat)
    requires MSG_BUFFER_SIZE <= maxsize
    ensures Farthest(Overfull(), maxsize, maxsize) >= MSG_BUFFER_SIZE + 4
  {
    hide Traced;
    var nbs, start := Overfull(), Spot(Fresh(maxsize), HELLO_HDRSIZE);
    FillGroup(nbs, maxsize, FULL_GROUP);
    TracedUnfold(start, nbs, maxsize, 0, 0, FULL_GROUP);
    TracedNext(start, nbs, maxsize, 0, 0);
    NoneWanted(start, nbs, maxsize, 0, 1, FULL_GROUP);
    TracedUnfold(start, nbs, maxsize, 0, 1, FULL_GROUP);
    TopGrows(start, nbs, maxsize, MAX_NEIGH + 1, 0, 0);
  }

  /** The room for messages on an interface: its MTU less the headers. */
  function MaxSize(mtu: nat): nat
    requires mtu >= UDP_IPV4_HDRSIZE + OLSR_HEADERSIZE
  {
    mtu - UDP_IPV4_HDRSIZE - OLSR_HEADERSIZE
  }

  /** No HELLO leaves the message buffer exactly for an MTU below 1528. */
  lemma InsideBufferIff(mtu: nat)
    requires mtu >= UDP_IPV4_HDRSIZE + OLSR_HEADERSIZE
    ensures (forall nbs: seq<Entry>, remain: nat :: HELLO_HDRSIZE <= remain <= MaxSize(mtu) ==>
                                                      Farthest(nbs, MaxSize(mtu), remain) <= MSG_BUFFER_SIZE)
            <==> mtu < MAXMESSAGESIZE + UDP_IPV4_HDRSIZE
  {
    hide Farthest, Overfull;
    if mtu < MAXMESSAGESIZE + UDP_IPV4_HDRSIZE {
      forall nbs: seq<Entry>, remain: nat | HELLO_HDRSIZE <= remain <= MaxSize(mtu)
        ensures Farthest(nbs, MaxSize(mtu), remain) <= MSG_BUFFER_SIZE
      {
        FarthestBound(nbs, MaxSize(mtu), remain);
      }
    } else {
      OverfullWrites(MaxSize(mtu));
    }
  }

  // ---------- Building ----------

  /** What the log says has been written, in order. */
  function Logged(log: Log, i: nat, j: nat): seq<Entry> {
    Flat(log.frags) + Entries(log.done) + GroupEntries(Group(i, j, log.addrs))
  }

  function Flat(frags: seq<seq<Group>>): seq<Entry> {
    if frags == [] then [] else Flat(frags[..|frags| - 1]) + Entries(frags[|frags| - 1])
  }

  predicate CodesOk(groups: seq<Group>) {
    forall g :: g in groups ==> CodeOk(g)
  }

  /** The pushed messages: one per fragment, all with the same header, with consecutive sequence numbers. */
  ghost predicate FragmentsPushed(pushed: seq<seq<Byte>>, h: Header, seq0: nat, frags: seq<seq<Group>>, limit: nat) {
    && |pushed| == |frags|
    && forall k :: 0 <= k < |frags| ==>
                     && pushed[k] == EncodeMessage(h, (seq0 + k) % 65536, frags[k]) && |pushed[k]| <= limit
                     && CodesOk(frags[k])
  }

  ghost predicate Built(o: Output, m: seq<Byte>, h: Header, c: Cursor, log: Log, seq0: nat, base: seq<seq<Byte>>,
                        i: nat, j: nat)
    reads o
  {
    && o.Valid() && o.maxsize < 65536 && |m| >= Reach(o.maxsize)
    && Layout(m, h, c, log.done, log.addrs, i, j)
    && c.curr % 4 == 0 && c.curr <= c.remain && c.remain + |o.buff| == o.maxsize
    && base <= o.pushed && FragmentsPushed(o.pushed[|base|..], h, seq0, log.frags, o.maxsize)
    && o.msgSeqno == (seq0 + |log.frags|) % 65536
    && CodesOk(log.done) && i <= MAX_NEIGH && (j < HIDE_LINK || log.addrs == [])
  }

  /** Completes the message and pushes it; the group under construction must be closed. */
  method PushMessage(o: Output, msg: Message, end: nat, ghost h: Header, ghost groups: seq<Group>,
                     ghost frags: seq<seq<Group>>,
                     ghost seq0: nat, ghost base: seq<seq<Byte>>)
    requires o.Valid() && o.maxsize < 65536 && HeaderSet(msg.bytes[..], h) && BodySet(msg.bytes[..], groups, end)
             && end + |o.buff| <= o.maxsize
    requires base <= o.pushed && FragmentsPushed(o.pushed[|base|..], h, seq0, frags, o.maxsize)
    requires o.msgSeqno == (seq0 + |frags|) % 65536 && CodesOk(groups) && msg.top >= HELLO_HDRSIZE
    modifies msg.bytes, msg`top, o`buff, o`pushed, o`pending, o`msgSeqno
    ensures o.Valid() && HeaderSet(msg.bytes[..], h) && base <= o.pushed && |o.pushed| == |old(o.pushed)| + 1
    ensures FragmentsPushed(o.pushed[|base|..], h, seq0, frags + [groups], o.maxsize)
    ensures o.msgSeqno == (seq0 + |frags| + 1) % 65536 && msg.top == old(msg.top)
  {
    hide HeaderSet, BodySet, EncodeMessage, WithWord, Output.Valid;
    var seqno := o.NextSeqno();
    ghost var m := msg.bytes[..];
    BodyStart(m, groups, end);
    msg.PutWord(10, seqno);
    msg.PutWord(2, end);
    MessageWritten(m, h, seqno, groups, end);
    var _ := o.Push(msg.bytes[..end]);
    assert o.pushed[|base|..] == old(o.pushed)[|base|..] + [msg.bytes[..end]];
  }

  lemma FlatAppend(frags: seq<seq<Group>>, f: seq<Group>)
    ensures Flat(frags + [f]) == Flat(frags) + Entries(f)
  {
    assert (frags + [f])[..|frags|] == frags;
  }

  lemma EntriesAppend(done: seq<Group>, g: Group)
    ensures Entries(done + [g]) == Entries(done) + GroupEntries(g)
  {
    assert (done + [g])[..|done|] == done;
  }

  lemma NoEntries(i: nat, j: nat)
    ensures GroupEntries(Group(i, j, [])) == [] && Entries([]) == [] && Flat([]) == []
  {
  }

  /** The groups of the current message when the open one is closed. */
  function Closed(log: Log, i: nat, j: nat): seq<Group> {
    if log.addrs == [] then log.done else log.done + [Group(i, j, log.addrs)]
  }

  lemma ClosedEntries(log: Log, i: nat, j: nat)
    ensures Entries(Closed(log, i, j)) == Entries(log.done) + GroupEntries(Group(i, j, log.addrs))
    ensures Logged(log, i, j) == Flat(log.frags) + Entries(Closed(log, i, j))
    ensures forall i', j' :: Logged(Log(log.frags, Closed(log, i, j), []), i', j') == Logged(log, i, j)
    ensures forall i', j' :: Logged(Log(log.frags + [Closed(log, i, j)], [], []), i', j') == Logged(log, i, j)
  {
    hide Flat, Entries, GroupEntries;
    if log.addrs != [] {
      EntriesAppend(log.done, Group(i, j, log.addrs));
    } else {
      NoEntries(i, j);
      assert Entries(log.done) + [] == Entries(log.done);
    }
    FlatAppend(log.frags, Closed(log, i, j));
    forall i', j'
      ensures Logged(Log(log.frags, Closed(log, i, j), []), i', j') == Logged(log, i, j)
      ensures Logged(Log(log.frags + [Closed(log, i, j)], [], []), i', j') == Logged(log, i, j)
    {
      NoEntries(i', j');
    }
  }

  /** Whether the group is open or not, writing its size leaves the closed groups in the buffer. */
  lemma CloseWritten(m: seq<Byte>, h: Header, c: Cursor, log: Log, i: nat, j: nat)
    requires Layout(m, h, c, log.done, log.addrs, i, j)
    ensures var m' := WithWord(m, c.hinfo + 2, c.haddr - c.hinfo);
            HeaderSet(m', h) && BodySet(m', Closed(log, i, j), c.curr)
  {
    hide HeaderSet, BodySet, WithWord;
    if c.first {
      BodyStart(m, log.done, c.hinfo);
      SamePrefix(m, WithWord(m, c.hinfo + 2, c.haddr - c.hinfo), h, log.done, c.hinfo);
    } else {
      GroupWritten(m, h, c, log.done, log.addrs, i, j);
    }
  }

  /** An empty message right after its header. */
  lemma FreshLayout(m: seq<Byte>, h: Header, remain: nat, i: nat, j: nat)
    requires HeaderSet(m, h) && |m| >= HELLO_HDRSIZE + 4
    ensures Layout(m, h, Cursor(HELLO_HDRSIZE, HELLO_HDRSIZE, HELLO_HDRSIZE + 4, true, remain), [], [], i, j)
  {
  }

  /** What is built is fit to be pushed once the size of the open group is written. */
  lemma ReadyToClose(o: Output, m: seq<Byte>, h: Header, c: Cursor, log: Log, seq0: nat, base: seq<seq<Byte>>, i: nat,
                     j: nat)
    requires Built(o, m, h, c, log, seq0, base, i, j)
    ensures o.Valid() && o.maxsize < 65536 && c.curr + |o.buff| <= o.maxsize && CodesOk(Closed(log, i, j))
    ensures base <= o.pushed && FragmentsPushed(o.pushed[|base|..], h, seq0, log.frags, o.maxsize)
    ensures o.msgSeqno == (seq0 + |log.frags|) % 65536
    ensures c.hinfo + 4 <= |m| && c.hinfo <= c.haddr
    ensures var m' := WithWord(m, c.hinfo + 2, c.haddr - c.hinfo);
            HeaderSet(m', h) && BodySet(m', Closed(log, i, j), c.curr)
  {
    hide HeaderSet, BodySet, FragmentsPushed, Output.Valid, WithWord, EncodeAddrs, LinkCode;
    CloseWritten(m, h, c, log, i, j);
  }

  /** Sends a partial HELLO and starts a new one. */
  method SendPartial(o: Output, msg: Message, c: Cursor, ghost h: Header, ghost log: Log, ghost seq0: nat,
                     ghost base: seq<seq<Byte>>,
                     ghost i: nat, ghost j: nat)
    returns (ghost log': Log)
    requires Built(o, msg.bytes[..], h, c, log, seq0, base, i, j) && msg.top >= HELLO_HDRSIZE
    modifies msg.bytes, msg`top, o`buff, o`pushed, o`pending, o`msgSeqno
    ensures o.Valid() && HeaderSet(msg.bytes[..], h) && base <= o.pushed
    ensures FragmentsPushed(o.pushed[|base|..], h, seq0, log'.frags, o.maxsize)
            && o.msgSeqno == (seq0 + |log'.frags|) % 65536
    ensures log'.done == [] && log'.addrs == [] && Logged(log', i, j) == Logged(log, i, j)
    ensures msg.top == Max(old(msg.top), c.hinfo + 4)
  {
    hide HeaderSet, BodySet, FragmentsPushed, Output.Valid, WithWord, Logged, Built, Closed, CodesOk;
    ClosedEntries(log, i, j);
    ReadyToClose(o, msg.bytes[..], h, c, log, seq0, base, i, j);
    msg.PutWord(c.hinfo + 2, c.haddr - c.hinfo);
    PushMessage(o, msg, c.curr, h, Closed(log, i, j), log.frags, seq0, base);
    log' := Log(log.frags + [Closed(log, i, j)], [], []);
  }

  /** There is not enough room: what has been built is sent, the output buffer flushed, and building goes on. Not ok
      when even an empty output buffer has no room for one entry. */
  method MakeRoom(o: Output, msg: Message, c: Cursor, ghost h: Header, ghost log: Log, ghost seq0: nat,
                  ghost base: seq<seq<Byte>>,
                  ghost i: nat, ghost j: nat)
    returns (ok: bool, c': Cursor, ghost log': Log)
    requires Built(o, msg.bytes[..], h, c, log, seq0, base, i, j) && !HasRoom(c) && msg.top >= HELLO_HDRSIZE
    modifies msg.bytes, msg`top, o`buff, o`pushed, o`pending, o`msgSeqno, o`packets, o`sent
    ensures o.Valid() && (ok <==> o.maxsize >= HELLO_HDRSIZE + 8)
    ensures ok ==> Built(o, msg.bytes[..], h, c', log', seq0, base, i, j) && HasRoom(c')
    ensures ok ==> Logged(log', i, j) == Logged(log, i, j)
    ensures Spot(c', msg.top) == Emptied(Spot(c, old(msg.top)), o.maxsize)
  {
    hide HeaderSet, BodySet, FragmentsPushed, Output.Valid, Logged, EncodeAddrs, LinkCode;
    log' := log;
    BodyStart(msg.bytes[..], log.done, c.hinfo);
    NothingDone(msg.bytes[..], log.done, c.hinfo);
    if c.curr > HELLO_HDRSIZE {
      log' := SendPartial(o, msg, c, h, log, seq0, base, i, j);
    }
    o.Flush();
    c' := Fresh(o.BytesLeft());
    ok := c'.curr + 4 + 4 <= c'.remain;
    FreshLayout(msg.bytes[..], h, c'.remain, i, j);
  }

  lemma NothingDone(m: seq<Byte>, done: seq<Group>, end: nat)
    requires BodySet(m, done, end)
    ensures end == HELLO_HDRSIZE ==> done == []
  {
    if done != [] {
      GroupSize(done[|done| - 1]);
    }
  }

  /** The body of the innermost loop, for a neighbour that belongs into the current group. */
  method AddNeighbor(o: Output, msg: Message, nb: Entry, c: Cursor, ghost h: Header, ghost log: Log, ghost seq0: nat,
                     ghost base: seq<seq<Byte>>, i: nat, j: nat)
    returns (ok: bool, c': Cursor, ghost log': Log)
    requires Built(o, msg.bytes[..], h, c, log, seq0, base, i, j) && Wanted(nb, i, j) && j < HIDE_LINK
             && msg.top >= HELLO_HDRSIZE
    modifies msg.bytes, msg`top, o`buff, o`pushed, o`pending, o`msgSeqno, o`packets, o`sent
    ensures o.Valid() && (ok <==> o.maxsize >= HELLO_HDRSIZE + 8)
    ensures ok ==> Built(o, msg.bytes[..], h, c', log', seq0, base, i, j)
                   && Logged(log', i, j) == Logged(log, i, j) + [nb]
    ensures ok ==> Spot(c', msg.top) == Added(Spot(c, old(msg.top)), o.maxsize)
  {
    hide Built, Logged, Added, Output.Valid;
    ok, c', log' := true, c, log;
    BuiltValid(o, msg.bytes[..], h, c, log, seq0, base, i, j);
    if c.curr + 4 + (if c.first then 4 else 0) > c.remain {
      ok, c', log' := MakeRoom(o, msg, c, h, log, seq0, base, i, j);
      if !ok {
        return;
      }
    }
    AddedAfter(Spot(c, old(msg.top)), o.maxsize);
    c', log' := PutEntry(o, msg, nb, c', h, log', seq0, base, i, j);
  }

  /** Emptying comes first when there is no room. */
  lemma AddedAfter(s: Spot, maxsize: nat)
    ensures !HasRoom(s.c) && HasRoom(Fresh(maxsize)) ==> Added(s, maxsize) == Added(Emptied(s, maxsize), maxsize)
  {
  }

  /** Writes one address into the message, which has room for it. */
  method PutEntry(o: Output, msg: Message, nb: Entry, c: Cursor, ghost h: Header, ghost log: Log, ghost seq0: nat,
                  ghost base: seq<seq<Byte>>, i: nat, j: nat)
    returns (c': Cursor, ghost log': Log)
    requires Built(o, msg.bytes[..], h, c, log, seq0, base, i, j) && Wanted(nb, i, j) && j < HIDE_LINK && HasRoom(c)
    modifies msg.bytes, msg`top
    ensures Built(o, msg.bytes[..], h, c', log', seq0, base, i, j) && Logged(log', i, j) == Logged(log, i, j) + [nb]
    ensures Spot(c', msg.top) == Added(Spot(c, old(msg.top)), o.maxsize) && o.maxsize >= HELLO_HDRSIZE + 8
  {
    hide Built, Logged, WithAddr, Opened;
    ghost var m := msg.bytes[..];
    EntryBuilt(o, m, h, c, log, seq0, base, i, j, nb.address);
    if c.first {
      msg.OpenGroup(c.hinfo, i, j);
    }
    msg.PutAddr(c.haddr, nb.address);
    assert msg.bytes[..] == WithEntry(m, c, i, j, nb.address);
    OneMoreEntry(log, i, j, nb);
    log' := Log(log.frags, log.done, log.addrs + [nb.address]);
    c' := c.(curr := c.haddr + 4, haddr := c.haddr + 4, first := false);
  }

  lemma EntryBuilt(o: Output, m: seq<Byte>, h: Header, c: Cursor, log: Log, seq0: nat, base: seq<seq<Byte>>, i: nat,
                   j: nat,
                   a: Addr)
    requires Built(o, m, h, c, log, seq0, base, i, j) && HasRoom(c) && j < HIDE_LINK
    ensures c.hinfo + 4 <= c.haddr && c.haddr + 4 <= |m| && o.maxsize >= HELLO_HDRSIZE + 8
    ensures Built(o, WithEntry(m, c, i, j, a), h, c.(curr := c.haddr + 4, haddr := c.haddr + 4, first := false),
                  Log(log.frags, log.done, log.addrs + [a]), seq0, base, i, j)
  {
    hide HeaderSet, BodySet, FragmentsPushed, Output.Valid, EncodeAddrs, LinkCode, WithAddr, Opened, Reach, CodesOk;
    WithinReach(c.curr, o.maxsize);
    BodyStart(m, log.done, c.hinfo);
    EntryWritten(m, h, c, log.done, log.addrs, i, j, a);
  }

  lemma OneMoreEntry(log: Log, i: nat, j: nat, nb: Entry)
    requires nb.status == i && nb.link == j
    ensures Logged(Log(log.frags, log.done, log.addrs + [nb.address]), i, j) == Logged(log, i, j) + [nb]
  {
    hide Flat, Entries;
    assert (log.addrs + [nb.address])[..|log.addrs|] == log.addrs;
    assert GroupEntries(Group(i, j, log.addrs + [nb.address])) == GroupEntries(Group(i, j, log.addrs)) + [nb];
  }

  /** An empty group can be taken for any status and link. */
  lemma Regroup(o: Output, m: seq<Byte>, h: Header, c: Cursor, log: Log, seq0: nat, base: seq<seq<Byte>>, i: nat,
                j: nat, i': nat, j': nat)
    requires Built(o, m, h, c, log, seq0, base, i, j) && log.addrs == [] && i' <= MAX_NEIGH
    ensures Built(o, m, h, c, log, seq0, base, i', j') && Logged(log, i', j') == Logged(log, i, j)
  {
    NoEntries(i, j);
    NoEntries(i', j');
  }

  /** After the last neighbour of a group its size is written and the next group starts. */
  method EndGroup(o: Output, msg: Message, c: Cursor, ghost h: Header, ghost log: Log, ghost seq0: nat,
                  ghost base: seq<seq<Byte>>,
                  ghost i: nat, ghost j: nat)
    returns (c': Cursor, ghost log': Log)
    requires Built(o, msg.bytes[..], h, c, log, seq0, base, i, j) && j < HIDE_LINK
    modifies msg.bytes, msg`top
    ensures Spot(c', msg.top) == Ended(Spot(c, old(msg.top)))
    ensures Built(o, msg.bytes[..], h, c', log', seq0, base, i, j) && log'.addrs == []
    ensures forall i', j' :: Logged(log', i', j') == Logged(log, i, j)
  {
    hide Built, Logged, Closed, WithWord;
    ClosedEntries(log, i, j);
    EndedBuilt(o, msg.bytes[..], h, c, log, seq0, base, i, j);
    c', log' := c, Log(log.frags, Closed(log, i, j), []);
    if !c.first {
      msg.PutWord(c.hinfo + 2, c.haddr - c.hinfo);
      c' := Cursor(c.curr, c.haddr, c.haddr + 4, true, c.remain);
    }
  }

  lemma EndedBuilt(o: Output, m: seq<Byte>, h: Header, c: Cursor, log: Log, seq0: nat, base: seq<seq<Byte>>, i: nat,
                   j: nat)
    requires Built(o, m, h, c, log, seq0, base, i, j) && j < HIDE_LINK
    ensures c.hinfo + 4 <= c.haddr <= |m|
    ensures var log' := Log(log.frags, Closed(log, i, j), []);
            if c.first then Built(o, m, h, c, log', seq0, base, i, j)
            else Built(o, WithWord(m, c.hinfo + 2, c.haddr - c.hinfo), h,
                       Cursor(c.curr, c.haddr, c.haddr + 4, true, c.remain),
                       log', seq0, base, i, j)
  {
    hide HeaderSet, BodySet, FragmentsPushed, Output.Valid, EncodeAddrs, LinkCode, WithWord, Reach;
    CloseWritten(m, h, c, log, i, j);
    WithinReach(c.curr, o.maxsize);
  }

  /** The loop over the neighbours for one status and link. */
  method AddGroup(o: Output, msg: Message, nbs: seq<Entry>, c: Cursor, ghost h: Header, ghost log: Log, ghost seq0: nat,
                  ghost base: seq<seq<Byte>>, ghost start: Spot, i: nat, j: nat)
    returns (ok: bool, c': Cursor, ghost log': Log)
    requires Built(o, msg.bytes[..], h, c, log, seq0, base, i, j) && log.addrs == [] && j < HIDE_LINK
    requires Logged(log, i, j) == Emitted(nbs, i, j, 0)
    requires Spot(c, msg.top) == Traced(start, nbs, o.maxsize, i, j, 0) && msg.top >= HELLO_HDRSIZE
    modifies msg.bytes, msg`top, o`buff, o`pushed, o`pending, o`msgSeqno, o`packets, o`sent
    ensures o.Valid() && (!ok ==> o.maxsize < HELLO_HDRSIZE + 8 && exists k :: 0 <= k < |nbs| && Sendable(nbs[k]))
    ensures ok ==> Built(o, msg.bytes[..], h, c', log', seq0, base, i, j) && log'.addrs == []
    ensures ok ==> Logged(log', i, j) == Emitted(nbs, i, j, |nbs|)
    ensures ok ==> Spot(c', msg.top) == Traced(start, nbs, o.maxsize, i, j + 1, 0) && msg.top >= HELLO_HDRSIZE
    ensures ok && o.maxsize < HELLO_HDRSIZE + 8 ==> Emitted(nbs, i, j, |nbs|) == Emitted(nbs, i, j, 0)
  {
    hide HeaderSet, BodySet, GroupSet, FragmentsPushed, Output.Valid, Logged, Emitted, Layout, Traced, Built;
    BuiltValid(o, msg.bytes[..], h, c, log, seq0, base, i, j);
    ok, c', log' := true, c, log;
    var k := 0;
    while k < |nbs|
      invariant 0 <= k <= |nbs| && ok && o.Valid() && Built(o, msg.bytes[..], h, c', log', seq0, base, i, j)
      invariant Logged(log', i, j) == Emitted(nbs, i, j, k)
      invariant Spot(c', msg.top) == Traced(start, nbs, o.maxsize, i, j, k) && msg.top >= HELLO_HDRSIZE
      invariant o.maxsize < HELLO_HDRSIZE + 8 ==> Emitted(nbs, i, j, k) == Emitted(nbs, i, j, 0)
    {
      EmittedUnfold(nbs, i, j, k + 1);
      TracedUnfold(start, nbs, o.maxsize, i, j, k);
      if Wanted(nbs[k], i, j) {
        ok, c', log' := AddNeighbor(o, msg, nbs[k], c', h, log', seq0, base, i, j);
        if !ok {
          return;
        }
      } else {
        assert Emitted(nbs, i, j, k) + [] == Emitted(nbs, i, j, k);
      }
      k := k + 1;
    }
    c', log' := EndGroup(o, msg, c', h, log', seq0, base, i, j);
    TracedNext(start, nbs, o.maxsize, i, j);
  }

  /** The loop over the link types for one status. */
  method AddStatus(o: Output, msg: Message, nbs: seq<Entry>, c: Cursor, ghost h: Header, ghost log: Log,
                   ghost seq0: nat,
                   ghost base: seq<seq<Byte>>, ghost start: Spot, i: nat)
    returns (ok: bool, c': Cursor, ghost log': Log)
    requires i <= MAX_NEIGH && Built(o, msg.bytes[..], h, c, log, seq0, base, i, 0) && log.addrs == []
    requires Logged(log, i, 0) == Emitted(nbs, i, 0, 0)
    requires Spot(c, msg.top) == Traced(start, nbs, o.maxsize, i, 0, 0) && msg.top >= HELLO_HDRSIZE
    modifies msg.bytes, msg`top, o`buff, o`pushed, o`pending, o`msgSeqno, o`packets, o`sent
    ensures o.Valid() && (!ok ==> o.maxsize < HELLO_HDRSIZE + 8 && exists k :: 0 <= k < |nbs| && Sendable(nbs[k]))
    ensures ok ==> Built(o, msg.bytes[..], h, c', log', seq0, base, i, 0) && log'.addrs == []
    ensures ok ==> Logged(log', i, 0) == Emitted(nbs, i, MAX_LINK + 1, 0)
    ensures ok ==> Spot(c', msg.top) == Traced(start, nbs, o.maxsize, i + 1, 0, 0) && msg.top >= HELLO_HDRSIZE
    ensures ok && o.maxsize < HELLO_HDRSIZE + 8 ==> Emitted(nbs, i, MAX_LINK + 1, 0) == Emitted(nbs, i, 0, 0)
  {
    hide Built, Logged, Emitted, Output.Valid, Traced;
    ok, c', log' := true, c, log;
    BuiltValid(o, msg.bytes[..], h, c, log, seq0, base, i, 0);
    var j := 0;
    while j <= MAX_LINK
      invariant 0 <= j <= MAX_LINK + 1 && ok && o.Valid() && Built(o, msg.bytes[..], h, c', log', seq0, base, i, j)
                && log'.addrs == []
      invariant Logged(log', i, j) == Emitted(nbs, i, j, 0)
      invariant Spot(c', msg.top) == Traced(start, nbs, o.maxsize, i, j, 0) && msg.top >= HELLO_HDRSIZE
      invariant o.maxsize < HELLO_HDRSIZE + 8 ==> Emitted(nbs, i, j, 0) == Emitted(nbs, i, 0, 0)
    {
      EmittedUnfold(nbs, i, j + 1, 0);
      TracedNext(start, nbs, o.maxsize, i, j);
      if j == HIDE_LINK {
        NothingHidden(nbs, i, |nbs|);
      } else {
        ok, c', log' := AddGroup(o, msg, nbs, c', h, log', seq0, base, start, i, j);
        if !ok {
          return;
        }
      }
      Regroup(o, msg.bytes[..], h, c', log', seq0, base, i, j, i, j + 1);
      j := j + 1;
    }
    Regroup(o, msg.bytes[..], h, c', log', seq0, base, i, j, i, 0);
    TracedNext(start, nbs, o.maxsize, i, MAX_LINK);
  }

  lemma BuiltValid(o: Output, m: seq<Byte>, h: Header, c: Cursor, log: Log, seq0: nat, base: seq<seq<Byte>>, i: nat,
                   j: nat)
    requires Built(o, m, h, c, log, seq0, base, i, j)
    ensures o.Valid() && i <= MAX_NEIGH
  {
  }

  lemma {:induction false} NothingHidden(nbs: seq<Entry>, i: nat, k: nat)
    requires k <= |nbs|
    ensures Emitted(nbs, i, HIDE_LINK, k) == Emitted(nbs, i, HIDE_LINK, 0)
    decreases k
  {
    if k > 0 {
      NothingHidden(nbs, i, k - 1);
      EmittedUnfold(nbs, i, HIDE_LINK, k);
      assert Emitted(nbs, i, HIDE_LINK, k - 1) + [] == Emitted(nbs, i, HIDE_LINK, k - 1);
    }
  }

  lemma StartBuilt(o: Output, m: seq<Byte>, h: Header)
    requires o.Valid() && o.maxsize < 65536 && |m| >= Reach(o.maxsize) && HeaderSet(m, h)
             && HELLO_HDRSIZE + |o.buff| <= o.maxsize
    ensures var c := Fresh(o.BytesLeft());
            Built(o, m, h, c, Log([], [], []), o.msgSeqno, o.pushed, 0, 0) && Logged(Log([], [], []), 0, 0) == []
  {
    NoEntries(0, 0);
  }

  lemma NoneSendable(nbs: seq<Entry>)
    ensures SendableOf(nbs) == [] <==> Emitted(nbs, MAX_NEIGH + 1, 0, 0) == []
    ensures (exists k :: 0 <= k < |nbs| && Sendable(nbs[k])) ==> SendableOf(nbs) != []
  {
    EmittedAll(nbs);
    assert |multiset(SendableOf(nbs))| == |SendableOf(nbs)|;
    if k :| 0 <= k < |nbs| && Sendable(nbs[k]) {
      SendableCount(nbs, nbs[k]);
      assert nbs[k] in multiset(nbs);
    }
  }

  /** The loops over all statuses and link types. */
  method AddAll(o: Output, msg: Message, nbs: seq<Entry>, c: Cursor, ghost h: Header, ghost seq0: nat,
                ghost base: seq<seq<Byte>>)
    returns (ok: bool, c': Cursor, ghost log: Log)
    requires Built(o, msg.bytes[..], h, c, Log([], [], []), seq0, base, 0, 0) && Logged(Log([], [], []), 0, 0) == []
    requires msg.top == HELLO_HDRSIZE
    modifies msg.bytes, msg`top, o`buff, o`pushed, o`pending, o`msgSeqno, o`packets, o`sent
    ensures o.Valid() && (ok <==> o.maxsize >= HELLO_HDRSIZE + 8 || SendableOf(nbs) == [])
    ensures ok ==> Built(o, msg.bytes[..], h, c', log, seq0, base, 0, 0) && log.addrs == []
    ensures ok ==> Logged(log, 0, 0) == Emitted(nbs, MAX_NEIGH + 1, 0, 0)
    ensures ok ==> Spot(c', msg.top) == Traced(Spot(c, HELLO_HDRSIZE), nbs, o.maxsize, MAX_NEIGH + 1, 0, 0)
    ensures ok ==> msg.top >= HELLO_HDRSIZE
  {
    hide Built, Logged, Emitted, Output.Valid, SendableOf, Traced;
    ghost var start := Spot(c, HELLO_HDRSIZE);
    TracedNext(start, nbs, o.maxsize, 0, 0);
    ok, c', log := true, c, Log([], [], []);
    BuiltValid(o, msg.bytes[..], h, c, log, seq0, base, 0, 0);
    EmittedUnfold(nbs, 0, 0, 0);
    NoneSendable(nbs);
    var i := 0;
    while i <= MAX_NEIGH
      invariant 0 <= i <= MAX_NEIGH + 1 && ok && o.Valid() && log.addrs == []
      invariant Built(o, msg.bytes[..], h, c', log, seq0, base, if i <= MAX_NEIGH then i else 0, 0)
      invariant Logged(log, if i <= MAX_NEIGH then i else 0, 0) == Emitted(nbs, i, 0, 0)
      invariant o.maxsize < HELLO_HDRSIZE + 8 ==> Emitted(nbs, i, 0, 0) == []
      invariant Spot(c', msg.top) == Traced(start, nbs, o.maxsize, i, 0, 0) && msg.top >= HELLO_HDRSIZE
    {
      ok, c', log := AddStatus(o, msg, nbs, c', h, log, seq0, base, start, i);
      if !ok {
        return;
      }
      EmittedUnfold(nbs, i + 1, 0, 0);
      Regroup(o, msg.bytes[..], h, c', log, seq0, base, i, 0, if i < MAX_NEIGH then i + 1 else 0, 0);
      i := i + 1;
    }
  }

  /** serialize_hello4. Not ok, where the original exits, exactly when the output buffer cannot hold a HELLO header, or
      a header and one entry if there is an entry to send. */
  method SerializeHello(o: Output, msg: Message, h: Header, nbs: seq<Entry>)
    returns (ok: bool, ghost frags: seq<seq<Group>>)
    requires o.Valid() && o.maxsize < 65536 && msg.bytes.Length >= Reach(o.maxsize)
    modifies msg.bytes, msg`top, o`buff, o`pushed, o`pending, o`msgSeqno, o`packets, o`sent
    ensures o.Valid()
    ensures ok <==> o.maxsize >= HELLO_HDRSIZE + 8 || (o.maxsize >= HELLO_HDRSIZE && SendableOf(nbs) == [])
    ensures ok ==> old(o.pushed) <= o.pushed && frags != [] && Flat(frags) == Emitted(nbs, MAX_NEIGH + 1, 0, 0)
    ensures ok ==> FragmentsPushed(o.pushed[|old(o.pushed)|..], h, old(o.msgSeqno), frags, o.maxsize)
    ensures ok ==> msg.top == Farthest(nbs, o.maxsize, StartRoom(o.maxsize, old(|o.buff|)))
    ensures ok ==> var messages := o.pushed[|old(o.pushed)|..];
                   forall e :: e in nbs && e.status <= 2 && e.link <= 3 <==>
                               exists i :: 0 <= i < |messages| && Says(messages[i], e)
  {
    hide Says, Built, Logged, Emitted, SendableOf, FragmentsPushed, BodySet, Flat, Concat, Traced, Reach;
    WithinReach(0, o.maxsize);
    frags := [];
    ghost var seq0, base := o.msgSeqno, o.pushed;
    var remain := o.BytesLeft();
    if HELLO_HDRSIZE > remain {
      o.Flush();
      remain := o.BytesLeft();
    }
    ok := HELLO_HDRSIZE <= remain;
    if !ok {
      return;
    }
    msg.top := 0;
    msg.PutHeader(h);
    StartBuilt(o, msg.bytes[..], h);
    var c: Cursor;
    ghost var log: Log;
    ok, c, log := AddAll(o, msg, nbs, Fresh(remain), h, seq0, base);
    if !ok {
      return;
    }
    ReadyToPush(o, msg.bytes[..], h, c, log, seq0, base);
    PushMessage(o, msg, c.curr, h, log.done, log.frags, seq0, base);
    frags := log.frags + [log.done];
    FlatAppend(log.frags, log.done);
    EachOnTheWire(nbs, o.pushed[|base|..], h, seq0, frags, o.maxsize);
  }

  lemma ReadyToPush(o: Output, m: seq<Byte>, h: Header, c: Cursor, log: Log, seq0: nat, base: seq<seq<Byte>>)
    requires Built(o, m, h, c, log, seq0, base, 0, 0) && log.addrs == []
    ensures HeaderSet(m, h) && BodySet(m, log.done, c.curr) && c.curr + |o.buff| <= o.maxsize
    ensures base <= o.pushed && FragmentsPushed(o.pushed[|base|..], h, seq0, log.frags, o.maxsize)
    ensures o.msgSeqno == (seq0 + |log.frags|) % 65536 && CodesOk(log.done)
    ensures Logged(log, 0, 0) == Flat(log.frags) + Entries(log.done)
  {
    NoEntries(0, 0);
    assert Flat(log.frags) + Entries(log.done) + [] == Flat(log.frags) + Entries(log.done);
  }

  // ---------- What a receiver finds in a packet ----------

  /** A message says how long it is. */
  predicate Framed(m: seq<Byte>) {
    4 <= |m| && Word(m[2], m[3]) == |m|
  }

  /** The loop of parse_packet over the messages of a packet: each starts where the size of the one before says; a
      message that does not fit ends it. */
  function SplitPacket(packet: seq<Byte>): seq<seq<Byte>>
    decreases |packet|
  {
    if |packet| < 4 then []
    else
      var size := Word(packet[2], packet[3]);
      if size == 0 || size > |packet| then [] else [packet[..size]] + SplitPacket(packet[size..])
  }

  function SplitAll(packets: seq<seq<Byte>>): seq<seq<Byte>> {
    if packets == [] then [] else SplitAll(packets[..|packets| - 1]) + SplitPacket(packets[|packets| - 1])
  }

  ghost predicate AllFramed(messages: seq<seq<Byte>>) {
    forall i :: 0 <= i < |messages| ==> Framed(messages[i])
  }

  lemma {:induction false} ConcatFront<T>(first: seq<T>, rest: seq<seq<T>>)
    ensures Concat([first] + rest) == first + Concat(rest)
    decreases |rest|
  {
    if rest == [] {
      ConcatOneMore([], first);
    } else {
      var last := |rest| - 1;
      ConcatFront(first, rest[..last]);
      ConcatOneMore([first] + rest[..last], rest[last]);
      assert [first] + rest == [first] + rest[..last] + [rest[last]];
    }
  }

  /** The sizes in the messages are enough to cut a packet into them again. */
  lemma {:induction false} SplitConcat(messages: seq<seq<Byte>>)
    requires AllFramed(messages)
    ensures SplitPacket(Concat(messages)) == messages
    decreases |messages|
  {
    hide Word, Concat;
    if messages == [] {
      ConcatNone();
    } else {
      var first, rest := messages[0], messages[1..];
      assert Framed(first) && messages == [first] + rest;
      ConcatFront(first, rest);
      var packet := Concat(messages);
      assert packet[2] == first[2] && packet[3] == first[3];
      assert packet[..|first|] == first && packet[|first|..] == Concat(rest);
      SplitConcat(rest);
    }
  }

  lemma ConcatNone()
    ensures Concat<Byte>([]) == [] && Concat<seq<Byte>>([]) == []
  {
  }

  lemma {:induction false} FramedParts(parts: seq<seq<seq<Byte>>>, i: nat)
    requires AllFramed(Concat(parts)) && i < |parts|
    ensures AllFramed(parts[i])
    decreases |parts|
  {
    hide Framed;
    var last := |parts| - 1;
    var before := Concat(parts[..last]);
    assert Concat(parts) == before + parts[last];
    if i == last {
      assert forall k :: 0 <= k < |parts[last]| ==> parts[last][k] == Concat(parts)[|before| + k];
    } else {
      assert forall k :: 0 <= k < |before| ==> before[k] == Concat(parts)[k];
      FramedParts(parts[..last], i);
    }
  }

  lemma {:induction false} SplitAllSent(packets: seq<seq<Byte>>, sent: seq<seq<seq<Byte>>>)
    requires |sent| == |packets| && forall i :: 0 <= i < |packets| ==>
                                      packets[i] == Concat(sent[i]) && AllFramed(sent[i])
    ensures SplitAll(packets) == Concat(sent)
    decreases |packets|
  {
    hide AllFramed, SplitPacket;
    if packets != [] {
      var last := |packets| - 1;
      SplitAllSent(packets[..last], sent[..last]);
      SplitConcat(sent[last]);
    }
  }

  lemma NonePending(pending: seq<seq<Byte>>)
    requires AllFramed(pending)
    ensures Concat(pending) == [] ==> pending == []
  {
    if pending != [] {
      assert Framed(pending[|pending| - 1]);
    }
  }

  /** When nothing is pending, a receiver finds in the packets exactly the messages that were pushed. */
  lemma PacketsCarryAll(o: Output)
    requires o.Valid() && AllFramed(o.pushed) && o.buff == []
    ensures SplitAll(o.packets) == o.pushed
  {
    hide Framed, SplitAll;
    assert AllFramed(o.pending) by {
      assert forall k :: 0 <= k < |o.pending| ==> o.pending[k] == o.pushed[|Concat(o.sent)| + k];
    }
    NonePending(o.pending);
    assert Concat(o.sent) + [] == Concat(o.sent);
    forall i | 0 <= i < |o.packets|
      ensures AllFramed(o.sent[i])
    {
      FramedParts(o.sent, i);
    }
    SplitAllSent(o.packets, o.sent);
  }

  // ---------- Round trip ----------

  /** What a receiver gets from all messages: None if one cannot be parsed. */
  function ParseAll(messages: seq<seq<Byte>>): Option<seq<Hello>> {
    if messages == [] then Some([])
    else
      var before := ParseAll(messages[..|messages| - 1]);
      var last := ParseMessage(messages[|messages| - 1]);
      if before.None? || last.None? then None else Some(before.value + [last.value])
  }

  function AllNeighbors(hellos: seq<Hello>): multiset<Entry> {
    if hellos == [] then multiset{}
    else AllNeighbors(hellos[..|hellos| - 1]) + multiset(hellos[|hellos| - 1].neighbors)
  }

  lemma OneFragment(message: seq<Byte>, h: Header, seqno: nat, groups: seq<Group>)
    requires message == EncodeMessage(h, seqno, groups) && |message| < 65536 && seqno < 65536 && CodesOk(groups)
    ensures ParseMessage(message) == Some(Hello(h, seqno, Reverse(Entries(groups))))
    ensures multiset(Reverse(Entries(groups))) == multiset(Entries(groups))
  {
    hide ParseMessage, Entries, CodeOk;
    EncodedSize(h, seqno, groups);
    MessageRoundTrip(h, seqno, groups);
    ReverseMultiset(Entries(groups));
  }

  lemma ParseOneMore(before: seq<seq<Byte>>, hellos: seq<Hello>, message: seq<Byte>, hello: Hello)
    requires ParseAll(before) == Some(hellos) && ParseMessage(message) == Some(hello)
    ensures ParseAll(before + [message]) == Some(hellos + [hello])
    ensures AllNeighbors(hellos + [hello]) == AllNeighbors(hellos) + multiset(hello.neighbors)
  {
    hide ParseMessage;
    assert (before + [message])[..|before|] == before;
    assert (hellos + [hello])[..|hellos|] == hellos;
  }

  lemma NothingParsed()
    ensures ParseAll([]) == Some([]) && AllNeighbors([]) == multiset{} && Flat([]) == []
  {
  }

  lemma {:induction false} FragmentsParse(messages: seq<seq<Byte>>, h: Header, seq0: nat, frags: seq<seq<Group>>,
                                          limit: nat)
    requires FragmentsPushed(messages, h, seq0, frags, limit) && limit < 65536
    ensures var r := ParseAll(messages);
            && r.Some? && |r.value| == |messages| && AllNeighbors(r.value) == multiset(Flat(frags))
            && forall k :: 0 <= k < |r.value| ==> r.value[k].header == h && r.value[k].seqno == (seq0 + k) % 65536
    decreases |messages|
  {
    hide ParseMessage, EncodeMessage, Entries, CodeOk, Reverse, ParseAll, AllNeighbors, Flat;
    if messages == [] {
      NothingParsed();
    } else {
      var last := |messages| - 1;
      var seqno := (seq0 + last) % 65536;
      FragmentsParse(messages[..last], h, seq0, frags[..last], limit);
      OneFragment(messages[last], h, seqno, frags[last]);
      var before := ParseAll(messages[..last]).value;
      ParseOneMore(messages[..last], before, messages[last], Hello(h, seqno, Reverse(Entries(frags[last]))));
      FlatAppend(frags[..last], frags[last]);
      assert messages == messages[..last] + [messages[last]] && frags == frags[..last] + [frags[last]];
    }
  }

  lemma EncodedSize(h: Header, seqno: nat, groups: seq<Group>)
    ensures |EncodeMessage(h, seqno, groups)| == HELLO_HDRSIZE + |EncodeGroups(groups)|
  {
  }

  /** Fragmentation loses nothing: from the fragments of one HELLO the parser gets exactly the sendable neighbours, each
      as often as it was listed, and every fragment carries the same header and fits the buffer. */
  lemma FragmentationRoundTrip(nbs: seq<Entry>, messages: seq<seq<Byte>>, h: Header, seq0: nat, frags: seq<seq<Group>>,
                               limit: nat)
    requires FragmentsPushed(messages, h, seq0, frags, limit) && limit < 65536
             && Flat(frags) == Emitted(nbs, MAX_NEIGH + 1, 0, 0)
    ensures var r := ParseAll(messages);
            && r.Some? && AllNeighbors(r.value) == multiset(SendableOf(nbs))
            && forall k :: 0 <= k < |r.value| ==> r.value[k].header == h
    ensures forall k :: 0 <= k < |messages| ==> |messages[k]| <= limit
  {
    FragmentsParse(messages, h, seq0, frags, limit);
    EmittedAll(nbs);
  }

  lemma FragmentsFramed(messages: seq<seq<Byte>>, h: Header, seq0: nat, frags: seq<seq<Group>>, limit: nat)
    requires FragmentsPushed(messages, h, seq0, frags, limit) && limit < 65536
    ensures AllFramed(messages)
  {
    hide EncodeGroups, Hi, Lo, Word;
    forall k | 0 <= k < |messages|
      ensures Framed(messages[k])
    {
      WordRoundTrip(|messages[k]|);
    }
  }

  lemma {:induction false} InSomeHello(hellos: seq<Hello>, e: Entry)
    ensures e in AllNeighbors(hellos) <==> exists i :: 0 <= i < |hellos| && e in hellos[i].neighbors
    decreases |hellos|
  {
    if hellos != [] {
      var before := hellos[..|hellos| - 1];
      InSomeHello(before, e);
      assert forall i :: 0 <= i < |before| ==> before[i] == hellos[i];
    }
  }

  lemma {:induction false} ParsedEach(messages: seq<seq<Byte>>, i: nat)
    requires ParseAll(messages).Some? && i < |messages|
    ensures |ParseAll(messages).value| == |messages| && ParseMessage(messages[i]) == Some(ParseAll(messages).value[i])
    decreases |messages|
  {
    hide ParseMessage;
    var before := messages[..|messages| - 1];
    if before != [] {
      ParsedEach(before, if i < |before| then i else 0);
    }
  }

  /** A message says this of a neighbour: it has a group whose first byte has the link in the two lowest bits and the
      status in the next two, and the address is one of that group. */
  ghost predicate Says(m: seq<Byte>, e: Entry) {
    exists at: nat, k: nat :: Slot(m, at, k) && m[at] % 4 == e.link && m[at] / 4 % 4 == e.status
                              && m[at + 4 + 4 * k..at + 8 + 4 * k] == e.address
  }

  lemma ParsedSays(m: seq<Byte>, e: Entry)
    requires ParseMessage(m).Some?
    ensures e in ParseMessage(m).value.neighbors <==> Says(m, e)
  {
    hide ParseMessage, Slot;
    ParsedExactly(m);
    forall at: nat, k: nat | Slot(m, at, k)
      ensures at + 8 + 4 * k <= |m|
    {
      SlotFits(m, at, k);
    }
    if Says(m, e) {
      var at: nat, k: nat :| Slot(m, at, k) && m[at] % 4 == e.link && m[at] / 4 % 4 == e.status
                             && m[at + 4 + 4 * k..at + 8 + 4 * k] == e.address;
      assert e == Entry(m[at + 4 + 4 * k..at + 8 + 4 * k], m[at] % 4, m[at] / 4 % 4);
    }
  }

  lemma SlotFits(m: seq<Byte>, at: nat, k: nat)
    ensures Slot(m, at, k) ==> at + 8 + 4 * k <= |m|
  {
    hide StartsAt;
  }

  /** What is on the wire, byte by byte: some fragment says something of an entry exactly if the entry is a sendable
      neighbour. */
  lemma OnTheWire(nbs: seq<Entry>, messages: seq<seq<Byte>>, h: Header, seq0: nat, frags: seq<seq<Group>>, limit: nat,
                  e: Entry)
    requires FragmentsPushed(messages, h, seq0, frags, limit) && limit < 65536
             && Flat(frags) == Emitted(nbs, MAX_NEIGH + 1, 0, 0)
    ensures e in nbs && e.status <= 2 && e.link <= 3 <==> exists i :: 0 <= i < |messages| && Says(messages[i], e)
  {
    hide FragmentsPushed, ParseAll, AllNeighbors, Says, ParseMessage, Flat, Emitted;
    FragmentationRoundTrip(nbs, messages, h, seq0, frags, limit);
    SendableCount(nbs, e);
    var hellos := ParseAll(messages).value;
    InSomeHello(hellos, e);
    SameNumber(messages, h, seq0, frags, limit);
    FragmentsParse(messages, h, seq0, frags, limit);
    forall i | 0 <= i < |messages|
      ensures e in hellos[i].neighbors <==> Says(messages[i], e)
    {
      ParsedEach(messages, i);
      ParsedSays(messages[i], e);
    }
  }

  lemma EachOnTheWire(nbs: seq<Entry>, messages: seq<seq<Byte>>, h: Header, seq0: nat, frags: seq<seq<Group>>,
                      limit: nat)
    requires FragmentsPushed(messages, h, seq0, frags, limit) && limit < 65536
             && Flat(frags) == Emitted(nbs, MAX_NEIGH + 1, 0, 0)
    ensures forall e :: e in nbs && e.status <= 2 && e.link <= 3 <==>
                        exists i :: 0 <= i < |messages| && Says(messages[i], e)
  {
    hide FragmentsPushed, Says, Flat, Emitted;
    forall e
      ensures e in nbs && e.status <= 2 && e.link <= 3 <==> exists i :: 0 <= i < |messages| && Says(messages[i], e)
    {
      OnTheWire(nbs, messages, h, seq0, frags, limit, e);
    }
  }

  /** A HELLO goes out over an output buffer. In the packets the receiver finds the messages that were pushed before and
      then its own, and from these it gets exactly the sendable neighbours. */
  method SendAndReceive(o: Output, msg: Message, h: Header, nbs: seq<Entry>)
    returns (ok: bool, ghost received: seq<Hello>)
    requires o.Valid() && o.maxsize < 65536 && msg.bytes.Length >= Reach(o.maxsize) && AllFramed(o.pushed)
    modifies msg.bytes, msg`top, o`buff, o`pushed, o`pending, o`msgSeqno, o`packets, o`sent
    ensures o.Valid() && (o.maxsize >= HELLO_HDRSIZE + 8 ==> ok)
    ensures ok ==> var messages := SplitAll(o.packets);
                   && old(o.pushed) <= messages && ParseAll(messages[|old(o.pushed)|..]) == Some(received)
                   && received != []
    ensures ok ==> AllNeighbors(received) == multiset(SendableOf(nbs))
                   && forall k :: 0 <= k < |received| ==> received[k].header == h
  {
    hide FragmentsPushed, Emitted, SendableOf, Flat, Output.Valid, ParseAll, AllNeighbors, SplitAll, Framed;
    ghost var frags;
    ghost var seq0 := o.msgSeqno;
    ok, frags := SerializeHello(o, msg, h, nbs);
    received := [];
    if ok {
      ghost var messages := o.pushed[|old(o.pushed)|..];
      FragmentationRoundTrip(nbs, messages, h, seq0, frags, o.maxsize);
      FragmentsParse(messages, h, seq0, frags, o.maxsize);
      FragmentsFramed(messages, h, seq0, frags, o.maxsize);
      SameNumber(messages, h, seq0, frags, o.maxsize);
      received := ParseAll(messages).value;
      o.Flush();
      assert o.pushed == old(o.pushed) + messages;
      PacketsCarryAll(o);
    }
  }

  /** The same for a fresh interface and the message buffer of the original, for every MTU for which it is large enough.
      */
  method SendOverInterface(mtu: nat, h: Header, nbs: seq<Entry>)
    returns (packets: seq<seq<Byte>>, ghost received: seq<Hello>)
    requires UDP_IPV4_HDRSIZE + OLSR_HEADERSIZE + HELLO_HDRSIZE + 8 <= mtu < MAXMESSAGESIZE + UDP_IPV4_HDRSIZE
    ensures ParseAll(SplitAll(packets)) == Some(received) && AllNeighbors(received) == multiset(SendableOf(nbs))
    ensures forall i :: 0 <= i < |packets| ==> |packets[i]| + OLSR_HEADERSIZE + UDP_IPV4_HDRSIZE <= mtu
  {
    hide ParseAll, AllNeighbors, SendableOf, SplitAll;
    var o := new Output(MaxSize(mtu));
    var msg := new Message(MSG_BUFFER_SIZE);
    var ok;
    ok, received := SendAndReceive(o, msg, h, nbs);
    packets := o.packets;
    assert SplitAll(packets)[0..] == SplitAll(packets);
  }

  /** For a larger MTU there is a HELLO that is written beyond the message buffer, into the memory behind it. */
  method Overrun(mtu: nat, h: Header) returns (msg: Message)
    requires MAXMESSAGESIZE + UDP_IPV4_HDRSIZE <= mtu < 65536
    ensures msg.top > MSG_BUFFER_SIZE
  {
    hide Farthest, Overfull, FragmentsPushed, Emitted, SendableOf, Flat, Concat;
    var o := new Output(MaxSize(mtu));
    msg := new Message(mtu);
    WithinReach(0, MaxSize(mtu));
    OverfullWrites(MaxSize(mtu));
    ghost var frags;
    var ok;
    ok, frags := SerializeHello(o, msg, h, Overfull());
  }

  lemma SameNumber(messages: seq<seq<Byte>>, h: Header, seq0: nat, frags: seq<seq<Group>>, limit: nat)
    requires FragmentsPushed(messages, h, seq0, frags, limit)
    ensures |messages| == |frags|
  {
  }
}
