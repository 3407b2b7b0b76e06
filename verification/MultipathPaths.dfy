/** The path cache: one entry for each (source, destination) pair, holding its paths in a ring that is
    used round-robin and cut open to be freed. */
module MultipathPaths {
  import opened Common

  class OlsrPath {
    const path: seq<nat>        // addresses, destination last
    const pathHops: int
    var next: OlsrPath?

    constructor (path: seq<nat>, pathHops: int)
      ensures this.path == path && this.pathHops == pathHops && next == null
    {
      this.path, this.pathHops, next := path, pathHops, null;
    }
  }

  class PathBuffer {
    const src: nat
    const dst: nat
    var lstPath: OlsrPath?
    ghost var ring: seq<OlsrPath>

    constructor (src: nat, dst: nat)
      ensures this.src == src && this.dst == dst && lstPath == null && ring == []
    {
      this.src, this.dst, lstPath, ring := src, dst, null, [];
    }

    ghost predicate RingOk()
      reads this`lstPath, this`ring, ring`next
    {
      && lstPath == Head(ring)
      && Distinct(ring)
      && forall i {:trigger ring[i].next} :: 0 <= i < |ring| ==> ring[i].next == Succ(ring, i)
    }

    /** A new path goes in right after the current one. */
    method Insert(path: OlsrPath)
      requires RingOk() && path !in ring
      modifies this`lstPath, this`ring, ring`next, path`next
      ensures RingOk()
      ensures ring == if old(ring) == [] then [path] else [old(ring)[0], path] + old(ring)[1..]
    {
      if lstPath == null {
        path.next := path;
        lstPath := path;
        ring := [path];
      } else {
        path.next := lstPath.next;
        lstPath.next := path;
        ring := [ring[0], path] + ring[1..];
      }
    }

    /** A cache hit takes the current path and moves on to the next. */
    method Hit() returns (path: OlsrPath?)
      requires RingOk()
      modifies this`lstPath, this`ring
      ensures RingOk() && path == Head(old(ring)) && ring == Rotate(old(ring))
    {
      path := lstPath;
      if path != null {
        lstPath := path.next;
        ring := Rotate(ring);
      }
    }
  }

  ghost function Head(ring: seq<OlsrPath>): OlsrPath? {
    if ring == [] then null else ring[0]
  }

  ghost function Succ(ring: seq<OlsrPath>, i: nat): OlsrPath
    requires i < |ring|
  {
    if i + 1 == |ring| then ring[0] else ring[i + 1]
  }

  function Rotate<T>(ring: seq<T>): seq<T> {
    if ring == [] then [] else ring[1..] + [ring[0]]
  }

  /** What n hits in a row return. */
  function Hits<T>(ring: seq<T>, n: nat): (taken: seq<T>)
    requires ring != []
    ensures |taken| == n
    decreases n
  {
    if n == 0 then [] else [ring[0]] + Hits(Rotate(ring), n - 1)
  }

  function Rotations<T>(ring: seq<T>, n: nat): seq<T>
    decreases n
  {
    if n == 0 then ring else Rotations(Rotate(ring), n - 1)
  }

  lemma {:induction false} HitsFrom<T>(ring: seq<T>, n: nat)
    requires ring != [] && n <= |ring|
    ensures Hits(ring, n) == ring[..n] && Rotations(ring, n) == ring[n..] + ring[..n]
    decreases n
  {
    if n > 0 {
      HitsFrom(Rotate(ring), n - 1);
      RotateSlices(ring, n);
    }
  }

  /** One more hit. */
  lemma {:induction false} MoreHits<T>(ring: seq<T>, n: nat)
    requires ring != []
    ensures Rotations(ring, n) != [] && Rotations(ring, n + 1) == Rotate(Rotations(ring, n))
    ensures Hits(ring, n + 1) == Hits(ring, n) + [Rotations(ring, n)[0]]
    decreases n
  {
    hide Rotate;
    var next := Rotate(ring);
    RotateNonempty(ring);
    if n == 0 {
      assert Hits(next, 0) == [] && Rotations(ring, 1) == Rotations(next, 0) == next;
    } else {
      MoreHits(next, n - 1);
      assert Rotations(ring, n) == Rotations(next, n - 1) && Rotations(ring, n + 1) == Rotations(next, n);
      assert Hits(ring, n) == [ring[0]] + Hits(next, n - 1) && Hits(ring, n + 1) == [ring[0]] + Hits(next, n);
    }
  }

  lemma RotateNonempty<T>(ring: seq<T>)
    ensures Rotate(ring) == [] <==> ring == []
  {
  }

  lemma RotateSlices<T>(ring: seq<T>, n: nat)
    requires 0 < n <= |ring|
    ensures [ring[0]] + Rotate(ring)[..n - 1] == ring[..n]
    ensures Rotate(ring)[n - 1..] + Rotate(ring)[..n - 1] == ring[n..] + ring[..n]
  {
    assert Rotate(ring)[..n - 1] == ring[1..n];
    assert Rotate(ring)[n - 1..] == ring[n..] + [ring[0]];
  }

  /** Round-robin fairness: as many hits as there are paths return each of them exactly once and leave the
      ring as it was. */
  lemma FullRound<T>(ring: seq<T>)
    requires ring != []
    ensures Hits(ring, |ring|) == ring && Rotations(ring, |ring|) == ring
  {
    HitsFrom(ring, |ring|);
    assert ring[|ring|..] + ring[..|ring|] == ring;
  }

  // ---------- Freeing ----------

  /** The entries are different objects and their rings, all within paths, share no path. */
  ghost predicate RingsOk(buffers: seq<PathBuffer>, paths: set<OlsrPath>)
    reads buffers`ring, buffers`lstPath, paths`next
  {
    && Distinct(buffers)
    && (forall b, p :: b in buffers && p in b.ring ==> p in paths)
    && (forall b :: b in buffers ==> b.RingOk())
    && Apart(buffers)
  }

  ghost predicate Apart(buffers: seq<PathBuffer>)
    reads buffers`ring
  {
    forall i, j, p :: 0 <= i < |buffers| && 0 <= j < |buffers| && i != j && p in buffers[i].ring ==>
        p !in buffers[j].ring
  }

  /** The loop that cuts one ring open at its end. */
  method CutRing(b: PathBuffer)
    requires b.RingOk()
    modifies b.ring`next
    ensures forall i {:trigger b.ring[i].next} :: 0 <= i < |b.ring| ==>
                       b.ring[i].next == if i + 1 == |b.ring| then null else b.ring[i + 1]
  {
    var path, first := b.lstPath, b.lstPath;
    ghost var i := 0;
    while path != null
      invariant 0 <= i <= |b.ring| && path == (if i < |b.ring| then b.ring[i] else null)
      invariant forall j {:trigger b.ring[j].next} :: 0 <= j < |b.ring| ==>
                            b.ring[j].next == if j + 1 == |b.ring| && i == |b.ring| then null else Succ(b.ring, j)
      decreases |b.ring| - i
    {
      if path.next == first {
        path.next := null;
      }
      path := path.next;
      i := i + 1;
    }
  }

  /** Cuts one ring and frees its paths. */
  method FreeRing(b: PathBuffer) returns (freed: seq<OlsrPath>)
    requires b.RingOk()
    modifies b.ring`next
    ensures freed == b.ring
  {
    CutRing(b);
    freed := [];
    var path := b.lstPath;
    ghost var i := 0;
    while path != null
      invariant 0 <= i <= |b.ring| && path == (if i < |b.ring| then b.ring[i] else null)
      invariant freed == b.ring[..i]
      decreases |b.ring| - i
    {
      freed := freed + [path];
      path := path.next;
      i := i + 1;
    }
  }

  /** Freeing one entry leaves the rings of the others whole. */
  method FreeEntry(buffers: seq<PathBuffer>, c: nat) returns (freed: seq<OlsrPath>)
    requires c < |buffers| && Apart(buffers) && forall i :: c <= i < |buffers| ==> buffers[i].RingOk()
    modifies buffers[c].ring`next
    ensures freed == buffers[c].ring
    ensures forall i :: c < i < |buffers| ==> buffers[i].RingOk()
  {
    freed := FreeRing(buffers[c]);
    forall i | c < i < |buffers|
      ensures buffers[i].RingOk()
    {
      RingApart(buffers, c, i);
      assert old(buffers[i].RingOk());
      forall j | 0 <= j < |buffers[i].ring|
        ensures buffers[i].ring[j].next == old(buffers[i].ring[j].next)
      {
        assert buffers[i].ring[j] in buffers[i].ring;
      }
    }
  }

  /** free_path_buffer: every ring is cut and every path freed exactly once, ring by ring. */
  method FreePathBuffer(buffers: seq<PathBuffer>, ghost paths: set<OlsrPath>) returns (freed: seq<OlsrPath>)
    requires RingsOk(buffers, paths)
    modifies paths`next
    ensures freed == AllRings(buffers) && Distinct(freed)
  {
    hide PathBuffer.RingOk, AllRings, Distinct, Apart;
    RingsDistinct(buffers, |buffers|, paths);
    WholeList(buffers);
    NoRings();
    freed := [];
    var c := 0;
    while c < |buffers|
      invariant 0 <= c <= |buffers|
      invariant freed == AllRings(buffers[..c])
      invariant Apart(buffers)
      invariant forall i :: c <= i < |buffers| ==> buffers[i].RingOk()
    {
      assert forall p :: p in buffers[c].ring ==> p in paths;
      var more := FreeEntry(buffers, c);
      AllRingsStep(buffers, c);
      freed := freed + more;
      c := c + 1;
    }
  }

  lemma RingApart(buffers: seq<PathBuffer>, c: nat, i: nat)
    requires Apart(buffers) && c < i < |buffers|
    ensures forall p :: p in buffers[c].ring ==> p !in buffers[i].ring
    ensures forall p :: p in buffers[i].ring ==> p !in buffers[c].ring
  {
  }

  lemma NoRings()
    ensures AllRings([]) == []
  {
  }

  lemma WholeList(buffers: seq<PathBuffer>)
    ensures buffers[..|buffers|] == buffers && buffers[..0] == []
  {
  }

  ghost function AllRings(buffers: seq<PathBuffer>): seq<OlsrPath>
    reads buffers`ring
  {
    if buffers == [] then [] else AllRings(buffers[..|buffers| - 1]) + buffers[|buffers| - 1].ring
  }

  lemma AllRingsStep(buffers: seq<PathBuffer>, c: nat)
    requires c < |buffers|
    ensures AllRings(buffers[..c + 1]) == AllRings(buffers[..c]) + buffers[c].ring
  {
    assert buffers[..c + 1][..c] == buffers[..c];
  }

  lemma DistinctAppend<T>(a: seq<T>, b: seq<T>)
    requires Distinct(a) && Distinct(b) && forall x :: x in a ==> x !in b
    ensures Distinct(a + b)
  {
    forall i, j | 0 <= i < j < |a + b|
      ensures (a + b)[i] != (a + b)[j]
    {
      if i < |a| <= j {
        assert a[i] in a && b[j - |a|] in b;
      }
    }
  }

  ghost predicate InSomeRing(buffers: seq<PathBuffer>, c: nat, p: OlsrPath)
    requires c <= |buffers|
    reads buffers`ring
  {
    exists i :: 0 <= i < c && p in buffers[i].ring
  }

  lemma {:induction false} RingsDistinct(buffers: seq<PathBuffer>, c: nat, paths: set<OlsrPath>)
    requires RingsOk(buffers, paths) && c <= |buffers|
    ensures Distinct(AllRings(buffers[..c]))
    ensures forall p :: p in AllRings(buffers[..c]) ==> InSomeRing(buffers, c, p)
  {
    WholeList(buffers);
    if c > 0 {
      RingsDistinct(buffers, c - 1, paths);
      AllRingsStep(buffers, c - 1);
      assert buffers[c - 1].RingOk();
      var earlier := AllRings(buffers[..c - 1]);
      forall p | p in earlier
        ensures p !in buffers[c - 1].ring
      {
        assert InSomeRing(buffers, c - 1, p);
        var i :| 0 <= i < c - 1 && p in buffers[i].ring;
        assert buffers[i] != buffers[c - 1];
      }
      DistinctAppend(earlier, buffers[c - 1].ring);
      forall p | p in earlier + buffers[c - 1].ring
        ensures InSomeRing(buffers, c, p)
      {
        if p in earlier {
          assert InSomeRing(buffers, c - 1, p);
        }
      }
    }
  }
}
