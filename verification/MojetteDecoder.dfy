/** The peeling decoders: count the undecoded pixels of every bin, queue the bins
    that hold exactly one, decode it and take it out of every projection. */
module MojetteDecoder {
  import opened MojetteGeometry
  import opened MojetteTransform
  import opened MojetteCodec

  /** A queued bin: bin b of projection i. */
  datatype Univoc = Univoc(i: nat, b: nat)

  /** pu and pd: for every bin, how many pixels of s it holds and the sum of their indices. */
  ghost predicate Counts(u: seq<nat>, sum: seq<int>, d: Direction, l: nat, k: nat, s: set<Pixel>) {
    && |u| == |sum|
    && forall b :: 0 <= b < |u| ==>
                     u[b] == |BinSet(s, d, l, b)| && sum[b] == IndexSum(BinSet(s, d, l, b), k)
  }

  /** Everything known about one projection while the pixels of s are undecoded. */
  ghost predicate Tracks(u: seq<nat>, sum: seq<int>, bins: seq<bv8>, d: Direction, l: nat, k: nat, s: set<Pixel>,
                         image: seq<bv8>)
  {
    |u| == |bins| == Size(d, l, k) && Counts(u, sum, d, l, k, s) && Holds(bins, d, l, k, s, image)
  }

  ghost predicate AddedAt(now: seq<int>, was: seq<int>, c: int, n: int) {
    && |now| == |was|
    && forall b :: 0 <= b < |now| ==> now[b] == if b == c then was[b] + n else was[b]
  }

  lemma CountsAdd(u: seq<nat>, sum: seq<int>, u0: seq<nat>, sum0: seq<int>, d: Direction, l: nat, k: nat,
                  s: set<Pixel>, x: Pixel)
    requires x !in s && Counts(u0, sum0, d, l, k, s)
    requires AddedAt(u, u0, BinOf(d, l, x), 1) && AddedAt(sum, sum0, BinOf(d, l, x), Index(x, k))
    ensures Counts(u, sum, d, l, k, s + {x})
  {
    forall b | 0 <= b < |u|
      ensures u[b] == |BinSet(s + {x}, d, l, b)| && sum[b] == IndexSum(BinSet(s + {x}, d, l, b), k)
    {
      BinSums(s, d, l, k, b, x, []);
    }
  }

  lemma TracksRemove(u: seq<nat>, sum: seq<int>, bins: seq<bv8>, u0: seq<nat>, sum0: seq<int>, bins0: seq<bv8>,
                     d: Direction, l: nat, k: nat, s: set<Pixel>, x: Pixel, image: seq<bv8>)
    requires x in s && Tracks(u0, sum0, bins0, d, l, k, s, image)
    requires AddedAt(u, u0, BinOf(d, l, x), -1) && AddedAt(sum, sum0, BinOf(d, l, x), -Index(x, k))
    requires XoredAt(bins, bins0, BinOf(d, l, x), At(image, k, x))
    ensures Tracks(u, sum, bins, d, l, k, s - {x}, image)
  {
    hide Size;
    assert s - {x} + {x} == s;
    forall b | 0 <= b < |u|
      ensures u[b] == |BinSet(s - {x}, d, l, b)| && sum[b] == IndexSum(BinSet(s - {x}, d, l, b), k)
      ensures bins[b] == XorOver(BinSet(s - {x}, d, l, b), image, k)
    {
      BinSums(s - {x}, d, l, k, b, x, image);
      XorCancel(At(image, k, x), XorOver(BinSet(s - {x}, d, l, b), image, k));
      XorRight(XorOver(BinSet(s - {x}, d, l, b), image, k), At(image, k, x));
    }
  }

  lemma XorRight(a: bv8, b: bv8)
    ensures (a ^ b) ^ b == a
  {
  }

  // ---------- Memory ----------

  ghost function Arrays<T>(a: seq<array<T>>): set<array<T>> {
    set i | 0 <= i < |a| :: a[i]
  }

  ghost predicate AllDifferent<T(!new)>(a: seq<array<T>>) {
    forall i, j :: 0 <= i < j < |a| ==> a[i] != a[j]
  }

  predicate Apart(bytes: array<bv8>, u: array<nat>, sum: array<int>) {
    (bytes as object) != (u as object) && (bytes as object) != (sum as object)
  }

  /** One counter and one index sum for every bin of every projection. */
  ghost predicate Matching(support: Support, projections: seq<Projection>, pu: seq<array<nat>>, pd: seq<array<int>>) {
    && |pu| == |pd| == |projections|
    && (forall i :: 0 <= i < |projections| ==> pu[i].Length == pd[i].Length == projections[i].bins.Length)
    && AllDifferent(pu) && AllDifferent(pd)
    && (forall i, j :: 0 <= i < |pu| && 0 <= j < |pd| ==> (pu[i] as object) != (pd[j] as object))
    && (forall i, j :: 0 <= i < |pu| && 0 <= j < |pu| ==> Apart(projections[i].bins, pu[j], pd[j]))
    && forall j :: 0 <= j < |pu| ==> Apart(support.pixels, pu[j], pd[j])
  }

  ghost predicate TracksAt(support: Support, p: Projection, u: array<nat>, sum: array<int>, s: set<Pixel>,
                           image: seq<bv8>)
    reads p.bins, u, sum
  {
    Tracks(u[..], sum[..], p.bins[..], p.d, support.l, support.k, s, image)
  }

  ghost predicate AllTrack(support: Support, projections: seq<Projection>, pu: seq<array<nat>>, pd: seq<array<int>>,
                           s: set<Pixel>, image: seq<bv8>)
    requires |pu| == |pd| == |projections|
    reads Bins(projections), Arrays(pu), Arrays(pd)
  {
    forall i :: 0 <= i < |projections| ==> TracksAt(support, projections[i], pu[i], pd[i], s, image)
  }

  // ---------- Counting ----------

  method AllocateCounters(support: Support, projections: seq<Projection>)
    returns (pu: seq<array<nat>>, pd: seq<array<int>>)
    ensures Matching(support, projections, pu, pd)
    ensures fresh(Arrays(pu)) && fresh(Arrays(pd))
    ensures forall i, b :: 0 <= i < |projections| && 0 <= b < projections[i].bins.Length ==>
              pu[i][b] == 0 && pd[i][b] == 0
  {
    pu, pd := [], [];
    var i := 0;
    while i < |projections|
      invariant 0 <= i <= |projections|
      invariant |pu| == |pd| == i
      invariant forall j :: 0 <= j < i ==> pu[j].Length == pd[j].Length == projections[j].bins.Length
      invariant forall j :: 0 <= j < i ==> fresh(pu[j]) && fresh(pd[j])
      invariant AllDifferent(pu) && AllDifferent(pd)
      invariant forall a, b :: 0 <= a < |projections| && 0 <= b < i ==> Apart(projections[a].bins, pu[b], pd[b])
      invariant forall b :: 0 <= b < i ==> Apart(support.pixels, pu[b], pd[b])
      invariant forall a, b :: 0 <= a < i && 0 <= b < i ==> (pu[a] as object) != (pd[b] as object)
      invariant forall j, b :: 0 <= j < i && 0 <= b < projections[j].bins.Length ==> pu[j][b] == 0 && pd[j][b] == 0
    {
      var u := new nat[projections[i].bins.Length](_ => 0);
      var sum := new int[projections[i].bins.Length](_ => 0);
      pu, pd := pu + [u], pd + [sum];
      i := i + 1;
    }
  }

  method CountInBin(support: Support, p: Projection, u: array<nat>, sum: array<int>, l: nat, k: nat, d: int,
                    ghost s: set<Pixel>)
    requires support.Valid() && p.Valid(support.l, support.k)
    requires u.Length == sum.Length == p.bins.Length && (u as object) != (sum as object)
    requires l < support.l && k < support.k && Pixel(l, k) !in s && d == Index(Pixel(l, k), support.k)
    requires Counts(u[..], sum[..], p.d, support.l, support.k, s)
    modifies u, sum
    ensures Counts(u[..], sum[..], p.d, support.l, support.k, s + {Pixel(l, k)})
  {
    BinInRange(p.d, support.l, support.k, Pixel(l, k));
    hide Size;
    ghost var u0, sum0 := u[..], sum[..];
    var offset := if p.d.p < 0 then (support.l - 1) * p.d.p else 0;
    var b := k * p.d.q + l * p.d.p - offset;
    u[b] := u[b] + 1;
    sum[b] := sum[b] + d;
    CountsAdd(u[..], sum[..], u0, sum0, p.d, support.l, support.k, s, Pixel(l, k));
  }

  method CountPixel(support: Support, projections: seq<Projection>, pu: seq<array<nat>>, pd: seq<array<int>>,
                    l: nat, k: nat, d: int, ghost s: set<Pixel>)
    requires Fit(support, projections) && Matching(support, projections, pu, pd)
    requires l < support.l && k < support.k && Pixel(l, k) !in s && d == Index(Pixel(l, k), support.k)
    requires AllCounted(support, projections, pu, pd, s)
    modifies Arrays(pu), Arrays(pd)
    ensures AllCounted(support, projections, pu, pd, s + {Pixel(l, k)})
  {
    hide Size, Area, Index, Counts;
    var i := 0;
    while i < |projections|
      invariant 0 <= i <= |projections|
      invariant forall j :: 0 <= j < |projections| ==>
                              Counts(pu[j][..], pd[j][..], projections[j].d, support.l, support.k,
                                     if j < i then s + {Pixel(l, k)} else s)
    {
      CountInBin(support, projections[i], pu[i], pd[i], l, k, d, s);
      i := i + 1;
    }
  }

  ghost predicate AllCounted(support: Support, projections: seq<Projection>, pu: seq<array<nat>>, pd: seq<array<int>>,
                             s: set<Pixel>)
    requires |pu| == |pd| == |projections|
    reads Arrays(pu), Arrays(pd)
  {
    forall i :: 0 <= i < |projections| ==>
                  Counts(pu[i][..], pd[i][..], projections[i].d, support.l, support.k, s)
  }

  method CountRow(support: Support, projections: seq<Projection>, pu: seq<array<nat>>, pd: seq<array<int>>, l: nat,
                  start: int)
    returns (d: int)
    requires Fit(support, projections) && Matching(support, projections, pu, pd)
    requires l < support.l && start == l * support.k
    requires AllCounted(support, projections, pu, pd, AllPixels(l, support.k))
    modifies Arrays(pu), Arrays(pd)
    ensures d == (l + 1) * support.k
    ensures AllCounted(support, projections, pu, pd, AllPixels(l + 1, support.k))
  {
    hide Size;
    ScanRow(l, support.k);
    var k := 0;
    d := start;
    while k < support.k
      invariant 0 <= k <= support.k
      invariant d == start + k
      invariant AllCounted(support, projections, pu, pd, Scanned(l, k, support.k))
    {
      ScanStep(l, k, support.k);
      CountPixel(support, projections, pu, pd, l, k, d, Scanned(l, k, support.k));
      k, d := k + 1, d + 1;
    }
    assert (l + 1) * support.k == l * support.k + support.k;
  }

  /** Before anything is decoded every pixel counts in every projection. */
  method CountAll(support: Support, projections: seq<Projection>) returns (pu: seq<array<nat>>, pd: seq<array<int>>)
    requires Fit(support, projections)
    ensures Matching(support, projections, pu, pd)
    ensures fresh(Arrays(pu)) && fresh(Arrays(pd))
    ensures AllCounted(support, projections, pu, pd, AllPixels(support.l, support.k))
  {
    hide Size, Area, AllCounted, AllPixels, Fit;
    pu, pd := AllocateCounters(support, projections);
    NothingCounted(support, projections, pu, pd);
    var l, d := 0, 0;
    while l < support.l
      invariant 0 <= l <= support.l
      invariant d == l * support.k
      invariant AllCounted(support, projections, pu, pd, AllPixels(l, support.k))
    {
      d := CountRow(support, projections, pu, pd, l, d);
      l := l + 1;
    }
  }

  lemma NothingCounted(support: Support, projections: seq<Projection>, pu: seq<array<nat>>, pd: seq<array<int>>)
    requires Matching(support, projections, pu, pd)
    requires forall i, b :: 0 <= i < |projections| && 0 <= b < projections[i].bins.Length ==>
               pu[i][b] == 0 && pd[i][b] == 0
    ensures AllCounted(support, projections, pu, pd, AllPixels(0, support.k))
  {
    hide Line;
    assert AllPixels(0, support.k) == {};
    forall d: Direction, b: int
      ensures BinSet({}, d, support.l, b) == {}
    {
    }
  }

  // ---------- Taking one pixel out ----------

  /** One projection's share of decoding pixel (l, k): its bin loses the value, the index and one count. */
  method TakeFromBin(support: Support, p: Projection, u: array<nat>, sum: array<int>, l: nat, k: nat, diet: int, v: bv8,
                     ghost s: set<Pixel>, ghost image: seq<bv8>)
    returns (b: nat)
    requires support.Valid() && p.Valid(support.l, support.k)
    requires u.Length == sum.Length == p.bins.Length && (u as object) != (sum as object) && Apart(p.bins, u, sum)
    requires l < support.l && k < support.k && Pixel(l, k) in s && diet == Index(Pixel(l, k), support.k)
    requires v == At(image, support.k, Pixel(l, k))
    requires TracksAt(support, p, u, sum, s, image)
    modifies p.bins, u, sum
    ensures TracksAt(support, p, u, sum, s - {Pixel(l, k)}, image)
    ensures b < u.Length && old(u[b]) >= 1 && u[..] == old(u[..])[b := old(u[b]) - 1]
  {
    BinInRange(p.d, support.l, support.k, Pixel(l, k));
    var offset := if p.d.p < 0 then (support.l - 1) * p.d.p else 0;
    b := k * p.d.q + l * p.d.p - offset;
    ghost var u0, sum0, bins0 := u[..], sum[..], p.bins[..];
    CountedAtLeastOnce(u0, sum0, p.d, support.l, support.k, s, Pixel(l, k));
    hide Size, Index, At, Tracks, Line, Offset;
    Decrease(p.bins, u, sum, b, diet, v);
    TracksRemove(u[..], sum[..], p.bins[..], u0, sum0, bins0, p.d, support.l, support.k, s, Pixel(l, k), image);
  }

  lemma CountedAtLeastOnce(u: seq<nat>, sum: seq<int>, d: Direction, l: nat, k: nat, s: set<Pixel>, x: Pixel)
    requires Counts(u, sum, d, l, k, s) && x in s && 0 <= BinOf(d, l, x) < |u|
    ensures u[BinOf(d, l, x)] >= 1
  {
    assert x in BinSet(s, d, l, BinOf(d, l, x));
  }

  method Decrease(bins: array<bv8>, u: array<nat>, sum: array<int>, b: nat, diet: int, v: bv8)
    requires u.Length == sum.Length == bins.Length && (u as object) != (sum as object) && Apart(bins, u, sum)
    requires b < u.Length && u[b] >= 1
    modifies bins, u, sum
    ensures XoredAt(bins[..], old(bins[..]), b, v)
    ensures AddedAt(sum[..], old(sum[..]), b, -diet)
    ensures AddedAt(u[..], old(u[..]), b, -1)
    ensures u[..] == old(u[..])[b := old(u[b]) - 1]
  {
    bins[b] := bins[b] ^ v;
    sum[b] := sum[b] - diet;
    u[b] := u[b] - 1;
  }

  // ---------- The queue ----------

  ghost predicate Queued(queue: seq<Univoc>, curr: nat, e: Univoc) {
    exists n :: curr <= n < |queue| && queue[n] == e
  }

  ghost predicate InBounds(us: seq<seq<nat>>, e: Univoc) {
    e.i < |us| && e.b < |us[e.i]|
  }

  ghost function CountOf(us: seq<seq<nat>>, e: Univoc): nat {
    if InBounds(us, e) then us[e.i][e.b] else 0
  }

  /** The queue holds every bin of one pixel at or after curr, no bin twice, and only bins of at most one pixel. */
  ghost predicate QueueOk(queue: seq<Univoc>, us: seq<seq<nat>>, curr: nat) {
    && (forall n :: 0 <= n < |queue| ==> InBounds(us, queue[n]) && CountOf(us, queue[n]) <= 1)
    && (forall m, n :: 0 <= m < n < |queue| ==> queue[m] != queue[n])
    && (forall e :: CountOf(us, e) == 1 ==> Queued(queue, curr, e))
  }

  /** Bin e has lost one pixel. */
  ghost predicate Lost(us: seq<seq<nat>>, was: seq<seq<nat>>, e: Univoc) {
    && InBounds(was, e)
    && (forall f :: InBounds(us, f) <==> InBounds(was, f))
    && forall f :: CountOf(us, f) == if f == e then CountOf(was, e) - 1 else CountOf(was, f)
  }

  lemma QueueStep(queue: seq<Univoc>, us: seq<seq<nat>>, less: seq<seq<nat>>, curr: nat, e: Univoc)
    returns (longer: seq<Univoc>)
    requires QueueOk(queue, us, curr) && curr <= |queue|
    requires Lost(less, us, e)
    ensures longer == if CountOf(less, e) == 1 then queue + [e] else queue
    ensures QueueOk(longer, less, curr)
  {
    hide InBounds, CountOf;
    longer := if CountOf(less, e) == 1 then queue + [e] else queue;
    forall f | CountOf(less, f) == 1
      ensures Queued(longer, curr, f)
    {
      if f == e {
        assert longer[|queue|] == e;
      } else {
        assert Queued(queue, curr, f);
        var n :| curr <= n < |queue| && queue[n] == f;
        assert longer[n] == f;
      }
    }
  }

  ghost function Counters(pu: seq<array<nat>>): (us: seq<seq<nat>>)
    reads Arrays(pu)
    ensures |us| == |pu|
    ensures forall i :: 0 <= i < |us| ==> us[i] == pu[i][..]
  {
    seq(|pu|, i requires 0 <= i < |pu| reads Arrays(pu) => pu[i][..])
  }

  /** One round of the loop over projections after pixel (l, k) is decoded; a bin left with one pixel joins the queue.
      */
  method TakeOne(support: Support, projections: seq<Projection>, pu: seq<array<nat>>, pd: seq<array<int>>, j: nat,
                 l: nat, k: nat, diet: int, v: bv8, queue: seq<Univoc>, ghost curr: nat,
                 ghost s: set<Pixel>, ghost image: seq<bv8>)
    returns (longer: seq<Univoc>)
    requires Fit(support, projections) && Matching(support, projections, pu, pd) && j < |projections|
    requires l < support.l && k < support.k && Pixel(l, k) in s && diet == Index(Pixel(l, k), support.k)
    requires v == At(image, support.k, Pixel(l, k))
    requires TracksAt(support, projections[j], pu[j], pd[j], s, image)
    requires QueueOk(queue, Counters(pu), curr) && curr <= |queue|
    modifies projections[j].bins, pu[j], pd[j]
    ensures TracksAt(support, projections[j], pu[j], pd[j], s - {Pixel(l, k)}, image)
    ensures QueueOk(longer, Counters(pu), curr) && queue <= longer
  {
    hide Size, Area, Index, At, Tracks, QueueOk;
    ghost var us := Counters(pu);
    var b := TakeFromBin(support, projections[j], pu[j], pd[j], l, k, diet, v, s, image);
    assert Counters(pu) == us[j := us[j][b := us[j][b] - 1]];
    LostOne(us, Counters(pu), j, b);
    ghost var _ := QueueStep(queue, us, Counters(pu), curr, Univoc(j, b));
    longer := queue;
    if pu[j][b] == 1 {
      longer := longer + [Univoc(j, b)];
    }
  }

  lemma LostOne(us: seq<seq<nat>>, less: seq<seq<nat>>, j: nat, b: nat)
    requires j < |us| && b < |us[j]| && us[j][b] >= 1
    requires less == us[j := us[j][b := us[j][b] - 1]]
    ensures Lost(less, us, Univoc(j, b))
    ensures CountOf(less, Univoc(j, b)) == less[j][b]
  {
  }

  /** The whole loop over projections after pixel (l, k) is decoded. */
  method TakePixel(support: Support, projections: seq<Projection>, pu: seq<array<nat>>, pd: seq<array<int>>,
                   l: nat, k: nat, diet: int, v: bv8, queue: seq<Univoc>, ghost curr: nat,
                   ghost s: set<Pixel>, ghost image: seq<bv8>)
    returns (longer: seq<Univoc>)
    requires Fit(support, projections) && Matching(support, projections, pu, pd)
    requires l < support.l && k < support.k && Pixel(l, k) in s && diet == Index(Pixel(l, k), support.k)
    requires v == At(image, support.k, Pixel(l, k))
    requires AllTrack(support, projections, pu, pd, s, image)
    requires QueueOk(queue, Counters(pu), curr) && curr <= |queue|
    modifies Bins(projections), Arrays(pu), Arrays(pd)
    ensures AllTrack(support, projections, pu, pd, s - {Pixel(l, k)}, image)
    ensures QueueOk(longer, Counters(pu), curr) && queue <= longer
  {
    hide Size, Area, Index, At, Tracks, QueueOk, CountOf, InBounds;
    longer := queue;
    var j := 0;
    while j < |projections|
      invariant 0 <= j <= |projections|
      invariant forall i :: 0 <= i < |projections| ==>
                              TracksAt(support, projections[i], pu[i], pd[i],
                                       if i < j then s - {Pixel(l, k)} else s, image)
      invariant QueueOk(longer, Counters(pu), curr) && queue <= longer
    {
      longer := TakeOne(support, projections, pu, pd, j, l, k, diet, v, longer, curr, s, image);
      j := j + 1;
    }
  }

  // ---------- Peeling ----------

  /** The queue before peeling: every bin that holds one pixel, in bin order. */
  method InitialQueue(projections: seq<Projection>, pu: seq<array<nat>>) returns (queue: seq<Univoc>)
    requires |pu| == |projections|
    requires forall i :: 0 <= i < |projections| ==> pu[i].Length == projections[i].bins.Length == projections[i].size
    ensures QueueOk(queue, Counters(pu), 0)
  {
    ghost var us := Counters(pu);
    queue := [];
    var i := 0;
    while i < |projections|
      invariant 0 <= i <= |projections|
      invariant QueuedBefore(queue, us, i, 0)
    {
      var j := 0;
      while j < projections[i].size
        invariant 0 <= j <= projections[i].size
        invariant QueuedBefore(queue, us, i, j)
      {
        ghost var was := queue;
        if pu[i][j] == 1 {
          queue := queue + [Univoc(i, j)];
        }
        QueueScan(was, queue, us, i, j);
        j := j + 1;
      }
      i := i + 1;
    }
  }

  ghost predicate Before(e: Univoc, i: nat, j: nat) {
    e.i < i || (e.i == i && e.b < j)
  }

  /** The queue holds exactly the one-pixel bins before bin j of projection i. */
  ghost predicate QueuedBefore(queue: seq<Univoc>, us: seq<seq<nat>>, i: nat, j: nat) {
    && (forall n :: 0 <= n < |queue| ==> CountOf(us, queue[n]) == 1 && Before(queue[n], i, j))
    && (forall m, n :: 0 <= m < n < |queue| ==> queue[m] != queue[n])
    && (forall e :: CountOf(us, e) == 1 && Before(e, i, j) ==> Queued(queue, 0, e))
  }

  lemma QueueScan(was: seq<Univoc>, queue: seq<Univoc>, us: seq<seq<nat>>, i: nat, j: nat)
    requires i < |us| && j < |us[i]| && QueuedBefore(was, us, i, j)
    requires queue == if us[i][j] == 1 then was + [Univoc(i, j)] else was
    ensures QueuedBefore(queue, us, i, j + 1)
  {
    forall e | CountOf(us, e) == 1 && Before(e, i, j + 1)
      ensures Queued(queue, 0, e)
    {
      if e == Univoc(i, j) {
        assert queue[|was|] == e;
      } else {
        assert Queued(was, 0, e);
        var n :| 0 <= n < |was| && was[n] == e;
        assert queue[n] == e;
      }
    }
  }

  /** The pixels of done hold the image; all others are as they were. */
  ghost predicate Decoded(pixels: seq<bv8>, was: seq<bv8>, image: seq<bv8>, l: nat, k: nat, done: set<Pixel>) {
    && |pixels| == |was| == l * k
    && forall x :: InSupport(x, l, k) ==>
                     At(pixels, k, x) == if x in done then At(image, k, x) else At(was, k, x)
  }

  lemma DecodedNone(pixels: seq<bv8>, image: seq<bv8>, l: nat, k: nat)
    requires |pixels| == Area(l, k)
    ensures Decoded(pixels, pixels, image, l, k, {})
  {
  }

  lemma DecodedAdd(pixels: seq<bv8>, before: seq<bv8>, was: seq<bv8>, image: seq<bv8>, l: nat, k: nat, done: set<Pixel>,
                   x: Pixel)
    requires InSupport(x, l, k) && Decoded(before, was, image, l, k, done)
    requires 0 <= Index(x, k) < |before| && pixels == before[Index(x, k) := At(image, k, x)]
    ensures Decoded(pixels, was, image, l, k, done + {x})
  {
    forall y | InSupport(y, l, k)
      ensures At(pixels, k, y) == if y in done + {x} then At(image, k, y) else At(was, k, y)
    {
      IndexInRange(y, l, k);
      if Index(y, k) == Index(x, k) {
        IndexInjective(x, y, l, k);
      }
    }
  }

  /** A queued bin that still counts one pixel names that pixel and its value. */
  lemma OnlyPixel(u: seq<nat>, sum: seq<int>, bins: seq<bv8>, d: Direction, l: nat, k: nat, s: set<Pixel>,
                  image: seq<bv8>, b: nat)
    returns (x: Pixel)
    requires Tracks(u, sum, bins, d, l, k, s, image) && b < |u| && u[b] == 1
    requires s <= AllPixels(l, k)
    ensures x in s && InSupport(x, l, k) && !HasMate(s, d, x)
    ensures sum[b] == Index(x, k) && bins[b] == At(image, k, x)
    ensures 0 <= sum[b] < l * k && sum[b] / k == x.row && sum[b] - x.row * k == x.col
  {
    x := SingletonSums(BinSet(s, d, l, b), k, image);
    assert x in BinSet(s, d, l, b);
    IndexInRange(x, l, k);
    forall y | y in s && Line(d, y) == Line(d, x)
      ensures y == x
    {
      assert y in BinSet(s, d, l, b);
    }
  }

  /** When no bin counts exactly one pixel, the undecoded pixels form a stopping set. */
  lemma StuckStops(support: Support, projections: seq<Projection>, pu: seq<array<nat>>, pd: seq<array<int>>,
                   s: set<Pixel>, image: seq<bv8>)
    requires Fit(support, projections) && Matching(support, projections, pu, pd)
    requires AllTrack(support, projections, pu, pd, s, image) && s <= AllPixels(support.l, support.k)
    requires forall e :: CountOf(Counters(pu), e) != 1
    ensures Stopping(s, Directions(projections))
  {
    var dirs := Directions(projections);
    forall d, x | d in dirs && x in s
      ensures HasMate(s, d, x)
    {
      var i :| 0 <= i < |dirs| && dirs[i] == d;
      BinInRange(d, support.l, support.k, x);
      var b := BinOf(d, support.l, x);
      assert TracksAt(support, projections[i], pu[i], pd[i], s, image);
      assert CountOf(Counters(pu), Univoc(i, b)) == |BinSet(s, d, support.l, b)|;
      SecondElement(BinSet(s, d, support.l, b), x);
    }
  }

  lemma SecondElement(s: set<Pixel>, x: Pixel)
    requires x in s && |s| != 1
    ensures exists y :: y in s && y != x
  {
    assert |s| == |s - {x}| + 1;
    var y :| y in s - {x};
  }

  /** Moves curr to the next queued bin that counts one pixel, or to the end of the queue. */
  method Search(pu: seq<array<nat>>, queue: seq<Univoc>, start: nat) returns (curr: nat)
    requires QueueOk(queue, Counters(pu), start) && start <= |queue|
    ensures curr <= |queue| && QueueOk(queue, Counters(pu), curr)
    ensures curr < |queue| ==> CountOf(Counters(pu), queue[curr]) == 1
    ensures curr == |queue| ==> forall e :: CountOf(Counters(pu), e) != 1
  {
    curr := start;
    while curr < |queue| && pu[queue[curr].i][queue[curr].b] != 1
      invariant curr <= |queue| && QueueOk(queue, Counters(pu), curr)
    {
      SkipBin(queue, Counters(pu), curr);
      curr := curr + 1;
    }
    assert forall e :: Queued(queue, |queue|, e) ==> false;
  }

  lemma SkipBin(queue: seq<Univoc>, us: seq<seq<nat>>, curr: nat)
    requires QueueOk(queue, us, curr) && curr < |queue| && CountOf(us, queue[curr]) != 1
    ensures QueueOk(queue, us, curr + 1)
  {
    forall e | CountOf(us, e) == 1
      ensures Queued(queue, curr + 1, e)
    {
      assert Queued(queue, curr, e);
    }
  }

  /** A bin that counts one pixel holds its index and its value, and taking the pixel out leaves the core as it is. */
  lemma NamedPixel(support: Support, projections: seq<Projection>, pu: seq<array<nat>>, pd: seq<array<int>>,
                   e: Univoc, s: set<Pixel>, image: seq<bv8>)
    returns (x: Pixel)
    requires Fit(support, projections) && Matching(support, projections, pu, pd)
    requires AllTrack(support, projections, pu, pd, s, image) && s <= AllPixels(support.l, support.k)
    requires CountOf(Counters(pu), e) == 1
    ensures e.i < |projections| && e.b < projections[e.i].bins.Length
    ensures x in s && InSupport(x, support.l, support.k)
            && Core(s - {x}, Directions(projections)) == Core(s, Directions(projections))
    ensures pd[e.i][e.b] == Index(x, support.k) && projections[e.i].bins[e.b] == At(image, support.k, x)
    ensures pd[e.i][e.b] / support.k == x.row && pd[e.i][e.b] - x.row * support.k == x.col
  {
    hide Size, Area, Core, Tracks, Index, At, Line;
    var p := projections[e.i];
    assert TracksAt(support, p, pu[e.i], pd[e.i], s, image);
    x := OnlyPixel(pu[e.i][..], pd[e.i][..], p.bins[..], p.d, support.l, support.k, s, image, e.b);
    CorePeel(s, Directions(projections), Directions(projections)[e.i], x);
  }

  lemma PixelOffset(support: Support, x: Pixel)
    requires support.Valid() && InSupport(x, support.l, support.k)
    ensures 0 <= Index(x, support.k) == x.row * support.k + x.col < support.pixels.Length
  {
    IndexInRange(x, support.l, support.k);
  }

  /** Decodes the pixel that queued bin e names and takes it out of every projection. */
  method DecodeAt(support: Support, projections: seq<Projection>, pu: seq<array<nat>>, pd: seq<array<int>>,
                  queue: seq<Univoc>, curr: nat, ghost s: set<Pixel>, ghost image: seq<bv8>)
    returns (longer: seq<Univoc>, ghost x: Pixel)
    requires Fit(support, projections) && Matching(support, projections, pu, pd)
    requires AllTrack(support, projections, pu, pd, s, image) && s <= AllPixels(support.l, support.k)
    requires QueueOk(queue, Counters(pu), curr) && curr < |queue| && CountOf(Counters(pu), queue[curr]) == 1
    modifies support.pixels, Bins(projections), Arrays(pu), Arrays(pd)
    ensures x in s && InSupport(x, support.l, support.k)
            && Core(s - {x}, Directions(projections)) == Core(s, Directions(projections))
    ensures AllTrack(support, projections, pu, pd, s - {x}, image)
    ensures 0 <= Index(x, support.k) < support.pixels.Length
    ensures support.pixels[..] == old(support.pixels[..])[Index(x, support.k) := At(image, support.k, x)]
    ensures QueueOk(longer, Counters(pu), curr) && queue <= longer
  {
    hide Size, Core, Tracks, QueueOk, CountOf, At, AllPixels, Index;
    x := NamedPixel(support, projections, pu, pd, queue[curr], s, image);
    PixelOffset(support, x);
    var i, b := queue[curr].i, queue[curr].b;
    var bin := projections[i].bins[b];
    var diet := pd[i][b];
    var l := diet / support.k;
    var k := diet - l * support.k;
    support.pixels[l * support.k + k] := bin;
    longer := TakePixel(support, projections, pu, pd, l, k, diet, bin, queue, curr, s, image);
  }

  /** One round of the decoding loop. ok is false when the queue ends without a bin of one pixel,
      where the original follows a null pointer. */
  method DecodeNext(support: Support, projections: seq<Projection>, pu: seq<array<nat>>, pd: seq<array<int>>,
                    queue: seq<Univoc>, start: nat, ghost s: set<Pixel>, ghost image: seq<bv8>,
                    ghost was: seq<bv8>, ghost done: set<Pixel>)
    returns (ok: bool, longer: seq<Univoc>, curr: nat, ghost rest: set<Pixel>)
    requires Fit(support, projections) && Matching(support, projections, pu, pd)
    requires AllTrack(support, projections, pu, pd, s, image) && s <= AllPixels(support.l, support.k)
    requires QueueOk(queue, Counters(pu), start) && start <= |queue|
    requires Decoded(support.pixels[..], was, image, support.l, support.k, done)
    modifies support.pixels, Bins(projections), Arrays(pu), Arrays(pd)
    ensures !ok ==> rest == s == Core(s, Directions(projections))
    ensures ok ==> rest < s && |rest| == |s| - 1
    ensures Core(rest, Directions(projections)) == Core(s, Directions(projections))
    ensures AllTrack(support, projections, pu, pd, rest, image)
    ensures Decoded(support.pixels[..], was, image, support.l, support.k, done + (s - rest))
    ensures QueueOk(longer, Counters(pu), curr) && curr <= |longer|
  {
    hide Size, Area, Tracks, QueueOk, Decoded, Core, Index, At, Line;
    curr := Search(pu, queue, start);
    longer := queue;
    if curr == |queue| {
      StuckStops(support, projections, pu, pd, s, image);
      CoreOfStopping(s, Directions(projections));
      ok, rest := false, s;
      assert done + (s - rest) == done;
    } else {
      ghost var before := support.pixels[..];
      ghost var x;
      longer, x := DecodeAt(support, projections, pu, pd, queue, curr, s, image);
      DecodedAdd(support.pixels[..], before, was, image, support.l, support.k, done, x);
      ok, rest := true, s - {x};
      assert done + (s - rest) == done + {x};
    }
  }

  lemma MatchingLengths(support: Support, projections: seq<Projection>, pu: seq<array<nat>>, pd: seq<array<int>>)
    requires Fit(support, projections) && Matching(support, projections, pu, pd)
    ensures support.pixels.Length == Area(support.l, support.k) && |pu| == |pd| == |projections|
    ensures forall i :: 0 <= i < |projections| ==> pu[i].Length == projections[i].bins.Length == projections[i].size
  {
    hide Size;
  }

  /** The decoding loop. Whatever the queue order, it decodes all of start but its core, and runs off
      the queue exactly when the core is not empty. */
  method Peel(support: Support, projections: seq<Projection>, pu: seq<array<nat>>, pd: seq<array<int>>, todo: int,
              ghost start: set<Pixel>, ghost image: seq<bv8>)
    returns (ok: bool)
    requires Fit(support, projections) && Matching(support, projections, pu, pd)
    requires AllTrack(support, projections, pu, pd, start, image)
    requires start <= AllPixels(support.l, support.k) && |start| == todo
    modifies support.pixels, Bins(projections), Arrays(pu), Arrays(pd)
    ensures ok <==> Core(start, Directions(projections)) == {}
    ensures AllTrack(support, projections, pu, pd, Core(start, Directions(projections)), image)
    ensures Decoded(support.pixels[..], old(support.pixels[..]), image, support.l, support.k,
                    start - Core(start, Directions(projections)))
  {
    hide Size, Area, QueueOk, Core, AllTrack, Decoded, Matching, Fit, AllPixels;
    MatchingLengths(support, projections, pu, pd);
    var queue := InitialQueue(projections, pu);
    CoreOfStopping({}, Directions(projections));
    DecodedNone(support.pixels[..], image, support.l, support.k);
    assert start - start == {} && start - {} == start;
    ok := true;
    ghost var s := start;
    var nbPixel := 0;
    var curr: nat := 0;
    while nbPixel < todo
      invariant nbPixel <= todo && |s| == todo - nbPixel
      invariant s <= start && Core(s, Directions(projections)) == Core(start, Directions(projections))
      invariant AllTrack(support, projections, pu, pd, s, image)
      invariant QueueOk(queue, Counters(pu), curr) && curr <= |queue|
      invariant Decoded(support.pixels[..], old(support.pixels[..]), image, support.l, support.k, start - s)
    {
      ghost var rest;
      ok, queue, curr, rest := DecodeNext(support, projections, pu, pd, queue, curr, s, image, old(support.pixels[..]),
                                          start - s);
      assert start - s + (s - rest) == start - rest;
      s := rest;
      if !ok {
        return;
      }
      nbPixel := nbPixel + 1;
    }
  }
}
