/** The Mojette erasure codec: forward transform and peeling decoders, in place
    over byte arrays. */
module MojetteCodec {
  import opened MojetteGeometry
  import opened MojetteTransform

  function Area(l: nat, k: nat): int {
    l * k
  }

  class Support {
    const l: nat
    const k: nat
    const pixels: array<bv8>

    constructor (l: nat, k: nat)
      ensures this.l == l && this.k == k
      ensures fresh(pixels) && pixels.Length == l * k
      ensures forall n :: 0 <= n < pixels.Length ==> pixels[n] == 0
    {
      this.l, this.k := l, k;
      assert l * k >= 0;
      pixels := new bv8[l * k](_ => 0);
    }

    ghost predicate Valid() {
      l > 0 && k > 0 && pixels.Length == Area(l, k)
    }
  }

  class Projection {
    const d: Direction
    const size: int
    const bins: array<bv8>

    constructor (p: int, q: int, l: nat, k: nat)
      requires l > 0 && k > 0
      ensures d == Direction(p, q) && size == Size(d, l, k)
      ensures fresh(bins) && bins.Length == size
      ensures forall b :: 0 <= b < bins.Length ==> bins[b] == 0
    {
      d := Direction(p, q);
      SizePositive(Direction(p, q), l, k);
      size := Abs(p) * (l - 1) + Abs(q) * (k - 1) + 1;
      bins := new bv8[Abs(p) * (l - 1) + Abs(q) * (k - 1) + 1](_ => 0);
    }

    ghost predicate Valid(l: nat, k: nat) {
      l > 0 && k > 0 && d.q >= 0 && size == Size(d, l, k) && bins.Length == size
    }

  }

  /** A row of the support received as sent. */
  datatype ReceivedLine = ReceivedLine(numLine: nat, val: seq<bv8>)

  function Directions(projections: seq<Projection>): (dirs: seq<Direction>)
    ensures |dirs| == |projections|
    ensures forall i :: 0 <= i < |dirs| ==> dirs[i] == projections[i].d
  {
    if projections == [] then [] else [projections[0].d] + Directions(projections[1..])
  }

  ghost function Bins(projections: seq<Projection>): set<array<bv8>> {
    set i | 0 <= i < |projections| :: projections[i].bins
  }

  /** The projections fit the support and share no memory. */
  ghost predicate Fit(support: Support, projections: seq<Projection>) {
    && support.Valid()
    && (forall i :: 0 <= i < |projections| ==> projections[i].Valid(support.l, support.k))
    && (forall i :: 0 <= i < |projections| ==> projections[i].bins != support.pixels)
    && (forall i, j :: 0 <= i < j < |projections| ==> projections[i].bins != projections[j].bins)
  }

  /** The pixels that a scan by rows has passed when it reaches (row, col). */
  ghost function Scanned(row: int, col: int, k: nat): set<Pixel>
    requires row >= 0
  {
    set r, c | 0 <= r <= row && 0 <= c < k && (r < row || c < col) :: Pixel(r, c)
  }

  lemma ScanStep(row: int, col: int, k: nat)
    requires row >= 0 && 0 <= col < k
    ensures Pixel(row, col) !in Scanned(row, col, k)
    ensures Scanned(row, col + 1, k) == Scanned(row, col, k) + {Pixel(row, col)}
  {
  }

  lemma ScanRow(row: int, k: nat)
    requires row >= 0
    ensures Scanned(row, 0, k) == AllPixels(row, k)
    ensures Scanned(row, k, k) == AllPixels(row + 1, k)
  {
  }

  /** Bins that hold the XOR of the pixels of s. */
  ghost predicate Holds(bins: seq<bv8>, d: Direction, l: nat, k: nat, s: set<Pixel>, image: seq<bv8>) {
    forall b :: 0 <= b < |bins| ==> bins[b] == XorOver(BinSet(s, d, l, b), image, k)
  }

  /** The XOR of the pixels of s has been added to bins that held was. */
  ghost predicate Accumulated(bins: seq<bv8>, was: seq<bv8>, d: Direction, l: nat, k: nat, s: set<Pixel>,
                              image: seq<bv8>)
  {
    && |bins| == |was|
    && forall b :: 0 <= b < |bins| ==> bins[b] == was[b] ^ XorOver(BinSet(s, d, l, b), image, k)
  }

  /** v has been XORed into bin c. */
  ghost predicate XoredAt(bins: seq<bv8>, was: seq<bv8>, c: int, v: bv8) {
    && |bins| == |was|
    && forall b :: 0 <= b < |bins| ==> bins[b] == if b == c then was[b] ^ v else was[b]
  }

  lemma AccumulatedAdd(bins: seq<bv8>, before: seq<bv8>, was: seq<bv8>, d: Direction, l: nat, k: nat, s: set<Pixel>,
                       x: Pixel, image: seq<bv8>)
    requires x !in s && Accumulated(before, was, d, l, k, s, image)
    requires XoredAt(bins, before, BinOf(d, l, x), At(image, k, x))
    ensures Accumulated(bins, was, d, l, k, s + {x}, image)
  {
    forall b | 0 <= b < |bins|
      ensures bins[b] == was[b] ^ XorOver(BinSet(s + {x}, d, l, b), image, k)
    {
      BinSums(s, d, l, k, b, x, image);
      XorAssociative(was[b], XorOver(BinSet(s, d, l, b), image, k), At(image, k, x));
    }
  }

  lemma XorAssociative(a: bv8, b: bv8, c: bv8)
    ensures (a ^ b) ^ c == a ^ (b ^ c)
  {
  }

  lemma NothingAccumulated(was: seq<bv8>, d: Direction, l: nat, k: nat, image: seq<bv8>)
    ensures Accumulated(was, was, d, l, k, {}, image)
  {
    forall b | 0 <= b < |was|
      ensures was[b] == was[b] ^ XorOver(BinSet({}, d, l, b), image, k)
    {
      assert BinSet({}, d, l, b) == {};
      XorCancel(was[b], 0);
    }
  }

  /** One projection's share of the innermost loop of the transform. */
  method XorIntoBin(support: Support, p: Projection, l: nat, k: nat)
    requires support.Valid() && p.Valid(support.l, support.k) && p.bins != support.pixels
    requires l < support.l && k < support.k
    modifies p.bins
    ensures XoredAt(p.bins[..], old(p.bins[..]), BinOf(p.d, support.l, Pixel(l, k)),
                    At(support.pixels[..], support.k, Pixel(l, k)))
  {
    IndexInRange(Pixel(l, k), support.l, support.k);
    BinInRange(p.d, support.l, support.k, Pixel(l, k));
    var offset := if p.d.p < 0 then (support.l - 1) * p.d.p else 0;
    var b := k * p.d.q + l * p.d.p - offset;
    p.bins[b] := p.bins[b] ^ support.pixels[l * support.k + k];
  }

  ghost predicate AllAccumulated(support: Support, projections: seq<Projection>, was: seq<seq<bv8>>, s: set<Pixel>)
    reads support.pixels, Bins(projections)
  {
    && |was| == |projections|
    && forall i :: 0 <= i < |projections| ==>
                     Accumulated(projections[i].bins[..], was[i], projections[i].d, support.l, support.k, s,
                                 support.pixels[..])
  }

  /** The innermost loop of the transform: pixel (l, k) goes into one bin per projection. */
  method ForwardPixel(support: Support, projections: seq<Projection>, l: nat, k: nat, ghost was: seq<seq<bv8>>,
                      ghost s: set<Pixel>)
    requires Fit(support, projections) && l < support.l && k < support.k
    requires AllAccumulated(support, projections, was, s) && Pixel(l, k) !in s
    modifies Bins(projections)
    ensures AllAccumulated(support, projections, was, s + {Pixel(l, k)})
  {
    var j := 0;
    while j < |projections|
      invariant 0 <= j <= |projections|
      invariant forall i :: 0 <= i < |projections| ==>
                              Accumulated(projections[i].bins[..], was[i], projections[i].d, support.l, support.k,
                                          if i < j then s + {Pixel(l, k)} else s, support.pixels[..])
    {
      var p := projections[j];
      ghost var before := p.bins[..];
      XorIntoBin(support, p, l, k);
      AccumulatedAdd(p.bins[..], before, was[j], p.d, support.l, support.k, s, Pixel(l, k), support.pixels[..]);
      j := j + 1;
    }
  }

  method ForwardRow(support: Support, projections: seq<Projection>, l: nat, ghost was: seq<seq<bv8>>)
    requires Fit(support, projections) && l < support.l
    requires AllAccumulated(support, projections, was, AllPixels(l, support.k))
    modifies Bins(projections)
    ensures AllAccumulated(support, projections, was, AllPixels(l + 1, support.k))
  {
    hide Size;
    ScanRow(l, support.k);
    var k := 0;
    while k < support.k
      invariant 0 <= k <= support.k
      invariant AllAccumulated(support, projections, was, Scanned(l, k, support.k))
    {
      ScanStep(l, k, support.k);
      ForwardPixel(support, projections, l, k, was, Scanned(l, k, support.k));
      k := k + 1;
    }
  }

  method Forward(support: Support, projections: seq<Projection>)
    requires Fit(support, projections)
    modifies Bins(projections)
    ensures forall i, b :: 0 <= i < |projections| && 0 <= b < projections[i].bins.Length ==>
                             projections[i].bins[b] == old(projections[i].bins[b])
                             ^ TransformBin(support.pixels[..], projections[i].d, support.l, support.k, b)
  {
    hide Size, LineSet, XorOver, AllAccumulated, AllPixels, TransformBin, Fit;
    ghost var was := Contents(projections);
    StartAccumulating(support, projections, was);
    var l := 0;
    while l < support.l
      invariant 0 <= l <= support.l
      invariant AllAccumulated(support, projections, was, AllPixels(l, support.k))
    {
      ForwardRow(support, projections, l, was);
      l := l + 1;
    }
    FullyAccumulated(support, projections, was);
  }

  lemma FullyAccumulated(support: Support, projections: seq<Projection>, was: seq<seq<bv8>>)
    requires AllAccumulated(support, projections, was, AllPixels(support.l, support.k))
    ensures |was| == |projections|
    ensures forall i, b :: 0 <= i < |projections| && 0 <= b < projections[i].bins.Length ==>
                             b < |was[i]| && projections[i].bins[b]
                             == was[i][b] ^ TransformBin(support.pixels[..], projections[i].d, support.l, support.k, b)
  {
    hide Size, LineSet, XorOver;
  }

  ghost function Contents(projections: seq<Projection>): (r: seq<seq<bv8>>)
    reads Bins(projections)
    ensures |r| == |projections|
    ensures forall i :: 0 <= i < |r| ==> r[i] == projections[i].bins[..]
  {
    seq(|projections|, i requires 0 <= i < |projections| reads Bins(projections) => projections[i].bins[..])
  }

  lemma StartAccumulating(support: Support, projections: seq<Projection>, was: seq<seq<bv8>>)
    requires was == Contents(projections)
    ensures AllAccumulated(support, projections, was, AllPixels(0, support.k))
  {
    assert AllPixels(0, support.k) == {};
    forall i | 0 <= i < |projections|
      ensures Accumulated(projections[i].bins[..], was[i], projections[i].d, support.l, support.k, {},
                          support.pixels[..])
    {
      NothingAccumulated(was[i], projections[i].d, support.l, support.k, support.pixels[..]);
    }
  }
}
