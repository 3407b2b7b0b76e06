/** The two decoders: from projections alone, and from projections together with rows received as sent. */
module MojetteInverse {
  import opened MojetteGeometry
  import opened MojetteTransform
  import opened MojetteCodec
  import opened MojetteDecoder

  /** The projections hold the transform of image. */
  ghost predicate Transformed(support: Support, projections: seq<Projection>, image: seq<bv8>)
    reads Bins(projections)
  {
    && |image| == Area(support.l, support.k)
    && forall i :: 0 <= i < |projections| ==>
                     Holds(projections[i].bins[..], projections[i].d, support.l, support.k,
                           AllPixels(support.l, support.k), image)
  }

  ghost predicate Cleared(projections: seq<Projection>)
    reads Bins(projections)
  {
    forall i, b :: 0 <= i < |projections| && 0 <= b < projections[i].bins.Length ==> projections[i].bins[b] == 0
  }

  lemma {:induction false} AllPixelsCount(l: nat, k: nat)
    ensures |AllPixels(l, k)| == Area(l, k)
  {
    if l == 0 {
      assert AllPixels(0, k) == {};
    } else {
      AllPixelsCount(l - 1, k);
      RowCount(l - 1, k);
      assert AllPixels(l, k) == AllPixels(l - 1, k) + RowPart(l - 1, k);
      assert (l - 1) * k + k == l * k;
    }
  }

  /** The first c pixels of row r. */
  ghost function RowPart(r: int, c: nat): set<Pixel> {
    set j | 0 <= j < c :: Pixel(r, j)
  }

  lemma {:induction false} RowCount(r: int, c: nat)
    ensures |RowPart(r, c)| == c
  {
    if c == 0 {
      assert RowPart(r, 0) == {};
    } else {
      RowCount(r, c - 1);
      assert RowPart(r, c) == RowPart(r, c - 1) + {Pixel(r, c - 1)};
    }
  }

  lemma StartTracking(support: Support, projections: seq<Projection>, pu: seq<array<nat>>, pd: seq<array<int>>,
                      image: seq<bv8>)
    requires Fit(support, projections) && Matching(support, projections, pu, pd)
    requires Transformed(support, projections, image)
    requires AllCounted(support, projections, pu, pd, AllPixels(support.l, support.k))
    ensures AllTrack(support, projections, pu, pd, AllPixels(support.l, support.k), image)
  {
  }

  /** Everything decoded: the support is the image and every bin is zero. */
  lemma FullyDecoded(support: Support, projections: seq<Projection>, pu: seq<array<nat>>, pd: seq<array<int>>,
                     was: seq<bv8>, image: seq<bv8>, done: set<Pixel>)
    requires Fit(support, projections) && Matching(support, projections, pu, pd)
    requires AllTrack(support, projections, pu, pd, {}, image) && |image| == Area(support.l, support.k)
    requires Decoded(support.pixels[..], was, image, support.l, support.k, done)
    requires AllPixels(support.l, support.k) <= done
    ensures support.pixels[..] == image && Cleared(projections)
  {
    DecodedAll(support.pixels[..], was, image, support.l, support.k, done);
    forall i, b | 0 <= i < |projections| && 0 <= b < projections[i].bins.Length
      ensures projections[i].bins[b] == 0
    {
      assert TracksAt(support, projections[i], pu[i], pd[i], {}, image);
      assert projections[i].bins[..][b] == XorOver(BinSet({}, projections[i].d, support.l, b), image, support.k);
      assert BinSet({}, projections[i].d, support.l, b) == {};
    }
  }

  lemma DecodedAll(pixels: seq<bv8>, was: seq<bv8>, image: seq<bv8>, l: nat, k: nat, done: set<Pixel>)
    requires Decoded(pixels, was, image, l, k, done) && AllPixels(l, k) <= done && |image| == Area(l, k)
    ensures pixels == image
  {
    forall n | 0 <= n < |pixels|
      ensures pixels[n] == image[n]
    {
      var x := PixelOfIndex(n, l, k);
      assert x in AllPixels(l, k);
    }
  }

  /** Decoding from projections alone recovers every image exactly when all pixels can be peeled. */
  method Inverse(support: Support, projections: seq<Projection>, ghost image: seq<bv8>) returns (ok: bool)
    requires Fit(support, projections) && Transformed(support, projections, image)
    modifies support.pixels, Bins(projections)
    ensures ok <==> Peelable(AllPixels(support.l, support.k), Directions(projections))
    ensures ok ==> support.pixels[..] == image && Cleared(projections)
    ensures Decoded(support.pixels[..], old(support.pixels[..]), image, support.l, support.k,
                    AllPixels(support.l, support.k) - Core(AllPixels(support.l, support.k), Directions(projections)))
  {
    ghost var all := AllPixels(support.l, support.k);
    ghost var dirs := Directions(projections);
    var pu, pd := CountAll(support, projections);
    StartTracking(support, projections, pu, pd, image);
    AllPixelsCount(support.l, support.k);
    ok := Peel(support, projections, pu, pd, support.l * support.k, all, image);
    CoreStops(all, dirs);
    if ok {
      FullyDecoded(support, projections, pu, pd, old(support.pixels[..]), image, all - Core(all, dirs));
    }
  }

  // ---------- Rows received as sent ----------

  ghost function RowNumbers(lines: seq<ReceivedLine>): set<int> {
    set i | 0 <= i < |lines| :: lines[i].numLine
  }

  /** The pixels of the rows that were not received. */
  ghost function Missing(lines: seq<ReceivedLine>, l: nat, k: nat): set<Pixel> {
    set x | x in AllPixels(l, k) && x.row !in RowNumbers(lines)
  }

  /** Distinct rows of the image. */
  ghost predicate Received(lines: seq<ReceivedLine>, l: nat, k: nat, image: seq<bv8>) {
    && (forall i :: 0 <= i < |lines| ==> lines[i].numLine < l && |lines[i].val| >= k)
    && (forall i, c :: 0 <= i < |lines| && 0 <= c < k ==>
                         lines[i].val[c] == At(image, k, Pixel(lines[i].numLine, c)))
    && forall i, j :: 0 <= i < j < |lines| ==> lines[i].numLine != lines[j].numLine
  }

  lemma RowStillMissing(lines: seq<ReceivedLine>, l: nat, k: nat, image: seq<bv8>, i: nat)
    requires Received(lines, l, k, image) && i < |lines|
    ensures RowPart(lines[i].numLine, k) <= Missing(lines[..i], l, k)
    ensures Missing(lines[..i + 1], l, k) == Missing(lines[..i], l, k) - RowPart(lines[i].numLine, k)
  {
    assert lines[..i + 1] == lines[..i] + [lines[i]];
    assert RowNumbers(lines[..i + 1]) == RowNumbers(lines[..i]) + {lines[i].numLine} by {
      forall n | n in RowNumbers(lines[..i])
        ensures n in RowNumbers(lines[..i + 1])
      {
        var j :| 0 <= j < i && lines[..i][j].numLine == n;
        assert lines[..i + 1][j].numLine == n;
      }
      assert lines[..i + 1][i].numLine == lines[i].numLine;
    }
    forall j | 0 <= j < i
      ensures lines[..i][j].numLine != lines[i].numLine
    {
    }
  }

  lemma {:induction false} MissingCount(lines: seq<ReceivedLine>, l: nat, k: nat, image: seq<bv8>)
    requires Received(lines, l, k, image)
    ensures |Missing(lines, l, k)| == Area(l, k) - Area(k, |lines|)
  {
    if lines == [] {
      assert Missing(lines, l, k) == AllPixels(l, k);
      AllPixelsCount(l, k);
    } else {
      var n := |lines| - 1;
      AreaStep(k, n);
      hide Area;
      MissingCount(lines[..n], l, k, image);
      RowStillMissing(lines, l, k, image, n);
      RowCount(lines[n].numLine, k);
      assert lines[..n + 1] == lines;
    }
  }

  lemma AreaStep(k: nat, n: nat)
    ensures Area(k, n + 1) == Area(k, n) + k && Area(k, 0) == 0
  {
  }

  lemma PixelIndex(row: nat, col: nat, k: nat)
    ensures Index(Pixel(row, col), k) == col + row * k
  {
  }

  /** Pixel (l, k) arrives in the clear: it is stored and taken out of every projection. */
  method TakeReceived(support: Support, projections: seq<Projection>, pu: seq<array<nat>>, pd: seq<array<int>>,
                      l: nat, k: nat, v: bv8, ghost s: set<Pixel>, ghost image: seq<bv8>)
    requires Fit(support, projections) && Matching(support, projections, pu, pd)
    requires l < support.l && k < support.k && Pixel(l, k) in s && v == At(image, support.k, Pixel(l, k))
    requires AllTrack(support, projections, pu, pd, s, image)
    modifies Bins(projections), Arrays(pu), Arrays(pd)
    ensures AllTrack(support, projections, pu, pd, s - {Pixel(l, k)}, image)
  {
    hide Size, Area, Index, At, Tracks;
    var diet := k + l * support.k;
    PixelIndex(l, k, support.k);
    var j := 0;
    while j < |projections|
      invariant 0 <= j <= |projections|
      invariant forall i :: 0 <= i < |projections| ==>
                              TracksAt(support, projections[i], pu[i], pd[i],
                                       if i < j then s - {Pixel(l, k)} else s, image)
    {
      var _ := TakeFromBin(support, projections[j], pu[j], pd[j], l, k, diet, v, s, image);
      j := j + 1;
    }
  }

  method StorePixel(support: Support, l: nat, k: nat, v: bv8, ghost was: seq<bv8>, ghost image: seq<bv8>,
                    ghost done: set<Pixel>)
    requires support.Valid() && l < support.l && k < support.k && v == At(image, support.k, Pixel(l, k))
    requires Decoded(support.pixels[..], was, image, support.l, support.k, done)
    modifies support.pixels
    ensures Decoded(support.pixels[..], was, image, support.l, support.k, done + {Pixel(l, k)})
  {
    ghost var before := support.pixels[..];
    IndexInRange(Pixel(l, k), support.l, support.k);
    support.pixels[l * support.k + k] := v;
    DecodedAdd(support.pixels[..], before, was, image, support.l, support.k, done, Pixel(l, k));
  }

  method TakeLinePixel(support: Support, projections: seq<Projection>, pu: seq<array<nat>>, pd: seq<array<int>>,
                       l: nat, k: nat, v: bv8, ghost s: set<Pixel>, ghost image: seq<bv8>, ghost was: seq<bv8>,
                       ghost done: set<Pixel>)
    requires Fit(support, projections) && Matching(support, projections, pu, pd)
    requires l < support.l && k < support.k && Pixel(l, k) in s && v == At(image, support.k, Pixel(l, k))
    requires AllTrack(support, projections, pu, pd, s, image)
    requires Decoded(support.pixels[..], was, image, support.l, support.k, done)
    modifies support.pixels, Bins(projections), Arrays(pu), Arrays(pd)
    ensures AllTrack(support, projections, pu, pd, s - {Pixel(l, k)}, image)
    ensures Decoded(support.pixels[..], was, image, support.l, support.k, done + {Pixel(l, k)})
  {
    hide Decoded, Size, Area, At, Tracks, Index;
    StorePixel(support, l, k, v, was, image, done);
    TakeReceived(support, projections, pu, pd, l, k, v, s, image);
  }

  method TakeLine(support: Support, projections: seq<Projection>, pu: seq<array<nat>>, pd: seq<array<int>>,
                  line: ReceivedLine, ghost s: set<Pixel>, ghost image: seq<bv8>, ghost was: seq<bv8>)
    requires Fit(support, projections) && Matching(support, projections, pu, pd)
    requires line.numLine < support.l && |line.val| >= support.k && RowPart(line.numLine, support.k) <= s
    requires forall c :: 0 <= c < support.k ==> line.val[c] == At(image, support.k, Pixel(line.numLine, c))
    requires AllTrack(support, projections, pu, pd, s, image)
    requires Decoded(support.pixels[..], was, image, support.l, support.k, AllPixels(support.l, support.k) - s)
    modifies support.pixels, Bins(projections), Arrays(pu), Arrays(pd)
    ensures AllTrack(support, projections, pu, pd, s - RowPart(line.numLine, support.k), image)
    ensures Decoded(support.pixels[..], was, image, support.l, support.k,
                    AllPixels(support.l, support.k) - (s - RowPart(line.numLine, support.k)))
  {
    hide AllTrack, Decoded, Size, Area, At;
    ghost var all := AllPixels(support.l, support.k);
    assert s - RowPart(line.numLine, 0) == s;
    assert forall c :: 0 <= c < support.k ==> Pixel(line.numLine, c) in all
                                              && Pixel(line.numLine, c) in RowPart(line.numLine, support.k);
    assert |pu| == |pd| == |projections|;
    hide Matching, Fit, AllPixels;
    var k := 0;
    while k < support.k
      invariant 0 <= k <= support.k
      invariant AllTrack(support, projections, pu, pd, s - RowPart(line.numLine, k), image)
      invariant Decoded(support.pixels[..], was, image, support.l, support.k, all - (s - RowPart(line.numLine, k)))
    {
      ghost var t := s - RowPart(line.numLine, k);
      RowStep(s, all, line.numLine, k);
      TakeLinePixel(support, projections, pu, pd, line.numLine, k, line.val[k], t, image, was, all - t);
      k := k + 1;
    }
  }

  lemma RowStep(s: set<Pixel>, all: set<Pixel>, r: int, c: nat)
    requires Pixel(r, c) in s && Pixel(r, c) in all
    ensures Pixel(r, c) in s - RowPart(r, c)
    ensures s - RowPart(r, c + 1) == s - RowPart(r, c) - {Pixel(r, c)}
    ensures all - (s - RowPart(r, c + 1)) == all - (s - RowPart(r, c)) + {Pixel(r, c)}
  {
  }

  lemma MissingNone(lines: seq<ReceivedLine>, l: nat, k: nat)
    ensures Missing(lines[..0], l, k) == AllPixels(l, k)
    ensures AllPixels(l, k) - Missing(lines[..0], l, k) == {}
  {
  }

  method TakeLines(support: Support, projections: seq<Projection>, pu: seq<array<nat>>, pd: seq<array<int>>,
                   lines: seq<ReceivedLine>, ghost image: seq<bv8>)
    requires Fit(support, projections) && Matching(support, projections, pu, pd)
    requires Received(lines, support.l, support.k, image)
    requires AllTrack(support, projections, pu, pd, AllPixels(support.l, support.k), image)
    modifies support.pixels, Bins(projections), Arrays(pu), Arrays(pd)
    ensures AllTrack(support, projections, pu, pd, Missing(lines, support.l, support.k), image)
    ensures Decoded(support.pixels[..], old(support.pixels[..]), image, support.l, support.k,
                    AllPixels(support.l, support.k) - Missing(lines, support.l, support.k))
  {
    hide Size, Area, At, AllTrack, Decoded;
    ghost var all := AllPixels(support.l, support.k);
    DecodedNone(support.pixels[..], image, support.l, support.k);
    MissingNone(lines, support.l, support.k);
    assert |pu| == |pd| == |projections|;
    hide Matching, Fit, Missing, AllPixels;
    var i := 0;
    while i < |lines|
      invariant 0 <= i <= |lines|
      invariant AllTrack(support, projections, pu, pd, Missing(lines[..i], support.l, support.k), image)
      invariant Decoded(support.pixels[..], old(support.pixels[..]), image, support.l, support.k,
                        all - Missing(lines[..i], support.l, support.k))
    {
      RowStillMissing(lines, support.l, support.k, image, i);
      TakeLine(support, projections, pu, pd, lines[i], Missing(lines[..i], support.l, support.k), image,
               old(support.pixels[..]));
      i := i + 1;
    }
    assert lines[..|lines|] == lines;
  }

  /** The branch for no projections and all rows received: the rows are copied. */
  method CopyLines(support: Support, lines: seq<ReceivedLine>, ghost image: seq<bv8>)
    requires support.Valid() && Received(lines, support.l, support.k, image)
    modifies support.pixels
    ensures Decoded(support.pixels[..], old(support.pixels[..]), image, support.l, support.k,
                    AllPixels(support.l, support.k) - Missing(lines, support.l, support.k))
  {
    ghost var all := AllPixels(support.l, support.k);
    ghost var was := support.pixels[..];
    MissingNone(lines, support.l, support.k);
    DecodedNone(was, image, support.l, support.k);
    var i := 0;
    while i < |lines|
      invariant 0 <= i <= |lines|
      invariant Decoded(support.pixels[..], was, image, support.l, support.k,
                        all - Missing(lines[..i], support.l, support.k))
    {
      ghost var s := Missing(lines[..i], support.l, support.k);
      ghost var r := lines[i].numLine;
      RowStillMissing(lines, support.l, support.k, image, i);
      assert s - RowPart(r, 0) == s;
      var k := 0;
      while k < support.k
        invariant 0 <= k <= support.k
        invariant Decoded(support.pixels[..], was, image, support.l, support.k, all - (s - RowPart(r, k)))
      {
        assert Pixel(r, k) in RowPart(r, support.k);
        RowStep(s, all, r, k);
        hide Decoded, Area, At, Index, Missing;
        StorePixel(support, lines[i].numLine, k, lines[i].val[k], was, image, all - (s - RowPart(r, k)));
        k := k + 1;
      }
      i := i + 1;
    }
    assert lines[..|lines|] == lines;
  }

  lemma DecodedCompose(pixels: seq<bv8>, mid: seq<bv8>, was: seq<bv8>, image: seq<bv8>, l: nat, k: nat,
                       first: set<Pixel>, second: set<Pixel>)
    requires Decoded(mid, was, image, l, k, first) && Decoded(pixels, mid, image, l, k, second)
    ensures Decoded(pixels, was, image, l, k, first + second)
  {
  }

  /** The branch that uses projections: rows first, then peeling of what is missing. */
  method DecodeMissing(support: Support, projections: seq<Projection>, lines: seq<ReceivedLine>, ghost image: seq<bv8>)
    returns (ok: bool)
    requires Fit(support, projections) && Transformed(support, projections, image)
    requires Received(lines, support.l, support.k, image)
    modifies support.pixels, Bins(projections)
    ensures ok <==> Core(Missing(lines, support.l, support.k), Directions(projections)) == {}
    ensures Decoded(support.pixels[..], old(support.pixels[..]), image, support.l, support.k,
                    AllPixels(support.l, support.k)
                    - Core(Missing(lines, support.l, support.k), Directions(projections)))
    ensures ok ==> support.pixels[..] == image && Cleared(projections)
  {
    ghost var all := AllPixels(support.l, support.k);
    ghost var missing := Missing(lines, support.l, support.k);
    ghost var core := Core(missing, Directions(projections));
    MissingCount(lines, support.l, support.k, image);
    var pu, pd := CountAll(support, projections);
    StartTracking(support, projections, pu, pd, image);
    TakeLines(support, projections, pu, pd, lines, image);
    ghost var mid := support.pixels[..];
    ok := Peel(support, projections, pu, pd, support.l * support.k - support.k * |lines|, missing, image);
    DecodedCompose(support.pixels[..], mid, old(support.pixels[..]), image, support.l, support.k, all - missing,
                   missing - core);
    assert (all - missing) + (missing - core) == all - core;
    if ok {
      FullyDecoded(support, projections, pu, pd, old(support.pixels[..]), image, all - core);
    }
  }

  /** Decoding from projections and rows received as sent recovers every image exactly when the pixels of
      the missing rows can be peeled. */
  method InverseSystem(support: Support, projections: seq<Projection>, lines: seq<ReceivedLine>, ghost image: seq<bv8>)
    returns (ok: bool)
    requires Fit(support, projections) && Transformed(support, projections, image)
    requires Received(lines, support.l, support.k, image)
    modifies support.pixels, Bins(projections)
    ensures ok <==> Peelable(Missing(lines, support.l, support.k), Directions(projections))
    ensures ok ==> support.pixels[..] == image && Cleared(projections)
    ensures Decoded(support.pixels[..], old(support.pixels[..]), image, support.l, support.k,
                    AllPixels(support.l, support.k)
                    - Core(Missing(lines, support.l, support.k), Directions(projections)))
  {
    ghost var all := AllPixels(support.l, support.k);
    ghost var missing := Missing(lines, support.l, support.k);
    CoreStops(missing, Directions(projections));
    if |projections| == 0 && support.l == |lines| {
      MissingCount(lines, support.l, support.k, image);
      assert |missing| == 0;
      assert missing == {};
      assert Core({}, Directions(projections)) == {};
      assert all - {} == all;
      CopyLines(support, lines, image);
      DecodedAll(support.pixels[..], old(support.pixels[..]), image, support.l, support.k, all);
      return true;
    }
    ok := DecodeMissing(support, projections, lines, image);
  }

  // ---------- Round trips ----------

  ghost predicate Usable(dirs: seq<Direction>) {
    && (forall d :: d in dirs ==> d.q >= 0 && Coprime(d))
    && Independent(dirs)
  }

  /** New projections of a support in the given directions. */
  method Project(support: Support, dirs: seq<Direction>) returns (projections: seq<Projection>)
    requires support.Valid() && forall d :: d in dirs ==> d.q >= 0
    ensures Fit(support, projections) && Directions(projections) == dirs
    ensures Transformed(support, projections, support.pixels[..])
    ensures fresh(Bins(projections))
  {
    projections := [];
    var i := 0;
    while i < |dirs|
      invariant 0 <= i <= |dirs| && |projections| == i
      invariant forall j :: 0 <= j < i ==>
                              projections[j].d == dirs[j] && projections[j].Valid(support.l, support.k)
                                && fresh(projections[j].bins)
      invariant forall j, b :: 0 <= j < i && 0 <= b < projections[j].bins.Length ==> projections[j].bins[b] == 0
      invariant forall j, m :: 0 <= j < m < i ==> projections[j].bins != projections[m].bins
    {
      assert dirs[i] in dirs;
      var p := new Projection(dirs[i].p, dirs[i].q, support.l, support.k);
      projections := projections + [p];
      i := i + 1;
    }
    Forward(support, projections);
    forall j | 0 <= j < |projections|
      ensures Holds(projections[j].bins[..], projections[j].d, support.l, support.k, AllPixels(support.l, support.k),
                    support.pixels[..])
    {
      forall b | 0 <= b < projections[j].bins.Length
        ensures projections[j].bins[b] == TransformBin(support.pixels[..], projections[j].d, support.l, support.k, b)
      {
        XorCancel(TransformBin(support.pixels[..], projections[j].d, support.l, support.k, b), 0);
      }
    }
  }

  /** Transform, then decode into a blank support: every image comes back if the criterion of Katz holds. If it fails,
      decoding does not finish: it restores what peeling reaches, and the rest, which is not empty, stays blank. */
  method RoundTrip(support: Support, dirs: seq<Direction>) returns (copy: Support, ok: bool)
    requires support.Valid() && Usable(dirs)
    ensures ok <==> Katz(dirs, support.l, support.k)
    ensures ok ==> copy.pixels[..] == support.pixels[..]
    ensures support.pixels[..] == old(support.pixels[..])
    ensures Restored(copy.pixels[..], support.pixels[..], dirs, support.l, support.k)
    ensures ok <==> Core(AllPixels(support.l, support.k), dirs) == {}
  {
    hide Core, Katz, Decoded;
    var projections := Project(support, dirs);
    copy := new Support(support.l, support.k);
    ghost var blank := copy.pixels[..];
    ok := Inverse(copy, projections, support.pixels[..]);
    KatzExact(dirs, support.l, support.k);
    CoreStops(AllPixels(support.l, support.k), dirs);
    BlankRestored(copy.pixels[..], blank, support.pixels[..], dirs, support.l, support.k);
  }

  /** The pixels that peeling reaches are those of the image; the others are blank. */
  ghost predicate Restored(pixels: seq<bv8>, image: seq<bv8>, dirs: seq<Direction>, l: nat, k: nat) {
    && |pixels| == |image| == l * k
    && forall x :: InSupport(x, l, k) ==>
                     At(pixels, k, x) == if x in Core(AllPixels(l, k), dirs) then 0 else At(image, k, x)
  }

  lemma BlankRestored(pixels: seq<bv8>, blank: seq<bv8>, image: seq<bv8>, dirs: seq<Direction>, l: nat, k: nat)
    requires Decoded(pixels, blank, image, l, k, AllPixels(l, k) - Core(AllPixels(l, k), dirs)) && |image| == l * k
    requires forall n :: 0 <= n < |blank| ==> blank[n] == 0
    ensures Restored(pixels, image, dirs, l, k)
  {
    hide Core;
    forall x | InSupport(x, l, k)
      ensures At(pixels, k, x) == if x in Core(AllPixels(l, k), dirs) then 0 else At(image, k, x)
    {
      IndexInRange(x, l, k);
      assert x in AllPixels(l, k);
    }
  }

  /** The condition the server waits for: every row is missing or received, and there is a projection for
      each missing one. With q >= 1 and no two parallel directions it always suffices. */
  lemma EnoughReceived(lines: seq<ReceivedLine>, dirs: seq<Direction>, l: nat, k: nat, image: seq<bv8>)
    requires Received(lines, l, k, image)
    requires (forall d :: d in dirs ==> d.q > 0) && Independent(dirs)
    requires |lines| + |dirs| >= l
    ensures Peelable(Missing(lines, l, k), dirs)
  {
    DistinctRows(lines, l, k, image);
    assert RowNumbers(lines) <= Interval(l);
    FewRowsPeelable(Missing(lines, l, k), dirs, Interval(l) - RowNumbers(lines));
  }

  /** Angles with q = 1 and different p are never parallel, so they always suffice. */
  lemma UnitAnglesEnough(lines: seq<ReceivedLine>, dirs: seq<Direction>, l: nat, k: nat, image: seq<bv8>)
    requires Received(lines, l, k, image) && |lines| + |dirs| >= l
    requires forall i :: 0 <= i < |dirs| ==> dirs[i].q == 1
    requires forall i, j :: 0 <= i < j < |dirs| ==> dirs[i].p != dirs[j].p
    ensures Peelable(Missing(lines, l, k), dirs)
  {
    EnoughReceived(lines, dirs, l, k, image);
  }

  ghost function Interval(n: nat): (s: set<int>)
    ensures forall r :: r in s <==> 0 <= r < n
    ensures |s| == n
  {
    if n == 0 then {} else Interval(n - 1) + {n - 1}
  }

  lemma {:induction false} DistinctRows(lines: seq<ReceivedLine>, l: nat, k: nat, image: seq<bv8>)
    requires Received(lines, l, k, image)
    ensures |RowNumbers(lines)| == |lines|
  {
    if lines == [] {
      assert RowNumbers(lines) == {};
    } else {
      var m := |lines| - 1;
      DistinctRows(lines[..m], l, k, image);
      var last := lines[m].numLine;
      assert RowNumbers(lines) == RowNumbers(lines[..m]) + {last} by {
        forall n | n in RowNumbers(lines)
          ensures n in RowNumbers(lines[..m]) + {last}
        {
          var j :| 0 <= j <= m && lines[j].numLine == n;
          assert j < m ==> lines[..m][j].numLine == n;
        }
      }
      assert last !in RowNumbers(lines[..m]);
    }
  }

  /** The rows of a support with the given numbers. */
  method KeepRows(support: Support, kept: seq<nat>) returns (lines: seq<ReceivedLine>)
    requires support.Valid()
    requires forall i :: 0 <= i < |kept| ==> kept[i] < support.l
    requires forall i, j :: 0 <= i < j < |kept| ==> kept[i] != kept[j]
    ensures |lines| == |kept| && forall i :: 0 <= i < |kept| ==> lines[i].numLine == kept[i]
    ensures Received(lines, support.l, support.k, support.pixels[..])
  {
    lines := [];
    var i := 0;
    while i < |kept|
      invariant 0 <= i <= |kept| && |lines| == i
      invariant forall j :: 0 <= j < i ==> lines[j].numLine == kept[j]
      invariant Received(lines, support.l, support.k, support.pixels[..])
    {
      var line := CopyRow(support, kept[i]);
      lines := lines + [line];
      i := i + 1;
    }
  }

  method CopyRow(support: Support, r: nat) returns (line: ReceivedLine)
    requires support.Valid() && r < support.l
    ensures line.numLine == r && |line.val| == support.k
    ensures forall c :: 0 <= c < support.k ==> line.val[c] == At(support.pixels[..], support.k, Pixel(r, c))
  {
    RowFits(r, support.l, support.k);
    line := ReceivedLine(r, support.pixels[r * support.k..r * support.k + support.k]);
    forall c | 0 <= c < support.k
      ensures line.val[c] == At(support.pixels[..], support.k, Pixel(r, c))
    {
      IndexInRange(Pixel(r, c), support.l, support.k);
    }
  }

  /** Transform, lose any rows, and decode from the kept rows and the projections. */
  method SystematicRoundTrip(support: Support, dirs: seq<Direction>, kept: seq<nat>) returns (copy: Support, ok: bool)
    requires support.Valid() && forall d :: d in dirs ==> d.q >= 0
    requires forall i :: 0 <= i < |kept| ==> kept[i] < support.l
    requires forall i, j :: 0 <= i < j < |kept| ==> kept[i] != kept[j]
    ensures (forall d :: d in dirs ==> d.q > 0) && Independent(dirs) && |kept| + |dirs| >= support.l ==> ok
    ensures Usable(dirs) && Katz(dirs, support.l, support.k) ==> ok
    ensures ok ==> copy.pixels[..] == support.pixels[..]
    ensures support.pixels[..] == old(support.pixels[..])
  {
    var projections := Project(support, dirs);
    var lines := KeepRows(support, kept);
    copy := new Support(support.l, support.k);
    ok := InverseSystem(copy, projections, lines, support.pixels[..]);
    if (forall d :: d in dirs ==> d.q > 0) && Independent(dirs) && |kept| + |dirs| >= support.l {
      EnoughReceived(lines, dirs, support.l, support.k, support.pixels[..]);
    }
    if Usable(dirs) && Katz(dirs, support.l, support.k) {
      KatzExact(dirs, support.l, support.k);
      PeelableSubset(Missing(lines, support.l, support.k), AllPixels(support.l, support.k), dirs);
    }
  }

  lemma PeelableSubset(s: set<Pixel>, t: set<Pixel>, dirs: seq<Direction>)
    requires s <= t && Peelable(t, dirs)
    ensures Peelable(s, dirs)
  {
  }
}
