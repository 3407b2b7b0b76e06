/** When the server decodes: it collects rows and projections of one image and decodes once it has as many datagrams as
    the image has rows. */
module ServerReceive {
  import opened Common
  import opened MojetteGeometry
  import opened MojetteTransform
  import opened MojetteCodec
  import opened MojetteDecoder
  import opened MojetteInverse

  /** What one datagram leads to. Undefined: the decoder is handed a row slot that was never filled. */
  datatype Outcome = Waiting | Undefined | Decoded(support: Support, ok: bool)

  /** lignes_rec, one slot for each row number. */
  type Slots = seq<Option<ReceivedLine>>

  function Empty(l: nat): (s: Slots)
    ensures |s| == l && forall i :: 0 <= i < l ==> s[i] == None
  {
    if l == 0 then [] else Empty(l - 1) + [None]
  }

  function Filled(slots: Slots): set<int> {
    set i | 0 <= i < |slots| && slots[i].Some?
  }

  /** The first n slots, which is what the decoder reads. */
  predicate PrefixFilled(slots: Slots, n: nat) {
    n <= |slots| && forall i :: 0 <= i < n ==> slots[i].Some?
  }

  /** Rows of the image, each in the slot of its number. */
  ghost predicate SlotsHold(slots: Slots, l: nat, k: nat, image: seq<bv8>) {
    && |slots| == l
    && forall i :: 0 <= i < l && slots[i].Some? ==> slots[i].value.numLine == i && LineOk(slots[i].value, k, image)
  }

  ghost predicate LineOk(line: ReceivedLine, k: nat, image: seq<bv8>) {
    |line.val| >= k && forall c :: 0 <= c < k ==> line.val[c] == At(image, k, Pixel(line.numLine, c))
  }

  function Lines(slots: Slots, n: nat): (lines: seq<ReceivedLine>)
    requires PrefixFilled(slots, n)
    ensures |lines| == n && forall i :: 0 <= i < n ==> lines[i] == slots[i].value
  {
    if n == 0 then [] else Lines(slots, n - 1) + [slots[n - 1].value]
  }

  lemma LinesReceived(slots: Slots, n: nat, l: nat, k: nat, image: seq<bv8>)
    requires SlotsHold(slots, l, k, image) && PrefixFilled(slots, n)
    ensures Received(Lines(slots, n), l, k, image)
  {
    var lines := Lines(slots, n);
    forall i | 0 <= i < |lines|
      ensures lines[i].numLine == i && LineOk(lines[i], k, image)
    {
      assert slots[i].Some?;
    }
  }

  /** The pixels of row n and of those after it. */
  ghost function RowsFrom(n: nat, l: nat, k: nat): set<Pixel> {
    set x | x in AllPixels(l, k) && x.row >= n
  }

  /** What the decoder takes for missing after n row datagrams. */
  lemma MissingRows(slots: Slots, n: nat, l: nat, k: nat, image: seq<bv8>)
    requires SlotsHold(slots, l, k, image) && PrefixFilled(slots, n)
    ensures Missing(Lines(slots, n), l, k) == RowsFrom(n, l, k)
  {
    var lines := Lines(slots, n);
    forall x | x in AllPixels(l, k)
      ensures x.row in RowNumbers(lines) <==> x.row < n
    {
      if x.row < n {
        assert slots[x.row].Some? && lines[x.row].numLine == x.row;
      }
      if x.row in RowNumbers(lines) {
        var i :| 0 <= i < |lines| && lines[i].numLine == x.row;
        assert slots[i].Some?;
      }
    }
  }

  /** With n row datagrams received, the decoder finds its slots filled exactly when the rows are the first n. */
  lemma PrefixIff(slots: Slots, n: nat)
    requires |Filled(slots)| <= n <= |slots|
    ensures PrefixFilled(slots, n) <==> Filled(slots) == Interval(n)
  {
    if PrefixFilled(slots, n) {
      assert Interval(n) <= Filled(slots);
      SubsetSize(Interval(n), Filled(slots));
      SameSize(Interval(n), Filled(slots));
    } else {
      var i :| 0 <= i < n && slots[i].None?;
      assert i in Interval(n) && i !in Filled(slots);
    }
  }

  lemma {:induction false} SameSize<T>(a: set<T>, b: set<T>)
    requires a <= b && |a| == |b|
    ensures a == b
    decreases |b|
  {
    if x :| x in a {
      SameSize(a - {x}, b - {x});
      assert a == (a - {x}) + {x} && b == (b - {x}) + {x};
    } else {
      assert a == {} && |b| == 0;
    }
  }

  /** The received rows are the first ones exactly when no lost row comes before a received one. */
  lemma {:induction false} FirstRowsIff(rows: set<int>, l: nat)
    requires rows <= Interval(l)
    ensures rows == Interval(|rows|) <==> forall r, s :: s in rows && 0 <= r < s ==> r in rows
    decreases l
  {
    if l > 0 {
      if l - 1 !in rows {
        FirstRowsIff(rows, l - 1);
      } else if forall r, s :: s in rows && 0 <= r < s ==> r in rows {
        assert rows == Interval(l);
      }
    }
  }

  lemma FillSlot(slots: Slots, r: nat, line: ReceivedLine)
    requires r < |slots|
    ensures Filled(slots[r := Some(line)]) == Filled(slots) + {r}
    ensures |Filled(slots[r := Some(line)])| == |Filled(slots)| + if r in Filled(slots) then 0 else 1
  {
    assert Filled(slots[r := Some(line)]) == Filled(slots) + {r};
    assert r in Filled(slots) ==> Filled(slots) + {r} == Filled(slots);
  }

  lemma NoneFilled(l: nat)
    ensures Filled(Empty(l)) == {}
  {
  }

  /** Projections of the image that share no memory. */
  ghost predicate ProjectionsHold(projections: seq<Projection>, l: nat, k: nat, image: seq<bv8>)
    reads Bins(projections)
  {
    && (forall i :: 0 <= i < |projections| ==> projections[i].Valid(l, k)
                                               && Holds(projections[i].bins[..], projections[i].d, l, k,
                                                        AllPixels(l, k), image))
    && forall i, j :: 0 <= i < j < |projections| ==> projections[i].bins != projections[j].bins
  }

  class Server {
    const l: nat
    const k: nat
    var slots: Slots
    var nbLigneRec: nat
    var projections: seq<Projection>

    constructor (l: nat, k: nat)
      requires l > 0 && k > 0
      ensures this.l == l && this.k == k && slots == Empty(l) && nbLigneRec == 0 && projections == []
      ensures forall image :: |image| == Area(l, k) ==> Collecting(image)
    {
      this.l, this.k, nbLigneRec, projections, slots := l, k, 0, [], Empty(l);
      new;
      NoneFilled(l);
    }

    /** Between two datagrams: rows and projections of the image, fewer than it has rows. A row that has come twice
        counts twice. */
    ghost predicate Collecting(image: seq<bv8>)
      reads this, Bins(projections)
    {
      && l > 0 && k > 0 && |image| == Area(l, k)
      && SlotsHold(slots, l, k, image) && |Filled(slots)| <= nbLigneRec
      && ProjectionsHold(projections, l, k, image)
      && nbLigneRec + |projections| < l
    }

    /** Stores one row; the first one starts a new table. */
    method StoreLine(num: nat, val: seq<bv8>, ghost image: seq<bv8>)
      requires Collecting(image) && num < l && LineOk(ReceivedLine(num, val), k, image)
      modifies this`slots, this`nbLigneRec
      ensures SlotsHold(slots, l, k, image) && nbLigneRec == old(nbLigneRec) + 1
      ensures Filled(slots) == old(Filled(slots)) + {num}
      ensures |Filled(slots)| == |old(Filled(slots))| + if num in old(Filled(slots)) then 0 else 1
    {
      if nbLigneRec == 0 {
        slots := Empty(l);
        NoneFilled(l);
        assert old(Filled(slots)) == {};
      }
      FillSlot(slots, num, ReceivedLine(num, val));
      nbLigneRec := nbLigneRec + 1;
      slots := slots[num := Some(ReceivedLine(num, val))];
    }

    /** Hands the first nb_ligne_rec slots and all projections to the decoder, and starts over. */
    method Decode(ghost image: seq<bv8>) returns (r: Outcome)
      requires l > 0 && k > 0 && |image| == Area(l, k)
      requires SlotsHold(slots, l, k, image) && |Filled(slots)| <= nbLigneRec <= l
      requires ProjectionsHold(projections, l, k, image) && nbLigneRec + |projections| == l
      modifies this, Bins(projections)
      ensures nbLigneRec == 0 && projections == [] && slots == Empty(l)
      ensures r.Undefined? <==> old(Filled(slots)) != Interval(old(nbLigneRec))
      ensures r.Undefined? || r.Decoded?
      ensures r.Decoded? ==> (r.ok <==> Peelable(RowsFrom(old(nbLigneRec), l, k), old(Directions(projections))))
      ensures r.Decoded? && SuitableAngles(old(Directions(projections))) ==> r.ok
      ensures r.Decoded? && r.ok ==> r.support.pixels[..] == image
    {
      hide Fit, Transformed, Interval, Filled, LineOk, SuitableAngles, Received, Peelable, Missing, RowsFrom;
      PrefixIff(slots, nbLigneRec);
      StartsEmpty(l, k, image);
      if PrefixFilled(slots, nbLigneRec) {
        var lines := Lines(slots, nbLigneRec);
        LinesReceived(slots, nbLigneRec, l, k, image);
        MissingRows(slots, nbLigneRec, l, k, image);
        var support := new Support(l, k);
        DecoderReady(support, projections, image);
        var ok := InverseSystem(support, projections, lines, image);
        DecodesIfSuitable(lines, Directions(projections), l, k, image);
        r := Decoded(support, ok);
      } else {
        r := Undefined;
      }
      projections, nbLigneRec, slots := [], 0, Empty(l);
    }

    /** The three tests at the end of the receive loop. At most one of them fires, and only with l datagrams. */
    method Check(ghost image: seq<bv8>) returns (r: Outcome)
      requires l > 0 && k > 0 && |image| == Area(l, k)
      requires SlotsHold(slots, l, k, image) && |Filled(slots)| <= nbLigneRec
      requires ProjectionsHold(projections, l, k, image) && nbLigneRec + |projections| <= l
      modifies this, Bins(projections)
      ensures r.Waiting? <==> old(nbLigneRec + |projections|) < l
      ensures r.Waiting? ==> slots == old(slots) && nbLigneRec == old(nbLigneRec) && projections == old(projections)
                             && Collecting(image)
      ensures !r.Waiting? ==> nbLigneRec == 0 && projections == [] && Collecting(image)
      ensures !r.Waiting? ==> (r.Undefined? <==> old(Filled(slots)) != Interval(old(nbLigneRec)))
      ensures r.Decoded? ==> (r.ok <==> Peelable(RowsFrom(old(nbLigneRec), l, k), old(Directions(projections))))
      ensures r.Decoded? && SuitableAngles(old(Directions(projections))) ==> r.ok
      ensures r.Decoded? && r.ok ==> r.support.pixels[..] == image
    {
      hide Interval, SuitableAngles, SlotsHold, Filled, Peelable, RowsFrom;
      r := Waiting;
      StartsEmpty(l, k, image);
      if l == |projections| {
        r := Decode(image);
      }
      if nbLigneRec == l {
        r := Decode(image);
      }
      if nbLigneRec + |projections| == l && nbLigneRec != l {
        r := Decode(image);
      }
    }

    /** Whether a row of the image being collected has come twice. */
    predicate Repeated()
      reads this
    {
      |Filled(slots)| < nbLigneRec
    }

    /** A datagram with a row of the image. Once a row has come twice, the image cannot be decoded any more. */
    method ReceiveLine(num: nat, val: seq<bv8>, ghost image: seq<bv8>) returns (r: Outcome)
      requires Collecting(image) && num < l && LineOk(ReceivedLine(num, val), k, image)
      modifies this, Bins(projections)
      ensures Collecting(image)
      ensures r.Waiting? <==> old(nbLigneRec + |projections|) + 1 < l
      ensures r.Waiting? ==> Filled(slots) == old(Filled(slots)) + {num} && projections == old(projections)
                             && nbLigneRec == old(nbLigneRec) + 1
      ensures !r.Waiting? ==> nbLigneRec == 0 && projections == []
      ensures !r.Waiting? ==> (r.Undefined? <==> old(Filled(slots)) + {num} != Interval(old(nbLigneRec) + 1))
      ensures num in old(Filled(slots)) || old(Repeated()) ==> if r.Waiting? then Repeated() else r.Undefined?
      ensures r.Decoded? ==> (r.ok <==> Peelable(RowsFrom(old(nbLigneRec) + 1, l, k), old(Directions(projections))))
      ensures r.Decoded? && SuitableAngles(old(Directions(projections))) ==> r.ok
      ensures r.Decoded? && r.ok ==> r.support.pixels[..] == image
    {
      hide SlotsHold, Filled, LineOk, ProjectionsHold, SuitableAngles, Interval, Empty, Peelable, RowsFrom;
      StoreLine(num, val, image);
      r := Check(image);
    }

    /** A datagram with a projection of the image. */
    method ReceiveProjection(p: Projection, ghost image: seq<bv8>) returns (r: Outcome)
      requires Collecting(image) && ProjectionsHold(projections + [p], l, k, image)
      modifies this, Bins(projections), p.bins
      ensures Collecting(image)
      ensures r.Waiting? <==> old(nbLigneRec + |projections|) + 1 < l
      ensures r.Waiting? ==> slots == old(slots) && projections == old(projections) + [p]
                             && nbLigneRec == old(nbLigneRec)
      ensures old(Repeated()) ==> if r.Waiting? then Repeated() else r.Undefined?
      ensures !r.Waiting? ==> nbLigneRec == 0 && projections == []
      ensures !r.Waiting? ==> (r.Undefined? <==> old(Filled(slots)) != Interval(old(nbLigneRec)))
      ensures r.Decoded? ==> (r.ok <==> Peelable(RowsFrom(old(nbLigneRec), l, k), old(Directions(projections + [p]))))
      ensures r.Decoded? && SuitableAngles(old(Directions(projections + [p]))) ==> r.ok
      ensures r.Decoded? && r.ok ==> r.support.pixels[..] == image
    {
      projections := projections + [p];
      r := Check(image);
    }
  }

  /** One of two rows arrives and it is not the first: with the projection that replaces the other one, decoding reads a
      slot that was never filled. */
  method FirstRowLost() returns (r: Outcome)
    ensures r.Undefined?
  {
    hide Fit, Transformed, LineOk, Server.Collecting, ProjectionsHold, Filled, Interval, Holds, At;
    var support := new Support(2, 1);
    ghost var image := support.pixels[..];
    var projections := Project(support, [Direction(0, 1)]);
    var server := new Server(2, 1);
    NoneFilled(2);
    ZeroRow(image);
    r := server.ReceiveLine(1, [0], image);
    OnlyProjection(support, projections, image);
    NotFirst();
    assert projections[0].bins in Bins(projections);
    r := server.ReceiveProjection(projections[0], image);
  }

  lemma ZeroRow(image: seq<bv8>)
    requires image == [0, 0]
    ensures LineOk(ReceivedLine(1, [0]), 1, image)
  {
    assert At(image, 1, Pixel(1, 0)) == image[1];
  }

  lemma OnlyProjection(support: Support, projections: seq<Projection>, image: seq<bv8>)
    requires Fit(support, projections) && Transformed(support, projections, image) && |projections| == 1
    ensures ProjectionsHold([] + [projections[0]], support.l, support.k, image)
  {
    hide Holds;
    assert [] + [projections[0]] == projections;
  }

  lemma NotFirst()
    ensures {} + {1} != Interval(1)
  {
    assert 0 in Interval(1);
  }

  lemma StartsEmpty(l: nat, k: nat, image: seq<bv8>)
    ensures SlotsHold(Empty(l), l, k, image) && Filled(Empty(l)) == {} && ProjectionsHold([], l, k, image)
  {
  }

  lemma DecoderReady(support: Support, projections: seq<Projection>, image: seq<bv8>)
    requires support.l > 0 && support.k > 0 && support.pixels.Length == support.l * support.k
             && |image| == Area(support.l, support.k)
    requires ProjectionsHold(projections, support.l, support.k, image) && support.pixels !in Bins(projections)
    ensures Fit(support, projections) && Transformed(support, projections, image)
  {
    forall i | 0 <= i < |projections|
      ensures projections[i].bins != support.pixels
    {
      assert projections[i].bins in Bins(projections);
    }
  }

  lemma DecodesIfSuitable(lines: seq<ReceivedLine>, dirs: seq<Direction>, l: nat, k: nat, image: seq<bv8>)
    requires Received(lines, l, k, image) && |lines| + |dirs| >= l
    ensures SuitableAngles(dirs) ==> Peelable(Missing(lines, l, k), dirs)
  {
    if SuitableAngles(dirs) {
      EnoughReceived(lines, dirs, l, k, image);
    }
  }

  /** Angles with q >= 1, no two of them parallel. */
  ghost predicate SuitableAngles(dirs: seq<Direction>) {
    (forall d :: d in dirs ==> d.q > 0) && Independent(dirs)
  }
}
