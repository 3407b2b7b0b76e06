/** The Mojette transform as a value: what each bin of a projection holds for a
    given set of pixels, and how that changes when one pixel is taken out. */
module MojetteTransform {
  import opened MojetteGeometry

  /** Position of pixel x in a support whose rows hold k pixels. */
  function Index(x: Pixel, k: nat): int {
    x.row * k + x.col
  }

  function At(image: seq<bv8>, k: nat, x: Pixel): bv8 {
    if 0 <= Index(x, k) < |image| then image[Index(x, k)] else 0
  }

  predicate InSupport(x: Pixel, l: nat, k: nat) {
    0 <= x.row < l && 0 <= x.col < k
  }

  /** Lines of a negative p start below zero and are moved up by this much. */
  function Offset(d: Direction, l: nat): int {
    if d.p < 0 then (l - 1) * d.p else 0
  }

  function BinOf(d: Direction, l: nat, x: Pixel): int {
    Line(d, x) - Offset(d, l)
  }

  function Size(d: Direction, l: nat, k: nat): int {
    Abs(d.p) * (l - 1) + Abs(d.q) * (k - 1) + 1
  }

  ghost function BinSet(s: set<Pixel>, d: Direction, l: nat, b: int): set<Pixel> {
    LineSet(s, d, b + Offset(d, l))
  }

  ghost function IndexSum(s: set<Pixel>, k: nat): int {
    if s == {} then 0 else var x :| x in s; Index(x, k) + IndexSum(s - {x}, k)
  }

  ghost function XorOver(s: set<Pixel>, image: seq<bv8>, k: nat): bv8 {
    if s == {} then 0 else var x :| x in s; At(image, k, x) ^ XorOver(s - {x}, image, k)
  }

  /** Bin b of direction d for the whole image. */
  ghost function TransformBin(image: seq<bv8>, d: Direction, l: nat, k: nat, b: int): bv8 {
    XorOver(BinSet(AllPixels(l, k), d, l, b), image, k)
  }

  ghost predicate SameTransform(f: seq<bv8>, g: seq<bv8>, dirs: seq<Direction>, l: nat, k: nat) {
    forall d, b :: d in dirs ==> TransformBin(f, d, l, k, b) == TransformBin(g, d, l, k, b)
  }

  // ---------- Indices ----------

  /** For q >= 0 every pixel falls in a bin of the projection, whatever the sign of p. */
  lemma BinInRange(d: Direction, l: nat, k: nat, x: Pixel)
    requires d.q >= 0 && InSupport(x, l, k)
    ensures 0 <= BinOf(d, l, x) < Size(d, l, k)
  {
    ScaledRange(x.col, k, d.q);
    if d.p >= 0 {
      ScaledRange(x.row, l, d.p);
    } else {
      ScaledRange(x.row, l, -d.p);
      assert x.row * (-d.p) == -(x.row * d.p) && (l - 1) * (-d.p) == -((l - 1) * d.p);
    }
  }

  /** How the bins lie: one pixel to the right is q bins further, one row down p bins, the first bin is that of a corner
      of the first column, and the last one that of the opposite corner. */
  lemma BinLayout(d: Direction, l: nat, k: nat, x: Pixel)
    requires d.q >= 0 && l > 0 && k > 0
    ensures BinOf(d, l, Pixel(x.row, x.col + 1)) == BinOf(d, l, x) + d.q
    ensures BinOf(d, l, Pixel(x.row + 1, x.col)) == BinOf(d, l, x) + d.p
    ensures d.p >= 0 ==> BinOf(d, l, Pixel(0, 0)) == 0 && BinOf(d, l, Pixel(l - 1, k - 1)) == Size(d, l, k) - 1
    ensures d.p < 0 ==> BinOf(d, l, Pixel(l - 1, 0)) == 0 && BinOf(d, l, Pixel(0, k - 1)) == Size(d, l, k) - 1
  {
    assert (x.col + 1) * d.q == x.col * d.q + d.q && (x.row + 1) * d.p == x.row * d.p + d.p;
    assert (l - 1) * (-d.p) == -((l - 1) * d.p) && d.q * (k - 1) == (k - 1) * d.q && -d.p * (l - 1) == (l - 1) * -d.p;
  }

  lemma SizePositive(d: Direction, l: nat, k: nat)
    requires l > 0 && k > 0
    ensures Size(d, l, k) >= 1
  {
    ScaledRange(0, l, Abs(d.p));
    ScaledRange(0, k, Abs(d.q));
  }

  lemma ScaledRange(r: int, n: int, m: int)
    requires 0 <= r < n && 0 <= m
    ensures 0 <= r * m <= m * (n - 1) == (n - 1) * m
  {
    ProductOrder(0, r, m);
    ProductOrder(r, n - 1, m);
  }

  lemma ProductOrder(a: int, b: int, m: int)
    requires a <= b && 0 <= m
    ensures a * m <= b * m
  {
    assert (b - a) * m >= 0;
  }

  lemma IndexInRange(x: Pixel, l: nat, k: nat)
    requires InSupport(x, l, k)
    ensures 0 <= Index(x, k) < l * k
    ensures Index(x, k) / k == x.row && Index(x, k) - x.row * k == x.col
  {
    RowFits(x.row, l, k);
    DivUnique(Index(x, k), k, x.row, x.col);
  }

  lemma RowFits(r: int, l: int, k: int)
    requires 0 <= r < l && 0 < k
    ensures 0 <= r * k <= l * k - k
  {
    assert (l - 1 - r) * k >= 0;
    assert (l - 1 - r) * k == l * k - k - r * k;
  }

  lemma DivUnique(n: int, k: int, q: int, r: int)
    requires k > 0 && n == q * k + r && 0 <= r < k
    ensures n / k == q
  {
    var d := n / k - q;
    assert n == (n / k) * k + n % k;
    assert d * k == (n / k) * k - q * k;
    assert -k < d * k < k;
    assert (d - 1) * k == d * k - k && (d + 1) * k == d * k + k;
    NonNegativeProduct(d - 1, k);
    PositiveProduct(d + 1, k);
  }

  lemma NonNegativeProduct(a: int, b: int)
    requires b > 0
    ensures a >= 0 <==> a * b >= 0
  {
  }

  lemma PixelOfIndex(n: nat, l: nat, k: nat) returns (x: Pixel)
    requires n < l * k
    ensures InSupport(x, l, k) && Index(x, k) == n
  {
    assert k > 0;
    x := Pixel(n / k, n % k);
    assert n == (n / k) * k + n % k;
    assert (n / k - l) * k == (n / k) * k - l * k;
    NonNegativeProduct(n / k - l, k);
  }

  lemma IndexInjective(x: Pixel, y: Pixel, l: nat, k: nat)
    requires InSupport(x, l, k) && InSupport(y, l, k)
    requires Index(x, k) == Index(y, k)
    ensures x == y
  {
    IndexInRange(x, l, k);
    IndexInRange(y, l, k);
  }

  // ---------- Sums over sets of pixels ----------

  lemma {:induction false} IndexSumRemove(s: set<Pixel>, k: nat, x: Pixel)
    requires x in s
    ensures IndexSum(s, k) == Index(x, k) + IndexSum(s - {x}, k)
  {
    var y :| y in s && IndexSum(s, k) == Index(y, k) + IndexSum(s - {y}, k);
    if y != x {
      IndexSumRemove(s - {y}, k, x);
      IndexSumRemove(s - {x}, k, y);
      assert s - {y} - {x} == s - {x} - {y};
    }
  }

  lemma XorSwap(a: bv8, b: bv8, c: bv8)
    ensures a ^ (b ^ c) == b ^ (a ^ c)
  {
  }

  lemma XorCancel(a: bv8, b: bv8)
    ensures (a ^ b) ^ a == b && a ^ a == 0 && a ^ 0 == a && 0 ^ a == a
  {
  }

  lemma {:induction false} XorOverRemove(s: set<Pixel>, image: seq<bv8>, k: nat, x: Pixel)
    requires x in s
    ensures XorOver(s, image, k) == At(image, k, x) ^ XorOver(s - {x}, image, k)
  {
    var y :| y in s && XorOver(s, image, k) == At(image, k, y) ^ XorOver(s - {y}, image, k);
    if y != x {
      XorOverRemove(s - {y}, image, k, x);
      XorOverRemove(s - {x}, image, k, y);
      assert s - {y} - {x} == s - {x} - {y};
      XorSwap(At(image, k, x), At(image, k, y), XorOver(s - {x} - {y}, image, k));
    }
  }

  /** Adding pixel x changes its own bin of each direction and no other. */
  lemma BinSetAdd(s: set<Pixel>, d: Direction, l: nat, b: int, x: Pixel)
    ensures BinSet(s + {x}, d, l, b) ==
            if b == BinOf(d, l, x) then BinSet(s, d, l, b) + {x} else BinSet(s, d, l, b)
  {
  }

  lemma BinSums(s: set<Pixel>, d: Direction, l: nat, k: nat, b: int, x: Pixel, image: seq<bv8>)
    requires x !in s
    ensures b != BinOf(d, l, x) ==> BinSet(s + {x}, d, l, b) == BinSet(s, d, l, b)
    ensures b == BinOf(d, l, x) ==>
              && |BinSet(s + {x}, d, l, b)| == |BinSet(s, d, l, b)| + 1
              && IndexSum(BinSet(s + {x}, d, l, b), k) == IndexSum(BinSet(s, d, l, b), k) + Index(x, k)
              && XorOver(BinSet(s + {x}, d, l, b), image, k) == XorOver(BinSet(s, d, l, b), image, k) ^ At(image, k, x)
  {
    BinSetAdd(s, d, l, b, x);
    if b == BinOf(d, l, x) {
      var t, u := BinSet(s, d, l, b), BinSet(s + {x}, d, l, b);
      assert u - {x} == t;
      IndexSumRemove(u, k, x);
      XorOverRemove(u, image, k, x);
    }
  }

  lemma SingletonSums(s: set<Pixel>, k: nat, image: seq<bv8>) returns (x: Pixel)
    requires |s| == 1
    ensures s == {x} && IndexSum(s, k) == Index(x, k) && XorOver(s, image, k) == At(image, k, x)
  {
    x :| x in s;
    assert |s - {x}| == 0;
    assert s - {x} == {};
    assert s == {x};
    IndexSumRemove(s, k, x);
    XorOverRemove(s, image, k, x);
    XorCancel(At(image, k, x), 0);
  }

  // ---------- What no decoder can do ----------

  /** The image that is 1 on t and 0 elsewhere. */
  ghost function Indicator(t: set<Pixel>, l: nat, k: nat): (image: seq<bv8>)
    ensures |image| == l * k
  {
    seq(l * k, n requires 0 <= n < l * k => if exists x :: x in t && Index(x, k) == n then 1 else 0)
  }

  lemma IndicatorAt(t: set<Pixel>, l: nat, k: nat, x: Pixel)
    requires t <= AllPixels(l, k) && InSupport(x, l, k)
    ensures At(Indicator(t, l, k), k, x) == if x in t then 1 else 0
  {
    IndexInRange(x, l, k);
    if y :| y in t && Index(y, k) == Index(x, k) {
      IndexInjective(x, y, l, k);
    }
  }

  lemma {:induction false} XorOfIndicator(s: set<Pixel>, t: set<Pixel>, l: nat, k: nat)
    requires s <= AllPixels(l, k) && t <= AllPixels(l, k)
    ensures XorOver(s, Indicator(t, l, k), k) == Parity(|s * t|)
    decreases |s|
  {
    if s != {} {
      var x :| x in s;
      XorOverRemove(s, Indicator(t, l, k), k, x);
      XorOfIndicator(s - {x}, t, l, k);
      IndicatorAt(t, l, k, x);
      MeetRemove(s, t, x);
      FlipBit(|(s - {x}) * t|);
    } else {
      assert s * t == {};
    }
  }

  lemma MeetRemove(s: set<Pixel>, t: set<Pixel>, x: Pixel)
    requires x in s
    ensures |s * t| == |(s - {x}) * t| + if x in t then 1 else 0
  {
    if x in t {
      assert s * t == (s - {x}) * t + {x};
    } else {
      assert s * t == (s - {x}) * t;
    }
  }

  function Parity(n: nat): bv8 {
    if n % 2 == 0 then 0 else 1
  }

  lemma FlipBit(n: nat)
    ensures Parity(n + 1) == 1 ^ Parity(n)
  {
  }

  ghost function Differing(f: seq<bv8>, g: seq<bv8>, l: nat, k: nat): set<Pixel> {
    set x | x in AllPixels(l, k) && At(f, k, x) != At(g, k, x)
  }

  /** Two images with the same projections differ on a stopping set. */
  lemma DifferenceStops(f: seq<bv8>, g: seq<bv8>, dirs: seq<Direction>, l: nat, k: nat)
    requires SameTransform(f, g, dirs, l, k)
    ensures Stopping(Differing(f, g, l, k), dirs)
  {
    var t := Differing(f, g, l, k);
    forall d, x | d in dirs && x in t
      ensures HasMate(t, d, x)
    {
      var b := BinOf(d, l, x);
      var bin := BinSet(AllPixels(l, k), d, l, b);
      assert TransformBin(f, d, l, k, b) == TransformBin(g, d, l, k, b);
      if !HasMate(t, d, x) {
        AgreeingXor(bin - {x}, f, g, k);
        XorOverRemove(bin, f, k, x);
        XorOverRemove(bin, g, k, x);
        XorInjective(At(f, k, x), At(g, k, x), XorOver(bin - {x}, f, k));
      }
    }
  }

  lemma XorInjective(a: bv8, b: bv8, c: bv8)
    requires a ^ c == b ^ c
    ensures a == b
  {
    assert a == (a ^ c) ^ c;
    assert b == (b ^ c) ^ c;
  }

  lemma {:induction false} AgreeingXor(s: set<Pixel>, f: seq<bv8>, g: seq<bv8>, k: nat)
    requires forall x :: x in s ==> At(f, k, x) == At(g, k, x)
    ensures XorOver(s, f, k) == XorOver(s, g, k)
  {
    if s != {} {
      var x :| x in s;
      XorOverRemove(s, f, k, x);
      XorOverRemove(s, g, k, x);
      AgreeingXor(s - {x}, f, g, k);
    }
  }

  /** The projections of an l-by-k image determine it. */
  ghost predicate Injective(dirs: seq<Direction>, l: nat, k: nat) {
    forall f: seq<bv8>, g: seq<bv8> :: |f| == l * k && |g| == l * k && SameTransform(f, g, dirs, l, k) ==> f == g
  }

  /** The criterion of Katz holds exactly when the projections determine the image,
      so the peeling decoder succeeds whenever any decoder could. */
  lemma KatzUnique(dirs: seq<Direction>, l: nat, k: nat)
    requires forall d :: d in dirs ==> d.q >= 0 && Coprime(d)
    requires Independent(dirs)
    ensures Injective(dirs, l, k) <==> Katz(dirs, l, k)
  {
    if Katz(dirs, l, k) {
      KatzExact(dirs, l, k);
      forall f: seq<bv8>, g: seq<bv8> | |f| == l * k && |g| == l * k && SameTransform(f, g, dirs, l, k)
        ensures f == g
      {
        DifferenceStops(f, g, dirs, l, k);
        forall n | 0 <= n < l * k
          ensures f[n] == g[n]
        {
          var x := PixelOfIndex(n, l, k);
          assert x !in Differing(f, g, l, k);
        }
      }
    } else {
      var t := GhostFits(dirs, l, k);
      GhostInvisible(t, dirs, l, k);
      var x :| x in t;
      IndicatorAt(t, l, k, x);
      IndicatorAt({}, l, k, x);
      assert Indicator(t, l, k) != Indicator({}, l, k);
    }
  }

  lemma GhostInvisible(t: set<Pixel>, dirs: seq<Direction>, l: nat, k: nat)
    requires t <= AllPixels(l, k)
    requires forall d :: d in dirs ==> EvenOn(t, d)
    ensures SameTransform(Indicator(t, l, k), Indicator({}, l, k), dirs, l, k)
  {
    forall d, b | d in dirs
      ensures TransformBin(Indicator(t, l, k), d, l, k, b) == TransformBin(Indicator({}, l, k), d, l, k, b)
    {
      var bin := BinSet(AllPixels(l, k), d, l, b);
      XorOfIndicator(bin, t, l, k);
      XorOfIndicator(bin, {}, l, k);
      assert bin * t == LineSet(t, d, b + Offset(d, l));
      assert EvenOn(t, d);
      assert bin * {} == {};
    }
  }
}
